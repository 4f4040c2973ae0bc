/** The stored visit record and the update message (types/index.ts), and the
    facts about a history list that every writer keeps. */
module History {
  import opened Wrappers
  import opened Utf16

  /** One visited tweet. `author` and `title` are optional in the stored
      shape; the recorder always fills them. */
  datatype TweetRecord = TweetRecord(
    tweetId: Str,
    url: Str,
    timestamp: int,
    author: Option<Str>,
    title: Option<Str>
  )

  /** The only message kind, `TWEET_HISTORY_UPDATED`, carrying the new record. */
  datatype Message = TweetHistoryUpdated(data: TweetRecord)

  /** `history.some(item => item.tweetId === id)`: a scan from the front
      that stops at the first record with that id. */
  function HasId(history: seq<TweetRecord>, id: Str): (b: bool)
    ensures b <==> exists i :: 0 <= i < |history| && history[i].tweetId == id
  {
    if history == [] then false
    else if history[0].tweetId == id then true
    else
      var rest := HasId(history[1..], id);
      assert forall i :: 1 <= i < |history| ==> history[i] == history[1..][i - 1];
      rest
  }

  /** At most one record per tweet id. */
  predicate UniqueIds(history: seq<TweetRecord>) {
    forall i, j :: 0 <= i < j < |history| ==> history[i].tweetId != history[j].tweetId
  }
}
