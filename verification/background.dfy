/** `checkAndRecordTweet` (background.ts:8-62) as a pure function: the
    parsed URL, the tab title, the clock and the stored history come in as
    parameters; the new history and the update message come out. */
module Background {
  import opened Wrappers
  import opened Utf16
  import opened History
  import StatusPath
  import TitleGrammar
  import Seqs

  /** What `new URL(url)` yields that the recorder reads. */
  datatype ParsedUrl = ParsedUrl(hostname: Str, pathname: Str)

  /** The visible effect of one check: either nothing (no store write, no
      message), or the history written back together with the message sent. */
  datatype Effect = Unchanged | Inserted(history: seq<TweetRecord>, message: Message)

  const SummaryLimit: nat := 30
  const Ellipsis: Str := Lift("...")

  /** The stored summary of the tweet text (background.ts:25). */
  function Summarize(content: Str): (r: Str)
    ensures |content| <= SummaryLimit ==> r == content
    ensures |content| > SummaryLimit ==>
              && |r| == SummaryLimit + |Ellipsis|
              && r[.. SummaryLimit] == content[.. SummaryLimit]
              && r[SummaryLimit ..] == Ellipsis
    ensures |r| <= SummaryLimit + 3
  {
    if |content| > SummaryLimit then content[.. SummaryLimit] + Ellipsis else content
  }

  /** The dedup insert of background.ts:40-42: the item goes to the head of
      the history unless a record with its tweet id is already there, in
      which case nothing is inserted (`None`), whatever else differs. */
  function InsertIfAbsent(history: seq<TweetRecord>, item: TweetRecord): (r: Option<seq<TweetRecord>>)
    ensures r.None? <==> HasId(history, item.tweetId)
    ensures r.Some? ==> |r.value| == |history| + 1 && r.value[0] == item && r.value[1..] == history
    ensures r.Some? && UniqueIds(history) ==> UniqueIds(r.value)
  {
    if HasId(history, item.tweetId) then None
    else
      var h := [item] + history;
      assert forall i :: 1 <= i < |h| ==> h[i] == history[i - 1];
      Some(h)
  }

  /** One run of `checkAndRecordTweet(url)`. `parsed` is `None` when
      `new URL(url)` throws, which the surrounding `catch` turns into no
      effect. The record is built from the leftmost path match and the lazy
      title match and is put at the head of the history unless its tweet id
      is already stored. */
  function CheckAndRecordTweet(
    url: Str,
    parsed: Option<ParsedUrl>,
    tabTitle: Option<Str>,
    now: int,
    stored: Option<seq<TweetRecord>>
  ): (e: Effect)
    ensures parsed.None? || !StatusPath.IsTweetHost(parsed.value.hostname) ==> e.Unchanged?
    ensures parsed.Some? && StatusPath.ExtractTweetId(parsed.value.pathname).None? ==> e.Unchanged?
    ensures TitleGrammar.ParseTitle(OrEmpty(tabTitle)).None? ==> e.Unchanged?
    ensures e.Inserted? ==>
              var before := OrEmpty(stored);
              var rec := e.message.data;
              && e.history == [rec] + before
              && !HasId(before, rec.tweetId)
              && StatusPath.ExtractTweetId(parsed.value.pathname) == Some(rec.tweetId)
              && rec.url == url
              && rec.timestamp == now
              && rec.author == Some(TitleGrammar.ParseTitle(OrEmpty(tabTitle)).value.author)
              && rec.author.Some? && |rec.author.value| > 0
              && IsPrefix(rec.author.value, OrEmpty(tabTitle))
              && rec.title == Some(Summarize(TitleGrammar.ParseTitle(OrEmpty(tabTitle)).value.content))
    ensures e.Inserted? && UniqueIds(OrEmpty(stored)) ==> UniqueIds(e.history)
    ensures parsed.Some? && StatusPath.ExtractTweetId(parsed.value.pathname).Some? ==>
              var id := StatusPath.ExtractTweetId(parsed.value.pathname).value;
              && (HasId(OrEmpty(stored), id) ==> e.Unchanged?)
              && ((&& StatusPath.IsTweetHost(parsed.value.hostname)
                   && TitleGrammar.ParseTitle(OrEmpty(tabTitle)).Some?
                   && !HasId(OrEmpty(stored), id))
                  ==> e.Inserted?)
  {
    match parsed
    case None => Unchanged
    case Some(u) =>
      if !StatusPath.IsTweetHost(u.hostname) then Unchanged
      else
        match StatusPath.ExtractTweetId(u.pathname)
        case None => Unchanged
        case Some(tweetId) =>
          match TitleGrammar.ParseTitle(OrEmpty(tabTitle))
          case None => Unchanged
          case Some(parts) =>
            var item := TweetRecord(tweetId, url, now, Some(parts.author), Some(Summarize(parts.content)));
            match InsertIfAbsent(OrEmpty(stored), item)
            case None => Unchanged
            case Some(history) => Inserted(history, TweetHistoryUpdated(item))
  }

  /** Summarizing a summary changes nothing: a long summary is 30 units of
      content followed by the ellipsis, and those 30 units are kept. */
  lemma SummarizeIdempotent(content: Str)
    ensures Summarize(Summarize(content)) == Summarize(content)
  {
    if |content| > SummaryLimit {
      var s := Summarize(content);
      assert s[.. SummaryLimit] == content[.. SummaryLimit];
    }
  }

  /** A tab without a title never produces a record: the empty title does
      not match the grammar. */
  lemma MissingTitleNeverRecords(url: Str, parsed: Option<ParsedUrl>, now: int, stored: Option<seq<TweetRecord>>)
    ensures CheckAndRecordTweet(url, parsed, None, now, stored) == Unchanged
    ensures CheckAndRecordTweet(url, parsed, Some([]), now, stored) == Unchanged
  {
    assert TitleGrammar.ParseTitle([]).None?;
  }

  /** One navigation event as the recorder sees it. */
  datatype Visit = Visit(url: Str, parsed: Option<ParsedUrl>, tabTitle: Option<Str>, now: int)

  /** The stored history after the recorder has handled one visit: either
      unchanged or one record longer at the front. */
  function Step(v: Visit, history: seq<TweetRecord>): (r: seq<TweetRecord>)
    ensures |history| <= |r| <= |history| + 1
    ensures Seqs.IsSuffix(history, r)
    ensures UniqueIds(history) ==> UniqueIds(r)
  {
    var e := CheckAndRecordTweet(v.url, v.parsed, v.tabTitle, v.now, Some(history));
    if e.Inserted? then e.history else history
  }

  /** The history after the recorder has handled each visit in turn. */
  function Replay(visits: seq<Visit>, history: seq<TweetRecord>): seq<TweetRecord> {
    Seqs.FoldLeft(Step, visits, history)
  }

  /** Over any sequence of visits the history keeps one record per tweet id. */
  lemma ReplayKeepsIdsUnique(visits: seq<Visit>, history: seq<TweetRecord>)
    requires UniqueIds(history)
    ensures UniqueIds(Replay(visits, history))
  {
    Seqs.FoldPreserves(Step, UniqueIds, visits, history);
  }

  /** Over any sequence of visits new records go in front and a stored record
      is never replaced or moved, so the record from a tweet's first
      successful visit is the one that stays. */
  lemma ReplayKeepsFirstRecords(visits: seq<Visit>, history: seq<TweetRecord>)
    ensures Seqs.IsSuffix(history, Replay(visits, history))
  {
    Seqs.FoldKeepsSuffix(Step, visits, history);
  }
}
