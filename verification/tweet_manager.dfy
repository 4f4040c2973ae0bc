/** The navigation tree of tweetManager.ts: a list of root visits, each with
    the visits reached from it. Lookup of the origin is by tweet id among the
    roots only. */
module TweetManager {
  import opened Wrappers
  import opened Utf16

  /** The manager's own tweet shape (tweetManager.ts:1-9). */
  datatype Tweet = Tweet(
    tweetId: Str,
    author: Str,
    content: Str,
    title: Str,
    timestamp: int,
    url: Str,
    children: seq<Tweet>
  )

  datatype Manager = Manager(roots: seq<Tweet>)

  /** `new TweetManager()`. */
  function NewManager(): (r: Manager)
    ensures r.roots == []
  {
    Manager([])
  }

  /** `getTweetHistory()`: the root list itself, not a copy. */
  function GetTweetHistory(m: Manager): (r: seq<Tweet>)
    ensures r == m.roots
  {
    m.roots
  }

  /** `clear()`. */
  function Clear(m: Manager): (r: Manager)
    ensures r == NewManager()
  {
    Manager([])
  }

  /** `tweetHistory.find(t => t.tweetId === id)`, as an index. */
  function FindRoot(roots: seq<Tweet>, id: Str): (r: Option<nat>)
    ensures r.Some? ==> r.value < |roots| && roots[r.value].tweetId == id
    ensures r.Some? ==> forall j :: 0 <= j < r.value ==> roots[j].tweetId != id
    ensures r.None? ==> forall j :: 0 <= j < |roots| ==> roots[j].tweetId != id
  {
    if roots == [] then None
    else if roots[0].tweetId == id then Some(0)
    else match FindRoot(roots[1..], id)
      case None => None
      case Some(i) => Some(i + 1)
  }

  /** `addTweet(originalTweet, targetTweet)`. With no origin, or an origin
      that is not a root, the target becomes a new last root with no
      children; otherwise the target, as given, is appended to the children
      of the first root with the origin's id. */
  function AddTweet(m: Manager, origin: Option<Tweet>, target: Tweet): (r: Manager)
    ensures origin.None? || FindRoot(m.roots, origin.value.tweetId).None? ==>
              && |r.roots| == |m.roots| + 1
              && r.roots[.. |m.roots|] == m.roots
              && r.roots[|m.roots|] == target.(children := [])
    ensures origin.Some? && FindRoot(m.roots, origin.value.tweetId).Some? ==>
              var i := FindRoot(m.roots, origin.value.tweetId).value;
              && |r.roots| == |m.roots|
              && r.roots[i] == m.roots[i].(children := m.roots[i].children + [target])
              && forall j :: 0 <= j < |m.roots| && j != i ==> r.roots[j] == m.roots[j]
  {
    var found := if origin.None? then None else FindRoot(m.roots, origin.value.tweetId);
    match found
    case None => Manager(m.roots + [target.(children := [])])
    case Some(i) =>
      var root := m.roots[i];
      Manager(m.roots[i := root.(children := root.children + [target])])
  }

  /** Every visit recorded in the tree: the roots and their direct children. */
  function Size(roots: seq<Tweet>): nat {
    if roots == [] then 0 else 1 + |roots[0].children| + Size(roots[1..])
  }

  lemma {:induction false} SizeAppend(roots: seq<Tweet>, t: Tweet)
    ensures Size(roots + [t]) == Size(roots) + 1 + |t.children|
  {
    if roots != [] {
      assert (roots + [t])[1..] == roots[1..] + [t];
      SizeAppend(roots[1..], t);
    }
  }

  lemma {:induction false} SizeUpdate(roots: seq<Tweet>, i: nat, t: Tweet)
    requires i < |roots|
    ensures Size(roots[i := t]) == Size(roots) - |roots[i].children| + |t.children|
  {
    if i > 0 {
      assert roots[i := t][1..] == roots[1..][i - 1 := t];
      SizeUpdate(roots[1..], i - 1, t);
    }
  }

  /** A fresh manager and a cleared one hold no visits. */
  lemma NewAndClearAreEmpty(m: Manager)
    ensures GetTweetHistory(NewManager()) == []
    ensures GetTweetHistory(Clear(m)) == []
    ensures Size(GetTweetHistory(Clear(m))) == 0
  {
  }

  /** Each `addTweet` records exactly one more visit; nothing is deduplicated,
      so adding the same target twice records two. */
  lemma AddTweetGrowsByOne(m: Manager, origin: Option<Tweet>, target: Tweet)
    ensures Size(AddTweet(m, origin, target).roots) == Size(m.roots) + 1
  {
    var found := if origin.None? then None else FindRoot(m.roots, origin.value.tweetId);
    match found
    case None =>
      SizeAppend(m.roots, target.(children := []));
    case Some(i) =>
      var root := m.roots[i];
      SizeUpdate(m.roots, i, root.(children := root.children + [target]));
  }

  /** Lookup is among the roots only: an origin that appears only as a child
      does not link the target below it, the target becomes a new root. */
  lemma ChildOriginStartsNewRoot(m: Manager, origin: Tweet, target: Tweet, i: nat, c: nat)
    requires i < |m.roots| && c < |m.roots[i].children|
    requires m.roots[i].children[c].tweetId == origin.tweetId
    requires forall j :: 0 <= j < |m.roots| ==> m.roots[j].tweetId != origin.tweetId
    ensures AddTweet(m, Some(origin), target).roots == m.roots + [target.(children := [])]
  {
    var r := AddTweet(m, Some(origin), target);
    assert r.roots == r.roots[.. |m.roots|] + [r.roots[|m.roots|]];
  }
}
