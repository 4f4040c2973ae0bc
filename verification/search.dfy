/** The popup's title search (search.ts:28-40): the stored records whose
    title contains the query. The full-text index set up beside it is not
    consulted by this code path. */
module Search {
  import opened Wrappers
  import opened Utf16
  import opened History
  import opened Seqs

  /** `q` occurs in `s` starting at index `i`. */
  ghost predicate OccursAt(s: Str, q: Str, i: int) {
    0 <= i && i + |q| <= |s| && s[i .. i + |q|] == q
  }

  /** `s.includes(q, from)`: some occurrence of `q` starts at or after `from`. */
  function IncludesFrom(s: Str, q: Str, from: nat): (b: bool)
    requires from <= |s|
    ensures b <==> exists i :: from <= i && OccursAt(s, q, i)
    decreases |s| - from
  {
    if from + |q| > |s| then false
    else if s[from .. from + |q|] == q then assert OccursAt(s, q, from); true
    else IncludesFrom(s, q, from + 1)
  }

  /** `s.includes(q)`. */
  function Includes(s: Str, q: Str): (b: bool)
    ensures b <==> exists i :: OccursAt(s, q, i)
  {
    IncludesFrom(s, q, 0)
  }

  /** `item.title?.includes(question)`: an item without a title never matches. */
  function TitleMatches(item: TweetRecord, query: Str): (b: bool)
    ensures b <==> item.title.Some? && exists i :: OccursAt(item.title.value, query, i)
  {
    item.title.Some? && Includes(item.title.value, query)
  }

  /** `search(question)` over the stored history; a missing store is empty. */
  function SearchHistory(stored: Option<seq<TweetRecord>>, query: Str): (r: seq<TweetRecord>)
    ensures IsSubsequence(r, OrEmpty(stored))
    ensures forall i :: 0 <= i < |r| ==>
              r[i].title.Some? && exists k :: OccursAt(r[i].title.value, query, k)
    ensures forall x :: x in OrEmpty(stored) && x.title.Some? && Includes(x.title.value, query) ==>
              multiset(r)[x] == multiset(OrEmpty(stored))[x]
    ensures stored.None? ==> r == []
  {
    Filter(item => TitleMatches(item, query), OrEmpty(stored))
  }

  /** The empty query occurs in every title, so it returns exactly the
      records that have a title. */
  lemma EmptyQueryReturnsTitled(stored: Option<seq<TweetRecord>>)
    ensures forall x :: x in OrEmpty(stored) ==>
              (x in SearchHistory(stored, []) <==> x.title.Some?)
  {
    var h := OrEmpty(stored);
    var r := SearchHistory(stored, []);
    forall x | x in h
      ensures x in r <==> x.title.Some?
    {
      if x.title.Some? {
        assert OccursAt(x.title.value, [], 0);
        assert multiset(r)[x] == multiset(h)[x] > 0;
      }
    }
  }

  /** Every record with no author, the shape the search sees when authors
      are ignored. */
  function WithoutAuthors(h: seq<TweetRecord>): (r: seq<TweetRecord>)
    ensures |r| == |h|
    ensures forall i :: 0 <= i < |h| ==> r[i] == h[i].(author := None)
  {
    if h == [] then [] else [h[0].(author := None)] + WithoutAuthors(h[1..])
  }

  /** Only titles are consulted: erasing every author first selects the same
      records, with their authors erased. */
  lemma {:induction false} SearchIgnoresAuthor(h: seq<TweetRecord>, query: Str)
    ensures SearchHistory(Some(WithoutAuthors(h)), query) == WithoutAuthors(SearchHistory(Some(h), query))
  {
    if h != [] {
      SearchIgnoresAuthor(h[1..], query);
      var p := (item: TweetRecord) => TitleMatches(item, query);
      assert WithoutAuthors(h)[1..] == WithoutAuthors(h[1..]);
      assert TitleMatches(h[0].(author := None), query) == TitleMatches(h[0], query);
      if TitleMatches(h[0], query) {
        assert Filter(p, h) == [h[0]] + Filter(p, h[1..]);
        assert WithoutAuthors([h[0]] + Filter(p, h[1..])) == [h[0].(author := None)] + WithoutAuthors(Filter(p, h[1..]));
      }
    }
  }
}
