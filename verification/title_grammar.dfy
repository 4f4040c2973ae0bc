/** The tab-title grammar of background.ts:21, the anchored regular
    expression `^(.+?)\s+on\s+X:\s+"(.+?)"`, as a backtracking-equivalent
    scanner. Both groups are lazy, so the shortest author that lets the rest
    match is taken, and the content stops at the first closing quote. */
module TitleGrammar {
  import opened Wrappers
  import opened Utf16
  import opened Seqs

  const On: Str := Lift("on")
  const XColon: Str := Lift("X:")
  const Quote: Unit := 0x22

  datatype TitleParts = TitleParts(author: Str, content: Str)

  /** Every unit of `t[lo .. hi]` is matched by `\s`. */
  ghost predicate SpacesIn(t: Str, lo: int, hi: int) {
    0 <= lo <= hi <= |t| && forall m :: lo <= m < hi ==> IsSpace(t[m])
  }

  /** Every unit of `t[lo .. hi]` is matched by `.`. */
  ghost predicate DotsIn(t: Str, lo: int, hi: int) {
    0 <= lo <= hi <= |t| && forall m :: lo <= m < hi ==> !IsLineTerminator(t[m])
  }

  /** `\s+on\s+X:\s+"(.+?)"` matches `t` from `a`: the three whitespace runs
      end at `e1`, `e2`, `e3` (where the opening quote is), and the closing
      quote is at `k`; the content is `t[e3 + 1 .. k]`. */
  ghost predicate TailMatchesAt(t: Str, a: int, e1: int, e2: int, e3: int, k: int) {
    && 0 <= a < e1 && e1 + 2 < e2 && e2 + 2 < e3 && e3 + 1 < k < |t|
    && SpacesIn(t, a, e1) && t[e1 .. e1 + 2] == On
    && SpacesIn(t, e1 + 2, e2) && t[e2 .. e2 + 2] == XColon
    && SpacesIn(t, e2 + 2, e3) && t[e3] == Quote
    && DotsIn(t, e3 + 1, k) && t[k] == Quote
  }

  /** The whole pattern matches `t` with an author of `a` units. */
  ghost predicate MatchesAt(t: Str, a: int, e1: int, e2: int, e3: int, k: int) {
    && TailMatchesAt(t, a, e1, e2, e3, k)
    && 1 <= a && DotsIn(t, 0, a)
  }

  /** Where a greedy `\s+` starting at `j` stops. */
  function SpaceRunEnd(t: Str, j: nat): (k: nat)
    requires j <= |t|
    ensures j <= k <= |t|
    ensures forall m :: j <= m < k ==> IsSpace(t[m])
    ensures k < |t| ==> !IsSpace(t[k])
    decreases |t| - j
  {
    if j == |t| || !IsSpace(t[j]) then j else SpaceRunEnd(t, j + 1)
  }

  /** The lazy `(.+?)"` once its first unit is consumed: the first quote at
      or after `j`, unless a line terminator comes first. */
  function ClosingQuote(t: Str, j: nat): (r: Option<nat>)
    requires j <= |t|
    ensures r.Some? ==> j <= r.value < |t| && t[r.value] == Quote
    ensures r.Some? ==> forall m :: j <= m < r.value ==> t[m] != Quote && !IsLineTerminator(t[m])
    ensures r.None? ==> forall k :: j <= k < |t| && DotsIn(t, j, k) ==> t[k] != Quote
    decreases |t| - j
  {
    if j == |t| then None
    else if t[j] == Quote then Some(j)
    else if IsLineTerminator(t[j]) then None
    else
      ClosingQuote(t, j + 1)
  }

  /** The matcher for `\s+on\s+X:\s+"` at `a`: where the opening quote is.
      Every `\s+` is followed by a unit that is not whitespace, so
      backtracking cannot shorten it: the greedy run is the only one that can
      succeed. */
  function OpenQuoteAt(t: Str, a: nat): (r: Option<nat>)
    requires a <= |t|
    ensures r.Some? ==> a < r.value < |t| && t[r.value] == Quote
  {
    var e1 := SpaceRunEnd(t, a);
    if e1 == a || e1 + 2 > |t| || t[e1 .. e1 + 2] != On then None
    else
      var e2 := SpaceRunEnd(t, e1 + 2);
      if e2 == e1 + 2 || e2 + 2 > |t| || t[e2 .. e2 + 2] != XColon then None
      else
        var e3 := SpaceRunEnd(t, e2 + 2);
        if e3 == e2 + 2 || e3 >= |t| || t[e3] != Quote then None
        else Some(e3)
  }

  /** The lazy `(.+?)"` from `q`: one unit, then up to the first quote. */
  function LazyContent(t: Str, q: nat): (r: Option<Str>)
    requires q <= |t|
    ensures r.Some? ==> |r.value| > 0 && NoLineTerminator(r.value)
  {
    if q == |t| || IsLineTerminator(t[q]) then None
    else
      match ClosingQuote(t, q + 1)
      case None => None
      case Some(k) => Some(t[q .. k])
  }

  /** The matcher for `\s+on\s+X:\s+"(.+?)"` at `a`; returns the content. */
  function TailAt(t: Str, a: nat): (r: Option<Str>)
    requires a <= |t|
    ensures r.Some? ==> |r.value| > 0 && NoLineTerminator(r.value)
  {
    match OpenQuoteAt(t, a)
    case None => None
    case Some(e3) => LazyContent(t, e3 + 1)
  }

  /** Where a greedy `.*` starting at `j` stops: the first line terminator
      or the end. An author can be no longer than this from the start. */
  function DotRunEnd(t: Str, j: nat): (k: nat)
    requires j <= |t|
    ensures j <= k <= |t|
    ensures forall m :: j <= m < k ==> !IsLineTerminator(t[m])
    ensures k < |t| ==> IsLineTerminator(t[k])
    decreases |t| - j
  {
    if j == |t| || IsLineTerminator(t[j]) then j else DotRunEnd(t, j + 1)
  }

  /** The tail matches after an author of `n` units. */
  predicate TailMatches(t: Str, n: nat) {
    n <= |t| && TailAt(t, n).Some?
  }

  /** The lazy author: the shortest length from 1 up to the longest author
      `.` can match after which the tail matches. */
  function AuthorEnd(t: Str): (r: Option<nat>)
    ensures r.Some? ==> 1 <= r.value <= DotRunEnd(t, 0) && TailMatches(t, r.value)
    ensures r.Some? ==> forall b :: 1 <= b < r.value ==> !TailMatches(t, b)
    ensures r.None? ==> forall b :: 1 <= b <= DotRunEnd(t, 0) ==> !TailMatches(t, b)
  {
    var found := (n: nat) => TailMatches(t, n);
    var r := FirstFrom(found, 1, DotRunEnd(t, 0));
    assert forall b: nat :: found(b) == TailMatches(t, b);
    r
  }

  /** `pageTitle.match(/^(.+?)\s+on\s+X:\s+"(.+?)"/)` with its two groups. */
  function ParseTitle(t: Str): (r: Option<TitleParts>)
    ensures r.Some? ==> |r.value.author| > 0 && |r.value.content| > 0
    ensures r.Some? ==> IsPrefix(r.value.author, t)
    ensures r.Some? ==> NoLineTerminator(r.value.author) && NoLineTerminator(r.value.content)
  {
    match AuthorEnd(t)
    case None => None
    case Some(n) => Some(TitleParts(t[.. n], TailAt(t, n).value))
  }

  /** What the tail matcher returns is a match of the tail pattern. */
  lemma TailAtSound(t: Str, a: nat)
    requires a <= |t| && TailAt(t, a).Some?
    ensures exists e1, e2, e3, k ::
              TailMatchesAt(t, a, e1, e2, e3, k) && TailAt(t, a).value == t[e3 + 1 .. k]
  {
    var e1 := SpaceRunEnd(t, a);
    var e2 := SpaceRunEnd(t, e1 + 2);
    var e3 := SpaceRunEnd(t, e2 + 2);
    var k := ClosingQuote(t, e3 + 2).value;
    assert TailMatchesAt(t, a, e1, e2, e3, k);
  }

  /** The greedy whitespace runs stop where a match of the pattern puts
      `on`, `X:` and the opening quote. */
  lemma OpenQuoteAtComplete(t: Str, a: nat, e1: int, e2: int, e3: int, k: int)
    requires TailMatchesAt(t, a, e1, e2, e3, k)
    ensures OpenQuoteAt(t, a) == Some(e3)
  {
    assert t[e1] == On[0] && t[e2] == XColon[0];
    assert SpaceRunEnd(t, a) == e1;
    assert SpaceRunEnd(t, e1 + 2) == e2;
    assert SpaceRunEnd(t, e2 + 2) == e3;
  }

  /** The lazy content stops no later than any quote that ends a run `.`
      matches. */
  lemma LazyContentComplete(t: Str, q: nat, k: nat)
    requires q < k < |t| && DotsIn(t, q, k) && t[k] == Quote
    ensures LazyContent(t, q).Some?
    ensures |LazyContent(t, q).value| <= k - q
  {
    assert DotsIn(t, q + 1, k);
  }

  /** Any match of the tail pattern from `a` is found by the tail matcher,
      which returns the shortest content (the lazy group). */
  lemma TailAtComplete(t: Str, a: nat, e1: int, e2: int, e3: int, k: int)
    requires TailMatchesAt(t, a, e1, e2, e3, k)
    ensures TailAt(t, a).Some?
    ensures |TailAt(t, a).value| <= k - e3 - 1
  {
    OpenQuoteAtComplete(t, a, e1, e2, e3, k);
    LazyContentComplete(t, e3 + 1, k);
  }

  /** A parsed title is a match of the whole pattern, with that author and
      content. */
  lemma ParseTitleSound(t: Str)
    requires ParseTitle(t).Some?
    ensures var m := ParseTitle(t).value;
            exists e1, e2, e3, k ::
              MatchesAt(t, |m.author|, e1, e2, e3, k) && m.content == t[e3 + 1 .. k]
  {
    var m := ParseTitle(t).value;
    assert |m.author| == AuthorEnd(t).value;
    TailAtSound(t, |m.author|);
    var e1, e2, e3, k :| TailMatchesAt(t, |m.author|, e1, e2, e3, k) && m.content == t[e3 + 1 .. k];
    assert MatchesAt(t, |m.author|, e1, e2, e3, k);
  }

  /** Every title the pattern matches is parsed, with the shortest author,
      and for that author the shortest content. */
  lemma ParseTitleCompleteAndLazy(t: Str, a: int, e1: int, e2: int, e3: int, k: int)
    requires MatchesAt(t, a, e1, e2, e3, k)
    ensures ParseTitle(t).Some?
    ensures |ParseTitle(t).value.author| <= a
    ensures |ParseTitle(t).value.author| == a ==> |ParseTitle(t).value.content| <= k - e3 - 1
  {
    TailAtComplete(t, a, e1, e2, e3, k);
    assert TailMatches(t, a);
    assert a <= DotRunEnd(t, 0);
  }

  /** The grammar accepts a title exactly when the parser returns parts. */
  lemma ParseTitleIffMatch(t: Str)
    ensures ParseTitle(t).Some? <==> exists a, e1, e2, e3, k :: MatchesAt(t, a, e1, e2, e3, k)
  {
    if ParseTitle(t).Some? {
      ParseTitleSound(t);
    } else {
      forall a, e1, e2, e3, k | MatchesAt(t, a, e1, e2, e3, k)
        ensures false
      {
        ParseTitleCompleteAndLazy(t, a, e1, e2, e3, k);
      }
    }
  }
}
