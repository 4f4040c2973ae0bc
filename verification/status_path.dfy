/** The tweet-page test of background.ts:11-15: the host must be exactly
    `x.com` or `twitter.com`, and the path must contain a match of the
    unanchored pattern `/\/([^\/]+)\/status\/(\d+)/`, whose second group is
    the tweet id. */
module StatusPath {
  import opened Wrappers
  import opened Utf16
  import opened Seqs

  const XHost: Str := Lift("x.com")
  const TwitterHost: Str := Lift("twitter.com")

  const Slash: Unit := 0x2F
  const StatusSep: Str := Lift("/status/")

  /** The exact hostname comparison: no subdomain, port or case folding. */
  predicate IsTweetHost(hostname: Str) {
    hostname == XHost || hostname == TwitterHost
  }

  /** The pattern matches at `i` with a segment of `s` units and `d` digits:
      `p[i] == '/'`, then `s >= 1` non-slash units, then `/status/`, then
      `d >= 1` digits. This is the regular expression's language; which of
      these matches is taken is settled by `ExtractTweetId`. */
  ghost predicate MatchesAt(p: Str, i: int, s: int, d: int) {
    && 0 <= i && 1 <= s && 1 <= d && i + s + 9 + d <= |p|
    && p[i] == Slash
    && (forall m :: i + 1 <= m < i + 1 + s ==> p[m] != Slash)
    && p[i + 1 + s .. i + 9 + s] == StatusSep
    && (forall m :: i + 9 + s <= m < i + 9 + s + d ==> IsDigit(p[m]))
  }

  /** Where a greedy `[^\/]+` starting at `j` stops: the next '/' or the end. */
  function SegmentEnd(p: Str, j: nat): (k: nat)
    requires j <= |p|
    ensures j <= k <= |p|
    ensures forall m :: j <= m < k ==> p[m] != Slash
    ensures k < |p| ==> p[k] == Slash
    decreases |p| - j
  {
    if j == |p| || p[j] == Slash then j else SegmentEnd(p, j + 1)
  }

  /** Where a greedy `\d+` starting at `j` stops: the first non-digit or the end. */
  function DigitRunEnd(p: Str, j: nat): (k: nat)
    requires j <= |p|
    ensures j <= k <= |p|
    ensures forall m :: j <= m < k ==> IsDigit(p[m])
    ensures k < |p| ==> !IsDigit(p[k])
    decreases |p| - j
  {
    if j == |p| || !IsDigit(p[j]) then j else DigitRunEnd(p, j + 1)
  }

  /** The backtracking matcher started at position `i`: the greedy segment
      must stop at a '/' that begins `/status/`, and the greedy digit run
      must be non-empty. Returns the captured digits. */
  function MatchAt(p: Str, i: nat): (r: Option<Str>)
    requires i <= |p|
    ensures r.Some? ==> |r.value| > 0 && AllDigits(r.value)
  {
    if i < |p| && p[i] == Slash then
      var j := SegmentEnd(p, i + 1);
      if j > i + 1 && j + 9 <= |p| && p[j .. j + 8] == StatusSep && IsDigit(p[j + 8])
      then Some(p[j + 8 .. DigitRunEnd(p, j + 8)])
      else None
    else None
  }

  /** The matcher succeeds when started at `k`. */
  predicate MatchesFrom(p: Str, k: nat) {
    k <= |p| && MatchAt(p, k).Some?
  }

  /** The leftmost start position where the matcher succeeds. */
  function LeftmostMatch(p: Str): (r: Option<nat>)
    ensures r.Some? ==> MatchesFrom(p, r.value)
    ensures r.Some? ==> forall k :: 0 <= k < r.value ==> !MatchesFrom(p, k)
    ensures r.None? ==> forall k :: 0 <= k <= |p| ==> !MatchesFrom(p, k)
  {
    var found := (k: nat) => MatchesFrom(p, k);
    var r := FirstFrom(found, 0, |p|);
    assert forall k: nat :: found(k) == MatchesFrom(p, k);
    r
  }

  /** `pathname.match(...)` followed by `tweetMatch[2]`. */
  function ExtractTweetId(pathname: Str): (r: Option<Str>)
    ensures r.Some? ==> |r.value| > 0 && AllDigits(r.value)
  {
    match LeftmostMatch(pathname)
    case None => None
    case Some(i) => MatchAt(pathname, i)
  }

  /** What the matcher returns at `i` is a match of the pattern there, with
      the whole maximal digit run captured. */
  lemma MatchAtSound(p: Str, i: nat)
    requires i <= |p| && MatchAt(p, i).Some?
    ensures var s := SegmentEnd(p, i + 1) - i - 1;
            var id := MatchAt(p, i).value;
            && MatchesAt(p, i, s, |id|)
            && id == p[i + 9 + s .. i + 9 + s + |id|]
            && (i + 9 + s + |id| == |p| || !IsDigit(p[i + 9 + s + |id|]))
  {
  }

  /** Any match of the pattern at `i` is found by the matcher at `i`, with
      the segment it uses and at least as many digits. */
  lemma MatchAtComplete(p: Str, i: int, s: int, d: int)
    requires MatchesAt(p, i, s, d)
    ensures MatchAt(p, i).Some?
    ensures SegmentEnd(p, i + 1) == i + 1 + s
    ensures |MatchAt(p, i).value| >= d
  {
    assert p[i + 1 + s] == StatusSep[0];
  }

  /** The regular-expression test at background.ts:12-14 succeeds exactly
      when the pattern matches somewhere in the path. */
  lemma ExtractTweetIdIffMatch(p: Str)
    ensures ExtractTweetId(p).Some? <==> exists i, s, d :: MatchesAt(p, i, s, d)
  {
    if ExtractTweetId(p).Some? {
      var i := LeftmostMatch(p).value;
      MatchAtSound(p, i);
      var s := SegmentEnd(p, i + 1) - i - 1;
      assert MatchesAt(p, i, s, |MatchAt(p, i).value|);
    } else {
      forall i, s, d | MatchesAt(p, i, s, d)
        ensures false
      {
        MatchAtComplete(p, i, s, d);
        assert MatchesFrom(p, i);
      }
    }
  }

  /** Where the matcher fails, the pattern has no match. */
  lemma NoMatchBefore(p: Str, i: nat)
    requires forall k :: 0 <= k < i ==> !MatchesFrom(p, k)
    ensures forall i', s', d' :: 0 <= i' < i ==> !MatchesAt(p, i', s', d')
  {
    forall i', s', d' | 0 <= i' < i
      ensures !MatchesAt(p, i', s', d')
    {
      if MatchesAt(p, i', s', d') {
        MatchAtComplete(p, i', s', d');
        assert MatchesFrom(p, i');
      }
    }
  }

  /** The tweet id is taken from the leftmost match, and is the whole digit
      run that follows its `/status/`. */
  lemma ExtractTweetIdIsLeftmost(p: Str) returns (i: nat, s: nat)
    requires ExtractTweetId(p).Some?
    ensures MatchesAt(p, i, s, |ExtractTweetId(p).value|)
    ensures var e := i + 9 + s + |ExtractTweetId(p).value|;
            ExtractTweetId(p).value == p[i + 9 + s .. e] && (e == |p| || !IsDigit(p[e]))
    ensures forall i', s', d' :: 0 <= i' < i ==> !MatchesAt(p, i', s', d')
  {
    i := LeftmostMatch(p).value;
    MatchAtSound(p, i);
    NoMatchBefore(p, i);
    s := SegmentEnd(p, i + 1) - i - 1;
  }

  /** Subdomains of the tracked hosts are not tracked. */
  lemma SubdomainIsNotTweetHost(sub: Str)
    requires |sub| > 0
    ensures !IsTweetHost(sub + Lift(".") + XHost)
    ensures !IsTweetHost(sub + Lift(".") + TwitterHost)
  {
    var h := sub + Lift(".") + XHost;
    if |h| == |TwitterHost| {
      assert h[|sub|] == UnitOf('.');
      assert TwitterHost[5] == UnitOf('e');
    }
  }
}
