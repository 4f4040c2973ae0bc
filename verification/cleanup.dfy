/** The retention sweep of cleanup.ts: with a configured period other than
    `never`, keep only the records newer than `now - period`. */
module Cleanup {
  import opened Wrappers
  import opened History
  import opened Seqs

  /** The configurable retention periods: '1w', '1m', '3m', '1y', 'never'. */
  datatype Period = OneWeek | OneMonth | ThreeMonths | OneYear | Never

  /** The stored cleanup configuration, as far as the sweep reads it. */
  datatype CleanupConfig = CleanupConfig(period: Period)

  /** The three outcomes of `cleanupHistory()`: `undefined` when the sweep is
      switched off, `null` when nothing expired, and otherwise the kept
      records, which are also written back to the store. */
  datatype SweepResult = Skipped | NothingRemoved | Removed(kept: seq<TweetRecord>)

  const DayMillis: int := 24 * 60 * 60 * 1000

  /** `CLEANUP_PERIODS`: milliseconds per period; `never` has no entry. */
  function PeriodMillis(period: Period): (ms: int)
    requires period != Never
    ensures DayMillis <= ms <= 365 * DayMillis && ms % DayMillis == 0
  {
    match period
    case OneWeek => 7 * DayMillis
    case OneMonth => 30 * DayMillis
    case ThreeMonths => 90 * DayMillis
    case OneYear => 365 * DayMillis
  }

  /** The table's durations are 7, 30, 90 and 365 days, so they grow with
      the period and are all positive. */
  lemma PeriodTable()
    ensures PeriodMillis(OneWeek) == 604_800_000
    ensures PeriodMillis(OneMonth) == 2_592_000_000
    ensures PeriodMillis(ThreeMonths) == 7_776_000_000
    ensures PeriodMillis(OneYear) == 31_536_000_000
    ensures 0 < PeriodMillis(OneWeek) < PeriodMillis(OneMonth) < PeriodMillis(ThreeMonths) < PeriodMillis(OneYear)
  {
  }

  /** The oldest timestamp that is already too old. */
  function Cutoff(period: Period, now: int): (c: int)
    requires period != Never
    ensures c < now
  {
    now - PeriodMillis(period)
  }

  predicate Fresh(record: TweetRecord, cutoff: int) {
    record.timestamp > cutoff
  }

  /** Dropping records never creates two with the same tweet id, so the list
      the sweep writes back keeps the store's one-record-per-id invariant. */
  lemma {:induction false} SubsequenceKeepsUnique(a: seq<TweetRecord>, b: seq<TweetRecord>)
    requires IsSubsequence(a, b)
    ensures UniqueIds(b) ==> UniqueIds(a)
    decreases |b|
  {
    if a != [] && UniqueIds(b) {
      assert UniqueIds(b[1..]) by {
        assert forall i :: 0 <= i < |b| - 1 ==> b[1..][i] == b[i + 1];
      }
      if a[0] == b[0] && IsSubsequence(a[1..], b[1..]) {
        SubsequenceKeepsUnique(a[1..], b[1..]);
        SubsequenceElements(a[1..], b[1..]);
        forall j | 1 <= j < |a|
          ensures a[0].tweetId != a[j].tweetId
        {
          assert a[j] == a[1..][j - 1];
          assert a[j] in b[1..];
          var k :| 0 <= k < |b[1..]| && b[1..][k] == a[j];
          assert b[k + 1] == a[j];
        }
      } else {
        SubsequenceKeepsUnique(a, b[1..]);
      }
    }
  }

  /** The filter and the length comparison of `cleanupHistory()`: keep the
      records newer than `cutoff`, and report whether any was dropped. */
  function SweepAt(cutoff: int, history: seq<TweetRecord>): (r: SweepResult)
    ensures !r.Skipped?
    ensures r.Removed? <==> exists i :: 0 <= i < |history| && !Fresh(history[i], cutoff)
    ensures r.NothingRemoved? ==> forall i :: 0 <= i < |history| ==> Fresh(history[i], cutoff)
    ensures r.Removed? && UniqueIds(history) ==> UniqueIds(r.kept)
    ensures r.Removed? ==>
              && IsSubsequence(r.kept, history)
              && |r.kept| < |history|
              && (forall i :: 0 <= i < |r.kept| ==> Fresh(r.kept[i], cutoff))
              && (forall x :: x in history && Fresh(x, cutoff) ==> multiset(r.kept)[x] == multiset(history)[x])
  {
    var filtered := Filter(x => Fresh(x, cutoff), history);
    FilterKeepsAllIff(x => Fresh(x, cutoff), history);
    SubsequenceKeepsUnique(filtered, history);
    if |filtered| != |history| then Removed(filtered) else NothingRemoved
  }

  /** One run of `cleanupHistory()` at clock value `now`, reading the stored
      configuration and history. */
  function CleanupHistory(config: Option<CleanupConfig>, now: int, stored: Option<seq<TweetRecord>>): (r: SweepResult)
    ensures r.Skipped? <==> config.None? || config.value.period == Never
    ensures !r.Skipped? ==>
              var history := OrEmpty(stored);
              var cutoff := Cutoff(config.value.period, now);
              && (r.Removed? <==> exists i :: 0 <= i < |history| && !Fresh(history[i], cutoff))
              && (r.NothingRemoved? ==> forall i :: 0 <= i < |history| ==> Fresh(history[i], cutoff))
    ensures r.Removed? && UniqueIds(OrEmpty(stored)) ==> UniqueIds(r.kept)
    ensures r.Removed? ==>
              var history := OrEmpty(stored);
              var cutoff := Cutoff(config.value.period, now);
              && IsSubsequence(r.kept, history)
              && |r.kept| < |history|
              && (forall i :: 0 <= i < |r.kept| ==> Fresh(r.kept[i], cutoff))
              && (forall x :: x in history && Fresh(x, cutoff) ==> multiset(r.kept)[x] == multiset(history)[x])
  {
    match config
    case None => Skipped
    case Some(c) =>
      if c.period == Never then Skipped
      else SweepAt(Cutoff(c.period, now), OrEmpty(stored))
  }

  /** A record exactly at the cutoff is removed: the comparison is strict. */
  lemma RecordAtCutoffIsRemoved(config: CleanupConfig, now: int, history: seq<TweetRecord>, i: nat)
    requires config.period != Never
    requires i < |history| && history[i].timestamp == Cutoff(config.period, now)
    ensures var r := CleanupHistory(Some(config), now, Some(history));
            r.Removed? && history[i] !in r.kept
  {
  }

  /** With `never` or no configuration nothing is read or written, whatever
      the ages of the records. */
  lemma NeverSweepsNothing(config: Option<CleanupConfig>, now: int, stored: Option<seq<TweetRecord>>)
    requires config.None? || config.value.period == Never
    ensures CleanupHistory(config, now, stored) == Skipped
  {
  }

  /** A missing history is an empty one, from which nothing is removed. */
  lemma MissingHistorySweepsNothing(config: CleanupConfig, now: int)
    requires config.period != Never
    ensures CleanupHistory(Some(config), now, None) == NothingRemoved
  {
  }

  /** A second sweep at the same clock value finds nothing left to remove. */
  lemma SweepIdempotent(config: Option<CleanupConfig>, now: int, stored: Option<seq<TweetRecord>>)
    requires CleanupHistory(config, now, stored).Removed?
    ensures CleanupHistory(config, now, Some(CleanupHistory(config, now, stored).kept)) == NothingRemoved
  {
  }
}
