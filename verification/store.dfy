/** The stored history under both of its writers: the recorder, which puts
    a new record in front, and the retention sweep, which writes back the
    records it keeps. */
module Store {
  import opened Wrappers
  import opened History
  import Seqs
  import Background
  import Cleanup

  /** One event that may write the history: a visit handled by the recorder,
      or a run of the sweep with the configuration and clock it reads. */
  datatype Event =
    | Visited(visit: Background.Visit)
    | Swept(config: Option<Cleanup.CleanupConfig>, now: int)

  /** The history after one event. The sweep writes only when it removed
      something; otherwise the store is left as it was. */
  function Apply(e: Event, history: seq<TweetRecord>): (r: seq<TweetRecord>)
    ensures UniqueIds(history) ==> UniqueIds(r)
    ensures |r| <= |history| + 1
  {
    match e
    case Visited(v) => Background.Step(v, history)
    case Swept(config, now) =>
      match Cleanup.CleanupHistory(config, now, Some(history))
      case Removed(kept) => kept
      case _ => history
  }

  /** The history after each event in turn. */
  function Run(events: seq<Event>, history: seq<TweetRecord>): seq<TweetRecord> {
    Seqs.FoldLeft(Apply, events, history)
  }

  /** Whatever mix of visits and sweeps happens, the store keeps at most one
      record per tweet id. */
  lemma RunKeepsIdsUnique(events: seq<Event>, history: seq<TweetRecord>)
    requires UniqueIds(history)
    ensures UniqueIds(Run(events, history))
  {
    Seqs.FoldPreserves(Apply, UniqueIds, events, history);
  }
}
