/**
 * The menu's cached snapshot of repositories, and when it counts as stale.
 * Dates are seconds on a real-number time line.
 */
module MenuSnapshots {
  import opened RepoCore

  datatype MenuSnapshot = MenuSnapshot(repositories: seq<Repository>, capturedAt: real)

  /** `isStale(now:interval:)`: at least `interval` seconds have passed since the capture. */
  predicate IsStale(snapshot: MenuSnapshot, now: real, interval: real) {
    now - snapshot.capturedAt >= interval
  }

  /**
   * Staleness starts exactly `interval` seconds after the capture, that
   * instant included, and lasts: once stale, stale at every later time.
   */
  lemma StaleFromInterval(snapshot: MenuSnapshot, now: real, later: real, interval: real)
    requires now <= later
    ensures IsStale(snapshot, snapshot.capturedAt + interval, interval)
    ensures IsStale(snapshot, now, interval) ==> IsStale(snapshot, later, interval)
    ensures IsStale(snapshot, now, interval) <==> now >= snapshot.capturedAt + interval
  {
  }

  /** 10 seconds after the capture a 30-second snapshot is fresh; 31 seconds after, stale. */
  lemma StaleExamples(snapshot: MenuSnapshot)
    ensures !IsStale(snapshot, snapshot.capturedAt + 10.0, 30.0)
    ensures IsStale(snapshot, snapshot.capturedAt + 31.0, 30.0)
  {
  }
}
