/**
 * The dashboard controller of `app/page.tsx`: a bounded window of recent
 * snapshots (oldest first), the latest-snapshot pointer, the loading flag and
 * the time of the last update, changed by three events: the start of a load,
 * its completion, and a row delivered by the live insert channel.
 *
 * `State`, `Event` and `Step` say what each event does to the four values;
 * the class `Dashboard` holds them as fields and its methods are proved to
 * perform `Step`. `TableRows` is the selection the history table renders.
 */
module DashboardPage {
  import opened JsArray
  import opened Supabase

  /** The window never holds more: `[...prev.slice(-99), s]`. */
  const WindowCapacity := 100

  /** The `limit` a load passes to `getLatestSnapshots`: its default, 100. */
  const FetchLimit := DefaultLimit

  /** The number of rows the history table shows. */
  const TableSize := 20

  /** The period of the automatic refresh, in milliseconds (the timer itself is not modelled). */
  const RefreshIntervalMs := 300000

  datatype State = State(
    snapshots: seq<Snapshot>,
    latestSnapshot: Option<Snapshot>,
    loading: bool,
    lastUpdate: int)

  /** The window holds no more than `WindowCapacity` rows. */
  ghost predicate WindowBounded(m: State)
  {
    |m.snapshots| <= WindowCapacity
  }

  datatype Event =
    /** `fetchData` up to its `await`: `setLoading(true)`. */
    | LoadStarted
    /** `fetchData` after both queries answered, at time `now`. */
    | LoadFinished(rows: RowsResponse, latest: RowResponse, now: int)
    /** The insert callback with payload `snapshot`, at time `now`. */
    | RowInserted(snapshot: Snapshot, now: int)

  /**
   * The window after a live insert: the newest `WindowCapacity - 1` rows of
   * `w` (all of them if there are fewer), then `s`.
   */
  function Insert(w: seq<Snapshot>, s: Snapshot): (r: seq<Snapshot>)
    ensures |r| == Min(|w|, WindowCapacity - 1) + 1 <= WindowCapacity
    ensures r[|r| - 1] == s
    ensures IsSuffix(r[..|r| - 1], w)
  {
    Slice(w, -(WindowCapacity - 1)) + [s]
  }

  /** Below capacity nothing is dropped. */
  lemma InsertBelowCapacity(w: seq<Snapshot>, s: Snapshot)
    requires |w| < WindowCapacity
    ensures Insert(w, s) == w + [s]
  {
    var r := Insert(w, s);
    assert r[..|r| - 1] == w;
  }

  /** At capacity exactly the oldest row is dropped. */
  lemma InsertAtCapacity(w: seq<Snapshot>, s: Snapshot)
    requires |w| == WindowCapacity
    ensures Insert(w, s) == w[1..] + [s]
  {
    var r := Insert(w, s);
    assert r[..|r| - 1] == w[1..];
  }

  /**
   * No deduplication by id: a row of the kept part of `w` whose id equals
   * the inserted row's stays, so the window has two rows with that id.
   */
  lemma InsertKeepsDuplicateId(w: seq<Snapshot>, s: Snapshot, k: int)
    requires 0 <= k < |w| && |w| - k < WindowCapacity && w[k].id == s.id
    ensures var r := Insert(w, s);
            var j := k - (|w| - (|r| - 1));
            0 <= j < |r| - 1 && r[j] == w[k] && r[j].id == r[|r| - 1].id
  {
    var r := Insert(w, s);
    var j := k - (|w| - (|r| - 1));
    assert r[..|r| - 1][j] == r[j];
  }

  /**
   * What one event does to the controller's state. A step keeps the window
   * bounded, provided a finished load delivered no more than it asked for.
   */
  function Step(m: State, e: Event): (r: State)
    ensures WindowBounded(m) && (e.LoadFinished? ==> HonoursLimit(e.rows, FetchLimit)) ==> WindowBounded(r)
  {
    match e
    case LoadStarted => m.(loading := true)
    case LoadFinished(rows, latest, now) =>
      State(GetLatestSnapshots(rows), GetLatestSnapshot(latest), false, now)
    case RowInserted(s, now) =>
      m.(snapshots := Insert(m.snapshots, s), latestSnapshot := Some(s), lastUpdate := now)
  }

  /** The state after the events `es`, in order: the last event acts on the state the others left. */
  function Run(m: State, es: seq<Event>): (r: State)
    ensures es == [] ==> r == m
    ensures es != [] ==> r == Step(Run(m, es[..|es| - 1]), es[|es| - 1])
    decreases |es|
  {
    if es == [] then m
    else
      assert |es| > 1 ==> es[..|es| - 1][1..] == es[1..][..|es| - 2];
      Run(Step(m, es[0]), es[1..])
  }

  /** The state every mount starts in: the `useState` initial values. */
  function Initial(now: int): (r: State)
    ensures WindowBounded(r)
  {
    State([], None, true, now)
  }

  /** Starting a load raises the flag and changes nothing else. */
  lemma LoadStartedChangesOnlyLoading(m: State)
    ensures var m' := Step(m, LoadStarted);
            m'.loading && m'.snapshots == m.snapshots &&
            m'.latestSnapshot == m.latestSnapshot && m'.lastUpdate == m.lastUpdate
  {
  }

  /**
   * A completed load replaces window and pointer by what the queries gave,
   * whatever they were before; a failed load therefore empties the window
   * and clears the pointer.
   */
  lemma LoadFinishedReplaces(m: State, rows: RowsResponse, latest: RowResponse, now: int)
    ensures var m' := Step(m, LoadFinished(rows, latest, now));
            && !m'.loading && m'.lastUpdate == now
            && (rows.error.Some? ==> m'.snapshots == [])
            && (latest.error.Some? ==> m'.latestSnapshot.None?)
            && (rows.error.None? && rows.data.Some? ==> multiset(m'.snapshots) == multiset(rows.data.value))
  {
    if rows.error.None? && rows.data.Some? {
      RecentKeepsRows(rows);
    }
  }

  /** After a live insert the new row is the newest of the window and the latest pointer. */
  lemma RowInsertedIsNewest(m: State, s: Snapshot, now: int)
    ensures var m' := Step(m, RowInserted(s, now));
            && m'.snapshots != [] && m'.snapshots[|m'.snapshots| - 1] == s
            && m'.latestSnapshot == Some(s)
            && |m'.snapshots| <= |m.snapshots| + 1
            && m'.loading == m.loading && m'.lastUpdate == now
  {
  }

  /** Every load in `es` delivered at most `FetchLimit` rows. */
  ghost predicate LoadsHonourLimit(es: seq<Event>)
  {
    forall i :: 0 <= i < |es| && es[i].LoadFinished? ==> HonoursLimit(es[i].rows, FetchLimit)
  }

  /**
   * The window holds at most `WindowCapacity` rows after any sequence of
   * events, as long as every load respected its limit.
   */
  lemma {:induction false} RunKeepsWindowBounded(m: State, es: seq<Event>)
    requires WindowBounded(m)
    requires LoadsHonourLimit(es)
    ensures WindowBounded(Run(m, es))
    decreases |es|
  {
    if es != [] {
      assert LoadsHonourLimit(es[1..]) by {
        forall i | 0 <= i < |es[1..]| && es[1..][i].LoadFinished?
          ensures HonoursLimit(es[1..][i].rows, FetchLimit)
        {
          assert es[1..][i] == es[i + 1];
        }
      }
      RunKeepsWindowBounded(Step(m, es[0]), es[1..]);
    }
  }

  /**
   * A completed load discards whatever happened since it started: live
   * inserts that arrived while the queries were in flight are lost.
   */
  lemma LoadDiscardsInterleavedEvents(m: State, between: seq<Event>, rows: RowsResponse, latest: RowResponse, now: int)
    ensures Run(m, [LoadStarted] + between + [LoadFinished(rows, latest, now)])
         == State(GetLatestSnapshots(rows), GetLatestSnapshot(latest), false, now)
  {
    var es := [LoadStarted] + between + [LoadFinished(rows, latest, now)];
    assert es[|es| - 1] == LoadFinished(rows, latest, now);
  }

  /**
   * The rows of the history table: `snapshots.slice(-20).reverse()`, the
   * newest `TableSize` rows of the window, newest first.
   */
  function TableRows(w: seq<Snapshot>): (r: seq<Snapshot>)
    ensures |r| == Min(|w|, TableSize)
    ensures forall i :: 0 <= i < |r| ==> r[i] == w[|w| - 1 - i]
  {
    Reverse(Slice(w, -TableSize))
  }

  /** A window in time order gives a table in reverse time order, headed by the newest row. */
  lemma TableNewestFirst(w: seq<Snapshot>)
    requires NonDecreasing(w)
    ensures NonIncreasing(TableRows(w))
    ensures w != [] ==> TableRows(w)[0] == w[|w| - 1]
  {
    var r := TableRows(w);
    forall i, j | 0 <= i < j < |r| ensures r[i].timestamp >= r[j].timestamp {
      assert r[i] == w[|w| - 1 - i] && r[j] == w[|w| - 1 - j];
    }
  }

  /** The controller of the dashboard page, with the page's four state variables. */
  class Dashboard {
    var snapshots: seq<Snapshot>
    var latestSnapshot: Option<Snapshot>
    var loading: bool
    var lastUpdate: int

    /** The four state variables as one value. */
    function View(): State
      reads this
    {
      State(snapshots, latestSnapshot, loading, lastUpdate)
    }

    /** The object invariant: the window bound of `WindowBounded`. */
    ghost predicate Valid()
      reads this
    {
      WindowBounded(View())
    }

    /** Mounting the page at time `now`. */
    constructor (now: int)
      ensures View() == Initial(now)
      ensures Valid()
    {
      snapshots := [];
      latestSnapshot := None;
      loading := true;
      lastUpdate := now;
    }

    /** The first half of `fetchData`. */
    method BeginLoad()
      modifies this
      ensures loading
      ensures snapshots == old(snapshots) && latestSnapshot == old(latestSnapshot)
      ensures lastUpdate == old(lastUpdate)
      ensures View() == Step(old(View()), LoadStarted)
      ensures old(Valid()) ==> Valid()
    {
      loading := true;
    }

    /** The second half of `fetchData`, once both queries have answered. */
    method CompleteLoad(rows: RowsResponse, latest: RowResponse, now: int)
      modifies this
      ensures snapshots == GetLatestSnapshots(rows)
      ensures latestSnapshot == GetLatestSnapshot(latest)
      ensures !loading && lastUpdate == now
      ensures View() == Step(old(View()), LoadFinished(rows, latest, now))
      ensures HonoursLimit(rows, FetchLimit) ==> Valid()
    {
      snapshots := GetLatestSnapshots(rows);
      latestSnapshot := GetLatestSnapshot(latest);
      lastUpdate := now;
      loading := false;
    }

    /** The callback of the live insert channel. */
    method LiveInsert(s: Snapshot, now: int)
      modifies this
      ensures snapshots == Insert(old(snapshots), s)
      ensures latestSnapshot == Some(s) && lastUpdate == now
      ensures loading == old(loading)
      ensures View() == Step(old(View()), RowInserted(s, now))
      ensures Valid()
    {
      snapshots := Insert(snapshots, s);
      latestSnapshot := Some(s);
      lastUpdate := now;
    }
  }
}
