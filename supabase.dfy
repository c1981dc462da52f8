/**
 * The snapshot repository client: what `getLatestSnapshots` and
 * `getLatestSnapshot` make of the response the hosted database returns, and
 * an abstract reference for the query they send
 * (`exchange = 'binance'`, newest first, at most `limit` rows).
 */
module Supabase {
  import opened JsArray

  /** `T | null` */
  datatype Option<+T> = None | Some(value: T)

  /**
   * A row of `liquidity_snapshots`. The ISO-8601 timestamp is abstracted to an
   * integer with the same order; the numeric measurement columns are only
   * ever formatted for display and are left out.
   */
  datatype Snapshot = Snapshot(id: int, timestamp: int, exchange: string, pair: string)

  /** The error object the client reports for a failed query. */
  datatype QueryError = QueryError(code: string)

  /** `{ data, error }` of a query that returns a list of rows. */
  datatype RowsResponse = RowsResponse(data: Option<seq<Snapshot>>, error: Option<QueryError>)

  /** `{ data, error }` of a query ending in `.single()`. */
  datatype RowResponse = RowResponse(data: Option<Snapshot>, error: Option<QueryError>)

  /** The value of the `.eq('exchange', …)` filter. */
  const Exchange := "binance"

  /** The default of `getLatestSnapshots`' `limit` parameter. */
  const DefaultLimit := 100

  /** What the client reports when `.single()` finds no row, or more than one. */
  const NotExactlyOneRow := QueryError("PGRST116")

  ghost predicate NonIncreasing(d: seq<Snapshot>)
  {
    forall i, j :: 0 <= i < j < |d| ==> d[i].timestamp >= d[j].timestamp
  }

  ghost predicate NonDecreasing(d: seq<Snapshot>)
  {
    forall i, j :: 0 <= i < j < |d| ==> d[i].timestamp <= d[j].timestamp
  }

  /** The store delivered no more than `limit` rows. */
  predicate HonoursLimit(resp: RowsResponse, limit: nat)
  {
    resp.data.Some? ==> |resp.data.value| <= limit
  }

  // ---------------------------------------------------------------------------
  // Result handling

  /**
   * `getLatestSnapshots`: a reported error, or absent data, gives the empty
   * list; otherwise the delivered rows, reversed from newest-first to
   * oldest-first. Nothing is thrown.
   */
  function GetLatestSnapshots(resp: RowsResponse): (r: seq<Snapshot>)
    ensures resp.error.Some? ==> r == []
    ensures resp.error.None? && resp.data.None? ==> r == []
    ensures resp.error.None? && resp.data.Some? ==>
              |r| == |resp.data.value| &&
              forall i :: 0 <= i < |r| ==> r[i] == resp.data.value[|r| - 1 - i]
  {
    if resp.error.Some? then []
    else
      match resp.data
      case None => Reverse([])
      case Some(d) => Reverse(d)
  }

  /** On success no row is added or dropped. */
  lemma RecentKeepsRows(resp: RowsResponse)
    requires resp.error.None? && resp.data.Some?
    ensures multiset(GetLatestSnapshots(resp)) == multiset(resp.data.value)
  {
    ReversePermutes(resp.data.value);
  }

  /** Rows delivered newest first come back oldest first. */
  lemma RecentOldestFirst(resp: RowsResponse)
    requires resp.data.Some? ==> NonIncreasing(resp.data.value)
    ensures NonDecreasing(GetLatestSnapshots(resp))
  {
    var r := GetLatestSnapshots(resp);
    forall i, j | 0 <= i < j < |r| ensures r[i].timestamp <= r[j].timestamp {
      var d := resp.data.value;
      assert r[i] == d[|d| - 1 - i] && r[j] == d[|d| - 1 - j];
    }
  }

  /** A store that honours `.limit(limit)` yields at most `limit` rows. */
  lemma RecentWithinLimit(resp: RowsResponse, limit: nat)
    requires HonoursLimit(resp, limit)
    ensures |GetLatestSnapshots(resp)| <= limit
  {
  }

  /**
   * `getLatestSnapshot`: any reported error, the no-row case of `.single()`
   * included, gives `null`; otherwise the delivered row. Nothing is thrown.
   */
  function GetLatestSnapshot(resp: RowResponse): (r: Option<Snapshot>)
    ensures resp.error.Some? ==> r.None?
    ensures resp.error.None? ==> r == resp.data
  {
    if resp.error.Some? then None else resp.data
  }

  // ---------------------------------------------------------------------------
  // Reference model of the query

  /** The rows `.eq('exchange', 'binance')` keeps, in table order. */
  function Binance(table: seq<Snapshot>): (r: seq<Snapshot>)
    ensures |r| <= |table| && multiset(r) <= multiset(table)
    ensures forall x :: x in r ==> x in table && x.exchange == Exchange
    ensures forall x :: x in table && x.exchange == Exchange ==> x in r
  {
    if table == [] then []
    else
      assert table == [table[0]] + table[1..];
      (if table[0].exchange == Exchange then [table[0]] else []) + Binance(table[1..])
  }

  /**
   * `d` is a possible answer to
   * `.eq('exchange', 'binance').order('timestamp', { ascending: false }).limit(limit)`
   * over `table`: as many filtered rows as the limit allows, taken from the
   * filtered rows, newest first, and no row left out is newer than one kept
   * (rows with equal timestamps may come in either order).
   */
  ghost predicate AnswersQuery(table: seq<Snapshot>, limit: nat, d: seq<Snapshot>): (b: bool)
    ensures b ==> |d| <= limit && |d| <= |table|
  {
    var rows := Binance(table);
    && |d| == Min(limit, |rows|)
    && multiset(d) <= multiset(rows)
    && NonIncreasing(d)
    && forall x, i :: x in multiset(rows) - multiset(d) && 0 <= i < |d| ==> x.timestamp <= d[i].timestamp
  }

  /** Every row of an answer is a binance row of the table. */
  lemma AnswerRowsAreBinance(table: seq<Snapshot>, limit: nat, d: seq<Snapshot>)
    requires AnswersQuery(table, limit, d)
    ensures forall x :: x in d ==> x in table && x.exchange == Exchange
  {
    forall x | x in d ensures x in table && x.exchange == Exchange {
      assert x in multiset(d);
      assert x in multiset(Binance(table));
    }
  }

  /**
   * What `getLatestSnapshots(limit)` returns when the query succeeds: the
   * `min(limit, n)` newest of the table's `n` binance rows, oldest first.
   */
  lemma RecentFromQuery(table: seq<Snapshot>, limit: nat, d: seq<Snapshot>)
    requires AnswersQuery(table, limit, d)
    ensures |GetLatestSnapshots(RowsResponse(Some(d), None))| == Min(limit, |Binance(table)|) <= limit
    ensures NonDecreasing(GetLatestSnapshots(RowsResponse(Some(d), None)))
    ensures forall x :: x in GetLatestSnapshots(RowsResponse(Some(d), None)) ==> x in table && x.exchange == Exchange
    ensures multiset(GetLatestSnapshots(RowsResponse(Some(d), None))) == multiset(d)
    ensures forall x, y :: x in multiset(Binance(table)) - multiset(d) && y in GetLatestSnapshots(RowsResponse(Some(d), None)) ==>
              x.timestamp <= y.timestamp
  {
    var resp := RowsResponse(Some(d), None);
    var r := GetLatestSnapshots(resp);
    RecentOldestFirst(resp);
    RecentKeepsRows(resp);
    AnswerRowsAreBinance(table, limit, d);
    assert forall x :: x in r ==> x in d by {
      forall x | x in r ensures x in d {
        assert x in multiset(r);
      }
    }
  }

  /** `.single()` over the rows `.limit(1)` left: an error unless there is exactly one. */
  function Single(rows: seq<Snapshot>): (resp: RowResponse)
    ensures resp.error.None? <==> |rows| == 1
    ensures resp.error.None? ==> resp.data == Some(rows[0])
  {
    if |rows| == 1 then RowResponse(Some(rows[0]), None)
    else RowResponse(None, Some(NotExactlyOneRow))
  }

  /**
   * What `getLatestSnapshot()` returns: `null` exactly when the table has no
   * binance row, and otherwise a binance row of the table that no binance
   * row is newer than.
   */
  lemma LatestFromQuery(table: seq<Snapshot>, d: seq<Snapshot>)
    requires AnswersQuery(table, 1, d)
    ensures var r := GetLatestSnapshot(Single(d));
            && (r.None? <==> Binance(table) == [])
            && (r.Some? ==> r.value in table && r.value.exchange == Exchange &&
                            forall y :: y in table && y.exchange == Exchange ==> y.timestamp <= r.value.timestamp)
  {
    var rows := Binance(table);
    if rows != [] {
      assert |d| == 1;
      var x := d[0];
      assert d == [x];
      AnswerRowsAreBinance(table, 1, d);
      forall y | y in table && y.exchange == Exchange ensures y.timestamp <= x.timestamp {
        if y != x {
          OmittedNotNewer(table, 1, d, y);
        }
      }
    }
  }

  /** A binance row that is not in an answer is no newer than any row of it. */
  lemma OmittedNotNewer(table: seq<Snapshot>, limit: nat, d: seq<Snapshot>, y: Snapshot)
    requires AnswersQuery(table, limit, d)
    requires y in table && y.exchange == Exchange && y !in d
    ensures forall i :: 0 <= i < |d| ==> y.timestamp <= d[i].timestamp
  {
    assert y in multiset(Binance(table));
    assert multiset(d)[y] == 0;
    assert y in multiset(Binance(table)) - multiset(d);
  }
}
