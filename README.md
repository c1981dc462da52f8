# NEAR liquidity dashboard: controller and query-result model

A Dafny model of the two pieces of sequential logic in the liquidity
dashboard, a browser page that shows orderbook-liquidity snapshots stored in a
hosted `liquidity_snapshots` table.

- **Repository client** (`lib/supabase.tsx`, module `Supabase`). The client
  turns the `{ data, error }` pair from a query into the value the page uses.
  `getLatestSnapshots` gives `[]` on an error or on absent data, and
  otherwise the delivered rows reversed from newest-first to oldest-first.
  `getLatestSnapshot` gives `null` on any error and otherwise the row.
  Beside these sits a reference model of the query itself: the
  `exchange = 'binance'` filter (`Binance`), a characterisation of a correct
  answer to "newest first, at most `limit` rows" (`AnswersQuery`), and
  `.single()` (`Single`). Lemmas connect the two.
- **Dashboard controller** (`app/page.tsx`, module `DashboardPage`). The
  page state is four variables: `snapshots`, `latestSnapshot`, `loading` and
  `lastUpdate`. Three events change them. `LoadStarted` is `fetchData` up to
  its `await`. `LoadFinished` is the rest of `fetchData`. `RowInserted` is
  the live-insert callback, with its drop-oldest cap of 100. `Step` and
  `Run` give the meaning of events and event sequences. The class
  `Dashboard` keeps the four variables as fields, and its methods are proved
  to perform `Step`. `TableRows` is the history table's
  `snapshots.slice(-20).reverse()`.
- **JavaScript array semantics** (module `JsArray`). `Slice` is
  `slice(start)` with a single argument, negative starts included.
  `Reverse` is `reverse()`. The model uses `Reverse` only on arrays that
  were just returned and that nothing else references, so the in-place
  reversal cannot be observed and it is modelled as a value.

Timestamps are abstracted to integers with the same order. `lastUpdate`
(a `Date`) is an integer passed in by the caller as `now`. The snapshot's
numeric measurement columns do not appear, because only formatting code
reads them.

A failed load does not keep the previous window. The client returns `[]`
and `null`, and `fetchData` writes both unconditionally
(`app/page.tsx:24-25`). `LoadFinishedReplaces` states this.

## Model

| member | source | states |
|---|---|---|
| `JsArray.Slice` | app/page.tsx:45 | `s.slice(start)` is the suffix of `s` of length `min(|s|, -start)` for a negative start, and `|s| - min(start, |s|)` otherwise |
| `JsArray.Reverse` | lib/supabase.tsx:47 | the reversal has the input's length, and element `i` is input element `|s|-1-i` |
| `JsArray.ReversePermutes` | lib/supabase.tsx:47 | reversing neither adds nor drops an element (same multiset) |
| `Supabase.GetLatestSnapshots` | lib/supabase.tsx:42-47 | a reported error gives `[]`, and so does absent data; otherwise the result has `|d|` rows and row `i` is `d[|d|-1-i]` |
| `Supabase.RecentKeepsRows` | lib/supabase.tsx:47 | on success the result holds exactly the delivered rows (multiset equality) |
| `Supabase.RecentOldestFirst` | lib/supabase.tsx:39-47 | rows delivered in non-increasing timestamp order come back in non-decreasing order; error and empty cases included |
| `Supabase.RecentWithinLimit` | lib/supabase.tsx:34-40 | if the store delivers at most `limit` rows, the result has at most `limit` rows |
| `Supabase.GetLatestSnapshot` | lib/supabase.tsx:60-65 | any reported error gives `null`; without an error the delivered row is returned |
| `Supabase.Binance` | lib/supabase.tsx:38 | the filtered rows are exactly the table rows whose exchange is `"binance"`, no more of them than the table has (a sub-multiset of the table) |
| `Supabase.AnswersQuery` | lib/supabase.tsx:36-40 | reference for `.eq('exchange','binance').order('timestamp',{ascending:false}).limit(limit)`: an answer has length `min(limit, n)` for the table's `n` binance rows, is a sub-multiset of those rows, is newest first, and no omitted binance row is newer than a kept one; its contract gives `|d| <= limit` |
| `Supabase.OmittedNotNewer` | lib/supabase.tsx:39-40 | a binance row of the table that a correct answer omits is no newer than any row of the answer |
| `Supabase.AnswerRowsAreBinance` | lib/supabase.tsx:38 | every row of a correct answer to the query is a table row whose exchange is `"binance"` |
| `Supabase.RecentFromQuery` | lib/supabase.tsx:34-47 | for a correct answer to the query, the result has `min(limit, n)` rows (never more than `limit`), oldest first; every row is a binance row of the table; no row left out is newer than a row returned |
| `Supabase.Single` | lib/supabase.tsx:57-58 | `.single()` succeeds exactly when one row is left, and then delivers that row |
| `Supabase.LatestFromQuery` | lib/supabase.tsx:51-65 | `getLatestSnapshot` gives `null` exactly when the table has no binance row, and otherwise a binance row of the table that no binance row is newer than |
| `DashboardPage.Insert` | app/page.tsx:45 | the window after an insert has length `min(|prev|, 99) + 1 <= 100`, ends with the inserted row, and the rows before it are a suffix of the previous window |
| `DashboardPage.InsertBelowCapacity` | app/page.tsx:45 | with fewer than 100 rows nothing is dropped: the window becomes `prev + [s]` |
| `DashboardPage.InsertAtCapacity` | app/page.tsx:45 | with 100 rows exactly the oldest is dropped: the window becomes `prev[1..] + [s]` |
| `DashboardPage.InsertKeepsDuplicateId` | app/page.tsx:44-45 | no deduplication: a kept row with the inserted row's id stays, so two rows carry that id |
| `DashboardPage.Step` | app/page.tsx:16-47 | the effect of one event: `LoadStarted` is `setLoading(true)` (:17), `LoadFinished` installs the processed responses, clears `loading` and sets `lastUpdate` (:24-27), `RowInserted` is the callback body (:45-47); its contract: a step keeps the window within 100 rows when a finished load honoured its limit |
| `DashboardPage.Run` | app/page.tsx:16-47 | events applied in order; its contract: no events leave the state alone, and the last event acts on the state the earlier ones produced |
| `DashboardPage.Initial` | app/page.tsx:11-14 | the `useState` initial values: empty window, no latest snapshot, `loading` set, `lastUpdate` the mount time; its contract: the window bound holds |
| `DashboardPage.LoadStartedChangesOnlyLoading` | app/page.tsx:17 | starting a load sets `loading` and leaves window, pointer and `lastUpdate` unchanged |
| `DashboardPage.LoadFinishedReplaces` | app/page.tsx:24-27 | a finished load clears `loading` and sets `lastUpdate`; a failed row query empties the window and a failed latest query clears the pointer; a successful one installs exactly the delivered rows |
| `DashboardPage.RowInsertedIsNewest` | app/page.tsx:44-47 | after an insert the new row is the newest window entry and the latest pointer, the window grew by at most one, and `loading` is unchanged |
| `DashboardPage.RunKeepsWindowBounded` | app/page.tsx:16-47 | the window holds at most 100 rows after any sequence of events, provided every load delivered at most 100 rows |
| `DashboardPage.LoadDiscardsInterleavedEvents` | app/page.tsx:16-28 | whatever happens between the start and the end of a load (live inserts included) is lost; the state afterwards depends only on the two query responses and the time |
| `DashboardPage.TableRows` | app/page.tsx:109 | the table has `min(|w|, 20)` rows, and row `i` is window entry `|w|-1-i` |
| `DashboardPage.TableNewestFirst` | app/page.tsx:109 | a window in time order gives a table in reverse time order, headed by the newest entry |
| `DashboardPage.Dashboard.constructor` | app/page.tsx:11-14 | a new page state has an empty window, no latest snapshot, `loading` set, and `lastUpdate` equal to the mount time; the window bound holds |
| `DashboardPage.Dashboard.BeginLoad` | app/page.tsx:17 | sets `loading`, changes no other field, and performs `Step(_, LoadStarted)` |
| `DashboardPage.Dashboard.CompleteLoad` | app/page.tsx:24-27 | installs the processed query results, clears `loading` and sets `lastUpdate`; it performs `Step(_, LoadFinished)` and keeps the window bound when the query honoured its limit of 100 |
| `DashboardPage.Dashboard.LiveInsert` | app/page.tsx:44-47 | sets the window to `Insert(prev, s)`, the pointer to `s` and `lastUpdate` to the time, leaves `loading` alone, performs `Step(_, RowInserted)` and establishes the window bound |

## Left out

- Client construction and the environment-variable reads (`lib/supabase.tsx:3-6`): these are configuration of a foreign library.
- The realtime channel's subscribe and unsubscribe calls (`app/page.tsx:34-57`). They are an external push transport. Only the callback body is modelled, as `RowInserted`.
- The `setInterval` timer and the `Promise.all` concurrency (`app/page.tsx:19-22`, `:53`). A load is two sequential events. Any event may fall between them, which `LoadDiscardsInterleavedEvents` covers. The interval appears only as the constant `RefreshIntervalMs`. The footer's "every 30 minutes" is only display text.
- Logging through `console.error` (`lib/supabase.tsx:43`, `:61`): it is I/O and does not affect the result.
- The query itself runs in the hosted database. It is specified abstractly by `AnswersQuery`, not computed. `Binance` is defined by filtering in table order; its contract states membership and multiplicity but not order. The order among snapshots with equal timestamps is left open.
- Supabase.Single: treats any row count other than one as the client's "not exactly one row" error. The model does not capture the client's other error codes or network failures; those arrive as arbitrary `error` values in the response.
- All number and date formatting (`toFixed`, `/1000`, `toLocaleString`), and the chart, stats and metrics components: they are floating-point, locale-dependent rendering.
- The diagnostic page `app/test/page.tsx`, JSX markup, and the disabling of the refresh button while loading: these are UI.
