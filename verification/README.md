# Modular inventory table: row assembly and column plumbing

A Dafny model of the core of the modular inventory table in
`src/inventoryPoc/ModularInventory.tsx`. The table has pluggable columns.
Some columns are synchronous and already hold one value per host. Others are
asynchronous: they await per-host lookups and signal once when their data
arrives. The model has three parts.

- `RowGrid` (`row_grid.dfy`) models `createRows`. It folds the ordered column
  list into a row-major grid. The row count is the longest synchronous
  column. A pending asynchronous column contributes one placeholder per row.
  Every other column contributes its data by index, with no padding. The fold
  is written as the source writes it: one `push` per cell, with a missing row
  created on demand (`PushFrom`, `Push`, `AllData`). Two independent
  reference definitions describe the result. `RowsSpanned` is the longest
  contribution. `CellsAt` is row `i` read across the columns in column order.
  The fold is proved equal to both.
- `ColumnData` (`column_data.dfy`) models the `useColumnData` hook as an
  event-driven state machine over `(ready, data, columns, subscribed)`. The
  events are the first render (`Init`), the effect (`EffectStep`), an
  asynchronous column resolving (`ResolveStep`) and the effect's teardown
  (`CleanupStep`). A column always settles when its producer resolves, but
  the hook republishes the grid only for a completion it listens to. That
  means the effect has already subscribed and the column has an
  `observeReady` method.
- `Registry` (`registry.dfy`) models column selection and the column
  registry. It covers the initial all-enabled selection, the checkbox toggle,
  the active ids in display order, and building one column per active id. It
  also covers the per-host CVE and tag handles, where a host without an id
  gets a zero/empty default and no remote lookup, and the tag count, which is
  the sum of the `results` values. It also covers what each asynchronous
  column resolves to: one value per host.

Cells are opaque values of a type parameter `T`. Placeholders are a separate
`Cell` constructor. Renderers and lookup services are function parameters.

The model follows the code where the code departs from the intended design of
the hook:

- `ready` is assigned only on the first render, in the effect and in the
  teardown. A resolution never sets it, so with an asynchronous column it
  stays false after every column has resolved (`ReadyOnlyFromEffectOrCleanup`,
  `RunResolutionsEffect`, `NameScoreScenario`).
- With an asynchronous column, the first render's data is one empty row per
  column, not per host (`Init`, `FirstRenderShape`).
- A completion that arrives before the effect has subscribed is never
  republished. The first render's grid stays until the effect runs, and the
  effect then shows the settled column (`EarlyResolutionUnseen`,
  `NameScoreEarlyResolution`). A column without an `observeReady` method is
  never listened to (`UnobservableResolutionUnseen`). An asynchronous column
  without an `isReady` method never leaves the placeholder state, even after
  its data has arrived (`UnreportedReadyKeepsPlaceholders`).
- Ready asynchronous columns do not count towards the row count. A ready
  column longer than the row count therefore adds rows
  (`LongReadyColumnAddsRows`), and a shorter one leaves rows short
  (`ShortColumnLeavesGap`).
- With only asynchronous columns enabled, the row count is 0, so the grid the
  effect publishes is empty (`OnlyAsyncEnabledEmptyGrid`). The first render
  before it still shows one empty row per active column (`FirstRenderShape`).

## Model

| member | source | states |
|---|---|---|
| `RowGrid.RowNumber` | src/inventoryPoc/ModularInventory.tsx:21-26 | The row count is at least every synchronous column's data length, and it equals one of them unless it is 0. So it is the maximum over synchronous columns, and 0 when there are none. |
| `RowGrid.RowNumberIgnoresAsync` | src/inventoryPoc/ModularInventory.tsx:21-26 | Asynchronous columns never affect the row count, whether pending or ready and whatever their data. |
| `RowGrid.PushFrom` | src/inventoryPoc/ModularInventory.tsx:39-44 | The index loop from `i` on appends `cells[k]` to row `k` for each `k >= i`, creating rows that do not exist. The grid ends as long as the longer of itself and the cells. |
| `RowGrid.Push` | src/inventoryPoc/ModularInventory.tsx:29-34 | One column's pass appends exactly `cells[k]` to row `k` for each index of `cells` and nothing to any other row. |
| `RowGrid.AllData` | src/inventoryPoc/ModularInventory.tsx:27-46 | The column fold yields as many rows as the longest contribution. Row `i` is exactly the `i`-th cells of the columns that reach it, in column order. |
| `RowGrid.CellsAtDense` | src/inventoryPoc/ModularInventory.tsx:27-46 | A row has cells exactly when some column reaches it, so there are no holes in the grid. |
| `RowGrid.CreateRows` | src/inventoryPoc/ModularInventory.tsx:14-49 | The grid is the fold under the synchronous row count. Its shape and rows are the reference ones, and it never has fewer rows than the row count. |
| `RowGrid.PendingColumnStep` | src/inventoryPoc/ModularInventory.tsx:28-36 | A pending column appends exactly one placeholder to each of rows `0..n-1`, creating missing rows, and touches no other row. |
| `RowGrid.ValueColumnStep` | src/inventoryPoc/ModularInventory.tsx:38-45 | A synchronous or ready column appends `data[i]` to row `i` for each index of its data and appends nothing elsewhere. |
| `RowGrid.AllDataByContribution` | src/inventoryPoc/ModularInventory.tsx:27-46 | The fold depends on each column only through the cells it contributes. |
| `RowGrid.PendingDataIgnored` | src/inventoryPoc/ModularInventory.tsx:28-37 | A pending column's data is never consulted: replacing it leaves the grid unchanged. |
| `RowGrid.ShortColumnLeavesGap` | src/inventoryPoc/ModularInventory.tsx:38-45 | There is no padding: every row past a shorter column's data is short of a cell. |
| `RowGrid.LongReadyColumnAddsRows` | src/inventoryPoc/ModularInventory.tsx:38-45 | A ready asynchronous column longer than the row count makes the grid reach the end of its data. |
| `RowGrid.Rectangular` | src/inventoryPoc/ModularInventory.tsx:27-46 | If every non-pending column has exactly row-count values, the grid is row count × column count. Cell `(i, j)` is a placeholder if column `j` is pending and `Value(data_j[i])` otherwise. |
| `RowGrid.PlaceholderFromPending` | src/inventoryPoc/ModularInventory.tsx:28-33 | A placeholder in a row implies that some column is pending. |
| `RowGrid.NoAsyncNoPlaceholder` | src/inventoryPoc/ModularInventory.tsx:27-46 | Without asynchronous columns, no placeholder appears anywhere in the grid. |
| `ColumnData.HasRemote` | src/inventoryPoc/ModularInventory.tsx:52-54 | The scan for remote columns answers true exactly when some column is asynchronous. |
| `ColumnData.Init` | src/inventoryPoc/ModularInventory.tsx:52-67 | `ready` holds exactly when no column is asynchronous, and nothing is subscribed yet. With synchronous columns only, the data is the full grid. Otherwise it is one empty row per column. |
| `ColumnData.EffectStep` | src/inventoryPoc/ModularInventory.tsx:70-86 | The effect sets `ready` exactly when no column is asynchronous, publishes the grid over the current columns, and subscribes to the completions. |
| `ColumnData.Settle` | src/inventoryPoc/ModularInventory.tsx:28-33 | A completion gives only its target column the resolved data. The column becomes ready exactly when it has an `isReady` method; without one it stays pending, so `createRows` keeps showing placeholders. Every column keeps its asynchrony and its `isReady` and `observeReady` flags. A resolution of a column that is not pending does nothing. |
| `ColumnData.ResolveStep` | src/inventoryPoc/ModularInventory.tsx:80-96 | A resolution settles its column and leaves `ready` unchanged. If the effect has subscribed and the column has `observeReady`, it republishes the grid over all columns. Otherwise the published grid stays as it was. |
| `ColumnData.CleanupStep` | src/inventoryPoc/ModularInventory.tsx:100-103 | The teardown sets `ready` to true and clears the grid. It does not withdraw the subscriptions. |
| `ColumnData.ReadyOnlyFromEffectOrCleanup` | src/inventoryPoc/ModularInventory.tsx:51-104 | `ready` turns true only through the teardown, or through the effect over a column set with no asynchronous column. A resolution never sets it. |
| `ColumnData.RunKeepsConsistent` | src/inventoryPoc/ModularInventory.tsx:70-97 | Once subscribed to columns that can all be observed, every event except the teardown keeps the published grid equal to the aggregator's output over the live columns. |
| `ColumnData.SyncOnlyReadyImmediately` | src/inventoryPoc/ModularInventory.tsx:52-79 | With synchronous columns only, the first render is ready and shows the final grid with no placeholder. The effect republishes the same grid and stays ready. |
| `ColumnData.ResolveKeepsRowNumber` | src/inventoryPoc/ModularInventory.tsx:87-96 | A resolution never changes the row count. A republished grid keeps at least that many rows. |
| `ColumnData.ResolvedCellsAreValues` | src/inventoryPoc/ModularInventory.tsx:80-96 | After a resolution the hook listens to, row `i` of the next grid holds the resolved column's `i`-th value, provided the columns are row-count long. A column without `isReady` holds a placeholder there instead. |
| `ColumnData.SettledGrid` | src/inventoryPoc/ModularInventory.tsx:28-36 | Once a column settles, and every column that is no longer pending has row-count values, row `i` holds the column's `i`-th resolved value. A column without `isReady` holds a placeholder instead. |
| `ColumnData.SettleAllEffect` | src/inventoryPoc/ModularInventory.tsx:80-97 | After resolutions with distinct targets, each pending target holds its data and is ready if it has `isReady`. Every other column is unchanged. |
| `ColumnData.RunResolutionsEffect` | src/inventoryPoc/ModularInventory.tsx:80-97 | A run of resolutions settles the columns and never changes `ready`. Before the effect has subscribed, the grid stays as it was. After it, with every asynchronous column observable, the grid is the aggregator's output over the settled columns, or untouched if nothing settled. |
| `ColumnData.SettleOrderIrrelevant` | src/inventoryPoc/ModularInventory.tsx:80-97 | The settled columns depend only on the set of resolutions, not on their order. |
| `ColumnData.ResolutionOrderIrrelevant` | src/inventoryPoc/ModularInventory.tsx:80-97 | Any two orders of the same resolutions settle the columns alike. Before the subscription, or when every asynchronous column is observable, they lead to the same state, including the same grid. |
| `ColumnData.AllResolvedGrid` | src/inventoryPoc/ModularInventory.tsx:80-97 | Once every pending column has resolved with row-count values, the grid is a full rectangle. Every cell is a value, except that columns without `isReady` still show placeholders. |
| `ColumnData.AllResolvedColumns` | src/inventoryPoc/ModularInventory.tsx:80-97 | Once every pending column has resolved with row-count values, every column has row-count values. A column is still pending only if it was pending and has no `isReady`. |
| `ColumnData.UnreportedReadyKeepsPlaceholders` | src/inventoryPoc/ModularInventory.tsx:28-36 | A column without `isReady` stays pending after its completion, so the grid over the columns is the same as before it. |
| `ColumnData.NameScorePendingGrid` | src/inventoryPoc/ModularInventory.tsx:70-79 | For a synchronous `name` column and a pending `score` column, the grid is `[[Alice, placeholder], [Bob, placeholder]]`. |
| `ColumnData.NameScoreResolvedGrid` | src/inventoryPoc/ModularInventory.tsx:87-96 | After `score` resolves to `[10, 20]`, the grid is `[[Alice, 10], [Bob, 20]]`. |
| `ColumnData.NameScoreScenario` | src/inventoryPoc/ModularInventory.tsx:52-96 | The same example run through the hook's events: placeholders after the effect, then the scores, with `ready` still false. |
| `ColumnData.EffectThenRunConsistent` | src/inventoryPoc/ModularInventory.tsx:70-97 | If every asynchronous column has `observeReady`, then from the effect on the published grid follows the columns through any events except the teardown, whatever happened before. |
| `ColumnData.EarlyResolutionUnseen` | src/inventoryPoc/ModularInventory.tsx:56-86 | A completion before the effect leaves the first render's grid and `ready` in place. The effect then publishes the grid over the settled columns. |
| `ColumnData.UnobservableResolutionUnseen` | src/inventoryPoc/ModularInventory.tsx:81-85 | A column without `observeReady` is never listened to. Its completion settles it but leaves the published grid unchanged. |
| `ColumnData.NameScoreEarlyResolution` | src/inventoryPoc/ModularInventory.tsx:52-96 | In the example with the score arriving before the effect, the grid stays `[[], []]`. The effect then shows `[[Alice, 10], [Bob, 20]]`, still not ready. |
| `Registry.HasId` | src/inventoryPoc/ModularInventory.tsx:279 | A host's id counts as missing exactly when it is absent or the empty string, the two falsy values an id can take. |
| `Registry.InitialEnabled` | src/inventoryPoc/ModularInventory.tsx:264-269 | The initial selection has exactly the given ids as keys, and each is enabled. |
| `Registry.Toggle` | src/inventoryPoc/ModularInventory.tsx:271-276 | A checkbox change negates only its own key (a missing key becomes true). Every other key and value stays as it was. |
| `Registry.ToggleTwice` | src/inventoryPoc/ModularInventory.tsx:271-276 | Changing the same checkbox twice restores the selection. |
| `Registry.ActiveIds` | src/inventoryPoc/ModularInventory.tsx:285-286 | An id is active exactly when it is a column id and enabled. The active ids keep the column-id order, as a subsequence. |
| `Registry.ActiveIdsCount` | src/inventoryPoc/ModularInventory.tsx:285-286 | The filter keeps multiplicities: an enabled id is active as often as it occurs among the ids, and a disabled one never. |
| `Registry.ActiveIdsDistinct` | src/inventoryPoc/ModularInventory.tsx:285-286 | Filtering distinct ids gives distinct active ids. |
| `Registry.ActiveColumnIdsDistinct` | src/inventoryPoc/ModularInventory.tsx:135-289 | Under any selection, the active column ids are pairwise distinct. |
| `Registry.ColumnIdsDistinct` | src/inventoryPoc/ModularInventory.tsx:135 | The seven column ids are pairwise distinct. |
| `Registry.AllEnabledActive` | src/inventoryPoc/ModularInventory.tsx:285-286 | When every id is enabled, the active ids are all ids, in order. |
| `Registry.AllActiveInitially` | src/inventoryPoc/ModularInventory.tsx:264-286 | Under the initial selection, every column id is active, in order. |
| `Registry.ToggleFlipsOneActive` | src/inventoryPoc/ModularInventory.tsx:271-286 | A checkbox change adds or removes exactly its own id from the active ids. |
| `Registry.BuildColumn` | src/inventoryPoc/ModularInventory.tsx:159-259 | A registry entry builds an asynchronous column exactly for the CVE and tag ids. That column is pending, has `isReady` and `observeReady`, and holds no data yet. Every other entry holds, for each host, the rendered host field, in host order. |
| `Registry.ActiveColumns` | src/inventoryPoc/ModularInventory.tsx:285-289 | There is one column per active id, in order, each built by its registry entry. The CVE and tag columns are pending and can be observed. Each other column holds the rendered cell of every host. |
| `Registry.ActiveRowNumber` | src/inventoryPoc/ModularInventory.tsx:285-289 | The row count of the active columns is the host count when a synchronous column is enabled, and 0 when only asynchronous ones are. |
| `Registry.FirstRenderShape` | src/inventoryPoc/ModularInventory.tsx:52-58 | With an asynchronous column enabled, the hook's first render over the active columns is not ready and shows one empty row per active column. |
| `Registry.MountWithoutHosts` | src/inventoryPoc/ModularInventory.tsx:52-79 | At the route's mount, with no hosts loaded and an asynchronous column enabled, the first render shows one empty row per active column. The effect then publishes the empty grid, and neither is ready. |
| `Registry.InitialGridShape` | src/inventoryPoc/ModularInventory.tsx:285-289 | With a synchronous column enabled, the grid the effect publishes has one row per host and one cell per active column. Each asynchronous column shows a placeholder, and each other column shows the rendered host field. |
| `Registry.OnlyAsyncEnabledEmptyGrid` | src/inventoryPoc/ModularInventory.tsx:285-289 | With only asynchronous columns enabled, the grid the effect publishes is empty. |
| `Registry.CveLookups` | src/inventoryPoc/ModularInventory.tsx:278-283 | There is exactly one CVE handle per host. It is a remote lookup of the host's id exactly when the host has an id. Otherwise it holds all-zero counts. |
| `Registry.TagLookups` | src/inventoryPoc/ModularInventory.tsx:217-222 | There is exactly one tag handle per host. It is a remote lookup exactly when the host has an id. Otherwise it holds the empty result. |
| `Registry.AwaitAll` | src/inventoryPoc/ModularInventory.tsx:223 | Awaiting the handles yields one result per handle, in order. An immediate handle gives its own value and a remote one gives the service's answer. |
| `Registry.IdlessHostCveDefault` | src/inventoryPoc/ModularInventory.tsx:278-283 | A host without an id gets all-zero CVE counts, whatever the lookup service would answer. |
| `Registry.IdlessHostTagDefault` | src/inventoryPoc/ModularInventory.tsx:217-225 | A host without an id gets the empty tag result, whatever the service would answer, so its tag count is 0. |
| `Registry.TagCount` | src/inventoryPoc/ModularInventory.tsx:225 | The tag count of a result is 0 when every value is 0, and a single entry counts as its own value. |
| `Registry.TagCountFromHead` | src/inventoryPoc/ModularInventory.tsx:225 | Adding the values up from the front gives the same count as the left fold. |
| `Registry.TagCountAppend` | src/inventoryPoc/ModularInventory.tsx:225 | The tag count of two entry lists is the sum of their counts. |
| `Registry.TagCountPermutation` | src/inventoryPoc/ModularInventory.tsx:225 | The tag count does not depend on the order in which the values are enumerated. |
| `Registry.TagCountBounds` | src/inventoryPoc/ModularInventory.tsx:225 | With non-negative values, the tag count is non-negative and at least every single value. |
| `Registry.AllCvesColumnData` | src/inventoryPoc/ModularInventory.tsx:175-185 | The total-CVE column resolves to one value per host, in host order. It is the host's `allCount`, or 0 for a host without an id. |
| `Registry.HighSeverityColumnData` | src/inventoryPoc/ModularInventory.tsx:188-212 | The high-severity column resolves to one pair per host, in host order. It is the host's critical and high counts, or `(0, 0)` for a host without an id. |
| `Registry.TagColumnData` | src/inventoryPoc/ModularInventory.tsx:214-234 | The tag column resolves to one value per host, in host order. It is the sum of the host's tag values, or 0 for a host without an id. |
| `Registry.AsyncDataFitsRows` | src/inventoryPoc/ModularInventory.tsx:175-289 | With a synchronous column enabled, each asynchronous column's resolved data has exactly as many values as the grid has rows. |

## Left out

- JSX rendering is not modelled: the table body and header, the column checkbox toolbar, and the cell markup (links, icons, date and OS formatting). Cells are opaque values, and synchronous cells come from a `render` parameter.
- Remote I/O is not modelled: fetching hosts, the CVE and tag lookups, and the route's initial data load. A lookup service is a function parameter of `AwaitAll`. The extra tag lookup of the first host in the initial load is also left out.
- React hook and Promise scheduling are not modelled. State updates, memoisation and `then` callbacks become the explicit events of `ColumnData`, applied in order. Real interleaving is out of scope.
- The diagnostic `console.log` of the hook's data is left out.
- The column classes (`BaseInventoryColumn`, `InventoryColumn`) are not part of this model. Only their observable contract is used: `isAsync`, whether `isReady` exists and what it answers, whether `observeReady` exists, the data, and a completion signal that fires at most once. An asynchronous column's data is empty before it resolves. A column settles once, so a resolution of a column that is not pending is a no-op. The hook's subscription is modelled by the state's `subscribed` flag together with the column's `observeReady` flag.
- Resolutions that arrive after a column-set rebuild are not modelled. In the source, the callback of a superseded subscription recomputes the grid over the old column array. The model applies every resolution to the current columns. Within one column set it does follow the source: the teardown does not unsubscribe, so a completion after the teardown still republishes the grid.
- Producer failures are not modelled. The source does not handle them either.
- Column titles and ids shown in the header are not modelled. `Col` carries only what the aggregator and the hook read.
- The tag result's `count` field is carried but unused, as in the source. Tag sums are unbounded integers, not floating point.
- The rendered markup of the resolved asynchronous cells is not modelled. `AllCvesColumnData`, `HighSeverityColumnData` and `TagColumnData` give the numbers the cells show.
- The memoised `[data, ready]` pair the hook returns is not modelled separately. It is the state's `data` and `ready`.
