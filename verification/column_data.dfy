/**
 The readiness/data hook of the modular inventory table (`useColumnData`),
 as an event-driven state machine over `(ready, data, columns)`.

 The events are the hook's first render (`Init`), its effect (`Effect`), one
 asynchronous column signalling completion (`Resolve`), and the effect's
 teardown (`Cleanup`). The model follows the code: `ready` is written only by
 `Init`, `Effect` and `Cleanup`, never by a resolution, and a completion is
 republished only once the effect has subscribed to it, which it does only
 for columns that have an `observeReady` method.
 */
module ColumnData {
  import opened RowGrid

  /** The hook's state: the `ready` flag, the published grid, the live
      columns, and whether the effect has run its subscription loop. */
  datatype State<T> = State(ready: bool, data: Grid<T>, columns: seq<Col<T>>, subscribed: bool)

  /** One asynchronous column signalling completion with its resolved data. */
  datatype Resolution<T> = Resolution(target: nat, resolved: seq<T>)

  datatype Event<T> = Effect | Resolve(resolution: Resolution<T>) | Cleanup

  /** `hasRemoteColumns`: a front-to-back scan that stops at the first
      asynchronous column; it answers whether some column is asynchronous. */
  predicate HasRemote<T>(cols: seq<Col<T>>): (b: bool)
    ensures b <==> exists j :: 0 <= j < |cols| && cols[j].isAsync
  {
    if |cols| == 0 then false
    else if cols[0].isAsync then true
    else
      var rest := HasRemote(cols[1..]);
      assert forall j :: 1 <= j < |cols| ==> cols[j] == cols[1..][j - 1];
      rest
  }

  /** The published grid is the aggregator's output over the live columns. */
  ghost predicate Consistent<T>(s: State<T>) {
    s.data == CreateRows(s.columns)
  }

  /** A resolution that settles something: it targets an asynchronous
      column that has not resolved yet (a producer settles once, so any other
      resolution changes nothing). */
  predicate Effective<T>(cols: seq<Col<T>>, r: Resolution<T>) {
    r.target < |cols| && Pending(cols[r.target])
  }

  /** A resolution that reaches the hook: it settles a column that the
      effect has subscribed to, i.e. the effect has run and the column has an
      `observeReady` method. */
  predicate Heard<T>(s: State<T>, r: Resolution<T>) {
    s.subscribed && Effective(s.columns, r) && s.columns[r.target].observable
  }

  /** Every asynchronous column can be subscribed to. */
  predicate AllObservable<T>(cols: seq<Col<T>>) {
    forall j :: 0 <= j < |cols| && cols[j].isAsync ==> cols[j].observable
  }

  /** First render: ready exactly when no column is asynchronous; the data is
      the full grid when every column is synchronous, and otherwise one empty
      row per COLUMN (the source sizes this array by the column count). */
  function Init<T>(cols: seq<Col<T>>): (s: State<T>)
    ensures s.columns == cols && !s.subscribed
    ensures s.ready <==> forall j :: 0 <= j < |cols| ==> !cols[j].isAsync
    ensures s.ready ==> Consistent(s)
    ensures !s.ready ==> |s.data| == |cols| && forall i :: 0 <= i < |s.data| ==> s.data[i] == []
  {
    var remote := HasRemote(cols);
    State(!remote, if remote then seq(|cols|, _ => []) else CreateRows(cols), cols, false)
  }

  /** The effect: ready exactly when no column is asynchronous, the grid
      recomputed over the current columns (pending columns as placeholders),
      and the observable asynchronous columns subscribed to. */
  function EffectStep<T>(s: State<T>): (r: State<T>)
    ensures r.columns == s.columns && r.subscribed
    ensures r.ready <==> forall j :: 0 <= j < |s.columns| ==> !s.columns[j].isAsync
    ensures Consistent(r)
  {
    State(!HasRemote(s.columns), CreateRows(s.columns), s.columns, true)
  }

  /** The column side of a resolution: the target column takes its resolved
      data and becomes ready if it has an `isReady` method to say so (without
      one it keeps showing as pending); every other column is unchanged; a
      resolution of a column that is not pending changes nothing. Whether
      anybody listens does not matter here: the column settles either way. */
  function Settle<T>(cols: seq<Col<T>>, r: Resolution<T>): (cols': seq<Col<T>>)
    ensures |cols'| == |cols|
    ensures forall k :: 0 <= k < |cols| && k != r.target ==> cols'[k] == cols[k]
    ensures forall k :: 0 <= k < |cols| ==>
      cols'[k].isAsync == cols[k].isAsync && cols'[k].observable == cols[k].observable &&
      cols'[k].reportsReady == cols[k].reportsReady
    ensures Effective(cols, r) ==> (Pending(cols'[r.target]) <==> !cols[r.target].reportsReady)
    ensures Effective(cols, r) ==> cols'[r.target] == cols[r.target].(ready := cols[r.target].reportsReady, data := r.resolved)
    ensures !Effective(cols, r) ==> cols' == cols
  {
    if Effective(cols, r) then cols[r.target := cols[r.target].(ready := cols[r.target].reportsReady, data := r.resolved)] else cols
  }

  /** A resolution: the column is settled; when the hook listens to it the
      grid is recomputed over the current state of ALL columns, otherwise the
      published grid stays as it was until the next effect. `ready` is left
      as it was. */
  function ResolveStep<T>(s: State<T>, r: Resolution<T>): (s': State<T>)
    ensures s'.ready == s.ready && s'.subscribed == s.subscribed
    ensures s'.columns == Settle(s.columns, r)
    ensures Heard(s, r) ==> Consistent(s')
    ensures !Heard(s, r) ==> s'.data == s.data
    ensures !Effective(s.columns, r) ==> s' == s
  {
    if Effective(s.columns, r) then
      var cols := Settle(s.columns, r);
      State(s.ready, if Heard(s, r) then CreateRows(cols) else s.data, cols, s.subscribed)
    else s
  }

  /** The effect's teardown: ready forced true, grid cleared. The
      subscriptions are not withdrawn. */
  function CleanupStep<T>(s: State<T>): (r: State<T>)
    ensures r.ready && r.data == [] && r.columns == s.columns && r.subscribed == s.subscribed
  {
    State(true, [], s.columns, s.subscribed)
  }

  function Step<T>(s: State<T>, e: Event<T>): State<T> {
    match e
    case Effect => EffectStep(s)
    case Resolve(r) => ResolveStep(s, r)
    case Cleanup => CleanupStep(s)
  }

  function Run<T>(s: State<T>, events: seq<Event<T>>): State<T>
    decreases |events|
  {
    if |events| == 0 then s else Run(Step(s, events[0]), events[1..])
  }

  function RunResolutions<T>(s: State<T>, rs: seq<Resolution<T>>): State<T>
    decreases |rs|
  {
    if |rs| == 0 then s else RunResolutions(ResolveStep(s, rs[0]), rs[1..])
  }

  function SettleAll<T>(cols: seq<Col<T>>, rs: seq<Resolution<T>>): seq<Col<T>>
    decreases |rs|
  {
    if |rs| == 0 then cols else SettleAll(Settle(cols, rs[0]), rs[1..])
  }

  /** No two resolutions target the same column (each column's producer
      settles once). */
  predicate DistinctTargets<T>(rs: seq<Resolution<T>>) {
    forall a, b :: 0 <= a < b < |rs| ==> rs[a].target != rs[b].target
  }

  /** Some resolution in `rs` targets column `k`. */
  ghost predicate Targeted<T>(rs: seq<Resolution<T>>, k: nat) {
    exists r :: r in rs && r.target == k
  }

  /** Some resolution in `rs` has a subscriber among `cols`. */
  ghost predicate AnyEffective<T>(cols: seq<Col<T>>, rs: seq<Resolution<T>>) {
    exists r :: r in rs && Effective(cols, r)
  }

  /** `ready` only ever becomes true through the effect over a column set
      without asynchronous columns, or through the teardown; a resolution
      never sets it. */
  lemma ReadyOnlyFromEffectOrCleanup<T>(s: State<T>, e: Event<T>)
    requires !s.ready && Step(s, e).ready
    ensures e == Cleanup || (e == Effect && !HasRemote(s.columns))
  {
  }

  /** Once subscribed to columns that can all be observed, every event
      except the teardown keeps the published grid equal to the aggregator's
      output over the live columns. */
  lemma {:induction false} RunKeepsConsistent<T>(s: State<T>, events: seq<Event<T>>)
    requires Consistent(s) && s.subscribed && AllObservable(s.columns)
    requires forall k :: 0 <= k < |events| ==> !events[k].Cleanup?
    ensures Consistent(Run(s, events))
    decreases |events|
  {
    if |events| > 0 {
      var s1 := Step(s, events[0]);
      var rest := events[1..];
      assert Consistent(s1) && s1.subscribed && AllObservable(s1.columns);
      assert forall k :: 0 <= k < |rest| ==> !rest[k].Cleanup?;
      RunKeepsConsistent(s1, rest);
    }
  }

  /** From the effect on, when every asynchronous column has an
      `observeReady` method, the published grid follows the columns through
      any events other than the teardown, whatever happened before. */
  lemma EffectThenRunConsistent<T>(s: State<T>, events: seq<Event<T>>)
    requires AllObservable(s.columns)
    requires forall k :: 0 <= k < |events| ==> !events[k].Cleanup?
    ensures Consistent(Run(EffectStep(s), events))
  {
    RunKeepsConsistent(EffectStep(s), events);
  }

  /** A completion that arrives before the effect has subscribed is not
      republished: the first render's grid stays, and it is the effect that
      then shows the settled column. */
  lemma EarlyResolutionUnseen<T>(cols: seq<Col<T>>, r: Resolution<T>)
    ensures ResolveStep(Init(cols), r).data == Init(cols).data
    ensures ResolveStep(Init(cols), r).ready == Init(cols).ready
    ensures EffectStep(ResolveStep(Init(cols), r)).data == CreateRows(Settle(cols, r))
  {
  }

  /** A column without an `observeReady` method is never listened to: its
      completion leaves the published grid as it was. */
  lemma UnobservableResolutionUnseen<T>(s: State<T>, r: Resolution<T>)
    requires r.target < |s.columns| && !s.columns[r.target].observable
    ensures ResolveStep(s, r).data == s.data
    ensures ResolveStep(s, r).columns == Settle(s.columns, r)
  {
  }

  /** With synchronous columns only, the first render already shows the final
      grid and is ready: the effect republishes the same grid and no
      placeholder appears. */
  lemma SyncOnlyReadyImmediately<T>(cols: seq<Col<T>>)
    requires forall j :: 0 <= j < |cols| ==> !cols[j].isAsync
    ensures Init(cols).ready
    ensures EffectStep(Init(cols)).data == Init(cols).data && EffectStep(Init(cols)).ready
    ensures forall i :: 0 <= i < |Init(cols).data| ==> Placeholder !in Init(cols).data[i]
  {
    NoAsyncNoPlaceholder(cols);
  }

  /** A column without an `isReady` method never shows its data: after its
      completion it is still pending, and the grid the hook would republish
      is the one it had before. */
  lemma UnreportedReadyKeepsPlaceholders<T>(s: State<T>, r: Resolution<T>)
    requires Effective(s.columns, r) && !s.columns[r.target].reportsReady
    ensures Pending(ResolveStep(s, r).columns[r.target])
    ensures CreateRows(ResolveStep(s, r).columns) == CreateRows(s.columns)
  {
    var cols := s.columns;
    assert Settle(cols, r) == cols[r.target := cols[r.target].(data := r.resolved)];
    PendingDataIgnored(cols, r.target, r.resolved);
  }

  /** A resolution never changes the row count, and the grid keeps at least
      that many rows. */
  lemma ResolveKeepsRowNumber<T>(s: State<T>, r: Resolution<T>)
    ensures RowNumber(ResolveStep(s, r).columns) == RowNumber(s.columns)
    ensures Heard(s, r) ==> |ResolveStep(s, r).data| >= RowNumber(s.columns)
  {
    var s' := ResolveStep(s, r);
    if Effective(s.columns, r) {
      RowNumberIgnoresAsync(s.columns, s'.columns);
    }
  }

  /** A resolution the hook listens to turns the column's cells into real
      data in the very next grid: when every column that is no longer pending
      has exactly `RowNumber` values, cell `(i, target)` is the `i`-th
      resolved value, or still a placeholder when the column has no
      `isReady` method. */
  lemma ResolvedCellsAreValues<T>(s: State<T>, r: Resolution<T>)
    requires Heard(s, r)
    requires forall k :: 0 <= k < |ResolveStep(s, r).columns| && !Pending(ResolveStep(s, r).columns[k]) ==>
      |ResolveStep(s, r).columns[k].data| == RowNumber(s.columns)
    ensures |ResolveStep(s, r).data| == RowNumber(s.columns)
    ensures forall i :: 0 <= i < RowNumber(s.columns) ==> |ResolveStep(s, r).data[i]| == |s.columns|
    ensures s.columns[r.target].reportsReady ==> |r.resolved| == RowNumber(s.columns)
    ensures forall i :: 0 <= i < RowNumber(s.columns) ==>
      ResolveStep(s, r).data[i][r.target] ==
        if s.columns[r.target].reportsReady then Value(r.resolved[i]) else Placeholder
  {
    assert ResolveStep(s, r).data == CreateRows(Settle(s.columns, r));
    SettledGrid(s.columns, r);
  }

  /** The grid over the settled columns, when every column that is no longer
      pending has `RowNumber` values: cell `(i, target)` is the `i`-th
      resolved value, or a placeholder when the column has no `isReady`. */
  lemma SettledGrid<T>(cols: seq<Col<T>>, r: Resolution<T>)
    requires Effective(cols, r)
    requires forall k :: 0 <= k < |Settle(cols, r)| && !Pending(Settle(cols, r)[k]) ==>
      |Settle(cols, r)[k].data| == RowNumber(cols)
    ensures |CreateRows(Settle(cols, r))| == RowNumber(cols)
    ensures forall i :: 0 <= i < RowNumber(cols) ==> |CreateRows(Settle(cols, r))[i]| == |cols|
    ensures cols[r.target].reportsReady ==> |r.resolved| == RowNumber(cols)
    ensures forall i :: 0 <= i < RowNumber(cols) ==>
      CreateRows(Settle(cols, r))[i][r.target] ==
        if cols[r.target].reportsReady then Value(r.resolved[i]) else Placeholder
  {
    var cols' := Settle(cols, r);
    RowNumberIgnoresAsync(cols, cols');
    Rectangular(cols');
  }

  lemma DistinctTargetsTail<T>(rs: seq<Resolution<T>>)
    requires |rs| > 0 && DistinctTargets(rs)
    ensures DistinctTargets(rs[1..])
    ensures forall r :: r in rs[1..] ==> r.target != rs[0].target
  {
    var rest := rs[1..];
    forall a, b | 0 <= a < b < |rest|
      ensures rest[a].target != rest[b].target
    {
      assert rest[a] == rs[a + 1] && rest[b] == rs[b + 1];
    }
    forall r | r in rest
      ensures r.target != rs[0].target
    {
      var b :| 0 <= b < |rest| && rest[b] == r;
      assert rs[b + 1] == r;
    }
  }

  /** What a sequence of resolutions with distinct targets does to the
      columns: each resolution that has a subscriber makes its column ready
      with its data, and every other column is unchanged. */
  lemma {:induction false} SettleAllEffect<T>(cols: seq<Col<T>>, rs: seq<Resolution<T>>)
    requires DistinctTargets(rs)
    ensures |SettleAll(cols, rs)| == |cols|
    ensures forall r :: r in rs && Effective(cols, r) ==>
      SettleAll(cols, rs)[r.target] == cols[r.target].(ready := cols[r.target].reportsReady, data := r.resolved)
    ensures forall k :: 0 <= k < |cols| && (!Pending(cols[k]) || !Targeted(rs, k)) ==>
      SettleAll(cols, rs)[k] == cols[k]
    decreases |rs|
  {
    if |rs| > 0 {
      var r0 := rs[0];
      var rest := rs[1..];
      var c1 := Settle(cols, r0);
      DistinctTargetsTail(rs);
      SettleAllEffect(c1, rest);
      var fin := SettleAll(cols, rs);
      assert fin == SettleAll(c1, rest);
      forall r | r in rs && Effective(cols, r)
        ensures fin[r.target] == cols[r.target].(ready := cols[r.target].reportsReady, data := r.resolved)
      {
        if r == r0 {
          assert !Targeted(rest, r.target);
        } else {
          assert r in rest;
          assert c1[r.target] == cols[r.target];
        }
      }
      forall k | 0 <= k < |cols| && (!Pending(cols[k]) || !Targeted(rs, k))
        ensures fin[k] == cols[k]
      {
        if Targeted(rest, k) {
          var r :| r in rest && r.target == k;
          assert r in rs;
        }
        assert c1[k] == cols[k];
      }
    }
  }

  /** A run of resolutions settles the columns one by one and never touches
      `ready`. Before the effect has subscribed the grid stays as it was; once
      subscribed to columns that can all be observed, the grid is the
      aggregator's output over the settled columns (or untouched when no
      resolution settled anything). */
  lemma {:induction false} RunResolutionsEffect<T>(s: State<T>, rs: seq<Resolution<T>>)
    ensures RunResolutions(s, rs).ready == s.ready
    ensures RunResolutions(s, rs).subscribed == s.subscribed
    ensures RunResolutions(s, rs).columns == SettleAll(s.columns, rs)
    ensures !s.subscribed ==> RunResolutions(s, rs).data == s.data
    ensures s.subscribed && AllObservable(s.columns) && AnyEffective(s.columns, rs) ==>
      Consistent(RunResolutions(s, rs))
    ensures !AnyEffective(s.columns, rs) ==> RunResolutions(s, rs) == s
    decreases |rs|
  {
    if |rs| > 0 {
      var r0 := rs[0];
      var rest := rs[1..];
      var s1 := ResolveStep(s, r0);
      assert AllObservable(s.columns) ==> AllObservable(s1.columns);
      RunResolutionsEffect(s1, rest);
      if AnyEffective(s.columns, rs) {
        if !Effective(s.columns, r0) {
          var r :| r in rs && Effective(s.columns, r);
          assert r in rest && Effective(s1.columns, r);
        } else if !AnyEffective(s1.columns, rest) {
          assert RunResolutions(s, rs) == s1;
        }
      } else {
        assert !Effective(s.columns, r0);
        assert !AnyEffective(s1.columns, rest);
      }
    }
  }

  /** The columns after a run of resolutions depend only on which
      resolutions there were, not on their order. */
  lemma SettleOrderIrrelevant<T>(cols: seq<Col<T>>, rs: seq<Resolution<T>>, rs': seq<Resolution<T>>)
    requires DistinctTargets(rs) && DistinctTargets(rs')
    requires forall r :: r in rs <==> r in rs'
    ensures SettleAll(cols, rs) == SettleAll(cols, rs')
  {
    SettleAllEffect(cols, rs);
    SettleAllEffect(cols, rs');
    var a := SettleAll(cols, rs);
    var b := SettleAll(cols, rs');
    forall k | 0 <= k < |cols|
      ensures a[k] == b[k]
    {
      if Pending(cols[k]) && Targeted(rs, k) {
        var r :| r in rs && r.target == k;
        assert Effective(cols, r);
      } else {
        assert !Pending(cols[k]) || !Targeted(rs', k);
      }
    }
  }

  /** Resolution order does not matter for the columns: two orders of the
      same resolutions (distinct targets) settle them alike. It does not
      matter for the whole state either, grid included, before the effect has
      subscribed or when every asynchronous column can be observed. */
  lemma ResolutionOrderIrrelevant<T>(s: State<T>, rs: seq<Resolution<T>>, rs': seq<Resolution<T>>)
    requires DistinctTargets(rs) && DistinctTargets(rs')
    requires forall r :: r in rs <==> r in rs'
    ensures RunResolutions(s, rs).columns == RunResolutions(s, rs').columns
    ensures !s.subscribed || AllObservable(s.columns) ==> RunResolutions(s, rs) == RunResolutions(s, rs')
  {
    SettleOrderIrrelevant(s.columns, rs, rs');
    RunResolutionsEffect(s, rs);
    RunResolutionsEffect(s, rs');
    if AnyEffective(s.columns, rs) {
      var r :| r in rs && Effective(s.columns, r);
      assert r in rs';
    } else {
      assert !AnyEffective(s.columns, rs');
    }
  }

  /** Once every pending column has resolved with one value per row, the
      grid is a full rectangle: cell `(i, k)` is the `i`-th value of column
      `k` as it now stands, except that a column without an `isReady` method
      still shows placeholders. So no placeholder is left when every pending
      column has one. */
  lemma AllResolvedGrid<T>(cols: seq<Col<T>>, rs: seq<Resolution<T>>)
    requires DistinctTargets(rs)
    requires forall k :: 0 <= k < |cols| && Pending(cols[k]) ==> Targeted(rs, k)
    requires forall r :: r in rs ==> |r.resolved| == RowNumber(cols)
    requires forall k :: 0 <= k < |cols| && !Pending(cols[k]) ==> |cols[k].data| == RowNumber(cols)
    ensures |SettleAll(cols, rs)| == |cols|
    ensures forall k :: 0 <= k < |cols| ==> |SettleAll(cols, rs)[k].data| == RowNumber(cols)
    ensures |CreateRows(SettleAll(cols, rs))| == RowNumber(cols)
    ensures forall i, k :: 0 <= i < RowNumber(cols) && 0 <= k < |cols| ==>
      |CreateRows(SettleAll(cols, rs))[i]| == |cols| &&
      CreateRows(SettleAll(cols, rs))[i][k] ==
        if Pending(cols[k]) && !cols[k].reportsReady then Placeholder
        else Value(SettleAll(cols, rs)[k].data[i])
  {
    AllResolvedColumns(cols, rs);
    var fin := SettleAll(cols, rs);
    RowNumberIgnoresAsync(cols, fin);
    Rectangular(fin);
  }

  /** The columns once every pending column has resolved with one value per
      row: each has one value per row, keeps its asynchrony, and is pending
      only if it was and has no `isReady` method. */
  lemma AllResolvedColumns<T>(cols: seq<Col<T>>, rs: seq<Resolution<T>>)
    requires DistinctTargets(rs)
    requires forall k :: 0 <= k < |cols| && Pending(cols[k]) ==> Targeted(rs, k)
    requires forall r :: r in rs ==> |r.resolved| == RowNumber(cols)
    requires forall k :: 0 <= k < |cols| && !Pending(cols[k]) ==> |cols[k].data| == RowNumber(cols)
    ensures |SettleAll(cols, rs)| == |cols|
    ensures forall k :: 0 <= k < |cols| ==>
      (Pending(SettleAll(cols, rs)[k]) <==> Pending(cols[k]) && !cols[k].reportsReady) &&
      SettleAll(cols, rs)[k].isAsync == cols[k].isAsync &&
      (!cols[k].isAsync ==> SettleAll(cols, rs)[k] == cols[k]) &&
      |SettleAll(cols, rs)[k].data| == RowNumber(cols)
  {
    SettleAllEffect(cols, rs);
    var fin := SettleAll(cols, rs);
    forall k | 0 <= k < |cols|
      ensures Pending(fin[k]) <==> Pending(cols[k]) && !cols[k].reportsReady
      ensures fin[k].isAsync == cols[k].isAsync
      ensures !cols[k].isAsync ==> fin[k] == cols[k]
      ensures |fin[k].data| == RowNumber(cols)
    {
      if Pending(cols[k]) {
        var r :| r in rs && r.target == k;
        assert Effective(cols, r);
      }
    }
  }

  /** The two-row example: a synchronous `name` column holding two names
      next to an asynchronous `score` column that has not resolved yet. */
  function NameScoreColumns<T>(alice: T, bob: T): seq<Col<T>> {
    [Col(false, false, false, false, [alice, bob]), Col(true, true, true, false, [])]
  }

  lemma NameScoreRowNumber<T>(alice: T, bob: T)
    ensures RowNumber(NameScoreColumns(alice, bob)) == 2
  {
    var cols := NameScoreColumns(alice, bob);
    assert RowNumber(cols[..1]) == 2;
  }

  lemma NameScorePendingCells<T>(alice: T, bob: T)
    ensures |CreateRows(NameScoreColumns(alice, bob))| == 2
    ensures forall i :: 0 <= i < 2 ==> |CreateRows(NameScoreColumns(alice, bob))[i]| == 2
    ensures forall i :: 0 <= i < 2 ==>
      CreateRows(NameScoreColumns(alice, bob))[i][0] == Value([alice, bob][i]) &&
      CreateRows(NameScoreColumns(alice, bob))[i][1] == Placeholder
  {
    NameScoreRowNumber(alice, bob);
    Rectangular(NameScoreColumns(alice, bob));
  }

  lemma NameScorePendingGrid<T>(alice: T, bob: T)
    ensures CreateRows(NameScoreColumns(alice, bob)) == [[Value(alice), Placeholder], [Value(bob), Placeholder]]
  {
    NameScorePendingCells(alice, bob);
    TwoByTwo(CreateRows(NameScoreColumns(alice, bob)), Value(alice), Placeholder, Value(bob), Placeholder);
  }

  /** A two-by-two grid is determined by its four cells. */
  lemma TwoByTwo<X>(g: seq<seq<X>>, a: X, b: X, c: X, d: X)
    requires |g| == 2 && |g[0]| == 2 && |g[1]| == 2
    requires g[0][0] == a && g[0][1] == b && g[1][0] == c && g[1][1] == d
    ensures g == [[a, b], [c, d]]
  {
    assert g[0] == [a, b];
    assert g[1] == [c, d];
  }

  lemma NameScoreResolvedGrid<T>(alice: T, bob: T, ten: T, twenty: T)
    ensures Settle(NameScoreColumns(alice, bob), Resolution(1, [ten, twenty]))
         == [Col(false, false, false, false, [alice, bob]), Col(true, true, true, true, [ten, twenty])]
    ensures CreateRows(Settle(NameScoreColumns(alice, bob), Resolution(1, [ten, twenty])))
         == [[Value(alice), Value(ten)], [Value(bob), Value(twenty)]]
  {
    var cols := NameScoreColumns(alice, bob);
    var cols' := Settle(cols, Resolution(1, [ten, twenty]));
    assert cols' == [Col(false, false, false, false, [alice, bob]), Col(true, true, true, true, [ten, twenty])];
    assert RowNumber(cols') == 2 by {
      assert RowNumber(cols'[..1]) == 2;
    }
    Rectangular(cols');
    var g := CreateRows(cols');
    assert g[0][0] == Value(alice) && g[1][0] == Value(bob);
    assert g[0][1] == Value(ten) && g[1][1] == Value(twenty);
    TwoByTwo(g, Value(alice), Value(ten), Value(bob), Value(twenty));
  }

  /** The example through the hook: placeholders after the effect, the scores
      after the score column resolves, and `ready` still false. */
  lemma NameScoreScenario<T>(alice: T, bob: T, ten: T, twenty: T)
    ensures var s := EffectStep(Init(NameScoreColumns(alice, bob)));
      && !s.ready
      && s.data == [[Value(alice), Placeholder], [Value(bob), Placeholder]]
      && ResolveStep(s, Resolution(1, [ten, twenty])).data
         == [[Value(alice), Value(ten)], [Value(bob), Value(twenty)]]
      && !ResolveStep(s, Resolution(1, [ten, twenty])).ready
  {
    NameScorePendingGrid(alice, bob);
    NameScoreResolvedGrid(alice, bob, ten, twenty);
    assert NameScoreColumns(alice, bob)[1].isAsync;
    assert Heard(EffectStep(Init(NameScoreColumns(alice, bob))), Resolution(1, [ten, twenty]));
  }

  /** The example with the score arriving before the effect: the first
      render's two empty rows (one per column) stay, and the effect then
      shows the names with their scores, still not ready. */
  lemma NameScoreEarlyResolution<T>(alice: T, bob: T, ten: T, twenty: T)
    ensures var s := ResolveStep(Init(NameScoreColumns(alice, bob)), Resolution(1, [ten, twenty]));
      && !s.ready
      && s.data == [[], []]
      && EffectStep(s).data == [[Value(alice), Value(ten)], [Value(bob), Value(twenty)]]
      && !EffectStep(s).ready
  {
    var cols := NameScoreColumns(alice, bob);
    assert cols[1].isAsync;
    assert Init(cols).data == [[], []];
    EarlyResolutionUnseen(cols, Resolution(1, [ten, twenty]));
    NameScoreResolvedGrid(alice, bob, ten, twenty);
  }
}
