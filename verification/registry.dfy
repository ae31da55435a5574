/**
 Column selection and the column registry of the modular inventory route:
 which columns are enabled, which are active and in what order, how each
 active column is built, and the per-host lookups the asynchronous columns
 await, including the zero/empty defaults for hosts without an id.
 */
module Registry {
  import opened RowGrid
  import ColumnData

  datatype Option<T> = None | Some(value: T)

  /** A host as the registry reads it: its id (absent or empty counts as
      missing, as any falsy value does) and the rest of its record, which
      only the cell renderers look at. */
  datatype Host<R> = Host(id: Option<string>, record: R)

  /** The host's id is truthy: missing exactly when absent or empty. */
  predicate HasId<R>(h: Host<R>): (b: bool)
    ensures !b <==> h.id == None || h.id == Some("")
  {
    match h.id
    case None => false
    case Some(v) => v != ""
  }

  /** The column ids, in display order. */
  const ColumnIds: seq<string> := ["id", "name", "all-cves", "cves", "tags", "os", "lastCheckIn"]

  /** The registry entries whose columns load their data asynchronously. */
  predicate IsAsyncId(id: string) {
    id == "all-cves" || id == "cves" || id == "tags"
  }

  // ---------------------------------------------------------------------
  // Column selection
  // ---------------------------------------------------------------------

  /** A missing key reads as disabled (`undefined` is falsy). */
  predicate IsEnabled(m: map<string, bool>, id: string) {
    id in m && m[id]
  }

  /** The initial selection: a fold over the ids setting each one to true. */
  function InitialEnabled(ids: seq<string>): (m: map<string, bool>)
    ensures forall id :: id in m <==> id in ids
    ensures forall id :: id in ids ==> IsEnabled(m, id)
  {
    if |ids| == 0 then map[]
    else
      var m0 := InitialEnabled(ids[..|ids| - 1]);
      assert forall id :: id in ids <==> id in ids[..|ids| - 1] || id == ids[|ids| - 1] by {
        assert ids == ids[..|ids| - 1] + [ids[|ids| - 1]];
      }
      m0[ids[|ids| - 1] := true]
  }

  /** A checkbox change: negate the one key (a missing key becomes true),
      keep every other key and value. */
  function Toggle(m: map<string, bool>, id: string): (m': map<string, bool>)
    ensures id in m' && (IsEnabled(m', id) <==> !IsEnabled(m, id))
    ensures forall k :: k != id ==> (k in m' <==> k in m)
    ensures forall k :: k != id && k in m ==> m'[k] == m[k]
  {
    m[id := !IsEnabled(m, id)]
  }

  /** `a` is `b` with some elements left out, order kept. */
  predicate IsSubsequence(a: seq<string>, b: seq<string>)
    decreases |b|
  {
    if |a| == 0 then true
    else if |b| == 0 then false
    else if a[0] == b[0] then IsSubsequence(a[1..], b[1..])
    else IsSubsequence(a, b[1..])
  }

  /** The active ids: `ids` filtered by the selection, in `ids` order. */
  function ActiveIds(ids: seq<string>, m: map<string, bool>): (active: seq<string>)
    ensures forall id :: id in active <==> id in ids && IsEnabled(m, id)
    ensures IsSubsequence(active, ids)
  {
    if |ids| == 0 then []
    else
      var rest := ActiveIds(ids[1..], m);
      assert forall id :: id in ids <==> id == ids[0] || id in ids[1..] by {
        assert ids == [ids[0]] + ids[1..];
      }
      if IsEnabled(m, ids[0]) then
        assert ([ids[0]] + rest)[1..] == rest;
        [ids[0]] + rest
      else
        SubsequenceDropHead(rest, ids);
        rest
  }

  /** No id occurs twice. */
  predicate Distinct(ids: seq<string>) {
    forall a, b :: 0 <= a < b < |ids| ==> ids[a] != ids[b]
  }

  lemma ColumnIdsDistinct()
    ensures Distinct(ColumnIds)
  {
  }

  /** The filter keeps multiplicities: an enabled id occurs in the active
      ids as often as in `ids`, a disabled one not at all. */
  lemma {:induction false} ActiveIdsCount(ids: seq<string>, m: map<string, bool>, id: string)
    ensures multiset(ActiveIds(ids, m))[id] == if IsEnabled(m, id) then multiset(ids)[id] else 0
    decreases |ids|
  {
    if |ids| > 0 {
      ActiveIdsCount(ids[1..], m, id);
      assert ids == [ids[0]] + ids[1..];
      assert multiset(ids) == multiset([ids[0]]) + multiset(ids[1..]);
      var rest := ActiveIds(ids[1..], m);
      if IsEnabled(m, ids[0]) {
        assert multiset([ids[0]] + rest) == multiset([ids[0]]) + multiset(rest);
      }
    }
  }

  /** Filtering keeps a list of distinct ids distinct, so the active columns
      are distinct registry entries. */
  lemma {:induction false} ActiveIdsDistinct(ids: seq<string>, m: map<string, bool>)
    requires Distinct(ids)
    ensures Distinct(ActiveIds(ids, m))
    decreases |ids|
  {
    if |ids| > 0 {
      var tail := ids[1..];
      assert Distinct(tail) by {
        forall a, b | 0 <= a < b < |tail|
          ensures tail[a] != tail[b]
        {
          assert tail[a] == ids[a + 1] && tail[b] == ids[b + 1];
        }
      }
      ActiveIdsDistinct(tail, m);
      var rest := ActiveIds(tail, m);
      if IsEnabled(m, ids[0]) {
        assert ids[0] !in tail by {
          forall k | 0 <= k < |tail|
            ensures tail[k] != ids[0]
          {
            assert tail[k] == ids[k + 1];
          }
        }
        var active := [ids[0]] + rest;
        forall a, b | 0 <= a < b < |active|
          ensures active[a] != active[b]
        {
          assert active[b] == rest[b - 1];
          if a > 0 {
            assert active[a] == rest[a - 1];
          } else {
            assert rest[b - 1] in rest;
          }
        }
      }
    }
  }

  lemma {:induction false} SubsequenceDropHead(a: seq<string>, b: seq<string>)
    requires |b| > 0 && IsSubsequence(a, b[1..])
    ensures IsSubsequence(a, b)
    decreases |b|, |a|
  {
    if |a| > 0 && a[0] == b[0] {
      SubsequenceTail(a, b[1..]);
    }
  }

  lemma {:induction false} SubsequenceTail(a: seq<string>, b: seq<string>)
    requires |a| > 0 && IsSubsequence(a, b)
    ensures IsSubsequence(a[1..], b)
    decreases |b|, |a|
  {
    assert |b| > 0;
    if a[0] == b[0] {
      if |a[1..]| > 0 {
        SubsequenceDropHead(a[1..], b);
      }
    } else {
      SubsequenceTail(a, b[1..]);
      if |a[1..]| > 0 {
        SubsequenceDropHead(a[1..], b);
      }
    }
  }

  /** Whatever the selection, the active column ids are pairwise distinct,
      so the route's columns (and the header cells keyed by their ids) never
      repeat. */
  lemma ActiveColumnIdsDistinct(m: map<string, bool>)
    ensures Distinct(ActiveIds(ColumnIds, m))
  {
    ColumnIdsDistinct();
    ActiveIdsDistinct(ColumnIds, m);
  }

  /** Every column starts enabled, so every id is active, in order. */
  lemma AllActiveInitially(ids: seq<string>)
    ensures ActiveIds(ids, InitialEnabled(ids)) == ids
  {
    AllEnabledActive(ids, InitialEnabled(ids));
  }

  lemma {:induction false} AllEnabledActive(ids: seq<string>, m: map<string, bool>)
    requires forall id :: id in ids ==> IsEnabled(m, id)
    ensures ActiveIds(ids, m) == ids
  {
    if |ids| > 0 {
      AllEnabledActive(ids[1..], m);
      assert ids == [ids[0]] + ids[1..];
    }
  }

  /** A checkbox change adds or removes exactly its own id from the active
      ids and leaves every other id's membership as it was. */
  lemma ToggleFlipsOneActive(ids: seq<string>, m: map<string, bool>, id: string)
    ensures id in ids ==> (id in ActiveIds(ids, Toggle(m, id)) <==> id !in ActiveIds(ids, m))
    ensures forall x :: x != id ==> (x in ActiveIds(ids, Toggle(m, id)) <==> x in ActiveIds(ids, m))
  {
  }

  /** Two changes of the same checkbox restore the selection. */
  lemma ToggleTwice(m: map<string, bool>, id: string)
    ensures forall k :: IsEnabled(Toggle(Toggle(m, id), id), k) == IsEnabled(m, k)
    ensures id in m ==> Toggle(Toggle(m, id), id) == m
  {
    if id in m {
      assert Toggle(Toggle(m, id), id)[id] == m[id];
    }
  }

  // ---------------------------------------------------------------------
  // Per-host lookups
  // ---------------------------------------------------------------------

  datatype CveCounts = CveCounts(criticalCount: int, highCount: int, allCount: int)

  /** A tag lookup result; `results` lists the per-tag counts in the order
      their values are enumerated. */
  datatype TagResult = TagResult(count: int, results: seq<(string, int)>)

  /** A per-host handle: a value known at once, or a remote lookup of the
      host id still to be awaited. */
  datatype Lookup<V> = Immediate(value: V) | Remote(hostId: string)

  function Handle<R, V>(h: Host<R>, default: V): Lookup<V> {
    if HasId(h) then Remote(h.id.value) else Immediate(default)
  }

  /** One CVE handle per host; a remote lookup exactly for the hosts that
      have an id, and all-zero counts for the others. */
  function CveLookups<R>(hosts: seq<Host<R>>): (ls: seq<Lookup<CveCounts>>)
    ensures |ls| == |hosts|
    ensures forall i :: 0 <= i < |hosts| ==> (ls[i].Remote? <==> HasId(hosts[i]))
    ensures forall i :: 0 <= i < |hosts| && ls[i].Remote? ==> Some(ls[i].hostId) == hosts[i].id
    ensures forall i :: 0 <= i < |hosts| && ls[i].Immediate? ==> ls[i].value == CveCounts(0, 0, 0)
  {
    seq(|hosts|, i requires 0 <= i < |hosts| => Handle(hosts[i], CveCounts(0, 0, 0)))
  }

  /** One tag handle per host; a remote lookup exactly for the hosts that
      have an id, and an empty result for the others. */
  function TagLookups<R>(hosts: seq<Host<R>>): (ls: seq<Lookup<TagResult>>)
    ensures |ls| == |hosts|
    ensures forall i :: 0 <= i < |hosts| ==> (ls[i].Remote? <==> HasId(hosts[i]))
    ensures forall i :: 0 <= i < |hosts| && ls[i].Remote? ==> Some(ls[i].hostId) == hosts[i].id
    ensures forall i :: 0 <= i < |hosts| && ls[i].Immediate? ==> ls[i].value == TagResult(0, [])
  {
    seq(|hosts|, i requires 0 <= i < |hosts| => Handle(hosts[i], TagResult(0, [])))
  }

  /** Awaiting all handles, with `remote` standing for the lookup service:
      one result per handle, in order; an immediate handle never consults
      the service. */
  function AwaitAll<V>(ls: seq<Lookup<V>>, remote: string -> V): (vs: seq<V>)
    ensures |vs| == |ls|
    ensures forall i :: 0 <= i < |ls| && ls[i].Immediate? ==> vs[i] == ls[i].value
    ensures forall i :: 0 <= i < |ls| && ls[i].Remote? ==> vs[i] == remote(ls[i].hostId)
  {
    seq(|ls|, i requires 0 <= i < |ls| =>
      match ls[i]
      case Immediate(v) => v
      case Remote(id) => remote(id))
  }

  /** A host without an id gets the all-zero CVE counts whatever the lookup
      service would answer: the service is not consulted for it. */
  lemma IdlessHostCveDefault<R>(hosts: seq<Host<R>>, i: nat, remote: string -> CveCounts, remote': string -> CveCounts)
    requires i < |hosts| && !HasId(hosts[i])
    ensures AwaitAll(CveLookups(hosts), remote)[i] == CveCounts(0, 0, 0)
    ensures AwaitAll(CveLookups(hosts), remote)[i] == AwaitAll(CveLookups(hosts), remote')[i]
  {
  }

  /** A host without an id gets the empty tag result whatever the lookup
      service would answer, so its tag count is 0. */
  lemma IdlessHostTagDefault<R>(hosts: seq<Host<R>>, i: nat, remote: string -> TagResult, remote': string -> TagResult)
    requires i < |hosts| && !HasId(hosts[i])
    ensures AwaitAll(TagLookups(hosts), remote)[i] == TagResult(0, [])
    ensures AwaitAll(TagLookups(hosts), remote)[i] == AwaitAll(TagLookups(hosts), remote')[i]
    ensures TagCount(AwaitAll(TagLookups(hosts), remote)[i].results) == 0
  {
  }

  // ---------------------------------------------------------------------
  // Tag count
  // ---------------------------------------------------------------------

  /** The tag cell's count: a left fold adding up the values of `results`,
      starting from 0 (the `count` field is not used). */
  function TagCount(results: seq<(string, int)>): (n: int)
    ensures (forall i :: 0 <= i < |results| ==> results[i].1 == 0) ==> n == 0
    ensures |results| == 1 ==> n == results[0].1
  {
    if |results| == 0 then 0
    else TagCount(results[..|results| - 1]) + results[|results| - 1].1
  }

  /** Adding up from the front gives the same count as the left fold. */
  lemma {:induction false} TagCountFromHead(results: seq<(string, int)>)
    requires |results| > 0
    ensures TagCount(results) == results[0].1 + TagCount(results[1..])
  {
    assert results == [results[0]] + results[1..];
    TagCountAppend([results[0]], results[1..]);
  }

  /** The count of two lists of entries is the sum of their counts. */
  lemma {:induction false} TagCountAppend(a: seq<(string, int)>, b: seq<(string, int)>)
    ensures TagCount(a + b) == TagCount(a) + TagCount(b)
    decreases |b|
  {
    if |b| == 0 {
      assert a + b == a;
    } else {
      var last := |b| - 1;
      assert (a + b)[..|a + b| - 1] == a + b[..last];
      TagCountAppend(a, b[..last]);
    }
  }

  /** The count does not depend on the order in which the values are
      enumerated. */
  lemma {:induction false} TagCountPermutation(a: seq<(string, int)>, b: seq<(string, int)>)
    requires multiset(a) == multiset(b)
    ensures TagCount(a) == TagCount(b)
    decreases |a|
  {
    if |a| > 0 {
      var x := a[0];
      assert x in multiset(b);
      var k :| 0 <= k < |b| && b[k] == x;
      var b' := b[..k] + b[k + 1..];
      assert b == b[..k] + [x] + b[k + 1..];
      assert a == [x] + a[1..];
      assert multiset(b) == multiset(b[..k]) + multiset{x} + multiset(b[k + 1..]);
      assert multiset(a) == multiset{x} + multiset(a[1..]);
      assert multiset(b') == multiset(b[..k]) + multiset(b[k + 1..]);
      calc {
        multiset(a[1..]);
        multiset(a) - multiset{x};
        multiset(b) - multiset{x};
        multiset(b');
      }
      TagCountPermutation(a[1..], b');
      TagCountAppend([x], a[1..]);
      TagCountAppend(b[..k] + [x], b[k + 1..]);
      TagCountAppend(b[..k], [x]);
      TagCountAppend(b[..k], b[k + 1..]);
    }
  }

  /** With non-negative per-tag values the count is non-negative and bounds
      every single value. */
  lemma {:induction false} TagCountBounds(results: seq<(string, int)>)
    requires forall i :: 0 <= i < |results| ==> results[i].1 >= 0
    ensures TagCount(results) >= 0
    ensures forall i :: 0 <= i < |results| ==> results[i].1 <= TagCount(results)
  {
    if |results| > 0 {
      var prefix := results[..|results| - 1];
      TagCountBounds(prefix);
      assert forall i :: 0 <= i < |prefix| ==> prefix[i] == results[i];
    }
  }

  // ---------------------------------------------------------------------
  // Building the active columns
  // ---------------------------------------------------------------------

  /** One registry entry applied to the hosts. A synchronous column renders
      one cell per host with `render`; an asynchronous one starts pending
      with no data. */
  function BuildColumn<R, T>(id: string, hosts: seq<Host<R>>, render: (string, Host<R>) -> T): (c: Col<T>)
    ensures c.isAsync <==> IsAsyncId(id)
    ensures c.isAsync ==> Pending(c) && c.observable && c.reportsReady && c.data == []
    ensures !c.isAsync ==> |c.data| == |hosts| && forall i :: 0 <= i < |hosts| ==> c.data[i] == render(id, hosts[i])
  {
    if IsAsyncId(id) then Col(true, true, true, false, [])
    else Col(false, false, false, false, seq(|hosts|, i requires 0 <= i < |hosts| => render(id, hosts[i])))
  }

  /** The active columns: one registry column per active id, in that order;
      the CVE, tag columns are pending and the others hold one cell per
      host. */
  function ActiveColumns<R, T>(m: map<string, bool>, hosts: seq<Host<R>>, render: (string, Host<R>) -> T): (cols: seq<Col<T>>)
    ensures |cols| == |ActiveIds(ColumnIds, m)|
    ensures forall j :: 0 <= j < |cols| ==> cols[j] == BuildColumn(ActiveIds(ColumnIds, m)[j], hosts, render)
    ensures forall j :: 0 <= j < |cols| ==> (cols[j].isAsync <==> IsAsyncId(ActiveIds(ColumnIds, m)[j]))
    ensures forall j :: 0 <= j < |cols| && cols[j].isAsync ==> Pending(cols[j]) && cols[j].observable
    ensures forall j :: 0 <= j < |cols| && !cols[j].isAsync ==>
      |cols[j].data| == |hosts| &&
      forall i :: 0 <= i < |hosts| ==> cols[j].data[i] == render(ActiveIds(ColumnIds, m)[j], hosts[i])
  {
    BuildAll(ActiveIds(ColumnIds, m), hosts, render)
  }

  /** One registry column per id, in order. */
  function BuildAll<R, T>(ids: seq<string>, hosts: seq<Host<R>>, render: (string, Host<R>) -> T): (cols: seq<Col<T>>)
    ensures |cols| == |ids|
    ensures forall j :: 0 <= j < |ids| ==> cols[j] == BuildColumn(ids[j], hosts, render)
  {
    seq(|ids|, j requires 0 <= j < |ids| => BuildColumn(ids[j], hosts, render))
  }

  /** The row count of the active columns: one row per host as soon as a
      synchronous column is enabled, none when only asynchronous ones are. */
  lemma ActiveRowNumber<R, T>(m: map<string, bool>, hosts: seq<Host<R>>, render: (string, Host<R>) -> T)
    ensures (exists id :: id in ColumnIds && IsEnabled(m, id) && !IsAsyncId(id)) ==>
      RowNumber(ActiveColumns(m, hosts, render)) == |hosts|
    ensures (forall id :: id in ColumnIds && IsEnabled(m, id) ==> IsAsyncId(id)) ==>
      RowNumber(ActiveColumns(m, hosts, render)) == 0
  {
    var active := ActiveIds(ColumnIds, m);
    var cols := ActiveColumns(m, hosts, render);
    if exists id :: id in ColumnIds && IsEnabled(m, id) && !IsAsyncId(id) {
      var id :| id in ColumnIds && IsEnabled(m, id) && !IsAsyncId(id);
      assert id in active;
      var j :| 0 <= j < |active| && active[j] == id;
      assert !cols[j].isAsync && |cols[j].data| == |hosts|;
    } else {
      assert forall j :: 0 <= j < |cols| ==> active[j] in active;
    }
  }

  /** The hook's first render over the active columns: with an asynchronous
      column enabled it is not ready and shows one empty row per ACTIVE
      COLUMN (not per host); the grid with placeholders comes only with the
      effect. The hook's state initialisers run only when it mounts, and the
      route mounts before any host is loaded, so in the route this happens
      with no hosts (`MountWithoutHosts`); later column sets reach the hook
      through the teardown and the effect. */
  lemma FirstRenderShape<R, T>(m: map<string, bool>, hosts: seq<Host<R>>, render: (string, Host<R>) -> T)
    requires exists id :: id in ColumnIds && IsEnabled(m, id) && IsAsyncId(id)
    ensures !ColumnData.Init(ActiveColumns(m, hosts, render)).ready
    ensures |ColumnData.Init(ActiveColumns(m, hosts, render)).data| == |ActiveIds(ColumnIds, m)|
    ensures forall i :: 0 <= i < |ColumnData.Init(ActiveColumns(m, hosts, render)).data| ==>
      ColumnData.Init(ActiveColumns(m, hosts, render)).data[i] == []
  {
    var active := ActiveIds(ColumnIds, m);
    var cols := ActiveColumns(m, hosts, render);
    var id :| id in ColumnIds && IsEnabled(m, id) && IsAsyncId(id);
    assert id in active;
    var j :| 0 <= j < |active| && active[j] == id;
    assert cols[j].isAsync;
  }

  /** The route's mount: with no hosts loaded yet and an asynchronous
      column enabled, the first render shows one empty row per active column
      and is not ready, and the effect then publishes the empty grid, still
      not ready. */
  lemma MountWithoutHosts<R, T>(m: map<string, bool>, render: (string, Host<R>) -> T)
    requires exists id :: id in ColumnIds && IsEnabled(m, id) && IsAsyncId(id)
    ensures var s := ColumnData.Init(ActiveColumns(m, [], render));
      && !s.ready
      && |s.data| == |ActiveIds(ColumnIds, m)|
      && (forall i :: 0 <= i < |s.data| ==> s.data[i] == [])
      && ColumnData.EffectStep(s).data == []
      && !ColumnData.EffectStep(s).ready
  {
    var cols := ActiveColumns(m, [], render);
    FirstRenderShape(m, [], render);
    ActiveRowNumber(m, [], render);
    Rectangular(cols);
  }

  /** `grid` is the host grid for `ids`: one row per host, one cell per id,
      a placeholder in every asynchronous column and the rendered host
      field in every other. */
  ghost predicate HostGrid<R, T>(grid: seq<Row<T>>, ids: seq<string>, hosts: seq<Host<R>>, render: (string, Host<R>) -> T) {
    && |grid| == |hosts|
    && forall i, j :: 0 <= i < |hosts| && 0 <= j < |ids| ==>
         |grid[i]| == |ids| &&
         grid[i][j] == (if IsAsyncId(ids[j]) then Placeholder else Value(render(ids[j], hosts[i])))
  }

  /** The grid the effect publishes for the active columns when at least
      one synchronous column is enabled is the host grid of the active
      ids. */
  lemma InitialGridShape<R, T>(m: map<string, bool>, hosts: seq<Host<R>>, render: (string, Host<R>) -> T)
    requires exists id :: id in ColumnIds && IsEnabled(m, id) && !IsAsyncId(id)
    ensures HostGrid(CreateRows(ActiveColumns(m, hosts, render)), ActiveIds(ColumnIds, m), hosts, render)
  {
    var active := ActiveIds(ColumnIds, m);
    assert ActiveColumns(m, hosts, render) == BuildAll(active, hosts, render);
    ActiveKeepsSync(ColumnIds, m);
    BuiltGridShape(active, hosts, render);
  }

  /** An enabled synchronous id stays among the active ones. */
  lemma ActiveKeepsSync(ids: seq<string>, m: map<string, bool>)
    requires exists id :: id in ids && IsEnabled(m, id) && !IsAsyncId(id)
    ensures exists id :: id in ActiveIds(ids, m) && !IsAsyncId(id)
  {
    var id :| id in ids && IsEnabled(m, id) && !IsAsyncId(id);
    assert id in ActiveIds(ids, m);
  }

  /** The grid over registry columns built for `ids`, one of them
      synchronous, is their host grid. */
  lemma BuiltGridShape<R, T>(ids: seq<string>, hosts: seq<Host<R>>, render: (string, Host<R>) -> T)
    requires exists id :: id in ids && !IsAsyncId(id)
    ensures HostGrid(CreateRows(BuildAll(ids, hosts, render)), ids, hosts, render)
  {
    var cols := BuildAll(ids, hosts, render);
    var id :| id in ids && !IsAsyncId(id);
    var j :| 0 <= j < |ids| && ids[j] == id;
    assert !cols[j].isAsync && |cols[j].data| == |hosts|;
    assert RowNumber(cols) == |hosts|;
    Rectangular(cols);
  }

  /** With only asynchronous columns enabled the row count is 0, so the
      grid the effect publishes is empty: placeholders are emitted for no
      row at all. */
  lemma OnlyAsyncEnabledEmptyGrid<R, T>(m: map<string, bool>, hosts: seq<Host<R>>, render: (string, Host<R>) -> T)
    requires forall id :: id in ColumnIds && IsEnabled(m, id) ==> IsAsyncId(id)
    ensures CreateRows(ActiveColumns(m, hosts, render)) == []
  {
    ActiveRowNumber(m, hosts, render);
    Rectangular(ActiveColumns(m, hosts, render));
  }

  // ---------------------------------------------------------------------
  // What the asynchronous columns resolve to
  // ---------------------------------------------------------------------

  /** The total-CVE column's data: per host, in host order, its `allCount`;
      0 for a host without an id. */
  function AllCvesColumnData<R>(hosts: seq<Host<R>>, remote: string -> CveCounts): (d: seq<int>)
    ensures |d| == |hosts|
    ensures forall i :: 0 <= i < |hosts| ==>
      d[i] == if HasId(hosts[i]) then remote(hosts[i].id.value).allCount else 0
  {
    var res := AwaitAll(CveLookups(hosts), remote);
    seq(|res|, i requires 0 <= i < |res| => res[i].allCount)
  }

  /** The high-severity column's data: per host, in host order, its critical
      and high counts; both 0 for a host without an id. */
  function HighSeverityColumnData<R>(hosts: seq<Host<R>>, remote: string -> CveCounts): (d: seq<(int, int)>)
    ensures |d| == |hosts|
    ensures forall i :: 0 <= i < |hosts| ==>
      d[i] == if HasId(hosts[i])
        then (remote(hosts[i].id.value).criticalCount, remote(hosts[i].id.value).highCount)
        else (0, 0)
  {
    var res := AwaitAll(CveLookups(hosts), remote);
    seq(|res|, i requires 0 <= i < |res| => (res[i].criticalCount, res[i].highCount))
  }

  /** The tag column's data: per host, in host order, the sum of its tag
      values; 0 for a host without an id. */
  function TagColumnData<R>(hosts: seq<Host<R>>, remote: string -> TagResult): (d: seq<int>)
    ensures |d| == |hosts|
    ensures forall i :: 0 <= i < |hosts| ==>
      d[i] == if HasId(hosts[i]) then TagCount(remote(hosts[i].id.value).results) else 0
  {
    var res := AwaitAll(TagLookups(hosts), remote);
    seq(|res|, i requires 0 <= i < |res| => TagCount(res[i].results))
  }

  /** Each asynchronous column resolves to one value per host, which is the
      row count as soon as a synchronous column is enabled: resolved, the
      asynchronous columns fill the grid's rows exactly. */
  lemma AsyncDataFitsRows<R, T>(m: map<string, bool>, hosts: seq<Host<R>>, render: (string, Host<R>) -> T,
                                cves: string -> CveCounts, tags: string -> TagResult)
    requires exists id :: id in ColumnIds && IsEnabled(m, id) && !IsAsyncId(id)
    ensures |AllCvesColumnData(hosts, cves)| == RowNumber(ActiveColumns(m, hosts, render))
    ensures |HighSeverityColumnData(hosts, cves)| == RowNumber(ActiveColumns(m, hosts, render))
    ensures |TagColumnData(hosts, tags)| == RowNumber(ActiveColumns(m, hosts, render))
  {
    ActiveRowNumber(m, hosts, render);
  }
}
