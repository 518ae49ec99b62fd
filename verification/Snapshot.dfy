/**
 app_examiner/app_examiner.go: the views of one cluster snapshot. A map of pointers whose fields are
 counted up is a map variable whose entries are replaced.
 */
module Snapshot {
  import opened Options
  import opened Sorting
  import opened Text
  import Monitors
  import Numbers
  import Routing

  datatype State = Unclaimed | Claimed | Running | Crashed | Other(name: string)

  datatype PortMapping = PortMapping(hostPort: nat, containerPort: nat)

  datatype ActualLRP = ActualLRP(
    processGuid: string, instanceGuid: string, cellId: string, index: int, address: string,
    ports: seq<PortMapping>, state: State, since: int, placementError: string, crashCount: int)

  datatype Cell = Cell(cellId: string, zone: string, memoryMB: int, diskMB: int, containers: int)

  datatype CellInfo = CellInfo(
    cellId: string, running: int, claimed: int, missing: bool,
    zone: string, memoryMB: int, diskMB: int, containers: int)

  datatype EnvironmentVariable = EnvironmentVariable(name: string, value: string)

  /** The fields of a desired LRP that are copied through unchanged, its routing information decoded. */
  datatype Details = Details(
    rootFS: string, environment: seq<EnvironmentVariable>, startTimeout: nat, memoryMB: int, diskMB: int,
    cpuWeight: nat, ports: seq<Routing.Port>, routes: Routing.Routes, logGuid: string, logSource: string,
    annotation: string)

  const NO_DETAILS := Details("", [], 0, 0, 0, 0, [], Routing.Routes([], []), "", "", "")

  datatype DesiredLRP = DesiredLRP(
    processGuid: string, instances: int, details: Details, monitor: Option<Monitors.RunAction>)

  datatype Metrics = Metrics(cpu: real, memory: nat, disk: nat)

  const NO_METRICS := Metrics(0.0, 0, 0)

  datatype InstanceInfo = InstanceInfo(
    instanceGuid: string, cellId: string, index: int, ip: string, ports: seq<PortMapping>, state: State,
    since: int, placementError: string, crashCount: int, hasMetrics: bool, metrics: Metrics)

  datatype AppInfo = AppInfo(
    processGuid: string, desiredInstances: int, running: int, details: Details,
    monitor: Monitors.Monitor, instances: seq<InstanceInfo>)

  // ---------- counting ----------

  /** How many LRPs are in a state. */
  function CountState(lrps: seq<ActualLRP>, state: State): nat {
    if lrps == [] then 0
    else CountState(lrps[..|lrps| - 1], state) + if lrps[|lrps| - 1].state == state then 1 else 0
  }

  /** How many LRPs with a given key are in a state. */
  function CountAt(lrps: seq<ActualLRP>, key: ActualLRP -> string, k: string, state: State): nat {
    if lrps == [] then 0
    else
      var last := lrps[|lrps| - 1];
      CountAt(lrps[..|lrps| - 1], key, k, state) + if key(last) == k && last.state == state then 1 else 0
  }

  function SumAt(keys: seq<string>, lrps: seq<ActualLRP>, key: ActualLRP -> string, state: State): nat {
    if keys == [] then 0 else CountAt(lrps, key, keys[0], state) + SumAt(keys[1..], lrps, key, state)
  }

  /** One more LRP adds one to the count of its key, when that key is listed. */
  lemma {:induction false} SumAtSnoc(keys: seq<string>, lrps: seq<ActualLRP>, lrp: ActualLRP,
                                     key: ActualLRP -> string, state: State)
    requires Distinct(keys)
    ensures SumAt(keys, lrps + [lrp], key, state)
            == SumAt(keys, lrps, key, state) + if lrp.state == state && key(lrp) in keys then 1 else 0
    decreases keys
  {
    assert (lrps + [lrp])[..|lrps|] == lrps;
    if keys != [] {
      assert forall x :: x in keys <==> x == keys[0] || x in keys[1..];
      assert keys[0] !in keys[1..];
      SumAtSnoc(keys[1..], lrps, lrp, key, state);
    }
  }

  lemma {:induction false} SumAtEmpty(keys: seq<string>, key: ActualLRP -> string, state: State)
    ensures SumAt(keys, [], key, state) == 0
  {
    if keys != [] {
      SumAtEmpty(keys[1..], key, state);
    }
  }

  /** Counting per key loses and doubles nothing when every LRP in the state has a listed key. */
  lemma {:induction false} SumIsCount(keys: seq<string>, lrps: seq<ActualLRP>, key: ActualLRP -> string, state: State)
    requires Distinct(keys)
    requires forall lrp :: lrp in lrps && lrp.state == state ==> key(lrp) in keys
    ensures SumAt(keys, lrps, key, state) == CountState(lrps, state)
  {
    if lrps == [] {
      SumAtEmpty(keys, key, state);
    } else {
      var n := |lrps| - 1;
      assert lrps == lrps[..n] + [lrps[n]];
      SumIsCount(keys, lrps[..n], key, state);
      SumAtSnoc(keys, lrps[..n], lrps[n], key, state);
    }
  }

  // ---------- cells ----------

  function CellOf(): ActualLRP -> string {
    (lrp: ActualLRP) => lrp.cellId
  }

  function GuidOf(): ActualLRP -> string {
    (lrp: ActualLRP) => lrp.processGuid
  }

  function Registered(cells: seq<Cell>): set<string> {
    set cell | cell in cells :: cell.cellId
  }

  /** Cells that hold an LRP in some state other than UNCLAIMED. */
  function Active(lrps: seq<ActualLRP>): set<string> {
    set lrp | lrp in lrps && lrp.state != Unclaimed :: lrp.cellId
  }

  /** The last registration of a cell decides; an unregistered cell has zero capacity. */
  function LastCell(cells: seq<Cell>, id: string): Cell {
    if cells == [] then Cell(id, "", 0, 0, 0)
    else if cells[|cells| - 1].cellId == id then cells[|cells| - 1]
    else LastCell(cells[..|cells| - 1], id)
  }

  /** What a cell's entry has to say, cell by cell. */
  function CellView(id: string, cells: seq<Cell>, lrps: seq<ActualLRP>): CellInfo {
    var cell := LastCell(cells, id);
    CellInfo(id, CountAt(lrps, CellOf(), id, Running), CountAt(lrps, CellOf(), id, Claimed), id !in Registered(cells),
             cell.zone, cell.memoryMB, cell.diskMB, cell.containers)
  }

  /** The sort key of a cell: the number behind its last dash, else the largest integer. */
  function CellIndex(id: string): int {
    var n := LastIndex(id, '-');
    if n == -1 then Numbers.MAX_INT64
    else match Numbers.Atoi(id[n + 1..])
      case Some(v) => v
      case None => Numbers.MAX_INT64
  }

  /** A cell list: one entry per registered or active cell, right entries, ordered by cell number. */
  ghost predicate IsCellList(infos: seq<CellInfo>, cells: seq<Cell>, lrps: seq<ActualLRP>) {
    var ids := CellIds(infos);
    && Distinct(ids)
    && (forall id :: id in ids <==> id in Registered(cells) + Active(lrps))
    && (forall i :: 0 <= i < |infos| ==> infos[i] == CellView(ids[i], cells, lrps))
    && (forall i, j :: 0 <= i < j < |infos| ==> CellIndex(ids[i]) <= CellIndex(ids[j]))
  }

  function CellIds(infos: seq<CellInfo>): (ids: seq<string>)
    ensures |ids| == |infos| && forall i :: 0 <= i < |infos| ==> ids[i] == infos[i].cellId
  {
    seq(|infos|, i requires 0 <= i < |infos| => infos[i].cellId)
  }

  lemma ActiveSnoc(lrps: seq<ActualLRP>, lrp: ActualLRP)
    ensures Active(lrps + [lrp]) == Active(lrps) + if lrp.state != Unclaimed then {lrp.cellId} else {}
  {
    assert lrp in lrps + [lrp];
    assert forall x :: x in lrps + [lrp] <==> x in lrps || x == lrp;
  }

  lemma {:induction false} NotActive(lrps: seq<ActualLRP>, id: string)
    requires id !in Active(lrps)
    ensures CountAt(lrps, CellOf(), id, Running) == 0 && CountAt(lrps, CellOf(), id, Claimed) == 0
  {
    if lrps != [] {
      var n := |lrps| - 1;
      assert lrps == lrps[..n] + [lrps[n]];
      ActiveSnoc(lrps[..n], lrps[n]);
      NotActive(lrps[..n], id);
    }
  }

  lemma RegisteredSnoc(cells: seq<Cell>, cell: Cell)
    ensures Registered(cells + [cell]) == Registered(cells) + {cell.cellId}
  {
    assert cell in cells + [cell];
    assert forall x :: x in cells + [cell] <==> x in cells || x == cell;
  }

  lemma {:induction false} NotRegistered(cells: seq<Cell>, id: string)
    requires id !in Registered(cells)
    ensures LastCell(cells, id) == Cell(id, "", 0, 0, 0)
  {
    if cells != [] {
      var n := |cells| - 1;
      assert cells == cells[..n] + [cells[n]];
      RegisteredSnoc(cells[..n], cells[n]);
      NotRegistered(cells[..n], id);
    }
  }

  /** The registration loop of ListCells. */
  method RegisterCells(cells: seq<Cell>) returns (allCells: map<string, CellInfo>)
    ensures IsCellMap(allCells, cells, [])
  {
    allCells := map[];
    for i := 0 to |cells|
      invariant allCells.Keys == Registered(cells[..i])
      invariant forall id :: id in allCells ==> allCells[id] == CellView(id, cells[..i], [])
    {
      var cell := cells[i];
      assert cells[..i + 1] == cells[..i] + [cell];
      RegisteredSnoc(cells[..i], cell);
      assert (cells[..i] + [cell])[..i] == cells[..i];
      allCells := allCells[cell.cellId :=
                             CellInfo(cell.cellId, 0, 0, false, cell.zone, cell.memoryMB, cell.diskMB,
                                      cell.containers)];
    }
    assert cells[..|cells|] == cells;
  }

  /** What one more LRP does to a cell's entry. */
  lemma CellViewSnoc(id: string, cells: seq<Cell>, lrps: seq<ActualLRP>, lrp: ActualLRP)
    ensures var before := CellView(id, cells, lrps);
            CellView(id, cells, lrps + [lrp])
            == if lrp.cellId != id then before
               else before.(running := before.running + if lrp.state == Running then 1 else 0,
                            claimed := before.claimed + if lrp.state == Claimed then 1 else 0)
  {
    assert (lrps + [lrp])[..|lrps|] == lrps;
  }

  /** A cell neither registered nor active has the entry that ListCells creates for a missing cell. */
  lemma MissingCellView(id: string, cells: seq<Cell>, lrps: seq<ActualLRP>)
    requires id !in Registered(cells) + Active(lrps)
    ensures CellView(id, cells, lrps) == CellInfo(id, 0, 0, true, "", 0, 0, 0)
  {
    NotActive(lrps, id);
    NotRegistered(cells, id);
  }

  /** The cell map after some LRPs. */
  ghost predicate IsCellMap(allCells: map<string, CellInfo>, cells: seq<Cell>, lrps: seq<ActualLRP>) {
    && allCells.Keys == Registered(cells) + Active(lrps)
    && forall id :: id in allCells ==> allCells[id] == CellView(id, cells, lrps)
  }

  /** A map whose one changed entry is right stands for one LRP more. */
  lemma CellMapSnoc(allCells: map<string, CellInfo>, r: map<string, CellInfo>, cells: seq<Cell>,
                    lrps: seq<ActualLRP>, lrp: ActualLRP)
    requires IsCellMap(allCells, cells, lrps) && lrp.state != Unclaimed
    requires r == allCells[lrp.cellId := CellView(lrp.cellId, cells, lrps + [lrp])]
    ensures IsCellMap(r, cells, lrps + [lrp])
  {
    ActiveSnoc(lrps, lrp);
    forall id | id in r ensures r[id] == CellView(id, cells, lrps + [lrp]) {
      CellViewSnoc(id, cells, lrps, lrp);
    }
  }

  lemma UnclaimedChangesNothing(allCells: map<string, CellInfo>, cells: seq<Cell>, lrps: seq<ActualLRP>, lrp: ActualLRP)
    requires IsCellMap(allCells, cells, lrps) && lrp.state == Unclaimed
    ensures IsCellMap(allCells, cells, lrps + [lrp])
  {
    ActiveSnoc(lrps, lrp);
    forall id | id in allCells ensures allCells[id] == CellView(id, cells, lrps + [lrp]) {
      CellViewSnoc(id, cells, lrps, lrp);
    }
  }

  /** One LRP of the counting loop of ListCells. */
  method CountLRP(allCells: map<string, CellInfo>, lrp: ActualLRP, ghost cells: seq<Cell>, ghost lrps: seq<ActualLRP>)
    returns (r: map<string, CellInfo>)
    requires IsCellMap(allCells, cells, lrps)
    ensures IsCellMap(r, cells, lrps + [lrp])
  {
    r := allCells;
    if lrp.state == Unclaimed {
      UnclaimedChangesNothing(r, cells, lrps, lrp);
      return;
    }
    var id := lrp.cellId;
    if id !in r {
      MissingCellView(id, cells, lrps);
      r := r[id := CellInfo(id, 0, 0, true, "", 0, 0, 0)];
    }
    CellViewSnoc(id, cells, lrps, lrp);
    if lrp.state == Running {
      r := r[id := r[id].(running := r[id].running + 1)];
    } else if lrp.state == Claimed {
      r := r[id := r[id].(claimed := r[id].claimed + 1)];
    }
    assert r == allCells[id := CellView(id, cells, lrps + [lrp])];
    CellMapSnoc(allCells, r, cells, lrps, lrp);
  }

  /** ListCells */
  method ListCells(cells: seq<Cell>, lrps: seq<ActualLRP>) returns (infos: seq<CellInfo>)
    ensures IsCellList(infos, cells, lrps)
  {
    var allCells := RegisterCells(cells);
    for i := 0 to |lrps|
      invariant IsCellMap(allCells, cells, lrps[..i])
    {
      assert lrps[..i + 1] == lrps[..i] + [lrps[i]];
      allCells := CountLRP(allCells, lrps[i], cells, lrps[..i]);
    }
    assert lrps[..|lrps|] == lrps;
    infos := SortCells(allCells);
  }

  ghost predicate KeyedByCell(allCells: map<string, CellInfo>) {
    forall id :: id in allCells ==> allCells[id].cellId == id
  }

  /** sortCells: the entries in the order of their cell numbers. */
  method SortCells(allCells: map<string, CellInfo>) returns (infos: seq<CellInfo>)
    requires KeyedByCell(allCells)
    ensures var ids := CellIds(infos);
            && Distinct(ids) && (forall id :: id in ids <==> id in allCells)
            && (forall i :: 0 <= i < |infos| ==> ids[i] in allCells && infos[i] == allCells[ids[i]])
            && (forall i, j :: 0 <= i < j < |infos| ==> CellIndex(ids[i]) <= CellIndex(ids[j]))
  {
    var le := (a: string, b: string) => CellIndex(a) <= CellIndex(b);
    var keys := Keys(allCells.Keys);
    keys := Sort(keys, le);
    SetOrder(keys, allCells.Keys);
    infos := [];
    for i := 0 to |keys|
      invariant |infos| == i && forall j :: 0 <= j < i ==> keys[j] in allCells && infos[j] == allCells[keys[j]]
    {
      assert keys[i] in keys;
      infos := infos + [allCells[keys[i]]];
    }
    assert CellIds(infos) == keys;
    assert forall i, j :: 0 <= i < j < |keys| ==> le(keys[i], keys[j]);
  }

  // ---------- what a cell list says of the snapshot ----------

  /** Positions below n, one more of which may belong. */
  lemma OneMore(before: set<nat>, after: set<nat>, n: nat, more: bool)
    requires n !in before && forall k :: k in after <==> k in before || (more && k == n)
    ensures |after| == |before| + if more then 1 else 0
  {
    assert after == before + if more then {n} else {};
  }

  lemma {:induction false} CountAtIsSize(lrps: seq<ActualLRP>, key: ActualLRP -> string, id: string, state: State)
    ensures CountAt(lrps, key, id, state)
            == |set k: nat | k < |lrps| && key(lrps[k]) == id && lrps[k].state == state|
  {
    var after := set k: nat | k < |lrps| && key(lrps[k]) == id && lrps[k].state == state;
    if lrps == [] {
      assert after == {};
    } else {
      var n := |lrps| - 1;
      var front := lrps[..n];
      CountAtIsSize(front, key, id, state);
      var before := set k: nat | k < |front| && key(front[k]) == id && front[k].state == state;
      assert forall k :: 0 <= k < n ==> front[k] == lrps[k];
      OneMore(before, after, n, key(lrps[n]) == id && lrps[n].state == state);
    }
  }

  /** The number of LRPs in a state is the number of their positions. */
  lemma {:induction false} CountStateIsSize(lrps: seq<ActualLRP>, state: State)
    ensures CountState(lrps, state) == |set k: nat | k < |lrps| && lrps[k].state == state|
  {
    var after := set k: nat | k < |lrps| && lrps[k].state == state;
    if lrps == [] {
      assert after == {};
    } else {
      var n := |lrps| - 1;
      var front := lrps[..n];
      CountStateIsSize(front, state);
      var before := set k: nat | k < |front| && front[k].state == state;
      assert forall k :: 0 <= k < n ==> front[k] == lrps[k];
      OneMore(before, after, n, lrps[n].state == state);
    }
  }

  /** Registration k of a cell is its last one. */
  predicate IsLastRegistration(cells: seq<Cell>, k: nat, id: string)
    requires k < |cells|
  {
    cells[k].cellId == id && forall l :: k < l < |cells| ==> cells[l].cellId != id
  }

  lemma {:induction false} LastCellAt(cells: seq<Cell>, k: nat, id: string)
    requires k < |cells| && IsLastRegistration(cells, k, id)
    ensures LastCell(cells, id) == cells[k]
  {
    var n := |cells| - 1;
    if k < n {
      assert IsLastRegistration(cells[..n], k, id);
      LastCellAt(cells[..n], k, id);
    }
  }

  /** An entry counts the cell's own RUNNING and CLAIMED LRPs and is missing exactly when the cell is not registered. */
  lemma CellCounts(infos: seq<CellInfo>, cells: seq<Cell>, lrps: seq<ActualLRP>, i: nat)
    requires IsCellList(infos, cells, lrps) && i < |infos|
    ensures var id := infos[i].cellId;
            && infos[i].running == |set k: nat | k < |lrps| && lrps[k].cellId == id && lrps[k].state == Running|
            && infos[i].claimed == |set k: nat | k < |lrps| && lrps[k].cellId == id && lrps[k].state == Claimed|
            && (infos[i].missing <==> forall cell :: cell in cells ==> cell.cellId != id)
  {
    var id := infos[i].cellId;
    CountAtIsSize(lrps, CellOf(), id, Running);
    CountAtIsSize(lrps, CellOf(), id, Claimed);
    assert (set k: nat | k < |lrps| && CellOf()(lrps[k]) == id && lrps[k].state == Running)
        == (set k: nat | k < |lrps| && lrps[k].cellId == id && lrps[k].state == Running);
    assert (set k: nat | k < |lrps| && CellOf()(lrps[k]) == id && lrps[k].state == Claimed)
        == (set k: nat | k < |lrps| && lrps[k].cellId == id && lrps[k].state == Claimed);
    assert CellIds(infos)[i] == id;
  }

  /** Zone and capacity are those of the cell's last registration, and zero for a missing cell. */
  lemma CellCapacity(infos: seq<CellInfo>, cells: seq<Cell>, lrps: seq<ActualLRP>, i: nat)
    requires IsCellList(infos, cells, lrps) && i < |infos|
    ensures var info := infos[i];
            && (forall k: nat :: k < |cells| && IsLastRegistration(cells, k, info.cellId) ==>
                  && info.zone == cells[k].zone && info.memoryMB == cells[k].memoryMB
                  && info.diskMB == cells[k].diskMB && info.containers == cells[k].containers)
            && (info.missing ==> info.zone == "" && info.memoryMB == 0 && info.diskMB == 0 && info.containers == 0)
  {
    var info := infos[i];
    assert CellIds(infos)[i] == info.cellId;
    forall k: nat | k < |cells| && IsLastRegistration(cells, k, info.cellId)
      ensures LastCell(cells, info.cellId) == cells[k]
    {
      LastCellAt(cells, k, info.cellId);
    }
    if info.missing {
      NotRegistered(cells, info.cellId);
    }
  }

  /** A cell is listed exactly when it is registered or holds an LRP that is not UNCLAIMED. */
  lemma CellsListed(infos: seq<CellInfo>, cells: seq<Cell>, lrps: seq<ActualLRP>, id: string)
    requires IsCellList(infos, cells, lrps)
    ensures (exists i :: 0 <= i < |infos| && infos[i].cellId == id)
            <==> (exists cell :: cell in cells && cell.cellId == id)
                 || exists lrp :: lrp in lrps && lrp.state != Unclaimed && lrp.cellId == id
    ensures forall i, j :: 0 <= i < j < |infos| ==> infos[i].cellId != infos[j].cellId
  {
    var ids := CellIds(infos);
    assert id in ids <==> id in Registered(cells) + Active(lrps);
    assert forall i :: 0 <= i < |infos| ==> ids[i] == infos[i].cellId;
    if exists i :: 0 <= i < |infos| && infos[i].cellId == id {
      var i :| 0 <= i < |infos| && infos[i].cellId == id;
      assert ids[i] in ids;
    }
  }

  // ---------- the order of the cells ----------

  lemma DashIsLast(p: string, t: string)
    requires '-' !in t
    ensures LastIndex(p + "-" + t, '-') == |p| && (p + "-" + t)[|p| + 1..] == t
  {
    var s := p + "-" + t;
    assert s[|p|] == '-';
    assert forall i :: |p| < i < |s| ==> s[i] == t[i - |p| - 1];
  }

  lemma NoDashInNumber(n: nat)
    ensures '-' !in Numbers.Print(n)
  {
    var digits := Numbers.Print(n);
    Numbers.PrintShape(n);
    forall i | 0 <= i < |digits| ensures digits[i] != '-' {
      assert Numbers.DigitValue(digits[i]) < 10;
    }
  }

  lemma NumberedIndex(p: string, n: nat)
    requires n <= Numbers.MAX_INT64
    ensures CellIndex(p + "-" + Numbers.Print(n)) == n
  {
    NoDashInNumber(n);
    DashIsLast(p, Numbers.Print(n));
    Numbers.AtoiPrinted(n);
  }

  lemma OrderedKeys(keys: seq<int>, i: nat, j: nat)
    requires i < |keys| && j < |keys| && keys[i] < keys[j]
    requires forall k, l :: 0 <= k < l < |keys| ==> keys[k] <= keys[l]
    ensures i < j
  {
  }

  /** A cell with a smaller key stands before one with a larger key. */
  lemma SmallerKeyFirst(infos: seq<CellInfo>, cells: seq<Cell>, lrps: seq<ActualLRP>, i: nat, j: nat)
    requires IsCellList(infos, cells, lrps) && i < |infos| && j < |infos|
    requires CellIndex(infos[i].cellId) < CellIndex(infos[j].cellId)
    ensures i < j
  {
    var ids := CellIds(infos);
    var keys := seq(|ids|, k requires 0 <= k < |ids| => CellIndex(ids[k]));
    OrderedKeys(keys, i, j);
  }

  /** Cells numbered behind their last dash are listed by number, whatever stands before it. */
  lemma NumberedInOrder(infos: seq<CellInfo>, cells: seq<Cell>, lrps: seq<ActualLRP>, i: nat, j: nat,
                        p: string, m: nat, q: string, n: nat)
    requires IsCellList(infos, cells, lrps) && i < |infos| && j < |infos|
    requires infos[i].cellId == p + "-" + Numbers.Print(m) && infos[j].cellId == q + "-" + Numbers.Print(n)
    requires m < n <= 9_223_372_036_854_775_807
    ensures i < j
  {
    NumberedIndex(p, m);
    NumberedIndex(q, n);
    SmallerKeyFirst(infos, cells, lrps, i, j);
  }

  /** No dash, or behind the last dash a text that is no number. */
  predicate Unnumbered(id: string) {
    '-' !in id
    || exists k :: 0 <= k < |id| && id[k] == '-' && IsNoNumber(id[k + 1..])
  }

  /** Empty, a bare plus, or with a character that is no digit, where a leading plus is allowed; and no dash. */
  predicate IsNoNumber(t: string) {
    && '-' !in t
    && (t == "" || t == "+"
        || (!Numbers.IsDecimal(t[0]) && t[0] != '+')
        || exists i :: 0 < i < |t| && !Numbers.IsDecimal(t[i]))
  }

  lemma UnnumberedIndex(id: string)
    requires Unnumbered(id)
    ensures CellIndex(id) == Numbers.MAX_INT64
  {
    if '-' in id {
      var k :| 0 <= k < |id| && id[k] == '-' && IsNoNumber(id[k + 1..]);
      assert id == id[..k] + "-" + id[k + 1..];
      DashIsLast(id[..k], id[k + 1..]);
      Numbers.AtoiRefuses(id[k + 1..]);
    } else {
      assert LastIndex(id, '-') == -1;
    }
  }

  /** Cells without a number are listed behind all numbered ones below the largest integer. */
  lemma UnnumberedLast(infos: seq<CellInfo>, cells: seq<Cell>, lrps: seq<ActualLRP>, i: nat, j: nat, p: string, n: nat)
    requires IsCellList(infos, cells, lrps) && i < |infos| && j < |infos|
    requires infos[i].cellId == p + "-" + Numbers.Print(n) && n < 9_223_372_036_854_775_807
    requires Unnumbered(infos[j].cellId)
    ensures i < j
  {
    NumberedIndex(p, n);
    UnnumberedIndex(infos[j].cellId);
    SmallerKeyFirst(infos, cells, lrps, i, j);
  }
}
