/**
 * The cell rule (`CellValidator`): cells with zero fog, path grids with
 * duplicate or unconnected nodes, references placed far out or outside their
 * exterior cell, references listed as broken, and black squares placed above
 * the water of an interior cell (reported once per cell and id).
 */
module Cells {
  import opened Wrappers
  import opened Text
  import opened Esp
  import opened Util
  import opened Validators

  const MAX_Z: real := 64000.0
  const MIN_Z: real := -32000.0
  const MAX_SAFE_INT: real := 9007199254740991.0
  const MIN_SAFE_INT: real := -9007199254740991.0
  const FLAG_CELL_WATER: bv32 := 2

  /** Base ids of the black-square markers, all lower-case. */
  const BLACK_SQUARES: seq<string> :=
    ["in_lava_blacksquare", "t_aid_blackcircle_01", "t_aid_blackcircle_02", "t_aid_blacktriangle_01"]

  /** The rule's state: the black-square keys already reported, and the
      table of broken base ids (lower-case id to replacement, possibly empty). */
  datatype CellValidator = CellValidator(seen: set<string>, broken: map<string, string>)

  /** A fresh rule over a broken-id table. */
  function New(broken: map<string, string>): CellValidator {
    CellValidator({}, broken)
  }

  /** A path-grid node's position: its local `x, y`, and its world position
      when the grid belongs to an exterior cell other than (0, 0). */
  datatype PointCoords = PointCoords(local: (int, int), world: Option<(int, int)>)

  /** What the rule reports. */
  datatype Finding =
    | ZeroFogDensity(cell: string)
    | DuplicateNode(pathgrid: string, index: nat, at: PointCoords)
    | UnconnectedNode(pathgrid: string, index: nat, at: PointCoords)
    | FarOutReference(cell: string, refId: string, position: Vec3)
    | OutOfBoundsReference(cell: string, refId: string, position: Vec3, shouldBe: (i32, i32))
    | BrokenReference(cell: string, refId: string)
    | BrokenReferenceShouldBe(cell: string, refId: string, replacement: string)
    | AboveWaterBlackSquare(cell: string, refId: string)

  /** Whether a path grid's data places it in an exterior cell other than (0, 0). */
  predicate OffOrigin(pathgrid: PathGrid) {
    pathgrid.data.Some? && pathgrid.data.value.grid != (0, 0)
  }

  /** The path grid's name: `cell x,y` (or `x,y` without a cell) off the
      origin, otherwise the cell's name, otherwise empty. */
  function PathGridName(pathgrid: PathGrid): (name: string)
    ensures OffOrigin(pathgrid) && pathgrid.cell.Some? ==>
      name == pathgrid.cell.value + " " + GridText(pathgrid.data.value.grid)
    ensures OffOrigin(pathgrid) && pathgrid.cell.None? ==> name == GridText(pathgrid.data.value.grid)
    ensures !OffOrigin(pathgrid) ==> name == pathgrid.cell.UnwrapOr([])
  {
    if OffOrigin(pathgrid) then
      var g := pathgrid.data.value.grid;
      if pathgrid.cell.Some? then pathgrid.cell.value + " " + GridText(g) else GridText(g)
    else pathgrid.cell.UnwrapOr([])
  }

  /** Where a node is: always its local coordinates, and the world ones,
      offset by whole cells, off the origin. */
  function GetPointCoords(point: PathGridPoint, pathgrid: PathGrid): (c: PointCoords)
    ensures c.local == (point.location.0, point.location.1)
    ensures c.world.Some? <==> OffOrigin(pathgrid)
    ensures c.world.Some? ==>
      c.world.value.0 - c.local.0 == CELL_SIZE * pathgrid.data.value.grid.0 &&
      c.world.value.1 - c.local.1 == CELL_SIZE * pathgrid.data.value.grid.1
  {
    var (x, y, _) := point.location;
    if OffOrigin(pathgrid) then
      var (gx, gy) := pathgrid.data.value.grid;
      PointCoords((x, y), Some((x + gx * CELL_SIZE, y + gy * CELL_SIZE)))
    else PointCoords((x, y), None)
  }

  // ---------------------------------------------------------------------
  // Path grids
  // ---------------------------------------------------------------------

  /** Node `i` shares its location with some later node. */
  predicate HasLaterTwin(points: seq<PathGridPoint>, i: int)
    requires 0 <= i < |points|
  {
    exists j :: i < j < |points| && points[j].location == points[i].location
  }

  /** The nodes below `n` whose own connection count is positive. */
  function CountedBelow(points: seq<PathGridPoint>, n: nat): (c: set<int>)
    requires n <= |points|
    ensures forall i :: i in c <==> 0 <= i < n && points[i].connectionCount > 0
  {
    if n == 0 then {}
    else CountedBelow(points, n - 1) + (if points[n - 1].connectionCount > 0 then {n - 1} else {})
  }

  /** The targets of the connection list, as node numbers. */
  function Targets(connections: Option<seq<u32>>): set<int> {
    var targets := connections.UnwrapOr([]);
    set k | 0 <= k < |targets| :: targets[k] as int
  }

  /** The nodes counted as connected: every connection target, and every
      node whose own connection count is positive. */
  function Connected(points: seq<PathGridPoint>, connections: Option<seq<u32>>): (c: set<int>)
    ensures forall i :: i in c <==>
      || (0 <= i < |points| && points[i].connectionCount > 0)
      || (connections.Some? && exists k :: 0 <= k < |connections.value| && connections.value[k] == i)
  {
    Targets(connections) + CountedBelow(points, |points|)
  }

  /** The nodes below `n` that have a later twin, in order. */
  function DuplicatesBelow(points: seq<PathGridPoint>, n: nat): (r: seq<nat>)
    requires n <= |points|
    ensures forall k :: 0 <= k < |r| ==> r[k] < n && HasLaterTwin(points, r[k])
    ensures forall i :: 0 <= i < n && HasLaterTwin(points, i) ==> i in r
    ensures forall a, b :: 0 <= a < b < |r| ==> r[a] < r[b]
  {
    if n == 0 then []
    else DuplicatesBelow(points, n - 1) + (if HasLaterTwin(points, n - 1) then [n - 1] else [])
  }

  /** The nodes below `n` outside `connected`, in order. */
  function UnconnectedBelow(points: seq<PathGridPoint>, connected: set<int>, n: nat): (r: seq<nat>)
    requires n <= |points|
    ensures forall k :: 0 <= k < |r| ==> r[k] < n && r[k] !in connected
    ensures forall i :: 0 <= i < n && i !in connected ==> i in r
    ensures forall a, b :: 0 <= a < b < |r| ==> r[a] < r[b]
  {
    if n == 0 then []
    else UnconnectedBelow(points, connected, n - 1) + (if n - 1 !in connected then [n - 1] else [])
  }

  /** The report for node `i` of the grid. */
  function NodeFinding(duplicate: bool, pathgrid: PathGrid, points: seq<PathGridPoint>, i: nat): Finding
    requires i < |points|
  {
    var at := GetPointCoords(points[i], pathgrid);
    if duplicate then DuplicateNode(PathGridName(pathgrid), i, at)
    else UnconnectedNode(PathGridName(pathgrid), i, at)
  }

  function NodeFindings(duplicate: bool, pathgrid: PathGrid, points: seq<PathGridPoint>, nodes: seq<nat>): seq<Finding>
    requires forall k :: 0 <= k < |nodes| ==> nodes[k] < |points|
  {
    seq(|nodes|, k requires 0 <= k < |nodes| => NodeFinding(duplicate, pathgrid, points, nodes[k]))
  }

  lemma NodeFindingsSnoc(duplicate: bool, pathgrid: PathGrid, points: seq<PathGridPoint>, nodes: seq<nat>, i: nat)
    requires forall k :: 0 <= k < |nodes| ==> nodes[k] < |points|
    requires i < |points|
    ensures NodeFindings(duplicate, pathgrid, points, nodes + [i])
         == NodeFindings(duplicate, pathgrid, points, nodes) + [NodeFinding(duplicate, pathgrid, points, i)]
  {
  }

  /** A path grid's findings: one duplicate report per node with a later
      twin, then, only when the number of connected nodes differs from the
      number of nodes, one unconnected report per node outside the connected set. */
  function PathGridFindings(pathgrid: PathGrid): seq<Finding> {
    if pathgrid.points.None? || |pathgrid.points.value| == 0 then []
    else
      var points := pathgrid.points.value;
      var connected := Connected(points, pathgrid.connections);
      NodeFindings(true, pathgrid, points, DuplicatesBelow(points, |points|))
      + if |points| != |connected|
        then NodeFindings(false, pathgrid, points, UnconnectedBelow(points, connected, |points|))
        else []
  }

  /** The scan as the rule performs it: one pass recording connected nodes
      and looking for each node's twin, then, when the counts differ, a pass
      over the unconnected nodes. */
  method ScanPathGrid(pathgrid: PathGrid) returns (findings: seq<Finding>)
    ensures findings == PathGridFindings(pathgrid)
  {
    if pathgrid.points.None? || |pathgrid.points.value| == 0 {
      return [];
    }
    var points := pathgrid.points.value;
    var connected;
    connected, findings := FirstPass(pathgrid, points);
    if |points| != |connected| {
      var unconnected := ReportUnconnected(pathgrid, points, connected);
      findings := findings + unconnected;
    }
  }

  /** The first pass: collect the connected nodes and report each node that
      has a later twin. */
  method FirstPass(pathgrid: PathGrid, points: seq<PathGridPoint>) returns (connected: set<int>, findings: seq<Finding>)
    ensures connected == Connected(points, pathgrid.connections)
    ensures findings == NodeFindings(true, pathgrid, points, DuplicatesBelow(points, |points|))
  {
    connected := Targets(pathgrid.connections);
    findings := [];
    var i := 0;
    while i < |points|
      invariant 0 <= i <= |points|
      invariant connected == Targets(pathgrid.connections) + CountedBelow(points, i)
      invariant findings == NodeFindings(true, pathgrid, points, DuplicatesBelow(points, i))
    {
      if points[i].connectionCount > 0 {
        connected := connected + {i};
      }
      var twin := FindLaterTwin(points, i);
      if twin {
        NodeFindingsSnoc(true, pathgrid, points, DuplicatesBelow(points, i), i);
        findings := findings + [NodeFinding(true, pathgrid, points, i)];
      }
      i := i + 1;
    }
  }

  /** The inner search: compare node `i` with each later node, stopping at
      the first with the same location. */
  method FindLaterTwin(points: seq<PathGridPoint>, i: nat) returns (found: bool)
    requires i < |points|
    ensures found <==> HasLaterTwin(points, i)
  {
    var j := i + 1;
    while j < |points|
      invariant i + 1 <= j <= |points|
      invariant forall k :: i < k < j ==> points[k].location != points[i].location
    {
      if points[j].location == points[i].location {
        return true;
      }
      j := j + 1;
    }
    return false;
  }

  /** The second pass: an unconnected report for each node outside `connected`, in order. */
  method ReportUnconnected(pathgrid: PathGrid, points: seq<PathGridPoint>, connected: set<int>) returns (findings: seq<Finding>)
    ensures findings == NodeFindings(false, pathgrid, points, UnconnectedBelow(points, connected, |points|))
  {
    findings := [];
    var k := 0;
    while k < |points|
      invariant 0 <= k <= |points|
      invariant findings == NodeFindings(false, pathgrid, points, UnconnectedBelow(points, connected, k))
    {
      UnconnectedStep(pathgrid, points, connected, k);
      findings := findings + (if k !in connected then [NodeFinding(false, pathgrid, points, k)] else []);
      k := k + 1;
    }
  }

  /** One more node adds its unconnected report, if it has one, at the end. */
  lemma UnconnectedStep(pathgrid: PathGrid, points: seq<PathGridPoint>, connected: set<int>, k: nat)
    requires k < |points|
    ensures NodeFindings(false, pathgrid, points, UnconnectedBelow(points, connected, k + 1))
         == NodeFindings(false, pathgrid, points, UnconnectedBelow(points, connected, k))
            + (if k !in connected then [NodeFinding(false, pathgrid, points, k)] else [])
  {
    var below := UnconnectedBelow(points, connected, k);
    if k !in connected {
      NodeFindingsSnoc(false, pathgrid, points, below, k);
    } else {
      assert UnconnectedBelow(points, connected, k + 1) == below;
    }
  }

  /** A node is reported in a list of node reports exactly when it is listed. */
  lemma NodeFindingsMembership(duplicate: bool, pathgrid: PathGrid, points: seq<PathGridPoint>, nodes: seq<nat>, i: nat)
    requires forall k :: 0 <= k < |nodes| ==> nodes[k] < |points|
    requires i < |points|
    ensures NodeFinding(duplicate, pathgrid, points, i) in NodeFindings(duplicate, pathgrid, points, nodes) <==> i in nodes
  {
    var fs := NodeFindings(duplicate, pathgrid, points, nodes);
    var f := NodeFinding(duplicate, pathgrid, points, i);
    if i in nodes {
      var k :| 0 <= k < |nodes| && nodes[k] == i;
      assert fs[k] == f;
    }
    if f in fs {
      var k :| 0 <= k < |fs| && fs[k] == f;
      assert fs[k].index == nodes[k];
    }
  }

  /** The two parts of a grid's findings, each of one kind of report. */
  lemma PathGridParts(pathgrid: PathGrid)
    requires pathgrid.points.Some? && pathgrid.points.value != []
    ensures var points := pathgrid.points.value;
      var connected := Connected(points, pathgrid.connections);
      var fd := NodeFindings(true, pathgrid, points, DuplicatesBelow(points, |points|));
      var fu := if |points| != |connected|
        then NodeFindings(false, pathgrid, points, UnconnectedBelow(points, connected, |points|)) else [];
      && PathGridFindings(pathgrid) == fd + fu
      && (forall k :: 0 <= k < |fd| ==> fd[k].DuplicateNode? && fd[k].index == DuplicatesBelow(points, |points|)[k])
      && (forall k :: 0 <= k < |fu| ==> fu[k].UnconnectedNode? && fu[k].index == UnconnectedBelow(points, connected, |points|)[k])
  {
  }

  /** A node gets a duplicate report exactly when a later node shares its location. */
  lemma PathGridDuplicates(pathgrid: PathGrid, i: nat)
    requires pathgrid.points.Some? && i < |pathgrid.points.value|
    ensures var points := pathgrid.points.value;
      DuplicateNode(PathGridName(pathgrid), i, GetPointCoords(points[i], pathgrid)) in PathGridFindings(pathgrid)
      <==> HasLaterTwin(points, i)
  {
    var points := pathgrid.points.value;
    var dups := DuplicatesBelow(points, |points|);
    PathGridParts(pathgrid);
    NodeFindingsMembership(true, pathgrid, points, dups, i);
  }

  /** A node gets an unconnected report exactly when it is outside the
      connected set and the connected set's size differs from the node count. */
  lemma PathGridUnconnected(pathgrid: PathGrid, i: nat)
    requires pathgrid.points.Some? && i < |pathgrid.points.value|
    ensures var points := pathgrid.points.value;
      var connected := Connected(points, pathgrid.connections);
      UnconnectedNode(PathGridName(pathgrid), i, GetPointCoords(points[i], pathgrid)) in PathGridFindings(pathgrid)
      <==> i !in connected && |points| != |connected|
  {
    var points := pathgrid.points.value;
    var connected := Connected(points, pathgrid.connections);
    PathGridParts(pathgrid);
    if |points| != |connected| {
      NodeFindingsMembership(false, pathgrid, points, UnconnectedBelow(points, connected, |points|), i);
    }
  }

  /** Nothing is reported for a missing or empty node list; duplicate
      reports come first, and each kind is in increasing node order, so no
      node is reported twice for the same reason. */
  lemma PathGridOrder(pathgrid: PathGrid)
    ensures pathgrid.points.None? || pathgrid.points.value == [] ==> PathGridFindings(pathgrid) == []
    ensures var fs := PathGridFindings(pathgrid);
      && (forall a, b :: 0 <= a < b < |fs| && fs[b].DuplicateNode? ==> fs[a].DuplicateNode? && fs[a].index < fs[b].index)
      && (forall a, b :: 0 <= a < b < |fs| && fs[a].UnconnectedNode? ==> fs[b].UnconnectedNode? && fs[a].index < fs[b].index)
      && (forall a :: 0 <= a < |fs| ==> fs[a].DuplicateNode? || fs[a].UnconnectedNode?)
  {
    if pathgrid.points.Some? && pathgrid.points.value != [] {
      var points := pathgrid.points.value;
      var connected := Connected(points, pathgrid.connections);
      var fd := NodeFindings(true, pathgrid, points, DuplicatesBelow(points, |points|));
      var fu := if |points| != |connected|
        then NodeFindings(false, pathgrid, points, UnconnectedBelow(points, connected, |points|)) else [];
      PathGridParts(pathgrid);
      OrderedParts(fd, fu);
    }
  }

  /** Increasing duplicate reports followed by increasing unconnected reports. */
  lemma OrderedParts(fd: seq<Finding>, fu: seq<Finding>)
    requires forall k :: 0 <= k < |fd| ==> fd[k].DuplicateNode?
    requires forall a, b :: 0 <= a < b < |fd| ==> fd[a].index < fd[b].index
    requires forall k :: 0 <= k < |fu| ==> fu[k].UnconnectedNode?
    requires forall a, b :: 0 <= a < b < |fu| ==> fu[a].index < fu[b].index
    ensures var fs := fd + fu;
      && (forall a, b :: 0 <= a < b < |fs| && fs[b].DuplicateNode? ==> fs[a].DuplicateNode? && fs[a].index < fs[b].index)
      && (forall a, b :: 0 <= a < b < |fs| && fs[a].UnconnectedNode? ==> fs[b].UnconnectedNode? && fs[a].index < fs[b].index)
      && (forall a :: 0 <= a < |fs| ==> fs[a].DuplicateNode? || fs[a].UnconnectedNode?)
  {
  }

  /** The nodes `0 .. n-1`. */
  function Nodes(n: nat): (r: set<int>)
    ensures |r| == n
    ensures forall i :: i in r <==> 0 <= i < n
  {
    if n == 0 then {} else
      var r := Nodes(n - 1) + {n - 1};
      assert n - 1 !in Nodes(n - 1);
      r
  }

  /** When every connection names an existing node, the count comparison is
      exact: it differs precisely when some node is unconnected. */
  lemma {:induction false} CountGuardExact(points: seq<PathGridPoint>, connections: Option<seq<u32>>)
    requires connections.Some? ==> forall k :: 0 <= k < |connections.value| ==> connections.value[k] < |points|
    ensures var connected := Connected(points, connections);
      |points| != |connected| <==> exists i :: 0 <= i < |points| && i !in connected
  {
    var connected := Connected(points, connections);
    var all := Nodes(|points|);
    ConnectedWithinNodes(points, connections);
    if i :| 0 <= i < |points| && i !in connected {
      SubsetCardinality(connected, all - {i});
    } else {
      assert connected == all;
    }
  }

  /** With every connection in range, only existing nodes are connected. */
  lemma ConnectedWithinNodes(points: seq<PathGridPoint>, connections: Option<seq<u32>>)
    requires connections.Some? ==> forall k :: 0 <= k < |connections.value| ==> connections.value[k] < |points|
    ensures Connected(points, connections) <= Nodes(|points|)
  {
    forall i | i in Connected(points, connections) ensures i in Nodes(|points|) {
      if !(0 <= i < |points| && points[i].connectionCount > 0) {
        var k :| 0 <= k < |connections.value| && connections.value[k] == i;
      }
    }
  }

  lemma SubsetCardinality(a: set<int>, b: set<int>)
    requires a <= b
    ensures |a| <= |b|
  {
    assert b == a + (b - a);
    assert a * (b - a) == {};
  }

  /** A connection to a node that does not exist counts towards the connected
      set, so it can hide a node nothing connects to: here node 1 of two is
      unconnected, yet nothing is reported. */
  lemma OutOfRangeConnectionHidesNode()
    ensures var points := [PathGridPoint((0, 0, 0), 0), PathGridPoint((1, 0, 0), 0)];
      var pathgrid := PathGrid.PathGrid(Some("Vivec"), None, Some(points), Some([0, 5]));
      && 1 !in Connected(points, pathgrid.connections)
      && PathGridFindings(pathgrid) == []
  {
    var points := [PathGridPoint((0, 0, 0), 0), PathGridPoint((1, 0, 0), 0)];
    var pathgrid := PathGrid.PathGrid(Some("Vivec"), None, Some(points), Some([0, 5]));
    var connected := Connected(points, pathgrid.connections);
    assert CountedBelow(points, 2) == {};
    assert Targets(pathgrid.connections) == {0, 5} by {
      var targets := pathgrid.connections.value;
      assert targets[0] == 0 && targets[1] == 5;
    }
    assert |connected| == 2 by { assert connected == {0, 5}; }
    assert !HasLaterTwin(points, 0);
    assert DuplicatesBelow(points, 2) == [];
  }

  // ---------------------------------------------------------------------
  // Cells
  // ---------------------------------------------------------------------

  predicate ZeroFog(cell: Cell) {
    cell.atmosphereData.Some? && cell.atmosphereData.value.fogDensity.IsZero()
  }

  /** The rule's record hook: an interior cell outside every configured
      project whose fog density is zero, and the path-grid findings. */
  function OnRecord(context: Context, record: Record): (fs: seq<Finding>)
    ensures !record.Cell? && !record.PathGrid? ==> fs == []
    ensures record.PathGrid? ==> fs == PathGridFindings(record.pathgrid)
    ensures record.Cell? ==>
      (fs != [] <==> record.cell.interior && ZeroFog(record.cell) && !context.projectMatches(record.cell.id))
    ensures record.Cell? && fs != [] ==> fs == [ZeroFogDensity(GetCellName(record.cell))]
  {
    if record.Cell? then
      var cell := record.cell;
      if cell.interior && ZeroFog(cell) && !context.projectMatches(cell.id)
      then [ZeroFogDensity(GetCellName(cell))] else []
    else if record.PathGrid? then PathGridFindings(record.pathgrid)
    else []
  }

  /** A coordinate that is not finite or lies outside the range of integers
      a double holds exactly. */
  predicate OutsideSafeRange(c: Float) {
    !c.IsFinite() || Finite(MAX_SAFE_INT).Less(c) || c.Less(Finite(MIN_SAFE_INT))
  }

  /** A position no cell can hold: a coordinate outside the safe range, or a
      height outside `MIN_Z ..= MAX_Z`. */
  predicate IsFarOut(t: Vec3) {
    || OutsideSafeRange(t.x) || OutsideSafeRange(t.y) || OutsideSafeRange(t.z)
    || t.z.Less(Finite(MIN_Z)) || Finite(MAX_Z).Less(t.z)
  }

  /** Whether `(x, y)` lies in the half-open square of the cell at `grid`. */
  predicate InCell(grid: (i32, i32), x: real, y: real) {
    var xb := (CELL_SIZE * grid.0) as real;
    var yb := (CELL_SIZE * grid.1) as real;
    !(x < xb || y < yb || x >= xb + CELL_SIZE as real || y >= yb + CELL_SIZE as real)
  }

  /** A live reference in an exterior cell, the only kind whose position is checked. */
  predicate PositionChecked(cell: Cell, reference: Reference) {
    !reference.deleted.UnwrapOr(false) && !cell.interior
  }

  /** The position check of one reference. */
  function BoundsFinding(cell: Cell, reference: Reference): (f: Option<Finding>)
    ensures f.Some? ==> PositionChecked(cell, reference)
    ensures PositionChecked(cell, reference) && IsFarOut(reference.translation) ==>
      f == Some(FarOutReference(GetCellName(cell), reference.id, reference.translation))
    ensures PositionChecked(cell, reference) && !IsFarOut(reference.translation) ==>
      (f.Some? <==> !InCell(cell.grid, reference.translation.x.value, reference.translation.y.value))
    ensures f.Some? && f.value.OutOfBoundsReference? ==>
      && !IsFarOut(reference.translation)
      && f.value.shouldBe == GetCellGrid(reference.translation.x, reference.translation.y)
      && f.value.cell == GetCellName(cell) && f.value.refId == reference.id
  {
    var t := reference.translation;
    if !PositionChecked(cell, reference) then None
    else if IsFarOut(t) then Some(FarOutReference(GetCellName(cell), reference.id, t))
    else if !InCell(cell.grid, t.x.value, t.y.value) then
      Some(OutOfBoundsReference(GetCellName(cell), reference.id, t, GetCellGrid(t.x, t.y)))
    else None
  }

  /** Out of bounds exactly when the grid cell of the position is not the
      reference's own cell: for a checked, not far-out reference whose cell
      index fits an `i32`, and then the cell it is said to belong in holds it. */
  lemma {:induction false} OutOfBoundsIffOtherCell(cell: Cell, reference: Reference)
    requires PositionChecked(cell, reference) && !IsFarOut(reference.translation)
    requires IndexFits(reference.translation.x.value) && IndexFits(reference.translation.y.value)
    ensures var t := reference.translation;
      var f := BoundsFinding(cell, reference);
      && (f.Some? <==> GetCellGrid(t.x, t.y) != cell.grid)
      && (f.Some? ==> f.value.OutOfBoundsReference? && InCell(f.value.shouldBe, t.x.value, t.y.value))
  {
    var t := reference.translation;
    var g := GetCellGrid(t.x, t.y);
    assert InCell(g, t.x.value, t.y.value);
    if InCell(cell.grid, t.x.value, t.y.value) {
      CellIndexOfBox(t.x.value, cell.grid.0);
      CellIndexOfBox(t.y.value, cell.grid.1);
    }
  }

  /** Past the cells an `i32` index can name, a position is always out of
      bounds, and the cell it is said to belong in is clamped to the edge of
      the grid. */
  lemma {:induction false} OutOfBoundsSaturated(cell: Cell, reference: Reference)
    requires PositionChecked(cell, reference) && !IsFarOut(reference.translation)
    requires !IndexFits(reference.translation.x.value) || !IndexFits(reference.translation.y.value)
    ensures var t := reference.translation;
      var f := BoundsFinding(cell, reference);
      && f.Some? && f.value.OutOfBoundsReference?
      && ((t.x.value / CELL_SIZE as real).Floor > I32_MAX ==> f.value.shouldBe.0 == I32_MAX)
      && ((t.x.value / CELL_SIZE as real).Floor < I32_MIN ==> f.value.shouldBe.0 == I32_MIN)
      && ((t.y.value / CELL_SIZE as real).Floor > I32_MAX ==> f.value.shouldBe.1 == I32_MAX)
      && ((t.y.value / CELL_SIZE as real).Floor < I32_MIN ==> f.value.shouldBe.1 == I32_MIN)
  {
    var t := reference.translation;
    if !IndexFits(t.x.value) {
      OutsideGrid(t.x.value, cell.grid.0);
    } else {
      OutsideGrid(t.y.value, cell.grid.1);
    }
  }

  /** A coordinate whose cell index does not fit an `i32` lies outside the
      box of every `i32` index. */
  lemma OutsideGrid(r: real, g: i32)
    requires !IndexFits(r)
    ensures r < (CELL_SIZE * g) as real || r >= (CELL_SIZE * (g + 1)) as real
  {
    var q := r / CELL_SIZE as real;
    assert q.Floor as real <= q < q.Floor as real + 1.0;
    assert r == q * 8192.0;
  }

  /** The clamp can name the reference's own cell: in exterior cell
      (2147483647, 0), a reference at x = 2^50 is reported out of bounds and
      said to belong in (2147483647, 0), the cell it is in. */
  lemma OutOfBoundsOwnCellExample()
    ensures var cell := Cell.Cell("", false, 0, (I32_MAX, 0), None, None, None, []);
      var position := Vec3(Finite(1125899906842624.0), Finite(100.0), Finite(0.0));
      var reference := Reference("misc_com_bottle_01", position, Vec3(Finite(0.0), Finite(0.0), Finite(0.0)), None, None, None);
      BoundsFinding(cell, reference) == Some(OutOfBoundsReference(GetCellName(cell), "misc_com_bottle_01", position, cell.grid))
  {
    var cell := Cell.Cell("", false, 0, (I32_MAX, 0), None, None, None, []);
    var position := Vec3(Finite(1125899906842624.0), Finite(100.0), Finite(0.0));
    CellIndexOfBox(100.0, 0);
    assert (1125899906842624.0 / CELL_SIZE as real).Floor == 137438953472;
    assert GetCellGrid(position.x, position.y) == (I32_MAX, 0);
    assert !IsFarOut(position);
    OutsideGrid(1125899906842624.0, I32_MAX);
  }

  /** A worked example: in exterior cell (0, 0), a reference at
      (8192.5, 100, 0) belongs in cell (1, 0). */
  lemma OutOfBoundsExample()
    ensures var cell := Cell.Cell("", false, 0, (0, 0), None, None, None, []);
      var position := Vec3(Finite(8192.5), Finite(100.0), Finite(0.0));
      var reference := Reference("misc_com_bottle_01", position, Vec3(Finite(0.0), Finite(0.0), Finite(0.0)), None, None, None);
      BoundsFinding(cell, reference) == Some(OutOfBoundsReference("0,0", "misc_com_bottle_01", position, (1, 0)))
  {
    var cell := Cell.Cell("", false, 0, (0, 0), None, None, None, []);
    var position := Vec3(Finite(8192.5), Finite(100.0), Finite(0.0));
    CellIndexOfBox(8192.5, 1);
    CellIndexOfBox(100.0, 0);
    assert GetCellGrid(position.x, position.y) == (1, 0);
    assert !IsFarOut(position);
    assert !InCell(cell.grid, 8192.5, 100.0);
    assert GetCellName(cell) == "0,0" by {
      assert IntToString(0) == "0";
    }
  }

  /** The report, if any, of the broken-id table's replacement text. */
  function Replacement(f: Finding): string {
    if f.BrokenReferenceShouldBe? then f.replacement else []
  }

  /** The broken-reference check: looked up by the lower-case base id,
      regardless of whether the reference is deleted or indoors. */
  function BrokenFinding(broken: map<string, string>, cell: Cell, reference: Reference, id: string): (f: Option<Finding>)
    ensures f.Some? <==> id in broken
    ensures f.Some? ==> (f.value.BrokenReference? <==> broken[id] == [])
    ensures f.Some? ==> (f.value.BrokenReferenceShouldBe? <==> broken[id] != [])
    ensures f.Some? ==> f.value.cell == GetCellName(cell) && f.value.refId == reference.id
    ensures f.Some? ==> Replacement(f.value) == broken[id]
  {
    if id in broken then
      if broken[id] == [] then Some(BrokenReference(GetCellName(cell), reference.id))
      else Some(BrokenReferenceShouldBe(GetCellName(cell), reference.id, broken[id]))
    else None
  }

  /** The height of a cell's water: -1 outdoors, the recorded height in an
      interior flagged as having water, none otherwise. */
  function GetWaterHeight(cell: Cell): (h: Option<Float>)
    ensures !cell.interior ==> h == Some(Finite(-1.0))
    ensures cell.interior && cell.flags & FLAG_CELL_WATER != 0 ==> h == cell.waterHeight
    ensures cell.interior && cell.flags & FLAG_CELL_WATER == 0 ==> h.None?
  {
    if !cell.interior then Some(Finite(-1.0))
    else if cell.flags & FLAG_CELL_WATER != 0 then cell.waterHeight
    else None
  }

  /** One of the black-square ids, in any ASCII case. */
  predicate IsBlackSquareId(refId: string) {
    exists k :: 0 <= k < |BLACK_SQUARES| && EqIgnoreAsciiCase(BLACK_SQUARES[k], refId)
  }

  /** A level black square at or above the water of a cell. */
  predicate IsAboveWaterBlackSquare(cell: Cell, reference: Reference) {
    var h := GetWaterHeight(cell);
    && h.Some?
    && cell.interior
    && reference.translation.z.AtLeast(h.value)
    && reference.rotation.x.IsZero()
    && reference.rotation.y.IsZero()
    && IsBlackSquareId(reference.id)
  }

  /** Only interiors with water can hold one: the -1 height of exteriors is never used. */
  lemma AboveWaterOnlyInWateredInteriors(cell: Cell, reference: Reference)
    ensures IsAboveWaterBlackSquare(cell, reference) ==>
      cell.interior && cell.flags & FLAG_CELL_WATER != 0 && cell.waterHeight.Some?
    ensures IsAboveWaterBlackSquare(cell, reference) ==> Lower(reference.id) in BLACK_SQUARES
  {
    if IsAboveWaterBlackSquare(cell, reference) {
      var k :| 0 <= k < |BLACK_SQUARES| && EqIgnoreAsciiCase(BLACK_SQUARES[k], reference.id);
      BlackSquaresLowerCase(k);
    }
  }

  lemma BlackSquaresLowerCase(k: int)
    requires 0 <= k < |BLACK_SQUARES|
    ensures Lower(BLACK_SQUARES[k]) == BLACK_SQUARES[k]
  {
    var s := BLACK_SQUARES[k];
    assert forall i :: 0 <= i < |s| ==> !IsAsciiUpper(s[i]);
  }

  /** The key a black square is remembered under: cell name, '_', lower-case id. */
  function SeenKey(name: string, id: string): string {
    name + "_" + id
  }

  /** Distinct (cell name, black-square id) pairs never share a key, so no
      report is suppressed by another cell's or another id's. */
  lemma {:induction false} SeenKeyInjective(n1: string, i1: string, n2: string, i2: string)
    requires i1 in BLACK_SQUARES && i2 in BLACK_SQUARES
    requires SeenKey(n1, i1) == SeenKey(n2, i2)
    ensures n1 == n2 && i1 == i2
  {
    if |i1| <= |i2| {
      KeySuffix(n1, i1, n2, i2);
    } else {
      KeySuffix(n2, i2, n1, i1);
    }
  }

  lemma KeySuffix(n1: string, i1: string, n2: string, i2: string)
    requires i1 in BLACK_SQUARES && i2 in BLACK_SQUARES
    requires SeenKey(n1, i1) == SeenKey(n2, i2) && |i1| <= |i2|
    ensures n1 == n2 && i1 == i2
  {
    var t1 := "_" + i1;
    var t2 := "_" + i2;
    SeenKeyTail(n1, i1);
    SeenKeyTail(n2, i2);
    CommonEnd(n1, t1, n2, t2);
    BlackSquareSuffixes(i1, i2);
  }

  lemma SeenKeyTail(name: string, id: string)
    ensures SeenKey(name, id) == name + ("_" + id)
  {
  }

  /** Two ways of writing one string as a head and a tail: the shorter
      tail ends the longer, and equal tails mean equal heads. */
  lemma CommonEnd(n1: string, t1: string, n2: string, t2: string)
    requires n1 + t1 == n2 + t2 && |t1| <= |t2|
    ensures t2[|t2| - |t1|..] == t1
    ensures t1 == t2 ==> n1 == n2
  {
    var key := n1 + t1;
    assert key[|key| - |t1|..] == t1;
    assert key[|key| - |t2|..] == t2;
    assert key[..|key| - |t1|] == n1;
    assert key[..|key| - |t2|] == n2;
  }

  lemma BlackSquareSuffixes(a: string, b: string)
    requires a in BLACK_SQUARES && b in BLACK_SQUARES && |a| <= |b|
    requires ("_" + b)[|b| - |a|..] == "_" + a
    ensures a == b
  {
    if a != b {
      BlackSquareSuffixesDiffer(a, b);
    }
  }

  /** No black-square id, preceded by '_', ends another. */
  lemma BlackSquareSuffixesDiffer(a: string, b: string)
    requires a in BLACK_SQUARES && b in BLACK_SQUARES && a != b && |a| <= |b|
    ensures ("_" + b)[|b| - |a|..] != "_" + a
  {
    var t := ("_" + b)[|b| - |a|..];
    if a == BLACK_SQUARES[0] {
      assert t[|a|] == b[|b| - 1];
    } else if b == BLACK_SQUARES[3] {
      assert t[|a| - 5] == b[|b| - 6];
    } else {
      assert t[|a|] == b[|b| - 1];
    }
  }

  /** The black-square check: report an above-water black square unless its
      key was seen before, and remember the key either way. */
  function BlackSquareStep(seen: set<string>, cell: Cell, reference: Reference, id: string): (r: (set<string>, Option<Finding>))
    ensures var key := SeenKey(GetCellName(cell), id);
      && (r.1.Some? <==> IsAboveWaterBlackSquare(cell, reference) && key !in seen)
      && (r.1.Some? ==> r.1.value == AboveWaterBlackSquare(GetCellName(cell), reference.id))
      && r.0 == (if IsAboveWaterBlackSquare(cell, reference) then seen + {key} else seen)
  {
    if IsAboveWaterBlackSquare(cell, reference) then
      var name := GetCellName(cell);
      var key := SeenKey(name, id);
      if key !in seen then (seen + {key}, Some(AboveWaterBlackSquare(name, reference.id)))
      else (seen, None)
    else (seen, None)
  }

  function OptionToSeq<T>(o: Option<T>): (s: seq<T>)
    ensures o.None? ==> s == []
    ensures o.Some? ==> s == [o.value]
  {
    if o.Some? then [o.value] else []
  }

  /** The rule's reference hook: the position check, the broken check and the
      black-square check, reported in that order. */
  function OnCellRef(v: CellValidator, cell: Cell, reference: Reference, id: string): (r: (CellValidator, seq<Finding>))
    ensures r.0.broken == v.broken && v.seen <= r.0.seen
    ensures r.1 == OptionToSeq(BoundsFinding(cell, reference))
                 + OptionToSeq(BrokenFinding(v.broken, cell, reference, id))
                 + OptionToSeq(BlackSquareStep(v.seen, cell, reference, id).1)
  {
    var (seen, black) := BlackSquareStep(v.seen, cell, reference, id);
    (v.(seen := seen),
     OptionToSeq(BoundsFinding(cell, reference))
     + OptionToSeq(BrokenFinding(v.broken, cell, reference, id))
     + OptionToSeq(black))
  }

  /** A reference as the rule receives it: its cell and its lower-case base id. */
  datatype Placement = Placement(cell: Cell, reference: Reference, id: string)

  /** The reference hook folded over a run of placements. */
  function OnCellRefs(v: CellValidator, ps: seq<Placement>): (r: (CellValidator, seq<Finding>))
    decreases |ps|
  {
    if ps == [] then (v, [])
    else
      var (v1, f1) := OnCellRef(v, ps[0].cell, ps[0].reference, ps[0].id);
      var (v2, f2) := OnCellRefs(v1, ps[1..]);
      (v2, f1 + f2)
  }

  function CountBlackSquares(fs: seq<Finding>): nat {
    if fs == [] then 0
    else (if fs[0].AboveWaterBlackSquare? then 1 else 0) + CountBlackSquares(fs[1..])
  }

  lemma {:induction false} CountBlackSquaresAppend(a: seq<Finding>, b: seq<Finding>)
    ensures CountBlackSquares(a + b) == CountBlackSquares(a) + CountBlackSquares(b)
    decreases |a|
  {
    if a == [] {
      assert a + b == b;
    } else {
      assert (a + b)[0] == a[0];
      assert (a + b)[1..] == a[1..] + b;
      CountBlackSquaresAppend(a[1..], b);
    }
  }

  lemma OnCellRefBlackCount(v: CellValidator, p: Placement)
    ensures var r := OnCellRef(v, p.cell, p.reference, p.id);
      && v.seen <= r.0.seen
      && |r.0.seen - v.seen| == CountBlackSquares(r.1)
  {
    var r := OnCellRef(v, p.cell, p.reference, p.id);
    var b := BoundsFinding(p.cell, p.reference);
    var k := BrokenFinding(v.broken, p.cell, p.reference, p.id);
    var (seen, black) := BlackSquareStep(v.seen, p.cell, p.reference, p.id);
    assert b.Some? ==> !b.value.AboveWaterBlackSquare?;
    assert CountBlackSquares(OptionToSeq(b)) == 0;
    assert CountBlackSquares(OptionToSeq(k)) == 0;
    CountBlackSquaresAppend(OptionToSeq(b), OptionToSeq(k));
    CountBlackSquaresAppend(OptionToSeq(b) + OptionToSeq(k), OptionToSeq(black));
    if black.Some? {
      assert seen - v.seen == {SeenKey(GetCellName(p.cell), p.id)};
    } else {
      assert seen - v.seen == {};
    }
  }

  lemma CardinalityOfDifferences(a: set<string>, b: set<string>, c: set<string>)
    requires a <= b <= c
    ensures |c - a| == |c - b| + |b - a|
  {
    assert c - a == (c - b) + (b - a);
    assert (c - b) * (b - a) == {};
  }

  /** Over any run of placements, black squares are reported exactly once per
      key: the number of reports equals the number of keys newly remembered,
      and every above-water black square's key ends up remembered. */
  lemma {:induction false} BlackSquaresReportedOncePerKey(v: CellValidator, ps: seq<Placement>)
    ensures var r := OnCellRefs(v, ps);
      && v.seen <= r.0.seen
      && r.0.broken == v.broken
      && CountBlackSquares(r.1) == |r.0.seen - v.seen|
      && (forall k :: 0 <= k < |ps| && IsAboveWaterBlackSquare(ps[k].cell, ps[k].reference) ==>
            SeenKey(GetCellName(ps[k].cell), ps[k].id) in r.0.seen)
    decreases |ps|
  {
    if ps != [] {
      var (v1, f1) := OnCellRef(v, ps[0].cell, ps[0].reference, ps[0].id);
      OnCellRefBlackCount(v, ps[0]);
      BlackSquaresReportedOncePerKey(v1, ps[1..]);
      var (v2, f2) := OnCellRefs(v1, ps[1..]);
      CountBlackSquaresAppend(f1, f2);
      CardinalityOfDifferences(v.seen, v1.seen, v2.seen);
      forall k | 0 <= k < |ps| && IsAboveWaterBlackSquare(ps[k].cell, ps[k].reference)
        ensures SeenKey(GetCellName(ps[k].cell), ps[k].id) in v2.seen
      {
        if k > 0 {
          assert ps[1..][k - 1] == ps[k];
        }
      }
    }
  }
}
