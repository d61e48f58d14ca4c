/// The tree planners of tree.rs: RRT (`rrt_v1`) and RRT* (`rrt_v2`). Both
/// grow an arena of nodes, each holding its position, the index of its
/// parent in the arena and (for RRT*) its path length from the root. Each
/// round draws a sample cell, lets every node propose a step toward it, and
/// adds the proposal closest to the sample whose straight line is free of
/// obstacles; a proposal inside the box of radius 5 around `end` is snapped
/// onto `end` itself. RRT* then re-chooses the new node's parent and
/// re-parents the nodes around it. The path is read back by following
/// parent indices from the first node at `end`.
///
/// The `f32` square root and trigonometry are abstract: `Euclid` is the
/// straight-line distance between two cells and `Steer` the truncated point
/// a given length from a cell toward another; both come with the contracts
/// below. The random samples are an input sequence.
module Tree {
  import opened Grid
  import opened LineOfSight

  const MaxNodes: nat := 16383
  const StepDistance: real := 10.0
  /// Radius of the box around `end` inside which a proposal snaps to `end`.
  const EndPosition: nat := 5
  /// RRT* rewires the nodes within this many step lengths of a new node.
  const RewireDistanceFactor: nat := 2

  /// sqrt(dx * dx + dy * dy) between two cells.
  type Euclid = (Cell, Cell) -> real

  /// The cell reached by going a given length from the first cell toward the
  /// second along the angle atan2(dy, dx), each coordinate truncated.
  type Steer = (Cell, Cell, real) -> Cell

  /// The straight-line distance is symmetric, never negative, and zero
  /// exactly between a cell and itself.
  ghost predicate EuclidOk(euclid: Euclid)
  {
    forall p: Cell, q: Cell ::
      euclid(p, q) >= 0.0 && (euclid(p, q) == 0.0 <==> p == q) && euclid(p, q) == euclid(q, p)
  }

  /// A step from `a` toward `b` stays inside the box spanned by the two.
  ghost predicate SteerOk(steer: Steer)
  {
    forall a: Cell, b: Cell, step: real ::
      Between(steer(a, b, step).0, a.0, b.0) && Between(steer(a, b, step).1, a.1, b.1)
  }

  /// A node of the tree: its cell, the index of its parent and the length
  /// of its path from the root (RRT keeps it at 0).
  datatype Node = Node(pos: Cell, parent: nat, distance: real)

  /// An inclusive box: rows x0 ..= x1, columns y0 ..= y1.
  datatype Range = Range(x0: nat, x1: nat, y0: nat, y1: nat)

  /// The path from the end back to the start, and one edge per node.
  datatype TreeResult = TreeResult(path: seq<Cell>, tree: seq<(Cell, Cell)>)

  function Min(a: nat, b: nat): nat
  {
    if a < b then a else b
  }

  /// The node budget: at most 16383 nodes, and at most one per ten cells.
  function Budget(cells: nat): (n: nat)
    ensures n <= MaxNodes && n * 10 <= cells
    ensures n == MaxNodes || cells < (n + 1) * 10
  {
    Min(MaxNodes, cells / 10)
  }

  // ---------------------------------------------------------------------
  // Ranges
  // ---------------------------------------------------------------------

  /// tree.rs `get_range`: the box of radius `range` around `pos`, cut off
  /// at row and column 0.
  function GetRange(pos: Cell, range: nat): Range
  {
    Range(if pos.0 >= range then pos.0 - range else 0, pos.0 + range,
          if pos.1 >= range then pos.1 - range else 0, pos.1 + range)
  }

  /// tree.rs `is_in_range`, inclusive at both ends.
  predicate IsInRange(pos: Cell, range: Range)
  {
    range.x0 <= pos.0 <= range.x1 && range.y0 <= pos.1 <= range.y1
  }

  /// A cell lies in the range around `p` exactly when it is at most `range`
  /// rows and at most `range` columns away; in particular `p` is in its
  /// own range.
  lemma RangeIsBox(p: Cell, range: nat, q: Cell)
    ensures IsInRange(q, GetRange(p, range)) <==> Abs(q.0 - p.0) <= range && Abs(q.1 - p.1) <= range
    ensures IsInRange(p, GetRange(p, range))
  {
  }

  /// The snap of tree.rs: a proposal inside the box around `end` becomes
  /// `end`.
  function Snap(p: Cell, finishRange: Range, end: Cell): Cell
  {
    if IsInRange(p, finishRange) then end else p
  }

  // ---------------------------------------------------------------------
  // Steering
  // ---------------------------------------------------------------------

  /// tree.rs `get_distances(p1, p2, offset).2`: the straight-line distance
  /// plus an offset.
  function Distance(euclid: Euclid, p1: Cell, p2: Cell, offset: real): real
  {
    euclid(p1, p2) + offset
  }

  /// tree.rs `get_new_position`: a sample no farther than `stepSize` is
  /// taken as it is, otherwise the point `stepSize` toward it; together
  /// with the distance to the sample.
  function GetNewPosition(euclid: Euclid, steer: Steer, start: Cell, direction: Cell, stepSize: real): (Cell, real)
  {
    var distance := Distance(euclid, start, direction, 0.0);
    if stepSize >= distance then (direction, distance)
    else (steer(start, direction, stepSize), distance)
  }

  /// The new position lies in the box spanned by the node and the sample,
  /// so inside the area when both are; a sample within one step is taken
  /// unchanged; the distance reported is the one to the sample.
  lemma NewPositionBetween(euclid: Euclid, steer: Steer, start: Cell, direction: Cell, stepSize: real, rows: nat, cols: nat)
    requires SteerOk(steer)
    ensures var r := GetNewPosition(euclid, steer, start, direction, stepSize);
      && Between(r.0.0, start.0, direction.0) && Between(r.0.1, start.1, direction.1)
      && (InGrid(start, rows, cols) && InGrid(direction, rows, cols) ==> InGrid(r.0, rows, cols))
      && r.1 == euclid(start, direction)
      && (euclid(start, direction) <= stepSize ==> r.0 == direction)
  {
    var distance := Distance(euclid, start, direction, 0.0);
    if stepSize < distance {
      assert Between(steer(start, direction, stepSize).0, start.0, direction.0);
    }
  }

  // ---------------------------------------------------------------------
  // Choosing among the nodes' offers
  // ---------------------------------------------------------------------

  /// The choice made by a scan over the nodes that keeps an offer only when
  /// it is strictly below the one kept so far (`last_distance > distance`):
  /// the index of the offer kept last, if any.
  function Nearest(offers: seq<Option<real>>): (b: Option<nat>)
    ensures b.Some? ==> b.value < |offers| && offers[b.value].Some?
  {
    if offers == [] then None
    else
      var b := Nearest(offers[..|offers| - 1]);
      var k := |offers| - 1;
      if offers[k].Some? && (b.None? || offers[b.value].value > offers[k].value) then Some(k) else b
  }

  /// The scan keeps nothing exactly when there is no offer, and otherwise
  /// the first of the smallest offers: ties go to the lowest index.
  lemma {:induction false} NearestIsFirstMinimum(offers: seq<Option<real>>)
    ensures Nearest(offers).None? <==> forall j :: 0 <= j < |offers| ==> offers[j].None?
    ensures Nearest(offers).Some? ==>
      (forall j :: 0 <= j < |offers| && offers[j].Some? ==>
         offers[Nearest(offers).value].value <= offers[j].value) &&
      (forall j :: 0 <= j < Nearest(offers).value && offers[j].Some? ==>
         offers[Nearest(offers).value].value < offers[j].value)
  {
    if offers != [] {
      var init := offers[..|offers| - 1];
      NearestIsFirstMinimum(init);
      forall j | 0 <= j < |init|
        ensures init[j] == offers[j]
      {
      }
    }
  }

  /// Extending the offers by one extends the scan by one step.
  lemma NearestSnoc(offers: seq<Option<real>>, k: nat)
    requires k < |offers|
    ensures var b := Nearest(offers[..k]);
      Nearest(offers[..k + 1]) ==
        if offers[k].Some? && (b.None? || offers[b.value].value > offers[k].value) then Some(k) else b
  {
    assert offers[..k + 1][..k] == offers[..k];
  }

  /// `last_distance > distance` where `None` stands for f32::MAX.
  predicate Exceeds(last: Option<real>, distance: real)
  {
    last.None? || last.value > distance
  }

  // ---------------------------------------------------------------------
  // The first scan: a step toward the sample
  // ---------------------------------------------------------------------

  /// What a node at `from` offers toward `sample`: the distance to the
  /// sample, when the node is not at `end` and the line to its new position
  /// is free.
  ghost function Offer(area: seq<U64>, rows: nat, cols: nat, from: Cell, sample: Cell, end: Cell,
                       euclid: Euclid, steer: Steer): Option<real>
    requires |area| == rows * cols && InGrid(from, rows, cols) && InGrid(sample, rows, cols) && SteerOk(steer)
  {
    var r := GetNewPosition(euclid, steer, from, sample, StepDistance);
    NewPositionBetween(euclid, steer, from, sample, StepDistance, rows, cols);
    if from != end && CollisionFree(area, rows, cols, from, r.0) then Some(r.1) else None
  }

  ghost predicate AllInGrid(nodes: seq<Node>, rows: nat, cols: nat)
  {
    forall k :: 0 <= k < |nodes| ==> InGrid(nodes[k].pos, rows, cols)
  }

  ghost function Offers(area: seq<U64>, rows: nat, cols: nat, nodes: seq<Node>, sample: Cell, end: Cell,
                        euclid: Euclid, steer: Steer): (r: seq<Option<real>>)
    requires |area| == rows * cols && AllInGrid(nodes, rows, cols) && InGrid(sample, rows, cols) && SteerOk(steer)
    ensures |r| == |nodes|
    ensures forall k :: 0 <= k < |nodes| ==> r[k] == Offer(area, rows, cols, nodes[k].pos, sample, end, euclid, steer)
  {
    seq(|nodes|, k requires 0 <= k < |nodes| => Offer(area, rows, cols, nodes[k].pos, sample, end, euclid, steer))
  }

  /// The first scan of both planners (tree.rs:83-101 and 178-195): every
  /// node not at `end` proposes a step toward the sample; the proposal of
  /// the first node with the smallest distance among those with a free line
  /// is kept, snapped onto `end` when it lands in `finishRange`.
  method Scan(area: array<U64>, rows: nat, cols: nat, nodes: seq<Node>, sample: Cell, end: Cell,
              finishRange: Range, euclid: Euclid, steer: Steer)
    returns (lastDistance: Option<real>, parent: nat, pos: Cell)
    requires area.Length == rows * cols && AllInGrid(nodes, rows, cols) && InGrid(sample, rows, cols)
    requires InGrid(end, rows, cols) && SteerOk(steer)
    ensures var offers := Offers(area[..], rows, cols, nodes, sample, end, euclid, steer);
      match Nearest(offers)
      case None => lastDistance == None && parent == 0 && pos == (0, 0)
      case Some(b) =>
        lastDistance == offers[b] && parent == b &&
        pos == Snap(GetNewPosition(euclid, steer, nodes[b].pos, sample, StepDistance).0, finishRange, end)
  {
    ghost var offers := Offers(area[..], rows, cols, nodes, sample, end, euclid, steer);
    lastDistance, parent, pos := None, 0, (0, 0);
    for key := 0 to |nodes|
      invariant match Nearest(offers[..key])
        case None => lastDistance == None && parent == 0 && pos == (0, 0)
        case Some(b) =>
          lastDistance == offers[b] && parent == b &&
          pos == Snap(GetNewPosition(euclid, steer, nodes[b].pos, sample, StepDistance).0, finishRange, end)
    {
      NearestSnoc(offers, key);
      var node := nodes[key];
      if node.pos != end {
        var (newPos, distance) := GetNewPosition(euclid, steer, node.pos, sample, StepDistance);
        NewPositionBetween(euclid, steer, node.pos, sample, StepDistance, rows, cols);
        if Exceeds(lastDistance, distance) {
          var free := IsCollisionFree(area, rows, cols, node.pos, newPos);
          if free {
            lastDistance := Some(distance);
            parent := key;
            pos := if IsInRange(newPos, finishRange) then end else newPos;
          }
        }
      }
    }
    assert offers[..|nodes|] == offers;
  }

  /// The first scan chooses, among the nodes not at `end` whose step
  /// toward the sample has a free line, one nearest the sample, the first
  /// such in the arena; it chooses none only when there is no such node.
  lemma ScanChoosesNearest(area: seq<U64>, rows: nat, cols: nat, nodes: seq<Node>, sample: Cell, end: Cell,
                           euclid: Euclid, steer: Steer)
    requires |area| == rows * cols && AllInGrid(nodes, rows, cols) && InGrid(sample, rows, cols) && SteerOk(steer)
    ensures var offers := Offers(area, rows, cols, nodes, sample, end, euclid, steer);
      var b := Nearest(offers);
      (b.None? <==> forall k :: 0 <= k < |nodes| ==> offers[k].None?) &&
      (b.Some? ==>
        nodes[b.value].pos != end && offers[b.value] == Some(euclid(nodes[b.value].pos, sample)) &&
        forall k :: 0 <= k < |nodes| && offers[k].Some? ==>
          euclid(nodes[b.value].pos, sample) <= euclid(nodes[k].pos, sample) &&
          (k < b.value ==> euclid(nodes[b.value].pos, sample) < euclid(nodes[k].pos, sample)))
  {
    var offers := Offers(area, rows, cols, nodes, sample, end, euclid, steer);
    NearestIsFirstMinimum(offers);
    forall k | 0 <= k < |nodes| && offers[k].Some?
      ensures offers[k] == Some(euclid(nodes[k].pos, sample)) && nodes[k].pos != end
    {
      NewPositionBetween(euclid, steer, nodes[k].pos, sample, StepDistance, rows, cols);
    }
  }

  /// The edge from a node at `from` to the node the first scan made of its
  /// proposal: the node was not at `end`, and either the line to the new
  /// node is free and the new node lies outside the box around `end`, or
  /// the new node is `end` itself, snapped from a proposal in the box to
  /// which the line is free. The line from `from` to `end` itself is never
  /// tested.
  ghost predicate GrownEdge(area: seq<U64>, rows: nat, cols: nat, from: Cell, to: Cell, end: Cell, finishRange: Range)
    requires |area| == rows * cols && InGrid(from, rows, cols) && InGrid(to, rows, cols)
  {
    from != end &&
    (to != end ==> !IsInRange(to, finishRange) && CollisionFree(area, rows, cols, from, to)) &&
    (to == end ==> exists q :: InGrid(q, rows, cols) && IsInRange(q, finishRange) && CollisionFree(area, rows, cols, from, q))
  }

  /// What the first scan's choice means for the tree: the chosen parent is
  /// an existing node and the new node hangs off it by a grown edge.
  lemma ScanEdge(area: seq<U64>, rows: nat, cols: nat, nodes: seq<Node>, sample: Cell, end: Cell,
                 finishRange: Range, euclid: Euclid, steer: Steer, b: nat)
    requires |area| == rows * cols && AllInGrid(nodes, rows, cols) && InGrid(sample, rows, cols)
    requires InGrid(end, rows, cols) && SteerOk(steer)
    requires finishRange == GetRange(end, EndPosition)
    requires Nearest(Offers(area, rows, cols, nodes, sample, end, euclid, steer)) == Some(b)
    ensures b < |nodes|
    ensures var pos := Snap(GetNewPosition(euclid, steer, nodes[b].pos, sample, StepDistance).0, finishRange, end);
      InGrid(pos, rows, cols) && GrownEdge(area, rows, cols, nodes[b].pos, pos, end, finishRange)
  {
    var offers := Offers(area, rows, cols, nodes, sample, end, euclid, steer);
    var from := nodes[b].pos;
    var p := GetNewPosition(euclid, steer, from, sample, StepDistance).0;
    NewPositionBetween(euclid, steer, from, sample, StepDistance, rows, cols);
    assert offers[b].Some?;
    assert from != end && CollisionFree(area, rows, cols, from, p);
    RangeIsBox(end, EndPosition, end);
    if Snap(p, finishRange, end) == end {
      assert InGrid(p, rows, cols) && IsInRange(p, finishRange) && CollisionFree(area, rows, cols, from, p);
    }
  }

  // ---------------------------------------------------------------------
  // Reading the path back
  // ---------------------------------------------------------------------

  /// tree.rs `find_path`, first step: the first node at `end`, or the root
  /// when there is none.
  function FindFinish(nodes: seq<Node>, end: Cell): (f: nat)
    requires |nodes| >= 1
    ensures f < |nodes|
    ensures (exists k :: 0 <= k < |nodes| && nodes[k].pos == end) ==>
      nodes[f].pos == end && forall j :: 0 <= j < f ==> nodes[j].pos != end
    ensures (forall k :: 0 <= k < |nodes| ==> nodes[k].pos != end) ==> f == 0
  {
    if nodes[0].pos == end then 0
    else if |nodes| == 1 then 0
    else
      var f := FindFinish(nodes[1..], end);
      if nodes[1..][f].pos == end then f + 1 else 0
  }

  /// Node `p` comes before node `i` in the tree's order: a shorter path
  /// from the root, or the same length and an earlier index. Every parent
  /// comes before its child, which is what makes the walk back terminate.
  ghost predicate Precedes(nodes: seq<Node>, p: nat, i: nat)
    requires p < |nodes| && i < |nodes|
  {
    nodes[p].distance < nodes[i].distance || (nodes[p].distance == nodes[i].distance && p < i)
  }

  /// The arena is a tree rooted at node 0: the root is its own parent and
  /// every other node's parent is a node that comes before it.
  ghost predicate Ranked(nodes: seq<Node>)
  {
    |nodes| >= 1 && nodes[0].parent == 0 &&
    forall i :: 0 < i < |nodes| ==> nodes[i].parent < |nodes| && Precedes(nodes, nodes[i].parent, i)
  }

  ghost function Lower(nodes: seq<Node>, i: nat): set<nat>
    requires i < |nodes|
  {
    set k: nat | k < |nodes| && Precedes(nodes, k, i)
  }

  /// Fewer nodes come before a node's parent than before the node.
  lemma LowerShrinks(nodes: seq<Node>, q: nat, i: nat)
    requires q < |nodes| && i < |nodes| && Precedes(nodes, q, i)
    ensures |Lower(nodes, q)| < |Lower(nodes, i)|
  {
    assert Lower(nodes, q) <= Lower(nodes, i) - {q};
    SubsetCard(Lower(nodes, q), Lower(nodes, i) - {q});
  }

  /// `path` holds the cells of the nodes listed in `route`, and each index
  /// after the first is the parent of the one before.
  ghost predicate Walk(nodes: seq<Node>, path: seq<Cell>, route: seq<nat>)
  {
    |route| == |path| &&
    (forall j :: 0 <= j < |route| ==> route[j] < |nodes| && path[j] == nodes[route[j]].pos) &&
    (forall j :: 0 <= j < |route| - 1 ==> route[j + 1] == nodes[route[j]].parent)
  }

  /// A walk goes on by the parent of the node it is at.
  lemma WalkSnoc(nodes: seq<Node>, path: seq<Cell>, route: seq<nat>, q: nat)
    requires Walk(nodes, path, route) && |route| >= 1
    requires q == nodes[route[|route| - 1]].parent && q < |nodes|
    ensures Walk(nodes, path + [nodes[q].pos], route + [q])
  {
    var path', route' := path + [nodes[q].pos], route + [q];
    forall j | 0 <= j < |route'|
      ensures route'[j] < |nodes| && path'[j] == nodes[route'[j]].pos
    {
      if j < |route| {
        assert route'[j] == route[j] && path'[j] == path[j];
      }
    }
    forall j | 0 <= j < |route'| - 1
      ensures route'[j + 1] == nodes[route'[j]].parent
    {
      if j < |route| - 1 {
        assert route'[j + 1] == route[j + 1] && route'[j] == route[j];
      }
    }
  }

  /// `route` lists the node indices `path` was read from: it starts at the
  /// finish, each next index is the parent of the one before, the walk
  /// stops after the first node whose parent is the root, and the root is
  /// appended; so the root comes twice when the finish hangs directly off
  /// it, and the path is [start, start, start] when no node is at `end`.
  ghost predicate PathOf(nodes: seq<Node>, end: Cell, path: seq<Cell>, route: seq<nat>)
  {
    |nodes| >= 1 && |route| >= 3 && route[0] == FindFinish(nodes, end) && Walk(nodes, path, route) &&
    (forall j :: 2 <= j < |route| - 1 ==> route[j] != 0) &&
    route[|route| - 1] == 0
  }

  /// tree.rs `find_path`: walk back from the finish along the parent
  /// indices until a node whose parent is the root, then add the root.
  method FindPath(end: Cell, nodes: seq<Node>) returns (path: seq<Cell>, ghost route: seq<nat>)
    requires Ranked(nodes)
    ensures PathOf(nodes, end, path, route)
    ensures |path| >= 3 && path[0] == nodes[FindFinish(nodes, end)].pos && path[|path| - 1] == nodes[0].pos
  {
    var finish := FindFinish(nodes, end);
    path, route := [nodes[finish].pos], [finish];
    var p := nodes[finish].parent;
    WalkSnoc(nodes, path, route, p);
    path, route := path + [nodes[p].pos], route + [p];
    while nodes[p].parent != 0
      invariant p < |nodes| && |route| >= 2 && route[0] == finish && route[|route| - 1] == p
      invariant Walk(nodes, path, route)
      invariant forall j :: 2 <= j < |route| ==> route[j] != 0
      decreases |Lower(nodes, p)|
    {
      LowerShrinks(nodes, nodes[p].parent, p);
      WalkSnoc(nodes, path, route, nodes[p].parent);
      p := nodes[p].parent;
      path, route := path + [nodes[p].pos], route + [p];
    }
    WalkSnoc(nodes, path, route, 0);
    path, route := path + [nodes[0].pos], route + [0];
  }

  /// The edges drawn for the tree: one per node, from the node to its
  /// parent (the root's edge goes from the start to itself).
  function Edges(nodes: seq<Node>): (r: seq<(Cell, Cell)>)
    requires forall k :: 0 <= k < |nodes| ==> nodes[k].parent < |nodes|
    ensures |r| == |nodes|
  {
    seq(|nodes|, k requires 0 <= k < |nodes| => (nodes[k].pos, nodes[nodes[k].parent].pos))
  }

  /// The path ends at the start, and begins at `end` when some node
  /// reached it.
  lemma PathEnds(nodes: seq<Node>, end: Cell, path: seq<Cell>, route: seq<nat>)
    requires PathOf(nodes, end, path, route)
    ensures path[|path| - 1] == nodes[0].pos
    ensures (exists k :: 0 <= k < |nodes| && nodes[k].pos == end) ==> path[0] == end
  {
    assert path[|path| - 1] == nodes[route[|route| - 1]].pos;
    assert path[0] == nodes[route[0]].pos;
  }

  /// With no node at `end` the path is the start three times.
  lemma PathWithoutEnd(nodes: seq<Node>, end: Cell, path: seq<Cell>, route: seq<nat>)
    requires Ranked(nodes) && PathOf(nodes, end, path, route)
    requires forall k :: 0 <= k < |nodes| ==> nodes[k].pos != end
    ensures path == [nodes[0].pos, nodes[0].pos, nodes[0].pos]
  {
    assert route[0] == 0;
    assert route[1] == nodes[route[0]].parent == 0;
    assert route[2] == nodes[route[1]].parent;
    assert |route| == 3;
    assert path[0] == nodes[route[0]].pos && path[1] == nodes[route[1]].pos && path[2] == nodes[route[2]].pos;
  }

  /// Each step of the path is an edge of the tree, listed from the node
  /// the walk was at.
  lemma PathFollowsEdges(nodes: seq<Node>, end: Cell, path: seq<Cell>, route: seq<nat>)
    requires Ranked(nodes) && PathOf(nodes, end, path, route)
    ensures forall j :: 0 <= j < |path| - 1 ==> (path[j], path[j + 1]) == Edges(nodes)[route[j]]
  {
  }

  /// Apart from the finish and the root at the end, the walk visits nodes
  /// that each come before the previous one, so it never repeats a node.
  lemma {:induction false} PathDescends(nodes: seq<Node>, end: Cell, path: seq<Cell>, route: seq<nat>)
    requires Ranked(nodes) && PathOf(nodes, end, path, route)
    ensures forall j :: 1 <= j < |route| - 2 ==> Precedes(nodes, route[j + 1], route[j])
    ensures forall j, j' :: 1 <= j < j' < |route| - 1 ==> route[j] != route[j']
  {
    forall j, j' | 1 <= j < j' < |route| - 1
      ensures Precedes(nodes, route[j'], route[j])
    {
      var m := j + 1;
      while m < j'
        invariant j < m <= j' && Precedes(nodes, route[m], route[j])
      {
        m := m + 1;
      }
    }
  }

  // ---------------------------------------------------------------------
  // RRT
  // ---------------------------------------------------------------------

  /// The tree RRT grows: the root is the start, every node lies in the
  /// area, every other node's parent was added before it, and hangs off it
  /// by a grown edge.
  ghost predicate V1Tree(area: seq<U64>, rows: nat, cols: nat, nodes: seq<Node>, start: Cell, end: Cell)
    requires |area| == rows * cols
  {
    |nodes| >= 1 && nodes[0] == Node(start, 0, 0.0) && AllInGrid(nodes, rows, cols) &&
    forall k :: 0 < k < |nodes| ==>
      nodes[k].parent < k && nodes[k].distance == 0.0 &&
      GrownEdge(area, rows, cols, nodes[nodes[k].parent].pos, nodes[k].pos, end, GetRange(end, EndPosition))
  }

  /// Appending a node in the area, at path length 0, hanging off an
  /// earlier node by a grown edge, keeps the RRT tree.
  lemma V1Extend(area: seq<U64>, rows: nat, cols: nat, nodes: seq<Node>, start: Cell, end: Cell, c: Node)
    requires |area| == rows * cols && V1Tree(area, rows, cols, nodes, start, end)
    requires InGrid(c.pos, rows, cols) && c.parent < |nodes| && c.distance == 0.0
    requires GrownEdge(area, rows, cols, nodes[c.parent].pos, c.pos, end, GetRange(end, EndPosition))
    ensures V1Tree(area, rows, cols, nodes + [c], start, end)
  {
    var nodes' := nodes + [c];
    forall k | 0 < k < |nodes'|
      ensures nodes'[k].parent < k && nodes'[k].distance == 0.0
      ensures GrownEdge(area, rows, cols, nodes'[nodes'[k].parent].pos, nodes'[k].pos, end, GetRange(end, EndPosition))
    {
      if k < |nodes| {
        assert nodes'[k] == nodes[k] && nodes'[nodes[k].parent] == nodes[nodes[k].parent];
      }
    }
  }

  /// Adding the node the first scan chose keeps the RRT tree.
  lemma V1Grow(area: seq<U64>, rows: nat, cols: nat, nodes: seq<Node>, start: Cell, end: Cell,
               sample: Cell, euclid: Euclid, steer: Steer, b: nat)
    requires |area| == rows * cols && V1Tree(area, rows, cols, nodes, start, end)
    requires InGrid(sample, rows, cols) && InGrid(end, rows, cols) && SteerOk(steer)
    requires Nearest(Offers(area, rows, cols, nodes, sample, end, euclid, steer)) == Some(b)
    ensures b < |nodes|
    ensures var pos := Snap(GetNewPosition(euclid, steer, nodes[b].pos, sample, StepDistance).0, GetRange(end, EndPosition), end);
      V1Tree(area, rows, cols, nodes + [Node(pos, b, 0.0)], start, end)
  {
    ScanEdge(area, rows, cols, nodes, sample, end, GetRange(end, EndPosition), euclid, steer, b);
    var pos := Snap(GetNewPosition(euclid, steer, nodes[b].pos, sample, StepDistance).0, GetRange(end, EndPosition), end);
    V1Extend(area, rows, cols, nodes, start, end, Node(pos, b, 0.0));
  }

  /// The RRT tree is ranked, so its path can be read back.
  lemma V1Ranked(area: seq<U64>, rows: nat, cols: nat, nodes: seq<Node>, start: Cell, end: Cell)
    requires |area| == rows * cols && V1Tree(area, rows, cols, nodes, start, end)
    ensures Ranked(nodes)
  {
  }

  /// Every step of the RRT path, read from the node toward the start, is
  /// a grown edge run the other way: the line from the parent is free, or
  /// the node is `end`, reached by snapping from a cell with a free line.
  lemma V1PathGrown(area: seq<U64>, rows: nat, cols: nat, nodes: seq<Node>, start: Cell, end: Cell,
                    path: seq<Cell>, route: seq<nat>)
    requires |area| == rows * cols && V1Tree(area, rows, cols, nodes, start, end)
    requires PathOf(nodes, end, path, route)
    ensures forall j :: 0 <= j < |path| - 1 && route[j] != 0 ==>
      InGrid(path[j], rows, cols) && InGrid(path[j + 1], rows, cols) &&
      GrownEdge(area, rows, cols, path[j + 1], path[j], end, GetRange(end, EndPosition))
  {
  }

  /// One round of `rrt_v1` on `sample` (tree.rs:83-117): with a proposal
  /// from the first scan, the tree gains the node at its snapped position,
  /// hanging off the node that proposed it; without one, it stays as it is.
  ghost function V1Step(area: seq<U64>, rows: nat, cols: nat, nodes: seq<Node>, sample: Cell, end: Cell,
                        euclid: Euclid, steer: Steer): (r: seq<Node>)
    requires |area| == rows * cols && AllInGrid(nodes, rows, cols) && InGrid(sample, rows, cols)
    requires InGrid(end, rows, cols) && SteerOk(steer)
    ensures AllInGrid(r, rows, cols) && |nodes| <= |r| <= |nodes| + 1 && r[..|nodes|] == nodes
  {
    match Nearest(Offers(area, rows, cols, nodes, sample, end, euclid, steer))
    case None => nodes
    case Some(b) =>
      NewPositionBetween(euclid, steer, nodes[b].pos, sample, StepDistance, rows, cols);
      var pos := Snap(GetNewPosition(euclid, steer, nodes[b].pos, sample, StepDistance).0, GetRange(end, EndPosition), end);
      nodes + [Node(pos, b, 0.0)]
  }

  /// The rounds of `rrt_v1` over the samples, one each, until the tree
  /// holds `maxNodes` nodes or the samples run out.
  ghost function V1Run(area: seq<U64>, rows: nat, cols: nat, nodes: seq<Node>, samples: seq<Cell>, maxNodes: nat,
                       end: Cell, euclid: Euclid, steer: Steer): (r: seq<Node>)
    requires |area| == rows * cols && AllInGrid(nodes, rows, cols) && InGrid(end, rows, cols) && SteerOk(steer)
    requires forall i :: 0 <= i < |samples| ==> InGrid(samples[i], rows, cols)
    ensures AllInGrid(r, rows, cols) && |nodes| <= |r| <= |nodes| + |samples| && r[..|nodes|] == nodes
    decreases |samples|
  {
    if |nodes| == maxNodes || samples == [] then nodes
    else
      var next := V1Step(area, rows, cols, nodes, samples[0], end, euclid, steer);
      var r := V1Run(area, rows, cols, next, samples[1..], maxNodes, end, euclid, steer);
      assert r[..|nodes|] == r[..|next|][..|nodes|];
      r
  }

  /// A round keeps the RRT tree.
  lemma V1StepTree(area: seq<U64>, rows: nat, cols: nat, nodes: seq<Node>, start: Cell, end: Cell,
                   sample: Cell, euclid: Euclid, steer: Steer)
    requires |area| == rows * cols && V1Tree(area, rows, cols, nodes, start, end)
    requires InGrid(sample, rows, cols) && InGrid(end, rows, cols) && SteerOk(steer)
    ensures V1Tree(area, rows, cols, V1Step(area, rows, cols, nodes, sample, end, euclid, steer), start, end)
  {
    var b := Nearest(Offers(area, rows, cols, nodes, sample, end, euclid, steer));
    if b.Some? {
      V1Grow(area, rows, cols, nodes, start, end, sample, euclid, steer, b.value);
    }
  }

  /// A run from sample `i` on that has not stopped is the round on sample
  /// `i` followed by the run from sample `i + 1` on.
  lemma V1RunStep(area: seq<U64>, rows: nat, cols: nat, nodes: seq<Node>, samples: seq<Cell>, i: nat, maxNodes: nat,
                  end: Cell, euclid: Euclid, steer: Steer)
    requires |area| == rows * cols && AllInGrid(nodes, rows, cols) && InGrid(end, rows, cols) && SteerOk(steer)
    requires forall i :: 0 <= i < |samples| ==> InGrid(samples[i], rows, cols)
    requires |nodes| != maxNodes && i < |samples|
    ensures V1Run(area, rows, cols, nodes, samples[i..], maxNodes, end, euclid, steer) ==
      V1Run(area, rows, cols, V1Step(area, rows, cols, nodes, samples[i], end, euclid, steer), samples[i + 1..], maxNodes, end, euclid, steer)
  {
    assert samples[i..][0] == samples[i] && samples[i..][1..] == samples[i + 1..];
  }

  /// Every run of rounds from an RRT tree ends in an RRT tree, and never
  /// grows it beyond `maxNodes` nodes when it started within them.
  lemma {:induction false} V1RunTree(area: seq<U64>, rows: nat, cols: nat, nodes: seq<Node>, start: Cell, end: Cell,
                                     samples: seq<Cell>, maxNodes: nat, euclid: Euclid, steer: Steer)
    requires |area| == rows * cols && V1Tree(area, rows, cols, nodes, start, end) && InGrid(end, rows, cols)
    requires forall i :: 0 <= i < |samples| ==> InGrid(samples[i], rows, cols)
    requires SteerOk(steer)
    ensures var r := V1Run(area, rows, cols, nodes, samples, maxNodes, end, euclid, steer);
      V1Tree(area, rows, cols, r, start, end) && (|nodes| <= maxNodes ==> |r| <= maxNodes)
    decreases |samples|
  {
    if |nodes| != maxNodes && samples != [] {
      V1StepTree(area, rows, cols, nodes, start, end, samples[0], euclid, steer);
      var next := V1Step(area, rows, cols, nodes, samples[0], end, euclid, steer);
      V1RunTree(area, rows, cols, next, start, end, samples[1..], maxNodes, euclid, steer);
      assert V1Run(area, rows, cols, nodes, samples, maxNodes, end, euclid, steer) ==
        V1Run(area, rows, cols, next, samples[1..], maxNodes, end, euclid, steer);
    } else {
      assert V1Run(area, rows, cols, nodes, samples, maxNodes, end, euclid, steer) == nodes;
    }
  }

  /// With the start at `end`, no round adds a node: the root is the only
  /// node and it never grows the tree. The source, which stops only at the
  /// node budget, then never stops when the budget exceeds one node.
  lemma {:induction false} V1RunStuck(area: seq<U64>, rows: nat, cols: nat, samples: seq<Cell>, maxNodes: nat,
                                      end: Cell, euclid: Euclid, steer: Steer)
    requires |area| == rows * cols && InGrid(end, rows, cols) && SteerOk(steer)
    requires forall i :: 0 <= i < |samples| ==> InGrid(samples[i], rows, cols)
    ensures V1Run(area, rows, cols, [Node(end, 0, 0.0)], samples, maxNodes, end, euclid, steer) == [Node(end, 0, 0.0)]
    decreases |samples|
  {
    var root := [Node(end, 0, 0.0)];
    if 1 != maxNodes && samples != [] {
      assert Offers(area, rows, cols, root, samples[0], end, euclid, steer) == [None];
      V1RunStuck(area, rows, cols, samples[1..], maxNodes, end, euclid, steer);
    }
  }

  /// One round of `rrt_v1` (tree.rs:83-109): the first scan toward the
  /// sample and, when it keeps a proposal, pushing the new node. The tree
  /// stays an RRT tree.
  method GrowV1(area: array<U64>, rows: nat, cols: nat, nodes: seq<Node>, start: Cell, end: Cell, sample: Cell,
                euclid: Euclid, steer: Steer)
    returns (grown: seq<Node>)
    requires area.Length == rows * cols && V1Tree(area[..], rows, cols, nodes, start, end)
    requires InGrid(sample, rows, cols) && InGrid(end, rows, cols) && SteerOk(steer)
    ensures grown == V1Step(area[..], rows, cols, nodes, sample, end, euclid, steer)
    ensures V1Tree(area[..], rows, cols, grown, start, end)
  {
    var lastDistance, parent, pos := Scan(area, rows, cols, nodes, sample, end, GetRange(end, EndPosition), euclid, steer);
    grown := nodes;
    if lastDistance.Some? {
      V1Grow(area[..], rows, cols, nodes, start, end, sample, euclid, steer, parent);
      grown := nodes + [Node(pos, parent, 0.0)];
    }
  }

  /// tree.rs `rrt_v1`: grow the tree one sample at a time until it holds
  /// the node budget (or the samples run out), then read back the path and
  /// the edges.
  method RrtV1(area: array<U64>, rows: nat, cols: nat, start: Cell, end: Cell, samples: seq<Cell>,
               euclid: Euclid, steer: Steer)
    returns (result: TreeResult, nodes: seq<Node>, ghost route: seq<nat>)
    requires area.Length == rows * cols && InGrid(start, rows, cols) && InGrid(end, rows, cols)
    requires forall i :: 0 <= i < |samples| ==> InGrid(samples[i], rows, cols)
    requires SteerOk(steer)
    ensures nodes == V1Run(area[..], rows, cols, [Node(start, 0, 0.0)], samples, Budget(area.Length), end, euclid, steer)
    ensures V1Tree(area[..], rows, cols, nodes, start, end)
    ensures Budget(area.Length) >= 1 ==> |nodes| <= Budget(area.Length)
    ensures |nodes| <= |samples| + 1
    ensures Ranked(nodes) && result.tree == Edges(nodes) && PathOf(nodes, end, result.path, route)
  {
    var maxNodes := Budget(area.Length);
    nodes := [Node(start, 0, 0.0)];
    ghost var whole := V1Run(area[..], rows, cols, nodes, samples, maxNodes, end, euclid, steer);
    var i := 0;
    assert samples[i..] == samples;
    while |nodes| != maxNodes && i < |samples|
      invariant i <= |samples| && |nodes| <= i + 1
      invariant V1Tree(area[..], rows, cols, nodes, start, end)
      invariant maxNodes >= 1 ==> |nodes| <= maxNodes
      invariant whole == V1Run(area[..], rows, cols, nodes, samples[i..], maxNodes, end, euclid, steer)
      decreases |samples| - i
    {
      V1RunStep(area[..], rows, cols, nodes, samples, i, maxNodes, end, euclid, steer);
      nodes := GrowV1(area, rows, cols, nodes, start, end, samples[i], euclid, steer);
      i := i + 1;
    }
    V1Ranked(area[..], rows, cols, nodes, start, end);
    var path;
    path, route := FindPath(end, nodes);
    result := TreeResult(path, Edges(nodes));
  }

  // ---------------------------------------------------------------------
  // RRT*
  // ---------------------------------------------------------------------

  /// The radius of the rewiring box: the step length as an integer times
  /// the rewire factor.
  const RewireRange: nat := 10 * RewireDistanceFactor

  /// What an existing node offers a new node at `pos` as its parent: the
  /// length of the path through it, when the line from it is free.
  ghost function Link(area: seq<U64>, rows: nat, cols: nat, node: Node, pos: Cell, euclid: Euclid): Option<real>
    requires |area| == rows * cols && InGrid(node.pos, rows, cols) && InGrid(pos, rows, cols)
  {
    if CollisionFree(area, rows, cols, node.pos, pos) then Some(Distance(euclid, pos, node.pos, node.distance)) else None
  }

  ghost function Links(area: seq<U64>, rows: nat, cols: nat, nodes: seq<Node>, pos: Cell, euclid: Euclid): (r: seq<Option<real>>)
    requires |area| == rows * cols && AllInGrid(nodes, rows, cols) && InGrid(pos, rows, cols)
    ensures |r| == |nodes|
    ensures forall k :: 0 <= k < |nodes| ==> r[k] == Link(area, rows, cols, nodes[k], pos, euclid)
  {
    seq(|nodes|, k requires 0 <= k < |nodes| => Link(area, rows, cols, nodes[k], pos, euclid))
  }

  /// The second scan of `rrt_v2` (tree.rs:197-207): the new node's parent
  /// is the first node with the shortest path through it among those with a
  /// free line to the new position; with none, the new node keeps parent 0
  /// and distance 0.
  method Attach(area: array<U64>, rows: nat, cols: nat, nodes: seq<Node>, pos: Cell, euclid: Euclid)
    returns (parent: nat, distance: real)
    requires area.Length == rows * cols && AllInGrid(nodes, rows, cols) && InGrid(pos, rows, cols)
    ensures var links := Links(area[..], rows, cols, nodes, pos, euclid);
      match Nearest(links)
      case None => parent == 0 && distance == 0.0
      case Some(b) => parent == b && links[b] == Some(distance)
  {
    ghost var links := Links(area[..], rows, cols, nodes, pos, euclid);
    var lastDistance: Option<real> := None;
    parent, distance := 0, 0.0;
    for key := 0 to |nodes|
      invariant match Nearest(links[..key])
        case None => lastDistance == None && parent == 0 && distance == 0.0
        case Some(b) => parent == b && lastDistance == Some(distance) && links[b] == lastDistance
    {
      NearestSnoc(links, key);
      var node := nodes[key];
      var d := Distance(euclid, pos, node.pos, node.distance);
      assert links[key].Some? ==> links[key] == Some(d);
      if Exceeds(lastDistance, d) {
        var free := IsCollisionFree(area, rows, cols, node.pos, pos);
        if free {
          lastDistance := Some(d);
          parent := key;
          distance := d;
        }
      }
    }
    assert links[..|nodes|] == links;
  }

  /// The parent chosen for a new node has a free line to it and gives it
  /// the shortest path of all nodes with a free line, ties going to the
  /// lowest index; no parent is chosen only when no node has a free line.
  lemma AttachIsCheapest(area: seq<U64>, rows: nat, cols: nat, nodes: seq<Node>, pos: Cell, euclid: Euclid)
    requires |area| == rows * cols && AllInGrid(nodes, rows, cols) && InGrid(pos, rows, cols)
    ensures var b := Nearest(Links(area, rows, cols, nodes, pos, euclid));
      (b.None? <==> forall k :: 0 <= k < |nodes| ==> !CollisionFree(area, rows, cols, nodes[k].pos, pos)) &&
      (b.Some? ==>
        CollisionFree(area, rows, cols, nodes[b.value].pos, pos) &&
        forall k :: 0 <= k < |nodes| && CollisionFree(area, rows, cols, nodes[k].pos, pos) ==>
          Distance(euclid, pos, nodes[b.value].pos, nodes[b.value].distance) <= Distance(euclid, pos, nodes[k].pos, nodes[k].distance) &&
          (k < b.value ==> Distance(euclid, pos, nodes[b.value].pos, nodes[b.value].distance) < Distance(euclid, pos, nodes[k].pos, nodes[k].distance)))
  {
    var links := Links(area, rows, cols, nodes, pos, euclid);
    NearestIsFirstMinimum(links);
  }

  /// One node under the rewiring of `rrt_v2` (tree.rs:215-223): a node
  /// other than the new node's cell, inside the rewiring box, whose path
  /// would be shorter through the new node and which has a free line to
  /// it, is re-parented to the new node with that shorter length.
  ghost function RewireOne(area: seq<U64>, rows: nat, cols: nat, node: Node, newNode: Node, newIndex: nat,
                           euclid: Euclid): Node
    requires |area| == rows * cols && InGrid(node.pos, rows, cols) && InGrid(newNode.pos, rows, cols)
  {
    var d := Distance(euclid, newNode.pos, node.pos, newNode.distance);
    if node.pos != newNode.pos && IsInRange(node.pos, GetRange(newNode.pos, RewireRange)) &&
       node.distance > d && CollisionFree(area, rows, cols, node.pos, newNode.pos)
    then node.(parent := newIndex, distance := d)
    else node
  }

  /// The rewiring pass over all nodes, in place.
  method Rewire(area: array<U64>, rows: nat, cols: nat, nodes: seq<Node>, newNode: Node, newIndex: nat, euclid: Euclid)
    returns (rewired: seq<Node>)
    requires area.Length == rows * cols && AllInGrid(nodes, rows, cols) && InGrid(newNode.pos, rows, cols)
    ensures |rewired| == |nodes|
    ensures forall k :: 0 <= k < |nodes| ==>
      rewired[k] == RewireOne(area[..], rows, cols, nodes[k], newNode, newIndex, euclid)
  {
    var checkRange := GetRange(newNode.pos, RewireRange);
    rewired := nodes;
    for k := 0 to |nodes|
      invariant |rewired| == |nodes|
      invariant forall j :: 0 <= j < k ==> rewired[j] == RewireOne(area[..], rows, cols, nodes[j], newNode, newIndex, euclid)
      invariant forall j :: k <= j < |nodes| ==> rewired[j] == nodes[j]
    {
      var node := rewired[k];
      if node.pos != newNode.pos && IsInRange(node.pos, checkRange) {
        var distance := Distance(euclid, newNode.pos, node.pos, newNode.distance);
        if node.distance > distance {
          var free := IsCollisionFree(area, rows, cols, node.pos, newNode.pos);
          if free {
            rewired := rewired[k := node.(parent := newIndex, distance := distance)];
          }
        }
      }
    }
  }

  /// How node `k` hangs off its parent in the RRT* tree: the line between
  /// them is free in one direction or the other and the recorded length is
  /// at least the parent's plus the step between them; or, when no node
  /// could reach a node snapped onto `end`, it was attached to the root
  /// unchecked, with length 0.
  ghost predicate Linked(area: seq<U64>, rows: nat, cols: nat, nodes: seq<Node>, k: nat, end: Cell, euclid: Euclid)
    requires |area| == rows * cols && AllInGrid(nodes, rows, cols)
    requires k < |nodes| && nodes[k].parent < |nodes|
  {
    var c := nodes[k];
    var p := nodes[c.parent];
    ((CollisionFree(area, rows, cols, p.pos, c.pos) || CollisionFree(area, rows, cols, c.pos, p.pos)) &&
     c.distance >= p.distance + euclid(c.pos, p.pos))
    || (c.parent == 0 && c.distance == 0.0 && c.pos == end)
  }

  /// The tree RRT* keeps: rooted at the start with length 0, ranked, in the
  /// area, with lengths never negative and every other node linked to its
  /// parent.
  ghost predicate V2Tree(area: seq<U64>, rows: nat, cols: nat, nodes: seq<Node>, start: Cell, end: Cell, euclid: Euclid)
    requires |area| == rows * cols
  {
    Ranked(nodes) && nodes[0] == Node(start, 0, 0.0) && AllInGrid(nodes, rows, cols) &&
    (forall k :: 0 <= k < |nodes| ==> nodes[k].distance >= 0.0) &&
    forall k :: 0 < k < |nodes| ==> Linked(area, rows, cols, nodes, k, end, euclid)
  }

  /// Appending a node that lies in the area, comes after its parent, has
  /// a length that is not negative and is linked keeps the RRT* tree.
  lemma V2Extend(area: seq<U64>, rows: nat, cols: nat, nodes: seq<Node>, start: Cell, end: Cell, euclid: Euclid, c: Node)
    requires |area| == rows * cols && V2Tree(area, rows, cols, nodes, start, end, euclid)
    requires InGrid(c.pos, rows, cols) && c.parent < |nodes| && c.distance >= 0.0
    requires Precedes(nodes + [c], c.parent, |nodes|)
    requires Linked(area, rows, cols, nodes + [c], |nodes|, end, euclid)
    ensures V2Tree(area, rows, cols, nodes + [c], start, end, euclid)
  {
    var nodes' := nodes + [c];
    assert forall k :: 0 <= k < |nodes| ==> nodes'[k] == nodes[k];
    forall k | 0 < k < |nodes|
      ensures Linked(area, rows, cols, nodes', k, end, euclid)
    {
      assert Linked(area, rows, cols, nodes, k, end, euclid);
    }
  }

  /// Attaching the node proposed by the first scan keeps the RRT* tree;
  /// in particular a node left without a parent is at `end`.
  lemma V2Attach(area: seq<U64>, rows: nat, cols: nat, nodes: seq<Node>, start: Cell, end: Cell,
                 sample: Cell, euclid: Euclid, steer: Steer, b: nat, parent: nat, distance: real)
    requires |area| == rows * cols && V2Tree(area, rows, cols, nodes, start, end, euclid)
    requires InGrid(sample, rows, cols) && InGrid(end, rows, cols) && SteerOk(steer) && EuclidOk(euclid)
    requires Nearest(Offers(area, rows, cols, nodes, sample, end, euclid, steer)) == Some(b)
    requires var pos := Snap(GetNewPosition(euclid, steer, nodes[b].pos, sample, StepDistance).0, GetRange(end, EndPosition), end);
      InGrid(pos, rows, cols) &&
      match Nearest(Links(area, rows, cols, nodes, pos, euclid))
      case None => parent == 0 && distance == 0.0
      case Some(a) => parent == a && Links(area, rows, cols, nodes, pos, euclid)[a] == Some(distance)
    ensures var pos := Snap(GetNewPosition(euclid, steer, nodes[b].pos, sample, StepDistance).0, GetRange(end, EndPosition), end);
      V2Tree(area, rows, cols, nodes + [Node(pos, parent, distance)], start, end, euclid)
  {
    ScanEdge(area, rows, cols, nodes, sample, end, GetRange(end, EndPosition), euclid, steer, b);
    var pos := Snap(GetNewPosition(euclid, steer, nodes[b].pos, sample, StepDistance).0, GetRange(end, EndPosition), end);
    var links := Links(area, rows, cols, nodes, pos, euclid);
    var c := Node(pos, parent, distance);
    var nodes' := nodes + [c];
    var n := |nodes|;
    assert nodes'[n] == c && nodes'[0] == nodes[0];
    AttachIsCheapest(area, rows, cols, nodes, pos, euclid);
    if Nearest(links).None? {
      assert !CollisionFree(area, rows, cols, nodes[b].pos, pos);
      assert pos == end;
    } else {
      assert nodes'[parent] == nodes[parent];
      assert links[parent] == Some(distance);
      assert CollisionFree(area, rows, cols, nodes[parent].pos, pos);
      assert distance == euclid(pos, nodes[parent].pos) + nodes[parent].distance;
      assert euclid(pos, nodes[parent].pos) >= 0.0;
    }
    V2Extend(area, rows, cols, nodes, start, end, euclid, c);
  }

  /// Rewiring moves no node and never lengthens a path; a node it changes
  /// now hangs off the new node by a free line, with the length through
  /// it, which is longer than the new node's own since the two differ in
  /// cell.
  lemma RewireOneShortens(area: seq<U64>, rows: nat, cols: nat, node: Node, newNode: Node, newIndex: nat, euclid: Euclid)
    requires |area| == rows * cols && InGrid(node.pos, rows, cols) && InGrid(newNode.pos, rows, cols)
    requires EuclidOk(euclid)
    ensures var r := RewireOne(area, rows, cols, node, newNode, newIndex, euclid);
      r.pos == node.pos && r.distance <= node.distance &&
      (r != node ==>
        node.pos != newNode.pos && IsInRange(node.pos, GetRange(newNode.pos, RewireRange)) &&
        r.distance < node.distance &&
        r.parent == newIndex && CollisionFree(area, rows, cols, node.pos, newNode.pos) &&
        r.distance == newNode.distance + euclid(node.pos, newNode.pos) && r.distance > newNode.distance)
  {
    assert euclid(newNode.pos, node.pos) == euclid(node.pos, newNode.pos);
    assert node.pos != newNode.pos ==> euclid(node.pos, newNode.pos) > 0.0;
  }

  /// Rewiring around the node just appended keeps the RRT* tree, moves no
  /// node, and only shortens recorded lengths.
  lemma V2Rewire(area: seq<U64>, rows: nat, cols: nat, nodes: seq<Node>, start: Cell, end: Cell, euclid: Euclid,
                 rewired: seq<Node>)
    requires |area| == rows * cols && V2Tree(area, rows, cols, nodes, start, end, euclid) && EuclidOk(euclid)
    requires |rewired| == |nodes|
    requires forall k :: 0 <= k < |nodes| ==>
      rewired[k] == RewireOne(area, rows, cols, nodes[k], nodes[|nodes| - 1], |nodes| - 1, euclid)
    ensures V2Tree(area, rows, cols, rewired, start, end, euclid)
    ensures forall k :: 0 <= k < |nodes| ==> rewired[k].pos == nodes[k].pos && rewired[k].distance <= nodes[k].distance
  {
    var n := |nodes| - 1;
    forall k | 0 <= k < |nodes|
      ensures rewired[k].pos == nodes[k].pos && rewired[k].distance <= nodes[k].distance
      ensures rewired[k] != nodes[k] ==>
        rewired[k].parent == n && CollisionFree(area, rows, cols, nodes[k].pos, nodes[n].pos) &&
        rewired[k].distance == nodes[n].distance + euclid(nodes[k].pos, nodes[n].pos) &&
        rewired[k].distance > nodes[n].distance && rewired[k].distance >= 0.0
    {
      RewireOneShortens(area, rows, cols, nodes[k], nodes[n], n, euclid);
    }
    assert rewired[n] == nodes[n];
    assert rewired[0] == nodes[0];
    forall k | 0 < k < |nodes|
      ensures rewired[k].parent < |nodes| && Precedes(rewired, rewired[k].parent, k)
      ensures Linked(area, rows, cols, rewired, k, end, euclid)
    {
      if rewired[k] == nodes[k] {
        var p := nodes[k].parent;
        assert Precedes(nodes, p, k);
        assert Linked(area, rows, cols, nodes, k, end, euclid);
      } else {
        assert euclid(rewired[k].pos, rewired[n].pos) == euclid(nodes[k].pos, nodes[n].pos);
      }
    }
  }

  /// The node the second scan makes of a proposal at `pos`: hanging off
  /// the node with the shortest path through a free line, with that
  /// length; off the root at length 0 when no node has a free line.
  ghost function Attached(area: seq<U64>, rows: nat, cols: nat, nodes: seq<Node>, pos: Cell, euclid: Euclid): Node
    requires |area| == rows * cols && AllInGrid(nodes, rows, cols) && InGrid(pos, rows, cols)
  {
    var links := Links(area, rows, cols, nodes, pos, euclid);
    match Nearest(links)
    case None => Node(pos, 0, 0.0)
    case Some(a) => Node(pos, a, links[a].value)
  }

  /// The rewiring pass around the last node of `nodes`.
  ghost function Rewired(area: seq<U64>, rows: nat, cols: nat, nodes: seq<Node>, euclid: Euclid): (r: seq<Node>)
    requires |area| == rows * cols && AllInGrid(nodes, rows, cols) && nodes != []
    ensures |r| == |nodes|
    ensures forall k :: 0 <= k < |nodes| ==> r[k] == RewireOne(area, rows, cols, nodes[k], nodes[|nodes| - 1], |nodes| - 1, euclid)
  {
    seq(|nodes|, k requires 0 <= k < |nodes| => RewireOne(area, rows, cols, nodes[k], nodes[|nodes| - 1], |nodes| - 1, euclid))
  }

  /// A pass that rewires every node as `RewireOne` does is the rewiring
  /// pass.
  lemma RewiredIs(area: seq<U64>, rows: nat, cols: nat, nodes: seq<Node>, euclid: Euclid, rewired: seq<Node>)
    requires |area| == rows * cols && AllInGrid(nodes, rows, cols) && nodes != [] && |rewired| == |nodes|
    requires forall k :: 0 <= k < |nodes| ==>
      rewired[k] == RewireOne(area, rows, cols, nodes[k], nodes[|nodes| - 1], |nodes| - 1, euclid)
    ensures rewired == Rewired(area, rows, cols, nodes, euclid)
  {
  }

  /// One round of `rrt_v2` on `sample` (tree.rs:176-223): with a proposal
  /// from the first scan, the node the second scan makes of it is appended
  /// and the tree is rewired around it; without one, the tree stays as it
  /// is.
  ghost function V2Step(area: seq<U64>, rows: nat, cols: nat, nodes: seq<Node>, sample: Cell, end: Cell,
                        euclid: Euclid, steer: Steer): (r: seq<Node>)
    requires |area| == rows * cols && AllInGrid(nodes, rows, cols) && InGrid(sample, rows, cols)
    requires InGrid(end, rows, cols) && SteerOk(steer)
    ensures |nodes| <= |r| <= |nodes| + 1
    ensures forall k :: 0 <= k < |nodes| ==> r[k].pos == nodes[k].pos
  {
    match Nearest(Offers(area, rows, cols, nodes, sample, end, euclid, steer))
    case None => nodes
    case Some(b) =>
      NewPositionBetween(euclid, steer, nodes[b].pos, sample, StepDistance, rows, cols);
      var pos := Snap(GetNewPosition(euclid, steer, nodes[b].pos, sample, StepDistance).0, GetRange(end, EndPosition), end);
      Rewired(area, rows, cols, nodes + [Attached(area, rows, cols, nodes, pos, euclid)], euclid)
  }

  /// A round keeps the RRT* tree, moves no node, never lengthens a path,
  /// and, when the first scan proposes a step, appends exactly the node the
  /// second scan makes of the snapped proposal: rewiring never touches it.
  lemma V2StepKeeps(area: seq<U64>, rows: nat, cols: nat, nodes: seq<Node>, start: Cell, end: Cell,
                    sample: Cell, euclid: Euclid, steer: Steer)
    requires |area| == rows * cols && V2Tree(area, rows, cols, nodes, start, end, euclid)
    requires InGrid(sample, rows, cols) && InGrid(end, rows, cols) && SteerOk(steer) && EuclidOk(euclid)
    ensures var r := V2Step(area, rows, cols, nodes, sample, end, euclid, steer);
      V2Tree(area, rows, cols, r, start, end, euclid) &&
      (forall k :: 0 <= k < |nodes| ==> r[k].pos == nodes[k].pos && r[k].distance <= nodes[k].distance) &&
      match Nearest(Offers(area, rows, cols, nodes, sample, end, euclid, steer))
      case None => r == nodes
      case Some(b) =>
        var pos := Snap(GetNewPosition(euclid, steer, nodes[b].pos, sample, StepDistance).0, GetRange(end, EndPosition), end);
        |r| == |nodes| + 1 && r[|nodes|] == Attached(area, rows, cols, nodes, pos, euclid)
  {
    var b := Nearest(Offers(area, rows, cols, nodes, sample, end, euclid, steer));
    if b.Some? {
      ScanEdge(area, rows, cols, nodes, sample, end, GetRange(end, EndPosition), euclid, steer, b.value);
      var pos := Snap(GetNewPosition(euclid, steer, nodes[b.value].pos, sample, StepDistance).0, GetRange(end, EndPosition), end);
      var c := Attached(area, rows, cols, nodes, pos, euclid);
      V2Attach(area, rows, cols, nodes, start, end, sample, euclid, steer, b.value, c.parent, c.distance);
      var appended := nodes + [c];
      V2Rewire(area, rows, cols, appended, start, end, euclid, Rewired(area, rows, cols, appended, euclid));
    }
  }

  /// The rounds of `rrt_v2` over the samples, one each, until the tree
  /// holds `maxNodes` nodes or the samples run out.
  ghost function V2Run(area: seq<U64>, rows: nat, cols: nat, nodes: seq<Node>, samples: seq<Cell>, maxNodes: nat,
                       end: Cell, euclid: Euclid, steer: Steer): (r: seq<Node>)
    requires |area| == rows * cols && AllInGrid(nodes, rows, cols) && InGrid(end, rows, cols) && SteerOk(steer)
    requires forall i :: 0 <= i < |samples| ==> InGrid(samples[i], rows, cols)
    ensures |nodes| <= |r| <= |nodes| + |samples|
    decreases |samples|
  {
    if |nodes| == maxNodes || samples == [] then nodes
    else
      var next := V2Step(area, rows, cols, nodes, samples[0], end, euclid, steer);
      assert AllInGrid(next, rows, cols);
      V2Run(area, rows, cols, next, samples[1..], maxNodes, end, euclid, steer)
  }

  /// A run from sample `i` on that has not stopped is the round on sample
  /// `i` followed by the run from sample `i + 1` on.
  lemma V2RunStep(area: seq<U64>, rows: nat, cols: nat, nodes: seq<Node>, samples: seq<Cell>, i: nat, maxNodes: nat,
                  end: Cell, euclid: Euclid, steer: Steer)
    requires |area| == rows * cols && AllInGrid(nodes, rows, cols) && InGrid(end, rows, cols) && SteerOk(steer)
    requires forall i :: 0 <= i < |samples| ==> InGrid(samples[i], rows, cols)
    requires |nodes| != maxNodes && i < |samples|
    ensures V2Run(area, rows, cols, nodes, samples[i..], maxNodes, end, euclid, steer) ==
      V2Run(area, rows, cols, V2Step(area, rows, cols, nodes, samples[i], end, euclid, steer), samples[i + 1..], maxNodes, end, euclid, steer)
  {
    assert samples[i..][0] == samples[i] && samples[i..][1..] == samples[i + 1..];
  }

  /// Every run of rounds from an RRT* tree ends in an RRT* tree that
  /// keeps every node's position, has lengthened no path, and never grows
  /// beyond `maxNodes` nodes when it started within them.
  lemma {:induction false} V2RunTree(area: seq<U64>, rows: nat, cols: nat, nodes: seq<Node>, start: Cell, end: Cell,
                                     samples: seq<Cell>, maxNodes: nat, euclid: Euclid, steer: Steer)
    requires |area| == rows * cols && V2Tree(area, rows, cols, nodes, start, end, euclid) && InGrid(end, rows, cols)
    requires forall i :: 0 <= i < |samples| ==> InGrid(samples[i], rows, cols)
    requires SteerOk(steer) && EuclidOk(euclid)
    ensures var r := V2Run(area, rows, cols, nodes, samples, maxNodes, end, euclid, steer);
      V2Tree(area, rows, cols, r, start, end, euclid) && (|nodes| <= maxNodes ==> |r| <= maxNodes) &&
      forall k :: 0 <= k < |nodes| ==> r[k].pos == nodes[k].pos && r[k].distance <= nodes[k].distance
    decreases |samples|
  {
    if |nodes| != maxNodes && samples != [] {
      V2StepKeeps(area, rows, cols, nodes, start, end, samples[0], euclid, steer);
      var next := V2Step(area, rows, cols, nodes, samples[0], end, euclid, steer);
      V2RunTree(area, rows, cols, next, start, end, samples[1..], maxNodes, euclid, steer);
      assert V2Run(area, rows, cols, nodes, samples, maxNodes, end, euclid, steer) ==
        V2Run(area, rows, cols, next, samples[1..], maxNodes, end, euclid, steer);
    } else {
      assert V2Run(area, rows, cols, nodes, samples, maxNodes, end, euclid, steer) == nodes;
    }
  }

  /// With the start at `end`, no round of RRT* adds a node either.
  lemma {:induction false} V2RunStuck(area: seq<U64>, rows: nat, cols: nat, samples: seq<Cell>, maxNodes: nat,
                                      end: Cell, euclid: Euclid, steer: Steer)
    requires |area| == rows * cols && InGrid(end, rows, cols) && SteerOk(steer)
    requires forall i :: 0 <= i < |samples| ==> InGrid(samples[i], rows, cols)
    ensures V2Run(area, rows, cols, [Node(end, 0, 0.0)], samples, maxNodes, end, euclid, steer) == [Node(end, 0, 0.0)]
    decreases |samples|
  {
    var root := [Node(end, 0, 0.0)];
    if 1 != maxNodes && samples != [] {
      assert Offers(area, rows, cols, root, samples[0], end, euclid, steer) == [None];
      V2RunStuck(area, rows, cols, samples[1..], maxNodes, end, euclid, steer);
    }
  }

  /// A round whose first scan keeps the proposal of node `b` inserts the
  /// snapped proposal, which lies in the area.
  lemma V2StepSome(area: seq<U64>, rows: nat, cols: nat, nodes: seq<Node>, sample: Cell, end: Cell,
                   euclid: Euclid, steer: Steer, b: nat)
    requires |area| == rows * cols && AllInGrid(nodes, rows, cols) && InGrid(sample, rows, cols)
    requires InGrid(end, rows, cols) && SteerOk(steer)
    requires Nearest(Offers(area, rows, cols, nodes, sample, end, euclid, steer)) == Some(b)
    ensures b < |nodes|
    ensures var pos := Snap(GetNewPosition(euclid, steer, nodes[b].pos, sample, StepDistance).0, GetRange(end, EndPosition), end);
      InGrid(pos, rows, cols) &&
      V2Step(area, rows, cols, nodes, sample, end, euclid, steer) ==
        Rewired(area, rows, cols, nodes + [Attached(area, rows, cols, nodes, pos, euclid)], euclid)
  {
    NewPositionBetween(euclid, steer, nodes[b].pos, sample, StepDistance, rows, cols);
  }

  /// The second half of a round of `rrt_v2` (tree.rs:197-223): attach a
  /// node at `pos` to the node with the shortest path through a free line,
  /// append it, and rewire the nodes around it through it.
  method Insert(area: array<U64>, rows: nat, cols: nat, nodes: seq<Node>, pos: Cell, euclid: Euclid)
    returns (grown: seq<Node>)
    requires area.Length == rows * cols && AllInGrid(nodes, rows, cols) && InGrid(pos, rows, cols)
    ensures grown == Rewired(area[..], rows, cols, nodes + [Attached(area[..], rows, cols, nodes, pos, euclid)], euclid)
  {
    var parent, distance := Attach(area, rows, cols, nodes, pos, euclid);
    var newNode := Node(pos, parent, distance);
    assert newNode == Attached(area[..], rows, cols, nodes, pos, euclid);
    var appended := nodes + [newNode];
    grown := Rewire(area, rows, cols, appended, newNode, |appended| - 1, euclid);
    assert appended[|appended| - 1] == newNode;
    RewiredIs(area[..], rows, cols, appended, euclid, grown);
  }

  /// One round of `rrt_v2` (tree.rs:176-223): the first scan toward the
  /// sample, and when it keeps a proposal, attaching it, appending it and
  /// rewiring around it. The tree stays an RRT* tree, grows by at most one
  /// node, keeps every node's position and lengthens no path.
  method GrowV2(area: array<U64>, rows: nat, cols: nat, nodes: seq<Node>, start: Cell, end: Cell, sample: Cell,
                euclid: Euclid, steer: Steer)
    returns (grown: seq<Node>)
    requires area.Length == rows * cols && V2Tree(area[..], rows, cols, nodes, start, end, euclid)
    requires InGrid(sample, rows, cols) && InGrid(end, rows, cols) && SteerOk(steer) && EuclidOk(euclid)
    ensures grown == V2Step(area[..], rows, cols, nodes, sample, end, euclid, steer)
    ensures V2Tree(area[..], rows, cols, grown, start, end, euclid)
    ensures |nodes| <= |grown| <= |nodes| + 1
    ensures |grown| == |nodes| + 1 <==> Nearest(Offers(area[..], rows, cols, nodes, sample, end, euclid, steer)).Some?
    ensures forall k :: 0 <= k < |nodes| ==> grown[k].pos == nodes[k].pos && grown[k].distance <= nodes[k].distance
  {
    var finishRange := GetRange(end, EndPosition);
    var lastDistance, from, pos := Scan(area, rows, cols, nodes, sample, end, finishRange, euclid, steer);
    V2StepKeeps(area[..], rows, cols, nodes, start, end, sample, euclid, steer);
    grown := nodes;
    if lastDistance.Some? {
      V2StepSome(area[..], rows, cols, nodes, sample, end, euclid, steer, from);
      grown := Insert(area, rows, cols, nodes, pos, euclid);
    }
  }

  /// tree.rs `rrt_v2`: like `rrt_v1`, but the new node takes as parent the
  /// node with the shortest path through a free line, and the nodes around
  /// it are rewired through it when that shortens their paths.
  method RrtV2(area: array<U64>, rows: nat, cols: nat, start: Cell, end: Cell, samples: seq<Cell>,
               euclid: Euclid, steer: Steer)
    returns (result: TreeResult, nodes: seq<Node>, ghost route: seq<nat>)
    requires area.Length == rows * cols && InGrid(start, rows, cols) && InGrid(end, rows, cols)
    requires forall i :: 0 <= i < |samples| ==> InGrid(samples[i], rows, cols)
    requires SteerOk(steer) && EuclidOk(euclid)
    ensures nodes == V2Run(area[..], rows, cols, [Node(start, 0, 0.0)], samples, Budget(area.Length), end, euclid, steer)
    ensures V2Tree(area[..], rows, cols, nodes, start, end, euclid)
    ensures Budget(area.Length) >= 1 ==> |nodes| <= Budget(area.Length)
    ensures |nodes| <= |samples| + 1
    ensures result.tree == Edges(nodes) && PathOf(nodes, end, result.path, route)
  {
    var maxNodes := Budget(area.Length);
    nodes := [Node(start, 0, 0.0)];
    ghost var whole := V2Run(area[..], rows, cols, nodes, samples, maxNodes, end, euclid, steer);
    var i := 0;
    assert samples[i..] == samples;
    while |nodes| != maxNodes && i < |samples|
      invariant i <= |samples| && |nodes| <= i + 1
      invariant V2Tree(area[..], rows, cols, nodes, start, end, euclid)
      invariant maxNodes >= 1 ==> |nodes| <= maxNodes
      invariant whole == V2Run(area[..], rows, cols, nodes, samples[i..], maxNodes, end, euclid, steer)
      decreases |samples| - i
    {
      V2RunStep(area[..], rows, cols, nodes, samples, i, maxNodes, end, euclid, steer);
      nodes := GrowV2(area, rows, cols, nodes, start, end, samples[i], euclid, steer);
      i := i + 1;
    }
    var path;
    path, route := FindPath(end, nodes);
    result := TreeResult(path, Edges(nodes));
  }
}
