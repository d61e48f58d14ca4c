/// The first tree planner of rrt.rs (`v1`): the same growth as RRT in
/// tree.rs, with three differences. Nodes carry no path length. A node at
/// `end` may still grow the tree. The step toward the sample always goes
/// through the steering, over the step length or the whole distance if
/// that is shorter. The choice of a proposal also records whether it was
/// snapped onto `end`, and the planner notes when the end was first
/// reached. The edges are drawn as (row, column, parent row, parent
/// column) tuples. The path is read back by the same walk as in tree.rs.
module Rrt {
  import opened Grid
  import opened LineOfSight
  import Tree

  const MaxNodes: nat := 16383
  const MaxDistance: real := 10.0
  /// Radius of the box around `end` inside which a proposal snaps to `end`.
  const EndPosition: nat := 5

  /// A node of the tree: its cell and the index of its parent.
  datatype Node = Node(pos: Cell, parent: nat)

  /// The path from the end back to the start, and one edge per node.
  datatype RrtResult = RrtResult(path: seq<Cell>, tree: seq<(nat, nat, nat, nat)>)

  /// rrt.rs `get_new_position`: the point the step length toward the
  /// sample, or the whole distance when that is shorter, together with the
  /// distance to the sample.
  function GetNewPosition(euclid: Tree.Euclid, steer: Tree.Steer, start: Cell, direction: Cell, stepSize: real): (Cell, real)
  {
    var distance := euclid(start, direction);
    (steer(start, direction, if stepSize < distance then stepSize else distance), distance)
  }

  /// The new position lies in the box spanned by the node and the sample,
  /// so inside the area when both are.
  lemma NewPositionBetween(euclid: Tree.Euclid, steer: Tree.Steer, start: Cell, direction: Cell, stepSize: real, rows: nat, cols: nat)
    requires Tree.SteerOk(steer)
    ensures var r := GetNewPosition(euclid, steer, start, direction, stepSize);
      && Between(r.0.0, start.0, direction.0) && Between(r.0.1, start.1, direction.1)
      && (InGrid(start, rows, cols) && InGrid(direction, rows, cols) ==> InGrid(r.0, rows, cols))
      && r.1 == euclid(start, direction)
  {
    var step := if stepSize < euclid(start, direction) then stepSize else euclid(start, direction);
    assert Between(steer(start, direction, step).0, start.0, direction.0);
  }

  ghost predicate AllInGrid(nodes: seq<Node>, rows: nat, cols: nat)
  {
    forall k :: 0 <= k < |nodes| ==> InGrid(nodes[k].pos, rows, cols)
  }

  /// What a node at `from` offers toward `sample`: the distance to the
  /// sample, when the line to its new position is free.
  ghost function Offer(area: seq<U64>, rows: nat, cols: nat, from: Cell, sample: Cell,
                       euclid: Tree.Euclid, steer: Tree.Steer): Option<real>
    requires |area| == rows * cols && InGrid(from, rows, cols) && InGrid(sample, rows, cols) && Tree.SteerOk(steer)
  {
    var r := GetNewPosition(euclid, steer, from, sample, MaxDistance);
    NewPositionBetween(euclid, steer, from, sample, MaxDistance, rows, cols);
    if CollisionFree(area, rows, cols, from, r.0) then Some(r.1) else None
  }

  ghost function Offers(area: seq<U64>, rows: nat, cols: nat, nodes: seq<Node>, sample: Cell,
                        euclid: Tree.Euclid, steer: Tree.Steer): (r: seq<Option<real>>)
    requires |area| == rows * cols && AllInGrid(nodes, rows, cols) && InGrid(sample, rows, cols) && Tree.SteerOk(steer)
    ensures |r| == |nodes|
    ensures forall k :: 0 <= k < |nodes| ==> r[k] == Offer(area, rows, cols, nodes[k].pos, sample, euclid, steer)
  {
    seq(|nodes|, k requires 0 <= k < |nodes| => Offer(area, rows, cols, nodes[k].pos, sample, euclid, steer))
  }

  /// The state the scan holds once it has chosen `b`: the distance
  /// offered, the parent, the (snapped) new position and whether it was
  /// snapped; its initial state when nothing is chosen.
  ghost function Pick(nodes: seq<Node>, offers: seq<Option<real>>, sample: Cell, end: Cell, finishRange: Tree.Range,
                      euclid: Tree.Euclid, steer: Tree.Steer, b: Option<nat>): (Option<real>, nat, Cell, bool)
    requires |offers| == |nodes| && (b.Some? ==> b.value < |nodes|)
  {
    match b
    case None => (None, 0, (0, 0), false)
    case Some(i) =>
      var p := GetNewPosition(euclid, steer, nodes[i].pos, sample, MaxDistance).0;
      (offers[i], i, Tree.Snap(p, finishRange, end), Tree.IsInRange(p, finishRange))
  }

  /// The scan of rrt.rs `v1` (68-87): every node proposes a step toward
  /// the sample; the proposal of the first node nearest the sample among
  /// those with a free line is kept, snapped onto `end` when it lands in
  /// `finishRange`, and `replaced` tells whether it was snapped.
  method Scan(area: array<U64>, rows: nat, cols: nat, nodes: seq<Node>, sample: Cell, end: Cell,
              finishRange: Tree.Range, euclid: Tree.Euclid, steer: Tree.Steer)
    returns (lastDistance: Option<real>, parent: nat, pos: Cell, replaced: bool)
    requires area.Length == rows * cols && AllInGrid(nodes, rows, cols) && InGrid(sample, rows, cols)
    requires Tree.SteerOk(steer)
    ensures var offers := Offers(area[..], rows, cols, nodes, sample, euclid, steer);
      match Tree.Nearest(offers)
      case None => lastDistance == None && parent == 0 && pos == (0, 0) && !replaced
      case Some(b) =>
        var p := GetNewPosition(euclid, steer, nodes[b].pos, sample, MaxDistance).0;
        lastDistance == offers[b] && parent == b &&
        pos == Tree.Snap(p, finishRange, end) && replaced == Tree.IsInRange(p, finishRange)
  {
    ghost var offers := Offers(area[..], rows, cols, nodes, sample, euclid, steer);
    lastDistance, parent, pos, replaced := None, 0, (0, 0), false;
    for key := 0 to |nodes|
      invariant (lastDistance, parent, pos, replaced) ==
        Pick(nodes, offers, sample, end, finishRange, euclid, steer, Tree.Nearest(offers[..key]))
    {
      Tree.NearestSnoc(offers, key);
      var node := nodes[key];
      var (newPos, newDistance) := GetNewPosition(euclid, steer, node.pos, sample, MaxDistance);
      NewPositionBetween(euclid, steer, node.pos, sample, MaxDistance, rows, cols);
      assert offers[key].Some? ==> offers[key] == Some(newDistance);
      if Tree.Exceeds(lastDistance, newDistance) {
        var free := IsCollisionFree(area, rows, cols, node.pos, newPos);
        if free {
          lastDistance := Some(newDistance);
          parent := key;
          replaced := Tree.IsInRange(newPos, finishRange);
          pos := if replaced then end else newPos;
        }
      }
    }
    assert offers[..|nodes|] == offers;
  }

  /// The scan chooses, among the nodes whose step toward the sample has a
  /// free line, one nearest the sample, the first such in the arena; it
  /// chooses none only when there is no such node.
  lemma ScanChoosesNearest(area: seq<U64>, rows: nat, cols: nat, nodes: seq<Node>, sample: Cell,
                           euclid: Tree.Euclid, steer: Tree.Steer)
    requires |area| == rows * cols && AllInGrid(nodes, rows, cols) && InGrid(sample, rows, cols) && Tree.SteerOk(steer)
    ensures var offers := Offers(area, rows, cols, nodes, sample, euclid, steer);
      var b := Tree.Nearest(offers);
      (b.None? <==> forall k :: 0 <= k < |nodes| ==> offers[k].None?) &&
      (b.Some? ==>
        offers[b.value] == Some(euclid(nodes[b.value].pos, sample)) &&
        forall k :: 0 <= k < |nodes| && offers[k].Some? ==>
          euclid(nodes[b.value].pos, sample) <= euclid(nodes[k].pos, sample) &&
          (k < b.value ==> euclid(nodes[b.value].pos, sample) < euclid(nodes[k].pos, sample)))
  {
    var offers := Offers(area, rows, cols, nodes, sample, euclid, steer);
    Tree.NearestIsFirstMinimum(offers);
    forall k | 0 <= k < |nodes| && offers[k].Some?
      ensures offers[k] == Some(euclid(nodes[k].pos, sample))
    {
      NewPositionBetween(euclid, steer, nodes[k].pos, sample, MaxDistance, rows, cols);
    }
  }

  /// The edge from a node at `from` to the node the scan made of its
  /// proposal: either the line to it is free and it lies outside the box
  /// around `end`, or it is `end` itself, snapped from a proposal in the
  /// box to which the line is free. The line from `from` to `end` itself is
  /// never tested.
  ghost predicate GrownEdge(area: seq<U64>, rows: nat, cols: nat, from: Cell, to: Cell, end: Cell)
    requires |area| == rows * cols && InGrid(from, rows, cols) && InGrid(to, rows, cols)
  {
    var finishRange := Tree.GetRange(end, EndPosition);
    (to != end ==> !Tree.IsInRange(to, finishRange) && CollisionFree(area, rows, cols, from, to)) &&
    (to == end ==> exists q :: InGrid(q, rows, cols) && Tree.IsInRange(q, finishRange) && CollisionFree(area, rows, cols, from, q))
  }

  /// The tree rrt.rs `v1` grows: the root is the start, every node lies in
  /// the area, every other node's parent was added before it and it hangs
  /// off it by a grown edge.
  ghost predicate Grown(area: seq<U64>, rows: nat, cols: nat, nodes: seq<Node>, start: Cell, end: Cell)
    requires |area| == rows * cols
  {
    |nodes| >= 1 && nodes[0] == Node(start, 0) && AllInGrid(nodes, rows, cols) &&
    forall k :: 0 < k < |nodes| ==>
      nodes[k].parent < k && GrownEdge(area, rows, cols, nodes[nodes[k].parent].pos, nodes[k].pos, end)
  }

  /// Appending a node in the area hanging off an earlier node by a grown
  /// edge keeps the tree.
  lemma Extend(area: seq<U64>, rows: nat, cols: nat, nodes: seq<Node>, start: Cell, end: Cell, c: Node)
    requires |area| == rows * cols && Grown(area, rows, cols, nodes, start, end)
    requires InGrid(c.pos, rows, cols) && c.parent < |nodes|
    requires GrownEdge(area, rows, cols, nodes[c.parent].pos, c.pos, end)
    ensures Grown(area, rows, cols, nodes + [c], start, end)
  {
    var nodes' := nodes + [c];
    forall k | 0 < k < |nodes'|
      ensures nodes'[k].parent < k
      ensures GrownEdge(area, rows, cols, nodes'[nodes'[k].parent].pos, nodes'[k].pos, end)
    {
      if k < |nodes| {
        assert nodes'[k] == nodes[k] && nodes'[nodes[k].parent] == nodes[nodes[k].parent];
      }
    }
  }

  /// Adding the node the scan chose keeps the tree; the proposal was
  /// snapped exactly when the new node is at `end`.
  lemma Grow(area: seq<U64>, rows: nat, cols: nat, nodes: seq<Node>, start: Cell, end: Cell,
             sample: Cell, euclid: Tree.Euclid, steer: Tree.Steer, b: nat)
    requires |area| == rows * cols && Grown(area, rows, cols, nodes, start, end)
    requires InGrid(sample, rows, cols) && InGrid(end, rows, cols) && Tree.SteerOk(steer)
    requires Tree.Nearest(Offers(area, rows, cols, nodes, sample, euclid, steer)) == Some(b)
    ensures b < |nodes|
    ensures var p := GetNewPosition(euclid, steer, nodes[b].pos, sample, MaxDistance).0;
      var pos := Tree.Snap(p, Tree.GetRange(end, EndPosition), end);
      Grown(area, rows, cols, nodes + [Node(pos, b)], start, end) &&
      (Tree.IsInRange(p, Tree.GetRange(end, EndPosition)) <==> pos == end)
  {
    var finishRange := Tree.GetRange(end, EndPosition);
    var from := nodes[b].pos;
    var p := GetNewPosition(euclid, steer, from, sample, MaxDistance).0;
    NewPositionBetween(euclid, steer, from, sample, MaxDistance, rows, cols);
    var offers := Offers(area, rows, cols, nodes, sample, euclid, steer);
    assert offers[b].Some?;
    assert CollisionFree(area, rows, cols, from, p);
    Tree.RangeIsBox(end, EndPosition, end);
    var pos := Tree.Snap(p, finishRange, end);
    if pos == end {
      assert InGrid(p, rows, cols) && Tree.IsInRange(p, finishRange);
    }
    Extend(area, rows, cols, nodes, start, end, Node(pos, b));
  }

  /// One round of rrt.rs `v1` on `sample` (57-96): with a proposal from
  /// the scan, the tree gains the node at its snapped position, hanging off
  /// the node that proposed it; without one, it stays as it is.
  ghost function Step(area: seq<U64>, rows: nat, cols: nat, nodes: seq<Node>, sample: Cell, end: Cell,
                      euclid: Tree.Euclid, steer: Tree.Steer): (r: seq<Node>)
    requires |area| == rows * cols && AllInGrid(nodes, rows, cols) && InGrid(sample, rows, cols)
    requires InGrid(end, rows, cols) && Tree.SteerOk(steer)
    ensures AllInGrid(r, rows, cols) && |nodes| <= |r| <= |nodes| + 1 && r[..|nodes|] == nodes
  {
    match Tree.Nearest(Offers(area, rows, cols, nodes, sample, euclid, steer))
    case None => nodes
    case Some(b) =>
      NewPositionBetween(euclid, steer, nodes[b].pos, sample, MaxDistance, rows, cols);
      var p := GetNewPosition(euclid, steer, nodes[b].pos, sample, MaxDistance).0;
      nodes + [Node(Tree.Snap(p, Tree.GetRange(end, EndPosition), end), b)]
  }

  /// The rounds of rrt.rs `v1` over the samples, one each, until the tree
  /// holds `maxNodes` nodes or the samples run out.
  ghost function Run(area: seq<U64>, rows: nat, cols: nat, nodes: seq<Node>, samples: seq<Cell>, maxNodes: nat,
                     end: Cell, euclid: Tree.Euclid, steer: Tree.Steer): (r: seq<Node>)
    requires |area| == rows * cols && AllInGrid(nodes, rows, cols) && InGrid(end, rows, cols) && Tree.SteerOk(steer)
    requires forall i :: 0 <= i < |samples| ==> InGrid(samples[i], rows, cols)
    ensures AllInGrid(r, rows, cols) && |nodes| <= |r| <= |nodes| + |samples| && r[..|nodes|] == nodes
    decreases |samples|
  {
    if |nodes| == maxNodes || samples == [] then nodes
    else
      var next := Step(area, rows, cols, nodes, samples[0], end, euclid, steer);
      var r := Run(area, rows, cols, next, samples[1..], maxNodes, end, euclid, steer);
      assert r[..|nodes|] == r[..|next|][..|nodes|];
      r
  }

  /// A run from sample `i` on that has not stopped is the round on sample
  /// `i` followed by the run from sample `i + 1` on.
  lemma RunStep(area: seq<U64>, rows: nat, cols: nat, nodes: seq<Node>, samples: seq<Cell>, i: nat, maxNodes: nat,
                end: Cell, euclid: Tree.Euclid, steer: Tree.Steer)
    requires |area| == rows * cols && AllInGrid(nodes, rows, cols) && InGrid(end, rows, cols) && Tree.SteerOk(steer)
    requires forall i :: 0 <= i < |samples| ==> InGrid(samples[i], rows, cols)
    requires |nodes| != maxNodes && i < |samples|
    ensures Run(area, rows, cols, nodes, samples[i..], maxNodes, end, euclid, steer) ==
      Run(area, rows, cols, Step(area, rows, cols, nodes, samples[i], end, euclid, steer), samples[i + 1..], maxNodes, end, euclid, steer)
  {
    assert samples[i..][0] == samples[i] && samples[i..][1..] == samples[i + 1..];
  }

  /// Every run of rounds from a grown tree ends in a grown tree, and never
  /// grows it beyond `maxNodes` nodes when it started within them.
  lemma {:induction false} RunGrown(area: seq<U64>, rows: nat, cols: nat, nodes: seq<Node>, start: Cell, end: Cell,
                                    samples: seq<Cell>, maxNodes: nat, euclid: Tree.Euclid, steer: Tree.Steer)
    requires |area| == rows * cols && Grown(area, rows, cols, nodes, start, end) && InGrid(end, rows, cols)
    requires forall i :: 0 <= i < |samples| ==> InGrid(samples[i], rows, cols)
    requires Tree.SteerOk(steer)
    ensures var r := Run(area, rows, cols, nodes, samples, maxNodes, end, euclid, steer);
      Grown(area, rows, cols, r, start, end) && (|nodes| <= maxNodes ==> |r| <= maxNodes)
    decreases |samples|
  {
    if |nodes| != maxNodes && samples != [] {
      var b := Tree.Nearest(Offers(area, rows, cols, nodes, samples[0], euclid, steer));
      if b.Some? {
        Grow(area, rows, cols, nodes, start, end, samples[0], euclid, steer, b.value);
      }
      var next := Step(area, rows, cols, nodes, samples[0], end, euclid, steer);
      RunGrown(area, rows, cols, next, start, end, samples[1..], maxNodes, euclid, steer);
      assert Run(area, rows, cols, nodes, samples, maxNodes, end, euclid, steer) ==
        Run(area, rows, cols, next, samples[1..], maxNodes, end, euclid, steer);
    } else {
      assert Run(area, rows, cols, nodes, samples, maxNodes, end, euclid, steer) == nodes;
    }
  }

  /// Some node other than the root is at `end`.
  ghost predicate Reached(nodes: seq<Node>, end: Cell)
  {
    exists k :: 1 <= k < |nodes| && nodes[k].pos == end
  }

  /// Appending a node reaches `end` when it is at `end` or some earlier
  /// node other than the root was.
  lemma ReachedSnoc(nodes: seq<Node>, end: Cell, c: Node)
    requires |nodes| >= 1
    ensures Reached(nodes + [c], end) <==> Reached(nodes, end) || c.pos == end
  {
    var nodes' := nodes + [c];
    if Reached(nodes, end) {
      var k :| 1 <= k < |nodes| && nodes[k].pos == end;
      assert nodes'[k] == nodes[k];
    }
    if c.pos == end {
      assert nodes'[|nodes|] == c;
    }
    if Reached(nodes', end) {
      var k :| 1 <= k < |nodes'| && nodes'[k].pos == end;
      if k < |nodes| {
        assert nodes'[k] == nodes[k];
      }
    }
  }

  /// The nodes as tree.rs nodes with path length 0: rrt.rs `find_path` is
  /// the same walk as tree.rs `find_path`.
  function AsTreeNodes(nodes: seq<Node>): (r: seq<Tree.Node>)
    ensures |r| == |nodes|
    ensures forall k :: 0 <= k < |nodes| ==> r[k] == Tree.Node(nodes[k].pos, nodes[k].parent, 0.0)
  {
    seq(|nodes|, k requires 0 <= k < |nodes| => Tree.Node(nodes[k].pos, nodes[k].parent, 0.0))
  }

  /// A grown tree can be walked back: its parents come before their
  /// children.
  lemma GrownRanked(area: seq<U64>, rows: nat, cols: nat, nodes: seq<Node>, start: Cell, end: Cell)
    requires |area| == rows * cols && Grown(area, rows, cols, nodes, start, end)
    ensures Tree.Ranked(AsTreeNodes(nodes))
  {
  }

  /// The edges drawn for the tree, one (row, column, parent row, parent
  /// column) tuple per node; the root's goes from the start to itself.
  function Edges(nodes: seq<Node>): (r: seq<(nat, nat, nat, nat)>)
    requires forall k :: 0 <= k < |nodes| ==> nodes[k].parent < |nodes|
    ensures |r| == |nodes|
  {
    seq(|nodes|, k requires 0 <= k < |nodes| =>
      (nodes[k].pos.0, nodes[k].pos.1, nodes[nodes[k].parent].pos.0, nodes[nodes[k].parent].pos.1))
  }

  /// Each step of the path is an edge of the tree, listed from the node
  /// the walk was at, and each step away from a node other than the root
  /// is a grown edge run the other way.
  lemma PathFollowsEdges(area: seq<U64>, rows: nat, cols: nat, nodes: seq<Node>, start: Cell, end: Cell,
                         path: seq<Cell>, route: seq<nat>)
    requires |area| == rows * cols && Grown(area, rows, cols, nodes, start, end)
    requires Tree.PathOf(AsTreeNodes(nodes), end, path, route)
    ensures forall j :: 0 <= j < |path| - 1 ==>
      Edges(nodes)[route[j]] == (path[j].0, path[j].1, path[j + 1].0, path[j + 1].1)
    ensures forall j :: 0 <= j < |path| - 1 && route[j] != 0 ==>
      InGrid(path[j], rows, cols) && InGrid(path[j + 1], rows, cols) &&
      GrownEdge(area, rows, cols, path[j + 1], path[j], end)
  {
  }

  /// One round of rrt.rs `v1` (57-96): the scan toward the sample and,
  /// when it keeps a proposal, pushing the new node; `snapped` tells
  /// whether the proposal was snapped onto `end`, which happens exactly
  /// when the round reaches `end` for the first time or again.
  method Round(area: array<U64>, rows: nat, cols: nat, nodes: seq<Node>, start: Cell, end: Cell, sample: Cell,
               euclid: Tree.Euclid, steer: Tree.Steer)
    returns (grown: seq<Node>, snapped: bool)
    requires area.Length == rows * cols && Grown(area[..], rows, cols, nodes, start, end)
    requires InGrid(sample, rows, cols) && InGrid(end, rows, cols) && Tree.SteerOk(steer)
    ensures grown == Step(area[..], rows, cols, nodes, sample, end, euclid, steer)
    ensures Grown(area[..], rows, cols, grown, start, end)
    ensures snapped ==> |grown| == |nodes| + 1 && grown[|nodes|].pos == end
    ensures Reached(grown, end) <==> Reached(nodes, end) || snapped
  {
    var lastDistance, parent, pos, replaced := Scan(area, rows, cols, nodes, sample, end, Tree.GetRange(end, EndPosition), euclid, steer);
    grown, snapped := nodes, false;
    if lastDistance.Some? {
      Grow(area[..], rows, cols, nodes, start, end, sample, euclid, steer, parent);
      ReachedSnoc(nodes, end, Node(pos, parent));
      grown := nodes + [Node(pos, parent)];
      snapped := replaced;
    }
  }

  /// rrt.rs `v1`: grow the tree one sample at a time until it holds the
  /// node budget (or the samples run out), noting whether a proposal was
  /// ever snapped onto `end`, then read back the path and the edges.
  method V1(area: array<U64>, rows: nat, cols: nat, start: Cell, end: Cell, samples: seq<Cell>,
            euclid: Tree.Euclid, steer: Tree.Steer)
    returns (result: RrtResult, nodes: seq<Node>, foundEnd: bool, ghost route: seq<nat>)
    requires area.Length == rows * cols && InGrid(start, rows, cols) && InGrid(end, rows, cols)
    requires forall i :: 0 <= i < |samples| ==> InGrid(samples[i], rows, cols)
    requires Tree.SteerOk(steer)
    ensures nodes == Run(area[..], rows, cols, [Node(start, 0)], samples, Tree.Budget(area.Length), end, euclid, steer)
    ensures Grown(area[..], rows, cols, nodes, start, end)
    ensures Tree.Budget(area.Length) >= 1 ==> |nodes| <= Tree.Budget(area.Length)
    ensures |nodes| <= |samples| + 1
    ensures foundEnd <==> Reached(nodes, end)
    ensures result.tree == Edges(nodes) && Tree.PathOf(AsTreeNodes(nodes), end, result.path, route)
  {
    var maxNodes := Tree.Budget(area.Length);
    nodes := [Node(start, 0)];
    foundEnd := false;
    ghost var whole := Run(area[..], rows, cols, nodes, samples, maxNodes, end, euclid, steer);
    var i := 0;
    assert samples[i..] == samples;
    while |nodes| != maxNodes && i < |samples|
      invariant i <= |samples| && |nodes| <= i + 1
      invariant Grown(area[..], rows, cols, nodes, start, end)
      invariant maxNodes >= 1 ==> |nodes| <= maxNodes
      invariant foundEnd <==> Reached(nodes, end)
      invariant whole == Run(area[..], rows, cols, nodes, samples[i..], maxNodes, end, euclid, steer)
      decreases |samples| - i
    {
      RunStep(area[..], rows, cols, nodes, samples, i, maxNodes, end, euclid, steer);
      var snapped;
      nodes, snapped := Round(area, rows, cols, nodes, start, end, samples[i], euclid, steer);
      if !foundEnd && snapped {
        foundEnd := true;
      }
      i := i + 1;
    }
    GrownRanked(area[..], rows, cols, nodes, start, end);
    var path;
    path, route := Tree.FindPath(end, AsTreeNodes(nodes));
    result := RrtResult(path, Edges(nodes));
  }
}
