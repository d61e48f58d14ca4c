/// The grassfire planner: a wave of labels spreads from the end cell
/// (label 1) over the free cells, each newly reached cell getting its
/// neighbour's label plus one; the path is then read back from the start by
/// always stepping to a 4-neighbour whose label is one lower.
module Grassfire {
  import opened Grid

  predicate Labelled(v: nat)
  {
    0 < v < Wall
  }

  /// The value stored for cell `c`.
  function At(s: seq<U64>, rows: nat, cols: nat, c: Cell): U64
    requires |s| == rows * cols && InGrid(c, rows, cols)
  {
    s[Index(c, rows, cols)]
  }

  /// Indices of the cells that carry no label yet.
  function Zeros(s: seq<U64>): set<nat>
  {
    set i | 0 <= i < |s| && s[i] == 0
  }

  /// `d` is one of the (up to four) in-grid orthogonal neighbours of `c`.
  predicate Neighbour(c: Cell, d: Cell, rows: nat, cols: nat)
  {
    InGrid(c, rows, cols) && InGrid(d, rows, cols) && Adjacent4(c, d)
  }

  /// Some neighbour of `c` carries the label of `c` minus one.
  ghost predicate HasLower(s: seq<U64>, rows: nat, cols: nat, c: Cell)
    requires |s| == rows * cols && InGrid(c, rows, cols)
  {
    exists d :: Neighbour(c, d, rows, cols) && At(s, rows, cols, d) + 1 == At(s, rows, cols, c)
  }

  /// A labelled cell all of whose neighbours have been reached.
  ghost predicate Settled(s: seq<U64>, rows: nat, cols: nat, c: Cell)
    requires |s| == rows * cols && InGrid(c, rows, cols)
  {
    Labelled(At(s, rows, cols, c)) ==>
      forall d :: Neighbour(c, d, rows, cols) ==> At(s, rows, cols, d) != 0
  }

  /// The wave can spread no further.
  ghost predicate Closed(s: seq<U64>, rows: nat, cols: nat)
    requires |s| == rows * cols
  {
    forall c :: InGrid(c, rows, cols) ==> Settled(s, rows, cols, c)
  }

  /// What every state of the wave satisfies, relative to the area `orig` the
  /// caller handed in: the end cell carries label 1 and is the only one to;
  /// obstacles stay obstacles; every label above 1 sits next to its
  /// predecessor; and each label is at most the number of cells already
  /// reached, which keeps every label below u64::MAX.
  ghost predicate Wave(s: seq<U64>, orig: seq<U64>, rows: nat, cols: nat, end: Cell)
  {
    |s| == rows * cols && |orig| == rows * cols && rows * cols < Wall && InGrid(end, rows, cols) &&
    EndOnly(s, rows, cols, end) && KeepsWalls(s, orig, rows, cols, end) &&
    Descending(s, rows, cols) && Bounded(s)
  }

  /// The end cell carries label 1, and no other cell does.
  ghost predicate EndOnly(s: seq<U64>, rows: nat, cols: nat, end: Cell)
    requires |s| == rows * cols && InGrid(end, rows, cols)
  {
    forall i :: 0 <= i < |s| ==> (s[i] == 1 <==> i == Index(end, rows, cols))
  }

  /// Apart from the end cell, the obstacles are those of `orig`.
  ghost predicate KeepsWalls(s: seq<U64>, orig: seq<U64>, rows: nat, cols: nat, end: Cell)
    requires |s| == rows * cols && |orig| == rows * cols && InGrid(end, rows, cols)
  {
    forall i :: 0 <= i < |s| && i != Index(end, rows, cols) ==> (s[i] == Wall <==> orig[i] == Wall)
  }

  /// Every label above 1 sits next to its predecessor.
  ghost predicate Descending(s: seq<U64>, rows: nat, cols: nat)
    requires |s| == rows * cols
  {
    forall c {:trigger HasLower(s, rows, cols, c)} :: InGrid(c, rows, cols) && 1 < At(s, rows, cols, c) < Wall ==> HasLower(s, rows, cols, c)
  }

  /// No label exceeds the number of cells reached so far.
  ghost predicate Bounded(s: seq<U64>)
  {
    forall i :: 0 <= i < |s| && s[i] != Wall ==> s[i] + |Zeros(s)| <= |s|
  }

  /// An obstacle-free 4-connected walk through the grid.
  ghost predicate Walk(s: seq<U64>, rows: nat, cols: nat, w: seq<Cell>)
    requires |s| == rows * cols
  {
    |w| > 0 &&
    (forall i :: 0 <= i < |w| ==> InGrid(w[i], rows, cols) && At(s, rows, cols, w[i]) != Wall) &&
    (forall i :: 0 <= i < |w| - 1 ==> Neighbour(w[i], w[i + 1], rows, cols))
  }

  // ---------------------------------------------------------------------
  // Reading the path back

  /// One step of the path read-back, with the bounds checks the read-back
  /// evidently intends: below, above, right, left, taking the first
  /// neighbour whose label is one lower; no step from an unlabelled cell,
  /// the end cell or an obstacle.
  function Descend(s: seq<U64>, rows: nat, cols: nat, c: Cell): (r: Option<Cell>)
    requires |s| == rows * cols && InGrid(c, rows, cols)
    ensures r.Some? ==>
      Neighbour(c, r.value, rows, cols) && 1 < At(s, rows, cols, c) < Wall &&
      At(s, rows, cols, r.value) + 1 == At(s, rows, cols, c)
  {
    var v := At(s, rows, cols, c);
    if v == 0 || v == 1 || v == Wall then None
    else if c.0 + 1 < rows && At(s, rows, cols, (c.0 + 1, c.1)) == v - 1 then Some((c.0 + 1, c.1))
    else if c.0 > 0 && At(s, rows, cols, (c.0 - 1, c.1)) == v - 1 then Some((c.0 - 1, c.1))
    else if c.1 + 1 < cols && At(s, rows, cols, (c.0, c.1 + 1)) == v - 1 then Some((c.0, c.1 + 1))
    else if c.1 > 0 && At(s, rows, cols, (c.0, c.1 - 1)) == v - 1 then Some((c.0, c.1 - 1))
    else None
  }

  /// `path` is the read-back from `start`: every cell is followed by the
  /// step `Descend` takes from it, and the last cell admits no step.
  predicate DescentPath(s: seq<U64>, rows: nat, cols: nat, start: Cell, path: seq<Cell>)
    requires |s| == rows * cols
  {
    |path| > 0 && path[0] == start &&
    (forall k :: 0 <= k < |path| ==> InGrid(path[k], rows, cols)) &&
    (forall k :: 0 <= k < |path| - 1 ==>
       InGrid(path[k], rows, cols) && Descend(s, rows, cols, path[k]) == Some(path[k + 1])) &&
    InGrid(path[|path| - 1], rows, cols) && Descend(s, rows, cols, path[|path| - 1]).None?
  }

  /// The in-grid 4-neighbours of a cell are the one below, the one above,
  /// the one to the right and the one to the left.
  lemma NeighbourCases(c: Cell, d: Cell, rows: nat, cols: nat)
    requires Neighbour(c, d, rows, cols)
    ensures (c.0 + 1 < rows && d == (c.0 + 1, c.1)) || (c.0 > 0 && d == (c.0 - 1, c.1)) ||
            (c.1 + 1 < cols && d == (c.0, c.1 + 1)) || (c.1 > 0 && d == (c.0, c.1 - 1))
  {
  }

  /// The read-back stops exactly at unlabelled cells, the end label, obstacles
  /// and cells without a neighbour one label lower.
  lemma DescendNone(s: seq<U64>, rows: nat, cols: nat, c: Cell)
    requires |s| == rows * cols && InGrid(c, rows, cols)
    ensures Descend(s, rows, cols, c).None? <==>
      (At(s, rows, cols, c) in {0, 1, Wall} || !HasLower(s, rows, cols, c))
  {
    var v := At(s, rows, cols, c);
    if Descend(s, rows, cols, c).Some? {
      var d := Descend(s, rows, cols, c).value;
      assert Neighbour(c, d, rows, cols) && At(s, rows, cols, d) + 1 == v;
    } else if v !in {0, 1, Wall} && HasLower(s, rows, cols, c) {
      var d :| Neighbour(c, d, rows, cols) && At(s, rows, cols, d) + 1 == v;
      NeighbourCases(c, d, rows, cols);
      assert false;
    }
  }

  /// The read-back loop: record the current cell, stop where `Descend`
  /// finds no step, move otherwise. The area is only read.
  method FindPath(area: seq<U64>, rows: nat, cols: nat, start: Cell) returns (path: seq<Cell>)
    requires |area| == rows * cols && InGrid(start, rows, cols)
    ensures DescentPath(area, rows, cols, start, path)
    ensures At(area, rows, cols, start) in {0, 1, Wall} ==> path == [start]
  {
    var cell := start;
    path := [];
    while true
      invariant InGrid(cell, rows, cols)
      invariant if |path| == 0 then cell == start else path[0] == start
      invariant forall k :: 0 <= k < |path| ==> InGrid(path[k], rows, cols)
      invariant forall k :: 0 <= k < |path| - 1 ==>
        InGrid(path[k], rows, cols) && Descend(area, rows, cols, path[k]) == Some(path[k + 1])
      invariant |path| > 0 ==> Descend(area, rows, cols, path[|path| - 1]) == Some(cell)
      invariant At(area, rows, cols, start) in {0, 1, Wall} ==> path == []
      decreases At(area, rows, cols, cell)
    {
      path := path + [cell];
      match Descend(area, rows, cols, cell)
      case None =>
        break;
      case Some(next) =>
        cell := next;
    }
  }

  /// Along the read-back the label drops by exactly one per step.
  lemma {:induction false} DescentLabels(s: seq<U64>, rows: nat, cols: nat, start: Cell, path: seq<Cell>, k: nat)
    requires |s| == rows * cols && DescentPath(s, rows, cols, start, path)
    requires Labelled(At(s, rows, cols, start)) && k < |path|
    ensures At(s, rows, cols, path[k]) + k == At(s, rows, cols, start)
    ensures Labelled(At(s, rows, cols, path[k]))
    ensures k < |path| - 1 ==> Neighbour(path[k], path[k + 1], rows, cols)
  {
    if k > 0 {
      DescentLabels(s, rows, cols, start, path, k - 1);
    }
  }

  /// On a wave, the read-back from a reached start is an obstacle-free walk
  /// that ends on the end cell, one cell per label.
  lemma ReadBackReachesEnd(s: seq<U64>, orig: seq<U64>, rows: nat, cols: nat, start: Cell, end: Cell, path: seq<Cell>)
    requires Wave(s, orig, rows, cols, end) && DescentPath(s, rows, cols, start, path)
    requires Labelled(At(s, rows, cols, start))
    ensures path[|path| - 1] == end
    ensures |path| == At(s, rows, cols, start)
    ensures Walk(s, rows, cols, path)
  {
    forall k | 0 <= k < |path|
      ensures At(s, rows, cols, path[k]) + k == At(s, rows, cols, start)
      ensures Labelled(At(s, rows, cols, path[k]))
      ensures k < |path| - 1 ==> Neighbour(path[k], path[k + 1], rows, cols)
    {
      DescentLabels(s, rows, cols, start, path, k);
    }
    var last := path[|path| - 1];
    DescendNone(s, rows, cols, last);
    assert At(s, rows, cols, last) == 1;
    IndexInjective(last, end, rows, cols);
  }

  // ---------------------------------------------------------------------
  // The read-back as written

  /// Outcome of one read-back step as written: stop, move, or an index
  /// past the end of the area (a panic).
  datatype Step = Halt | Move(to: Cell) | OutOfBounds

  /// One read-back step with the bounds checks as written, `row < rows` and
  /// `col < cols`, which hold for every cell of the grid, so the look-ahead
  /// below the last row or right of the last column is not prevented.
  function StepAsWritten(s: seq<U64>, rows: nat, cols: nat, p: Cell): (r: Step)
    ensures r.Move? ==> Adjacent4(p, r.to)
    ensures p.1 * rows + p.0 >= |s| ==> r == OutOfBounds
  {
    var here := p.1 * rows + p.0;
    if here >= |s| then OutOfBounds
    else
      var v := s[here];
      if v == 0 || v == 1 || v == Wall then Halt
      else if p.0 < rows && here + 1 >= |s| then OutOfBounds
      else if p.0 < rows && s[here + 1] == v - 1 then Move((p.0 + 1, p.1))
      else if p.0 > 0 && s[here - 1] == v - 1 then Move((p.0 - 1, p.1))
      else if p.1 < cols && (p.1 + 1) * rows + p.0 >= |s| then OutOfBounds
      else if p.1 < cols && s[(p.1 + 1) * rows + p.0] == v - 1 then Move((p.0, p.1 + 1))
      else if p.1 > 0 && LeftValue(s, rows, p) == v - 1 then Move((p.0, p.1 - 1))
      else Halt
  }

  /// The value left of `p`, which lies before `p` in the area.
  function LeftValue(s: seq<U64>, rows: nat, p: Cell): nat
    requires p.1 > 0 && p.1 * rows + p.0 < |s|
  {
    MulMonotone(p.1 - 1, p.1, rows);
    s[(p.1 - 1) * rows + p.0]
  }

  /// Away from the last row and the last column the step as written and the
  /// corrected step agree.
  lemma AsWrittenAgreesInside(s: seq<U64>, rows: nat, cols: nat, p: Cell)
    requires |s| == rows * cols && InGrid(p, rows, cols)
    requires p.0 + 1 < rows && p.1 + 1 < cols
    ensures StepAsWritten(s, rows, cols, p) ==
      (if Descend(s, rows, cols, p).Some? then Move(Descend(s, rows, cols, p).value) else Halt)
  {
    MulBelow(p.1 + 1, cols, rows);
    assert (p.1 + 1) * rows + p.0 == Index((p.0, p.1 + 1), rows, cols);
  }

  /// On a two-row, one-column grid with the end on top, the only labelling a
  /// wave that reached the bottom cell can leave is [1, 2].
  lemma TwoByOneWave(s: seq<U64>, orig: seq<U64>)
    requires Wave(s, orig, 2, 1, (0, 0)) && Fresh(orig)
    requires At(orig, 2, 1, (1, 0)) == 0 && At(s, 2, 1, (1, 0)) != 0
    ensures s == [1, 2]
  {
    assert s[1] == At(s, 2, 1, (1, 0));
    assert 1 < s[1] < Wall;
    assert HasLower(s, 2, 1, (1, 0));
    var d :| Neighbour((1, 0), d, 2, 1) && At(s, 2, 1, d) + 1 == At(s, 2, 1, (1, 0));
    assert d == (0, 0);
  }

  /// Reading back from the bottom cell of that grid runs the as-written step
  /// past the end of the area, where the corrected step moves to the end.
  lemma AsWrittenReadsPastEnd()
    ensures StepAsWritten([1, 2], 2, 1, (1, 0)) == OutOfBounds
    ensures Descend([1, 2], 2, 1, (1, 0)) == Some((0, 0))
  {
  }

  // ---------------------------------------------------------------------
  // Facts about writing one label

  lemma AtUpdate(s: seq<U64>, rows: nat, cols: nat, p: Cell, v: U64, c: Cell)
    requires |s| == rows * cols && InGrid(p, rows, cols) && InGrid(c, rows, cols)
    ensures At(s[Index(p, rows, cols) := v], rows, cols, c) == if c == p then v else At(s, rows, cols, c)
  {
    IndexInjective(c, p, rows, cols);
  }

  /// At most the cells other than a labelled one can be unlabelled.
  lemma ZerosCard(s: seq<U64>, j: nat)
    requires j < |s| && s[j] != 0
    ensures |Zeros(s)| + 1 <= |s|
  {
    SubsetCard(Zeros(s), Below(|s|) - {j});
    assert |Below(|s|) - {j}| == |s| - 1;
  }

  /// Labelling an unlabelled cell removes exactly that cell from the
  /// unlabelled ones.
  lemma WriteZeros(s: seq<U64>, j: nat, v: U64)
    requires j < |s| && s[j] == 0 && v != 0
    ensures Zeros(s[j := v]) == Zeros(s) - {j}
    ensures |Zeros(s[j := v])| + 1 == |Zeros(s)|
  {
    assert j in Zeros(s);
  }

  /// A label no larger than one plus the bound of the labels already there
  /// keeps the labels bounded.
  lemma WriteBounded(s: seq<U64>, j: nat, v: U64)
    requires Bounded(s) && j < |s| && s[j] == 0 && v != 0
    requires v + |Zeros(s)| <= |s| + 1
    ensures Bounded(s[j := v])
  {
    WriteZeros(s, j, v);
  }

  /// A label written next to its predecessor keeps every label above 1 next
  /// to its own predecessor.
  lemma WriteDescending(s: seq<U64>, rows: nat, cols: nat, c: Cell, p: Cell)
    requires |s| == rows * cols && Descending(s, rows, cols)
    requires Neighbour(c, p, rows, cols) && At(s, rows, cols, p) == 0 && Labelled(At(s, rows, cols, c))
    requires At(s, rows, cols, c) + 1 <= Wall
    ensures Descending(s[Index(p, rows, cols) := At(s, rows, cols, c) + 1], rows, cols)
  {
    var v := At(s, rows, cols, c) + 1;
    var t := s[Index(p, rows, cols) := v];
    forall d | InGrid(d, rows, cols)
      ensures At(t, rows, cols, d) == if d == p then v else At(s, rows, cols, d)
    {
      AtUpdate(s, rows, cols, p, v, d);
    }
    forall d | InGrid(d, rows, cols) && 1 < At(t, rows, cols, d) < Wall
      ensures HasLower(t, rows, cols, d)
    {
      if d == p {
        assert Neighbour(p, c, rows, cols) && At(t, rows, cols, c) + 1 == At(t, rows, cols, p);
      } else {
        assert HasLower(s, rows, cols, d);
        var e :| Neighbour(d, e, rows, cols) && At(s, rows, cols, e) + 1 == At(s, rows, cols, d);
        assert Neighbour(d, e, rows, cols) && At(t, rows, cols, e) + 1 == At(t, rows, cols, d);
      }
    }
  }

  /// Writing a label above 1 into an unlabelled cell leaves the end the only
  /// cell labelled 1 and every obstacle in place.
  lemma WriteKeepsEnd(s: seq<U64>, orig: seq<U64>, rows: nat, cols: nat, end: Cell, p: Cell, v: U64)
    requires |s| == rows * cols && |orig| == rows * cols && InGrid(end, rows, cols) && InGrid(p, rows, cols)
    requires EndOnly(s, rows, cols, end) && KeepsWalls(s, orig, rows, cols, end)
    requires At(s, rows, cols, p) == 0 && 1 < v < Wall
    ensures EndOnly(s[Index(p, rows, cols) := v], rows, cols, end)
    ensures KeepsWalls(s[Index(p, rows, cols) := v], orig, rows, cols, end)
  {
    forall d | InGrid(d, rows, cols)
      ensures At(s[Index(p, rows, cols) := v], rows, cols, d) == if d == p then v else At(s, rows, cols, d)
    {
      AtUpdate(s, rows, cols, p, v, d);
    }
  }

  /// Writing a fresh label into an unlabelled neighbour of a labelled cell
  /// keeps the wave a wave and removes exactly that cell from the unlabelled
  /// ones; the new label stays below u64::MAX.
  lemma WriteLabel(s: seq<U64>, orig: seq<U64>, rows: nat, cols: nat, end: Cell, c: Cell, p: Cell)
    requires Wave(s, orig, rows, cols, end)
    requires Neighbour(c, p, rows, cols) && At(s, rows, cols, p) == 0 && Labelled(At(s, rows, cols, c))
    ensures At(s, rows, cols, c) + 1 < Wall
    ensures Wave(s[Index(p, rows, cols) := At(s, rows, cols, c) + 1], orig, rows, cols, end)
    ensures Zeros(s[Index(p, rows, cols) := At(s, rows, cols, c) + 1]) == Zeros(s) - {Index(p, rows, cols)}
  {
    var j := Index(p, rows, cols);
    var v := At(s, rows, cols, c) + 1;
    assert s[Index(c, rows, cols)] + |Zeros(s)| <= |s|;
    ZerosCard(s, Index(c, rows, cols));
    WriteZeros(s, j, v);
    WriteBounded(s, j, v);
    WriteDescending(s, rows, cols, c, p);
    WriteKeepsEnd(s, orig, rows, cols, end, p, v);
  }

  // ---------------------------------------------------------------------
  // Version 1: sweep the whole grid until the start is reached

  /// The wave as the caller's area with the end cell set to 1.
  lemma InitWave(orig: seq<U64>, rows: nat, cols: nat, end: Cell)
    requires |orig| == rows * cols && rows * cols < Wall && InGrid(end, rows, cols) && Fresh(orig)
    ensures Wave(orig[Index(end, rows, cols) := 1], orig, rows, cols, end)
  {
    var t := orig[Index(end, rows, cols) := 1];
    ZerosCard(t, Index(end, rows, cols));
    assert Zeros(t) <= Below(|t|);
    forall d | InGrid(d, rows, cols)
      ensures At(t, rows, cols, d) == if d == end then 1 else At(orig, rows, cols, d)
    {
      AtUpdate(orig, rows, cols, end, 1, d);
    }
  }

  /// The area while one cell spreads its label, and whether the sweep has
  /// written anything so far.
  datatype Spread = Spread(area: seq<U64>, changed: bool)

  /// Label cell `p` with `v` if it carries no value yet, and note the write.
  function Spill(r: Spread, rows: nat, cols: nat, p: Cell, v: U64): (t: Spread)
    requires |r.area| == rows * cols && InGrid(p, rows, cols)
    ensures |t.area| == |r.area|
  {
    if At(r.area, rows, cols, p) == 0 then Spread(r.area[Index(p, rows, cols) := v], true) else r
  }

  /// Spilling a labelled cell's label plus one into a neighbour keeps the
  /// wave a wave, leaves that neighbour labelled and the cell's own label
  /// alone, removes the neighbour from the unlabelled cells, and writes (and
  /// notes a change) exactly when the neighbour was unlabelled.
  lemma SpillWave(r: Spread, orig: seq<U64>, rows: nat, cols: nat, end: Cell, c: Cell, p: Cell)
    requires Wave(r.area, orig, rows, cols, end)
    requires Neighbour(c, p, rows, cols) && Labelled(At(r.area, rows, cols, c))
    ensures Wave(Spill(r, rows, cols, p, At(r.area, rows, cols, c) + 1).area, orig, rows, cols, end)
    ensures At(Spill(r, rows, cols, p, At(r.area, rows, cols, c) + 1).area, rows, cols, c) == At(r.area, rows, cols, c)
    ensures At(Spill(r, rows, cols, p, At(r.area, rows, cols, c) + 1).area, rows, cols, p) != 0
    ensures Zeros(Spill(r, rows, cols, p, At(r.area, rows, cols, c) + 1).area) == Zeros(r.area) - {Index(p, rows, cols)}
    ensures Spill(r, rows, cols, p, At(r.area, rows, cols, c) + 1).changed == (r.changed || At(r.area, rows, cols, p) == 0)
  {
    var s := r.area;
    AtUpdate(s, rows, cols, p, At(s, rows, cols, c) + 1, c);
    AtUpdate(s, rows, cols, p, At(s, rows, cols, c) + 1, p);
    if At(s, rows, cols, p) == 0 {
      WriteLabel(s, orig, rows, cols, end, c, p);
    } else {
      assert Index(p, rows, cols) !in Zeros(s);
    }
  }

  /// The neighbours above, below, left and right of a cell, where the grid
  /// has them.
  function Up(c: Cell): Option<Cell>
  {
    if c.0 > 0 then Some((c.0 - 1, c.1)) else None
  }

  function Down(c: Cell, rows: nat): Option<Cell>
  {
    if c.0 + 1 < rows then Some((c.0 + 1, c.1)) else None
  }

  function Left(c: Cell): Option<Cell>
  {
    if c.1 > 0 then Some((c.0, c.1 - 1)) else None
  }

  function Right(c: Cell, cols: nat): Option<Cell>
  {
    if c.1 + 1 < cols then Some((c.0, c.1 + 1)) else None
  }

  /// Spill into a neighbour if there is one.
  function SpillTo(r: Spread, rows: nat, cols: nat, o: Option<Cell>, v: U64): (t: Spread)
    requires |r.area| == rows * cols && (o.Some? ==> InGrid(o.value, rows, cols))
    ensures |t.area| == |r.area|
  {
    match o
    case None => r
    case Some(p) => Spill(r, rows, cols, p, v)
  }

  /// Spill into two neighbours, one after the other.
  function SpillPair(r: Spread, rows: nat, cols: nat, o1: Option<Cell>, o2: Option<Cell>, v: U64): (t: Spread)
    requires |r.area| == rows * cols
    requires (o1.Some? ==> InGrid(o1.value, rows, cols)) && (o2.Some? ==> InGrid(o2.value, rows, cols))
    ensures |t.area| == |r.area|
  {
    SpillTo(SpillTo(r, rows, cols, o1, v), rows, cols, o2, v)
  }

  /// One cell of the sweep: a labelled cell labels its unlabelled neighbours
  /// above, below, left and right, in that order, with its label plus one.
  /// Obstacles and unlabelled cells spread nothing.
  function Relax(s: seq<U64>, rows: nat, cols: nat, c: Cell): (r: Spread)
    requires |s| == rows * cols && InGrid(c, rows, cols)
    ensures |r.area| == |s|
  {
    var v := At(s, rows, cols, c);
    if v == Wall || v == 0 then Spread(s, false)
    else
      var r2 := SpillPair(Spread(s, false), rows, cols, Up(c), Down(c, rows), v + 1);
      SpillPair(r2, rows, cols, Left(c), Right(c, cols), v + 1)
  }

  /// Every cell that carried a value in `s0` (a label or an obstacle) still
  /// carries the same value in `t`: cells are written only while they hold 0.
  ghost predicate KeepsLabels(s0: seq<U64>, t: seq<U64>)
  {
    |t| == |s0| && forall i :: 0 <= i < |s0| && s0[i] != 0 ==> t[i] == s0[i]
  }

  /// How a spread compares with the area `s0` it started from: it has only
  /// labelled cells and never rewrote a value, and it has labelled at least
  /// one exactly when it notes a change.
  ghost predicate Progress(r: Spread, s0: seq<U64>)
  {
    KeepsLabels(s0, r.area) &&
    Zeros(r.area) <= Zeros(s0) &&
    (r.changed ==> Zeros(r.area) < Zeros(s0)) &&
    (!r.changed ==> r.area == s0)
  }

  /// One step of `Relax` keeps the wave a wave and the progress honest,
  /// leaves the spreading cell's label alone, only labels cells, and leaves
  /// the neighbour labelled.
  lemma SpillToWave(r: Spread, s0: seq<U64>, orig: seq<U64>, rows: nat, cols: nat, end: Cell, c: Cell, o: Option<Cell>)
    requires Wave(r.area, orig, rows, cols, end) && Progress(r, s0)
    requires InGrid(c, rows, cols) && Labelled(At(r.area, rows, cols, c))
    requires o.Some? ==> Neighbour(c, o.value, rows, cols)
    ensures Wave(SpillTo(r, rows, cols, o, At(r.area, rows, cols, c) + 1).area, orig, rows, cols, end)
    ensures Progress(SpillTo(r, rows, cols, o, At(r.area, rows, cols, c) + 1), s0)
    ensures At(SpillTo(r, rows, cols, o, At(r.area, rows, cols, c) + 1).area, rows, cols, c) == At(r.area, rows, cols, c)
    ensures Zeros(SpillTo(r, rows, cols, o, At(r.area, rows, cols, c) + 1).area) <= Zeros(r.area)
    ensures r.changed ==> SpillTo(r, rows, cols, o, At(r.area, rows, cols, c) + 1).changed
    ensures o.Some? ==> At(SpillTo(r, rows, cols, o, At(r.area, rows, cols, c) + 1).area, rows, cols, o.value) != 0
  {
    if o.Some? {
      SpillWave(r, orig, rows, cols, end, c, o.value);
      if At(r.area, rows, cols, o.value) == 0 {
        assert Index(o.value, rows, cols) in Zeros(r.area);
      }
    }
  }

  /// Two successive steps of `Relax`.
  lemma SpillTwiceWave(r: Spread, s0: seq<U64>, orig: seq<U64>, rows: nat, cols: nat, end: Cell, c: Cell,
                       o1: Option<Cell>, o2: Option<Cell>)
    requires Wave(r.area, orig, rows, cols, end) && Progress(r, s0)
    requires InGrid(c, rows, cols) && Labelled(At(r.area, rows, cols, c))
    requires o1.Some? ==> Neighbour(c, o1.value, rows, cols)
    requires o2.Some? ==> Neighbour(c, o2.value, rows, cols)
    ensures var t := SpillPair(r, rows, cols, o1, o2, At(r.area, rows, cols, c) + 1);
      Wave(t.area, orig, rows, cols, end) && Progress(t, s0) &&
      At(t.area, rows, cols, c) == At(r.area, rows, cols, c) &&
      Zeros(t.area) <= Zeros(r.area) && (r.changed ==> t.changed) &&
      (o1.Some? ==> At(t.area, rows, cols, o1.value) != 0) &&
      (o2.Some? ==> At(t.area, rows, cols, o2.value) != 0)
  {
    var v := At(r.area, rows, cols, c);
    SpillToWave(r, s0, orig, rows, cols, end, c, o1);
    var r1 := SpillTo(r, rows, cols, o1, v + 1);
    SpillToWave(r1, s0, orig, rows, cols, end, c, o2);
    if o1.Some? {
      assert Index(o1.value, rows, cols) !in Zeros(r1.area);
    }
  }

  /// Relaxing a cell keeps the wave a wave and only labels cells; it notes a
  /// change exactly when it labelled some cell, and when it notes none, the
  /// cell is settled.
  lemma RelaxWave(s: seq<U64>, orig: seq<U64>, rows: nat, cols: nat, end: Cell, c: Cell)
    requires Wave(s, orig, rows, cols, end) && InGrid(c, rows, cols)
    ensures Wave(Relax(s, rows, cols, c).area, orig, rows, cols, end)
    ensures Progress(Relax(s, rows, cols, c), s)
    ensures !Relax(s, rows, cols, c).changed ==> Settled(s, rows, cols, c)
  {
    var v := At(s, rows, cols, c);
    if Labelled(v) {
      var r2 := SpillPair(Spread(s, false), rows, cols, Up(c), Down(c, rows), v + 1);
      var r4 := SpillPair(r2, rows, cols, Left(c), Right(c, cols), v + 1);
      assert Relax(s, rows, cols, c) == r4;
      RelaxLabelledWave(s, orig, rows, cols, end, c, r2, r4);
      if !r4.changed {
        SettledByNeighbours(s, rows, cols, c);
      }
    } else {
      assert Relax(s, rows, cols, c) == Spread(s, false);
    }
  }

  /// `RelaxWave` for a labelled cell, whose relaxation passes through `r2`
  /// after the spills up and down and ends in `r4`; when nothing changed,
  /// all four neighbours already carried a value.
  lemma RelaxLabelledWave(s: seq<U64>, orig: seq<U64>, rows: nat, cols: nat, end: Cell, c: Cell, r2: Spread, r4: Spread)
    requires Wave(s, orig, rows, cols, end) && InGrid(c, rows, cols) && Labelled(At(s, rows, cols, c))
    requires r2 == SpillPair(Spread(s, false), rows, cols, Up(c), Down(c, rows), At(s, rows, cols, c) + 1)
    requires |r2.area| == |s| && r4 == SpillPair(r2, rows, cols, Left(c), Right(c, cols), At(s, rows, cols, c) + 1)
    ensures Wave(r4.area, orig, rows, cols, end)
    ensures Progress(r4, s)
    ensures !r4.changed ==> NeighboursReached(s, rows, cols, c)
  {
    SpillTwiceWave(Spread(s, false), s, orig, rows, cols, end, c, Up(c), Down(c, rows));
    SpillTwiceWave(r2, s, orig, rows, cols, end, c, Left(c), Right(c, cols));
  }

  /// Each of the four neighbours of `c` that lies inside the area carries a
  /// value.
  ghost predicate NeighboursReached(s: seq<U64>, rows: nat, cols: nat, c: Cell)
    requires |s| == rows * cols && InGrid(c, rows, cols)
  {
    (Up(c).Some? ==> At(s, rows, cols, Up(c).value) != 0) &&
    (Down(c, rows).Some? ==> At(s, rows, cols, Down(c, rows).value) != 0) &&
    (Left(c).Some? ==> At(s, rows, cols, Left(c).value) != 0) &&
    (Right(c, cols).Some? ==> At(s, rows, cols, Right(c, cols).value) != 0)
  }

  /// A cell whose four neighbours all carry a value is settled.
  lemma SettledByNeighbours(s: seq<U64>, rows: nat, cols: nat, c: Cell)
    requires |s| == rows * cols && InGrid(c, rows, cols) && NeighboursReached(s, rows, cols, c)
    ensures Settled(s, rows, cols, c)
  {
    forall d | Neighbour(c, d, rows, cols)
      ensures At(s, rows, cols, d) != 0
    {
      NeighbourCases(c, d, rows, cols);
    }
  }

  /// Label cell `p` with `v` if it carries no value yet; `changed` is set
  /// when it does.
  method SpillCell(area: array<U64>, rows: nat, cols: nat, p: Cell, v: U64, changed: bool) returns (changed': bool)
    requires area.Length == rows * cols && InGrid(p, rows, cols)
    modifies area
    ensures Spread(area[..], changed') == Spill(Spread(old(area[..]), changed), rows, cols, p, v)
  {
    changed' := changed;
    if area[Index(p, rows, cols)] == 0 {
      area[Index(p, rows, cols)] := v;
      changed' := true;
    }
  }

  /// The body of the inner sweep loop for the cell (row, col).
  method RelaxCell(area: array<U64>, rows: nat, cols: nat, row: nat, col: nat) returns (changed: bool)
    requires area.Length == rows * cols && row < rows && col < cols
    modifies area
    ensures Spread(area[..], changed) == Relax(old(area[..]), rows, cols, (row, col))
  {
    changed := false;
    var fieldVal := area[Index((row, col), rows, cols)];
    if fieldVal < Wall && fieldVal > 0 {
      if row > 0 {
        changed := SpillCell(area, rows, cols, (row - 1, col), fieldVal + 1, changed);
      }
      if row + 1 < rows {
        changed := SpillCell(area, rows, cols, (row + 1, col), fieldVal + 1, changed);
      }
      if col > 0 {
        changed := SpillCell(area, rows, cols, (row, col - 1), fieldVal + 1, changed);
      }
      if col + 1 < cols {
        changed := SpillCell(area, rows, cols, (row, col + 1), fieldVal + 1, changed);
      }
    }
  }

  /// Progress composes: two spreads one after the other make one spread
  /// that changed something if either did.
  lemma ProgressTrans(s0: seq<U64>, s1: seq<U64>, s2: seq<U64>, c1: bool, c2: bool)
    requires Progress(Spread(s1, c1), s0) && Progress(Spread(s2, c2), s1)
    ensures Progress(Spread(s2, c1 || c2), s0)
  {
  }

  /// The visit of cell (row, col) in sweep number `pass`.
  method SweepCell(area: array<U64>, rows: nat, cols: nat, row: nat, col: nat,
                   ghost orig: seq<U64>, ghost end: Cell, ghost pass: nat)
    returns (changed: bool)
    requires row < rows && col < cols && Wave(area[..], orig, rows, cols, end)
    requires Timed(area[..], rows, cols, end, pass * (rows * cols) + row * cols + col)
    modifies area
    ensures Wave(area[..], orig, rows, cols, end)
    ensures Timed(area[..], rows, cols, end, pass * (rows * cols) + row * cols + col + 1)
    ensures Progress(Spread(area[..], changed), old(area[..]))
    ensures !changed ==> Settled(old(area[..]), rows, cols, (row, col))
  {
    RelaxWave(area[..], orig, rows, cols, end, (row, col));
    RelaxTimed(area[..], orig, rows, cols, end, (row, col), pass);
    changed := RelaxCell(area, rows, cols, row, col);
  }

  /// One row of a sweep: the cells of row `row`, column by column, in
  /// sweep number `pass`, which started from the area `passStart`.
  method SweepRow(area: array<U64>, rows: nat, cols: nat, row: nat, changed: bool,
                  ghost passStart: seq<U64>, ghost orig: seq<U64>, ghost end: Cell, ghost pass: nat)
    returns (changed': bool)
    requires row < rows && Wave(area[..], orig, rows, cols, end)
    requires Timed(area[..], rows, cols, end, pass * (rows * cols) + row * cols)
    requires Progress(Spread(area[..], changed), passStart)
    requires !changed ==> forall c: Cell :: InGrid(c, rows, cols) && c.0 < row ==> Settled(passStart, rows, cols, c)
    modifies area
    ensures Wave(area[..], orig, rows, cols, end)
    ensures Timed(area[..], rows, cols, end, pass * (rows * cols) + (row + 1) * cols)
    ensures Progress(Spread(area[..], changed'), passStart)
    ensures changed ==> changed'
    ensures !changed' ==> forall c: Cell :: InGrid(c, rows, cols) && c.0 <= row ==> Settled(passStart, rows, cols, c)
  {
    changed' := changed;
    for col: nat := 0 to cols
      invariant Wave(area[..], orig, rows, cols, end)
      invariant Timed(area[..], rows, cols, end, pass * (rows * cols) + row * cols + col)
      invariant Progress(Spread(area[..], changed'), passStart)
      invariant changed ==> changed'
      invariant !changed' ==> forall c: Cell :: InGrid(c, rows, cols) && (c.0 < row || (c.0 == row && c.1 < col)) ==>
        Settled(passStart, rows, cols, c)
    {
      ghost var before := area[..];
      var ch := SweepCell(area, rows, cols, row, col, orig, end, pass);
      ProgressTrans(passStart, before, area[..], changed', ch);
      changed' := changed' || ch;
    }
    assert row * cols + cols == (row + 1) * cols;
  }

  /// One sweep over every cell, row by row and, within a row, column by
  /// column; it is sweep number `pass`, counted from 0.
  method Sweep(area: array<U64>, rows: nat, cols: nat, ghost orig: seq<U64>, ghost end: Cell, ghost pass: nat)
    returns (changed: bool)
    requires Wave(area[..], orig, rows, cols, end) && Timed(area[..], rows, cols, end, pass * (rows * cols))
    modifies area
    ensures Wave(area[..], orig, rows, cols, end) && Timed(area[..], rows, cols, end, (pass + 1) * (rows * cols))
    ensures Progress(Spread(area[..], changed), old(area[..]))
    ensures changed ==> Zeros(area[..]) < old(Zeros(area[..]))
    ensures !changed ==> area[..] == old(area[..]) && Closed(area[..], rows, cols)
  {
    ghost var passStart := area[..];
    changed := false;
    for row: nat := 0 to rows
      invariant Wave(area[..], orig, rows, cols, end)
      invariant Timed(area[..], rows, cols, end, pass * (rows * cols) + row * cols)
      invariant Progress(Spread(area[..], changed), passStart)
      invariant !changed ==> forall c: Cell :: InGrid(c, rows, cols) && c.0 < row ==> Settled(passStart, rows, cols, c)
    {
      changed := SweepRow(area, rows, cols, row, changed, passStart, orig, end, pass);
    }
    assert pass * (rows * cols) + rows * cols == (pass + 1) * (rows * cols);
  }

  // ---------------------------------------------------------------------
  // Version 1: when each sweep writes which label

  /// The position of cell `c` in the order a sweep visits the cells: row by
  /// row and, within a row, column by column.
  function SweepOrder(c: Cell, cols: nat): nat
  {
    c.0 * cols + c.1
  }

  /// How far `c` lies from the end in the direction the sweep runs: one per
  /// row further down and one per column further right.
  function Ahead(c: Cell, end: Cell): int
  {
    (c.0 - end.0) + (c.1 - end.1)
  }

  /// The step from `c` to `d` runs against the sweep: up or to the left.
  predicate Against(c: Cell, d: Cell)
  {
    d.0 < c.0 || d.1 < c.1
  }

  /// The number of steps of `w` that run against the sweep.
  function Backs(w: seq<Cell>): nat
  {
    if |w| < 2 then 0
    else Backs(w[..|w| - 1]) + (if Against(w[|w| - 2], w[|w| - 1]) then 1 else 0)
  }

  /// The visit, counted over all sweeps from the first visit of the first
  /// one, at which the last cell of the walk `w` from the end spreads when
  /// its label came along `w`: every step against the sweep waits for the
  /// next sweep.
  function Due(w: seq<Cell>, rows: nat, cols: nat): nat
    requires |w| > 0
  {
    SweepOrder(w[|w| - 1], cols) + rows * cols * Backs(w)
  }

  /// The number of steps against the sweep on a walk of `v` cells from
  /// the end to `c`.
  function Lag(v: int, c: Cell, end: Cell): int
  {
    (v - 1 - Ahead(c, end)) / 2
  }

  /// The visit at which a cell labelled `v` spreads its label.
  function Ready(v: int, c: Cell, rows: nat, cols: nat, end: Cell): int
  {
    SweepOrder(c, cols) + rows * cols * Lag(v, c, end)
  }

  /// Every label is the length of some walk from the end: the label minus
  /// one is the distance ahead plus twice a number of steps against the
  /// sweep.
  ghost predicate LabelParity(s: seq<U64>, rows: nat, cols: nat, end: Cell)
    requires |s| == rows * cols
  {
    forall c :: InGrid(c, rows, cols) && Labelled(At(s, rows, cols, c)) ==>
      At(s, rows, cols, c) - 1 - Ahead(c, end) >= 0 && (At(s, rows, cols, c) - 1 - Ahead(c, end)) % 2 == 0
  }

  /// A neighbour of `c` one label lower spread its label before visit `t`.
  ghost predicate LowerBefore(s: seq<U64>, rows: nat, cols: nat, end: Cell, c: Cell, t: int)
    requires |s| == rows * cols && InGrid(c, rows, cols)
  {
    exists d :: Neighbour(c, d, rows, cols) && At(s, rows, cols, d) + 1 == At(s, rows, cols, c) &&
      Ready(At(s, rows, cols, d), d, rows, cols, end) < t
  }

  /// Every label above 1 was written before visit `t` by a neighbour that
  /// was spreading then.
  ghost predicate WrittenBefore(s: seq<U64>, rows: nat, cols: nat, end: Cell, t: int)
    requires |s| == rows * cols
  {
    forall c {:trigger LowerBefore(s, rows, cols, end, c, t)} ::
      InGrid(c, rows, cols) && 1 < At(s, rows, cols, c) < Wall ==> LowerBefore(s, rows, cols, end, c, t)
  }

  /// Every walk from the end whose next-to-last cell was due before visit
  /// `t` ends on a cell that carries a value no larger than the walk's
  /// length.
  ghost predicate ReachedBy(s: seq<U64>, rows: nat, cols: nat, end: Cell, t: int)
    requires |s| == rows * cols
  {
    forall w {:trigger Walk(s, rows, cols, w)} ::
      Walk(s, rows, cols, w) && |w| >= 2 && w[0] == end && Due(w[..|w| - 1], rows, cols) < t ==>
        At(s, rows, cols, w[|w| - 1]) != 0 && At(s, rows, cols, w[|w| - 1]) <= |w|
  }

  /// The state of version 1 just before visit `t`.
  ghost predicate Timed(s: seq<U64>, rows: nat, cols: nat, end: Cell, t: int)
  {
    |s| == rows * cols &&
    LabelParity(s, rows, cols, end) && WrittenBefore(s, rows, cols, end, t) && ReachedBy(s, rows, cols, end, t)
  }

  lemma SweepOrderBelow(c: Cell, rows: nat, cols: nat)
    requires InGrid(c, rows, cols)
    ensures SweepOrder(c, cols) < rows * cols
  {
    MulBelow(c.0, rows, cols);
  }

  /// Distinct in-grid cells come at distinct points of a sweep.
  lemma SweepOrderInjective(a: Cell, b: Cell, rows: nat, cols: nat)
    requires InGrid(a, rows, cols) && InGrid(b, rows, cols) && SweepOrder(a, cols) == SweepOrder(b, cols)
    ensures a == b
  {
    DivModOfIndex(a.0, a.1, cols);
    DivModOfIndex(b.0, b.1, cols);
  }

  /// A step down or to the right is one further ahead and comes later in the
  /// sweep; a step up or to the left is one less ahead and comes earlier.
  lemma NeighbourSides(c: Cell, d: Cell, rows: nat, cols: nat, end: Cell)
    requires Neighbour(c, d, rows, cols)
    ensures !Against(c, d) ==> Ahead(d, end) == Ahead(c, end) + 1 && SweepOrder(c, cols) < SweepOrder(d, cols)
    ensures Against(c, d) ==> Ahead(d, end) + 1 == Ahead(c, end) && SweepOrder(d, cols) < SweepOrder(c, cols)
  {
    if d.0 == c.0 + 1 {
      assert SweepOrder(d, cols) == SweepOrder(c, cols) + cols;
    } else if c.0 == d.0 + 1 {
      assert SweepOrder(c, cols) == SweepOrder(d, cols) + cols;
    }
  }

  lemma MulStep(n: nat, a: int, b: int)
    requires a < b
    ensures n * a + n <= n * b
  {
    assert n * b - n * a == n * (b - a);
    assert n * (b - a) - n == n * (b - a - 1);
  }

  /// Comparing two visits compares the sweeps first and the points within
  /// the sweep after.
  lemma VisitOrder(i: nat, j: nat, a: int, b: int, n: nat)
    requires i < n && j < n && i + n * a < j + n * b
    ensures a <= b && (a == b ==> i < j)
  {
    if b < a {
      MulStep(n, b, a);
    }
  }

  /// Along a walk every step spreads strictly later.
  lemma DueGrows(w: seq<Cell>, rows: nat, cols: nat)
    requires |w| >= 2 && Neighbour(w[|w| - 2], w[|w| - 1], rows, cols)
    ensures Due(w[..|w| - 1], rows, cols) < Due(w, rows, cols)
  {
    var u := w[..|w| - 1];
    assert u[|u| - 1] == w[|w| - 2];
    NeighbourSides(w[|w| - 2], w[|w| - 1], rows, cols, w[0]);
    SweepOrderBelow(w[|w| - 2], rows, cols);
    MulStep(rows * cols, Backs(u), Backs(u) + 1);
  }

  /// A walk from the end is one cell longer than its distance ahead plus
  /// twice its steps against the sweep.
  lemma {:induction false} WalkLength(s: seq<U64>, rows: nat, cols: nat, end: Cell, w: seq<Cell>)
    requires |s| == rows * cols && Walk(s, rows, cols, w) && w[0] == end
    ensures |w| == 1 + Ahead(w[|w| - 1], end) + 2 * Backs(w)
  {
    if |w| >= 2 {
      var u := w[..|w| - 1];
      assert Walk(s, rows, cols, u);
      WalkLength(s, rows, cols, end, u);
      assert u[|u| - 1] == w[|w| - 2];
      NeighbourSides(w[|w| - 2], w[|w| - 1], rows, cols, end);
    }
  }

  lemma MulMono(n: nat, a: int, b: int)
    requires a <= b
    ensures n * a <= n * b
  {
    if a < b {
      MulStep(n, a, b);
    }
  }

  /// Two visits are the same only at the same point of the same sweep.
  lemma VisitSame(i: nat, j: nat, a: int, b: int, n: nat)
    requires i < n && j < n && i + n * a == j + n * b
    ensures a == b && i == j
  {
    if a < b {
      MulStep(n, a, b);
    } else if b < a {
      MulStep(n, b, a);
    }
  }

  /// For a label of the right parity, `Lag` is exact.
  lemma LagExact(v: int, c: Cell, end: Cell)
    requires v - 1 - Ahead(c, end) >= 0 && (v - 1 - Ahead(c, end)) % 2 == 0
    ensures 2 * Lag(v, c, end) == v - 1 - Ahead(c, end) && Lag(v, c, end) >= 0
  {
  }

  /// The arithmetic of `ReadyByVisit`: a cell written from a neighbour
  /// earlier in the sweep waits as many sweeps as that neighbour, one
  /// written from a neighbour later in the sweep one sweep more.
  lemma ReadyArith(n: nat, oy: nat, od: nat, ly: int, ld: int, pass: nat)
    requires oy < n && od < n && ld >= 0 && od + n * ld < pass * n + oy
    requires (od < oy && ly == ld) || (oy < od && ly == ld + 1)
    ensures oy + n * ly <= pass * n + oy
  {
    VisitOrder(od, oy, ld, pass, n);
    MulMono(n, ly, pass);
  }

  /// The arithmetic of `LabelledBeforeVisit`: `d` and `y` are neighbours of
  /// `c`, and `d` spread before the visit of `y` in sweep `pass`.
  lemma ReachArith(n: nat, oy: nat, od: nat, oc: nat, ld: int, pass: nat, ay: int, ad: int, ac: int)
    requires oy < n && od < n && od + n * ld < pass * n + oy
    requires (ad == ac + 1 && oc < od) || (ad + 1 == ac && od < oc)
    requires (ay == ac + 1 && oc < oy) || (ay + 1 == ac && oy < oc)
    ensures ad + 2 * ld <= ay + 2 * pass
  {
    VisitOrder(od, oy, ld, pass, n);
  }

  /// The arithmetic of `TimedShortest`: `d` spread before sweep `pass`
  /// began, and the walk `w` through `u` was not due before then.
  lemma ShortestArith(n: nat, od: nat, ou: nat, ld: int, bu: nat, bw: nat, pass: nat, ad: int, ac: int, len: int)
    requires od < n && ou < n && od + n * ld < pass * n && ou + n * bu >= pass * n && bu <= bw
    requires ad <= ac + 1 && len == 1 + ac + 2 * bw
    ensures 2 + ad + 2 * ld <= len
  {
    VisitOrder(od, 0, ld, pass, n);
    if bu < pass {
      MulStep(n, bu, pass);
    }
  }

  /// Spilling changes at most its target, and that only while it holds 0.
  lemma SpillToValue(r: Spread, rows: nat, cols: nat, o: Option<Cell>, v: U64, c: Cell)
    requires |r.area| == rows * cols && (o.Some? ==> InGrid(o.value, rows, cols)) && InGrid(c, rows, cols)
    ensures At(SpillTo(r, rows, cols, o, v).area, rows, cols, c) ==
      if o == Some(c) && At(r.area, rows, cols, c) == 0 then v else At(r.area, rows, cols, c)
  {
    if o.Some? {
      AtUpdate(r.area, rows, cols, o.value, v, c);
    }
  }

  /// `t` is `s` after relaxing `y`: the neighbours of a labelled `y` that
  /// held 0 carry its label plus one, and every other cell is unchanged.
  ghost predicate Relaxed(s: seq<U64>, t: seq<U64>, rows: nat, cols: nat, y: Cell)
    requires |s| == rows * cols && InGrid(y, rows, cols)
  {
    |t| == |s| &&
    forall c :: InGrid(c, rows, cols) ==>
      At(t, rows, cols, c) ==
        if Labelled(At(s, rows, cols, y)) && Neighbour(y, c, rows, cols) && At(s, rows, cols, c) == 0
        then At(s, rows, cols, y) + 1 else At(s, rows, cols, c)
  }

  /// Spilling into two neighbours writes `v` into either of them that held 0.
  lemma SpillPairValue(r: Spread, rows: nat, cols: nat, o1: Option<Cell>, o2: Option<Cell>, v: U64, c: Cell)
    requires |r.area| == rows * cols && InGrid(c, rows, cols) && v != 0
    requires (o1.Some? ==> InGrid(o1.value, rows, cols)) && (o2.Some? ==> InGrid(o2.value, rows, cols))
    ensures At(SpillPair(r, rows, cols, o1, o2, v).area, rows, cols, c) ==
      if (o1 == Some(c) || o2 == Some(c)) && At(r.area, rows, cols, c) == 0 then v else At(r.area, rows, cols, c)
  {
    SpillToValue(r, rows, cols, o1, v, c);
    SpillToValue(SpillTo(r, rows, cols, o1, v), rows, cols, o2, v, c);
  }

  /// Relaxing a labelled `y` writes its label plus one into `c` exactly
  /// when `c` is a neighbour that held 0.
  lemma RelaxValue(s: seq<U64>, rows: nat, cols: nat, y: Cell, c: Cell)
    requires |s| == rows * cols && InGrid(y, rows, cols) && InGrid(c, rows, cols) && Labelled(At(s, rows, cols, y))
    ensures At(Relax(s, rows, cols, y).area, rows, cols, c) ==
      if Neighbour(y, c, rows, cols) && At(s, rows, cols, c) == 0 then At(s, rows, cols, y) + 1 else At(s, rows, cols, c)
  {
    var v := At(s, rows, cols, y);
    var r2 := SpillPair(Spread(s, false), rows, cols, Up(y), Down(y, rows), v + 1);
    var r4 := SpillPair(r2, rows, cols, Left(y), Right(y, cols), v + 1);
    assert Relax(s, rows, cols, y) == r4;
    SpillPairValue(Spread(s, false), rows, cols, Up(y), Down(y, rows), v + 1, c);
    SpillPairValue(r2, rows, cols, Left(y), Right(y, cols), v + 1, c);
    NeighbourOptions(y, c, rows, cols);
    var a := At(s, rows, cols, c);
    if Up(y) == Some(c) || Down(y, rows) == Some(c) {
      assert At(r2.area, rows, cols, c) == if a == 0 then v + 1 else a;
    } else {
      assert At(r2.area, rows, cols, c) == a;
    }
  }

  /// The in-grid 4-neighbours of `y` are exactly the cells above, below,
  /// left and right of it that the grid has.
  lemma NeighbourOptions(y: Cell, c: Cell, rows: nat, cols: nat)
    requires InGrid(y, rows, cols) && InGrid(c, rows, cols)
    ensures Neighbour(y, c, rows, cols) <==>
      (Up(y) == Some(c) || Down(y, rows) == Some(c) || Left(y) == Some(c) || Right(y, cols) == Some(c))
  {
    if Neighbour(y, c, rows, cols) {
      NeighbourCases(y, c, rows, cols);
    }
  }

  /// Relaxing `y` writes its label plus one into exactly those neighbours
  /// that held 0, and nowhere else.
  lemma RelaxValues(s: seq<U64>, rows: nat, cols: nat, y: Cell)
    requires |s| == rows * cols && InGrid(y, rows, cols)
    ensures Relaxed(s, Relax(s, rows, cols, y).area, rows, cols, y)
  {
    if Labelled(At(s, rows, cols, y)) {
      forall c | InGrid(c, rows, cols)
        ensures At(Relax(s, rows, cols, y).area, rows, cols, c) ==
          if Neighbour(y, c, rows, cols) && At(s, rows, cols, c) == 0 then At(s, rows, cols, y) + 1 else At(s, rows, cols, c)
      {
        RelaxValue(s, rows, cols, y, c);
      }
    } else {
      assert Relax(s, rows, cols, y).area == s;
    }
  }

  /// An obstacle-free walk stays one when only free cells change value.
  lemma WalkSameWalls(s: seq<U64>, t: seq<U64>, rows: nat, cols: nat, y: Cell, w: seq<Cell>)
    requires Bounded(s) && |s| == rows * cols && rows * cols < Wall && InGrid(y, rows, cols)
    requires Relaxed(s, t, rows, cols, y)
    ensures Walk(t, rows, cols, w) <==> Walk(s, rows, cols, w)
  {
    if Labelled(At(s, rows, cols, y)) {
      assert s[Index(y, rows, cols)] <= |s|;
    }
    forall c | InGrid(c, rows, cols)
      ensures At(t, rows, cols, c) == Wall <==> At(s, rows, cols, c) == Wall
    {
      if Labelled(At(s, rows, cols, y)) && Neighbour(y, c, rows, cols) && At(s, rows, cols, c) == 0 {
        ZerosCard(s, Index(y, rows, cols));
        assert Index(c, rows, cols) in Zeros(s);
      }
    }
    if Walk(t, rows, cols, w) != Walk(s, rows, cols, w) {
      var i :| 0 <= i < |w| && InGrid(w[i], rows, cols) && (At(t, rows, cols, w[i]) == Wall) != (At(s, rows, cols, w[i]) == Wall);
    }
  }

  /// A labelled cell has spread its label by the time the sweep visits it.
  lemma ReadyByVisit(s: seq<U64>, orig: seq<U64>, rows: nat, cols: nat, end: Cell, y: Cell, pass: nat)
    requires Wave(s, orig, rows, cols, end) && InGrid(y, rows, cols) && Labelled(At(s, rows, cols, y))
    requires Timed(s, rows, cols, end, pass * (rows * cols) + SweepOrder(y, cols))
    ensures Ready(At(s, rows, cols, y), y, rows, cols, end) <= pass * (rows * cols) + SweepOrder(y, cols)
  {
    var n := rows * cols;
    var t := pass * n + SweepOrder(y, cols);
    var v := At(s, rows, cols, y);
    if v == 1 {
      IndexInjective(y, end, rows, cols);
      assert Lag(v, y, end) == 0;
    } else {
      assert LowerBefore(s, rows, cols, end, y, t);
      var d :| Neighbour(y, d, rows, cols) && At(s, rows, cols, d) + 1 == v &&
        Ready(At(s, rows, cols, d), d, rows, cols, end) < t;
      LagExact(v, y, end);
      LagExact(At(s, rows, cols, d), d, end);
      NeighbourSides(y, d, rows, cols, end);
      SweepOrderBelow(y, rows, cols);
      SweepOrderBelow(d, rows, cols);
      ReadyArith(n, SweepOrder(y, cols), SweepOrder(d, cols), Lag(v, y, end), Lag(At(s, rows, cols, d), d, end), pass);
    }
  }

  /// Relaxing `y` keeps every label the length of a walk from the end.
  lemma RelaxParity(s: seq<U64>, t: seq<U64>, rows: nat, cols: nat, end: Cell, y: Cell)
    requires |s| == rows * cols && InGrid(y, rows, cols) && LabelParity(s, rows, cols, end)
    requires Relaxed(s, t, rows, cols, y)
    ensures LabelParity(t, rows, cols, end)
  {
    forall c | InGrid(c, rows, cols) && Labelled(At(t, rows, cols, c))
      ensures At(t, rows, cols, c) - 1 - Ahead(c, end) >= 0 && (At(t, rows, cols, c) - 1 - Ahead(c, end)) % 2 == 0
    {
      if Labelled(At(s, rows, cols, y)) && Neighbour(y, c, rows, cols) && At(s, rows, cols, c) == 0 {
        NeighbourSides(y, c, rows, cols, end);
      }
    }
  }

  /// A label written while visiting `y` was written by a spreading cell.
  lemma RelaxWritten(s: seq<U64>, t: seq<U64>, orig: seq<U64>, rows: nat, cols: nat, end: Cell, y: Cell, pass: nat)
    requires Wave(s, orig, rows, cols, end) && InGrid(y, rows, cols)
    requires Timed(s, rows, cols, end, pass * (rows * cols) + SweepOrder(y, cols))
    requires Relaxed(s, t, rows, cols, y)
    ensures WrittenBefore(t, rows, cols, end, pass * (rows * cols) + SweepOrder(y, cols) + 1)
  {
    var now := pass * (rows * cols) + SweepOrder(y, cols);
    forall c | InGrid(c, rows, cols) && 1 < At(t, rows, cols, c) < Wall
      ensures LowerBefore(t, rows, cols, end, c, now + 1)
    {
      if Labelled(At(s, rows, cols, y)) && Neighbour(y, c, rows, cols) && At(s, rows, cols, c) == 0 {
        ReadyByVisit(s, orig, rows, cols, end, y, pass);
        assert Neighbour(c, y, rows, cols) && At(t, rows, cols, y) + 1 == At(t, rows, cols, c);
      } else {
        assert LowerBefore(s, rows, cols, end, c, now);
        var d :| Neighbour(c, d, rows, cols) && At(s, rows, cols, d) + 1 == At(s, rows, cols, c) &&
          Ready(At(s, rows, cols, d), d, rows, cols, end) < now;
        assert At(t, rows, cols, d) == At(s, rows, cols, d);
      }
    }
  }

  /// A walk due at the visit of `y` in sweep `pass` ends at `y` and has
  /// `pass` steps against the sweep.
  lemma DueSplit(u: seq<Cell>, rows: nat, cols: nat, y: Cell, pass: nat)
    requires |u| > 0 && InGrid(u[|u| - 1], rows, cols) && InGrid(y, rows, cols)
    requires Due(u, rows, cols) == pass * (rows * cols) + SweepOrder(y, cols)
    ensures u[|u| - 1] == y && Backs(u) == pass
  {
    SweepOrderBelow(y, rows, cols);
    SweepOrderBelow(u[|u| - 1], rows, cols);
    VisitSame(SweepOrder(u[|u| - 1], cols), SweepOrder(y, cols), Backs(u), pass, rows * cols);
    SweepOrderInjective(u[|u| - 1], y, rows, cols);
  }

  /// A walk from the end that is due at the visit of `y` in sweep `pass`
  /// ends at `y`, has `pass` steps against the sweep, and `y` already
  /// carries a label no larger than its length.
  lemma DueAtVisit(s: seq<U64>, rows: nat, cols: nat, end: Cell, y: Cell, pass: nat, u: seq<Cell>)
    requires |s| == rows * cols && InGrid(y, rows, cols) && InGrid(end, rows, cols) && At(s, rows, cols, end) == 1
    requires ReachedBy(s, rows, cols, end, pass * (rows * cols) + SweepOrder(y, cols))
    requires Walk(s, rows, cols, u) && u[0] == end
    requires Due(u, rows, cols) == pass * (rows * cols) + SweepOrder(y, cols)
    ensures u[|u| - 1] == y && Backs(u) == pass
    ensures Labelled(At(s, rows, cols, y)) && At(s, rows, cols, y) <= |u|
  {
    DueSplit(u, rows, cols, y, pass);
    assert At(s, rows, cols, u[|u| - 1]) != Wall;
    if |u| >= 2 {
      DueGrows(u, rows, cols);
      assert At(s, rows, cols, u[|u| - 1]) != 0 && At(s, rows, cols, u[|u| - 1]) <= |u|;
    }
  }

  /// A cell labelled before the visit of `y` in sweep `pass` carries no more
  /// than one plus the length of a walk to its neighbour `y` that is due then.
  lemma LabelledBeforeVisit(s: seq<U64>, rows: nat, cols: nat, end: Cell, y: Cell, c: Cell, pass: nat, u: seq<Cell>)
    requires |s| == rows * cols && Neighbour(y, c, rows, cols) && LabelParity(s, rows, cols, end)
    requires 1 < At(s, rows, cols, c) < Wall
    requires LowerBefore(s, rows, cols, end, c, pass * (rows * cols) + SweepOrder(y, cols))
    requires Walk(s, rows, cols, u) && u[0] == end && u[|u| - 1] == y && Backs(u) == pass
    ensures At(s, rows, cols, c) <= |u| + 1
  {
    var d :| Neighbour(c, d, rows, cols) && At(s, rows, cols, d) + 1 == At(s, rows, cols, c) &&
      Ready(At(s, rows, cols, d), d, rows, cols, end) < pass * (rows * cols) + SweepOrder(y, cols);
    LagExact(At(s, rows, cols, d), d, end);
    WalkLength(s, rows, cols, end, u);
    SweepOrderBelow(y, rows, cols);
    SweepOrderBelow(d, rows, cols);
    NeighbourSides(c, d, rows, cols, end);
    NeighbourSides(c, y, rows, cols, end);
    ReachArith(rows * cols, SweepOrder(y, cols), SweepOrder(d, cols), SweepOrder(c, cols), Lag(At(s, rows, cols, d), d, end),
               pass, Ahead(y, end), Ahead(d, end), Ahead(c, end));
  }

  /// A walk whose next-to-last cell is due at the visit of `y` ends on a
  /// neighbour of `y` that carries a value no larger than the walk's length
  /// once `y` has been relaxed.
  lemma RelaxReachedOne(s: seq<U64>, t: seq<U64>, orig: seq<U64>, rows: nat, cols: nat, end: Cell, y: Cell, pass: nat,
                        w: seq<Cell>)
    requires Wave(s, orig, rows, cols, end) && InGrid(y, rows, cols)
    requires Timed(s, rows, cols, end, pass * (rows * cols) + SweepOrder(y, cols))
    requires Relaxed(s, t, rows, cols, y)
    requires Walk(s, rows, cols, w) && |w| >= 2 && w[0] == end
    requires Due(w[..|w| - 1], rows, cols) == pass * (rows * cols) + SweepOrder(y, cols)
    ensures At(t, rows, cols, w[|w| - 1]) != 0 && At(t, rows, cols, w[|w| - 1]) <= |w|
  {
    var u := w[..|w| - 1];
    var c := w[|w| - 1];
    assert u[|u| - 1] == w[|w| - 2];
    assert Walk(s, rows, cols, u);
    assert s[Index(end, rows, cols)] == 1;
    DueAtVisit(s, rows, cols, end, y, pass, u);
    assert Neighbour(y, c, rows, cols);
    if At(s, rows, cols, c) != 0 && At(s, rows, cols, c) != 1 {
      assert LowerBefore(s, rows, cols, end, c, pass * (rows * cols) + SweepOrder(y, cols));
      LabelledBeforeVisit(s, rows, cols, end, y, c, pass, u);
    }
  }

  /// Relaxing `y` reaches, one visit on, every walk due by then.
  lemma RelaxReached(s: seq<U64>, t: seq<U64>, orig: seq<U64>, rows: nat, cols: nat, end: Cell, y: Cell, pass: nat)
    requires Wave(s, orig, rows, cols, end) && InGrid(y, rows, cols)
    requires Timed(s, rows, cols, end, pass * (rows * cols) + SweepOrder(y, cols))
    requires Relaxed(s, t, rows, cols, y)
    ensures ReachedBy(t, rows, cols, end, pass * (rows * cols) + SweepOrder(y, cols) + 1)
  {
    var now := pass * (rows * cols) + SweepOrder(y, cols);
    forall w | Walk(t, rows, cols, w) && |w| >= 2 && w[0] == end && Due(w[..|w| - 1], rows, cols) < now + 1
      ensures At(t, rows, cols, w[|w| - 1]) != 0 && At(t, rows, cols, w[|w| - 1]) <= |w|
    {
      WalkSameWalls(s, t, rows, cols, y, w);
      if Due(w[..|w| - 1], rows, cols) < now {
        assert At(s, rows, cols, w[|w| - 1]) != 0;
      } else {
        RelaxReachedOne(s, t, orig, rows, cols, end, y, pass, w);
      }
    }
  }

  /// Visiting `y` keeps the timing invariant, one visit on.
  lemma RelaxTimed(s: seq<U64>, orig: seq<U64>, rows: nat, cols: nat, end: Cell, y: Cell, pass: nat)
    requires Wave(s, orig, rows, cols, end) && InGrid(y, rows, cols)
    requires Timed(s, rows, cols, end, pass * (rows * cols) + SweepOrder(y, cols))
    ensures Timed(Relax(s, rows, cols, y).area, rows, cols, end, pass * (rows * cols) + SweepOrder(y, cols) + 1)
  {
    var t := Relax(s, rows, cols, y).area;
    RelaxValues(s, rows, cols, y);
    RelaxParity(s, t, rows, cols, end, y);
    RelaxWritten(s, t, orig, rows, cols, end, y, pass);
    RelaxReached(s, t, orig, rows, cols, end, y, pass);
  }

  /// Before the first sweep only the end is labelled, and nothing is due.
  lemma TimedStart(orig: seq<U64>, rows: nat, cols: nat, end: Cell)
    requires |orig| == rows * cols && InGrid(end, rows, cols) && Fresh(orig)
    ensures Timed(orig[Index(end, rows, cols) := 1], rows, cols, end, 0)
  {
    var t := orig[Index(end, rows, cols) := 1];
    forall d | InGrid(d, rows, cols)
      ensures At(t, rows, cols, d) == if d == end then 1 else At(orig, rows, cols, d)
    {
      AtUpdate(orig, rows, cols, end, 1, d);
    }
  }

  /// Once the start is labelled after `pass` full sweeps, no walk from the
  /// end to the start is shorter than its label.
  lemma TimedShortest(s: seq<U64>, orig: seq<U64>, rows: nat, cols: nat, end: Cell, start: Cell, pass: nat,
                      w: seq<Cell>)
    requires Wave(s, orig, rows, cols, end) && Timed(s, rows, cols, end, pass * (rows * cols))
    requires InGrid(start, rows, cols) && Labelled(At(s, rows, cols, start))
    requires Walk(s, rows, cols, w) && w[0] == end && w[|w| - 1] == start
    ensures At(s, rows, cols, start) <= |w|
  {
    var n := rows * cols;
    var v := At(s, rows, cols, start);
    if v != 1 {
      IndexInjective(start, end, rows, cols);
      var u := w[..|w| - 1];
      assert u[|u| - 1] == w[|w| - 2];
      if Due(u, rows, cols) >= pass * n {
        assert LowerBefore(s, rows, cols, end, start, pass * n);
        var d :| Neighbour(start, d, rows, cols) && At(s, rows, cols, d) + 1 == v &&
          Ready(At(s, rows, cols, d), d, rows, cols, end) < pass * n;
        LagExact(At(s, rows, cols, d), d, end);
        SweepOrderBelow(d, rows, cols);
        SweepOrderBelow(u[|u| - 1], rows, cols);
        WalkLength(s, rows, cols, end, w);
        NeighbourSides(start, d, rows, cols, end);
        ShortestArith(n, SweepOrder(d, cols), SweepOrder(u[|u| - 1], cols), Lag(At(s, rows, cols, d), d, end),
                      Backs(u), Backs(w), pass, Ahead(d, end), Ahead(start, end), |w|);
      }
    }
  }

  /// Version 1: label the end with 1, then sweep every cell as long as the
  /// start carries no label and the last sweep labelled something; then
  /// read the path back. A label written in sweep `p` belongs to a walk
  /// with `p` steps against the sweep, and every shorter walk has fewer
  /// such steps and so was labelled earlier: the labels are the lengths of
  /// the shortest obstacle-free walks to the end, and the path read back is
  /// a shortest one.
  method V1(area: array<U64>, rows: nat, cols: nat, start: Cell, end: Cell) returns (path: seq<Cell>)
    requires area.Length == rows * cols && rows * cols < Wall
    requires InGrid(start, rows, cols) && InGrid(end, rows, cols) && Fresh(area[..])
    modifies area
    ensures Wave(area[..], old(area[..]), rows, cols, end)
    ensures DescentPath(area[..], rows, cols, start, path)
    ensures At(area[..], rows, cols, start) in {0, 1, Wall} ==> path == [start]
    ensures At(area[..], rows, cols, start) == 0 ==>
      Closed(area[..], rows, cols) &&
      forall w :: Walk(area[..], rows, cols, w) && w[0] == end ==> w[|w| - 1] != start
    ensures Labelled(At(area[..], rows, cols, start)) ==>
      path[|path| - 1] == end && Walk(area[..], rows, cols, path) && |path| == At(area[..], rows, cols, start) &&
      forall w :: Walk(area[..], rows, cols, w) && w[0] == end && w[|w| - 1] == start ==> |path| <= |w|
  {
    ghost var orig := area[..];
    InitWave(orig, rows, cols, end);
    TimedStart(orig, rows, cols, end);
    area[Index(end, rows, cols)] := 1;
    assert area[..] == orig[Index(end, rows, cols) := 1];
    ghost var pass: nat := 0;
    while area[Index(start, rows, cols)] == 0
      invariant Wave(area[..], orig, rows, cols, end) && Timed(area[..], rows, cols, end, pass * (rows * cols))
      decreases Zeros(area[..])
    {
      var changed := Sweep(area, rows, cols, orig, end, pass);
      pass := pass + 1;
      if !changed {
        break;
      }
    }
    path := FindPath(area[..], rows, cols, start);
    ghost var s := area[..];
    if At(s, rows, cols, start) == 0 {
      forall w | Walk(s, rows, cols, w) && w[0] == end
        ensures w[|w| - 1] != start
      {
        NoWalkToUnreached(s, orig, rows, cols, start, end, w);
      }
    } else if Labelled(At(s, rows, cols, start)) {
      ReadBackReachesEnd(s, orig, rows, cols, start, end, path);
      forall w | Walk(s, rows, cols, w) && w[0] == end && w[|w| - 1] == start
        ensures |path| <= |w|
      {
        TimedShortest(s, orig, rows, cols, end, start, pass, w);
      }
    }
  }

  // ---------------------------------------------------------------------
  // Version 2: expand the frontier one layer per round

  /// Every neighbour of `c` has been reached, and no neighbour carries a
  /// label more than one above that of `c`.
  ghost predicate Expanded(s: seq<U64>, rows: nat, cols: nat, c: Cell)
    requires |s| == rows * cols && InGrid(c, rows, cols)
  {
    forall d :: Neighbour(c, d, rows, cols) ==>
      At(s, rows, cols, d) != 0 && (At(s, rows, cols, d) != Wall ==> At(s, rows, cols, d) <= At(s, rows, cols, c) + 1)
  }

  /// The state after round `k - 1`: no label exceeds `k`, and every cell
  /// labelled below `k` has been expanded.
  ghost predicate Layered(s: seq<U64>, rows: nat, cols: nat, k: nat)
    requires |s| == rows * cols
  {
    (forall i :: 0 <= i < |s| && s[i] != Wall ==> s[i] <= k) &&
    (forall c :: InGrid(c, rows, cols) && 0 < At(s, rows, cols, c) < k ==> Expanded(s, rows, cols, c))
  }

  /// `last` holds exactly the cells labelled `k`.
  ghost predicate Frontier(s: seq<U64>, rows: nat, cols: nat, last: seq<Cell>, k: nat)
    requires |s| == rows * cols
  {
    (forall m :: 0 <= m < |last| ==> InGrid(last[m], rows, cols) && At(s, rows, cols, last[m]) == k) &&
    (forall c :: InGrid(c, rows, cols) && At(s, rows, cols, c) == k ==> c in last)
  }

  /// The state of a round: the area, the cells labelled in this round so
  /// far, in the order they were reached, and whether anything was written.
  datatype Round = Round(area: seq<U64>, next: seq<Cell>, changed: bool)

  /// Visit a neighbour if there is one: an unlabelled neighbour gets label
  /// `v` and joins the next frontier.
  function Visit(r: Round, rows: nat, cols: nat, o: Option<Cell>, v: U64): (t: Round)
    requires |r.area| == rows * cols && (o.Some? ==> InGrid(o.value, rows, cols))
    ensures |t.area| == |r.area|
  {
    match o
    case None => r
    case Some(p) =>
      if At(r.area, rows, cols, p) == 0 then Round(r.area[Index(p, rows, cols) := v], r.next + [p], true) else r
  }

  /// Visit two neighbours, one after the other.
  function VisitPair(r: Round, rows: nat, cols: nat, o1: Option<Cell>, o2: Option<Cell>, v: U64): (t: Round)
    requires |r.area| == rows * cols
    requires (o1.Some? ==> InGrid(o1.value, rows, cols)) && (o2.Some? ==> InGrid(o2.value, rows, cols))
    ensures |t.area| == |r.area|
  {
    Visit(Visit(r, rows, cols, o1, v), rows, cols, o2, v)
  }

  /// One frontier cell of a round: its neighbours below, above, right and
  /// left, in that order, are visited with label `v`, the cell's own label
  /// plus one.
  function ExpandCell(r: Round, rows: nat, cols: nat, c: Cell, v: U64): (t: Round)
    requires |r.area| == rows * cols && InGrid(c, rows, cols)
    ensures |t.area| == |r.area|
  {
    VisitPair(VisitPair(r, rows, cols, Down(c, rows), Up(c), v), rows, cols, Right(c, cols), Left(c), v)
  }

  /// A round writes into the area exactly as the sweep's spills do.
  lemma ExpandCellSpills(r: Round, rows: nat, cols: nat, c: Cell, v: U64)
    requires |r.area| == rows * cols && InGrid(c, rows, cols)
    ensures var t := ExpandCell(r, rows, cols, c, v);
      Spread(t.area, t.changed) ==
      SpillPair(SpillPair(Spread(r.area, r.changed), rows, cols, Down(c, rows), Up(c), v), rows, cols, Right(c, cols), Left(c), v)
  {
  }

  /// Expanding a labelled cell keeps the wave a wave and the progress
  /// honest, as the spills of the sweep do.
  lemma ExpandCellWave(r: Round, s0: seq<U64>, orig: seq<U64>, rows: nat, cols: nat, end: Cell, c: Cell, v: U64)
    requires Wave(r.area, orig, rows, cols, end) && Progress(Spread(r.area, r.changed), s0)
    requires InGrid(c, rows, cols) && Labelled(At(r.area, rows, cols, c)) && v == At(r.area, rows, cols, c) + 1
    ensures var t := ExpandCell(r, rows, cols, c, v);
      Wave(t.area, orig, rows, cols, end) && Progress(Spread(t.area, t.changed), s0)
  {
    var r0 := Spread(r.area, r.changed);
    ExpandCellSpills(r, rows, cols, c, v);
    SpillTwiceWave(r0, s0, orig, rows, cols, end, c, Down(c, rows), Up(c));
    SpillTwiceWave(SpillPair(r0, rows, cols, Down(c, rows), Up(c), v), s0, orig, rows, cols, end, c, Right(c, cols), Left(c));
  }

  /// `t` differs from `s` only in cells that were unlabelled in `s`.
  ghost predicate Grows(s: seq<U64>, t: seq<U64>)
  {
    |s| == |t| && forall i :: 0 <= i < |s| && s[i] != 0 ==> t[i] == s[i]
  }

  /// The round invariant, relative to the area `s0` at the start of round
  /// `k`: only unlabelled cells were written, each with `k + 1`; `next`
  /// lists exactly the cells labelled `k + 1`; and a change was noted
  /// exactly when `next` is not empty.
  ghost predicate RoundCore(r: Round, s0: seq<U64>, rows: nat, cols: nat, k: nat)
    requires |s0| == rows * cols
  {
    |r.area| == |s0| &&
    (forall i :: 0 <= i < |s0| ==> r.area[i] == s0[i] || (s0[i] == 0 && r.area[i] == k + 1)) &&
    (forall m :: 0 <= m < |r.next| ==> InGrid(r.next[m], rows, cols) && At(r.area, rows, cols, r.next[m]) == k + 1) &&
    (forall c :: InGrid(c, rows, cols) && At(r.area, rows, cols, c) == k + 1 ==> c in r.next) &&
    (r.changed <==> |r.next| > 0)
  }

  /// The first `j` cells of the frontier `last` are expanded.
  ghost predicate ExpandedPrefix(s: seq<U64>, rows: nat, cols: nat, last: seq<Cell>, j: nat)
    requires |s| == rows * cols
  {
    j <= |last| && forall m :: 0 <= m < j ==> InGrid(last[m], rows, cols) && Expanded(s, rows, cols, last[m])
  }

  /// The round invariant after the first `j` cells of the frontier `last`.
  ghost predicate RoundInv(r: Round, s0: seq<U64>, rows: nat, cols: nat, k: nat, last: seq<Cell>, j: nat)
    requires |s0| == rows * cols
  {
    RoundCore(r, s0, rows, cols, k) && ExpandedPrefix(r.area, rows, cols, last, j)
  }

  /// Visiting a neighbour keeps the round's write rule.
  lemma VisitRound(r: Round, s0: seq<U64>, rows: nat, cols: nat, k: nat, o: Option<Cell>)
    requires |s0| == rows * cols && RoundCore(r, s0, rows, cols, k) && k + 1 < Wall
    requires o.Some? ==> InGrid(o.value, rows, cols)
    ensures RoundCore(Visit(r, rows, cols, o, k + 1), s0, rows, cols, k)
  {
    if o.Some? && At(r.area, rows, cols, o.value) == 0 {
      var p := o.value;
      var t := Visit(r, rows, cols, o, k + 1);
      forall c | InGrid(c, rows, cols)
        ensures At(t.area, rows, cols, c) == if c == p then k + 1 else At(r.area, rows, cols, c)
      {
        AtUpdate(r.area, rows, cols, p, k + 1, c);
      }
    }
  }

  /// Two successive visits.
  lemma VisitPairRound(r: Round, s0: seq<U64>, rows: nat, cols: nat, k: nat, o1: Option<Cell>, o2: Option<Cell>)
    requires |s0| == rows * cols && RoundCore(r, s0, rows, cols, k) && k + 1 < Wall
    requires (o1.Some? ==> InGrid(o1.value, rows, cols)) && (o2.Some? ==> InGrid(o2.value, rows, cols))
    ensures RoundCore(VisitPair(r, rows, cols, o1, o2, k + 1), s0, rows, cols, k)
  {
    VisitRound(r, s0, rows, cols, k, o1);
    VisitRound(Visit(r, rows, cols, o1, k + 1), s0, rows, cols, k, o2);
  }

  /// A visit with a label leaves the visited neighbour labelled and changes
  /// no cell that carried a value.
  lemma VisitReaches(r: Round, rows: nat, cols: nat, o: Option<Cell>, v: U64)
    requires |r.area| == rows * cols && (o.Some? ==> InGrid(o.value, rows, cols)) && v != 0
    ensures Grows(r.area, Visit(r, rows, cols, o, v).area)
    ensures o.Some? ==> At(Visit(r, rows, cols, o, v).area, rows, cols, o.value) != 0
  {
  }

  /// Expanding a cell reaches every neighbour of it and changes no cell
  /// that carried a value.
  lemma ExpandCellReaches(r: Round, rows: nat, cols: nat, c: Cell, v: U64)
    requires |r.area| == rows * cols && InGrid(c, rows, cols) && v != 0
    ensures Grows(r.area, ExpandCell(r, rows, cols, c, v).area)
    ensures forall d :: Neighbour(c, d, rows, cols) ==> At(ExpandCell(r, rows, cols, c, v).area, rows, cols, d) != 0
  {
    var r1 := Visit(r, rows, cols, Down(c, rows), v);
    var r2 := Visit(r1, rows, cols, Up(c), v);
    var r3 := Visit(r2, rows, cols, Right(c, cols), v);
    var r4 := Visit(r3, rows, cols, Left(c), v);
    VisitReaches(r, rows, cols, Down(c, rows), v);
    VisitReaches(r1, rows, cols, Up(c), v);
    VisitReaches(r2, rows, cols, Right(c, cols), v);
    VisitReaches(r3, rows, cols, Left(c), v);
    forall d | Neighbour(c, d, rows, cols)
      ensures At(r4.area, rows, cols, d) != 0
    {
      NeighbourCases(c, d, rows, cols);
      var i := Index(d, rows, cols);
      if Down(c, rows) == Some(d) {
        assert r1.area[i] != 0 && r2.area[i] != 0 && r3.area[i] != 0;
      } else if Up(c) == Some(d) {
        assert r2.area[i] != 0 && r3.area[i] != 0;
      } else if Right(c, cols) == Some(d) {
        assert r3.area[i] != 0;
      }
    }
  }

  /// An expanded cell stays expanded while only unlabelled cells are
  /// written.
  lemma ExpandedStays(s: seq<U64>, t: seq<U64>, rows: nat, cols: nat, c: Cell)
    requires |s| == rows * cols && InGrid(c, rows, cols) && Expanded(s, rows, cols, c)
    requires Grows(s, t)
    ensures Expanded(t, rows, cols, c)
  {
    assert At(s, rows, cols, c) <= At(t, rows, cols, c);
    forall d | Neighbour(c, d, rows, cols)
      ensures At(t, rows, cols, d) == At(s, rows, cols, d)
    {
      assert s[Index(d, rows, cols)] != 0;
    }
  }

  /// Expanding a cell labelled `k` keeps the round's write rule.
  lemma ExpandCellCore(r: Round, s0: seq<U64>, rows: nat, cols: nat, k: nat, c: Cell)
    requires |s0| == rows * cols && RoundCore(r, s0, rows, cols, k) && k + 1 < Wall
    requires InGrid(c, rows, cols)
    ensures RoundCore(ExpandCell(r, rows, cols, c, k + 1), s0, rows, cols, k)
  {
    VisitPairRound(r, s0, rows, cols, k, Down(c, rows), Up(c));
    var r2 := VisitPair(r, rows, cols, Down(c, rows), Up(c), k + 1);
    VisitPairRound(r2, s0, rows, cols, k, Right(c, cols), Left(c));
  }

  /// Expanding the frontier cell `last[j]`, labelled `k`, keeps the round
  /// invariant and adds that cell to the expanded ones.
  lemma ExpandCellRound(r: Round, s0: seq<U64>, rows: nat, cols: nat, k: nat, last: seq<Cell>, j: nat)
    requires |s0| == rows * cols && RoundInv(r, s0, rows, cols, k, last, j) && j < |last| && 0 < k && k + 1 < Wall
    requires Layered(s0, rows, cols, k) && InGrid(last[j], rows, cols) && At(r.area, rows, cols, last[j]) == k
    ensures RoundInv(ExpandCell(r, rows, cols, last[j], k + 1), s0, rows, cols, k, last, j + 1)
  {
    var c := last[j];
    ExpandCellCore(r, s0, rows, cols, k, c);
    ExpandCellReaches(r, rows, cols, c, k + 1);
    var t := ExpandCell(r, rows, cols, c, k + 1);
    forall m | 0 <= m < j
      ensures Expanded(t.area, rows, cols, last[m])
    {
      ExpandedStays(r.area, t.area, rows, cols, last[m]);
    }
    assert t.area[Index(c, rows, cols)] == k;
    forall d | Neighbour(c, d, rows, cols)
      ensures At(t.area, rows, cols, d) != Wall ==> At(t.area, rows, cols, d) <= k + 1
    {
      var i := Index(d, rows, cols);
      assert t.area[i] == s0[i] || t.area[i] == k + 1;
    }
  }

  /// A round starts with nothing labelled `k + 1` yet.
  lemma RoundStart(s0: seq<U64>, rows: nat, cols: nat, k: nat, last: seq<Cell>)
    requires |s0| == rows * cols && Layered(s0, rows, cols, k) && k + 1 < Wall
    ensures RoundInv(Round(s0, [], false), s0, rows, cols, k, last, 0)
  {
  }

  /// After every frontier cell of round `k` has been expanded, the area is
  /// layered up to `k + 1` and `next` is the new frontier.
  lemma RoundEnd(r: Round, s0: seq<U64>, rows: nat, cols: nat, k: nat, last: seq<Cell>)
    requires |s0| == rows * cols && RoundInv(r, s0, rows, cols, k, last, |last|)
    requires Layered(s0, rows, cols, k) && Frontier(s0, rows, cols, last, k) && 0 < k
    ensures Layered(r.area, rows, cols, k + 1)
    ensures Frontier(r.area, rows, cols, r.next, k + 1)
  {
    forall c | InGrid(c, rows, cols) && 0 < At(r.area, rows, cols, c) < k + 1
      ensures Expanded(r.area, rows, cols, c)
    {
      var i := Index(c, rows, cols);
      assert r.area[i] == s0[i];
      if At(s0, rows, cols, c) == k {
        var m :| 0 <= m < |last| && last[m] == c;
      } else {
        assert Expanded(s0, rows, cols, c);
        forall d | Neighbour(c, d, rows, cols)
          ensures At(r.area, rows, cols, d) == At(s0, rows, cols, d)
        {
          var i' := Index(d, rows, cols);
          assert r.area[i'] == s0[i'];
        }
      }
    }
  }

  /// The end alone is labelled: the state before the first round.
  lemma FirstRound(s: seq<U64>, orig: seq<U64>, rows: nat, cols: nat, end: Cell)
    requires Wave(s, orig, rows, cols, end) && Fresh(orig)
    requires forall i :: 0 <= i < |s| && i != Index(end, rows, cols) ==> s[i] == orig[i]
    ensures Layered(s, rows, cols, 1) && Frontier(s, rows, cols, [end], 1)
  {
    forall c | InGrid(c, rows, cols) && At(s, rows, cols, c) == 1
      ensures c == end
    {
      IndexInjective(c, end, rows, cols);
    }
  }

  /// Visit one neighbour: the body of each `if let Some(..)` of a round.
  method VisitCell(area: array<U64>, rows: nat, cols: nat, o: Option<Cell>, value: U64, next: seq<Cell>, changed: bool)
    returns (next': seq<Cell>, changed': bool)
    requires area.Length == rows * cols && (o.Some? ==> InGrid(o.value, rows, cols))
    modifies area
    ensures Round(area[..], next', changed') == Visit(Round(old(area[..]), next, changed), rows, cols, o, value)
  {
    next', changed' := next, changed;
    match o
    case None =>
    case Some(p) =>
      if area[Index(p, rows, cols)] == 0 {
        next' := next' + [p];
        area[Index(p, rows, cols)] := value;
        changed' := true;
      }
  }

  /// Expand one frontier cell: the closure body of a round.
  method ExpandField(area: array<U64>, rows: nat, cols: nat, field: Cell, next: seq<Cell>, changed: bool)
    returns (next': seq<Cell>, changed': bool)
    requires area.Length == rows * cols && InGrid(field, rows, cols) && At(area[..], rows, cols, field) < Wall
    modifies area
    ensures Round(area[..], next', changed') ==
      ExpandCell(Round(old(area[..]), next, changed), rows, cols, field, old(At(area[..], rows, cols, field)) + 1)
  {
    var value := area[Index(field, rows, cols)] + 1;
    next', changed' := VisitCell(area, rows, cols, Down(field, rows), value, next, changed);
    next', changed' := VisitCell(area, rows, cols, Up(field), value, next', changed');
    next', changed' := VisitCell(area, rows, cols, Right(field, cols), value, next', changed');
    next', changed' := VisitCell(area, rows, cols, Left(field), value, next', changed');
  }

  /// Expand the `j`-th cell of the frontier `last` within a round.
  method ExpandNext(area: array<U64>, rows: nat, cols: nat, last: seq<Cell>, j: nat, next: seq<Cell>, changed: bool,
                    ghost s0: seq<U64>, ghost orig: seq<U64>, ghost end: Cell, ghost k: nat)
    returns (next': seq<Cell>, changed': bool)
    requires j < |last| && 0 < k && k + 1 < Wall && area.Length == rows * cols && |s0| == rows * cols
    requires Layered(s0, rows, cols, k) && Frontier(s0, rows, cols, last, k)
    requires Wave(area[..], orig, rows, cols, end) && Progress(Spread(area[..], changed), s0)
    requires RoundInv(Round(area[..], next, changed), s0, rows, cols, k, last, j)
    modifies area
    ensures Wave(area[..], orig, rows, cols, end) && Progress(Spread(area[..], changed'), s0)
    ensures RoundInv(Round(area[..], next', changed'), s0, rows, cols, k, last, j + 1)
  {
    var field := last[j];
    ghost var r := Round(area[..], next, changed);
    assert At(area[..], rows, cols, field) == k by {
      var i := Index(field, rows, cols);
      assert area[i] == s0[i];
    }
    ExpandCellWave(r, s0, orig, rows, cols, end, field, k + 1);
    ExpandCellRound(r, s0, rows, cols, k, last, j);
    ghost var t := ExpandCell(r, rows, cols, field, k + 1);
    next', changed' := ExpandField(area, rows, cols, field, next, changed);
    assert Round(area[..], next', changed') == t;
  }

  /// One round: expand every cell of the frontier `last`, labelled `k`,
  /// collecting the cells labelled `k + 1` as the next frontier.
  method ExpandRound(area: array<U64>, rows: nat, cols: nat, last: seq<Cell>,
                     ghost orig: seq<U64>, ghost end: Cell, ghost k: nat)
    returns (next: seq<Cell>, changed: bool)
    requires Wave(area[..], orig, rows, cols, end)
    requires Layered(area[..], rows, cols, k) && Frontier(area[..], rows, cols, last, k) && 0 < k && k + 1 < Wall
    modifies area
    ensures Wave(area[..], orig, rows, cols, end)
    ensures Progress(Spread(area[..], changed), old(area[..]))
    ensures Layered(area[..], rows, cols, k + 1) && Frontier(area[..], rows, cols, next, k + 1)
    ensures changed <==> |next| > 0
  {
    ghost var s0 := area[..];
    next, changed := [], false;
    RoundStart(s0, rows, cols, k, last);
    for j := 0 to |last|
      invariant Wave(area[..], orig, rows, cols, end)
      invariant Progress(Spread(area[..], changed), s0)
      invariant RoundInv(Round(area[..], next, changed), s0, rows, cols, k, last, j)
    {
      next, changed := ExpandNext(area, rows, cols, last, j, next, changed, s0, orig, end, k);
    }
    RoundEnd(Round(area[..], next, changed), s0, rows, cols, k, last);
  }

  // ---------------------------------------------------------------------
  // Facts about walks

  /// On a closed wave every obstacle-free walk from the end stays on
  /// labelled cells.
  lemma {:induction false} ClosedWalk(s: seq<U64>, rows: nat, cols: nat, w: seq<Cell>, i: nat)
    requires |s| == rows * cols && Closed(s, rows, cols) && Walk(s, rows, cols, w)
    requires At(s, rows, cols, w[0]) == 1 && i < |w|
    ensures Labelled(At(s, rows, cols, w[i]))
  {
    if i > 0 {
      ClosedWalk(s, rows, cols, w, i - 1);
      assert Settled(s, rows, cols, w[i - 1]) && Neighbour(w[i - 1], w[i], rows, cols);
      assert At(s, rows, cols, w[i]) != Wall;
    }
  }

  /// When the wave stopped without reaching the start, no obstacle-free walk
  /// joins the end to the start.
  lemma NoWalkToUnreached(s: seq<U64>, orig: seq<U64>, rows: nat, cols: nat, start: Cell, end: Cell, w: seq<Cell>)
    requires Wave(s, orig, rows, cols, end) && Closed(s, rows, cols) && InGrid(start, rows, cols)
    requires At(s, rows, cols, start) == 0
    requires Walk(s, rows, cols, w) && w[0] == end
    ensures w[|w| - 1] != start
  {
    ClosedWalk(s, rows, cols, w, |w| - 1);
  }

  /// On an area layered up to `k`, the first `k` cells of a walk from the
  /// end are labelled, the cell at position `i` with at most `i + 1`.
  lemma {:induction false} LayeredWalk(s: seq<U64>, rows: nat, cols: nat, k: nat, w: seq<Cell>, i: nat)
    requires |s| == rows * cols && Layered(s, rows, cols, k) && Walk(s, rows, cols, w)
    requires At(s, rows, cols, w[0]) == 1 && i < |w| && i < k
    ensures Labelled(At(s, rows, cols, w[i])) && At(s, rows, cols, w[i]) <= i + 1
  {
    if i > 0 {
      LayeredWalk(s, rows, cols, k, w, i - 1);
      assert Expanded(s, rows, cols, w[i - 1]) && Neighbour(w[i - 1], w[i], rows, cols);
    }
  }

  /// On an area layered up to `k`, no walk from the end to a labelled cell
  /// is shorter than the label of that cell.
  lemma LabelIsDistance(s: seq<U64>, rows: nat, cols: nat, k: nat, w: seq<Cell>)
    requires |s| == rows * cols && Layered(s, rows, cols, k) && Walk(s, rows, cols, w)
    requires At(s, rows, cols, w[0]) == 1
    ensures At(s, rows, cols, w[|w| - 1]) <= |w|
  {
    var i := |w| - 1;
    if i < k {
      LayeredWalk(s, rows, cols, k, w, i);
    } else {
      assert s[Index(w[i], rows, cols)] <= k;
    }
  }

  /// An area layered up to `k` with no cell labelled `k` is closed.
  lemma LayeredClosed(s: seq<U64>, rows: nat, cols: nat, k: nat)
    requires |s| == rows * cols && Layered(s, rows, cols, k) && Frontier(s, rows, cols, [], k)
    ensures Closed(s, rows, cols)
  {
    forall c | InGrid(c, rows, cols) && Labelled(At(s, rows, cols, c))
      ensures Expanded(s, rows, cols, c)
    {
      assert s[Index(c, rows, cols)] <= k;
    }
  }

  /// Version 2: label the end with 1, then expand the cells labelled in the
  /// previous round, one round per label, until a round labels nothing or
  /// the start is reached; then read the path back. The labels are the
  /// lengths of the shortest obstacle-free walks to the end, so the path
  /// read back is a shortest one.
  method V2(area: array<U64>, rows: nat, cols: nat, start: Cell, end: Cell) returns (path: seq<Cell>)
    requires area.Length == rows * cols && rows * cols < Wall
    requires InGrid(start, rows, cols) && InGrid(end, rows, cols) && Fresh(area[..])
    modifies area
    ensures Wave(area[..], old(area[..]), rows, cols, end)
    ensures DescentPath(area[..], rows, cols, start, path)
    ensures At(area[..], rows, cols, start) in {0, 1, Wall} ==> path == [start]
    ensures At(area[..], rows, cols, start) == 0 ==>
      Closed(area[..], rows, cols) &&
      forall w :: Walk(area[..], rows, cols, w) && w[0] == end ==> w[|w| - 1] != start
    ensures Labelled(At(area[..], rows, cols, start)) ==>
      path[|path| - 1] == end && Walk(area[..], rows, cols, path) &&
      forall w :: Walk(area[..], rows, cols, w) && w[0] == end && w[|w| - 1] == start ==> |path| <= |w|
  {
    ghost var orig := area[..];
    InitWave(orig, rows, cols, end);
    area[Index(end, rows, cols)] := 1;
    assert area[..] == orig[Index(end, rows, cols) := 1];
    FirstRound(area[..], orig, rows, cols, end);
    var last := [end];
    ghost var k: nat := 1;
    while true
      invariant Wave(area[..], orig, rows, cols, end)
      invariant Layered(area[..], rows, cols, k) && Frontier(area[..], rows, cols, last, k)
      invariant 0 < k && k + 1 < Wall
      decreases Zeros(area[..])
    {
      var next, changed := ExpandRound(area, rows, cols, last, orig, end, k);
      last := next;
      k := k + 1;
      if !changed {
        break;
      }
      if area[Index(start, rows, cols)] != 0 || |last| == 0 {
        break;
      }
      assert Index(start, rows, cols) in Zeros(area[..]);
      assert area[Index(last[0], rows, cols)] == k;
    }
    path := FindPath(area[..], rows, cols, start);
    ghost var s := area[..];
    if At(s, rows, cols, start) == 0 {
      LayeredClosed(s, rows, cols, k);
      forall w | Walk(s, rows, cols, w) && w[0] == end
        ensures w[|w| - 1] != start
      {
        NoWalkToUnreached(s, orig, rows, cols, start, end, w);
      }
    } else if Labelled(At(s, rows, cols, start)) {
      ReadBackReachesEnd(s, orig, rows, cols, start, end, path);
      forall w | Walk(s, rows, cols, w) && w[0] == end && w[|w| - 1] == start
        ensures |path| <= |w|
      {
        LabelIsDistance(s, rows, cols, k, w);
      }
    }
  }
}
