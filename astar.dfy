/// The batched A* planner. Starting from the start cell, every round takes
/// all frontier cells whose estimate is the smallest one and expands them:
/// each of the up to eight neighbours is discovered or, when the new cost
/// is strictly lower, re-linked to the expanded cell; the neighbour's
/// estimate divided by ten is written into the area. Costs are counted in
/// tenths: an orthogonal step costs 10, a diagonal one 14, and a cell's
/// estimate is its cost plus ten times its Manhattan distance to the end.
/// The path is read back from the end by following the `prev` links.
module AStar {
  import opened Grid

  /// An orthogonal step (cost 1.0) and a diagonal one (cost 1.4), in tenths.
  const Direct: nat := 10
  const Diagonal: nat := 14

  /// The most u64 values a slice can hold: isize::MAX bytes, eight per value.
  const MaxCells: nat := 0x0FFF_FFFF_FFFF_FFFF

  function Max(a: nat, b: nat): nat { if a < b then b else a }
  function Min(a: nat, b: nat): nat { if a < b then a else b }

  /// The Manhattan distance from `c` to the end.
  function Distance(c: Cell, end: Cell): (d: nat)
    ensures d == 0 <==> c == end
    ensures d <= Max(c.0, end.0) + Max(c.1, end.1)
  {
    (Max(c.0, end.0) - Min(c.0, end.0)) + (Max(c.1, end.1) - Min(c.1, end.1))
  }

  /// The estimated length of a path through a cell reached at `cost`
  /// tenths with `dist` steps left to the end.
  function Estimate(cost: nat, dist: nat): nat
  {
    cost + Direct * dist
  }

  /// The cost of the step between two 8-neighbours.
  function StepCost(a: Cell, b: Cell): nat
  {
    if a.0 == b.0 || a.1 == b.1 then Direct else Diagonal
  }

  /// The estimate is not admissible: from a diagonal neighbour of the end
  /// it counts two orthogonal steps (20 tenths) where the single diagonal
  /// step to the end costs 14, so a cheaper route can wait behind a
  /// costlier one that the search finishes first.
  lemma EstimateOvershoots(end: Cell)
    ensures var c := (end.0 + 1, end.1 + 1);
            Direct * Distance(c, end) == 20 && StepCost(c, end) == Diagonal && Diagonal < Direct * Distance(c, end)
  {
  }

  /// What the planner knows about a discovered cell: the cell it was
  /// reached from, whether it was expanded (or found to be an obstacle),
  /// its cost, its estimate and its distance to the end.
  datatype Field = Field(prev: Option<Cell>, processed: bool, cost: nat, estimate: nat, dist: nat)

  /// A neighbour queued for the frontier of the next round: the cell, its
  /// position in the area and its estimate.
  datatype Pending = Pending(cell: Cell, pos: nat, estimate: nat)

  /// The state one round works on: the area, the fields by area position,
  /// and the neighbours queued during the round.
  datatype Search = Search(area: seq<nat>, fields: seq<Option<Field>>, pending: seq<Pending>)

  /// The cell `dr` rows and `dc` columns away from `c`, when it lies in the
  /// grid.
  function Shift(c: Cell, dr: int, dc: int, rows: nat, cols: nat): (o: Option<Cell>)
    ensures o.Some? ==> InGrid(o.value, rows, cols) && o.value.0 == c.0 + dr && o.value.1 == c.1 + dc
  {
    if 0 <= c.0 + dr < rows && 0 <= c.1 + dc < cols then Some(((c.0 + dr) as nat, (c.1 + dc) as nat)) else None
  }

  /// The eight moves of an expansion in the order they are checked, with
  /// their step costs: the four diagonals, then below, above, right, left.
  const Moves: seq<(int, int, nat)> :=
    [(1, 1, Diagonal), (-1, 1, Diagonal), (1, -1, Diagonal), (-1, -1, Diagonal),
     (1, 0, Direct), (-1, 0, Direct), (0, 1, Direct), (0, -1, Direct)]

  /// The `m`-th neighbour of an expansion.
  function MoveTo(c: Cell, m: nat, rows: nat, cols: nat): Option<Cell>
    requires m < |Moves|
  {
    Shift(c, Moves[m].0, Moves[m].1, rows, cols)
  }

  /// A diagonal neighbour is generated exactly when both of its coordinate
  /// steps stay in the grid, as the source builds it from the orthogonal
  /// neighbours.
  lemma MovesDiagonal(c: Cell, rows: nat, cols: nat)
    requires InGrid(c, rows, cols)
    ensures forall m :: 0 <= m < 4 ==>
      (MoveTo(c, m, rows, cols).Some? <==> Shift(c, Moves[m].0, 0, rows, cols).Some? && Shift(c, 0, Moves[m].1, rows, cols).Some?)
  {
  }

  /// Every in-grid 8-neighbour of a cell is generated by some move.
  lemma MovesCover(c: Cell, rows: nat, cols: nat)
    requires InGrid(c, rows, cols)
    ensures forall d :: InGrid(d, rows, cols) && Adjacent8(d, c) ==>
      exists m :: 0 <= m < |Moves| && MoveTo(c, m, rows, cols) == Some(d)
  {
    forall d | InGrid(d, rows, cols) && Adjacent8(d, c)
      ensures exists m :: 0 <= m < |Moves| && MoveTo(c, m, rows, cols) == Some(d)
    {
      var dr, dc := d.0 - c.0, d.1 - c.1;
      var m := if dr == 1 && dc == 1 then 0 else if dr == -1 && dc == 1 then 1 else if dr == 1 && dc == -1 then 2
        else if dr == -1 && dc == -1 then 3 else if dr == 1 then 4 else if dr == -1 then 5 else if dc == 1 then 6 else 7;
      assert MoveTo(c, m, rows, cols) == Some(d);
    }
  }

  /// No neighbour is generated by two moves.
  lemma MovesDistinct(c: Cell, rows: nat, cols: nat)
    requires InGrid(c, rows, cols)
    ensures forall m, m' :: 0 <= m < m' < |Moves| && MoveTo(c, m, rows, cols).Some? ==>
      MoveTo(c, m, rows, cols) != MoveTo(c, m', rows, cols)
  {
  }

  /// A field discovered for the first time, from `from` at `cost`.
  function Discovered(from: Cell, cost: nat, dist: nat): Field
  {
    Field(Some(from), false, cost, Estimate(cost, dist), dist)
  }

  /// The check of one neighbour `o` of the expanded cell `from`, whose cost
  /// is `base`, over a step costing `step`. An unknown neighbour is
  /// discovered; an obstacle is marked processed, and its cost is set to
  /// the largest value, which the new cost always undercuts; a neighbour
  /// whose cost exceeds the new cost is re-linked to `from`. A free
  /// neighbour then shows its estimate divided by ten, and a neighbour not
  /// processed yet is queued.
  function Check(s: Search, rows: nat, cols: nat, end: Cell, from: Cell, base: nat, o: Option<Cell>, step: nat): (t: Search)
    requires |s.area| == rows * cols && |s.fields| == rows * cols && (o.Some? ==> InGrid(o.value, rows, cols))
    ensures |t.area| == |s.area| && |t.fields| == |s.fields|
  {
    match o
    case None => s
    case Some(p) =>
      var pos := Index(p, rows, cols);
      var cost := base + step;
      var found := if s.fields[pos].Some? then s.fields[pos].value else Discovered(from, cost, Distance(p, end));
      var wall := s.area[pos] == Wall;
      var marked := if wall then found.(processed := true, estimate := Wall) else found;
      var neigh := if wall || marked.cost > cost
        then marked.(prev := Some(from), cost := cost, estimate := Estimate(cost, marked.dist))
        else marked;
      Search(if wall then s.area else s.area[pos := neigh.estimate / 10],
             s.fields[pos := Some(neigh)],
             if neigh.processed then s.pending else s.pending + [Pending(p, pos, neigh.estimate)])
  }

  /// Mark the expanded cell `c` as processed.
  function Mark(s: Search, rows: nat, cols: nat, c: Cell): (t: Search)
    requires |s.fields| == rows * cols && InGrid(c, rows, cols) && s.fields[Index(c, rows, cols)].Some?
    ensures |t.area| == |s.area| && |t.fields| == |s.fields|
  {
    var i := Index(c, rows, cols);
    s.(fields := s.fields[i := Some(s.fields[i].value.(processed := true))])
  }

  /// The first `m` neighbour checks of an expansion of `c` at cost `base`.
  function CheckUpTo(s: Search, rows: nat, cols: nat, end: Cell, c: Cell, base: nat, m: nat): (t: Search)
    requires |s.area| == rows * cols && |s.fields| == rows * cols && InGrid(c, rows, cols) && m <= |Moves|
    ensures |t.area| == |s.area| && |t.fields| == |s.fields|
  {
    if m == 0 then s
    else Check(CheckUpTo(s, rows, cols, end, c, base, m - 1), rows, cols, end, c, base, MoveTo(c, m - 1, rows, cols), Moves[m - 1].2)
  }

  /// The expansion of a frontier cell: mark it, then check its neighbours
  /// with its cost.
  function Expand(s: Search, rows: nat, cols: nat, end: Cell, c: Cell): (t: Search)
    requires |s.area| == rows * cols && |s.fields| == rows * cols && InGrid(c, rows, cols)
    requires s.fields[Index(c, rows, cols)].Some?
    ensures |t.area| == |s.area| && |t.fields| == |s.fields|
  {
    CheckUpTo(Mark(s, rows, cols, c), rows, cols, end, c, s.fields[Index(c, rows, cols)].value.cost, |Moves|)
  }

  // ---------------------------------------------------------------------
  // What every state of the search satisfies

  /// Positions of the processed fields.
  function Processed(fields: seq<Option<Field>>): set<nat>
  {
    set i | 0 <= i < |fields| && fields[i].Some? && fields[i].value.processed
  }

  /// Positions not processed yet: undiscovered, or discovered and waiting.
  function Unprocessed(fields: seq<Option<Field>>): set<nat>
  {
    set i | 0 <= i < |fields| && !(fields[i].Some? && fields[i].value.processed)
  }

  ghost predicate Shape(s: Search, orig: seq<U64>, rows: nat, cols: nat, start: Cell, end: Cell)
  {
    |s.area| == rows * cols && |s.fields| == rows * cols && |orig| == rows * cols && rows * cols <= MaxCells &&
    InGrid(start, rows, cols) && InGrid(end, rows, cols) && orig[Index(start, rows, cols)] != Wall
  }

  /// Obstacles of the area handed in stay obstacles, and are processed as
  /// soon as they are discovered.
  ghost predicate WallsKept(s: Search, orig: seq<U64>)
    requires |s.area| == |orig| && |s.fields| == |orig|
  {
    forall i :: 0 <= i < |orig| && orig[i] == Wall ==>
      s.area[i] == Wall && (s.fields[i].Some? ==> s.fields[i].value.processed)
  }

  /// Every other cell shows 0 or the estimate of its field divided by ten,
  /// which stays below u64::MAX.
  ghost predicate Shown(s: Search, orig: seq<U64>)
    requires |s.area| == |orig| && |s.fields| == |orig|
  {
    forall i :: 0 <= i < |orig| && orig[i] != Wall ==>
      s.area[i] < Wall && (s.area[i] != 0 ==> s.fields[i].Some? && s.area[i] == s.fields[i].value.estimate / 10)
  }

  /// Every field records the distance of its cell to the end and its
  /// estimate for its cost.
  ghost predicate Estimates(s: Search, rows: nat, cols: nat, end: Cell)
    requires |s.fields| == rows * cols
  {
    forall i :: 0 <= i < |s.fields| && s.fields[i].Some? ==>
      s.fields[i].value.dist == Distance(CellAt(i, rows, cols), end) &&
      s.fields[i].value.estimate == Estimate(s.fields[i].value.cost, s.fields[i].value.dist)
  }

  /// The link of the field at `i`: only the start has none, at cost 0;
  /// any other field links to a discovered free 8-neighbour whose cost is
  /// lower by at least the step between them.
  ghost predicate LinkOk(fields: seq<Option<Field>>, orig: seq<U64>, rows: nat, cols: nat, start: Cell, i: nat)
    requires |fields| == rows * cols && |orig| == rows * cols && InGrid(start, rows, cols)
    requires i < rows * cols && fields[i].Some?
  {
    match fields[i].value.prev
    case None => i == Index(start, rows, cols) && fields[i].value.cost == 0
    case Some(p) =>
      InGrid(p, rows, cols) && Adjacent8(CellAt(i, rows, cols), p) && orig[Index(p, rows, cols)] != Wall &&
      fields[Index(p, rows, cols)].Some? &&
      fields[Index(p, rows, cols)].value.cost + StepCost(CellAt(i, rows, cols), p) <= fields[i].value.cost
  }

  ghost predicate Links(fields: seq<Option<Field>>, orig: seq<U64>, rows: nat, cols: nat, start: Cell)
    requires |fields| == rows * cols && |orig| == rows * cols && InGrid(start, rows, cols)
  {
    forall i {:trigger LinkOk(fields, orig, rows, cols, start, i)} ::
      0 <= i < |fields| && fields[i].Some? ==> LinkOk(fields, orig, rows, cols, start, i)
  }

  /// No cost exceeds 14 times the number of processed cells, and a
  /// processed free cell stays a diagonal step below that.
  ghost predicate Costs(s: Search, orig: seq<U64>)
    requires |s.fields| == |orig|
  {
    forall i :: 0 <= i < |s.fields| && s.fields[i].Some? && orig[i] != Wall ==>
      s.fields[i].value.cost + (if s.fields[i].value.processed then Diagonal else 0) <= Diagonal * |Processed(s.fields)|
  }

  ghost predicate Sound(s: Search, orig: seq<U64>, rows: nat, cols: nat, start: Cell, end: Cell)
  {
    Shape(s, orig, rows, cols, start, end) && WallsKept(s, orig) && Shown(s, orig) &&
    Estimates(s, rows, cols, end) && Links(s.fields, orig, rows, cols, start) && Costs(s, orig)
  }

  /// `from` is being expanded: a discovered, processed free cell of cost
  /// `base`.
  ghost predicate Expanding(s: Search, orig: seq<U64>, rows: nat, cols: nat, from: Cell, base: nat)
    requires |s.fields| == rows * cols && |orig| == rows * cols
  {
    InGrid(from, rows, cols) && orig[Index(from, rows, cols)] != Wall &&
    s.fields[Index(from, rows, cols)].Some? && s.fields[Index(from, rows, cols)].value.processed &&
    s.fields[Index(from, rows, cols)].value.cost == base
  }

  /// Fields are only ever added, and processed fields stay processed.
  ghost predicate Grows(s: seq<Option<Field>>, t: seq<Option<Field>>)
  {
    |s| == |t| &&
    forall i :: 0 <= i < |s| && s[i].Some? ==> t[i].Some? && (s[i].value.processed ==> t[i].value.processed)
  }

  lemma GrowsProcessed(s: seq<Option<Field>>, t: seq<Option<Field>>)
    requires Grows(s, t)
    ensures Processed(s) <= Processed(t) && |Processed(s)| <= |Processed(t)|
    ensures Unprocessed(t) <= Unprocessed(s)
  {
    SubsetCard(Processed(s), Processed(t));
  }

  /// A processed set holds at most every cell.
  lemma ProcessedCard(fields: seq<Option<Field>>)
    ensures |Processed(fields)| <= |fields|
  {
    SubsetCard(Processed(fields), Below(|fields|));
  }

  /// An estimate written by the search fits below u64::MAX once divided by
  /// ten.
  lemma EstimateFits(cost: nat, c: Cell, rows: nat, cols: nat, end: Cell)
    requires InGrid(c, rows, cols) && InGrid(end, rows, cols) && rows * cols <= MaxCells
    requires cost <= Diagonal * (rows * cols)
    ensures Estimate(cost, Distance(c, end)) / 10 < Wall
  {
    var n := rows * cols;
    MulMonotone(1, cols, rows);
    MulMonotone(1, rows, cols);
    assert rows <= n && cols <= n;
    var d := Distance(c, end);
    assert d <= 2 * n;
    assert Estimate(cost, d) <= 34 * MaxCells;
  }

  // ---------------------------------------------------------------------
  // One neighbour check keeps the search sound

  /// The check of a neighbour changes only that neighbour's field and area
  /// entry, and leaves it discovered.
  lemma CheckFrame(s: Search, rows: nat, cols: nat, end: Cell, from: Cell, base: nat, p: Cell, step: nat)
    requires |s.area| == rows * cols && |s.fields| == rows * cols && InGrid(p, rows, cols)
    ensures var t := Check(s, rows, cols, end, from, base, Some(p), step);
      t.fields[Index(p, rows, cols)].Some? &&
      forall i :: 0 <= i < rows * cols && i != Index(p, rows, cols) ==> t.fields[i] == s.fields[i] && t.area[i] == s.area[i]
  {
  }

  /// A neighbour check only adds to the fields, and leaves the checked
  /// neighbour discovered.
  lemma CheckFrameGrows(s: Search, rows: nat, cols: nat, end: Cell, from: Cell, base: nat, o: Option<Cell>, step: nat)
    requires |s.area| == rows * cols && |s.fields| == rows * cols && (o.Some? ==> InGrid(o.value, rows, cols))
    ensures var t := Check(s, rows, cols, end, from, base, o, step);
      Grows(s.fields, t.fields) && (o.Some? ==> t.fields[Index(o.value, rows, cols)].Some?)
  {
    if o.Some? {
      CheckFrame(s, rows, cols, end, from, base, o.value, step);
    }
  }

  /// Checking a neighbour of a cell being expanded keeps the search sound,
  /// only adds to the fields, and leaves the neighbour discovered.
  lemma CheckSound(s: Search, orig: seq<U64>, rows: nat, cols: nat, start: Cell, end: Cell,
                   from: Cell, base: nat, o: Option<Cell>, step: nat)
    requires Sound(s, orig, rows, cols, start, end) && Expanding(s, orig, rows, cols, from, base)
    requires o.Some? ==> InGrid(o.value, rows, cols) && Adjacent8(o.value, from) && step == StepCost(o.value, from)
    ensures var t := Check(s, rows, cols, end, from, base, o, step);
      Sound(t, orig, rows, cols, start, end) && Grows(s.fields, t.fields) && Expanding(t, orig, rows, cols, from, base) &&
      (o.Some? ==> t.fields[Index(o.value, rows, cols)].Some?)
  {
    if o.Some? {
      var p := o.value;
      var pos := Index(p, rows, cols);
      var t := Check(s, rows, cols, end, from, base, o, step);
      CheckFrame(s, rows, cols, end, from, base, p, step);
      IndexInjective(p, from, rows, cols);
      assert CellAt(pos, rows, cols) == p by {
        IndexInjective(CellAt(pos, rows, cols), p, rows, cols);
      }
      assert Grows(s.fields, t.fields);
      GrowsProcessed(s.fields, t.fields);
      ProcessedCard(s.fields);
      CheckLinks(s, t, orig, rows, cols, start, end, from, base, p, step);
      CheckCosts(s, t, orig, rows, cols, start, end, from, base, p, step);
      if orig[pos] != Wall {
        EstimateFits(t.fields[pos].value.cost, p, rows, cols, end);
      }
    }
  }

  lemma CheckLinks(s: Search, t: Search, orig: seq<U64>, rows: nat, cols: nat, start: Cell, end: Cell,
                   from: Cell, base: nat, p: Cell, step: nat)
    requires Sound(s, orig, rows, cols, start, end) && Expanding(s, orig, rows, cols, from, base)
    requires InGrid(p, rows, cols) && Adjacent8(p, from) && step == StepCost(p, from)
    requires t == Check(s, rows, cols, end, from, base, Some(p), step)
    requires CellAt(Index(p, rows, cols), rows, cols) == p
    ensures Links(t.fields, orig, rows, cols, start)
  {
    forall i | 0 <= i < |t.fields| && t.fields[i].Some?
      ensures LinkOk(t.fields, orig, rows, cols, start, i)
    {
      CheckLinkAt(s, t, orig, rows, cols, start, end, from, base, p, step, i);
    }
  }

  /// The link of one field after a neighbour check.
  lemma CheckLinkAt(s: Search, t: Search, orig: seq<U64>, rows: nat, cols: nat, start: Cell, end: Cell,
                    from: Cell, base: nat, p: Cell, step: nat, i: nat)
    requires Sound(s, orig, rows, cols, start, end) && Expanding(s, orig, rows, cols, from, base)
    requires InGrid(p, rows, cols) && Adjacent8(p, from) && step == StepCost(p, from)
    requires t == Check(s, rows, cols, end, from, base, Some(p), step)
    requires CellAt(Index(p, rows, cols), rows, cols) == p
    requires i < |t.fields| && t.fields[i].Some?
    ensures LinkOk(t.fields, orig, rows, cols, start, i)
  {
    var pos := Index(p, rows, cols);
    CheckFrame(s, rows, cols, end, from, base, p, step);
    IndexInjective(p, from, rows, cols);
    if i != pos {
      assert LinkOk(s.fields, orig, rows, cols, start, i);
      match t.fields[i].value.prev {
        case None =>
        case Some(q) =>
          var qi := Index(q, rows, cols);
          assert t.fields[qi].value.cost <= s.fields[qi].value.cost;
      }
    } else if s.fields[pos].Some? {
      assert LinkOk(s.fields, orig, rows, cols, start, pos);
    }
  }

  lemma CheckCosts(s: Search, t: Search, orig: seq<U64>, rows: nat, cols: nat, start: Cell, end: Cell,
                   from: Cell, base: nat, p: Cell, step: nat)
    requires Sound(s, orig, rows, cols, start, end) && Expanding(s, orig, rows, cols, from, base)
    requires InGrid(p, rows, cols) && Adjacent8(p, from) && step == StepCost(p, from)
    requires t == Check(s, rows, cols, end, from, base, Some(p), step)
    requires |Processed(s.fields)| <= |Processed(t.fields)|
    ensures Costs(t, orig)
    ensures t.fields[Index(p, rows, cols)].value.cost <= Diagonal * (rows * cols)
  {
    var pos := Index(p, rows, cols);
    CheckFrame(s, rows, cols, end, from, base, p, step);
    ProcessedCard(t.fields);
  }

  // ---------------------------------------------------------------------
  // What a round queues

  /// Positions of the queued neighbours.
  function PendingPos(pending: seq<Pending>): set<nat>
  {
    set j | 0 <= j < |pending| :: pending[j].pos
  }

  /// Position `i` has been queued.
  predicate InPending(pending: seq<Pending>, i: nat)
  {
    i in PendingPos(pending)
  }

  /// Free cells processed in `t` were processed in `s` already.
  ghost predicate KeepsFree(s: seq<Option<Field>>, t: seq<Option<Field>>, orig: seq<U64>)
    requires |s| == |orig| && |t| == |orig|
  {
    forall j :: 0 <= j < |orig| && orig[j] != Wall && t[j].Some? && t[j].value.processed ==>
      s[j].Some? && s[j].value.processed
  }

  /// Every field waiting in `s` was waiting when the round began (with
  /// fields `fields0`), or has been queued during the round.
  ghost predicate Queued(s: Search, fields0: seq<Option<Field>>)
    requires |fields0| == |s.fields|
  {
    forall i :: 0 <= i < |s.fields| && s.fields[i].Some? && !s.fields[i].value.processed ==>
      (fields0[i].Some? && !fields0[i].value.processed) || InPending(s.pending, i)
  }

  /// Every queued neighbour is a discovered free cell that was not
  /// processed when the round began (`waiting` holds those positions).
  ghost predicate PendingOk(s: Search, orig: seq<U64>, rows: nat, cols: nat, waiting: set<nat>)
    requires |s.fields| == rows * cols && |orig| == rows * cols
  {
    forall j :: 0 <= j < |s.pending| ==>
      InGrid(s.pending[j].cell, rows, cols) && s.pending[j].pos == Index(s.pending[j].cell, rows, cols) &&
      s.fields[s.pending[j].pos].Some? && orig[s.pending[j].pos] != Wall && s.pending[j].pos in waiting
  }

  /// A neighbour check queues every neighbour it leaves waiting.
  lemma CheckQueue(s: Search, orig: seq<U64>, rows: nat, cols: nat, end: Cell,
                   from: Cell, base: nat, o: Option<Cell>, step: nat, fields0: seq<Option<Field>>)
    requires |s.area| == rows * cols && |s.fields| == rows * cols && (o.Some? ==> InGrid(o.value, rows, cols))
    requires |fields0| == rows * cols && Queued(s, fields0)
    ensures Queued(Check(s, rows, cols, end, from, base, o, step), fields0)
  {
    if o.Some? {
      var p := o.value;
      var pos := Index(p, rows, cols);
      var t := Check(s, rows, cols, end, from, base, o, step);
      CheckFrame(s, rows, cols, end, from, base, p, step);
      assert PendingPos(s.pending) <= PendingPos(t.pending) by {
        forall j | 0 <= j < |s.pending| ensures s.pending[j].pos in PendingPos(t.pending) {
          assert t.pending[j] == s.pending[j];
        }
      }
      forall i | 0 <= i < |t.fields| && t.fields[i].Some? && !t.fields[i].value.processed
        ensures (fields0[i].Some? && !fields0[i].value.processed) || InPending(t.pending, i)
      {
        if i == pos {
          assert t.pending[|t.pending| - 1].pos == pos;
        }
      }
    }
  }

  /// What a neighbour check queues is a discovered free cell that was
  /// waiting before.
  lemma CheckPending(s: Search, orig: seq<U64>, rows: nat, cols: nat, end: Cell,
                     from: Cell, base: nat, o: Option<Cell>, step: nat, waiting: set<nat>)
    requires |s.area| == rows * cols && |s.fields| == rows * cols && |orig| == rows * cols
    requires o.Some? ==> InGrid(o.value, rows, cols)
    requires WallsKept(s, orig)
    requires PendingOk(s, orig, rows, cols, waiting) && Unprocessed(s.fields) <= waiting
    ensures var t := Check(s, rows, cols, end, from, base, o, step);
      PendingOk(t, orig, rows, cols, waiting) && WallsKept(t, orig)
  {
    if o.Some? {
      CheckFrame(s, rows, cols, end, from, base, o.value, step);
    }
  }

  /// A neighbour check processes no free cell.
  lemma CheckKeeps(s: Search, orig: seq<U64>, rows: nat, cols: nat, end: Cell,
                   from: Cell, base: nat, o: Option<Cell>, step: nat)
    requires |s.area| == rows * cols && |s.fields| == rows * cols && |orig| == rows * cols
    requires o.Some? ==> InGrid(o.value, rows, cols)
    requires Shown(s, orig)
    ensures KeepsFree(s.fields, Check(s, rows, cols, end, from, base, o, step).fields, orig)
  {
    if o.Some? {
      CheckFrame(s, rows, cols, end, from, base, o.value, step);
    }
  }

  // ---------------------------------------------------------------------
  // One expansion keeps the search sound

  /// Every in-grid 8-neighbour of `c` has been discovered.
  ghost predicate NeighboursKnown(fields: seq<Option<Field>>, c: Cell, rows: nat, cols: nat)
    requires |fields| == rows * cols
  {
    forall d {:trigger Adjacent8(d, c)} :: InGrid(d, rows, cols) && Adjacent8(d, c) ==> fields[Index(d, rows, cols)].Some?
  }

  /// Every processed free cell has had all its neighbours discovered.
  ghost predicate Explored(fields: seq<Option<Field>>, orig: seq<U64>, rows: nat, cols: nat)
    requires |fields| == rows * cols && |orig| == rows * cols
  {
    forall i {:trigger NeighboursKnown(fields, CellAt(i, rows, cols), rows, cols)} ::
      0 <= i < |fields| && fields[i].Some? && fields[i].value.processed && orig[i] != Wall ==>
      NeighboursKnown(fields, CellAt(i, rows, cols), rows, cols)
  }

  /// Marking a discovered free cell processed keeps the search sound.
  lemma MarkSound(s: Search, orig: seq<U64>, rows: nat, cols: nat, start: Cell, end: Cell, c: Cell)
    requires Sound(s, orig, rows, cols, start, end) && InGrid(c, rows, cols)
    requires orig[Index(c, rows, cols)] != Wall && s.fields[Index(c, rows, cols)].Some?
    ensures Sound(Mark(s, rows, cols, c), orig, rows, cols, start, end)
  {
    MarkFrame(s, rows, cols, c);
    MarkLinks(s, orig, rows, cols, start, end, c);
    MarkCosts(s, orig, rows, cols, start, end, c);
  }

  lemma MarkLinks(s: Search, orig: seq<U64>, rows: nat, cols: nat, start: Cell, end: Cell, c: Cell)
    requires Sound(s, orig, rows, cols, start, end) && InGrid(c, rows, cols)
    requires s.fields[Index(c, rows, cols)].Some?
    ensures Links(Mark(s, rows, cols, c).fields, orig, rows, cols, start)
  {
    var t := Mark(s, rows, cols, c);
    MarkFrame(s, rows, cols, c);
    forall j | 0 <= j < |t.fields| && t.fields[j].Some?
      ensures LinkOk(t.fields, orig, rows, cols, start, j)
    {
      assert LinkOk(s.fields, orig, rows, cols, start, j);
    }
  }

  lemma MarkCosts(s: Search, orig: seq<U64>, rows: nat, cols: nat, start: Cell, end: Cell, c: Cell)
    requires Sound(s, orig, rows, cols, start, end) && InGrid(c, rows, cols)
    requires s.fields[Index(c, rows, cols)].Some?
    ensures Costs(Mark(s, rows, cols, c), orig)
  {
    var i := Index(c, rows, cols);
    var t := Mark(s, rows, cols, c);
    MarkFrame(s, rows, cols, c);
    GrowsProcessed(s.fields, t.fields);
    if !s.fields[i].value.processed {
      assert Processed(t.fields) == Processed(s.fields) + {i};
    }
  }

  /// Marking changes only the processed flag of the marked cell.
  lemma MarkFrame(s: Search, rows: nat, cols: nat, c: Cell)
    requires |s.area| == rows * cols && |s.fields| == rows * cols && InGrid(c, rows, cols)
    requires s.fields[Index(c, rows, cols)].Some?
    ensures var t := Mark(s, rows, cols, c);
      var i := Index(c, rows, cols);
      t.area == s.area && t.pending == s.pending && Grows(s.fields, t.fields) &&
      t.fields[i] == Some(s.fields[i].value.(processed := true)) &&
      forall j :: 0 <= j < |s.fields| && j != i ==> t.fields[j] == s.fields[j]
  {
  }

  /// Marking makes the cell the one being expanded, at its own cost.
  lemma MarkExpanding(s: Search, orig: seq<U64>, rows: nat, cols: nat, c: Cell)
    requires |s.area| == rows * cols && |s.fields| == rows * cols && |orig| == rows * cols && InGrid(c, rows, cols)
    requires orig[Index(c, rows, cols)] != Wall && s.fields[Index(c, rows, cols)].Some?
    ensures Expanding(Mark(s, rows, cols, c), orig, rows, cols, c, s.fields[Index(c, rows, cols)].value.cost)
  {
  }

  /// Marking keeps the queue bookkeeping of the round.
  lemma MarkQueue(s: Search, orig: seq<U64>, rows: nat, cols: nat, c: Cell,
                  fields0: seq<Option<Field>>, waiting: set<nat>)
    requires |s.area| == rows * cols && |s.fields| == rows * cols && |orig| == rows * cols && InGrid(c, rows, cols)
    requires s.fields[Index(c, rows, cols)].Some?
    requires |fields0| == rows * cols && Queued(s, fields0) && PendingOk(s, orig, rows, cols, waiting)
    ensures var t := Mark(s, rows, cols, c);
      Queued(t, fields0) && PendingOk(t, orig, rows, cols, waiting)
  {
    MarkFrame(s, rows, cols, c);
  }

  /// The `m`-th move of an expansion is a step to an in-grid 8-neighbour
  /// charged at its cost.
  lemma MoveValid(c: Cell, m: nat, rows: nat, cols: nat)
    requires InGrid(c, rows, cols) && m < |Moves|
    ensures MoveTo(c, m, rows, cols).Some? ==>
      InGrid(MoveTo(c, m, rows, cols).value, rows, cols) && Adjacent8(MoveTo(c, m, rows, cols).value, c) &&
      Moves[m].2 == StepCost(MoveTo(c, m, rows, cols).value, c)
  {
  }

  lemma GrowsTrans(a: seq<Option<Field>>, b: seq<Option<Field>>, c: seq<Option<Field>>)
    requires Grows(a, b) && Grows(b, c)
    ensures Grows(a, c)
  {
  }

  lemma KeepsFreeTrans(a: seq<Option<Field>>, b: seq<Option<Field>>, c: seq<Option<Field>>, orig: seq<U64>)
    requires |a| == |orig| && |b| == |orig| && |c| == |orig|
    requires KeepsFree(a, b, orig) && KeepsFree(b, c, orig)
    ensures KeepsFree(a, c, orig)
  {
  }

  /// The first `m` neighbour checks of an expansion keep the search sound
  /// and only add to the fields.
  lemma {:induction false} CheckUpToSound(s: Search, orig: seq<U64>, rows: nat, cols: nat, start: Cell, end: Cell,
                                          c: Cell, base: nat, m: nat)
    requires Sound(s, orig, rows, cols, start, end) && Expanding(s, orig, rows, cols, c, base) && m <= |Moves|
    ensures var t := CheckUpTo(s, rows, cols, end, c, base, m);
      Sound(t, orig, rows, cols, start, end) && Expanding(t, orig, rows, cols, c, base) && Grows(s.fields, t.fields)
  {
    if m > 0 {
      var r := CheckUpTo(s, rows, cols, end, c, base, m - 1);
      CheckUpToSound(s, orig, rows, cols, start, end, c, base, m - 1);
      MoveValid(c, m - 1, rows, cols);
      var o := MoveTo(c, m - 1, rows, cols);
      CheckSound(r, orig, rows, cols, start, end, c, base, o, Moves[m - 1].2);
      GrowsTrans(s.fields, r.fields, Check(r, rows, cols, end, c, base, o, Moves[m - 1].2).fields);
    }
  }

  /// The first `m` neighbour checks of an expansion queue what they leave
  /// waiting.
  lemma {:induction false} CheckUpToQueue(s: Search, orig: seq<U64>, rows: nat, cols: nat, end: Cell,
                                          c: Cell, base: nat, m: nat, fields0: seq<Option<Field>>, waiting: set<nat>)
    requires |s.area| == rows * cols && |s.fields| == rows * cols && |orig| == rows * cols
    requires InGrid(c, rows, cols) && m <= |Moves| && WallsKept(s, orig)
    requires |fields0| == rows * cols && Queued(s, fields0)
    requires PendingOk(s, orig, rows, cols, waiting) && Unprocessed(s.fields) <= waiting
    ensures var t := CheckUpTo(s, rows, cols, end, c, base, m);
      Queued(t, fields0) && PendingOk(t, orig, rows, cols, waiting) && WallsKept(t, orig)
  {
    if m > 0 {
      var r := CheckUpTo(s, rows, cols, end, c, base, m - 1);
      CheckUpToQueue(s, orig, rows, cols, end, c, base, m - 1, fields0, waiting);
      CheckUpToKnown(s, rows, cols, end, c, base, m - 1);
      GrowsProcessed(s.fields, r.fields);
      var o := MoveTo(c, m - 1, rows, cols);
      CheckQueue(r, orig, rows, cols, end, c, base, o, Moves[m - 1].2, fields0);
      CheckPending(r, orig, rows, cols, end, c, base, o, Moves[m - 1].2, waiting);
    }
  }

  /// The first `m` neighbour checks of an expansion process no free cell.
  lemma {:induction false} CheckUpToKeeps(s: Search, orig: seq<U64>, rows: nat, cols: nat, start: Cell, end: Cell,
                                          c: Cell, base: nat, m: nat)
    requires Sound(s, orig, rows, cols, start, end) && Expanding(s, orig, rows, cols, c, base) && m <= |Moves|
    ensures KeepsFree(s.fields, CheckUpTo(s, rows, cols, end, c, base, m).fields, orig)
  {
    if m > 0 {
      CheckUpToKeeps(s, orig, rows, cols, start, end, c, base, m - 1);
      CheckUpToSound(s, orig, rows, cols, start, end, c, base, m - 1);
      CheckKeepsNext(s, CheckUpTo(s, rows, cols, end, c, base, m - 1), orig, rows, cols, end, c, base, m - 1);
    }
  }

  /// One more neighbour check after a sound prefix of checks processes no
  /// free cell either.
  lemma CheckKeepsNext(s: Search, r: Search, orig: seq<U64>, rows: nat, cols: nat, end: Cell,
                       c: Cell, base: nat, m: nat)
    requires |s.fields| == rows * cols && |orig| == rows * cols && InGrid(c, rows, cols) && m < |Moves|
    requires |r.area| == rows * cols && |r.fields| == rows * cols
    requires Shown(r, orig) && KeepsFree(s.fields, r.fields, orig)
    ensures KeepsFree(s.fields, Check(r, rows, cols, end, c, base, MoveTo(c, m, rows, cols), Moves[m].2).fields, orig)
  {
    var o := MoveTo(c, m, rows, cols);
    MoveValid(c, m, rows, cols);
    CheckKeeps(r, orig, rows, cols, end, c, base, o, Moves[m].2);
    KeepsFreeTrans(s.fields, r.fields, Check(r, rows, cols, end, c, base, o, Moves[m].2).fields, orig);
  }

  /// The first `m` neighbour checks of an expansion discover every
  /// neighbour they check, and only add to the fields.
  lemma {:induction false} CheckUpToKnown(s: Search, rows: nat, cols: nat, end: Cell, c: Cell, base: nat, m: nat)
    requires |s.area| == rows * cols && |s.fields| == rows * cols && InGrid(c, rows, cols) && m <= |Moves|
    ensures var t := CheckUpTo(s, rows, cols, end, c, base, m);
      Grows(s.fields, t.fields) &&
      forall k :: 0 <= k < m && MoveTo(c, k, rows, cols).Some? ==>
        t.fields[Index(MoveTo(c, k, rows, cols).value, rows, cols)].Some?
  {
    if m > 0 {
      var r := CheckUpTo(s, rows, cols, end, c, base, m - 1);
      CheckUpToKnown(s, rows, cols, end, c, base, m - 1);
      var o := MoveTo(c, m - 1, rows, cols);
      CheckFrameGrows(r, rows, cols, end, c, base, o, Moves[m - 1].2);
      GrowsTrans(s.fields, r.fields, Check(r, rows, cols, end, c, base, o, Moves[m - 1].2).fields);
    }
  }

  /// Expanding a discovered free cell keeps the search sound, only adds to
  /// the fields, leaves the cell processed, and queues every neighbour it
  /// leaves waiting.
  lemma ExpandSound(s: Search, orig: seq<U64>, rows: nat, cols: nat, start: Cell, end: Cell, c: Cell,
                    fields0: seq<Option<Field>>, waiting: set<nat>)
    requires Sound(s, orig, rows, cols, start, end) && InGrid(c, rows, cols)
    requires orig[Index(c, rows, cols)] != Wall && s.fields[Index(c, rows, cols)].Some?
    requires |fields0| == rows * cols && Queued(s, fields0)
    requires PendingOk(s, orig, rows, cols, waiting) && Unprocessed(s.fields) <= waiting
    ensures var t := Expand(s, rows, cols, end, c);
      Sound(t, orig, rows, cols, start, end) && Grows(s.fields, t.fields) &&
      t.fields[Index(c, rows, cols)].value.processed &&
      Queued(t, fields0) && PendingOk(t, orig, rows, cols, waiting)
  {
    var base := s.fields[Index(c, rows, cols)].value.cost;
    var u := Mark(s, rows, cols, c);
    MarkSound(s, orig, rows, cols, start, end, c);
    MarkExpanding(s, orig, rows, cols, c);
    MarkQueue(s, orig, rows, cols, c, fields0, waiting);
    MarkFrame(s, rows, cols, c);
    GrowsProcessed(s.fields, u.fields);
    CheckUpToSound(u, orig, rows, cols, start, end, c, base, |Moves|);
    CheckUpToQueue(u, orig, rows, cols, end, c, base, |Moves|, fields0, waiting);
    GrowsTrans(s.fields, u.fields, Expand(s, rows, cols, end, c).fields);
  }

  /// Expanding a cell discovers all its 8-neighbours.
  lemma ExpandKnown(s: Search, rows: nat, cols: nat, end: Cell, c: Cell)
    requires |s.area| == rows * cols && |s.fields| == rows * cols && InGrid(c, rows, cols)
    requires s.fields[Index(c, rows, cols)].Some?
    ensures var t := Expand(s, rows, cols, end, c);
      Grows(s.fields, t.fields) && NeighboursKnown(t.fields, c, rows, cols)
  {
    var u := Mark(s, rows, cols, c);
    var t := Expand(s, rows, cols, end, c);
    MarkFrame(s, rows, cols, c);
    CheckUpToKnown(u, rows, cols, end, c, s.fields[Index(c, rows, cols)].value.cost, |Moves|);
    GrowsTrans(s.fields, u.fields, t.fields);
    forall d | InGrid(d, rows, cols) && Adjacent8(d, c)
      ensures t.fields[Index(d, rows, cols)].Some?
    {
      MovesCover(c, rows, cols);
      var m :| 0 <= m < |Moves| && MoveTo(c, m, rows, cols) == Some(d);
    }
  }

  /// Expanding a discovered free cell keeps every processed free cell's
  /// neighbours discovered.
  lemma ExpandExplored(s: Search, orig: seq<U64>, rows: nat, cols: nat, start: Cell, end: Cell, c: Cell)
    requires Sound(s, orig, rows, cols, start, end) && InGrid(c, rows, cols)
    requires orig[Index(c, rows, cols)] != Wall && s.fields[Index(c, rows, cols)].Some?
    requires Explored(s.fields, orig, rows, cols)
    ensures Explored(Expand(s, rows, cols, end, c).fields, orig, rows, cols)
  {
    var i := Index(c, rows, cols);
    var base := s.fields[i].value.cost;
    var u := Mark(s, rows, cols, c);
    var t := Expand(s, rows, cols, end, c);
    MarkSound(s, orig, rows, cols, start, end, c);
    MarkExpanding(s, orig, rows, cols, c);
    MarkFrame(s, rows, cols, c);
    CheckUpToKeeps(u, orig, rows, cols, start, end, c, base, |Moves|);
    ExpandKnown(s, rows, cols, end, c);
    forall j | 0 <= j < |t.fields| && t.fields[j].Some? && t.fields[j].value.processed && orig[j] != Wall
      ensures NeighboursKnown(t.fields, CellAt(j, rows, cols), rows, cols)
    {
      if j == i {
        assert CellAt(j, rows, cols) == c by {
          IndexInjective(CellAt(j, rows, cols), c, rows, cols);
        }
      } else {
        assert NeighboursKnown(s.fields, CellAt(j, rows, cols), rows, cols);
      }
    }
  }

  // ---------------------------------------------------------------------
  // Costs only fall

  /// Two fields differ in their link, their cost or their estimate.
  predicate Relinked(f: Field, g: Field)
  {
    f.prev != g.prev || f.cost != g.cost || f.estimate != g.estimate
  }

  /// From `s` to `t`, every discovered free cell stays discovered, its cost
  /// never rises, and its link, cost and estimate are rewritten only for a
  /// strictly lower cost.
  ghost predicate Cheapens(s: seq<Option<Field>>, t: seq<Option<Field>>, orig: seq<U64>)
    requires |s| == |orig| && |t| == |orig|
  {
    forall i :: 0 <= i < |orig| && orig[i] != Wall && s[i].Some? ==>
      t[i].Some? && t[i].value.cost <= s[i].value.cost &&
      (Relinked(s[i].value, t[i].value) ==> t[i].value.cost < s[i].value.cost)
  }

  lemma CheapensTrans(a: seq<Option<Field>>, b: seq<Option<Field>>, c: seq<Option<Field>>, orig: seq<U64>)
    requires |a| == |orig| && |b| == |orig| && |c| == |orig|
    requires Cheapens(a, b, orig) && Cheapens(b, c, orig)
    ensures Cheapens(a, c, orig)
  {
    forall i | 0 <= i < |orig| && orig[i] != Wall && a[i].Some?
      ensures c[i].Some? && c[i].value.cost <= a[i].value.cost &&
        (Relinked(a[i].value, c[i].value) ==> c[i].value.cost < a[i].value.cost)
    {
      if Relinked(a[i].value, c[i].value) && !Relinked(a[i].value, b[i].value) {
        assert Relinked(b[i].value, c[i].value);
      }
    }
  }

  /// A neighbour check re-links a free neighbour only when its new cost is
  /// strictly lower, and leaves every other field alone.
  lemma CheckCheapens(s: Search, orig: seq<U64>, rows: nat, cols: nat, end: Cell,
                      from: Cell, base: nat, o: Option<Cell>, step: nat)
    requires |s.area| == rows * cols && |s.fields| == rows * cols && |orig| == rows * cols
    requires o.Some? ==> InGrid(o.value, rows, cols)
    requires Shown(s, orig)
    ensures Cheapens(s.fields, Check(s, rows, cols, end, from, base, o, step).fields, orig)
  {
    if o.Some? {
      CheckFrame(s, rows, cols, end, from, base, o.value, step);
    }
  }

  /// Marking a cell changes neither link nor cost.
  lemma MarkCheapens(s: Search, orig: seq<U64>, rows: nat, cols: nat, c: Cell)
    requires |s.area| == rows * cols && |s.fields| == rows * cols && |orig| == rows * cols
    requires InGrid(c, rows, cols) && s.fields[Index(c, rows, cols)].Some?
    ensures Cheapens(s.fields, Mark(s, rows, cols, c).fields, orig)
  {
    MarkFrame(s, rows, cols, c);
  }

  /// The first `m` neighbour checks of an expansion only lower costs.
  lemma {:induction false} CheckUpToCheapens(s: Search, orig: seq<U64>, rows: nat, cols: nat, start: Cell, end: Cell,
                                             c: Cell, base: nat, m: nat)
    requires Sound(s, orig, rows, cols, start, end) && Expanding(s, orig, rows, cols, c, base) && m <= |Moves|
    ensures Cheapens(s.fields, CheckUpTo(s, rows, cols, end, c, base, m).fields, orig)
  {
    if m > 0 {
      var r := CheckUpTo(s, rows, cols, end, c, base, m - 1);
      CheckUpToCheapens(s, orig, rows, cols, start, end, c, base, m - 1);
      CheckUpToSound(s, orig, rows, cols, start, end, c, base, m - 1);
      MoveValid(c, m - 1, rows, cols);
      var o := MoveTo(c, m - 1, rows, cols);
      CheckCheapens(r, orig, rows, cols, end, c, base, o, Moves[m - 1].2);
      CheapensTrans(s.fields, r.fields, Check(r, rows, cols, end, c, base, o, Moves[m - 1].2).fields, orig);
    }
  }

  /// Expanding a discovered free cell only lowers costs.
  lemma ExpandCheapens(s: Search, orig: seq<U64>, rows: nat, cols: nat, start: Cell, end: Cell, c: Cell)
    requires Sound(s, orig, rows, cols, start, end) && InGrid(c, rows, cols)
    requires orig[Index(c, rows, cols)] != Wall && s.fields[Index(c, rows, cols)].Some?
    ensures Cheapens(s.fields, Expand(s, rows, cols, end, c).fields, orig)
  {
    var base := s.fields[Index(c, rows, cols)].value.cost;
    var u := Mark(s, rows, cols, c);
    MarkSound(s, orig, rows, cols, start, end, c);
    MarkExpanding(s, orig, rows, cols, c);
    MarkCheapens(s, orig, rows, cols, c);
    CheckUpToCheapens(u, orig, rows, cols, start, end, c, base, |Moves|);
    CheapensTrans(s.fields, u.fields, Expand(s, rows, cols, end, c).fields, orig);
  }

  // ---------------------------------------------------------------------
  // The frontier between rounds

  /// The frontier: cells waiting to be expanded, each with its position in
  /// the area and the estimate it was queued with.
  type Frontier = map<Cell, (nat, nat)>

  /// Every frontier cell is a discovered free cell stored with its
  /// position.
  ghost predicate CacheOk(cache: Frontier, fields: seq<Option<Field>>, orig: seq<U64>, rows: nat, cols: nat)
    requires |fields| == rows * cols && |orig| == rows * cols
  {
    forall k :: k in cache ==>
      InGrid(k, rows, cols) && cache[k].0 == Index(k, rows, cols) &&
      fields[Index(k, rows, cols)].Some? && orig[Index(k, rows, cols)] != Wall
  }

  /// Every discovered cell that is not processed yet is in the frontier.
  ghost predicate Waiting(fields: seq<Option<Field>>, cache: Frontier, rows: nat, cols: nat)
    requires |fields| == rows * cols
  {
    forall i :: 0 <= i < |fields| && fields[i].Some? && !fields[i].value.processed ==> CellAt(i, rows, cols) in cache
  }

  /// The frontier cells that are processed already.
  function ProcessedKeys(cache: Frontier, fields: seq<Option<Field>>, rows: nat, cols: nat): set<Cell>
    requires |fields| == rows * cols
  {
    set k | k in cache && InGrid(k, rows, cols) && fields[Index(k, rows, cols)].Some? &&
      fields[Index(k, rows, cols)].value.processed
  }

  /// The cells of the queued neighbours.
  function PendingCells(pending: seq<Pending>): set<Cell>
  {
    set j | 0 <= j < |pending| :: pending[j].cell
  }

  /// `j` is the last queued entry for cell `k`.
  predicate LastFor(pending: seq<Pending>, k: Cell, j: nat)
  {
    j < |pending| && pending[j].cell == k && forall j' :: j < j' < |pending| ==> pending[j'].cell != k
  }

  /// The frontier after the queued neighbours are inserted in order, a
  /// later entry for a cell replacing an earlier one.
  function Inserted(cache: Frontier, pending: seq<Pending>): Frontier
  {
    if |pending| == 0 then cache
    else
      var e := pending[|pending| - 1];
      Inserted(cache, pending[..|pending| - 1])[e.cell := (e.pos, e.estimate)]
  }

  lemma PendingCellsSnoc(pending: seq<Pending>)
    requires |pending| > 0
    ensures PendingCells(pending) == PendingCells(pending[..|pending| - 1]) + {pending[|pending| - 1].cell}
  {
    var n := |pending| - 1;
    forall k | k in PendingCells(pending) ensures k in PendingCells(pending[..n]) + {pending[n].cell} {
      var j :| 0 <= j < |pending| && pending[j].cell == k;
      if j < n {
        assert pending[..n][j] == pending[j];
      }
    }
  }

  /// The inserted frontier holds the cells of the frontier and the queued
  /// cells; a cell that was not queued keeps its frontier entry.
  lemma {:induction false} InsertedKeys(cache: Frontier, pending: seq<Pending>)
    ensures forall k :: k in Inserted(cache, pending) <==> k in cache || k in PendingCells(pending)
    ensures forall k :: k in Inserted(cache, pending) && k !in PendingCells(pending) ==> Inserted(cache, pending)[k] == cache[k]
  {
    if |pending| > 0 {
      InsertedKeys(cache, pending[..|pending| - 1]);
      PendingCellsSnoc(pending);
    }
  }

  /// A queued cell maps to its last queued entry.
  lemma {:induction false} InsertedLast(cache: Frontier, pending: seq<Pending>)
    ensures forall k :: k in PendingCells(pending) ==>
      k in Inserted(cache, pending) &&
      exists j: nat :: LastFor(pending, k, j) && Inserted(cache, pending)[k] == (pending[j].pos, pending[j].estimate)
  {
    InsertedKeys(cache, pending);
    if |pending| > 0 {
      var n := |pending| - 1;
      var r := Inserted(cache, pending[..n]);
      InsertedLast(cache, pending[..n]);
      PendingCellsSnoc(pending);
      assert LastFor(pending, pending[n].cell, n);
      forall k | k in PendingCells(pending[..n]) && k != pending[n].cell
        ensures exists j: nat :: LastFor(pending, k, j) && Inserted(cache, pending)[k] == (pending[j].pos, pending[j].estimate)
      {
        var j: nat :| LastFor(pending[..n], k, j) && r[k] == (pending[..n][j].pos, pending[..n][j].estimate);
        assert LastFor(pending, k, j);
      }
    }
  }

  /// A round that expands a non-empty batch of frontier cells either
  /// processes a cell that was waiting, or leaves fewer processed cells in
  /// the frontier: the two together bound the number of rounds.
  lemma RoundProgress(fields: seq<Option<Field>>, fields': seq<Option<Field>>, cache: Frontier, cache': Frontier,
                      batch: set<Cell>, pending: seq<Pending>, rows: nat, cols: nat)
    requires |fields| == rows * cols && Grows(fields, fields')
    requires batch != {} && batch <= cache.Keys
    requires forall k :: k in batch ==>
      InGrid(k, rows, cols) && fields'[Index(k, rows, cols)].Some? && fields'[Index(k, rows, cols)].value.processed
    requires forall k :: k in cache' <==> (k in cache && k !in batch) || k in PendingCells(pending)
    requires forall j :: 0 <= j < |pending| ==>
      InGrid(pending[j].cell, rows, cols) && pending[j].pos == Index(pending[j].cell, rows, cols) &&
      pending[j].pos in Unprocessed(fields)
    ensures Unprocessed(fields') < Unprocessed(fields) ||
      (Unprocessed(fields') == Unprocessed(fields) && ProcessedKeys(cache', fields', rows, cols) < ProcessedKeys(cache, fields, rows, cols))
  {
    GrowsProcessed(fields, fields');
    if Unprocessed(fields') == Unprocessed(fields) {
      var b :| b in batch;
      assert Index(b, rows, cols) !in Unprocessed(fields');
      assert b in ProcessedKeys(cache, fields, rows, cols);
      forall k | k in ProcessedKeys(cache', fields', rows, cols)
        ensures k in ProcessedKeys(cache, fields, rows, cols) && k !in batch
      {
        assert Index(k, rows, cols) !in Unprocessed(fields');
        forall j | 0 <= j < |pending| ensures pending[j].cell != k {
        }
      }
    }
  }

  /// A round keeps the frontier made of discovered free cells.
  lemma RoundCacheOk(area: seq<nat>, fields: seq<Option<Field>>, fields': seq<Option<Field>>, cache: Frontier,
                     kept: Frontier, pending: seq<Pending>, orig: seq<U64>, rows: nat, cols: nat, waiting: set<nat>)
    requires |fields| == rows * cols && |orig| == rows * cols && Grows(fields, fields')
    requires CacheOk(cache, fields, orig, rows, cols)
    requires PendingOk(Search(area, fields', pending), orig, rows, cols, waiting)
    requires forall k :: k in kept ==> k in cache && kept[k] == cache[k]
    ensures CacheOk(Inserted(kept, pending), fields', orig, rows, cols)
  {
    var r := Inserted(kept, pending);
    InsertedKeys(kept, pending);
    InsertedLast(kept, pending);
    forall k | k in r
      ensures InGrid(k, rows, cols) && r[k].0 == Index(k, rows, cols) &&
        fields'[Index(k, rows, cols)].Some? && orig[Index(k, rows, cols)] != Wall
    {
      if k in PendingCells(pending) {
        var j: nat :| LastFor(pending, k, j) && r[k] == (pending[j].pos, pending[j].estimate);
      }
    }
  }

  /// After a round every waiting cell is in the frontier: cells waiting
  /// before the round and not expanded by it stay, and cells queued during
  /// the round are added.
  lemma RoundWaiting(area: seq<nat>, fields: seq<Option<Field>>, fields': seq<Option<Field>>, cache: Frontier,
                     kept: Frontier, batch: set<Cell>, pending: seq<Pending>, orig: seq<U64>, rows: nat, cols: nat,
                     waiting: set<nat>)
    requires |fields| == rows * cols && |orig| == rows * cols && |fields'| == rows * cols
    requires Waiting(fields, cache, rows, cols)
    requires Queued(Search(area, fields', pending), fields)
    requires PendingOk(Search(area, fields', pending), orig, rows, cols, waiting)
    requires forall k :: k in batch ==>
      InGrid(k, rows, cols) && fields'[Index(k, rows, cols)].Some? && fields'[Index(k, rows, cols)].value.processed
    requires forall k :: k in kept <==> k in cache && k !in batch
    ensures Waiting(fields', Inserted(kept, pending), rows, cols)
  {
    var r := Inserted(kept, pending);
    InsertedKeys(kept, pending);
    forall i | 0 <= i < |fields'| && fields'[i].Some? && !fields'[i].value.processed
      ensures CellAt(i, rows, cols) in r
    {
      var c := CellAt(i, rows, cols);
      if InPending(pending, i) {
        var j :| 0 <= j < |pending| && pending[j].pos == i;
        IndexInjective(pending[j].cell, c, rows, cols);
        assert c in PendingCells(pending);
      } else {
        assert c !in batch;
      }
    }
  }

  /// The expansions of the cells of `order`, one after the other. Every
  /// frontier cell has a field, so the search never meets a cell without
  /// one (where the source's `unwrap` would panic); such a cell is skipped.
  function ExpandAll(s: Search, rows: nat, cols: nat, end: Cell, order: seq<Cell>): (t: Search)
    requires |s.area| == rows * cols && |s.fields| == rows * cols
    requires forall c :: c in order ==> InGrid(c, rows, cols)
    ensures |t.area| == |s.area| && |t.fields| == |s.fields|
    decreases |order|
  {
    if |order| == 0 then s
    else
      var r := ExpandAll(s, rows, cols, end, order[..|order| - 1]);
      var c := order[|order| - 1];
      if r.fields[Index(c, rows, cols)].Some? then Expand(r, rows, cols, end, c) else r
  }

  /// Expanding frontier cells one after the other, from a sound state with
  /// nothing queued, keeps the search sound, only adds to the fields,
  /// queues every neighbour it leaves waiting, and queues only cells that
  /// were waiting before.
  lemma {:induction false} ExpandAllSound(s: Search, orig: seq<U64>, rows: nat, cols: nat, start: Cell, end: Cell,
                                          order: seq<Cell>)
    requires Sound(s, orig, rows, cols, start, end) && s.pending == []
    requires forall c :: c in order ==>
      InGrid(c, rows, cols) && orig[Index(c, rows, cols)] != Wall && s.fields[Index(c, rows, cols)].Some?
    ensures var t := ExpandAll(s, rows, cols, end, order);
      Sound(t, orig, rows, cols, start, end) && Grows(s.fields, t.fields) &&
      Queued(t, s.fields) && PendingOk(t, orig, rows, cols, Unprocessed(s.fields))
  {
    if |order| > 0 {
      var n := |order| - 1;
      var c := order[n];
      var r := ExpandAll(s, rows, cols, end, order[..n]);
      ExpandAllSound(s, orig, rows, cols, start, end, order[..n]);
      var t := Expand(r, rows, cols, end, c);
      GrowsProcessed(s.fields, r.fields);
      ExpandSound(r, orig, rows, cols, start, end, c, s.fields, Unprocessed(s.fields));
      GrowsTrans(s.fields, r.fields, t.fields);
    }
  }

  /// Expanding frontier cells one after the other only lowers costs.
  lemma {:induction false} ExpandAllCheapens(s: Search, orig: seq<U64>, rows: nat, cols: nat, start: Cell, end: Cell,
                                             order: seq<Cell>)
    requires Sound(s, orig, rows, cols, start, end) && s.pending == []
    requires forall c :: c in order ==>
      InGrid(c, rows, cols) && orig[Index(c, rows, cols)] != Wall && s.fields[Index(c, rows, cols)].Some?
    ensures Cheapens(s.fields, ExpandAll(s, rows, cols, end, order).fields, orig)
  {
    if |order| > 0 {
      var n := |order| - 1;
      var c := order[n];
      var r := ExpandAll(s, rows, cols, end, order[..n]);
      ExpandAllCheapens(s, orig, rows, cols, start, end, order[..n]);
      ExpandAllSound(s, orig, rows, cols, start, end, order[..n]);
      if r.fields[Index(c, rows, cols)].Some? {
        ExpandCheapens(r, orig, rows, cols, start, end, c);
        CheapensTrans(s.fields, r.fields, Expand(r, rows, cols, end, c).fields, orig);
      }
    }
  }

  /// Expanding cells one after the other only adds to the fields, and
  /// leaves every expanded cell processed.
  lemma {:induction false} ExpandAllDone(s: Search, rows: nat, cols: nat, end: Cell, order: seq<Cell>)
    requires |s.area| == rows * cols && |s.fields| == rows * cols
    requires forall c :: c in order ==> InGrid(c, rows, cols) && s.fields[Index(c, rows, cols)].Some?
    ensures var t := ExpandAll(s, rows, cols, end, order);
      Grows(s.fields, t.fields) &&
      forall c :: c in order ==> t.fields[Index(c, rows, cols)].Some? && t.fields[Index(c, rows, cols)].value.processed
  {
    if |order| > 0 {
      var n := |order| - 1;
      var c := order[n];
      var r := ExpandAll(s, rows, cols, end, order[..n]);
      ExpandAllDone(s, rows, cols, end, order[..n]);
      var u := Mark(r, rows, cols, c);
      var t := Expand(r, rows, cols, end, c);
      MarkFrame(r, rows, cols, c);
      CheckUpToKnown(u, rows, cols, end, c, r.fields[Index(c, rows, cols)].value.cost, |Moves|);
      GrowsTrans(r.fields, u.fields, t.fields);
      GrowsTrans(s.fields, r.fields, t.fields);
      forall d | d in order
        ensures t.fields[Index(d, rows, cols)].Some? && t.fields[Index(d, rows, cols)].value.processed
      {
        if d != c {
          var k :| 0 <= k < |order| && order[k] == d;
          assert order[..n][k] == d;
        }
      }
    }
  }

  /// Expanding frontier cells one after the other keeps every processed
  /// free cell's neighbours discovered.
  lemma {:induction false} ExpandAllExplored(s: Search, orig: seq<U64>, rows: nat, cols: nat, start: Cell, end: Cell,
                                             order: seq<Cell>)
    requires Sound(s, orig, rows, cols, start, end) && s.pending == [] && Explored(s.fields, orig, rows, cols)
    requires forall c :: c in order ==>
      InGrid(c, rows, cols) && orig[Index(c, rows, cols)] != Wall && s.fields[Index(c, rows, cols)].Some?
    ensures Explored(ExpandAll(s, rows, cols, end, order).fields, orig, rows, cols)
  {
    if |order| > 0 {
      var n := |order| - 1;
      var c := order[n];
      var r := ExpandAll(s, rows, cols, end, order[..n]);
      ExpandAllExplored(s, orig, rows, cols, start, end, order[..n]);
      ExpandAllSound(s, orig, rows, cols, start, end, order[..n]);
      ExpandExplored(r, orig, rows, cols, start, end, c);
    }
  }

  /// A frontier cell met after expanding others has a field, and its
  /// expansion writes only values that fit a u64.
  lemma BatchFits(s: Search, orig: seq<U64>, rows: nat, cols: nat, start: Cell, end: Cell,
                  order: seq<Cell>, c: Cell)
    requires Sound(s, orig, rows, cols, start, end) && s.pending == []
    requires forall c :: c in order ==>
      InGrid(c, rows, cols) && orig[Index(c, rows, cols)] != Wall && s.fields[Index(c, rows, cols)].Some?
    requires InGrid(c, rows, cols) && orig[Index(c, rows, cols)] != Wall && s.fields[Index(c, rows, cols)].Some?
    ensures var r := ExpandAll(s, rows, cols, end, order);
      r.fields[Index(c, rows, cols)].Some? && Fits(r, rows, cols, end, c)
  {
    var r := ExpandAll(s, rows, cols, end, order);
    ExpandAllSound(s, orig, rows, cols, start, end, order);
    ExpandFits(r, orig, rows, cols, start, end, c);
  }

  // ---------------------------------------------------------------------
  // Walks over free cells

  /// A walk over free cells of the area handed in, each step to an
  /// 8-neighbour.
  ghost predicate FreeWalk(orig: seq<U64>, rows: nat, cols: nat, w: seq<Cell>)
    requires |orig| == rows * cols
  {
    |w| > 0 &&
    (forall k :: 0 <= k < |w| ==> InGrid(w[k], rows, cols) && orig[Index(w[k], rows, cols)] != Wall) &&
    (forall k :: 0 <= k < |w| - 1 ==> Adjacent8(w[k], w[k + 1]))
  }

  /// Once every discovered cell is processed, every free walk from a
  /// discovered cell stays among discovered cells.
  lemma {:induction false} Reach(fields: seq<Option<Field>>, orig: seq<U64>, rows: nat, cols: nat, w: seq<Cell>)
    requires |fields| == rows * cols && |orig| == rows * cols && Explored(fields, orig, rows, cols)
    requires forall i :: 0 <= i < |fields| && fields[i].Some? ==> fields[i].value.processed
    requires FreeWalk(orig, rows, cols, w) && fields[Index(w[0], rows, cols)].Some?
    ensures fields[Index(w[|w| - 1], rows, cols)].Some?
  {
    if |w| > 1 {
      var i := Index(w[0], rows, cols);
      IndexInjective(CellAt(i, rows, cols), w[0], rows, cols);
      assert NeighboursKnown(fields, CellAt(i, rows, cols), rows, cols);
      assert Adjacent8(w[1], w[0]);
      assert FreeWalk(orig, rows, cols, w[1..]) by {
        forall k | 0 <= k < |w[1..]| - 1 ensures Adjacent8(w[1..][k], w[1..][k + 1]) {
          assert Adjacent8(w[k + 1], w[k + 2]);
        }
      }
      Reach(fields, orig, rows, cols, w[1..]);
    }
  }

  // ---------------------------------------------------------------------
  // The expansion of one frontier cell, in place

  /// The value a neighbour check writes into the area fits a u64.
  lemma CheckFits(s: Search, orig: seq<U64>, rows: nat, cols: nat, start: Cell, end: Cell,
                  from: Cell, base: nat, o: Option<Cell>, step: nat)
    requires Sound(s, orig, rows, cols, start, end) && Expanding(s, orig, rows, cols, from, base)
    requires o.Some? ==> InGrid(o.value, rows, cols) && Adjacent8(o.value, from) && step == StepCost(o.value, from)
    ensures o.Some? ==> Check(s, rows, cols, end, from, base, o, step).area[Index(o.value, rows, cols)] <= Wall
  {
    CheckSound(s, orig, rows, cols, start, end, from, base, o, step);
  }

  /// The value the `m`-th neighbour check of an expansion writes fits a
  /// u64.
  lemma CheckUpToFits(s: Search, orig: seq<U64>, rows: nat, cols: nat, start: Cell, end: Cell,
                      c: Cell, base: nat, m: nat)
    requires Sound(s, orig, rows, cols, start, end) && Expanding(s, orig, rows, cols, c, base) && m < |Moves|
    ensures var o := MoveTo(c, m, rows, cols);
      o.Some? ==> Check(CheckUpTo(s, rows, cols, end, c, base, m), rows, cols, end, c, base, o, Moves[m].2).area[Index(o.value, rows, cols)] <= Wall
  {
    CheckUpToSound(s, orig, rows, cols, start, end, c, base, m);
    MoveValid(c, m, rows, cols);
    CheckFits(CheckUpTo(s, rows, cols, end, c, base, m), orig, rows, cols, start, end, c, base, MoveTo(c, m, rows, cols), Moves[m].2);
  }

  /// Check the neighbour `f` of the expanded cell `from`, reached at cost
  /// `base` plus `cost`: discover it, relink it when the new cost is lower
  /// (an obstacle is always relinked, and marked processed), write its
  /// estimate divided by ten into the area unless it is an obstacle, and
  /// queue it unless it is processed.
  method CheckField(area: array<U64>, fields: seq<Option<Field>>, pending: seq<Pending>, rows: nat, cols: nat,
                    end: Cell, from: Cell, base: nat, f: Option<Cell>, cost: nat)
    returns (fields': seq<Option<Field>>, pending': seq<Pending>)
    requires area.Length == rows * cols && |fields| == rows * cols && (f.Some? ==> InGrid(f.value, rows, cols))
    requires f.Some? ==>
      Check(Search(area[..], fields, pending), rows, cols, end, from, base, f, cost).area[Index(f.value, rows, cols)] <= Wall
    modifies area
    ensures var t := Check(Search(old(area[..]), fields, pending), rows, cols, end, from, base, f, cost);
      area[..] == t.area && fields' == t.fields && pending' == t.pending
  {
    fields', pending' := fields, pending;
    if f.Some? {
      var fld := f.value;
      var pos := Index(fld, rows, cols);
      var newCost := base + cost;
      var neigh := if fields[pos].Some? then fields[pos].value else Discovered(from, newCost, Distance(fld, end));
      if area[pos] == Wall {
        neigh := neigh.(processed := true, estimate := Wall);
      }
      if area[pos] == Wall || neigh.cost > newCost {
        neigh := neigh.(prev := Some(from), cost := newCost, estimate := Estimate(newCost, neigh.dist));
      }
      if area[pos] != Wall {
        area[pos] := neigh.estimate / 10;
      }
      fields' := fields[pos := Some(neigh)];
      if !neigh.processed {
        pending' := pending + [Pending(fld, pos, neigh.estimate)];
      }
    }
  }

  /// The eight neighbours of `field` that an expansion checks, computed
  /// from the four orthogonal ones: a diagonal exists when both of its
  /// orthogonal steps stay in the grid. They are the moves of the table, in
  /// its order.
  method NeighboursOf(field: Cell, rows: nat, cols: nat) returns (neighbours: seq<Option<Cell>>)
    requires InGrid(field, rows, cols)
    ensures |neighbours| == |Moves|
    ensures forall k :: 0 <= k < |Moves| ==> neighbours[k] == MoveTo(field, k, rows, cols)
  {
    var rowNext := if field.0 + 1 < rows then Some((field.0 + 1, field.1)) else None;
    var rowPrev := if field.0 > 0 then Some((field.0 - 1, field.1)) else None;
    var colNext := if field.1 + 1 < cols then Some((field.0, field.1 + 1)) else None;
    var colPrev := if field.1 > 0 then Some((field.0, field.1 - 1)) else None;
    var rowNextDown := if rowNext.Some? && colNext.Some? then Some((field.0 + 1, field.1 + 1)) else None;
    var rowNextUp := if rowPrev.Some? && colNext.Some? then Some((field.0 - 1, field.1 + 1)) else None;
    var rowPrevDown := if rowNext.Some? && colPrev.Some? then Some((field.0 + 1, field.1 - 1)) else None;
    var rowPrevUp := if rowPrev.Some? && colPrev.Some? then Some((field.0 - 1, field.1 - 1)) else None;
    neighbours := [rowNextDown, rowNextUp, rowPrevDown, rowPrevUp, rowNext, rowPrev, colNext, colPrev];
  }

  /// Every value the expansion of `c` writes into the area fits a u64.
  ghost predicate Fits(s: Search, rows: nat, cols: nat, end: Cell, c: Cell)
    requires |s.area| == rows * cols && |s.fields| == rows * cols && InGrid(c, rows, cols)
    requires s.fields[Index(c, rows, cols)].Some?
  {
    var base := s.fields[Index(c, rows, cols)].value.cost;
    forall m :: 0 <= m < |Moves| && MoveTo(c, m, rows, cols).Some? ==>
      Check(CheckUpTo(Mark(s, rows, cols, c), rows, cols, end, c, base, m), rows, cols, end, c, base,
            MoveTo(c, m, rows, cols), Moves[m].2).area[Index(MoveTo(c, m, rows, cols).value, rows, cols)] <= Wall
  }

  /// In a sound search, expanding a discovered free cell writes only
  /// values that fit a u64.
  lemma ExpandFits(s: Search, orig: seq<U64>, rows: nat, cols: nat, start: Cell, end: Cell, c: Cell)
    requires Sound(s, orig, rows, cols, start, end) && InGrid(c, rows, cols)
    requires orig[Index(c, rows, cols)] != Wall && s.fields[Index(c, rows, cols)].Some?
    ensures Fits(s, rows, cols, end, c)
  {
    var base := s.fields[Index(c, rows, cols)].value.cost;
    MarkSound(s, orig, rows, cols, start, end, c);
    MarkExpanding(s, orig, rows, cols, c);
    forall m | 0 <= m < |Moves| && MoveTo(c, m, rows, cols).Some?
      ensures Check(CheckUpTo(Mark(s, rows, cols, c), rows, cols, end, c, base, m), rows, cols, end, c, base,
                    MoveTo(c, m, rows, cols), Moves[m].2).area[Index(MoveTo(c, m, rows, cols).value, rows, cols)] <= Wall
    {
      CheckUpToFits(Mark(s, rows, cols, c), orig, rows, cols, start, end, c, base, m);
    }
  }

  /// Expand the frontier cell `field`: mark it processed, then check its
  /// eight neighbours, the diagonals first, with its cost.
  method ExpandField(area: array<U64>, fields: seq<Option<Field>>, pending: seq<Pending>, rows: nat, cols: nat,
                     end: Cell, field: Cell)
    returns (fields': seq<Option<Field>>, pending': seq<Pending>)
    requires area.Length == rows * cols && |fields| == rows * cols && InGrid(field, rows, cols)
    requires fields[Index(field, rows, cols)].Some? && Fits(Search(area[..], fields, pending), rows, cols, end, field)
    modifies area
    ensures var t := Expand(Search(old(area[..]), fields, pending), rows, cols, end, field);
      area[..] == t.area && fields' == t.fields && pending' == t.pending
  {
    ghost var s0 := Search(area[..], fields, pending);
    var pos := Index(field, rows, cols);
    var current := fields[pos].value.(processed := true);
    fields' := fields[pos := Some(current)];
    pending' := pending;

    var base := current.cost;
    ghost var s1 := Mark(s0, rows, cols, field);
    var neighbours := NeighboursOf(field, rows, cols);
    for k := 0 to |Moves|
      invariant Search(area[..], fields', pending') == CheckUpTo(s1, rows, cols, end, field, base, k)
    {
      fields', pending' := CheckField(area, fields', pending', rows, cols, end, field, base, neighbours[k], Moves[k].2);
    }
  }

  // ---------------------------------------------------------------------
  // One round, in place

  /// The smallest estimate in the frontier, or 0 when the frontier is
  /// empty.
  method MinEstimate(cache: Frontier) returns (min: nat)
    ensures cache == map[] ==> min == 0
    ensures cache != map[] ==> exists k :: k in cache && cache[k].1 == min
    ensures forall k :: k in cache ==> min <= cache[k].1
  {
    min := 0;
    var keys := cache.Keys;
    var first := true;
    while keys != {}
      invariant keys <= cache.Keys && (first <==> keys == cache.Keys)
      invariant first ==> min == 0
      invariant !first ==> exists k :: k in cache && k !in keys && cache[k].1 == min
      invariant forall k :: k in cache && k !in keys ==> min <= cache[k].1
      decreases keys
    {
      var k :| k in keys;
      if first || cache[k].1 < min {
        min := cache[k].1;
      }
      first := false;
      keys := keys - {k};
    }
    if cache != map[] {
      assert exists k :: k in cache;
    }
  }

  /// Expand the next frontier cell of a batch, after the cells of
  /// `order`.
  method ExpandNext(area: array<U64>, fields: seq<Option<Field>>, pending: seq<Pending>, rows: nat, cols: nat,
                    end: Cell, field: Cell, ghost s0: Search, ghost order: seq<Cell>, ghost orig: seq<U64>, ghost start: Cell)
    returns (fields': seq<Option<Field>>, pending': seq<Pending>)
    requires area.Length == rows * cols && Sound(s0, orig, rows, cols, start, end) && s0.pending == []
    requires forall c :: c in order ==>
      InGrid(c, rows, cols) && orig[Index(c, rows, cols)] != Wall && s0.fields[Index(c, rows, cols)].Some?
    requires InGrid(field, rows, cols) && orig[Index(field, rows, cols)] != Wall && s0.fields[Index(field, rows, cols)].Some?
    requires Search(area[..], fields, pending) == ExpandAll(s0, rows, cols, end, order)
    modifies area
    ensures Search(area[..], fields', pending') == ExpandAll(s0, rows, cols, end, order + [field])
  {
    BatchFits(s0, orig, rows, cols, start, end, order, field);
    fields', pending' := ExpandField(area, fields, pending, rows, cols, end, field);
    assert (order + [field])[..|order|] == order;
  }

  /// `order` lists, without repetition, the cells of `batch` not in
  /// `todo`, each a discovered free cell.
  ghost predicate BatchOrder(order: seq<Cell>, todo: set<Cell>, batch: set<Cell>, fields: seq<Option<Field>>,
                             orig: seq<U64>, rows: nat, cols: nat)
    requires |fields| == rows * cols && |orig| == rows * cols
  {
    todo <= batch &&
    (forall c :: c in order <==> c in batch && c !in todo) &&
    (forall i, j :: 0 <= i < j < |order| ==> order[i] != order[j]) &&
    (forall c :: c in order ==> InGrid(c, rows, cols) && orig[Index(c, rows, cols)] != Wall && fields[Index(c, rows, cols)].Some?)
  }

  /// Taking one more cell of `todo` into the order keeps it a batch order.
  lemma BatchOrderStep(order: seq<Cell>, todo: set<Cell>, batch: set<Cell>, fields: seq<Option<Field>>,
                       orig: seq<U64>, rows: nat, cols: nat, c: Cell)
    requires |fields| == rows * cols && |orig| == rows * cols && BatchOrder(order, todo, batch, fields, orig, rows, cols)
    requires c in todo && InGrid(c, rows, cols) && orig[Index(c, rows, cols)] != Wall && fields[Index(c, rows, cols)].Some?
    ensures BatchOrder(order + [c], todo - {c}, batch, fields, orig, rows, cols)
  {
    var next := order + [c];
    forall i, j | 0 <= i < j < |next| ensures next[i] != next[j] {
      if j == |order| {
        assert next[i] in order;
      }
    }
  }

  /// Expand, in some order, every frontier cell whose estimate is `min`,
  /// and return the expanded cells in that order, the queued neighbours,
  /// and whether any cell was expanded.
  method ExpandBatch(area: array<U64>, fields: seq<Option<Field>>, cache: Frontier, min: nat, rows: nat, cols: nat,
                     end: Cell, ghost orig: seq<U64>, ghost start: Cell)
    returns (fields': seq<Option<Field>>, processed: seq<Cell>, pending: seq<Pending>, changed: bool)
    requires area.Length == rows * cols && Sound(Search(area[..], fields, []), orig, rows, cols, start, end)
    requires CacheOk(cache, fields, orig, rows, cols)
    modifies area
    ensures forall c :: c in processed ==> InGrid(c, rows, cols)
    ensures Search(area[..], fields', pending) == ExpandAll(Search(old(area[..]), fields, []), rows, cols, end, processed)
    ensures forall k :: k in processed <==> k in cache && cache[k].1 == min
    ensures forall i, j :: 0 <= i < j < |processed| ==> processed[i] != processed[j]
    ensures changed <==> processed != []
  {
    ghost var s0 := Search(area[..], fields, []);
    var todo := set k | k in cache.Keys && cache[k].1 == min;
    ghost var batch := todo;
    fields', processed, pending, changed := fields, [], [], false;
    while todo != {}
      invariant BatchOrder(processed, todo, batch, fields, orig, rows, cols)
      invariant Search(area[..], fields', pending) == ExpandAll(s0, rows, cols, end, processed)
      invariant changed <==> processed != []
      decreases todo
    {
      var field :| field in todo;
      BatchOrderStep(processed, todo, batch, fields, orig, rows, cols, field);
      fields', pending := ExpandNext(area, fields', pending, rows, cols, end, field, s0, processed, orig, start);
      processed := processed + [field];
      todo := todo - {field};
      changed := true;
    }
  }

  /// Remove the expanded cells from the frontier.
  method RemoveProcessed(cache: Frontier, processed: seq<Cell>) returns (kept: Frontier)
    ensures forall k :: k in kept <==> k in cache && k !in processed
    ensures forall k :: k in kept ==> kept[k] == cache[k]
  {
    kept := cache;
    for j := 0 to |processed|
      invariant forall k :: k in kept <==> k in cache && k !in processed[..j]
      invariant forall k :: k in kept ==> kept[k] == cache[k]
    {
      assert processed[..j + 1] == processed[..j] + [processed[j]];
      kept := kept - {processed[j]};
    }
    assert processed[..|processed|] == processed;
  }

  /// Insert the queued neighbours into the frontier, in the order they
  /// were queued.
  method InsertPending(cache: Frontier, pending: seq<Pending>) returns (r: Frontier)
    ensures r == Inserted(cache, pending)
  {
    r := cache;
    for j := 0 to |pending|
      invariant r == Inserted(cache, pending[..j])
    {
      assert pending[..j + 1][..j] == pending[..j];
      r := r[pending[j].cell := (pending[j].pos, pending[j].estimate)];
    }
    assert pending[..|pending|] == pending;
  }

  // ---------------------------------------------------------------------
  // Reading the path back, and the whole search

  /// `w` follows the `prev` links of discovered cells, each cell linking
  /// to the next, with costs strictly falling along the way.
  ghost predicate Chain(fields: seq<Option<Field>>, rows: nat, cols: nat, w: seq<Cell>)
    requires |fields| == rows * cols
  {
    (forall k :: 0 <= k < |w| ==> InGrid(w[k], rows, cols) && fields[Index(w[k], rows, cols)].Some?) &&
    (forall k :: 0 <= k < |w| - 1 ==> fields[Index(w[k], rows, cols)].value.prev == Some(w[k + 1])) &&
    (forall i, j :: 0 <= i < j < |w| ==>
      fields[Index(w[j], rows, cols)].value.cost < fields[Index(w[i], rows, cols)].value.cost)
  }

  /// The link of a discovered cell that has one leads to a discovered free
  /// 8-neighbour of lower cost.
  lemma LinkStep(fields: seq<Option<Field>>, orig: seq<U64>, rows: nat, cols: nat, start: Cell, c: Cell)
    requires |fields| == rows * cols && |orig| == rows * cols && InGrid(start, rows, cols)
    requires Links(fields, orig, rows, cols, start) && InGrid(c, rows, cols)
    requires fields[Index(c, rows, cols)].Some? && fields[Index(c, rows, cols)].value.prev.Some?
    ensures var p := fields[Index(c, rows, cols)].value.prev.value;
      InGrid(p, rows, cols) && Adjacent8(c, p) && orig[Index(p, rows, cols)] != Wall &&
      fields[Index(p, rows, cols)].Some? && fields[Index(p, rows, cols)].value.cost < fields[Index(c, rows, cols)].value.cost
  {
    var i := Index(c, rows, cols);
    assert LinkOk(fields, orig, rows, cols, start, i);
    IndexInjective(CellAt(i, rows, cols), c, rows, cols);
  }

  /// A discovered cell without a link is the start.
  lemma LinkEnd(fields: seq<Option<Field>>, orig: seq<U64>, rows: nat, cols: nat, start: Cell, c: Cell)
    requires |fields| == rows * cols && |orig| == rows * cols && InGrid(start, rows, cols)
    requires Links(fields, orig, rows, cols, start) && InGrid(c, rows, cols)
    requires fields[Index(c, rows, cols)].Some? && fields[Index(c, rows, cols)].value.prev.None?
    ensures c == start
  {
    assert LinkOk(fields, orig, rows, cols, start, Index(c, rows, cols));
    IndexInjective(c, start, rows, cols);
  }

  /// A chain extended by the link of its last cell is a chain.
  lemma ChainSnoc(fields: seq<Option<Field>>, rows: nat, cols: nat, w: seq<Cell>, p: Cell)
    requires |fields| == rows * cols && Chain(fields, rows, cols, w) && |w| > 0
    requires fields[Index(w[|w| - 1], rows, cols)].value.prev == Some(p)
    requires InGrid(p, rows, cols) && fields[Index(p, rows, cols)].Some?
    requires fields[Index(p, rows, cols)].value.cost < fields[Index(w[|w| - 1], rows, cols)].value.cost
    ensures Chain(fields, rows, cols, w + [p])
  {
    var v := w + [p];
    forall i, j | 0 <= i < j < |v|
      ensures fields[Index(v[j], rows, cols)].value.cost < fields[Index(v[i], rows, cols)].value.cost
    {
      if j == |w| && i < |w| - 1 {
        assert fields[Index(w[|w| - 1], rows, cols)].value.cost < fields[Index(w[i], rows, cols)].value.cost;
      }
    }
  }

  /// A free walk extended by a free 8-neighbour of its last cell is a free
  /// walk.
  lemma WalkSnoc(orig: seq<U64>, rows: nat, cols: nat, w: seq<Cell>, p: Cell)
    requires |orig| == rows * cols && FreeWalk(orig, rows, cols, w)
    requires InGrid(p, rows, cols) && orig[Index(p, rows, cols)] != Wall && Adjacent8(w[|w| - 1], p)
    ensures FreeWalk(orig, rows, cols, w + [p])
  {
  }

  /// Follow the `prev` links from the end until a field without one, or an
  /// undiscovered cell, and return the cells met, the end first.
  method FindPath(end: Cell, fields: seq<Option<Field>>, rows: nat, cols: nat, ghost orig: seq<U64>, ghost start: Cell)
    returns (path: seq<Cell>)
    requires |fields| == rows * cols && |orig| == rows * cols && InGrid(start, rows, cols)
    requires InGrid(end, rows, cols) && orig[Index(end, rows, cols)] != Wall
    requires Links(fields, orig, rows, cols, start)
    ensures FreeWalk(orig, rows, cols, path) && path[0] == end
    ensures forall k :: 0 <= k < |path| - 1 ==>
      fields[Index(path[k], rows, cols)].Some? && fields[Index(path[k], rows, cols)].value.prev == Some(path[k + 1])
    ensures forall i, j :: 0 <= i < j < |path| ==> path[i] != path[j]
    ensures fields[Index(end, rows, cols)].Some? ==> path[|path| - 1] == start
    ensures fields[Index(end, rows, cols)].None? ==> path == [end]
  {
    var last := end;
    path := [];
    while true
      invariant InGrid(last, rows, cols) && orig[Index(last, rows, cols)] != Wall
      invariant path == [] ==> last == end
      invariant path != [] ==> path[0] == end
      invariant path != [] ==> Chain(fields, rows, cols, path + [last])
      invariant path != [] ==> FreeWalk(orig, rows, cols, path + [last])
      decreases if fields[Index(last, rows, cols)].Some? then fields[Index(last, rows, cols)].value.cost + 1 else 0
    {
      var pos := Index(last, rows, cols);
      if path != [] {
        assert (path + [last])[|path|] == last;
      }
      path := path + [last];
      match fields[pos]
      case None =>
        break;
      case Some(field) =>
        match field.prev
        case None =>
          break;
        case Some(prev) =>
          LinkStep(fields, orig, rows, cols, start, last);
          ChainSnoc(fields, rows, cols, path, prev);
          WalkSnoc(orig, rows, cols, path, prev);
          last := prev;
    }
    var n := |path| - 1;
    if fields[Index(path[n], rows, cols)].Some? {
      LinkEnd(fields, orig, rows, cols, start, path[n]);
    }
    forall i, j | 0 <= i < j < |path| ensures path[i] != path[j] {
      assert fields[Index(path[j], rows, cols)].value.cost < fields[Index(path[i], rows, cols)].value.cost;
    }
  }

  /// The start cell reaches the end cell over free cells of the area.
  ghost predicate Reachable(orig: seq<U64>, rows: nat, cols: nat, a: Cell, b: Cell)
    requires |orig| == rows * cols
  {
    exists w :: FreeWalk(orig, rows, cols, w) && w[0] == a && w[|w| - 1] == b
  }

  /// The cells of `w` in reverse order.
  function Reversed(w: seq<Cell>): (r: seq<Cell>)
    ensures |r| == |w| && forall k :: 0 <= k < |w| ==> r[k] == w[|w| - 1 - k]
  {
    seq(|w|, k requires 0 <= k < |w| => w[|w| - 1 - k])
  }

  /// A free walk read backwards is a free walk.
  lemma WalkReversed(orig: seq<U64>, rows: nat, cols: nat, w: seq<Cell>)
    requires |orig| == rows * cols && FreeWalk(orig, rows, cols, w)
    ensures FreeWalk(orig, rows, cols, Reversed(w))
  {
    var r := Reversed(w);
    forall k | 0 <= k < |r| - 1 ensures Adjacent8(r[k], r[k + 1]) {
      assert Adjacent8(w[|w| - 2 - k], w[|w| - 1 - k]);
    }
  }

  /// The fields when the search begins: only the start is discovered, at
  /// cost 0.
  function Initial(rows: nat, cols: nat, start: Cell, end: Cell): (f: seq<Option<Field>>)
    requires InGrid(start, rows, cols)
    ensures |f| == rows * cols
  {
    var dist := Distance(start, end);
    seq(rows * cols, _ => None)[Index(start, rows, cols) := Some(Field(None, false, 0, Estimate(0, dist), dist))]
  }

  /// The search begins sound, with only the start in the frontier, and
  /// nothing processed.
  lemma StartSound(orig: seq<U64>, rows: nat, cols: nat, start: Cell, end: Cell)
    requires |orig| == rows * cols && rows * cols <= MaxCells && Fresh(orig)
    requires InGrid(start, rows, cols) && InGrid(end, rows, cols) && orig[Index(start, rows, cols)] != Wall
    ensures var f := Initial(rows, cols, start, end);
      var cache := map[start := (Index(start, rows, cols), 0)];
      Sound(Search(orig, f, []), orig, rows, cols, start, end) && Explored(f, orig, rows, cols) &&
      CacheOk(cache, f, orig, rows, cols) && Waiting(f, cache, rows, cols)
  {
    var f := Initial(rows, cols, start, end);
    var i0 := Index(start, rows, cols);
    assert CellAt(i0, rows, cols) == start by {
      IndexInjective(CellAt(i0, rows, cols), start, rows, cols);
    }
    assert Links(f, orig, rows, cols, start) by {
      forall i | 0 <= i < |f| && f[i].Some? ensures LinkOk(f, orig, rows, cols, start, i) {
        assert i == i0;
      }
    }
  }

  /// A round, from a sound search whose frontier holds every waiting
  /// cell: expanding every frontier cell of the smallest estimate, removing
  /// them from the frontier and inserting the queued neighbours leaves the
  /// search sound, with no cost raised, and the frontier exactly the waiting
  /// cells' home again.
  lemma RoundSound(s0: Search, orig: seq<U64>, rows: nat, cols: nat, start: Cell, end: Cell, cache: Frontier,
                   min: nat, processed: seq<Cell>, t: Search, kept: Frontier)
    requires Sound(s0, orig, rows, cols, start, end) && s0.pending == [] && Explored(s0.fields, orig, rows, cols)
    requires CacheOk(cache, s0.fields, orig, rows, cols) && Waiting(s0.fields, cache, rows, cols)
    requires forall c :: c in processed <==> c in cache && cache[c].1 == min
    requires t == ExpandAll(s0, rows, cols, end, processed)
    requires forall k :: k in kept <==> k in cache && k !in processed
    requires forall k :: k in kept ==> kept[k] == cache[k]
    ensures Sound(Search(t.area, t.fields, []), orig, rows, cols, start, end) && Explored(t.fields, orig, rows, cols)
    ensures Grows(s0.fields, t.fields) && Cheapens(s0.fields, t.fields, orig)
    ensures CacheOk(Inserted(kept, t.pending), t.fields, orig, rows, cols)
    ensures Waiting(t.fields, Inserted(kept, t.pending), rows, cols)
  {
    ExpandAllSound(s0, orig, rows, cols, start, end, processed);
    ExpandAllDone(s0, rows, cols, end, processed);
    ExpandAllExplored(s0, orig, rows, cols, start, end, processed);
    ExpandAllCheapens(s0, orig, rows, cols, start, end, processed);
    RoundCacheOk(t.area, s0.fields, t.fields, cache, kept, t.pending, orig, rows, cols, Unprocessed(s0.fields));
    var batch := set c | c in processed;
    RoundWaiting(t.area, s0.fields, t.fields, cache, kept, batch, t.pending, orig, rows, cols, Unprocessed(s0.fields));
  }

  /// A round that expands some cell brings the search closer to its end.
  lemma RoundDecreases(s0: Search, orig: seq<U64>, rows: nat, cols: nat, start: Cell, end: Cell, cache: Frontier,
                       min: nat, processed: seq<Cell>, t: Search, kept: Frontier)
    requires Sound(s0, orig, rows, cols, start, end) && s0.pending == []
    requires CacheOk(cache, s0.fields, orig, rows, cols) && processed != []
    requires forall c :: c in processed <==> c in cache && cache[c].1 == min
    requires t == ExpandAll(s0, rows, cols, end, processed)
    requires forall k :: k in kept <==> k in cache && k !in processed
    ensures var cache' := Inserted(kept, t.pending);
      Unprocessed(t.fields) < Unprocessed(s0.fields) ||
      (Unprocessed(t.fields) == Unprocessed(s0.fields) &&
       ProcessedKeys(cache', t.fields, rows, cols) < ProcessedKeys(cache, s0.fields, rows, cols))
  {
    ExpandAllSound(s0, orig, rows, cols, start, end, processed);
    ExpandAllDone(s0, rows, cols, end, processed);
    InsertedKeys(kept, t.pending);
    var batch := set c | c in processed;
    assert processed[0] in batch;
    RoundProgress(s0.fields, t.fields, cache, Inserted(kept, t.pending), batch, t.pending, rows, cols);
  }

  /// Once every discovered cell is processed, a cell left undiscovered
  /// cannot be reached from a discovered one.
  lemma Unreachable(fields: seq<Option<Field>>, orig: seq<U64>, rows: nat, cols: nat, a: Cell, b: Cell)
    requires |fields| == rows * cols && |orig| == rows * cols && Explored(fields, orig, rows, cols)
    requires forall i :: 0 <= i < |fields| && fields[i].Some? ==> fields[i].value.processed
    requires InGrid(a, rows, cols) && InGrid(b, rows, cols)
    requires fields[Index(a, rows, cols)].Some? && fields[Index(b, rows, cols)].None?
    ensures !Reachable(orig, rows, cols, a, b)
  {
    if Reachable(orig, rows, cols, a, b) {
      var w :| FreeWalk(orig, rows, cols, w) && w[0] == a && w[|w| - 1] == b;
      Reach(fields, orig, rows, cols, w);
      assert false;
    }
  }

  /// What holds between rounds: the search is sound with nothing queued,
  /// every processed free cell has had its neighbours discovered, the
  /// frontier holds discovered free cells and every waiting cell, and the
  /// start is discovered.
  ghost predicate Between(area: seq<nat>, fields: seq<Option<Field>>, cache: Frontier, orig: seq<U64>,
                          rows: nat, cols: nat, start: Cell, end: Cell)
  {
    Sound(Search(area, fields, []), orig, rows, cols, start, end) && Explored(fields, orig, rows, cols) &&
    CacheOk(cache, fields, orig, rows, cols) && Waiting(fields, cache, rows, cols) &&
    fields[Index(start, rows, cols)].Some?
  }

  /// One round of the search: expand every frontier cell of the smallest
  /// estimate, remove them from the frontier and insert the neighbours
  /// queued. A round that expands nothing found the frontier empty, so that
  /// every discovered cell is processed; any other round brings the search
  /// closer to its end. No round raises a cost, and a field is re-linked only
  /// for a strictly lower cost.
  method Round(area: array<U64>, fields: seq<Option<Field>>, cache: Frontier, rows: nat, cols: nat, end: Cell,
               ghost orig: seq<U64>, ghost start: Cell)
    returns (fields': seq<Option<Field>>, cache': Frontier, changed: bool)
    requires area.Length == rows * cols && Between(area[..], fields, cache, orig, rows, cols, start, end)
    modifies area
    ensures Between(area[..], fields', cache', orig, rows, cols, start, end)
    ensures |fields'| == |fields| && Cheapens(fields, fields', orig)
    ensures !changed ==> cache == map[] && fields' == fields
    ensures changed ==>
      Unprocessed(fields') < Unprocessed(fields) ||
      (Unprocessed(fields') == Unprocessed(fields) &&
       ProcessedKeys(cache', fields', rows, cols) < ProcessedKeys(cache, fields, rows, cols))
  {
    ghost var s0 := Search(area[..], fields, []);
    var min := MinEstimate(cache);
    var processed, pending;
    fields', processed, pending, changed := ExpandBatch(area, fields, cache, min, rows, cols, end, orig, start);
    var kept := RemoveProcessed(cache, processed);
    cache' := InsertPending(kept, pending);
    ghost var t := Search(area[..], fields', pending);
    RoundSound(s0, orig, rows, cols, start, end, cache, min, processed, t, kept);
    if changed {
      RoundDecreases(s0, orig, rows, cols, start, end, cache, min, processed, t, kept);
    } else {
      assert cache == map[];
    }
  }

  /// When the search stops, because the end shows a value or because
  /// every discovered cell is processed, obstacles are where they were, and
  /// the path read back reaches the start exactly when the start reaches the
  /// end; otherwise it is the end alone.
  lemma Outcome(area: seq<nat>, fields: seq<Option<Field>>, cache: Frontier, orig: seq<U64>,
                rows: nat, cols: nat, start: Cell, end: Cell, path: seq<Cell>)
    requires Between(area, fields, cache, orig, rows, cols, start, end)
    requires InGrid(end, rows, cols) && orig[Index(end, rows, cols)] != Wall
    requires area[Index(end, rows, cols)] != 0 || forall i :: 0 <= i < |fields| && fields[i].Some? ==> fields[i].value.processed
    requires FreeWalk(orig, rows, cols, path) && path[0] == end
    requires fields[Index(end, rows, cols)].Some? ==> path[|path| - 1] == start
    requires fields[Index(end, rows, cols)].None? ==> path == [end]
    ensures forall i :: 0 <= i < |area| ==> (area[i] == Wall <==> orig[i] == Wall)
    ensures path[|path| - 1] == start <==> Reachable(orig, rows, cols, start, end)
    ensures path[|path| - 1] != start ==> path == [end]
  {
    if path[|path| - 1] == start {
      WalkReversed(orig, rows, cols, path);
      assert Reversed(path)[|path| - 1] == end;
    } else {
      Unreachable(fields, orig, rows, cols, start, end);
    }
  }

  /// The batched A* search from `start` to `end` over `area`. Obstacles
  /// stay; every free cell left showing a value shows the estimate, divided
  /// by ten, of the field the search discovered there (`found`, which the
  /// source keeps in its local map), and every field's estimate is its cost
  /// plus its distance to the end. The path returned runs from the end back
  /// to the start over free cells, without repeating a cell. When the end
  /// cannot be reached, the path is the end alone.
  method Calculate(area: array<U64>, rows: nat, cols: nat, start: Cell, end: Cell)
    returns (path: seq<Cell>, ghost found: seq<Option<Field>>)
    requires area.Length == rows * cols && rows * cols <= MaxCells && Fresh(area[..])
    requires InGrid(start, rows, cols) && InGrid(end, rows, cols)
    requires area[Index(start, rows, cols)] != Wall && area[Index(end, rows, cols)] != Wall
    modifies area
    ensures forall i :: 0 <= i < area.Length ==> (area[i] == Wall <==> old(area[i]) == Wall)
    ensures |found| == rows * cols && Shown(Search(area[..], found, []), old(area[..]))
    ensures Estimates(Search(area[..], found, []), rows, cols, end)
    ensures Links(found, old(area[..]), rows, cols, start)
    ensures FreeWalk(old(area[..]), rows, cols, path) && path[0] == end
    ensures forall i, j :: 0 <= i < j < |path| ==> path[i] != path[j]
    ensures path[|path| - 1] == start <==> Reachable(old(area[..]), rows, cols, start, end)
    ensures path[|path| - 1] != start ==> path == [end]
  {
    ghost var orig := area[..];
    var cache: Frontier := map[start := (Index(start, rows, cols), 0)];
    var fields: seq<Option<Field>> := seq(area.Length, _ => None);
    var dist := Distance(start, end);
    fields := fields[Index(start, rows, cols) := Some(Field(None, false, 0, Estimate(0, dist), dist))];
    assert fields == Initial(rows, cols, start, end);
    StartSound(orig, rows, cols, start, end);
    while true
      invariant |fields| == rows * cols && Between(area[..], fields, cache, orig, rows, cols, start, end)
      decreases Unprocessed(fields), ProcessedKeys(cache, fields, rows, cols)
    {
      ghost var cache0 := cache;
      var changed;
      fields, cache, changed := Round(area, fields, cache, rows, cols, end, orig, start);
      if !changed {
        assert Waiting(fields, cache0, rows, cols);
        break;
      }
      if area[Index(end, rows, cols)] != 0 {
        break;
      }
    }
    path := FindPath(end, fields, rows, cols, orig, start);
    found := fields;
    Outcome(area[..], fields, cache, orig, rows, cols, start, end, path);
  }
}
