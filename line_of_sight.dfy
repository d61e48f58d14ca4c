/// The straight-line obstacle test shared by both tree planners: a
/// Bresenham-style walk from `p1` toward `p2` that reports a collision as
/// soon as a visited cell holds u64::MAX. The walk keeps an error term
/// `err`, starts it at half of `dx` (or of `-dy`) rounded toward zero,
/// doubles it for the comparisons, and stops on reaching `p2` without
/// testing `p2` itself.
module LineOfSight {
  import opened Grid

  function Abs(a: int): nat
  {
    if a < 0 then -a else a
  }

  /// Signed integer division by two as i64 does it: rounding toward zero.
  function TruncHalf(v: int): (h: int)
    ensures 2 * Abs(h) <= Abs(v) && Abs(v) <= 2 * Abs(h) + 1
    ensures (v >= 0 ==> h >= 0) && (v <= 0 ==> h <= 0)
  {
    if v >= 0 then v / 2 else -((-v) / 2)
  }

  function Dx(p1: Cell, p2: Cell): nat { Abs(p1.0 - p2.0) }
  function Dy(p1: Cell, p2: Cell): nat { Abs(p1.1 - p2.1) }

  /// The error term before the first step.
  function Err0(p1: Cell, p2: Cell): int
  {
    TruncHalf(if Dx(p1, p2) > Dy(p1, p2) then Dx(p1, p2) as int else -(Dy(p1, p2) as int))
  }

  /// The error term once the walk has taken `u` steps along the rows and
  /// `v` steps along the columns: every row step subtracts `dy`, every
  /// column step adds `dx`.
  function ErrAt(p1: Cell, p2: Cell, u: nat, v: nat): int
  {
    Err0(p1, p2) - u * Dy(p1, p2) + v * Dx(p1, p2)
  }

  predicate StepsRow(p1: Cell, p2: Cell, u: nat, v: nat)
  {
    2 * ErrAt(p1, p2, u, v) > -(Dx(p1, p2) as int)
  }

  predicate StepsCol(p1: Cell, p2: Cell, u: nat, v: nat)
  {
    2 * ErrAt(p1, p2, u, v) < Dy(p1, p2)
  }

  /// Coordinate `k` steps from `a` in the direction of `b`.
  function Toward(a: nat, b: nat, k: nat): nat
    requires k <= Abs(a - b)
  {
    if a < b then a + k else a - k
  }

  predicate Between(x: nat, a: nat, b: nat)
  {
    (a <= x <= b) || (b <= x <= a)
  }

  function PenAt(p1: Cell, p2: Cell, u: nat, v: nat): (c: Cell)
    requires u <= Dx(p1, p2) && v <= Dy(p1, p2)
    ensures Between(c.0, p1.0, p2.0) && Between(c.1, p1.1, p2.1)
  {
    (Toward(p1.0, p2.0, u), Toward(p1.1, p2.1, v))
  }

  lemma MulLe(a: nat, b: nat, m: nat)
    requires a <= b
    ensures a * m <= b * m
  {
  }

  /// Twice the initial error term lies between `-dy` and `dx`.
  lemma Err0Bounds(p1: Cell, p2: Cell)
    ensures 2 * Err0(p1, p2) <= Dx(p1, p2) && -(Dy(p1, p2) as int) <= 2 * Err0(p1, p2)
  {
  }

  /// Once every row step is taken, the doubled error is at most `-dx`.
  lemma RowsUsedUp(p1: Cell, p2: Cell, v: nat)
    requires v < Dy(p1, p2)
    ensures 2 * ErrAt(p1, p2, Dx(p1, p2), v) <= -(Dx(p1, p2) as int)
  {
    var dx, dy := Dx(p1, p2), Dy(p1, p2);
    Err0Bounds(p1, p2);
    MulLe(v + 1, dy, dx);
    assert ErrAt(p1, p2, dx, v) <= Err0(p1, p2) - dx;
  }

  /// Once every column step is taken, the doubled error is at least `dy`.
  lemma ColsUsedUp(p1: Cell, p2: Cell, u: nat)
    requires u < Dx(p1, p2)
    ensures 2 * ErrAt(p1, p2, u, Dy(p1, p2)) >= Dy(p1, p2)
  {
    var dx, dy := Dx(p1, p2), Dy(p1, p2);
    Err0Bounds(p1, p2);
    MulLe(u + 1, dx, dy);
    assert ErrAt(p1, p2, u, dy) >= Err0(p1, p2) + dy;
  }

  /// From any position short of `p2` the walk moves at least one
  /// coordinate, and never past `p2` in either coordinate.
  lemma NoOvershoot(p1: Cell, p2: Cell, u: nat, v: nat)
    requires u <= Dx(p1, p2) && v <= Dy(p1, p2)
    requires u != Dx(p1, p2) || v != Dy(p1, p2)
    ensures StepsRow(p1, p2, u, v) ==> u < Dx(p1, p2)
    ensures StepsCol(p1, p2, u, v) ==> v < Dy(p1, p2)
    ensures StepsRow(p1, p2, u, v) || StepsCol(p1, p2, u, v)
  {
    if u == Dx(p1, p2) {
      RowsUsedUp(p1, p2, v);
    }
    if v == Dy(p1, p2) {
      ColsUsedUp(p1, p2, u);
    }
  }

  /// Row and column step counts after one more iteration from (u, v).
  function NextU(p1: Cell, p2: Cell, u: nat, v: nat): (u': nat)
    requires u <= Dx(p1, p2) && v <= Dy(p1, p2)
    requires u != Dx(p1, p2) || v != Dy(p1, p2)
    ensures u' <= Dx(p1, p2)
  {
    NoOvershoot(p1, p2, u, v);
    if StepsRow(p1, p2, u, v) then u + 1 else u
  }

  function NextV(p1: Cell, p2: Cell, u: nat, v: nat): (v': nat)
    requires u <= Dx(p1, p2) && v <= Dy(p1, p2)
    requires u != Dx(p1, p2) || v != Dy(p1, p2)
    ensures v' <= Dy(p1, p2)
  {
    NoOvershoot(p1, p2, u, v);
    if StepsCol(p1, p2, u, v) then v + 1 else v
  }

  /// The cells the walk tests, from the position (u, v) on, up to but
  /// excluding `p2`.
  function Trace(p1: Cell, p2: Cell, u: nat, v: nat): (r: seq<Cell>)
    requires u <= Dx(p1, p2) && v <= Dy(p1, p2)
    ensures forall c <- r :: Between(c.0, p1.0, p2.0) && Between(c.1, p1.1, p2.1)
    ensures |r| <= (Dx(p1, p2) - u) + (Dy(p1, p2) - v)
    decreases (Dx(p1, p2) - u) + (Dy(p1, p2) - v)
  {
    if u == Dx(p1, p2) && v == Dy(p1, p2) then []
    else
      NoOvershoot(p1, p2, u, v);
      [PenAt(p1, p2, u, v)] + Trace(p1, p2, NextU(p1, p2, u, v), NextV(p1, p2, u, v))
  }

  lemma TraceUnfold(p1: Cell, p2: Cell, u: nat, v: nat)
    requires u <= Dx(p1, p2) && v <= Dy(p1, p2)
    requires u != Dx(p1, p2) || v != Dy(p1, p2)
    ensures NextU(p1, p2, u, v) <= Dx(p1, p2) && NextV(p1, p2, u, v) <= Dy(p1, p2)
    ensures Trace(p1, p2, u, v)
      == [PenAt(p1, p2, u, v)] + Trace(p1, p2, NextU(p1, p2, u, v), NextV(p1, p2, u, v))
  {
    NoOvershoot(p1, p2, u, v);
  }

  /// One iteration updates the error term by `-dy` per row step and `+dx`
  /// per column step.
  lemma ErrStep(p1: Cell, p2: Cell, u: nat, v: nat)
    requires u <= Dx(p1, p2) && v <= Dy(p1, p2)
    requires u != Dx(p1, p2) || v != Dy(p1, p2)
    ensures ErrAt(p1, p2, NextU(p1, p2, u, v), NextV(p1, p2, u, v))
      == ErrAt(p1, p2, u, v)
         - (if StepsRow(p1, p2, u, v) then Dy(p1, p2) else 0)
         + (if StepsCol(p1, p2, u, v) then Dx(p1, p2) else 0)
  {
    var dx, dy := Dx(p1, p2), Dy(p1, p2);
    assert (u + 1) * dy == u * dy + dy;
    assert (v + 1) * dx == v * dx + dx;
  }

  /// The pen stands on `p2` exactly when both step counts are used up.
  lemma PenAtEnd(p1: Cell, p2: Cell, u: nat, v: nat)
    requires u <= Dx(p1, p2) && v <= Dy(p1, p2)
    ensures PenAt(p1, p2, u, v) == p2 <==> u == Dx(p1, p2) && v == Dy(p1, p2)
  {
  }

  /// Everything one iteration of the loop needs, stated over the concrete
  /// variables of `is_collision_free`: the doubled error decides the same
  /// steps as StepsRow/StepsCol, and the updated pen and error match the
  /// next position.
  lemma Iteration(p1: Cell, p2: Cell, u: nat, v: nat, err: int)
    requires u <= Dx(p1, p2) && v <= Dy(p1, p2)
    requires u != Dx(p1, p2) || v != Dy(p1, p2)
    requires err == ErrAt(p1, p2, u, v)
    ensures var u', v' := NextU(p1, p2, u, v), NextV(p1, p2, u, v);
      && u' <= Dx(p1, p2) && v' <= Dy(p1, p2)
      && (u' == u + 1 <==> 2 * err > -(Dx(p1, p2) as int))
      && (u' == u <==> !(2 * err > -(Dx(p1, p2) as int)))
      && (v' == v + 1 <==> 2 * err < Dy(p1, p2))
      && (v' == v <==> !(2 * err < Dy(p1, p2)))
      && ErrAt(p1, p2, u', v')
         == err - (if 2 * err > -(Dx(p1, p2) as int) then Dy(p1, p2) else 0)
            + (if 2 * err < Dy(p1, p2) then Dx(p1, p2) else 0)
      && Trace(p1, p2, u, v) == [PenAt(p1, p2, u, v)] + Trace(p1, p2, u', v')
  {
    TraceUnfold(p1, p2, u, v);
    ErrStep(p1, p2, u, v);
  }

  /// The concrete updates of one iteration of `is_collision_free` take the
  /// pen and the error term of position (u, v) to those of the next position.
  lemma Advance(p1: Cell, p2: Cell, u: nat, v: nat, x: int, y: int, err: int,
                x': int, y': int, err': int)
    requires u <= Dx(p1, p2) && v <= Dy(p1, p2)
    requires u != Dx(p1, p2) || v != Dy(p1, p2)
    requires x == Toward(p1.0, p2.0, u) && y == Toward(p1.1, p2.1, v)
    requires err == ErrAt(p1, p2, u, v)
    requires var dx, dy := Dx(p1, p2) as int, Dy(p1, p2) as int;
      var sx, sy := (if p1.0 < p2.0 then 1 else -1), (if p1.1 < p2.1 then 1 else -1);
      var e1 := if 2 * err > -dx then err - dy else err;
      && x' == (if 2 * err > -dx then x + sx else x)
      && y' == (if 2 * err < dy then y + sy else y)
      && err' == (if 2 * err < dy then e1 + dx else e1)
    ensures NextU(p1, p2, u, v) <= Dx(p1, p2) && NextV(p1, p2, u, v) <= Dy(p1, p2)
    ensures x' == Toward(p1.0, p2.0, NextU(p1, p2, u, v))
    ensures y' == Toward(p1.1, p2.1, NextV(p1, p2, u, v))
    ensures err' == ErrAt(p1, p2, NextU(p1, p2, u, v), NextV(p1, p2, u, v))
    ensures NextU(p1, p2, u, v) + NextV(p1, p2, u, v) > u + v
  {
    Iteration(p1, p2, u, v, err);
    NoOvershoot(p1, p2, u, v);
  }

  /// Every cell the collision test reads, in the order it reads them.
  function Raster(p1: Cell, p2: Cell): seq<Cell>
  {
    Trace(p1, p2, 0, 0)
  }

  /// `b` is one grid step from `a`, in each coordinate either staying or
  /// moving one cell toward `target`.
  predicate StepToward(a: Cell, b: Cell, target: Cell)
  {
    Adjacent8(a, b) && Between(b.0, a.0, target.0) && Between(b.1, a.1, target.1)
  }

  /// The cell the walk stands on after the k-th tested cell of `cells`:
  /// the next tested cell, or `p2` after the last one.
  function After(cells: seq<Cell>, k: nat, p2: Cell): Cell
    requires k < |cells|
  {
    if k + 1 < |cells| then cells[k + 1] else p2
  }

  /// One iteration moves the pen one step toward `p2`.
  lemma PenStep(p1: Cell, p2: Cell, u: nat, v: nat)
    requires u <= Dx(p1, p2) && v <= Dy(p1, p2)
    requires u != Dx(p1, p2) || v != Dy(p1, p2)
    ensures StepToward(PenAt(p1, p2, u, v), PenAt(p1, p2, NextU(p1, p2, u, v), NextV(p1, p2, u, v)), p2)
  {
    NoOvershoot(p1, p2, u, v);
  }

  /// Each cell of `t` is followed by a cell one step closer to `p2`, the
  /// last one by `p2` itself.
  predicate Chain(t: seq<Cell>, p2: Cell)
  {
    forall k :: 0 <= k < |t| ==> StepToward(t[k], After(t, k, p2), p2)
  }

  /// A chain toward `p2` stays one when a cell one step before its head is
  /// put in front of it.
  lemma ChainCons(a: Cell, t: seq<Cell>, p2: Cell, next: Cell)
    requires Chain(t, p2) && p2 !in t && a != p2
    requires (t != [] ==> t[0] == next) && (t == [] ==> next == p2)
    requires StepToward(a, next, p2)
    ensures Chain([a] + t, p2) && p2 !in [a] + t
  {
    var s := [a] + t;
    forall k | 0 <= k < |s|
      ensures StepToward(s[k], After(s, k, p2), p2)
    {
      if k > 0 {
        assert s[k] == t[k - 1] && After(s, k, p2) == After(t, k - 1, p2);
      }
    }
  }

  lemma {:induction false} TraceChain(p1: Cell, p2: Cell, u: nat, v: nat)
    requires u <= Dx(p1, p2) && v <= Dy(p1, p2)
    ensures var t := Trace(p1, p2, u, v);
      && (t == [] <==> u == Dx(p1, p2) && v == Dy(p1, p2))
      && (t != [] ==> t[0] == PenAt(p1, p2, u, v))
      && p2 !in t
      && Chain(t, p2)
    decreases (Dx(p1, p2) - u) + (Dy(p1, p2) - v)
  {
    PenAtEnd(p1, p2, u, v);
    if u != Dx(p1, p2) || v != Dy(p1, p2) {
      var u', v' := NextU(p1, p2, u, v), NextV(p1, p2, u, v);
      PenStep(p1, p2, u, v);
      TraceUnfold(p1, p2, u, v);
      TraceChain(p1, p2, u', v');
      PenAtEnd(p1, p2, u', v');
      ChainCons(PenAt(p1, p2, u, v), Trace(p1, p2, u', v'), p2, PenAt(p1, p2, u', v'));
    }
  }

  /// The raster is empty exactly for a zero-length segment; otherwise it
  /// starts at `p1`, never contains `p2`, and each of its cells is followed
  /// by a cell one step closer to `p2` (the last one by `p2` itself): the
  /// walk reaches `p2` without leaving the bounding box of the two ends.
  lemma RasterShape(p1: Cell, p2: Cell)
    ensures var r := Raster(p1, p2);
      && (r == [] <==> p1 == p2)
      && (r != [] ==> r[0] == p1)
      && p2 !in r
      && Chain(r, p2)
      && (forall c <- r :: Between(c.0, p1.0, p2.0) && Between(c.1, p1.1, p2.1))
      && |r| <= Dx(p1, p2) + Dy(p1, p2)
  {
    TraceChain(p1, p2, 0, 0);
  }

  /// No cell of the raster between `p1` and `p2` (excluding `p2`) is an obstacle.
  predicate CollisionFree(area: seq<U64>, rows: nat, cols: nat, p1: Cell, p2: Cell)
    requires |area| == rows * cols && InGrid(p1, rows, cols) && InGrid(p2, rows, cols)
  {
    forall c <- Raster(p1, p2) :: area[Index(c, rows, cols)] != Wall
  }

  /// The walk from the position (u, v) on meets no obstacle, stated the way
  /// the loop discovers it: the pen's cell is free and so is the rest.
  predicate FreeFrom(area: seq<U64>, rows: nat, cols: nat, p1: Cell, p2: Cell, u: nat, v: nat)
    requires |area| == rows * cols && InGrid(p1, rows, cols) && InGrid(p2, rows, cols)
    requires u <= Dx(p1, p2) && v <= Dy(p1, p2)
    decreases (Dx(p1, p2) - u) + (Dy(p1, p2) - v)
  {
    if u == Dx(p1, p2) && v == Dy(p1, p2) then true
    else
      NoOvershoot(p1, p2, u, v);
      area[Index(PenAt(p1, p2, u, v), rows, cols)] != Wall &&
      FreeFrom(area, rows, cols, p1, p2, NextU(p1, p2, u, v), NextV(p1, p2, u, v))
  }

  /// The walk meets no obstacle from (u, v) on exactly when no cell of the
  /// rest of its trace is one.
  lemma {:induction false} FreeFromTrace(area: seq<U64>, rows: nat, cols: nat, p1: Cell, p2: Cell, u: nat, v: nat)
    requires |area| == rows * cols && InGrid(p1, rows, cols) && InGrid(p2, rows, cols)
    requires u <= Dx(p1, p2) && v <= Dy(p1, p2)
    ensures FreeFrom(area, rows, cols, p1, p2, u, v)
      <==> forall c <- Trace(p1, p2, u, v) :: area[Index(c, rows, cols)] != Wall
    decreases (Dx(p1, p2) - u) + (Dy(p1, p2) - v)
  {
    if u != Dx(p1, p2) || v != Dy(p1, p2) {
      TraceUnfold(p1, p2, u, v);
      FreeFromTrace(area, rows, cols, p1, p2, NextU(p1, p2, u, v), NextV(p1, p2, u, v));
    }
  }

  /// Testing the pen's cell, which sits at `y * rows + x` of the area, and
  /// moving on leaves the rest of the walk.
  lemma FreeFromStep(area: seq<U64>, rows: nat, cols: nat, p1: Cell, p2: Cell, u: nat, v: nat, x: int, y: int)
    requires |area| == rows * cols && InGrid(p1, rows, cols) && InGrid(p2, rows, cols)
    requires u <= Dx(p1, p2) && v <= Dy(p1, p2)
    requires u != Dx(p1, p2) || v != Dy(p1, p2)
    requires x == Toward(p1.0, p2.0, u) && y == Toward(p1.1, p2.1, v)
    ensures NextU(p1, p2, u, v) <= Dx(p1, p2) && NextV(p1, p2, u, v) <= Dy(p1, p2)
    ensures 0 <= y * rows + x < |area|
    ensures FreeFrom(area, rows, cols, p1, p2, u, v)
      <==> area[y * rows + x] != Wall
           && FreeFrom(area, rows, cols, p1, p2, NextU(p1, p2, u, v), NextV(p1, p2, u, v))
  {
    NoOvershoot(p1, p2, u, v);
    var cell := PenAt(p1, p2, u, v);
    assert InGrid(cell, rows, cols) && y * rows + x == Index(cell, rows, cols);
  }

  /// One move of the pen in `is_collision_free`: the doubled error decides
  /// whether it steps along the rows, along the columns, or both.
  method MovePen(ghost p1: Cell, ghost p2: Cell, ghost u: nat, ghost v: nat,
                 x: int, y: int, err: int, dx: int, dy: int, sx: int, sy: int)
    returns (x': int, y': int, err': int)
    requires u <= Dx(p1, p2) && v <= Dy(p1, p2)
    requires u != Dx(p1, p2) || v != Dy(p1, p2)
    requires dx == Dx(p1, p2) && dy == Dy(p1, p2)
    requires sx == (if p1.0 < p2.0 then 1 else -1) && sy == (if p1.1 < p2.1 then 1 else -1)
    requires x == Toward(p1.0, p2.0, u) && y == Toward(p1.1, p2.1, v)
    requires err == ErrAt(p1, p2, u, v)
    ensures NextU(p1, p2, u, v) <= Dx(p1, p2) && NextV(p1, p2, u, v) <= Dy(p1, p2)
    ensures x' == Toward(p1.0, p2.0, NextU(p1, p2, u, v))
    ensures y' == Toward(p1.1, p2.1, NextV(p1, p2, u, v))
    ensures err' == ErrAt(p1, p2, NextU(p1, p2, u, v), NextV(p1, p2, u, v))
    ensures NextU(p1, p2, u, v) + NextV(p1, p2, u, v) > u + v
  {
    x', y', err' := x, y, err;
    var err2 := 2 * err;
    if err2 > -dx {
      err' := err' - dy;
      x' := x' + sx;
    }
    if err2 < dy {
      err' := err' + dx;
      y' := y' + sy;
    }
    Advance(p1, p2, u, v, x, y, err, x', y', err');
  }

  /// tree.rs `is_collision_free` (rrt.rs carries an identical copy): walks
  /// the raster from `p1` and answers false at the first obstacle.
  method IsCollisionFree(area: array<U64>, rows: nat, cols: nat, p1: Cell, p2: Cell) returns (free: bool)
    requires area.Length == rows * cols
    requires InGrid(p1, rows, cols) && InGrid(p2, rows, cols)
    ensures free <==> CollisionFree(area[..], rows, cols, p1, p2)
  {
    var dx: int := if p1.0 > p2.0 then p1.0 - p2.0 else p2.0 - p1.0;
    var dy: int := if p1.1 > p2.1 then p1.1 - p2.1 else p2.1 - p1.1;
    var sx: int := if p1.0 < p2.0 then 1 else -1;
    var sy: int := if p1.1 < p2.1 then 1 else -1;
    var err: int := TruncHalf(if dx > dy then dx else -dy);
    var x: int, y: int := p1.0, p1.1;
    ghost var u: nat, v: nat := 0, 0;
    assert dx == Dx(p1, p2) && dy == Dy(p1, p2);
    while !(x == p2.0 && y == p2.1)
      invariant dx == Dx(p1, p2) && dy == Dy(p1, p2)
      invariant u <= Dx(p1, p2) && v <= Dy(p1, p2)
      invariant x == Toward(p1.0, p2.0, u) && y == Toward(p1.1, p2.1, v)
      invariant err == ErrAt(p1, p2, u, v)
      invariant FreeFrom(area[..], rows, cols, p1, p2, 0, 0) <==> FreeFrom(area[..], rows, cols, p1, p2, u, v)
      decreases (Dx(p1, p2) - u) + (Dy(p1, p2) - v)
    {
      PenAtEnd(p1, p2, u, v);
      FreeFromStep(area[..], rows, cols, p1, p2, u, v, x, y);
      ghost var u', v' := NextU(p1, p2, u, v), NextV(p1, p2, u, v);
      if area[y * rows + x] == Wall {
        FreeFromTrace(area[..], rows, cols, p1, p2, 0, 0);
        return false;
      }
      x, y, err := MovePen(p1, p2, u, v, x, y, err, dx, dy, sx, sy);
      u, v := u', v';
    }
    PenAtEnd(p1, p2, u, v);
    assert u == Dx(p1, p2) && v == Dy(p1, p2);
    FreeFromTrace(area[..], rows, cols, p1, p2, 0, 0);
    return true;
  }
}
