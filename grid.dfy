/// The occupancy grid shared by every planner: one flat vector of u64
/// values stored column by column, so that cell (row, col) of a grid with
/// `rows` rows sits at index `col * rows + row`. A value of u64::MAX marks
/// an obstacle, 0 a free cell that carries no label yet, and any other
/// value is a label written by a planner.
module Grid {

  /// u64::MAX, the obstacle marker.
  const Wall: nat := 0xFFFF_FFFF_FFFF_FFFF

  /// The values an area holds: 0 ..= u64::MAX.
  type U64 = x: nat | x <= Wall

  /// A cell as the planners pass it around: (row, col).
  type Cell = (nat, nat)

  datatype Option<T> = None | Some(value: T)

  /// An area as it is created: only free cells and obstacles.
  predicate Fresh(s: seq<U64>)
  {
    forall i :: 0 <= i < |s| ==> s[i] == 0 || s[i] == Wall
  }

  predicate InGrid(c: Cell, rows: nat, cols: nat)
  {
    c.0 < rows && c.1 < cols
  }

  /// Position of an in-grid cell in the flat, column-major area:
  /// `col * rows + row`.
  function Index(c: Cell, rows: nat, cols: nat): (i: nat)
    requires InGrid(c, rows, cols)
    ensures i < rows * cols
  {
    MulBelow(c.1, cols, rows);
    c.1 * rows + c.0
  }

  /// The row and column of a cell are recovered from its index.
  lemma IndexDivMod(c: Cell, rows: nat, cols: nat)
    requires InGrid(c, rows, cols)
    ensures Index(c, rows, cols) % rows == c.0 && Index(c, rows, cols) / rows == c.1
  {
    DivModOfIndex(c.1, c.0, rows);
  }

  /// Two in-grid cells share an index only if they are the same cell.
  lemma IndexInjective(a: Cell, b: Cell, rows: nat, cols: nat)
    requires InGrid(a, rows, cols) && InGrid(b, rows, cols)
    ensures Index(a, rows, cols) == Index(b, rows, cols) <==> a == b
  {
    IndexDivMod(a, rows, cols);
    IndexDivMod(b, rows, cols);
  }

  /// The cell stored at index `i` of the area.
  function CellAt(i: nat, rows: nat, cols: nat): (c: Cell)
    requires i < rows * cols
    ensures InGrid(c, rows, cols) && Index(c, rows, cols) == i
  {
    assert rows > 0;
    DivBelow(i, rows, cols);
    var c := (i % rows, i / rows);
    assert Index(c, rows, cols) == i;
    c
  }

  /// The two cells differ by one step in exactly one coordinate.
  predicate Adjacent4(a: Cell, b: Cell)
  {
    (a.0 == b.0 && (a.1 + 1 == b.1 || b.1 + 1 == a.1)) ||
    (a.1 == b.1 && (a.0 + 1 == b.0 || b.0 + 1 == a.0))
  }

  /// The cells differ by at most one step in each coordinate and are distinct.
  predicate Adjacent8(a: Cell, b: Cell)
  {
    a != b && a.0 <= b.0 + 1 && b.0 <= a.0 + 1 && a.1 <= b.1 + 1 && b.1 <= a.1 + 1
  }

  lemma MulBelow(k: nat, n: nat, m: nat)
    requires k < n
    ensures k * m + m <= n * m
  {
    calc {
      k * m + m;
      (k + 1) * m;
    <= { MulMonotone(k + 1, n, m); }
      n * m;
    }
  }

  lemma MulMonotone(a: nat, b: nat, m: nat)
    requires a <= b
    ensures a * m <= b * m
  {
  }

  lemma DivModOfIndex(q: nat, r: nat, m: nat)
    requires r < m
    ensures (q * m + r) % m == r && (q * m + r) / m == q
  {
    var a := q * m + r;
    var q', r' := a / m, a % m;
    assert q' * m + r' == q * m + r;
    if q' < q {
      MulMonotone(q' + 1, q, m);
    } else if q < q' {
      MulMonotone(q + 1, q', m);
    }
  }

  lemma DivBelow(i: nat, rows: nat, cols: nat)
    requires rows > 0 && i < rows * cols
    ensures i / rows < cols
  {
    var q := i / rows;
    assert q * rows <= i;
    if cols <= q {
      MulMonotone(cols, q, rows);
    }
  }

  /// The indices 0 .. n-1.
  function Below(n: nat): (r: set<nat>)
    ensures |r| == n
    ensures forall i: nat :: i in r <==> i < n
  {
    if n == 0 then {} else Below(n - 1) + {n - 1}
  }

  /// A subset is no larger than its superset.
  lemma SubsetCard<T>(a: set<T>, b: set<T>)
    requires a <= b
    ensures |a| <= |b|
  {
    assert b == a + (b - a);
    assert a * (b - a) == {};
  }
}
