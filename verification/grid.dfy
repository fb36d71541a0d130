/** The play field of the bubble shooter: constants, bubble records, the
    pixel/cell mapping with its half-cell shift on odd rows, and the
    six-neighbour adjacency the flood fills walk over. */
module Grid {

  // Game settings (script.js:12-16).
  const RADIUS: real := 15.0
  const DIAMETER: real := 2.0 * RADIUS
  const ROWS: int := 12
  const COLS: int := 15
  const START_ROWS: int := 5
  /** The row whose occupation ends the game. */
  const LAST_ROW: int := ROWS - 1

  /** Width of the canvas: one diameter per column. */
  const WIDTH: real := COLS as real * DIAMETER

  datatype Option<T> = None | Some(value: T)

  datatype Color = Red | Green | Blue | Yellow | Purple | Orange

  /** A bubble record: centre, colour, whether it rests in the grid, velocity,
      the grid cell it was placed in (-1 when it has none) and visibility.
      Every bubble has radius RADIUS, so the radius is not stored. */
  datatype Bubble = Bubble(x: real, y: real, color: Color, isStatic: bool,
                           dx: real, dy: real, row: int, col: int, visible: bool)

  /** A grid slot holds at most one bubble. */
  type Slot = Option<Bubble>

  datatype Cell = Cell(row: int, col: int)

  datatype Point = Point(x: real, y: real)

  /** The record the `Bubble` factory builds: at rest, visible, not moving. */
  function MakeBubble(x: real, y: real, color: Color, isStatic: bool, row: int, col: int): Bubble
  {
    Bubble(x, y, color, isStatic, 0.0, 0.0, row, col, true)
  }

  /** The bubble stored in slot `c`: centred on the slot, static, and knowing its own cell. */
  function Resting(c: Cell, color: Color): Bubble
  {
    var p := CanvasCoordinates(c);
    MakeBubble(p.x, p.y, color, true, c.row, c.col)
  }

  /** The grid the engine works on has exactly ROWS x COLS slots. */
  predicate Shaped(g: array2<Slot>)
  {
    g.Length0 == ROWS && g.Length1 == COLS
  }

  predicate InGrid(c: Cell)
  {
    0 <= c.row < ROWS && 0 <= c.col < COLS
  }

  /** Row-major order, the order every nested loop over the grid scans in. */
  predicate ScannedBefore(a: Cell, b: Cell)
  {
    a.row < b.row || (a.row == b.row && a.col < b.col)
  }

  function Min(a: int, b: int): int { if a <= b then a else b }

  function Max(a: int, b: int): int { if a >= b then a else b }

  // ---------------------------------------------------------------------
  // Row parity

  /** JavaScript's `%` on integers: the quotient is truncated towards zero,
      so the remainder takes the sign of the dividend. */
  function JsRem(a: int, b: int): int
    requires b > 0
  {
    if a >= 0 then a % b else -((-a) % b)
  }

  /** The source's test `r % 2 !== 0`; true for negative odd rows as well. */
  predicate IsOddRow(r: int)
  {
    JsRem(r, 2) != 0
  }

  /** Whatever the sign of the row, the parity test agrees with Euclidean `%`. */
  lemma OddRowIsRemainderOne(r: int)
    ensures IsOddRow(r) <==> r % 2 == 1
  {
    if r < 0 {
      assert (-r) % 2 == 0 <==> r % 2 == 0;
    }
  }

  lemma OddRowAlternates(r: int)
    ensures IsOddRow(r + 1) <==> !IsOddRow(r)
  {
    OddRowIsRemainderOne(r);
    OddRowIsRemainderOne(r + 1);
  }

  /** Odd rows are shifted right by half a cell. */
  function RowOffset(r: int): real
  {
    if IsOddRow(r) then RADIUS else 0.0
  }

  /** Number of usable columns: the shifted odd rows lose the last one. */
  function RowWidth(r: int): int
  {
    if IsOddRow(r) then COLS - 1 else COLS
  }

  /** A slot that a bubble may normally occupy. */
  predicate Usable(c: Cell)
  {
    0 <= c.row < ROWS && 0 <= c.col < RowWidth(c.row)
  }

  // ---------------------------------------------------------------------
  // Coordinate mapping

  /** The row whose band of pixels contains `y` (not clamped). */
  function PixelRow(y: real): (r: int)
    ensures r as real * DIAMETER <= y < (r + 1) as real * DIAMETER
  {
    (y / DIAMETER).Floor
  }

  /** The column under `x` in the row under `y`, before clamping. */
  function RawColumn(x: real, y: real): (c: int)
    ensures var left := x - RowOffset(PixelRow(y));
            c as real * DIAMETER <= left < (c + 1) as real * DIAMETER
  {
    ((x - RowOffset(PixelRow(y))) / DIAMETER).Floor
  }

  /** `getGridPosition`: the cell under a pixel. The column is clamped into the
      row's usable range; the row is not clamped. */
  function GridPosition(x: real, y: real): (p: Cell)
    ensures p.row as real * DIAMETER <= y < (p.row + 1) as real * DIAMETER
    ensures 0 <= p.col < RowWidth(p.row)
    ensures var left := x - RowOffset(p.row);
            0.0 <= left < RowWidth(p.row) as real * DIAMETER ==>
              p.col as real * DIAMETER <= left < (p.col + 1) as real * DIAMETER
    ensures p.col == Max(0, Min(RowWidth(p.row) - 1, RawColumn(x, y)))
  {
    var row := PixelRow(y);
    var odd := IsOddRow(row);
    var col := Max(0, Min(COLS - 1, RawColumn(x, y)));
    var col := if odd && col >= COLS - 1 then COLS - 2 else col;
    Cell(row, col)
  }

  /** `getCanvasCoordinates`: the centre of a cell. */
  function CanvasCoordinates(c: Cell): (p: Point)
    ensures c.row as real * DIAMETER < p.y < (c.row + 1) as real * DIAMETER
    ensures c.col as real * DIAMETER < p.x - RowOffset(c.row) < (c.col + 1) as real * DIAMETER
  {
    Point(c.col as real * DIAMETER + RADIUS + RowOffset(c.row), c.row as real * DIAMETER + RADIUS)
  }

  /** Every usable cell maps to its centre and back. */
  lemma GridPositionInvertsCanvas(c: Cell)
    requires Usable(c)
    ensures var p := CanvasCoordinates(c); GridPosition(p.x, p.y) == c
  {
    var p := CanvasCoordinates(c);
    var r := PixelRow(p.y);
    assert r == c.row by {
      assert r as real * DIAMETER <= p.y < (r + 1) as real * DIAMETER;
    }
    var raw := RawColumn(p.x, p.y);
    assert raw == c.col;
  }

  /** Squared Euclidean distance from a pixel to a point. */
  function DistSq(x: real, y: real, p: Point): real
  {
    (x - p.x) * (x - p.x) + (y - p.y) * (y - p.y)
  }

  // ---------------------------------------------------------------------
  // Adjacency

  /** The diagonal neighbours lean right on odd rows and left on even rows. */
  function DiagonalShift(r: int): int
  {
    if IsOddRow(r) then 1 else -1
  }

  /** `b` is one of the six cells of the direction table around `a`:
      west and east, north and south, and the two parity-dependent diagonals. */
  predicate Adjacent(a: Cell, b: Cell)
  {
    (b.row == a.row && (b.col == a.col - 1 || b.col == a.col + 1)) ||
    ((b.row == a.row - 1 || b.row == a.row + 1) && (b.col == a.col || b.col == a.col + DiagonalShift(a.row)))
  }

  lemma AdjacentSymmetric(a: Cell, b: Cell)
    requires Adjacent(a, b)
    ensures Adjacent(b, a)
  {
    OddRowAlternates(a.row);
    OddRowAlternates(a.row - 1);
  }

  predicate Occupied(g: array2<Slot>, c: Cell)
    requires Shaped(g)
    reads g
  {
    InGrid(c) && g[c.row, c.col].Some?
  }

  /** The six cells of the direction table around `a`, in the source's order:
      north, south, west, east, then the two diagonals. */
  function Directions(a: Cell): (ds: seq<Cell>)
    ensures forall b :: b in ds <==> Adjacent(a, b)
    ensures forall i, j :: 0 <= i < j < |ds| ==> ds[i] != ds[j]
  {
    var d := DiagonalShift(a.row);
    [Cell(a.row - 1, a.col), Cell(a.row + 1, a.col), Cell(a.row, a.col - 1),
     Cell(a.row, a.col + 1), Cell(a.row - 1, a.col + d), Cell(a.row + 1, a.col + d)]
  }

  /** A usable slot holding a bubble: what `getNeighbors` may report. */
  predicate Present(g: array2<Slot>, b: Cell)
    requires Shaped(g)
    reads g
  {
    Usable(b) && g[b.row, b.col].Some?
  }

  /** `b` is one of the cells `getNeighbors` reports around `a`. */
  predicate IsNeighbour(g: array2<Slot>, a: Cell, b: Cell)
    requires Shaped(g)
    reads g
  {
    Adjacent(a, b) && Present(g, b)
  }

  /** `a` is `b` with some elements left out and the rest kept in order. */
  predicate Subsequence<T(==)>(a: seq<T>, b: seq<T>)
    decreases |b|
  {
    if a == [] then true
    else if b == [] then false
    else (a[0] == b[0] && Subsequence(a[1..], b[1..])) || Subsequence(a, b[1..])
  }

  lemma {:induction false} SubsequenceGrow<T>(a: seq<T>, b: seq<T>, x: T)
    requires Subsequence(a, b)
    ensures Subsequence(a, b + [x])
    decreases |b|
  {
    if a != [] {
      assert (b + [x])[1..] == b[1..] + [x];
      if a[0] == b[0] && Subsequence(a[1..], b[1..]) {
        SubsequenceGrow(a[1..], b[1..], x);
      } else {
        SubsequenceGrow(a, b[1..], x);
      }
    }
  }

  /** Appending one element to both sides keeps a subsequence. */
  lemma {:induction false} SubsequenceExtend<T>(a: seq<T>, b: seq<T>, x: T)
    requires Subsequence(a, b)
    ensures Subsequence(a + [x], b + [x])
    decreases |b|
  {
    if b == [] {
      assert a + [x] == [x] && (a + [x])[1..] == [];
    } else {
      assert (b + [x])[1..] == b[1..] + [x];
      if a == [] {
        SubsequenceExtend(a, b[1..], x);
      } else if a[0] == b[0] && Subsequence(a[1..], b[1..]) {
        SubsequenceExtend(a[1..], b[1..], x);
        assert (a + [x])[1..] == a[1..] + [x];
      } else {
        SubsequenceExtend(a, b[1..], x);
      }
    }
  }

  /** The cells of `cs` that are usable and occupied, in order. */
  function KeepPresent(g: array2<Slot>, cs: seq<Cell>): (ns: seq<Cell>)
    requires Shaped(g)
    reads g
    ensures |ns| <= |cs|
    ensures Subsequence(ns, cs)
    ensures forall b :: b in ns <==> b in cs && Present(g, b)
    ensures (forall i, j :: 0 <= i < j < |cs| ==> cs[i] != cs[j]) ==>
            (forall i, j :: 0 <= i < j < |ns| ==> ns[i] != ns[j])
  {
    if cs == [] then []
    else
      var rest := KeepPresent(g, cs[1..]);
      if Present(g, cs[0]) then [cs[0]] + rest else rest
  }

  /** `getNeighbors`: the occupied, usable cells adjacent to `a`. */
  function Neighbours(g: array2<Slot>, a: Cell): (ns: seq<Cell>)
    requires Shaped(g)
    reads g
    ensures |ns| <= 6
    // Reported in the order of the direction table.
    ensures Subsequence(ns, Directions(a))
    ensures forall b :: b in ns <==> IsNeighbour(g, a, b)
    ensures forall i :: 0 <= i < |ns| ==> IsNeighbour(g, a, ns[i])
    ensures forall i, j :: 0 <= i < j < |ns| ==> ns[i] != ns[j]
  {
    KeepPresent(g, Directions(a))
  }

  /** Between usable occupied cells the neighbour relation is symmetric. */
  lemma NeighboursSymmetric(g: array2<Slot>, a: Cell, b: Cell)
    requires Shaped(g)
    requires Usable(a) && Occupied(g, a) && b in Neighbours(g, a)
    ensures a in Neighbours(g, b)
  {
    AdjacentSymmetric(a, b);
  }

  // ---------------------------------------------------------------------
  // Chains of bubbles

  /** Slot `c` holds a visible bubble, of colour `want` when one is asked for. */
  predicate Fits(g: array2<Slot>, want: Option<Color>, c: Cell)
    requires Shaped(g)
    reads g
  {
    InGrid(c) && g[c.row, c.col].Some? && g[c.row, c.col].value.visible &&
    (want.Some? ==> g[c.row, c.col].value.color == want.value)
  }

  /** A chain of fitting bubbles, each a neighbour of the one before. */
  predicate IsPath(g: array2<Slot>, want: Option<Color>, p: seq<Cell>)
    requires Shaped(g)
    reads g
    decreases |p|
  {
    |p| > 0 && Fits(g, want, p[0]) &&
    (|p| > 1 ==> IsNeighbour(g, p[0], p[1]) && IsPath(g, want, p[1..]))
  }

  ghost predicate Reachable(g: array2<Slot>, want: Option<Color>, from: Cell, to: Cell)
    requires Shaped(g)
    reads g
  {
    exists p: seq<Cell> :: IsPath(g, want, p) && p[0] == from && p[|p| - 1] == to
  }

  /** A bubble hangs from the ceiling: a chain of visible bubbles links it to row 0. */
  ghost predicate Supported(g: array2<Slot>, c: Cell)
    requires Shaped(g)
    reads g
  {
    exists p: seq<Cell> :: IsPath(g, None, p) && p[0].row == 0 && p[|p| - 1] == c
  }

  /** Every neighbour of a member that fits is a member. */
  ghost predicate Closed(g: array2<Slot>, want: Option<Color>, s: set<Cell>)
    requires Shaped(g)
    reads g
  {
    forall a, b :: a in s && IsNeighbour(g, a, b) && Fits(g, want, b) ==> b in s
  }

  lemma {:induction false} PathPrefix(g: array2<Slot>, want: Option<Color>, p: seq<Cell>, k: int)
    requires Shaped(g) && IsPath(g, want, p) && 0 < k <= |p|
    ensures IsPath(g, want, p[..k])
    decreases k
  {
    if k > 1 {
      PathPrefix(g, want, p[1..], k - 1);
      assert p[..k][1..] == p[1..][..k - 1];
    }
  }

  lemma {:induction false} PathExtend(g: array2<Slot>, want: Option<Color>, p: seq<Cell>, b: Cell)
    requires Shaped(g) && IsPath(g, want, p)
    requires IsNeighbour(g, p[|p| - 1], b) && Fits(g, want, b)
    ensures IsPath(g, want, p + [b])
    decreases |p|
  {
    if |p| == 1 {
      assert IsPath(g, want, [b]);
      assert (p + [b])[1..] == [b];
    } else {
      PathExtend(g, want, p[1..], b);
      assert (p + [b])[1..] == p[1..] + [b];
    }
  }

  /** Every cell of a chain fits. */
  lemma {:induction false} PathFits(g: array2<Slot>, want: Option<Color>, p: seq<Cell>, j: int)
    requires Shaped(g) && IsPath(g, want, p) && 0 <= j < |p|
    ensures Fits(g, want, p[j])
    decreases j
  {
    if j > 0 {
      PathFits(g, want, p[1..], j - 1);
    }
  }

  /** A closed set that holds the start of a chain holds its end. */
  lemma {:induction false} ClosedSetHoldsPath(g: array2<Slot>, want: Option<Color>, s: set<Cell>, p: seq<Cell>)
    requires Shaped(g) && IsPath(g, want, p) && p[0] in s && Closed(g, want, s)
    ensures p[|p| - 1] in s
    decreases |p|
  {
    if |p| > 1 {
      assert Fits(g, want, p[1]);
      ClosedSetHoldsPath(g, want, s, p[1..]);
    }
  }

  /** A closed set holds everything reachable from any of its members. */
  lemma ClosedSetHoldsReachable(g: array2<Slot>, want: Option<Color>, s: set<Cell>, from: Cell)
    requires Shaped(g) && from in s && Closed(g, want, s)
    ensures forall to :: Reachable(g, want, from, to) ==> to in s
  {
    forall to | Reachable(g, want, from, to) ensures to in s {
      var p :| IsPath(g, want, p) && p[0] == from && p[|p| - 1] == to;
      ClosedSetHoldsPath(g, want, s, p);
    }
  }

  lemma ReachableFromItself(g: array2<Slot>, want: Option<Color>, c: Cell)
    requires Shaped(g) && Fits(g, want, c)
    ensures Reachable(g, want, c, c)
  {
    assert IsPath(g, want, [c]);
  }

  /** A chain starts at a fitting cell. */
  lemma ReachableStartsFitting(g: array2<Slot>, want: Option<Color>, from: Cell, to: Cell)
    requires Shaped(g)
    ensures Reachable(g, want, from, to) ==> Fits(g, want, from)
  {
    if Reachable(g, want, from, to) {
      var p :| IsPath(g, want, p) && p[0] == from && p[|p| - 1] == to;
    }
  }

  /** A fitting neighbour of a reachable cell is reachable. */
  lemma ReachableStep(g: array2<Slot>, want: Option<Color>, from: Cell, a: Cell, b: Cell)
    requires Shaped(g) && Reachable(g, want, from, a)
    requires IsNeighbour(g, a, b) && Fits(g, want, b)
    ensures Reachable(g, want, from, b)
  {
    var p :| IsPath(g, want, p) && p[0] == from && p[|p| - 1] == a;
    PathExtend(g, want, p, b);
    assert (p + [b])[0] == from;
  }

  /** A visible neighbour of a supported bubble is supported. */
  lemma SupportedStep(g: array2<Slot>, a: Cell, b: Cell)
    requires Shaped(g) && Supported(g, a)
    requires IsNeighbour(g, a, b) && Fits(g, None, b)
    ensures Supported(g, b)
  {
    var p: seq<Cell> :| IsPath(g, None, p) && p[0].row == 0 && p[|p| - 1] == a;
    PathExtend(g, None, p, b);
    assert (p + [b])[0] == p[0];
  }

  /** Every visible bubble in row 0 is supported: it is its own chain. */
  lemma CeilingSupported(g: array2<Slot>, c: int)
    requires Shaped(g) && Fits(g, None, Cell(0, c))
    ensures Supported(g, Cell(0, c))
  {
    assert IsPath(g, None, [Cell(0, c)]);
  }

  /** Every cell of a supporting chain is itself supported. */
  lemma SupportAlongPath(g: array2<Slot>, p: seq<Cell>, j: int)
    requires Shaped(g) && IsPath(g, None, p) && p[0].row == 0 && 0 <= j < |p|
    ensures Supported(g, p[j])
  {
    PathPrefix(g, None, p, j + 1);
    assert p[..j + 1][0] == p[0];
  }

  /** A chain of two or more cells ends in a usable, occupied slot: it
      entered that slot as a reported neighbour. */
  lemma {:induction false} PathEndPresent(g: array2<Slot>, want: Option<Color>, p: seq<Cell>)
    requires Shaped(g) && IsPath(g, want, p) && |p| > 1
    ensures Present(g, p[|p| - 1])
    decreases |p|
  {
    if |p| > 2 {
      PathEndPresent(g, want, p[1..]);
    }
  }

  /** A bubble in an unusable slot below row 0 (the end of a shifted odd
      row) is never supported: no neighbour list ever reports that slot. */
  lemma UnusableNeverSupported(g: array2<Slot>, c: Cell)
    requires Shaped(g) && c.row != 0 && !Usable(c)
    ensures !Supported(g, c)
  {
    if Supported(g, c) {
      var p: seq<Cell> :| IsPath(g, None, p) && p[0].row == 0 && p[|p| - 1] == c;
      PathEndPresent(g, None, p);
    }
  }

  /** The whole grid as a set of cells. */
  ghost const AllCells: set<Cell> := set r, c | 0 <= r < ROWS && 0 <= c < COLS :: Cell(r, c)

  lemma InAllCells(c: Cell)
    requires InGrid(c)
    ensures c in AllCells
  {
    assert c == Cell(c.row, c.col);
  }

  /** Growing a set of grid cells shrinks the set of cells outside it. */
  lemma FewerOutside(s: set<Cell>, s': set<Cell>)
    requires s < s' && forall c :: c in s' ==> InGrid(c)
    ensures AllCells - s' < AllCells - s
  {
    var c :| c in s' && c !in s;
    InAllCells(c);
  }
}
