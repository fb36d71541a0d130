/** The game state of script.js (its module-level variables) as one object:
    the grid, the score, the game-over flag and the three bubbles outside
    the grid, with the operations that change them. */
module Game {
  import opened Grid
  import opened Matching
  import opened Snapping

  /** The canvas is two rows taller than the grid, for the shooter. */
  const HEIGHT: real := (ROWS + 2) as real * DIAMETER
  /** How far the shooter sits above the bottom edge, below its own radius. */
  const SHOOTER_Y_OFFSET: real := 20.0
  const SHOOTER_X: real := WIDTH / 2.0
  const SHOOTER_Y: real := HEIGHT - RADIUS - SHOOTER_Y_OFFSET

  /** Pop threshold and points per popped and per dropped bubble. */
  const MIN_MATCH: int := 3
  const POP_POINTS: int := 10
  const DROP_POINTS: int := 20

  /** A bubble waiting at the shooter (or in the preview): not in the grid. */
  function Loose(x: real, y: real, colour: Color): Bubble
  {
    MakeBubble(x, y, colour, false, -1, -1)
  }

  /** Every stored bubble is the resting bubble of its own slot. */
  predicate Settled(g: array2<Slot>)
    requires Shaped(g)
    reads g
  {
    forall r, c :: 0 <= r < ROWS && 0 <= c < COLS && g[r, c].Some? ==>
      g[r, c].value == Resting(Cell(r, c), g[r, c].value.color)
  }

  lemma SettledKnowsCells(g: array2<Slot>)
    requires Shaped(g) && Settled(g)
    ensures SlotsKnowTheirCells(g)
  {
  }

  /** What `initGrid` puts in slot `c`: a resting bubble in the first
      START_ROWS rows, except past the end of a shifted odd row. */
  function InitialSlot(c: Cell, colour: Color): Slot
  {
    if c.row < START_ROWS && Usable(c) then Some(Resting(c, colour)) else None
  }

  predicate IsInitial(g: array2<Slot>, colourAt: Cell -> Color)
    requires Shaped(g)
    reads g
  {
    forall r, c :: 0 <= r < ROWS && 0 <= c < COLS ==>
      g[r, c] == InitialSlot(Cell(r, c), colourAt(Cell(r, c)))
  }

  /** Every bubble of the starting grid hangs from the ceiling: each one
      below row 0 has a bubble straight above it, or, at the end of an even
      row, diagonally above it. */
  lemma {:induction false} InitialCellSupported(g: array2<Slot>, colourAt: Cell -> Color, c: Cell)
    requires Shaped(g) && IsInitial(g, colourAt)
    requires c.row < START_ROWS && Usable(c)
    ensures Supported(g, c)
    decreases c.row
  {
    if c.row == 0 {
      CeilingSupported(g, c.col);
    } else {
      OddRowAlternates(c.row - 1);
      var parent := if IsOddRow(c.row) || c.col < COLS - 1 then Cell(c.row - 1, c.col)
                    else Cell(c.row - 1, c.col - 1);
      InitialCellSupported(g, colourAt, parent);
      assert Adjacent(parent, c);
      SupportedStep(g, parent, c);
    }
  }

  /** The starting grid: settled, not lost, and every bubble supported. */
  lemma InitialGridSound(g: array2<Slot>, colourAt: Cell -> Color)
    requires Shaped(g) && IsInitial(g, colourAt)
    ensures Settled(g)
    ensures forall c :: 0 <= c < COLS ==> !Fits(g, None, Cell(LAST_ROW, c))
    ensures forall c :: Fits(g, None, c) ==> Supported(g, c)
  {
    forall c | Fits(g, None, c) ensures Supported(g, c) {
      InitialCellSupported(g, colourAt, c);
    }
  }

  /** The cells a chain of visible bubbles runs through all lie in `s`. */
  ghost predicate SupportedWithin(g: array2<Slot>, s: set<Cell>, c: Cell)
    requires Shaped(g)
    reads g
  {
    exists p: seq<Cell> :: IsPath(g, None, p) && p[0].row == 0 && p[|p| - 1] == c &&
                           forall i :: 0 <= i < |p| ==> InGrid(p[i]) && p[i] in s
  }

  /** A supported bubble hangs by a chain of supported bubbles. */
  lemma SupportWitnesses(g: array2<Slot>, s: set<Cell>)
    requires Shaped(g) && forall c :: c in s <==> Supported(g, c)
    ensures forall c {:trigger SupportedWithin(g, s, c)} :: c in s ==> SupportedWithin(g, s, c)
  {
    forall c | c in s ensures SupportedWithin(g, s, c) {
      var p: seq<Cell> :| IsPath(g, None, p) && p[0].row == 0 && p[|p| - 1] == c;
      forall i | 0 <= i < |p| ensures InGrid(p[i]) && p[i] in s {
        PathFits(g, None, p, i);
        SupportAlongPath(g, p, i);
      }
    }
  }

  /** A chain of bubbles in `g` is one in `h` too when `h` holds the same
      bubbles in the chain's slots. */
  lemma {:induction false} PathCarries(g: array2<Slot>, h: array2<Slot>, want: Option<Color>, p: seq<Cell>)
    requires Shaped(g) && Shaped(h) && IsPath(g, want, p)
    requires forall i :: 0 <= i < |p| ==> InGrid(p[i]) && h[p[i].row, p[i].col] == g[p[i].row, p[i].col]
    ensures IsPath(h, want, p)
    decreases |p|
  {
    if |p| > 1 {
      PathCarries(g, h, want, p[1..]);
    }
  }

  /** A chain of bubbles in `g` is one in any grid with the same contents. */
  lemma PathCopies(g: array2<Slot>, h: array2<Slot>, want: Option<Color>, p: seq<Cell>)
    requires Shaped(g) && Shaped(h) && IsPath(g, want, p)
    requires forall i, j :: 0 <= i < ROWS && 0 <= j < COLS ==> h[i, j] == g[i, j]
    ensures IsPath(h, want, p)
  {
    forall i | 0 <= i < |p| ensures InGrid(p[i]) {
      PathFits(g, want, p, i);
    }
    PathCarries(g, h, want, p);
  }

  /** Two grids with the same contents have the same groups and the same
      supported bubbles. */
  lemma SameGrid(g: array2<Slot>, h: array2<Slot>)
    requires Shaped(g) && Shaped(h)
    requires forall i, j :: 0 <= i < ROWS && 0 <= j < COLS ==> h[i, j] == g[i, j]
    ensures forall want, from, to :: Reachable(g, want, from, to) <==> Reachable(h, want, from, to)
    ensures forall c :: Supported(g, c) <==> Supported(h, c)
  {
    forall want, from, to | Reachable(g, want, from, to) ensures Reachable(h, want, from, to) {
      var p :| IsPath(g, want, p) && p[0] == from && p[|p| - 1] == to;
      PathCopies(g, h, want, p);
    }
    forall want, from, to | Reachable(h, want, from, to) ensures Reachable(g, want, from, to) {
      var p :| IsPath(h, want, p) && p[0] == from && p[|p| - 1] == to;
      PathCopies(h, g, want, p);
    }
    forall c | Supported(g, c) ensures Supported(h, c) {
      var p: seq<Cell> :| IsPath(g, None, p) && p[0].row == 0 && p[|p| - 1] == c;
      PathCopies(g, h, None, p);
    }
    forall c | Supported(h, c) ensures Supported(g, c) {
      var p: seq<Cell> :| IsPath(h, None, p) && p[0].row == 0 && p[|p| - 1] == c;
      PathCopies(h, g, None, p);
    }
  }

  /** A chain inside `s` survives in `h` when `h` agrees with `g` on `s`. */
  lemma SupportCarries(g: array2<Slot>, h: array2<Slot>, s: set<Cell>, c: Cell)
    requires Shaped(g) && Shaped(h) && SupportedWithin(g, s, c)
    requires forall x :: x in s && InGrid(x) ==> h[x.row, x.col] == g[x.row, x.col]
    ensures SupportedWithin(h, s, c)
  {
    var p: seq<Cell> :| IsPath(g, None, p) && p[0].row == 0 && p[|p| - 1] == c &&
                        forall i :: 0 <= i < |p| ==> InGrid(p[i]) && p[i] in s;
    PathCarries(g, h, None, p);
  }

  /** A copy of a grid holds the same chains. */
  lemma CopyKeepsChains(g: array2<Slot>, h: array2<Slot>, s: set<Cell>)
    requires Shaped(g) && Shaped(h)
    requires forall c {:trigger SupportedWithin(g, s, c)} :: c in s ==> SupportedWithin(g, s, c)
    requires forall i, j :: 0 <= i < ROWS && 0 <= j < COLS ==> h[i, j] == g[i, j]
    ensures forall c {:trigger SupportedWithin(h, s, c)} :: c in s ==> SupportedWithin(h, s, c)
  {
    forall c | c in s ensures SupportedWithin(h, s, c) {
      SupportCarries(g, h, s, c);
    }
  }

  /** When `after` keeps the slots of a set that holds its own supporting
      chains in `before`, and shows no visible bubble outside it, every
      visible bubble of `after` is supported. */
  lemma StillSupported(before: array2<Slot>, after: array2<Slot>, s: set<Cell>)
    requires Shaped(before) && Shaped(after)
    requires forall c {:trigger SupportedWithin(before, s, c)} :: c in s ==> SupportedWithin(before, s, c)
    requires forall c :: c in s && InGrid(c) ==> after[c.row, c.col] == before[c.row, c.col]
    requires forall c :: Fits(after, None, c) ==> c in s
    ensures forall c :: Fits(after, None, c) ==> Supported(after, c)
  {
    forall c | Fits(after, None, c) ensures Supported(after, c) {
      SupportCarries(before, after, s, c);
    }
  }

  /** The sweep leaves every remaining visible bubble supported: it keeps
      exactly the slots of `s`, whose chains stay inside `s`. */
  lemma SweepKeepsSupport(before: array2<Slot>, after: array2<Slot>, s: set<Cell>, dropped: set<Cell>)
    requires Shaped(before) && Shaped(after)
    requires forall c {:trigger SupportedWithin(before, s, c)} :: c in s ==> SupportedWithin(before, s, c)
    requires forall x :: x in dropped <==> InGrid(x) && Fits(before, None, x) && x !in s
    requires forall r, c :: 0 <= r < ROWS && 0 <= c < COLS ==>
               after[r, c] == if Cell(r, c) in dropped then None else before[r, c]
    ensures forall c :: Fits(after, None, c) ==> Supported(after, c)
  {
    StillSupported(before, after, s);
  }

  /** A bubble the sweep drops: stored in slot (r, c), visible, and not supported. */
  predicate Drops(slot: Slot, supported: set<Cell>, r: int, c: int)
  {
    slot.Some? && slot.value.visible && Cell(r, c) !in supported
  }

  /** One row of the sweep of `removeFloatingBubbles`. */
  method DropRow(g: array2<Slot>, supported: set<Cell>, r: int) returns (ghost dropped: set<Cell>, count: int)
    requires Shaped(g) && 0 <= r < ROWS
    modifies g
    ensures count == |dropped|
    ensures forall x :: x in dropped <==> x.row == r && 0 <= x.col < COLS && Drops(old(g[r, x.col]), supported, r, x.col)
    ensures forall i, j :: 0 <= i < ROWS && 0 <= j < COLS ==>
              g[i, j] == if Cell(i, j) in dropped then None else old(g[i, j])
  {
    count := 0;
    dropped := {};
    for c := 0 to COLS
      invariant count == |dropped|
      invariant forall x :: x in dropped <==> x.row == r && 0 <= x.col < c && Drops(old(g[r, x.col]), supported, r, x.col)
      invariant forall i, j :: 0 <= i < ROWS && 0 <= j < COLS ==>
                  g[i, j] == if Cell(i, j) in dropped then None else old(g[i, j])
    {
      if g[r, c].Some? && g[r, c].value.visible && Cell(r, c) !in supported {
        g[r, c] := None;
        dropped := dropped + {Cell(r, c)};
        count := count + 1;
      }
    }
  }

  /** The sweep of `removeFloatingBubbles`: in row-major order, empty every
      slot whose visible bubble is not in `supported`, counting them.
      `before` is a copy of the grid the sweep starts from. */
  method DropUnsupported(g: array2<Slot>, ghost before: array2<Slot>, supported: set<Cell>)
      returns (ghost dropped: set<Cell>, count: int)
    requires Shaped(g) && Shaped(before) && g != before
    requires forall i, j :: 0 <= i < ROWS && 0 <= j < COLS ==> g[i, j] == before[i, j]
    modifies g
    ensures count == |dropped|
    ensures forall x :: x in dropped <==> InGrid(x) && Fits(before, None, x) && x !in supported
    ensures forall r, c :: 0 <= r < ROWS && 0 <= c < COLS ==>
              g[r, c] == if Cell(r, c) in dropped then None else before[r, c]
  {
    count := 0;
    dropped := {};
    for r := 0 to ROWS
      invariant count == |dropped|
      invariant forall x :: x in dropped <==> 0 <= x.row < r && 0 <= x.col < COLS && Drops(before[x.row, x.col], supported, x.row, x.col)
      invariant forall i, j :: 0 <= i < ROWS && 0 <= j < COLS ==>
                  g[i, j] == if Cell(i, j) in dropped then None else before[i, j]
    {
      var row, n := DropRow(g, supported, r);
      dropped, count := dropped + row, count + n;
    }
  }

  /** A copy of the grid, for stating what an update of it keeps. */
  ghost method Snapshot(g: array2<Slot>) returns (h: array2<Slot>)
    requires Shaped(g)
    ensures fresh(h) && Shaped(h)
    ensures forall i, j :: 0 <= i < ROWS && 0 <= j < COLS ==> h[i, j] == g[i, j]
  {
    h := new Slot[ROWS, COLS]((i, j) reads g => if 0 <= i < ROWS && 0 <= j < COLS then g[i, j] else None);
  }

  /** What a shot leaves in the grid once its bubble is stored. `placed` is
      the grid with the bubble in `cell`, and `matched` is exactly its
      same-colour group there, each cell once, so its length is the group's size. A group of MIN_MATCH or more is removed,
      giving `mid`; then exactly the visible bubbles of `mid` that no longer
      hang from row 0 are dropped, giving `after`. A smaller group leaves
      `placed` as it is. */
  ghost predicate Cascade(placed: array2<Slot>, mid: array2<Slot>, after: array2<Slot>,
                          cell: Cell, colour: Color, matched: seq<Bubble>, dropped: set<Cell>)
    reads placed, mid, after
  {
    Shaped(placed) && Shaped(mid) && Shaped(after) &&
    (forall c :: c in CellsOf(matched) <==> Reachable(placed, Some(colour), cell, c)) &&
    (forall i, j :: 0 <= i < j < |matched| ==> CellOf(matched[i]) != CellOf(matched[j])) &&
    |matched| == |CellsOf(matched)| &&
    (|matched| >= MIN_MATCH ==>
       (forall r, c :: 0 <= r < ROWS && 0 <= c < COLS ==>
          mid[r, c] == if Cell(r, c) in CellsOf(matched) then None else placed[r, c]) &&
       (forall x :: x in dropped <==> InGrid(x) && Fits(mid, None, x) && !Supported(mid, x)) &&
       (forall r, c :: 0 <= r < ROWS && 0 <= c < COLS ==>
          after[r, c] == if Cell(r, c) in dropped then None else mid[r, c])) &&
    (|matched| < MIN_MATCH ==>
       dropped == {} &&
       forall r, c :: 0 <= r < ROWS && 0 <= c < COLS ==> after[r, c] == placed[r, c])
  }

  /** The whole effect of storing a `colour` bubble at `cell` of the grid
      `before`: `placed` is `before` with the bubble stored, the cascade runs
      from `placed` through `mid` to `after`, and `after` is `before` with
      the bubble stored and, after a pop, the group and the dropped bubbles
      emptied; after a pop every visible bubble left hangs from row 0. */
  ghost predicate Landed(before: array2<Slot>, placed: array2<Slot>, mid: array2<Slot>, after: array2<Slot>,
                         cell: Cell, colour: Color, matched: seq<Bubble>, dropped: set<Cell>)
    reads before, placed, mid, after
  {
    Shaped(before) && Shaped(placed) && Shaped(after) && InGrid(cell) &&
    (forall r, c :: 0 <= r < ROWS && 0 <= c < COLS ==>
       placed[r, c] == if Cell(r, c) == cell then Some(Resting(cell, colour)) else before[r, c]) &&
    Cascade(placed, mid, after, cell, colour, matched, dropped) &&
    // The group found always holds the new bubble, in its colour.
    cell in CellsOf(matched) &&
    (forall i :: 0 <= i < |matched| ==> matched[i].color == colour) &&
    (forall r, c :: 0 <= r < ROWS && 0 <= c < COLS ==>
       after[r, c] == if |matched| >= MIN_MATCH && (Cell(r, c) in CellsOf(matched) || Cell(r, c) in dropped) then None
                      else if Cell(r, c) == cell then Some(Resting(cell, colour))
                      else before[r, c]) &&
    (|matched| >= MIN_MATCH ==> forall c :: Fits(after, None, c) ==> Supported(after, c))
  }

  /** The landing facts compose: storing the bubble, then the cascade, gives
      the grid that `Landed` describes in terms of the grid before the shot. */
  lemma LandedSteps(before: array2<Slot>, placed: array2<Slot>, mid: array2<Slot>, after: array2<Slot>,
                    cell: Cell, colour: Color, matched: seq<Bubble>, dropped: set<Cell>)
    requires Shaped(before) && Shaped(placed) && Shaped(after) && InGrid(cell)
    requires forall r, c :: 0 <= r < ROWS && 0 <= c < COLS ==>
               placed[r, c] == if Cell(r, c) == cell then Some(Resting(cell, colour)) else before[r, c]
    requires Cascade(placed, mid, after, cell, colour, matched, dropped)
    requires cell in CellsOf(matched) && forall i :: 0 <= i < |matched| ==> matched[i].color == colour
    requires |matched| >= MIN_MATCH ==> forall c :: Fits(after, None, c) ==> Supported(after, c)
    ensures Landed(before, placed, mid, after, cell, colour, matched, dropped)
  {
  }

  class Game {
    var grid: array2<Slot>
    var score: int
    var gameOver: bool
    /** The bubble in flight, if any. */
    var flying: Option<Bubble>
    /** The bubble loaded in the shooter, if any. */
    var shooter: Option<Bubble>
    /** The preview of the following shooter bubble. */
    var next: Option<Bubble>

    ghost predicate Valid()
      reads this`grid, this`score, grid
    {
      Shaped(grid) && Settled(grid) && 0 <= score
    }

    /** `startGame` run at load time. The random colours are parameters:
        `colourAt` for the starting grid, `c1`..`c3` for the shooter draws. */
    constructor (colourAt: Cell -> Color, c1: Color, c2: Color, c3: Color)
      ensures Valid() && IsInitial(grid, colourAt)
      ensures !gameOver && score == 0 && flying.None?
      ensures shooter == Some(Loose(SHOOTER_X, SHOOTER_Y, c2))
      ensures next.Some? && next.value.color == c3
    {
      grid := new Slot[0, 0];
      score, gameOver := 0, false;
      flying, shooter, next := None, None, None;
      new;
      StartGame(colourAt, c1, c2, c3);
    }

    /** `initGrid`: a fresh grid holding the starting rows. */
    method InitGrid(colourAt: Cell -> Color)
      modifies this`grid
      ensures fresh(grid) && Shaped(grid) && IsInitial(grid, colourAt)
    {
      var g := new Slot[ROWS, COLS];
      for r := 0 to ROWS
        invariant forall i, j :: 0 <= i < r && 0 <= j < COLS ==>
                    g[i, j] == InitialSlot(Cell(i, j), colourAt(Cell(i, j)))
      {
        for c := 0 to COLS
          invariant forall i, j :: 0 <= i < r && 0 <= j < COLS ==>
                      g[i, j] == InitialSlot(Cell(i, j), colourAt(Cell(i, j)))
          invariant forall j :: 0 <= j < c ==> g[r, j] == InitialSlot(Cell(r, j), colourAt(Cell(r, j)))
        {
          g[r, c] := None;
          if r < START_ROWS {
            if IsOddRow(r) && c == COLS - 1 {
              continue;
            }
            var p := CanvasCoordinates(Cell(r, c));
            g[r, c] := Some(MakeBubble(p.x, p.y, colourAt(Cell(r, c)), true, r, c));
          }
        }
      }
      grid := g;
    }

    /** `prepareShooterBubble`: load the previewed colour into the shooter and
        draw a new preview colour. `firstColour` is the draw made only when
        there is no preview yet. */
    method PrepareShooter(firstColour: Color, nextColour: Color)
      modifies this`shooter, this`next
      ensures shooter == Some(Loose(SHOOTER_X, SHOOTER_Y, if old(next).Some? then old(next).value.color else firstColour))
      ensures next.Some? && next.value.color == nextColour
      ensures old(next).Some? ==> next == Some(old(next).value.(color := nextColour))
    {
      if next.None? {
        next := Some(Loose(0.0, 0.0, firstColour));
      }
      shooter := Some(Loose(SHOOTER_X, SHOOTER_Y, next.value.color));
      next := Some(next.value.(color := nextColour));
    }

    /** `startGame`: a new grid, score 0, nothing in flight, and the shooter
        loaded twice so that both shooter and preview are fresh draws. */
    method StartGame(colourAt: Cell -> Color, c1: Color, c2: Color, c3: Color)
      modifies this
      ensures Valid() && fresh(grid) && IsInitial(grid, colourAt)
      ensures !gameOver && score == 0 && flying.None?
      ensures shooter == Some(Loose(SHOOTER_X, SHOOTER_Y, c2))
      ensures next.Some? && next.value.color == c3
    {
      gameOver, score, flying := false, 0, None;
      InitGrid(colourAt);
      InitialGridSound(grid, colourAt);
      PrepareShooter(c1, c2);
      PrepareShooter(c1, c3);
    }

    /** `handleMouseClick`: launch the loaded bubble with the velocity the aim
        gives, unless the game is over, nothing is loaded, or a bubble is
        already in flight. */
    method Fire(dx: real, dy: real)
      modifies this`flying, this`shooter
      ensures old(gameOver || shooter.None? || flying.Some?) ==>
                flying == old(flying) && shooter == old(shooter)
      ensures !old(gameOver || shooter.None? || flying.Some?) ==>
                flying == Some(old(shooter).value.(dx := dx, dy := dy)) && shooter.None?
    {
      if gameOver || shooter.None? || flying.Some? {
        return;
      }
      flying := Some(shooter.value.(dx := dx, dy := dy));
      shooter := None;
    }

    /** `removeBubbles`: empty the slot each listed bubble names. */
    method RemoveBubbles(bs: seq<Bubble>)
      requires Valid()
      modifies grid
      ensures Valid()
      ensures forall r, c :: 0 <= r < ROWS && 0 <= c < COLS ==>
                grid[r, c] == if Cell(r, c) in CellsOf(bs) then None else old(grid[r, c])
    {
      for i := 0 to |bs|
        invariant Valid()
        invariant forall r, c :: 0 <= r < ROWS && 0 <= c < COLS ==>
                    grid[r, c] == if Cell(r, c) in CellsOf(bs[..i]) then None else old(grid[r, c])
      {
        var b := bs[i];
        assert bs[..i + 1] == bs[..i] + [b];
        CellsOfAppend(bs[..i], b);
        if 0 <= b.row < ROWS && 0 <= b.col < COLS && grid[b.row, b.col].Some? {
          grid[b.row, b.col] := None;
        }
      }
      assert bs[..|bs|] == bs;
    }

    /** `removeFloatingBubbles`: drop every visible bubble no chain of visible
        bubbles links to row 0, and score DROP_POINTS for each. */
    method RemoveFloatingBubbles() returns (ghost dropped: set<Cell>)
      requires Valid()
      modifies this`score, grid
      ensures Valid()
      ensures forall x :: x in dropped <==> InGrid(x) && old(Fits(grid, None, x)) && !old(Supported(grid, x))
      ensures forall r, c :: 0 <= r < ROWS && 0 <= c < COLS ==>
                grid[r, c] == if Cell(r, c) in dropped then None else old(grid[r, c])
      ensures forall c :: Fits(grid, None, c) ==> Supported(grid, c)
      ensures score == old(score) + DROP_POINTS * |dropped|
    {
      var supported := SupportedCells(grid);
      SupportWitnesses(grid, supported);
      // The grid as it is before the sweep, to carry supporting chains across it.
      ghost var before := Snapshot(grid);
      CopyKeepsChains(grid, before, supported);
      var count;
      dropped, count := DropUnsupported(grid, before, supported);
      if count > 0 {
        score := score + count * DROP_POINTS;
      }
      SweepKeepsSupport(before, grid, supported, dropped);
    }

    /** The pop of `snapBubbleToGrid`: remove the group, score POP_POINTS per
        bubble in it, then drop the bubbles left hanging. */
    method Pop(matched: seq<Bubble>) returns (ghost dropped: set<Cell>, ghost mid: array2<Slot>)
      requires Valid()
      modifies this`score, grid
      ensures Valid()
      // `mid` is the grid once the group is removed; the drops are exactly its hanging bubbles.
      ensures fresh(mid) && Shaped(mid)
      ensures forall r, c :: 0 <= r < ROWS && 0 <= c < COLS ==>
                mid[r, c] == if Cell(r, c) in CellsOf(matched) then None else old(grid[r, c])
      ensures forall x :: x in dropped <==> InGrid(x) && Fits(mid, None, x) && !Supported(mid, x)
      ensures forall r, c :: 0 <= r < ROWS && 0 <= c < COLS ==>
                grid[r, c] == if Cell(r, c) in dropped then None else mid[r, c]
      ensures forall r, c :: 0 <= r < ROWS && 0 <= c < COLS ==>
                grid[r, c] == if Cell(r, c) in CellsOf(matched) || Cell(r, c) in dropped then None else old(grid[r, c])
      ensures forall x :: x in dropped ==> InGrid(x) && x !in CellsOf(matched) && old(Fits(grid, None, x))
      ensures forall c :: Fits(grid, None, c) ==> Supported(grid, c)
      ensures score == old(score) + POP_POINTS * |matched| + DROP_POINTS * |dropped|
    {
      RemoveBubbles(matched);
      score := score + |matched| * POP_POINTS;
      mid := Snapshot(grid);
      SameGrid(grid, mid);
      dropped := RemoveFloatingBubbles();
    }

    /** Store the bubble in its slot, clear the flight, and find its group. */
    method Place(cell: Cell, colour: Color) returns (matched: seq<Bubble>)
      requires Valid() && InGrid(cell)
      modifies this`flying, grid
      ensures Valid() && flying.None?
      ensures forall r, c :: 0 <= r < ROWS && 0 <= c < COLS ==>
                grid[r, c] == if Cell(r, c) == cell then Some(Resting(cell, colour)) else old(grid[r, c])
      ensures cell in CellsOf(matched)
      ensures forall i :: 0 <= i < |matched| ==> matched[i].color == colour
      ensures forall c :: c in CellsOf(matched) <==> Reachable(grid, Some(colour), cell, c)
      // No cell is named twice, so the length is the size of the group.
      ensures forall i, j :: 0 <= i < j < |matched| ==> CellOf(matched[i]) != CellOf(matched[j])
      ensures |matched| == |CellsOf(matched)|
    {
      grid[cell.row, cell.col] := Some(Resting(cell, colour));
      flying := None;
      SettledKnowsCells(grid);
      matched := FindMatches(grid, cell);
      ReachableFromItself(grid, Some(colour), cell);
      DistinctCellsCount(matched);
    }

    /** Store the bubble and pop its group when it is large enough. */
    method Land(cell: Cell, colour: Color)
        returns (matched: seq<Bubble>, ghost dropped: set<Cell>, ghost before: array2<Slot>,
                 ghost placed: array2<Slot>, ghost mid: array2<Slot>)
      requires Valid() && InGrid(cell)
      modifies this`flying, this`score, grid
      ensures Valid() && flying.None?
      // `before` is the grid as it was, `placed` the grid with the new bubble stored.
      ensures fresh(before) && fresh(placed) && Shaped(before)
      ensures forall r, c :: 0 <= r < ROWS && 0 <= c < COLS ==> before[r, c] == old(grid[r, c])
      ensures Landed(before, placed, mid, grid, cell, colour, matched, dropped)
      ensures |matched| < MIN_MATCH ==> score == old(score)
      ensures |matched| >= MIN_MATCH ==> score == old(score) + POP_POINTS * |matched| + DROP_POINTS * |dropped|
    {
      before := Snapshot(grid);
      matched := Place(cell, colour);
      dropped, placed, mid := Resolve(cell, colour, matched);
      LandedSteps(before, placed, mid, grid, cell, colour, matched, dropped);
    }

    /** The `matchedBubbles.length >= 3` branch of `snapBubbleToGrid`: pop a
        large enough group and drop what it leaves hanging. `placed` is the
        grid as it was, holding the new bubble whose group is `matched`. */
    method Resolve(cell: Cell, colour: Color, matched: seq<Bubble>)
        returns (ghost dropped: set<Cell>, ghost placed: array2<Slot>, ghost mid: array2<Slot>)
      requires Valid()
      requires forall c :: c in CellsOf(matched) <==> Reachable(grid, Some(colour), cell, c)
      requires forall i, j :: 0 <= i < j < |matched| ==> CellOf(matched[i]) != CellOf(matched[j])
      requires |matched| == |CellsOf(matched)|
      modifies this`score, grid
      ensures Valid()
      ensures fresh(placed) && Shaped(placed)
      ensures forall r, c :: 0 <= r < ROWS && 0 <= c < COLS ==> placed[r, c] == old(grid[r, c])
      ensures Cascade(placed, mid, grid, cell, colour, matched, dropped)
      ensures |matched| >= MIN_MATCH ==> forall c :: Fits(grid, None, c) ==> Supported(grid, c)
      ensures |matched| < MIN_MATCH ==> score == old(score)
      ensures |matched| >= MIN_MATCH ==> score == old(score) + POP_POINTS * |matched| + DROP_POINTS * |dropped|
    {
      placed := Snapshot(grid);
      SameGrid(grid, placed);
      dropped, mid := {}, placed;
      if |matched| >= MIN_MATCH {
        dropped, mid := Pop(matched);
      }
    }

    /** The commit step of `snapBubbleToGrid` once a slot is chosen: store the
        bubble, pop its group when it has MIN_MATCH or more bubbles (and then
        drop what no longer hangs from row 0), end the game when a bubble
        shows in the last row, and otherwise load the next shot. */
    method Settle(cell: Cell, colour: Color, firstColour: Color, nextColour: Color)
        returns (matched: seq<Bubble>, ghost dropped: set<Cell>, ghost before: array2<Slot>,
                 ghost placed: array2<Slot>, ghost mid: array2<Slot>)
      requires Valid() && InGrid(cell)
      modifies this, grid
      ensures Valid() && grid == old(grid) && flying.None?
      ensures fresh(before) && fresh(placed) && Shaped(before)
      ensures forall r, c :: 0 <= r < ROWS && 0 <= c < COLS ==> before[r, c] == old(grid[r, c])
      ensures Landed(before, placed, mid, grid, cell, colour, matched, dropped)
      ensures |matched| < MIN_MATCH ==> score == old(score)
      ensures |matched| >= MIN_MATCH ==> score == old(score) + POP_POINTS * |matched| + DROP_POINTS * |dropped|
      ensures gameOver <==> old(gameOver) || LastRowShows(grid)
      // The next shot is loaded unless the game is lost.
      ensures LastRowShows(grid) ==> shooter == old(shooter) && next == old(next)
      ensures !LastRowShows(grid) ==>
                shooter == Some(Loose(SHOOTER_X, SHOOTER_Y, if old(next).Some? then old(next).value.color else firstColour)) &&
                next.Some? && next.value.color == nextColour
    {
      matched, dropped, before, placed, mid := Land(cell, colour);
      EndTurn(firstColour, nextColour);
    }

    /** The tail of `snapBubbleToGrid`: end the game when a bubble shows in
        the last row, and otherwise load the next shot. */
    method EndTurn(firstColour: Color, nextColour: Color)
      requires Shaped(grid)
      modifies this`gameOver, this`shooter, this`next
      ensures gameOver <==> old(gameOver) || LastRowShows(grid)
      ensures LastRowShows(grid) ==> shooter == old(shooter) && next == old(next)
      ensures !LastRowShows(grid) ==>
                shooter == Some(Loose(SHOOTER_X, SHOOTER_Y, if old(next).Some? then old(next).value.color else firstColour)) &&
                next.Some? && next.value.color == nextColour
    {
      var over := GameOverCondition(grid);
      if over {
        gameOver := true;
        return;
      }
      PrepareShooter(firstColour, nextColour);
    }

    /** `snapBubbleToGrid`: choose the slot for a bubble that stopped at
        (b.x, b.y), having hit `collided` if anything, and settle it there; a
        bubble below the grid, or at a full ceiling slot, ends the game. */
    method Snap(b: Bubble, collided: Option<Bubble>, firstColour: Color, nextColour: Color)
        returns (outcome: Outcome, matched: seq<Bubble>, ghost dropped: set<Cell>,
                 ghost before: array2<Slot>, ghost placed: array2<Slot>, ghost mid: array2<Slot>)
      requires Valid() && RADIUS <= b.y
      modifies this, grid
      ensures Valid() && grid == old(grid)
      // The outcome follows the slot rules on the grid as it was.
      ensures old(Chosen(grid, b.x, b.y, collided, outcome))
      // Every snap ends in a slot or ends the game; the ceiling fallback never places.
      ensures outcome.Placed? || outcome == FellBelow || outcome == CeilingFull
      ensures outcome.Placed? ==>
                InGrid(outcome.cell) && outcome.tier != Ceiling &&
                (old(grid[outcome.cell.row, outcome.cell.col]).None? <==> outcome.tier != Overwrite)
      ensures !outcome.Placed? ==>
                gameOver && score == old(score) && flying == old(flying) &&
                shooter == old(shooter) && next == old(next) &&
                forall r, c :: 0 <= r < ROWS && 0 <= c < COLS ==> grid[r, c] == old(grid[r, c])
      // A placed bubble lands as Settle describes, from the grid as it was.
      ensures outcome.Placed? ==>
                flying.None? && fresh(before) && fresh(placed) && Shaped(before) &&
                (forall r, c :: 0 <= r < ROWS && 0 <= c < COLS ==> before[r, c] == old(grid[r, c])) &&
                Landed(before, placed, mid, grid, outcome.cell, b.color, matched, dropped)
      ensures outcome.Placed? ==>
                score == old(score) + if |matched| >= MIN_MATCH then POP_POINTS * |matched| + DROP_POINTS * |dropped| else 0
      ensures outcome.Placed? ==>
                (gameOver <==> old(gameOver) || LastRowShows(grid))
      // The next shot is loaded unless the game is lost.
      ensures outcome.Placed? && LastRowShows(grid) ==>
                shooter == old(shooter) && next == old(next)
      ensures outcome.Placed? && !LastRowShows(grid) ==>
                shooter == Some(Loose(SHOOTER_X, SHOOTER_Y, if old(next).Some? then old(next).value.color else firstColour)) &&
                next.Some? && next.value.color == nextColour
    {
      outcome := ChooseSlot(grid, b.x, b.y, collided);
      matched, dropped, before, placed, mid := [], {}, grid, grid, grid;
      match outcome {
        case FellBelow =>
          gameOver := true;
        case CeilingFull =>
          gameOver := true;
        case Unplaced =>
          assert false;
        case Placed(cell, _) =>
          matched, dropped, before, placed, mid := Settle(cell, b.color, firstColour, nextColour);
      }
    }

    /** One frame of `gameLoop` (the part of it that is not drawing), that is
        `updateFlyingBubble`: move the bubble in flight; stick it to the
        ceiling when its top edge leaves the canvas, or snap it when it
        touches a resting bubble, naming the first one it touches. The ghost
        results name the bubble snapped (`shot`), the slot it hit, and what
        the snap did. */
    method Frame(firstColour: Color, nextColour: Color)
        returns (ghost snapped: bool, ghost shot: Bubble, ghost hit: Option<Cell>, ghost outcome: Outcome,
                 ghost matched: seq<Bubble>, ghost dropped: set<Cell>,
                 ghost before: array2<Slot>, ghost placed: array2<Slot>, ghost mid: array2<Slot>)
      requires Valid()
      modifies this, grid
      ensures Valid() && grid == old(grid)
      ensures snapped <==>
                !old(gameOver) && old(flying).Some? &&
                var b := Advance(old(flying).value);
                b.y - RADIUS < 0.0 || exists c :: old(Hits(grid, b.x, b.y, c))
      ensures !snapped ==>
                gameOver == old(gameOver) && score == old(score) &&
                shooter == old(shooter) && next == old(next) &&
                (forall r, c :: 0 <= r < ROWS && 0 <= c < COLS ==> grid[r, c] == old(grid[r, c])) &&
                flying == if old(gameOver) || old(flying).None? then old(flying) else Some(Advance(old(flying).value))
      // The bubble snapped: stuck to the ceiling, or stopped by the first bubble it touches.
      ensures snapped ==>
                var b := Advance(old(flying).value);
                (b.y - RADIUS < 0.0 ==> shot == b.(y := RADIUS) && hit.None?) &&
                (!(b.y - RADIUS < 0.0) ==> shot == b && hit.Some? && old(FirstHit(grid, b.x, b.y, hit)))
      ensures snapped && hit.Some? ==> InGrid(hit.value)
      // What the snap did, with the hit bubble as the one collided with.
      ensures snapped ==>
                old(Chosen(grid, shot.x, shot.y, if hit.Some? then grid[hit.value.row, hit.value.col] else None, outcome)) &&
                (outcome.Placed? || outcome == FellBelow || outcome == CeilingFull)
      ensures snapped && !outcome.Placed? ==>
                gameOver && score == old(score) && flying == Some(shot) &&
                shooter == old(shooter) && next == old(next) &&
                forall r, c :: 0 <= r < ROWS && 0 <= c < COLS ==> grid[r, c] == old(grid[r, c])
      ensures snapped && outcome.Placed? ==>
                flying.None? && fresh(before) && fresh(placed) && Shaped(before) &&
                (forall r, c :: 0 <= r < ROWS && 0 <= c < COLS ==> before[r, c] == old(grid[r, c])) &&
                Landed(before, placed, mid, grid, outcome.cell, shot.color, matched, dropped) &&
                score == old(score) + if |matched| >= MIN_MATCH then POP_POINTS * |matched| + DROP_POINTS * |dropped| else 0
      // The end of the turn: the game is lost, or the next shot is loaded.
      ensures snapped && outcome.Placed? ==>
                (gameOver <==> old(gameOver) || LastRowShows(grid))
      ensures snapped && outcome.Placed? && LastRowShows(grid) ==>
                shooter == old(shooter) && next == old(next)
      ensures snapped && outcome.Placed? && !LastRowShows(grid) ==>
                shooter == Some(Loose(SHOOTER_X, SHOOTER_Y, if old(next).Some? then old(next).value.color else firstColour)) &&
                next.Some? && next.value.color == nextColour
    {
      snapped, shot, hit, outcome := false, Loose(0.0, 0.0, Red), None, Unplaced;
      matched, dropped, before, placed, mid := [], {}, grid, grid, grid;
      if gameOver || flying.None? {
        return;
      }
      var b := Advance(flying.value);
      var collided: Option<Bubble> := None;
      if b.y - RADIUS < 0.0 {
        b := b.(y := RADIUS);
      } else {
        // The scan reads only the grid, so it may run before the move is stored.
        var found := FindCollision(grid, b.x, b.y);
        hit := found;
        if found.None? {
          flying := Some(b);
          return;
        }
        collided := grid[found.value.row, found.value.col];
      }
      flying := Some(b);
      snapped, shot := true, b;
      outcome, matched, dropped, before, placed, mid := Snap(b, collided, firstColour, nextColour);
    }
  }
}
