/** Where a flying bubble comes to rest: one frame of flight with the side
    walls, the scan for the first resting bubble it touches, and the choice
    of the slot it snaps into (a 3 x 3 search for the nearest free slot,
    then the fallbacks of `snapBubbleToGrid`). */
module Snapping {
  import opened Grid

  // ---------------------------------------------------------------------
  // Flight

  /** One frame of `updateFlyingBubble` before the ceiling and collision
      tests: move by the velocity; on leaving the canvas sideways, reverse
      the horizontal speed and put the bubble back against the wall. */
  function Advance(b: Bubble): (b': Bubble)
    ensures RADIUS <= b'.x <= WIDTH - RADIUS
    ensures b'.y == b.y + b.dy
    ensures var x := b.x + b.dx;
            if x - RADIUS < 0.0 || x + RADIUS > WIDTH then b'.dx == -b.dx else b'.x == x && b'.dx == b.dx
    // A bubble crossing a wall is put back against that wall.
    ensures b.x + b.dx - RADIUS < 0.0 ==> b'.x == RADIUS
    ensures b.x + b.dx + RADIUS > WIDTH ==> b'.x == WIDTH - RADIUS
    ensures b' == b.(x := b'.x, y := b'.y, dx := b'.dx)
  {
    var x, y := b.x + b.dx, b.y + b.dy;
    if x - RADIUS < 0.0 || x + RADIUS > WIDTH then
      var x := if x - RADIUS < 0.0 then RADIUS else x;
      var x := if x + RADIUS > WIDTH then WIDTH - RADIUS else x;
      b.(x := x, y := y, dx := -b.dx)
    else
      b.(x := x, y := y)
  }

  /** Centre distance below which a flying bubble hits a resting one: a
      diameter less five pixels of tolerance. */
  const HIT_DISTANCE: real := DIAMETER - 5.0

  predicate Touches(x: real, y: real, b: Bubble)
  {
    DistSq(x, y, Point(b.x, b.y)) < HIT_DISTANCE * HIT_DISTANCE
  }

  /** Slot `c` holds a visible bubble that a flying bubble at (x, y) touches. */
  predicate Hits(g: array2<Slot>, x: real, y: real, c: Cell)
    requires Shaped(g)
    reads g
  {
    Fits(g, None, c) && Touches(x, y, g[c.row, c.col].value)
  }

  /** `hit` is the first slot, in row-major order, whose visible bubble a
      flying bubble at (x, y) touches, or nothing when it touches none. */
  ghost predicate FirstHit(g: array2<Slot>, x: real, y: real, hit: Option<Cell>)
    requires Shaped(g)
    reads g
  {
    (hit.Some? ==> Hits(g, x, y, hit.value)) &&
    forall c :: Hits(g, x, y, c) ==> hit.Some? && !ScannedBefore(c, hit.value)
  }

  /** The collision scan of `updateFlyingBubble`. */
  method FindCollision(g: array2<Slot>, x: real, y: real) returns (hit: Option<Cell>)
    requires Shaped(g)
    ensures FirstHit(g, x, y, hit)
  {
    for r := 0 to ROWS
      invariant forall c :: Hits(g, x, y, c) ==> r <= c.row
    {
      for col := 0 to COLS
        invariant forall c :: Hits(g, x, y, c) ==> !ScannedBefore(c, Cell(r, col))
      {
        var slot := g[r, col];
        if slot.Some? && slot.value.visible && Touches(x, y, slot.value) {
          assert Hits(g, x, y, Cell(r, col));
          return Some(Cell(r, col));
        }
      }
    }
    return None;
  }

  // ---------------------------------------------------------------------
  // The 3 x 3 search

  /** The row the search is centred on: the row of the bubble that was hit,
      or else the row under the flying bubble, clamped into the grid. */
  function SearchRow(y: real, collided: Option<Bubble>): (r: int)
    ensures 0 <= r < ROWS
    ensures var want := if collided.Some? then collided.value.row else PixelRow(y);
            (0 <= want < ROWS ==> r == want) && (want < 0 ==> r == 0) && (ROWS <= want ==> r == ROWS - 1)
  {
    Max(0, Min(ROWS - 1, if collided.Some? then collided.value.row else PixelRow(y)))
  }

  /** A slot the search may choose: within one row of the centre row and one
      column of the column under the bubble, usable, and empty. */
  predicate Candidate(g: array2<Slot>, x: real, y: real, centre: int, c: Cell)
    requires Shaped(g)
    reads g
  {
    var raw := RawColumn(x, y);
    centre - 1 <= c.row <= centre + 1 && raw - 1 <= c.col <= raw + 1 &&
    Usable(c) && g[c.row, c.col].None?
  }

  /** Squared distance from (x, y) to the centre of slot `c`. */
  function SlotDist(x: real, y: real, c: Cell): real
  {
    DistSq(x, y, CanvasCoordinates(c))
  }

  /** `best` is what the search returns: no slot when there is no candidate,
      otherwise a nearest candidate, and the first in scan order among
      equally near ones (the search only moves on a strictly smaller
      distance). */
  ghost predicate SearchPicks(g: array2<Slot>, x: real, y: real, centre: int, best: Option<Cell>)
    requires Shaped(g)
    reads g
  {
    (best.None? ==> forall c :: !Candidate(g, x, y, centre, c)) &&
    (best.Some? ==>
       Candidate(g, x, y, centre, best.value) &&
       forall c :: Candidate(g, x, y, centre, c) ==>
         SlotDist(x, y, best.value) <= SlotDist(x, y, c) &&
         (ScannedBefore(c, best.value) ==> SlotDist(x, y, best.value) < SlotDist(x, y, c)))
  }

  /** The search result is determined: at most one answer meets the description. */
  lemma SearchPicksUnique(g: array2<Slot>, x: real, y: real, centre: int, b1: Option<Cell>, b2: Option<Cell>)
    requires Shaped(g) && SearchPicks(g, x, y, centre, b1) && SearchPicks(g, x, y, centre, b2)
    ensures b1 == b2
  {
    if b1.Some? && b2.Some? {
      assert b1 == b2 || ScannedBefore(b1.value, b2.value) || ScannedBefore(b2.value, b1.value);
    }
  }

  /** What the search has established once it has scanned every cell before `upTo`. */
  ghost predicate Summarises(g: array2<Slot>, x: real, y: real, centre: int,
                             best: Option<Cell>, minDist: real, upTo: Cell)
    requires Shaped(g)
    reads g
  {
    (forall c :: Candidate(g, x, y, centre, c) && ScannedBefore(c, upTo) ==>
       best.Some? && minDist <= SlotDist(x, y, c) &&
       (ScannedBefore(c, best.value) ==> minDist < SlotDist(x, y, c))) &&
    (best.Some? ==>
       Candidate(g, x, y, centre, best.value) && ScannedBefore(best.value, upTo) &&
       minDist == SlotDist(x, y, best.value))
  }

  /** One turn of the inner loop of `snapBubbleToGrid`: slot (r, c) of the
      window replaces the best so far when it is usable, empty and strictly
      nearer. */
  method Consider(g: array2<Slot>, x: real, y: real, centre: int, r: int, c: int,
                  best: Option<Cell>, minDist: real) returns (best': Option<Cell>, minDist': real)
    requires Shaped(g) && Summarises(g, x, y, centre, best, minDist, Cell(r, c))
    requires centre - 1 <= r <= centre + 1 && RawColumn(x, y) - 1 <= c <= RawColumn(x, y) + 1
    ensures Summarises(g, x, y, centre, best', minDist', Cell(r, c + 1))
  {
    best', minDist' := best, minDist;
    if r < 0 || r >= ROWS || c < 0 || c >= RowWidth(r) {
      return;
    }
    if g[r, c].Some? {
      return;
    }
    var d := SlotDist(x, y, Cell(r, c));
    if best.None? || d < minDist {
      minDist', best' := d, Some(Cell(r, c));
    }
  }

  /** The window has three columns, so a finished row summarises as the
      start of the next one. */
  lemma NextRow(g: array2<Slot>, x: real, y: real, centre: int, best: Option<Cell>, minDist: real, r: int)
    requires Shaped(g) && Summarises(g, x, y, centre, best, minDist, Cell(r, RawColumn(x, y) + 2))
    ensures Summarises(g, x, y, centre, best, minDist, Cell(r + 1, RawColumn(x, y) - 1))
  {
  }

  /** Once the last row of the window is scanned, the summary is the search result. */
  lemma WindowDone(g: array2<Slot>, x: real, y: real, centre: int, best: Option<Cell>, minDist: real)
    requires Shaped(g) && Summarises(g, x, y, centre, best, minDist, Cell(centre + 2, RawColumn(x, y) - 1))
    ensures SearchPicks(g, x, y, centre, best)
  {
  }

  /** The nested loops of `snapBubbleToGrid`: the nearest empty usable slot
      around (centre row, column under the bubble). `best.None?` plays the
      part of the initial infinite distance. */
  method NearestFreeSlot(g: array2<Slot>, x: real, y: real, centre: int) returns (best: Option<Cell>)
    requires Shaped(g)
    ensures SearchPicks(g, x, y, centre, best)
  {
    best := None;
    var minDist := 0.0;
    var raw := RawColumn(x, y);
    // The offsets -1..1 of the source, applied to the centre row and the raw column.
    for r := centre - 1 to centre + 2
      invariant Summarises(g, x, y, centre, best, minDist, Cell(r, raw - 1))
    {
      for c := raw - 1 to raw + 2
        invariant Summarises(g, x, y, centre, best, minDist, Cell(r, c))
      {
        best, minDist := Consider(g, x, y, centre, r, c, best, minDist);
      }
      NextRow(g, x, y, centre, best, minDist, r);
    }
    WindowDone(g, x, y, centre, best, minDist);
  }

  // ---------------------------------------------------------------------
  // Choosing the slot

  /** Which rule of `snapBubbleToGrid` chose the slot. */
  datatype Tier = Nearby | Direct | RowAbove | Ceiling | Overwrite

  /** How a snap ends: in a slot; by ending the game because the bubble is
      below the grid or the ceiling fallback is full; or with no slot at all
      (the "Failed to snap" branch). */
  datatype Outcome = Placed(cell: Cell, tier: Tier) | FellBelow | CeilingFull | Unplaced

  /** The fallback one row up from `pos` (row 0 stays row 0). */
  function RowAboveOf(pos: Cell): Cell
  {
    Cell(Max(0, pos.row - 1), pos.col)
  }

  /** The fallback one row up keeps the column, so from the last column of
      an even row it reaches the slot past the end of the shifted odd row
      above, which no other rule uses. */
  lemma RowAboveMayBeUnusable(pos: Cell)
    requires Usable(pos) && pos.row > 0 && pos.col == COLS - 1
    ensures RowAboveOf(pos) == Cell(pos.row - 1, COLS - 1) && !Usable(RowAboveOf(pos))
  {
    OddRowAlternates(pos.row - 1);
  }

  /** The rules of `snapBubbleToGrid` that decide the outcome for a bubble
      stopped at (x, y) after hitting `collided`. A nearby pick is the
      result of the 3 x 3 search; every other outcome follows a search
      that found nothing, and then the slot under the bubble decides:
      below the grid, that slot if empty, the one above if empty, the
      overwrite away from the ceiling, or a full ceiling. */
  ghost predicate Chosen(g: array2<Slot>, x: real, y: real, collided: Option<Bubble>, outcome: Outcome)
    requires Shaped(g)
    reads g
  {
    var centre := SearchRow(y, collided);
    var pos := GridPosition(x, y);
    (if outcome.Placed? && outcome.tier == Nearby
     then SearchPicks(g, x, y, centre, Some(outcome.cell))
     else SearchPicks(g, x, y, centre, None)) &&
    0 <= pos.row &&
    (outcome == FellBelow <==> !(outcome.Placed? && outcome.tier == Nearby) && ROWS <= pos.row) &&
    (outcome.Placed? && outcome.tier == Direct ==>
       outcome.cell == pos && g[pos.row, pos.col].None?) &&
    (outcome.Placed? && outcome.tier == RowAbove ==>
       pos.row < ROWS && outcome.cell == RowAboveOf(pos) && g[pos.row, pos.col].Some?) &&
    (outcome.Placed? && outcome.tier == Overwrite ==>
       outcome.cell == pos && g[RowAboveOf(pos).row, pos.col].Some? && RADIUS < y) &&
    (outcome == CeilingFull ==>
       y == RADIUS && pos.row == 0 && g[pos.row, pos.col].Some?)
  }

  /** The slot selection of `snapBubbleToGrid`. Callers only snap a bubble
      whose top edge is inside the canvas (`y >= RADIUS`). */
  method ChooseSlot(g: array2<Slot>, x: real, y: real, collided: Option<Bubble>) returns (outcome: Outcome)
    requires Shaped(g) && RADIUS <= y
    // The "Failed to snap" branch is never taken.
    ensures !outcome.Unplaced?
    ensures outcome.Placed? ==> InGrid(outcome.cell)
    // Only the last fallback may land on an occupied slot.
    ensures outcome.Placed? ==> (g[outcome.cell.row, outcome.cell.col].None? <==> outcome.tier != Overwrite)
    // The ceiling fallback never places a bubble.
    ensures outcome.Placed? ==> outcome.tier != Ceiling
    ensures Chosen(g, x, y, collided, outcome)
  {
    var centre := SearchRow(y, collided);
    var best := NearestFreeSlot(g, x, y, centre);
    outcome := Unplaced;
    if best.Some? {
      outcome := Placed(best.value, Nearby);
    }
    if outcome.Unplaced? {
      var pos := GridPosition(x, y);
      if pos.row >= ROWS {
        return FellBelow;
      }
      if g[pos.row, pos.col].None? {
        outcome := Placed(pos, Direct);
      } else {
        var above := RowAboveOf(pos);
        if g[above.row, above.col].None? {
          outcome := Placed(above, RowAbove);
        } else if y - RADIUS <= 0.0 {
          var top := Cell(0, GridPosition(x, RADIUS).col);
          if g[top.row, top.col].None? {
            outcome := Placed(top, Ceiling);
          } else {
            return CeilingFull;
          }
        } else {
          outcome := Placed(GridPosition(x, y), Overwrite);
        }
      }
    }
  }
}
