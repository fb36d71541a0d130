# Bubble shooter grid engine

A Dafny model of the grid engine of a browser bubble shooter (`script.js`).
The play field is a table of 12 rows and 15 columns. Odd rows are shifted
right by half a bubble, so their last column cannot be used. At the start,
the top five rows hold bubbles.

The player fires a bubble upwards. It moves one step per frame and bounces
off the side walls. It stops when its top edge leaves the canvas, or when it
comes closer than a diameter less five pixels to a resting bubble. It then
snaps into a grid slot:

- first, the nearest free usable slot in a 3 x 3 window around the impact;
- otherwise, a chain of fallbacks: the slot under the bubble, then the slot
  one row up, then a ceiling test, and as a last resort an overwrite of the
  slot under the bubble.

A bubble that ends up below the grid ends the game. The ceiling test never
places a bubble: at the ceiling it re-tests the row-0 slot the earlier
fallbacks already found full, so reaching it always ends the game.

Once placed, the new bubble's same-colour group is found by a flood fill.
A group of three or more pops, for 10 points per bubble. Then every bubble
that no chain of visible bubbles links to row 0 is dropped, for 20 points
each. The game is lost when a visible bubble sits in the last row.
Otherwise the preview colour moves into the shooter and a new preview
colour is drawn.

The model has four modules:

- `Grid` holds the constants, the bubble record, the pixel/cell mapping,
  the six-neighbour adjacency and chains of bubbles. Chains are paths:
  "reachable" and "supported" are existentials over paths.
- `Matching` holds the read-only searches: the colour flood fill, the
  search from the ceiling and the last-row test. Each is a method with the
  source's loops, proved against those path predicates.
- `Snapping` holds the flight step, the collision scan, the 3 x 3 search
  and the slot choice with its fallback tiers.
- `Game` holds the game state as a class. The script's module-level
  variables become fields (`grid: array2<Option<Bubble>>`, `score`,
  `gameOver`, and the flying, shooter and preview bubbles). The operations
  that update them in place are methods.

A few choices run through the whole model:

- The `Bubble` factory (script.js:36-44) is `Grid.MakeBubble`: a visible
  bubble with zero velocity. `Grid.Resting` fills in its defaults for a
  bubble stored in a slot (static, recording its cell), and `Game.Loose`
  for a bubble that is not in the grid (row and column -1).
- Pixel positions are `real`s.
- `Math.hypot(a, b) < d` is compared as `a*a + b*b < d*d`.
- JavaScript's truncating `%` is written out as `Grid.JsRem`, so the
  odd-row test agrees with the source even for negative rows.
- The string keys `"r-c"` of the visited and supported sets become `Cell`
  values.

## Model

| member | source | states |
|---|---|---|
| Grid.PixelRow | script.js:53 | The row returned is the band of `DIAMETER`-high pixel rows containing `y`; it is not clamped. |
| Grid.RawColumn | script.js:49-52 | The column is the band containing `x` after removing the half-cell shift of the pixel row's parity. |
| Grid.GridPosition | script.js:46-61 | The row is the pixel band of `y`. The column always lies in `[0, RowWidth(row))`: 0..14 on even rows and 0..13 on odd rows. It is the raw column clamped into the row, which is the band under `x` whenever `x` lies over the row. |
| Grid.CanvasCoordinates | script.js:63-69 | The point returned lies strictly inside the cell's pixel band: its row band vertically, and its column band shifted by the row offset horizontally. |
| Grid.GridPositionInvertsCanvas | script.js:46-69 | For every usable cell, mapping the cell to its centre and back gives the same cell. |
| Grid.OddRowIsRemainderOne | script.js:64 | The JavaScript test `r % 2 !== 0` holds exactly when the Euclidean remainder of `r` by 2 is 1, negative rows included. |
| Grid.OddRowAlternates | script.js:352-353 | Parity alternates between consecutive rows, negative rows included. |
| Grid.Directions | script.js:345-354 | The direction table lists six distinct cells. A cell is in the table exactly when it is adjacent: west/east, north/south, or the diagonal pair that leans right on odd rows and left on even rows. |
| Grid.AdjacentSymmetric | script.js:348-354 | The parity-dependent six-cell adjacency is symmetric. |
| Grid.KeepPresent | script.js:356-364 | The filter keeps exactly the listed cells that are inside the grid, below the row's column limit and occupied. What it returns is a subsequence of its input, so it keeps their order, and it never duplicates a cell. |
| Grid.SubsequenceGrow | script.js:392-398 | A subsequence of a list stays one when the list grows by a cell the support search does not push. |
| Grid.SubsequenceExtend | script.js:392-398 | A subsequence stays one when both grow by the same cell, the step where the support search pushes a neighbour. |
| Grid.Neighbours | script.js:343-366 | `getNeighbors` returns at most six cells, with no duplicates, in the order of the direction table. A cell is returned exactly when it is adjacent, usable under its own row's column limit, and occupied. |
| Grid.NeighboursSymmetric | script.js:343-366 | If a usable occupied cell `b` is a neighbour of a usable occupied cell `a`, then `a` is a neighbour of `b`. |
| Grid.ClosedSetHoldsReachable | script.js:318-339 | A set closed under taking fitting neighbours holds everything reachable from any of its members. This is why the fill's result is complete. |
| Grid.ReachableStep | script.js:332-336 | A fitting neighbour of a reachable cell is reachable. |
| Grid.SupportedStep | script.js:391-397 | A visible neighbour of a supported bubble is supported. |
| Grid.CeilingSupported | script.js:382-387 | Every visible bubble of row 0 is supported. |
| Grid.SupportAlongPath | script.js:389-399 | Every bubble on a chain from row 0 is itself supported. |
| Grid.UnusableNeverSupported | script.js:359 | A bubble in an unusable slot below row 0 is never supported, because no neighbour list reports that slot. |
| Matching.DistinctCellsCount | script.js:320-323 | A list of bubbles that names no cell twice is as long as the set of its cells. That is why `matchedBubbles.length` counts the group. |
| Matching.CellsOfMembers | script.js:369-375 | Every cell of a bubble list is named by one of its bubbles. |
| Matching.VisibleAmong | script.js:333-337 | Returns exactly the visible bubbles among the given neighbour cells. |
| Matching.VisitNext | script.js:319-338 | One turn of the fill's stack loop keeps the fill invariant: found cells are reachable, matched bubbles are stored once each, and pending cells are the seed or neighbours of found cells. The turn also shrinks the unvisited cells or the stack. |
| Matching.FindMatches | script.js:312-341 | Every returned bubble is stored at its own slot, visible, and has the seed's colour. No cell appears twice. The cells returned are exactly those reachable from the seed through visible bubbles of that colour, so the seed is included. The grid is not modified. |
| Matching.Spread | script.js:392-398 | The inner loop marks exactly the visible neighbours not yet marked. The stack keeps what it held and grows by exactly those cells. They are pushed in neighbour order (a subsequence of the neighbour list), and no cell is pushed twice. |
| Matching.SpreadKeeps | script.js:389-399 | Popping a cell and spreading to its neighbours keeps the search invariant. Marked cells are visible and supported. Marked cells no longer pending have all visible neighbours marked. |
| Matching.SupportDone | script.js:389-399 | When nothing is pending, the marked cells are exactly the supported bubbles. |
| Matching.SupportedCells | script.js:377-399 | The search from the visible bubbles of row 0 marks exactly the cells linked to row 0 by a chain of visible bubbles. |
| Matching.GameOverCondition | script.js:415-425 | The result is true exactly when some slot of the last row holds a visible bubble. |
| Snapping.Advance | script.js:160-169 | The bubble moves by its velocity. If the new x would cross a side wall, the horizontal speed is reversed and x is put back against that wall; otherwise x is the moved position and the speed is kept. Afterwards the bubble lies between the walls, and nothing else changes. |
| Snapping.FindCollision | script.js:178-190 | Returns a visible bubble the flying bubble touches, and it is the first such slot in row-major order. Returns nothing exactly when no slot is touched. (`Snapping.FirstHit` states this as one predicate.) |
| Snapping.SearchRow | script.js:201-210 | The search row is the collided bubble's row, or else the pixel row, clamped into 0..11. |
| Snapping.Consider | script.js:216-235 | Scanning one window slot keeps the running nearest-slot summary. A slot replaces the best so far only when it is usable, empty and strictly nearer. |
| Snapping.NearestFreeSlot | script.js:212-237 | Returns no slot when the window has no usable empty slot. Otherwise it returns a usable empty window slot at minimum squared distance. Among equally near slots it returns the first in scan order. |
| Snapping.SearchPicksUnique | script.js:230-235 | The search's description fixes its answer: two results meeting it are equal. |
| Snapping.RowAboveMayBeUnusable | script.js:253-256 | From the last column of an even row, the one-row-up fallback reaches column 14 of the odd row above, which is not usable. |
| Snapping.ChooseSlot | script.js:193-284 | The "Failed to snap" outcome never occurs. The ceiling fallback never places a bubble (its test is the occupied slot already seen). A placed slot is in the grid. It was empty unless the tier is the overwrite. A nearby pick is the nearest-free-slot result; every other tier implies the window had no candidate. The outcome is "fell below" exactly when the window had no candidate and the row under the bubble is past the grid. Each fallback holds its slot and the occupancy that led to it. "Ceiling full" only happens at the ceiling. (`Snapping.Chosen` states these slot rules as one predicate, which the callers pass up.) |
| Game.SettledKnowsCells | script.js:371 | In a settled grid every stored bubble records its own slot, as `removeBubbles` relies on. |
| Game.InitialCellSupported | script.js:72-88 | Every bubble of the starting grid is supported. |
| Game.InitialGridSound | script.js:72-88 | The starting grid is settled, has no visible bubble in the last row, and every bubble in it is supported. |
| Game.SupportWitnesses | script.js:389-399 | Every supported bubble hangs by a chain all of whose cells are supported. |
| Game.PathCarries | script.js:402-409 | A chain of visible bubbles survives in a grid that holds the same bubbles in the chain's slots. |
| Game.SupportCarries | script.js:402-409 | A supporting chain inside a set survives any update that keeps that set's slots. |
| Game.PathCopies | script.js:402-409 | A chain of fitting bubbles is still a chain in an exact copy of the grid. |
| Game.SameGrid | script.js:289-295 | Two grids with the same slots have the same reachable pairs and the same supported bubbles, so facts about the grid carry to a snapshot of it. |
| Game.CopyKeepsChains | script.js:402-409 | A copy of the grid holds the same supporting chains. |
| Game.StillSupported | script.js:402-409 | If the new grid keeps the slots of a set that holds its own supporting chains, and has no visible bubble outside that set, every visible bubble in it is supported. |
| Game.SweepKeepsSupport | script.js:401-409 | After the sweep, every remaining visible bubble is supported. |
| Game.DropRow | script.js:403-408 | One row of the sweep empties exactly the visible bubbles of that row that are not supported, and counts them. Every other slot is kept. |
| Game.DropUnsupported | script.js:401-409 | The sweep empties exactly the visible bubbles that are not in the supported set, and counts them. Every other slot is kept. |
| Game.Game.constructor | script.js:516-517 | The page-load `startGame`: a starting grid, score 0, nothing in flight, the shooter loaded with the second colour draw, and the preview holding the third. |
| Game.Game.InitGrid | script.js:72-88 | Builds a fresh 12 x 15 grid. Exactly the usable slots of the first five rows hold a resting bubble of the drawn colour, centred on its slot and recording it. All other slots are empty. |
| Game.Game.PrepareShooter | script.js:90-99 | The shooter receives the preview's colour, or the extra draw when there is no preview yet. The preview keeps its record and takes the new colour. |
| Game.Game.StartGame | script.js:466-478 | Resets the game over flag, the score and the flight, builds the starting grid, and loads the shooter twice. |
| Game.Game.Fire | script.js:457-464 | Does nothing when the game is over, the shooter is empty or a bubble is in flight. Otherwise the shooter bubble flies with the given velocity and the shooter is emptied. |
| Game.Game.RemoveBubbles | script.js:369-375 | Empties exactly the slots the listed bubbles name; every other slot is kept. |
| Game.Game.RemoveFloatingBubbles | script.js:377-413 | Drops exactly the visible bubbles that were not supported, and keeps every other slot. Afterwards every visible bubble is supported. The score grows by exactly 20 per dropped bubble. |
| Game.Game.Pop | script.js:291-295 | `mid` is the grid once the group is removed. The dropped cells are exactly the visible bubbles of `mid` that no chain links to row 0, and the final grid is `mid` with exactly those emptied. So the group and the bubbles left hanging are emptied and every other slot is kept. The dropped bubbles were visible and not in the group. The score grows by 10 per popped bubble and 20 per dropped bubble. Every remaining visible bubble is supported. |
| Game.Game.Place | script.js:286-290 | Stores a resting bubble of the shot's colour in the slot and clears the flight; every other slot is kept. The group found is exactly the same-colour component of the new bubble in the grid after storing, so it contains the bubble and has its colour. No cell is listed twice, so the group's length, which decides the pop and the score, is the component's size. |
| Game.Game.Resolve | script.js:291-295 | From a grid holding the new bubble, whose group is exactly its component and lists each cell once: a group of fewer than three bubbles changes nothing. A larger group is removed, giving `mid`, and then exactly the visible bubbles of `mid` not linked to row 0 are dropped. The score grows by 10 per group bubble and 20 per dropped bubble, and every visible bubble left is supported. |
| Game.LandedSteps | script.js:286-295 | Storing the bubble and then the cascade compose into `Game.Landed`, stated against the grid before the shot. |
| Game.Game.Land | script.js:286-295 | States `Game.Landed` against snapshots: `before` is the grid as it was, and `placed` is it with the new bubble stored. The group is exactly the new bubble's same-colour component in `placed`, and its length is that component's size. A group under three leaves `placed`, with no drop and no score. A group of three or more is removed, giving `mid`. Then exactly the visible bubbles of `mid` not linked to row 0 are dropped. This scores 10 and 20 per bubble and leaves every visible bubble supported. |
| Game.Game.EndTurn | script.js:297-301 | The game is over exactly when it was already over or a visible bubble is in the last row. In that case the shooter and preview are untouched; otherwise the shooter is reloaded from the preview. |
| Game.Game.Settle | script.js:286-301 | Everything Land states (the stored bubble, the group as the exact component, the exact drops and the score), then the end of the turn: the game is over exactly when a visible bubble is in the last row. In that case the shooter and preview are untouched; otherwise the shooter is reloaded. |
| Game.Game.Snap | script.js:193-309 | The outcome obeys every slot rule of `Snapping.ChooseSlot` on the grid as it was: the nearest free window slot when there is one, otherwise the fallback tiers in order. Every snap either places the bubble or ends the game. On game end nothing else changes. A placement clears the flight. The slot was empty unless the overwrite tier chose it. A placed bubble lands as `Game.Game.Settle` states: the same-colour component, exact pops and drops, and the score. The game ends exactly when the last row shows a bubble; otherwise the shooter is reloaded from the preview. |
| Game.Game.Frame | script.js:157-191 | Stops when the game is over or nothing is flying. Otherwise the bubble moves. It snaps exactly when its top edge leaves the canvas or it touches a visible resting bubble. Without a snap only the flying bubble changes, to its moved value. When the top edge leaves the canvas, the bubble snapped is the moved one with its centre put at one radius, with no collided bubble. Otherwise it is the moved bubble, and the collided bubble is the first touched slot in row-major order. The snap then follows the slot rules with that bubble and lands it as `Game.Game.Snap` states. A game-ending snap leaves the grid, score, shooter and preview untouched. After a placement the game is over exactly when the last row shows a bubble; otherwise the shooter is reloaded from the preview and a new preview colour is drawn. |

## Left out

- Drawing, the DOM and the console are not modelled: the canvas and preview
  drawing, the score and game-over displays, `updateScore` and the console
  messages. Of `endGame` only `gameOver := true` is kept.
- The aim is not modelled: the mouse handler, `atan2` and its clamp, and the
  `cos`/`sin` velocity. `Game.Game.Fire` takes the velocity as parameters.
- `Math.random` colours are parameters: a colour per cell for the starting
  grid, and explicit colours for the shooter and preview draws.
- Frame scheduling is not modelled: `requestAnimationFrame`, the two
  definitions of `gameLoop` and the restart guard. `Game.Game.Frame` is one
  tick: the game-over guard of `gameLoop` plus `updateFlyingBubble`.
- Floating point: positions and velocities are exact reals, so rounding in
  `Math.floor`, `Math.hypot` and the bounce is not modelled.
- `Math.hypot(dx, dy) < d` is modelled as `dx*dx + dy*dy < d*d`. For
  non-negative `d` this is the same comparison over the reals.
- `script.js` has no levels, special bubbles, powerups, pause, audio or
  level-scaled bonuses, so neither does the model. The "Failed to snap" branch is
  modelled and proved unreachable rather than treated as a recovery path.
  The support search uses a stack, so its order is depth-first; only its
  resulting set is modelled.
- Game.Game.Snap: requires the bubble's centre to be at least a radius below
  the top. Both callers in `updateFlyingBubble` guarantee it: the ceiling
  branch sets `y` to the radius, and the collision branch is only reached
  when the top edge is inside the canvas.
- The one-row-up fallback can place a bubble in the unusable slot at the end
  of an odd row (`Snapping.RowAboveMayBeUnusable`). The model keeps this
  behaviour as written. Such a bubble is never supported
  (`Grid.UnusableNeverSupported`), so the next pop drops it. It can still
  join a match from its own position.
- The `isStatic` field is kept in the bubble record as the constructor sets
  it, though no code reads it. The velocity fields are kept and read by the
  flight step. Every bubble has the same radius, so `radius` is a constant
  rather than a field.
