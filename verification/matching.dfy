/** The read-only searches over the grid: the same-colour flood fill that
    decides what pops, the search from the ceiling that decides what stays,
    and the test of the last row that decides when the game is lost. */
module Matching {
  import opened Grid

  /** Every stored bubble knows the slot it is stored in. */
  predicate SlotsKnowTheirCells(g: array2<Slot>)
    requires Shaped(g)
    reads g
  {
    forall r, c :: 0 <= r < ROWS && 0 <= c < COLS && g[r, c].Some? ==>
      g[r, c].value.row == r && g[r, c].value.col == c
  }

  function CellOf(b: Bubble): Cell
  {
    Cell(b.row, b.col)
  }

  /** The cells a list of bubbles claims to occupy. */
  function CellsOf(bs: seq<Bubble>): set<Cell>
  {
    if bs == [] then {} else CellsOf(bs[..|bs| - 1]) + {CellOf(bs[|bs| - 1])}
  }

  lemma CellsOfAppend(bs: seq<Bubble>, b: Bubble)
    ensures CellsOf(bs + [b]) == CellsOf(bs) + {CellOf(b)}
  {
    assert (bs + [b])[..|bs|] == bs;
  }

  /** A list of bubbles naming no cell twice has as many bubbles as cells,
      so its length is the size of the group it covers. */
  lemma {:induction false} DistinctCellsCount(bs: seq<Bubble>)
    requires forall i, j :: 0 <= i < j < |bs| ==> CellOf(bs[i]) != CellOf(bs[j])
    ensures |CellsOf(bs)| == |bs|
  {
    if bs != [] {
      var front := bs[..|bs| - 1];
      DistinctCellsCount(front);
      assert CellOf(bs[|bs| - 1]) !in CellsOf(front) by {
        forall k | 0 <= k < |front| ensures CellOf(front[k]) != CellOf(bs[|bs| - 1]) {
          assert front[k] == bs[k];
        }
        CellsOfMembers(front);
      }
    }
  }

  /** Every cell of CellsOf(bs) is named by some bubble of `bs`. */
  lemma {:induction false} CellsOfMembers(bs: seq<Bubble>)
    ensures forall c :: c in CellsOf(bs) ==> exists k :: 0 <= k < |bs| && CellOf(bs[k]) == c
  {
    if bs != [] {
      var front := bs[..|bs| - 1];
      CellsOfMembers(front);
      assert CellsOf(bs) == CellsOf(front) + {CellOf(bs[|bs| - 1])};
      forall c | c in CellsOf(bs) ensures exists k :: 0 <= k < |bs| && CellOf(bs[k]) == c {
        if c != CellOf(bs[|bs| - 1]) {
          var k :| 0 <= k < |front| && CellOf(front[k]) == c;
          assert bs[k] == front[k];
        }
      }
    }
  }

  /** `n` copies of one cell (the parent recorded for each pushed neighbour). */
  function Repeat(c: Cell, n: nat): (r: seq<Cell>)
    ensures |r| == n && forall i :: 0 <= i < n ==> r[i] == c
  {
    if n == 0 then [] else Repeat(c, n - 1) + [c]
  }

  /** Every pending cell is the seed or a neighbour of the matched cell
      recorded beside it. */
  ghost predicate Parented(g: array2<Slot>, start: Cell, found: set<Cell>, t: seq<Cell>, p: seq<Cell>)
    requires Shaped(g)
    reads g
  {
    |p| == |t| &&
    forall i :: 0 <= i < |t| ==> t[i] == start || (p[i] in found && IsNeighbour(g, p[i], t[i]))
  }

  lemma PushKeepsParents(g: array2<Slot>, start: Cell, found: set<Cell>, t: seq<Cell>, p: seq<Cell>,
                         current: Cell, vs: seq<Cell>)
    requires Shaped(g) && Parented(g, start, found, t, p) && current in found
    requires forall i :: 0 <= i < |vs| ==> IsNeighbour(g, current, vs[i])
    ensures Parented(g, start, found, t + vs, p + Repeat(current, |vs|))
  {
    var t', p' := t + vs, p + Repeat(current, |vs|);
    forall i | 0 <= i < |t'|
      ensures t'[i] == start || (p'[i] in found && IsNeighbour(g, p'[i], t'[i]))
    {
      if i < |t| {
        assert t'[i] == t[i] && p'[i] == p[i];
      } else {
        assert t'[i] == vs[i - |t|] && p'[i] == current;
      }
    }
  }

  /** The inner loop of `findMatches`: the visible bubbles among the given
      cells, in order. */
  method VisibleAmong(g: array2<Slot>, cs: seq<Cell>) returns (vs: seq<Cell>)
    requires Shaped(g)
    requires forall i :: 0 <= i < |cs| ==> InGrid(cs[i])
    ensures forall i :: 0 <= i < |vs| ==> vs[i] in cs && Fits(g, None, vs[i])
    ensures forall b :: b in cs && Fits(g, None, b) ==> b in vs
  {
    vs := [];
    for k := 0 to |cs|
      invariant forall i :: 0 <= i < |vs| ==> vs[i] in cs && Fits(g, None, vs[i])
      invariant forall j :: 0 <= j < k && Fits(g, None, cs[j]) ==> cs[j] in vs
    {
      var n := cs[k];
      if g[n.row, n.col].Some? && g[n.row, n.col].value.visible {
        vs := vs + [n];
      }
    }
  }

  /** `matched` lists the bubbles stored at the cells of `found`, once each. */
  ghost predicate MatchList(g: array2<Slot>, matched: seq<Bubble>, found: set<Cell>)
    requires Shaped(g)
    reads g
  {
    found == CellsOf(matched) &&
    (forall i :: 0 <= i < |matched| ==> CellOf(matched[i]) in found) &&
    (forall i :: 0 <= i < |matched| ==>
       InGrid(CellOf(matched[i])) && g[matched[i].row, matched[i].col] == Some(matched[i])) &&
    (forall i, j :: 0 <= i < j < |matched| ==> CellOf(matched[i]) != CellOf(matched[j]))
  }

  lemma MatchListAppend(g: array2<Slot>, matched: seq<Bubble>, found: set<Cell>, c: Cell)
    requires Shaped(g) && SlotsKnowTheirCells(g) && MatchList(g, matched, found)
    requires InGrid(c) && c !in found && g[c.row, c.col].Some?
    ensures MatchList(g, matched + [g[c.row, c.col].value], found + {c})
  {
    var b := g[c.row, c.col].value;
    CellsOfAppend(matched, b);
    var m' := matched + [b];
    assert forall i :: 0 <= i < |matched| ==> m'[i] == matched[i];
  }

  /** Every visible neighbour of a matched cell was visited or is pending. */
  ghost predicate Frontier(g: array2<Slot>, found: set<Cell>, visited: set<Cell>, toVisit: seq<Cell>)
    requires Shaped(g)
    reads g
  {
    forall a, b :: a in found && IsNeighbour(g, a, b) && Fits(g, None, b) ==> b in visited || b in toVisit
  }

  /** Popping the last element of a stack. */
  lemma PopSplit(t: seq<Cell>)
    requires |t| > 0
    ensures t == t[..|t| - 1] + [t[|t| - 1]]
    ensures forall x :: x in t ==> x == t[|t| - 1] || x in t[..|t| - 1]
  {
  }

  lemma FrontierAfterVisit(g: array2<Slot>, found: set<Cell>, visited: set<Cell>, toVisit: seq<Cell>,
                           vs: seq<Cell>, matches: bool)
    requires Shaped(g) && Frontier(g, found, visited, toVisit) && |toVisit| > 0
    requires matches ==>
               forall b :: IsNeighbour(g, toVisit[|toVisit| - 1], b) && Fits(g, None, b) ==> b in vs
    ensures var current := toVisit[|toVisit| - 1];
            Frontier(g, if matches then found + {current} else found, visited + {current},
                     toVisit[..|toVisit| - 1] + vs)
  {
    PopSplit(toVisit);
  }

  /** The state of the flood fill between two pops: the pending stack with
      the parent of each entry, the visited cells, and the matches so far. */
  ghost predicate FillInv(g: array2<Slot>, want: Option<Color>, start: Cell, toVisit: seq<Cell>,
                          pushedBy: seq<Cell>, visited: set<Cell>, matched: seq<Bubble>, found: set<Cell>)
    requires Shaped(g)
    reads g
  {
    InGrid(start) &&
    Parented(g, start, found, toVisit, pushedBy) &&
    (forall c :: c in visited ==> InGrid(c)) &&
    (start in visited || start in toVisit) &&
    found <= visited && MatchList(g, matched, found) &&
    Frontier(g, found, visited, toVisit) &&
    (forall c :: c in visited ==> (c in found <==> Fits(g, want, c))) &&
    (forall c {:trigger Reachable(g, want, start, c)} :: c in found ==> Reachable(g, want, start, c))
  }

  lemma PendingInGrid(g: array2<Slot>, want: Option<Color>, start: Cell, toVisit: seq<Cell>,
                      pushedBy: seq<Cell>, visited: set<Cell>, matched: seq<Bubble>, found: set<Cell>)
    requires Shaped(g) && FillInv(g, want, start, toVisit, pushedBy, visited, matched, found)
    requires |toVisit| > 0
    ensures InGrid(toVisit[|toVisit| - 1])
  {
  }

  /** Popping a cell that was already visited keeps the invariant. */
  lemma PopVisited(g: array2<Slot>, want: Option<Color>, start: Cell, toVisit: seq<Cell>,
                   pushedBy: seq<Cell>, visited: set<Cell>, matched: seq<Bubble>, found: set<Cell>)
    requires Shaped(g) && FillInv(g, want, start, toVisit, pushedBy, visited, matched, found)
    requires |toVisit| > 0 && toVisit[|toVisit| - 1] in visited
    ensures FillInv(g, want, start, toVisit[..|toVisit| - 1], pushedBy[..|toVisit| - 1], visited, matched, found)
  {
    PopSplit(toVisit);
  }

  /** Visiting a cell that does not fit keeps the invariant. */
  lemma VisitOther(g: array2<Slot>, want: Option<Color>, start: Cell, toVisit: seq<Cell>,
                   pushedBy: seq<Cell>, visited: set<Cell>, matched: seq<Bubble>, found: set<Cell>)
    requires Shaped(g) && FillInv(g, want, start, toVisit, pushedBy, visited, matched, found)
    requires |toVisit| > 0 && toVisit[|toVisit| - 1] !in visited
    requires !Fits(g, want, toVisit[|toVisit| - 1])
    ensures FillInv(g, want, start, toVisit[..|toVisit| - 1], pushedBy[..|toVisit| - 1],
                    visited + {toVisit[|toVisit| - 1]}, matched, found)
  {
    PopSplit(toVisit);
  }

  /** Visiting a cell that fits records it as matched and pushes its visible
      neighbours; the invariant is kept. */
  lemma VisitMatch(g: array2<Slot>, want: Option<Color>, start: Cell, toVisit: seq<Cell>,
                   pushedBy: seq<Cell>, visited: set<Cell>, matched: seq<Bubble>, found: set<Cell>,
                   vs: seq<Cell>)
    requires Shaped(g) && SlotsKnowTheirCells(g)
    requires FillInv(g, want, start, toVisit, pushedBy, visited, matched, found)
    requires |toVisit| > 0 && toVisit[|toVisit| - 1] !in visited
    requires Fits(g, want, toVisit[|toVisit| - 1])
    requires forall i :: 0 <= i < |vs| ==> IsNeighbour(g, toVisit[|toVisit| - 1], vs[i])
    requires forall b :: IsNeighbour(g, toVisit[|toVisit| - 1], b) && Fits(g, None, b) ==> b in vs
    ensures var current := toVisit[|toVisit| - 1];
            FillInv(g, want, start, toVisit[..|toVisit| - 1] + vs,
                    pushedBy[..|toVisit| - 1] + Repeat(current, |vs|),
                    visited + {current}, matched + [g[current.row, current.col].value], found + {current})
  {
    var current := toVisit[|toVisit| - 1];
    PopSplit(toVisit);
    FrontierAfterVisit(g, found, visited, toVisit, vs, true);
    ReachAfterVisit(g, want, start, toVisit, pushedBy, found);
    ParentsAfterVisit(g, start, toVisit, pushedBy, found, vs);
    MatchListAppend(g, matched, found, current);
  }

  /** The popped fitting cell is reachable: it is the seed or a fitting
      neighbour of a matched, hence reachable, cell. */
  lemma ReachAfterVisit(g: array2<Slot>, want: Option<Color>, start: Cell, toVisit: seq<Cell>,
                        pushedBy: seq<Cell>, found: set<Cell>)
    requires Shaped(g) && Parented(g, start, found, toVisit, pushedBy) && |toVisit| > 0
    requires forall c {:trigger Reachable(g, want, start, c)} :: c in found ==> Reachable(g, want, start, c)
    requires Fits(g, want, toVisit[|toVisit| - 1])
    ensures var found' := found + {toVisit[|toVisit| - 1]};
            forall c {:trigger Reachable(g, want, start, c)} :: c in found' ==> Reachable(g, want, start, c)
  {
    var current := toVisit[|toVisit| - 1];
    if current == start {
      ReachableFromItself(g, want, start);
    } else {
      var parent := pushedBy[|toVisit| - 1];
      assert parent in found && IsNeighbour(g, parent, current);
      ReachableStep(g, want, start, parent, current);
    }
  }

  lemma ParentsAfterVisit(g: array2<Slot>, start: Cell, toVisit: seq<Cell>, pushedBy: seq<Cell>,
                          found: set<Cell>, vs: seq<Cell>)
    requires Shaped(g) && Parented(g, start, found, toVisit, pushedBy) && |toVisit| > 0
    requires forall i :: 0 <= i < |vs| ==> IsNeighbour(g, toVisit[|toVisit| - 1], vs[i])
    ensures var current := toVisit[|toVisit| - 1];
            Parented(g, start, found + {current}, toVisit[..|toVisit| - 1] + vs,
                     pushedBy[..|toVisit| - 1] + Repeat(current, |vs|))
  {
    var current := toVisit[|toVisit| - 1];
    var found' := found + {current};
    assert Parented(g, start, found', toVisit[..|toVisit| - 1], pushedBy[..|toVisit| - 1]);
    PushKeepsParents(g, start, found', toVisit[..|toVisit| - 1], pushedBy[..|toVisit| - 1], current, vs);
  }

  /** An empty stack leaves a closed set of matches. */
  lemma FillDone(g: array2<Slot>, want: Option<Color>, start: Cell, pushedBy: seq<Cell>,
                 visited: set<Cell>, matched: seq<Bubble>, found: set<Cell>)
    requires Shaped(g) && FillInv(g, want, start, [], pushedBy, visited, matched, found)
    ensures forall c :: c in found <==> Reachable(g, want, start, c)
  {
    if Fits(g, want, start) {
      assert Closed(g, want, found);
      ClosedSetHoldsReachable(g, want, found, start);
    } else {
      forall c ensures Reachable(g, want, start, c) ==> Fits(g, want, start) {
        ReachableStartsFitting(g, want, start, c);
      }
    }
  }

  /** One turn of the loop of `findMatches`: pop the last pending cell and,
      unless it was seen before, mark it; when it holds a visible bubble of
      the wanted colour, record the bubble and push its visible neighbours. */
  method VisitNext(g: array2<Slot>, colour: Color, ghost start: Cell, toVisit: seq<Cell>, visited: set<Cell>,
                   matched: seq<Bubble>, ghost pushedBy: seq<Cell>, ghost found: set<Cell>)
    returns (toVisit': seq<Cell>, visited': set<Cell>, matched': seq<Bubble>,
             ghost pushedBy': seq<Cell>, ghost found': set<Cell>)
    requires Shaped(g) && SlotsKnowTheirCells(g) && |toVisit| > 0
    requires FillInv(g, Some(colour), start, toVisit, pushedBy, visited, matched, found)
    ensures FillInv(g, Some(colour), start, toVisit', pushedBy', visited', matched', found')
    ensures AllCells - visited' < AllCells - visited || (visited' == visited && |toVisit'| < |toVisit|)
  {
    ghost var want := Some(colour);
    PendingInGrid(g, want, start, toVisit, pushedBy, visited, matched, found);
    var current := toVisit[|toVisit| - 1];
    if current in visited {
      PopVisited(g, want, start, toVisit, pushedBy, visited, matched, found);
      return toVisit[..|toVisit| - 1], visited, matched, pushedBy[..|toVisit| - 1], found;
    }
    FewerOutside(visited, visited + {current});
    var slot := g[current.row, current.col];
    if slot.Some? && slot.value.visible && slot.value.color == colour {
      var vs := VisibleAmong(g, Neighbours(g, current));
      VisitMatch(g, want, start, toVisit, pushedBy, visited, matched, found, vs);
      toVisit', pushedBy' := toVisit[..|toVisit| - 1] + vs, pushedBy[..|toVisit| - 1] + Repeat(current, |vs|);
      visited', matched', found' := visited + {current}, matched + [slot.value], found + {current};
    } else {
      VisitOther(g, want, start, toVisit, pushedBy, visited, matched, found);
      toVisit', pushedBy' := toVisit[..|toVisit| - 1], pushedBy[..|toVisit| - 1];
      visited', matched', found' := visited + {current}, matched, found;
    }
  }

  /** `findMatches`: the bubbles of the seed's colour that the seed reaches
      through visible bubbles of that colour, each listed once. The grid is
      only read. */
  method FindMatches(g: array2<Slot>, start: Cell) returns (matched: seq<Bubble>)
    requires Shaped(g) && SlotsKnowTheirCells(g)
    requires InGrid(start) && g[start.row, start.col].Some?
    ensures forall i :: 0 <= i < |matched| ==>
              InGrid(CellOf(matched[i])) && g[matched[i].row, matched[i].col] == Some(matched[i])
    ensures forall i :: 0 <= i < |matched| ==>
              matched[i].visible && matched[i].color == g[start.row, start.col].value.color
    ensures forall i, j :: 0 <= i < j < |matched| ==> CellOf(matched[i]) != CellOf(matched[j])
    ensures forall c :: c in CellsOf(matched) <==>
              Reachable(g, Some(g[start.row, start.col].value.color), start, c)
  {
    var colour := g[start.row, start.col].value.color;
    var toVisit := [start];
    var visited: set<Cell> := {};
    matched := [];
    ghost var want := Some(colour);
    ghost var found: set<Cell> := {};
    // For each pending cell other than the seed, the matched cell that pushed it.
    ghost var pushedBy: seq<Cell> := [start];
    while |toVisit| > 0
      invariant FillInv(g, want, start, toVisit, pushedBy, visited, matched, found)
      decreases AllCells - visited, |toVisit|
    {
      toVisit, visited, matched, pushedBy, found :=
        VisitNext(g, colour, start, toVisit, visited, matched, pushedBy, found);
    }
    FillDone(g, want, start, pushedBy, visited, matched, found);
  }

  // ---------------------------------------------------------------------
  // The search from the ceiling

  /** The state of the search from the ceiling: every supported cell found
      holds a visible, supported bubble; every pending cell was found; a cell
      found and no longer pending has all its visible neighbours found; and
      every visible bubble of row 0 was found. */
  ghost predicate SupportInv(g: array2<Slot>, supported: set<Cell>, toVisit: seq<Cell>)
    requires Shaped(g)
    reads g
  {
    (forall c :: c in supported ==> Fits(g, None, c)) &&
    (forall c {:trigger Supported(g, c)} :: c in supported ==> Supported(g, c)) &&
    (forall x :: x in toVisit ==> x in supported) &&
    (forall a, b :: a in supported && a !in toVisit && IsNeighbour(g, a, b) && Fits(g, None, b) ==>
       b in supported) &&
    (forall c :: 0 <= c < COLS && Fits(g, None, Cell(0, c)) ==> Cell(0, c) in supported)
  }

  /** The inner loop of `removeFloatingBubbles`: mark and push every visible
      cell among `ns` not yet marked. */
  method Spread(g: array2<Slot>, ns: seq<Cell>, supported: set<Cell>, toVisit: seq<Cell>)
    returns (supported': set<Cell>, toVisit': seq<Cell>)
    requires Shaped(g) && forall i :: 0 <= i < |ns| ==> InGrid(ns[i])
    ensures forall b :: b in supported' <==> b in supported || (b in ns && Fits(g, None, b))
    ensures forall b :: b in toVisit' <==> b in toVisit || (b in ns && Fits(g, None, b) && b !in supported)
    ensures supported' == supported ==> toVisit' == toVisit
    // The stack only grows, by the newly marked cells in the order of `ns`, each pushed once.
    ensures |toVisit| <= |toVisit'| && toVisit'[..|toVisit|] == toVisit
    ensures Subsequence(toVisit'[|toVisit|..], ns)
    ensures forall i, j :: |toVisit| <= i < j < |toVisit'| ==> toVisit'[i] != toVisit'[j]
    ensures forall b :: b in toVisit'[|toVisit|..] <==> b in ns && Fits(g, None, b) && b !in supported
  {
    supported', toVisit' := supported, toVisit;
    for k := 0 to |ns|
      invariant forall b :: b in supported' <==> b in supported || (b in ns[..k] && Fits(g, None, b))
      invariant forall b :: b in toVisit' <==> b in toVisit || (b in ns[..k] && Fits(g, None, b) && b !in supported)
      invariant supported' == supported ==> toVisit' == toVisit
      invariant |toVisit| <= |toVisit'| && toVisit'[..|toVisit|] == toVisit
      invariant Subsequence(toVisit'[|toVisit|..], ns[..k])
      invariant forall i, j :: |toVisit| <= i < j < |toVisit'| ==> toVisit'[i] != toVisit'[j]
      invariant forall b :: b in toVisit'[|toVisit|..] <==> b in ns[..k] && Fits(g, None, b) && b !in supported
    {
      var n := ns[k];
      assert ns[..k + 1] == ns[..k] + [n];
      if g[n.row, n.col].Some? && g[n.row, n.col].value.visible && n !in supported' {
        SubsequenceExtend(toVisit'[|toVisit|..], ns[..k], n);
        assert (toVisit' + [n])[|toVisit|..] == toVisit'[|toVisit|..] + [n];
        supported', toVisit' := supported' + {n}, toVisit' + [n];
      } else {
        SubsequenceGrow(toVisit'[|toVisit|..], ns[..k], n);
      }
    }
    assert ns[..|ns|] == ns;
  }

  /** Popping a cell and spreading to its neighbours keeps the invariant. */
  lemma SpreadKeeps(g: array2<Slot>, supported: set<Cell>, toVisit: seq<Cell>,
                    supported': set<Cell>, toVisit': seq<Cell>)
    requires Shaped(g) && SupportInv(g, supported, toVisit) && |toVisit| > 0
    requires var current := toVisit[|toVisit| - 1];
             var ns := Neighbours(g, current);
             (forall b :: b in supported' <==> b in supported || (b in ns && Fits(g, None, b))) &&
             (forall b :: b in toVisit' <==> b in toVisit[..|toVisit| - 1] ||
                                             (b in ns && Fits(g, None, b) && b !in supported))
    ensures SupportInv(g, supported', toVisit')
  {
    var current := toVisit[|toVisit| - 1];
    var ns := Neighbours(g, current);
    PopSplit(toVisit);
    assert current in supported;
    forall b | b in supported' && b !in supported ensures Supported(g, b) {
      SupportedStep(g, current, b);
    }
  }

  /** With nothing pending, the marked cells are exactly the supported ones. */
  lemma SupportDone(g: array2<Slot>, supported: set<Cell>)
    requires Shaped(g) && SupportInv(g, supported, [])
    ensures forall c :: c in supported <==> Supported(g, c)
  {
    assert Closed(g, None, supported);
    forall c | Supported(g, c) ensures c in supported {
      var p: seq<Cell> :| IsPath(g, None, p) && p[0].row == 0 && p[|p| - 1] == c;
      assert Fits(g, None, p[0]);
      assert p[0] == Cell(0, p[0].col);
      ClosedSetHoldsPath(g, None, supported, p);
    }
  }

  /** The first half of `removeFloatingBubbles`: the cells linked to the
      ceiling through visible bubbles, found by a search seeded with the
      visible bubbles of row 0. */
  method SupportedCells(g: array2<Slot>) returns (supported: set<Cell>)
    requires Shaped(g)
    ensures forall c {:trigger Supported(g, c)} :: c in supported <==> Supported(g, c)
  {
    supported := {};
    var toVisit: seq<Cell> := [];
    for c := 0 to COLS
      invariant forall x :: x in supported <==> x.row == 0 && 0 <= x.col < c && Fits(g, None, x)
      invariant forall x :: x in toVisit <==> x in supported
    {
      if g[0, c].Some? && g[0, c].value.visible {
        toVisit := toVisit + [Cell(0, c)];
        supported := supported + {Cell(0, c)};
      }
    }
    forall x | x in supported ensures Supported(g, x) {
      CeilingSupported(g, x.col);
    }
    while |toVisit| > 0
      invariant SupportInv(g, supported, toVisit)
      decreases AllCells - supported, |toVisit|
    {
      var current := toVisit[|toVisit| - 1];
      ghost var before, pending := supported, toVisit;
      toVisit := toVisit[..|toVisit| - 1];
      var ns := Neighbours(g, current);
      supported, toVisit := Spread(g, ns, supported, toVisit);
      SpreadKeeps(g, before, pending, supported, toVisit);
      if supported != before {
        FewerOutside(before, supported);
      }
    }
    SupportDone(g, supported);
  }

  /** Some visible bubble sits in the last row. */
  predicate LastRowShows(g: array2<Slot>)
    requires Shaped(g)
    reads g
  {
    exists c :: 0 <= c < COLS && Fits(g, None, Cell(LAST_ROW, c))
  }

  /** `checkGameOverCondition`: some visible bubble sits in the last row. */
  method GameOverCondition(g: array2<Slot>) returns (over: bool)
    requires Shaped(g)
    ensures over <==> exists c :: 0 <= c < COLS && Fits(g, None, Cell(LAST_ROW, c))
    ensures over == LastRowShows(g)
  {
    for c := 0 to COLS
      invariant forall j :: 0 <= j < c ==> !Fits(g, None, Cell(LAST_ROW, j))
    {
      if g[LAST_ROW, c].Some? && g[LAST_ROW, c].value.visible {
        assert Fits(g, None, Cell(LAST_ROW, c));
        return true;
      }
    }
    return false;
  }
}
