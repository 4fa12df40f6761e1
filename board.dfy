/**
 * The board (board/board.py): 81 cells, read row by row, column by column
 * and box by box, with candidate propagation from solved cells to the
 * unsolved cells sharing a unit with them.
 *
 * The Python board holds a 9x9 list of Cell objects, and the units it
 * hands out are lists of references to those same objects. Here the
 * cells live in one array of CellState values (the arena), indexed
 * row-major, and a unit is a list of positions into that array.
 */
module Board {
  import opened Wrappers
  import opened Cells
  import opened Geometry
  import Location

  type Grid = seq<CellState>

  /** 81 cells whose candidates are all digits 1..9. */
  predicate ValidGrid(g: Grid) {
    |g| == 81 && forall i :: 0 <= i < 81 ==> g[i].candidates <= Digits
  }

  /** SudokuBoard(grid): cell (r, c) becomes Cell(v, is_initial = v != 0) for v = grid[r][c]. */
  function NewGrid(puzzle: seq<seq<int>>): (g: Grid)
    requires NineByNine(puzzle)
    ensures ValidGrid(g)
    ensures forall r, c :: 0 <= r < 9 && 0 <= c < 9 ==>
      g[Idx((r, c))] == NewCell(puzzle[r][c], puzzle[r][c] != 0)
  {
    seq(81, i requires 0 <= i < 81 => NewCell(puzzle[i / 9][i % 9], puzzle[i / 9][i % 9] != 0))
  }

  // ---------------------------------------------------------------------
  // Read-only views

  function Row(g: Grid, r: int): (cells: seq<CellState>)
    requires |g| == 81 && 0 <= r < 9
    ensures |cells| == 9
    ensures forall j :: 0 <= j < 9 ==> cells[j] == g[Idx(RowUnit(r)[j])]
  {
    seq(9, j requires 0 <= j < 9 => g[9 * r + j])
  }

  function Col(g: Grid, c: int): (cells: seq<CellState>)
    requires |g| == 81 && 0 <= c < 9
    ensures |cells| == 9
    ensures forall i :: 0 <= i < 9 ==> cells[i] == g[Idx(ColUnit(c)[i])]
  {
    seq(9, i requires 0 <= i < 9 => g[9 * i + c])
  }

  /** get_box: the box holding (r, c), read row by row from its top-left corner. */
  function Box(g: Grid, r: int, c: int): (cells: seq<CellState>)
    requires |g| == 81 && 0 <= r < 9 && 0 <= c < 9
    ensures |cells| == 9
    ensures forall k :: 0 <= k < 9 ==> cells[k] == g[Idx(BoxUnit(r / 3, c / 3)[k])]
  {
    var sr, sc := 3 * (r / 3), 3 * (c / 3);
    seq(9, k requires 0 <= k < 9 => g[9 * (sr + k / 3) + (sc + k % 3)])
  }

  /** The box of (r, c) holds exactly the cells in the same box as (r, c), the cell itself among them. */
  lemma BoxMembers(r: int, c: int)
    requires 0 <= r < 9 && 0 <= c < 9
    ensures BoxUnit(r / 3, c / 3)[3 * (r % 3) + c % 3] == (r, c)
    ensures forall k :: 0 <= k < 9 ==> ValidPos(BoxUnit(r / 3, c / 3)[k]) && SameBox(BoxUnit(r / 3, c / 3)[k], (r, c))
  {
    forall k | 0 <= k < 9
      ensures ValidPos(BoxUnit(r / 3, c / 3)[k]) && SameBox(BoxUnit(r / 3, c / 3)[k], (r, c))
    {
      BoxOffset(r / 3, c / 3, k);
    }
    var k := 3 * (r % 3) + c % 3;
    assert k / 3 == r % 3 && k % 3 == c % 3;
  }

  /** get_candidates_grid: a 9x9 copy of every cell's candidates. */
  function CandidatesGrid(g: Grid): (cg: seq<seq<set<int>>>)
    requires |g| == 81
    ensures NineByNine(cg)
    ensures forall r, c :: 0 <= r < 9 && 0 <= c < 9 ==> cg[r][c] == g[Idx((r, c))].candidates
  {
    seq(9, r requires 0 <= r < 9 => seq(9, c requires 0 <= c < 9 => g[9 * r + c].candidates))
  }

  /** The 9x9 grid of values, as the solvers report it. */
  function ValueGrid(g: Grid): (vg: seq<seq<int>>)
    requires |g| == 81
    ensures NineByNine(vg)
    ensures forall r, c :: 0 <= r < 9 && 0 <= c < 9 ==> vg[r][c] == g[Idx((r, c))].value
  {
    seq(9, r requires 0 <= r < 9 => seq(9, c requires 0 <= c < 9 => g[9 * r + c].value))
  }

  // ---------------------------------------------------------------------
  // Peers

  /** get_peer_positions: the row, the column and the box of (r, c), without (r, c). */
  function PeerPositions(r: int, c: int): set<Pos>
    requires 0 <= r < 9 && 0 <= c < 9
  {
    var br, bc := 3 * (r / 3), 3 * (c / 3);
    (set i | 0 <= i < 9 && i != c :: (r, i))
    + (set i | 0 <= i < 9 && i != r :: (i, c))
    + (set rr, cc | br <= rr < br + 3 && bc <= cc < bc + 3 && (rr, cc) != (r, c) :: (rr, cc))
  }

  lemma PeerPositionsMeaning(r: int, c: int, q: Pos)
    requires 0 <= r < 9 && 0 <= c < 9
    ensures q in PeerPositions(r, c) <==> IsPeer((r, c), q)
  {
    if IsPeer((r, c), q) && q.0 != r && q.1 != c {
      assert 3 * (r / 3) <= q.0 < 3 * (r / 3) + 3;
      assert 3 * (c / 3) <= q.1 < 3 * (c / 3) + 3;
    }
  }

  /** The k-th number of 0..n that is not x. */
  function Skip(k: int, x: int): int {
    if k < x then k else k + 1
  }

  /** A repetition-free list of the peers: the other eight of the row and of the column, then the four remaining box cells. */
  function PeerList(r: int, c: int): (ps: seq<Pos>)
    requires 0 <= r < 9 && 0 <= c < 9
    ensures |ps| == 20
  {
    var br, bc := 3 * (r / 3), 3 * (c / 3);
    seq(8, k requires 0 <= k < 8 => (r, Skip(k, c)))
    + seq(8, k requires 0 <= k < 8 => (Skip(k, r), c))
    + seq(4, k requires 0 <= k < 4 => (br + Skip(k / 2, r % 3), bc + Skip(k % 2, c % 3)))
  }

  lemma PeerListBoxPart(r: int, c: int, k: int)
    requires 0 <= r < 9 && 0 <= c < 9 && 16 <= k < 20
    ensures PeerList(r, c)[k].0 != r && PeerList(r, c)[k].1 != c
    ensures IsPeer((r, c), PeerList(r, c)[k])
    ensures PeerList(r, c)[k].0 - 3 * (r / 3) == Skip((k - 16) / 2, r % 3)
    ensures PeerList(r, c)[k].1 - 3 * (c / 3) == Skip((k - 16) % 2, c % 3)
  {
    assert r == 3 * (r / 3) + r % 3 && c == 3 * (c / 3) + c % 3;
  }

  lemma PeerListDistinct(r: int, c: int)
    requires 0 <= r < 9 && 0 <= c < 9
    ensures forall a, b :: 0 <= a < b < 20 ==> PeerList(r, c)[a] != PeerList(r, c)[b]
    ensures forall a :: 0 <= a < 20 ==> IsPeer((r, c), PeerList(r, c)[a])
  {
    var ps := PeerList(r, c);
    forall k | 16 <= k < 20
      ensures ps[k].0 != r && ps[k].1 != c && IsPeer((r, c), ps[k])
      ensures ps[k].0 - 3 * (r / 3) == Skip((k - 16) / 2, r % 3)
      ensures ps[k].1 - 3 * (c / 3) == Skip((k - 16) % 2, c % 3)
    {
      PeerListBoxPart(r, c, k);
    }
    forall a, b | 0 <= a < b < 20 ensures ps[a] != ps[b] {
      if 16 <= a {
        assert (a - 16) / 2 != (b - 16) / 2 || (a - 16) % 2 != (b - 16) % 2;
      }
    }
  }

  lemma PeerListComplete(r: int, c: int, q: Pos)
    requires 0 <= r < 9 && 0 <= c < 9 && IsPeer((r, c), q)
    ensures q in PeerList(r, c)
  {
    var ps := PeerList(r, c);
    var br, bc := 3 * (r / 3), 3 * (c / 3);
    if q.0 == r {
      var k := if q.1 < c then q.1 else q.1 - 1;
      assert ps[k] == q;
    } else if q.1 == c {
      var k := if q.0 < r then q.0 else q.0 - 1;
      assert ps[8 + k] == q;
    } else {
      assert r == br + r % 3 && c == bc + c % 3;
      assert q.0 / 3 == r / 3 && q.1 / 3 == c / 3;
      assert br <= q.0 < br + 3 && bc <= q.1 < bc + 3;
      var dr := if q.0 - br < r % 3 then q.0 - br else q.0 - br - 1;
      var dc := if q.1 - bc < c % 3 then q.1 - bc else q.1 - bc - 1;
      var k := 2 * dr + dc;
      assert k / 2 == dr && k % 2 == dc;
      assert ps[16 + k] == q;
    }
  }

  lemma DistinctCard<T>(s: seq<T>)
    requires forall a, b :: 0 <= a < b < |s| ==> s[a] != s[b]
    ensures |set x | x in s| == |s|
  {
    if s != [] {
      DistinctCard(s[1..]);
      assert (set x | x in s) == (set x | x in s[1..]) + {s[0]};
    }
  }

  /** Every cell has exactly 20 peers. */
  lemma PeerCount(r: int, c: int)
    requires 0 <= r < 9 && 0 <= c < 9
    ensures |PeerPositions(r, c)| == 20
  {
    PeerListDistinct(r, c);
    DistinctCard(PeerList(r, c));
    forall q ensures q in PeerList(r, c) <==> q in PeerPositions(r, c) {
      PeerPositionsMeaning(r, c, q);
      if IsPeer((r, c), q) { PeerListComplete(r, c, q); }
    }
    assert (set x | x in PeerList(r, c)) == PeerPositions(r, c);
  }

  // ---------------------------------------------------------------------
  // Solved values around a cell

  /** The values of the solved cells among the given ones. */
  function SolvedValues(cells: seq<CellState>): set<int> {
    set c | c in cells && Solved(c) :: c.value
  }

  /** The used values of update_candidates_for_cells: solved values of the row, the column and the box. */
  function UsedValues(g: Grid, p: Pos): set<int>
    requires |g| == 81 && ValidPos(p)
  {
    SolvedValues(Row(g, p.0)) + SolvedValues(Col(g, p.1)) + SolvedValues(Box(g, p.0, p.1))
  }

  /** The solved cell of unit k at offset a, as row-major index. */
  lemma SolvedValuesMember(cells: seq<CellState>, v: int)
    ensures v in SolvedValues(cells) <==> exists k :: 0 <= k < |cells| && Solved(cells[k]) && cells[k].value == v
  {
    if v in SolvedValues(cells) {
      var c :| c in cells && Solved(c) && c.value == v;
      var k :| 0 <= k < |cells| && cells[k] == c;
    }
  }

  /** A value is used at p exactly when a solved cell sharing a unit with p holds it. */
  lemma UsedValuesMeaning(g: Grid, p: Pos, v: int)
    requires |g| == 81 && ValidPos(p)
    ensures v in UsedValues(g, p) <==>
      exists j :: 0 <= j < 81 && SharesUnit(PosOf(j), p) && Solved(g[j]) && g[j].value == v
  {
    if v in UsedValues(g, p) {
      UsedValuesWitness(g, p, v);
    }
    if exists j :: 0 <= j < 81 && SharesUnit(PosOf(j), p) && Solved(g[j]) && g[j].value == v {
      var j :| 0 <= j < 81 && SharesUnit(PosOf(j), p) && Solved(g[j]) && g[j].value == v;
      UsedValuesFromCell(g, p, j);
    }
  }

  lemma UsedValuesWitness(g: Grid, p: Pos, v: int)
    requires |g| == 81 && ValidPos(p) && v in UsedValues(g, p)
    ensures exists j :: 0 <= j < 81 && SharesUnit(PosOf(j), p) && Solved(g[j]) && g[j].value == v
  {
    if v in SolvedValues(Row(g, p.0)) {
      SolvedValuesMember(Row(g, p.0), v);
      var k :| 0 <= k < 9 && Solved(Row(g, p.0)[k]) && Row(g, p.0)[k].value == v;
      var j := 9 * p.0 + k;
      assert j == Idx((p.0, k));
      PosOfIdx((p.0, k));
      assert g[j] == Row(g, p.0)[k];
    } else if v in SolvedValues(Col(g, p.1)) {
      SolvedValuesMember(Col(g, p.1), v);
      var k :| 0 <= k < 9 && Solved(Col(g, p.1)[k]) && Col(g, p.1)[k].value == v;
      var j := 9 * k + p.1;
      assert j == Idx((k, p.1));
      PosOfIdx((k, p.1));
      assert g[j] == Col(g, p.1)[k];
    } else {
      BoxWitness(g, p, v);
    }
  }

  lemma BoxWitness(g: Grid, p: Pos, v: int)
    requires |g| == 81 && ValidPos(p) && v in SolvedValues(Box(g, p.0, p.1))
    ensures exists j :: 0 <= j < 81 && SharesUnit(PosOf(j), p) && Solved(g[j]) && g[j].value == v
  {
    SolvedValuesMember(Box(g, p.0, p.1), v);
    var k :| 0 <= k < 9 && Solved(Box(g, p.0, p.1)[k]) && Box(g, p.0, p.1)[k].value == v;
    BoxMembers(p.0, p.1);
    var q := BoxUnit(p.0 / 3, p.1 / 3)[k];
    PosOfIdx(q);
    var j := Idx(q);
    assert g[j] == Box(g, p.0, p.1)[k];
    assert SharesUnit(PosOf(j), p);
  }

  lemma UsedValuesFromCell(g: Grid, p: Pos, j: int)
    requires |g| == 81 && ValidPos(p) && 0 <= j < 81 && SharesUnit(PosOf(j), p) && Solved(g[j])
    ensures g[j].value in UsedValues(g, p)
  {
    var q := PosOf(j);
    var v := g[j].value;
    SolvedValuesMember(Row(g, p.0), v);
    SolvedValuesMember(Col(g, p.1), v);
    SolvedValuesMember(Box(g, p.0, p.1), v);
    if q.0 == p.0 {
      assert Row(g, p.0)[q.1] == g[j];
    } else if q.1 == p.1 {
      assert Col(g, p.1)[q.0] == g[j];
    } else {
      BoxMembership(q, p.0 / 3, p.1 / 3);
      var k :| 0 <= k < 9 && BoxUnit(p.0 / 3, p.1 / 3)[k] == q;
      assert Box(g, p.0, p.1)[k] == g[j];
    }
  }

  /** Both grids hold the same value, and initial flag, in every cell. */
  predicate SameValues(g: Grid, h: Grid) {
    |g| == |h| && forall i :: 0 <= i < |g| ==> g[i].value == h[i].value && g[i].isInitial == h[i].isInitial
  }

  lemma UsedValuesFrame(g: Grid, h: Grid, p: Pos)
    requires |g| == 81 && SameValues(g, h) && ValidPos(p)
    ensures UsedValues(g, p) == UsedValues(h, p)
  {
    forall v ensures v in UsedValues(g, p) <==> v in UsedValues(h, p) {
      UsedValuesMeaning(g, p, v);
      UsedValuesMeaning(h, p, v);
      if v in UsedValues(g, p) {
        var j :| 0 <= j < 81 && SharesUnit(PosOf(j), p) && Solved(g[j]) && g[j].value == v;
        assert Solved(h[j]) && h[j].value == v;
      }
      if v in UsedValues(h, p) {
        var j :| 0 <= j < 81 && SharesUnit(PosOf(j), p) && Solved(h[j]) && h[j].value == v;
        assert Solved(g[j]) && g[j].value == v;
      }
    }
  }

  /**
   * The state change every candidate technique is allowed: values and
   * initial flags stay, candidates only shrink, and solved cells are left
   * exactly as they were.
   */
  predicate Narrows(g: Grid, h: Grid) {
    SameValues(g, h)
    && (forall i :: 0 <= i < |g| ==> h[i].candidates <= g[i].candidates)
    && (forall i :: 0 <= i < |g| && Solved(g[i]) ==> h[i] == g[i])
  }

  lemma NarrowsTrans(g: Grid, h: Grid, k: Grid)
    requires Narrows(g, h) && Narrows(h, k)
    ensures Narrows(g, k)
  {
  }

  lemma NarrowsValid(g: Grid, h: Grid)
    requires ValidGrid(g) && Narrows(g, h)
    ensures ValidGrid(h)
  {
  }

  // ---------------------------------------------------------------------
  // Candidate propagation

  /** One candidate-change record: position, label, old and new candidates and what was eliminated. */
  datatype Change = Change(position: Pos, location: string, oldCandidates: set<int>,
                           newCandidates: set<int>, eliminated: set<int>)

  /** The label of a board position. */
  function Label(p: Pos): (s: string)
    requires ValidPos(p)
    ensures Location.CellLocation(p.0, p.1) == Ok(s)
  {
    Location.CellLocation(p.0, p.1).value
  }

  /** The record for a cell whose candidates go from before to after. */
  function ChangeRecord(p: Pos, before: set<int>, after: set<int>): Change
    requires ValidPos(p)
  {
    Change(p, Label(p), before, after, before - after)
  }

  /**
   * One iteration of update_candidates_for_cells, at position p: an empty
   * cell loses the values its row, column and box already hold, every other
   * cell stays as it was, and a change is recorded exactly when p lost
   * something.
   */
  function PropagateAt(g: Grid, p: Pos): (r: (Grid, seq<Change>))
    requires |g| == 81 && ValidPos(p)
    ensures |r.0| == 81
    ensures forall i :: 0 <= i < 81 && i != Idx(p) ==> r.0[i] == g[i]
    ensures r.0[Idx(p)].value == g[Idx(p)].value && r.0[Idx(p)].isInitial == g[Idx(p)].isInitial
    ensures r.0[Idx(p)].candidates ==
      if Solved(g[Idx(p)]) then g[Idx(p)].candidates else g[Idx(p)].candidates - UsedValues(g, p)
    ensures (r.1 == []) == (r.0 == g)
    ensures r.1 != [] ==> r.1 == [ChangeRecord(p, g[Idx(p)].candidates, r.0[Idx(p)].candidates)]
  {
    var cell := g[Idx(p)];
    if Solved(cell) then (g, [])
    else
      var before := cell.candidates;
      var after := before - UsedValues(g, p);
      if after != before then (g[Idx(p) := AssignCandidates(cell, after)], [ChangeRecord(p, before, after)])
      else (g, [])
  }

  /** update_candidates_for_cells: the positions in order, threading the board. */
  function Propagate(g: Grid, ps: seq<Pos>): (r: (Grid, seq<Change>))
    requires |g| == 81 && AllValid(ps)
    ensures |r.0| == 81
    decreases |ps|
  {
    if ps == [] then (g, [])
    else
      var (g1, ch1) := Propagate(g, ps[..|ps| - 1]);
      var (g2, ch2) := PropagateAt(g1, ps[|ps| - 1]);
      (g2, ch1 + ch2)
  }

  /** What propagation makes of cell i: its candidates minus the used values, if it was visited and is unsolved. */
  function PropagatedCell(g: Grid, i: int, visited: bool): CellState
    requires |g| == 81 && 0 <= i < 81
  {
    if visited && !Solved(g[i]) then AssignCandidates(g[i], g[i].candidates - UsedValues(g, PosOf(i)))
    else g[i]
  }

  lemma IndexSetSnoc(ps: seq<Pos>)
    requires AllValid(ps) && ps != []
    ensures IndexSet(ps) == IndexSet(ps[..|ps| - 1]) + {Idx(ps[|ps| - 1])}
  {
    var pre := ps[..|ps| - 1];
    forall i | i in IndexSet(ps) ensures i in IndexSet(pre) + {Idx(ps[|ps| - 1])} {
      var k :| 0 <= k < |ps| && Idx(ps[k]) == i;
      if k < |ps| - 1 { assert pre[k] == ps[k]; }
    }
    forall i | i in IndexSet(pre) ensures i in IndexSet(ps) {
      var k :| 0 <= k < |pre| && Idx(pre[k]) == i;
      assert ps[k] == pre[k];
    }
  }

  /**
   * update_candidates_for_cells, in closed form: every visited unsolved cell
   * loses exactly the values used around it (visiting a cell twice changes
   * nothing more), and every other cell is unchanged.
   */
  lemma {:induction false} PropagateClosedForm(g: Grid, ps: seq<Pos>)
    requires |g| == 81 && AllValid(ps)
    ensures forall i :: 0 <= i < 81 ==> Propagate(g, ps).0[i] == PropagatedCell(g, i, i in IndexSet(ps))
    decreases |ps|
  {
    if ps != [] {
      var pre, p := ps[..|ps| - 1], ps[|ps| - 1];
      PropagateClosedForm(g, pre);
      var g1 := Propagate(g, pre).0;
      var h := Propagate(g, ps).0;
      assert SameValues(g, g1);
      UsedValuesFrame(g, g1, p);
      IndexSetSnoc(ps);
      PosOfIdx(p);
      assert h == PropagateAt(g1, p).0;
      forall i | 0 <= i < 81 ensures h[i] == PropagatedCell(g, i, i in IndexSet(ps)) {
        if i != Idx(p) {
          assert h[i] == g1[i];
        }
      }
    }
  }

  /** Propagation only narrows: values stay, candidates shrink, solved cells are skipped. */
  lemma PropagateNarrows(g: Grid, ps: seq<Pos>)
    requires |g| == 81 && AllValid(ps)
    ensures Narrows(g, Propagate(g, ps).0)
  {
    PropagateClosedForm(g, ps);
  }

  predicate DistinctPositions(ps: seq<Pos>) {
    forall a, b :: 0 <= a < b < |ps| ==> ps[a] != ps[b]
  }

  /** The change update_candidates_for_cells records at p, judged against the board it started from. */
  function PlannedChange(g: Grid, p: Pos): seq<Change>
    requires |g| == 81 && ValidPos(p)
  {
    var cell := g[Idx(p)];
    var after := cell.candidates - UsedValues(g, p);
    if !Solved(cell) && after != cell.candidates then [ChangeRecord(p, cell.candidates, after)] else []
  }

  /** The changes expected for a list of distinct positions: one per shrinking unsolved cell, in list order. */
  function PlannedChanges(g: Grid, ps: seq<Pos>): seq<Change>
    requires |g| == 81 && AllValid(ps)
    decreases |ps|
  {
    if ps == [] then [] else PlannedChanges(g, ps[..|ps| - 1]) + PlannedChange(g, ps[|ps| - 1])
  }

  /**
   * The change list of update_candidates_for_cells over distinct positions:
   * a record exactly for each unsolved cell that loses a candidate, in input
   * order, each with the candidates the call started from.
   */
  lemma {:induction false} PropagateChanges(g: Grid, ps: seq<Pos>)
    requires |g| == 81 && AllValid(ps) && DistinctPositions(ps)
    ensures Propagate(g, ps).1 == PlannedChanges(g, ps)
    decreases |ps|
  {
    if ps != [] {
      var pre, p := ps[..|ps| - 1], ps[|ps| - 1];
      PropagateChanges(g, pre);
      PropagateClosedForm(g, pre);
      var g1 := Propagate(g, pre).0;
      UsedValuesFrame(g, g1, p);
      forall k | 0 <= k < |pre| ensures Idx(pre[k]) != Idx(p) {
        assert pre[k] == ps[k];
        IdxDistinct(pre[k], p);
      }
      assert Idx(p) !in IndexSet(pre);
      assert g1[Idx(p)] == g[Idx(p)];
    }
  }

  /** No unsolved cell keeps a candidate that a solved cell of its row, column or box holds. */
  predicate Consistent(g: Grid)
    requires |g| == 81
  {
    forall i :: 0 <= i < 81 && !Solved(g[i]) ==> g[i].candidates !! UsedValues(g, PosOf(i))
  }

  /** update_candidates leaves the whole board consistent. */
  lemma PropagateAllConsistent(g: Grid)
    requires |g| == 81
    ensures |Propagate(g, AllPositions()).0| == 81
    ensures Consistent(Propagate(g, AllPositions()).0)
  {
    var ps := AllPositions();
    PropagateClosedForm(g, ps);
    var h := Propagate(g, ps).0;
    forall i | 0 <= i < 81 && !Solved(h[i])
      ensures h[i].candidates !! UsedValues(h, PosOf(i))
    {
      assert Idx(ps[i]) == i;
      UsedValuesFrame(g, h, PosOf(i));
    }
  }

  /** On a consistent board propagation is a no-op that records nothing. */
  lemma {:induction false} ConsistentIsFixpoint(g: Grid, ps: seq<Pos>)
    requires |g| == 81 && Consistent(g) && AllValid(ps)
    ensures Propagate(g, ps) == (g, [])
    decreases |ps|
  {
    if ps != [] {
      ConsistentIsFixpoint(g, ps[..|ps| - 1]);
      var p := ps[|ps| - 1];
      PosOfIdx(p);
      var cell := g[Idx(p)];
      if !Solved(cell) {
        assert cell.candidates !! UsedValues(g, PosOf(Idx(p)));
        assert cell.candidates - UsedValues(g, p) == cell.candidates;
      }
      var none: seq<Change> := [];
      assert PropagateAt(g, p) == (g, none);
      assert Propagate(g, ps[..|ps| - 1]) == (g, none);
      assert Propagate(g, ps).1 == none + none;
    }
  }

  /** A second update_candidates finds nothing left to eliminate. */
  lemma PropagateIdempotent(g: Grid)
    requires |g| == 81
    ensures |Propagate(g, AllPositions()).0| == 81
    ensures Propagate(Propagate(g, AllPositions()).0, AllPositions()) == (Propagate(g, AllPositions()).0, [])
  {
    PropagateAllConsistent(g);
    ConsistentIsFixpoint(Propagate(g, AllPositions()).0, AllPositions());
  }

  // ---------------------------------------------------------------------
  // Removing one value from a set of cells

  /** Each unsolved cell at one of the positions loses the value; nothing else changes. */
  function RemoveFrom(g: Grid, qs: set<Pos>, v: int): (h: Grid)
    requires |g| == 81
    ensures |h| == 81
  {
    seq(81, j requires 0 <= j < 81 =>
      if PosOf(j) in qs && !Solved(g[j]) then AssignCandidates(g[j], g[j].candidates - {v}) else g[j])
  }

  /** The board after update_peers_candidates(r, c, v). */
  function RemoveFromPeers(g: Grid, p: Pos, v: int): (h: Grid)
    requires |g| == 81 && ValidPos(p)
    ensures |h| == 81
  {
    RemoveFrom(g, PeerPositions(p.0, p.1), v)
  }

  /** update_peers_candidates removes v from exactly the unsolved peers and touches nothing else. */
  lemma RemoveFromPeersEffect(g: Grid, p: Pos, v: int)
    requires |g| == 81 && ValidPos(p)
    ensures Narrows(g, RemoveFromPeers(g, p, v))
    ensures forall j :: 0 <= j < 81 ==>
      RemoveFromPeers(g, p, v)[j].candidates ==
        if IsPeer(p, PosOf(j)) && !Solved(g[j]) then g[j].candidates - {v} else g[j].candidates
  {
    forall j | 0 <= j < 81 ensures PosOf(j) in PeerPositions(p.0, p.1) <==> IsPeer(p, PosOf(j)) {
      PeerPositionsMeaning(p.0, p.1, PosOf(j));
    }
  }

  // ---------------------------------------------------------------------
  // is_solved

  /** No other cell sharing a unit with cell i holds its value. */
  predicate NoRepeatAt(g: Grid, i: int)
    requires |g| == 81 && 0 <= i < 81
  {
    forall j :: 0 <= j < 81 && j != i && SharesUnit(PosOf(i), PosOf(j)) ==> g[j].value != g[i].value
  }

  /** is_solved: every cell holds a value that no other cell of its row, column or box repeats. */
  predicate BoardSolved(g: Grid)
    requires |g| == 81
  {
    forall i :: 0 <= i < 81 ==> Solved(g[i]) && NoRepeatAt(g, i)
  }

  /** is_solved reads only the values. */
  lemma BoardSolvedValues(g: Grid, h: Grid)
    requires |g| == 81 && SameValues(g, h)
    ensures BoardSolved(g) <==> BoardSolved(h)
  {
  }

  /** The value at offset a of unit k. */
  function UnitValue(g: Grid, k: int, a: int): int
    requires |g| == 81 && 0 <= k < UnitCount && 0 <= a < 9
  {
    UnitAtValid(k);
    g[Idx(UnitAt(k)[a])].value
  }

  /** is_solved holds exactly when every cell is filled and each of the 27 units holds nine different values. */
  lemma BoardSolvedByUnits(g: Grid)
    requires |g| == 81
    ensures BoardSolved(g) <==>
      (forall i :: 0 <= i < 81 ==> Solved(g[i]))
      && (forall k, a, b :: 0 <= k < UnitCount && 0 <= a < 9 && 0 <= b < 9 && a != b ==>
            UnitValue(g, k, a) != UnitValue(g, k, b))
  {
    if BoardSolved(g) {
      forall k, a, b | 0 <= k < UnitCount && 0 <= a < 9 && 0 <= b < 9 && a != b
        ensures UnitValue(g, k, a) != UnitValue(g, k, b)
      {
        UnitAtValid(k);
        var p, q := UnitAt(k)[a], UnitAt(k)[b];
        PosOfIdx(p);
        PosOfIdx(q);
        if Idx(p) == Idx(q) { IdxInjective(p, q); }
        assert SharesUnit(PosOf(Idx(p)), PosOf(Idx(q)));
      }
    }
    if (forall k, a, b :: 0 <= k < UnitCount && 0 <= a < 9 && 0 <= b < 9 && a != b ==>
          UnitValue(g, k, a) != UnitValue(g, k, b)) {
      forall i, j | 0 <= i < 81 && 0 <= j < 81 && j != i && SharesUnit(PosOf(i), PosOf(j))
        ensures g[j].value != g[i].value
      {
        var p, q := PosOf(i), PosOf(j);
        SharesUnitIffCommonUnit(p, q);
        var k :| 0 <= k < UnitCount && p in UnitAt(k) && q in UnitAt(k);
        var a :| 0 <= a < 9 && UnitAt(k)[a] == p;
        var b :| 0 <= b < 9 && UnitAt(k)[b] == q;
        assert UnitValue(g, k, a) == g[i].value && UnitValue(g, k, b) == g[j].value;
      }
    }
  }

  // ---------------------------------------------------------------------
  // How the board may move

  /** update_candidates on the whole board, row by row. */
  function PropagateAll(g: Grid): (h: Grid)
    requires |g| == 81
    ensures |h| == 81 && Narrows(g, h)
    ensures ValidGrid(g) ==> ValidGrid(h)
  {
    PropagateNarrows(g, AllPositions());
    Propagate(g, AllPositions()).0
  }

  /** update_candidates keeps the board valid, only narrows it, and leaves it consistent. */
  lemma PropagateAllEffect(g: Grid)
    requires ValidGrid(g)
    ensures Narrows(g, PropagateAll(g)) && ValidGrid(PropagateAll(g)) && Consistent(PropagateAll(g))
  {
    PropagateNarrows(g, AllPositions());
    PropagateAllConsistent(g);
  }

  /**
   * What every technique does to the board: initial flags stay, solved
   * cells stay exactly as they were, cells still unsolved only lose
   * candidates, and a newly solved cell receives one of its former
   * candidates.
   */
  predicate Advances(g: Grid, h: Grid) {
    |g| == |h|
    && (forall i :: 0 <= i < |g| ==> h[i].isInitial == g[i].isInitial)
    && (forall i :: 0 <= i < |g| && Solved(g[i]) ==> h[i] == g[i])
    && (forall i :: 0 <= i < |g| && !Solved(h[i]) ==> h[i].candidates <= g[i].candidates)
    && (forall i :: 0 <= i < |g| && !Solved(g[i]) && Solved(h[i]) ==> h[i].value in g[i].candidates)
  }

  lemma AdvancesTrans(g: Grid, h: Grid, k: Grid)
    requires Advances(g, h) && Advances(h, k)
    ensures Advances(g, k)
  {
  }

  lemma NarrowsAdvances(g: Grid, h: Grid)
    requires Narrows(g, h)
    ensures Advances(g, h)
  {
  }

  /** The number of empty cells. */
  function UnsolvedCount(g: Grid): (n: nat)
    ensures n <= |g|
    decreases |g|
  {
    if g == [] then 0 else UnsolvedCount(g[..|g| - 1]) + (if Solved(g[|g| - 1]) then 0 else 1)
  }

  /** Grids with the same values have the same number of empty cells. */
  lemma {:induction false} UnsolvedCountValues(g: Grid, h: Grid)
    requires SameValues(g, h)
    ensures UnsolvedCount(g) == UnsolvedCount(h)
    decreases |g|
  {
    if g != [] {
      UnsolvedCountValues(g[..|g| - 1], h[..|h| - 1]);
    }
  }

  /** Filling one empty cell removes exactly one empty cell. */
  lemma {:induction false} UnsolvedCountFill(g: Grid, i: int, x: CellState)
    requires 0 <= i < |g| && !Solved(g[i]) && Solved(x)
    ensures UnsolvedCount(g[i := x]) == UnsolvedCount(g) - 1
    decreases |g|
  {
    var n := |g|;
    if i < n - 1 {
      assert g[i := x][..n - 1] == g[..n - 1][i := x];
      UnsolvedCountFill(g[..n - 1], i, x);
    } else {
      assert g[i := x][..n - 1] == g[..n - 1];
    }
  }

  /** The total number of candidates on the board. */
  function TotalCandidates(g: Grid): (n: nat)
    decreases |g|
  {
    if g == [] then 0 else TotalCandidates(g[..|g| - 1]) + |g[|g| - 1].candidates|
  }

  /** A proper subset is smaller. */
  lemma SubsetSmaller(a: set<int>, b: set<int>)
    requires a <= b && a != b
    ensures |a| < |b|
  {
    var d := b - a;
    assert b == a + d;
    assert d != {} by {
      assert a + {} == a;
    }
    assert |b| == |a| + |d|;
  }

  /** Narrowing never adds candidates, and any change removes at least one. */
  lemma {:induction false} NarrowsTotal(g: Grid, h: Grid)
    requires Narrows(g, h)
    ensures TotalCandidates(h) <= TotalCandidates(g)
    ensures h != g ==> TotalCandidates(h) < TotalCandidates(g)
    decreases |g|
  {
    var n := |g|;
    if n > 0 {
      NarrowsTotal(g[..n - 1], h[..n - 1]);
      assert |h[n - 1].candidates| <= |g[n - 1].candidates| by {
        if h[n - 1].candidates != g[n - 1].candidates { SubsetSmaller(h[n - 1].candidates, g[n - 1].candidates); }
      }
      if h != g {
        if h[n - 1] == g[n - 1] {
          assert h == h[..n - 1] + [h[n - 1]] && g == g[..n - 1] + [g[n - 1]];
          assert h[..n - 1] != g[..n - 1];
        } else {
          assert h[n - 1].candidates != g[n - 1].candidates;
          SubsetSmaller(h[n - 1].candidates, g[n - 1].candidates);
        }
      }
    }
  }

  // ---------------------------------------------------------------------
  // The board object

  class SudokuBoard {
    /** The 81 cells, row-major: cell (r, c) is grid[9 * r + c]. */
    const grid: array<CellState>

    ghost predicate Valid()
      reads grid
    {
      grid.Length == 81 && ValidGrid(grid[..])
    }

    constructor (puzzle: seq<seq<int>>)
      requires NineByNine(puzzle)
      ensures Valid() && fresh(grid)
      ensures grid[..] == NewGrid(puzzle)
    {
      grid := new CellState[81](i requires 0 <= i < 81 =>
        NewCell(puzzle[i / 9][i % 9], puzzle[i / 9][i % 9] != 0));
      new;
      assert grid[..] == NewGrid(puzzle);
    }

    /** update_candidates_for_cells(positions), returning the change records. */
    method UpdateCandidatesForCells(positions: seq<Pos>) returns (changes: seq<Change>)
      requires Valid() && AllValid(positions)
      modifies grid
      ensures Valid()
      ensures (grid[..], changes) == Propagate(old(grid[..]), positions)
    {
      changes := [];
      ghost var g0 := grid[..];
      for k := 0 to |positions|
        invariant (grid[..], changes) == Propagate(g0, positions[..k])
        invariant ValidGrid(grid[..])
      {
        assert positions[..k + 1][..k] == positions[..k];
        var p := positions[k];
        ghost var pre := grid[..];
        ghost var pch := changes;
        ghost var step := PropagateAt(pre, p);
        var cell := grid[Idx(p)];
        if !Solved(cell) {
          var used := UsedValues(grid[..], p);
          var before := cell.candidates;
          var after := before - used;
          if after != before {
            grid[Idx(p)] := AssignCandidates(cell, after);
            changes := changes + [ChangeRecord(p, before, after)];
          }
        }
        assert grid[..] == step.0;
        assert changes == pch + step.1;
      }
      assert positions[..|positions|] == positions;
    }

    /** update_candidates: every position, row by row. */
    method UpdateCandidates() returns (changes: seq<Change>)
      requires Valid()
      modifies grid
      ensures Valid()
      ensures (grid[..], changes) == Propagate(old(grid[..]), AllPositions())
      ensures Consistent(grid[..]) && Narrows(old(grid[..]), grid[..])
    {
      changes := UpdateCandidatesForCells(AllPositions());
      PropagateAllConsistent(old(grid[..]));
      PropagateNarrows(old(grid[..]), AllPositions());
    }

    /**
     * update_peers_candidates(r, c, v): the peers are visited in the
     * (unspecified) iteration order of a set; the resulting board does not
     * depend on it, and each unsolved peer that held v gets one record.
     */
    method UpdatePeersCandidates(r: int, c: int, v: int) returns (changes: seq<Change>)
      requires Valid() && 0 <= r < 9 && 0 <= c < 9
      modifies grid
      ensures Valid()
      ensures grid[..] == RemoveFromPeers(old(grid[..]), (r, c), v)
      ensures exists order :: Enumerates(order, PeerPositions(r, c)) && changes == PeerChanges(old(grid[..]), order, v)
    {
      ghost var g0 := grid[..];
      var peers := PeerPositions(r, c);
      var todo := peers;
      ghost var visited: seq<Pos> := [];
      changes := [];
      while todo != {}
        invariant todo <= peers
        invariant grid[..] == RemoveFrom(g0, peers - todo, v)
        invariant Enumerates(visited, peers - todo)
        invariant changes == PeerChanges(g0, visited, v)
        decreases |todo|
      {
        var q :| q in todo;
        PeerPositionsMeaning(r, c, q);
        ghost var done := peers - todo;
        changes := VisitPeer(q, v, g0, done, visited, changes);
        todo := todo - {q};
        assert peers - todo == done + {q};
        EnumeratesStep(visited, done, q);
        visited := visited + [q];
      }
      forall q | q in peers ensures ValidPos(q) {
        PeerPositionsMeaning(r, c, q);
      }
    }

    /** One pass of the loop: peer q loses v when it is unsolved and holds it, and gets a record then. */
    method VisitPeer(q: Pos, v: int, ghost g0: Grid, ghost done: set<Pos>, ghost visited: seq<Pos>, changes: seq<Change>)
      returns (changes': seq<Change>)
      requires Valid() && ValidPos(q) && q !in done && |g0| == 81
      requires grid[..] == RemoveFrom(g0, done, v) && changes == PeerChanges(g0, visited, v)
      modifies grid
      ensures Valid() && grid[..] == RemoveFrom(g0, done + {q}, v)
      ensures changes' == PeerChanges(g0, visited + [q], v)
    {
      PosOfIdx(q);
      var cell := grid[Idx(q)];
      assert cell == g0[Idx(q)];
      changes' := changes;
      if !Solved(cell) {
        var before := cell.candidates;
        var after := before - {v};
        if after != before {
          grid[Idx(q)] := AssignCandidates(cell, after);
          changes' := changes + [ChangeRecord(q, before, after)];
        }
      }
      PeerChangesStep(g0, visited, q, v);
      RemoveFromStep(g0, done, q, v);
    }
  }

  /** The positions are listed once each, and they are exactly the set's members. */
  predicate Enumerates(order: seq<Pos>, s: set<Pos>) {
    (forall a, b :: 0 <= a < b < |order| ==> order[a] != order[b])
    && (forall k :: 0 <= k < |order| ==> order[k] in s)
    && (forall q :: q in s ==> q in order)
  }

  lemma EnumeratesStep(order: seq<Pos>, s: set<Pos>, q: Pos)
    requires Enumerates(order, s) && q !in s
    ensures Enumerates(order + [q], s + {q})
  {
  }

  /** The cell at q is unsolved and still has v as a candidate. */
  predicate HoldsOpen(g: Grid, q: Pos, v: int) {
    |g| == 81 && ValidPos(q) && !Solved(g[Idx(q)]) && v in g[Idx(q)].candidates
  }

  /** The records of update_peers_candidates when the peers are visited in the given order. */
  function PeerChanges(g: Grid, order: seq<Pos>, v: int): seq<Change>
    requires |g| == 81
    decreases |order|
  {
    if order == [] then []
    else
      var q := order[|order| - 1];
      PeerChanges(g, order[..|order| - 1], v)
      + if HoldsOpen(g, q, v) then [ChangeRecord(q, g[Idx(q)].candidates, g[Idx(q)].candidates - {v})] else []
  }

  lemma PeerChangesStep(g: Grid, order: seq<Pos>, q: Pos, v: int)
    requires |g| == 81
    ensures PeerChanges(g, order + [q], v) == PeerChanges(g, order, v)
      + if HoldsOpen(g, q, v) then [ChangeRecord(q, g[Idx(q)].candidates, g[Idx(q)].candidates - {v})] else []
  {
    assert (order + [q])[..|order|] == order;
  }

  /**
   * Whatever order the peers are visited in, update_peers_candidates records
   * each unsolved peer that held v exactly once, with v as its only
   * elimination, and records nothing else.
   */
  lemma {:induction false} PeerChangesMeaning(g: Grid, p: Pos, order: seq<Pos>, v: int)
    requires |g| == 81 && ValidPos(p)
    requires Enumerates(order, PeerPositions(p.0, p.1))
    ensures forall k :: 0 <= k < |PeerChanges(g, order, v)| ==> PeerChange(g, p, v, PeerChanges(g, order, v)[k])
    ensures forall a, b :: 0 <= a < b < |PeerChanges(g, order, v)| ==>
      PeerChanges(g, order, v)[a].position != PeerChanges(g, order, v)[b].position
    ensures forall q :: q in ChangedPositions(PeerChanges(g, order, v)) <==> IsPeer(p, q) && HoldsOpen(g, q, v)
  {
    forall k | 0 <= k < |order| ensures IsPeer(p, order[k]) {
      PeerPositionsMeaning(p.0, p.1, order[k]);
    }
    PeerChangesPrefix(g, p, order, v);
    forall q | IsPeer(p, q) ensures q in order {
      PeerPositionsMeaning(p.0, p.1, q);
    }
  }

  lemma {:induction false} PeerChangesPrefix(g: Grid, p: Pos, order: seq<Pos>, v: int)
    requires |g| == 81
    requires forall k :: 0 <= k < |order| ==> IsPeer(p, order[k])
    requires forall a, b :: 0 <= a < b < |order| ==> order[a] != order[b]
    ensures forall k :: 0 <= k < |PeerChanges(g, order, v)| ==> PeerChange(g, p, v, PeerChanges(g, order, v)[k])
    ensures forall a, b :: 0 <= a < b < |PeerChanges(g, order, v)| ==>
      PeerChanges(g, order, v)[a].position != PeerChanges(g, order, v)[b].position
    ensures ChangedPositions(PeerChanges(g, order, v)) == set q | q in order && HoldsOpen(g, q, v)
    decreases |order|
  {
    if order != [] {
      var pre, q := order[..|order| - 1], order[|order| - 1];
      PeerChangesPrefix(g, p, pre, v);
      var ch0 := PeerChanges(g, pre, v);
      var ch := PeerChanges(g, order, v);
      assert q !in pre;
      assert (set x | x in order && HoldsOpen(g, x, v)) ==
        (set x | x in pre && HoldsOpen(g, x, v)) + (if HoldsOpen(g, q, v) then {q} else {});
      var extra := if HoldsOpen(g, q, v) then [ChangeRecord(q, g[Idx(q)].candidates, g[Idx(q)].candidates - {v})] else [];
      assert ch == ch0 + extra;
      ChangedPositionsAppend(ch0, extra);
      if HoldsOpen(g, q, v) {
        assert extra[0].position == q;
        assert ChangedPositions(extra) == {q};
      } else {
        assert ChangedPositions(extra) == {};
      }
    }
  }

  /** The positions the records name. */
  function ChangedPositions(changes: seq<Change>): set<Pos> {
    set k | 0 <= k < |changes| :: changes[k].position
  }

  lemma ChangedPositionsAppend(a: seq<Change>, b: seq<Change>)
    ensures ChangedPositions(a + b) == ChangedPositions(a) + ChangedPositions(b)
  {
    forall x | x in ChangedPositions(a + b) ensures x in ChangedPositions(a) + ChangedPositions(b) {
      var k :| 0 <= k < |a + b| && (a + b)[k].position == x;
      if k >= |a| { assert b[k - |a|].position == x; }
    }
    forall x | x in ChangedPositions(b) ensures x in ChangedPositions(a + b) {
      var k :| 0 <= k < |b| && b[k].position == x;
      assert (a + b)[|a| + k] == b[k];
    }
    forall x | x in ChangedPositions(a) ensures x in ChangedPositions(a + b) {
      var k :| 0 <= k < |a| && a[k].position == x;
      assert (a + b)[k] == a[k];
    }
  }

  /** A record update_peers_candidates may produce: an unsolved peer of p that held v, losing just v. */
  predicate PeerChange(g: Grid, p: Pos, v: int, ch: Change)
    requires |g| == 81
  {
    IsPeer(p, ch.position)
    && ch == ChangeRecord(ch.position, g[Idx(ch.position)].candidates, g[Idx(ch.position)].candidates - {v})
    && HoldsOpen(g, ch.position, v)
  }

  /** Adding one more position to the set only affects that position's cell. */
  lemma RemoveFromStep(g: Grid, done: set<Pos>, q: Pos, v: int)
    requires |g| == 81 && ValidPos(q) && q !in done
    ensures RemoveFrom(g, done + {q}, v) ==
      RemoveFrom(g, done, v)[Idx(q) := if Solved(g[Idx(q)]) then g[Idx(q)]
                                      else AssignCandidates(g[Idx(q)], g[Idx(q)].candidates - {v})]
  {
    PosOfIdx(q);
    forall j | 0 <= j < 81 && j != Idx(q) ensures PosOf(j) != q {
      PosOfIdx(PosOf(j));
    }
  }
}
