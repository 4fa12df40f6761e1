/**
 * Hidden single (logic/hidden_single.py of the backend): after a full
 * candidate update the units are searched, rows first, then columns, then
 * boxes; in the first unit where some value is a candidate of exactly one
 * empty cell, the smallest such value is placed in that cell. The peers of
 * the cell are not updated, and the call reports the position, not a step
 * record.
 */
module HiddenSingles {
  import opened Wrappers
  import opened Cells
  import opened Geometry
  import opened Board
  import opened Units

  /**
   * candidate_counts[n] after the first k cells of a unit: the indices,
   * in increasing order, of the empty cells among them holding n.
   */
  function Holders(cells: seq<CellState>, n: int, k: nat): (h: seq<int>)
    requires k <= |cells|
    ensures forall x :: x in h <==> 0 <= x < k && !Solved(cells[x]) && n in cells[x].candidates
    ensures forall a, b :: 0 <= a < b < |h| ==> h[a] < h[b]
    ensures forall a :: 0 <= a < |h| ==> 0 <= h[a] < k
  {
    if k == 0 then []
    else
      var h := Holders(cells, n, k - 1);
      if !Solved(cells[k - 1]) && n in cells[k - 1].candidates then h + [k - 1] else h
  }

  /**
   * The smallest value from n to 9 held by exactly one empty cell of the
   * unit, with that cell's index: (index, value).
   */
  function FirstUnique(cells: seq<CellState>, n: int): (r: Option<(int, int)>)
    requires |cells| == 9 && 1 <= n <= 10
    ensures r.Some? ==> 0 <= r.value.0 < 9 && n <= r.value.1 <= 9 && Holders(cells, r.value.1, 9) == [r.value.0]
    ensures r.Some? ==> forall m :: n <= m < r.value.1 ==> |Holders(cells, m, 9)| != 1
    ensures r.None? ==> forall m :: n <= m <= 9 ==> |Holders(cells, m, 9)| != 1
    decreases 10 - n
  {
    if n == 10 then None
    else if |Holders(cells, n, 9)| == 1 then Some((Holders(cells, n, 9)[0], n))
    else FirstUnique(cells, n + 1)
  }

  /** find_hidden_single_in_unit(cells), None standing for (None, None). */
  function HiddenSingleIn(cells: seq<CellState>): (r: Option<(int, int)>)
    requires |cells| == 9
    ensures r.Some? ==> 0 <= r.value.0 < 9 && 1 <= r.value.1 <= 9
  {
    FirstUnique(cells, 1)
  }

  /** Value num is a candidate of empty cell pos of the unit and of no other empty cell. */
  predicate OnlyHolder(cells: seq<CellState>, pos: int, num: int)
    requires |cells| == 9
  {
    0 <= pos < 9 && !Solved(cells[pos]) && num in cells[pos].candidates
    && forall j :: 0 <= j < 9 && j != pos && !Solved(cells[j]) ==> num !in cells[j].candidates
  }

  /** The holders of a value with a single holder pos. */
  lemma {:induction false} HoldersOfOnly(cells: seq<CellState>, pos: int, num: int, k: nat)
    requires |cells| == 9 && k <= 9 && OnlyHolder(cells, pos, num)
    ensures Holders(cells, num, k) == if pos < k then [pos] else []
  {
    if k > 0 {
      HoldersOfOnly(cells, pos, num, k - 1);
    }
  }

  /** Exactly one holder, as a list of holders, is OnlyHolder. */
  lemma OnlyHolderIff(cells: seq<CellState>, pos: int, num: int)
    requires |cells| == 9
    ensures Holders(cells, num, 9) == [pos] <==> OnlyHolder(cells, pos, num)
  {
    var h := Holders(cells, num, 9);
    if OnlyHolder(cells, pos, num) {
      HoldersOfOnly(cells, pos, num, 9);
    }
    if h == [pos] {
      assert pos in h;
      forall j | 0 <= j < 9 && j != pos && !Solved(cells[j])
        ensures num !in cells[j].candidates
      {
        assert j !in h;
      }
    }
  }

  /**
   * A hidden single is an empty cell holding a value that no other empty
   * cell of the unit holds, and its value is the smallest such value.
   */
  lemma HiddenSingleMeaning(cells: seq<CellState>)
    requires |cells| == 9
    ensures HiddenSingleIn(cells).Some? ==>
      OnlyHolder(cells, HiddenSingleIn(cells).value.0, HiddenSingleIn(cells).value.1)
    ensures forall pos, num :: 1 <= num <= 9 && OnlyHolder(cells, pos, num) ==>
      HiddenSingleIn(cells).Some? && HiddenSingleIn(cells).value.1 <= num
  {
    if HiddenSingleIn(cells).Some? {
      OnlyHolderIff(cells, HiddenSingleIn(cells).value.0, HiddenSingleIn(cells).value.1);
    }
    forall pos, num | 1 <= num <= 9 && OnlyHolder(cells, pos, num)
      ensures HiddenSingleIn(cells).Some? && HiddenSingleIn(cells).value.1 <= num
    {
      OnlyHolderIff(cells, pos, num);
    }
  }

  /** Adding one more cell's candidates to the counts, in any order. */
  method CountCell(counts: map<int, seq<int>>, candidates: set<int>, idx: int) returns (r: map<int, seq<int>>)
    requires counts.Keys == Digits && candidates <= Digits
    ensures r.Keys == Digits
    ensures forall n :: n in Digits ==> r[n] == counts[n] + (if n in candidates then [idx] else [])
  {
    r := counts;
    var rest := candidates;
    ghost var done: set<int> := {};
    while rest != {}
      invariant rest + done == candidates && rest !! done
      invariant r.Keys == Digits
      invariant forall n :: n in Digits ==> r[n] == counts[n] + (if n in done then [idx] else [])
      decreases |rest|
    {
      var c :| c in rest;
      r := r[c := r[c] + [idx]];
      rest := rest - {c};
      done := done + {c};
    }
  }

  /**
   * find_hidden_single_in_unit: the counts dict built cell by cell, then
   * read in key order 1..9.
   */
  method FindHiddenSingleInUnit(cells: seq<CellState>) returns (r: Option<(int, int)>)
    requires |cells| == 9 && forall j :: 0 <= j < 9 ==> cells[j].candidates <= Digits
    ensures r == HiddenSingleIn(cells)
  {
    var counts: map<int, seq<int>> := map n | n in Digits :: [];
    for idx := 0 to 9
      invariant counts.Keys == Digits
      invariant forall n :: n in Digits ==> counts[n] == Holders(cells, n, idx)
    {
      var cell := cells[idx];
      if !Solved(cell) {
        counts := CountCell(counts, cell.candidates, idx);
      }
    }
    for num := 1 to 10
      invariant FirstUnique(cells, 1) == FirstUnique(cells, num)
    {
      if |counts[num]| == 1 {
        return Some((counts[num][0], num));
      }
    }
    return None;
  }

  /** What find_hidden_single_in_unit finds in unit k, with the board position of its cell. */
  function UnitHit(g: Grid, k: int): (r: Option<(Pos, int)>)
    requires |g| == 81 && 0 <= k < UnitCount
    ensures r.Some? ==> ValidPos(r.value.0) && 1 <= r.value.1 <= 9
  {
    UnitAtAllValid(k);
    match HiddenSingleIn(UnitCells(g, UnitAt(k)))
    case Some((pos, num)) => Some((UnitAt(k)[pos], num))
    case None => None
  }

  /** The hits of the 27 units in visiting order. */
  function UnitHits(g: Grid): (hs: seq<Option<(Pos, int)>>)
    requires |g| == 81
    ensures |hs| == UnitCount
  {
    seq(UnitCount, k requires 0 <= k < UnitCount => UnitHit(g, k))
  }

  /** Entry k of the hits is unit k's hit. */
  lemma UnitHitsAt(g: Grid, k: int)
    requires |g| == 81 && 0 <= k < UnitCount
    ensures UnitHits(g)[k] == UnitHit(g, k)
  {
  }

  /** The first hit from unit k on: the search stops at the first unit with a hidden single. */
  function FirstHit(hs: seq<Option<(Pos, int)>>, k: nat): Option<(Pos, int)>
    requires k <= |hs|
    decreases |hs| - k
  {
    if k == |hs| then None
    else if hs[k].Some? then hs[k]
    else FirstHit(hs, k + 1)
  }

  /** The first hit is the hit of some unit u, no unit from k up to u having one; no hit means none has. */
  lemma {:induction false} FirstHitMeaning(hs: seq<Option<(Pos, int)>>, k: nat)
    requires k <= |hs|
    ensures FirstHit(hs, k).Some? ==>
      exists u :: k <= u < |hs| && hs[u] == FirstHit(hs, k) && forall u' :: k <= u' < u ==> hs[u'].None?
    ensures FirstHit(hs, k).None? ==> forall u :: k <= u < |hs| ==> hs[u].None?
    decreases |hs| - k
  {
    if k < |hs| && hs[k].None? {
      FirstHitMeaning(hs, k + 1);
      if FirstHit(hs, k + 1).Some? {
        var u :| k + 1 <= u < |hs| && hs[u] == FirstHit(hs, k + 1) && forall u' :: k + 1 <= u' < u ==> hs[u'].None?;
        assert forall u' :: k <= u' < u ==> hs[u'].None?;
      }
    }
  }

  /** apply_one_hidden_single's search result on a board: (position, value) of the first hidden single. */
  function HiddenHit(g: Grid): (r: Option<(Pos, int)>)
    requires |g| == 81
    ensures r.Some? ==> ValidPos(r.value.0) && 1 <= r.value.1 <= 9
  {
    FirstHitMeaning(UnitHits(g), 0);
    FirstHit(UnitHits(g), 0)
  }

  /** Unit u has no hidden single. */
  predicate NoHiddenIn(g: Grid, u: int)
    requires |g| == 81 && 0 <= u < UnitCount
  {
    UnitAtAllValid(u);
    HiddenSingleIn(UnitCells(g, UnitAt(u))).None?
  }

  /** p is a cell of unit u, and its empty cell is the only one of the unit holding num. */
  predicate OnlyHolderAt(g: Grid, u: int, p: Pos, num: int)
    requires |g| == 81 && 0 <= u < UnitCount
  {
    UnitAtAllValid(u);
    exists pos :: 0 <= pos < 9 && UnitAt(u)[pos] == p && OnlyHolder(UnitCells(g, UnitAt(u)), pos, num)
  }

  /** What OnlyHolderAt says about the board's cells. */
  lemma OnlyHolderAtMeaning(g: Grid, u: int, p: Pos, num: int)
    requires |g| == 81 && 0 <= u < UnitCount && OnlyHolderAt(g, u, p, num)
    ensures ValidPos(p) && p in UnitAt(u) && !Solved(g[Idx(p)]) && num in g[Idx(p)].candidates
    ensures forall q :: q in UnitAt(u) && q != p && ValidPos(q) && !Solved(g[Idx(q)]) ==> num !in g[Idx(q)].candidates
  {
    UnitAtAllValid(u);
    var cells := UnitCells(g, UnitAt(u));
    var pos :| 0 <= pos < 9 && UnitAt(u)[pos] == p && OnlyHolder(cells, pos, num);
    forall q | q in UnitAt(u) && q != p && ValidPos(q) && !Solved(g[Idx(q)])
      ensures num !in g[Idx(q)].candidates
    {
      var j :| 0 <= j < 9 && UnitAt(u)[j] == q;
      assert cells[j] == g[Idx(q)];
    }
  }

  /** A unit's hit is its only holder; no hit means no hidden single. */
  lemma UnitHitMeaning(g: Grid, u: int)
    requires |g| == 81 && 0 <= u < UnitCount
    ensures UnitHit(g, u).None? <==> NoHiddenIn(g, u)
    ensures UnitHit(g, u).Some? ==> OnlyHolderAt(g, u, UnitHit(g, u).value.0, UnitHit(g, u).value.1)
  {
    UnitAtAllValid(u);
    var cells := UnitCells(g, UnitAt(u));
    HiddenSingleMeaning(cells);
    if HiddenSingleIn(cells).Some? {
      var (pos, num) := HiddenSingleIn(cells).value;
      assert UnitAt(u)[pos] == UnitHit(g, u).value.0;
    }
  }

  /**
   * What the search finds: a value and a cell that is its only holder in
   * some unit u, no unit before u having a hidden single; when it finds
   * nothing, no unit has one.
   */
  lemma HiddenHitMeaning(g: Grid)
    requires |g| == 81
    ensures HiddenHit(g).Some? ==>
      exists u :: 0 <= u < UnitCount && OnlyHolderAt(g, u, HiddenHit(g).value.0, HiddenHit(g).value.1)
        && forall u' :: 0 <= u' < u ==> NoHiddenIn(g, u')
    ensures HiddenHit(g).None? ==> forall u :: 0 <= u < UnitCount ==> NoHiddenIn(g, u)
  {
    var hs := UnitHits(g);
    FirstHitMeaning(hs, 0);
    if HiddenHit(g).Some? {
      var u :| 0 <= u < UnitCount && hs[u] == HiddenHit(g) && forall u' :: 0 <= u' < u ==> hs[u'].None?;
      UnitHitsAt(g, u);
      UnitHitMeaning(g, u);
      forall u' | 0 <= u' < u ensures NoHiddenIn(g, u') {
        UnitHitsAt(g, u');
        UnitHitMeaning(g, u');
      }
    } else {
      forall u | 0 <= u < UnitCount ensures NoHiddenIn(g, u) {
        UnitHitsAt(g, u);
        UnitHitMeaning(g, u);
      }
    }
  }

  /** The search's hit is an empty cell and one of its candidates. */
  lemma HiddenHitCell(g: Grid)
    requires |g| == 81 && HiddenHit(g).Some?
    ensures !Solved(g[Idx(HiddenHit(g).value.0)])
    ensures HiddenHit(g).value.1 in g[Idx(HiddenHit(g).value.0)].candidates
  {
    HiddenHitMeaning(g);
    var u :| 0 <= u < UnitCount && OnlyHolderAt(g, u, HiddenHit(g).value.0, HiddenHit(g).value.1);
    OnlyHolderAtMeaning(g, u, HiddenHit(g).value.0, HiddenHit(g).value.1);
  }

  /** The cells of a unit of a valid board hold only digits. */
  lemma UnitCellsValid(g: Grid, k: int)
    requires ValidGrid(g) && 0 <= k < UnitCount
    ensures AllValid(UnitAt(k))
    ensures forall j :: 0 <= j < 9 ==> UnitCells(g, UnitAt(k))[j].candidates <= Digits
  {
    UnitAtAllValid(k);
  }

  /** Row r is unit r; its index pos is column pos. */
  lemma RowHit(g: Grid, r: int)
    requires ValidGrid(g) && 0 <= r < 9
    ensures forall j :: 0 <= j < 9 ==> Row(g, r)[j].candidates <= Digits
    ensures HiddenSingleIn(Row(g, r)).None? ==> UnitHit(g, r).None?
    ensures HiddenSingleIn(Row(g, r)).Some? ==>
      UnitHit(g, r) == Some(((r, HiddenSingleIn(Row(g, r)).value.0), HiddenSingleIn(Row(g, r)).value.1))
  {
    UnitCellsAreViews(g, r);
    UnitCellsValid(g, r);
  }

  /** Column c is unit 9 + c; its index pos is row pos. */
  lemma ColHit(g: Grid, c: int)
    requires ValidGrid(g) && 0 <= c < 9
    ensures forall j :: 0 <= j < 9 ==> Col(g, c)[j].candidates <= Digits
    ensures HiddenSingleIn(Col(g, c)).None? ==> UnitHit(g, c + 9).None?
    ensures HiddenSingleIn(Col(g, c)).Some? ==>
      UnitHit(g, c + 9) == Some(((HiddenSingleIn(Col(g, c)).value.0, c), HiddenSingleIn(Col(g, c)).value.1))
  {
    UnitCellsAreViews(g, c + 9);
    UnitCellsValid(g, c + 9);
  }

  /** Index pos of box (br, bc) is row br * 3 + pos // 3, column bc * 3 + pos % 3. */
  function BoxCellPos(br: int, bc: int, pos: int): Pos {
    (br * 3 + pos / 3, bc * 3 + pos % 3)
  }

  /** Box (br, bc) is unit 3 * br + bc + 18. */
  lemma BoxHit(g: Grid, br: int, bc: int)
    requires ValidGrid(g) && 0 <= br < 3 && 0 <= bc < 3
    ensures forall j :: 0 <= j < 9 ==> Box(g, br * 3, bc * 3)[j].candidates <= Digits
    ensures HiddenSingleIn(Box(g, br * 3, bc * 3)).None? ==> UnitHit(g, 3 * br + bc + 18).None?
    ensures HiddenSingleIn(Box(g, br * 3, bc * 3)).Some? ==>
      var hit := HiddenSingleIn(Box(g, br * 3, bc * 3)).value;
      UnitHit(g, 3 * br + bc + 18) == Some((BoxCellPos(br, bc, hit.0), hit.1))
  {
    BoxCells(g, br, bc);
    UnitAtAllValid(3 * br + bc + 18);
  }

  /** Box (br, bc) is unit 3 * br + bc + 18, read in the order of the unit. */
  lemma BoxCells(g: Grid, br: int, bc: int)
    requires ValidGrid(g) && 0 <= br < 3 && 0 <= bc < 3
    ensures AllValid(UnitAt(3 * br + bc + 18))
    ensures Box(g, br * 3, bc * 3) == UnitCells(g, UnitAt(3 * br + bc + 18))
    ensures forall j :: 0 <= j < 9 ==> Box(g, br * 3, bc * 3)[j].candidates <= Digits
    ensures forall pos :: 0 <= pos < 9 ==> UnitAt(3 * br + bc + 18)[pos] == BoxCellPos(br, bc, pos)
  {
    var k := 3 * br + bc + 18;
    BoxStep(br, bc);
    assert k - 18 == 3 * br + bc;
    assert UnitAt(k) == BoxUnit(br, bc);
    UnitCellsAreViews(g, k);
    UnitCellsValid(g, k);
  }

  /** The row loop of apply_one_hidden_single. */
  method FindInRows(grid: array<CellState>) returns (hit: Option<(Pos, int)>)
    requires grid.Length == 81 && ValidGrid(grid[..])
    ensures hit.Some? ==> hit == FirstHit(UnitHits(grid[..]), 0)
    ensures hit.None? ==> FirstHit(UnitHits(grid[..]), 0) == FirstHit(UnitHits(grid[..]), 9)
  {
    ghost var hs := UnitHits(grid[..]);
    for r := 0 to 9
      invariant FirstHit(hs, 0) == FirstHit(hs, r)
    {
      var cells := Row(grid[..], r);
      RowHit(grid[..], r);
      UnitHitsAt(grid[..], r);
      var found := FindHiddenSingleInUnit(cells);
      if found.Some? {
        var (pos, num) := found.value;
        return Some(((r, pos), num));
      }
    }
    return None;
  }

  /** The column loop of apply_one_hidden_single. */
  method FindInCols(grid: array<CellState>) returns (hit: Option<(Pos, int)>)
    requires grid.Length == 81 && ValidGrid(grid[..])
    ensures hit.Some? ==> hit == FirstHit(UnitHits(grid[..]), 9)
    ensures hit.None? ==> FirstHit(UnitHits(grid[..]), 9) == FirstHit(UnitHits(grid[..]), 18)
  {
    ghost var hs := UnitHits(grid[..]);
    for c := 0 to 9
      invariant FirstHit(hs, 9) == FirstHit(hs, c + 9)
    {
      var cells := Col(grid[..], c);
      ColHit(grid[..], c);
      UnitHitsAt(grid[..], c + 9);
      var found := FindHiddenSingleInUnit(cells);
      if found.Some? {
        var (pos, num) := found.value;
        return Some(((pos, c), num));
      }
    }
    return None;
  }

  /** The first hit from unit k on is unit k's own hit, if it has one. */
  lemma FirstHitStep(g: Grid, k: int)
    requires |g| == 81 && 0 <= k < UnitCount
    ensures UnitHit(g, k).Some? ==> FirstHit(UnitHits(g), k) == UnitHit(g, k)
    ensures UnitHit(g, k).None? ==> FirstHit(UnitHits(g), k) == FirstHit(UnitHits(g), k + 1)
  {
    UnitHitsAt(g, k);
  }

  /** One box of the box loop. */
  method FindInBox(grid: array<CellState>, br: int, bc: int) returns (hit: Option<(Pos, int)>)
    requires grid.Length == 81 && ValidGrid(grid[..]) && 0 <= br < 3 && 0 <= bc < 3
    ensures hit == UnitHit(grid[..], 3 * br + bc + 18)
  {
    var cells := Box(grid[..], br * 3, bc * 3);
    BoxHit(grid[..], br, bc);
    var found := FindHiddenSingleInUnit(cells);
    if found.Some? {
      var (pos, num) := found.value;
      return Some((BoxCellPos(br, bc, pos), num));
    }
    return None;
  }

  /** The box loop of apply_one_hidden_single. */
  method FindInBoxes(grid: array<CellState>) returns (hit: Option<(Pos, int)>)
    requires grid.Length == 81 && ValidGrid(grid[..])
    ensures hit == FirstHit(UnitHits(grid[..]), 18)
  {
    ghost var hs := UnitHits(grid[..]);
    var br := 0;
    while br < 3
      invariant 0 <= br <= 3
      invariant FirstHit(hs, 18) == FirstHit(hs, 3 * br + 18)
    {
      var bc := 0;
      while bc < 3
        invariant 0 <= bc <= 3
        invariant FirstHit(hs, 18) == FirstHit(hs, 3 * br + bc + 18)
      {
        hit := FindInBox(grid, br, bc);
        FirstHitStep(grid[..], 3 * br + bc + 18);
        if hit.Some? {
          return;
        }
        bc := bc + 1;
      }
      br := br + 1;
    }
    return None;
  }

  /** The three loops of apply_one_hidden_single, up to the placement. */
  method FindHidden(grid: array<CellState>) returns (hit: Option<(Pos, int)>)
    requires grid.Length == 81 && ValidGrid(grid[..])
    ensures hit == HiddenHit(grid[..])
  {
    hit := FindInRows(grid);
    if hit.None? {
      hit := FindInCols(grid);
      if hit.None? {
        hit := FindInBoxes(grid);
      }
    }
  }

  /** The board after placing a found hidden single, peers untouched. */
  function PlaceHidden(g: Grid, hit: (Pos, int)): (h: Grid)
    requires |g| == 81 && ValidPos(hit.0) && 1 <= hit.1 <= 9
    ensures |h| == 81
  {
    g[Idx(hit.0) := Place(g[Idx(hit.0)], hit.1)]
  }

  /**
   * apply_one_hidden_single: update the candidates, place the first hidden
   * single and report its position, or report that there is none.
   */
  method ApplyOne(b: SudokuBoard) returns (changed: bool, pos: Option<Pos>)
    requires b.Valid()
    modifies b.grid
    ensures b.Valid()
    ensures changed <==> HiddenHit(PropagateAll(old(b.grid[..]))).Some?
    ensures !changed ==> pos.None? && b.grid[..] == PropagateAll(old(b.grid[..]))
    ensures changed ==>
      var hit := HiddenHit(PropagateAll(old(b.grid[..]))).value;
      pos == Some(hit.0) && b.grid[..] == PlaceHidden(PropagateAll(old(b.grid[..])), hit)
  {
    var _ := b.UpdateCandidates();
    var hit := FindHidden(b.grid);
    if hit.None? {
      return false, None;
    }
    var (p, num) := hit.value;
    var i := 9 * p.0 + p.1;
    var cell := b.grid[i];
    b.grid[i] := AssignCandidates(AssignValue(cell, num).value, {});
    return true, Some(p);
  }

  /** Placing a hidden single advances the board and leaves one empty cell fewer. */
  lemma PlaceHiddenEffect(g: Grid)
    requires ValidGrid(g) && HiddenHit(g).Some?
    ensures ValidGrid(PlaceHidden(g, HiddenHit(g).value))
    ensures Advances(g, PlaceHidden(g, HiddenHit(g).value))
    ensures UnsolvedCount(PlaceHidden(g, HiddenHit(g).value)) == UnsolvedCount(g) - 1
  {
    HiddenHitCell(g);
    var (p, num) := HiddenHit(g).value;
    UnsolvedCountFill(g, Idx(p), Place(g[Idx(p)], num));
  }

  /**
   * apply_all_hidden_singles: place hidden singles until none is left and
   * report whether any was placed. Each round fills an empty cell, so the
   * loop ends, and at the end the candidates are up to date and no unit
   * has a hidden single.
   */
  method ApplyAll(b: SudokuBoard) returns (changed: bool)
    requires b.Valid()
    modifies b.grid
    ensures b.Valid()
    ensures Advances(old(b.grid[..]), b.grid[..])
    ensures Consistent(b.grid[..]) && HiddenHit(b.grid[..]).None?
    ensures !changed ==> b.grid[..] == PropagateAll(old(b.grid[..]))
    ensures changed ==> UnsolvedCount(b.grid[..]) < UnsolvedCount(old(b.grid[..]))
  {
    changed := false;
    ghost var g0 := b.grid[..];
    while true
      invariant b.Valid()
      invariant Advances(g0, b.grid[..])
      invariant !changed ==> b.grid[..] == g0
      invariant changed ==> UnsolvedCount(b.grid[..]) < UnsolvedCount(g0)
      decreases UnsolvedCount(b.grid[..])
    {
      ghost var before := b.grid[..];
      ghost var g1 := PropagateAll(before);
      PropagateAllEffect(before);
      NarrowsAdvances(before, g1);
      UnsolvedCountValues(before, g1);
      var stepChanged, pos := ApplyOne(b);
      if !stepChanged {
        AdvancesTrans(g0, before, g1);
        if changed {
          UnsolvedCountValues(before, g1);
        }
        break;
      }
      PlaceHiddenEffect(g1);
      AdvancesTrans(before, g1, b.grid[..]);
      AdvancesTrans(g0, before, b.grid[..]);
      changed := true;
    }
  }
}
