/**
 * The root-level logic/ package, an older copy of the techniques run on
 * the same board. logic/naked_single.py places a naked single without
 * removing its value from the peers and reports only the position;
 * logic/hidden_pairs.py performs the backend's hidden-pair cuts and
 * reports only whether something changed. logic/hidden_single.py and
 * logic/naked_pairs.py do what their backend copies do (they differ only
 * in printed text) and are modelled by HiddenSingles and NakedPairs.
 */
module Legacy {
  import opened Wrappers
  import opened Cells
  import opened Geometry
  import opened Board
  import NakedSingles
  import HiddenPairs

  /** The legacy placement: the cell takes v and loses its candidates; no other cell changes. */
  function Stamp(g: Grid, i: int, v: int): (h: Grid)
    requires |g| == 81 && 0 <= i < 81 && 1 <= v <= 9
    ensures |h| == 81
  {
    g[i := Place(g[i], v)]
  }

  /**
   * What the legacy placement does: cell i holds v with no candidates,
   * every other cell, peers included, keeps its value and candidates, and
   * one empty cell fewer remains. The backend's fill is this placement
   * followed by the removal of v from the unsolved peers.
   */
  lemma StampEffect(g: Grid, i: int, v: int)
    requires ValidGrid(g) && 0 <= i < 81 && NakedSingles.IsSingle(g[i]) && g[i].candidates == {v}
    ensures 1 <= v <= 9
    ensures ValidGrid(Stamp(g, i, v)) && Advances(g, Stamp(g, i, v))
    ensures Stamp(g, i, v)[i] == CellState(v, {}, g[i].isInitial)
    ensures forall j :: 0 <= j < 81 && j != i ==> Stamp(g, i, v)[j] == g[j]
    ensures UnsolvedCount(Stamp(g, i, v)) == UnsolvedCount(g) - 1
    ensures NakedSingles.Fill(g, i, v) == RemoveFromPeers(Stamp(g, i, v), PosOf(i), v)
  {
    assert v in g[i].candidates;
    UnsolvedCountFill(g, i, Place(g[i], v));
  }

  /** A legacy round that places a single advances the board and leaves one empty cell fewer. */
  lemma StampRound(before: Grid, i: int, v: int)
    requires ValidGrid(before) && NakedSingles.Hit(PropagateAll(before)) == Some((i, v))
    ensures ValidGrid(Stamp(PropagateAll(before), i, v))
    ensures Advances(before, Stamp(PropagateAll(before), i, v))
    ensures UnsolvedCount(Stamp(PropagateAll(before), i, v)) < UnsolvedCount(before)
  {
    var g1 := PropagateAll(before);
    PropagateAllEffect(before);
    NarrowsAdvances(before, g1);
    UnsolvedCountValues(before, g1);
    StampEffect(g1, i, v);
    AdvancesTrans(before, g1, Stamp(g1, i, v));
  }

  /**
   * logic/naked_single.py apply_one_naked_single: update the candidates,
   * place the first naked single in row-major order and return its
   * position, or report that there is none.
   */
  method NakedSingleOne(b: SudokuBoard) returns (changed: bool, pos: Option<Pos>)
    requires b.Valid()
    modifies b.grid
    ensures b.Valid()
    ensures changed <==> NakedSingles.Hit(PropagateAll(old(b.grid[..]))).Some?
    ensures !changed ==> pos.None? && b.grid[..] == PropagateAll(old(b.grid[..]))
    ensures changed ==>
      var (i, v) := NakedSingles.Hit(PropagateAll(old(b.grid[..]))).value;
      pos == Some(PosOf(i)) && b.grid[..] == Stamp(PropagateAll(old(b.grid[..])), i, v)
  {
    var _ := b.UpdateCandidates();
    var found := NakedSingles.FindSingle(b.grid);
    if found.None? {
      return false, None;
    }
    var i := found.value;
    var r, c := i / 9, i % 9;
    // candidates.pop() empties the set, set_value(value) and set_candidates(set()) finish the placement
    var value := NakedSingles.OnlyDigit(b.grid[i].candidates);
    NakedSingles.HitAt(b.grid[..], i, value);
    StampEffect(b.grid[..], i, value);
    b.grid[i] := Place(b.grid[i], value);
    return true, Some((r, c));
  }

  /**
   * logic/naked_single.py apply_all_naked_singles: place naked singles
   * until none is left and report whether any was placed. Each round fills
   * an empty cell, so the loop ends; when it does, the candidates are up
   * to date and no naked single remains.
   */
  method NakedSingleAll(b: SudokuBoard) returns (changed: bool)
    requires b.Valid()
    modifies b.grid
    ensures b.Valid()
    ensures Advances(old(b.grid[..]), b.grid[..])
    ensures Consistent(b.grid[..]) && NakedSingles.FirstSingleFrom(b.grid[..], 0).None?
    ensures !changed ==> b.grid[..] == PropagateAll(old(b.grid[..]))
    ensures changed ==> UnsolvedCount(b.grid[..]) < UnsolvedCount(old(b.grid[..]))
  {
    changed := false;
    ghost var g0 := b.grid[..];
    while true
      invariant b.Valid()
      invariant Advances(g0, b.grid[..])
      invariant !changed ==> b.grid[..] == g0
      invariant changed ==> UnsolvedCount(b.grid[..]) < UnsolvedCount(g0)
      decreases UnsolvedCount(b.grid[..])
    {
      ghost var before := b.grid[..];
      var stepChanged, pos := NakedSingleOne(b);
      if !stepChanged {
        NakedSingles.NoHitRound(before);
        AdvancesTrans(g0, before, b.grid[..]);
        PropagateAllEffect(before);
        UnsolvedCountValues(before, b.grid[..]);
        break;
      }
      ghost var hit := NakedSingles.Hit(PropagateAll(before)).value;
      StampRound(before, hit.0, hit.1);
      AdvancesTrans(g0, before, b.grid[..]);
      changed := true;
    }
  }

  /**
   * logic/hidden_pairs.py apply_one_hidden_pair: update the candidates and
   * make the backend's cuts over rows, columns and boxes; the result is
   * only whether a cut was made.
   */
  method HiddenPairOne(b: SudokuBoard) returns (changed: bool)
    requires b.Valid()
    modifies b.grid
    ensures b.Valid()
    ensures b.grid[..] == HiddenPairs.HiddenPairPass(old(b.grid[..])).grid
    ensures Narrows(PropagateAll(old(b.grid[..])), b.grid[..])
    ensures changed <==> b.grid[..] != PropagateAll(old(b.grid[..]))
  {
    ghost var g := b.grid[..];
    var _ := b.UpdateCandidates();
    var focus, elims;
    changed, focus, elims := HiddenPairs.ProcessUnits(b.grid);
    NarrowsValid(PropagateAll(g), b.grid[..]);
  }

  /** logic/hidden_pairs.py apply_all_hidden_pairs: cut until a pass changes nothing. */
  method HiddenPairAll(b: SudokuBoard) returns (changed: bool)
    requires b.Valid()
    modifies b.grid
    ensures b.Valid()
    ensures Narrows(old(b.grid[..]), b.grid[..])
    ensures HiddenPairs.HiddenPairPass(b.grid[..]).grid == b.grid[..]
    ensures !changed ==> b.grid[..] == PropagateAll(old(b.grid[..]))
    ensures changed ==> TotalCandidates(b.grid[..]) < TotalCandidates(old(b.grid[..]))
  {
    ghost var g0 := b.grid[..];
    changed := false;
    while true
      invariant b.Valid()
      invariant Narrows(g0, b.grid[..])
      invariant !changed ==> b.grid[..] == g0
      invariant changed ==> TotalCandidates(b.grid[..]) < TotalCandidates(g0)
      decreases TotalCandidates(b.grid[..])
    {
      ghost var before := b.grid[..];
      var stepChanged := HiddenPairOne(b);
      NarrowsTrans(g0, PropagateAll(before), b.grid[..]);
      NarrowsTrans(g0, before, PropagateAll(before));
      NarrowsTotal(before, PropagateAll(before));
      NarrowsTotal(PropagateAll(before), b.grid[..]);
      if !stepChanged {
        HiddenPairs.PassFixpoint(before);
        break;
      }
      changed := true;
    }
  }
}
