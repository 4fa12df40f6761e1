/**
 * Naked triples (backend/logic/naked_triples.py). In each unit the empty
 * cells with one to three candidates are listed in ascending index order;
 * the combinations of three of them are tried in lexicographic order. A
 * combination whose candidate union has exactly three values removes
 * those values from every other empty cell of the unit. The first
 * combination that removes something ends the scan: the rest of its unit
 * and all later units are skipped. Until then nothing changes, so every
 * combination is judged on the board as the scan found it.
 */
module NakedTriples {
  import opened Wrappers
  import opened Cells
  import opened Geometry
  import opened Board
  import opened Units
  import opened Steps

  const Technique := "Naked Triple"

  /** Three unit indices. */
  type Triple = (int, int, int)

  predicate InUnit(t: Triple) {
    0 <= t.0 < 9 && 0 <= t.1 < 9 && 0 <= t.2 < 9
  }

  /** Unit index idx is none of the triple's. */
  predicate Outside(idx: int, t: Triple) {
    idx != t.0 && idx != t.1 && idx != t.2
  }

  /** Lexicographic order on triples. */
  predicate LexBefore(s: Triple, t: Triple) {
    s.0 < t.0 || (s.0 == t.0 && (s.1 < t.1 || (s.1 == t.1 && s.2 < t.2)))
  }

  /** A cell that may belong to a naked triple: empty, with one to three candidates. */
  predicate Eligible(c: CellState) {
    !Solved(c) && 1 <= |c.candidates| <= 3
  }

  /** The eligible unit indices below n, ascending. */
  function EligibleBelow(cells: seq<CellState>, n: int): (u: seq<int>)
    requires 0 <= n <= |cells|
    ensures forall x :: x in u <==> 0 <= x < n && Eligible(cells[x])
    ensures forall i :: 0 <= i < |u| ==> 0 <= u[i] < n
    ensures forall i, j :: 0 <= i < j < |u| ==> u[i] < u[j]
  {
    if n == 0 then [] else EligibleBelow(cells, n - 1) + (if Eligible(cells[n - 1]) then [n - 1] else [])
  }

  /** all_candidates: the union of the three cells' candidates. */
  function TripleUnion(cells: seq<CellState>, t: Triple): set<int>
    requires |cells| == 9 && InUnit(t)
  {
    cells[t.0].candidates + cells[t.1].candidates + cells[t.2].candidates
  }

  /** Some empty cell below n outside the triple would lose a value of vs. */
  predicate RemovesBelow(cells: seq<CellState>, t: Triple, vs: set<int>, n: int)
    requires |cells| == 9 && 0 <= n <= 9
  {
    exists idx :: 0 <= idx < n && Outside(idx, t) && !Solved(cells[idx]) && cells[idx].candidates - vs != cells[idx].candidates
  }

  /** The triple's three values fill exactly three candidates and stripping them from the other cells removes something. */
  predicate TripleFires(cells: seq<CellState>, t: Triple)
    requires |cells| == 9 && InUnit(t)
  {
    |TripleUnion(cells, t)| == 3 && RemovesBelow(cells, t, TripleUnion(cells, t), 9)
  }

  /** A naked triple: three distinct eligible cells whose candidates together are three values. */
  predicate NakedTriple(cells: seq<CellState>, t: Triple)
    requires |cells| == 9
  {
    0 <= t.0 < t.1 < t.2 < 9
    && Eligible(cells[t.0]) && Eligible(cells[t.1]) && Eligible(cells[t.2])
    && |TripleUnion(cells, t)| == 3
  }

  // ---------------------------------------------------------------------
  // The combination loops, over positions of the eligible list u

  predicate IndexList(u: seq<int>) {
    forall i :: 0 <= i < |u| ==> 0 <= u[i] < 9
  }

  /** The unit indices at positions p of u. */
  function At(u: seq<int>, p: Triple): (t: Triple)
    requires IndexList(u) && 0 <= p.0 < |u| && 0 <= p.1 < |u| && 0 <= p.2 < |u|
    ensures InUnit(t)
  {
    (u[p.0], u[p.1], u[p.2])
  }

  predicate FiresAt(cells: seq<CellState>, u: seq<int>, i: int, j: int, k: int)
    requires |cells| == 9 && IndexList(u) && 0 <= i < |u| && 0 <= j < |u| && 0 <= k < |u|
  {
    TripleFires(cells, At(u, (i, j, k)))
  }

  /** The innermost loop: the first position k' >= k whose combination (i, j, k') fires. */
  function ScanK(cells: seq<CellState>, u: seq<int>, i: int, j: int, k: int): (r: Option<Triple>)
    requires |cells| == 9 && IndexList(u) && 0 <= i < j < k <= |u|
    ensures r.Some? ==> r.value.0 == i && r.value.1 == j && k <= r.value.2 < |u|
    decreases |u| - k
  {
    if k == |u| then None
    else if FiresAt(cells, u, i, j, k) then Some((i, j, k))
    else ScanK(cells, u, i, j, k + 1)
  }

  /** The middle loop: the first j' >= j with a firing combination (i, j', k'). */
  function ScanJ(cells: seq<CellState>, u: seq<int>, i: int, j: int): (r: Option<Triple>)
    requires |cells| == 9 && IndexList(u) && 0 <= i < j <= |u|
    ensures r.Some? ==> r.value.0 == i && j <= r.value.1 < r.value.2 < |u|
    decreases |u| - j
  {
    if j == |u| then None
    else
      var r := ScanK(cells, u, i, j, j + 1);
      if r.Some? then r else ScanJ(cells, u, i, j + 1)
  }

  /** The outer loop: the first firing combination whose first position is at least i. */
  function ScanI(cells: seq<CellState>, u: seq<int>, i: int): (r: Option<Triple>)
    requires |cells| == 9 && IndexList(u) && 0 <= i <= |u|
    ensures r.Some? ==> i <= r.value.0 < r.value.1 < r.value.2 < |u|
    decreases |u| - i
  {
    if i == |u| then None
    else
      var r := ScanJ(cells, u, i, i + 1);
      if r.Some? then r else ScanI(cells, u, i + 1)
  }

  /** The triple process_unit applies in a unit, as unit indices; None when the unit offers none. */
  function UnitTriple(cells: seq<CellState>): Option<Triple>
    requires |cells| == 9
  {
    var u := EligibleBelow(cells, 9);
    if |u| < 3 then None
    else
      var r := ScanI(cells, u, 0);
      if r.None? then None else Some(At(u, r.value))
  }

  lemma {:induction false} ScanKMeaning(cells: seq<CellState>, u: seq<int>, i: int, j: int, k: int)
    requires |cells| == 9 && IndexList(u) && 0 <= i < j < k <= |u|
    ensures ScanK(cells, u, i, j, k).None? ==> forall k' :: k <= k' < |u| ==> !FiresAt(cells, u, i, j, k')
    ensures ScanK(cells, u, i, j, k).Some? ==>
      var p := ScanK(cells, u, i, j, k).value;
      p.0 == i && p.1 == j && k <= p.2 < |u| && FiresAt(cells, u, p.0, p.1, p.2)
      && forall k' :: k <= k' < p.2 ==> !FiresAt(cells, u, i, j, k')
    decreases |u| - k
  {
    if k < |u| && !FiresAt(cells, u, i, j, k) {
      ScanKMeaning(cells, u, i, j, k + 1);
    }
  }

  lemma {:induction false} ScanJMeaning(cells: seq<CellState>, u: seq<int>, i: int, j: int)
    requires |cells| == 9 && IndexList(u) && 0 <= i < j <= |u|
    ensures ScanJ(cells, u, i, j).None? ==>
      NoneFiresWith(cells, u, i, j)
    ensures ScanJ(cells, u, i, j).Some? ==>
      var p := ScanJ(cells, u, i, j).value;
      p.0 == i && j <= p.1 < p.2 < |u| && FiresAt(cells, u, p.0, p.1, p.2)
      && forall j', k' :: j <= j' < k' < |u| && LexBefore((i, j', k'), p) ==> !FiresAt(cells, u, i, j', k')
    decreases |u| - j
  {
    if j < |u| {
      ScanKMeaning(cells, u, i, j, j + 1);
      var rk := ScanK(cells, u, i, j, j + 1);
      if rk.None? {
        ScanJMeaning(cells, u, i, j + 1);
        var r := ScanJ(cells, u, i, j + 1);
        assert ScanJ(cells, u, i, j) == r;
        if r.None? {
          forall j', k' | j <= j' < k' < |u| ensures !FiresAt(cells, u, i, j', k') {
            if j' == j {
              assert j + 1 <= k' < |u|;
            } else {
              assert j + 1 <= j' < k' < |u|;
            }
          }
        } else {
          var p := r.value;
          forall j', k' | j <= j' < k' < |u| && LexBefore((i, j', k'), p)
            ensures !FiresAt(cells, u, i, j', k')
          {
            if j' == j {
              assert j + 1 <= k' < |u|;
            } else {
              assert j + 1 <= j' < k' < |u|;
            }
          }
        }
      } else {
        var p := rk.value;
        assert ScanJ(cells, u, i, j) == rk;
        forall j', k' | j <= j' < k' < |u| && LexBefore((i, j', k'), p)
          ensures !FiresAt(cells, u, i, j', k')
        {
          assert j' == j && j + 1 <= k' < p.2;
        }
      }
    }
  }

  lemma {:induction false} ScanIMeaning(cells: seq<CellState>, u: seq<int>, i: int)
    requires |cells| == 9 && IndexList(u) && 0 <= i <= |u|
    ensures ScanI(cells, u, i).None? ==> NoneFiresFrom(cells, u, i)
    ensures ScanI(cells, u, i).Some? ==> FirstFiringFrom(cells, u, i, ScanI(cells, u, i).value)
    decreases |u| - i
  {
    if i < |u| {
      ScanJMeaning(cells, u, i, i + 1);
      if ScanJ(cells, u, i, i + 1).None? {
        ScanIMeaning(cells, u, i + 1);
        ScanIAfter(cells, u, i, i + 1);
      } else {
        ScanIWithin(cells, u, i, i + 1);
      }
    }
  }

  /** No combination (i, j', k') with j <= j' fires. */
  ghost predicate NoneFiresWith(cells: seq<CellState>, u: seq<int>, i: int, j: int)
    requires |cells| == 9 && IndexList(u) && 0 <= i < |u| && 0 <= j
  {
    forall j', k' :: j <= j' < k' < |u| ==> !FiresAt(cells, u, i, j', k')
  }

  /** No combination of positions from i on fires. */
  ghost predicate NoneFiresFrom(cells: seq<CellState>, u: seq<int>, i: int)
    requires |cells| == 9 && IndexList(u) && 0 <= i
  {
    forall i', j', k' :: i <= i' < j' < k' < |u| ==> !FiresAt(cells, u, i', j', k')
  }

  /** p fires, and it is the first combination from i on in lexicographic order that does. */
  ghost predicate FirstFiringFrom(cells: seq<CellState>, u: seq<int>, i: int, p: Triple)
    requires |cells| == 9 && IndexList(u) && 0 <= i
  {
    i <= p.0 < p.1 < p.2 < |u| && FiresAt(cells, u, p.0, p.1, p.2)
    && forall i', j', k' :: i <= i' < j' < k' < |u| && LexBefore((i', j', k'), p) ==> !FiresAt(cells, u, i', j', k')
  }

  /** The outer loop's step when no combination starting at i fires: the answer is the one from n = i + 1. */
  lemma ScanIAfter(cells: seq<CellState>, u: seq<int>, i: int, n: int)
    requires |cells| == 9 && IndexList(u) && 0 <= i < |u| && n == i + 1
    requires ScanJ(cells, u, i, n).None?
    requires NoneFiresWith(cells, u, i, n)
    requires ScanI(cells, u, n).None? ==> NoneFiresFrom(cells, u, n)
    requires ScanI(cells, u, n).Some? ==> FirstFiringFrom(cells, u, n, ScanI(cells, u, n).value)
    ensures ScanI(cells, u, i).None? ==> NoneFiresFrom(cells, u, i)
    ensures ScanI(cells, u, i).Some? ==> FirstFiringFrom(cells, u, i, ScanI(cells, u, i).value)
  {
    var r := ScanI(cells, u, n);
    assert ScanI(cells, u, i) == r;
    if r.None? {
      NoneAfterFirst(cells, u, i, n);
    } else {
      EarlierAfterFirst(cells, u, i, n, r.value);
    }
  }

  /** The outer loop's step when a combination starting at i fires: the middle loop's answer is the first. */
  lemma ScanIWithin(cells: seq<CellState>, u: seq<int>, i: int, n: int)
    requires |cells| == 9 && IndexList(u) && 0 <= i < |u| && n == i + 1
    requires ScanJ(cells, u, i, n).Some?
    requires var p := ScanJ(cells, u, i, n).value;
      p.0 == i && n <= p.1 < p.2 < |u| && FiresAt(cells, u, p.0, p.1, p.2)
      && forall j', k' :: n <= j' < k' < |u| && LexBefore((i, j', k'), p) ==> !FiresAt(cells, u, i, j', k')
    ensures ScanI(cells, u, i).Some? && FirstFiringFrom(cells, u, i, ScanI(cells, u, i).value)
  {
    var p := ScanJ(cells, u, i, n).value;
    assert ScanI(cells, u, i) == ScanJ(cells, u, i, n);
    EarlierWithinFirst(cells, u, i, n, p);
  }

  /** When the first firing combination starts at i, none before it from i fires. */
  lemma EarlierWithinFirst(cells: seq<CellState>, u: seq<int>, i: int, n: int, p: Triple)
    requires |cells| == 9 && IndexList(u) && 0 <= i < |u| && n == i + 1
    requires p.0 == i && n <= p.1 < p.2 < |u| && FiresAt(cells, u, p.0, p.1, p.2)
    requires forall j', k' :: n <= j' < k' < |u| && LexBefore((i, j', k'), p) ==> !FiresAt(cells, u, i, j', k')
    ensures FirstFiringFrom(cells, u, i, p)
  {
    forall i', j', k' | i <= i' < j' < k' < |u| && LexBefore((i', j', k'), p)
      ensures !FiresAt(cells, u, i', j', k')
    {
      assert i' == i && n <= j' < k' < |u|;
    }
  }

  /** No combination starting at i fires, nor any starting later: none from i fires. */
  lemma NoneAfterFirst(cells: seq<CellState>, u: seq<int>, i: int, n: int)
    requires |cells| == 9 && IndexList(u) && 0 <= i < |u| && n == i + 1
    requires NoneFiresWith(cells, u, i, n)
    requires NoneFiresFrom(cells, u, n)
    ensures NoneFiresFrom(cells, u, i)
  {
    forall i', j', k' | i <= i' < j' < k' < |u| ensures !FiresAt(cells, u, i', j', k') {
      if i' == i {
        assert n <= j' < k' < |u|;
      } else {
        assert n <= i' < j' < k' < |u|;
      }
    }
  }

  /** When the first firing combination starts after i, none before it from i fires. */
  lemma EarlierAfterFirst(cells: seq<CellState>, u: seq<int>, i: int, n: int, p: Triple)
    requires |cells| == 9 && IndexList(u) && 0 <= i < |u| && n == i + 1
    requires NoneFiresWith(cells, u, i, n)
    requires FirstFiringFrom(cells, u, n, p)
    ensures FirstFiringFrom(cells, u, i, p)
  {
    forall i', j', k' | i <= i' < j' < k' < |u| && LexBefore((i', j', k'), p)
      ensures !FiresAt(cells, u, i', j', k')
    {
      if i' == i {
        assert n <= j' < k' < |u|;
      } else {
        assert n <= i' < j' < k' < |u|;
      }
    }
  }

  /** An eligible cell's index sits at some position of the eligible list. */
  lemma PositionOf(cells: seq<CellState>, x: int) returns (p: int)
    requires |cells| == 9 && 0 <= x < 9 && Eligible(cells[x])
    ensures 0 <= p < |EligibleBelow(cells, 9)| && EligibleBelow(cells, 9)[p] == x
  {
    var u := EligibleBelow(cells, 9);
    assert x in u;
    p :| 0 <= p < |u| && u[p] == x;
  }

  /** The list is ascending, so positions compare as their indices do. */
  lemma PositionOrder(cells: seq<CellState>, p: int, q: int)
    requires |cells| == 9 && 0 <= p < |EligibleBelow(cells, 9)| && 0 <= q < |EligibleBelow(cells, 9)|
    ensures p < q <==> EligibleBelow(cells, 9)[p] < EligibleBelow(cells, 9)[q]
    ensures p == q <==> EligibleBelow(cells, 9)[p] == EligibleBelow(cells, 9)[q]
  {
  }

  /** A naked triple as positions of the eligible list. */
  lemma TriplePositions(cells: seq<CellState>, t: Triple) returns (p: Triple)
    requires |cells| == 9 && NakedTriple(cells, t)
    ensures 0 <= p.0 < p.1 < p.2 < |EligibleBelow(cells, 9)| && At(EligibleBelow(cells, 9), p) == t
  {
    var a := PositionOf(cells, t.0);
    var b := PositionOf(cells, t.1);
    var c := PositionOf(cells, t.2);
    PositionOrder(cells, a, b);
    PositionOrder(cells, b, c);
    p := (a, b, c);
  }

  /** A naked triple takes three positions of the eligible list. */
  lemma NakedTripleNeedsThree(cells: seq<CellState>)
    requires |cells| == 9
    ensures forall s :: NakedTriple(cells, s) ==> |EligibleBelow(cells, 9)| >= 3
  {
    forall s | NakedTriple(cells, s) ensures |EligibleBelow(cells, 9)| >= 3 {
      var p := TriplePositions(cells, s);
    }
  }

  /**
   * The unit's triple is a naked triple that removes something, and no
   * naked triple before it in lexicographic order does; None means no
   * naked triple of the unit removes anything.
   */
  lemma UnitTripleMeaning(cells: seq<CellState>)
    requires |cells| == 9
    ensures UnitTriple(cells).Some? ==>
      var t := UnitTriple(cells).value;
      NakedTriple(cells, t) && TripleFires(cells, t)
      && forall s :: NakedTriple(cells, s) && LexBefore(s, t) ==> !TripleFires(cells, s)
    ensures UnitTriple(cells).None? ==> forall s :: NakedTriple(cells, s) ==> !TripleFires(cells, s)
  {
    var u := EligibleBelow(cells, 9);
    if |u| < 3 {
      NakedTripleNeedsThree(cells);
    } else {
      ScanIMeaning(cells, u, 0);
      var r := ScanI(cells, u, 0);
      if r.Some? {
        PositionOrder(cells, r.value.0, r.value.1);
        PositionOrder(cells, r.value.1, r.value.2);
        NoEarlierTriple(cells, r.value);
      } else {
        forall s | NakedTriple(cells, s) ensures !TripleFires(cells, s) {
          var p := TriplePositions(cells, s);
          assert !FiresAt(cells, u, p.0, p.1, p.2);
        }
      }
    }
  }

  /** When q is the first firing combination of positions, no naked triple before At(u, q) removes anything. */
  lemma NoEarlierTriple(cells: seq<CellState>, q: Triple)
    requires |cells| == 9 && FirstFiringFrom(cells, EligibleBelow(cells, 9), 0, q)
    ensures forall s :: NakedTriple(cells, s) && LexBefore(s, At(EligibleBelow(cells, 9), q)) ==> !TripleFires(cells, s)
  {
    var u := EligibleBelow(cells, 9);
    var t := At(u, q);
    forall s | NakedTriple(cells, s) && LexBefore(s, t) ensures !TripleFires(cells, s) {
      var p := TriplePositions(cells, s);
      PositionOrder(cells, p.0, q.0);
      PositionOrder(cells, p.1, q.1);
      PositionOrder(cells, p.2, q.2);
      assert LexBefore(p, q);
      assert !FiresAt(cells, u, p.0, p.1, p.2);
    }
  }

  // ---------------------------------------------------------------------
  // Stripping the triple's values

  /** The elimination loop over the unit indices below n: strip vs from each empty cell outside the triple, recording what goes. */
  function StripUpTo(g: Grid, ps: seq<Pos>, t: Triple, vs: set<int>, n: int): (r: (Grid, ElimMap))
    requires |g| == 81 && ValidUnit(ps) && 0 <= n <= 9
    ensures |r.0| == 81
  {
    if n == 0 then (g, [])
    else
      var (h, m) := StripUpTo(g, ps, t, vs, n - 1);
      var p := ps[n - 1];
      var cell := h[Idx(p)];
      if Outside(n - 1, t) && !Solved(cell) && cell.candidates - vs != cell.candidates then
        (h[Idx(p) := AssignCandidates(cell, cell.candidates - vs)], RecordRemoved(m, cell.candidates - (cell.candidates - vs), p))
      else (h, m)
  }

  /**
   * The elimination loop as a whole: every empty unit cell outside the
   * triple loses vs, nothing else changes, the map lists exactly what was
   * removed, and the board changes iff some such cell held a value of vs.
   */
  lemma {:induction false} StripUpToEffect(g: Grid, ps: seq<Pos>, t: Triple, vs: set<int>, n: int)
    requires |g| == 81 && ValidGrid(g) && ValidUnit(ps) && 0 <= n <= 9
    ensures var h := StripUpTo(g, ps, t, vs, n).0;
      (forall i :: 0 <= i < 9 ==>
         h[Idx(ps[i])] ==
         if i < n && Outside(i, t) && !Solved(g[Idx(ps[i])]) then AssignCandidates(g[Idx(ps[i])], g[Idx(ps[i])].candidates - vs)
         else g[Idx(ps[i])])
      && (forall j :: 0 <= j < 81 && (forall i :: 0 <= i < 9 ==> Idx(ps[i]) != j) ==> h[j] == g[j])
    ensures Narrows(g, StripUpTo(g, ps, t, vs, n).0)
    ensures RecordsRemovals(g, StripUpTo(g, ps, t, vs, n).0, StripUpTo(g, ps, t, vs, n).1)
    ensures StripUpTo(g, ps, t, vs, n).0 != g <==> RemovesBelow(UnitCells(g, ps), t, vs, n)
    decreases n
  {
    AllValidOfUnit(ps);
    var cells := UnitCells(g, ps);
    if n == 0 {
      RecordsNothing(g);
    } else {
      StripUpToEffect(g, ps, t, vs, n - 1);
      var (h, m) := StripUpTo(g, ps, t, vs, n - 1);
      var p := ps[n - 1];
      forall i | 0 <= i < 9 && i != n - 1 ensures Idx(ps[i]) != Idx(p) {
        IdxDistinct(ps[i], p);
      }
      var cell := h[Idx(p)];
      assert cell == g[Idx(p)];
      var fires := Outside(n - 1, t) && !Solved(cell) && cell.candidates - vs != cell.candidates;
      if fires {
        var removed := cell.candidates - (cell.candidates - vs);
        assert cell.candidates - removed == cell.candidates - vs;
        RecordShrink(g, h, m, p, removed);
        var h' := StripUpTo(g, ps, t, vs, n).0;
        assert h'[Idx(p)].candidates != g[Idx(p)].candidates;
        assert RemovesBelow(cells, t, vs, n) by {
          assert cells[n - 1] == cell;
        }
      } else {
        assert RemovesBelow(cells, t, vs, n) <==> RemovesBelow(cells, t, vs, n - 1) by {
          assert cells[n - 1] == cell;
        }
        if Outside(n - 1, t) && !Solved(cell) {
          assert AssignCandidates(cell, cell.candidates - vs) == cell;
        }
      }
      NarrowsOfStrip(g, ps, t, vs, n);
    }
  }

  /** A valid unit's positions are valid. */
  lemma AllValidOfUnit(ps: seq<Pos>)
    requires ValidUnit(ps)
    ensures AllValid(ps)
  {
  }

  /** Stripping only narrows: values stay, candidates shrink, solved cells are untouched. */
  lemma NarrowsOfStrip(g: Grid, ps: seq<Pos>, t: Triple, vs: set<int>, n: int)
    requires |g| == 81 && ValidUnit(ps) && 1 <= n <= 9
    requires Narrows(g, StripUpTo(g, ps, t, vs, n - 1).0)
    ensures Narrows(g, StripUpTo(g, ps, t, vs, n).0)
  {
    var h := StripUpTo(g, ps, t, vs, n - 1).0;
    var h' := StripUpTo(g, ps, t, vs, n).0;
    assert Narrows(h, h');
    NarrowsTrans(g, h, h');
  }

  // ---------------------------------------------------------------------
  // The scan over the units

  /** The triple unit k of g offers. */
  function TripleHit(g: Grid, k: int): Option<Triple>
    requires |g| == 81 && 0 <= k < UnitCount
  {
    UnitAtAllValid(k);
    UnitTriple(UnitCells(g, UnitAt(k)))
  }

  /** The triples the 27 units offer, in process_all_units order. */
  function UnitHits(g: Grid): (hs: seq<Option<Triple>>)
    requires |g| == 81
    ensures |hs| == UnitCount
  {
    seq(UnitCount, k requires 0 <= k < UnitCount => TripleHit(g, k))
  }

  lemma UnitHitsAt(g: Grid, k: int)
    requires |g| == 81 && 0 <= k < UnitCount
    ensures UnitHits(g)[k] == TripleHit(g, k)
  {
  }

  /** The first index from k on whose entry is present. */
  function FirstFrom(hs: seq<Option<Triple>>, k: int): (r: Option<int>)
    requires 0 <= k <= |hs|
    ensures r.Some? ==> k <= r.value < |hs| && hs[r.value].Some?
    decreases |hs| - k
  {
    if k == |hs| then None else if hs[k].Some? then Some(k) else FirstFrom(hs, k + 1)
  }

  lemma {:induction false} FirstFromMeaning(hs: seq<Option<Triple>>, k: int)
    requires 0 <= k <= |hs|
    ensures FirstFrom(hs, k).Some? ==> forall u :: k <= u < FirstFrom(hs, k).value ==> hs[u].None?
    ensures FirstFrom(hs, k).None? ==> forall u :: k <= u < |hs| ==> hs[u].None?
    decreases |hs| - k
  {
    if k < |hs| && hs[k].None? {
      FirstFromMeaning(hs, k + 1);
    }
  }

  /** The first unit from k on that offers a triple. */
  function FirstUnit(g: Grid, k: int): (r: Option<int>)
    requires |g| == 81 && 0 <= k <= UnitCount
    ensures r.Some? ==> k <= r.value < UnitCount && TripleHit(g, r.value).Some?
  {
    var r := FirstFrom(UnitHits(g), k);
    if r.Some? then UnitHitsAt(g, r.value); r else r
  }

  /** FirstUnit is the first unit offering a triple: the units before it offer none. */
  lemma FirstUnitMeaning(g: Grid, k: int)
    requires |g| == 81 && 0 <= k <= UnitCount
    ensures FirstUnit(g, k).Some? ==> forall u :: k <= u < FirstUnit(g, k).value ==> TripleHit(g, u).None?
    ensures FirstUnit(g, k).None? ==> forall u :: k <= u < UnitCount ==> TripleHit(g, u).None?
  {
    FirstFromMeaning(UnitHits(g), k);
    forall u | 0 <= u < UnitCount ensures UnitHits(g)[u] == TripleHit(g, u) {
      UnitHitsAt(g, u);
    }
  }

  /** One step of the unit loop. */
  lemma FirstUnitStep(g: Grid, k: int)
    requires |g| == 81 && 0 <= k < UnitCount
    ensures TripleHit(g, k).Some? ==> FirstUnit(g, k) == Some(k)
    ensures TripleHit(g, k).None? ==> FirstUnit(g, k) == FirstUnit(g, k + 1)
  {
    UnitHitsAt(g, k);
  }

  /** Applying the triple of unit k: the stripped board, the triple's cells as focus, the eliminations. */
  function Fire(g: Grid, k: int): (r: (Grid, seq<Pos>, ElimMap))
    requires |g| == 81 && 0 <= k < UnitCount && TripleHit(g, k).Some?
    ensures |r.0| == 81
  {
    UnitAtValid(k);
    UnitAtAllValid(k);
    var ps := UnitAt(k);
    var t := TripleHit(g, k).value;
    UnitTripleMeaning(UnitCells(g, ps));
    var (h, m) := StripUpTo(g, ps, t, TripleUnion(UnitCells(g, ps), t), 9);
    (h, [ps[t.0], ps[t.1], ps[t.2]], m)
  }

  /** process_all_units with the naked-triple callback, from board g. */
  function TripleScan(g: Grid): (r: (Grid, seq<Pos>, ElimMap))
    requires |g| == 81
    ensures |r.0| == 81
  {
    FirstUnitMeaning(g, 0);
    match FirstUnit(g, 0)
    case None => (g, [], [])
    case Some(k) => Fire(g, k)
  }

  /** apply_one_naked_triple's board, focus and eliminations: update_candidates, then the scan. */
  function TriplePass(g: Grid): (r: (Grid, seq<Pos>, ElimMap))
    requires |g| == 81
    ensures |r.0| == 81
  {
    TripleScan(PropagateAll(g))
  }

  /**
   * The scan on a valid board: it narrows the board; when some unit offers
   * a triple, the first such unit's empty cells outside the triple lose the
   * triple's three values, nothing else changes, the focus is the triple's
   * three cells and the map lists exactly what was removed; otherwise the
   * board is returned as it was.
   */
  lemma TripleScanEffect(g: Grid)
    requires |g| == 81 && ValidGrid(g)
    ensures Narrows(g, TripleScan(g).0) && RecordsRemovals(g, TripleScan(g).0, TripleScan(g).2)
    ensures TripleScan(g).0 != g <==> FirstUnit(g, 0).Some?
    ensures FirstUnit(g, 0).None? ==> TripleScan(g) == (g, [], [])
    ensures FirstUnit(g, 0).Some? ==>
      var k := FirstUnit(g, 0).value;
      var ps := UnitAt(k);
      var cells := UnitCells(g, ps);
      var t := TripleHit(g, k).value;
      NakedTriple(cells, t) && |TripleScan(g).1| == 3
      && TripleScan(g).1 == [ps[t.0], ps[t.1], ps[t.2]]
      && (forall i :: 0 <= i < 9 ==>
            TripleScan(g).0[Idx(ps[i])] ==
            if Outside(i, t) && !Solved(cells[i]) then AssignCandidates(cells[i], cells[i].candidates - TripleUnion(cells, t))
            else cells[i])
      && (forall j :: 0 <= j < 81 && (forall i :: 0 <= i < 9 ==> Idx(ps[i]) != j) ==> TripleScan(g).0[j] == g[j])
  {
    FirstUnitMeaning(g, 0);
    if FirstUnit(g, 0).None? {
      RecordsNothing(g);
    } else {
      var k := FirstUnit(g, 0).value;
      UnitAtValid(k);
      UnitAtAllValid(k);
      var ps := UnitAt(k);
      var cells := UnitCells(g, ps);
      UnitTripleMeaning(cells);
      var t := TripleHit(g, k).value;
      StripUpToEffect(g, ps, t, TripleUnion(cells, t), 9);
    }
  }

  /** The pass changes the board beyond update_candidates exactly when some unit offers a triple. */
  lemma TriplePassEffect(g: Grid)
    requires |g| == 81 && ValidGrid(g)
    ensures Narrows(g, TriplePass(g).0) && Narrows(PropagateAll(g), TriplePass(g).0)
    ensures RecordsRemovals(PropagateAll(g), TriplePass(g).0, TriplePass(g).2)
    ensures TriplePass(g).0 != PropagateAll(g) <==> FirstUnit(PropagateAll(g), 0).Some?
    ensures TriplePass(g).0 != PropagateAll(g) ==> TotalCandidates(TriplePass(g).0) < TotalCandidates(PropagateAll(g))
  {
    var h := PropagateAll(g);
    TripleScanEffect(h);
    NarrowsTrans(g, h, TriplePass(g).0);
    NarrowsTotal(h, TriplePass(g).0);
  }

  /** On a board update_candidates leaves alone, a pass that finds no triple is a fixpoint. */
  lemma PassFixpoint(g: Grid)
    requires |g| == 81 && TriplePass(g).0 == PropagateAll(g)
    ensures TriplePass(TriplePass(g).0).0 == TriplePass(g).0
  {
    PropagateIdempotent(g);
  }

  // ---------------------------------------------------------------------
  // The loops

  /** The eligible-cell collection of process_unit, deduplicated and listed. */
  method EligibleIndices(grid: array<CellState>, ps: seq<Pos>) returns (u: seq<int>)
    requires grid.Length == 81 && ValidUnit(ps)
    ensures u == EligibleBelow(UnitCells(grid[..], ps), 9)
  {
    AllValidOfUnit(ps);
    ghost var cells := UnitCells(grid[..], ps);
    var unique: set<int> := {};
    for idx := 0 to 9
      invariant forall x :: x in unique <==> 0 <= x < idx && Eligible(cells[x])
    {
      var cell := grid[Idx(ps[idx])];
      if !Solved(cell) {
        var cands := cell.candidates;
        if 1 <= |cands| <= 3 {
          unique := unique + {idx};
        }
      }
    }
    u := [];
    for idx := 0 to 9
      invariant u == EligibleBelow(cells, idx)
    {
      if idx in unique {
        u := u + [idx];
      }
    }
  }

  /** The elimination loop of a naked triple. */
  method StripOthers(grid: array<CellState>, ps: seq<Pos>, t: Triple, vs: set<int>) returns (localChanged: bool, elims: ElimMap)
    requires grid.Length == 81 && ValidUnit(ps) && ValidGrid(grid[..])
    modifies grid
    ensures (grid[..], elims) == StripUpTo(old(grid[..]), ps, t, vs, 9)
    ensures localChanged <==> grid[..] != old(grid[..])
  {
    ghost var g0 := grid[..];
    localChanged, elims := false, [];
    for idx := 0 to 9
      invariant (grid[..], elims) == StripUpTo(g0, ps, t, vs, idx)
      invariant localChanged <==> grid[..] != g0
    {
      StripUpToEffect(g0, ps, t, vs, idx);
      StripUpToEffect(g0, ps, t, vs, idx + 1);
      var p := ps[idx];
      var cell := grid[Idx(p)];
      if Outside(idx, t) && !Solved(cell) {
        var old_ := cell.candidates;
        var new_ := old_ - vs;
        if new_ != old_ {
          grid[Idx(p)] := AssignCandidates(cell, new_);
          localChanged := true;
          elims := RecordRemoved(elims, old_ - new_, p);
        }
      }
    }
  }

  /** The innermost combination loop: third positions k after j. */
  method ScanThird(grid: array<CellState>, ps: seq<Pos>, u: seq<int>, i: int, j: int, ghost cells: seq<CellState>)
    returns (r: Option<Triple>, elims: ElimMap)
    requires grid.Length == 81 && ValidUnit(ps) && ValidGrid(grid[..]) && IndexList(u) && 0 <= i < j < |u|
    requires AllValid(ps) && cells == UnitCells(grid[..], ps)
    modifies grid
    ensures r == ScanK(cells, u, i, j, j + 1)
    ensures r.None? ==> grid[..] == old(grid[..])
    ensures r.Some? ==> (grid[..], elims) == StripUpTo(old(grid[..]), ps, At(u, r.value), TripleUnion(cells, At(u, r.value)), 9)
  {
    for k := j + 1 to |u|
      invariant grid[..] == old(grid[..])
      invariant ScanK(cells, u, i, j, j + 1) == ScanK(cells, u, i, j, k)
    {
      var a, b, c := u[i], u[j], u[k];
      var allCandidates := grid[Idx(ps[a])].candidates + grid[Idx(ps[b])].candidates + grid[Idx(ps[c])].candidates;
      assert allCandidates == TripleUnion(cells, At(u, (i, j, k)));
      if |allCandidates| == 3 {
        var isNakedTriple := grid[Idx(ps[a])].candidates <= allCandidates && grid[Idx(ps[b])].candidates <= allCandidates
                             && grid[Idx(ps[c])].candidates <= allCandidates;
        if isNakedTriple {
          StripUpToEffect(grid[..], ps, (a, b, c), allCandidates, 9);
          var localChanged, e := StripOthers(grid, ps, (a, b, c), allCandidates);
          if localChanged {
            return Some((i, j, k)), e;
          }
        }
      }
    }
    return None, [];
  }

  /** The middle combination loop: second positions j after i. */
  method ScanSecond(grid: array<CellState>, ps: seq<Pos>, u: seq<int>, i: int, ghost cells: seq<CellState>)
    returns (r: Option<Triple>, elims: ElimMap)
    requires grid.Length == 81 && ValidUnit(ps) && ValidGrid(grid[..]) && IndexList(u) && 0 <= i < |u|
    requires AllValid(ps) && cells == UnitCells(grid[..], ps)
    modifies grid
    ensures r == ScanJ(cells, u, i, i + 1)
    ensures r.None? ==> grid[..] == old(grid[..])
    ensures r.Some? ==> (grid[..], elims) == StripUpTo(old(grid[..]), ps, At(u, r.value), TripleUnion(cells, At(u, r.value)), 9)
  {
    ScanJMeaning(cells, u, i, i + 1);
    for j := i + 1 to |u|
      invariant grid[..] == old(grid[..])
      invariant ScanJ(cells, u, i, i + 1) == ScanJ(cells, u, i, j)
    {
      r, elims := ScanThird(grid, ps, u, i, j, cells);
      if r.Some? {
        return;
      }
    }
    return None, [];
  }

  /** The outer combination loop. */
  method ScanFirst(grid: array<CellState>, ps: seq<Pos>, u: seq<int>, ghost cells: seq<CellState>)
    returns (r: Option<Triple>, elims: ElimMap)
    requires grid.Length == 81 && ValidUnit(ps) && ValidGrid(grid[..]) && IndexList(u)
    requires AllValid(ps) && cells == UnitCells(grid[..], ps)
    modifies grid
    ensures r == ScanI(cells, u, 0)
    ensures r.None? ==> grid[..] == old(grid[..])
    ensures r.Some? ==> (grid[..], elims) == StripUpTo(old(grid[..]), ps, At(u, r.value), TripleUnion(cells, At(u, r.value)), 9)
  {
    for i := 0 to |u|
      invariant grid[..] == old(grid[..])
      invariant ScanI(cells, u, 0) == ScanI(cells, u, i)
    {
      r, elims := ScanSecond(grid, ps, u, i, cells);
      if r.Some? {
        return;
      }
    }
    return None, [];
  }

  /** process_unit for unit k, on a scan that has not fired yet. */
  method ProcessUnit(grid: array<CellState>, k: int) returns (fired: bool, focus: seq<Pos>, elims: ElimMap)
    requires grid.Length == 81 && 0 <= k < UnitCount && ValidGrid(grid[..])
    modifies grid
    ensures fired <==> TripleHit(old(grid[..]), k).Some?
    ensures !fired ==> grid[..] == old(grid[..])
    ensures fired ==> (grid[..], focus, elims) == Fire(old(grid[..]), k)
  {
    UnitAtValid(k);
    UnitAtAllValid(k);
    var ps := UnitAt(k);
    ghost var cells := UnitCells(grid[..], ps);
    var u := EligibleIndices(grid, ps);
    if |u| < 3 {
      return false, [], [];
    }
    var r;
    r, elims := ScanFirst(grid, ps, u, cells);
    if r.None? {
      return false, [], [];
    }
    var t := At(u, r.value);
    fired, focus := true, [ps[t.0], ps[t.1], ps[t.2]];
  }

  /** process_all_units: once a unit has fired, the later units return at once. */
  method ProcessUnits(grid: array<CellState>) returns (changed: bool, focus: seq<Pos>, elims: ElimMap)
    requires grid.Length == 81 && ValidGrid(grid[..])
    modifies grid
    ensures (grid[..], focus, elims) == TripleScan(old(grid[..]))
    ensures changed <==> FirstUnit(old(grid[..]), 0).Some?
  {
    ghost var g0 := grid[..];
    changed, focus, elims := false, [], [];
    for k := 0 to UnitCount
      invariant !changed ==> grid[..] == g0 && FirstUnit(g0, 0) == FirstUnit(g0, k) && focus == [] && elims == []
      invariant changed ==> FirstUnit(g0, 0).Some? && (grid[..], focus, elims) == TripleScan(g0)
    {
      if !changed {
        var fired, f, e := ProcessUnit(grid, k);
        FirstUnitStep(g0, k);
        if fired {
          changed, focus, elims := true, f, e;
        }
      }
    }
  }

  /**
   * apply_one_naked_triple: update the candidates, scan the units, and
   * report (False, None) when no triple removed anything, else (True, step).
   */
  method ApplyOne(b: SudokuBoard) returns (changed: bool, step: Option<TechniqueStep>)
    requires b.Valid()
    modifies b.grid
    ensures b.Valid()
    ensures b.grid[..] == TriplePass(old(b.grid[..])).0
    ensures changed <==> b.grid[..] != PropagateAll(old(b.grid[..]))
    ensures !changed ==> step.None?
    ensures changed ==> step == Some(TripleStep(TriplePass(old(b.grid[..]))))
    ensures changed ==> |step.value.focusCells| == 3
  {
    ghost var g := b.grid[..];
    var _ := b.UpdateCandidates();
    var focus, elims;
    changed, focus, elims := ProcessUnits(b.grid);
    TriplePassEffect(g);
    TripleScanEffect(PropagateAll(g));
    NarrowsValid(g, b.grid[..]);
    if !changed {
      return false, None;
    }
    step := Some(MakeStep(Technique, EliminationText(Technique, elims), focus, None, Some(elims)));
  }

  /** The step apply_one_naked_triple reports for a scan that cut something. */
  function TripleStep(r: (Grid, seq<Pos>, ElimMap)): TechniqueStep {
    MakeStep(Technique, EliminationText(Technique, r.2), r.1, None, Some(r.2))
  }

  /**
   * One scan that cut something: on board g it gave board h and reported
   * step, whose map lists exactly the candidates the scan removed.
   */
  ghost predicate Link(g: Grid, h: Grid, step: TechniqueStep) {
    |g| == 81 && |h| == 81
    && h == TriplePass(g).0 && h != PropagateAll(g)
    && step == TripleStep(TriplePass(g))
    && RecordsRemovals(PropagateAll(g), h, step.eliminations)
  }

  /**
   * The boards gs[0], gs[1], ... that apply_all_naked_triples passes through:
   * scan k took gs[k] to gs[k + 1] and reported steps[k].
   */
  ghost predicate PassChain(gs: seq<Grid>, steps: seq<TechniqueStep>)
    decreases |steps|
  {
    |gs| == |steps| + 1
    && (steps == [] || (PassChain(gs[..|steps|], steps[..|steps| - 1])
                        && Link(gs[|steps| - 1], gs[|steps|], steps[|steps| - 1])))
  }

  /** Every link of a chain is a scan that cut something. */
  lemma {:induction false} PassChainAt(gs: seq<Grid>, steps: seq<TechniqueStep>, k: int)
    requires PassChain(gs, steps) && 0 <= k < |steps|
    ensures Link(gs[k], gs[k + 1], steps[k])
    decreases |steps|
  {
    if k < |steps| - 1 {
      PassChainAt(gs[..|steps|], steps[..|steps| - 1], k);
    }
  }

  /** One more scan that cut something extends the chain. */
  lemma PassChainExtend(gs: seq<Grid>, steps: seq<TechniqueStep>, h: Grid, step: TechniqueStep)
    requires PassChain(gs, steps) && Link(gs[|steps|], h, step)
    ensures PassChain(gs + [h], steps + [step]) && (gs + [h])[0] == gs[0] && (gs + [h])[|steps| + 1] == h
  {
    var gs', steps' := gs + [h], steps + [step];
    assert gs'[..|steps'|] == gs && steps'[..|steps'| - 1] == steps;
    assert gs'[|steps'| - 1] == gs[|steps|] && gs'[|steps'|] == h && steps'[|steps'| - 1] == step;
  }

  /** Appending a "Naked Triple" step with three focus cells keeps every step one. */
  lemma StepsSnoc(steps: seq<TechniqueStep>, step: TechniqueStep)
    requires forall k :: 0 <= k < |steps| ==> steps[k].technique == Technique && |steps[k].focusCells| == 3
    requires step.technique == Technique && |step.focusCells| == 3
    ensures var steps' := steps + [step];
      forall k :: 0 <= k < |steps'| ==> steps'[k].technique == Technique && |steps'[k].focusCells| == 3
  {
    var steps' := steps + [step];
    forall k | 0 <= k < |steps'| ensures steps'[k].technique == Technique && |steps'[k].focusCells| == 3 {
      if k < |steps| {
        assert steps'[k] == steps[k];
      }
    }
  }

  /** apply_all_naked_triples: repeat until a scan finds nothing, collecting the steps. */
  method ApplyAll(b: SudokuBoard) returns (changed: bool, steps: seq<TechniqueStep>, ghost gs: seq<Grid>)
    requires b.Valid()
    modifies b.grid
    ensures b.Valid()
    ensures PassChain(gs, steps) && gs[0] == old(b.grid[..]) && b.grid[..] == PropagateAll(gs[|steps|])
    ensures Narrows(old(b.grid[..]), b.grid[..])
    ensures TriplePass(b.grid[..]).0 == b.grid[..]
    ensures changed <==> |steps| > 0
    ensures !changed ==> b.grid[..] == PropagateAll(old(b.grid[..]))
    ensures forall k :: 0 <= k < |steps| ==> steps[k].technique == Technique && |steps[k].focusCells| == 3
  {
    ghost var g0 := b.grid[..];
    changed, steps, gs := false, [], [g0];
    while true
      invariant b.Valid()
      invariant Narrows(g0, b.grid[..])
      invariant changed <==> |steps| > 0
      invariant !changed ==> b.grid[..] == g0
      invariant forall k :: 0 <= k < |steps| ==> steps[k].technique == Technique && |steps[k].focusCells| == 3
      invariant PassChain(gs, steps) && gs[0] == g0 && gs[|steps|] == b.grid[..]
      decreases TotalCandidates(b.grid[..])
    {
      ghost var before := b.grid[..];
      var stepChanged, step := Round(b);
      NarrowsTrans(g0, before, b.grid[..]);
      if !stepChanged {
        break;
      }
      PassChainExtend(gs, steps, b.grid[..], step.value);
      StepsSnoc(steps, step.value);
      changed := true;
      steps := steps + [step.value];
      gs := gs + [b.grid[..]];
    }
  }

  /** One pass of the outer loop, with what the loop needs: progress, or a fixpoint. */
  method Round(b: SudokuBoard) returns (changed: bool, step: Option<TechniqueStep>)
    requires b.Valid()
    modifies b.grid
    ensures b.Valid() && Narrows(old(b.grid[..]), b.grid[..])
    ensures changed ==> TotalCandidates(b.grid[..]) < TotalCandidates(old(b.grid[..]))
    ensures changed ==> step.Some? && step.value.technique == Technique && |step.value.focusCells| == 3
    ensures changed ==> Link(old(b.grid[..]), b.grid[..], step.value)
    ensures !changed ==> b.grid[..] == PropagateAll(old(b.grid[..])) && TriplePass(b.grid[..]).0 == b.grid[..]
  {
    ghost var before := b.grid[..];
    changed, step := ApplyOne(b);
    TriplePassEffect(before);
    NarrowsTotal(before, PropagateAll(before));
    if !changed {
      PassFixpoint(before);
    }
  }
}
