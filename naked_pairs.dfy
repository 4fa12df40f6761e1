/**
 * Naked pairs (backend/logic/naked_pairs.py; logic/naked_pairs.py is the
 * same code). In every unit, the empty cells with exactly two candidates
 * are grouped by their candidate pair; a pair held by exactly two cells is
 * removed from every other empty cell of the unit.
 *
 * The source keys its groups by the sorted tuple of the pair. Two such
 * tuples are equal exactly when the pairs are, so here the groups are
 * keyed by the pair itself.
 */
module NakedPairs {
  import opened Cells
  import opened Geometry
  import opened Board
  import opened Units

  /** An entry of the pairs dict: a candidate pair and the unit indices of the cells holding exactly it. */
  datatype PairGroup = PairGroup(key: set<int>, members: seq<int>)

  /** A cell the grouping looks at: empty, with exactly two candidates. */
  predicate PairCell(c: CellState) {
    !Solved(c) && |c.candidates| == 2
  }

  // ---------------------------------------------------------------------
  // The pairs dict of one unit

  /** pairs.setdefault(key, []).append(idx) */
  function AddMember(gs: seq<PairGroup>, key: set<int>, idx: int): seq<PairGroup>
    decreases |gs|
  {
    if gs == [] then [PairGroup(key, [idx])]
    else if gs[0].key == key then [PairGroup(key, gs[0].members + [idx])] + gs[1..]
    else [gs[0]] + AddMember(gs[1..], key, idx)
  }

  /** The pairs dict after looking at the cells of the unit below n. */
  function Groups(cells: seq<CellState>, n: int): seq<PairGroup>
    requires 0 <= n <= |cells|
  {
    if n == 0 then []
    else
      var gs := Groups(cells, n - 1);
      if PairCell(cells[n - 1]) then AddMember(gs, cells[n - 1].candidates, n - 1) else gs
  }

  /** The cells below n that group under key, in ascending order: what pairs[key] should hold. */
  function Holding(cells: seq<CellState>, key: set<int>, n: int): (h: seq<int>)
    requires 0 <= n <= |cells|
    ensures forall i :: i in h <==> 0 <= i < n && PairCell(cells[i]) && cells[i].candidates == key
    ensures forall a, b :: 0 <= a < b < |h| ==> h[a] < h[b]
  {
    if n == 0 then []
    else
      var h := Holding(cells, key, n - 1);
      assert forall a :: 0 <= a < |h| ==> h[a] in h;
      if PairCell(cells[n - 1]) && cells[n - 1].candidates == key then h + [n - 1] else h
  }

  predicate KeysDistinct(gs: seq<PairGroup>) {
    forall a, b :: 0 <= a < b < |gs| ==> gs[a].key != gs[b].key
  }

  /** What AddMember does to the entries: the key's list grows by idx, every other list stays. */
  lemma {:induction false} AddMemberEffect(gs: seq<PairGroup>, key: set<int>, idx: int)
    requires KeysDistinct(gs)
    ensures KeysDistinct(AddMember(gs, key, idx))
    ensures forall j :: 0 <= j < |AddMember(gs, key, idx)| ==>
      var e := AddMember(gs, key, idx)[j];
      (e.key == key && e.members == (if key in KeysOf(gs) then MembersOf(gs, key) else []) + [idx])
      || (e.key != key && e.key in KeysOf(gs) && e.members == MembersOf(gs, e.key))
    ensures KeysOf(AddMember(gs, key, idx)) == KeysOf(gs) + {key}
    decreases |gs|
  {
    var r := AddMember(gs, key, idx);
    if gs != [] {
      var t := gs[1..];
      assert KeysDistinct(t) by {
        forall a, b | 0 <= a < b < |t| ensures t[a].key != t[b].key {
          assert t[a] == gs[a + 1] && t[b] == gs[b + 1];
        }
      }
      KeysOfCons(gs);
      if gs[0].key == key {
        assert r[1..] == t;
        forall j | 1 <= j < |r| ensures r[j].key != key && r[j].key in KeysOf(gs) && r[j].members == MembersOf(gs, r[j].key) {
          assert r[j] == gs[j];
          MembersOfAt(gs, j);
          KeysOfMeaning(gs, r[j].key);
        }
        assert MembersOf(gs, key) == gs[0].members;
      } else {
        AddMemberEffect(t, key, idx);
        var rt := AddMember(t, key, idx);
        assert r == [gs[0]] + rt;
        assert gs[0].key !in KeysOf(t) by {
          forall j | 0 <= j < |t| ensures t[j].key != gs[0].key {
            assert t[j] == gs[j + 1];
          }
          KeysOfMeaning(t, gs[0].key);
        }
        assert KeysDistinct(r) by {
          forall a, b | 0 <= a < b < |r| ensures r[a].key != r[b].key {
            assert r[b] == rt[b - 1];
            KeysOfMeaning(rt, rt[b - 1].key);
            if a > 0 { assert r[a] == rt[a - 1]; }
          }
        }
        assert MembersOf(gs, gs[0].key) == gs[0].members;
        forall j | 1 <= j < |r| ensures r[j].key in KeysOf(t) || r[j].key == key {
          assert r[j] == rt[j - 1];
        }
        forall w | w != gs[0].key ensures MembersOf(gs, w) == MembersOf(t, w) {
        }
      }
    }
  }

  /** The keys of the dict. */
  function KeysOf(gs: seq<PairGroup>): set<set<int>>
    decreases |gs|
  {
    if gs == [] then {} else {gs[0].key} + KeysOf(gs[1..])
  }

  /** pairs.get(key, []) */
  function MembersOf(gs: seq<PairGroup>, key: set<int>): seq<int>
    decreases |gs|
  {
    if gs == [] then [] else if gs[0].key == key then gs[0].members else MembersOf(gs[1..], key)
  }

  lemma KeysOfCons(gs: seq<PairGroup>)
    requires gs != []
    ensures KeysOf(gs) == {gs[0].key} + KeysOf(gs[1..])
  {
  }

  lemma {:induction false} KeysOfMeaning(gs: seq<PairGroup>, key: set<int>)
    ensures key in KeysOf(gs) <==> exists j :: 0 <= j < |gs| && gs[j].key == key
    decreases |gs|
  {
    if gs != [] {
      KeysOfMeaning(gs[1..], key);
      if key in KeysOf(gs[1..]) {
        var j :| 0 <= j < |gs| - 1 && gs[1..][j].key == key;
        assert gs[j + 1].key == key;
      }
      if exists j :: 0 <= j < |gs| && gs[j].key == key {
        var j :| 0 <= j < |gs| && gs[j].key == key;
        if j > 0 { assert gs[1..][j - 1].key == key; }
      }
    }
  }

  /** In a dict, the list stored at position j is the one its key looks up. */
  lemma {:induction false} MembersOfAt(gs: seq<PairGroup>, j: int)
    requires KeysDistinct(gs) && 0 <= j < |gs|
    ensures MembersOf(gs, gs[j].key) == gs[j].members
    decreases |gs|
  {
    if j > 0 {
      var t := gs[1..];
      assert t[j - 1] == gs[j];
      assert gs[0].key != gs[j].key;
      assert KeysDistinct(t) by {
        forall a, b | 0 <= a < b < |t| ensures t[a].key != t[b].key {
          assert t[a] == gs[a + 1] && t[b] == gs[b + 1];
        }
      }
      MembersOfAt(t, j - 1);
    }
  }

  /**
   * The dict the loop builds: no key twice, each key present exactly when
   * some grouped cell holds it, and each list the ascending indices of the
   * cells holding exactly that pair.
   */
  lemma {:induction false} GroupsMeaning(cells: seq<CellState>, n: int)
    requires 0 <= n <= |cells|
    ensures KeysDistinct(Groups(cells, n))
    ensures forall key :: MembersOf(Groups(cells, n), key) == Holding(cells, key, n)
    ensures forall j :: 0 <= j < |Groups(cells, n)| ==>
      Groups(cells, n)[j].members == Holding(cells, Groups(cells, n)[j].key, n)
    ensures forall key :: key in KeysOf(Groups(cells, n)) <==> |Holding(cells, key, n)| > 0
    decreases n
  {
    var gs := Groups(cells, n);
    if n > 0 {
      GroupsMeaning(cells, n - 1);
      var pre := Groups(cells, n - 1);
      if PairCell(cells[n - 1]) {
        GroupsPairStep(cells, n - 1, n);
      } else {
        assert gs == pre;
        forall w ensures Holding(cells, w, n) == Holding(cells, w, n - 1) {
        }
      }
      forall j | 0 <= j < |gs| ensures gs[j].members == Holding(cells, gs[j].key, n) {
        MembersOfAt(gs, j);
      }
    }
  }

  /** Grouping one more pair cell keeps the dict exact. */
  lemma GroupsPairStep(cells: seq<CellState>, m: int, n: int)
    requires 0 <= m < |cells| && n == m + 1 && PairCell(cells[m])
    requires KeysDistinct(Groups(cells, m))
    requires forall key :: MembersOf(Groups(cells, m), key) == Holding(cells, key, m)
    requires forall key :: key in KeysOf(Groups(cells, m)) <==> |Holding(cells, key, m)| > 0
    ensures KeysDistinct(Groups(cells, n))
    ensures forall key :: MembersOf(Groups(cells, n), key) == Holding(cells, key, n)
    ensures forall key :: key in KeysOf(Groups(cells, n)) <==> |Holding(cells, key, n)| > 0
  {
    var pre := Groups(cells, m);
    var key := cells[m].candidates;
    var gs := AddMember(pre, key, m);
    assert Groups(cells, n) == gs;
    AddMemberEffect(pre, key, m);
    forall w ensures MembersOf(gs, w) == Holding(cells, w, n) {
      MembersOfAll(pre, key, m, w);
      if |Holding(cells, w, m)| == 0 && w != key {
        assert Holding(cells, w, m) == [];
      }
    }
    forall w ensures w in KeysOf(gs) <==> |Holding(cells, w, n)| > 0 {
      if w != key {
        assert Holding(cells, w, n) == Holding(cells, w, m);
      } else {
        assert m in Holding(cells, w, n);
      }
    }
  }

  /** How a lookup changes when idx is appended under key. */
  lemma MembersOfAll(gs: seq<PairGroup>, key: set<int>, idx: int, w: set<int>)
    requires KeysDistinct(gs)
    ensures MembersOf(AddMember(gs, key, idx), w) ==
      if w == key then MembersOf(gs, key) + [idx] else MembersOf(gs, w)
    decreases |gs|
  {
    if gs != [] && gs[0].key != key {
      var t := gs[1..];
      assert KeysDistinct(t) by {
        forall a, b | 0 <= a < b < |t| ensures t[a].key != t[b].key {
          assert t[a] == gs[a + 1] && t[b] == gs[b + 1];
        }
      }
      MembersOfAll(t, key, idx, w);
    }
  }

  // ---------------------------------------------------------------------
  // Eliminating one pair, and all pairs of a unit

  /**
   * The inner elimination loop for one pair, over the unit indices below
   * n: every empty cell that is not one of the pair's cells loses the
   * pair's values. Cells are read as they are at that moment.
   */
  function StripFrom(g: Grid, ps: seq<Pos>, members: seq<int>, vs: set<int>, n: int): (h: Grid)
    requires |g| == 81 && ValidUnit(ps) && 0 <= n <= 9
    ensures |h| == 81
  {
    if n == 0 then g
    else
      var h := StripFrom(g, ps, members, vs, n - 1);
      var i := Idx(ps[n - 1]);
      if n - 1 !in members && !Solved(h[i]) then h[i := AssignCandidates(h[i], h[i].candidates - vs)] else h
  }

  /** The pairs loop of process_unit over the first j entries: only entries with exactly two cells fire. */
  function ApplyGroups(g: Grid, ps: seq<Pos>, gs: seq<PairGroup>, j: int): (h: Grid)
    requires |g| == 81 && ValidUnit(ps) && 0 <= j <= |gs|
    ensures |h| == 81
  {
    if j == 0 then g
    else
      var h := ApplyGroups(g, ps, gs, j - 1);
      if |gs[j - 1].members| == 2 then StripFrom(h, ps, gs[j - 1].members, gs[j - 1].key, 9) else h
  }

  /** The pairs dict of unit k, built from the board as the unit is entered. */
  function UnitGroups(g: Grid, k: int): seq<PairGroup>
    requires |g| == 81 && 0 <= k < UnitCount
  {
    UnitAtAllValid(k);
    Groups(UnitCells(g, UnitAt(k)), 9)
  }

  /** process_unit for unit k. */
  function PairUnit(g: Grid, k: int): (h: Grid)
    requires |g| == 81 && 0 <= k < UnitCount
    ensures |h| == 81
  {
    UnitAtValid(k);
    ApplyGroups(g, UnitAt(k), UnitGroups(g, k), |UnitGroups(g, k)|)
  }

  /** The units below k processed in order, each seeing the eliminations of those before. */
  function PairUnits(g: Grid, k: int): (h: Grid)
    requires |g| == 81 && 0 <= k <= UnitCount
    ensures |h| == 81
  {
    if k == 0 then g else PairUnit(PairUnits(g, k - 1), k - 1)
  }

  /** apply_one_naked_pair's board: update_candidates, then all 27 units. */
  function NakedPairPass(g: Grid): (h: Grid)
    requires |g| == 81
    ensures |h| == 81
  {
    PairUnits(PropagateAll(g), UnitCount)
  }

  // ---------------------------------------------------------------------
  // What a unit loses

  /** Cells a and b of the unit hold the same two candidates, and no other cell of the unit holds exactly those. */
  predicate NakedPair(cells: seq<CellState>, a: int, b: int)
    requires |cells| == 9
  {
    0 <= a < 9 && 0 <= b < 9 && a != b
    && PairCell(cells[a]) && PairCell(cells[b]) && cells[a].candidates == cells[b].candidates
    && forall c :: 0 <= c < 9 && c != a && c != b ==> !(PairCell(cells[c]) && cells[c].candidates == cells[a].candidates)
  }

  /** The values cell x of the unit loses: those of every naked pair of the unit not containing x. */
  ghost function PairEliminated(cells: seq<CellState>, x: int): set<int>
    requires |cells| == 9
  {
    set a, b, v | 0 <= a < 9 && 0 <= b < 9 && NakedPair(cells, a, b) && x != a && x != b && v in cells[a].candidates :: v
  }

  /** The values the first j entries take from unit index x. */
  function Stripped(gs: seq<PairGroup>, x: int, j: int): set<int>
    requires 0 <= j <= |gs|
  {
    if j == 0 then {}
    else Stripped(gs, x, j - 1) + (if |gs[j - 1].members| == 2 && x !in gs[j - 1].members then gs[j - 1].key else {})
  }

  /** One pair's loop removes vs from the empty non-member cells of the unit and changes nothing else. */
  lemma {:induction false} StripFromEffect(g: Grid, ps: seq<Pos>, members: seq<int>, vs: set<int>, n: int)
    requires |g| == 81 && ValidUnit(ps) && 0 <= n <= 9
    ensures forall a :: 0 <= a < 9 ==>
      StripFrom(g, ps, members, vs, n)[Idx(ps[a])] ==
      if a < n && a !in members && !Solved(g[Idx(ps[a])])
      then AssignCandidates(g[Idx(ps[a])], g[Idx(ps[a])].candidates - vs) else g[Idx(ps[a])]
    ensures forall j :: 0 <= j < 81 && (forall a :: 0 <= a < 9 ==> Idx(ps[a]) != j) ==>
      StripFrom(g, ps, members, vs, n)[j] == g[j]
    decreases n
  {
    if n > 0 {
      StripFromEffect(g, ps, members, vs, n - 1);
      forall a | 0 <= a < 9 && a != n - 1 ensures Idx(ps[a]) != Idx(ps[n - 1]) {
        IdxDistinct(ps[a], ps[n - 1]);
      }
    }
  }

  /** The entries of a unit together remove from each empty cell the union of the fired pairs it is not in. */
  lemma {:induction false} ApplyGroupsEffect(g: Grid, ps: seq<Pos>, gs: seq<PairGroup>, j: int)
    requires |g| == 81 && ValidUnit(ps) && 0 <= j <= |gs|
    ensures forall a :: 0 <= a < 9 ==>
      ApplyGroups(g, ps, gs, j)[Idx(ps[a])] ==
      if !Solved(g[Idx(ps[a])])
      then AssignCandidates(g[Idx(ps[a])], g[Idx(ps[a])].candidates - Stripped(gs, a, j)) else g[Idx(ps[a])]
    ensures forall i :: 0 <= i < 81 && (forall a :: 0 <= a < 9 ==> Idx(ps[a]) != i) ==>
      ApplyGroups(g, ps, gs, j)[i] == g[i]
    decreases j
  {
    if j == 0 {
      forall a | 0 <= a < 9 ensures g[Idx(ps[a])].candidates - {} == g[Idx(ps[a])].candidates {
      }
    } else {
      ApplyGroupsEffect(g, ps, gs, j - 1);
      var h := ApplyGroups(g, ps, gs, j - 1);
      if |gs[j - 1].members| == 2 {
        StripFromEffect(h, ps, gs[j - 1].members, gs[j - 1].key, 9);
      }
    }
  }

  /** The union of fired entries a cell is not in is the set of values of the naked pairs it is not in. */
  lemma StrippedIsPairEliminated(cells: seq<CellState>, x: int)
    requires |cells| == 9 && 0 <= x < 9
    ensures Stripped(Groups(cells, 9), x, |Groups(cells, 9)|) == PairEliminated(cells, x)
  {
    var gs := Groups(cells, 9);
    GroupsMeaning(cells, 9);
    StrippedMeaning(gs, x, |gs|);
    forall v | v in Stripped(gs, x, |gs|) ensures v in PairEliminated(cells, x) {
      var j :| 0 <= j < |gs| && |gs[j].members| == 2 && x !in gs[j].members && v in gs[j].key;
      var m := gs[j].members;
      assert m[0] in m && m[1] in m;
      assert NakedPair(cells, m[0], m[1]);
    }
    forall v | v in PairEliminated(cells, x) ensures v in Stripped(gs, x, |gs|) {
      var a, b :| 0 <= a < 9 && 0 <= b < 9 && NakedPair(cells, a, b) && x != a && x != b && v in cells[a].candidates;
      var key := cells[a].candidates;
      var h := Holding(cells, key, 9);
      OnlyTwo(h, a, b);
      assert key in KeysOf(gs);
      KeysOfMeaning(gs, key);
      var j :| 0 <= j < |gs| && gs[j].key == key;
      assert gs[j].members == h;
    }
  }

  /** An ascending list holding exactly a and b is [a, b] or [b, a]. */
  lemma OnlyTwo(h: seq<int>, a: int, b: int)
    requires a != b && a in h && b in h && forall i :: i in h ==> i == a || i == b
    requires forall p, q :: 0 <= p < q < |h| ==> h[p] < h[q]
    ensures |h| == 2
  {
    DistinctCard(h);
    assert (set x | x in h) == {a, b};
  }

  /** Membership in the union of fired entries. */
  lemma {:induction false} StrippedMeaning(gs: seq<PairGroup>, x: int, j: int)
    requires 0 <= j <= |gs|
    ensures forall v :: v in Stripped(gs, x, j) <==>
      exists e :: 0 <= e < j && |gs[e].members| == 2 && x !in gs[e].members && v in gs[e].key
    decreases j
  {
    if j > 0 {
      StrippedMeaning(gs, x, j - 1);
    }
  }

  /**
   * process_unit as a whole: each empty cell of unit k loses exactly the
   * values of the naked pairs of the unit it does not belong to, the pairs
   * judged on the unit as it was entered; no other cell changes.
   */
  lemma PairUnitEffect(g: Grid, k: int)
    requires |g| == 81 && 0 <= k < UnitCount
    ensures AllValid(UnitAt(k)) && |UnitAt(k)| == 9
    ensures forall a :: 0 <= a < 9 ==>
      var c := g[Idx(UnitAt(k)[a])];
      PairUnit(g, k)[Idx(UnitAt(k)[a])] ==
        if Solved(c) then c else AssignCandidates(c, c.candidates - PairEliminated(UnitCells(g, UnitAt(k)), a))
    ensures forall i :: 0 <= i < 81 && (forall a :: 0 <= a < 9 ==> Idx(UnitAt(k)[a]) != i) ==> PairUnit(g, k)[i] == g[i]
  {
    UnitAtValid(k);
    UnitAtAllValid(k);
    var cells := UnitCells(g, UnitAt(k));
    var gs := UnitGroups(g, k);
    ApplyGroupsEffect(g, UnitAt(k), gs, |gs|);
    forall a | 0 <= a < 9 ensures Stripped(gs, a, |gs|) == PairEliminated(cells, a) {
      StrippedIsPairEliminated(cells, a);
    }
  }

  // ---------------------------------------------------------------------
  // Frames

  /** One pair's loop only narrows the board. */
  lemma StripFromNarrows(g: Grid, ps: seq<Pos>, members: seq<int>, vs: set<int>, n: int)
    requires |g| == 81 && ValidUnit(ps) && 0 <= n <= 9
    ensures Narrows(g, StripFrom(g, ps, members, vs, n))
  {
    StripFromEffect(g, ps, members, vs, n);
    var h := StripFrom(g, ps, members, vs, n);
    forall i | 0 <= i < 81
      ensures h[i].value == g[i].value && h[i].isInitial == g[i].isInitial && h[i].candidates <= g[i].candidates
      ensures Solved(g[i]) ==> h[i] == g[i]
    {
      if exists a :: 0 <= a < 9 && Idx(ps[a]) == i {
        var a :| 0 <= a < 9 && Idx(ps[a]) == i;
      }
    }
  }

  /** A unit's pairs only narrow the board. */
  lemma {:induction false} ApplyGroupsNarrows(g: Grid, ps: seq<Pos>, gs: seq<PairGroup>, j: int)
    requires |g| == 81 && ValidUnit(ps) && 0 <= j <= |gs|
    ensures Narrows(g, ApplyGroups(g, ps, gs, j))
    decreases j
  {
    if j > 0 {
      ApplyGroupsNarrows(g, ps, gs, j - 1);
      var h := ApplyGroups(g, ps, gs, j - 1);
      if |gs[j - 1].members| == 2 {
        StripFromNarrows(h, ps, gs[j - 1].members, gs[j - 1].key, 9);
        NarrowsTrans(g, h, ApplyGroups(g, ps, gs, j));
      }
    }
  }

  /** One unit pass only narrows the board. */
  lemma PairUnitNarrows(g: Grid, k: int)
    requires |g| == 81 && 0 <= k < UnitCount
    ensures Narrows(g, PairUnit(g, k))
  {
    UnitAtValid(k);
    ApplyGroupsNarrows(g, UnitAt(k), UnitGroups(g, k), |UnitGroups(g, k)|);
  }

  /** The unit passes only narrow the board. */
  lemma {:induction false} PairUnitsNarrows(g: Grid, k: int)
    requires |g| == 81 && 0 <= k <= UnitCount
    ensures Narrows(g, PairUnits(g, k))
    decreases k
  {
    if k > 0 {
      PairUnitsNarrows(g, k - 1);
      var h := PairUnits(g, k - 1);
      PairUnitNarrows(h, k - 1);
      NarrowsTrans(g, h, PairUnits(g, k));
    }
  }

  /**
   * apply_one_naked_pair only narrows: values and solved cells stay and
   * candidates only shrink; so a pass that changes the board removes at
   * least one candidate.
   */
  lemma NakedPairPassNarrows(g: Grid)
    requires |g| == 81
    ensures Narrows(g, NakedPairPass(g)) && Narrows(PropagateAll(g), NakedPairPass(g))
    ensures TotalCandidates(NakedPairPass(g)) <= TotalCandidates(PropagateAll(g)) <= TotalCandidates(g)
    ensures NakedPairPass(g) != PropagateAll(g) <==> TotalCandidates(NakedPairPass(g)) < TotalCandidates(PropagateAll(g))
  {
    PairUnitsNarrows(PropagateAll(g), UnitCount);
    NarrowsTrans(g, PropagateAll(g), NakedPairPass(g));
    NarrowsTotal(g, PropagateAll(g));
    NarrowsTotal(PropagateAll(g), NakedPairPass(g));
  }

  /** On a board update_candidates leaves alone, a pass that changes nothing is a fixpoint of the pass. */
  lemma PassFixpoint(g: Grid)
    requires |g| == 81 && NakedPairPass(g) == PropagateAll(g)
    ensures NakedPairPass(NakedPairPass(g)) == NakedPairPass(g)
  {
    PropagateIdempotent(g);
  }

  /** Removing values from one empty cell narrows the board. */
  lemma CellStripNarrows(g: Grid, i: int, vs: set<int>)
    requires 0 <= i < |g| && !Solved(g[i])
    ensures Narrows(g, g[i := AssignCandidates(g[i], g[i].candidates - vs)])
  {
  }

  /** Both grids agree and the flag tells whether the second lost candidates against the first. */
  lemma FlagStep(g0: Grid, g1: Grid, g2: Grid)
    requires Narrows(g0, g1) && Narrows(g1, g2)
    ensures Narrows(g0, g2)
    ensures TotalCandidates(g2) <= TotalCandidates(g1) <= TotalCandidates(g0)
    ensures g2 != g1 ==> TotalCandidates(g2) < TotalCandidates(g1)
  {
    NarrowsTrans(g0, g1, g2);
    NarrowsTotal(g0, g1);
    NarrowsTotal(g1, g2);
  }

  // ---------------------------------------------------------------------
  // The loops

  /** The grouping loop of process_unit. */
  method BuildGroups(grid: array<CellState>, ps: seq<Pos>) returns (gs: seq<PairGroup>)
    requires grid.Length == 81 && ValidUnit(ps)
    ensures gs == Groups(UnitCells(grid[..], ps), 9)
  {
    gs := [];
    for idx := 0 to 9
      invariant gs == Groups(UnitCells(grid[..], ps), idx)
    {
      var cell := grid[Idx(ps[idx])];
      if !Solved(cell) && |cell.candidates| == 2 {
        gs := AddMember(gs, cell.candidates, idx);
      }
    }
  }

  /** The elimination loop of one naked pair; the flag reports whether any set shrank. */
  method StripOthers(grid: array<CellState>, ps: seq<Pos>, members: seq<int>, vs: set<int>) returns (changed: bool)
    requires grid.Length == 81 && ValidUnit(ps)
    modifies grid
    ensures grid[..] == StripFrom(old(grid[..]), ps, members, vs, 9)
    ensures changed <==> grid[..] != old(grid[..])
  {
    ghost var g0 := grid[..];
    changed := false;
    for idx := 0 to 9
      invariant grid[..] == StripFrom(g0, ps, members, vs, idx)
      invariant Narrows(g0, grid[..])
      invariant changed <==> TotalCandidates(grid[..]) < TotalCandidates(g0)
    {
      ghost var before := grid[..];
      var i := Idx(ps[idx]);
      var cell := grid[i];
      if idx !in members && !Solved(cell) {
        var current := cell.candidates;
        var newCandidates := current - vs;
        CellStripNarrows(before, i, vs);
        if newCandidates != current {
          grid[i] := AssignCandidates(cell, newCandidates);
          changed := true;
        } else {
          assert before[i := AssignCandidates(cell, newCandidates)] == before;
        }
      }
      FlagStep(g0, before, grid[..]);
    }
    NarrowsTotal(g0, grid[..]);
  }

  /** process_unit: group the unit's pair cells, then eliminate every pair held by exactly two. */
  method ProcessUnit(grid: array<CellState>, k: int) returns (changed: bool)
    requires grid.Length == 81 && 0 <= k < UnitCount
    modifies grid
    ensures grid[..] == PairUnit(old(grid[..]), k)
    ensures changed <==> grid[..] != old(grid[..])
  {
    ghost var g0 := grid[..];
    UnitAtValid(k);
    UnitAtAllValid(k);
    var ps := UnitAt(k);
    var gs := BuildGroups(grid, ps);
    changed := false;
    for j := 0 to |gs|
      invariant grid[..] == ApplyGroups(g0, ps, gs, j)
      invariant Narrows(g0, grid[..])
      invariant changed <==> TotalCandidates(grid[..]) < TotalCandidates(g0)
    {
      ghost var before := grid[..];
      if |gs[j].members| == 2 {
        StripFromNarrows(before, ps, gs[j].members, gs[j].key, 9);
        var stripped := StripOthers(grid, ps, gs[j].members, gs[j].key);
        changed := changed || stripped;
      }
      FlagStep(g0, before, grid[..]);
    }
    NarrowsTotal(g0, grid[..]);
  }

  /** The three unit loops of apply_one_naked_pair: rows, columns, boxes, in the order of the unit schedule. */
  method ProcessUnits(grid: array<CellState>) returns (changed: bool)
    requires grid.Length == 81
    modifies grid
    ensures grid[..] == PairUnits(old(grid[..]), UnitCount)
    ensures changed <==> grid[..] != old(grid[..])
  {
    ghost var h0 := grid[..];
    changed := false;
    for k := 0 to UnitCount
      invariant grid[..] == PairUnits(h0, k)
      invariant changed <==> TotalCandidates(grid[..]) < TotalCandidates(h0)
    {
      var unitChanged := ProcessUnit(grid, k);
      changed := changed || unitChanged;
      UnitsStep(h0, k);
    }
    PairUnitsNarrows(h0, UnitCount);
    NarrowsTotal(h0, grid[..]);
  }

  /** One more unit processed: the board still narrows, and the pass has removed something iff it had or this unit did. */
  lemma UnitsStep(h0: Grid, k: int)
    requires |h0| == 81 && 0 <= k < UnitCount
    ensures TotalCandidates(PairUnits(h0, k + 1)) < TotalCandidates(h0) <==>
      TotalCandidates(PairUnits(h0, k)) < TotalCandidates(h0) || PairUnits(h0, k + 1) != PairUnits(h0, k)
  {
    var g1 := PairUnits(h0, k);
    var g2 := PairUnit(g1, k);
    assert PairUnits(h0, k + 1) == g2;
    PairUnitsNarrows(h0, k);
    PairUnitNarrows(g1, k);
    FlagStep(h0, g1, g2);
  }

  /**
   * apply_one_naked_pair: update the candidates, then process every unit;
   * the result says whether any candidate went.
   */
  method ApplyOne(b: SudokuBoard) returns (changed: bool)
    requires b.Valid()
    modifies b.grid
    ensures b.Valid()
    ensures b.grid[..] == NakedPairPass(old(b.grid[..]))
    ensures changed <==> b.grid[..] != PropagateAll(old(b.grid[..]))
  {
    ghost var g := b.grid[..];
    var _ := b.UpdateCandidates();
    changed := ProcessUnits(b.grid);
    NakedPairPassNarrows(g);
    NarrowsValid(g, b.grid[..]);
  }

  /** apply_all_naked_pairs: repeat until a pass removes nothing. */
  method ApplyAll(b: SudokuBoard) returns (changed: bool)
    requires b.Valid()
    modifies b.grid
    ensures b.Valid()
    ensures Narrows(old(b.grid[..]), b.grid[..])
    ensures NakedPairPass(b.grid[..]) == b.grid[..]
    ensures !changed ==> b.grid[..] == PropagateAll(old(b.grid[..]))
    ensures changed ==> TotalCandidates(b.grid[..]) < TotalCandidates(PropagateAll(old(b.grid[..])))
  {
    ghost var g0 := b.grid[..];
    changed := false;
    while true
      invariant b.Valid()
      invariant Narrows(g0, b.grid[..])
      invariant !changed ==> b.grid[..] == g0
      invariant changed ==> TotalCandidates(b.grid[..]) < TotalCandidates(PropagateAll(g0))
      decreases TotalCandidates(b.grid[..])
    {
      ghost var before := b.grid[..];
      var stepChanged := ApplyOne(b);
      NakedPairPassNarrows(before);
      NarrowsTrans(g0, before, b.grid[..]);
      if !stepChanged {
        PassFixpoint(before);
        break;
      }
      changed := true;
    }
  }
}
