/**
 * The plain integer grid that the backtracking oracles search: 81 cells
 * stored row-major (cell (r, c) at index 9 * r + c), 0 for an empty cell.
 *
 * A completion of a grid keeps every non-zero cell and writes into every
 * empty cell a digit 1..9 that no other cell of its row, column or box
 * holds in the completion. Cells that were given are not checked against
 * each other: a full grid with a repeated digit is its own completion,
 * just as the oracles accept it. Solutions(g) is the set of leaves the
 * search reaches; SolutionsMeaning proves it is exactly the set of
 * completions, and the oracles are specified by it.
 */
module Search {
  import opened Wrappers
  import opened Geometry

  type IntGrid = seq<int>

  /** The nine rows of a nested 9x9 list laid out row-major, as a row[:] copy of each row holds them. */
  function Flatten(rows: seq<seq<int>>): (g: IntGrid)
    requires NineByNine(rows)
    ensures |g| == 81
    ensures forall i :: 0 <= i < 81 ==> g[i] == rows[i / 9][i % 9]
  {
    seq(81, i requires 0 <= i < 81 => rows[i / 9][i % 9])
  }

  /** No grid cell is empty. */
  predicate NoEmpty(g: IntGrid) {
    forall i :: 0 <= i < |g| ==> g[i] != 0
  }

  /** n occurs in no cell that shares a row, column or box with p (p itself included). */
  predicate Fits(g: IntGrid, p: Pos, n: int)
    requires |g| == 81
  {
    forall j :: 0 <= j < 81 && SharesUnit(p, PosOf(j)) ==> g[j] != n
  }

  // ---------------------------------------------------------------------
  // get_candidates
  // ---------------------------------------------------------------------

  function RowCell(g: IntGrid, r: int, c: int): int
    requires |g| == 81 && 0 <= r < 9 && 0 <= c < 9
  {
    g[9 * r + c]
  }

  /** Offset k of the box whose top-left cell is (sr, sc), read row by row. */
  function BoxCell(g: IntGrid, sr: int, sc: int, k: int): int
    requires |g| == 81 && 0 <= sr <= 6 && 0 <= sc <= 6 && 0 <= k < 9
  {
    g[9 * (sr + k / 3) + sc + k % 3]
  }

  function RowValues(g: IntGrid, r: int): set<int>
    requires |g| == 81 && 0 <= r < 9
  {
    set c | 0 <= c < 9 :: RowCell(g, r, c)
  }

  function ColValues(g: IntGrid, c: int): set<int>
    requires |g| == 81 && 0 <= c < 9
  {
    set r | 0 <= r < 9 :: RowCell(g, r, c)
  }

  function BoxValues(g: IntGrid, sr: int, sc: int): set<int>
    requires |g| == 81 && 0 <= sr <= 6 && 0 <= sc <= 6
  {
    set k | 0 <= k < 9 :: BoxCell(g, sr, sc, k)
  }

  /** The `used` set: the values of p's row, column and box, zeros included. */
  function UsedValues(g: IntGrid, p: Pos): set<int>
    requires |g| == 81 && ValidPos(p)
  {
    RowValues(g, p.0) + ColValues(g, p.1) + BoxValues(g, p.0 / 3 * 3, p.1 / 3 * 3)
  }

  lemma DivMod3(a: int, b: int)
    requires 0 <= a < 3 && 0 <= b < 3
    ensures (3 * a + b) / 3 == a && (3 * a + b) % 3 == b
  {
  }

  /** The value of every cell sharing a unit with p is in the used set. */
  lemma UsedHas(g: IntGrid, p: Pos, j: int)
    requires |g| == 81 && ValidPos(p) && 0 <= j < 81 && SharesUnit(p, PosOf(j))
    ensures g[j] in UsedValues(g, p)
  {
    var q := PosOf(j);
    if q.0 == p.0 {
      assert RowCell(g, p.0, q.1) in RowValues(g, p.0);
    } else if q.1 == p.1 {
      assert RowCell(g, q.0, p.1) in ColValues(g, p.1);
    } else {
      var sr, sc := p.0 / 3 * 3, p.1 / 3 * 3;
      var k := 3 * (q.0 % 3) + q.1 % 3;
      DivMod3(q.0 % 3, q.1 % 3);
      assert 9 * (sr + k / 3) + sc + k % 3 == j;
      assert BoxCell(g, sr, sc, k) in BoxValues(g, sr, sc);
    }
  }

  /** Every used value is held by some cell sharing a unit with p. */
  lemma UsedFrom(g: IntGrid, p: Pos, n: int)
    requires |g| == 81 && ValidPos(p) && n in UsedValues(g, p)
    ensures !Fits(g, p, n)
  {
    if n in RowValues(g, p.0) {
      var c :| 0 <= c < 9 && RowCell(g, p.0, c) == n;
      UsedAt(g, p, (p.0, c), n);
    } else if n in ColValues(g, p.1) {
      var r :| 0 <= r < 9 && RowCell(g, r, p.1) == n;
      UsedAt(g, p, (r, p.1), n);
    } else {
      var sr, sc := p.0 / 3 * 3, p.1 / 3 * 3;
      var k :| 0 <= k < 9 && BoxCell(g, sr, sc, k) == n;
      UsedInBox(g, p, k, n);
    }
  }

  /** n at a cell sharing a unit with p does not fit at p. */
  lemma UsedAt(g: IntGrid, p: Pos, q: Pos, n: int)
    requires |g| == 81 && ValidPos(p) && ValidPos(q) && SharesUnit(p, q) && g[Idx(q)] == n
    ensures !Fits(g, p, n)
  {
    PosOfIdx(q);
    assert SharesUnit(p, PosOf(Idx(q)));
  }

  /** n at offset k of p's box does not fit at p. */
  lemma UsedInBox(g: IntGrid, p: Pos, k: int, n: int)
    requires |g| == 81 && ValidPos(p) && 0 <= k < 9 && BoxCell(g, p.0 / 3 * 3, p.1 / 3 * 3, k) == n
    ensures !Fits(g, p, n)
  {
    var q := (p.0 / 3 * 3 + k / 3, p.1 / 3 * 3 + k % 3);
    DivMod3(p.0 / 3, k / 3);
    DivMod3(p.1 / 3, k % 3);
    assert SameBox(p, q);
    assert Idx(q) == 9 * (p.0 / 3 * 3 + k / 3) + p.1 / 3 * 3 + k % 3;
    UsedAt(g, p, q, n);
  }

  /** A value is used exactly when it does not fit. */
  lemma UsedValuesMeaning(g: IntGrid, p: Pos)
    requires |g| == 81 && ValidPos(p)
    ensures forall n :: n in UsedValues(g, p) <==> !Fits(g, p, n)
  {
    forall n
      ensures n in UsedValues(g, p) <==> !Fits(g, p, n)
    {
      if n in UsedValues(g, p) {
        UsedFrom(g, p, n);
      } else {
        forall j | 0 <= j < 81 && SharesUnit(p, PosOf(j))
          ensures g[j] != n
        {
          UsedHas(g, p, j);
        }
      }
    }
  }

  /** The comprehension over range(n, 10), keeping the values not in `used`. */
  function Unused(used: set<int>, n: int): seq<int>
    requires 1 <= n <= 10
    decreases 10 - n
  {
    if n == 10 then [] else (if n in used then [] else [n]) + Unused(used, n + 1)
  }

  /** The kept values are ascending, lie in n..9 and are exactly those not used. */
  lemma {:induction false} UnusedMeaning(used: set<int>, n: int)
    requires 1 <= n <= 10
    ensures forall k :: 0 <= k < |Unused(used, n)| ==> n <= Unused(used, n)[k] <= 9
    ensures forall k, l :: 0 <= k < l < |Unused(used, n)| ==> Unused(used, n)[k] < Unused(used, n)[l]
    ensures forall m :: m in Unused(used, n) <==> n <= m <= 9 && m !in used
    decreases 10 - n
  {
    if n < 10 {
      UnusedMeaning(used, n + 1);
    }
  }

  /**
   * get_candidates: in ascending order, exactly the digits that fit at p,
   * i.e. that no cell of p's row, column or box holds.
   */
  function Candidates(g: IntGrid, p: Pos): (cs: seq<int>)
    requires |g| == 81 && ValidPos(p)
    ensures |cs| <= 9
    ensures forall k :: 0 <= k < |cs| ==> 1 <= cs[k] <= 9
    ensures forall k, l :: 0 <= k < l < |cs| ==> cs[k] < cs[l]
    ensures forall n :: n in cs <==> 1 <= n <= 9 && Fits(g, p, n)
  {
    UsedValuesMeaning(g, p);
    UnusedMeaning(UsedValues(g, p), 1);
    var cs := Unused(UsedValues(g, p), 1);
    AscendingDigits(cs, 0);
    cs
  }

  /** A strictly increasing list of digits above `low` has at most 9 - low entries. */
  lemma {:induction false} AscendingDigits(cs: seq<int>, low: int)
    requires forall k :: 0 <= k < |cs| ==> low < cs[k] <= 9
    requires forall k, l :: 0 <= k < l < |cs| ==> cs[k] < cs[l]
    ensures |cs| <= 9 - low || cs == []
    decreases |cs|
  {
    if cs != [] {
      AscendingDigits(cs[1..], cs[0]);
    }
  }

  // ---------------------------------------------------------------------
  // find_empty_cell
  // ---------------------------------------------------------------------

  function FirstEmptyFrom(g: IntGrid, i: int): (r: Option<int>)
    requires |g| == 81 && 0 <= i <= 81
    ensures r.None? <==> forall j :: i <= j < 81 ==> g[j] != 0
    ensures r.Some? ==> i <= r.value < 81 && g[r.value] == 0
    ensures r.Some? ==> forall j :: i <= j < r.value ==> g[j] != 0
    decreases 81 - i
  {
    if i == 81 then None
    else if g[i] == 0 then Some(i)
    else FirstEmptyFrom(g, i + 1)
  }

  /** find_empty_cell: the first empty cell in row-major order, or None when there is none. */
  function FirstEmpty(g: IntGrid): (r: Option<Pos>)
    requires |g| == 81
    ensures r.None? <==> NoEmpty(g)
    ensures r.Some? ==> ValidPos(r.value) && g[Idx(r.value)] == 0
    ensures r.Some? ==> forall j :: 0 <= j < Idx(r.value) ==> g[j] != 0
  {
    match FirstEmptyFrom(g, 0)
    case None => None
    case Some(i) => Some(PosOf(i))
  }

  // ---------------------------------------------------------------------
  // Completions
  // ---------------------------------------------------------------------

  /** The digit of cell i of s is 1..9 and no other cell sharing a unit with it holds the same value. */
  predicate FillFits(s: IntGrid, i: int)
    requires |s| == 81 && 0 <= i < 81
  {
    1 <= s[i] <= 9
    && forall j :: 0 <= j < 81 && j != i && SharesUnit(PosOf(i), PosOf(j)) ==> s[j] != s[i]
  }

  /** s completes g: it keeps the given cells and fills each empty one with a digit that fits. */
  predicate IsCompletion(g: IntGrid, s: IntGrid)
    requires |g| == 81
  {
    |s| == 81
    && (forall i :: 0 <= i < 81 && g[i] != 0 ==> s[i] == g[i])
    && (forall i :: 0 <= i < 81 && g[i] == 0 ==> FillFits(s, i))
  }

  /** A grid with exactly one completion. */
  ghost predicate UniqueCompletion(g: IntGrid)
    requires |g| == 81
  {
    exists s :: IsCompletion(g, s) && forall t :: IsCompletion(g, t) ==> t == s
  }

  /** A grid with at least one completion. */
  ghost predicate Completable(g: IntGrid)
    requires |g| == 81
  {
    exists s :: IsCompletion(g, s)
  }

  /** A grid with no empty cell is its only completion, whatever digits it repeats. */
  lemma NoEmptyCompletion(g: IntGrid, s: IntGrid)
    requires |g| == 81 && NoEmpty(g)
    ensures IsCompletion(g, s) <==> s == g
  {
    if IsCompletion(g, s) {
      assert forall i :: 0 <= i < 81 ==> s[i] == g[i];
    }
  }

  /**
   * Branching on an empty cell i: s completes g exactly when its digit at i
   * fits there in g and s completes g with that digit written in.
   */
  lemma CompletionSplit(g: IntGrid, i: int, s: IntGrid)
    requires |g| == 81 && 0 <= i < 81 && g[i] == 0
    ensures IsCompletion(g, s) <==>
      |s| == 81 && 1 <= s[i] <= 9 && Fits(g, PosOf(i), s[i]) && IsCompletion(g[i := s[i]], s)
  {
    if IsCompletion(g, s) {
      assert FillFits(s, i);
      forall j | 0 <= j < 81 && SharesUnit(PosOf(i), PosOf(j))
        ensures g[j] != s[i]
      {
      }
    }
    if |s| == 81 && 1 <= s[i] <= 9 && Fits(g, PosOf(i), s[i]) && IsCompletion(g[i := s[i]], s) {
      var h := g[i := s[i]];
      forall k | 0 <= k < 81 && g[k] == 0
        ensures FillFits(s, k)
      {
        if k == i {
          forall j | 0 <= j < 81 && j != i && SharesUnit(PosOf(i), PosOf(j))
            ensures s[j] != s[i]
          {
            if g[j] == 0 {
              assert h[j] == 0 && FillFits(s, j);
            }
          }
        } else {
          assert h[k] == 0;
        }
      }
    }
  }

  // ---------------------------------------------------------------------
  // The search tree
  // ---------------------------------------------------------------------

  /** The number of empty cells. */
  function Zeros(g: IntGrid): (n: nat)
    ensures n <= |g|
    decreases |g|
  {
    if g == [] then 0 else Zeros(g[..|g| - 1]) + (if g[|g| - 1] == 0 then 1 else 0)
  }

  /** Writing a digit into an empty cell leaves one empty cell fewer. */
  lemma {:induction false} ZerosFill(g: IntGrid, i: int, v: int)
    requires 0 <= i < |g| && g[i] == 0 && v != 0
    ensures Zeros(g[i := v]) == Zeros(g) - 1
    decreases |g|
  {
    var n := |g|;
    if i < n - 1 {
      assert g[i := v][..n - 1] == g[..n - 1][i := v];
      ZerosFill(g[..n - 1], i, v);
    } else {
      assert g[i := v][..n - 1] == g[..n - 1];
    }
  }

  /**
   * The grids the search reaches when it branches on the first empty cell
   * over its candidates in ascending order: a grid without an empty cell
   * is a leaf.
   */
  ghost function Solutions(g: IntGrid): set<IntGrid>
    requires |g| == 81
    decreases Zeros(g), 1, 0
  {
    match FirstEmpty(g)
    case None => {g}
    case Some(p) => Branches(g, Idx(p), Candidates(g, p), 0)
  }

  /** The leaves below the trial digits cs[k..] at empty cell i. */
  ghost function Branches(g: IntGrid, i: int, cs: seq<int>, k: int): set<IntGrid>
    requires |g| == 81 && 0 <= i < 81 && g[i] == 0
    requires 0 <= k <= |cs| && forall m :: 0 <= m < |cs| ==> cs[m] != 0
    decreases Zeros(g), 0, |cs| - k
  {
    if k == |cs| then {}
    else
      ZerosFill(g, i, cs[k]);
      Solutions(g[i := cs[k]]) + Branches(g, i, cs, k + 1)
  }

  /** The search reaches exactly the completions. */
  lemma {:induction false} SolutionsMeaning(g: IntGrid, s: IntGrid)
    requires |g| == 81
    ensures s in Solutions(g) <==> IsCompletion(g, s)
    decreases Zeros(g), 1, 0
  {
    match FirstEmpty(g)
    case None =>
      NoEmptyCompletion(g, s);
    case Some(p) =>
      var i := Idx(p);
      var cs := Candidates(g, p);
      PosOfIdx(p);
      BranchesMeaning(g, i, cs, 0, s);
      CompletionSplit(g, i, s);
      assert cs[0..] == cs;
  }

  /** A completion keeps every given cell. */
  lemma CompletionKeeps(g: IntGrid, s: IntGrid, i: int)
    requires |g| == 81 && 0 <= i < 81 && g[i] != 0 && IsCompletion(g, s)
    ensures s[i] == g[i]
  {
  }

  /** Below the trial digits cs[k..] lie the completions of g with one of those digits written at i. */
  lemma {:induction false} BranchesMeaning(g: IntGrid, i: int, cs: seq<int>, k: int, s: IntGrid)
    requires |g| == 81 && 0 <= i < 81 && g[i] == 0
    requires 0 <= k <= |cs| && forall m :: 0 <= m < |cs| ==> cs[m] != 0
    ensures s in Branches(g, i, cs, k) <==> |s| == 81 && s[i] in cs[k..] && IsCompletion(g[i := s[i]], s)
    decreases Zeros(g), 0, |cs| - k
  {
    if k < |cs| {
      var v := cs[k];
      ZerosFill(g, i, v);
      BranchesMeaning(g, i, cs, k + 1, s);
      assert cs[k..] == [v] + cs[k + 1..];
      LeavesMeaning(g, i, v, s);
    }
  }

  /** The leaves below trial digit v at i are the completions of g with v written at i. */
  lemma {:induction false} LeavesMeaning(g: IntGrid, i: int, v: int, s: IntGrid)
    requires |g| == 81 && 0 <= i < 81 && g[i] == 0 && v != 0
    ensures s in Solutions(g[i := v]) <==> |s| == 81 && s[i] == v && IsCompletion(g[i := v], s)
    decreases Zeros(g), 0, 0
  {
    ZerosFill(g, i, v);
    SolutionsMeaning(g[i := v], s);
    if IsCompletion(g[i := v], s) {
      CompletionKeeps(g[i := v], s, i);
    }
  }

  /** Distinct trial digits lead to disjoint leaves, so the leaf counts add up. */
  lemma BranchesStep(g: IntGrid, i: int, cs: seq<int>, k: int)
    requires |g| == 81 && 0 <= i < 81 && g[i] == 0
    requires 0 <= k < |cs| && forall m :: 0 <= m < |cs| ==> cs[m] != 0
    requires forall m, l :: 0 <= m < l < |cs| ==> cs[m] < cs[l]
    ensures |Branches(g, i, cs, k)| == |Solutions(g[i := cs[k]])| + |Branches(g, i, cs, k + 1)|
  {
    var v := cs[k];
    var here, after := Solutions(g[i := v]), Branches(g, i, cs, k + 1);
    forall s | s in here
      ensures s !in after
    {
      LeavesMeaning(g, i, v, s);
      BranchesMeaning(g, i, cs, k + 1, s);
    }
    assert here * after == {};
    ZerosFill(g, i, v);
    assert Branches(g, i, cs, k) == here + after;
  }

  /** A set of one element holds some element. */
  lemma SingletonMember(ss: set<IntGrid>)
    requires |ss| == 1
    ensures exists s :: ss == {s}
  {
    assert (forall w :: w !in ss) ==> ss == {};
    var s :| s in ss;
    assert |ss - {s}| == 0;
    forall t | t in ss
      ensures t == s
    {
      assert t !in ss - {s};
    }
    assert ss == {s};
  }

  /** One leaf means one completion. */
  lemma UniqueMeaning(g: IntGrid)
    requires |g| == 81
    ensures |Solutions(g)| == 1 <==> UniqueCompletion(g)
  {
    var ss := Solutions(g);
    if |ss| == 1 {
      SingletonMember(ss);
      var s :| ss == {s};
      SolutionsMeaning(g, s);
      forall t | IsCompletion(g, t)
        ensures t == s
      {
        SolutionsMeaning(g, t);
      }
    }
    if UniqueCompletion(g) {
      var s :| IsCompletion(g, s) && forall t :: IsCompletion(g, t) ==> t == s;
      forall t
        ensures t in ss <==> t == s
      {
        SolutionsMeaning(g, t);
      }
      assert ss == {s};
    }
  }

  /** Some leaf means some completion. */
  lemma SomeMeaning(g: IntGrid)
    requires |g| == 81
    ensures |Solutions(g)| > 0 <==> Completable(g)
  {
    var ss := Solutions(g);
    if |ss| > 0 {
      assert (forall w :: w !in ss) ==> ss == {};
      var s :| s in ss;
      SolutionsMeaning(g, s);
    }
    if Completable(g) {
      var s :| IsCompletion(g, s);
      SolutionsMeaning(g, s);
    }
  }
}
