/**
 * Board coordinates shared by the board and the unit iterator: a position
 * is a (row, column) pair, the 81 cells are stored row-major at index
 * 9 * row + column, and a unit is one of the 27 rows, columns and boxes,
 * each given as its list of nine positions.
 */
module Geometry {
  type Pos = (int, int)

  predicate ValidPos(p: Pos) {
    0 <= p.0 < 9 && 0 <= p.1 < 9
  }

  /** Row-major index of a board position. */
  function Idx(p: Pos): (i: nat)
    requires ValidPos(p)
    ensures i < 81
  {
    9 * p.0 + p.1
  }

  /** The position stored at a row-major index. */
  function PosOf(i: int): (p: Pos)
    requires 0 <= i < 81
    ensures ValidPos(p) && Idx(p) == i
  {
    (i / 9, i % 9)
  }

  lemma PosOfIdx(p: Pos)
    requires ValidPos(p)
    ensures PosOf(Idx(p)) == p
  {
  }

  lemma IdxInjective(p: Pos, q: Pos)
    requires ValidPos(p) && ValidPos(q) && Idx(p) == Idx(q)
    ensures p == q
  {
    PosOfIdx(p);
    PosOfIdx(q);
  }

  lemma IdxDistinct(p: Pos, q: Pos)
    requires ValidPos(p) && ValidPos(q) && p != q
    ensures Idx(p) != Idx(q)
  {
  }

  /** Both positions lie in the same 3x3 box (Python's // on non-negative indices). */
  predicate SameBox(p: Pos, q: Pos) {
    p.0 / 3 == q.0 / 3 && p.1 / 3 == q.1 / 3
  }

  /** Two positions share a row, a column or a box; a position shares with itself. */
  predicate SharesUnit(p: Pos, q: Pos) {
    p.0 == q.0 || p.1 == q.1 || SameBox(p, q)
  }

  /** A peer of p: a different board position sharing a unit with p. */
  predicate IsPeer(p: Pos, q: Pos) {
    ValidPos(p) && ValidPos(q) && p != q && SharesUnit(p, q)
  }

  /** A 9x9 grid given as nine rows of nine entries. */
  predicate NineByNine<T>(rows: seq<seq<T>>) {
    |rows| == 9 && forall r :: 0 <= r < 9 ==> |rows[r]| == 9
  }

  /** Every entry of a position list is a board position. */
  predicate AllValid(ps: seq<Pos>) {
    forall k :: 0 <= k < |ps| ==> ValidPos(ps[k])
  }

  /** The row-major indices a position list touches. */
  function IndexSet(ps: seq<Pos>): (s: set<int>)
    requires AllValid(ps)
    ensures forall k :: 0 <= k < |ps| ==> Idx(ps[k]) in s
    ensures forall i :: i in s ==> 0 <= i < 81
  {
    set k | 0 <= k < |ps| :: Idx(ps[k])
  }

  /** All positions in row-major order, as the board scans them. */
  function AllPositions(): (ps: seq<Pos>)
    ensures |ps| == 81
    ensures forall i :: 0 <= i < 81 ==> ValidPos(ps[i]) && Idx(ps[i]) == i
  {
    seq(81, i requires 0 <= i < 81 => PosOf(i))
  }

  function RowUnit(r: int): seq<Pos> {
    seq(9, j => (r, j))
  }

  function ColUnit(c: int): seq<Pos> {
    seq(9, i => (i, c))
  }

  /** Box (br, bc) read row by row: offset k is row 3*br + k/3, column 3*bc + k%3. */
  function BoxUnit(br: int, bc: int): seq<Pos> {
    seq(9, k => (3 * br + k / 3, 3 * bc + k % 3))
  }

  const UnitCount := 27

  /** The units in the order they are visited: rows 0..8, columns 0..8, then boxes row by row. */
  function UnitAt(k: int): seq<Pos>
    requires 0 <= k < UnitCount
  {
    if k < 9 then RowUnit(k)
    else if k < 18 then ColUnit(k - 9)
    else BoxUnit((k - 18) / 3, (k - 18) % 3)
  }

  /** Nine distinct board positions. */
  predicate ValidUnit(ps: seq<Pos>) {
    |ps| == 9
    && (forall i :: 0 <= i < 9 ==> ValidPos(ps[i]))
    && (forall i, j :: 0 <= i < 9 && 0 <= j < 9 && i != j ==> ps[i] != ps[j])
  }

  lemma BoxOffset(br: int, bc: int, k: int)
    requires 0 <= br < 3 && 0 <= bc < 3 && 0 <= k < 9
    ensures ValidPos(BoxUnit(br, bc)[k])
    ensures BoxUnit(br, bc)[k].0 / 3 == br && BoxUnit(br, bc)[k].1 / 3 == bc
    ensures BoxUnit(br, bc)[k].0 % 3 == k / 3 && BoxUnit(br, bc)[k].1 % 3 == k % 3
  {
  }

  /** Every unit is nine distinct board positions that pairwise share that unit. */
  lemma UnitAtValid(k: int)
    requires 0 <= k < UnitCount
    ensures ValidUnit(UnitAt(k))
    ensures forall i, j :: 0 <= i < 9 && 0 <= j < 9 ==> SharesUnit(UnitAt(k)[i], UnitAt(k)[j])
  {
    var ps := UnitAt(k);
    if k >= 18 {
      var br, bc := (k - 18) / 3, (k - 18) % 3;
      forall i | 0 <= i < 9
        ensures ValidPos(ps[i]) && ps[i].0 / 3 == br && ps[i].1 / 3 == bc
        ensures ps[i].0 % 3 == i / 3 && ps[i].1 % 3 == i % 3
      {
        BoxOffset(br, bc, i);
      }
      forall i, j | 0 <= i < 9 && 0 <= j < 9 && i != j
        ensures ps[i] != ps[j]
      {
        assert i == 3 * (i / 3) + i % 3 && j == 3 * (j / 3) + j % 3;
      }
    }
  }

  /** The box number (0..8, row by row) of a position. */
  function BoxNumber(p: Pos): int {
    3 * (p.0 / 3) + p.1 / 3
  }

  /**
   * The units partition the board three ways: each position lies in exactly
   * its own row, its own column and its own box.
   */
  lemma UnitMembership(p: Pos, k: int)
    requires ValidPos(p) && 0 <= k < UnitCount
    ensures p in UnitAt(k) <==> (k == p.0 || k == 9 + p.1 || k == 18 + BoxNumber(p))
  {
    if k >= 18 {
      var br, bc := (k - 18) / 3, (k - 18) % 3;
      BoxMembership(p, br, bc);
      assert k - 18 == 3 * br + bc;
      BoxNumberDigits(p, br, bc);
    } else if k >= 9 {
      if k == 9 + p.1 {
        assert UnitAt(k)[p.0] == p;
      }
    } else {
      if k == p.0 {
        assert UnitAt(k)[p.1] == p;
      }
    }
  }

  /** A position lies in box (br, bc) exactly when its row and column fall in that box. */
  lemma BoxMembership(p: Pos, br: int, bc: int)
    requires ValidPos(p) && 0 <= br < 3 && 0 <= bc < 3
    ensures p in BoxUnit(br, bc) <==> (p.0 / 3 == br && p.1 / 3 == bc)
  {
    if p in BoxUnit(br, bc) {
      var i :| 0 <= i < 9 && BoxUnit(br, bc)[i] == p;
      BoxOffset(br, bc, i);
    }
    if p.0 / 3 == br && p.1 / 3 == bc {
      var i := 3 * (p.0 % 3) + p.1 % 3;
      BoxOffset(br, bc, i);
      assert BoxUnit(br, bc)[i] == p;
    }
  }

  /** Box numbers are base-3 pairs: 3 * br + bc names box (br, bc) and no other. */
  lemma BoxNumberDigits(p: Pos, br: int, bc: int)
    requires ValidPos(p) && 0 <= br < 3 && 0 <= bc < 3
    ensures BoxNumber(p) == 3 * br + bc <==> (p.0 / 3 == br && p.1 / 3 == bc)
  {
    assert 0 <= p.0 / 3 < 3 && 0 <= p.1 / 3 < 3;
  }

  /** Two positions share a unit exactly when some unit of the 27 holds both. */
  lemma SharesUnitIffCommonUnit(p: Pos, q: Pos)
    requires ValidPos(p) && ValidPos(q)
    ensures SharesUnit(p, q) <==> exists k :: 0 <= k < UnitCount && p in UnitAt(k) && q in UnitAt(k)
  {
    if SharesUnit(p, q) {
      var k := if p.0 == q.0 then p.0 else if p.1 == q.1 then 9 + p.1 else 18 + BoxNumber(p);
      UnitMembership(p, k);
      UnitMembership(q, k);
    }
    if exists k :: 0 <= k < UnitCount && p in UnitAt(k) && q in UnitAt(k) {
      var k :| 0 <= k < UnitCount && p in UnitAt(k) && q in UnitAt(k);
      UnitMembership(p, k);
      UnitMembership(q, k);
    }
  }
}
