/**
 * The unit iterator (utils/unit_processor.py): all 27 units of the board,
 * rows 0..8, then columns 0..8, then the boxes row by row, each with the
 * positions of its cells.
 *
 * process_all_units calls a callback with each unit's live cells and
 * their positions. Here it produces the schedule of positions; a
 * technique walks the schedule and reads and writes the board's cells
 * through the positions, which is what the live references do.
 */
module Units {
  import opened Cells
  import opened Geometry
  import opened Board

  /** The cells a unit's positions refer to. */
  function UnitCells(g: Grid, ps: seq<Pos>): (cells: seq<CellState>)
    requires |g| == 81 && AllValid(ps)
    ensures |cells| == |ps|
    ensures forall i :: 0 <= i < |ps| ==> cells[i] == g[Idx(ps[i])]
  {
    seq(|ps|, i requires 0 <= i < |ps| => g[Idx(ps[i])])
  }

  /** A unit of the schedule is nine board positions. */
  lemma UnitAtAllValid(k: int)
    requires 0 <= k < UnitCount
    ensures AllValid(UnitAt(k)) && |UnitAt(k)| == 9
  {
    UnitAtValid(k);
  }

  /** The cells handed over for a row, a column or a box are the board's own row, column and box views. */
  lemma UnitCellsAreViews(g: Grid, k: int)
    requires |g| == 81 && 0 <= k < UnitCount
    ensures AllValid(UnitAt(k))
    ensures k < 9 ==> UnitCells(g, UnitAt(k)) == Row(g, k)
    ensures 9 <= k < 18 ==> UnitCells(g, UnitAt(k)) == Col(g, k - 9)
    ensures 18 <= k ==> UnitCells(g, UnitAt(k)) == Box(g, 3 * ((k - 18) / 3), 3 * ((k - 18) % 3))
  {
    UnitAtAllValid(k);
    if 18 <= k {
      var br, bc := (k - 18) / 3, (k - 18) % 3;
      assert (3 * br) / 3 == br && (3 * bc) / 3 == bc;
    }
  }

  /** Offset 3 * dr + dc of a box lies dr rows and dc columns from its corner. */
  lemma BoxStep(dr: int, dc: int)
    requires 0 <= dr < 3 && 0 <= dc < 3
    ensures (3 * dr + dc) / 3 == dr && (3 * dr + dc) % 3 == dc
  {
  }

  /** process_all_units: the positions of the 27 units in visiting order. */
  method ProcessAllUnits() returns (units: seq<seq<Pos>>)
    ensures |units| == UnitCount
    ensures forall k :: 0 <= k < UnitCount ==> units[k] == UnitAt(k)
  {
    units := [];
    for r := 0 to 9
      invariant |units| == r
      invariant forall k :: 0 <= k < r ==> units[k] == UnitAt(k)
    {
      var positions := seq(9, c => (r, c));
      units := units + [positions];
    }
    for c := 0 to 9
      invariant |units| == 9 + c
      invariant forall k :: 0 <= k < 9 + c ==> units[k] == UnitAt(k)
    {
      var positions := seq(9, r => (r, c));
      units := units + [positions];
    }
    for br := 0 to 3
      invariant |units| == 18 + 3 * br
      invariant forall k :: 0 <= k < 18 + 3 * br ==> units[k] == UnitAt(k)
    {
      for bc := 0 to 3
        invariant |units| == 18 + 3 * br + bc
        invariant forall k :: 0 <= k < 18 + 3 * br + bc ==> units[k] == UnitAt(k)
      {
        var positions: seq<Pos> := [];
        for dr := 0 to 3
          invariant |positions| == 3 * dr
          invariant forall k :: 0 <= k < 3 * dr ==> positions[k] == BoxUnit(br, bc)[k]
        {
          for dc := 0 to 3
            invariant |positions| == 3 * dr + dc
            invariant forall k :: 0 <= k < 3 * dr + dc ==> positions[k] == BoxUnit(br, bc)[k]
          {
            BoxStep(dr, dc);
            positions := positions + [(br * 3 + dr, bc * 3 + dc)];
          }
        }
        assert (18 + 3 * br + bc - 18) / 3 == br && (18 + 3 * br + bc - 18) % 3 == bc;
        assert positions == UnitAt(18 + 3 * br + bc);
        units := units + [positions];
      }
    }
  }
}
