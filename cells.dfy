/**
 * One Sudoku cell (board/cell.py): a value (0 means empty), a set of
 * candidate digits and a flag saying whether the value was given in the
 * puzzle. The transitions are stated once, on the value CellState; the
 * class Cell holds the same three fields and its methods are proved to
 * perform those transitions.
 */
module Cells {
  import opened Wrappers

  /** The digits 1..9: the candidates of a fresh empty cell. */
  const Digits: set<int> := set n | 1 <= n <= 9

  const ValueRangeError := "Value must be an integer between 0 and 9"

  datatype CellState = CellState(value: int, candidates: set<int>, isInitial: bool)

  /** Cell(value, is_initial): the value is stored unchecked. */
  function NewCell(value: int, isInitial: bool): (c: CellState)
    ensures c.value == value && c.isInitial == isInitial
    ensures value == 0 ==> c.candidates == Digits
    ensures value != 0 ==> c.candidates == {}
  {
    CellState(value, if value == 0 then Digits else {}, isInitial)
  }

  /** is_solved: the cell holds a non-zero value. */
  predicate Solved(c: CellState) {
    c.value != 0
  }

  /** A new cell is solved exactly when it was given a non-zero value, which is exactly when it starts without candidates. */
  lemma NewCellSolved(value: int, isInitial: bool)
    ensures Solved(NewCell(value, isInitial)) <==> value != 0
    ensures Solved(NewCell(value, isInitial)) <==> NewCell(value, isInitial).candidates == {}
  {
    assert 1 in Digits;
  }

  /**
   * set_value: only 0..9 is accepted. A non-zero value clears the
   * candidates; writing 0 leaves them as they were (it does not restore
   * the full digit set). The initial flag is never consulted.
   */
  function AssignValue(c: CellState, v: int): (r: Result<CellState>)
    ensures r.Err? <==> !(0 <= v <= 9)
    ensures r.Err? ==> r.error == ValueError(ValueRangeError)
    ensures r.Ok? ==> r.value.value == v && r.value.isInitial == c.isInitial
    ensures r.Ok? ==> (Solved(r.value) <==> v != 0)
    ensures r.Ok? && v != 0 ==> r.value.candidates == {}
    ensures r.Ok? && v == 0 ==> r.value.candidates == c.candidates
  {
    if !(0 <= v <= 9) then Err(ValueError(ValueRangeError))
    else Ok(CellState(v, if v != 0 then {} else c.candidates, c.isInitial))
  }

  /** set_candidates: the set replaces the candidates; nothing else changes. */
  function AssignCandidates(c: CellState, s: set<int>): (r: CellState)
    ensures r.candidates == s
    ensures r.value == c.value && r.isInitial == c.isInitial
  {
    c.(candidates := s)
  }

  /** A solved value followed by clearing the candidates: the cell placement the techniques perform. */
  function Place(c: CellState, v: int): (r: CellState)
    requires 1 <= v <= 9
    ensures r == CellState(v, {}, c.isInitial)
    ensures Solved(r)
  {
    AssignCandidates(AssignValue(c, v).value, {})
  }

  /** Emptying a solved cell keeps its (empty) candidate set: set_value(0) does not undo a placement. */
  lemma {:induction false} ClearDoesNotRestore(c: CellState, v: int)
    requires 1 <= v <= 9
    ensures AssignValue(AssignValue(c, v).value, 0) == Ok(CellState(0, {}, c.isInitial))
  {
  }

  class Cell {
    var value: int
    var candidates: set<int>
    var isInitial: bool

    /** The abstract value of this cell. */
    function State(): CellState
      reads this
    {
      CellState(value, candidates, isInitial)
    }

    constructor (value: int, isInitial: bool)
      ensures State() == NewCell(value, isInitial)
    {
      this.value := value;
      this.isInitial := isInitial;
      this.candidates := if value == 0 then Digits else {};
    }

    /** is_solved, read from the object's state: its value is not 0. */
    predicate IsSolved()
      reads this
      ensures IsSolved() <==> GetValue() != 0
    {
      Solved(State())
    }

    function GetValue(): (v: int)
      reads this
      ensures v == State().value
    {
      value
    }

    function GetCandidates(): (s: set<int>)
      reads this
      ensures s == State().candidates
    {
      candidates
    }

    /** set_value: on a rejected value the cell is untouched and the error is returned. */
    method SetValue(v: int) returns (r: Result<()>)
      modifies this
      ensures r.Err? <==> AssignValue(old(State()), v).Err?
      ensures r.Err? ==> r.error == AssignValue(old(State()), v).error && State() == old(State())
      ensures r.Ok? ==> State() == AssignValue(old(State()), v).value
    {
      if !(0 <= v <= 9) {
        return Err(ValueError(ValueRangeError));
      }
      value := v;
      if v != 0 {
        candidates := {};
      }
      return Ok(());
    }

    method SetCandidates(s: set<int>)
      modifies this
      ensures State() == AssignCandidates(old(State()), s)
    {
      candidates := s;
    }
  }
}
