# SudokuSensei core, modelled in Dafny

This project models the solving core of SudokuSensei, a Sudoku tutor. The
tutor solves a puzzle with human techniques and explains each step.

- **Board.** A board of 81 cells holds values (0 is empty) and the candidates
  each empty cell may still take. Candidates are kept up to date from the
  solved cells of a cell's row, column and 3x3 box.
- **Techniques.** Five techniques, plus the older versions of two of them, narrow the candidates or fill cells:
  - naked single;
  - hidden single;
  - naked pair;
  - hidden pair;
  - naked triple;
  - the older top-level versions of naked single and hidden pair in
    `logic/`. That naked single places a value without updating the peers
    and reports the position. That hidden pair makes the same cuts as the
    backend one and returns only a bool.
- **Step records.** Every technique that fires describes what it did as a
  `TechniqueStep`. The record holds the technique, the focus cells, the value
  placed and an elimination map: for each digit, the cells it was removed
  from.
- **Solvers.** Five solver services run the techniques in a fixed order,
  round after round, until a round changes nothing or an iteration cap is
  reached: the basic solver, the frontend solver, the advanced solver, the
  enhanced solver and the step-by-step solver. Each returns the grid reached;
  all but the basic one also return a trace of steps.
  - Three of the all-at-once techniques return a `(changed, steps)` tuple,
    which `if result:` always finds true. So every round of the four
    all-at-once services counts as a change, and they always run to the cap.
  - The step-by-step solver returns normally only while naked singles keep
    firing. Its hidden single returns a position where a step is expected
    (AttributeError), and its naked pair returns a bare bool, which the
    tuple unpacking rejects (TypeError).
- **Validation.** The validation service checks a puzzle's format. It also
  counts the solutions of a puzzle by backtracking, to decide whether the
  solution is unique.
- **Solvability check.** `utilities/check_solvable.py` solves a puzzle by
  backtracking on the cell with the fewest candidates. The validation
  service's `is_solvable` delegates to a check of that name.

## How the model is built

- **The board is a class.** `Board.SudokuBoard` holds an `array` of 81
  `CellState` values in row-major order: cell (r, c) is at index 9r + c.
  - A technique works on the board through unit position lists. These play
    the part of the Python lists of live `Cell` references.
  - Every method that changes the board is proved against a function on
    `grid[..]`.
- **A cell is a value and a class.** The transitions of `board/cell.py` are
  functions on the value `CellState`. `Cells.Cell` is a class with the same
  fields, and its methods are proved to perform those transitions.
- **What every technique does to the board.** Two relations state this, and
  each technique's method proves one of them against the old board:
  - `Board.Narrows`: candidates only shrink, and values and solved cells stay
    as they were.
  - `Board.Advances`: `Narrows`, and in addition a cell may be filled with one
    of its former candidates.
- **What a technique finds.** Each technique's search is a function with an
  independent meaning lemma:
  - what fires, and that it is the first in scan order;
  - which cells lose which digits.
- **Solvers terminate.** Every solve loop is bounded by its iteration cap
  (100, or the `max_iterations` argument), so the loops end without a fuel
  bound. Each technique's own `apply_all_*` loop ends because every
  productive pass fills a cell or removes a candidate.
  - For each solver, the trace is proved to have the documented shape: an
    opening entry, one entry per technique application, constraint-update
    entries, and the final entry.
- **The search.** `Search` defines what a completion of a puzzle is: every
  zero replaced by a digit that no peer holds. The backtracking counters and
  solvers are proved against that definition.
- **Strings.**
  - Descriptions and explanations are kept as `Steps.Text` values that carry
    the data they are written from.
  - Labels such as "A1" are real strings.
  - The keys `str(v)` of elimination maps are kept as the numbers `v`.
- **Exceptions.** Raised exceptions are `Wrappers.Result` errors that carry
  the exception class and its message.

## Model

| member | source | states |
|---|---|---|
| Location.ColumnLetter | backend/helpers/get_location.py:11-13 | Ok exactly for columns 0..8. The letter is 'A'..'I'. Any other column gives ValueError with the source's message. |
| Location.RowNumber | backend/helpers/get_location.py:26-28 | Ok exactly for rows 0..8. The result is one character '1'..'9'. Any other row gives ValueError with its message. |
| Location.CellLocation | backend/helpers/get_location.py:43-45 | Ok exactly when both indices are in range. The label has two characters. A bad column reports the column error, even when the row is also bad. |
| Location.LocationRoundTrip | backend/helpers/get_location.py:31-45 | Every label of a board cell reads back (ParseLocation) to that cell. |
| Location.ParseThenLabel | backend/helpers/get_location.py:31-45 | Every string that parses as a label is the label of the cell it parses to. |
| Location.LocationInjective | backend/helpers/get_location.py:31-45 | Distinct cells get distinct labels. |
| Cells.NewCell | backend/board/cell.py:5-8 | The value and initial flag are stored unchanged. An empty cell gets all nine digits as candidates; a filled cell gets none. |
| Cells.NewCellSolved | backend/board/cell.py:5-11 | `Solved(c)` is `c.value != 0` by definition. A new cell is solved exactly when its value is non-zero, which is exactly when it starts without candidates. |
| Cells.AssignValue | backend/board/cell.py:18-23 | Err (ValueError, source message) exactly when the value is outside 0..9. A non-zero value clears the candidates. Zero keeps them. The initial flag is untouched. |
| Cells.AssignCandidates | backend/board/cell.py:30-33 | The candidates become the given set. The value and initial flag stay. |
| Cells.Place | backend/board/cell.py:18-23 | Placing a digit and clearing candidates gives a solved cell (v, {}, flag). |
| Cells.ClearDoesNotRestore | backend/board/cell.py:18-23 | Resetting a placed cell to 0 leaves it with no candidates: set_value(0) does not undo a placement. |
| Cells.Cell.constructor | backend/board/cell.py:5-8 | The new object's state is NewCell(value, is_initial). |
| Cells.Cell.IsSolved | backend/board/cell.py:10-11 | is_solved reads `Solved` from the object's state: it holds exactly when get_value() is not 0. |
| Cells.Cell.GetValue | backend/board/cell.py:14-15 | Returns the cell's value. |
| Cells.Cell.GetCandidates | backend/board/cell.py:26-27 | Returns the cell's candidate set. |
| Cells.Cell.SetValue | backend/board/cell.py:18-23 | Performs AssignValue: on a rejected value it returns the error and leaves the object unchanged. |
| Cells.Cell.SetCandidates | backend/board/cell.py:30-33 | Performs AssignCandidates on the object. |
| Geometry.AllPositions | backend/board/board.py:78 | The 81 positions in row-major order: entry i is the position with index i. |
| Geometry.UnitAtValid | backend/utils/unit_processor.py:10-32 | Each of the 27 units is nine distinct board positions, and any two of them share a unit. |
| Geometry.UnitMembership | backend/utils/unit_processor.py:10-32 | A position lies in unit k exactly when k is its row, 9 + its column, or 18 + its box number. The units partition the board three ways. |
| Geometry.BoxMembership | backend/board/board.py:15-21 | A position lies in box (br, bc) exactly when row // 3 == br and column // 3 == bc. |
| Geometry.BoxNumberDigits | backend/utils/unit_processor.py:22-23 | The box number 3*br + bc names box (br, bc) and no other. |
| Geometry.SharesUnitIffCommonUnit | backend/board/board.py:23-37 | Sharing a row, column or box is the same as both positions lying in one of the 27 units. |
| Units.UnitCellsAreViews | backend/utils/unit_processor.py:10-32 | The cells handed over for units 0..8, 9..17 and 18..26 are the board's get_row, get_col and get_box views. |
| Units.ProcessAllUnits | backend/utils/unit_processor.py:1-32 | Yields the 27 units in the source's order: rows, then columns, then boxes row by row. |
| Units.UnitAtAllValid | backend/utils/unit_processor.py:10-32 | Each scheduled unit has nine board positions. |
| Steps.RecordEffect | backend/logic/naked_single.py:39 | `setdefault(str(v), []).append(p)` behaves as an insertion-ordered dict. Keys stay distinct. A new key goes last. v's list gets p appended, other lists are unchanged, and exactly the pair (v, p) is added. |
| Steps.RecordKeys | backend/logic/naked_single.py:39 | Recording keeps the key order and appends a new key at the end. |
| Steps.RecordLookup | backend/logic/naked_single.py:39 | Recording appends p to v's list and leaves every other list alone. |
| Steps.RecordPairs | backend/logic/naked_single.py:39 | Recording adds exactly the pair (v, p). |
| Steps.RecordDistinct | backend/logic/naked_single.py:39 | Recording keeps the keys distinct. |
| Steps.RecordRemovedEffect | backend/logic/naked_single.py:37-39 | Recording every digit removed from cell p appends p to exactly those digits' lists. It adds exactly their pairs and no other key. |
| Steps.RecordShrink | backend/logic/naked_single.py:35-39 | Removing candidates from a cell and recording them keeps the map an exact list of (digit, cell) losses between two boards. |
| Steps.RecordsNothing | backend/logic/naked_single.py:30 | The empty map records the losses between a board and itself. |
| Steps.MakeStep | backend/models/technique_step.py:2-24 | Every field is stored as passed, except that missing eliminations become []. |
| Steps.ToDict | backend/models/technique_step.py:26-34 | The dict has exactly the six keys of the source. |
| Steps.ToDictRoundTrip | backend/models/technique_step.py:26-34 | to_dict loses nothing: the step reads back from its dict. |
| Steps.ElimCount | backend/services/step_by_step_solver.py:118-121 | The count is zero exactly when every entry lists no cell, and it is at least the length of every entry. |
| StepByStepSolver.EntryPairsCard | backend/services/step_by_step_solver.py:120-121 | One entry records at most as many (value, cell) pairs as it lists cells, and exactly that many when its cells differ. |
| StepByStepSolver.PairsKeys | backend/services/step_by_step_solver.py:119-120 | Every recorded pair is filed under one of the keys of the map. |
| StepByStepSolver.ElimCountPairs | backend/services/step_by_step_solver.py:118-121 | candidates_eliminated is never less than the number of recorded (value, cell) pairs, and equals it when no key and no cell under one key is listed twice. |
| Board.NewGrid | backend/board/board.py:6-7 | Cell (r, c) is Cell(v, is_initial = v != 0) for v = grid[r][c]; every candidate is a digit. |
| Board.Row | backend/board/board.py:9-10 | get_row: the nine cells of row r, in column order. |
| Board.Col | backend/board/board.py:12-13 | get_col: the nine cells of column c, in row order. |
| Board.Box | backend/board/board.py:15-21 | get_box: the nine cells of the box of (r, c), read row by row from its corner. |
| Board.BoxMembers | backend/board/board.py:15-21 | The box of (r, c) contains (r, c) itself, at offset 3(r%3)+c%3. All the box's cells lie in the same box as (r, c). |
| Board.CandidatesGrid | backend/board/board.py:157-161 | A 9x9 grid whose entry (r, c) is cell (r, c)'s candidate set. |
| Board.ValueGrid | backend/services/frontend_solver.py:218 | A 9x9 grid whose entry (r, c) is cell (r, c)'s value. |
| Board.PeerPositionsMeaning | backend/board/board.py:23-37 | get_peer_positions(r, c) holds q exactly when q is another board position sharing a row, column or box with (r, c). |
| Board.PeerCount | backend/board/board.py:23-37 | Every cell has exactly 20 peers. |
| Board.PeerListComplete | backend/board/board.py:23-37 | The enumerated peer list holds every peer. |
| Board.PeerListDistinct | backend/board/board.py:23-37 | The enumerated peer list holds only peers, each once. |
| Board.UsedValuesMeaning | backend/board/board.py:49-53 | A value is "used" at p exactly when a solved cell sharing a unit with p holds it. |
| Board.UsedValuesFrame | backend/board/board.py:49-53 | The used values depend only on the cells' values. |
| Board.PropagateAt | backend/board/board.py:45-67 | One iteration of update_candidates_for_cells: an empty cell loses the values its row, column and box hold, a solved cell keeps its candidates, and no other cell changes. A change record is returned exactly when the board changed, with the old and new candidates of the cell. |
| Board.PropagateClosedForm | backend/board/board.py:39-71 | After update_candidates_for_cells, each visited unsolved cell has lost exactly the used values around it (a second visit changes nothing), and every other cell is unchanged. |
| Board.PropagateChanges | backend/board/board.py:39-71 | Over distinct positions, the change list has a record exactly for each unsolved cell that loses a candidate. Records are in input order. Each record's old/new/eliminated sets are judged against the starting board. |
| Board.PropagateNarrows | backend/board/board.py:39-71 | Candidate propagation only narrows the board. |
| Board.PropagateAllConsistent | backend/board/board.py:73-79 | After update_candidates, no unsolved cell keeps a value held by a solved cell of its row, column or box. |
| Board.ConsistentIsFixpoint | backend/board/board.py:39-71 | On a consistent board, propagation changes nothing and records nothing. |
| Board.PropagateIdempotent | backend/board/board.py:73-79 | A second update_candidates records no change. |
| Board.PropagateAllEffect | backend/board/board.py:73-79 | update_candidates keeps the board valid, only narrows it, and leaves it consistent. |
| Board.RemoveFromPeersEffect | backend/board/board.py:81-109 | update_peers_candidates removes v from exactly the unsolved peers. Nothing else changes. |
| Board.PeerChangesMeaning | backend/board/board.py:87-109 | For any visiting order of the peer set, each unsolved peer that held v gets exactly one record, with old/new candidates and {v} eliminated. Nothing else is recorded. |
| Board.BoardSolvedValues | backend/board/board.py:163-192 | is_solved reads only the cells' values. |
| Board.BoardSolvedByUnits | backend/board/board.py:163-192 | is_solved holds exactly when every cell is filled and each of the 27 units holds nine different values. |
| Board.NarrowsTrans | backend/board/board.py:39-109 | Candidate narrowing composes. |
| Board.NarrowsValid | backend/board/board.py:39-109 | Narrowing keeps every candidate a digit. |
| Board.AdvancesTrans | backend/board/board.py:39-109 | The technique step relation composes. |
| Board.NarrowsAdvances | backend/board/board.py:39-109 | Every narrowing is an admissible technique step. |
| Board.UnsolvedCountFill | backend/board/board.py:163-172 | Filling one empty cell lowers the empty-cell count by one. |
| Board.UnsolvedCountValues | backend/board/board.py:163-172 | The empty-cell count depends only on the values. |
| Board.NarrowsTotal | backend/board/board.py:39-109 | Narrowing never adds candidates, and any change removes at least one. |
| Board.SudokuBoard.constructor | backend/board/board.py:6-7 | The array holds NewGrid(grid), and the board is Valid. |
| Board.SudokuBoard.UpdateCandidatesForCells | backend/board/board.py:39-71 | The new board and the change list are Propagate(old board, positions). |
| Board.SudokuBoard.UpdateCandidates | backend/board/board.py:73-79 | Propagation over all 81 positions. The new board narrows the old one and is consistent. |
| Board.SudokuBoard.UpdatePeersCandidates | backend/board/board.py:81-109 | The new board is RemoveFromPeers(old, (r, c), v), whatever the order the peer set is visited in. The change list matches some enumeration of the peer set. |
| NakedSingles.FirstSingleFrom | backend/logic/naked_single.py:15-20 | The first cell at or after index i, in row-major order, that is empty with exactly one candidate. None means there is no such cell. |
| NakedSingles.OnlyDigit | backend/logic/naked_single.py:21 | `next(iter(candidates))` of a one-element set is its element. |
| NakedSingles.FillEffect | backend/logic/naked_single.py:27-29 | The single's cell holds its candidate and has no candidates. Every unsolved peer loses that value. Every other cell is unchanged. The board advances, and one empty cell fewer remains. |
| NakedSingles.FillConsistent | backend/logic/naked_single.py:27-29 | Filling a naked single on a consistent board leaves it consistent. |
| NakedSingles.DiffElimsEffect | backend/logic/naked_single.py:30-40 | The snapshot comparison lists exactly the (digit, cell) pairs lost outside the filled cell, with distinct keys. |
| NakedSingles.FillEliminations | backend/logic/naked_single.py:22-40 | After a naked single, the map has at most the key v. It lists exactly the unsolved peers that held v. |
| NakedSingles.CollectEliminations | backend/logic/naked_single.py:30-40 | The row-major double loop builds exactly DiffElims(before, after, skip, 81). |
| NakedSingles.PlaceSingle | backend/logic/naked_single.py:22-66 | set_value, then clearing the candidates, then update_peers_candidates gives Fill(old, i, v). The step is the naked-single record built from the before and after boards. |
| NakedSingles.FindSingle | backend/logic/naked_single.py:15-20 | The scan returns FirstSingleFrom(grid, 0). |
| NakedSingles.ApplyOne | backend/logic/naked_single.py:6-68 | It changes the board exactly when the updated board has a naked single. Without one, the board is only updated and no step is returned. With one, the first single is filled and its step returned. |
| NakedSingles.HitRound | backend/logic/naked_single.py:6-68 | A round that fills a single advances the board. The cell was empty and now holds the single's digit, and there is exactly one empty cell fewer. |
| NakedSingles.NoHitRound | backend/logic/naked_single.py:6-68 | A round without a single leaves an up-to-date board with no naked single and the same number of empty cells. |
| NakedSingles.FillsFocusKept | backend/logic/naked_single.py:71-86 | A focus cell filled with the step's digit stays filled with it while the board only advances. |
| NakedSingles.StepsFilledAt | backend/logic/naked_single.py:71-86 | Each collected step is a naked-single step whose focus cell was empty at the start and holds the step's value now. |
| NakedSingles.StepsFilledKept | backend/logic/naked_single.py:71-86 | The filled focus cells of the collected steps stay filled while the board only advances. |
| NakedSingles.StepsFilledSnoc | backend/logic/naked_single.py:81-85 | A round that filled a cell empty before it extends the collected steps by its step. |
| NakedSingles.Round | backend/logic/naked_single.py:6-68 | When it fires, it returns a "Naked Single" step whose one focus cell was empty and now holds the step's value, and the board has exactly one empty cell fewer. When it does not fire, the number of empty cells is unchanged, the board is consistent and has no single. |
| NakedSingles.ApplyAll | backend/logic/naked_single.py:71-86 | Terminates. changed is true exactly when steps is non-empty. The board advances. At the end the candidates are up to date and no naked single is left. There is one step per filled cell: the number of steps is the drop in empty cells, and each step's focus cell was empty at the start and holds the step's value at the end. |
| HiddenSingles.Holders | backend/logic/hidden_single.py:8-12 | candidate_counts[n] after k cells: the increasing indices of exactly the empty cells holding n. |
| HiddenSingles.FirstUnique | backend/logic/hidden_single.py:13-16 | The smallest value from n on with exactly one holder, and that holder. None means no such value. |
| HiddenSingles.HiddenSingleMeaning | backend/logic/hidden_single.py:7-16 | A found cell is the only empty cell of the unit holding the value. Whenever some value has a single holder, something is found, with a value no larger. |
| HiddenSingles.OnlyHolderIff | backend/logic/hidden_single.py:13-15 | A holder list equal to [pos] means pos is the only empty cell holding the value, and conversely. |
| HiddenSingles.CountCell | backend/logic/hidden_single.py:10-12 | Adds idx to the list of exactly the cell's candidates, whatever order the set is iterated in. |
| HiddenSingles.FindHiddenSingleInUnit | backend/logic/hidden_single.py:7-16 | The dict-building loop returns HiddenSingleIn(cells). |
| HiddenSingles.UnitHitMeaning | backend/logic/hidden_single.py:7-16 | Unit u's hit is the only holder of its value in u. No hit means u has no hidden single. |
| HiddenSingles.FirstHitMeaning | backend/logic/hidden_single.py:18-60 | The first hit comes from some unit u, and no unit before u has a hit. No hit means no unit has one. |
| HiddenSingles.HiddenHitMeaning | backend/logic/hidden_single.py:18-60 | A found (cell, value) is the only holder of the value in some unit u, and no earlier unit (rows, then columns, then boxes) has a hidden single. Finding nothing means no unit has one. |
| HiddenSingles.HiddenHitCell | backend/logic/hidden_single.py:18-60 | The found cell is empty and holds the value as a candidate. |
| HiddenSingles.RowHit | backend/logic/hidden_single.py:19-28 | Index pos of row r is cell (r, pos). |
| HiddenSingles.ColHit | backend/logic/hidden_single.py:31-40 | Index pos of column c is cell (pos, c). |
| HiddenSingles.BoxHit | backend/logic/hidden_single.py:43-58 | Index pos of box (br, bc) is cell (3br + pos//3, 3bc + pos%3). |
| HiddenSingles.FindInRows | backend/logic/hidden_single.py:19-28 | The row loop finds the first hit among units 0..8, or hands over to the columns. |
| HiddenSingles.FindInCols | backend/logic/hidden_single.py:31-40 | The column loop finds the first hit among units 9..17, or hands over to the boxes. |
| HiddenSingles.FindInBox | backend/logic/hidden_single.py:45-49 | One box gives its unit's hit. |
| HiddenSingles.FindInBoxes | backend/logic/hidden_single.py:43-58 | The box loop finds the first hit among units 18..26. |
| HiddenSingles.FindHidden | backend/logic/hidden_single.py:18-60 | The three loops return HiddenHit(board). |
| HiddenSingles.ApplyOne | backend/logic/hidden_single.py:4-60 | It changes the board exactly when the updated board has a hidden single. Without one, the board is only updated. With one, the value is placed, the candidates are cleared, the peers are untouched, and the position is returned. |
| HiddenSingles.PlaceHiddenEffect | backend/logic/hidden_single.py:24-25 | Placing a hidden single advances the board and leaves one empty cell fewer. |
| HiddenSingles.ApplyAll | backend/logic/hidden_single.py:63-70 | Terminates. The board advances, ending up to date with no hidden single. Not changed means only the update happened. Changed means fewer empty cells. |
| NakedPairs.Holding | backend/logic/naked_pairs.py:17-21 | pairs[key] after n cells: the ascending indices of exactly the empty two-candidate cells whose candidates are key. |
| NakedPairs.AddMemberEffect | backend/logic/naked_pairs.py:21 | setdefault(key, []).append(idx) appends idx to key's list and leaves every other list alone. Keys stay distinct, and the key set gains key. |
| NakedPairs.GroupsMeaning | backend/logic/naked_pairs.py:16-21 | The built dict has distinct keys. Each key is present exactly when some pair cell holds it. Each list is the ascending holders of its key. |
| NakedPairs.StripFromEffect | backend/logic/naked_pairs.py:27-34 | One pair's loop removes the pair's values from the empty cells of the unit that are not its members. No other cell changes. |
| NakedPairs.ApplyGroupsEffect | backend/logic/naked_pairs.py:24-34 | The unit's entries remove, from each empty cell, the union of the two-member pairs it is not part of. Cells outside the unit are unchanged. |
| NakedPairs.StrippedIsPairEliminated | backend/logic/naked_pairs.py:23-27 | That union is exactly the values of the naked pairs of the unit (two cells, same two candidates, no third cell) that do not contain the cell. |
| NakedPairs.PairUnitEffect | backend/logic/naked_pairs.py:13-34 | process_unit: each empty cell of unit k loses exactly the values of the unit's naked pairs it does not belong to, judged on the unit as entered. Cells outside the unit are unchanged. |
| NakedPairs.NakedPairPassNarrows | backend/logic/naked_pairs.py:4-82 | A pass only narrows the board. It changes the updated board exactly when it removes at least one candidate. |
| NakedPairs.PassFixpoint | backend/logic/naked_pairs.py:85-97 | A pass that changes nothing on a board update_candidates leaves alone is a fixpoint of the pass. |
| NakedPairs.BuildGroups | backend/logic/naked_pairs.py:17-21 | The grouping loop builds Groups(unit cells, 9). |
| NakedPairs.StripOthers | backend/logic/naked_pairs.py:28-34 | The elimination loop performs StripFrom. The flag is raised exactly when the board changed. |
| NakedPairs.ProcessUnit | backend/logic/naked_pairs.py:13-34 | The board becomes PairUnit(old, k). The flag is raised exactly when the board changed. |
| NakedPairs.ProcessUnits | backend/logic/naked_pairs.py:67-80 | Rows, then columns, then boxes: the board becomes PairUnits(old, 27), and the flag says whether it changed. |
| NakedPairs.ApplyOne | backend/logic/naked_pairs.py:4-82 | The board becomes NakedPairPass(old). The result is true exactly when the units changed the updated board. |
| NakedPairs.ApplyAll | backend/logic/naked_pairs.py:85-97 | Terminates. The board only narrows and ends as a fixpoint of the pass. Not changed means only the update happened. Changed means candidates were removed beyond the update. |
| HiddenPairs.PositionMap | backend/logic/hidden_pairs.py:24-29 | candidate_positions has the keys 1..9. Each value maps to the unit indices of the empty cells holding it. |
| HiddenPairs.Cut | backend/logic/hidden_pairs.py:42-55 | A pair cell holding more than the pair is intersected with it. The removed values are recorded against the cell. The focus list is untouched. |
| HiddenPairs.CutUpToEffect | backend/logic/hidden_pairs.py:41-55 | Cutting the cells of a pair's set intersects exactly those cells with the pair. Nothing else changes. |
| HiddenPairs.FocusUpTo | backend/logic/hidden_pairs.py:58-59 | The focus cells appended for a pair are positions of the pair's cells. |
| HiddenPairs.FocusNonEmpty | backend/logic/hidden_pairs.py:58-59 | A fired pair appends at least one focus cell. |
| HiddenPairs.PositionMapSets | backend/logic/hidden_pairs.py:24-29 | Every index in the map is an empty cell of the unit. |
| HiddenPairs.PairUnitEffect | backend/logic/hidden_pairs.py:20-59 | process_unit: each empty cell of unit k keeps exactly the candidates that every hidden pair holding it allows. The pairs are judged on the map built as the unit was entered. Solved cells and cells outside the unit are unchanged. |
| HiddenPairs.ThreeInTwoEmpties | backend/logic/hidden_pairs.py:31-49 | Because the map is not refreshed, three values confined to the same two cells fire three pairs, and together they empty both cells. |
| HiddenPairs.CutEffect | backend/logic/hidden_pairs.py:42-55 | A cut only narrows the board. It keeps the elimination map an exact record of what was removed since the update. Any change removes a candidate. |
| HiddenPairs.PairUnitsNarrows | backend/logic/hidden_pairs.py:62 | The scan over all units only narrows the board. |
| HiddenPairs.PassFixpoint | backend/logic/hidden_pairs.py:85-100 | On a board update_candidates leaves alone, a scan that cuts nothing is a fixpoint of the pass. |
| HiddenPairs.AddCell | backend/logic/hidden_pairs.py:26-29 | Adds idx to the set of exactly the cell's candidates, in any iteration order. |
| HiddenPairs.BuildPositions | backend/logic/hidden_pairs.py:24-29 | The loop builds PositionMap(unit cells). |
| HiddenPairs.CutCell | backend/logic/hidden_pairs.py:42-55 | Performs Cut on the board array. It keeps the map exact, and reports whether the cell shrank. |
| HiddenPairs.FirePair | backend/logic/hidden_pairs.py:41-59 | Cuts the pair's cells in index order, then appends their positions to the focus. It keeps the map exact, and reports whether a candidate went. A cut adds focus cells. |
| HiddenPairs.ProcessRow | backend/logic/hidden_pairs.py:35-59 | The pairs (c1, c2) for every c2 above c1 give AfterRow. |
| HiddenPairs.ProcessUnit | backend/logic/hidden_pairs.py:20-59 | The unit callback gives PairUnit. The flag is raised exactly when a candidate was removed. |
| HiddenPairs.ProcessUnits | backend/logic/hidden_pairs.py:62 | All 27 units give PairUnits(.., 27). The board only narrows. The map records exactly the removals. Changed means the focus is non-empty. |
| HiddenPairs.ApplyOne | backend/logic/hidden_pairs.py:6-82 | The board becomes HiddenPairPass(old). Changed holds exactly when the units cut the updated board. Then the "Hidden Pair" step has a non-empty focus and eliminations that record exactly what was cut. Otherwise the step is None. |
| HiddenPairs.Round | backend/logic/hidden_pairs.py:94-99 | One loop pass either is a scan that cut something (the board is the scan's board, the step is its step, and its map lists exactly what the scan removed), or is the fixpoint. |
| HiddenPairs.PassChainAt | backend/logic/hidden_pairs.py:85-100 | Every link of a chain of passes is a scan that cut something and recorded exactly what it removed. |
| HiddenPairs.PassChainExtend | backend/logic/hidden_pairs.py:94-99 | One more scan that cut something extends the chain of passes and keeps every step a "Hidden Pair" step with focus cells. |
| HiddenPairs.ApplyAll | backend/logic/hidden_pairs.py:85-100 | Terminates. The board only narrows and ends as a fixpoint of the scan. changed is true exactly when steps is non-empty. Every step is a "Hidden Pair" step with focus cells. The boards passed through form a chain from the starting board: steps[k] is the step of scan k, and its map lists exactly what scan k removed; the final board is the last one with its candidates updated. |
| NakedTriples.EligibleBelow | backend/logic/naked_triples.py:28-43 | unique_indices: the ascending indices of exactly the empty cells with one to three candidates. |
| NakedTriples.ScanKMeaning | backend/logic/naked_triples.py:50-87 | The innermost combination loop finds the first third position whose combination fires. None means none fires. |
| NakedTriples.ScanJMeaning | backend/logic/naked_triples.py:50-87 | The middle loop finds the lexicographically first firing combination with the given first position. None means none fires. |
| NakedTriples.ScanIMeaning | backend/logic/naked_triples.py:50-87 | The outer loop finds the lexicographically first firing combination. None means no combination fires. |
| NakedTriples.TriplePositions | backend/logic/naked_triples.py:43-50 | Every naked triple of the unit is a combination of three positions of the eligible list. |
| NakedTriples.NakedTripleNeedsThree | backend/logic/naked_triples.py:44-45 | A unit with a naked triple has at least three eligible cells, so the early return loses nothing. |
| NakedTriples.UnitTripleMeaning | backend/logic/naked_triples.py:20-87 | A unit's chosen triple is a naked triple (three eligible cells, union of exactly three values) that removes something, and no lexicographically earlier naked triple does. None means no naked triple of the unit removes anything. |
| NakedTriples.StripUpToEffect | backend/logic/naked_triples.py:71-81 | Every empty unit cell outside the triple loses the triple's values. Nothing else changes, and the map lists exactly what went. The board changes exactly when some such cell held one of those values. |
| NakedTriples.FirstFromMeaning | backend/logic/naked_triples.py:23-25 | The first unit offering a triple: none before it offers one. |
| NakedTriples.FirstUnitMeaning | backend/logic/naked_triples.py:23-25 | Once a unit has fired, the later units are skipped. The firing unit is the first that offers a triple. |
| NakedTriples.TripleScanEffect | backend/logic/naked_triples.py:20-90 | The scan narrows the board and records exactly the removals. It changes the board exactly when some unit offers a triple. Then the first such unit's empty cells outside the triple lose the triple's values, the focus is the triple's three positions, and nothing else changes. Otherwise the board is returned as it was with no focus and no eliminations. |
| NakedTriples.TriplePassEffect | backend/logic/naked_triples.py:6-93 | The pass changes the updated board exactly when some unit offers a triple, and then it removes at least one candidate. The map records exactly the removals. |
| NakedTriples.PassFixpoint | backend/logic/naked_triples.py:113-128 | On a board update_candidates leaves alone, a pass that finds nothing is a fixpoint. |
| NakedTriples.EligibleIndices | backend/logic/naked_triples.py:28-43 | The collection and de-duplication give EligibleBelow(unit cells, 9). |
| NakedTriples.StripOthers | backend/logic/naked_triples.py:69-81 | The elimination loop performs StripUpTo. local_changed is true exactly when the board changed. |
| NakedTriples.ScanThird | backend/logic/naked_triples.py:50-87 | The innermost loop gives ScanK. Without a hit the board is unchanged; with one it is stripped. |
| NakedTriples.ScanSecond | backend/logic/naked_triples.py:50-87 | The middle loop gives ScanJ, and strips the board when it finds a hit. |
| NakedTriples.ScanFirst | backend/logic/naked_triples.py:50-87 | The combination loops give ScanI(.., 0), and strip the board when they find a hit. |
| NakedTriples.ProcessUnit | backend/logic/naked_triples.py:20-87 | Fires exactly when the unit offers a triple, giving Fire(old, k). Otherwise the board is unchanged. |
| NakedTriples.ProcessUnits | backend/logic/naked_triples.py:90 | The scan gives TripleScan(old). changed is true exactly when some unit offers a triple. |
| NakedTriples.ApplyOne | backend/logic/naked_triples.py:6-110 | The board becomes TriplePass(old). changed is true exactly when the scan changed the updated board. Then the step is a "Naked Triple" record with three focus cells and the collected eliminations. Otherwise the step is None. |
| NakedTriples.Round | backend/logic/naked_triples.py:122-127 | One loop pass either is a scan that cut something (the board is the scan's board, the step, with three focus cells, is its step, and its map lists exactly what the scan removed), or leaves a fixpoint. |
| NakedTriples.PassChainAt | backend/logic/naked_triples.py:113-128 | Every link of a chain of passes is a scan that cut something and recorded exactly what it removed. |
| NakedTriples.PassChainExtend | backend/logic/naked_triples.py:122-127 | One more scan that cut something extends the chain of passes and keeps every step a "Naked Triple" step with three focus cells. |
| NakedTriples.ApplyAll | backend/logic/naked_triples.py:113-128 | Terminates. The board only narrows and ends as a fixpoint. changed is true exactly when steps is non-empty. Every step is a "Naked Triple" step with three focus cells. The boards passed through form a chain from the starting board: steps[k] is the step of scan k, and its map lists exactly what scan k removed; the final board is the last one with its candidates updated. |
| Legacy.StampEffect | logic/naked_single.py:19-21 | The legacy placement puts v in the cell with no candidates and leaves every other cell, peers included, as it was. The board advances with one empty cell fewer. The backend's fill is this placement followed by update_peers_candidates. |
| Legacy.StampRound | logic/naked_single.py:4-24 | A legacy round that places a single advances the board and leaves fewer empty cells. |
| Legacy.NakedSingleOne | logic/naked_single.py:4-24 | changed is true exactly when the updated board has a naked single. The first one is placed, peers untouched, and its position returned. Otherwise the board is only updated. |
| Legacy.NakedSingleAll | logic/naked_single.py:27-39 | Terminates. The board advances and ends up to date with no naked single. Not changed means only the update happened. Changed means fewer empty cells. |
| Legacy.HiddenPairOne | logic/hidden_pairs.py:4-89 | Makes the backend's hidden-pair cuts, so the board becomes HiddenPairPass(old). The result is true exactly when the cuts changed the updated board. |
| Legacy.HiddenPairAll | logic/hidden_pairs.py:92-104 | Terminates. The board only narrows and ends as a fixpoint of the cuts. Changed means candidates were removed. |
| Dispatch.RunAll | backend/services/solver_service.py:53-54 | Calling an apply_all_* function keeps the board valid and only advances it. The result is a tuple exactly for the tuple-returning techniques. `if result:` holds exactly when the technique returns a tuple or reports progress. A false result leaves only the update_candidates the technique starts with. |
| Dispatch.RunOne | backend/services/step_by_step_solver.py:84-85 | Calling an apply_one_* function keeps the board valid and only advances it. Each technique has its own return shape, and its flag agrees with the presence of its step or position. A naked single that fires leaves fewer empty cells. A hidden single that does not fire only updates the candidates. |
| Dispatch.NoteApplied | backend/services/solver_service.py:56-57 | Appending a name not already listed keeps the list free of duplicates. The result holds the name and the old list as a prefix, and no other name. |
| Dispatch.TwoNames | backend/services/enhanced_solver.py:93-96 | A list holding two different names has at least two entries. |
| SolverService.SudokuSolver.GetAvailableTechniques | backend/services/solver_service.py:77-84 | The names of the technique table, in order, none twice. |
| SolverService.SudokuSolver.Round | backend/services/solver_service.py:53-57 | One pass over the four techniques. `results` holds the four results and `boards` the board before the pass and after each call. Each call advances the board. Its result is a tuple exactly for the tuple techniques, and it is true exactly for those or when the technique reported progress. A false call only refreshed the candidates. The new applied list is exactly the old one with the fired names noted in call order (`NoteAll` over `FiredNames`). It stays duplicate-free and keeps the old list as its prefix. It starts with "Naked Singles" and holds "Hidden Pairs", and the round always reports a change. |
| SolverService.SudokuSolver.Loop | backend/services/solver_service.py:45-57 | The while loop runs exactly MaxIterations rounds. It advances the board, and its `History` says that every round ran the whole table. The applied list notes, from nothing, every name fired in any round, and it starts with "Naked Singles" and holds "Hidden Pairs". |
| SolverService.SudokuSolver.Solve | backend/services/solver_service.py:28-75 | The solved grid extends the puzzle, and is_solved holds exactly when it is a valid solution. The loop always runs 100 iterations, because the tuple results are always true. techniques_applied equals the fired names of all rounds noted from nothing. It therefore holds exactly the techniques whose call returned true in some round, once each, in the order of first use (`InFirstUseOrder`). It starts with "Naked Singles" and holds "Hidden Pairs". No steps are reported. |
| SolverService.FiredNames | backend/services/solver_service.py:53-54 | The names of the calls whose result was true are taken from the table. There are no more of them than calls. |
| SolverService.FiredNamesMembers | backend/services/solver_service.py:53-55 | A name is fired exactly when some call under that name returned a true result. |
| SolverService.FiredNamesLast | backend/services/solver_service.py:53-55 | One more call adds its name at the end of the fired names exactly when its result is true. |
| SolverService.FiredNamesHead | backend/services/solver_service.py:53-55 | When the first call (naked singles) is true, its name is the first fired name. |
| SolverService.AllFired | backend/services/solver_service.py:49-57 | The fired names of all rounds, round after round, are all names of the table. |
| SolverService.AllFiredNext | backend/services/solver_service.py:49-57 | One more round adds its fired names at the end. |
| SolverService.CallsNext | backend/services/solver_service.py:53-54 | One more call that returned and moved the board as `Called` says extends the calls so far. |
| SolverService.CallsFired | backend/services/solver_service.py:53-54 | A whole round of such calls returned what `Fired` says for every technique. |
| SolverService.NoteAll | backend/services/solver_service.py:56-57 | Noting names one by one keeps the old list as a prefix. |
| SolverService.NoteAllMeaning | backend/services/solver_service.py:56-57 | Noting xs adds exactly the names of xs, and never lists a name twice if the old list did not. |
| SolverService.NoteAllLast | backend/services/solver_service.py:56-57 | The last name of xs is noted last. |
| SolverService.NoteAllAppend | backend/services/solver_service.py:49-57 | Noting xs and then ys is the same as noting xs + ys, so noting round by round equals noting all calls at once. |
| SolverService.NoteAllHead | backend/services/solver_service.py:43-57 | Noting from an empty list puts the first name first. |
| SolverService.NoteFiredNext | backend/services/solver_service.py:54-57 | One more call notes its name exactly when its result is true (`if technique_func(board): ... if technique_name not in techniques_applied: append`). |
| SolverService.AppliedAfterRound | backend/services/solver_service.py:21-57 | After a round in which naked singles (first) and hidden pairs (third) returned true, the applied list starts with "Naked Singles", holds "Hidden Pairs" and has at least two names. |
| SolverService.FirstIndex | backend/services/solver_service.py:56-57 | The position of the first use of a name, or the length when the name is absent. The name is at that position and at no earlier one. |
| SolverService.FirstIndexSnoc | backend/services/solver_service.py:56-57 | Adding a name at the end keeps the first use of a name already there. A new name is first used at the end. |
| SolverService.FirstUseOrder | backend/services/solver_service.py:40-57 | Noting from nothing lists exactly the names used, once each, in the order of their first use. |
| SolverService.HistoryNext | backend/services/solver_service.py:49-57 | One more round, with its fired names noted, extends the history of rounds. |
| StepByStepSolver.EntryListing | backend/services/step_by_step_solver.py:207-208 | One (value, cell) listing per cell of an eliminations entry, in order. |
| StepByStepSolver.ListingAppend | backend/services/step_by_step_solver.py:206-208 | The listings of two eliminations lists are the listings of the first followed by those of the second. |
| StepByStepSolver.ListingMeaning | backend/services/step_by_step_solver.py:118-121 | The listings are exactly the recorded (value, cell) pairs. Their number is the candidates_eliminated count. |
| StepByStepSolver.FormattedMeaning | backend/services/step_by_step_solver.py:203-218 | Formatting succeeds exactly when every listed cell is on the board. It then gives one record per listing, in order, with empty old and new candidates. Otherwise it is the ValueError of get_cell_location. |
| StepByStepSolver.FormattedSticky | backend/services/step_by_step_solver.py:206-212 | Once a listing fails to format, later listings do not change the error. |
| StepByStepSolver.FormatEliminations | backend/services/step_by_step_solver.py:203-218 | The nested loops compute the formatting of the whole listing. |
| StepByStepSolver.FormatEntry | backend/services/step_by_step_solver.py:207-217 | The inner loops extend the formatting of the listings done so far by one entry's listings. |
| StepByStepSolver.CountEliminations | backend/services/step_by_step_solver.py:118-121 | The loop counts every cell of every entry. |
| StepByStepSolver.ConstraintStepShown | backend/services/step_by_step_solver.py:180-201 | The constraint step after an update_candidates that removed something has at least one record and solves no cell. Each of its records is an empty cell that lost candidates, with the new candidates the step shows. |
| StepByStepSolver.NewlyFilledSingle | backend/services/step_by_step_solver.py:109-115 | When exactly one cell was filled, solved_positions lists that cell alone. |
| StepByStepSolver.SingleEliminationsListed | backend/services/step_by_step_solver.py:119-121 | Each elimination a naked single records is its value, at an open peer of the filled cell that held that value. |
| StepByStepSolver.SingleEliminationsGone | backend/services/step_by_step_solver.py:119-121 | Each value a naked single records as eliminated is gone from its cell after the fill. |
| StepByStepSolver.RecordsGone | backend/services/step_by_step_solver.py:203-218 | When every listed cell is on the board and has lost its value, formatting succeeds with one record per listing, and each record names a value its cell no longer holds. |
| StepByStepSolver.SingleFill | backend/services/step_by_step_solver.py:101-115 | A fired naked single filled exactly its focus cell, with its value 1..9. solved_positions lists that one cell, and every recorded elimination is gone. |
| StepByStepSolver.SingleStepShown | backend/services/step_by_step_solver.py:124-140 | The step recorded for a naked single formats without error. It shows its fill and its eliminations in the grid and candidates it reports. |
| StepByStepSolver.StepTraceSteps | backend/services/step_by_step_solver.py:58-158 | In a trace built by the solver, every constraint step is first or follows a technique step whose solved_positions it repeats. Every technique step carries the next step_number. |
| StepByStepSolver.AppendTechnique | backend/services/step_by_step_solver.py:87-142 | Appending a naked-single step with the next step_number keeps the trace well formed, adds one technique step, and keeps the opening step. |
| StepByStepSolver.AppendStep | backend/services/step_by_step_solver.py:142-155 | Appending a well-placed step keeps the trace well formed. |
| StepByStepSolver.ConstraintFollows | backend/services/step_by_step_solver.py:145-155 | A constraint step citing the preceding technique step's solved_positions is well placed. |
| StepByStepSolver.AppendKeepsOpening | backend/services/step_by_step_solver.py:142-155 | Appending to a non-empty trace keeps its first step. |
| StepByStepSolver.SinglePass | backend/services/step_by_step_solver.py:76-158 | An iteration passes exactly when naked single fires on the updated board; it then leaves a valid board with one empty cell fewer. |
| StepByStepSolver.AfterFailure | backend/services/step_by_step_solver.py:71-73 | After k passing iterations the loop goes on as it would from the state reached, with k fewer iterations allowed. |
| StepByStepSolver.FailureWitness | backend/services/step_by_step_solver.py:71-87 | A loop that raises has an iteration below the cap, started on an unsolved state and reached by passing iterations, that raises; its error is the loop's. |
| StepByStepSolver.WitnessFailure | backend/services/step_by_step_solver.py:71-87 | Conversely, such an iteration makes the loop raise its error. |
| StepByStepSolver.FailureCap | backend/services/step_by_step_solver.py:71 | A larger cap does not change a loop that raises. |
| StepByStepSolver.LoopFailureMeaning | backend/services/step_by_step_solver.py:71-87 | The solve raises exactly when some board reached by naked-single iterations below the cap is unsolved and has no naked single, and the error is the one that board raises. |
| StepByStepSolver.LoopFailureCap | backend/services/step_by_step_solver.py:71 | Raising the cap never rescues a failing solve. |
| StepByStepSolver.ReachValid | backend/services/step_by_step_solver.py:71-158 | Every board the loop reaches is a valid board. |
| StepByStepSolver.ReachStuck | backend/services/step_by_step_solver.py:71-87 | A reached board below the cap that is unsolved with no naked single makes the solve raise that board's error. |
| StepByStepSolver.ReachDone | backend/services/step_by_step_solver.py:71 | A loop that reaches a solved board, or the cap, returns normally. |
| StepByStepSolver.DiffStepShown | backend/services/step_by_step_solver.py:180-201 | A constraint step whose records are the non-empty candidate differences between two boards shows them, as ConstraintStepShown states. |
| StepByStepSolver.SingleRecord | backend/services/step_by_step_solver.py:87-142 | The technique step an iteration firing on a board records shows its fill and eliminations and carries the step number it was given. |
| StepByStepSolver.IterationStepsMade | backend/services/step_by_step_solver.py:85-142 | When naked single fires, the board it leaves is the first naked single of the updated board filled, and the step dict built from the snapshots is the technique step `SingleRecord` describes. |
| StepByStepSolver.ConstraintRecorded | backend/services/step_by_step_solver.py:144-155 | A constraint step made by update_candidates on a board is a run from that board to the updated board. |
| StepByStepSolver.SingleRecorded | backend/services/step_by_step_solver.py:85-142 | The naked-single step made on a board is a run from that board to the filled board. |
| StepByStepSolver.IterationRecorded | backend/services/step_by_step_solver.py:76-158 | An iteration firing on a board is the one `SinglePass` describes, and the steps it appends are a run from that board to the board it leaves. |
| StepByStepSolver.IterationExtends | backend/services/step_by_step_solver.py:71-158 | A run that reaches a board, extended by an iteration firing there, reaches the board that iteration leaves. |
| StepByStepSolver.StepByStepSolver.RunningNext | backend/services/step_by_step_solver.py:71-158 | A pass that fired moves the while loop one iteration on: the board is reached by one more naked-single iteration and the steps extend the run to it. |
| StepByStepSolver.StepByStepSolver.Create | backend/services/step_by_step_solver.py:22-28 | Construction succeeds exactly when a cap is given, and the cap is that argument. Without one it fails with AttributeError, because settings has no SUDOKU_MAX_ITERATIONS. |
| StepByStepSolver.StepByStepSolver.constructor | backend/services/step_by_step_solver.py:22-35 | The cap is the argument and the technique table is the four apply_one_* functions in order. |
| StepByStepSolver.StepByStepSolver.GetAvailableTechniques | backend/services/step_by_step_solver.py:247-249 | The names of the technique table, in order, none twice. |
| StepByStepSolver.StepByStepSolver.Solve | backend/services/step_by_step_solver.py:37-178 | Fails exactly when the loop, started on the updated board, reaches below the cap an unsolved board with no naked single (`LoopFailure`); the error is the AttributeError of hidden single's position tuple when hidden single fires there, otherwise the TypeError of unpacking naked pair's bool. A cap of 0 or less never fails. Otherwise the grid extends the puzzle and is_solved holds exactly when it is a solution. The loop stops at a solved board or at the cap. Each iteration records one technique step, so there are as many technique steps as iterations and no more than the puzzle's empty cells. techniques_applied is empty or ["Naked Single"]. total_steps counts the steps. The trace is well formed and opens with a constraint step exactly when the first update_candidates removed something. The returned grid is the board reached by `iterations` naked-single iterations from the updated puzzle (`Reach`), and the steps are a run from the puzzle to that board (`Recorded` with `Made`): each technique step is the naked single that fires on the board before it, filled, and each constraint step is update_candidates on the board before it, with that update's records. |
| StepByStepSolver.StepByStepSolver.Initial | backend/services/step_by_step_solver.py:54-64 | The board is updated. The steps are exactly the constraint step of that update, with its records and no solved_positions, when it removed candidates, and nothing otherwise; they are a run from the puzzle to the updated board. |
| StepByStepSolver.StepByStepSolver.Loop | backend/services/step_by_step_solver.py:67-158 | On an error, the board the failing iteration started on was reached by naked-single iterations below the cap, is unsolved and has no naked single, and the error is the one that board raises. Otherwise the loop ends at a solved board or at the cap, reached by naked-single iterations, each having filled a cell and recorded one technique step, and the steps extend the run from the puzzle to the board it ends on. |
| StepByStepSolver.StepByStepSolver.Iterate | backend/services/step_by_step_solver.py:71-158 | One iteration from a board the loop reached: either naked single fires and the loop stands one iteration further on, its steps extending the run to the new board, or it raises the error of a board without a naked single. |
| StepByStepSolver.StepByStepSolver.Pass | backend/services/step_by_step_solver.py:76-158 | A pass on an unsolved board succeeds exactly when naked single fires on the updated board, and then leaves the board one naked-single iteration gives. Otherwise it raises the AttributeError exactly when hidden single fires, and the unpacking TypeError otherwise. A success appends exactly the iteration's steps (`IterationSteps`): the naked-single step with the next step_number, made from the board and the first naked single of its update, then the constraint step of the update after the fill when it removed anything. It has fewer empty cells and keeps the trace well formed. |
| StepByStepSolver.StepByStepSolver.Try | backend/services/step_by_step_solver.py:77-158 | Technique 0 (naked single) ends the pass exactly when it fires, with a success that appends the iteration's steps. Technique 1 (hidden single) ends it exactly when it fires, with the AttributeError, and technique 2 (naked pair) always ends it, with the board's error. A technique that does not fire leaves the board updated and unsolved for the next one. |
| StepByStepSolver.StepByStepSolver.NoFire | backend/services/step_by_step_solver.py:85-87 | A technique that did not fire left the board updated: narrowed from the pass's start and still unsolved. |
| StepByStepSolver.StepByStepSolver.Fired | backend/services/step_by_step_solver.py:87-158 | After a naked single fired and was recorded, the board is the one the iteration from the pass's start gives, with fewer empty cells, and the steps appended are exactly that iteration's steps. |
| StepByStepSolver.StepByStepSolver.Record | backend/services/step_by_step_solver.py:88-155 | Notes the name and numbers the step. Appends exactly the iteration's steps: the technique step of the fired naked single, then the constraint step when the update after the fill removed anything. The board is then updated, and the trace stays well formed with one more technique step. |
| StepByStepSolver.StepByStepSolver.AppendRecord | backend/services/step_by_step_solver.py:124-142 | Exactly one step is appended: the step dict built from the snapshots before and after the fill, the TechniqueStep and the step number (`TechStep`), with the formatted eliminations. The trace stays well formed. |
| StepByStepSolver.StepByStepSolver.TechniqueRecord | backend/services/step_by_step_solver.py:124-140 | The step dict for a naked single. Its records format without error, and it shows its fill and eliminations. |
| StepByStepSolver.StepByStepSolver.Propagation | backend/services/step_by_step_solver.py:144-155 | When the last step solved no cell, nothing changes. Otherwise update_candidates runs, and the steps grow by the constraint step of that update, citing the last step's solved_positions, exactly when it removed something (`ConstraintTail`), and by nothing otherwise. The trace stays well formed. |
| StepByStepSolver.StepByStepSolver.CountSolved | backend/services/step_by_step_solver.py:101-106 | cells_solved is the length of solved_positions. |
| FrontendSolver.AppendBlock | backend/services/frontend_solver.py:160-213 | Appending the steps of one technique call keeps the trace's shape and its first step. The steps may be nothing, a technique step, or a technique step followed by the constraint step it caused. |
| FrontendSolver.ConstraintStepShown | backend/services/frontend_solver.py:186-213 | A constraint step reporting the diff from one snapshot to the next fills no cell. It shows every recorded loss on a cell still empty. |
| FrontendSolver.ThreeNames | backend/services/frontend_solver.py:104-105 | A list holding three different names has at least three entries. |
| FrontendSolver.ConstraintRecorded | backend/services/frontend_solver.py:61-81 | A step listing what one update_candidates run removed from a board is recorded from that board and the fully propagated one. |
| FrontendSolver.TechniqueRecorded | backend/services/frontend_solver.py:92-158 | When a call filled cells or emptied candidates of cells still empty, its technique step shows every fill and loss, its cells_solved is the number of cells it lists, and it is recorded from the boards before and after the call. |
| FrontendSolver.NextSoFar | backend/services/frontend_solver.py:91-215 | Each technique of a round keeps the round's invariant. Naked singles, hidden pairs and naked triples are always true. |
| FrontendSolver.FrontendSudokuSolver.Create | backend/services/frontend_solver.py:25-31 | Construction succeeds exactly when a cap is given, and the cap is that argument. Without one it fails with AttributeError. The same happens to the module-level instance at line 287. |
| FrontendSolver.FrontendSudokuSolver.constructor | backend/services/frontend_solver.py:25-38 | The cap is the argument, and the table is the five apply_all_* functions in order. |
| FrontendSolver.FrontendSudokuSolver.GetAvailableTechniques | backend/services/frontend_solver.py:281-283 | The names of the technique table, in order, none twice. |
| FrontendSolver.FrontendSudokuSolver.Solve | backend/services/frontend_solver.py:40-235 | The grid extends the puzzle, and is_solved holds exactly when it is a solution. The loop runs exactly the cap's rounds, or none for a cap below 1. Each round adds three to five logical steps to total_logical_steps, which the message repeats. techniques_applied has no duplicates, starts with "Naked Singles" and holds "Hidden Pairs" and "Naked Triples". The trace has the FrontendTrace shape and starts with an initial_constraints step exactly when the first update_candidates removed something. Every step is tied to the boards of the run from the puzzle's grid (`Recorded` with `Made`): a technique step is `TechniqueStep` of the board before its call and the board after it, and an initial or constraint step lists what update_candidates removed from the board it ran on. Between one step's boards and the next only an update_candidates run can happen, and the last board is the one solved_grid shows. |
| FrontendSolver.FrontendSudokuSolver.Loop | backend/services/frontend_solver.py:83-215 | The loop never sees an unchanged round, so it runs the cap's rounds, three to five logical steps each. It keeps the trace's shape, and every step it adds is made from the boards before and after its call (`Recorded`), ending at the board the loop leaves. |
| FrontendSolver.FrontendSudokuSolver.InitialStep | backend/services/frontend_solver.py:61-81 | The board is updated. An initial_constraints step is recorded exactly when the update removed candidates, and it lists what that update removed from the puzzle's board. |
| FrontendSolver.FrontendSudokuSolver.Round | backend/services/frontend_solver.py:91-215 | A round always reports a change. It notes "Naked Singles", "Hidden Pairs" and "Naked Triples", and advances step_number by three to five. The steps it adds are each made from the boards before and after their call, ending at the board the round leaves. |
| FrontendSolver.FrontendSudokuSolver.Attempt | backend/services/frontend_solver.py:91-215 | Technique k keeps the round's invariant: distinct table names with "Naked Singles" first, the tuple techniques noted once reached, step_number counting the true results, and the trace keeping its shape. The trace stays recorded from the run's boards up to the board the call leaves. |
| FrontendSolver.FrontendSudokuSolver.Record | backend/services/frontend_solver.py:92-213 | A tuple result is always true. A false result records nothing and leaves the board the technique's first update_candidates made. A true result that records nothing leaves the board as it was. A recorded technique step is `TechniqueStep` of the board before the call and the board the technique left, numbered with the current step_number. When a constraint step follows, the board is that board after update_candidates, and the step lists what the update removed and cites the technique step's solved positions. |
| FrontendSolver.FrontendSudokuSolver.Report | backend/services/frontend_solver.py:102-213 | After a true result: nothing is recorded exactly when the technique filled no cell and emptied no candidate of a cell still empty, and then the board is unchanged. Otherwise the technique step is built from the snapshots before and after, and a constraint step follows as in Record. |
| FrontendSolver.FrontendSudokuSolver.Propagation | backend/services/frontend_solver.py:187-213 | update_candidates after a fill leaves the fully propagated board and adds at most one step, exactly when it removed something. That step is the "Constraint Propagation" step listing what it removed from the board it ran on and citing the cells filled. |
| AdvancedSolver.LoopTraceSteps | backend/services/advanced_solver.py:104-205 | Every step of the main trace is well formed where it stands. The initial step can only come first. Every other step shows its technique's changes, then the constraint changes, with their counts. |
| AdvancedSolver.TechniqueStepShown | backend/services/advanced_solver.py:145-204 | The step recorded for a true result names its technique. Its technique changes come first, tagged "technique", then the tagged constraint changes on cells still empty. candidates_eliminated is their total, and the two counts are recorded. |
| AdvancedSolver.TechniquePartShown | backend/services/advanced_solver.py:58-85 | The technique's diff, tagged "technique", is a run of losses the step's later candidates reflect. |
| AdvancedSolver.ConstraintPartShown | backend/services/advanced_solver.py:151-174 | The update_candidates diff after the technique, tagged "constraint_propagation", is shown on cells still empty in the step's grid. |
| AdvancedSolver.CloseTrace | backend/services/advanced_solver.py:210-224 | The main trace is a whole trace with no final step. When it has steps, so is the trace with the "Final State" step added. |
| AdvancedSolver.NextSoFar | backend/services/advanced_solver.py:131-205 | Each technique of a round keeps the round's invariant. Naked singles and hidden pairs always add a step. |
| AdvancedSolver.AppendStep | backend/services/advanced_solver.py:190-204 | Appending a technique step keeps the main trace well formed, with the same first step. |
| AdvancedSolver.FinalRecorded | backend/services/advanced_solver.py:210-224 | The "Final State" step made from the last board extends a recorded run ending there. |
| AdvancedSolver.InitialRecorded | backend/services/advanced_solver.py:101-121 | The initial step listing what the first update removed is recorded from the puzzle's board and the propagated one. |
| AdvancedSolver.AdvancedSudokuSolver.GetAvailableTechniques | backend/services/advanced_solver.py:282-284 | The names of the technique table, in order, none twice. |
| AdvancedSolver.AdvancedSudokuSolver.ApplyTechniqueEliminations | backend/services/advanced_solver.py:43-85 | The technique's result is returned unchanged. Its truth follows the tuple rule. The changes are exactly the cells whose candidates lost values, row by row, tagged "technique". A false result leaves the board the technique's first update_candidates made. |
| AdvancedSolver.AdvancedSudokuSolver.Solve | backend/services/advanced_solver.py:87-240 | The grid extends the puzzle, and is_solved holds exactly when it is a solution. The loop runs exactly 100 rounds. The message counts the technique steps, two to four per round. techniques_applied has no duplicates, starts with "Naked Singles" and holds "Hidden Pairs". The trace has the LoopTrace shape. It starts with the initial step exactly when the first update removed something, and ends with "Final State" exactly when the board is unsolved with an empty cell. Every step is tied to the boards of the run from the puzzle's grid (`Recorded` with `Made`): a technique step is `TechniqueStep` of the board before the technique and the board the technique left, and the board after it is that board after update_candidates. The initial step lists what the first update removed. The final step shows the last board, which is the one solved_grid shows. |
| AdvancedSolver.AdvancedSudokuSolver.Loop | backend/services/advanced_solver.py:123-205 | The loop never sees an unchanged round. It runs 100 rounds of two to four technique steps and keeps the trace's shape. Every step it adds is made from the boards around its technique call, ending at the board the loop leaves. |
| AdvancedSolver.AdvancedSudokuSolver.Close | backend/services/advanced_solver.py:207-240 | The result is built from the final board. The final step is added exactly when the board is unsolved with an empty cell, and it is made from that board. The message's step count is the number of technique steps. |
| AdvancedSolver.AdvancedSudokuSolver.Initial | backend/services/advanced_solver.py:101-121 | The board is updated. The initial step is recorded exactly when the update removed candidates, and it lists what the update removed. |
| AdvancedSolver.AdvancedSudokuSolver.Round | backend/services/advanced_solver.py:131-205 | A round always reports a change. It notes "Naked Singles" and "Hidden Pairs" and records two to four steps, each made from the boards around its technique call. |
| AdvancedSolver.AdvancedSudokuSolver.Attempt | backend/services/advanced_solver.py:131-205 | Technique k keeps the round's invariant, and the trace stays recorded from the run's boards up to the board the call leaves. |
| AdvancedSolver.AdvancedSudokuSolver.Record | backend/services/advanced_solver.py:132-205 | A tuple technique always records a step, and a recorded step names the technique. It is `TechniqueStep` of the board before the call and the board the technique left, and the board ends as that board after update_candidates. A false result leaves the board the technique's first update_candidates made. |
| AdvancedSolver.AdvancedSudokuSolver.Iterate | backend/services/advanced_solver.py:123-205 | One round keeps the loop's invariant `Running`, with one more round counted. |
| AdvancedSolver.AdvancedSudokuSolver.TechniqueRecord | backend/services/advanced_solver.py:150-204 | update_candidates then runs on the board the technique left. The step is `TechniqueStep` of the snapshot before the technique and that board, with both diffs tagged and counted. |
| EnhancedSolver.LoopTraceSteps | backend/services/enhanced_solver.py:63-183 | Every step of the main trace is well formed where it stands: the "Initial State" step first, technique steps after it. |
| EnhancedSolver.InitialStepShown | backend/services/enhanced_solver.py:53-73 | The "Initial State" step shows the board before the first update_candidates. Each change that update made is of an empty cell and starts from the candidates the step shows. |
| EnhancedSolver.TechniqueStepShown | backend/services/enhanced_solver.py:94-182 | The step for a true result names its technique. Its cells_solved and solved_positions are the cells it filled, and its changes are the losses its snapshot shows. |
| EnhancedSolver.CloseTrace | backend/services/enhanced_solver.py:188-202 | The main trace is a whole trace with no final step. When it has steps, so is the trace with the "Final State" step added. |
| EnhancedSolver.AppendStep | backend/services/enhanced_solver.py:171-182 | Appending a technique step keeps the main trace well formed, with the same first step. |
| EnhancedSolver.NextSoFar | backend/services/enhanced_solver.py:83-183 | Each technique of a round keeps the round's invariant. Naked singles and hidden pairs always add a step. |
| EnhancedSolver.FinalRecorded | backend/services/enhanced_solver.py:188-202 | The "Final State" step made from the last board extends a recorded run ending there. |
| EnhancedSolver.EnhancedSudokuSolver.GetAvailableTechniques | backend/services/enhanced_solver.py:220-227 | The names of the technique table, in order, none twice. |
| EnhancedSolver.EnhancedSudokuSolver.Solve | backend/services/enhanced_solver.py:32-218 | The grid extends the puzzle, and is_solved holds exactly when it is a solution. The loop runs exactly 100 rounds. The message counts the technique steps, two to four per round. techniques_applied has no duplicates, starts with "Naked Singles" and holds "Hidden Pairs". The trace has the LoopTrace shape, opens with the puzzle as given and the first update's changes, and ends with "Final State" exactly when the board is unsolved with an empty cell. Every step is tied to the boards of the run from the puzzle's grid (`Recorded` with `Made`): a technique step is `TechniqueStep` of the board before its call and the board after it, and between two steps only an update_candidates run can happen. The last board is the one solved_grid shows. |
| EnhancedSolver.EnhancedSudokuSolver.Loop | backend/services/enhanced_solver.py:75-183 | The loop never sees an unchanged round. It runs 100 rounds of two to four technique steps and keeps the first step. Every step it adds is made from the boards before and after its call, ending at the board the loop leaves. |
| EnhancedSolver.EnhancedSudokuSolver.Close | backend/services/enhanced_solver.py:185-218 | The result is built from the final board. The final step is added exactly when the board is unsolved with an empty cell, and it is made from that board. The message's step count is the number of technique steps. |
| EnhancedSolver.EnhancedSudokuSolver.Initial | backend/services/enhanced_solver.py:53-73 | The board is updated. The trace is the "Initial State" step of the board before the update, recorded from that board and the updated one. |
| EnhancedSolver.EnhancedSudokuSolver.Round | backend/services/enhanced_solver.py:83-183 | A round always reports a change. It notes "Naked Singles" and "Hidden Pairs" and records two to four steps, each made from the boards before and after its call. |
| EnhancedSolver.EnhancedSudokuSolver.Attempt | backend/services/enhanced_solver.py:83-183 | Technique k keeps the round's invariant, and the trace stays recorded from the run's boards up to the board the call leaves. |
| EnhancedSolver.EnhancedSudokuSolver.Record | backend/services/enhanced_solver.py:84-183 | A tuple technique always records a step, and a recorded step names the technique. It is `TechniqueStep` of the board before the call and the board after it. A false result records nothing and leaves the board the technique's first update_candidates made. |
| EnhancedSolver.EnhancedSudokuSolver.Iterate | backend/services/enhanced_solver.py:75-183 | One round keeps the loop's invariant `Running`, with one more round counted. |
| Trace.FilledCount | backend/services/frontend_solver.py:95-97 | The number of filled cells among the first n is at most n. |
| Trace.NewlyFilledMeaning | backend/services/enhanced_solver.py:110-116 | solved_positions lists exactly the cells that went from empty to filled, each once, in row-major order, with the value after. |
| Trace.CellsSolvedCount | backend/services/enhanced_solver.py:87-107 | When solved cells stay solved, cells_solved (the rise in the filled count) is the length of solved_positions. |
| Trace.FilledCountFull | backend/services/advanced_solver.py:210-212 | All of the first n cells are filled exactly when the filled count is n. |
| Trace.SolvedPositions | backend/services/enhanced_solver.py:110-116 | The nested loop computes the listing of newly filled cells. |
| Trace.CandidateDiffMeaning | backend/services/enhanced_solver.py:119-143 | The candidate-change loop lists exactly the cells that lost candidates, each once, in row-major order. With the frontend's extra test, only cells still empty are listed. Each record carries the old and new candidates and a non-empty difference. |
| Trace.CandidateDiffEmpty | backend/services/enhanced_solver.py:119-143 | Snapshots with no candidate lost give no records. |
| Trace.CandidateChanges | backend/services/advanced_solver.py:65-83 | The loop computes the candidate diff. |
| Trace.UpdateCandidatesIsDiff | backend/board/board.py:73-79 | The change list update_candidates returns is the snapshot diff around it. The cells it touches stay empty, so the extra still-empty test changes nothing. |
| Trace.PropagateAllClosedForm | backend/board/board.py:73-79 | update_candidates recomputes every empty cell from the board it started from. |
| Trace.PlannedIsDiff | backend/board/board.py:39-71 | Over the first n cells, the changes propagation records are the snapshot diff. |
| Trace.BoardSolvedIsGridSolved | backend/board/board.py:163-192 | board.is_solved() holds exactly when the reported value grid is full and repeats no digit in a row, column or box. |
| Trace.HasEmptyCount | backend/services/solver_service.py:66 | The grid has an empty entry exactly when fewer than 81 cells are filled. |
| Trace.RowZeros | backend/services/solver_service.py:66 | The zeros among the first n entries of a row number at most n. |
| Trace.RowZerosCount | backend/services/solver_service.py:66 | The zeros in the first c entries of row r of the value grid are the empty board cells among 9r .. 9r + c. |
| Trace.ZerosCount | backend/services/solver_service.py:66 | The zeros in the first r rows of the value grid are the empty board cells among the first 9r. |
| Trace.AdvancedExtends | backend/services/solver_service.py:42-60 | A board the techniques advanced from the puzzle reports a grid that keeps every given entry and fills the rest only with digits 1..9. |
| Trace.DiffShown | backend/services/enhanced_solver.py:171-182 | A step showing the later snapshot reports its diff faithfully. Each record's new candidates are the ones shown, and the records all carry the same elimination_type. |
| Trace.LossShown | backend/services/frontend_solver.py:141-158 | A recorded loss is shown by the step displaying the later grid. With the still-empty test, its cell is shown empty. |
| Trace.FillsShown | backend/services/enhanced_solver.py:100-116 | A step with the later grid, those solved_positions and that cells_solved shows every fill, and the two numbers agree. |
| Trace.Tag | backend/services/advanced_solver.py:242-256 | Attaching an elimination_type keeps every record, in order. |
| Trace.TechniqueStepCount | backend/services/advanced_solver.py:205 | The technique steps of a trace are never more than its steps. |
| Trace.TechniqueStepCountAppend | backend/services/advanced_solver.py:190-205 | Appending a step raises the count by one exactly when it is a technique step. |
| Trace.AddFinalStep | backend/services/advanced_solver.py:210-224 | The "Final State" step is appended exactly when there are steps, the board is unsolved and an empty cell remains. Otherwise the trace is unchanged. |
| Trace.Outcome | backend/services/solver_service.py:59-75 | solved_grid is the value grid, and is_solved holds exactly when it is a solution. The message is the solved message exactly when solved. Otherwise its empty-cell count is the number of zeros in solved_grid, summed row by row, and it is positive exactly when one remains. |
| Trace.GapTrans | backend/services/frontend_solver.py:189 | Two update_candidates runs in a row leave what one leaves. |
| Trace.RecordedGap | backend/services/frontend_solver.py:189 | A recorded run stays recorded when an update_candidates run follows it. |
| Trace.RecordedAppend | backend/services/enhanced_solver.py:84-183 | A recorded run followed by a recorded block from the board it ended on is a recorded run. |
| Trace.RecordedAt | backend/services/enhanced_solver.py:84-183 | In a recorded run every step is made from its own boards, each step's first board follows the previous step's last board by at most one update_candidates run, and so does the run's final board. |
| Trace.QuietCall | backend/services/frontend_solver.py:106-158 | A technique that filled no cell and removed no candidate from a cell still empty left the board as it was. |
| Search.Flatten | backend/services/validation_service.py:118 | The row copies laid out row-major: cell i is row i / 9, column i % 9. |
| Search.UsedValuesMeaning | backend/services/validation_service.py:42-55 | A value is in the used set exactly when some cell of the row, column or box holds it. |
| Search.UnusedMeaning | backend/services/validation_service.py:57 | The comprehension keeps, in ascending order, exactly the values of n..9 not used. |
| Search.Candidates | backend/services/validation_service.py:30-57 | get_candidates returns, in ascending order and at most nine, exactly the digits no cell of the row, column or box holds. |
| Search.AscendingDigits | backend/services/validation_service.py:57 | A strictly ascending list of digits above low has at most 9 - low entries. |
| Search.FirstEmptyFrom | backend/services/validation_service.py:70-74 | The first empty cell from index i on, or None when there is none. |
| Search.FirstEmpty | backend/services/validation_service.py:60-74 | find_empty_cell returns the first empty cell in row-major order, or None exactly when the board is full. |
| Search.NoEmptyCompletion | backend/services/validation_service.py:88-90 | A full board is its own only completion, whatever it repeats, so it counts as one solution. |
| Search.CompletionSplit | backend/services/validation_service.py:95-98 | Branching on empty cell i: s completes the board exactly when its digit there fits and s completes the board with that digit written in. |
| Search.Zeros | backend/services/validation_service.py:72 | The number of empty cells is at most the number of cells. |
| Search.ZerosFill | backend/services/validation_service.py:96 | Writing a digit into an empty cell leaves one empty cell fewer, which bounds the recursion. |
| Search.SolutionsMeaning | backend/services/validation_service.py:77-104 | The leaves the search reaches are exactly the completions of the board. |
| Search.CompletionKeeps | backend/services/validation_service.py:77-104 | A completion keeps every given cell. |
| Search.BranchesMeaning | backend/services/validation_service.py:95-98 | Below the trial digits from k on lie exactly the completions with one of those digits at the cell. |
| Search.LeavesMeaning | backend/services/validation_service.py:96-97 | Below trial digit v lie exactly the completions with v at the cell. |
| Search.UniqueMeaning | backend/services/validation_service.py:107-121 | One leaf means exactly one completion. |
| Search.SomeMeaning | utilities/check_solvable.py:31-46 | Some leaf means some completion. |
| ValidationService.ValuesInRange | backend/services/validation_service.py:24-26 | The inner loop passes exactly when every remaining entry is in 0..9. |
| ValidationService.RowsValid | backend/services/validation_service.py:21-26 | The row loop passes exactly when every remaining row has nine entries, all in 0..9. |
| ValidationService.IsValidFormat | backend/services/validation_service.py:9-27 | True exactly when the puzzle has nine rows of nine entries, each in 0..9. The same holds for is_valid_puzzle_format at backend/api/validators.py:8-28, whose isinstance test integers always pass. |
| ValidationService.CountSolutions | backend/services/validation_service.py:77-104 | The board ends as it began. The count never exceeds the number of completions, and is exact while below max_solutions. A full board counts as one. |
| ValidationService.TryAll | backend/services/validation_service.py:95-104 | The trial loop restores the board. Its tally is bounded by the completions below the trial digits, and exact while below the cap. |
| ValidationService.Trial | backend/services/validation_service.py:96-98 | Placing a digit, counting and writing 0 back restores the board. The count is bounded by, and while below the cap equal to, the completions with that digit. |
| ValidationService.TallyStep | backend/services/validation_service.py:97-102 | Adding one trial's count keeps the tally's bounds. |
| ValidationService.HasUniqueSolution | backend/services/validation_service.py:107-121 | True exactly when the puzzle has exactly one completion. The count runs on a copy, so the caller's puzzle is untouched. The same code is nested in backend/api/validators.py:31-89. |
| ValidationService.IsSolvable | backend/services/validation_service.py:124-136 | The delegated check's answer: whether the puzzle has a completion. |
| CheckSolvable.EmptyFlags | utilities/check_solvable.py:6 | Which cells are empty. |
| CheckSolvable.CandidateCounts | utilities/check_solvable.py:7-8 | Each cell's candidate count, 0..9. |
| CheckSolvable.PickUnique | utilities/check_solvable.py:1-13 | The cell the scan picks is determined uniquely. |
| CheckSolvable.FewestEmptyCell | utilities/check_solvable.py:1-13 | None exactly when no cell is empty. Otherwise the first empty cell with strictly fewest candidates, returned early once a cell with one candidate is found. |
| CheckSolvable.Solve | utilities/check_solvable.py:31-41 | On True the board is a completion of where it started. On False it is unchanged and has no completion. A full board counts as solved. |
| CheckSolvable.TrialSucceeds | utilities/check_solvable.py:36-39 | A completion found below a candidate digit completes the board. |
| CheckSolvable.NoTrialLeft | utilities/check_solvable.py:36-41 | When no candidate digit leads to a completion, the board has none. |
| CheckSolvable.TrialFails | utilities/check_solvable.py:37-40 | A failed trial rules out its digit for every completion. |
| CheckSolvable.CheckSolvable | utilities/check_solvable.py:44-46 | Works on a copy and answers whether the board has a completion. |

## Left out

- The HTTP layer (backend/api/routes.py, backend/app.py, backend/run.py, backend/api/models.py), the display and print helpers (backend/helpers/print_board.py, backend/display_solver.py, the colorama `__repr__` methods) and the test scripts: they are I/O around the core.
- The top-level board/, solver.py, main.py and helpers/read_puzzle.py: an older console program; only its logic/ techniques (naked single, hidden pair) belong to the core. The logic/hidden_single.py and logic/naked_pairs.py copies are the same code as the backend modules and are modelled by them.
- backend/config/settings.py: it defines no SUDOKU_MAX_ITERATIONS, so the step-by-step and frontend solvers built without a cap fail with AttributeError (their `Create`), and the cap is a parameter of their constructors.
- helpers.check_solvable, which is_solvable imports, is not part of this model; `ValidationService.IsSolvable` takes it to be utilities/check_solvable.py.
- The backend services import `logic.technique_step` and `logic.unit_processor`; these are taken to be backend/models/technique_step.py and backend/utils/unit_processor.py.
- Descriptions, explanations and messages: kept as the data they are written from (`Steps.Text`, `Trace.Message`), not as formatted text; initial_empty_count and remaining_empty appear only inside that text and are not modelled.
- AdvancedSolver and EnhancedSolver technique steps: their records leave `stepNumber` None, so the "Step {n}" number written into their descriptions (backend/services/advanced_solver.py:180-187, backend/services/enhanced_solver.py:151-156) is not stored. The number is still pinned down: both traces keep the count of technique steps equal to step_number - 1, and step_number goes up exactly when a step is added, so the k-th technique step is written with k. The frontend solver's technique steps do store their number; there step_number also goes up for a true result that records no step.
- FrontendSolver.FrontendSudokuSolver.Solve: the boards around a technique call are tied only by "advances" (cells only get filled, candidates only shrink); which technique changed them, and how, is proved per technique in its own module, not restated in the trace.
- AdvancedSolver.AdvancedSudokuSolver.Solve: as for the frontend solver, the board a technique leaves is tied to the one before it only by "advances".
- EnhancedSolver.EnhancedSudokuSolver.Solve: as for the frontend solver, the board a technique leaves is tied to the one before it only by "advances".
- SolverService.SudokuSolver.Solve: as for the frontend solver, the boards between rounds are tied only by "advances". Within a round, `Round` also gives each call's board before and after. A call whose result is false only refreshed the candidates; what a true call changed is proved per technique in its own module.
- Python `set` iteration order: modelled as ascending order; the order in which `update_peers` visits a cell's peers is left arbitrary (`:|`), and every contract holds for any order. CPython lists small int sets by hash slot, so a set holding 8 or 9 with smaller digits can come out of ascending order (`list({1, 8})` is `[8, 1]`). Where the order shows, the model can therefore differ from the interpreter. A naked-triple unit's eligible cell list (`list(set(cell_indices))`, backend/logic/naked_triples.py:43) can start with index 8, so `combinations` (:50) tries the triples in another order. The triple chosen, its focus cells (:84-86) and the candidates it removes can then differ from the interpreter's. Example: row 0 open cells (0,1)={1,2}, (0,2)={1,2}, (0,3)={1,3}, (0,8)={2,4}. The interpreter's list is [8, 1, 2, 3]; it takes (8,1,2), with union {1,2,4}, and removes 1 from (0,3). The model takes (1,2,3), with union {1,2,3}, and removes 2 from (0,8). The order of a hidden pair's focus cells differs the same way. So does the key order of its eliminations: `for v in eliminated` (backend/logic/hidden_pairs.py:54) lists "8" before "3" for {3, 8}.
- `copy.deepcopy` and list comprehensions over the board: modelled as value copies of the cell array.
- Dynamic types: puzzles are `seq<seq<int>>`, values `int` and candidate collections `set<int>`, so three runtime type checks always pass and are not modelled: the isinstance test of backend/api/validators.py, set_value's isinstance int check (backend/board/cell.py:19), and set_candidates' `ValueError("Candidates must be a set")` (backend/board/cell.py:31-32). Non-integer entries are not modelled.
- StepByStepSolver.FormatEliminations: its records leave old_candidates and new_candidates empty, as the source does; no contract relates them to the board.
- KeyError and ValueError paths that a valid board cannot reach (a get_cell_location call on a board cell, a missing dictionary key) are excluded by `SudokuBoard.Valid()` rather than modelled as errors; get_cell_location's own ValueError is modelled in `Location`.
- Integer width: Python integers are unbounded, as Dafny's are, so no wrap-around is modelled.
- Concurrency and the module-level solver instances shared between requests are not modelled; each solve gets its own board.
