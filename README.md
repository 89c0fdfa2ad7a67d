# Crossword schema integrity, in Dafny

This project models the data-integrity rules of the crossword schema of
`criss_cross/models.py`: five tables (Board, BoardCell, Clue, CluePlacement,
ClueCell), the checks a new row must pass before it is stored, and the
cascade that follows a delete along the foreign keys.

- `wrappers.dfy` — `Option` and `Result`.
- `schema.dfy` (module `Schema`) — the rows as datatypes. It also holds the checks
  each row makes on its own fields: the `board_rows_range` and `board_cols_range`
  check constraints, `BoardCell.clean`, the `max_length` of the clue's texts, and
  the direction choices 'A' and 'D'.
- `counting.dfy` (module `Counting`) — how many positions a board has, and the
  fact that a one-to-one map preserves the size of a set.
- `store.dfy` (module `Store`) — the five tables as one value, `Tables`. `Valid`
  is their invariant: every row passes its checks, every unique constraint
  holds and no foreign key dangles. The file also holds the decision on each
  insert (`CellRejection`, `PlacementRejection`, `ClueCellRejection`) and the
  cascade delete (`Cascade`). Its lemmas prove that an insert is accepted
  exactly when storing the row keeps `Valid`. They also prove that a cascade
  leaves no dangling reference and removes no more than it must.
- `database.dfy` (module `Database`) — class `Database`. It has the five tables
  as map fields and one primary-key counter per table. Its insert and delete
  methods change the tables in place, keep `Valid()`, and state the new
  contents in terms of the `Store` functions.

Where the code and its design notes differ, the model follows the code. A
board's sides lie in 1..21 and need not be equal. A ClueCell refers to a
BoardCell rather than holding a row and column of its own. No check makes an
answer fit on the board or aligns a clue cell with its placement's geometry.
`Clue.length` is marked as derived, but nothing derives it, so it is a plain
natural number. No rule stops the same clue from being placed twice on one board.

Each insert reports one error. The errors are checked in this order: missing
foreign keys first, then the field checks and choices, then `clean()`, then
the unique constraints in the order they are declared.

## Model

| member | source | states |
|---|---|---|
| `Schema.BoardCheck` | criss_cross/models.py:9-17 | a board is accepted exactly when 1 <= rows <= 21 and 1 <= cols <= 21; `board_rows_range` is reported when rows is out of range, otherwise `board_cols_range` when cols is |
| `Schema.BoardCheckExamples` | criss_cross/models.py:10-17 | a 3x20 board and a 1x21 board are accepted; a side of 0 or 22 is refused, naming the constraint it breaks |
| `Schema.Clean` | criss_cross/models.py:34-39 | clean passes exactly when (row_index, col_index) is one of the board's positions. It fails with "Row Index out of bounds" exactly when row_index >= rows, whatever the column. It fails with "Col Index out of bounds" exactly when the row is valid and col_index >= cols |
| `Schema.ClueCheck` | criss_cross/models.py:41-44 | a clue is accepted exactly when its question has at most 150 characters and its answer at most 21; the question is reported first |
| `Schema.ParseDirection` | criss_cross/models.py:52-58 | a direction code is read exactly when it is 'A' or 'D', and it reads back as the code it came from |
| `Schema.ParseCode` | criss_cross/models.py:52-58 | both choices, Across and Down, read back from their codes |
| `Schema.PlacementCheck` | criss_cross/models.py:52-58 | a placement's fields pass exactly when its direction is one of the two choices; otherwise the offending character is reported |
| `Counting.PositionsSize` | criss_cross/models.py:34-39 | a board has rows * cols positions, at most 441 once its check constraints hold |
| `Store.BoardAccepted` | criss_cross/models.py:5-17 | a new board is accepted exactly when storing it keeps the invariant |
| `Store.ClueAccepted` | criss_cross/models.py:41-44 | a new clue is accepted exactly when storing it keeps the invariant |
| `Store.CellAccepted` | criss_cross/models.py:20-39 | a new board cell is accepted exactly when storing it keeps the invariant: its board exists, clean passes, and no stored cell has the same (board, row_index, col_index) |
| `Store.PlacementAccepted` | criss_cross/models.py:46-65 | a new placement is accepted exactly when storing it keeps the invariant: board and clue exist, direction is 'A' or 'D', and no stored placement has the same (board, start_row, start_col, direction) |
| `Store.ClueCellAccepted` | criss_cross/models.py:68-83 | a new clue cell is accepted exactly when storing it keeps the invariant: placement and board cell exist, and its placement uses neither that index nor that board cell yet |
| `Store.CellCollision` | criss_cross/models.py:26-31 | after a cell is stored, a cell that was acceptable before is refused with `board_cell_unique_board_row_col` exactly when it has the same board, row and column |
| `Store.PlacementCollision` | criss_cross/models.py:60-65 | after a placement is stored, a placement that was acceptable before is refused with `clue_placement_unique_row_col_direction` exactly when it has the same board, start and direction, and is still accepted otherwise |
| `Store.AcrossAndDownBothAccepted` | criss_cross/models.py:52-65 | an Across placement does not block a Down placement from the same start cell |
| `Store.ClueCellCollision` | criss_cross/models.py:73-83 | after a clue cell is stored, an acceptable clue cell is refused with `unique_index_per_placement` when it repeats the index in the same placement. Otherwise it is refused with `unique_cell_per_placement` when it repeats the board cell there. Otherwise it is still accepted |
| `Store.Cascade` | criss_cross/models.py:21-70 | after a cascade no foreign key dangles, every surviving row is unchanged, and none of the named rows remains |
| `Store.CascadeKeepsValid` | criss_cross/models.py:21-70 | a cascade keeps the invariant: checks, unique constraints and references |
| `Store.CascadeKeepsWhatItCan` | criss_cross/models.py:21-70 | a cascade removes no more than it must: any part of the tables that avoids the deleted rows and has no dangling reference survives |
| `Store.DeleteBoardEffect` | criss_cross/models.py:21-70 | deleting a board removes its board cells and placements, and every clue cell whose placement or board cell was on it; clues and every other row stay |
| `Store.DeleteClueEffect` | criss_cross/models.py:47-69 | deleting a clue removes exactly the placements that use it and their clue cells; boards and board cells stay |
| `Store.DeleteCellEffect` | criss_cross/models.py:68-70 | deleting a board cell removes exactly the clue cells that claim it; boards, clues and placements stay |
| `Store.DeletePlacementEffect` | criss_cross/models.py:68-69 | deleting a placement removes exactly its clue cells; boards, board cells and clues stay |
| `Store.DeleteClueCellEffect` | criss_cross/models.py:68-83 | deleting a clue cell removes that row and nothing else |
| `Store.BoardCapacity` | criss_cross/models.py:26-39 | the unique constraint together with clean bounds the cells of one board by rows * cols, and so by 441 |
| `Store.PlacementCellsDistinct` | criss_cross/models.py:73-83 | within one placement, clue cells, their indices and their board cells are in one-to-one correspondence: no index and no board cell repeats |
| `Database.Database.AddBoard` | criss_cross/models.py:5-17 | an out-of-range board is refused with the constraint it breaks and changes nothing; otherwise it is stored under a fresh key and nothing else changes |
| `Database.Database.AddCell` | criss_cross/models.py:20-39 | a refused cell changes nothing, which covers a duplicate position; otherwise it is stored under a fresh key, and the invariant is kept |
| `Database.Database.AddClue` | criss_cross/models.py:41-44 | an over-long clue is refused and changes nothing; otherwise it is stored under a fresh key |
| `Database.Database.AddPlacement` | criss_cross/models.py:46-65 | a refused placement changes nothing; otherwise it is stored under a fresh key, and the invariant is kept |
| `Database.Database.AddClueCell` | criss_cross/models.py:68-83 | a refused clue cell changes nothing; otherwise it is stored under a fresh key, and the invariant is kept |
| `Database.Database.DeleteBoard` | criss_cross/models.py:21-70 | the tables become what the cascade from the board leaves, and the invariant is kept |
| `Database.Database.DeleteCell` | criss_cross/models.py:68-70 | the tables become what the cascade from the board cell leaves, and the invariant is kept |
| `Database.Database.DeleteClue` | criss_cross/models.py:47-69 | the tables become what the cascade from the clue leaves, and the invariant is kept |
| `Database.Database.DeletePlacement` | criss_cross/models.py:68-69 | the tables become what the cascade from the placement leaves, and the invariant is kept |
| `Database.Database.DeleteClueCell` | criss_cross/models.py:68-83 | only that clue cell goes, and the invariant is kept |

## Left out

- Answer normalisation, checks that a placement fits on the board, and alignment of a clue cell with its placement. The code has none of these.
- Deriving `Clue.length` from the answer. The field is marked as derived, but nothing computes it.
- Updating a stored row by saving it again. Only inserts and deletes are modelled. An update would re-run the same checks with the row itself excluded from the unique constraints.
- How the database and the ORM run the rules: SQL, transactions, migrations, and when `clean()` is called. The model assumes every insert runs the model's full validation (field checks, `clean()`, constraints) before it is stored.
- Reporting several errors at once. Django's full validation gathers the messages of every failing field. The model reports the first failure in the fixed order given above. When both board sides are out of range, the code does not fix which constraint the database names; the model names `board_rows_range`.
- The default rule that a CharField may not be blank. The code never declares it; it is a framework default.
- `BoardCell.value`: it is modelled as a single character and nothing constrains it, so an empty value cannot be expressed.
- The database's upper limit on PositiveIntegerField. Sides, indices and keys are unbounded natural numbers; the check constraints already bound the sides.
- Deleting a key that is not stored. It removes nothing, as a filtered queryset delete would. Deleting an unsaved instance, which the framework refuses, is not modelled.
- Primary keys come from one counter per table and are never reused. How the database picks keys beyond that is not modelled.
- `criss_cross/static/js/main.js`: it builds the grid's page elements in the browser and holds no integrity logic.
- Concurrent writers. Conflicting writes are resolved by the database, not by this code.
