/**
 * The rows of the crossword schema (criss_cross/models.py) and the checks
 * that each row must pass on its own or against the board it refers to:
 * the two board check constraints, the field lengths of a clue, the
 * direction choices of a placement, and BoardCell.clean.
 *
 * Foreign keys are the ids of the referenced rows.
 */
module Schema {
  import opened Wrappers

  type Id = nat

  /** Bounds of the check constraints board_rows_range and board_cols_range. */
  const MinSide: nat := 1
  const MaxSide: nat := 21

  /** max_length of Clue.question and Clue.answer. */
  const QuestionMaxLength: nat := 150
  const AnswerMaxLength: nat := 21

  /** Constraint names as declared on the models. */
  const RowsRange := "board_rows_range"
  const ColsRange := "board_cols_range"
  const CellUnique := "board_cell_unique_board_row_col"
  const PlacementUnique := "clue_placement_unique_row_col_direction"
  const IndexUnique := "unique_index_per_placement"
  const CellPerPlacementUnique := "unique_cell_per_placement"

  /** Messages raised by BoardCell.clean. */
  const RowOutOfBounds := "Row Index out of bounds"
  const ColOutOfBounds := "Col Index out of bounds"

  /** Why a row is refused. */
  datatype Error =
    | CheckViolated(constraint: string)       // a CheckConstraint fails
    | CleanFailed(message: string)            // a model's clean() raised ValidationError
    | TooLong(field: string, maxLength: nat)  // a CharField exceeds max_length
    | NotAChoice(field: string, value: char)  // a CharField value outside its choices
    | UniqueViolated(constraint: string)      // a UniqueConstraint fails
    | MissingReference(field: string)         // a ForeignKey names no stored row

  /** PositiveIntegerField admits 0, hence nat throughout. */
  datatype Board = Board(rows: nat, cols: nat)

  /** value is a CharField(max_length=1); nothing else constrains it. */
  datatype BoardCell = BoardCell(board: Id, rowIndex: nat, colIndex: nat, value: char)

  /** length is declared as derived, but nothing derives it: a plain field. */
  datatype Clue = Clue(question: string, answer: string, length: nat)

  datatype CluePlacement = CluePlacement(board: Id, clue: Id, startRow: nat, startCol: nat, direction: char)

  datatype ClueCell = ClueCell(cluePlacement: Id, boardCell: Id, clueIndex: nat)

  // ---------------------------------------------------------------- Board

  predicate SideInRange(n: nat)
  {
    MinSide <= n <= MaxSide
  }

  /**
   * The board's check constraints, rows first. A board is accepted exactly
   * when both sides lie in 1..21; nothing relates rows to cols.
   */
  function BoardCheck(b: Board): (r: Option<Error>)
    ensures r == None <==> SideInRange(b.rows) && SideInRange(b.cols)
    ensures r == Some(CheckViolated(RowsRange)) <==> !SideInRange(b.rows)
    ensures r == Some(CheckViolated(ColsRange)) <==> SideInRange(b.rows) && !SideInRange(b.cols)
  {
    if !SideInRange(b.rows) then Some(CheckViolated(RowsRange))
    else if !SideInRange(b.cols) then Some(CheckViolated(ColsRange))
    else None
  }

  /** Boards need not be square, the smallest side is 1, and a side of 0 or 22 is refused. */
  lemma BoardCheckExamples()
    ensures BoardCheck(Board(3, 20)) == None
    ensures BoardCheck(Board(1, 21)) == None
    ensures BoardCheck(Board(0, 5)) == Some(CheckViolated(RowsRange))
    ensures BoardCheck(Board(5, 22)) == Some(CheckViolated(ColsRange))
  {
  }

  /** A board's positions: every (row, col) with row < rows and col < cols. */
  function Positions(b: Board): set<(nat, nat)>
  {
    set row: nat, col: nat | row < b.rows && col < b.cols :: (row, col)
  }

  // ------------------------------------------------------------ BoardCell

  /**
   * BoardCell.clean: the row index is checked first, then the column index;
   * the first failure is reported. A cell is clean exactly when it lies on
   * one of its board's positions.
   */
  function Clean(board: Board, cell: BoardCell): (r: Option<Error>)
    ensures r == None <==> (cell.rowIndex, cell.colIndex) in Positions(board)
    ensures r == Some(CleanFailed(RowOutOfBounds)) <==> cell.rowIndex >= board.rows
    ensures r == Some(CleanFailed(ColOutOfBounds)) <==> cell.rowIndex < board.rows && cell.colIndex >= board.cols
  {
    if cell.rowIndex >= board.rows then Some(CleanFailed(RowOutOfBounds))
    else if cell.colIndex >= board.cols then Some(CleanFailed(ColOutOfBounds))
    else None
  }

  // ----------------------------------------------------------------- Clue

  /** The max_length checks of the clue's two CharFields, question first. */
  function ClueCheck(c: Clue): (r: Option<Error>)
    ensures r == None <==> |c.question| <= QuestionMaxLength && |c.answer| <= AnswerMaxLength
    ensures r == Some(TooLong("question", QuestionMaxLength)) <==> |c.question| > QuestionMaxLength
    ensures r == Some(TooLong("answer", AnswerMaxLength)) <==>
              |c.question| <= QuestionMaxLength && |c.answer| > AnswerMaxLength
  {
    if |c.question| > QuestionMaxLength then Some(TooLong("question", QuestionMaxLength))
    else if |c.answer| > AnswerMaxLength then Some(TooLong("answer", AnswerMaxLength))
    else None
  }

  // -------------------------------------------------------- CluePlacement

  /** The two choices of CluePlacement.direction. */
  datatype Direction = Across | Down

  function Code(d: Direction): char
  {
    match d
    case Across => 'A'
    case Down => 'D'
  }

  /** Reads a stored direction code; None for anything outside the choices. */
  function ParseDirection(c: char): (r: Option<Direction>)
    ensures r.Some? <==> c == 'A' || c == 'D'
    ensures r.Some? ==> Code(r.value) == c
  {
    if c == 'A' then Some(Across)
    else if c == 'D' then Some(Down)
    else None
  }

  /** Every direction's code reads back as that direction. */
  lemma ParseCode(d: Direction)
    ensures ParseDirection(Code(d)) == Some(d)
  {
  }

  /** The choices check of the placement's fields. */
  function PlacementCheck(p: CluePlacement): (r: Option<Error>)
    ensures r == None <==> ParseDirection(p.direction).Some?
    ensures r.Some? ==> r.value == NotAChoice("direction", p.direction)
  {
    if ParseDirection(p.direction).None? then Some(NotAChoice("direction", p.direction)) else None
  }
}
