/**
 * The stored crossword tables as one object. Saving a new row checks it
 * (foreign keys, field checks and clean(), then the unique constraints) and
 * either stores it under a fresh primary key or refuses it and leaves every
 * table as it was; deleting a row cascades along the foreign keys.
 */
module Database {
  import opened Wrappers
  import opened Schema
  import Store

  class Database {
    var boards: map<Id, Board>
    var cells: map<Id, BoardCell>
    var clues: map<Id, Clue>
    var placements: map<Id, CluePlacement>
    var clueCells: map<Id, ClueCell>

    /** The next primary key of each table; keys are never reused. */
    var nextBoard: Id
    var nextCell: Id
    var nextClue: Id
    var nextPlacement: Id
    var nextClueCell: Id

    /** The five tables as a value. */
    function Contents(): Store.Tables
      reads this
    {
      Store.Tables(boards, cells, clues, placements, clueCells)
    }

    ghost predicate Valid()
      reads this
    {
      && Store.Valid(Contents())
      && (forall b :: b in boards ==> b < nextBoard)
      && (forall c :: c in cells ==> c < nextCell)
      && (forall q :: q in clues ==> q < nextClue)
      && (forall p :: p in placements ==> p < nextPlacement)
      && (forall k :: k in clueCells ==> k < nextClueCell)
    }

    constructor ()
      ensures Valid() && Contents() == Store.Empty
    {
      boards, cells, clues, placements, clueCells := map[], map[], map[], map[], map[];
      nextBoard, nextCell, nextClue, nextPlacement, nextClueCell := 0, 0, 0, 0, 0;
    }

    // ------------------------------------------------------------- inserts

    /** Saves a new Board; refused unless both sides lie in 1..21. */
    method AddBoard(rows: nat, cols: nat) returns (r: Result<Id, Error>)
      requires Valid()
      modifies this
      ensures Valid()
      ensures r.Err? <==> BoardCheck(Board(rows, cols)).Some?
      ensures r.Err? ==> Some(r.error) == BoardCheck(Board(rows, cols)) && unchanged(this)
      ensures r.Ok? ==> r.value !in old(boards) &&
                        Contents() == old(Contents()).(boards := old(boards)[r.value := Board(rows, cols)])
    {
      var b := Board(rows, cols);
      var refusal := BoardCheck(b);
      if refusal.Some? {
        return Err(refusal.value);
      }
      Store.BoardAccepted(Contents(), nextBoard, b);
      boards := boards[nextBoard := b];
      r := Ok(nextBoard);
      nextBoard := nextBoard + 1;
    }

    /** Saves a new BoardCell; refused for a missing board, a failing clean(), or a taken position. */
    method AddCell(board: Id, rowIndex: nat, colIndex: nat, value: char) returns (r: Result<Id, Error>)
      requires Valid()
      modifies this
      ensures Valid()
      ensures var c := BoardCell(board, rowIndex, colIndex, value);
        && (r.Err? <==> Store.CellRejection(old(Contents()), c).Some?)
        && (r.Err? ==> Some(r.error) == Store.CellRejection(old(Contents()), c) && unchanged(this))
        && (r.Ok? ==> r.value !in old(cells) && Contents() == old(Contents()).(cells := old(cells)[r.value := c]))
    {
      var c := BoardCell(board, rowIndex, colIndex, value);
      var refusal := Store.CellRejection(Contents(), c);
      if refusal.Some? {
        return Err(refusal.value);
      }
      Store.CellAccepted(Contents(), nextCell, c);
      cells := cells[nextCell := c];
      r := Ok(nextCell);
      nextCell := nextCell + 1;
    }

    /** Saves a new Clue; refused when the question or the answer is too long. */
    method AddClue(question: string, answer: string, length: nat) returns (r: Result<Id, Error>)
      requires Valid()
      modifies this
      ensures Valid()
      ensures var q := Clue(question, answer, length);
        && (r.Err? <==> ClueCheck(q).Some?)
        && (r.Err? ==> Some(r.error) == ClueCheck(q) && unchanged(this))
        && (r.Ok? ==> r.value !in old(clues) && Contents() == old(Contents()).(clues := old(clues)[r.value := q]))
    {
      var q := Clue(question, answer, length);
      var refusal := ClueCheck(q);
      if refusal.Some? {
        return Err(refusal.value);
      }
      Store.ClueAccepted(Contents(), nextClue, q);
      clues := clues[nextClue := q];
      r := Ok(nextClue);
      nextClue := nextClue + 1;
    }

    /**
     * Saves a new CluePlacement; refused for a missing board or clue, a
     * direction other than 'A' or 'D', or a taken (board, start, direction).
     */
    method AddPlacement(board: Id, clue: Id, startRow: nat, startCol: nat, direction: char)
      returns (r: Result<Id, Error>)
      requires Valid()
      modifies this
      ensures Valid()
      ensures var p := CluePlacement(board, clue, startRow, startCol, direction);
        && (r.Err? <==> Store.PlacementRejection(old(Contents()), p).Some?)
        && (r.Err? ==> Some(r.error) == Store.PlacementRejection(old(Contents()), p) && unchanged(this))
        && (r.Ok? ==> r.value !in old(placements) &&
                      Contents() == old(Contents()).(placements := old(placements)[r.value := p]))
    {
      var p := CluePlacement(board, clue, startRow, startCol, direction);
      var refusal := Store.PlacementRejection(Contents(), p);
      if refusal.Some? {
        return Err(refusal.value);
      }
      Store.PlacementAccepted(Contents(), nextPlacement, p);
      placements := placements[nextPlacement := p];
      r := Ok(nextPlacement);
      nextPlacement := nextPlacement + 1;
    }

    /**
     * Saves a new ClueCell; refused for a missing placement or board cell, or
     * when its placement already uses that index or that board cell.
     */
    method AddClueCell(cluePlacement: Id, boardCell: Id, clueIndex: nat) returns (r: Result<Id, Error>)
      requires Valid()
      modifies this
      ensures Valid()
      ensures var k := ClueCell(cluePlacement, boardCell, clueIndex);
        && (r.Err? <==> Store.ClueCellRejection(old(Contents()), k).Some?)
        && (r.Err? ==> Some(r.error) == Store.ClueCellRejection(old(Contents()), k) && unchanged(this))
        && (r.Ok? ==> r.value !in old(clueCells) &&
                      Contents() == old(Contents()).(clueCells := old(clueCells)[r.value := k]))
    {
      var k := ClueCell(cluePlacement, boardCell, clueIndex);
      var refusal := Store.ClueCellRejection(Contents(), k);
      if refusal.Some? {
        return Err(refusal.value);
      }
      Store.ClueCellAccepted(Contents(), nextClueCell, k);
      clueCells := clueCells[nextClueCell := k];
      r := Ok(nextClueCell);
      nextClueCell := nextClueCell + 1;
    }

    // ------------------------------------------------------------- deletes

    /** Replaces the tables by what a cascade leaves of them. */
    method Apply(d: Store.Roots)
      requires Valid()
      modifies this
      ensures Valid()
      ensures Contents() == Store.Cascade(old(Contents()), d)
      ensures nextBoard == old(nextBoard) && nextCell == old(nextCell) && nextClue == old(nextClue)
      ensures nextPlacement == old(nextPlacement) && nextClueCell == old(nextClueCell)
    {
      var r := Store.Cascade(Contents(), d);
      Store.CascadeKeepsValid(Contents(), d);
      boards, cells, clues, placements, clueCells := r.boards, r.cells, r.clues, r.placements, r.clueCells;
    }

    /** Deletes a Board with its cells, its placements and their clue cells. */
    method DeleteBoard(b: Id)
      requires Valid()
      modifies this
      ensures Valid()
      ensures Contents() == Store.DeleteBoard(old(Contents()), b)
    {
      Apply(Store.NoRoots.(boards := {b}));
    }

    /** Deletes a BoardCell with the clue cells that claim it. */
    method DeleteCell(c: Id)
      requires Valid()
      modifies this
      ensures Valid()
      ensures Contents() == Store.DeleteCell(old(Contents()), c)
    {
      Apply(Store.NoRoots.(cells := {c}));
    }

    /** Deletes a Clue with the placements that use it and their clue cells. */
    method DeleteClue(q: Id)
      requires Valid()
      modifies this
      ensures Valid()
      ensures Contents() == Store.DeleteClue(old(Contents()), q)
    {
      Apply(Store.NoRoots.(clues := {q}));
    }

    /** Deletes a CluePlacement with its clue cells. */
    method DeletePlacement(p: Id)
      requires Valid()
      modifies this
      ensures Valid()
      ensures Contents() == Store.DeletePlacement(old(Contents()), p)
    {
      Apply(Store.NoRoots.(placements := {p}));
    }

    /** Deletes a ClueCell; nothing depends on it. */
    method DeleteClueCell(k: Id)
      requires Valid()
      modifies this
      ensures Valid()
      ensures Contents() == Store.DeleteClueCell(old(Contents()), k)
    {
      Apply(Store.NoRoots.(clueCells := {k}));
    }
  }
}
