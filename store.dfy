/**
 * The five tables of the crossword schema as one value, the invariant the
 * schema's constraints maintain over them, the decision made on each
 * insert, and the cascade that follows a delete along the foreign keys
 * (every ForeignKey of criss_cross/models.py is on_delete=CASCADE).
 */
module Store {
  import opened Wrappers
  import opened Schema
  import opened Counting

  datatype Tables = Tables(
    boards: map<Id, Board>,
    cells: map<Id, BoardCell>,
    clues: map<Id, Clue>,
    placements: map<Id, CluePlacement>,
    clueCells: map<Id, ClueCell>)

  const Empty := Tables(map[], map[], map[], map[], map[])

  // ------------------------------------------------------ constraint keys

  /** Fields of board_cell_unique_board_row_col. */
  function CellKey(c: BoardCell): (Id, nat, nat)
  {
    (c.board, c.rowIndex, c.colIndex)
  }

  /** Fields of clue_placement_unique_row_col_direction. */
  function PlacementKey(p: CluePlacement): (Id, nat, nat, char)
  {
    (p.board, p.startRow, p.startCol, p.direction)
  }

  /** Fields of unique_index_per_placement. */
  function IndexKey(k: ClueCell): (Id, nat)
  {
    (k.cluePlacement, k.clueIndex)
  }

  /** Fields of unique_cell_per_placement. */
  function CellOfPlacementKey(k: ClueCell): (Id, Id)
  {
    (k.cluePlacement, k.boardCell)
  }

  // ------------------------------------------------------------ invariant

  /** Each board passes the board_rows_range and board_cols_range check constraints. */
  predicate BoardsChecked(boards: map<Id, Board>)
  {
    forall b :: b in boards ==> BoardCheck(boards[b]) == None
  }

  /** Each board cell names a stored board and passes clean() against it. */
  predicate CellsOnBoards(boards: map<Id, Board>, cells: map<Id, BoardCell>)
  {
    forall c :: c in cells ==> cells[c].board in boards && Clean(boards[cells[c].board], cells[c]) == None
  }

  /** board_cell_unique_board_row_col. */
  predicate CellsUnique(cells: map<Id, BoardCell>)
  {
    forall i, j :: i in cells && j in cells && CellKey(cells[i]) == CellKey(cells[j]) ==> i == j
  }

  /** Each clue's question and answer are within their max_length. */
  predicate CluesChecked(clues: map<Id, Clue>)
  {
    forall q :: q in clues ==> ClueCheck(clues[q]) == None
  }

  /** Each placement names a stored board and a stored clue, and its direction is 'A' or 'D'. */
  predicate PlacementsPlaced(boards: map<Id, Board>, clues: map<Id, Clue>, placements: map<Id, CluePlacement>)
  {
    forall p :: p in placements ==>
      placements[p].board in boards && placements[p].clue in clues && PlacementCheck(placements[p]) == None
  }

  /** clue_placement_unique_row_col_direction. */
  predicate PlacementsUnique(placements: map<Id, CluePlacement>)
  {
    forall i, j :: i in placements && j in placements && PlacementKey(placements[i]) == PlacementKey(placements[j])
      ==> i == j
  }

  /** Each clue cell names a stored placement and a stored board cell. */
  predicate ClueCellsLinked(placements: map<Id, CluePlacement>, cells: map<Id, BoardCell>, clueCells: map<Id, ClueCell>)
  {
    forall k :: k in clueCells ==> clueCells[k].cluePlacement in placements && clueCells[k].boardCell in cells
  }

  /** unique_index_per_placement and unique_cell_per_placement. */
  predicate ClueCellsUnique(clueCells: map<Id, ClueCell>)
  {
    && (forall i, j :: i in clueCells && j in clueCells && IndexKey(clueCells[i]) == IndexKey(clueCells[j])
          ==> i == j)
    && (forall i, j :: i in clueCells && j in clueCells && CellOfPlacementKey(clueCells[i]) == CellOfPlacementKey(clueCells[j])
          ==> i == j)
  }

  /**
   * The invariant of the stored tables: every row passes its checks, every
   * unique constraint holds, and no foreign key dangles.
   */
  predicate Valid(t: Tables)
  {
    && BoardsChecked(t.boards)
    && CellsOnBoards(t.boards, t.cells)
    && CellsUnique(t.cells)
    && CluesChecked(t.clues)
    && PlacementsPlaced(t.boards, t.clues, t.placements)
    && PlacementsUnique(t.placements)
    && ClueCellsLinked(t.placements, t.cells, t.clueCells)
    && ClueCellsUnique(t.clueCells)
  }

  // --------------------------------------------------------------- inserts

  /**
   * The decision on a new board cell: its board must exist, clean() must
   * pass (row, then column), and no stored cell may have its key.
   */
  function CellRejection(t: Tables, c: BoardCell): Option<Error>
  {
    if c.board !in t.boards then Some(MissingReference("board"))
    else if Clean(t.boards[c.board], c).Some? then Clean(t.boards[c.board], c)
    else if exists i :: i in t.cells && CellKey(t.cells[i]) == CellKey(c) then Some(UniqueViolated(CellUnique))
    else None
  }

  /**
   * The decision on a new placement: board and clue must exist, the
   * direction must be one of its choices, and no stored placement may have
   * its key. Nothing checks that the answer fits on the board, and the same
   * clue may be placed on a board any number of times.
   */
  function PlacementRejection(t: Tables, p: CluePlacement): Option<Error>
  {
    if p.board !in t.boards then Some(MissingReference("board"))
    else if p.clue !in t.clues then Some(MissingReference("clue"))
    else if PlacementCheck(p).Some? then PlacementCheck(p)
    else if exists i :: i in t.placements && PlacementKey(t.placements[i]) == PlacementKey(p) then
      Some(UniqueViolated(PlacementUnique))
    else None
  }

  /**
   * The decision on a new clue cell: both references must exist, then the
   * two unique constraints in their declared order. The index is not
   * checked against the answer, nor the board cell against the placement.
   */
  function ClueCellRejection(t: Tables, k: ClueCell): Option<Error>
  {
    if k.cluePlacement !in t.placements then Some(MissingReference("clue_placement"))
    else if k.boardCell !in t.cells then Some(MissingReference("board_cell"))
    else if exists i :: i in t.clueCells && IndexKey(t.clueCells[i]) == IndexKey(k) then
      Some(UniqueViolated(IndexUnique))
    else if exists i :: i in t.clueCells && CellOfPlacementKey(t.clueCells[i]) == CellOfPlacementKey(k) then
      Some(UniqueViolated(CellPerPlacementUnique))
    else None
  }

  // Adding a row to a parent table keeps every child's reference intact.

  lemma MoreBoards(t: Tables, id: Id, b: Board)
    requires id !in t.boards
    requires CellsOnBoards(t.boards, t.cells) && PlacementsPlaced(t.boards, t.clues, t.placements)
    ensures CellsOnBoards(t.boards[id := b], t.cells) && PlacementsPlaced(t.boards[id := b], t.clues, t.placements)
  {
    forall c | c in t.cells ensures t.cells[c].board != id {
    }
  }

  lemma MoreClues(t: Tables, id: Id, q: Clue)
    requires PlacementsPlaced(t.boards, t.clues, t.placements)
    ensures PlacementsPlaced(t.boards, t.clues[id := q], t.placements)
  {
  }

  lemma MoreCellsOrPlacements(t: Tables, cells: map<Id, BoardCell>, placements: map<Id, CluePlacement>)
    requires t.cells.Keys <= cells.Keys && t.placements.Keys <= placements.Keys
    requires ClueCellsLinked(t.placements, t.cells, t.clueCells)
    ensures ClueCellsLinked(placements, cells, t.clueCells)
  {
  }

  /** A board is accepted exactly when storing it under a new id keeps the tables valid. */
  lemma BoardAccepted(t: Tables, id: Id, b: Board)
    requires Valid(t) && id !in t.boards
    ensures BoardCheck(b) == None <==> Valid(t.(boards := t.boards[id := b]))
  {
    var t' := t.(boards := t.boards[id := b]);
    MoreBoards(t, id, b);
    if BoardCheck(b) == None {
      assert BoardsChecked(t'.boards);
    } else {
      assert id in t'.boards && BoardCheck(t'.boards[id]) != None;
    }
  }

  /** A clue is accepted exactly when storing it under a new id keeps the tables valid. */
  lemma ClueAccepted(t: Tables, id: Id, q: Clue)
    requires Valid(t) && id !in t.clues
    ensures ClueCheck(q) == None <==> Valid(t.(clues := t.clues[id := q]))
  {
    var t' := t.(clues := t.clues[id := q]);
    MoreClues(t, id, q);
    if ClueCheck(q) == None {
      assert CluesChecked(t'.clues);
    } else {
      assert id in t'.clues && ClueCheck(t'.clues[id]) != None;
    }
  }

  /** A board cell is accepted exactly when storing it under a new id keeps the tables valid. */
  lemma CellAccepted(t: Tables, id: Id, c: BoardCell)
    requires Valid(t) && id !in t.cells
    ensures CellRejection(t, c) == None <==> Valid(t.(cells := t.cells[id := c]))
  {
    var t' := t.(cells := t.cells[id := c]);
    MoreCellsOrPlacements(t, t'.cells, t.placements);
    assert id in t'.cells && t'.cells[id] == c;
    if CellRejection(t, c) == None {
      assert CellsOnBoards(t'.boards, t'.cells);
      forall i, j | i in t'.cells && j in t'.cells && CellKey(t'.cells[i]) == CellKey(t'.cells[j])
        ensures i == j
      {
        if i != id && j != id {
          assert CellKey(t.cells[i]) == CellKey(t.cells[j]);
        }
      }
    } else if c.board in t.boards && Clean(t.boards[c.board], c) == None {
      var i :| i in t.cells && CellKey(t.cells[i]) == CellKey(c);
      assert i in t'.cells && i != id && CellKey(t'.cells[i]) == CellKey(t'.cells[id]);
    }
  }

  /** A placement is accepted exactly when storing it under a new id keeps the tables valid. */
  lemma PlacementAccepted(t: Tables, id: Id, p: CluePlacement)
    requires Valid(t) && id !in t.placements
    ensures PlacementRejection(t, p) == None <==> Valid(t.(placements := t.placements[id := p]))
  {
    var t' := t.(placements := t.placements[id := p]);
    MoreCellsOrPlacements(t, t.cells, t'.placements);
    assert id in t'.placements && t'.placements[id] == p;
    if PlacementRejection(t, p) == None {
      assert PlacementsPlaced(t'.boards, t'.clues, t'.placements);
      forall i, j | i in t'.placements && j in t'.placements && PlacementKey(t'.placements[i]) == PlacementKey(t'.placements[j])
        ensures i == j
      {
        if i != id && j != id {
          assert PlacementKey(t.placements[i]) == PlacementKey(t.placements[j]);
        }
      }
    } else if p.board in t.boards && p.clue in t.clues && PlacementCheck(p) == None {
      var i :| i in t.placements && PlacementKey(t.placements[i]) == PlacementKey(p);
      assert i in t'.placements && i != id && PlacementKey(t'.placements[i]) == PlacementKey(t'.placements[id]);
    }
  }

  /** A clue cell is accepted exactly when storing it under a new id keeps the tables valid. */
  lemma ClueCellAccepted(t: Tables, id: Id, k: ClueCell)
    requires Valid(t) && id !in t.clueCells
    ensures ClueCellRejection(t, k) == None <==> Valid(t.(clueCells := t.clueCells[id := k]))
  {
    var t' := t.(clueCells := t.clueCells[id := k]);
    assert id in t'.clueCells && t'.clueCells[id] == k;
    if ClueCellRejection(t, k) == None {
      assert ClueCellsLinked(t'.placements, t'.cells, t'.clueCells);
      ClueCellsStillUnique(t, id, k);
    } else if k.cluePlacement in t.placements && k.boardCell in t.cells {
      if exists i :: i in t.clueCells && IndexKey(t.clueCells[i]) == IndexKey(k) {
        var i :| i in t.clueCells && IndexKey(t.clueCells[i]) == IndexKey(k);
        assert i in t'.clueCells && i != id && IndexKey(t'.clueCells[i]) == IndexKey(t'.clueCells[id]);
      } else {
        var i :| i in t.clueCells && CellOfPlacementKey(t.clueCells[i]) == CellOfPlacementKey(k);
        assert i in t'.clueCells && i != id;
        assert CellOfPlacementKey(t'.clueCells[i]) == CellOfPlacementKey(t'.clueCells[id]);
      }
    }
  }

  lemma ClueCellsStillUnique(t: Tables, id: Id, k: ClueCell)
    requires ClueCellsUnique(t.clueCells) && id !in t.clueCells
    requires k.cluePlacement in t.placements && k.boardCell in t.cells && ClueCellRejection(t, k) == None
    ensures ClueCellsUnique(t.clueCells[id := k])
  {
    var m := t.clueCells[id := k];
    forall i, j | i in m && j in m && IndexKey(m[i]) == IndexKey(m[j]) ensures i == j {
      if i != id && j != id {
        assert IndexKey(t.clueCells[i]) == IndexKey(t.clueCells[j]);
      }
    }
    forall i, j | i in m && j in m && CellOfPlacementKey(m[i]) == CellOfPlacementKey(m[j]) ensures i == j {
      if i != id && j != id {
        assert CellOfPlacementKey(t.clueCells[i]) == CellOfPlacementKey(t.clueCells[j]);
      }
    }
  }

  /**
   * Once a placement is stored, a placement that was acceptable before is
   * refused afterwards exactly when it has the same (board, start_row,
   * start_col, direction). Placements that differ only in direction, or that
   * place the same clue at another start, still go in.
   */
  lemma PlacementCollision(t: Tables, id: Id, p: CluePlacement, q: CluePlacement)
    requires id !in t.placements && PlacementRejection(t, q) == None
    ensures PlacementRejection(t.(placements := t.placements[id := p]), q) ==
              if PlacementKey(q) == PlacementKey(p) then Some(UniqueViolated(PlacementUnique)) else None
  {
    var t' := t.(placements := t.placements[id := p]);
    if PlacementKey(q) == PlacementKey(p) {
      assert id in t'.placements && PlacementKey(t'.placements[id]) == PlacementKey(q);
    }
  }

  /** An Across and a Down placement from the same start cell are both accepted. */
  lemma AcrossAndDownBothAccepted(t: Tables, id: Id, p: CluePlacement)
    requires id !in t.placements && p.direction == 'A'
    requires PlacementRejection(t, p) == None && PlacementRejection(t, p.(direction := 'D')) == None
    ensures PlacementRejection(t.(placements := t.placements[id := p]), p.(direction := 'D')) == None
  {
    PlacementCollision(t, id, p, p.(direction := 'D'));
  }

  /**
   * Once a board cell is stored, a cell that was acceptable before is refused
   * afterwards exactly when it claims the same board position.
   */
  lemma CellCollision(t: Tables, id: Id, c: BoardCell, d: BoardCell)
    requires id !in t.cells && CellRejection(t, d) == None
    ensures CellRejection(t.(cells := t.cells[id := c]), d) ==
              if CellKey(d) == CellKey(c) then Some(UniqueViolated(CellUnique)) else None
  {
    var t' := t.(cells := t.cells[id := c]);
    if CellKey(d) == CellKey(c) {
      assert id in t'.cells && CellKey(t'.cells[id]) == CellKey(d);
    }
  }

  /**
   * Once a clue cell is stored, a clue cell that was acceptable before is
   * refused afterwards exactly when it repeats the index within the same
   * placement, or else repeats the board cell within the same placement.
   */
  lemma ClueCellCollision(t: Tables, id: Id, k: ClueCell, m: ClueCell)
    requires id !in t.clueCells && ClueCellRejection(t, m) == None
    ensures ClueCellRejection(t.(clueCells := t.clueCells[id := k]), m) ==
              if IndexKey(m) == IndexKey(k) then Some(UniqueViolated(IndexUnique))
              else if CellOfPlacementKey(m) == CellOfPlacementKey(k) then Some(UniqueViolated(CellPerPlacementUnique))
              else None
  {
    var t' := t.(clueCells := t.clueCells[id := k]);
    assert id in t'.clueCells && t'.clueCells[id] == k;
  }

  // --------------------------------------------------------------- deletes

  /** The rows a delete names directly, per table. */
  datatype Roots = Roots(boards: set<Id>, cells: set<Id>, clues: set<Id>, placements: set<Id>, clueCells: set<Id>)

  const NoRoots := Roots({}, {}, {}, {}, {})

  /** Every row of `s` is stored in `t` with the same fields. */
  predicate Within(s: Tables, t: Tables)
  {
    && (forall b :: b in s.boards ==> b in t.boards && s.boards[b] == t.boards[b])
    && (forall c :: c in s.cells ==> c in t.cells && s.cells[c] == t.cells[c])
    && (forall q :: q in s.clues ==> q in t.clues && s.clues[q] == t.clues[q])
    && (forall p :: p in s.placements ==> p in t.placements && s.placements[p] == t.placements[p])
    && (forall k :: k in s.clueCells ==> k in t.clueCells && s.clueCells[k] == t.clueCells[k])
  }

  /** `s` holds none of the rows named by `d`. */
  predicate Avoids(s: Tables, d: Roots)
  {
    && s.boards.Keys !! d.boards
    && s.cells.Keys !! d.cells
    && s.clues.Keys !! d.clues
    && s.placements.Keys !! d.placements
    && s.clueCells.Keys !! d.clueCells
  }

  /** No foreign key of `t` names a missing row. */
  predicate Linked(t: Tables)
  {
    && (forall c :: c in t.cells ==> t.cells[c].board in t.boards)
    && (forall p :: p in t.placements ==> t.placements[p].board in t.boards && t.placements[p].clue in t.clues)
    && ClueCellsLinked(t.placements, t.cells, t.clueCells)
  }

  /**
   * on_delete=CASCADE along every foreign key: the rows named by `d` go,
   * and with them every row whose board, clue, placement or board cell
   * goes. The foreign keys run Board -> BoardCell, Board -> CluePlacement,
   * Clue -> CluePlacement, CluePlacement -> ClueCell and BoardCell ->
   * ClueCell, so one pass in that order reaches every dependant. The result
   * has no dangling reference, keeps the surviving rows as they were, and
   * keeps the invariant.
   */
  function Cascade(t: Tables, d: Roots): (r: Tables)
    ensures Linked(r) && Within(r, t) && Avoids(r, d)
  {
    var boards := map b | b in t.boards && b !in d.boards :: t.boards[b];
    var cells := map c | c in t.cells && c !in d.cells && t.cells[c].board in boards :: t.cells[c];
    var clues := map q | q in t.clues && q !in d.clues :: t.clues[q];
    var placements := map p | p in t.placements && p !in d.placements &&
                                t.placements[p].board in boards && t.placements[p].clue in clues :: t.placements[p];
    var clueCells := map k | k in t.clueCells && k !in d.clueCells &&
                               t.clueCells[k].cluePlacement in placements && t.clueCells[k].boardCell in cells :: t.clueCells[k];
    Tables(boards, cells, clues, placements, clueCells)
  }

  /** Removing rows never breaks a check or a unique constraint, so a cascade keeps the invariant. */
  lemma CascadeKeepsValid(t: Tables, d: Roots)
    requires Valid(t)
    ensures Valid(Cascade(t, d))
  {
    var r := Cascade(t, d);
    assert CellsUnique(r.cells) by {
      forall i, j | i in r.cells && j in r.cells && CellKey(r.cells[i]) == CellKey(r.cells[j]) ensures i == j {
        assert CellKey(t.cells[i]) == CellKey(t.cells[j]);
      }
    }
    assert PlacementsUnique(r.placements) by {
      forall i, j | i in r.placements && j in r.placements && PlacementKey(r.placements[i]) == PlacementKey(r.placements[j])
        ensures i == j
      {
        assert PlacementKey(t.placements[i]) == PlacementKey(t.placements[j]);
      }
    }
    assert ClueCellsUnique(r.clueCells) by {
      forall i, j | i in r.clueCells && j in r.clueCells && IndexKey(r.clueCells[i]) == IndexKey(r.clueCells[j])
        ensures i == j
      {
        assert IndexKey(t.clueCells[i]) == IndexKey(t.clueCells[j]);
      }
      forall i, j | i in r.clueCells && j in r.clueCells &&
                    CellOfPlacementKey(r.clueCells[i]) == CellOfPlacementKey(r.clueCells[j])
        ensures i == j
      {
        assert CellOfPlacementKey(t.clueCells[i]) == CellOfPlacementKey(t.clueCells[j]);
      }
    }
  }

  /**
   * The cascade removes no more than it must: every part of the tables that
   * avoids the named rows and has no dangling reference survives it.
   */
  lemma CascadeKeepsWhatItCan(t: Tables, d: Roots, s: Tables)
    requires Within(s, t) && Linked(s) && Avoids(s, d)
    ensures Within(s, Cascade(t, d))
  {
    var r := Cascade(t, d);
    assert s.boards.Keys <= r.boards.Keys;
    assert s.clues.Keys <= r.clues.Keys;
    assert s.cells.Keys <= r.cells.Keys by {
      forall c | c in s.cells ensures c in r.cells {
        assert t.cells[c].board in s.boards;
      }
    }
    assert s.placements.Keys <= r.placements.Keys by {
      forall p | p in s.placements ensures p in r.placements {
        assert t.placements[p].board in s.boards && t.placements[p].clue in s.clues;
      }
    }
    assert s.clueCells.Keys <= r.clueCells.Keys by {
      forall k | k in s.clueCells ensures k in r.clueCells {
        assert t.clueCells[k].cluePlacement in s.placements && t.clueCells[k].boardCell in s.cells;
      }
    }
  }

  function DeleteBoard(t: Tables, b: Id): Tables
  {
    Cascade(t, NoRoots.(boards := {b}))
  }

  function DeleteCell(t: Tables, c: Id): Tables
  {
    Cascade(t, NoRoots.(cells := {c}))
  }

  function DeleteClue(t: Tables, q: Id): Tables
  {
    Cascade(t, NoRoots.(clues := {q}))
  }

  function DeletePlacement(t: Tables, p: Id): Tables
  {
    Cascade(t, NoRoots.(placements := {p}))
  }

  function DeleteClueCell(t: Tables, k: Id): Tables
  {
    Cascade(t, NoRoots.(clueCells := {k}))
  }

  /**
   * Deleting a board removes its board cells and its placements, and every
   * clue cell whose placement or board cell was on it; every other row stays.
   */
  lemma DeleteBoardEffect(t: Tables, b: Id)
    requires Linked(t)
    ensures var r := DeleteBoard(t, b);
      && r.boards.Keys == t.boards.Keys - {b}
      && r.clues == t.clues
      && (forall c :: c in t.cells ==> (c in r.cells <==> t.cells[c].board != b))
      && (forall p :: p in t.placements ==> (p in r.placements <==> t.placements[p].board != b))
      && (forall k :: k in t.clueCells ==>
            (k in r.clueCells <==>
               t.placements[t.clueCells[k].cluePlacement].board != b && t.cells[t.clueCells[k].boardCell].board != b))
  {
  }

  /** Deleting a clue removes exactly the placements that use it and their clue cells. */
  lemma DeleteClueEffect(t: Tables, q: Id)
    requires Linked(t)
    ensures var r := DeleteClue(t, q);
      && r.boards == t.boards
      && r.cells == t.cells
      && r.clues.Keys == t.clues.Keys - {q}
      && (forall p :: p in t.placements ==> (p in r.placements <==> t.placements[p].clue != q))
      && (forall k :: k in t.clueCells ==> (k in r.clueCells <==> t.placements[t.clueCells[k].cluePlacement].clue != q))
  {
  }

  /** Deleting a board cell removes it and exactly the clue cells that claim it. */
  lemma DeleteCellEffect(t: Tables, c: Id)
    requires Linked(t)
    ensures var r := DeleteCell(t, c);
      && r.boards == t.boards
      && r.cells.Keys == t.cells.Keys - {c}
      && r.clues == t.clues
      && r.placements == t.placements
      && (forall k :: k in t.clueCells ==> (k in r.clueCells <==> t.clueCells[k].boardCell != c))
  {
  }

  /** Deleting a placement removes it and exactly its clue cells. */
  lemma DeletePlacementEffect(t: Tables, p: Id)
    requires Linked(t)
    ensures var r := DeletePlacement(t, p);
      && r.boards == t.boards
      && r.cells == t.cells
      && r.clues == t.clues
      && r.placements.Keys == t.placements.Keys - {p}
      && (forall k :: k in t.clueCells ==> (k in r.clueCells <==> t.clueCells[k].cluePlacement != p))
  {
  }

  /** Deleting a clue cell removes nothing else: no foreign key points at a clue cell. */
  lemma DeleteClueCellEffect(t: Tables, k: Id)
    requires Linked(t)
    ensures DeleteClueCell(t, k) == t.(clueCells := t.clueCells - {k})
  {
    var r := DeleteClueCell(t, k);
    assert r.boards == t.boards;
    assert r.clues == t.clues;
    assert r.cells == t.cells;
    assert r.placements == t.placements;
    assert r.clueCells == t.clueCells - {k};
  }

  // -------------------------------------------------------------- capacity

  /** The ids of the board cells stored for board `b`. */
  function CellsOn(t: Tables, b: Id): set<Id>
  {
    set c | c in t.cells && t.cells[c].board == b
  }

  /**
   * The unique constraint and clean() together bound how many cells a board
   * holds: at most one per position, so at most rows * cols, and so at most
   * 21 * 21.
   */
  lemma BoardCapacity(t: Tables, b: Id)
    requires Valid(t) && b in t.boards
    ensures |CellsOn(t, b)| <= t.boards[b].rows * t.boards[b].cols
    ensures |CellsOn(t, b)| <= MaxSide * MaxSide
  {
    var board, image := t.boards[b], Image(CellsOn(t, b), c => CellPosition(t, c));
    CellsOnInjective(t, b);
    CellsOnPositions(t, b);
    assert |image| <= |Positions(board)| by {
      assert Positions(board) == image + (Positions(board) - image);
    }
    assert BoardCheck(board) == None;
    PositionsSize(board);
  }

  /** Where a stored cell sits on its board. */
  function CellPosition(t: Tables, c: Id): (nat, nat)
  {
    if c in t.cells then (t.cells[c].rowIndex, t.cells[c].colIndex) else (0, 0)
  }

  lemma CellsOnInjective(t: Tables, b: Id)
    requires CellsUnique(t.cells)
    ensures |Image(CellsOn(t, b), c => CellPosition(t, c))| == |CellsOn(t, b)|
  {
    var ids, position := CellsOn(t, b), c => CellPosition(t, c);
    forall i, j | i in ids && j in ids && position(i) == position(j) ensures i == j {
      assert CellKey(t.cells[i]) == CellKey(t.cells[j]);
    }
    InjectiveImageSize(ids, position);
  }

  lemma CellsOnPositions(t: Tables, b: Id)
    requires b in t.boards && CellsOnBoards(t.boards, t.cells)
    ensures Image(CellsOn(t, b), c => CellPosition(t, c)) <= Positions(t.boards[b])
  {
    forall c | c in CellsOn(t, b) ensures CellPosition(t, c) in Positions(t.boards[b]) {
      assert Clean(t.boards[b], t.cells[c]) == None;
    }
  }

  /** The clue cells of placement `p`. */
  function CellsOfPlacement(t: Tables, p: Id): set<Id>
  {
    set k | k in t.clueCells && t.clueCells[k].cluePlacement == p
  }

  /** The answer indices that placement `p`'s clue cells use. */
  function IndicesOf(t: Tables, p: Id): set<nat>
  {
    set k | k in t.clueCells && t.clueCells[k].cluePlacement == p :: t.clueCells[k].clueIndex
  }

  /** The board cells that placement `p`'s clue cells claim. */
  function BoardCellsOf(t: Tables, p: Id): set<Id>
  {
    set k | k in t.clueCells && t.clueCells[k].cluePlacement == p :: t.clueCells[k].boardCell
  }

  /**
   * Within one placement the clue cells, their indices and their board cells
   * are in one-to-one correspondence: no index and no board cell repeats.
   */
  lemma PlacementCellsDistinct(t: Tables, p: Id)
    requires ClueCellsUnique(t.clueCells)
    ensures |IndicesOf(t, p)| == |CellsOfPlacement(t, p)| == |BoardCellsOf(t, p)|
  {
    var ids := CellsOfPlacement(t, p);
    var index := (k: Id) => if k in t.clueCells then t.clueCells[k].clueIndex else 0;
    var cell := (k: Id) => if k in t.clueCells then t.clueCells[k].boardCell else 0;
    forall i, j | i in ids && j in ids && index(i) == index(j) ensures i == j {
      assert IndexKey(t.clueCells[i]) == IndexKey(t.clueCells[j]);
    }
    forall i, j | i in ids && j in ids && cell(i) == cell(j) ensures i == j {
      assert CellOfPlacementKey(t.clueCells[i]) == CellOfPlacementKey(t.clueCells[j]);
    }
    InjectiveImageSize(ids, index);
    InjectiveImageSize(ids, cell);
    forall x | x in IndicesOf(t, p) ensures x in Image(ids, index) {
      var k :| k in t.clueCells && t.clueCells[k].cluePlacement == p && t.clueCells[k].clueIndex == x;
      assert k in ids && index(k) == x;
    }
    forall x | x in BoardCellsOf(t, p) ensures x in Image(ids, cell) {
      var k :| k in t.clueCells && t.clueCells[k].cluePlacement == p && t.clueCells[k].boardCell == x;
      assert k in ids && cell(k) == x;
    }
    assert Image(ids, index) == IndicesOf(t, p);
    assert Image(ids, cell) == BoardCellsOf(t, p);
  }
}
