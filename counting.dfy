/** Cardinality facts used to bound how many rows the uniqueness rules admit. */
module Counting {
  import opened Wrappers
  import opened Schema

  /** Positions of the first `rows` rows of a board that is `cols` wide. */
  function Grid(rows: nat, cols: nat): set<(nat, nat)>
  {
    set row: nat, col: nat | row < rows && col < cols :: (row, col)
  }

  /** Positions of row `row` to the left of column `cols`. */
  function RowPositions(row: nat, cols: nat): set<(nat, nat)>
  {
    set col: nat | col < cols :: (row, col)
  }

  lemma {:induction false} RowPositionsSize(row: nat, cols: nat)
    ensures |RowPositions(row, cols)| == cols
  {
    if cols > 0 {
      RowPositionsSize(row, cols - 1);
      assert RowPositions(row, cols) == RowPositions(row, cols - 1) + {(row, cols - 1)};
    }
  }

  /** The grid of `rows` rows is the grid above its last row plus that row. */
  lemma GridSplit(rows: nat, cols: nat)
    requires rows > 0
    ensures Grid(rows, cols) == Grid(rows - 1, cols) + RowPositions(rows - 1, cols)
    ensures Grid(rows - 1, cols) !! RowPositions(rows - 1, cols)
  {
    forall p | p in Grid(rows, cols) ensures p in Grid(rows - 1, cols) + RowPositions(rows - 1, cols) {
      var (row, col) := p;
      if row < rows - 1 {
        assert (row, col) in Grid(rows - 1, cols);
      } else {
        assert (row, col) in RowPositions(rows - 1, cols);
      }
    }
  }

  lemma {:induction false} GridSize(rows: nat, cols: nat)
    ensures |Grid(rows, cols)| == rows * cols
  {
    if rows > 0 {
      GridSplit(rows, cols);
      GridSize(rows - 1, cols);
      RowPositionsSize(rows - 1, cols);
      calc {
        |Grid(rows, cols)|;
        |Grid(rows - 1, cols)| + |RowPositions(rows - 1, cols)|;
        (rows - 1) * cols + cols;
        { assert (rows - 1) * cols + cols == rows * cols; }
        rows * cols;
      }
    }
  }

  /** A board has exactly rows * cols positions, at most 441 once its check constraints hold. */
  lemma PositionsSize(b: Board)
    ensures |Positions(b)| == b.rows * b.cols
    ensures BoardCheck(b) == None ==> |Positions(b)| <= MaxSide * MaxSide
  {
    assert Positions(b) == Grid(b.rows, b.cols);
    GridSize(b.rows, b.cols);
    if BoardCheck(b) == None {
      assert b.rows * b.cols <= MaxSide * b.cols <= MaxSide * MaxSide;
    }
  }

  /** The image of a set under a function that is one-to-one on it. */
  ghost function Image<K, V>(s: set<K>, f: K -> V): set<V>
  {
    set x | x in s :: f(x)
  }

  ghost predicate InjectiveOn<K, V>(s: set<K>, f: K -> V)
  {
    forall x, y :: x in s && y in s && f(x) == f(y) ==> x == y
  }

  /** A function that is one-to-one on a set maps it onto a set of the same size. */
  lemma {:induction false} InjectiveImageSize<K, V>(s: set<K>, f: K -> V)
    requires InjectiveOn(s, f)
    ensures |Image(s, f)| == |s|
  {
    if s != {} {
      var x :| x in s;
      var rest := s - {x};
      InjectiveImageSize(rest, f);
      assert Image(s, f) == Image(rest, f) + {f(x)};
      assert f(x) !in Image(rest, f);
    }
  }
}
