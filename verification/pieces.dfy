/** Tetromino data: the seven 4x4 shape templates, piece creation and the
    clockwise rotation of a shape matrix. */
module Pieces {

  /** One row of a shape matrix: four integer codes, 1 meaning occupied. */
  type Line = r: seq<int> | |r| == 4 witness [0, 0, 0, 0]

  /** A 4x4 shape matrix, indexed `[row][column]`. */
  type Shape = s: seq<Line> | |s| == 4 witness [BlankLine, BlankLine, BlankLine, BlankLine]

  const BlankLine: Line := [0, 0, 0, 0]

  /** A piece: its shape and the grid coordinates of the matrix's top-left cell. */
  datatype Tetromino = Tetromino(shape: Shape, x: int, y: int)

  /** The number of templates; the source picks one as `rand() % 7`. */
  const ShapeCount := 7

  /** Which template a new piece copies. */
  type ShapeIndex = k: int | 0 <= k < ShapeCount

  /** The templates in table order: I, O, T, S, Z, J, L. */
  const Templates: seq<Shape> := [
    [[0, 0, 0, 0], [1, 1, 1, 1], [0, 0, 0, 0], [0, 0, 0, 0]],  // I
    [[0, 1, 1, 0], [0, 1, 1, 0], [0, 0, 0, 0], [0, 0, 0, 0]],  // O
    [[0, 1, 0, 0], [1, 1, 1, 0], [0, 0, 0, 0], [0, 0, 0, 0]],  // T
    [[0, 1, 1, 0], [1, 1, 0, 0], [0, 0, 0, 0], [0, 0, 0, 0]],  // S
    [[1, 1, 0, 0], [0, 1, 1, 0], [0, 0, 0, 0], [0, 0, 0, 0]],  // Z
    [[1, 0, 0, 0], [1, 1, 1, 0], [0, 0, 0, 0], [0, 0, 0, 0]],  // J
    [[0, 0, 1, 0], [1, 1, 1, 0], [0, 0, 0, 0], [0, 0, 0, 0]]   // L
  ]

  /** 1 when a matrix entry counts as occupied, else 0. */
  function Mark(v: int): nat {
    if v == 1 then 1 else 0
  }

  function LineOnes(r: Line): nat {
    Mark(r[0]) + Mark(r[1]) + Mark(r[2]) + Mark(r[3])
  }

  /** The number of occupied entries of a shape. */
  function Ones(s: Shape): nat {
    LineOnes(s[0]) + LineOnes(s[1]) + LineOnes(s[2]) + LineOnes(s[3])
  }

  /** Every entry of the shape is 0 or 1. */
  predicate Binary(s: Shape) {
    forall i, j :: 0 <= i < 4 && 0 <= j < 4 ==> s[i][j] == 0 || s[i][j] == 1
  }

  /** Every occupied entry lies in the top two rows of the matrix. */
  predicate TopTwoRows(s: Shape) {
    forall i, j :: 0 <= i < 4 && 0 <= j < 4 && s[i][j] == 1 ==> i < 2
  }

  /** A copy of template `k` anchored at (0, 0); `k` stands for the random draw. */
  function CreatePiece(k: ShapeIndex): (t: Tetromino)
    ensures t.shape == Templates[k] && t.x == 0 && t.y == 0
    ensures Ones(t.shape) == 4 && Binary(t.shape) && TopTwoRows(t.shape)
  {
    TemplatesAreTetrominoes(k);
    Tetromino(Templates[k], 0, 0)
  }

  /** Each template has exactly four occupied cells, only 0/1 entries, and
      all its occupied cells in rows 0 and 1. */
  lemma TemplatesAreTetrominoes(k: ShapeIndex)
    ensures Ones(Templates[k]) == 4
    ensures Binary(Templates[k])
    ensures TopTwoRows(Templates[k])
  {
    var s := Templates[k];
    forall i, j | 0 <= i < 4 && 0 <= j < 4
      ensures (s[i][j] == 0 || s[i][j] == 1) && (s[i][j] == 1 ==> i < 2)
    {
      assert s[2] == [0, 0, 0, 0] && s[3] == [0, 0, 0, 0];
    }
  }

  /** The clockwise rotation of a shape matrix: entry (i, j) moves to (j, 3 - i). */
  function Rotate(s: Shape): (r: Shape)
    ensures forall i, j :: 0 <= i < 4 && 0 <= j < 4 ==> r[j][3 - i] == s[i][j]
  {
    seq(4, a requires 0 <= a < 4 => seq(4, b requires 0 <= b < 4 => s[3 - b][a]))
  }

  /** Rotating a piece changes its shape only, never its anchor. */
  function RotatePiece(t: Tetromino): (r: Tetromino)
    ensures r.shape == Rotate(t.shape) && r.x == t.x && r.y == t.y
  {
    t.(shape := Rotate(t.shape))
  }

  /** Two rotations turn the matrix by half a turn. */
  lemma RotateTwice(s: Shape)
    ensures forall i, j :: 0 <= i < 4 && 0 <= j < 4 ==> Rotate(Rotate(s))[i][j] == s[3 - i][3 - j]
  {
    var r := Rotate(s);
    forall i, j | 0 <= i < 4 && 0 <= j < 4
      ensures Rotate(r)[i][j] == s[3 - i][3 - j]
    {
      assert Rotate(r)[i][j] == r[3 - j][i];
      assert r[3 - j][i] == s[3 - i][3 - j];
    }
  }

  /** Rotation has order four: four clockwise turns give back the same matrix. */
  lemma RotateFourTimes(s: Shape)
    ensures Rotate(Rotate(Rotate(Rotate(s)))) == s
  {
    var h := Rotate(Rotate(s));
    RotateTwice(s);
    RotateTwice(h);
    var r := Rotate(Rotate(h));
    forall i | 0 <= i < 4
      ensures r[i] == s[i]
    {
      forall j | 0 <= j < 4
        ensures r[i][j] == s[i][j]
      {
        assert r[i][j] == h[3 - i][3 - j];
      }
    }
  }

  /** Rotation moves entries around without changing them: it keeps the
      number of occupied cells, and a 0/1 matrix stays a 0/1 matrix. */
  lemma RotatePreservesCells(s: Shape)
    ensures Ones(Rotate(s)) == Ones(s)
    ensures Binary(s) ==> Binary(Rotate(s))
  {
    var r := Rotate(s);
    assert LineOnes(r[0]) == Mark(s[3][0]) + Mark(s[2][0]) + Mark(s[1][0]) + Mark(s[0][0]);
    assert LineOnes(r[1]) == Mark(s[3][1]) + Mark(s[2][1]) + Mark(s[1][1]) + Mark(s[0][1]);
    assert LineOnes(r[2]) == Mark(s[3][2]) + Mark(s[2][2]) + Mark(s[1][2]) + Mark(s[0][2]);
    assert LineOnes(r[3]) == Mark(s[3][3]) + Mark(s[2][3]) + Mark(s[1][3]) + Mark(s[0][3]);
    if Binary(s) {
      forall i, j | 0 <= i < 4 && 0 <= j < 4
        ensures r[i][j] == 0 || r[i][j] == 1
      {
        assert r[i][j] == s[3 - j][i];
      }
    }
  }

  /** A shape with an occupied cell has a concrete occupied coordinate. */
  lemma OccupiedCellExists(s: Shape)
    requires Ones(s) > 0
    ensures exists i, j :: 0 <= i < 4 && 0 <= j < 4 && s[i][j] == 1
  {
    if LineOnes(s[0]) > 0 {
      RowWitness(s, 0);
    } else if LineOnes(s[1]) > 0 {
      RowWitness(s, 1);
    } else if LineOnes(s[2]) > 0 {
      RowWitness(s, 2);
    } else {
      RowWitness(s, 3);
    }
  }

  /** A row with an occupied cell has a concrete occupied column. */
  lemma RowWitness(s: Shape, i: int)
    requires 0 <= i < 4 && LineOnes(s[i]) > 0
    ensures exists j :: 0 <= j < 4 && s[i][j] == 1
  {
  }
}
