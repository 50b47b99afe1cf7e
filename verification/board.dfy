/** The 10x20 playing field: collision query, locking and drawing a piece,
    removing the drawn overlay, and removing full rows. */
module Board {
  import opened Pieces

  const Width := 10
  const Height := 20

  /** Grid cell codes: 0 empty, 1 locked block, 2 cell of the falling piece
      drawn for display. */
  datatype Cell = Empty | Locked | Falling

  type Row = r: seq<Cell> | |r| == Width witness seq(10, _ => Empty)

  /** The grid as a sequence of rows, row 0 at the top. */
  type Grid = g: seq<Row> | |g| == Height witness seq(20, _ => EmptyRow())

  function EmptyRow(): (r: Row)
    ensures forall x :: 0 <= x < Width ==> r[x] == Empty
  {
    seq(Width, _ => Empty)
  }

  /** A freshly constructed board. */
  function EmptyGrid(): (g: Grid)
    ensures forall y, x :: 0 <= y < Height && 0 <= x < Width ==> g[y][x] == Empty
  {
    seq(Height, _ => EmptyRow())
  }

  predicate InBounds(gx: int, gy: int) {
    0 <= gx < Width && 0 <= gy < Height
  }

  /** An occupied shape cell landing on (gx, gy) is illegal there: the
      coordinate is off the grid, or the cell holds anything but 0. */
  predicate Blocked(g: Grid, gx: int, gy: int) {
    !InBounds(gx, gy) || g[gy][gx] != Empty
  }

  /** Shape cell (i, j) of `t` is occupied and lands on a blocked coordinate. */
  predicate Hits(g: Grid, t: Tetromino, i: int, j: int)
    requires 0 <= i < 4 && 0 <= j < 4
  {
    t.shape[i][j] == 1 && Blocked(g, t.x + j, t.y + i)
  }

  /** Shape cell (a, b) comes at or after (i, j) in row-major scan order. */
  predicate AtOrAfter(a: int, b: int, i: int, j: int) {
    a > i || (a == i && b >= j)
  }

  /** The collision scan from shape cell (i, j) on, in the source's loop order,
      stopping at the first hit. */
  function ScanCollides(g: Grid, t: Tetromino, i: nat, j: nat): bool
    requires i <= 4 && j <= 4
    decreases 4 - i, 4 - j
  {
    if i == 4 then false
    else if j == 4 then ScanCollides(g, t, i + 1, 0)
    else if Hits(g, t, i, j) then true
    else ScanCollides(g, t, i, j + 1)
  }

  /** The scan from (i, j) finds a hit exactly when some occupied cell at or
      after (i, j) lands on a blocked coordinate. */
  lemma {:induction false} ScanCollidesIff(g: Grid, t: Tetromino, i: nat, j: nat)
    requires i <= 4 && j <= 4
    ensures ScanCollides(g, t, i, j) <==>
      exists a, b :: 0 <= a < 4 && 0 <= b < 4 && AtOrAfter(a, b, i, j) && Hits(g, t, a, b)
    decreases 4 - i, 4 - j
  {
    if i == 4 {
    } else if j == 4 {
      ScanCollidesIff(g, t, i + 1, 0);
    } else if Hits(g, t, i, j) {
    } else {
      ScanCollidesIff(g, t, i, j + 1);
    }
  }

  /** Whether `t` may not stand where it is. */
  function Collides(g: Grid, t: Tetromino): bool {
    ScanCollides(g, t, 0, 0)
  }

  /** A piece collides exactly when one of its occupied cells lands off the
      grid or on a non-empty cell. */
  lemma CollidesIff(g: Grid, t: Tetromino)
    ensures Collides(g, t) <==> exists i, j :: 0 <= i < 4 && 0 <= j < 4 && Hits(g, t, i, j)
  {
    ScanCollidesIff(g, t, 0, 0);
  }

  /** An occupied cell off the grid makes the piece collide. */
  lemma OffGridCollides(g: Grid, t: Tetromino, i: int, j: int)
    requires 0 <= i < 4 && 0 <= j < 4 && t.shape[i][j] == 1
    requires !InBounds(t.x + j, t.y + i)
    ensures Collides(g, t)
  {
    CollidesIff(g, t);
    assert Hits(g, t, i, j);
  }

  /** For a piece whose occupied cells all lie on the grid, a collision is
      exactly an occupied cell over a non-empty cell, a drawn falling cell
      included. */
  lemma OnGridCollides(g: Grid, t: Tetromino)
    requires forall i, j :: 0 <= i < 4 && 0 <= j < 4 && t.shape[i][j] == 1 ==> InBounds(t.x + j, t.y + i)
    ensures Collides(g, t) <==>
      exists i, j :: 0 <= i < 4 && 0 <= j < 4 && t.shape[i][j] == 1 && InBounds(t.x + j, t.y + i) && g[t.y + i][t.x + j] in {Locked, Falling}
  {
    CollidesIff(g, t);
    if Collides(g, t) {
      var i, j :| 0 <= i < 4 && 0 <= j < 4 && Hits(g, t, i, j);
      assert g[t.y + i][t.x + j] in {Locked, Falling};
    }
  }

  /** Shape cell (gy - t.y, gx - t.x) is occupied and comes at or after (i, j). */
  predicate CoversFrom(t: Tetromino, i: int, j: int, gx: int, gy: int) {
    var a := gy - t.y;
    var b := gx - t.x;
    0 <= a < 4 && 0 <= b < 4 && AtOrAfter(a, b, i, j) && t.shape[a][b] == 1
  }

  /** Some occupied shape cell of `t` lands on (gx, gy). */
  predicate Covers(t: Tetromino, gx: int, gy: int) {
    CoversFrom(t, 0, 0, gx, gy)
  }

  function Put(g: Grid, gx: int, gy: int, c: Cell): Grid
    requires InBounds(gx, gy)
  {
    g[gy := g[gy][gx := c]]
  }

  /** Writes `c` into the on-grid cells covered by `t`'s occupied shape cells
      from (i, j) on, in the source's loop order; off-grid cells are skipped. */
  function ScanPaint(g: Grid, t: Tetromino, c: Cell, i: nat, j: nat): (h: Grid)
    requires i <= 4 && j <= 4
    ensures forall gy, gx :: InBounds(gx, gy) ==>
      h[gy][gx] == if CoversFrom(t, i, j, gx, gy) then c else g[gy][gx]
    decreases 4 - i, 4 - j
  {
    if i == 4 then g
    else if j == 4 then ScanPaint(g, t, c, i + 1, 0)
    else if t.shape[i][j] == 1 && InBounds(t.x + j, t.y + i) then
      ScanPaint(Put(g, t.x + j, t.y + i, c), t, c, i, j + 1)
    else ScanPaint(g, t, c, i, j + 1)
  }

  /** Commits `t` into the grid: exactly its on-grid occupied cells become 1. */
  function Lock(g: Grid, t: Tetromino): (h: Grid)
    ensures forall gy, gx :: InBounds(gx, gy) ==>
      h[gy][gx] == if Covers(t, gx, gy) then Locked else g[gy][gx]
    ensures NoFalling(g) ==> NoFalling(h)
  {
    ScanPaint(g, t, Locked, 0, 0)
  }

  /** Draws `t` as the display overlay: exactly its on-grid occupied cells become 2. */
  function DrawPiece(g: Grid, t: Tetromino): (h: Grid)
    ensures forall gy, gx :: InBounds(gx, gy) ==>
      h[gy][gx] == if Covers(t, gx, gy) then Falling else g[gy][gx]
  {
    ScanPaint(g, t, Falling, 0, 0)
  }

  /** No cell holds the display overlay code 2. */
  predicate NoFalling(g: Grid) {
    forall y, x :: 0 <= y < Height && 0 <= x < Width ==> g[y][x] != Falling
  }

  function ClearRow(r: Row): Row {
    seq(Width, x requires 0 <= x < Width => if r[x] == Falling then Empty else r[x])
  }

  /** Removes the display overlay: every 2 becomes 0, 0 and 1 cells stay. */
  function ClearPiece(g: Grid): (h: Grid)
    ensures NoFalling(h)
    ensures forall y, x :: 0 <= y < Height && 0 <= x < Width ==>
      (g[y][x] == Falling ==> h[y][x] == Empty) && (g[y][x] != Falling ==> h[y][x] == g[y][x])
  {
    seq(Height, y requires 0 <= y < Height => ClearRow(g[y]))
  }

  /** Removing the overlay twice is the same as removing it once. */
  lemma ClearPieceIdempotent(g: Grid)
    ensures ClearPiece(ClearPiece(g)) == ClearPiece(g)
  {
    var h := ClearPiece(g);
    var h2 := ClearPiece(h);
    forall y | 0 <= y < Height
      ensures h2[y] == h[y]
    {
      assert forall x :: 0 <= x < Width ==> h2[y][x] == h[y][x];
    }
  }

  /** A grid without overlay is left as it is by ClearPiece. */
  lemma ClearPieceNoFalling(g: Grid)
    requires NoFalling(g)
    ensures ClearPiece(g) == g
  {
    var h := ClearPiece(g);
    forall y | 0 <= y < Height
      ensures h[y] == g[y]
    {
      assert forall x :: 0 <= x < Width ==> h[y][x] == g[y][x];
    }
  }

  /** Every on-grid cell under an occupied cell of `t` is empty. Cells of
      `t` off the grid do not matter. */
  ghost predicate CoversOnlyEmpty(g: Grid, t: Tetromino) {
    forall gy, gx :: InBounds(gx, gy) && Covers(t, gx, gy) ==> g[gy][gx] == Empty
  }

  /** Drawing a piece over empty cells only and then removing the overlay
      restores a grid without overlay exactly. */
  lemma DrawOverEmptyRestores(g: Grid, t: Tetromino)
    requires NoFalling(g) && CoversOnlyEmpty(g, t)
    ensures ClearPiece(DrawPiece(g, t)) == g
  {
    var d := DrawPiece(g, t);
    var h := ClearPiece(d);
    forall y | 0 <= y < Height
      ensures h[y] == g[y]
    {
      forall x | 0 <= x < Width
        ensures h[y][x] == g[y][x]
      {
        if Covers(t, x, y) {
          assert d[y][x] == Falling && g[y][x] == Empty;
        } else {
          assert d[y][x] == g[y][x];
        }
      }
    }
  }

  /** A piece that fits covers only empty cells, so the overlay round trip
      restores the grid. This is the case the game loop relies on. */
  lemma DrawThenClear(g: Grid, t: Tetromino)
    requires NoFalling(g)
    requires !Collides(g, t)
    ensures ClearPiece(DrawPiece(g, t)) == g
  {
    FitCoversEmpty(g, t);
    DrawOverEmptyRestores(g, t);
  }

  /** On a grid without overlay, drawing a piece and removing the overlay
      restores the grid exactly when every on-grid cell the piece covers is
      empty. A piece partly off the grid collides but may still round-trip. */
  lemma DrawThenClearExact(g: Grid, t: Tetromino)
    requires NoFalling(g)
    ensures ClearPiece(DrawPiece(g, t)) == g <==> CoversOnlyEmpty(g, t)
  {
    if CoversOnlyEmpty(g, t) {
      DrawOverEmptyRestores(g, t);
    } else {
      var gy, gx :| InBounds(gx, gy) && Covers(t, gx, gy) && g[gy][gx] != Empty;
      assert g[gy][gx] == Locked;
      DrawOverLockedLosesBlock(g, t, gx, gy);
    }
  }

  /** The round trip does not need the piece to fit: an I piece hanging
      one column off the left edge collides, yet drawing and removing it
      leaves an empty grid empty. */
  lemma OffGridPieceRoundTrips()
    ensures var t := Tetromino(Templates[0], -1, 0);
      Collides(EmptyGrid(), t) && ClearPiece(DrawPiece(EmptyGrid(), t)) == EmptyGrid()
  {
    var t := Tetromino(Templates[0], -1, 0);
    OffGridCollides(EmptyGrid(), t, 1, 0);
    DrawThenClearExact(EmptyGrid(), t);
  }

  /** Every on-grid cell under a piece that fits is empty. */
  lemma FitCoversEmpty(g: Grid, t: Tetromino)
    requires !Collides(g, t)
    ensures CoversOnlyEmpty(g, t)
  {
    CollidesIff(g, t);
    forall gy, gx | InBounds(gx, gy) && Covers(t, gx, gy)
      ensures g[gy][gx] == Empty
    {
      assert !Hits(g, t, gy - t.y, gx - t.x);
    }
  }

  /** Drawing over a locked cell replaces its 1 by 2, and removing the
      overlay then leaves 0: the round trip can fail for a piece that
      covers a locked cell. */
  lemma DrawOverLockedLosesBlock(g: Grid, t: Tetromino, gx: int, gy: int)
    requires InBounds(gx, gy) && Covers(t, gx, gy) && g[gy][gx] == Locked
    ensures DrawPiece(g, t)[gy][gx] == Falling
    ensures ClearPiece(DrawPiece(g, t))[gy][gx] == Empty
  {
  }

  // ---------------------------------------------------------------------
  // Row removal

  /** A full row has no 0 cell. */
  predicate Full(r: Row) {
    forall x :: 0 <= x < Width ==> r[x] != Empty
  }

  /** The number of full rows. */
  function FullCount(rows: seq<Row>): nat
    decreases |rows|
  {
    if |rows| == 0 then 0
    else FullCount(rows[..|rows| - 1]) + (if Full(rows[|rows| - 1]) then 1 else 0)
  }

  /** The rows that are not full, in their original order. */
  function Survivors(rows: seq<Row>): (r: seq<Row>)
    ensures |r| + FullCount(rows) == |rows|
    ensures forall k :: 0 <= k < |r| ==> !Full(r[k])
    decreases |rows|
  {
    if |rows| == 0 then []
    else Survivors(rows[..|rows| - 1]) + (if Full(rows[|rows| - 1]) then [] else [rows[|rows| - 1]])
  }

  function EmptyRows(n: nat): (r: seq<Row>)
    ensures |r| == n
  {
    seq(n, _ => EmptyRow())
  }

  /** The grid after row removal and how many rows were removed. */
  datatype Cleared = Cleared(grid: Grid, count: nat)

  /** Removes every full row, shifting the rows above it down and filling
      the top with empty rows; `count` is the number of rows removed. */
  function ClearLines(g: Grid): (r: Cleared)
    ensures r.count == FullCount(g) && r.count <= Height
    ensures forall y :: 0 <= y < Height ==> !Full(r.grid[y])
    ensures forall y :: 0 <= y < r.count ==> r.grid[y] == EmptyRow()
    ensures r.grid[r.count..] == Survivors(g)
    ensures NoFalling(g) ==> NoFalling(r.grid)
  {
    SurvivorsFromRows(g);
    var n := FullCount(g);
    var h: Grid := EmptyRows(n) + Survivors(g);
    forall y | 0 <= y < Height
      ensures !Full(h[y])
    {
      if y < n {
        assert h[y][0] == Empty;
      } else {
        assert h[y] == Survivors(g)[y - n];
      }
    }
    assert h[n..] == Survivors(g);
    Cleared(h, n)
  }

  lemma {:induction false} SurvivorsAppend(a: seq<Row>, b: seq<Row>)
    ensures Survivors(a + b) == Survivors(a) + Survivors(b)
    ensures FullCount(a + b) == FullCount(a) + FullCount(b)
    decreases |b|
  {
    if |b| == 0 {
      assert a + b == a;
    } else {
      var b' := b[..|b| - 1];
      var last := b[|b| - 1];
      assert (a + b)[..|a + b| - 1] == a + b';
      assert (a + b)[|a + b| - 1] == last;
      SurvivorsAppend(a, b');
    }
  }

  lemma {:induction false} SurvivorsOfNonFull(rows: seq<Row>)
    requires forall k :: 0 <= k < |rows| ==> !Full(rows[k])
    ensures Survivors(rows) == rows
    ensures FullCount(rows) == 0
    decreases |rows|
  {
    if |rows| > 0 {
      var init := rows[..|rows| - 1];
      SurvivorsOfNonFull(init);
      assert init + [rows[|rows| - 1]] == rows;
    }
  }

  /** With no full row, ClearLines removes nothing and changes nothing. */
  lemma ClearLinesNoFullRow(g: Grid)
    requires forall y :: 0 <= y < Height ==> !Full(g[y])
    ensures ClearLines(g) == Cleared(g, 0)
  {
    SurvivorsOfNonFull(g);
    assert EmptyRows(0) + g == g;
  }

  /** With exactly one full row `r`, ClearLines removes one row: row 0 becomes
      empty, rows 1..r take the content of the row above, and the rows below
      `r` are untouched. */
  lemma ClearLinesOneFullRow(g: Grid, r: int)
    requires 0 <= r < Height && Full(g[r])
    requires forall y :: 0 <= y < Height && y != r ==> !Full(g[y])
    ensures ClearLines(g).count == 1
    ensures ClearLines(g).grid[0] == EmptyRow()
    ensures forall y :: 1 <= y <= r ==> ClearLines(g).grid[y] == g[y - 1]
    ensures forall y :: r < y < Height ==> ClearLines(g).grid[y] == g[y]
  {
    OneFullRowSurvivors(g, r);
    var h := ClearLines(g).grid;
    assert h[1..] == g[..r] + g[r + 1..];
    forall y | 1 <= y <= r
      ensures h[y] == g[y - 1]
    {
      assert h[y] == h[1..][y - 1];
    }
    forall y | r < y < Height
      ensures h[y] == g[y]
    {
      assert h[y] == h[1..][y - 1];
    }
  }

  /** One full row between non-full ones: it is the only row removed. */
  lemma SurvivorsAroundFull(above: seq<Row>, row: Row, below: seq<Row>)
    requires Full(row)
    requires forall k :: 0 <= k < |above| ==> !Full(above[k])
    requires forall k :: 0 <= k < |below| ==> !Full(below[k])
    ensures FullCount(above + [row] + below) == 1
    ensures Survivors(above + [row] + below) == above + below
  {
    SurvivorsOfNonFull(above);
    SurvivorsOfNonFull(below);
    SurvivorsSnoc(above, row);
    assert Survivors(above + [row]) == above + [];
    SurvivorsAppend(above + [row], below);
    assert Survivors(above + [row] + below) == (above + []) + below;
    assert above + [] == above;
  }

  /** With exactly one full row `r`, the survivors are the rows above and
      below it, in order. */
  lemma OneFullRowSurvivors(g: Grid, r: int)
    requires 0 <= r < Height && Full(g[r])
    requires forall y :: 0 <= y < Height && y != r ==> !Full(g[y])
    ensures FullCount(g) == 1
    ensures Survivors(g) == g[..r] + g[r + 1..]
  {
    var above := g[..r];
    var below := g[r + 1..];
    assert g[r..] == [g[r]] + below;
    assert g == above + g[r..];
    forall k | 0 <= k < |above|
      ensures !Full(above[k])
    {
      assert above[k] == g[k];
    }
    forall k | 0 <= k < |below|
      ensures !Full(below[k])
    {
      assert below[k] == g[r + 1 + k];
    }
    SurvivorsAroundFull(above, g[r], below);
    assert above + [g[r]] + below == g;
  }

  /** Every surviving row is one of the input rows. */
  lemma {:induction false} SurvivorsFromRows(rows: seq<Row>)
    ensures forall k :: 0 <= k < |Survivors(rows)| ==> Survivors(rows)[k] in rows
    decreases |rows|
  {
    if |rows| > 0 {
      var init := rows[..|rows| - 1];
      SurvivorsFromRows(init);
      assert forall r :: r in init ==> r in rows;
    }
  }

  /** The scan of one row for a 0 cell, leaving at the first one found. */
  method RowIsFull(r: Row) returns (full: bool)
    ensures full <==> Full(r)
  {
    full := true;
    var x := 0;
    while x < Width
      invariant 0 <= x <= Width
      invariant forall x' :: 0 <= x' < x ==> r[x'] != Empty
    {
      if r[x] == Empty {
        full := false;
        break;
      }
      x := x + 1;
    }
  }

  /** Removes row `y` by copying each row above it one row down, from the
      bottom up, and then blanking row 0. */
  method RemoveRow(g: Grid, y: int) returns (h: Grid)
    requires 0 <= y < Height
    ensures h == [EmptyRow()] + g[..y] + g[y + 1..]
  {
    h := g;
    var ty := y;
    while ty > 0
      invariant 0 <= ty <= y
      invariant forall k :: 0 <= k < ty ==> h[k] == g[k]
      invariant forall k :: ty < k <= y ==> h[k] == g[k - 1]
      invariant forall k :: y < k < Height ==> h[k] == g[k]
    {
      h := h[ty := h[ty - 1]];
      ty := ty - 1;
    }
    h := h[0 := EmptyRow()];
    var want := [EmptyRow()] + g[..y] + g[y + 1..];
    forall k | 0 <= k < Height
      ensures h[k] == want[k]
    {
      if k == 0 {
      } else if k <= y {
        assert want[k] == g[k - 1];
      } else {
        assert want[k] == g[k];
      }
    }
  }

  /** Appending one row extends the survivors by it unless it is full. */
  lemma SurvivorsSnoc(rows: seq<Row>, row: Row)
    ensures Survivors(rows + [row]) == Survivors(rows) + (if Full(row) then [] else [row])
    ensures FullCount(rows + [row]) == FullCount(rows) + (if Full(row) then 1 else 0)
  {
    assert (rows + [row])[..|rows|] == rows;
  }

  /** The grid the top-down pass holds before it looks at row `y`, having
      removed `cleared` rows: that many blank rows on top, then the rows
      above `y` that were not full, then the rows not yet looked at. */
  function Pass(g: Grid, y: nat, cleared: nat): seq<Row>
    requires y <= Height
  {
    EmptyRows(cleared) + Survivors(g[..y]) + g[y..]
  }

  /** Cutting a concatenation around its middle row. */
  lemma SplitAround(top: seq<Row>, row: Row, rest: seq<Row>)
    ensures (top + [row] + rest)[..|top|] == top
    ensures (top + [row] + rest)[|top|] == row
    ensures (top + [row] + rest)[|top| + 1..] == rest
  {
  }

  /** The part of `Pass(g, y, cleared)` above row `y`. */
  function PassTop(g: Grid, y: nat, cleared: nat): seq<Row>
    requires y <= Height
  {
    EmptyRows(cleared) + Survivors(g[..y])
  }

  /** Before row `y` is looked at, the pass holds its top part, then row
      `y` itself, then the rows below. */
  lemma PassSplit(g: Grid, y: int, cleared: nat)
    requires 0 <= y < Height && cleared == FullCount(g[..y])
    ensures |PassTop(g, y, cleared)| == y
    ensures Pass(g, y, cleared) == PassTop(g, y, cleared) + [g[y]] + g[y + 1..]
  {
    assert g[y..] == [g[y]] + g[y + 1..];
  }

  /** Removing a full row `y`: one more blank row on top, the same survivors. */
  lemma PassDrop(g: Grid, y: int, cleared: nat)
    requires 0 <= y < Height && Full(g[y])
    ensures [EmptyRow()] + PassTop(g, y, cleared) + g[y + 1..] == Pass(g, y + 1, cleared + 1)
    ensures FullCount(g[..y + 1]) == FullCount(g[..y]) + 1
  {
    assert g[..y + 1] == g[..y] + [g[y]];
    SurvivorsSnoc(g[..y], g[y]);
    assert [EmptyRow()] + EmptyRows(cleared) == EmptyRows(cleared + 1);
  }

  /** Keeping a non-full row `y`: it joins the survivors. */
  lemma PassKeep(g: Grid, y: int, cleared: nat)
    requires 0 <= y < Height && !Full(g[y])
    ensures PassTop(g, y, cleared) + [g[y]] + g[y + 1..] == Pass(g, y + 1, cleared)
    ensures FullCount(g[..y + 1]) == FullCount(g[..y])
  {
    assert g[..y + 1] == g[..y] + [g[y]];
    SurvivorsSnoc(g[..y], g[y]);
  }

  /** One step of the top-down pass keeps the shape `Pass`: a full row is
      removed and counted, any other row is kept. */
  lemma TopDownStep(g: Grid, y: int, cleared: nat, h: seq<Row>)
    requires 0 <= y < Height
    requires cleared == FullCount(g[..y])
    requires h == Pass(g, y, cleared)
    ensures |h| == Height && h[y] == g[y]
    ensures Full(g[y]) ==>
      [EmptyRow()] + h[..y] + h[y + 1..] == Pass(g, y + 1, cleared + 1) && cleared + 1 == FullCount(g[..y + 1])
    ensures !Full(g[y]) ==>
      h == Pass(g, y + 1, cleared) && cleared == FullCount(g[..y + 1])
  {
    PassSplit(g, y, cleared);
    SplitAround(PassTop(g, y, cleared), g[y], g[y + 1..]);
    if Full(g[y]) {
      PassDrop(g, y, cleared);
    } else {
      PassKeep(g, y, cleared);
    }
  }

  /** Once every row has been looked at, the pass holds the result of `ClearLines`. */
  lemma TopDownDone(g: Grid, h: seq<Row>, cleared: nat)
    requires cleared == FullCount(g[..Height]) && h == Pass(g, Height, cleared)
    ensures Cleared(h, cleared) == ClearLines(g)
  {
    var c := ClearLines(g);
    assert g[..Height] == g && g[Height..] == [];
    assert c.grid[..c.count] == EmptyRows(c.count);
    assert c.grid == c.grid[..c.count] + c.grid[c.count..];
  }

  /** One row of the top-down pass: a full row `y` is removed and counted,
      any other row is kept, so the pass moves from `Pass(g, y, ·)` to
      `Pass(g, y + 1, ·)`. */
  method TopDownRow(g: Grid, y: int, h: Grid, cleared: nat) returns (h': Grid, cleared': nat)
    requires 0 <= y < Height
    requires cleared == FullCount(g[..y]) && h == Pass(g, y, cleared)
    ensures cleared' == FullCount(g[..y + 1]) && h' == Pass(g, y + 1, cleared')
    ensures cleared' == cleared + (if Full(g[y]) then 1 else 0)
  {
    TopDownStep(g, y, cleared, h);
    var full := RowIsFull(h[y]);
    if full {
      h' := RemoveRow(h, y);
      cleared' := cleared + 1;
    } else {
      h', cleared' := h, cleared;
    }
  }

  /** The source's top-down pass: each full row found is removed by copying
      every row above it one row down and blanking row 0, and the scan goes
      on with the next index. */
  method ClearLinesTopDown(g: Grid) returns (h: Grid, cleared: nat)
    ensures Cleared(h, cleared) == ClearLines(g)
  {
    h := g;
    cleared := 0;
    var y := 0;
    assert Pass(g, 0, 0) == g;
    while y < Height
      invariant 0 <= y <= Height
      invariant cleared == FullCount(g[..y])
      invariant h == Pass(g, y, cleared)
    {
      h, cleared := TopDownRow(g, y, h, cleared);
      y := y + 1;
    }
    TopDownDone(g, h, cleared);
  }
}
