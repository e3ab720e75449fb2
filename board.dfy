/** The 9x9 cross-shaped Fox and Geese board (Gameboard.py).

    A board is a grid of cell characters indexed `g[row][col]`:
    ' ' is a cell outside the cross (never played on), '-' an empty
    playable cell, 'G' a goose and 'F' the fox. */
module Board {

  type Grid = seq<seq<char>>
  type Pos = (int, int)

  const Size := 9
  const Invalid := ' '
  const Empty := '-'
  const Goose := 'G'
  const Fox := 'F'

  predicate InBounds(p: Pos) {
    0 <= p.0 < Size && 0 <= p.1 < Size
  }

  /** The playable cells: rows 3..5 and columns 3..5. */
  predicate OnCross(p: Pos) {
    3 <= p.0 <= 5 || 3 <= p.1 <= 5
  }

  predicate IsGrid(g: Grid) {
    |g| == Size && forall r :: 0 <= r < Size ==> |g[r]| == Size
  }

  function At(g: Grid, p: Pos): char
    requires IsGrid(g) && InBounds(p)
  {
    g[p.0][p.1]
  }

  /** The grid with the single cell `p` overwritten by `v`. */
  function Put(g: Grid, p: Pos, v: char): (r: Grid)
    requires IsGrid(g) && InBounds(p)
    ensures IsGrid(r)
    ensures forall q :: InBounds(q) ==> At(r, q) == if q == p then v else At(g, q)
  {
    g[p.0 := g[p.0][p.1 := v]]
  }

  /** Two grids that agree on every cell are the same grid. */
  lemma GridExtensionality(g: Grid, h: Grid)
    requires IsGrid(g) && IsGrid(h)
    requires forall q :: InBounds(q) ==> At(g, q) == At(h, q)
    ensures g == h
  {
    forall r | 0 <= r < Size
      ensures g[r] == h[r]
    {
      forall c | 0 <= c < Size
        ensures g[r][c] == h[r][c]
      {
        assert At(g, (r, c)) == At(h, (r, c));
      }
    }
  }

  // ---------------------------------------------------------------------
  // Counting pieces

  function CountRow(row: seq<char>, ch: char): nat {
    if row == [] then 0 else (if row[0] == ch then 1 else 0) + CountRow(row[1..], ch)
  }

  /** Number of cells of `g` holding `ch`. */
  function Count(g: Grid, ch: char): nat {
    if g == [] then 0 else CountRow(g[0], ch) + Count(g[1..], ch)
  }

  lemma {:induction false} CountRowUpdate(row: seq<char>, c: nat, v: char, ch: char)
    requires c < |row|
    ensures CountRow(row[c := v], ch)
            == CountRow(row, ch) - (if row[c] == ch then 1 else 0) + (if v == ch then 1 else 0)
  {
    if c > 0 {
      CountRowUpdate(row[1..], c - 1, v, ch);
      assert row[c := v][1..] == row[1..][c - 1 := v];
    }
  }

  lemma {:induction false} CountUpdateRow(g: Grid, r: nat, row: seq<char>, ch: char)
    requires r < |g|
    ensures Count(g[r := row], ch) == Count(g, ch) - CountRow(g[r], ch) + CountRow(row, ch)
  {
    if r > 0 {
      CountUpdateRow(g[1..], r - 1, row, ch);
      assert g[r := row][1..] == g[1..][r - 1 := row];
    }
  }

  /** Overwriting one cell moves the count of `ch` by at most one, as expected. */
  lemma CountPut(g: Grid, p: Pos, v: char, ch: char)
    requires IsGrid(g) && InBounds(p)
    ensures Count(Put(g, p, v), ch)
            == Count(g, ch) - (if At(g, p) == ch then 1 else 0) + (if v == ch then 1 else 0)
  {
    CountRowUpdate(g[p.0], p.1, v, ch);
    CountUpdateRow(g, p.0, g[p.0][p.1 := v], ch);
  }

  /** `n` copies of `c`. */
  function Repeat(c: char, n: nat): (r: seq<char>)
    ensures |r| == n && forall i :: 0 <= i < n ==> r[i] == c
  {
    seq(n, _ => c)
  }

  lemma {:induction false} CountRowAppend(a: seq<char>, b: seq<char>, ch: char)
    ensures CountRow(a + b, ch) == CountRow(a, ch) + CountRow(b, ch)
  {
    if a != [] {
      CountRowAppend(a[1..], b, ch);
      assert (a + b)[1..] == a[1..] + b;
    } else {
      assert a + b == b;
    }
  }

  lemma {:induction false} CountRowRepeat(c: char, n: nat, ch: char)
    ensures CountRow(Repeat(c, n), ch) == if c == ch then n else 0
  {
    if n > 0 {
      CountRowRepeat(c, n - 1, ch);
      assert Repeat(c, n)[1..] == Repeat(c, n - 1);
    }
  }

  /** Peeling row `k` off the rows `g[k..]`. */
  lemma CountStep(g: Grid, k: nat, ch: char)
    requires k < |g|
    ensures Count(g[k..], ch) == CountRow(g[k], ch) + Count(g[k + 1..], ch)
  {
  }

  /** A nine-row grid counts as the sum of its rows. */
  lemma CountNine(g: Grid, ch: char)
    requires |g| == 9
    ensures Count(g, ch) == CountRow(g[0], ch) + CountRow(g[1], ch) + CountRow(g[2], ch)
                            + CountRow(g[3], ch) + CountRow(g[4], ch) + CountRow(g[5], ch)
                            + CountRow(g[6], ch) + CountRow(g[7], ch) + CountRow(g[8], ch)
  {
    assert g[0..] == g;
    CountStep(g, 0, ch);
    CountStep(g, 1, ch);
    CountStep(g, 2, ch);
    CountStep(g, 3, ch);
    CountStep(g, 4, ch);
    CountStep(g, 5, ch);
    CountStep(g, 6, ch);
    CountStep(g, 7, ch);
    CountStep(g, 8, ch);
    assert g[9..] == [];
  }

  // ---------------------------------------------------------------------
  // The starting position

  /** What `create_board` leaves in cell `p`: the fox at (7,4); geese on
      rows 0..2 of the top arm and on the whole of row 3; every other cross
      cell empty; everything off the cross invalid. */
  function InitialCell(p: Pos): char {
    if !OnCross(p) then Invalid
    else if p == (7, 4) then Fox
    else if p.0 == 3 || (0 <= p.0 <= 2 && 3 <= p.1 <= 5) then Goose
    else Empty
  }

  function InitialGrid(): (g: Grid)
    ensures IsGrid(g)
    ensures forall p :: InBounds(p) ==> At(g, p) == InitialCell(p)
  {
    seq(Size, r => seq(Size, c => InitialCell((r, c))))
  }

  /** The rows of the starting position: three invalid cells on each side
      of the arms. */
  const Margin := Repeat(Invalid, 3)
  const TopRow := Margin + Repeat(Goose, 3) + Margin
  const GooseRow := Repeat(Goose, 9)
  const OpenRow := Repeat(Empty, 9)
  const BottomRow := Margin + Repeat(Empty, 3) + Margin
  const FoxRow := Margin + ([Empty] + [Fox] + [Empty]) + Margin

  /** The starting position drawn row by row. */
  const Picture: Grid :=
    [TopRow, TopRow, TopRow, GooseRow, OpenRow, OpenRow, BottomRow, FoxRow, BottomRow]

  lemma InitialGridIsPicture()
    ensures InitialGrid() == Picture
  {
    var g := InitialGrid();
    forall r | 0 <= r < Size
      ensures g[r] == Picture[r]
    {
      assert |Picture[r]| == Size;
      forall c | 0 <= c < Size
        ensures g[r][c] == Picture[r][c]
      {
        assert g[r][c] == InitialCell((r, c));
      }
    }
  }

  /** A row framed by the two margins counts six more invalid cells than its middle. */
  lemma CountFramed(middle: seq<char>, ch: char)
    ensures CountRow(Margin + middle + Margin, ch)
            == CountRow(middle, ch) + (if ch == Invalid then 6 else 0)
  {
    CountRowAppend(Margin + middle, Margin, ch);
    CountRowAppend(Margin, middle, ch);
    CountRowRepeat(Invalid, 3, ch);
  }

  /** The picture holds 18 geese, one fox, 26 empty and 36 invalid cells. */
  lemma PictureCount(ch: char)
    ensures Count(Picture, ch) == (if ch == Goose then 18 else if ch == Fox then 1
                                   else if ch == Empty then 26 else if ch == Invalid then 36 else 0)
  {
    CountNine(Picture, ch);
    CountFramed(Repeat(Goose, 3), ch);
    CountRowRepeat(Goose, 3, ch);
    CountFramed(Repeat(Empty, 3), ch);
    CountRowRepeat(Empty, 3, ch);
    CountFramed([Empty] + [Fox] + [Empty], ch);
    CountRowAppend([Empty] + [Fox], [Empty], ch);
    CountRowAppend([Empty], [Fox], ch);
    CountRowRepeat(Goose, 9, ch);
    CountRowRepeat(Empty, 9, ch);
  }

  /** 18 geese, one fox, 26 empty playable cells and 36 invalid cells. */
  lemma InitialCounts()
    ensures Count(InitialGrid(), Goose) == 18
    ensures Count(InitialGrid(), Fox) == 1
    ensures Count(InitialGrid(), Empty) == 26
    ensures Count(InitialGrid(), Invalid) == 36
  {
    InitialGridIsPicture();
    PictureCount(Goose);
    PictureCount(Fox);
    PictureCount(Empty);
    PictureCount(Invalid);
  }

  /** What every reachable board looks like: the cells off the cross are
      exactly the invalid ones, every cell holds one of the four marks, and
      there is exactly one fox. */
  ghost predicate WellFormed(g: Grid) {
    IsGrid(g) &&
    (forall p :: InBounds(p) ==> (At(g, p) == Invalid <==> !OnCross(p))) &&
    (forall p :: InBounds(p) ==> At(g, p) in {Invalid, Empty, Goose, Fox}) &&
    Count(g, Fox) == 1
  }

  lemma InitialWellFormed()
    ensures WellFormed(InitialGrid())
  {
    InitialCounts();
  }

  /** Cell (r, c) once the first `i` columns of the horizontal arm and the
      first `i` rows of the vertical arm are painted empty. */
  function ArmsUpTo(i: int, r: int, c: int): char {
    if (3 <= r <= 5 && c < i) || (3 <= c <= 5 && r < i) then Empty else Invalid
  }

  /** Cell (r, c) once the arms are empty and columns 3..i-1 of rows 0..2
      hold geese. */
  function TopGeeseUpTo(i: int, r: int, c: int): char {
    if 0 <= r <= 2 && 3 <= c < i then Goose
    else if OnCross((r, c)) then Empty
    else Invalid
  }

  /** Cell (r, c) once, in addition, the first `i` cells of row 3 hold geese. */
  function GooseRowUpTo(i: int, r: int, c: int): char {
    if (r == 3 && c < i) || (0 <= r <= 2 && 3 <= c <= 5) then Goose
    else if OnCross((r, c)) then Empty
    else Invalid
  }

  /** The board object: a 9x9 array of cells, allocated once and then
      updated in place by the rule engine. */
  class GameBoard {
    const board: array2<char>

    constructor ()
      ensures fresh(board)
      ensures board.Length0 == Size && board.Length1 == Size
      ensures Cells() == InitialGrid()
    {
      var cells := CreateBoard();
      board := cells;
      new;
      GridExtensionality(Cells(), InitialGrid());
    }

    /** Allocates a grid of invalid cells, paints the two arms of the cross
        empty, then places the geese (top arm and row 3, overriding the
        empty cells there) and the fox. */
    static method CreateBoard() returns (board: array2<char>)
      ensures fresh(board)
      ensures board.Length0 == Size && board.Length1 == Size
      ensures forall r, c :: 0 <= r < Size && 0 <= c < Size ==> board[r, c] == InitialCell((r, c))
    {
      board := new char[Size, Size]((_, _) => Invalid);
      for i := 0 to Size
        invariant forall r, c :: 0 <= r < Size && 0 <= c < Size ==> board[r, c] == ArmsUpTo(i, r, c)
      {
        board[3, i] := Empty;
        board[4, i] := Empty;
        board[5, i] := Empty;
        board[i, 3] := Empty;
        board[i, 4] := Empty;
        board[i, 5] := Empty;
      }
      for i := 3 to 6
        invariant forall r, c :: 0 <= r < Size && 0 <= c < Size ==> board[r, c] == TopGeeseUpTo(i, r, c)
      {
        board[0, i] := Goose;
        board[1, i] := Goose;
        board[2, i] := Goose;
      }
      for i := 0 to Size
        invariant forall r, c :: 0 <= r < Size && 0 <= c < Size ==> board[r, c] == GooseRowUpTo(i, r, c)
      {
        board[3, i] := Goose;
      }
      board[7, 4] := Fox;
    }

    /** The item assignment `board[x][y] = v`. */
    method Set(p: Pos, v: char)
      requires board.Length0 == Size && board.Length1 == Size && InBounds(p)
      modifies board
      ensures Cells() == Put(old(Cells()), p, v)
    {
      ghost var expected := Put(Cells(), p, v);
      board[p.0, p.1] := v;
      GridExtensionality(Cells(), expected);
    }

    /** The current contents of the board as a value. */
    function Cells(): (g: Grid)
      reads board
      requires board.Length0 == Size && board.Length1 == Size
      ensures IsGrid(g)
      ensures forall p :: InBounds(p) ==> At(g, p) == board[p.0, p.1]
    {
      seq(Size, r requires 0 <= r < Size reads board =>
        seq(Size, c requires 0 <= c < Size reads board => board[r, c]))
    }
  }
}
