/**
  The 3×3 sliding-tile board ("taquin"): cells, the blank and the fixed goal.
  A board is an immutable grid of integers in which 0 stands for the blank.
 */
module Grid {
  import opened Wrappers

  predicate IsGrid(b: seq<seq<int>>) {
    |b| == 3 && forall i :: 0 <= i < 3 ==> |b[i]| == 3
  }

  /** A board is three rows of three tiles; the shape is fixed by the type. */
  type Board = b: seq<seq<int>> | IsGrid(b) witness [[0, 0, 0], [0, 0, 0], [0, 0, 0]]

  /** A cell of the board, by row and column. */
  datatype Pos = Pos(row: int, col: int)

  predicate OnBoard(p: Pos) {
    0 <= p.row < 3 && 0 <= p.col < 3
  }

  function At(b: Board, p: Pos): int
    requires OnBoard(p)
  {
    b[p.row][p.col]
  }

  /** The solved board: tiles 1..8 in row-major order, the blank last. */
  const Goal: Board := [[1, 2, 3], [4, 5, 6], [7, 8, 0]]

  /** `p` comes strictly before `q` in row-major order. */
  predicate Before(p: Pos, q: Pos) {
    p.row < q.row || (p.row == q.row && p.col < q.col)
  }

  ghost predicate HasBlank(b: Board) {
    exists p :: OnBoard(p) && At(b, p) == 0
  }

  /** Exactly one cell holds the blank. */
  ghost predicate UniqueBlank(b: Board) {
    && HasBlank(b)
    && forall p, q :: OnBoard(p) && OnBoard(q) && At(b, p) == 0 && At(b, q) == 0 ==> p == q
  }

  /** Row-major scan for a blank, starting at cell (i, j). */
  function ScanFrom(b: Board, i: nat, j: nat): (r: Option<Pos>)
    requires i <= 3 && j <= 3
    ensures r.Some? ==> OnBoard(r.value) && At(b, r.value) == 0 && !Before(r.value, Pos(i, j))
    ensures r.Some? ==>
      forall p :: OnBoard(p) && !Before(p, Pos(i, j)) && Before(p, r.value) ==> At(b, p) != 0
    ensures r.None? ==> forall p :: OnBoard(p) && !Before(p, Pos(i, j)) ==> At(b, p) != 0
    decreases 3 - i, 3 - j
  {
    if i == 3 then None
    else if j == 3 then ScanFrom(b, i + 1, 0)
    else if b[i][j] == 0 then Some(Pos(i, j))
    else ScanFrom(b, i, j + 1)
  }

  /**
    The position of the blank: the first cell holding 0 in row-major order,
    or None when the board has no blank.
   */
  function FindBlank(b: Board): (r: Option<Pos>)
    ensures r.Some? <==> HasBlank(b)
    ensures r.Some? ==> OnBoard(r.value) && At(b, r.value) == 0
    ensures r.Some? ==> forall p :: OnBoard(p) && Before(p, r.value) ==> At(b, p) != 0
  {
    ScanFrom(b, 0, 0)
  }

  function Blank(b: Board): (p: Pos)
    requires HasBlank(b)
    ensures OnBoard(p) && At(b, p) == 0
  {
    FindBlank(b).value
  }

  /** On a board with a single blank, FindBlank finds exactly that cell. */
  lemma FindBlankUnique(b: Board, p: Pos)
    requires OnBoard(p) && At(b, p) == 0
    requires forall q :: OnBoard(q) && At(b, q) == 0 ==> q == p
    ensures FindBlank(b) == Some(p)
  {
  }

  /** Two boards agreeing on every cell are the same board. */
  lemma BoardExt(a: Board, b: Board)
    requires forall p :: OnBoard(p) ==> At(a, p) == At(b, p)
    ensures a == b
  {
    forall i | 0 <= i < 3
      ensures a[i] == b[i]
    {
      forall j | 0 <= j < 3
        ensures a[i][j] == b[i][j]
      {
        assert At(a, Pos(i, j)) == At(b, Pos(i, j));
      }
    }
  }

  /** Row-major index of a cell. */
  function Index(p: Pos): int {
    3 * p.row + p.col
  }

  /** The cell with row-major index `k`. */
  function PosOf(k: int): (p: Pos)
    requires 0 <= k < 9
    ensures OnBoard(p) && Index(p) == k
  {
    Pos(k / 3, k % 3)
  }

  /** The cells of a board, row after row. */
  function Cells(b: Board): (c: seq<int>)
    ensures |c| == 9
    ensures forall p :: OnBoard(p) ==> c[Index(p)] == At(b, p)
  {
    b[0] + b[1] + b[2]
  }

  /** `a` holds the same tiles as `b`, counted with multiplicity. */
  predicate SameTiles(a: Board, b: Board) {
    multiset(Cells(a)) == multiset(Cells(b))
  }

  /** Writes `v` into cell `p`, leaving every other cell as it was. */
  function Put(b: Board, p: Pos, v: int): (r: Board)
    requires OnBoard(p)
    ensures At(r, p) == v
    ensures forall q :: OnBoard(q) && q != p ==> At(r, q) == At(b, q)
  {
    b[p.row := b[p.row][p.col := v]]
  }

  lemma PutCells(b: Board, p: Pos, v: int)
    requires OnBoard(p)
    ensures Cells(Put(b, p, v)) == Cells(b)[Index(p) := v]
  {
    var r := Put(b, p, v);
    if p.row == 0 {
      assert r[1] == b[1] && r[2] == b[2];
    } else if p.row == 1 {
      assert r[0] == b[0] && r[2] == b[2];
    } else {
      assert r[0] == b[0] && r[1] == b[1];
    }
  }

  /** Exchanges the contents of cells `p` and `q`. */
  function Swap(b: Board, p: Pos, q: Pos): (r: Board)
    requires OnBoard(p) && OnBoard(q)
    ensures At(r, p) == At(b, q) && At(r, q) == At(b, p)
    ensures forall c :: OnBoard(c) && c != p && c != q ==> At(r, c) == At(b, c)
  {
    Put(Put(b, p, At(b, q)), q, At(b, p))
  }

  lemma SwapCells(b: Board, p: Pos, q: Pos)
    requires OnBoard(p) && OnBoard(q)
    ensures Cells(Swap(b, p, q)) == Cells(b)[Index(p) := At(b, q)][Index(q) := At(b, p)]
  {
    var b1 := Put(b, p, At(b, q));
    PutCells(b, p, At(b, q));
    PutCells(b1, q, At(b, p));
  }

  /** Swapping two cells keeps the tiles of the board, counted with multiplicity. */
  lemma SwapSameTiles(b: Board, p: Pos, q: Pos)
    requires OnBoard(p) && OnBoard(q)
    ensures SameTiles(Swap(b, p, q), b)
  {
    SwapCells(b, p, q);
  }
}
