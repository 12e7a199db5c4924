/**
  The misplaced-tiles (Hamming) heuristic: the number of non-blank cells whose
  tile differs from the goal's tile in the same cell.
 */
module Heuristic {
  import opened Grid
  import opened Moves
  import opened Paths

  /** 1 when tile `x` counts as misplaced against goal tile `g`, else 0. */
  function Wrong(x: int, g: int): nat {
    if x != 0 && x != g then 1 else 0
  }

  function CountWrong(s: seq<int>, g: seq<int>): (n: nat)
    requires |s| == |g|
    ensures n <= |s|
    ensures 0 in s ==> n < |s|
    ensures n == 0 <==> forall k :: 0 <= k < |s| ==> s[k] == 0 || s[k] == g[k]
    decreases |s|
  {
    if |s| == 0 then 0
    else
      var rest := CountWrong(s[1..], g[1..]);
      assert s[0] != 0 && 0 in s ==> 0 in s[1..];
      assert forall k :: 1 <= k < |s| ==> s[k] == s[1..][k - 1] && g[k] == g[1..][k - 1];
      Wrong(s[0], g[0]) + rest
  }

  /**
    The heuristic value of a board: at most 9, at most 8 when the board has a
    blank, and 0 exactly when every non-blank tile sits on its goal cell.
   */
  function Misplaced(b: Board): (h: nat)
    ensures h <= 9
    ensures HasBlank(b) ==> h <= 8
    ensures h == 0 <==> forall p :: OnBoard(p) ==> At(b, p) == 0 || At(b, p) == At(Goal, p)
  {
    CellsAgree(b);
    CountWrong(Cells(b), Cells(Goal))
  }

  /** Cell-wise statements about a board, restated over its row-major cells. */
  lemma CellsAgree(b: Board)
    ensures HasBlank(b) ==> 0 in Cells(b)
    ensures (forall k :: 0 <= k < 9 ==> Cells(b)[k] == 0 || Cells(b)[k] == Cells(Goal)[k])
        <==> (forall p :: OnBoard(p) ==> At(b, p) == 0 || At(b, p) == At(Goal, p))
  {
    var c, g := Cells(b), Cells(Goal);
    if HasBlank(b) {
      var p :| OnBoard(p) && At(b, p) == 0;
      assert c[Index(p)] == 0;
    }
    if forall p :: OnBoard(p) ==> At(b, p) == 0 || At(b, p) == At(Goal, p) {
      forall k | 0 <= k < 9
        ensures c[k] == 0 || c[k] == g[k]
      {
        var p := PosOf(k);
        assert c[k] == At(b, p) && g[k] == At(Goal, p);
      }
    }
  }

  /** The heuristic is 0 on the goal board. */
  lemma MisplacedGoal()
    ensures Misplaced(Goal) == 0
  {
  }

  lemma {:induction false} CountWrongUpdate(s: seq<int>, g: seq<int>, i: int, v: int)
    requires |s| == |g| && 0 <= i < |s|
    ensures CountWrong(s[i := v], g) == CountWrong(s, g) - Wrong(s[i], g[i]) + Wrong(v, g[i])
    decreases |s|
  {
    if i == 0 {
      assert s[i := v][1..] == s[1..];
    } else {
      assert s[i := v][1..] == s[1..][i - 1 := v];
      CountWrongUpdate(s[1..], g[1..], i - 1, v);
    }
  }

  /**
    One move changes the heuristic by at most one: only the moved tile can
    change from misplaced to placed or back.
   */
  lemma MisplacedConsistent(b: Board, m: Move)
    requires IsMove(b, m)
    ensures Misplaced(b) <= Misplaced(m.1) + 1 && Misplaced(m.1) <= Misplaced(b) + 1
  {
    var p, t := Blank(b), Target(Blank(b), m.0);
    MoveIsSwap(b, m);
    SwapCells(b, p, t);
    assert Index(p) != Index(t);
    SwapBlankCount(Cells(b), Cells(Goal), Index(p), Index(t));
  }

  /** Trading the blank at `i` for the tile at `j` changes the count by at most one. */
  lemma SwapBlankCount(s: seq<int>, g: seq<int>, i: int, j: int)
    requires |s| == |g| && 0 <= i < |s| && 0 <= j < |s| && i != j && s[i] == 0
    ensures var n, n' := CountWrong(s, g), CountWrong(s[i := s[j]][j := 0], g);
      n <= n' + 1 && n' <= n + 1
  {
    var s1 := s[i := s[j]];
    CountWrongUpdate(s, g, i, s[j]);
    CountWrongUpdate(s1, g, j, 0);
  }

  /**
    The heuristic never exceeds the number of moves of any path to the goal:
    misplaced tiles is an admissible estimate of the remaining moves.
   */
  lemma {:induction false} MisplacedAdmissible(b: Board, path: seq<Move>)
    requires IsPath(b, path) && EndOf(b, path) == Goal
    ensures Misplaced(b) <= |path|
    decreases |path|
  {
    if |path| > 0 {
      PathTail(b, path);
      MisplacedAdmissible(path[0].1, path[1..]);
      MisplacedConsistent(b, path[0]);
    }
  }

  /** The goal's tiles are pairwise distinct. */
  lemma GoalDistinct(p: Pos, q: Pos)
    requires OnBoard(p) && OnBoard(q) && At(Goal, p) == At(Goal, q)
    ensures p == q
  {
  }

  /**
    On a board holding the same tiles as the goal, the heuristic is 0 exactly
    when the board is the goal.
   */
  lemma MisplacedZeroIffGoal(b: Board)
    requires SameTiles(b, Goal)
    ensures Misplaced(b) == 0 <==> b == Goal
  {
    if Misplaced(b) == 0 {
      forall p | OnBoard(p)
        ensures At(b, p) == At(Goal, p)
      {
        var v := At(Goal, p);
        if v != 0 {
          assert Cells(Goal)[Index(p)] == v;
          assert v in multiset(Cells(b));
          var k :| 0 <= k < 9 && Cells(b)[k] == v;
          var q := PosOf(k);
          GoalDistinct(p, q);
        }
      }
      BoardExt(b, Goal);
    }
  }
}
