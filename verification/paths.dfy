/**
  Paths: sequences of (direction, board) pairs, each board a successor of the
  one before it, as recorded by the search for every frontier entry.
 */
module Paths {
  import opened Grid
  import opened Moves

  /** The board before the `i`-th move of `path` taken from `start`. */
  function StateBefore(start: Board, path: seq<Move>, i: nat): Board
    requires i <= |path|
  {
    if i == 0 then start else path[i - 1].1
  }

  /** The board reached at the end of `path`. */
  function EndOf(start: Board, path: seq<Move>): Board {
    StateBefore(start, path, |path|)
  }

  /** Every step of `path` is one of the successors of the board before it. */
  ghost predicate IsPath(start: Board, path: seq<Move>) {
    forall i {:trigger StateBefore(start, path, i)} ::
      0 <= i < |path| ==> IsMove(StateBefore(start, path, i), path[i])
  }

  ghost predicate Reachable(start: Board, target: Board) {
    exists path :: IsPath(start, path) && EndOf(start, path) == target
  }

  /** A path followed by a legal move from its end is a path. */
  lemma PathExtend(start: Board, path: seq<Move>, m: Move)
    requires IsPath(start, path) && IsMove(EndOf(start, path), m)
    ensures IsPath(start, path + [m]) && EndOf(start, path + [m]) == m.1
  {
    var q := path + [m];
    forall i | 0 <= i < |path|
      ensures IsMove(StateBefore(start, q, i), q[i])
    {
      assert q[i] == path[i];
      assert StateBefore(start, q, i) == StateBefore(start, path, i);
    }
    assert q[|path|] == m;
    assert StateBefore(start, q, |path|) == EndOf(start, path);
  }

  /** Dropping the last move of a path leaves a path. */
  lemma PathPrefix(start: Board, path: seq<Move>)
    requires IsPath(start, path) && |path| > 0
    ensures var q := path[..|path| - 1];
      IsPath(start, q) && IsMove(EndOf(start, q), path[|path| - 1])
  {
    var q := path[..|path| - 1];
    forall i | 0 <= i < |q|
      ensures IsMove(StateBefore(start, q, i), q[i])
    {
      assert StateBefore(start, q, i) == StateBefore(start, path, i);
    }
    assert StateBefore(start, path, |path| - 1) == EndOf(start, q);
  }

  /** Dropping the first move of a path leaves a path from the board it produced. */
  lemma PathTail(start: Board, path: seq<Move>)
    requires IsPath(start, path) && |path| > 0
    ensures IsMove(start, path[0])
    ensures IsPath(path[0].1, path[1..]) && EndOf(path[0].1, path[1..]) == EndOf(start, path)
  {
    var q := path[1..];
    assert StateBefore(start, path, 0) == start;
    forall i | 0 <= i < |q|
      ensures IsMove(StateBefore(path[0].1, q, i), q[i])
    {
      assert q[i] == path[i + 1];
      assert StateBefore(path[0].1, q, i) == StateBefore(start, path, i + 1);
    }
  }

  /**
    A set of boards that contains `start` and, with every board, all of its
    successors, contains every board reachable from `start`.
   */
  lemma {:induction false} ClosedSetContainsPaths(start: Board, visited: set<Board>, path: seq<Move>)
    requires start in visited
    requires forall v :: v in visited ==> HasBlank(v) && forall m :: m in Successors(v) ==> m.1 in visited
    requires IsPath(start, path)
    ensures EndOf(start, path) in visited
    decreases |path|
  {
    if |path| > 0 {
      var q := path[..|path| - 1];
      PathPrefix(start, path);
      ClosedSetContainsPaths(start, visited, q);
    }
  }
}
