/**
  Move generation: the blank trades places with one of its four neighbours.
  Directions are tried in the fixed order Up, Down, Left, Right, which is the
  order the move table lists them in and the order successors are produced.
 */
module Moves {
  import opened Wrappers
  import opened Grid

  /** The direction the blank travels ('Haut', 'Bas', 'Gauche', 'Droite'). */
  datatype Dir = Up | Down | Left | Right

  /** The move table, in its iteration order. */
  const Directions: seq<Dir> := [Up, Down, Left, Right]

  /** Position of a direction in the move table. */
  function Rank(d: Dir): (k: nat)
    ensures k < |Directions| && Directions[k] == d
  {
    match d
    case Up => 0
    case Down => 1
    case Left => 2
    case Right => 3
  }

  /** Row and column offset of a direction. */
  function Delta(d: Dir): (int, int) {
    match d
    case Up => (-1, 0)
    case Down => (1, 0)
    case Left => (0, -1)
    case Right => (0, 1)
  }

  function Opposite(d: Dir): (e: Dir)
    ensures Delta(e).0 == -Delta(d).0 && Delta(e).1 == -Delta(d).1
    ensures e != d
  {
    match d
    case Up => Down
    case Down => Up
    case Left => Right
    case Right => Left
  }

  function Target(p: Pos, d: Dir): Pos {
    Pos(p.row + Delta(d).0, p.col + Delta(d).1)
  }

  /**
    Moving the blank, found at `p`, in direction `d`: None when the target cell
    is off the board, otherwise the board with the blank and the target swapped.
   */
  function Slide(b: Board, p: Pos, d: Dir): (r: Option<Board>)
    requires OnBoard(p)
    ensures r.Some? <==> OnBoard(Target(p, d))
  {
    var t := Target(p, d);
    if OnBoard(t) then Some(Swap(b, p, t)) else None
  }

  /** Moving the blank of `b` in direction `d`. */
  function Apply(b: Board, d: Dir): (r: Option<Board>)
    requires HasBlank(b)
    ensures r.Some? <==> OnBoard(Target(Blank(b), d))
  {
    Slide(b, Blank(b), d)
  }

  /**
    A legal move changes exactly two cells: the target now holds the blank, the
    old blank cell holds the tile that was on the target, every other cell is
    unchanged, and the result holds the same tiles as the original.
   */
  lemma ApplySwaps(b: Board, d: Dir)
    requires HasBlank(b) && Apply(b, d).Some?
    ensures var s, p, t := Apply(b, d).value, Blank(b), Target(Blank(b), d);
      && At(s, t) == 0
      && At(s, p) == At(b, t)
      && (forall c :: OnBoard(c) && c != p && c != t ==> At(s, c) == At(b, c))
      && SameTiles(s, b)
  {
    SwapSameTiles(b, Blank(b), Target(Blank(b), d));
  }

  /** A move and the board it produces. */
  type Move = (Dir, Board)

  /**
    The directions of `ds` for which `step` yields a board, each paired with
    that board, in the order of `ds`.
   */
  function Collect<S>(step: Dir -> Option<S>, ds: seq<Dir>): (r: seq<(Dir, S)>)
    ensures forall i :: 0 <= i < |r| ==> r[i].0 in ds && step(r[i].0) == Some(r[i].1)
  {
    if |ds| == 0 then []
    else
      var rest := Collect(step, ds[1..]);
      match step(ds[0])
      case Some(s) => [(ds[0], s)] + rest
      case None => rest
  }

  /** Every direction of `ds` for which `step` yields a board is collected. */
  lemma {:induction false} CollectComplete<S>(step: Dir -> Option<S>, ds: seq<Dir>, d: Dir)
    requires d in ds && step(d).Some?
    ensures exists i :: 0 <= i < |Collect(step, ds)| && Collect(step, ds)[i].0 == d
  {
    var r := Collect(step, ds);
    var rest := Collect(step, ds[1..]);
    if ds[0] == d {
      assert r[0].0 == d;
    } else {
      assert d in ds[1..];
      CollectComplete(step, ds[1..], d);
      var i :| 0 <= i < |rest| && rest[i].0 == d;
      if step(ds[0]).Some? {
        assert r[i + 1].0 == d;
      } else {
        assert r[i].0 == d;
      }
    }
  }

  /** Collecting keeps the order of the directions it is given. */
  lemma {:induction false} CollectOrdered<S>(step: Dir -> Option<S>, ds: seq<Dir>)
    requires forall i, j :: 0 <= i < j < |ds| ==> Rank(ds[i]) < Rank(ds[j])
    ensures forall i, j :: 0 <= i < j < |Collect(step, ds)| ==>
      Rank(Collect(step, ds)[i].0) < Rank(Collect(step, ds)[j].0)
  {
    if |ds| > 0 {
      var rest := Collect(step, ds[1..]);
      CollectOrdered(step, ds[1..]);
      forall j | 0 <= j < |rest|
        ensures Rank(ds[0]) < Rank(rest[j].0)
      {
        var k :| 0 <= k < |ds[1..]| && ds[1..][k] == rest[j].0;
        assert ds[k + 1] == rest[j].0;
      }
    }
  }

  /** The number of directions of `ds` for which `step` yields a board. */
  function CountSome<S>(step: Dir -> Option<S>, ds: seq<Dir>): nat {
    if |ds| == 0 then 0 else (if step(ds[0]).Some? then 1 else 0) + CountSome(step, ds[1..])
  }

  lemma {:induction false} CollectLength<S>(step: Dir -> Option<S>, ds: seq<Dir>)
    ensures |Collect(step, ds)| == CountSome(step, ds)
  {
    if |ds| > 0 {
      CollectLength(step, ds[1..]);
    }
  }

  /**
    The successors of a board: one entry per direction whose target lies on
    the board, each carrying the board that moving there produces, listed in
    the order of the move table.
   */
  function Successors(b: Board): (r: seq<Move>)
    requires HasBlank(b)
    ensures forall i :: 0 <= i < |r| ==> Apply(b, r[i].0) == Some(r[i].1)
    ensures forall d :: OnBoard(Target(Blank(b), d)) <==> exists i :: 0 <= i < |r| && r[i].0 == d
    ensures forall i, j :: 0 <= i < j < |r| ==> Rank(r[i].0) < Rank(r[j].0)
  {
    var p := Blank(b);
    var step := d => Slide(b, p, d);
    SuccessorsComplete(b, p, step);
    CollectOrdered(step, Directions);
    Collect(step, Directions)
  }

  /** Every direction whose target is on the board is collected. */
  lemma SuccessorsComplete(b: Board, p: Pos, step: Dir -> Option<Board>)
    requires OnBoard(p)
    requires forall d :: step(d) == Slide(b, p, d)
    ensures forall d :: OnBoard(Target(p, d)) ==>
      exists i :: 0 <= i < |Collect(step, Directions)| && Collect(step, Directions)[i].0 == d
  {
    forall d | OnBoard(Target(p, d))
      ensures exists i :: 0 <= i < |Collect(step, Directions)| && Collect(step, Directions)[i].0 == d
    {
      SuccessorComplete(b, p, step, d);
    }
  }

  /** A direction whose target is on the board is collected. */
  lemma SuccessorComplete(b: Board, p: Pos, step: Dir -> Option<Board>, d: Dir)
    requires OnBoard(p) && OnBoard(Target(p, d)) && step(d) == Slide(b, p, d)
    ensures exists i :: 0 <= i < |Collect(step, Directions)| && Collect(step, Directions)[i].0 == d
  {
    assert d == Directions[Rank(d)];
    CollectComplete(step, Directions, d);
  }

  /** `m` is one of the successors of `b`. */
  ghost predicate IsMove(b: Board, m: Move) {
    HasBlank(b) && m in Successors(b)
  }

  /** A successor is exactly the result of applying its direction. */
  lemma IsMoveIff(b: Board, d: Dir, s: Board)
    requires HasBlank(b)
    ensures IsMove(b, (d, s)) <==> Apply(b, d) == Some(s)
  {
    var r := Successors(b);
    if Apply(b, d) == Some(s) {
      var i :| 0 <= i < |r| && r[i].0 == d;
      assert r[i] == (d, s);
    }
  }

  /** A successor is the swap of the blank with an on-board target. */
  lemma MoveIsSwap(b: Board, m: Move)
    requires IsMove(b, m)
    ensures OnBoard(Target(Blank(b), m.0))
    ensures m.1 == Swap(b, Blank(b), Target(Blank(b), m.0))
  {
    var i :| 0 <= i < |Successors(b)| && Successors(b)[i] == m;
    assert Apply(b, m.0) == Some(m.1);
  }

  /** Every successor still has a blank (on the target cell) and the same tiles. */
  lemma MoveKeepsTiles(b: Board, m: Move)
    requires IsMove(b, m)
    ensures HasBlank(m.1) && SameTiles(m.1, b)
    ensures At(m.1, Target(Blank(b), m.0)) == 0
  {
    var i :| 0 <= i < |Successors(b)| && Successors(b)[i] == m;
    ApplySwaps(b, m.0);
  }

  /** A successor of a single-blank board has a single blank, on the target cell. */
  lemma MoveKeepsUniqueBlank(b: Board, d: Dir)
    requires UniqueBlank(b) && Apply(b, d).Some?
    ensures UniqueBlank(Apply(b, d).value)
    ensures Blank(Apply(b, d).value) == Target(Blank(b), d)
  {
    var s, p, t := Apply(b, d).value, Blank(b), Target(Blank(b), d);
    ApplySwaps(b, d);
    assert p != t;
    forall q | OnBoard(q) && q != t
      ensures At(s, q) != 0
    {
      if q == p {
        assert At(s, q) == At(b, t);
      } else {
        assert At(s, q) == At(b, q);
      }
    }
    FindBlankUnique(s, t);
  }

  /**
    Moves are reversible: on a board with a single blank, moving back in the
    opposite direction restores the original board.
   */
  lemma MoveReversible(b: Board, d: Dir)
    requires UniqueBlank(b) && Apply(b, d).Some?
    ensures var s := Apply(b, d).value; HasBlank(s) && Apply(s, Opposite(d)) == Some(b)
  {
    var s, p, t := Apply(b, d).value, Blank(b), Target(Blank(b), d);
    MoveKeepsUniqueBlank(b, d);
    assert Target(t, Opposite(d)) == p;
    assert s == Swap(b, p, t);
    var back := Swap(s, t, p);
    assert Apply(s, Opposite(d)) == Some(back);
    forall c | OnBoard(c)
      ensures At(back, c) == At(b, c)
    {
      if c == p {
        assert At(back, c) == At(s, t);
      } else if c == t {
        assert At(back, c) == At(s, p);
      } else {
        assert At(back, c) == At(s, c);
      }
    }
    BoardExt(back, b);
  }

  /** Number of on-board neighbours of a cell: 2 in a corner, 4 in the centre, 3 elsewhere. */
  function Degree(p: Pos): nat {
    if p.row == 1 && p.col == 1 then 4
    else if p.row == 1 || p.col == 1 then 3
    else 2
  }

  /** Counting over the whole move table, direction by direction. */
  lemma CountDirections<S>(step: Dir -> Option<S>)
    ensures CountSome(step, Directions) ==
      (if step(Up).Some? then 1 else 0) + (if step(Down).Some? then 1 else 0)
      + (if step(Left).Some? then 1 else 0) + (if step(Right).Some? then 1 else 0)
  {
    var ds := Directions;
    assert ds[1..] == [Down, Left, Right];
    assert ds[1..][1..] == [Left, Right];
    assert ds[1..][1..][1..] == [Right];
    assert ds[1..][1..][1..][1..] == [];
  }

  /** The number of successors is the number of neighbours of the blank. */
  lemma SuccessorCount(b: Board)
    requires HasBlank(b)
    ensures |Successors(b)| == Degree(Blank(b))
  {
    var p := Blank(b);
    var step := d => Slide(b, p, d);
    CollectLength(step, Directions);
    CountDirections(step);
    assert step(Up).Some? <==> p.row > 0;
    assert step(Down).Some? <==> p.row < 2;
    assert step(Left).Some? <==> p.col > 0;
    assert step(Right).Some? <==> p.col < 2;
  }
}
