/**
  A* search from an initial board to the goal board. The frontier is a
  priority queue of (f, g, state, path) entries, extracted by least (f, g);
  a closed set records the boards already expanded, and entries whose board
  is already closed are dropped when popped.
 */
module AStar {
  import opened Wrappers
  import opened Grid
  import opened Moves
  import opened Heuristic
  import opened Paths

  /** A frontier entry: f = g + heuristic, g = moves so far, the board, and its path. */
  datatype Node = Node(f: int, g: int, state: Board, path: seq<Move>)

  /**
    The outcome of a search: a path to the goal with the final board, the
    frontier size and the closed-set size; or exhaustion of the frontier with
    the closed-set size (the path, the board and the frontier size being
    absent, 0); or a board without a blank, on which move generation fails.
   */
  datatype SearchResult =
    | Solved(path: seq<Move>, final: Board, openSize: nat, visitedCount: nat)
    | Exhausted(visitedCount: nat)
    | NoBlank

  /** Frontier order on the first two components of the key, (f, g). */
  predicate KeyLe(a: Node, b: Node) {
    a.f < b.f || (a.f == b.f && a.g <= b.g)
  }

  /**
    An entry with least (f, g). Which of several such entries is taken is
    left open: nothing below depends on the choice.
   */
  method SelectMin(open: multiset<Node>) returns (n: Node)
    requires |open| > 0
    ensures n in open
    ensures forall e :: e in open ==> KeyLe(n, e)
  {
    n :| n in open;
    var rest := open - multiset{n};
    while |rest| > 0
      invariant n in open && rest <= open
      invariant forall e :: e in open ==> e in rest || KeyLe(n, e)
      decreases |rest|
    {
      var e :| e in rest;
      if !KeyLe(n, e) {
        n := e;
      }
      rest := rest - multiset{e};
    }
  }

  /** The entry pushed for successor `m` of the entry `n`. */
  function Child(n: Node, m: Move): Node {
    var g := n.g + 1;
    Node(g + Misplaced(m.1), g, m.1, n.path + [m])
  }

  /** The entries pushed when `n` is expanded, for the successors whose board is not closed. */
  function Children(n: Node, ms: seq<Move>, visited: set<Board>): (r: seq<Node>)
    ensures forall i :: 0 <= i < |r| ==>
      exists m :: m in ms && m.1 !in visited && r[i] == Child(n, m)
  {
    if |ms| == 0 then []
    else
      var rest := Children(n, ms[1..], visited);
      assert forall m :: m in ms[1..] ==> m in ms;
      (if ms[0].1 !in visited then [Child(n, ms[0])] else []) + rest
  }

  /** Every successor whose board is not closed gets an entry. */
  lemma {:induction false} ChildrenComplete(n: Node, ms: seq<Move>, visited: set<Board>, m: Move)
    requires m in ms && m.1 !in visited
    ensures Child(n, m) in Children(n, ms, visited)
  {
    if ms[0] != m {
      ChildrenComplete(n, ms[1..], visited, m);
    }
  }

  /**
    What every frontier entry satisfies: g is the length of its path, f is g
    plus the heuristic of its board, and the path is a chain of legal moves
    from the initial board ending on the entry's board.
   */
  ghost predicate NodeOk(initial: Board, n: Node) {
    && n.g == |n.path|
    && n.f == n.g + Misplaced(n.state)
    && IsPath(initial, n.path)
    && EndOf(initial, n.path) == n.state
    && HasBlank(n.state)
    && SameTiles(n.state, initial)
  }

  lemma ChildOk(initial: Board, n: Node, m: Move)
    requires NodeOk(initial, n) && IsMove(n.state, m)
    ensures NodeOk(initial, Child(n, m))
  {
    PathExtend(initial, n.path, m);
    MoveKeepsTiles(n.state, m);
  }

  ghost predicate InOpen(open: multiset<Node>, s: Board) {
    exists e :: e in open && e.state == s
  }

  /** The legal moves from any board: none when it has no blank. */
  function Neighbours(b: Board): (r: seq<Move>)
    ensures HasBlank(b) ==> r == Successors(b)
  {
    if FindBlank(b).Some? then Successors(b) else []
  }

  /** Every board one step (by `next`) from a closed board is closed or waiting in the frontier. */
  ghost predicate ClosedUnder(visited: set<Board>, open: multiset<Node>, next: Board -> seq<Move>) {
    forall v, m :: v in visited && m in next(v) ==> m.1 in visited || InOpen(open, m.1)
  }

  /** Every successor of a closed board is closed or waiting in the frontier. */
  ghost predicate Closed(visited: set<Board>, open: multiset<Node>) {
    ClosedUnder(visited, open, Neighbours)
  }

  lemma InOpenRemove(open: multiset<Node>, n: Node, s: Board)
    requires InOpen(open, s) && n.state != s
    ensures InOpen(open - multiset{n}, s)
  {
    var e :| e in open && e.state == s;
    assert e in open - multiset{n};
  }

  /** Dropping a popped entry whose board is already closed keeps the frontier closed. */
  lemma ClosedAfterSkip(visited: set<Board>, open: multiset<Node>, n: Node, next: Board -> seq<Move>)
    requires n.state in visited && ClosedUnder(visited, open, next)
    ensures ClosedUnder(visited, open - multiset{n}, next)
  {
    forall v, m | v in visited && m in next(v) && m.1 !in visited
      ensures InOpen(open - multiset{n}, m.1)
    {
      InOpenRemove(open, n, m.1);
    }
  }

  /** A board waiting in the frontier is still waiting once more entries are pushed. */
  lemma InOpenGrow(open: multiset<Node>, extra: multiset<Node>, s: Board)
    requires InOpen(open, s)
    ensures InOpen(open + extra, s)
  {
    var e :| e in open && e.state == s;
    assert e in open + extra;
  }

  /** The entry pushed for an unclosed successor puts that successor in the frontier. */
  lemma InOpenChild(rest: multiset<Node>, n: Node, ms: seq<Move>, visited: set<Board>, m: Move)
    requires m in ms && m.1 !in visited
    ensures InOpen(rest + multiset(Children(n, ms, visited)), m.1)
  {
    ChildrenComplete(n, ms, visited, m);
    var c := Child(n, m);
    assert c.state == m.1;
    assert c in rest + multiset(Children(n, ms, visited));
  }

  /** Expanding the popped entry and pushing its children keeps the frontier closed. */
  lemma ClosedAfterExpand(visited: set<Board>, open: multiset<Node>, n: Node, next: Board -> seq<Move>, succ: seq<Move>)
    requires ClosedUnder(visited, open, next) && succ == next(n.state)
    ensures ClosedUnder(visited + {n.state}, open - multiset{n} + multiset(Children(n, succ, visited + {n.state})), next)
  {
    var rest := open - multiset{n};
    var visited' := visited + {n.state};
    var children := Children(n, succ, visited');
    var open' := rest + multiset(children);
    forall v, m | v in visited' && m in next(v) && m.1 !in visited'
      ensures InOpen(open', m.1)
    {
      if v == n.state {
        InOpenChild(rest, n, next(n.state), visited', m);
      } else {
        InOpenRemove(open, n, m.1);
        InOpenGrow(rest, multiset(children), m.1);
      }
    }
  }

  /** The distinct tile values of a board. */
  ghost function TileSet(b: Board): set<int> {
    set v | v in Cells(b)
  }

  /** All boards whose tiles are drawn from `vals`: a finite set. */
  ghost function Grids(vals: set<int>): set<Board> {
    set a, b, c, d, e, f, g, h, i |
      a in vals && b in vals && c in vals && d in vals && e in vals
      && f in vals && g in vals && h in vals && i in vals
      :: [[a, b, c], [d, e, f], [g, h, i]]
  }

  lemma GridsMember(vals: set<int>, a: int, b: int, c: int, d: int, e: int, f: int, g: int, h: int, i: int)
    requires a in vals && b in vals && c in vals && d in vals && e in vals
    requires f in vals && g in vals && h in vals && i in vals
    ensures [[a, b, c], [d, e, f], [g, h, i]] in Grids(vals)
  {
  }

  /** A board is the display of its nine cells. */
  lemma BoardDisplay(x: Board)
    ensures x == [[x[0][0], x[0][1], x[0][2]], [x[1][0], x[1][1], x[1][2]], [x[2][0], x[2][1], x[2][2]]]
  {
    assert x[0] == [x[0][0], x[0][1], x[0][2]];
    assert x[1] == [x[1][0], x[1][1], x[1][2]];
    assert x[2] == [x[2][0], x[2][1], x[2][2]];
  }

  /** Every board holding the initial board's tiles lies in the finite set of candidates. */
  lemma InGrids(x: Board, initial: Board)
    requires SameTiles(x, initial)
    ensures x in Grids(TileSet(initial))
  {
    var vals := TileSet(initial);
    forall k | 0 <= k < 9
      ensures Cells(x)[k] in vals
    {
      assert Cells(x)[k] in multiset(Cells(initial));
    }
    var c := Cells(x);
    assert c == x[0] + x[1] + x[2];
    assert x[0][0] == c[0] && x[0][1] == c[1] && x[0][2] == c[2];
    assert x[1][0] == c[3] && x[1][1] == c[4] && x[1][2] == c[5];
    assert x[2][0] == c[6] && x[2][1] == c[7] && x[2][2] == c[8];
    GridsMember(vals, x[0][0], x[0][1], x[0][2], x[1][0], x[1][1], x[1][2], x[2][0], x[2][1], x[2][2]);
    BoardDisplay(x);
  }

  lemma CloseShrinks(reach: set<Board>, visited: set<Board>, x: Board)
    requires x in reach && x !in visited
    ensures |reach - (visited + {x})| < |reach - visited|
  {
    assert reach - visited == (reach - (visited + {x})) + {x};
  }

  /** Every frontier entry is well formed. */
  ghost predicate NodesOk(initial: Board, open: multiset<Node>) {
    forall e :: e in open ==> NodeOk(initial, e)
  }

  /** The closed boards have a blank and are permutations of the initial board reachable from it. */
  ghost predicate VisitedOk(initial: Board, visited: set<Board>) {
    forall v :: v in visited ==> HasBlank(v) && SameTiles(v, initial) && Reachable(initial, v)
  }

  /** `expanded` lists the closed boards, each exactly once. */
  ghost predicate ExpandedOk(expanded: seq<Board>, visited: set<Board>) {
    && (forall i, j :: 0 <= i < j < |expanded| ==> expanded[i] != expanded[j])
    && (forall i :: 0 <= i < |expanded| ==> expanded[i] in visited)
    && |expanded| == |visited|
  }

  /**
    What holds between two iterations of the search loop: every frontier
    entry is well formed; the closed boards are reachable permutations of the
    initial board, never the goal, and each was expanded exactly once; every
    successor of a closed board is closed or in the frontier; and the initial
    board is closed or in the frontier.
   */
  ghost predicate Invariant(initial: Board, open: multiset<Node>, visited: set<Board>, expanded: seq<Board>) {
    && NodesOk(initial, open)
    && VisitedOk(initial, visited)
    && Closed(visited, open)
    && Goal !in visited
    && (initial in visited || InOpen(open, initial))
    && ExpandedOk(expanded, visited)
  }

  /** The frontier as first pushed: the initial board, with g = 0 and an empty path. */
  function Start(initial: Board): multiset<Node> {
    multiset{Node(Misplaced(initial), 0, initial, [])}
  }

  lemma InvariantInit(initial: Board)
    requires HasBlank(initial)
    ensures Invariant(initial, Start(initial), {}, [])
  {
    var n := Node(Misplaced(initial), 0, initial, []);
    assert NodeOk(initial, n);
    assert n in Start(initial);
  }

  /** Popping an entry whose board is already closed, and dropping it. */
  lemma InvariantSkip(initial: Board, open: multiset<Node>, visited: set<Board>, expanded: seq<Board>, n: Node)
    requires Invariant(initial, open, visited, expanded)
    requires n in open && n.state in visited
    ensures Invariant(initial, open - multiset{n}, visited, expanded)
  {
    ClosedAfterSkip(visited, open, n, Neighbours);
    if initial !in visited {
      InOpenRemove(open, n, initial);
    }
  }

  /** The entries pushed on expansion are well formed. */
  lemma ChildrenOk(initial: Board, n: Node, visited: set<Board>)
    requires NodeOk(initial, n)
    ensures forall c :: c in Children(n, Successors(n.state), visited) ==> NodeOk(initial, c)
  {
    var children := Children(n, Successors(n.state), visited);
    forall c | c in children
      ensures NodeOk(initial, c)
    {
      var i :| 0 <= i < |children| && children[i] == c;
      var m :| m in Successors(n.state) && m.1 !in visited && c == Child(n, m);
      ChildOk(initial, n, m);
    }
  }

  lemma NodesOkAfterExpand(initial: Board, open: multiset<Node>, n: Node, visited: set<Board>)
    requires NodesOk(initial, open) && n in open
    ensures NodesOk(initial, open - multiset{n} + multiset(Children(n, Successors(n.state), visited)))
  {
    var children := Children(n, Successors(n.state), visited);
    ChildrenOk(initial, n, visited);
    forall e | e in open - multiset{n} + multiset(children)
      ensures NodeOk(initial, e)
    {
      if e !in open {
        assert e in children;
      }
    }
  }

  lemma VisitedOkAfterExpand(initial: Board, visited: set<Board>, n: Node)
    requires VisitedOk(initial, visited) && NodeOk(initial, n)
    ensures VisitedOk(initial, visited + {n.state})
  {
    assert Reachable(initial, n.state) by {
      assert IsPath(initial, n.path) && EndOf(initial, n.path) == n.state;
    }
  }

  lemma ExpandedOkAfterExpand(expanded: seq<Board>, visited: set<Board>, x: Board)
    requires ExpandedOk(expanded, visited) && x !in visited
    ensures ExpandedOk(expanded + [x], visited + {x})
  {
  }

  /** What the loop invariant says about the expanded boards. */
  lemma ExpandedFacts(initial: Board, visited: set<Board>, expanded: seq<Board>)
    requires VisitedOk(initial, visited) && Goal !in visited && ExpandedOk(expanded, visited)
    ensures forall i, j :: 0 <= i < j < |expanded| ==> expanded[i] != expanded[j]
    ensures forall i :: 0 <= i < |expanded| ==> expanded[i] != Goal && Reachable(initial, expanded[i])
    ensures |expanded| == |visited|
    ensures forall v :: v in visited ==> v in expanded
  {
    forall i | 0 <= i < |expanded|
      ensures expanded[i] != Goal && Reachable(initial, expanded[i])
    {
      assert expanded[i] in visited;
    }
    DistinctCovers(expanded, visited);
  }

  /** A list without repetitions, drawn from `s` and as long as `s`, lists every element of `s`. */
  lemma {:induction false} DistinctCovers<T>(xs: seq<T>, s: set<T>)
    requires forall i, j :: 0 <= i < j < |xs| ==> xs[i] != xs[j]
    requires forall i :: 0 <= i < |xs| ==> xs[i] in s
    requires |xs| == |s|
    ensures forall x :: x in s ==> x in xs
  {
    if |xs| > 0 {
      var rest, s' := xs[1..], s - {xs[0]};
      forall i | 0 <= i < |rest|
        ensures rest[i] in s'
      {
        assert rest[i] == xs[i + 1] && xs[0] != xs[i + 1];
      }
      DistinctCovers(rest, s');
      forall x | x in s
        ensures x in xs
      {
        if x != xs[0] {
          assert x in rest;
        }
      }
    }
  }

  /** The single element of a one-element multiset. */
  lemma OnlyElement<T>(x: T, y: T)
    requires x in multiset{y}
    ensures x == y && |multiset{y}| == 1
  {
  }

  /** Stated over any element type, so that the solver does not look inside boards. */
  lemma NotAdded<T>(s: set<T>, x: T, y: T)
    requires x !in s && x != y
    ensures x !in s + {y}
  {
  }

  /** Popping an entry whose board is not closed, closing it and pushing its children. */
  lemma InvariantExpand(initial: Board, open: multiset<Node>, visited: set<Board>, expanded: seq<Board>, n: Node)
    requires Invariant(initial, open, visited, expanded)
    requires n in open && n.state !in visited && n.state != Goal
    ensures var visited' := visited + {n.state};
      HasBlank(n.state)
      && Invariant(initial, open - multiset{n} + multiset(Children(n, Successors(n.state), visited')),
                   visited', expanded + [n.state])
  {
    assert NodeOk(initial, n);
    var visited' := visited + {n.state};
    var rest := open - multiset{n};
    var children := Children(n, Successors(n.state), visited');
    NotAdded(visited, Goal, n.state);
    NodesOkAfterExpand(initial, open, n, visited');
    VisitedOkAfterExpand(initial, visited, n);
    ExpandedOkAfterExpand(expanded, visited, n.state);
    ClosedAfterExpand(visited, open, n, Neighbours, Successors(n.state));
    if initial != n.state && initial !in visited {
      InOpenRemove(open, n, initial);
      InOpenGrow(rest, multiset(children), initial);
    }
  }

  /** An empty frontier means every reachable board is closed, so the goal is unreachable. */
  lemma InvariantExhausted(initial: Board, visited: set<Board>, expanded: seq<Board>)
    requires Invariant(initial, multiset{}, visited, expanded)
    ensures forall s :: Reachable(initial, s) ==> s in visited
    ensures !Reachable(initial, Goal)
  {
    forall v, m | v in visited && m in Successors(v)
      ensures m.1 in visited
    {
      assert m in Neighbours(v);
    }
    forall path | IsPath(initial, path)
      ensures EndOf(initial, path) in visited
    {
      ClosedSetContainsPaths(initial, visited, path);
    }
  }

  lemma GoalHasBlank()
    ensures HasBlank(Goal)
  {
    assert At(Goal, Pos(2, 2)) == 0;
  }

  /** The frontier holds one entry, for the initial board with an empty path. */
  ghost predicate OnlyStart(initial: Board, open: multiset<Node>) {
    |open| == 1 && forall e :: e in open ==> e.path == [] && e.state == initial
  }

  lemma StartOnly(initial: Board)
    ensures OnlyStart(initial, Start(initial))
  {
    var n := Node(Misplaced(initial), 0, initial, []);
    forall e | e in Start(initial)
      ensures e.path == [] && e.state == initial
    {
      OnlyElement(e, n);
    }
  }

  /** The path of a well-formed entry leads from the initial board to its board. */
  lemma NodePath(initial: Board, n: Node)
    requires NodeOk(initial, n)
    ensures IsPath(initial, n.path) && EndOf(initial, n.path) == n.state
    ensures Reachable(initial, n.state)
    ensures n.path == [] ==> n.state == initial
  {
    if n.path == [] {
      assert EndOf(initial, n.path) == initial;
    }
  }

  /**
    The rest of one turn of the search loop, once the popped entry is known
    not to hold the goal: drop it if its board is already closed, otherwise
    close its board and push an entry for each successor not yet closed.
   */
  method Advance(initial: Board, open: multiset<Node>, visited: set<Board>, ghost expanded: seq<Board>, node: Node)
    returns (open': multiset<Node>, visited': set<Board>, ghost expanded': seq<Board>)
    requires Invariant(initial, open, visited, expanded)
    requires node in open && node.state != Goal
    ensures Invariant(initial, open', visited', expanded')
    ensures node.state in visited ==> visited' == visited && open' == open - multiset{node} && |open'| < |open|
    ensures node.state !in visited ==> visited' == visited + {node.state} && SameTiles(node.state, initial)
    ensures node.state !in visited ==>
      HasBlank(node.state) && open' == open - multiset{node} + multiset(Children(node, Successors(node.state), visited'))
  {
    assert NodeOk(initial, node);
    if node.state in visited {
      InvariantSkip(initial, open, visited, expanded, node);
      return open - multiset{node}, visited, expanded;
    }
    InvariantExpand(initial, open, visited, expanded, node);
    var children := Children(node, Successors(node.state), visited + {node.state});
    open' := open - multiset{node} + multiset(children);
    visited' := visited + {node.state};
    expanded' := expanded + [node.state];
  }

  /**
    The search. On success the path is a chain of legal moves from the initial
    board ending on the goal; the search returns at once, with an empty path,
    when the initial board is the goal; and it reports exhaustion only when
    the goal cannot be reached. Every board is expanded at most once: the
    ghost `expanded` lists the expanded boards, in order, without repetition,
    and its length is the reported closed-set size. When the frontier empties,
    every board reachable from the initial board has been expanded.
   */
  method Search(initial: Board) returns (r: SearchResult, ghost expanded: seq<Board>)
    ensures r.NoBlank? <==> !HasBlank(initial)
    ensures r.Solved? ==> r.final == Goal && IsPath(initial, r.path) && EndOf(initial, r.path) == r.final
    ensures r.Solved? ==> (r.path == [] <==> initial == Goal)
    ensures initial == Goal ==> r.Solved? && r.path == [] && r.openSize == 0 && r.visitedCount == 0
    ensures r.Exhausted? ==> !Reachable(initial, Goal)
    ensures r.Exhausted? ==> forall s :: Reachable(initial, s) ==> s in expanded
    ensures HasBlank(initial) ==> (r.Solved? <==> Reachable(initial, Goal))
    ensures !r.NoBlank? ==> r.visitedCount == |expanded|
    ensures forall i, j :: 0 <= i < j < |expanded| ==> expanded[i] != expanded[j]
    ensures forall i :: 0 <= i < |expanded| ==> expanded[i] != Goal && Reachable(initial, expanded[i])
  {
    expanded := [];
    if FindBlank(initial).None? {
      GoalHasBlank();
      return NoBlank, expanded;
    }
    var open := Start(initial);
    var visited: set<Board> := {};
    ghost var reach := Grids(TileSet(initial));
    InvariantInit(initial);
    StartOnly(initial);
    while |open| > 0
      invariant Invariant(initial, open, visited, expanded)
      invariant initial == Goal ==> OnlyStart(initial, open) && visited == {}
      decreases |reach - visited|, |open|
    {
      var node := SelectMin(open);
      if node.state == Goal {
        assert NodeOk(initial, node);
        NodePath(initial, node);
        ExpandedFacts(initial, visited, expanded);
        return Solved(node.path, node.state, |open| - 1, |visited|), expanded;
      }
      ghost var before := visited;
      open, visited, expanded := Advance(initial, open, visited, expanded, node);
      if visited != before {
        InGrids(node.state, initial);
        CloseShrinks(reach, before, node.state);
      }
    }
    InvariantExhausted(initial, visited, expanded);
    ExpandedFacts(initial, visited, expanded);
    return Exhausted(|visited|), expanded;
  }
}
