/**
 * The MCTS tree held in an arena: a sequence of node records addressed by index, the root at
 * index 0. A node refers to its parent and to its children by index; every child has a larger
 * index than its parent, so the tree is acyclic and a walk from the root always ends.
 * This module states what a well-formed tree is and what the search steps compute.
 */
module SearchTree {
  import opened Wrappers
  import opened Seqs
  import opened Board

  /** One search node: a board snapshot, its statistics, its children and its parent. */
  datatype Node<S> = Node(board: Board<S>, win: nat, visit: nat, children: seq<nat>, parent: Option<nat>)

  type NonNegReal = r: real | r >= 0.0

  /**
   * The UCB score of a child from (child win, child visit, parent visit). Its arithmetic is
   * left abstract: it need only be defined once child and parent have been visited, and
   * there, like the real formula, it is never negative.
   */
  type Score = f: (nat, nat, nat) --> NonNegReal | forall w: nat, v: nat, p: nat :: v > 0 && p > 0 ==> f.requires(w, v, p)
    witness (w: nat, v: nat, p: nat) => 0.0

  /** A fresh tree: the root alone, with no statistics. */
  function Fresh<S>(state: Board<S>): seq<Node<S>>
  {
    [Node(state, 0, 0, [], None)]
  }

  predicate ChildrenInRange<S>(nodes: seq<Node<S>>, i: nat)
    requires i < |nodes|
  {
    forall k :: 0 <= k < |nodes[i].children| ==> nodes[i].children[k] < |nodes|
  }

  /** The cells of the last moves of the nodes listed in ch, in the same order. */
  function MovesOf<S>(nodes: seq<Node<S>>, ch: seq<nat>): (ms: seq<Cell>)
    requires forall k :: 0 <= k < |ch| ==> ch[k] < |nodes|
    ensures |ms| == |ch| && forall k :: 0 <= k < |ch| ==> ms[k] == nodes[ch[k]].board.lastMove
  {
    if ch == [] then [] else MovesOf(nodes, ch[..|ch| - 1]) + [nodes[ch[|ch| - 1]].board.lastMove]
  }

  /** The cells whose placement produced the children of node i, in creation order. */
  function ChildMoves<S>(nodes: seq<Node<S>>, i: nat): (ms: seq<Cell>)
    requires i < |nodes| && ChildrenInRange(nodes, i)
    ensures |ms| == |nodes[i].children|
  {
    MovesOf(nodes, nodes[i].children)
  }

  /** Node j is a child of node i: a later node, pointing back to i, reached by a legal move. */
  ghost predicate ChildOk<S>(g: Rules<S>, nodes: seq<Node<S>>, i: nat, j: nat)
    requires i < |nodes|
  {
    i < j < |nodes| && nodes[j].parent == Some(i) &&
    PlaceStone(g, nodes[i].board, nodes[j].board.lastMove) == Some(nodes[j].board)
  }

  ghost predicate NodeOk<S>(g: Rules<S>, nodes: seq<Node<S>>, i: nat)
    requires i < |nodes|
  {
    (nodes[i].parent.None? <==> i == 0) &&
    (forall k :: 0 <= k < |nodes[i].children| ==> ChildOk(g, nodes, i, nodes[i].children[k])) &&
    Distinct(ChildMoves(nodes, i))
  }

  /** The tree invariant: only the root lacks a parent, and no two children share a move. */
  ghost predicate WellFormed<S>(g: Rules<S>, nodes: seq<Node<S>>)
  {
    |nodes| > 0 && forall i :: 0 <= i < |nodes| ==> ChildrenInRange(nodes, i) && NodeOk(g, nodes, i)
  }

  /** Once the first rollout is in, every node has been visited, so every UCB score is defined. */
  predicate Visited<S>(nodes: seq<Node<S>>)
  {
    |nodes| > 1 ==> forall j :: 0 <= j < |nodes| ==> nodes[j].visit > 0
  }

  /**
   * `is_selectable`: fully expanded and not terminal, judged from the number of legal cells
   * among 0..80 and the number of children.
   */
  predicate IsSelectable<S>(g: Rules<S>, nodes: seq<Node<S>>, i: nat)
    requires i < |nodes|
    ensures IsSelectable(g, nodes, i) ==> nodes[i].children != []
  {
    var legal := LegalCount(g, nodes[i].board);
    if legal == 0 then false
    else if legal == |nodes[i].children| then true
    else false
  }

  /** Every legal cell of node i already has a child. */
  ghost predicate Covered<S>(g: Rules<S>, nodes: seq<Node<S>>, i: nat)
    requires i < |nodes| && ChildrenInRange(nodes, i)
  {
    forall c: Cell :: Legal(g, nodes[i].board, c) ==> c in ChildMoves(nodes, i)
  }

  /** The set of child moves is a subset of the legal cells, of the same size as the children. */
  lemma ChildMoveSet<S>(g: Rules<S>, nodes: seq<Node<S>>, i: nat)
    requires WellFormed(g, nodes) && i < |nodes|
    ensures ChildrenInRange(nodes, i)
    ensures Elems(ChildMoves(nodes, i)) <= LegalCells(g, nodes[i].board)
    ensures |Elems(ChildMoves(nodes, i))| == |nodes[i].children|
  {
    assert NodeOk(g, nodes, i);
    var ms := ChildMoves(nodes, i);
    DistinctCard(ms);
    forall c | c in ms ensures c in LegalCells(g, nodes[i].board) {
      var k :| 0 <= k < |ms| && ms[k] == c;
      assert ChildOk(g, nodes, i, nodes[i].children[k]);
    }
  }

  /** A node never has more children than legal cells. */
  lemma ChildrenWithinLegal<S>(g: Rules<S>, nodes: seq<Node<S>>, i: nat)
    requires WellFormed(g, nodes) && i < |nodes|
    ensures |nodes[i].children| <= LegalCount(g, nodes[i].board)
  {
    ChildMoveSet(g, nodes, i);
    LegalCountIsCard(g, nodes[i].board);
    SubsetCard(Elems(ChildMoves(nodes, i)), LegalCells(g, nodes[i].board));
  }

  /** A node has as many children as legal cells exactly when every legal cell has a child. */
  lemma CoveredIffFull<S>(g: Rules<S>, nodes: seq<Node<S>>, i: nat)
    requires WellFormed(g, nodes) && i < |nodes|
    ensures ChildrenInRange(nodes, i)
    ensures Covered(g, nodes, i) <==> |nodes[i].children| == LegalCount(g, nodes[i].board)
  {
    ChildMoveSet(g, nodes, i);
    LegalCountIsCard(g, nodes[i].board);
    var moves := Elems(ChildMoves(nodes, i));
    var legal := LegalCells(g, nodes[i].board);
    if Covered(g, nodes, i) {
      assert legal <= moves;
      assert moves == legal;
    }
    SubsetCard(moves, legal);
    if |nodes[i].children| == LegalCount(g, nodes[i].board) {
      forall c: Cell | Legal(g, nodes[i].board, c)
        ensures c in ChildMoves(nodes, i)
      {
        assert c in legal;
      }
      assert Covered(g, nodes, i);
    }
  }

  /** `is_selectable` holds exactly when some cell is legal and every legal cell has a child. */
  lemma SelectableIffExpanded<S>(g: Rules<S>, nodes: seq<Node<S>>, i: nat)
    requires WellFormed(g, nodes) && i < |nodes|
    ensures ChildrenInRange(nodes, i)
    ensures IsSelectable(g, nodes, i) <==> LegalCount(g, nodes[i].board) > 0 && Covered(g, nodes, i)
  {
    CoveredIffFull(g, nodes, i);
  }

  /** The position in the shuffle of the cell `expand` adds: the first legal cell without a child. */
  function ExpandIndex<S>(g: Rules<S>, nodes: seq<Node<S>>, i: nat, order: seq<Cell>): (r: Option<nat>)
    requires i < |nodes| && ChildrenInRange(nodes, i)
    ensures r.Some? ==> r.value < |order| && order[r.value] !in ChildMoves(nodes, i) && Legal(g, nodes[i].board, order[r.value])
    ensures r.Some? ==> forall j :: 0 <= j < r.value ==> order[j] in ChildMoves(nodes, i) || !Legal(g, nodes[i].board, order[j])
    ensures r.None? ==> forall j :: 0 <= j < |order| ==> order[j] in ChildMoves(nodes, i) || !Legal(g, nodes[i].board, order[j])
  {
    FirstOpen(g, nodes[i].board, ChildMoves(nodes, i), order)
  }

  /** `expand` returns the node itself exactly when it is fully expanded or terminal. */
  lemma ExpandExhausted<S>(g: Rules<S>, nodes: seq<Node<S>>, i: nat, order: seq<Cell>)
    requires WellFormed(g, nodes) && i < |nodes| && IsShuffle(order)
    ensures ChildrenInRange(nodes, i)
    ensures ExpandIndex(g, nodes, i, order).None? <==> |nodes[i].children| == LegalCount(g, nodes[i].board)
  {
    CoveredIffFull(g, nodes, i);
    var claimed := ChildMoves(nodes, i);
    if ExpandIndex(g, nodes, i, order).None? {
      forall c: Cell | Legal(g, nodes[i].board, c) ensures c in claimed {
        assert c in order;
        var j :| 0 <= j < |order| && order[j] == c;
      }
    }
    if Covered(g, nodes, i) {
      assert ExpandIndex(g, nodes, i, order).None?;
    }
  }

  /** The tree after `expand` of node i adds the child for cell m. */
  function Grow<S>(g: Rules<S>, nodes: seq<Node<S>>, i: nat, m: Cell): (grown: seq<Node<S>>)
    requires i < |nodes| && Legal(g, nodes[i].board, m)
    ensures |grown| == |nodes| + 1
    ensures grown[i].children == nodes[i].children + [|nodes|]
    ensures forall j :: 0 <= j < |nodes| ==> grown[j].board == nodes[j].board && grown[j].visit == nodes[j].visit
    ensures forall j :: 0 <= j < |nodes| && j != i ==> grown[j] == nodes[j]
  {
    var child := Node(PlaceStone(g, nodes[i].board, m).value, 0, 0, [], Some(i));
    nodes[i := nodes[i].(children := nodes[i].children + [|nodes|])] + [child]
  }

  /** b keeps the boards and parents of the nodes of a (and may have more nodes). */
  ghost predicate SameShapeOn<S>(a: seq<Node<S>>, b: seq<Node<S>>)
  {
    |a| <= |b| && forall j :: 0 <= j < |a| ==> b[j].board == a[j].board && b[j].parent == a[j].parent
  }

  /** A node keeps its invariant when its children and the nodes they name keep their shape. */
  lemma NodeOkTransfer<S>(g: Rules<S>, a: seq<Node<S>>, b: seq<Node<S>>, i: nat)
    requires SameShapeOn(a, b) && i < |a| && b[i].children == a[i].children && NodeOk(g, a, i)
    ensures NodeOk(g, b, i)
  {
    var ch := a[i].children;
    forall k | 0 <= k < |ch| ensures ChildOk(g, b, i, ch[k]) {
      assert ChildOk(g, a, i, ch[k]);
    }
    assert ChildMoves(b, i) == ChildMoves(a, i);
  }

  /** Changing only statistics keeps the tree well-formed. */
  lemma StatsKeepWellFormed<S>(g: Rules<S>, a: seq<Node<S>>, b: seq<Node<S>>)
    requires WellFormed(g, a) && SameShapeOn(a, b) && |b| == |a|
    requires forall j :: 0 <= j < |a| ==> b[j].children == a[j].children
    ensures WellFormed(g, b)
  {
    forall i | 0 <= i < |b| ensures ChildrenInRange(b, i) && NodeOk(g, b, i) {
      NodeOkTransfer(g, a, b, i);
    }
  }

  /**
   * Growing a well-formed tree by a legal, unclaimed cell keeps it well-formed: the new node is
   * a child of i, and no two children of i share a move.
   */
  lemma GrowWellFormed<S>(g: Rules<S>, nodes: seq<Node<S>>, i: nat, m: Cell)
    requires WellFormed(g, nodes) && i < |nodes| && Legal(g, nodes[i].board, m)
    requires ChildrenInRange(nodes, i) && m !in ChildMoves(nodes, i)
    ensures WellFormed(g, Grow(g, nodes, i, m))
  {
    var grown := Grow(g, nodes, i, m);
    var n := |nodes|;
    assert SameShapeOn(nodes, grown);
    forall j | 0 <= j < |grown| ensures ChildrenInRange(grown, j) && NodeOk(g, grown, j) {
      if j == n {
        assert grown[j].children == [];
        assert ChildMoves(grown, j) == [];
      } else if j == i {
        var ch := nodes[i].children;
        assert NodeOk(g, nodes, i);
        forall k | 0 <= k < |ch| + 1 ensures ChildOk(g, grown, i, grown[i].children[k]) {
          if k < |ch| {
            assert ChildOk(g, nodes, i, ch[k]);
          }
        }
        assert ChildMoves(grown, i) == ChildMoves(nodes, i) + [m];
      } else {
        NodeOkTransfer(g, nodes, grown, j);
      }
    }
  }

  /** `update`'s effect on one node: `times` more visits, and as many wins when the root's colour won. */
  function Credited<S>(n: Node<S>, times: nat, won: bool): (r: Node<S>)
    ensures r.board == n.board && r.children == n.children && r.parent == n.parent
    ensures r.visit == n.visit + times
    ensures won ==> r.win == n.win + times
    ensures !won ==> r.win == n.win
  {
    n.(visit := n.visit + times, win := if won then n.win + times else n.win)
  }

  /** A path that starts at the root and never repeats a node gives the root one more visit and nothing else. */
  lemma CreditRoot<S>(nodes: seq<Node<S>>, path: seq<nat>, won: bool)
    requires |nodes| > 0 && |path| > 0 && path[0] == 0 && Increasing(path)
    ensures var r := Credit(nodes, path, won);
      |r| == |nodes| && r[0].board == nodes[0].board && r[0].children == nodes[0].children &&
      r[0].visit == nodes[0].visit + 1
  {
    IncreasingOccurrences(path, 0);
  }

  /** An unvisited node that occurs once on an increasing path ends with exactly one visit. */
  lemma CreditNewNode<S>(nodes: seq<Node<S>>, path: seq<nat>, won: bool, x: nat)
    requires x < |nodes| && nodes[x].visit == 0
    requires Increasing(path) && x in path
    ensures Credit(nodes, path, won)[x].visit == 1
  {
    IncreasingOccurrences(path, x);
  }

  /** Crediting one more node of the path credits that node once more and changes no other node. */
  lemma CreditStep<S>(nodes: seq<Node<S>>, path: seq<nat>, k: nat, won: bool)
    requires k < |path| && path[k] < |nodes|
    ensures var before := Credit(nodes, path[..k], won);
      Credit(nodes, path[..k + 1], won) == before[path[k] := Credited(before[path[k]], 1, won)]
  {
    var x := path[k];
    var before := Credit(nodes, path[..k], won);
    var after := Credit(nodes, path[..k + 1], won);
    assert path[..k + 1] == path[..k] + [x];
    assert multiset(path[..k + 1]) == multiset(path[..k]) + multiset{x};
    forall j | 0 <= j < |nodes| ensures after[j] == before[x := Credited(before[x], 1, won)][j] {
    }
  }

  /** The UCB scores of the nodes listed in ch, as children of a parent visited pv times. */
  function ScoresOf<S>(score: Score, nodes: seq<Node<S>>, ch: seq<nat>, pv: nat): (s: seq<real>)
    requires forall k :: 0 <= k < |ch| ==> ch[k] < |nodes| && nodes[ch[k]].visit > 0
    requires pv > 0
    ensures |s| == |ch|
    ensures forall k :: 0 <= k < |ch| ==> s[k] == score(nodes[ch[k]].win, nodes[ch[k]].visit, pv) as real
  {
    if ch == [] then []
    else
      var c := ch[|ch| - 1];
      ScoresOf(score, nodes, ch[..|ch| - 1], pv) + [score(nodes[c].win, nodes[c].visit, pv) as real]
  }

  /** The UCB scores of the children of node i, in child order. */
  function Scores<S>(score: Score, nodes: seq<Node<S>>, i: nat): (s: seq<real>)
    requires i < |nodes| && ChildrenInRange(nodes, i) && Visited(nodes) && |nodes| > 1
    ensures |s| == |nodes[i].children|
  {
    ScoresOf(score, nodes, nodes[i].children, nodes[i].visit)
  }

  /** The visit counts of the nodes listed in ch, in the same order. */
  function VisitsOf<S>(nodes: seq<Node<S>>, ch: seq<nat>): (s: seq<real>)
    requires forall k :: 0 <= k < |ch| ==> ch[k] < |nodes|
    ensures |s| == |ch| && forall k :: 0 <= k < |ch| ==> s[k] == nodes[ch[k]].visit as real
  {
    if ch == [] then [] else VisitsOf(nodes, ch[..|ch| - 1]) + [nodes[ch[|ch| - 1]].visit as real]
  }

  /** The visit counts of the children of node i, in child order. */
  function Visits<S>(nodes: seq<Node<S>>, i: nat): (s: seq<real>)
    requires i < |nodes| && ChildrenInRange(nodes, i)
    ensures |s| == |nodes[i].children|
  {
    VisitsOf(nodes, nodes[i].children)
  }

  /** One step of `select`: node i is selectable and j is its child with the first strictly greatest score. */
  ghost predicate SelectStep<S>(g: Rules<S>, score: Score, nodes: seq<Node<S>>, i: nat, j: nat)
    requires WellFormed(g, nodes) && Visited(nodes) && i < |nodes|
  {
    IsSelectable(g, nodes, i) && |nodes| > 1 &&
    j == nodes[i].children[FirstMax(Scores(score, nodes, i))]
  }

  /**
   * A path `select` may have walked so far: it starts at the root and each next node is the
   * child of the previous one with the first strictly greatest score.
   */
  ghost predicate SelectPrefix<S>(g: Rules<S>, score: Score, nodes: seq<Node<S>>, path: seq<nat>)
    requires WellFormed(g, nodes) && Visited(nodes)
  {
    |path| > 0 && path[0] == 0 && Increasing(path) &&
    (forall k :: 0 <= k < |path| ==> path[k] < |nodes|) &&
    (forall k :: 0 <= k < |path| - 1 ==> SelectStep(g, score, nodes, path[k], path[k + 1]))
  }

  /** The path `select` returns: a walk as above whose every node but the last is selectable. */
  ghost predicate IsSelectPath<S>(g: Rules<S>, score: Score, nodes: seq<Node<S>>, path: seq<nat>)
    requires WellFormed(g, nodes) && Visited(nodes)
  {
    SelectPrefix(g, score, nodes, path) && !IsSelectable(g, nodes, path[|path| - 1])
  }

  /**
   * From a selectable node the walk goes on to a later node: the child with the first strictly
   * greatest score.
   */
  lemma {:induction false} SelectAdvances<S>(g: Rules<S>, score: Score, nodes: seq<Node<S>>, path: seq<nat>)
    requires WellFormed(g, nodes) && Visited(nodes) && SelectPrefix(g, score, nodes, path)
    requires IsSelectable(g, nodes, path[|path| - 1])
    ensures |nodes| > 1 && ChildrenInRange(nodes, path[|path| - 1])
    ensures var cur := path[|path| - 1];
      var next := nodes[cur].children[FirstMax(Scores(score, nodes, cur))];
      cur < next < |nodes| && SelectPrefix(g, score, nodes, path + [next])
  {
    var cur := path[|path| - 1];
    assert NodeOk(g, nodes, cur);
    var ch := nodes[cur].children;
    assert ChildOk(g, nodes, cur, ch[0]);
    var next := ch[FirstMax(Scores(score, nodes, cur))];
    assert ChildOk(g, nodes, cur, next);
    var p := path + [next];
    assert SelectStep(g, score, nodes, cur, next);
    assert forall k :: 0 <= k < |path| ==> p[k] == path[k];
  }

  /** `select` stops at the root exactly when the root is not selectable. */
  lemma SelectStopsAtRoot<S>(g: Rules<S>, score: Score, nodes: seq<Node<S>>, path: seq<nat>)
    requires WellFormed(g, nodes) && Visited(nodes) && IsSelectPath(g, score, nodes, path)
    ensures path == [0] <==> !IsSelectable(g, nodes, 0)
  {
    if |path| > 1 {
      assert SelectStep(g, score, nodes, path[0], path[1]);
    }
  }

  /**
   * The rest of `select`'s walk once it has reached the end of `path`: on through the children
   * with the first strictly greatest score, stopping at the first node that is not selectable.
   */
  ghost function SelectFrom<S>(g: Rules<S>, score: Score, nodes: seq<Node<S>>, path: seq<nat>): (p: seq<nat>)
    requires WellFormed(g, nodes) && Visited(nodes) && SelectPrefix(g, score, nodes, path)
    ensures IsSelectPath(g, score, nodes, p)
    decreases |nodes| - path[|path| - 1]
  {
    var cur := path[|path| - 1];
    if IsSelectable(g, nodes, cur) then
      SelectAdvances(g, score, nodes, path);
      SelectFrom(g, score, nodes, path + [nodes[cur].children[FirstMax(Scores(score, nodes, cur))]])
    else path
  }

  /** The path `select` returns: its walk from the root. */
  ghost function SelectPath<S>(g: Rules<S>, score: Score, nodes: seq<Node<S>>): (p: seq<nat>)
    requires WellFormed(g, nodes) && Visited(nodes)
    ensures IsSelectPath(g, score, nodes, p)
  {
    SelectFrom(g, score, nodes, [0])
  }

  /**
   * A fresh tree is well-formed and counts as visited; its root has no child, so it is not
   * selectable, and `select` on it returns the root alone.
   */
  lemma FreshRoot<S>(g: Rules<S>, score: Score, state: Board<S>)
    ensures WellFormed(g, Fresh(state)) && Visited(Fresh(state))
    ensures !IsSelectable(g, Fresh(state), 0)
    ensures SelectPath(g, score, Fresh(state)) == [0]
  {
    var t := Fresh(state);
    assert NodeOk(g, t, 0) && ChildMoves(t, 0) == [];
    SelectStopsAtRoot(g, score, t, SelectPath(g, score, t));
  }

  /** Two walks that both follow select's rule agree on their common length. */
  lemma {:induction false} SelectPrefixAgree<S>(g: Rules<S>, score: Score, nodes: seq<Node<S>>, p: seq<nat>, q: seq<nat>, m: nat)
    requires WellFormed(g, nodes) && Visited(nodes)
    requires SelectPrefix(g, score, nodes, p) && SelectPrefix(g, score, nodes, q)
    requires m <= |p| && m <= |q|
    ensures forall k :: 0 <= k < m ==> p[k] == q[k]
    decreases m
  {
    if m > 1 {
      SelectPrefixAgree(g, score, nodes, p, q, m - 1);
      assert SelectStep(g, score, nodes, p[m - 2], p[m - 1]);
      assert SelectStep(g, score, nodes, q[m - 2], q[m - 1]);
    }
  }

  /** `select` has only one possible answer: any path of its shape is SelectPath. */
  lemma SelectPathUnique<S>(g: Rules<S>, score: Score, nodes: seq<Node<S>>, path: seq<nat>)
    requires WellFormed(g, nodes) && Visited(nodes)
    ensures IsSelectPath(g, score, nodes, path) <==> path == SelectPath(g, score, nodes)
  {
    var sel := SelectPath(g, score, nodes);
    if IsSelectPath(g, score, nodes, path) {
      SelectPathLongest(g, score, nodes, path, sel);
      SelectPathLongest(g, score, nodes, sel, path);
      SelectPrefixAgree(g, score, nodes, path, sel, |path|);
    }
  }

  /** No walk that follows select's rule runs past the end of a path of select's shape. */
  lemma SelectPathLongest<S>(g: Rules<S>, score: Score, nodes: seq<Node<S>>, p: seq<nat>, q: seq<nat>)
    requires WellFormed(g, nodes) && Visited(nodes)
    requires IsSelectPath(g, score, nodes, p) && SelectPrefix(g, score, nodes, q)
    ensures |q| <= |p|
  {
    assert |q| > |p| ==> SelectStep(g, score, nodes, q[|p| - 1], q[|p|]);
    if |q| > |p| {
      SelectPrefixAgree(g, score, nodes, p, q, |p|);
    }
  }

  /**
   * The first half of a `run_mcts` round: the tree after `expand` on the last node of `select`'s
   * path, and that path with the new node appended when expand added one.
   */
  ghost function Descent<S>(g: Rules<S>, score: Score, nodes: seq<Node<S>>, order: seq<Cell>): (d: (seq<Node<S>>, seq<nat>))
    requires WellFormed(g, nodes) && Visited(nodes)
    ensures |nodes| <= |d.0| <= |nodes| + 1
    ensures |d.1| == |SelectPath(g, score, nodes)| + (|d.0| - |nodes|)
    ensures d.1[..|SelectPath(g, score, nodes)|] == SelectPath(g, score, nodes)
  {
    var sel := SelectPath(g, score, nodes);
    var last := sel[|sel| - 1];
    match ExpandIndex(g, nodes, last, order)
    case None => (nodes, sel)
    case Some(k) => (Grow(g, nodes, last, order[k]), sel + [|nodes|])
  }

  /**
   * What the first half of a round does to the tree: it stays well-formed and gains at most one
   * node; the path runs strictly down from the root and ends on the new node when there is one;
   * no visit count changes; and a root with a legal cell but no child gets one.
   */
  lemma DescentShape<S>(g: Rules<S>, score: Score, nodes: seq<Node<S>>, order: seq<Cell>)
    requires WellFormed(g, nodes) && Visited(nodes) && IsShuffle(order)
    ensures var grown := Descent(g, score, nodes, order).0;
      var path := Descent(g, score, nodes, order).1;
      WellFormed(g, grown) && |nodes| <= |grown| <= |nodes| + 1 &&
      |path| > 0 && path[0] == 0 && Increasing(path) &&
      (forall k :: 0 <= k < |path| ==> path[k] < |grown|) &&
      (|grown| > |nodes| ==> path[|path| - 1] == |nodes|) &&
      (forall j :: 0 <= j < |nodes| ==> grown[j].visit == nodes[j].visit) &&
      grown[0].board == nodes[0].board && |grown[0].children| >= |nodes[0].children| &&
      (LegalCount(g, nodes[0].board) > 0 ==> grown[0].children != [])
  {
    var sel := SelectPath(g, score, nodes);
    var last := sel[|sel| - 1];
    assert ChildrenInRange(nodes, last);
    if LegalCount(g, nodes[0].board) > 0 && nodes[0].children == [] {
      SelectStopsAtRoot(g, score, nodes, sel);
      ExpandExhausted(g, nodes, 0, order);
    }
    match ExpandIndex(g, nodes, last, order)
    case None =>
    case Some(k) =>
      GrowWellFormed(g, nodes, last, order[k]);
      IncreasingAppend(sel, |nodes|);
  }

  /** The node a descent adds starts unvisited. */
  lemma NewNodeUnvisited<S>(g: Rules<S>, score: Score, nodes: seq<Node<S>>, order: seq<Cell>)
    requires WellFormed(g, nodes) && Visited(nodes)
    ensures var grown := Descent(g, score, nodes, order).0;
      |grown| > |nodes| ==> grown[|nodes|].visit == 0
  {
    var sel := SelectPath(g, score, nodes);
    var last := sel[|sel| - 1];
    match ExpandIndex(g, nodes, last, order)
    case None =>
    case Some(k) =>
      assert Descent(g, score, nodes, order).0 == Grow(g, nodes, last, order[k]);
  }

  /** `update(path, winner)` over the whole tree: each node credited once per occurrence on the path. */
  function Credit<S>(nodes: seq<Node<S>>, path: seq<nat>, won: bool): (r: seq<Node<S>>)
  {
    seq(|nodes|, j requires 0 <= j < |nodes| => Credited(nodes[j], multiset(path)[j], won))
  }

  /** `update` changes only statistics, so it keeps the tree well-formed. */
  lemma CreditWellFormed<S>(g: Rules<S>, nodes: seq<Node<S>>, path: seq<nat>, won: bool)
    requires WellFormed(g, nodes)
    ensures WellFormed(g, Credit(nodes, path, won))
  {
    var r := Credit(nodes, path, won);
    forall j | 0 <= j < |nodes| ensures r[j].board == nodes[j].board && r[j].parent == nodes[j].parent && r[j].children == nodes[j].children {
      assert r[j] == Credited(nodes[j], multiset(path)[j], won);
    }
    StatsKeepWellFormed(g, nodes, r);
  }

  /** Each node of the path after the first is a child of the node before it. */
  predicate ChildPath<S>(nodes: seq<Node<S>>, path: seq<nat>)
    requires forall k :: 0 <= k < |path| ==> path[k] < |nodes|
  {
    forall k :: 0 < k < |path| ==> path[k] in nodes[path[k - 1]].children
  }

  /** Each step of `select`'s path goes from a node to one of its children. */
  lemma SelectPathDown<S>(g: Rules<S>, score: Score, nodes: seq<Node<S>>)
    requires WellFormed(g, nodes) && Visited(nodes)
    ensures ChildPath(nodes, SelectPath(g, score, nodes))
  {
    var sel := SelectPath(g, score, nodes);
    forall k | 0 < k < |sel| ensures sel[k] in nodes[sel[k - 1]].children {
      assert SelectStep(g, score, nodes, sel[k - 1], sel[k]);
    }
  }

  /**
   * The path of a round goes down from parent to child, and when the root has a legal cell it
   * reaches one of the root's children: the root is either selectable, or expand adds a child to it.
   */
  lemma DescentDown<S>(g: Rules<S>, score: Score, nodes: seq<Node<S>>, order: seq<Cell>)
    requires WellFormed(g, nodes) && Visited(nodes) && IsShuffle(order)
    ensures var grown := Descent(g, score, nodes, order).0;
      var path := Descent(g, score, nodes, order).1;
      (forall k :: 0 <= k < |path| ==> path[k] < |grown|) && ChildPath(grown, path) &&
      (LegalCount(g, nodes[0].board) > 0 ==> |path| > 1)
  {
    DescentShape(g, score, nodes, order);
    var sel := SelectPath(g, score, nodes);
    var last := sel[|sel| - 1];
    SelectPathDown(g, score, nodes);
    assert ChildrenInRange(nodes, last);
    match ExpandIndex(g, nodes, last, order)
    case None =>
      if LegalCount(g, nodes[0].board) > 0 && sel == [0] {
        SelectStopsAtRoot(g, score, nodes, sel);
        ExpandExhausted(g, nodes, 0, order);
      }
    case Some(k) =>
      ChildPathGrow(g, nodes, last, order[k], sel);
  }

  /** A path down to node i, followed by the child that Grow adds to i, still runs down. */
  lemma ChildPathGrow<S>(g: Rules<S>, nodes: seq<Node<S>>, i: nat, m: Cell, path: seq<nat>)
    requires i < |nodes| && Legal(g, nodes[i].board, m)
    requires |path| > 0 && path[|path| - 1] == i && forall k :: 0 <= k < |path| ==> path[k] < |nodes|
    requires ChildPath(nodes, path)
    ensures ChildPath(Grow(g, nodes, i, m), path + [|nodes|])
  {
    var grown := Grow(g, nodes, i, m);
    var p := path + [|nodes|];
    forall k | 0 < k < |p| ensures p[k] in grown[p[k - 1]].children {
      if k < |path| {
        assert p[k] in nodes[p[k - 1]].children;
      }
    }
  }

  /** The sum of the visit counts of the nodes listed in ch. */
  function VisitSum<S>(nodes: seq<Node<S>>, ch: seq<nat>): nat
    requires forall k :: 0 <= k < |ch| ==> ch[k] < |nodes|
  {
    if ch == [] then 0 else VisitSum(nodes, ch[..|ch| - 1]) + nodes[ch[|ch| - 1]].visit
  }

  /** The total visit count of the root's children. */
  function ChildVisits<S>(nodes: seq<Node<S>>): nat
    requires |nodes| > 0 && ChildrenInRange(nodes, 0)
  {
    VisitSum(nodes, nodes[0].children)
  }

  /** Two trees whose listed nodes have the same visit counts give the same sum over them. */
  lemma {:induction false} VisitSumSame<S>(a: seq<Node<S>>, b: seq<Node<S>>, ch: seq<nat>)
    requires forall k :: 0 <= k < |ch| ==> ch[k] < |a| && ch[k] < |b| && a[ch[k]].visit == b[ch[k]].visit
    ensures VisitSum(a, ch) == VisitSum(b, ch)
  {
    if ch != [] {
      VisitSumSame(a, b, ch[..|ch| - 1]);
    }
  }

  /** How often the path holds the nodes listed in ch, added up over ch. */
  function Occurrences(path: seq<nat>, ch: seq<nat>): nat
  {
    if ch == [] then 0 else Occurrences(path, ch[..|ch| - 1]) + multiset(path)[ch[|ch| - 1]]
  }

  /** Crediting a path adds to the sum over ch exactly how often the path holds the nodes of ch. */
  lemma {:induction false} CreditVisitSum<S>(nodes: seq<Node<S>>, path: seq<nat>, won: bool, ch: seq<nat>)
    requires forall k :: 0 <= k < |ch| ==> ch[k] < |nodes|
    ensures VisitSum(Credit(nodes, path, won), ch) == VisitSum(nodes, ch) + Occurrences(path, ch)
  {
    if ch != [] {
      CreditVisitSum(nodes, path, won, ch[..|ch| - 1]);
    }
  }

  /** A path holding no node of ch, each at most once, adds nothing. */
  lemma {:induction false} OccurrencesNone(path: seq<nat>, ch: seq<nat>)
    requires forall k :: 0 <= k < |ch| ==> ch[k] !in path
    ensures Occurrences(path, ch) == 0
  {
    if ch != [] {
      OccurrencesNone(path, ch[..|ch| - 1]);
    }
  }

  /** An increasing path holding exactly one listed node, ch[m], holds the listed nodes once in all. */
  lemma {:induction false} OccurrencesOnce(path: seq<nat>, ch: seq<nat>, m: nat)
    requires Increasing(path) && m < |ch| && ch[m] in path
    requires forall k :: 0 <= k < |ch| && k != m ==> ch[k] !in path
    ensures Occurrences(path, ch) == 1
  {
    var init := ch[..|ch| - 1];
    IncreasingOccurrences(path, ch[|ch| - 1]);
    if m == |ch| - 1 {
      OccurrencesNone(path, init);
    } else {
      OccurrencesOnce(path, init, m);
    }
  }

  /**
   * On a path that runs down from the root, the only child of the root is the path's second
   * node: every later node has a parent other than the root.
   */
  lemma RootChildOnPath<S>(g: Rules<S>, nodes: seq<Node<S>>, path: seq<nat>, c: nat)
    requires WellFormed(g, nodes) && |path| > 1 && path[0] == 0 && Increasing(path)
    requires forall k :: 0 <= k < |path| ==> path[k] < |nodes|
    requires ChildPath(nodes, path) && c in nodes[0].children && c in path
    ensures c == path[1]
  {
    assert NodeOk(g, nodes, 0);
    var i :| 0 <= i < |path| && path[i] == c;
    var j :| 0 <= j < |nodes[0].children| && nodes[0].children[j] == c;
    assert ChildOk(g, nodes, 0, c);
    forall k | 1 < k < |path| ensures nodes[path[k]].parent != Some(0) {
      var p := path[k - 1];
      assert NodeOk(g, nodes, p);
      var l :| 0 <= l < |nodes[p].children| && nodes[p].children[l] == path[k];
      assert ChildOk(g, nodes, p, path[k]);
      assert path[0] < p;
    }
    assert i == 1;
  }

  /** The children of a well-formed node are distinct nodes, since their moves are distinct. */
  lemma ChildrenDistinct<S>(g: Rules<S>, nodes: seq<Node<S>>, i: nat)
    requires WellFormed(g, nodes) && i < |nodes|
    ensures Distinct(nodes[i].children)
  {
    assert NodeOk(g, nodes, i);
    var ms := ChildMoves(nodes, i);
    forall a, b | 0 <= a < b < |nodes[i].children| ensures nodes[i].children[a] != nodes[i].children[b] {
      assert ms[a] != ms[b];
    }
  }

  /** Select and expand keep the root's children's visit sum: a new child starts unvisited. */
  lemma DescentChildVisits<S>(g: Rules<S>, score: Score, nodes: seq<Node<S>>, order: seq<Cell>)
    requires WellFormed(g, nodes) && Visited(nodes)
    ensures ChildrenInRange(nodes, 0)
    ensures var grown := Descent(g, score, nodes, order).0;
      |grown| > 0 && ChildrenInRange(grown, 0) && ChildVisits(grown) == ChildVisits(nodes)
  {
    assert ChildrenInRange(nodes, 0);
    var grown := Descent(g, score, nodes, order).0;
    var ch := nodes[0].children;
    var sel := SelectPath(g, score, nodes);
    var last := sel[|sel| - 1];
    assert ChildrenInRange(nodes, last);
    match ExpandIndex(g, nodes, last, order)
    case None =>
    case Some(k) =>
      var gch := grown[0].children;
      assert forall j :: 0 <= j < |nodes| ==> grown[j].visit == nodes[j].visit;
      VisitSumSame(nodes, grown, ch);
      if last == 0 {
        assert gch == ch + [|nodes|] && gch[..|gch| - 1] == ch;
        assert grown[|nodes|].visit == 0;
      } else {
        assert gch == ch;
      }
  }

  /**
   * Crediting a path that runs down from the root through a child of it adds exactly one visit
   * to the root's children in all.
   */
  lemma CreditOneRootChild<S>(g: Rules<S>, nodes: seq<Node<S>>, path: seq<nat>, won: bool)
    requires WellFormed(g, nodes) && |path| > 1 && path[0] == 0 && Increasing(path)
    requires forall k :: 0 <= k < |path| ==> path[k] < |nodes|
    requires ChildPath(nodes, path)
    ensures ChildrenInRange(nodes, 0)
    ensures var r := Credit(nodes, path, won);
      |r| > 0 && ChildrenInRange(r, 0) && ChildVisits(r) == ChildVisits(nodes) + 1
  {
    assert ChildrenInRange(nodes, 0);
    var ch := nodes[0].children;
    CreditVisitSum(nodes, path, won, ch);
    assert path[1] in ch;
    var m :| 0 <= m < |ch| && ch[m] == path[1];
    ChildrenDistinct(g, nodes, 0);
    forall k | 0 <= k < |ch| && k != m ensures ch[k] !in path {
      if ch[k] in path {
        RootChildOnPath(g, nodes, path, ch[k]);
      }
    }
    OccurrencesOnce(path, ch, m);
  }

  /**
   * `take_action`'s answer: the null action when the root has no children, otherwise the move of
   * the first child with the strictly greatest visit count, in the colour of the root's mover.
   */
  ghost predicate IsDecision<S>(g: Rules<S>, nodes: seq<Node<S>>, a: Action)
    requires |nodes| > 0 && ChildrenInRange(nodes, 0)
    ensures IsDecision(g, nodes, a) ==> (a.Null? <==> nodes[0].children == [])
    ensures IsDecision(g, nodes, a) && a.Place? ==>
      a.colour == Turn(g, nodes[0].board) &&
      exists k :: 0 <= k < |nodes[0].children| && a.cell == nodes[nodes[0].children[k]].board.lastMove
  {
    var ch := nodes[0].children;
    if ch == [] then a == Null
    else a == Place(nodes[ch[FirstMax(Visits(nodes, 0))]].board.lastMove, Turn(g, nodes[0].board))
  }

  /** The decision of a well-formed tree is a legal move of the root position. */
  lemma DecisionIsLegal<S>(g: Rules<S>, nodes: seq<Node<S>>, a: Action)
    requires WellFormed(g, nodes) && ChildrenInRange(nodes, 0) && IsDecision(g, nodes, a)
    ensures a.Place? <==> nodes[0].children != []
    ensures a.Place? ==> Legal(g, nodes[0].board, a.cell) && a.colour == Turn(g, nodes[0].board)
  {
    var ch := nodes[0].children;
    if ch != [] {
      assert NodeOk(g, nodes, 0);
      assert ChildOk(g, nodes, 0, ch[FirstMax(Visits(nodes, 0))]);
    }
  }

  /**
   * After one round (an optional new node, then `update` along a path from the root that holds
   * the new node) every node has been visited.
   */
  lemma RoundKeepsVisited<S>(pre: seq<Node<S>>, grown: seq<Node<S>>, post: seq<Node<S>>, path: seq<nat>, won: bool)
    requires Visited(pre) && |pre| > 0
    requires |pre| <= |grown| <= |pre| + 1 && (|grown| > |pre| ==> |pre| in path)
    requires 0 in path && Increasing(path)
    requires forall j :: 0 <= j < |pre| ==> grown[j].visit == pre[j].visit
    requires |post| == |grown|
    requires forall j :: 0 <= j < |post| ==> post[j] == Credited(grown[j], multiset(path)[j], won)
    ensures Visited(post)
  {
    forall j | 0 <= j < |post| && |post| > 1 ensures post[j].visit > 0 {
      IncreasingOccurrences(path, j);
      if j !in path {
        assert j != 0 && j < |pre|;
      }
    }
  }

  /**
   * `update` after select and expand: crediting a path that starts at the root, never repeats a
   * node and holds the new node keeps the tree well-formed and every node visited, and gives the
   * root one more visit on the same board with the same children.
   */
  lemma CreditAfterDescent<S>(g: Rules<S>, pre: seq<Node<S>>, grown: seq<Node<S>>, path: seq<nat>, won: bool)
    requires Visited(pre) && |pre| > 0 && WellFormed(g, grown)
    requires |path| > 0 && path[0] == 0 && Increasing(path)
    requires |pre| <= |grown| <= |pre| + 1 && (|grown| > |pre| ==> path[|path| - 1] == |pre|)
    requires forall j :: 0 <= j < |pre| ==> grown[j].visit == pre[j].visit
    ensures var r := Credit(grown, path, won);
      WellFormed(g, r) && Visited(r) && |r| == |grown| &&
      r[0].board == grown[0].board && r[0].children == grown[0].children && r[0].visit == grown[0].visit + 1
  {
    var r := Credit(grown, path, won);
    CreditRoot(grown, path, won);
    CreditWellFormed(g, grown, path, won);
    RoundKeepsVisited(pre, grown, r, path, won);
  }
}
