/**
 * The Monte-Carlo Tree Search of the NoGo player: `node` and its cycle
 * select -> expand -> simulate -> update, repeated N times, then take_action.
 * The tree is an arena (`Tree.nodes`); the search is run from the root, index 0.
 * Every call that the source makes to `all_moves` is given here as a shuffle of the 81 cells.
 */
module Mcts {
  import opened Wrappers
  import opened Seqs
  import opened Board
  import opened SearchTree

  /** The first legal cell of a fixed order, as a position in that order. */
  function FirstLegal<S>(g: Rules<S>, b: Board<S>, order: seq<Cell>): (r: Option<nat>)
    ensures r.Some? ==> r.value < |order| && Legal(g, b, order[r.value])
    ensures r.Some? ==> forall j :: 0 <= j < r.value ==> !Legal(g, b, order[j])
    ensures r.None? ==> forall j :: 0 <= j < |order| ==> !Legal(g, b, order[j])
  {
    FirstOpen(g, b, [], order)
  }

  /** One pass of a rollout: the board after placing the first legal cell of the order, if any. */
  function PlayFirst<S>(g: Rules<S>, b: Board<S>, order: seq<Cell>): (r: Option<Board<S>>)
    ensures r.None? <==> forall j :: 0 <= j < |order| ==> !Legal(g, b, order[j])
    ensures r.Some? ==> |r.value.empty| == |b.empty| - 1
  {
    match FirstLegal(g, b, order)
    case None => None
    case Some(k) => PlaceStone(g, b, order[k])
  }

  /**
   * The position a rollout ends in: keep playing the first legal cell of the same order,
   * rescanning from its start, until no cell of the order is legal.
   */
  function Playout<S>(g: Rules<S>, b: Board<S>, order: seq<Cell>): (final: Board<S>)
    ensures forall j :: 0 <= j < |order| ==> !Legal(g, final, order[j])
    decreases |b.empty|
  {
    match PlayFirst(g, b, order)
    case None => b
    case Some(next) => Playout(g, next, order)
  }

  /** A rollout over a shuffle of all cells ends in a position where no cell at all is legal. */
  lemma PlayoutEndsTerminal<S>(g: Rules<S>, b: Board<S>, order: seq<Cell>)
    requires IsShuffle(order)
    ensures LegalCount(g, Playout(g, b, order)) == 0
  {
    NoneLegalInShuffle(g, Playout(g, b, order), order);
  }

  /** The winner of a finished rollout: the side that is not to move (it has no legal move). */
  function Winner<S>(g: Rules<S>, final: Board<S>): (w: Colour)
    ensures w != Turn(g, final)
  {
    Opponent(Turn(g, final))
  }

  /**
   * The inner loop of `simulate`: try the cells of the order in turn and place the first one
   * that is legal.
   */
  method PlaceFirstLegal<S>(g: Rules<S>, b: Board<S>, order: seq<Cell>) returns (next: Option<Board<S>>)
    ensures next == PlayFirst(g, b, order)
  {
    for k := 0 to |order|
      invariant forall j :: 0 <= j < k ==> !Legal(g, b, order[j])
    {
      var placed := PlaceStone(g, b, order[k]);
      if placed.Some? {
        assert FirstLegal(g, b, order) == Some(k);
        return placed;
      }
    }
    return None;
  }

  /**
   * `simulate`: copy the board, then play the first legal cell of one fixed order until none is
   * legal; the winner is the colour not to move at the end.
   */
  method Simulate<S>(g: Rules<S>, start: Board<S>, order: seq<Cell>) returns (winner: Colour)
    ensures winner == Winner(g, Playout(g, start, order))
  {
    var cur := start;
    var ended := false;
    while !ended
      invariant Playout(g, cur, order) == Playout(g, start, order)
      invariant ended ==> PlayFirst(g, cur, order).None?
      decreases !ended, |cur.empty|
    {
      var next := PlaceFirstLegal(g, cur, order);
      if next.Some? {
        cur := next.value;
      } else {
        ended := true;
      }
    }
    winner := if Turn(g, cur) == White then Black else White;
  }

  /**
   * One `run_mcts` round on a tree: select and expand (Descent), simulate from the path's last
   * node with the rollout order, and update the path, crediting wins when the winner is the
   * colour to move at the root.
   */
  ghost function Round<S>(g: Rules<S>, score: Score, expandOrder: seq<Cell>, rolloutOrder: seq<Cell>, nodes: seq<Node<S>>): (r: seq<Node<S>>)
    requires WellFormed(g, nodes) && Visited(nodes) && IsShuffle(expandOrder)
    ensures |nodes| <= |r| <= |nodes| + 1
  {
    var grown := Descent(g, score, nodes, expandOrder).0;
    var path := Descent(g, score, nodes, expandOrder).1;
    DescentShape(g, score, nodes, expandOrder);
    var won := Winner(g, Playout(g, grown[path[|path| - 1]].board, rolloutOrder)) == Turn(g, grown[0].board);
    Credit(grown, path, won)
  }

  /**
   * A round keeps the tree well-formed and every node visited, keeps the root's board, gives the
   * root exactly one more visit and never takes a child away from it, and leaves a root with a
   * legal cell with at least one child.
   */
  lemma RoundPreserves<S>(g: Rules<S>, score: Score, expandOrder: seq<Cell>, rolloutOrder: seq<Cell>, nodes: seq<Node<S>>)
    requires WellFormed(g, nodes) && Visited(nodes) && IsShuffle(expandOrder)
    ensures var r := Round(g, score, expandOrder, rolloutOrder, nodes);
      WellFormed(g, r) && Visited(r) && |nodes| <= |r| <= |nodes| + 1 &&
      r[0].board == nodes[0].board && r[0].visit == nodes[0].visit + 1 &&
      |r[0].children| >= |nodes[0].children| &&
      (LegalCount(g, nodes[0].board) > 0 ==> r[0].children != [])
  {
    var grown := Descent(g, score, nodes, expandOrder).0;
    var path := Descent(g, score, nodes, expandOrder).1;
    DescentShape(g, score, nodes, expandOrder);
    var won := Winner(g, Playout(g, grown[path[|path| - 1]].board, rolloutOrder)) == Turn(g, grown[0].board);
    var r := Round(g, score, expandOrder, rolloutOrder, nodes);
    assert r == Credit(grown, path, won);
    CreditAfterDescent(g, nodes, grown, path, won);
  }

  /** The node a round adds, if any, ends the round with exactly one visit: the one its rollout gave it. */
  lemma RoundNewNode<S>(g: Rules<S>, score: Score, expandOrder: seq<Cell>, rolloutOrder: seq<Cell>, nodes: seq<Node<S>>)
    requires WellFormed(g, nodes) && Visited(nodes) && IsShuffle(expandOrder)
    ensures var r := Round(g, score, expandOrder, rolloutOrder, nodes);
      forall j :: |nodes| <= j < |r| ==> r[j].visit == 1
  {
    var grown := Descent(g, score, nodes, expandOrder).0;
    var path := Descent(g, score, nodes, expandOrder).1;
    DescentShape(g, score, nodes, expandOrder);
    var won := Winner(g, Playout(g, grown[path[|path| - 1]].board, rolloutOrder)) == Turn(g, grown[0].board);
    var r := Round(g, score, expandOrder, rolloutOrder, nodes);
    assert r == Credit(grown, path, won);
    assert |r| == |grown|;
    if |grown| > |nodes| {
      NewNodeUnvisited(g, score, nodes, expandOrder);
      CreditNewNode(grown, path, won, |nodes|);
    }
    forall j | |nodes| <= j < |r| ensures r[j].visit == 1 {
      assert j == |nodes|;
    }
  }

  /** The two shuffles one round of `run_mcts` draws: expand's cell order, then the rollout's. */
  datatype Shuffles = Shuffles(expand: seq<Cell>, rollout: seq<Cell>)

  /** Every round's orders are shuffles of the cells. */
  predicate AllShuffles(rounds: seq<Shuffles>)
  {
    forall k :: 0 <= k < |rounds| ==> IsShuffle(rounds[k].expand) && IsShuffle(rounds[k].rollout)
  }

  /** The tree after the rounds of `run_mcts`, one round per element of rounds. */
  ghost function Search<S>(g: Rules<S>, score: Score, rounds: seq<Shuffles>, nodes: seq<Node<S>>): (r: seq<Node<S>>)
    requires WellFormed(g, nodes) && Visited(nodes) && AllShuffles(rounds)
    ensures WellFormed(g, r) && Visited(r)
    decreases |rounds|
  {
    if rounds == [] then nodes
    else
      RoundPreserves(g, score, rounds[0].expand, rounds[0].rollout, nodes);
      assert AllShuffles(rounds[1..]) by {
        forall k | 0 <= k < |rounds[1..]| ensures IsShuffle(rounds[1..][k].expand) {
          assert rounds[1..][k] == rounds[k + 1];
        }
      }
      Search(g, score, rounds[1..], Round(g, score, rounds[0].expand, rounds[0].rollout, nodes))
  }

  /** A search of at least one round is that round followed by the search over the remaining rounds. */
  lemma SearchUnfold<S>(g: Rules<S>, score: Score, rounds: seq<Shuffles>, nodes: seq<Node<S>>)
    requires WellFormed(g, nodes) && Visited(nodes) && AllShuffles(rounds) && rounds != []
    ensures var next := Round(g, score, rounds[0].expand, rounds[0].rollout, nodes);
      WellFormed(g, next) && Visited(next) && next[0].board == nodes[0].board &&
      AllShuffles(rounds[1..]) &&
      Search(g, score, rounds, nodes) == Search(g, score, rounds[1..], next)
  {
    RoundPreserves(g, score, rounds[0].expand, rounds[0].rollout, nodes);
    forall k | 0 <= k < |rounds[1..]| ensures IsShuffle(rounds[1..][k].expand) {
      assert rounds[1..][k] == rounds[k + 1];
    }
  }

  /**
   * N rounds give the root exactly N more visits on the same board, and a root with a legal cell
   * has a child once at least one round has run.
   */
  lemma {:induction false} SearchRoot<S>(g: Rules<S>, score: Score, rounds: seq<Shuffles>, nodes: seq<Node<S>>)
    requires WellFormed(g, nodes) && Visited(nodes) && AllShuffles(rounds)
    ensures var r := Search(g, score, rounds, nodes);
      r[0].board == nodes[0].board && r[0].visit == nodes[0].visit + |rounds| &&
      |r[0].children| >= |nodes[0].children| &&
      (|rounds| > 0 && LegalCount(g, nodes[0].board) > 0 ==> r[0].children != [])
    decreases |rounds|
  {
    if rounds != [] {
      SearchUnfold(g, score, rounds, nodes);
      RoundPreserves(g, score, rounds[0].expand, rounds[0].rollout, nodes);
      SearchRoot(g, score, rounds[1..], Round(g, score, rounds[0].expand, rounds[0].rollout, nodes));
    }
  }

  /**
   * When the root has a legal cell, a round adds exactly one visit to the root's children in
   * all: a new child starts unvisited, and the path passes through exactly one child of the root.
   */
  lemma RoundChildVisits<S>(g: Rules<S>, score: Score, expandOrder: seq<Cell>, rolloutOrder: seq<Cell>, nodes: seq<Node<S>>)
    requires WellFormed(g, nodes) && Visited(nodes) && IsShuffle(expandOrder)
    requires LegalCount(g, nodes[0].board) > 0
    ensures ChildrenInRange(nodes, 0)
    ensures var r := Round(g, score, expandOrder, rolloutOrder, nodes);
      |r| > 0 && ChildrenInRange(r, 0) && ChildVisits(r) == ChildVisits(nodes) + 1
  {
    DescentShape(g, score, nodes, expandOrder);
    DescentDown(g, score, nodes, expandOrder);
    DescentChildVisits(g, score, nodes, expandOrder);
    var grown := Descent(g, score, nodes, expandOrder).0;
    var path := Descent(g, score, nodes, expandOrder).1;
    var won := Winner(g, Playout(g, grown[path[|path| - 1]].board, rolloutOrder)) == Turn(g, grown[0].board);
    CreditOneRootChild(g, grown, path, won);
  }

  /**
   * The root's children hold all of the search's visits: after N rounds on a root with a legal
   * cell, their visit counts add up to N more than before.
   */
  lemma {:induction false} SearchChildVisits<S>(g: Rules<S>, score: Score, rounds: seq<Shuffles>, nodes: seq<Node<S>>)
    requires WellFormed(g, nodes) && Visited(nodes) && AllShuffles(rounds)
    requires LegalCount(g, nodes[0].board) > 0
    ensures ChildrenInRange(nodes, 0) && ChildrenInRange(Search(g, score, rounds, nodes), 0)
    ensures ChildVisits(Search(g, score, rounds, nodes)) == ChildVisits(nodes) + |rounds|
    decreases |rounds|
  {
    assert ChildrenInRange(nodes, 0);
    if rounds != [] {
      var next := Round(g, score, rounds[0].expand, rounds[0].rollout, nodes);
      SearchUnfold(g, score, rounds, nodes);
      RoundChildVisits(g, score, rounds[0].expand, rounds[0].rollout, nodes);
      assert LegalCount(g, next[0].board) > 0;
      SearchChildVisits(g, score, rounds[1..], next);
    }
  }

  /** A search from a root with no legal cell never gives the root a child. */
  lemma SearchNoLegal<S>(g: Rules<S>, score: Score, rounds: seq<Shuffles>, nodes: seq<Node<S>>)
    requires WellFormed(g, nodes) && Visited(nodes) && AllShuffles(rounds)
    requires LegalCount(g, nodes[0].board) == 0
    ensures Search(g, score, rounds, nodes)[0].children == []
  {
    var r := Search(g, score, rounds, nodes);
    SearchRoot(g, score, rounds, nodes);
    ChildrenWithinLegal(g, r, 0);
  }

  /**
   * A search from a fresh root: the root gets one visit per round, its children hold all of
   * them when the position has a legal cell, and it has a child exactly when at least one round
   * ran and some cell is legal.
   */
  lemma FreshSearch<S>(g: Rules<S>, score: Score, rounds: seq<Shuffles>, state: Board<S>)
    requires AllShuffles(rounds)
    ensures WellFormed(g, Fresh(state)) && Visited(Fresh(state))
    ensures var r := Search(g, score, rounds, Fresh(state));
      ChildrenInRange(r, 0) && r[0].board == state && r[0].visit == |rounds| &&
      ChildVisits(r) == (if LegalCount(g, state) > 0 then |rounds| else 0) &&
      (r[0].children != [] <==> |rounds| > 0 && LegalCount(g, state) > 0)
  {
    var start := Fresh(state);
    FreshRoot(g, score, state);
    var r := Search(g, score, rounds, start);
    SearchRoot(g, score, rounds, start);
    ChildrenWithinLegal(g, r, 0);
    if LegalCount(g, state) > 0 {
      SearchChildVisits(g, score, rounds, start);
    } else {
      SearchNoLegal(g, score, rounds, start);
    }
  }

  class Tree<S> {
    const game: Rules<S>
    var nodes: seq<Node<S>>

    ghost predicate Valid()
      reads this
    {
      WellFormed(game, nodes)
    }

    /** `node(state)`: a root with no statistics and no children. */
    constructor (g: Rules<S>, state: Board<S>)
      ensures game == g && nodes == Fresh(state)
      ensures Valid() && Visited(nodes)
    {
      game := g;
      nodes := Fresh(state);
    }

    /**
     * `update`: every node on the path gets one more visit per occurrence, and as many wins
     * when the winner is the colour to move at the root; nothing else changes.
     */
    method Update(path: seq<nat>, winner: Colour)
      requires Valid() && |nodes| > 0
      requires forall k :: 0 <= k < |path| ==> path[k] < |nodes|
      modifies this
      ensures nodes == Credit(old(nodes), path, winner == Turn(game, old(nodes)[0].board))
      ensures Valid()
    {
      var start := nodes;
      var won := winner == Turn(game, start[0].board);
      var cur := start;
      assert path[..0] == [];
      for k := 0 to |path|
        invariant cur == Credit(start, path[..k], won)
      {
        var n := cur[path[k]];
        n := n.(visit := n.visit + 1);
        if won {
          n := n.(win := n.win + 1);
        }
        assert n == Credited(cur[path[k]], 1, won);
        CreditStep(start, path, k, won);
        cur := cur[path[k] := n];
      }
      assert path[..|path|] == path;
      nodes := cur;
      CreditWellFormed(game, start, path, won);
    }

    /**
     * `take_action`: the move of the first child with the strictly greatest visit count, in the
     * colour to move at the root; the null action when the root has no children.
     */
    method TakeAction() returns (a: Action)
      requires Valid()
      ensures ChildrenInRange(nodes, 0)
      ensures IsDecision(game, nodes, a)
    {
      assert NodeOk(game, nodes, 0);
      var ch := nodes[0].children;
      if ch == [] {
        a := Null;
      } else {
        var best := ScanMax(Visits(nodes, 0), -1.0);
        a := Place(nodes[ch[best]].board.lastMove, Turn(game, nodes[0].board));
      }
    }

    /** The inner loop of `expand`: whether some child of node i was made by placing on `move`. */
    method HasChildFor(i: nat, move: Cell) returns (taken: bool)
      requires i < |nodes| && ChildrenInRange(nodes, i)
      ensures taken <==> move in ChildMoves(nodes, i)
    {
      var ch := nodes[i].children;
      ghost var claimed := ChildMoves(nodes, i);
      var c := 0;
      while c < |ch| && nodes[ch[c]].board.lastMove != move
        invariant 0 <= c <= |ch|
        invariant forall d :: 0 <= d < c ==> claimed[d] != move
      {
        c := c + 1;
      }
      taken := c < |ch|;
      if taken {
        assert claimed[c] == move;
      }
    }

    /** The new child of `expand`: node i gets, as its last child, a node for the board after placing m. */
    method AddChild(i: nat, m: Cell) returns (leaf: nat)
      requires Valid() && i < |nodes| && Legal(game, nodes[i].board, m)
      requires ChildrenInRange(nodes, i) && m !in ChildMoves(nodes, i)
      modifies this
      ensures Valid()
      ensures leaf == |old(nodes)| && nodes == Grow(game, old(nodes), i, m)
    {
      GrowWellFormed(game, nodes, i, m);
      leaf := |nodes|;
      var child := Node(PlaceStone(game, nodes[i].board, m).value, 0, 0, [], Some(i));
      nodes := nodes[i := nodes[i].(children := nodes[i].children + [leaf])] + [child];
    }

    /**
     * `expand`: scan the order for the first cell that no child was made for and that is legal,
     * append the child for it and return its index; return i itself when there is none.
     */
    method Expand(i: nat, order: seq<Cell>) returns (leaf: nat)
      requires Valid() && i < |nodes|
      modifies this
      ensures Valid()
      ensures ChildrenInRange(old(nodes), i)
      ensures ExpandIndex(game, old(nodes), i, order).None? ==> leaf == i && nodes == old(nodes)
      ensures ExpandIndex(game, old(nodes), i, order).Some? ==>
        leaf == |old(nodes)| &&
        nodes == Grow(game, old(nodes), i, order[ExpandIndex(game, old(nodes), i, order).value])
    {
      assert NodeOk(game, nodes, i);
      var b := nodes[i].board;
      var ch := nodes[i].children;
      ghost var claimed := ChildMoves(nodes, i);
      for k := 0 to |order|
        invariant nodes == old(nodes)
        invariant forall j :: 0 <= j < k ==> order[j] in claimed || !Legal(game, b, order[j])
      {
        var move := order[k];
        var taken := HasChildFor(i, move);
        if !taken {
          var next := PlaceStone(game, b, move);
          if next.Some? {
            assert ExpandIndex(game, nodes, i, order) == Some(k);
            leaf := AddChild(i, move);
            return;
          }
        }
      }
      leaf := i;
    }

    /**
     * `select`: from the root, while the current node is selectable, move to its child with the
     * first strictly greatest UCB score (the running maximum starts at -1); return the path.
     */
    method Select(score: Score) returns (path: seq<nat>)
      requires Valid() && Visited(nodes)
      ensures IsSelectPath(game, score, nodes, path)
      ensures path == SelectPath(game, score, nodes)
    {
      path := [0];
      var cur := 0;
      while IsSelectable(game, nodes, cur)
        invariant SelectPrefix(game, score, nodes, path) && cur == path[|path| - 1]
        invariant SelectFrom(game, score, nodes, path) == SelectPath(game, score, nodes)
        decreases |nodes| - cur
      {
        SelectAdvances(game, score, nodes, path);
        var best := ScanMax(Scores(score, nodes, cur), -1.0);
        cur := nodes[cur].children[best];
        path := path + [cur];
      }
    }

    /**
     * The first half of a `run_mcts` round: select a path, expand its last node and, when
     * expansion added a child, append the child to the path.
     */
    method Descend(score: Score, expandOrder: seq<Cell>) returns (path: seq<nat>)
      requires Valid() && Visited(nodes)
      modifies this
      ensures Valid()
      ensures nodes == Descent(game, score, old(nodes), expandOrder).0
      ensures path == Descent(game, score, old(nodes), expandOrder).1
    {
      path := Select(score);
      var last := path[|path| - 1];
      var leaf := Expand(last, expandOrder);
      if leaf != last {
        path := path + [leaf];
      }
    }

    /**
     * One round of `run_mcts`: descend (select and expand), simulate from the path's last node
     * and update the path with the winner.
     */
    method Cycle(score: Score, expandOrder: seq<Cell>, rolloutOrder: seq<Cell>)
      requires Valid() && Visited(nodes) && IsShuffle(expandOrder)
      modifies this
      ensures nodes == Round(game, score, expandOrder, rolloutOrder, old(nodes))
      ensures Valid() && Visited(nodes)
    {
      RoundPreserves(game, score, expandOrder, rolloutOrder, nodes);
      var path := Descend(score, expandOrder);
      var leaf := path[|path| - 1];
      var winner := Simulate(game, nodes[leaf].board, rolloutOrder);
      Update(path, winner);
    }

    /**
     * `run_mcts`: N rounds of select, expand, simulate and update, then `take_action`.
     * Round r draws its expand and rollout orders from rounds[r].
     */
    method RunMcts(n: nat, score: Score, rounds: seq<Shuffles>) returns (a: Action)
      requires Valid() && Visited(nodes)
      requires |rounds| == n && AllShuffles(rounds)
      modifies this
      ensures nodes == Search(game, score, rounds, old(nodes))
      ensures Valid() && Visited(nodes)
      ensures ChildrenInRange(nodes, 0) && IsDecision(game, nodes, a)
    {
      for r := 0 to n
        invariant Valid() && Visited(nodes) && AllShuffles(rounds[r..])
        invariant Search(game, score, rounds[r..], nodes) == Search(game, score, rounds, old(nodes))
      {
        SearchUnfold(game, score, rounds[r..], nodes);
        assert rounds[r..][0] == rounds[r] && rounds[r..][1..] == rounds[r + 1..];
        Cycle(score, rounds[r].expand, rounds[r].rollout);
      }
      a := TakeAction();
    }
  }
}
