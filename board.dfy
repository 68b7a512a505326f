/**
 * The NoGo board as the search engine sees it. NoGo's own rules (liberties, captures being
 * forbidden, whose turn it is) live outside this model: a board carries an abstract state S,
 * judged by a record of rule functions, together with the two things the search reads from
 * it directly, the set of empty cells and the cell of the last move. A stone only ever goes
 * on an empty cell, so every legal placement shrinks the empty set, which is what makes a
 * playout finish.
 */
module Board {
  import opened Wrappers
  import opened Seqs

  /** 9 x 9 cells, indexed 0..80. */
  const CellCount := 81

  type Cell = c: int | 0 <= c < CellCount

  datatype Colour = Black | White

  /** The other colour. */
  function Opponent(c: Colour): (r: Colour)
    ensures r != c
  {
    if c == White then Black else White
  }

  /** A move: a stone of a colour on a cell, or the null action. */
  datatype Action = Null | Place(cell: Cell, colour: Colour)

  /**
   * The rules the board applies to its own state S: whether a stone may go on an empty cell
   * (NoGo's liberty rules), the state after it does, the colour to move, and whether a
   * prepared action (a cell and a colour) applies to a board.
   */
  datatype Rules<!S> = Rules(
    legal: (S, Cell) -> bool,
    next: (S, Cell) -> S,
    turn: S -> Colour,
    applies: (S, Cell, Colour) -> bool)

  /** A board: its state, the cells still empty and the cell of the move that produced it. */
  datatype Board<S> = Board(state: S, empty: set<Cell>, lastMove: Cell)

  /** `board::place` on a copy: a stone goes only on an empty cell the rules allow. */
  function PlaceStone<S>(g: Rules<S>, b: Board<S>, c: Cell): (r: Option<Board<S>>)
    ensures r.Some? ==> r.value.lastMove == c && |r.value.empty| == |b.empty| - 1
  {
    if c in b.empty && g.legal(b.state, c) then Some(Board(g.next(b.state, c), b.empty - {c}, c))
    else None
  }

  /** `info().who_take_turns`. */
  function Turn<S>(g: Rules<S>, b: Board<S>): Colour
  {
    g.turn(b.state)
  }

  /** `place(move) == board::legal`: the rules allow a stone on the cell, which must be empty. */
  predicate Legal<S>(g: Rules<S>, b: Board<S>, c: Cell)
  {
    PlaceStone(g, b, c).Some?
  }

  /** A cell is legal exactly when it is empty and the rules allow the mover a stone there. */
  lemma LegalCell<S>(g: Rules<S>, b: Board<S>, c: Cell)
    ensures Legal(g, b, c) <==> c in b.empty && g.legal(b.state, c)
  {
  }

  /**
   * The position in `order` of the first cell that is not in `taken` and is legal on b, if
   * any: a left-to-right scan that stops at the first hit.
   */
  function FirstOpen<S>(g: Rules<S>, b: Board<S>, taken: seq<Cell>, order: seq<Cell>): (r: Option<nat>)
    ensures r.Some? ==> r.value < |order| && order[r.value] !in taken && Legal(g, b, order[r.value])
    ensures r.Some? ==> forall j :: 0 <= j < r.value ==> order[j] in taken || !Legal(g, b, order[j])
    ensures r.None? ==> forall j :: 0 <= j < |order| ==> order[j] in taken || !Legal(g, b, order[j])
  {
    if order == [] then None
    else if order[0] !in taken && Legal(g, b, order[0]) then Some(0)
    else match FirstOpen(g, b, taken, order[1..])
      case None => None
      case Some(k) => Some(k + 1)
  }

  /** The number of legal cells among 0..n-1, counted in order as the source's loop does. */
  function CountLegal<S>(g: Rules<S>, b: Board<S>, n: nat): (k: nat)
    requires n <= CellCount
    ensures k <= n
  {
    if n == 0 then 0 else CountLegal(g, b, n - 1) + (if Legal(g, b, n - 1) then 1 else 0)
  }

  /** `is_selectable`'s count of legal cells over 0..80. */
  function LegalCount<S>(g: Rules<S>, b: Board<S>): (n: nat)
    ensures n <= CellCount
  {
    CountLegal(g, b, CellCount)
  }

  /** The legal cells among 0..n-1, collected in the order they are counted. */
  ghost function LegalBelow<S>(g: Rules<S>, b: Board<S>, n: nat): set<Cell>
    requires n <= CellCount
  {
    if n == 0 then {} else LegalBelow(g, b, n - 1) + (if Legal(g, b, n - 1) then {n - 1} else {})
  }

  ghost function LegalCells<S>(g: Rules<S>, b: Board<S>): set<Cell>
  {
    set c: Cell | Legal(g, b, c)
  }

  /** Every cell collected below n is below n. */
  lemma {:induction false} LegalBelowBounded<S>(g: Rules<S>, b: Board<S>, n: nat)
    requires n <= CellCount
    ensures forall c :: c in LegalBelow(g, b, n) ==> c < n
  {
    if n > 0 {
      LegalBelowBounded(g, b, n - 1);
    }
  }

  /** The cells collected below n are exactly the legal ones below n. */
  lemma {:induction false} LegalBelowMembers<S>(g: Rules<S>, b: Board<S>, n: nat)
    requires n <= CellCount
    ensures forall c: Cell :: c in LegalBelow(g, b, n) <==> c < n && Legal(g, b, c)
  {
    if n > 0 {
      LegalBelowMembers(g, b, n - 1);
    }
  }

  /** The count of legal cells below n is the number of cells collected below n. */
  lemma {:induction false} CountIsCard<S>(g: Rules<S>, b: Board<S>, n: nat)
    requires n <= CellCount
    ensures |LegalBelow(g, b, n)| == CountLegal(g, b, n)
  {
    if n > 0 {
      CountIsCard(g, b, n - 1);
      LegalBelowBounded(g, b, n - 1);
    }
  }

  /** LegalCount is the number of legal cells. */
  lemma LegalCountIsCard<S>(g: Rules<S>, b: Board<S>)
    ensures |LegalCells(g, b)| == LegalCount(g, b)
  {
    CountIsCard(g, b, CellCount);
    LegalBelowMembers(g, b, CellCount);
    assert LegalCells(g, b) == LegalBelow(g, b, CellCount);
  }

  /** A board with a legal cell has a positive legal count. */
  lemma LegalCountPositive<S>(g: Rules<S>, b: Board<S>, c: Cell)
    requires Legal(g, b, c)
    ensures LegalCount(g, b) > 0
  {
    LegalCountIsCard(g, b);
    assert c in LegalCells(g, b);
  }

  /** A shuffle of all 81 cells, as `all_moves` returns. */
  predicate IsShuffle(p: seq<Cell>)
  {
    |p| == CellCount && forall c: Cell :: c in p
  }

  /** The cells below n. */
  ghost function CellsBelow(n: nat): set<Cell>
    requires n <= CellCount
  {
    if n == 0 then {} else CellsBelow(n - 1) + {n - 1}
  }

  /** The cells below n are exactly the cells c < n, and there are n of them. */
  lemma {:induction false} CellsBelowCard(n: nat)
    requires n <= CellCount
    ensures forall c: Cell :: c in CellsBelow(n) <==> c < n
    ensures |CellsBelow(n)| == n
  {
    if n > 0 {
      CellsBelowCard(n - 1);
      assert n - 1 !in CellsBelow(n - 1);
    }
  }

  /** A shuffle holds each of the 81 cells exactly once: no cell is repeated. */
  lemma ShuffleDistinct(p: seq<Cell>)
    requires IsShuffle(p)
    ensures Distinct(p)
  {
    CellsBelowCard(CellCount);
    assert Elems(p) == CellsBelow(CellCount);
    FullElemsDistinct(p);
  }

  /** When no cell of a shuffle is legal, no cell at all is legal. */
  lemma {:induction false} NoneLegalInShuffle<S>(g: Rules<S>, b: Board<S>, p: seq<Cell>)
    requires IsShuffle(p)
    requires forall j :: 0 <= j < |p| ==> !Legal(g, b, p[j])
    ensures LegalCount(g, b) == 0
  {
    LegalCountIsCard(g, b);
    forall c: Cell ensures !Legal(g, b, c) {
      assert c in p;
      var j :| 0 <= j < |p| && p[j] == c;
    }
    assert LegalCells(g, b) == {};
  }
}
