/** The snake: a head-first list of cells, a heading and a target length.
    Each update moves the head one cell (wrapping around the grid), puts it
    in front of the body and drops the tail cell when the list would exceed
    the target length. */
module Snakes {
  import opened Grid

  datatype Snake = Snake(positions: seq<Cell>, direction: Direction, length: nat)

  /** The starting cell, the centre of the grid. */
  const Centre: Cell := Cell(GridWidth / 2, GridHeight / 2)

  /** A freshly constructed snake: one cell at the centre, heading right. */
  function NewSnake(): (s: Snake)
    ensures s.positions == [Cell(20, 15)]
    ensures s.direction == Right && s.length == 1
    ensures InBounds(s.positions[0])
  {
    Snake([Centre], Right, 1)
  }

  /** The cell at the front of the list. The list must not be empty, as
      indexing an empty list fails. */
  function Head(s: Snake): (h: Cell)
    requires |s.positions| > 0
    ensures h == s.positions[0] && h in s.positions
  {
    s.positions[0]
  }

  /** One movement step. */
  function Update(s: Snake): (r: Snake)
    requires |s.positions| > 0
    ensures r.direction == s.direction && r.length == s.length
    ensures |r.positions| > 0
    ensures r.positions[0] == Step(s.positions[0], s.direction)
    ensures InBounds(r.positions[0])
    // the tail is dropped exactly when head plus old body would exceed the target length
    ensures |r.positions| == if |s.positions| + 1 > s.length then |s.positions| else |s.positions| + 1
    // behind the new head the old body follows, in order, minus at most its last cell
    ensures r.positions[1..] == s.positions[..|r.positions| - 1]
  {
    var grown := [Step(Head(s), s.direction)] + s.positions;
    if |grown| > s.length then s.(positions := grown[..|grown| - 1])
    else s.(positions := grown)
  }

  /** Restores the state of a freshly constructed snake, whatever came before. */
  function Reset(s: Snake): (r: Snake)
    ensures r == NewSnake()
    ensures r.positions == [Cell(20, 15)] && r.direction == Right && r.length == 1
  {
    s.(positions := [Centre], direction := Right, length := 1)
  }

  /** Resetting twice is the same as resetting once. */
  lemma ResetIdempotent(s: Snake)
    ensures Reset(Reset(s)) == Reset(s)
    ensures Reset(s) == NewSnake()
  {
  }

  /** If the list is within the target length before the update, afterwards
      its size is one more, capped at the target length; so the list never
      outgrows the target length and is never empty. */
  lemma UpdateLength(s: Snake)
    requires 0 < |s.positions| <= s.length
    ensures |Update(s).positions| == if |s.positions| + 1 <= s.length then |s.positions| + 1 else s.length
    ensures 0 < |Update(s).positions| <= Update(s).length
  {
  }

  /** Every cell of the updated snake is the new head or was already occupied. */
  lemma UpdateCells(s: Snake)
    requires |s.positions| > 0
    ensures forall c :: c in Update(s).positions ==> c == Update(s).positions[0] || c in s.positions
  {
  }

  /** All cells of the list are on the grid. */
  predicate AllInBounds(ps: seq<Cell>) {
    forall i :: 0 <= i < |ps| ==> InBounds(ps[i])
  }

  /** Consecutive cells of the list are neighbours on the torus. */
  predicate Connected(ps: seq<Cell>) {
    forall i :: 0 <= i < |ps| - 1 ==> Adjacent(ps[i], ps[i + 1])
  }

  /** The update keeps the body on the grid and keeps it a chain of
      neighbouring cells. */
  lemma UpdateKeepsShape(s: Snake)
    requires |s.positions| > 0
    requires AllInBounds(s.positions) && Connected(s.positions)
    ensures AllInBounds(Update(s).positions) && Connected(Update(s).positions)
  {
  }

  /** k updates in a row with no change of heading. */
  function UpdateN(s: Snake, k: nat): (r: Snake)
    requires |s.positions| > 0
    ensures |r.positions| > 0
    ensures r.direction == s.direction && r.length == s.length
  {
    if k == 0 then s else Update(UpdateN(s, k - 1))
  }

  /** After k updates with a fixed heading the head has travelled k cells
      in that direction, and the list has grown by k cells, capped at the
      target length. */
  lemma {:induction false} UpdateNHead(s: Snake, k: nat)
    requires 0 < |s.positions| <= s.length
    ensures UpdateN(s, k).positions[0] == Steps(s.positions[0], s.direction, k)
    ensures |UpdateN(s, k).positions| == if |s.positions| + k <= s.length then |s.positions| + k else s.length
  {
    if k > 0 {
      UpdateNHead(s, k - 1);
      UpdateLength(UpdateN(s, k - 1));
    }
  }
}
