/** The playing field: a torus of GridWidth x GridHeight cells, and one-cell
    moves on it in the four compass directions. */
module Grid {

  const WindowWidth: int := 800
  const WindowHeight: int := 600
  const GridSize: int := 20
  /** The grid is the window measured in cells; the values are written out
      so that arithmetic modulo the grid size stays linear for the solver,
      and `GridFromWindow` proves them equal to the window divided by the
      cell size (Python's `//` agrees with Dafny's `/` on positive values). */
  const GridWidth: int := 40
  const GridHeight: int := 30

  lemma GridFromWindow()
    ensures GridWidth == WindowWidth / GridSize
    ensures GridHeight == WindowHeight / GridSize
  {
  }

  /** A grid cell (column, row); coordinates are unbounded integers so that
      out-of-range cells can be talked about. */
  datatype Cell = Cell(x: int, y: int)

  predicate InBounds(c: Cell) {
    0 <= c.x < GridWidth && 0 <= c.y < GridHeight
  }

  datatype Direction = Up | Down | Left | Right

  /** The direction a snake may not turn into directly. */
  function Opposite(d: Direction): (r: Direction)
    ensures r != d
    ensures d == Up <==> r == Down
    ensures d == Left <==> r == Right
    // the opposite heading undoes the move offset on both axes
    ensures Dx(r) == -Dx(d) && Dy(r) == -Dy(d)
  {
    match d
    case Up => Down
    case Down => Up
    case Left => Right
    case Right => Left
  }

  /** Column offset of one move (screen coordinates: rows grow downwards). */
  function Dx(d: Direction): int {
    match d
    case Left => -1
    case Right => 1
    case _ => 0
  }

  function Dy(d: Direction): int {
    match d
    case Up => -1
    case Down => 1
    case _ => 0
  }

  /** The clamp applied to a column after a move: below zero goes to the last
      column, at or past the width goes to column zero, anything else stays. */
  function WrapX(x: int): (r: int)
    ensures 0 <= r < GridWidth
    ensures -1 <= x <= GridWidth ==> r == x % GridWidth
  {
    if x < 0 then GridWidth - 1
    else if x >= GridWidth then 0
    else x
  }

  function WrapY(y: int): (r: int)
    ensures 0 <= r < GridHeight
    ensures -1 <= y <= GridHeight ==> r == y % GridHeight
  {
    if y < 0 then GridHeight - 1
    else if y >= GridHeight then 0
    else y
  }

  /** The head's next cell: one step in direction d, then both coordinates
      are clamped back onto the grid. The result is on the grid whatever the
      starting cell; from an on-grid cell exactly the coordinate along the
      heading's axis changes. */
  function Step(c: Cell, d: Direction): (r: Cell)
    ensures InBounds(r)
    ensures InBounds(c) ==> (r.x == c.x) == (Dx(d) == 0) && (r.y == c.y) == (Dy(d) == 0)
  {
    Cell(WrapX(c.x + Dx(d)), WrapY(c.y + Dy(d)))
  }

  /** From an on-grid cell a step is the move taken modulo the grid size:
      the grid is a torus. */
  lemma StepModulo(c: Cell, d: Direction)
    requires InBounds(c)
    ensures Step(c, d) == Cell((c.x + Dx(d)) % GridWidth, (c.y + Dy(d)) % GridHeight)
  {
  }

  /** A step followed by the opposite step returns to the starting cell. */
  lemma StepBack(c: Cell, d: Direction)
    requires InBounds(c)
    ensures Step(Step(c, d), Opposite(d)) == c
  {
  }

  /** A move always leaves the cell it starts from. */
  lemma StepMoves(c: Cell, d: Direction)
    requires InBounds(c)
    ensures Step(c, d) != c
  {
  }

  /** Two cells are neighbours on the torus: one is a single step from the other. */
  predicate Adjacent(a: Cell, b: Cell) {
    a == Step(b, Up) || a == Step(b, Down) || a == Step(b, Left) || a == Step(b, Right)
  }

  /** k steps in the same direction. */
  function Steps(c: Cell, d: Direction, k: nat): Cell {
    if k == 0 then c else Step(Steps(c, d, k - 1), d)
  }

  /** Displacement of k moves in direction d, per axis. */
  function OffsetX(d: Direction, k: nat): int {
    match d
    case Left => -(k as int)
    case Right => k
    case _ => 0
  }

  function OffsetY(d: Direction, k: nat): int {
    match d
    case Up => -(k as int)
    case Down => k
    case _ => 0
  }

  /** One step from a cell given by residues moves the residues by one. */
  lemma StepResidue(p: Cell, d: Direction, a: int, b: int)
    requires p == Cell(a % GridWidth, b % GridHeight)
    ensures Step(p, d) == Cell((a + Dx(d)) % GridWidth, (b + Dy(d)) % GridHeight)
  {
    StepModulo(p, d);
    ModStep(a, Dx(d), GridWidth);
    ModStep(b, Dy(d), GridHeight);
  }

  /** The position after k steps, in residues of the displacement. */
  predicate StepsAt(c: Cell, d: Direction, k: nat, p: Cell) {
    p == Cell((c.x + OffsetX(d, k)) % GridWidth, (c.y + OffsetY(d, k)) % GridHeight)
  }

  /** One more step moves the displacement by one. */
  lemma StepsSucc(c: Cell, d: Direction, k: nat)
    requires StepsAt(c, d, k, Steps(c, d, k))
    ensures StepsAt(c, d, k + 1, Steps(c, d, k + 1))
  {
    assert OffsetX(d, k + 1) == OffsetX(d, k) + Dx(d);
    assert OffsetY(d, k + 1) == OffsetY(d, k) + Dy(d);
    StepResidue(Steps(c, d, k), d, c.x + OffsetX(d, k), c.y + OffsetY(d, k));
  }

  /** k steps in one direction from an on-grid cell land k cells further
      along that axis, modulo the grid size, and leave the other coordinate
      alone. */
  lemma {:induction false} StepsModulo(c: Cell, d: Direction, k: nat)
    requires InBounds(c)
    ensures StepsAt(c, d, k, Steps(c, d, k))
  {
    if k == 0 {
      assert OffsetX(d, 0) == 0 && OffsetY(d, 0) == 0;
      assert c.x % GridWidth == c.x && c.y % GridHeight == c.y;
    } else {
      StepsModulo(c, d, k - 1);
      StepsSucc(c, d, k - 1);
    }
  }

  /** Reducing before adding a unit offset does not change the residue. */
  lemma ModStep(a: int, b: int, m: int)
    requires m == GridWidth || m == GridHeight
    requires -1 <= b <= 1
    ensures (a % m + b) % m == (a + b) % m
  {
  }

  /** The number of steps around the grid in direction d. */
  function LapLength(d: Direction): nat {
    if d == Left || d == Right then GridWidth else GridHeight
  }

  /** Going once around the grid in one direction is the identity: the grid
      wraps around like a torus (40 steps across, 30 steps up or down). */
  lemma FullLap(c: Cell, d: Direction)
    requires InBounds(c)
    ensures Steps(c, d, LapLength(d)) == c
  {
    StepsModulo(c, d, LapLength(d));
    LapResidue(c, d, Steps(c, d, LapLength(d)));
  }

  /** The cell a whole lap's displacement away, in residues, is the start. */
  lemma LapResidue(c: Cell, d: Direction, p: Cell)
    requires InBounds(c)
    requires StepsAt(c, d, LapLength(d), p)
    ensures p == c
  {
    var n := LapLength(d);
    var ox, oy := OffsetX(d, n), OffsetY(d, n);
    assert p.x == (c.x + ox) % GridWidth && p.y == (c.y + oy) % GridHeight;
    assert ox == 0 || ox == GridWidth || ox == -GridWidth;
    assert oy == 0 || oy == GridHeight || oy == -GridHeight;
    ResidueOfShift(c.x, ox, GridWidth);
    ResidueOfShift(c.y, oy, GridHeight);
  }

  /** Shifting an on-grid coordinate by a whole lap leaves its residue alone. */
  lemma ResidueOfShift(v: int, o: int, m: int)
    requires m == GridWidth || m == GridHeight
    requires 0 <= v < m
    requires o == 0 || o == m || o == -m
    ensures (v + o) % m == v
  {
  }
}
