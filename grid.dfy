/** The playing field of the snake game: screen size in pixels, the cell size,
    the four travel directions and the toroidal one-cell step of the head.
    Coordinates are pixels; a cell is a GridSize x GridSize square whose
    top-left corner has coordinates that are multiples of GridSize. */
module Grid {

  const ScreenWidth: int := 640
  const ScreenHeight: int := 480
  const GridSize: int := 20
  /** Number of columns and rows (integer division of positive numbers). */
  const GridWidth: int := ScreenWidth / GridSize
  const GridHeight: int := ScreenHeight / GridSize

  /** A pixel position (x, y), compared by exact integer equality. */
  datatype Position = Position(x: int, y: int)

  /** The four unit vectors UP (0,-1), DOWN (0,1), LEFT (-1,0), RIGHT (1,0). */
  datatype Direction = Up | Down | Left | Right

  /** The horizontal component of d's unit vector. */
  function Dx(d: Direction): (r: int)
    ensures -1 <= r <= 1
    ensures r == 0 <==> d == Up || d == Down
  {
    match d
    case Left => -1
    case Right => 1
    case _ => 0
  }

  /** The vertical component of d's unit vector (y grows downwards). */
  function Dy(d: Direction): (r: int)
    ensures -1 <= r <= 1
    ensures r == 0 <==> d == Left || d == Right
  {
    match d
    case Up => -1
    case Down => 1
    case _ => 0
  }

  /** The direction whose vector is the negation of d's. */
  function Opposite(d: Direction): (r: Direction)
    ensures Dx(r) == -Dx(d) && Dy(r) == -Dy(d)
    ensures r != d
  {
    match d
    case Up => Down
    case Down => Up
    case Left => Right
    case Right => Left
  }

  /** Each direction is the opposite of exactly one direction. */
  lemma OppositeUnique(d: Direction, e: Direction)
    ensures Opposite(d) == Opposite(e) <==> d == e
    ensures Opposite(Opposite(d)) == d
  {
  }

  predicate InBounds(p: Position) {
    0 <= p.x < ScreenWidth && 0 <= p.y < ScreenHeight
  }

  predicate Aligned(p: Position) {
    p.x % GridSize == 0 && p.y % GridSize == 0
  }

  /** The top-left corner of a cell of the field. */
  predicate OnGrid(p: Position) {
    InBounds(p) && Aligned(p)
  }

  /** The head after one step in direction d: a move of GridSize pixels,
      wrapped modulo the screen size. the_snake.py uses Python's `%`, which
      for a positive divisor agrees with Dafny's Euclidean `%`. */
  function NextHead(head: Position, d: Direction): (r: Position)
    ensures InBounds(r)
    ensures Aligned(head) ==> Aligned(r)
  {
    var x := head.x + Dx(d) * GridSize;
    var y := head.y + Dy(d) * GridSize;
    AlignedShiftWrap(head.x, Dx(d), ScreenWidth);
    AlignedShiftWrap(head.y, Dy(d), ScreenHeight);
    Position(x % ScreenWidth, y % ScreenHeight)
  }

  /** Shifting a multiple of GridSize by a multiple of GridSize and wrapping
      it modulo a multiple of GridSize gives a multiple of GridSize. */
  lemma AlignedShiftWrap(a: int, k: int, m: int)
    requires m == ScreenWidth || m == ScreenHeight
    ensures a % GridSize == 0 ==> ((a + k * GridSize) % m) % GridSize == 0
  {
    if a % GridSize == 0 {
      var b := a + k * GridSize;
      var q := a / GridSize;
      assert a == GridSize * q;
      assert b == GridSize * (q + k);
      var w := b / m;
      assert b % m == b - m * w;
      if m == ScreenWidth {
        assert b % m == GridSize * (q + k - 32 * w);
      } else {
        assert b % m == GridSize * (q + k - 24 * w);
      }
    }
  }

  /** A step and the step back in the opposite direction cancel out
      on an in-bounds position. */
  lemma StepBack(p: Position, d: Direction)
    requires InBounds(p)
    ensures NextHead(NextHead(p, d), Opposite(d)) == p
  {
    ShiftBack(p.x, Dx(d), ScreenWidth);
    ShiftBack(p.y, Dy(d), ScreenHeight);
  }

  /** One axis of StepBack. */
  lemma ShiftBack(a: int, k: int, m: int)
    requires m == ScreenWidth || m == ScreenHeight
    requires 0 <= a < m && -1 <= k <= 1
    ensures ((a + k * GridSize) % m + -k * GridSize) % m == a
  {
    var b := a + k * GridSize;
    var w := if b < 0 then b + m else if b >= m then b - m else b;
    assert b % m == w;
    var c := w - k * GridSize;
    assert c == a || c == a - m || c == a + m;
  }

  /** From any position the four directions lead to four different cells. */
  lemma StepsDiffer(p: Position, d: Direction, e: Direction)
    requires d != e
    ensures NextHead(p, d) != NextHead(p, e)
  {
  }

  /** Example from the field's right edge: x = 620 moving right wraps to 0. */
  lemma WrapAtRightEdge()
    ensures NextHead(Position(620, 100), Right) == Position(0, 100)
  {
  }

  /** Number of a cell, row by row: an injection of the field into
      [0, GridWidth * GridHeight). */
  function CellIndex(p: Position): (i: int)
    requires OnGrid(p)
    ensures 0 <= i < GridWidth * GridHeight
  {
    p.x / GridSize + GridWidth * (p.y / GridSize)
  }

  lemma CellIndexInjective(p: Position, q: Position)
    requires OnGrid(p) && OnGrid(q) && CellIndex(p) == CellIndex(q)
    ensures p == q
  {
    var cp, rp := p.x / GridSize, p.y / GridSize;
    var cq, rq := q.x / GridSize, q.y / GridSize;
    assert p.x == GridSize * cp && q.x == GridSize * cq;
    assert p.y == GridSize * rp && q.y == GridSize * rq;
    DigitsUnique(cp, rp, cq, rq);
  }

  /** A cell number c + GridWidth * r with 0 <= c < GridWidth determines
      its column c and row r. */
  lemma DigitsUnique(c1: int, r1: int, c2: int, r2: int)
    requires 0 <= c1 < GridWidth && 0 <= c2 < GridWidth
    requires c1 + GridWidth * r1 == c2 + GridWidth * r2
    ensures c1 == c2 && r1 == r2
  {
    assert GridWidth == 32;
  }

  /** The integers 0 .. n-1. */
  function Range(n: nat): (r: set<int>)
    ensures forall i :: i in r <==> 0 <= i < n
  {
    if n == 0 then {} else Range(n - 1) + {n - 1}
  }

  lemma {:induction false} RangeSize(n: nat)
    ensures |Range(n)| == n
  {
    if n > 0 {
      RangeSize(n - 1);
    }
  }

  lemma {:induction false} InjectedSize(cells: set<Position>, slots: set<int>)
    requires forall p :: p in cells ==> OnGrid(p) && CellIndex(p) in slots
    ensures |cells| <= |slots|
    decreases cells
  {
    if cells != {} {
      var p :| p in cells;
      forall q | q in cells - {p}
        ensures CellIndex(q) in slots - {CellIndex(p)}
      {
        if CellIndex(q) == CellIndex(p) {
          CellIndexInjective(p, q);
        }
      }
      InjectedSize(cells - {p}, slots - {CellIndex(p)});
    }
  }

  /** The field holds GridWidth * GridHeight = 768 cells, so no set of
      on-grid positions is larger. */
  lemma GridCapacity(cells: set<Position>)
    requires forall p :: p in cells ==> OnGrid(p)
    ensures |cells| <= GridWidth * GridHeight
  {
    InjectedSize(cells, Range(GridWidth * GridHeight));
    RangeSize(GridWidth * GridHeight);
  }
}
