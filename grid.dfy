/** The logical-to-physical electrode translation of `translate_grid`
    (main.py:164-187), one coordinate at a time.

    The logical grid is 14 x 8 (last indices X = 13, Y = 7). The physical
    grid shifts every normal column right by one and keeps column 0 (west)
    and column X + 2 = 15 (east) for the four stacked I/O-port electrodes
    of each edge. */
module Grid {

  const X: int := 13
  const Y: int := 7
  /** Physical columns 0 .. X + 2. */
  const Columns: int := X + 3
  /** Physical rows 0 .. Y. */
  const Rows: int := Y + 1

  datatype Coord = Coord(x: int, y: int)

  predicate InGrid(c: Coord) {
    0 <= c.x <= X
  }

  predicate InPhysicalGrid(p: Coord) {
    0 <= p.x < Columns && 0 <= p.y < Rows
  }

  /** Row of the port electrode addressed by an off-grid x (either side).
      `top` is `y < 4`; the tier is picked by the x value first, then by y. */
  function PortRow(x: int, y: int): int
    requires x < 0 || x > X
  {
    var top := y < 4;
    if x < 0 then
      if x == -3 then (if top then 3 else 4)
      else if x == -2 then (if top then 2 else 5)
      else if y != 1 && y != 6 then (if top then 1 else 6)
      else (if top then 0 else 7)
    else
      if x == X + 3 then (if top then 3 else 4)
      else if x == X + 2 then (if top then 2 else 5)
      else if y != 1 && y != 6 then (if top then 1 else 6)
      else (if top then 0 else 7)
  }

  /** The translation of one logical coordinate. */
  function Translate(c: Coord): (p: Coord)
    ensures 0 <= p.x < Columns
    ensures InGrid(c) ==> p == Coord(c.x + 1, c.y)
    ensures c.x < 0 ==> p.x == 0
    ensures c.x > X ==> p.x == X + 2
    ensures !InGrid(c) && c.y < 4 ==> 0 <= p.y <= 3
    ensures !InGrid(c) && c.y >= 4 ==> 4 <= p.y <= 7
  {
    if c.x < 0 then Coord(0, PortRow(c.x, c.y))
    else if c.x > X then Coord(X + 2, PortRow(c.x, c.y))
    else Coord(c.x + 1, c.y)
  }

  // ---------------------------------------------------------------------
  // An independent description of the port electrodes: a tier 0..3 counted
  // from the grid's horizontal mid-line outwards, mirrored into the bottom
  // half.

  /** Distance of an off-grid x from the logical grid: 1 for x = -1 or
      x = X + 1. */
  function PortDistance(x: int): (d: int)
    requires x < 0 || x > X
    ensures d >= 1
  {
    if x < 0 then -x else x - X
  }

  /** Tier 3 at distance 3, tier 2 at distance 2, otherwise tier 1 unless y
      is 1 or 6, which select tier 0. */
  function Tier(d: int, y: int): (t: int)
    ensures 0 <= t <= 3
  {
    if d == 3 then 3 else if d == 2 then 2 else if y != 1 && y != 6 then 1 else 0
  }

  /** Tier t is row t in the top half and its mirror image 7 - t below. */
  function TierRow(t: int, y: int): int {
    if y < 4 then t else Y - t
  }

  lemma PortRowIsMirroredTier(x: int, y: int)
    requires x < 0 || x > X
    ensures Translate(Coord(x, y)).y == TierRow(Tier(PortDistance(x), y), y)
  {
  }

  /** The west and the east edge use the same tier rule. */
  lemma PortSidesAgree(d: int, y: int)
    requires d >= 1
    ensures Translate(Coord(-d, y)).y == Translate(Coord(X + d, y)).y
    ensures Translate(Coord(-d, y)).x == 0 && Translate(Coord(X + d, y)).x == X + 2
  {
    PortRowIsMirroredTier(-d, y);
    PortRowIsMirroredTier(X + d, y);
  }

  /** Flipping the logical row flips the physical row, on the grid and on
      the ports. */
  lemma VerticalMirror(c: Coord)
    ensures Translate(Coord(c.x, Y - c.y)).y == Y - Translate(c).y
    ensures Translate(Coord(c.x, Y - c.y)).x == Translate(c).x
  {
    if !InGrid(c) {
      PortRowIsMirroredTier(c.x, c.y);
      PortRowIsMirroredTier(c.x, Y - c.y);
    }
  }

  /** Normal grid cells land on columns 1 .. X + 1, never on a port column,
      and two different cells never land on the same electrode. */
  lemma GridCellsInjective(a: Coord, b: Coord)
    requires InGrid(a) && InGrid(b)
    ensures 1 <= Translate(a).x <= X + 1
    ensures Translate(a) == Translate(b) <==> a == b
  {
  }

  /** The logical rectangle [0, X] x [0, Y] covers every non-port electrode. */
  lemma GridCellsOnto(p: Coord)
    requires 1 <= p.x <= X + 1 && 0 <= p.y <= Y
    ensures InGrid(Coord(p.x - 1, p.y)) && Translate(Coord(p.x - 1, p.y)) == p
  {
  }

  /** Every in-range logical coordinate, on the grid or off it, lands inside
      the physical grid. */
  lemma TranslateInPhysicalGrid(c: Coord)
    requires 0 <= c.y <= Y
    ensures InPhysicalGrid(Translate(c))
  {
  }

  /** Ports are many-to-one: every distance of 4 or more reaches the same
      electrode as distance 1, and on one edge and half two different rows
      away from 1 and 6 share an electrode. */
  lemma PortsAlias(d: int, y: int)
    requires d >= 4
    ensures Translate(Coord(-d, y)) == Translate(Coord(-1, y))
    ensures Translate(Coord(X + d, y)) == Translate(Coord(X + 1, y))
    ensures Translate(Coord(X + 1, 4)) == Translate(Coord(X + 1, 5)) == Coord(X + 2, 6)
    ensures Translate(Coord(-1, 0)) == Translate(Coord(-1, 2)) == Coord(0, 1)
  {
  }
}
