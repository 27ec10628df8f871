/** The isometric projection of game.py (`xy_to_iso`, `iso_to_xy`). */
module Iso {
  import opened Vec

  /** `BLOCK_WIDTH`, the width in pixels of one projected tile. */
  const BlockWidth: int := 32
  /** `BLOCK_HEIGHT = BLOCK_WIDTH // 2` */
  const BlockHeight: int := BlockWidth / 2

  /** Grid position to projected screen offset. */
  function XyToIso(p: V): (v: V)
    ensures v.x == (p.x - p.y) * 16.0 && v.y == (p.x + p.y) * 8.0
  {
    var h := BlockHeight as real;
    assert h == 16.0;
    V((p.x - p.y) * h, ((p.x + p.y) / 2.0) * h)
  }

  /** Projected screen offset back to a grid position; the source adds 1 to
      the y coordinate, so projecting the result forward lands one cell
      further south than `v` (16 pixels left, 8 pixels down). */
  function IsoToXy(v: V): (p: V)
    ensures XyToIso(p) == V(v.x - 16.0, v.y + 8.0)
  {
    var h := BlockHeight as real;
    assert h == 16.0;
    var v1 := V(v.x / h, v.y / h);
    V((2.0 * v1.y + v1.x) / 2.0, (2.0 * v1.y - v1.x) / 2.0 + 1.0)
  }

  /** Going to screen space and back moves a position one cell along +y:
      `iso_to_xy` is not the exact inverse of `xy_to_iso`. */
  lemma IsoRoundTrip(p: V)
    ensures IsoToXy(XyToIso(p)) == V(p.x, p.y + 1.0)
  {
  }

  /** The projection is linear: a step of +1 in x moves (16, 8) on screen,
      a step of +1 in y moves (-16, 8). */
  lemma IsoSteps(p: V)
    ensures XyToIso(Add(p, V(1.0, 0.0))) == Add(XyToIso(p), V(16.0, 8.0))
    ensures XyToIso(Add(p, V(0.0, 1.0))) == Add(XyToIso(p), V(-16.0, 8.0))
  {
  }
}
