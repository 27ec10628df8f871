/** The 16 x 16 window of the map that is drawn around the hero
    (`VIEW_SIZE`, the chunk offset and `get_chunk` in game.py). */
module Chunk {
  import opened Common
  import opened Vec

  /** `VIEW_SIZE` */
  const ViewSize: int := 16

  /** `(pos // VIEW_SIZE) * VIEW_SIZE`: the corner of the window holding `pos`.
      Each component is an integral multiple of 16 at most 16 below `pos`. */
  function ChunkOffset(pos: V): (o: V)
    ensures o.x == o.x.Floor as real && o.x.Floor % 16 == 0
    ensures o.y == o.y.Floor as real && o.y.Floor % 16 == 0
    ensures o.x <= pos.x < o.x + 16.0
    ensures o.y <= pos.y < o.y + 16.0
  {
    var s := ViewSize as real;
    var o := Scale(FloorDivV(pos, s), s);
    Multiple16(FloorDiv(pos.x, s).Floor);
    Multiple16(FloorDiv(pos.y, s).Floor);
    o
  }

  lemma Multiple16(k: int)
    ensures ((k as real) * 16.0).Floor == k * 16
    ensures (k * 16) % 16 == 0
  {
  }

  /** `get_chunk`: a world cell inside the window given by `offset`, reduced
      to window-local coordinates; `None` where the source's assertions fail. */
  function GetChunk(offset: V, cell: Cell): (r: Option<Cell>)
    ensures r.Some? <==> InWindow(offset, cell)
    ensures r.Some? ==> 0 <= r.value.0 < 16 && 0 <= r.value.1 < 16
  {
    if InWindow(offset, cell) then Some((cell.0 % ViewSize, cell.1 % ViewSize)) else None
  }

  /** The two assertions of `get_chunk`. */
  predicate InWindow(offset: V, cell: Cell)
  {
    offset.x <= cell.0 as real < offset.x + ViewSize as real
    && offset.y <= cell.1 as real < offset.y + ViewSize as real
  }

  /** For the window around any position, every cell in it passes the
      assertions, and `get_chunk` gives exactly the cell minus the offset. */
  lemma {:induction false} ChunkLocal(pos: V, cell: Cell)
    requires InWindow(ChunkOffset(pos), cell)
    ensures GetChunk(ChunkOffset(pos), cell)
            == Some((cell.0 - ChunkOffset(pos).x.Floor, cell.1 - ChunkOffset(pos).y.Floor))
  {
    var o := ChunkOffset(pos);
    ModInWindow(cell.0, o.x.Floor);
    ModInWindow(cell.1, o.y.Floor);
  }

  lemma ModInWindow(x: int, o: int)
    requires o % 16 == 0 && o <= x < o + 16
    ensures x % 16 == x - o
  {
    var k := o / 16;
    assert o == 16 * k;
    assert x == 16 * k + (x - o);
  }

  /** At a negative, non-integral position the truncated cell can fall
      outside the window: at x = -0.5 the window spans [-16, 0) while
      `V.floor` gives column 0. */
  lemma {:induction false} NegativeHeroOutsideWindow()
    ensures !InWindow(ChunkOffset(V(-0.5, 0.0)), FloorV(V(-0.5, 0.0)))
  {
    var o := ChunkOffset(V(-0.5, 0.0));
    assert FloorV(V(-0.5, 0.0)).0 == 0;
    assert o.x.Floor < 0;
    assert o.x.Floor <= -16 by {
      var k := o.x.Floor / 16;
      assert o.x.Floor == 16 * k;
    }
  }

  /** The window around `pos` contains the cell `pos` truncates to whenever
      `pos` is non-negative. */
  lemma {:induction false} HeroInOwnWindow(pos: V)
    requires pos.x >= 0.0 && pos.y >= 0.0
    ensures InWindow(ChunkOffset(pos), FloorV(pos))
  {
    var o := ChunkOffset(pos);
    var c := FloorV(pos);
    assert c.0 as real <= pos.x < c.0 as real + 1.0;
    assert c.1 as real <= pos.y < c.1 as real + 1.0;
    assert o.x.Floor as real <= pos.x;
    assert o.x.Floor <= c.0;
    assert o.y.Floor <= c.1;
  }
}
