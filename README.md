# adv-jam-2022 grid logic in Dafny

This project models the grid logic underneath the raylib game in `game.py`.

- **Tile map.** The map image's pixels are classified by the colour table `tile_type`, using NONE for any other colour. They are laid out row-major into a `height × width` grid. The single START cell is found, becomes the spawn point and is rewritten to FLOOR. `map_tile` looks cells up with a bounds check.
- **`find_path`.** This is a uniform-cost search over 4-adjacent FLOOR cells.
  - The heap frontier is a sequence of `(cost, (x, y))` entries. It pops the smallest entry in Python's tuple order.
  - The `came_from` and `cost_so_far` dictionaries are maps.
  - Neighbours are tried in the order west, north, east, south.
  - A predecessor is replaced only on a strictly smaller cost.
  - The path is rebuilt by following predecessors from the goal, then reversed.
- **Isometric projection.** `xy_to_iso` and `iso_to_xy` are modelled with `BLOCK_HEIGHT = 16`.
- **Drawn window.** The chunk offset is `(pos // 16) * 16`, and `get_chunk` reduces a cell into the window.
- **Arithmetic of `V`.** The model covers `+`, `-`, `*`, floor division `//`, the modulo `%`, and `floor`. `floor` truncates toward zero through `int()`.

Modules:

| module | file | content |
|---|---|---|
| `Common` | `common.dfy` | `Option` and `Result` |
| `Vec` | `vec.dfy` | `V` and its operators |
| `Iso` | `iso.dfy` | the isometric projection |
| `Chunk` | `chunk.dfy` | the chunk offset and `get_chunk` |
| `TileMap` | `tilemap.dfy` | the colour table, map load and `map_tile` |
| `PathFind` | `pathfind.dfy` | `find_path` |

`find_path` is an imperative `method`.
- It has the source's `while q` loop (`Search`), the inner `for n in neighbors` loop (`ExpandNeighbours`, whose body is `RelaxNeighbour`) and the reconstruction loop (`FollowLinks`).
- The map is a parameter instead of a global.
- Its contract says that it returns `None` exactly when no walk through FLOOR cells leads from `start` to `goal`.
- Otherwise the result is a walk that excludes `start`, ends at `goal`, and is no longer than any other such walk.

The correctness argument rests on `Frontier`, the invariant of the search state:
- every heap entry is current, and its cost is the level last popped or one more;
- every reached cell is either waiting in the heap or already expanded;
- the predecessor links form chains of adjacent FLOOR cells, with the cost dropping by one at each step.

`WalkBound` turns this invariant into the shortest-walk bound by induction on the walk. The loop terminates because the number of unreached FLOOR cells falls, and otherwise the heap shrinks.

Three behaviours of the code are easy to miss, and the model keeps them:
- FIRE cells are not walkable: they fail the FLOOR test at `game.py:260`.
- `find_path(s, s)` returns the empty path `[]`. `came_from[s]` is set at `game.py:244`, and the reconstruction loop's body never runs.
- `iso_to_xy` is not the inverse of `xy_to_iso`: the `+ 1` at `game.py:170` shifts the round trip by 1 in y.

## Model

| member | source | states |
|---|---|---|
| Vec.Add | game.py:32-33 | component-wise addition, undone by subtraction |
| Vec.SubThenAdd | game.py:32-36 | subtracting `b` gives the vector to which `b` must be added to get `a` |
| Vec.Scale | game.py:38-39 | multiplying by a non-zero scalar is undone by dividing each component by it |
| Vec.FloorDiv | game.py:45 | `a // b` is an integral float `q` with `q <= a/b < q+1` |
| Vec.FloorDivV | game.py:44-45 | each component of `v // s` is an integral float `q` with `q <= c/s < q+1` |
| Vec.Mod | game.py:47-48 | `a == b*(a//b) + a%b`; for a positive divisor the remainder lies in `[0, b)` |
| Vec.ModV | game.py:44-48 | per component, `(v // s) * s + v % s == v` |
| Vec.Trunc | game.py:53-54 | `int(r)` rounds toward zero: it is within 1 of `r` on the side of 0 |
| Vec.FloorV | game.py:53-54 | `V.floor` agrees with `// 1` on non-negative coordinates |
| Vec.FloorDiffersFromFloorDiv | game.py:44-54 | at `(-0.5, 2)`, `floor` gives `(0, 2)` while `// 1` gives `(-1, 2)` |
| Vec.TruncOfNegative | game.py:53-54 | for every negative, non-integral coordinate, truncation is one above the floor |
| Iso.XyToIso | game.py:164-165 | grid `(x, y)` goes to screen `(16(x-y), 8(x+y))` |
| Iso.IsoToXy | game.py:168-170 | projecting the result forward gives the input shifted by `(-16, +8)`, one cell along +y |
| Iso.IsoRoundTrip | game.py:164-170 | `iso_to_xy(xy_to_iso((x, y))) == (x, y + 1)` for every position |
| Iso.IsoSteps | game.py:165 | a +1 step in x moves `(16, 8)` on screen; a +1 step in y moves `(-16, 8)` |
| Chunk.ChunkOffset | game.py:302 | each component of `(pos // 16) * 16` is an integral multiple of 16 with `o <= pos < o + 16` |
| Chunk.GetChunk | game.py:326-330 | the assertions hold exactly when the cell lies in the 16×16 window; the result lies in `[0,16)²` |
| Chunk.ChunkLocal | game.py:326-330 | for the window around any position, every cell in it reduces to the cell minus the offset |
| Chunk.ModInWindow | game.py:330 | for a multiple of 16 `o` and `o <= x < o+16`, `x % 16 == x - o` |
| Chunk.HeroInOwnWindow | game.py:302 | with non-negative coordinates, the hero's truncated cell lies in its own window |
| Chunk.NegativeHeroOutsideWindow | game.py:302 | at x = -0.5 the window is `[-16, 0)`, but `V.floor` gives column 0, which lies outside it |
| TileMap.TileOf | game.py:133-147 | exactly the three listed RGBA tuples map to START, FIRE and FLOOR; every other colour is NONE |
| TileMap.Classify | game.py:142-149 | each classified tile is the colour table applied to its own pixel |
| TileMap.Rows | game.py:142-151 | the reshaped map has `height` rows of `width` tiles |
| TileMap.PixelPlacement | game.py:142-151 | pixel `i` lands at row `i / width`, column `i % width` |
| TileMap.CellPlacement | game.py:142-151 | cell `(x, y)` holds the class of pixel `y*width + x` |
| TileMap.RowStarts | game.py:152 | lists exactly one row's START cells, in increasing column order |
| TileMap.StartCells | game.py:152 | `np.where` lists exactly the START cells of the map, in row-major order |
| TileMap.LoadCount | game.py:152 | there is exactly one START cell exactly when exactly one pixel has the START colour |
| TileMap.Load | game.py:142-154 | loading succeeds iff exactly one pixel is START. On success the spawn cell is that pixel's cell and holds FLOOR, no START remains, and every other cell is its pixel's class |
| TileMap.LoadedLevel | game.py:152-154 | rewriting the single START cell to FLOOR gives a level with the properties `Load` promises |
| TileMap.MapTile | game.py:158-161 | off the map `map_tile` is NONE; on the map it is the stored cell |
| TileMap.MapTileAfterLoad | game.py:152-161 | after a load, `map_tile` gives FLOOR at the spawn, the pixel's class at every other in-map cell, and NONE off the map |
| PathFind.EntryLeAntisymmetric | game.py:248 | the tuple order on heap entries is antisymmetric, so the popped entry is determined by the heap's contents |
| PathFind.PopDetermined | game.py:248 | whatever the heap's list layout, `heappop` returns the one entry at or below all others |
| PathFind.MinIndex | game.py:248 | finds an entry that is no larger than any other |
| PathFind.HeapPop | game.py:248 | `heappop` returns the smallest entry and leaves exactly the other entries |
| PathFind.Neighbours | game.py:252-257 | four neighbours, which are exactly the cells one step away |
| PathFind.WalkBound | game.py:247-265 | along any walk from the start, the end is reached with a cost at most the walk's length, or a cheaper entry is still in the heap |
| PathFind.PopStep | game.py:247-248 | popping the smallest entry keeps the search invariant, with the popped cost as the new level and its cell under expansion |
| PathFind.RelaxStep | game.py:259-265 | giving a new FLOOR neighbour cost+1, a heap entry and the current cell as predecessor keeps the search invariant |
| PathFind.ExpandDone | game.py:259-265 | once every FLOOR neighbour has a cost at most one more, the cell counts as expanded |
| PathFind.HandledExtends | game.py:259 | after one more loop iteration, every neighbour so far has been dealt with |
| PathFind.RelaxNeighbour | game.py:260-265 | a FLOOR neighbour not yet reached gets cost+1, a heap entry and `current` as predecessor. A reached or non-FLOOR neighbour changes nothing, so an existing predecessor is kept. The search invariant is kept |
| PathFind.Discovered | game.py:259-263 | the cells the loop adds are exactly the neighbours that are FLOOR and not yet reached |
| PathFind.GrownStep | game.py:259-265 | one more iteration extends the loop's new-state relation by the next neighbour; distinct neighbours make the outcome depend only on the state before the loop |
| PathFind.ExpandNeighbours | game.py:252-265 | gives the whole new state. Exactly the FLOOR neighbours not reached before are now reached, each at cost+1 with `current` as predecessor. Their heap entries are appended in west, north, east, south order. Every earlier cost and predecessor is kept. `current` is expanded, keeping the search invariant |
| PathFind.FewerUnreached | game.py:262-263 | reaching a new cell leaves strictly fewer unreached cells, which bounds the search loop |
| PathFind.Reversed | game.py:276 | `reverse` puts element `i` at position `len-1-i` |
| PathFind.ChainExtends | game.py:272-274 | appending the next predecessor keeps the chain adjacent, FLOOR and free of `start` |
| PathFind.ChainIsWalk | game.py:270-276 | the reversed predecessor chain, led by the start, is a walk from start to goal |
| PathFind.FollowLinks | game.py:270-277 | rebuilding from the predecessors gives a walk from start to goal of length equal to the goal's cost, without the start |
| PathFind.Exhausted | game.py:247 | when the heap empties, every reachable cell is reached with a cost no larger than any walk to it |
| PathFind.GoalPopped | game.py:248-250 | when the goal's entry is popped, its cost is no larger than any walk to it |
| PathFind.Search | game.py:239-265 | the search loop ends with well-formed predecessor links. If any walk reaches the goal, the goal is reached, and its cost is no larger than the length of any walk to it |
| PathFind.FindPath | game.py:238-277 | `find_path(s, s)` is `[]`. The result is `None` iff no walk of 4-adjacent FLOOR cells leads from `s` to `g`, so a non-FLOOR goal other than `s` gives `None`. Otherwise the path excludes `s`, ends at `g`, steps between adjacent FLOOR cells, and is no longer than any walk from `s` to `g` |

## Left out

- PathFind.FindPath: the contract does not say which shortest path is returned when several exist. That choice depends on the neighbour order and on the heap's tie-breaking, which are modelled in the body but not stated.
- The heap's internal list layout is not modelled. The heap is a sequence whose pop removes the minimum, which is all `find_path` observes. Pushes append.
- `list.reverse` reverses the path in place; here the reconstruction builds the reversed sequence as a value.
- The in-place write `maparr[y][x] = FLOOR` is a value update of the rows, because nothing else holds the array during loading.
- Chunk.GetChunk: `get_chunk`'s `assert` statements (game.py:328-329) raise `AssertionError` for a cell outside the window. The model returns `None` instead.
- Map loading raises an exception when the START count is not one. The model returns `Err(StartCount(n))` instead.
- Image and texture loading (`rl.load_image`, `rl.load_image_colors`) are I/O. The model starts from the pixel sequence and the image size.
- `walk_path` (game.py:213-235) is not modelled. It is floating-point motion with `sqrt`, frame-time steps and a snap threshold.
- `highlight_tile` (game.py:193-210) is not modelled. It is driven by the wall clock and only draws.
- The `ui_coros` resume/remove loop (game.py:355-359) and the `hero_action` generator are not modelled. They are scheduling driven by real time. In that loop, `ui_coros.remove` runs during the iteration, so the coroutine after a removed one is skipped that frame.
- Rendering, the camera, `iso_mouse_pos`, keyboard nudges, `SpriteSheet`, `draw_grid_tile` and the draw-call sort are not modelled. They are raylib calls and input.
- wrapper.py is not part of this model. It is the window and hot-reload host.
- Floats are modelled as exact reals. Rounding of binary floating point is not captured, although every constant used here (16, 8, 0.5 steps) is exact in binary.
- `V.__eq__`, `__getitem__` and `__hash__` are not modelled separately. Positions and vectors are Dafny values with structural equality.
- The `int8` dtype of `maparr` is not modelled; tile types are a datatype.
