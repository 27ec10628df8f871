/** `find_path` of game.py: a uniform-cost search over the 4-connected grid
    of FLOOR cells, with a binary heap as frontier and the predecessor
    (`came_from`) and cost (`cost_so_far`) dictionaries. */
module PathFind {
  import opened Common
  import opened TileMap

  /** A heap entry `(cost, (x, y))`. */
  type Entry = (int, Pos)

  /** Python's order on heap entries: by cost, then by x, then by y. */
  predicate EntryLe(a: Entry, b: Entry)
  {
    a.0 < b.0 || (a.0 == b.0 && (a.1.0 < b.1.0 || (a.1.0 == b.1.0 && a.1.1 <= b.1.1)))
  }

  /** The order is antisymmetric, so the smallest entry of a heap is unique
      and `heappop` is determined by the heap's contents alone. */
  lemma EntryLeAntisymmetric(a: Entry, b: Entry)
    requires EntryLe(a, b) && EntryLe(b, a)
    ensures a == b
  {
  }

  /** The position of a smallest entry. */
  function MinIndex(q: seq<Entry>): (i: nat)
    requires |q| > 0
    ensures i < |q|
    ensures forall j :: 0 <= j < |q| ==> EntryLe(q[i], q[j])
  {
    if |q| == 1 then 0
    else
      var k := MinIndex(q[1..]) + 1;
      if EntryLe(q[0], q[k]) then 0 else k
  }

  /** `heappop` is determined by the heap's contents: whatever the layout
      of the list, it returns the one entry that is at or below all others. */
  lemma PopDetermined(q: seq<Entry>, e: Entry)
    requires e in q && forall f :: f in q ==> EntryLe(e, f)
    ensures HeapPop(q).0 == e
  {
    var m := HeapPop(q).0;
    assert m in q;
    EntryLeAntisymmetric(m, e);
  }

  /** `heapq.heappop`: the smallest entry and the remaining entries. */
  function HeapPop(q: seq<Entry>): (r: (Entry, seq<Entry>))
    requires |q| > 0
    ensures multiset(q) == multiset(r.1) + multiset{r.0}
    ensures forall e :: e in q <==> e == r.0 || e in r.1
    ensures forall e :: e in q ==> EntryLe(r.0, e)
  {
    var i := MinIndex(q);
    assert q == q[..i] + [q[i]] + q[i + 1..];
    (q[i], q[..i] + q[i + 1..])
  }

  /** The neighbours of `p` in the order the search tries them: west,
      north, east, south. They are exactly the cells adjacent to `p`. */
  function Neighbours(p: Pos): (ns: seq<Pos>)
    ensures |ns| == 4
    ensures forall n :: n in ns <==> Adjacent(p, n)
    ensures forall i, j :: 0 <= i < j < |ns| ==> ns[i] != ns[j]
  {
    [(p.0 - 1, p.1), (p.0, p.1 - 1), (p.0 + 1, p.1), (p.0, p.1 + 1)]
  }

  /** One step on the grid: exactly one coordinate changes, by exactly 1. */
  predicate Adjacent(p: Pos, q: Pos)
  {
    (p.0 == q.0 && (p.1 - q.1 == 1 || q.1 - p.1 == 1))
    || (p.1 == q.1 && (p.0 - q.0 == 1 || q.0 - p.0 == 1))
  }

  /** The search only enters FLOOR cells; FIRE, NONE and cells off the map
      are walls. */
  predicate Walkable(g: Grid, p: Pos)
    requires g.Valid()
  {
    MapTile(g, p) == Floor
  }

  /** `w` walks from `s` to `t` through adjacent FLOOR cells (`s` itself
      need not be FLOOR). */
  ghost predicate IsWalk(g: Grid, w: seq<Pos>, s: Pos, t: Pos)
    requires g.Valid()
  {
    |w| > 0 && w[0] == s && w[|w| - 1] == t
    && forall i :: 0 < i < |w| ==> Adjacent(w[i - 1], w[i]) && Walkable(g, w[i])
  }

  ghost predicate Reachable(g: Grid, s: Pos, t: Pos)
    requires g.Valid()
  {
    exists w :: IsWalk(g, w, s, t)
  }

  /** The FLOOR cells of the map: a finite set. */
  ghost function FloorCells(g: Grid): set<Pos>
    requires g.Valid()
  {
    set x, y | 0 <= x < g.width && 0 <= y < g.height && g.rows[y][x] == Floor :: (x, y)
  }

  lemma WalkableInFloorCells(g: Grid, p: Pos)
    requires g.Valid() && Walkable(g, p)
    ensures p in FloorCells(g)
  {
    var (x, y) := p;
    assert 0 <= x < g.width && 0 <= y < g.height && g.rows[y][x] == Floor;
  }

  /** Every walkable neighbour of `p` has been given a cost at most one more
      than `p`'s: `p` has been expanded with its present cost. */
  ghost predicate Relaxed(g: Grid, cost: map<Pos, int>, p: Pos)
    requires g.Valid() && p in cost
  {
    forall n {:trigger n in Neighbours(p)} :: n in Neighbours(p) && Walkable(g, n) ==>
      n in cost && cost[n] <= cost[p] + 1
  }

  /** The predecessor links: every reached cell but the start has a reached
      predecessor next to it whose cost is one less, and is FLOOR. */
  ghost predicate Links(g: Grid, start: Pos, cost: map<Pos, int>, came: map<Pos, Option<Pos>>)
    requires g.Valid()
  {
    start in cost && cost[start] == 0 && came.Keys == cost.Keys && came[start] == None
    && (forall p :: p in cost ==> cost[p] >= 0)
    && forall p {:trigger came[p]} :: p in came && p != start ==>
         came[p].Some? && came[p].value in cost && Adjacent(came[p].value, p)
         && Walkable(g, p) && cost[came[p].value] + 1 == cost[p]
  }

  /** The search state at the top of the loop. `level` is the cost of the
      entry popped last: every heap entry costs `level` or `level + 1` and
      is up to date, no cost exceeds `level + 1`, and every reached cell is
      waiting in the heap or has been expanded (except those in `pending`,
      which is the cell being expanded right now). */
  ghost predicate Frontier(g: Grid, start: Pos, q: seq<Entry>, cost: map<Pos, int>,
                           came: map<Pos, Option<Pos>>, level: int, pending: set<Pos>)
    requires g.Valid()
  {
    Links(g, start, cost, came) && level >= 0
    && (forall e {:trigger e in q} :: e in q ==> e.1 in cost && cost[e.1] == e.0 && level <= e.0 <= level + 1)
    && (forall p {:trigger p in cost} :: p in cost ==> 0 <= cost[p] <= level + 1)
    && (forall p {:trigger p in cost} :: p in cost ==> p in pending || (cost[p], p) in q || Relaxed(g, cost, p))
  }

  /** The heart of the correctness argument: along any walk from the start,
      either the end has been reached with a cost no larger than the walk's
      length, or the heap holds an entry cheaper than that length. */
  lemma {:induction false} WalkBound(g: Grid, start: Pos, q: seq<Entry>, cost: map<Pos, int>,
                                     came: map<Pos, Option<Pos>>, level: int, w: seq<Pos>, t: Pos)
    requires g.Valid()
    requires Frontier(g, start, q, cost, came, level, {})
    requires IsWalk(g, w, start, t)
    ensures (t in cost && cost[t] <= |w| - 1) || (exists e :: e in q && e.0 <= |w| - 2)
    decreases |w|
  {
    if |w| > 1 {
      var v := w[..|w| - 1];
      var p := w[|w| - 2];
      assert IsWalk(g, v, start, p);
      WalkBound(g, start, q, cost, came, level, v, p);
      if p in cost && cost[p] <= |v| - 1 && (cost[p], p) !in q {
        assert Adjacent(p, t) && Walkable(g, t);
        assert t in Neighbours(p);
      }
    }
  }

  /** Popping the smallest entry starts the expansion of its cell: the
      popped cost becomes the new level. */
  lemma PopStep(g: Grid, start: Pos, q: seq<Entry>, cost: map<Pos, int>,
                came: map<Pos, Option<Pos>>, level: int)
    requires g.Valid() && |q| > 0
    requires Frontier(g, start, q, cost, came, level, {})
    ensures var (e, rest) := HeapPop(q);
            Frontier(g, start, rest, cost, came, e.0, {e.1}) && e.1 in cost && cost[e.1] == e.0
  {
    var (e, rest) := HeapPop(q);
    assert e in q;
    forall p | p in cost
      ensures p == e.1 || (cost[p], p) in rest || Relaxed(g, cost, p)
    {
      if (cost[p], p) in q && p != e.1 {
        assert (cost[p], p) in rest;
      }
    }
  }

  /** Giving a newly found FLOOR neighbour `n` of the expanded cell `c` the
      cost `level + 1`, a heap entry and `c` as predecessor keeps the search
      state. */
  lemma RelaxStep(g: Grid, start: Pos, q: seq<Entry>, cost: map<Pos, int>,
                  came: map<Pos, Option<Pos>>, level: int, c: Pos, n: Pos)
    requires g.Valid()
    requires Frontier(g, start, q, cost, came, level, {c})
    requires c in cost && cost[c] == level && Adjacent(c, n) && Walkable(g, n) && n !in cost
    ensures Frontier(g, start, q + [(level + 1, n)], cost[n := level + 1], came[n := Some(c)], level, {c})
  {
    var q', cost', came' := q + [(level + 1, n)], cost[n := level + 1], came[n := Some(c)];
    assert Links(g, start, cost', came');
    forall p | p in cost'
      ensures p in {c} || (cost'[p], p) in q' || Relaxed(g, cost', p)
    {
      if p != n && p != c && (cost[p], p) !in q {
        assert Relaxed(g, cost, p);
      }
    }
  }

  /** Once every walkable neighbour of `c` is reached within one step of
      `c`'s cost, `c` is expanded and nothing is pending. */
  lemma ExpandDone(g: Grid, start: Pos, q: seq<Entry>, cost: map<Pos, int>,
                   came: map<Pos, Option<Pos>>, level: int, c: Pos)
    requires g.Valid()
    requires Frontier(g, start, q, cost, came, level, {c})
    requires c in cost && cost[c] == level
    requires forall n :: n in Neighbours(c) && Walkable(g, n) ==> n in cost && cost[n] <= level + 1
    ensures Frontier(g, start, q, cost, came, level, {})
  {
    assert Relaxed(g, cost, c);
  }

  /** The elements of `s` in reverse order (`list.reverse`). */
  function Reversed(s: seq<Pos>): (r: seq<Pos>)
    ensures |r| == |s|
    ensures forall i :: 0 <= i < |s| ==> r[i] == s[|s| - 1 - i]
  {
    if |s| == 0 then [] else [s[|s| - 1]] + Reversed(s[..|s| - 1])
  }

  /** The goal-to-start chain, reversed and led by the start, is a walk. */
  lemma {:induction false} ChainIsWalk(g: Grid, start: Pos, goal: Pos, chain: seq<Pos>)
    requires g.Valid()
    requires |chain| == 0 ==> start == goal
    requires |chain| > 0 ==> chain[0] == goal && Adjacent(start, chain[|chain| - 1])
    requires forall i :: 0 < i < |chain| ==> Adjacent(chain[i], chain[i - 1])
    requires forall i :: 0 <= i < |chain| ==> Walkable(g, chain[i])
    ensures IsWalk(g, [start] + Reversed(chain), start, goal)
  {
    var w := [start] + Reversed(chain);
    forall i | 0 < i < |w|
      ensures Adjacent(w[i - 1], w[i]) && Walkable(g, w[i])
    {
      assert w[i] == chain[|chain| - i];
      if i > 1 {
        assert w[i - 1] == chain[|chain| - i + 1];
      }
    }
  }

  /** Reaching one more cell leaves one fewer cell of the universe unreached. */
  lemma FewerUnreached(universe: set<Pos>, before: set<Pos>, after: set<Pos>)
    requires before <= after <= universe && before != after
    ensures |universe - after| < |universe - before|
  {
    var n :| n in after && n !in before;
    var d, e := universe - before, universe - after;
    var rest := d - {n};
    assert e <= rest;
    assert |rest| == |d| - 1;
    assert rest == e + (rest - e) && e * (rest - e) == {};
  }

  /** Neighbour `n` of the cell `current` being expanded has been dealt
      with: if it is FLOOR, it has a cost at most one more than `current`'s. */
  ghost predicate Handled(g: Grid, cost: map<Pos, int>, current: Pos, n: Pos)
    requires g.Valid() && current in cost
  {
    Walkable(g, n) ==> n in cost && cost[n] <= cost[current] + 1
  }

  /** One more neighbour handled, none of the earlier ones undone. */
  lemma HandledExtends(g: Grid, before: map<Pos, int>, after: map<Pos, int>, current: Pos, ns: seq<Pos>, i: nat)
    requires g.Valid() && current in before && current in after && i < |ns|
    requires forall j :: 0 <= j < i ==> Handled(g, before, current, ns[j])
    requires forall m {:trigger Handled(g, before, current, m)} ::
              Handled(g, before, current, m) ==> Handled(g, after, current, m)
    requires Handled(g, after, current, ns[i])
    ensures forall j :: 0 <= j < i + 1 ==> Handled(g, after, current, ns[j])
  {
  }

  /** The body of the `for n in neighbors` loop of `find_path`: a FLOOR
      neighbour not reached yet (or reachable more cheaply) gets the cost
      `cost_so_far[current] + 1`, a heap entry and `current` as predecessor.
      With unit steps a reached cell never gets cheaper, so only unreached
      cells are added, and if none is added nothing changes. */
  method RelaxNeighbour(g: Grid, current: Pos, n: Pos, q: seq<Entry>, cost: map<Pos, int>,
                        came: map<Pos, Option<Pos>>, ghost start: Pos, ghost level: int)
    returns (q': seq<Entry>, cost': map<Pos, int>, came': map<Pos, Option<Pos>>)
    requires g.Valid() && Adjacent(current, n)
    requires Frontier(g, start, q, cost, came, level, {current})
    requires current in cost && cost[current] == level
    ensures Frontier(g, start, q', cost', came', level, {current})
    ensures current in cost' && cost'[current] == level
    ensures Handled(g, cost', current, n)
    ensures forall m {:trigger Handled(g, cost, current, m)} ::
              Handled(g, cost, current, m) ==> Handled(g, cost', current, m)
    ensures cost.Keys <= cost'.Keys <= cost.Keys + FloorCells(g)
    ensures cost'.Keys == cost.Keys ==> q' == q
    ensures !Walkable(g, n) || n in cost ==> q' == q && cost' == cost && came' == came
    ensures Walkable(g, n) && n !in cost ==>
              q' == q + [(level + 1, n)] && cost' == cost[n := level + 1] && came' == came[n := Some(current)]
  {
    q', cost', came' := q, cost, came;
    if MapTile(g, n) == Floor {
      var newCost := cost[current] + 1;
      if n !in cost || newCost < cost[n] {
        WalkableInFloorCells(g, n);
        RelaxStep(g, start, q, cost, came, level, current, n);
        cost' := cost[n := newCost];
        q' := q + [(newCost, n)];
        came' := came[n := Some(current)];
      }
    }
  }

  /** The cells of `ns`, in order, that are FLOOR and not yet reached: the
      ones the `for n in neighbors` loop adds. */
  function Discovered(g: Grid, cost: map<Pos, int>, ns: seq<Pos>): (d: seq<Pos>)
    requires g.Valid()
    ensures forall k :: k in d <==> k in ns && Walkable(g, k) && k !in cost
  {
    if |ns| == 0 then []
    else
      var n := ns[|ns| - 1];
      Discovered(g, cost, ns[..|ns| - 1]) + (if Walkable(g, n) && n !in cost then [n] else [])
  }

  /** The heap entries `heappush` adds for `cells`, all at cost `c`, in order. */
  function Pushed(c: int, cells: seq<Pos>): (es: seq<Entry>)
    ensures |es| == |cells|
    ensures forall j :: 0 <= j < |cells| ==> es[j] == (c, cells[j])
  {
    if |cells| == 0 then [] else Pushed(c, cells[..|cells| - 1]) + [(c, cells[|cells| - 1])]
  }

  /** The state after expanding `current` at cost `level`, given the cells
      `d` it discovered: exactly `d` is reached in addition, each at cost
      `level + 1` with `current` as predecessor, every earlier cost and
      predecessor is kept, and the heap gained the entries for `d` in order. */
  ghost predicate Grown(current: Pos, level: int, q: seq<Entry>, cost: map<Pos, int>,
                        came: map<Pos, Option<Pos>>, d: seq<Pos>,
                        q': seq<Entry>, cost': map<Pos, int>, came': map<Pos, Option<Pos>>)
  {
    (forall k {:trigger k in cost'} :: k in cost' <==> k in cost || k in d)
    && (forall k {:trigger k in cost} :: k in cost ==>
          k in cost' && k in came && k in came' && cost'[k] == cost[k] && came'[k] == came[k])
    && (forall k {:trigger k in d} :: k in d ==>
          k in cost' && k in came' && cost'[k] == level + 1 && came'[k] == Some(current))
    && q' == q + Pushed(level + 1, d)
  }

  lemma DiscoveredStep(g: Grid, cost: map<Pos, int>, ns: seq<Pos>, i: nat)
    requires g.Valid() && i < |ns|
    ensures Discovered(g, cost, ns[..i + 1])
            == Discovered(g, cost, ns[..i]) + (if Walkable(g, ns[i]) && ns[i] !in cost then [ns[i]] else [])
  {
    assert ns[..i + 1][..i] == ns[..i];
  }

  lemma PushedStep(c: int, d: seq<Pos>, n: Pos)
    ensures Pushed(c, d + [n]) == Pushed(c, d) + [(c, n)]
  {
    assert (d + [n])[..|d|] == d;
  }

  /** Reaching one more cell `n` at `level + 1` from `current` extends `Grown` by `n`. */
  lemma GrownAdd(current: Pos, level: int, q: seq<Entry>, cost: map<Pos, int>,
                 came: map<Pos, Option<Pos>>, d: seq<Pos>, n: Pos,
                 q1: seq<Entry>, cost1: map<Pos, int>, came1: map<Pos, Option<Pos>>)
    requires Grown(current, level, q, cost, came, d, q1, cost1, came1) && n !in cost && n !in d
    ensures Grown(current, level, q, cost, came, d + [n], q1 + [(level + 1, n)],
                  cost1[n := level + 1], came1[n := Some(current)])
  {
    PushedStep(level + 1, d, n);
  }

  /** One more iteration of the neighbour loop extends `Grown` by the next
      neighbour. The neighbours are distinct, so whether `ns[i]` has been
      reached is decided by the state before the loop. */
  lemma GrownStep(g: Grid, current: Pos, level: int, q: seq<Entry>, cost: map<Pos, int>,
                  came: map<Pos, Option<Pos>>, ns: seq<Pos>, i: nat,
                  q1: seq<Entry>, cost1: map<Pos, int>, came1: map<Pos, Option<Pos>>,
                  q2: seq<Entry>, cost2: map<Pos, int>, came2: map<Pos, Option<Pos>>)
    requires g.Valid() && i < |ns|
    requires forall a, b :: 0 <= a < b < |ns| ==> ns[a] != ns[b]
    requires Grown(current, level, q, cost, came, Discovered(g, cost, ns[..i]), q1, cost1, came1)
    requires !Walkable(g, ns[i]) || ns[i] in cost1 ==> q2 == q1 && cost2 == cost1 && came2 == came1
    requires Walkable(g, ns[i]) && ns[i] !in cost1 ==>
               q2 == q1 + [(level + 1, ns[i])] && cost2 == cost1[ns[i] := level + 1]
               && came2 == came1[ns[i] := Some(current)]
    ensures Grown(current, level, q, cost, came, Discovered(g, cost, ns[..i + 1]), q2, cost2, came2)
  {
    var n := ns[i];
    var d := Discovered(g, cost, ns[..i]);
    DiscoveredStep(g, cost, ns, i);
    assert n !in d by {
      forall a | 0 <= a < i
        ensures ns[..i][a] != n
      {
        assert ns[..i][a] == ns[a];
      }
    }
    assert n in cost1 <==> n in cost;
    if Walkable(g, n) && n !in cost {
      assert Discovered(g, cost, ns[..i + 1]) == d + [n];
      GrownAdd(current, level, q, cost, came, d, n, q1, cost1, came1);
    } else {
      assert Discovered(g, cost, ns[..i + 1]) == d;
      assert q2 == q1 && cost2 == cost1 && came2 == came1;
    }
  }

  /** The `for n in neighbors` loop of `find_path`: exactly the FLOOR
      neighbours not reached before are reached now, at `level + 1` with
      `current` as predecessor and pushed in west, north, east, south order;
      everything reached before keeps its cost and predecessor; and
      `current` is expanded. */
  method ExpandNeighbours(g: Grid, current: Pos, q: seq<Entry>, cost: map<Pos, int>,
                          came: map<Pos, Option<Pos>>, ghost start: Pos, ghost level: int)
    returns (q': seq<Entry>, cost': map<Pos, int>, came': map<Pos, Option<Pos>>)
    requires g.Valid()
    requires Frontier(g, start, q, cost, came, level, {current})
    requires current in cost && cost[current] == level
    ensures Frontier(g, start, q', cost', came', level, {})
    ensures Grown(current, level, q, cost, came, Discovered(g, cost, Neighbours(current)), q', cost', came')
    ensures cost.Keys <= cost'.Keys <= cost.Keys + FloorCells(g)
    ensures cost'.Keys == cost.Keys ==> q' == q
  {
    q', cost', came' := q, cost, came;
    var neighbors := Neighbours(current);
    assert neighbors[..0] == [];
    for i := 0 to |neighbors|
      invariant Frontier(g, start, q', cost', came', level, {current})
      invariant current in cost' && cost'[current] == level
      invariant forall j :: 0 <= j < i ==> Handled(g, cost', current, neighbors[j])
      invariant Grown(current, level, q, cost, came, Discovered(g, cost, neighbors[..i]), q', cost', came')
      invariant cost.Keys <= cost'.Keys <= cost.Keys + FloorCells(g)
      invariant cost'.Keys == cost.Keys ==> q' == q
    {
      ghost var q1, cost1, came1 := q', cost', came';
      q', cost', came' := RelaxNeighbour(g, current, neighbors[i], q', cost', came', start, level);
      HandledExtends(g, cost1, cost', current, neighbors, i);
      GrownStep(g, current, level, q, cost, came, neighbors, i, q1, cost1, came1, q', cost', came');
    }
    assert neighbors[..|neighbors|] == neighbors;
    forall n | n in Neighbours(current) && Walkable(g, n)
      ensures n in cost' && cost'[n] <= level + 1
    {
      assert Handled(g, cost', current, n);
    }
    ExpandDone(g, start, q', cost', came', level, current);
  }

  /** Appending a FLOOR cell other than `start` that is adjacent to the
      chain's last cell keeps the chain linked. */
  lemma ChainExtends(g: Grid, start: Pos, chain: seq<Pos>, c: Pos)
    requires g.Valid() && c != start && Walkable(g, c)
    requires |chain| > 0 ==> Adjacent(c, chain[|chain| - 1])
    requires forall i :: 0 <= i < |chain| ==> chain[i] != start && Walkable(g, chain[i])
    requires forall i :: 0 < i < |chain| ==> Adjacent(chain[i], chain[i - 1])
    ensures forall i :: 0 <= i < |chain| + 1 ==> (chain + [c])[i] != start && Walkable(g, (chain + [c])[i])
    ensures forall i :: 0 < i < |chain| + 1 ==> Adjacent((chain + [c])[i], (chain + [c])[i - 1])
  {
  }

  /** The reconstruction loop of `find_path`: follow the predecessors from
      `goal` back to `start`, then reverse. The result is a walk from
      `start` to `goal` whose length is the goal's cost and which does not
      revisit `start`. */
  method FollowLinks(g: Grid, start: Pos, goal: Pos, cost: map<Pos, int>, came: map<Pos, Option<Pos>>)
    returns (path: seq<Pos>)
    requires g.Valid() && Links(g, start, cost, came) && goal in came
    ensures IsWalk(g, [start] + path, start, goal)
    ensures |path| == cost[goal] && start !in path
  {
    var chain: seq<Pos> := [];
    var current := goal;
    while current != start
      invariant current in cost
      invariant |chain| + cost[current] == cost[goal]
      invariant forall i :: 0 <= i < |chain| ==> chain[i] != start && Walkable(g, chain[i])
      invariant |chain| == 0 ==> current == goal
      invariant |chain| > 0 ==> chain[0] == goal && Adjacent(current, chain[|chain| - 1])
      invariant forall i :: 0 < i < |chain| ==> Adjacent(chain[i], chain[i - 1])
      decreases cost[current]
    {
      ChainExtends(g, start, chain, current);
      chain := chain + [current];
      current := came[current].value;
    }
    ChainIsWalk(g, start, goal, chain);
    path := Reversed(chain);
  }

  /** The search has settled `goal`: it is reached if any walk leads to it,
      and then with a cost no larger than the length of any such walk. */
  ghost predicate Settled(g: Grid, start: Pos, goal: Pos, cost: map<Pos, int>)
    requires g.Valid()
  {
    (Reachable(g, start, goal) ==> goal in cost)
    && (goal in cost ==> forall w :: IsWalk(g, w, start, goal) ==> cost[goal] <= |w| - 1)
  }

  /** When the heap runs dry, every reachable cell has been reached by a
      shortest walk. */
  lemma Exhausted(g: Grid, start: Pos, goal: Pos, cost: map<Pos, int>,
                  came: map<Pos, Option<Pos>>, level: int)
    requires g.Valid() && Frontier(g, start, [], cost, came, level, {})
    ensures Settled(g, start, goal, cost)
  {
    forall w | IsWalk(g, w, start, goal)
      ensures goal in cost && cost[goal] <= |w| - 1
    {
      WalkBound(g, start, [], cost, came, level, w, goal);
    }
  }

  /** When the goal's entry is the smallest in the heap, its cost is final:
      no walk to it is shorter. */
  lemma GoalPopped(g: Grid, start: Pos, goal: Pos, q: seq<Entry>, cost: map<Pos, int>,
                   came: map<Pos, Option<Pos>>, level: int)
    requires g.Valid() && |q| > 0 && Frontier(g, start, q, cost, came, level, {})
    requires HeapPop(q).0.1 == goal
    ensures goal in cost && Settled(g, start, goal, cost)
  {
    var e := HeapPop(q).0;
    assert e in q;
    forall w | IsWalk(g, w, start, goal)
      ensures cost[goal] <= |w| - 1
    {
      WalkBound(g, start, q, cost, came, level, w, goal);
    }
  }

  /** The `while q` loop of `find_path`: it returns `cost_so_far` and
      `came_from` once the goal is popped or the heap runs dry. The links
      are well formed and the goal is settled. */
  method Search(g: Grid, start: Pos, goal: Pos)
    returns (costSoFar: map<Pos, int>, cameFrom: map<Pos, Option<Pos>>)
    requires g.Valid()
    ensures Links(g, start, costSoFar, cameFrom)
    ensures Settled(g, start, goal, costSoFar)
  {
    var q: seq<Entry> := [(0, start)];
    cameFrom := map[start := None];
    costSoFar := map[start := 0];
    ghost var level := 0;
    ghost var universe := FloorCells(g) + {start};

    while |q| > 0
      invariant Frontier(g, start, q, costSoFar, cameFrom, level, {})
      invariant costSoFar.Keys <= universe
      decreases |universe - costSoFar.Keys|, |q|
    {
      ghost var keys0 := costSoFar.Keys;
      PopStep(g, start, q, costSoFar, cameFrom, level);
      var popped := HeapPop(q);
      var current := popped.0.1;
      if current == goal {
        GoalPopped(g, start, goal, q, costSoFar, cameFrom, level);
        return;
      }
      q := popped.1;
      level := popped.0.0;
      q, costSoFar, cameFrom := ExpandNeighbours(g, current, q, costSoFar, cameFrom, start, level);
      if costSoFar.Keys != keys0 {
        FewerUnreached(universe, keys0, costSoFar.Keys);
      }
    }
    Exhausted(g, start, goal, costSoFar, cameFrom, level);
  }

  /** `find_path(start, goal)`: `None` exactly when no walk leads from `start`
      to `goal`; otherwise the cells after `start` up to and including
      `goal`, forming a shortest such walk. */
  method FindPath(g: Grid, start: Pos, goal: Pos) returns (path: Option<seq<Pos>>)
    requires g.Valid()
    ensures start == goal ==> path == Some([])
    ensures path.None? <==> !Reachable(g, start, goal)
    ensures start != goal && !Walkable(g, goal) ==> path.None?
    ensures path.Some? ==> IsWalk(g, [start] + path.value, start, goal) && start !in path.value
    ensures path.Some? ==> forall w :: IsWalk(g, w, start, goal) ==> |path.value| <= |w| - 1
  {
    var costSoFar, cameFrom := Search(g, start, goal);
    if goal !in cameFrom {
      return None;
    }
    var p := FollowLinks(g, start, goal, costSoFar, cameFrom);
    assert IsWalk(g, [start] + p, start, goal);
    path := Some(p);
  }
}
