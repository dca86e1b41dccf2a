/**
 The sign-in terrain's drainage (frontend/scripts/sign_in_terrain.py, `flow`).

 A heap floods the grid from its border: each cell is given a height once, the
 first time a lower neighbour is popped. The theorems here say what the heap
 order buys: the surface is the least one that drains everywhere, and the
 directions read from it lead every cell off the map.
 */
module PriorityFlood {
  import opened Common

  datatype Cell = Cell(y: int, x: int)

  /** A heap entry; Python compares them as tuples. */
  datatype Entry = Entry(z: real, y: int, x: int)

  /** Heights of cells. While flooding, a cell not yet seen (`np.inf` in the array) is absent. */
  type Surface = map<Cell, real>

  const RISE := 0.001
  const MARGIN := 0.000000001
  const OUTLET: nat := 255

  // ------------------------------------------------------------------ the grid

  predicate InGrid(H: nat, W: nat, c: Cell) {
    0 <= c.y < H && 0 <= c.x < W
  }

  predicate OnBorder(H: nat, W: nat, c: Cell) {
    InGrid(H, W, c) && (c.y == 0 || c.y == H - 1 || c.x == 0 || c.x == W - 1)
  }

  predicate Adjacent(c: Cell, d: Cell) {
    c != d && -1 <= c.y - d.y <= 1 && -1 <= c.x - d.x <= 1
  }

  ghost predicate Covers(H: nat, W: nat, s: Surface) {
    forall c :: c in s <==> InGrid(H, W, c)
  }

  // The table D8: N NE E SE S SW W NW, as (dy, dx).
  function Dy(i: nat): int {
    if i == 7 || i <= 1 then -1 else if i == 2 || i == 6 then 0 else 1
  }

  function Dx(i: nat): int {
    if 1 <= i <= 3 then 1 else if i == 0 || i == 4 then 0 else -1
  }

  function Step(c: Cell, i: nat): Cell {
    Cell(c.y + Dy(i), c.x + Dx(i))
  }

  /** The table holds each of the eight neighbours. */
  lemma StepsAreNeighbours(c: Cell, d: Cell)
    ensures Adjacent(c, d) <==> exists i: nat :: i < 8 && Step(c, i) == d
  {
    var dy, dx := d.y - c.y, d.x - c.x;
    if Adjacent(c, d) {
      var i: nat :=
        if dy == -1 then (if dx == -1 then 7 else if dx == 0 then 0 else 1)
        else if dy == 0 then (if dx == -1 then 6 else 2)
        else (if dx == -1 then 5 else if dx == 0 then 4 else 3);
      assert Step(c, i) == d;
    }
  }

  /** Clockwise from north: N NE E SE S SW W NW. */
  lemma DirectionsTurnClockwise(c: Cell)
    ensures Step(c, 0) == Cell(c.y - 1, c.x) && Step(c, 1) == Cell(c.y - 1, c.x + 1)
    ensures Step(c, 2) == Cell(c.y, c.x + 1) && Step(c, 3) == Cell(c.y + 1, c.x + 1)
    ensures Step(c, 4) == Cell(c.y + 1, c.x) && Step(c, 5) == Cell(c.y + 1, c.x - 1)
    ensures Step(c, 6) == Cell(c.y, c.x - 1) && Step(c, 7) == Cell(c.y - 1, c.x - 1)
  {
  }

  // -------------------------------------------------------- what the flood means

  function Max(a: real, b: real): real {
    if a < b then b else a
  }

  /** `c` stands at the height its lowest neighbour `p` (of those in `from`) gives it. */
  ghost predicate RaisedBy(h: Surface, f: Surface, from: set<Cell>, c: Cell, p: Cell)
    requires c in h && c in f && from <= f.Keys
  {
    p in from && Adjacent(c, p) && f[c] == Max(h[c], f[p] + RISE) &&
    forall q :: q in from && Adjacent(c, q) ==> f[p] <= f[q]
  }

  /** The flood's equation: `h` on the border, `max(h, RISE + lowest neighbour)` inside. */
  ghost predicate Flooded(H: nat, W: nat, h: Surface, f: Surface) {
    Covers(H, W, h) && Covers(H, W, f) &&
    (forall c :: OnBorder(H, W, c) ==> f[c] == h[c]) &&
    forall c :: InGrid(H, W, c) && !OnBorder(H, W, c) ==> exists p :: RaisedBy(h, f, f.Keys, c, p)
  }

  /** A surface water can leave from: no lower than `h`, and a way down from each inner cell. */
  ghost predicate Drains(H: nat, W: nat, h: Surface, g: Surface) {
    Covers(H, W, h) && Covers(H, W, g) &&
    (forall c :: c in g ==> h[c] <= g[c]) &&
    forall c :: InGrid(H, W, c) && !OnBorder(H, W, c) ==>
      exists d :: d in g && Adjacent(c, d) && g[d] <= g[c] - RISE
  }

  ghost function LowerCells(g: Surface, c: Cell): set<Cell>
    requires c in g
  {
    set d | d in g && g[d] < g[c]
  }

  lemma FloodedDrains(H: nat, W: nat, h: Surface, f: Surface)
    requires Flooded(H, W, h, f)
    ensures Drains(H, W, h, f)
  {
    forall c | InGrid(H, W, c) && !OnBorder(H, W, c)
      ensures h[c] <= f[c]
      ensures exists d :: d in f && Adjacent(c, d) && f[d] <= f[c] - RISE
    {
      var p :| RaisedBy(h, f, f.Keys, c, p);
      assert p in f && Adjacent(c, p) && f[p] <= f[c] - RISE;
    }
  }

  /** The flooded surface lies below every surface that drains: by induction down `g`. */
  lemma {:induction false} FloodedIsLeast(H: nat, W: nat, h: Surface, f: Surface, g: Surface, c: Cell)
    requires Flooded(H, W, h, f) && Drains(H, W, h, g)
    requires InGrid(H, W, c)
    ensures f[c] <= g[c]
    decreases LowerCells(g, c)
  {
    if !OnBorder(H, W, c) {
      var d :| d in g && Adjacent(c, d) && g[d] <= g[c] - RISE;
      assert d in LowerCells(g, c) && d !in LowerCells(g, d);
      FloodedIsLeast(H, W, h, f, g, d);
      var p :| RaisedBy(h, f, f.Keys, c, p);
      assert f[p] <= f[d];
    }
  }

  lemma SameHeight(H: nat, W: nat, h: Surface, f: Surface, g: Surface, c: Cell)
    requires Flooded(H, W, h, f) && Flooded(H, W, h, g)
    requires InGrid(H, W, c)
    ensures f[c] == g[c]
  {
    FloodedDrains(H, W, h, f);
    FloodedDrains(H, W, h, g);
    FloodedIsLeast(H, W, h, f, g, c);
    FloodedIsLeast(H, W, h, g, f, c);
  }

  /** The equation has one solution, so ties in the heap cannot show. */
  lemma FloodedIsUnique(H: nat, W: nat, h: Surface, f: Surface, g: Surface)
    requires Flooded(H, W, h, f) && Flooded(H, W, h, g)
    ensures f == g
  {
    forall c | InGrid(H, W, c) ensures f[c] == g[c] {
      SameHeight(H, W, h, f, g, c);
    }
    SameOnGrid(H, W, f, g);
  }

  lemma SameOnGrid(H: nat, W: nat, f: Surface, g: Surface)
    requires Covers(H, W, f) && Covers(H, W, g) && forall c :: InGrid(H, W, c) ==> f[c] == g[c]
    ensures f == g
  {
    assert f.Keys == g.Keys;
  }

  // ----------------------------------------------------------------- the heap

  predicate Before(a: Entry, b: Entry) {
    a.z < b.z || (a.z == b.z && (a.y < b.y || (a.y == b.y && a.x <= b.x)))
  }

  /** `heapq.heappop`: the least tuple of the queue, and the queue without it. */
  method HeapPop(queue: seq<Entry>) returns (least: Entry, rest: seq<Entry>)
    requires queue != []
    ensures multiset(queue) == multiset(rest) + multiset{least}
    ensures forall e :: e in queue <==> e == least || e in rest
    ensures forall e :: e in queue ==> Before(least, e)
    ensures |rest| == |queue| - 1
  {
    var at := 0;
    for i := 1 to |queue|
      invariant 0 <= at < i
      invariant forall k :: 0 <= k < i ==> Before(queue[at], queue[k])
    {
      if Before(queue[i], queue[at]) { at := i; }
    }
    least, rest := queue[at], queue[..at] + queue[at + 1..];
    assert queue == queue[..at] + [queue[at]] + queue[at + 1..];
  }

  // ------------------------------------------------------------- the flood loop

  function At(e: Entry): Cell { Cell(e.y, e.x) }

  /** Border cells are seeded at their own height. */
  ghost predicate BorderSeeded(H: nat, W: nat, h: Surface, f: Surface)
    requires f.Keys <= h.Keys
  {
    forall c :: OnBorder(H, W, c) ==> c in f && f[c] == h[c]
  }

  /** The cell is in the queue, at its height. */
  ghost predicate Waits(f: Surface, queue: seq<Entry>, c: Cell)
    requires c in f
  {
    Entry(f[c], c.y, c.x) in queue
  }

  /** The queue holds seen cells at their heights, and every seen cell not yet popped. */
  ghost predicate Queued(f: Surface, queue: seq<Entry>, done: set<Cell>) {
    (forall e :: e in queue ==> At(e) in f && f[At(e)] == e.z) &&
    forall c {:trigger Waits(f, queue, c)} :: c in f && c !in done ==> Waits(f, queue, c)
  }

  /** A popped cell has shown all its neighbours. */
  ghost predicate Shown(h: Surface, f: Surface, done: set<Cell>) {
    forall d, c :: d in done && c in h && Adjacent(d, c) ==> c in f
  }

  /** Pops are monotone: nothing still queued is lower than a popped cell. */
  ghost predicate Monotone(f: Surface, done: set<Cell>)
    requires done <= f.Keys
  {
    forall d, c :: d in done && c in f && c !in done ==> f[d] <= f[c]
  }

  ghost predicate IsExplained(h: Surface, f: Surface, done: set<Cell>, c: Cell)
    requires c in h && c in f && done <= f.Keys
  {
    exists p :: RaisedBy(h, f, done, c, p)
  }

  /** A seen inner cell stands at the height its lowest popped neighbour gives it. */
  ghost predicate Explained(H: nat, W: nat, h: Surface, f: Surface, done: set<Cell>)
    requires f.Keys <= h.Keys && done <= f.Keys
  {
    forall c {:trigger IsExplained(h, f, done, c)} :: c in f && !OnBorder(H, W, c) ==> IsExplained(h, f, done, c)
  }

  /** The loop invariant, over the heights given so far. `done` is the cells popped. */
  ghost predicate Flooding(H: nat, W: nat, h: Surface, f: Surface, queue: seq<Entry>, done: set<Cell>) {
    Covers(H, W, h) && f.Keys <= h.Keys && done <= f.Keys && BorderSeeded(H, W, h, f) &&
    Queued(f, queue, done) && Shown(h, f, done) && Monotone(f, done) && Explained(H, W, h, f, done)
  }

  /** What one popped cell does to the heights: its unseen neighbours are given theirs. */
  ghost predicate Spread(h: Surface, f: Surface, f': Surface, c: Cell)
    requires c in f
  {
    f'.Keys <= h.Keys &&
    (forall n :: n in f' <==> n in f || (n in h && Adjacent(c, n))) &&
    forall n :: n in f' ==> f'[n] == if n in f then f[n] else Max(h[n], f[c] + RISE)
  }

  lemma LeastOfAll(f: Surface, queue: seq<Entry>, done: set<Cell>, e: Entry)
    requires done <= f.Keys && Queued(f, queue, done) && e in queue
    requires forall k :: k in queue ==> Before(e, k)
    ensures forall c :: c in f && c !in done ==> f[At(e)] <= f[c]
  {
    forall c | c in f && c !in done ensures f[At(e)] <= f[c] {
      assert Waits(f, queue, c);
    }
  }

  lemma PopKeepsMonotone(h: Surface, f: Surface, f': Surface, done: set<Cell>, c0: Cell)
    requires c0 in f && f.Keys <= h.Keys && done <= f.Keys && Spread(h, f, f', c0)
    requires Shown(h, f, done) && Monotone(f, done)
    requires forall c :: c in f && c !in done ==> f[c0] <= f[c]
    ensures Shown(h, f', done + {c0}) && Monotone(f', done + {c0})
  {
    forall d, c | d in done + {c0} && c in f' && c !in done + {c0} ensures f'[d] <= f'[c] {
      if c !in f {
        assert c0 !in done;
        assert f'[c] >= f[c0];
      }
    }
  }

  /** A cell seen before stays explained by its old witness: the popped cell is no lower. */
  lemma SeenStaysExplained(h: Surface, f: Surface, f': Surface, done: set<Cell>, c0: Cell, c: Cell, p: Cell)
    requires c0 in f && f.Keys <= h.Keys && done <= f.Keys && Spread(h, f, f', c0)
    requires Monotone(f, done) && c in f && RaisedBy(h, f, done, c, p)
    ensures RaisedBy(h, f', done + {c0}, c, p)
  {
    assert p in done && (c0 !in done ==> f[p] <= f[c0]);
    forall q | q in done + {c0} && Adjacent(c, q) ensures f'[p] <= f'[q] {
      assert f'[q] == f[q] && f'[p] == f[p];
    }
  }

  /** A cell newly seen is explained by the popped cell, its only popped neighbour. */
  lemma NewIsExplained(h: Surface, f: Surface, f': Surface, done: set<Cell>, c0: Cell, c: Cell)
    requires c0 in f && f.Keys <= h.Keys && done <= f.Keys && Spread(h, f, f', c0)
    requires Shown(h, f, done) && c in f' && c !in f
    ensures RaisedBy(h, f', done + {c0}, c, c0)
  {
    forall q | q in done + {c0} && Adjacent(c, q) ensures q == c0 {
      if q in done { assert Adjacent(q, c); }
    }
  }

  lemma PopKeepsExplained(H: nat, W: nat, h: Surface, f: Surface, f': Surface, done: set<Cell>, c0: Cell, c: Cell)
    requires c0 in f && f.Keys <= h.Keys && done <= f.Keys && Spread(h, f, f', c0)
    requires Shown(h, f, done) && Monotone(f, done) && Explained(H, W, h, f, done)
    requires c in f' && !OnBorder(H, W, c)
    ensures IsExplained(h, f', done + {c0}, c)
  {
    if c in f {
      assert IsExplained(h, f, done, c);
      var p :| RaisedBy(h, f, done, c, p);
      SeenStaysExplained(h, f, f', done, c0, c, p);
    } else {
      NewIsExplained(h, f, f', done, c0, c);
    }
  }

  lemma PopKeepsAllExplained(H: nat, W: nat, h: Surface, f: Surface, f': Surface, done: set<Cell>, c0: Cell)
    requires c0 in f && f.Keys <= h.Keys && done <= f.Keys && Spread(h, f, f', c0)
    requires Shown(h, f, done) && Monotone(f, done) && Explained(H, W, h, f, done)
    ensures Explained(H, W, h, f', done + {c0})
  {
    forall c | c in f' && !OnBorder(H, W, c) ensures IsExplained(h, f', done + {c0}, c) {
      PopKeepsExplained(H, W, h, f, f', done, c0, c);
    }
  }

  /** The border keeps its own heights: a cell given one keeps it. */
  lemma PopKeepsBorder(H: nat, W: nat, h: Surface, f: Surface, f': Surface, c0: Cell)
    requires c0 in f && f.Keys <= h.Keys && Spread(h, f, f', c0) && BorderSeeded(H, W, h, f)
    ensures BorderSeeded(H, W, h, f')
  {
  }

  lemma PopKeepsQueued(h: Surface, f: Surface, f': Surface, queue: seq<Entry>, done: set<Cell>,
                       e: Entry, rest: seq<Entry>, queue': seq<Entry>)
    requires done <= f.Keys && f.Keys <= h.Keys && Queued(f, queue, done)
    requires At(e) in f && f[At(e)] == e.z && Spread(h, f, f', At(e))
    requires forall k :: k in queue <==> k == e || k in rest
    requires forall k :: k in queue' <==> k in rest || (At(k) in f' && At(k) !in f && f'[At(k)] == k.z)
    ensures Queued(f', queue', done + {At(e)})
  {
    forall c | c in f' && c !in done + {At(e)} ensures Waits(f', queue', c) {
      if c in f { assert Waits(f, queue, c); }
      assert At(Entry(f'[c], c.y, c.x)) == c;
    }
  }

  /** Popping the least entry keeps the invariant: later neighbours can only be higher. */
  lemma PopKeepsFlooding(H: nat, W: nat, h: Surface, f: Surface, queue: seq<Entry>, done: set<Cell>,
                         e: Entry, rest: seq<Entry>, f': Surface, queue': seq<Entry>)
    requires Flooding(H, W, h, f, queue, done)
    requires forall k :: k in queue <==> k == e || k in rest
    requires forall k :: k in queue ==> Before(e, k)
    requires e in queue && Spread(h, f, f', At(e))
    requires forall k :: k in queue' <==> k in rest || (At(k) in f' && At(k) !in f && f'[At(k)] == k.z)
    ensures Flooding(H, W, h, f', queue', done + {At(e)})
  {
    LeastOfAll(f, queue, done, e);
    PopKeepsMonotone(h, f, f', done, At(e));
    PopKeepsQueued(h, f, f', queue, done, e, rest, queue');
    PopKeepsAllExplained(H, W, h, f, f', done, At(e));
    PopKeepsBorder(H, W, h, f, f', At(e));
  }

  lemma AllPopped(f: Surface, done: set<Cell>)
    requires Queued(f, [], done) && done <= f.Keys
    ensures done == f.Keys
  {
    forall c | c in f ensures c in done {
      assert !Waits(f, [], c);
    }
  }

  /** With the queue empty every cell has been popped, so the flood's equation holds. */
  lemma EmptyQueueIsFlooded(H: nat, W: nat, h: Surface, f: Surface, done: set<Cell>)
    requires Flooding(H, W, h, f, [], done)
    ensures Flooded(H, W, h, f)
  {
    AllPopped(f, done);
    forall c | InGrid(H, W, c) ensures c in f {
      ReachedFromAbove(H, W, h, f, done, c);
    }
    forall c | InGrid(H, W, c) && !OnBorder(H, W, c) ensures exists p :: RaisedBy(h, f, f.Keys, c, p) {
      assert IsExplained(h, f, done, c);
    }
  }

  lemma {:induction false} ReachedFromAbove(H: nat, W: nat, h: Surface, f: Surface, done: set<Cell>, c: Cell)
    requires Flooding(H, W, h, f, [], done)
    requires InGrid(H, W, c)
    ensures c in f
    decreases c.y
  {
    if c.y > 0 {
      var up := Cell(c.y - 1, c.x);
      ReachedFromAbove(H, W, h, f, done, up);
      AllPopped(f, done);
      assert up in done && Adjacent(up, c);
    } else {
      assert OnBorder(H, W, c);
    }
  }

  // ------------------------------------------------------------ `flow`'s arrays

  /** `filled` and `seen` hold the surface `f`: a cell not seen is `np.inf` in the source. */
  ghost predicate Holds(filled: array2<real>, seen: array2<bool>, f: Surface)
    reads filled, seen
  {
    filled.Length0 == seen.Length0 && filled.Length1 == seen.Length1 &&
    (forall c :: c in f ==> InGrid(seen.Length0, seen.Length1, c)) &&
    forall y, x :: 0 <= y < seen.Length0 && 0 <= x < seen.Length1 ==>
      (seen[y, x] <==> Cell(y, x) in f) && (seen[y, x] ==> filled[y, x] == f[Cell(y, x)])
  }

  ghost predicate IsGrid(a: array2<real>, s: Surface)
    reads a
  {
    Covers(a.Length0, a.Length1, s) &&
    forall y, x :: 0 <= y < a.Length0 && 0 <= x < a.Length1 ==> a[y, x] == s[Cell(y, x)]
  }

  /** Marks a cell seen at height `z`. */
  method Give(filled: array2<real>, seen: array2<bool>, y: int, x: int, z: real, ghost f: Surface)
    requires Holds(filled, seen, f)
    requires 0 <= y < seen.Length0 && 0 <= x < seen.Length1
    modifies filled, seen
    ensures Holds(filled, seen, f[Cell(y, x) := z])
  {
    filled[y, x] := z;
    seen[y, x] := true;
  }

  /** What the seeding loop keeps: only border cells, at their own heights, all queued. */
  ghost predicate Seeds(H: nat, W: nat, h: Surface, f: Surface, queue: seq<Entry>) {
    f.Keys <= h.Keys && Queued(f, queue, {}) &&
    forall c :: c in f ==> OnBorder(H, W, c) && f[c] == h[c]
  }

  lemma SeedOne(H: nat, W: nat, h: Surface, f: Surface, queue: seq<Entry>, c: Cell)
    requires Covers(H, W, h) && Seeds(H, W, h, f, queue) && OnBorder(H, W, c)
    ensures Seeds(H, W, h, f[c := h[c]], queue + [Entry(h[c], c.y, c.x)])
  {
    var f', queue' := f[c := h[c]], queue + [Entry(h[c], c.y, c.x)];
    forall d | d in f' ensures Waits(f', queue', d) {
      if d == c {
        assert queue'[|queue|] == Entry(f'[d], d.y, d.x);
      } else {
        assert Waits(f, queue, d);
      }
    }
  }

  /** The columns of row `y` that lie on the border. */
  function BorderColumns(H: nat, W: nat, y: int): (xs: seq<int>)
    requires 0 <= y < H && (H > 2 ==> W > 0)
    ensures forall x :: x in xs <==> OnBorder(H, W, Cell(y, x))
  {
    if y == 0 || y == H - 1 then
      var row := seq(W, x => x);
      assert forall x :: OnBorder(H, W, Cell(y, x)) ==> x in row by {
        forall x | OnBorder(H, W, Cell(y, x)) ensures x in row { assert row[x] == x; }
      }
      row
    else [0, W - 1]
  }

  /** Seeds the border cells of one row. */
  method SeedRow(h: array2<real>, filled: array2<real>, seen: array2<bool>, y: int, queue0: seq<Entry>,
                 ghost hs: Surface, ghost f0: Surface)
    returns (queue: seq<Entry>, ghost f: Surface)
    requires h != filled && h.Length0 == seen.Length0 && h.Length1 == seen.Length1
    requires 0 <= y < h.Length0 && (h.Length0 > 2 ==> h.Length1 > 0)
    requires IsGrid(h, hs) && Holds(filled, seen, f0) && Seeds(h.Length0, h.Length1, hs, f0, queue0)
    modifies filled, seen
    ensures Holds(filled, seen, f) && Seeds(h.Length0, h.Length1, hs, f, queue) && f0.Keys <= f.Keys
    ensures forall c :: OnBorder(h.Length0, h.Length1, c) && c.y == y ==> c in f
  {
    var H, W := h.Length0, h.Length1;
    var xs := BorderColumns(H, W, y);
    queue, f := queue0, f0;
    for i := 0 to |xs|
      invariant Holds(filled, seen, f) && Seeds(H, W, hs, f, queue) && f0.Keys <= f.Keys
      invariant forall j :: 0 <= j < i ==> Cell(y, xs[j]) in f
    {
      var x := xs[i];
      assert x in xs && OnBorder(H, W, Cell(y, x));
      Give(filled, seen, y, x, h[y, x], f);
      SeedOne(H, W, hs, f, queue, Cell(y, x));
      queue := queue + [Entry(h[y, x], y, x)];
      f := f[Cell(y, x) := hs[Cell(y, x)]];
    }
    forall c | OnBorder(H, W, c) && c.y == y ensures c in f {
      assert c.x in xs;
    }
  }

  /** Every border cell goes in at its own height. */
  method SeedBorder(h: array2<real>, filled: array2<real>, seen: array2<bool>, ghost hs: Surface)
    returns (queue: seq<Entry>, ghost f: Surface)
    requires h != filled && h.Length0 == seen.Length0 && h.Length1 == seen.Length1
    requires IsGrid(h, hs) && Holds(filled, seen, map[])
    requires h.Length0 > 2 ==> h.Length1 > 0
    modifies filled, seen
    ensures Holds(filled, seen, f) && Flooding(h.Length0, h.Length1, hs, f, queue, {})
  {
    var H, W := h.Length0, h.Length1;
    queue, f := [], map[];
    for y := 0 to H
      invariant Holds(filled, seen, f) && Seeds(H, W, hs, f, queue)
      invariant forall c :: OnBorder(H, W, c) && c.y < y ==> c in f
    {
      queue, f := SeedRow(h, filled, seen, y, queue, hs, f);
    }
  }

  /** The surface after the first `i` of a popped cell's neighbours. */
  ghost predicate SpreadTo(h: Surface, f: Surface, f': Surface, c: Cell, i: nat)
    requires c in f && i <= 8
  {
    f'.Keys <= h.Keys &&
    (forall n :: n in f ==> n in f') &&
    (forall k: nat :: k < i && Step(c, k) in h ==> Step(c, k) in f') &&
    (forall n :: n in f' && n !in f ==> Adjacent(c, n)) &&
    forall n :: n in f' ==> f'[n] == if n in f then f[n] else Max(h[n], f[c] + RISE)
  }

  /** The queue after a pop: what it held, and one entry for each cell newly seen. */
  ghost predicate Pushed(f: Surface, f': Surface, queue: seq<Entry>, queue': seq<Entry>) {
    (f'.Keys == f.Keys ==> queue' == queue) &&
    forall k :: k in queue' <==> k in queue || (At(k) in f' && At(k) !in f && f'[At(k)] == k.z)
  }

  lemma SpreadOne(h: Surface, f: Surface, f1: Surface, queue: seq<Entry>, queue1: seq<Entry>, c: Cell, i: nat)
    requires c in f && i < 8 && SpreadTo(h, f, f1, c, i) && Pushed(f, f1, queue, queue1)
    requires Step(c, i) in h && Step(c, i) !in f1
    ensures var n := Step(c, i); var z := Max(h[n], f[c] + RISE);
            SpreadTo(h, f, f1[n := z], c, i + 1) && Pushed(f, f1[n := z], queue, queue1 + [Entry(z, n.y, n.x)])
  {
    var n := Step(c, i);
    var z := Max(h[n], f[c] + RISE);
    var queue2 := queue1 + [Entry(z, n.y, n.x)];
    StepsAreNeighbours(c, n);
    assert n in f1[n := z] && n !in f;
    forall k ensures k in queue2 <==> k in queue || (At(k) in f1[n := z] && At(k) !in f && f1[n := z][At(k)] == k.z) {
      assert k in queue2 <==> k in queue1 || k == Entry(z, n.y, n.x);
    }
  }

  /** A neighbour off the grid, or seen already, is left as it is. */
  lemma SpreadSkips(h: Surface, f: Surface, f1: Surface, c: Cell, i: nat)
    requires c in f && i < 8 && SpreadTo(h, f, f1, c, i) && (Step(c, i) in h ==> Step(c, i) in f1)
    ensures SpreadTo(h, f, f1, c, i + 1)
  {
  }

  /** Looks at one neighbour of a popped cell, and gives it its height if it has none. */
  method Look(h: array2<real>, filled: array2<real>, seen: array2<bool>, queue: seq<Entry>, e: Entry, i: nat,
              ghost hs: Surface, ghost f: Surface, ghost f1: Surface, ghost queue0: seq<Entry>)
    returns (queue': seq<Entry>, ghost f': Surface)
    requires h != filled && h.Length0 == seen.Length0 && h.Length1 == seen.Length1 && i < 8
    requires IsGrid(h, hs) && Holds(filled, seen, f1) && At(e) in f && f[At(e)] == e.z
    requires SpreadTo(hs, f, f1, At(e), i) && Pushed(f, f1, queue0, queue)
    modifies filled, seen
    ensures Holds(filled, seen, f') && SpreadTo(hs, f, f', At(e), i + 1) && Pushed(f, f', queue0, queue')
  {
    queue', f' := queue, f1;
    var n := Step(At(e), i);
    if 0 <= n.y < h.Length0 && 0 <= n.x < h.Length1 && !seen[n.y, n.x] {
      var z := Max(h[n.y, n.x], e.z + RISE);
      SpreadOne(hs, f, f1, queue0, queue, At(e), i);
      Give(filled, seen, n.y, n.x, z, f1);
      queue', f' := queue + [Entry(z, n.y, n.x)], f1[n := z];
    } else {
      SpreadSkips(hs, f, f1, At(e), i);
    }
  }

  lemma AllStepsSpread(h: Surface, f: Surface, f': Surface, c: Cell)
    requires c in f && SpreadTo(h, f, f', c, 8)
    ensures Spread(h, f, f', c)
  {
    forall n | n in h && Adjacent(c, n) ensures n in f' {
      StepsAreNeighbours(c, n);
    }
  }

  /** The inner loop: gives each unseen neighbour of a popped cell its height. */
  method Expand(h: array2<real>, filled: array2<real>, seen: array2<bool>, queue: seq<Entry>, e: Entry,
                ghost hs: Surface, ghost f: Surface)
    returns (queue': seq<Entry>, ghost f': Surface)
    requires h != filled && h.Length0 == seen.Length0 && h.Length1 == seen.Length1
    requires IsGrid(h, hs) && Holds(filled, seen, f) && f.Keys <= hs.Keys
    requires At(e) in f && f[At(e)] == e.z
    modifies filled, seen
    ensures Holds(filled, seen, f') && Spread(hs, f, f', At(e)) && Pushed(f, f', queue, queue')
  {
    queue', f' := queue, f;
    for i := 0 to 8
      invariant Holds(filled, seen, f') && SpreadTo(hs, f, f', At(e), i) && Pushed(f, f', queue, queue')
    {
      queue', f' := Look(h, filled, seen, queue', e, i, hs, f, f', queue);
    }
    AllStepsSpread(hs, f, f', At(e));
  }

  /** One turn of the heap loop. */
  method PopOne(h: array2<real>, filled: array2<real>, seen: array2<bool>, queue: seq<Entry>,
                ghost hs: Surface, ghost f: Surface, ghost done: set<Cell>)
    returns (queue': seq<Entry>, ghost f': Surface, ghost done': set<Cell>)
    requires h != filled && h.Length0 == seen.Length0 && h.Length1 == seen.Length1
    requires IsGrid(h, hs) && Holds(filled, seen, f) && queue != []
    requires Flooding(h.Length0, h.Length1, hs, f, queue, done)
    modifies filled, seen
    ensures Holds(filled, seen, f') && Flooding(h.Length0, h.Length1, hs, f', queue', done')
    ensures hs.Keys - f'.Keys < hs.Keys - f.Keys || (f'.Keys == f.Keys && |queue'| < |queue|)
  {
    var e, rest := HeapPop(queue);
    queue', f' := Expand(h, filled, seen, rest, e, hs, f);
    PopKeepsFlooding(h.Length0, h.Length1, hs, f, queue, done, e, rest, f', queue');
    done' := done + {At(e)};
  }

  /** The flood: the heap loop of `flow`, from border to last hollow. */
  method Flood(h: array2<real>, ghost hs: Surface) returns (filled: array2<real>, ghost f: Surface)
    requires h.Length0 > 2 ==> h.Length1 > 0
    requires IsGrid(h, hs)
    ensures fresh(filled) && filled.Length0 == h.Length0 && filled.Length1 == h.Length1
    ensures IsGrid(filled, f) && Flooded(h.Length0, h.Length1, hs, f)
  {
    var H, W := h.Length0, h.Length1;
    filled := new real[H, W]((y, x) => 0.0);
    var seen := new bool[H, W]((y, x) => false);
    assert Holds(filled, seen, map[]);
    var queue;
    queue, f := SeedBorder(h, filled, seen, hs);
    f := DrainQueue(h, filled, seen, queue, hs, f);
  }

  /** The heap loop. */
  method DrainQueue(h: array2<real>, filled: array2<real>, seen: array2<bool>, queue0: seq<Entry>,
                    ghost hs: Surface, ghost f0: Surface)
    returns (ghost f: Surface)
    requires h != filled && h.Length0 == seen.Length0 && h.Length1 == seen.Length1
    requires IsGrid(h, hs) && Holds(filled, seen, f0) && Flooding(h.Length0, h.Length1, hs, f0, queue0, {})
    modifies filled, seen
    ensures Holds(filled, seen, f) && Flooded(h.Length0, h.Length1, hs, f)
  {
    var queue := queue0;
    ghost var done: set<Cell> := {};
    f := f0;
    while queue != []
      invariant Holds(filled, seen, f) && Flooding(h.Length0, h.Length1, hs, f, queue, done)
      decreases hs.Keys - f.Keys, |queue|
    {
      queue, f, done := PopOne(h, filled, seen, queue, hs, f, done);
    }
    EmptyQueueIsFlooded(h.Length0, h.Length1, hs, f, done);
  }

  // -------------------------------------------------------------- D8 directions

  /** The direction chosen so far and its drop (`direction` and `best`). */
  datatype Pick = Pick(direction: nat, best: real)

  /** The fall to neighbour `i`, per unit of distance; `diagonal` is `math.hypot(1, 1)`. */
  function Drop(f: Surface, diagonal: real, c: Cell, i: nat): real
    requires i < 8 && c in f && Step(c, i) in f && diagonal >= 1.0
  {
    (f[c] - f[Step(c, i)]) / (if Dy(i) != 0 && Dx(i) != 0 then diagonal else 1.0)
  }

  /** The pick after the first `i` directions. */
  function Scan(f: Surface, diagonal: real, c: Cell, i: nat): Pick
    requires i <= 8 && c in f && diagonal >= 1.0
  {
    if i == 0 then Pick(OUTLET, 0.0)
    else
      Beaten(f, diagonal, c, i - 1, Scan(f, diagonal, c, i - 1))
  }

  /** Direction `i` replaces the pick when it beats it by MARGIN. Off the grid is `np.inf`, never a drop. */
  function Beaten(f: Surface, diagonal: real, c: Cell, i: nat, p: Pick): Pick
    requires i < 8 && c in f && diagonal >= 1.0
  {
    if Step(c, i) in f && Drop(f, diagonal, c, i) > p.best + MARGIN
    then Pick(i, Drop(f, diagonal, c, i))
    else p
  }

  function Direction(f: Surface, diagonal: real, c: Cell): nat
    requires c in f && diagonal >= 1.0
  {
    Scan(f, diagonal, c, 8).direction
  }

  /** The pick is OUTLET or a true drop, within MARGIN of the steepest and steeper than any before it. */
  lemma {:induction false} ScanIsSteepest(f: Surface, diagonal: real, c: Cell, i: nat)
    requires i <= 8 && c in f && diagonal >= 1.0
    ensures var p := Scan(f, diagonal, c, i);
            (p == Pick(OUTLET, 0.0) ||
             (p.direction < i && Step(c, p.direction) in f && p.best == Drop(f, diagonal, c, p.direction) > MARGIN &&
              forall k: nat :: k < p.direction && Step(c, k) in f ==> Drop(f, diagonal, c, k) < p.best)) &&
            forall k: nat :: k < i && Step(c, k) in f ==> Drop(f, diagonal, c, k) <= p.best + MARGIN
  {
    if i > 0 {
      ScanIsSteepest(f, diagonal, c, i - 1);
    }
  }

  /** A direction leads to a lower cell of the grid. */
  lemma DirectionDescends(f: Surface, diagonal: real, c: Cell)
    requires c in f && diagonal >= 1.0
    ensures var d := Direction(f, diagonal, c); d == OUTLET || (d < 8 && Step(c, d) in f && f[Step(c, d)] < f[c])
  {
    ScanIsSteepest(f, diagonal, c, 8);
    var d := Direction(f, diagonal, c);
    if d != OUTLET {
      var run := if Dy(d) != 0 && Dx(d) != 0 then diagonal else 1.0;
      assert (f[c] - f[Step(c, d)]) / run > 0.0;
    }
  }

  /** The distance between neighbours: 1 along a row or column, else the diagonal's. */
  function Run(diagonal: real, c: Cell, d: Cell): real {
    if c.y == d.y || c.x == d.x then 1.0 else diagonal
  }

  /** The fall to `n` is no steeper than `fall` over `run`, give or take MARGIN a unit of distance. */
  predicate NotSteeper(f: Surface, diagonal: real, c: Cell, fall: real, run: real, n: Cell)
    requires c in f && n in f
  {
    (f[c] - f[n]) * run <= (fall + MARGIN * run) * Run(diagonal, c, n)
  }

  ghost predicate NoneSteeper(f: Surface, diagonal: real, c: Cell, fall: real, run: real)
    requires c in f
  {
    forall n :: n in f && Adjacent(c, n) ==> NotSteeper(f, diagonal, c, fall, run, n)
  }

  /** The falls to the directions before `i` are each less steep than `fall` over `run`. */
  ghost predicate EarlierLess(f: Surface, diagonal: real, c: Cell, fall: real, run: real, i: nat)
    requires c in f && i <= 8
  {
    forall k: nat :: k < i && Step(c, k) in f ==> IsLess(f, diagonal, c, fall, run, Step(c, k))
  }

  predicate IsLess(f: Surface, diagonal: real, c: Cell, fall: real, run: real, n: Cell)
    requires c in f && n in f
  {
    (f[c] - f[n]) * run < fall * Run(diagonal, c, n)
  }

  /** What a direction must be: to a lower neighbour, with no other steeper by more than MARGIN and none
      before it as steep; or OUTLET, with no neighbour lower by more than MARGIN a unit of distance. */
  ghost predicate IsSteepest(f: Surface, diagonal: real, c: Cell, direction: nat)
    requires c in f
  {
    if direction == OUTLET then NoneSteeper(f, diagonal, c, 0.0, 1.0)
    else
      direction < 8 && Step(c, direction) in f && f[Step(c, direction)] < f[c] &&
      NoneSteeper(f, diagonal, c, f[c] - f[Step(c, direction)], Run(diagonal, c, Step(c, direction))) &&
      EarlierLess(f, diagonal, c, f[c] - f[Step(c, direction)], Run(diagonal, c, Step(c, direction)), direction)
  }

  predicate IsFall(fall: real, slope: real, run: real) {
    fall == slope * run
  }

  lemma TimesLess(a: real, b: real, s: real)
    requires a < b && s > 0.0
    ensures a * s < b * s
  {
    assert (b - a) * s > 0.0;
  }

  lemma TimesAtMost(a: real, b: real, s: real)
    requires a <= b && s > 0.0
    ensures a * s <= b * s
  {
    assert (b - a) * s >= 0.0;
  }

  /** Comparing falls over runs without dividing. */
  lemma CrossMultiply(best: real, fall: real, run: real, slope: real, fall1: real, run1: real)
    requires run > 0.0 && run1 > 0.0 && slope <= best + MARGIN
    requires IsFall(fall, best, run) && IsFall(fall1, slope, run1)
    ensures fall1 * run <= (fall + MARGIN * run) * run1
  {
    TimesAtMost(slope, best + MARGIN, run1);
    TimesAtMost(slope * run1, (best + MARGIN) * run1, run);
    assert (best + MARGIN) * run1 * run == (best + MARGIN) * run * run1;
    assert (best + MARGIN) * run == best * run + MARGIN * run;
  }

  lemma CrossMultiplyLess(best: real, fall: real, run: real, slope: real, fall1: real, run1: real)
    requires run > 0.0 && run1 > 0.0 && slope < best && IsFall(fall, best, run) && IsFall(fall1, slope, run1)
    ensures fall1 * run < fall * run1
  {
    TimesLess(slope, best, run1);
    TimesLess(slope * run1, best * run1, run);
    assert best * run1 * run == best * run * run1;
  }

  lemma DropIsSlope(f: Surface, diagonal: real, c: Cell, i: nat)
    requires i < 8 && c in f && Step(c, i) in f && diagonal >= 1.0
    ensures IsFall(f[c] - f[Step(c, i)], Drop(f, diagonal, c, i), Run(diagonal, c, Step(c, i)))
  {
    DividedTimes(f[c] - f[Step(c, i)], Run(diagonal, c, Step(c, i)));
  }

  lemma WithinMarginIsNotSteeper(f: Surface, diagonal: real, c: Cell, best: real, fall: real, run: real, i: nat)
    requires c in f && diagonal >= 1.0 && run > 0.0 && IsFall(fall, best, run)
    requires i < 8 && Step(c, i) in f && Drop(f, diagonal, c, i) <= best + MARGIN
    ensures NotSteeper(f, diagonal, c, fall, run, Step(c, i))
  {
    var n := Step(c, i);
    DropIsSlope(f, diagonal, c, i);
    CrossMultiply(best, fall, run, Drop(f, diagonal, c, i), f[c] - f[n], Run(diagonal, c, n));
  }

  /** Nothing is steeper than what the scan kept. */
  lemma ScanNoneSteeper(f: Surface, diagonal: real, c: Cell, best: real, fall: real, run: real)
    requires c in f && diagonal >= 1.0 && run > 0.0 && IsFall(fall, best, run)
    requires best == Scan(f, diagonal, c, 8).best
    ensures NoneSteeper(f, diagonal, c, fall, run)
  {
    ScanIsSteepest(f, diagonal, c, 8);
    forall n | n in f && Adjacent(c, n) ensures NotSteeper(f, diagonal, c, fall, run, n) {
      StepsAreNeighbours(c, n);
      var i: nat :| i < 8 && Step(c, i) == n;
      WithinMarginIsNotSteeper(f, diagonal, c, best, fall, run, i);
    }
  }

  lemma LessSteepIsLess(f: Surface, diagonal: real, c: Cell, k: nat, d: nat)
    requires k < 8 && d < 8 && c in f && Step(c, k) in f && Step(c, d) in f && diagonal >= 1.0
    requires Drop(f, diagonal, c, k) < Drop(f, diagonal, c, d)
    ensures IsLess(f, diagonal, c, f[c] - f[Step(c, d)], Run(diagonal, c, Step(c, d)), Step(c, k))
  {
    var n, m := Step(c, k), Step(c, d);
    DropIsSlope(f, diagonal, c, k);
    DropIsSlope(f, diagonal, c, d);
    CrossMultiplyLess(Drop(f, diagonal, c, d), f[c] - f[m], Run(diagonal, c, m),
                      Drop(f, diagonal, c, k), f[c] - f[n], Run(diagonal, c, n));
  }

  lemma ScanEarlierLess(f: Surface, diagonal: real, c: Cell, d: nat)
    requires c in f && diagonal >= 1.0 && d == Direction(f, diagonal, c) != OUTLET && d < 8 && Step(c, d) in f
    ensures EarlierLess(f, diagonal, c, f[c] - f[Step(c, d)], Run(diagonal, c, Step(c, d)), d)
  {
    ScanIsSteepest(f, diagonal, c, 8);
    var fall, run := f[c] - f[Step(c, d)], Run(diagonal, c, Step(c, d));
    forall k: nat | k < d && Step(c, k) in f ensures IsLess(f, diagonal, c, fall, run, Step(c, k)) {
      LessSteepIsLess(f, diagonal, c, k, d);
    }
  }

  /** The direction chosen is the steepest, per unit of distance, within MARGIN; of ties the first. */
  lemma DirectionIsSteepest(f: Surface, diagonal: real, c: Cell)
    requires c in f && diagonal >= 1.0
    ensures IsSteepest(f, diagonal, c, Direction(f, diagonal, c))
  {
    ScanIsSteepest(f, diagonal, c, 8);
    DirectionDescends(f, diagonal, c);
    var p := Scan(f, diagonal, c, 8);
    if p.direction == OUTLET {
      ScanNoneSteeper(f, diagonal, c, p.best, 0.0, 1.0);
    } else {
      var n := Step(c, p.direction);
      DropIsSlope(f, diagonal, c, p.direction);
      ScanNoneSteeper(f, diagonal, c, p.best, f[c] - f[n], Run(diagonal, c, n));
      ScanEarlierLess(f, diagonal, c, p.direction);
    }
  }

  lemma FallOverRun(fall: real, run: real)
    requires fall >= RISE && 1.0 <= run <= 2.0
    ensures fall / run > MARGIN
  {
    var slope := fall / run;
    assert slope * run == fall;
    assert slope <= MARGIN ==> slope * run <= MARGIN * run;
  }

  /** A cell with a neighbour RISE lower is given a direction. */
  lemma RisePointsSomewhere(f: Surface, diagonal: real, c: Cell, i: nat)
    requires i < 8 && c in f && 1.0 <= diagonal <= 2.0
    requires Step(c, i) in f && f[Step(c, i)] <= f[c] - RISE
    ensures Direction(f, diagonal, c) != OUTLET
  {
    ScanIsSteepest(f, diagonal, c, 8);
    FallOverRun(f[c] - f[Step(c, i)], if Dy(i) != 0 && Dx(i) != 0 then diagonal else 1.0);
    assert Drop(f, diagonal, c, i) > MARGIN;
  }

  /** Inside the map every cell drains somewhere: only a border cell can be an OUTLET. */
  lemma InnerCellsAreNotOutlets(H: nat, W: nat, h: Surface, f: Surface, diagonal: real, c: Cell)
    requires Flooded(H, W, h, f) && 1.0 <= diagonal <= 2.0
    requires InGrid(H, W, c) && !OnBorder(H, W, c)
    ensures Direction(f, diagonal, c) != OUTLET
  {
    FloodedDrains(H, W, h, f);
    var d :| d in f && Adjacent(c, d) && f[d] <= f[c] - RISE;
    StepsAreNeighbours(c, d);
    var i: nat :| i < 8 && Step(c, i) == d;
    RisePointsSomewhere(f, diagonal, c, i);
  }

  /** The cells water crosses from `c`, following the directions until one is an OUTLET. */
  ghost function Trail(f: Surface, diagonal: real, c: Cell): (t: seq<Cell>)
    requires c in f && diagonal >= 1.0
    ensures t != [] && t[0] == c
    decreases LowerCells(f, c)
  {
    var d := Direction(f, diagonal, c);
    DirectionDescends(f, diagonal, c);
    if d == OUTLET then [c]
    else
      assert Step(c, d) in LowerCells(f, c) && Step(c, d) !in LowerCells(f, Step(c, d));
      [c] + Trail(f, diagonal, Step(c, d))
  }

  /** The direction at `c` leads to `d`. */
  predicate Points(f: Surface, diagonal: real, c: Cell, d: Cell)
    requires c in f && diagonal >= 1.0
  {
    Direction(f, diagonal, c) != OUTLET && d == Step(c, Direction(f, diagonal, c))
  }

  /** A walk along the directions, strictly down and on the grid, to an OUTLET on the border. */
  ghost predicate Leaves(H: nat, W: nat, f: Surface, diagonal: real, t: seq<Cell>)
    requires diagonal >= 1.0
  {
    t != [] && (forall i :: 0 <= i < |t| ==> t[i] in f) &&
    (forall i, j :: 0 <= i < j < |t| ==> f[t[j]] < f[t[i]]) &&
    (forall i, j :: 0 <= i < j < |t| && j == i + 1 ==> Points(f, diagonal, t[i], t[j])) &&
    Direction(f, diagonal, t[|t| - 1]) == OUTLET && OnBorder(H, W, t[|t| - 1])
  }

  lemma StepThenLeaves(H: nat, W: nat, f: Surface, diagonal: real, c: Cell, rest: seq<Cell>)
    requires diagonal >= 1.0 && c in f && Leaves(H, W, f, diagonal, rest)
    requires Points(f, diagonal, c, rest[0]) && f[rest[0]] < f[c]
    ensures Leaves(H, W, f, diagonal, [c] + rest)
  {
    var t := [c] + rest;
    forall i, j | 0 <= i < j < |t| && j == i + 1 ensures Points(f, diagonal, t[i], t[j]) {
      assert t[j] == rest[j - 1];
      if i > 0 { assert t[i] == rest[i - 1]; }
    }
    forall i, j | 0 <= i < j < |t| ensures f[t[j]] < f[t[i]] {
      assert t[j] == rest[j - 1];
      if i > 0 { assert t[i] == rest[i - 1]; }
    }
  }

  /** From any cell the directions lead off the map, strictly downhill all the way. */
  lemma {:induction false} TrailLeavesTheMap(H: nat, W: nat, h: Surface, f: Surface, diagonal: real, c: Cell)
    requires Flooded(H, W, h, f) && 1.0 <= diagonal <= 2.0 && InGrid(H, W, c)
    ensures Leaves(H, W, f, diagonal, Trail(f, diagonal, c))
    decreases LowerCells(f, c)
  {
    var d := Direction(f, diagonal, c);
    DirectionDescends(f, diagonal, c);
    if d == OUTLET {
      if !OnBorder(H, W, c) { InnerCellsAreNotOutlets(H, W, h, f, diagonal, c); }
    } else {
      var n := Step(c, d);
      assert n in LowerCells(f, c) && n !in LowerCells(f, n);
      TrailLeavesTheMap(H, W, h, f, diagonal, n);
      StepThenLeaves(H, W, f, diagonal, c, Trail(f, diagonal, n));
    }
  }

  /** `direction` and `best` hold the picks. */
  ghost predicate Marks(direction: array2<nat>, best: array2<real>, picks: map<Cell, Pick>)
    reads direction, best
  {
    best.Length0 == direction.Length0 && best.Length1 == direction.Length1 &&
    (forall c :: c in picks <==> InGrid(direction.Length0, direction.Length1, c)) &&
    forall y, x :: 0 <= y < direction.Length0 && 0 <= x < direction.Length1 ==>
      picks[Cell(y, x)] == Pick(direction[y, x], best[y, x])
  }

  /** One cell's pick after `i` directions, or `i + 1` before (`y0`, `x0`). */
  ghost predicate ScannedAt(f: Surface, diagonal: real, picks: map<Cell, Pick>, i: nat, y0: int, x0: int, c: Cell)
    requires i <= 8 && diagonal >= 1.0 && c in f && c in picks
  {
    picks[c] == Scan(f, diagonal, c, if i < 8 && (c.y < y0 || (c.y == y0 && c.x < x0)) then i + 1 else i)
  }

  ghost predicate Scanned(f: Surface, diagonal: real, picks: map<Cell, Pick>, i: nat, y0: int, x0: int)
    requires i <= 8 && diagonal >= 1.0
  {
    picks.Keys == f.Keys && forall c :: c in f ==> ScannedAt(f, diagonal, picks, i, y0, x0, c)
  }

  /** One cell takes direction `i` where it beats its best by MARGIN. */
  method TryCell(filled: array2<real>, direction: array2<nat>, best: array2<real>, diagonal: real, i: nat,
                 y: int, x: int, ghost f: Surface, ghost picks: map<Cell, Pick>)
    requires i < 8 && diagonal >= 1.0 && best != filled
    requires filled.Length0 == direction.Length0 && filled.Length1 == direction.Length1
    requires 0 <= y < direction.Length0 && 0 <= x < direction.Length1
    requires IsGrid(filled, f) && Marks(direction, best, picks)
    modifies direction, best
    ensures Marks(direction, best, picks[Cell(y, x) := Beaten(f, diagonal, Cell(y, x), i, picks[Cell(y, x)])])
  {
    var n := Step(Cell(y, x), i);
    if 0 <= n.y < direction.Length0 && 0 <= n.x < direction.Length1 {
      var drop := (filled[y, x] - filled[n.y, n.x]) / (if Dy(i) != 0 && Dx(i) != 0 then diagonal else 1.0);
      if drop > best[y, x] + MARGIN {
        direction[y, x], best[y, x] := i, drop;
      }
    }
  }

  lemma ScanStep(f: Surface, diagonal: real, c: Cell, i: nat)
    requires i < 8 && c in f && diagonal >= 1.0
    ensures Scan(f, diagonal, c, i + 1) == Beaten(f, diagonal, c, i, Scan(f, diagonal, c, i))
  {
  }

  /** Scanning one cell leaves every other as it was. */
  lemma ScannedMoves(f: Surface, diagonal: real, picks: map<Cell, Pick>, p: Pick, i: nat, y: int, x: int, c: Cell)
    requires i < 8 && diagonal >= 1.0 && c in f && c in picks && ScannedAt(f, diagonal, picks, i, y, x, c)
    requires c == Cell(y, x) ==> p == Scan(f, diagonal, c, i + 1)
    ensures ScannedAt(f, diagonal, picks[Cell(y, x) := p], i, y, x + 1, c)
  {
  }

  lemma ScanOne(H: nat, W: nat, f: Surface, diagonal: real, picks: map<Cell, Pick>, i: nat, y: int, x: int)
    requires i < 8 && diagonal >= 1.0 && Covers(H, W, f) && InGrid(H, W, Cell(y, x))
    requires Scanned(f, diagonal, picks, i, y, x)
    ensures var c0 := Cell(y, x);
            Scanned(f, diagonal, picks[c0 := Beaten(f, diagonal, c0, i, picks[c0])], i, y, x + 1)
  {
    var c0 := Cell(y, x);
    var p := Beaten(f, diagonal, c0, i, picks[c0]);
    assert ScannedAt(f, diagonal, picks, i, y, x, c0);
    ScanStep(f, diagonal, c0, i);
    forall c | c in f ensures ScannedAt(f, diagonal, picks[c0 := p], i, y, x + 1, c) {
      ScannedMoves(f, diagonal, picks, p, i, y, x, c);
    }
  }

  lemma NextRow(H: nat, W: nat, f: Surface, diagonal: real, picks: map<Cell, Pick>, i: nat, y: int)
    requires i < 8 && diagonal >= 1.0 && Covers(H, W, f)
    ensures Scanned(f, diagonal, picks, i, y, W) ==> Scanned(f, diagonal, picks, i, y + 1, 0)
    ensures Scanned(f, diagonal, picks, i, H, 0) ==> Scanned(f, diagonal, picks, i + 1, 0, 0)
  {
    forall c | c in f && picks.Keys == f.Keys
      ensures ScannedAt(f, diagonal, picks, i, y, W, c) ==> ScannedAt(f, diagonal, picks, i, y + 1, 0, c)
      ensures ScannedAt(f, diagonal, picks, i, H, 0, c) ==> ScannedAt(f, diagonal, picks, i + 1, 0, 0, c)
    {
    }
  }

  /** One turn of the direction loop: every cell looks in direction `i`. */
  method TryDirection(filled: array2<real>, direction: array2<nat>, best: array2<real>, diagonal: real, i: nat,
                      ghost f: Surface, ghost picks0: map<Cell, Pick>)
    returns (ghost picks: map<Cell, Pick>)
    requires i < 8 && diagonal >= 1.0 && best != filled
    requires filled.Length0 == direction.Length0 && filled.Length1 == direction.Length1
    requires IsGrid(filled, f) && Marks(direction, best, picks0) && Scanned(f, diagonal, picks0, i, 0, 0)
    modifies direction, best
    ensures Marks(direction, best, picks) && Scanned(f, diagonal, picks, i + 1, 0, 0)
  {
    var H, W := direction.Length0, direction.Length1;
    picks := picks0;
    for y := 0 to H
      invariant Marks(direction, best, picks) && Scanned(f, diagonal, picks, i, y, 0)
    {
      for x := 0 to W
        invariant Marks(direction, best, picks) && Scanned(f, diagonal, picks, i, y, x)
      {
        TryCell(filled, direction, best, diagonal, i, y, x, f, picks);
        ScanOne(H, W, f, diagonal, picks, i, y, x);
        picks := picks[Cell(y, x) := Beaten(f, diagonal, Cell(y, x), i, picks[Cell(y, x)])];
      }
      NextRow(H, W, f, diagonal, picks, i, y);
    }
    NextRow(H, W, f, diagonal, picks, i, H);
  }

  lemma NothingScanned(H: nat, W: nat, f: Surface, diagonal: real, picks: map<Cell, Pick>)
    requires Covers(H, W, f) && diagonal >= 1.0 && picks.Keys == f.Keys
    requires forall c :: c in f ==> picks[c] == Pick(OUTLET, 0.0)
    ensures Scanned(f, diagonal, picks, 0, 0, 0)
  {
    forall c | c in f ensures ScannedAt(f, diagonal, picks, 0, 0, 0, c) {
      assert Scan(f, diagonal, c, 0) == Pick(OUTLET, 0.0);
    }
  }

  /** All eight directions scanned, `direction` holds what each cell chose. */
  lemma MarksAreDirections(direction: array2<nat>, best: array2<real>, f: Surface, diagonal: real,
                           picks: map<Cell, Pick>)
    requires diagonal >= 1.0 && Covers(direction.Length0, direction.Length1, f)
    requires Marks(direction, best, picks) && Scanned(f, diagonal, picks, 8, 0, 0)
    ensures forall y, x :: 0 <= y < direction.Length0 && 0 <= x < direction.Length1 ==>
              direction[y, x] == Direction(f, diagonal, Cell(y, x)) &&
              IsSteepest(f, diagonal, Cell(y, x), direction[y, x])
  {
    forall y, x | 0 <= y < direction.Length0 && 0 <= x < direction.Length1
      ensures direction[y, x] == Direction(f, diagonal, Cell(y, x)) &&
              IsSteepest(f, diagonal, Cell(y, x), direction[y, x])
    {
      assert ScannedAt(f, diagonal, picks, 8, 0, 0, Cell(y, x));
      DirectionIsSteepest(f, diagonal, Cell(y, x));
    }
  }

  /** `flow`: the directions of the surface with its hollows filled. */
  method Flow(h: array2<real>, diagonal: real, ghost hs: Surface) returns (direction: array2<nat>, ghost f: Surface)
    requires h.Length0 > 2 ==> h.Length1 > 0
    requires IsGrid(h, hs) && diagonal >= 1.0
    ensures direction.Length0 == h.Length0 && direction.Length1 == h.Length1
    ensures Flooded(h.Length0, h.Length1, hs, f)
    ensures forall y, x :: 0 <= y < h.Length0 && 0 <= x < h.Length1 ==>
              direction[y, x] == Direction(f, diagonal, Cell(y, x)) &&
              IsSteepest(f, diagonal, Cell(y, x), direction[y, x])
  {
    var filled;
    filled, f := Flood(h, hs);
    direction := new nat[h.Length0, h.Length1]((y, x) => OUTLET);
    var best := new real[h.Length0, h.Length1]((y, x) => 0.0);
    ghost var picks := map c | c in f :: Pick(OUTLET, 0.0);
    NothingScanned(h.Length0, h.Length1, f, diagonal, picks);
    for i := 0 to 8
      invariant Marks(direction, best, picks) && Scanned(f, diagonal, picks, i, 0, 0) && IsGrid(filled, f)
    {
      picks := TryDirection(filled, direction, best, diagonal, i, f, picks);
    }
    MarksAreDirections(direction, best, f, diagonal, picks);
  }
}
