/**
 * The A* solver (src/maze/astar.rs). A max-heap of queue items, ordered so
 * that the cheapest priority comes out first, drives the search: each popped
 * cell relaxes its four neighbours in place, and the search stops as soon as
 * an expansion leaves the target reached, or when the heap runs empty.
 */
module AStar {
  import opened Direction
  import opened Grid

  // ---------------------------------------------------------------------------
  // Queue items and their order
  // ---------------------------------------------------------------------------

  /** A heap entry: the priority (cost so far plus the turn heuristic) and the cell index. */
  datatype QueueItem = QueueItem(cost: nat, idx: usize)

  datatype Ordering = Less | Equal | Greater

  function CompareNat(a: nat, b: nat): Ordering
  {
    if a < b then Less else if a > b then Greater else Equal
  }

  /**
   * `cmp`: the lexicographic order of (Reverse(cost), idx), so that the
   * max-heap pops the lowest priority and, among equal ones, the largest index.
   */
  function Cmp(a: QueueItem, b: QueueItem): Ordering
  {
    var byCost := CompareNat(b.cost, a.cost);
    if byCost != Equal then byCost else CompareNat(a.idx, b.idx)
  }

  /** What the order means, and that it is a total order consistent with equality. */
  lemma CmpMeaning(a: QueueItem, b: QueueItem)
    ensures Cmp(a, b) == Greater <==> a.cost < b.cost || (a.cost == b.cost && a.idx > b.idx)
    ensures Cmp(a, b) == Equal <==> a == b
    ensures Cmp(a, b) == Less <==> Cmp(b, a) == Greater
  {
  }

  lemma CmpTransitive(a: QueueItem, b: QueueItem, c: QueueItem)
    requires Cmp(a, b) == Greater && Cmp(b, c) == Greater
    ensures Cmp(a, c) == Greater
  {
    CmpMeaning(a, b);
    CmpMeaning(b, c);
    CmpMeaning(a, c);
  }

  /**
   * The position of the first greatest item among the first `n` items of the
   * heap contents, scanning from the front.
   */
  function MaxIndex(queue: seq<QueueItem>, n: nat): (b: nat)
    requires 0 < n <= |queue|
    ensures b < n
  {
    if n == 1 then 0
    else
      var b := MaxIndex(queue, n - 1);
      if Cmp(queue[n - 1], queue[b]) == Greater then n - 1 else b
  }

  /** No item among the first `n` is greater than the one `MaxIndex` picks. */
  lemma {:induction false} MaxIndexIsMax(queue: seq<QueueItem>, n: nat)
    requires 0 < n <= |queue|
    ensures forall j :: 0 <= j < n ==> Cmp(queue[j], queue[MaxIndex(queue, n)]) != Greater
  {
    if n > 1 {
      MaxIndexIsMax(queue, n - 1);
      var b := MaxIndex(queue, n - 1);
      if Cmp(queue[n - 1], queue[b]) == Greater {
        forall j | 0 <= j < n
          ensures Cmp(queue[j], queue[n - 1]) != Greater
        {
          if j < n - 1 && Cmp(queue[j], queue[n - 1]) == Greater {
            CmpTransitive(queue[j], queue[n - 1], queue[b]);
          } else if j == n - 1 {
            CmpMeaning(queue[j], queue[n - 1]);
          }
        }
      }
    }
  }

  /**
   * `BinaryHeap::pop` on the heap contents (their order is immaterial to the
   * heap): the greatest item under `Cmp`, and the contents without it.
   */
  function PopSpec(queue: seq<QueueItem>): (QueueItem, seq<QueueItem>)
    requires |queue| > 0
  {
    var b := MaxIndex(queue, |queue|);
    (queue[b], queue[..b] + queue[b + 1..])
  }

  /**
   * A pop removes exactly one item, and no item is greater than it: it has the
   * least priority, and the largest index among items of that priority.
   * Items equal under `Cmp` are identical, so which one is removed is immaterial.
   */
  lemma PopSpecIsMax(queue: seq<QueueItem>)
    requires |queue| > 0
    ensures var (top, rest) := PopSpec(queue);
            && multiset(queue) == multiset(rest) + multiset{top}
            && (forall k :: 0 <= k < |queue| ==> Cmp(queue[k], top) != Greater)
            && (forall k :: 0 <= k < |queue| ==>
                  top.cost < queue[k].cost || (top.cost == queue[k].cost && top.idx >= queue[k].idx))
  {
    var b := MaxIndex(queue, |queue|);
    var (top, rest) := PopSpec(queue);
    MaxIndexIsMax(queue, |queue|);
    assert queue == queue[..b] + [top] + queue[b + 1..];
    forall k | 0 <= k < |queue|
      ensures top.cost < queue[k].cost || (top.cost == queue[k].cost && top.idx >= queue[k].idx)
    {
      CmpMeaning(queue[k], top);
    }
  }

  /** The scan `BinaryHeap::pop` stands for: find the greatest item and take it out. */
  method PopMax(queue: seq<QueueItem>) returns (top: QueueItem, rest: seq<QueueItem>)
    requires |queue| > 0
    ensures (top, rest) == PopSpec(queue)
  {
    var best := 0;
    for k := 1 to |queue|
      invariant best == MaxIndex(queue, k)
    {
      if Cmp(queue[k], queue[best]) == Greater {
        best := k;
      }
    }
    top := queue[best];
    rest := queue[..best] + queue[best + 1..];
  }

  /**
   * Heap contents the search can rely on: every item names a reached cell,
   * and its priority is never below that cell's current cost.
   */
  predicate QueueValid(cells: seq<Field>, queue: seq<QueueItem>)
  {
    forall k :: 0 <= k < |queue| ==>
      queue[k].idx < |cells| && cells[queue[k].idx].Calculated? && cells[queue[k].idx].cost <= queue[k].cost
  }

  /** The grid moving on as `Evolves` allows keeps the heap valid. */
  lemma QueueValidEvolves(a: seq<Field>, b: seq<Field>, queue: seq<QueueItem>)
    requires QueueValid(a, queue) && Evolves(a, b)
    ensures QueueValid(b, queue)
  {
    forall k | 0 <= k < |queue|
      ensures queue[k].idx < |b| && b[queue[k].idx].Calculated? && b[queue[k].idx].cost <= queue[k].cost
    {
      assert FieldEvolves(a[queue[k].idx], b[queue[k].idx]);
    }
  }

  // ---------------------------------------------------------------------------
  // The initial heap
  // ---------------------------------------------------------------------------

  /**
   * The items the heap starts with, for the first `n` cells: one per reached
   * cell, its priority being its cost plus the turns needed along the
   * displacement from the target (x, y) to the cell.
   */
  function InitialQueue(m: Maze, x: usize, y: usize, n: nat): seq<QueueItem>
    requires Addressable(m) && n <= |m.cells|
  {
    if n == 0 then [] else InitialQueue(m, x, y, n - 1) + InitialItem(m, x, y, n - 1)
  }

  /** The item cell `i` contributes to the initial heap: one if it is reached, none otherwise. */
  function InitialItem(m: Maze, x: usize, y: usize, i: nat): seq<QueueItem>
    requires Addressable(m) && i < |m.cells|
  {
    match m.cells[i]
    case Calculated(d, c) => [QueueItem(c + MinRotationSpec(d, Vec((x, y), Coords(m.w, i))), i)]
    case _ => []
  }

  /** The item a reached cell contributes, with its priority. */
  predicate InitialItemOf(m: Maze, x: usize, y: usize, it: QueueItem)
    requires Addressable(m)
  {
    it.idx < |m.cells| && m.cells[it.idx].Calculated?
    && it.cost == m.cells[it.idx].cost + MinRotationSpec(m.cells[it.idx].dirs, Vec((x, y), Coords(m.w, it.idx)))
  }

  /** What cell `i` contributes: its own item when it is reached, nothing otherwise. */
  lemma InitialItemShape(m: Maze, x: usize, y: usize, i: nat)
    requires Addressable(m) && i < |m.cells|
    ensures |InitialItem(m, x, y, i)| == (if m.cells[i].Calculated? then 1 else 0)
    ensures |InitialItem(m, x, y, i)| == 1 ==>
              InitialItem(m, x, y, i)[0].idx == i && InitialItemOf(m, x, y, InitialItem(m, x, y, i)[0])
  {
  }

  /** Every initial item among the first `n` cells names a reached cell, with the priority stated above. */
  lemma {:induction false} InitialQueueItems(m: Maze, x: usize, y: usize, n: nat)
    requires Addressable(m) && n <= |m.cells|
    ensures forall k :: 0 <= k < |InitialQueue(m, x, y, n)| ==>
              InitialQueue(m, x, y, n)[k].idx < n && InitialItemOf(m, x, y, InitialQueue(m, x, y, n)[k])
  {
    if n > 0 {
      InitialQueueItems(m, x, y, n - 1);
      InitialItemShape(m, x, y, n - 1);
      var prev := InitialQueue(m, x, y, n - 1);
      var q := prev + InitialItem(m, x, y, n - 1);
      forall k | 0 <= k < |q|
        ensures q[k].idx < n && InitialItemOf(m, x, y, q[k])
      {
        if k < |prev| {
          assert q[k] == prev[k];
        }
      }
    }
  }

  /** The initial items for the first `n` cells come in strictly increasing index order, all below `n`. */
  lemma {:induction false} InitialQueueOrdered(m: Maze, x: usize, y: usize, n: nat)
    requires Addressable(m) && n <= |m.cells|
    ensures forall k :: 0 <= k < |InitialQueue(m, x, y, n)| ==> InitialQueue(m, x, y, n)[k].idx < n
    ensures forall k, l :: 0 <= k < l < |InitialQueue(m, x, y, n)| ==>
              InitialQueue(m, x, y, n)[k].idx < InitialQueue(m, x, y, n)[l].idx
  {
    if n > 0 {
      InitialQueueOrdered(m, x, y, n - 1);
      InitialItemShape(m, x, y, n - 1);
      var prev := InitialQueue(m, x, y, n - 1);
      var q := InitialQueue(m, x, y, n);
      assert q == prev + InitialItem(m, x, y, n - 1);
      forall k | 0 <= k < |q|
        ensures q[k].idx < n
      {
        if k < |prev| {
          assert q[k] == prev[k];
        }
      }
      forall k, l | 0 <= k < l < |q|
        ensures q[k].idx < q[l].idx
      {
        assert q[k] == prev[k];
        if l < |prev| {
          assert q[l] == prev[l];
        }
      }
    }
  }

  /** Every reached cell among the first `n` has an initial item. */
  lemma {:induction false} InitialQueueCovers(m: Maze, x: usize, y: usize, n: nat, i: nat)
    requires Addressable(m) && i < n <= |m.cells| && m.cells[i].Calculated?
    ensures exists k :: 0 <= k < |InitialQueue(m, x, y, n)| && InitialQueue(m, x, y, n)[k].idx == i
  {
    InitialItemShape(m, x, y, n - 1);
    var prev := InitialQueue(m, x, y, n - 1);
    var q := InitialQueue(m, x, y, n);
    assert q == prev + InitialItem(m, x, y, n - 1);
    if i < n - 1 {
      InitialQueueCovers(m, x, y, n - 1, i);
      var k :| 0 <= k < |prev| && prev[k].idx == i;
      assert q[k] == prev[k];
    } else {
      assert q[|prev|].idx == i;
    }
  }

  /** The initial heap is valid: each item names a reached cell, at a priority not below its cost. */
  lemma InitialQueueValid(m: Maze, x: usize, y: usize)
    requires Addressable(m)
    ensures QueueValid(m.cells, InitialQueue(m, x, y, |m.cells|))
  {
    InitialQueueItems(m, x, y, |m.cells|);
    var q := InitialQueue(m, x, y, |m.cells|);
    forall k | 0 <= k < |q|
      ensures q[k].idx < |m.cells| && m.cells[q[k].idx].Calculated? && m.cells[q[k].idx].cost <= q[k].cost
    {
      assert InitialItemOf(m, x, y, q[k]);
    }
  }

  /** The initial heap is empty exactly when no cell is reached. */
  lemma InitialQueueEmpty(m: Maze, x: usize, y: usize)
    requires Addressable(m)
    ensures |InitialQueue(m, x, y, |m.cells|)| == 0 <==> forall i :: 0 <= i < |m.cells| ==> !m.cells[i].Calculated?
  {
    InitialQueueItems(m, x, y, |m.cells|);
    var q := InitialQueue(m, x, y, |m.cells|);
    if |q| > 0 {
      assert InitialItemOf(m, x, y, q[0]);
    } else {
      forall i | 0 <= i < |m.cells|
        ensures !m.cells[i].Calculated?
      {
        if m.cells[i].Calculated? {
          InitialQueueCovers(m, x, y, |m.cells|, i);
        }
      }
    }
  }

  /** Builds the initial heap by scanning the cells, as the source's `filter_map` does. */
  method BuildQueue(cells: array<Field>, w: usize, x: usize, y: usize) returns (queue: seq<QueueItem>)
    requires Addressable(Maze(cells[..], w))
    ensures queue == InitialQueue(Maze(cells[..], w), x, y, cells.Length)
  {
    ghost var m := Maze(cells[..], w);
    queue := [];
    for idx := 0 to cells.Length
      invariant queue == InitialQueue(m, x, y, idx)
    {
      match cells[idx]
      case Calculated(dir, cost) =>
        var v := Vec((x, y), Coords(w, idx));
        var rotations := MinRotation(dir, v);
        queue := queue + [QueueItem(cost + rotations, idx)];
      case _ =>
    }
  }

  // ---------------------------------------------------------------------------
  // Relaxing the neighbours of a popped cell
  // ---------------------------------------------------------------------------

  /** The (from, to) pairs the expansion walks through: move towards `to`, entering the next cell from side `from`. */
  const MOVES: seq<(Dir, Dir)> := [(LEFT, RIGHT), (RIGHT, LEFT), (UP, DOWN), (DOWN, UP)]

  /** The cell `next` is set to (dirs, cost) and pushed with the turn heuristic towards (x, y). */
  function Pushed(cells: seq<Field>, w: usize, next: usize, dirs: Dir, cost: nat, x: usize, y: usize)
    : (seq<Field>, Option<QueueItem>)
    requires 0 < w && next < |cells|
  {
    (cells[next := Calculated(dirs, cost)],
     Some(QueueItem(cost + MinRotationSpec(dirs, Vec(Coords(w, next), (x, y))), next)))
  }

  /**
   * Offering cost `cost`, entering from side `from`, to the cell at index
   * `next`: the new grid and the item pushed, if any.
   */
  function RelaxAt(cells: seq<Field>, w: usize, next: usize, cost: nat, from: Dir, x: usize, y: usize)
    : (seq<Field>, Option<QueueItem>)
    requires 0 < w
  {
    match Get(Maze(cells, w), next)
    case Calculated(d, pcost) =>
      if pcost == cost then Pushed(cells, w, next, Or(d, from), cost, x, y)
      else if cost < pcost then Pushed(cells, w, next, from, cost, x, y)
      else (cells, None)
    case Empty => Pushed(cells, w, next, from, cost, x, y)
    case Wall => (cells, None)
  }

  /**
   * Relaxing one move from cell `idx`, whose popped value was
   * Calculated(dir, c): the offered cost adds a turn unless `dir` holds
   * `from`, and goes to the neighbour towards `to`.
   */
  function Relax(cells: seq<Field>, w: usize, idx: usize, dir: Dir, c: nat, mv: (Dir, Dir), x: usize, y: usize)
    : (seq<Field>, Option<QueueItem>)
    requires 0 < w && idx < USIZE_MAX
  {
    RelaxAt(cells, w, InDirIdx(w, idx, mv.1), c + (if HasAll(dir, mv.0) then 0 else 1), mv.0, x, y)
  }

  /**
   * One relaxation moves the grid on as `Evolves` allows, and only the
   * neighbour's cell can change.
   */
  lemma RelaxEvolves(cells: seq<Field>, w: usize, idx: usize, dir: Dir, c: nat, mv: (Dir, Dir), x: usize, y: usize)
    requires 0 < w && idx < USIZE_MAX
    ensures Evolves(cells, Relax(cells, w, idx, dir, c, mv, x, y).0)
    ensures forall j :: 0 <= j < |cells| && j != InDirIdx(w, idx, mv.1) ==>
              Relax(cells, w, idx, dir, c, mv, x, y).0[j] == cells[j]
  {
  }

  /**
   * An item is pushed exactly when the neighbour is Empty, or reached at a
   * cost not below the offered one; it names the neighbour, now reached at the
   * offered cost, with a priority between that cost and that cost plus three.
   */
  lemma RelaxPushes(cells: seq<Field>, w: usize, idx: usize, dir: Dir, c: nat, mv: (Dir, Dir), x: usize, y: usize)
    requires 0 < w && idx < USIZE_MAX && mv.0 in FLAGS
    ensures var (after, item) := Relax(cells, w, idx, dir, c, mv, x, y);
            var cost := c + if HasAll(dir, mv.0) then 0 else 1;
            var next := InDirIdx(w, idx, mv.1);
            && (item.Some? <==> next < |cells| && (cells[next] == Empty || (cells[next].Calculated? && cost <= cells[next].cost)))
            && (item.Some? ==>
                  item.value.idx == next && after[next].Calculated? && after[next].cost == cost
                  && cost <= item.value.cost <= cost + 3)
  {
    var (after, item) := Relax(cells, w, idx, dir, c, mv, x, y);
    var next := InDirIdx(w, idx, mv.1);
    if item.Some? {
      MinRotationAtMostThree(after[next].dirs, Vec(Coords(w, next), (x, y)));
    }
  }

  /**
   * What a relaxation stores: at an equal cost the neighbour adds side `from`
   * to the sides it records; when Empty or dearer it records `from` alone, at
   * the offered cost. Without a push the grid is unchanged.
   */
  lemma RelaxStores(cells: seq<Field>, w: usize, idx: usize, dir: Dir, c: nat, mv: (Dir, Dir), x: usize, y: usize)
    requires 0 < w && idx < USIZE_MAX
    ensures var (after, item) := Relax(cells, w, idx, dir, c, mv, x, y);
            var cost := c + if HasAll(dir, mv.0) then 0 else 1;
            var next := InDirIdx(w, idx, mv.1);
            && (item.None? ==> after == cells)
            && (item.Some? ==> next < |cells|)
            && (item.Some? && cells[next].Calculated? && cells[next].cost == cost ==>
                  after == cells[next := Calculated(Or(cells[next].dirs, mv.0), cost)])
            && (item.Some? && !(cells[next].Calculated? && cells[next].cost == cost) ==>
                  after == cells[next := Calculated(mv.0, cost)])
  {
  }

  /**
   * A neighbour already reached at the offered cost from side `from` is pushed
   * again while the grid stays as it was: the heap can grow without any cell
   * changing, so the search is not evidently finite.
   */
  lemma EqualCostRepush(cells: seq<Field>, w: usize, idx: usize, dir: Dir, c: nat, mv: (Dir, Dir), x: usize, y: usize)
    requires 0 < w && idx < USIZE_MAX
    requires var next := InDirIdx(w, idx, mv.1);
             next < |cells| && cells[next].Calculated? && HasAll(cells[next].dirs, mv.0)
             && cells[next].cost == c + if HasAll(dir, mv.0) then 0 else 1
    ensures Relax(cells, w, idx, dir, c, mv, x, y).0 == cells
    ensures Relax(cells, w, idx, dir, c, mv, x, y).1.Some?
  {
    var next := InDirIdx(w, idx, mv.1);
    OrGrowsUnlessContained(cells[next].dirs, mv.0);
    assert cells[next := cells[next]] == cells;
  }

  /** The items an optional push adds to the heap. */
  function Items(item: Option<QueueItem>): seq<QueueItem>
  {
    if item.Some? then [item.value] else []
  }

  /** The first `n` moves of one expansion: the grid afterwards and the items pushed, in order. */
  function ExpandMoves(cells: seq<Field>, w: usize, idx: usize, dir: Dir, c: nat, x: usize, y: usize, n: nat)
    : (seq<Field>, seq<QueueItem>)
    requires 0 < w && idx < USIZE_MAX && n <= 4
  {
    if n == 0 then (cells, [])
    else
      var (prev, pushed) := ExpandMoves(cells, w, idx, dir, c, x, y, n - 1);
      var (after, item) := Relax(prev, w, idx, dir, c, MOVES[n - 1], x, y);
      (after, pushed + Items(item))
  }

  /** One relaxation keeps a valid heap valid, the pushed item included. */
  lemma RelaxKeepsQueueValid(cells: seq<Field>, w: usize, idx: usize, dir: Dir, c: nat, mv: (Dir, Dir), x: usize, y: usize, queue: seq<QueueItem>)
    requires 0 < w && idx < USIZE_MAX && mv.0 in FLAGS && QueueValid(cells, queue)
    ensures Evolves(cells, Relax(cells, w, idx, dir, c, mv, x, y).0)
    ensures QueueValid(Relax(cells, w, idx, dir, c, mv, x, y).0, queue + Items(Relax(cells, w, idx, dir, c, mv, x, y).1))
  {
    var (after, item) := Relax(cells, w, idx, dir, c, mv, x, y);
    RelaxEvolves(cells, w, idx, dir, c, mv, x, y);
    RelaxPushes(cells, w, idx, dir, c, mv, x, y);
    QueueValidEvolves(cells, after, queue);
    var q := queue + Items(item);
    forall k | 0 <= k < |q|
      ensures q[k].idx < |after| && after[q[k].idx].Calculated? && after[q[k].idx].cost <= q[k].cost
    {
      if k < |queue| {
        assert q[k] == queue[k];
      }
    }
  }

  lemma ExpandMovesStep(cells: seq<Field>, w: usize, idx: usize, dir: Dir, c: nat, x: usize, y: usize, k: nat)
    requires 0 < w && idx < USIZE_MAX && k < 4
    ensures var (prev, pushed) := ExpandMoves(cells, w, idx, dir, c, x, y, k);
            var (after, item) := Relax(prev, w, idx, dir, c, MOVES[k], x, y);
            ExpandMoves(cells, w, idx, dir, c, x, y, k + 1) == (after, pushed + Items(item))
  {
  }

  /**
   * An expansion moves the grid on as `Evolves` allows and pushes only valid
   * items, so a valid heap stays valid.
   */
  lemma {:induction false} ExpandKeepsQueueValid(cells: seq<Field>, w: usize, idx: usize, dir: Dir, c: nat, x: usize, y: usize, n: nat, queue: seq<QueueItem>)
    requires 0 < w && idx < USIZE_MAX && n <= 4 && QueueValid(cells, queue)
    ensures Evolves(cells, ExpandMoves(cells, w, idx, dir, c, x, y, n).0)
    ensures QueueValid(ExpandMoves(cells, w, idx, dir, c, x, y, n).0, queue + ExpandMoves(cells, w, idx, dir, c, x, y, n).1)
  {
    if n > 0 {
      ExpandKeepsQueueValid(cells, w, idx, dir, c, x, y, n - 1, queue);
      var (prev, pushed) := ExpandMoves(cells, w, idx, dir, c, x, y, n - 1);
      assert MOVES[n - 1].0 in FLAGS;
      RelaxKeepsQueueValid(prev, w, idx, dir, c, MOVES[n - 1], x, y, queue + pushed);
      var (after, item) := Relax(prev, w, idx, dir, c, MOVES[n - 1], x, y);
      EvolvesTransitive(cells, prev, after);
      assert queue + pushed + Items(item) == queue + ExpandMoves(cells, w, idx, dir, c, x, y, n).1;
    }
  }

  /**
   * The neighbour match of the inner `for` loop: offer `cost`, entering from
   * side `from`, to the cell at `next`, writing the grid in place and
   * returning the item to push.
   */
  method RelaxNeighbour(cells: array<Field>, w: usize, next: usize, cost: nat, from: Dir, x: usize, y: usize)
    returns (item: Option<QueueItem>)
    requires 0 < w
    modifies cells
    ensures (cells[..], item) == RelaxAt(old(cells[..]), w, next, cost, from, x, y)
  {
    var neighbour := if next < cells.Length then cells[next] else Wall;
    assert neighbour == Get(Maze(cells[..], w), next);
    item := None;
    match neighbour {
    case Calculated(d, pcost) =>
      if pcost == cost {
        var pushed := Push(cells, w, next, Or(d, from), cost, x, y);
        item := Some(pushed);
      } else if cost < pcost {
        var pushed := Push(cells, w, next, from, cost, x, y);
        item := Some(pushed);
      }
    case Empty =>
      var pushed := Push(cells, w, next, from, cost, x, y);
      item := Some(pushed);
    case Wall =>
    }
  }

  /**
   * The tail shared by the three updating arms of the neighbour match: store
   * Calculated(dirs, cost) at `next` and build its heap item, whose priority
   * adds the turns needed along the displacement from `next` to (x, y).
   */
  method Push(cells: array<Field>, w: usize, next: usize, dirs: Dir, cost: nat, x: usize, y: usize)
    returns (item: QueueItem)
    requires 0 < w && next < cells.Length
    modifies cells
    ensures (cells[..], Some(item)) == Pushed(old(cells[..]), w, next, dirs, cost, x, y)
  {
    cells[next] := Calculated(dirs, cost);
    var v := Vec(Coords(w, next), (x, y));
    var rotations := MinRotation(dirs, v);
    item := QueueItem(cost + rotations, next);
  }

  /**
   * One pass of the inner `for` loop for cell `idx`, whose popped value was
   * Calculated(dir, c): compute the offered cost and the neighbour, then relax it.
   */
  method RelaxMove(cells: array<Field>, w: usize, idx: usize, dir: Dir, c: nat, mv: (Dir, Dir), x: usize, y: usize)
    returns (item: Option<QueueItem>)
    requires 0 < w && idx < USIZE_MAX
    modifies cells
    ensures (cells[..], item) == Relax(old(cells[..]), w, idx, dir, c, mv, x, y)
  {
    var (from, to) := mv;
    var cost := c + if HasAll(dir, from) then 0 else 1;
    var next := InDirIdx(w, idx, to);
    item := RelaxNeighbour(cells, w, next, cost, from, x, y);
  }

  /**
   * The body of the `while let` loop for one popped cell `idx`, which was
   * Calculated(dir, c) when popped: the four moves relax the neighbours in
   * place and push onto the heap.
   */
  method Expand(cells: array<Field>, w: usize, idx: usize, x: usize, y: usize, queue: seq<QueueItem>)
    returns (q: seq<QueueItem>)
    requires 0 < w && idx < cells.Length < USIZE_MAX && cells[idx].Calculated?
    modifies cells
    ensures var (after, pushed) := ExpandMoves(old(cells[..]), w, idx, old(cells[idx]).dirs, old(cells[idx]).cost, x, y, 4);
            cells[..] == after && q == queue + pushed
  {
    ghost var start := cells[..];
    var field := cells[idx];
    var dir, c := field.dirs, field.cost;
    q := queue;
    for k := 0 to 4
      invariant cells[..] == ExpandMoves(start, w, idx, dir, c, x, y, k).0
      invariant q == queue + ExpandMoves(start, w, idx, dir, c, x, y, k).1
    {
      ExpandMovesStep(start, w, idx, dir, c, x, y, k);
      var item := RelaxMove(cells, w, idx, dir, c, MOVES[k], x, y);
      q := q + Items(item);
    }
  }

  // ---------------------------------------------------------------------------
  // The solver (`astar`)
  // ---------------------------------------------------------------------------

  /**
   * One turn of the `while let` loop on the grid and the heap contents: pop
   * the greatest item and expand its cell as it was when popped. A popped
   * cell that is not reached is skipped, as the source's `continue` does; in
   * a valid heap every item names a reached cell, so this never happens
   * (`PopAndExpand`). An empty heap ends the loop and is left as it is.
   */
  function SearchStep(cells: seq<Field>, w: usize, x: usize, y: usize, queue: seq<QueueItem>)
    : (seq<Field>, seq<QueueItem>)
    requires 0 < w
  {
    if |queue| == 0 then (cells, queue)
    else
      var (top, rest) := PopSpec(queue);
      if top.idx < |cells| && top.idx < USIZE_MAX && cells[top.idx].Calculated? then
        var (after, pushed) := ExpandMoves(cells, w, top.idx, cells[top.idx].dirs, cells[top.idx].cost, x, y, |MOVES|);
        (after, rest + pushed)
      else (cells, rest)
  }

  /** The grid and the heap contents after `n` turns of the loop, starting from the initial heap. */
  function Expansions(m: Maze, x: usize, y: usize, n: nat): (seq<Field>, seq<QueueItem>)
    requires Addressable(m)
    decreases n, 0
  {
    if n == 0 then (m.cells, InitialQueue(m, x, y, |m.cells|)) else TurnAfter(m, x, y, n - 1)
  }

  /** Turn `n + 1` of the loop, applied to the state after `n` turns. */
  function TurnAfter(m: Maze, x: usize, y: usize, n: nat): (seq<Field>, seq<QueueItem>)
    requires Addressable(m)
    decreases n, 1
  {
    var (cells, queue) := Expansions(m, x, y, n);
    SearchStep(cells, m.w, x, y, queue)
  }

  /** Each turn is one `SearchStep` of the state before it. */
  lemma ExpansionsStep(m: Maze, x: usize, y: usize, n: nat)
    requires Addressable(m)
    ensures Expansions(m, x, y, n + 1) == SearchStep(Expansions(m, x, y, n).0, m.w, x, y, Expansions(m, x, y, n).1)
  {
    assert Expansions(m, x, y, n + 1) == TurnAfter(m, x, y, n);
  }

  /**
   * The loop takes another turn after `n` turns: the heap is not empty, and
   * no turn has yet left the target (x, y) reached.
   */
  predicate GoesOn(m: Maze, x: usize, y: usize, n: nat)
    requires Addressable(m)
  {
    var (cells, queue) := Expansions(m, x, y, n);
    |queue| > 0 && (n == 0 || !FieldAt(Maze(cells, m.w), x, y).Calculated?)
  }

  /** The loop went on after each of its first `n` turns. */
  predicate GoesOnBefore(m: Maze, x: usize, y: usize, n: nat)
    requires Addressable(m)
  {
    forall k :: 0 <= k < n ==> GoesOn(m, x, y, k)
  }

  lemma GoesOnOneMore(m: Maze, x: usize, y: usize, n: nat)
    requires Addressable(m) && GoesOnBefore(m, x, y, n) && GoesOn(m, x, y, n)
    ensures GoesOnBefore(m, x, y, n + 1)
  {
  }

  /**
   * One turn of the `while let` loop: pop the greatest item and expand its
   * cell. The popped cell is always reached, so the source's `continue` is
   * never taken; the grid moves on as `Evolves` allows and the heap stays valid.
   */
  method PopAndExpand(cells: array<Field>, w: usize, x: usize, y: usize, queue: seq<QueueItem>)
    returns (q: seq<QueueItem>)
    requires 0 < w && cells.Length < USIZE_MAX && |queue| > 0 && QueueValid(cells[..], queue)
    modifies cells
    ensures (cells[..], q) == SearchStep(old(cells[..]), w, x, y, queue)
    ensures Evolves(old(cells[..]), cells[..]) && QueueValid(cells[..], q)
  {
    var item, rest := PopMax(queue);
    PopSpecIsMax(queue);
    assert item in multiset(queue);
    var k :| 0 <= k < |queue| && queue[k] == item;
    assert cells[item.idx].Calculated?;
    ghost var before := cells[..];
    assert QueueValid(before, rest) by {
      forall j | 0 <= j < |rest|
        ensures rest[j].idx < |before| && before[rest[j].idx].Calculated? && before[rest[j].idx].cost <= rest[j].cost
      {
        assert rest[j] in multiset(queue);
      }
    }
    q := Expand(cells, w, item.idx, x, y, rest);
    ExpandKeepsQueueValid(before, w, item.idx, before[item.idx].dirs, before[item.idx].cost, x, y, 4, rest);
  }

  /**
   * One counted turn of the loop, taking the state after `n` turns, after
   * which the loop went on, to the state after `n + 1`; `reached` is the
   * `break` test on the target.
   */
  method Turn(maze: Maze, ghost n: nat, cells: array<Field>, x: usize, y: usize, queue: seq<QueueItem>)
    returns (q: seq<QueueItem>, reached: bool)
    requires Addressable(maze) && cells.Length == |maze.cells|
    requires (cells[..], queue) == Expansions(maze, x, y, n)
    requires Evolves(maze.cells, cells[..]) && QueueValid(cells[..], queue)
    requires GoesOnBefore(maze, x, y, n) && GoesOn(maze, x, y, n)
    modifies cells
    ensures (cells[..], q) == Expansions(maze, x, y, n + 1)
    ensures Evolves(maze.cells, cells[..]) && QueueValid(cells[..], q)
    ensures GoesOnBefore(maze, x, y, n + 1)
    ensures reached <==> FieldAt(Maze(cells[..], maze.w), x, y).Calculated?
  {
    ghost var before := cells[..];
    GoesOnOneMore(maze, x, y, n);
    q := PopAndExpand(cells, maze.w, x, y, queue);
    EvolvesTransitive(maze.cells, before, cells[..]);
    ExpansionsStep(maze, x, y, n);
    reached := FieldAt(Maze(cells[..], maze.w), x, y).Calculated?;
  }

  /** Why the search ended: the heap ran empty, the target was reached, or the fuel bound was hit. */
  datatype Stop = QueueEmpty | TargetReached | OutOfFuel

  /**
   * The `while let` loop from the state after `n` turns, bounded so that at
   * most `fuel` turns are taken in all.
   */
  method Loop(maze: Maze, x: usize, y: usize, fuel: nat, cells: array<Field>, queue: seq<QueueItem>)
    returns (stop: Stop, expansions: nat)
    requires Addressable(maze) && cells.Length == |maze.cells|
    requires (cells[..], queue) == Expansions(maze, x, y, 0)
    requires Evolves(maze.cells, cells[..]) && QueueValid(cells[..], queue)
    modifies cells
    ensures cells[..] == Expansions(maze, x, y, expansions).0
    ensures Evolves(maze.cells, cells[..])
    ensures expansions <= fuel && GoesOnBefore(maze, x, y, expansions)
    ensures stop == OutOfFuel <==> GoesOn(maze, x, y, expansions)
    ensures stop == OutOfFuel ==> expansions == fuel
    ensures stop == TargetReached <==> expansions > 0 && FieldAt(Maze(cells[..], maze.w), x, y).Calculated?
    ensures stop == QueueEmpty ==> |Expansions(maze, x, y, expansions).1| == 0
  {
    var q := queue;
    var reached := false;
    expansions := 0;
    while !reached && |q| > 0 && expansions < fuel
      invariant (cells[..], q) == Expansions(maze, x, y, expansions)
      invariant Evolves(maze.cells, cells[..]) && QueueValid(cells[..], q)
      invariant expansions <= fuel && GoesOnBefore(maze, x, y, expansions)
      invariant reached <==> expansions > 0 && FieldAt(Maze(cells[..], maze.w), x, y).Calculated?
      decreases fuel - expansions
    {
      q, reached := Turn(maze, expansions, cells, x, y, q);
      expansions := expansions + 1;
    }
    stop := if reached then TargetReached else if |q| > 0 then OutOfFuel else QueueEmpty;
  }

  /**
   * `astar`: pops the best item, expands its cell, and stops right after the
   * first expansion that leaves the target (x, y) reached, or when the heap is
   * empty. The loop is bounded by `fuel` expansions. The result is the grid
   * after `expansions` turns; the loop went on after every earlier turn, and
   * stopped by its own rule unless it ran out of fuel.
   */
  method Search(maze: Maze, x: usize, y: usize, fuel: nat) returns (r: Maze, stop: Stop, expansions: nat)
    requires Addressable(maze)
    ensures r == Maze(Expansions(maze, x, y, expansions).0, maze.w)
    ensures Evolves(maze.cells, r.cells)
    ensures expansions <= fuel && GoesOnBefore(maze, x, y, expansions)
    ensures stop == OutOfFuel <==> GoesOn(maze, x, y, expansions)
    ensures stop == OutOfFuel ==> expansions == fuel
    ensures stop == TargetReached <==> expansions > 0 && FieldAt(r, x, y).Calculated?
    ensures stop == QueueEmpty ==> |Expansions(maze, x, y, expansions).1| == 0 && !FieldAt(r, x, y).Calculated?
  {
    var cells := new Field[|maze.cells|](i requires 0 <= i < |maze.cells| => maze.cells[i]);
    assert cells[..] == maze.cells;
    var queue := BuildQueue(cells, maze.w, x, y);
    InitialQueueValid(maze, x, y);
    stop, expansions := Loop(maze, x, y, fuel, cells, queue);
    r := Maze(cells[..], maze.w);
    if stop == QueueEmpty && expansions == 0 {
      InitialQueueEmpty(maze, x, y);
      assert r.cells == maze.cells;
    }
  }
}
