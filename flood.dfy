/**
 * The flood solver (src/maze/flood.rs). Every round recomputes each cell from
 * the previous round's grid: a cell takes the cheapest cost offered by its
 * reached neighbours and remembers the sides that offer it. The rounds
 * alternate between two buffers and stop once no cell improved, or once every
 * improvement is no cheaper than the exit's current cost.
 */
module Flood {
  import opened Direction
  import opened Grid

  /** The sides `update_field` looks at, in its order. */
  const SIDES: seq<Dir> := [UP, DOWN, LEFT, RIGHT]

  lemma SidesAreFlags()
    ensures forall k :: 0 <= k < 4 ==> SIDES[k] in FLAGS
    ensures forall f :: f in FLAGS ==> f in SIDES
  {
  }

  // ---------------------------------------------------------------------------
  // Best offer for one cell (`update_field`)
  // ---------------------------------------------------------------------------

  /**
   * What the neighbour on side `d` offers cell `i`: nothing unless that
   * neighbour is reached; otherwise its cost, plus one for a turn unless the
   * neighbour was itself entered moving along `d`.
   */
  function Offer(m: Maze, i: usize, d: Dir): (r: Option<nat>)
    requires Addressable(m) && i < USIZE_MAX
    ensures r.Some? <==> InDir(m, i, d).Calculated?
    ensures r.Some? && HasAll(InDir(m, i, d).dirs, d) ==> r.value == InDir(m, i, d).cost
    ensures r.Some? && !HasAll(InDir(m, i, d).dirs, d) ==> r.value == InDir(m, i, d).cost + 1
  {
    match InDir(m, i, d)
    case Calculated(pdir, cost) => Some(cost + if HasAll(pdir, d) then 0 else 1)
    case _ => None
  }

  /** The smaller of two optional costs, None counting as no offer at all. */
  function MinOpt(a: Option<nat>, b: Option<nat>): (r: Option<nat>)
    ensures r.None? <==> a.None? && b.None?
    ensures r.Some? ==> r == a || r == b
    ensures a.Some? ==> r.Some? && r.value <= a.value
    ensures b.Some? ==> r.Some? && r.value <= b.value
  {
    match (a, b)
    case (None, _) => b
    case (_, None) => a
    case (Some(x), Some(y)) => if y < x then b else a
  }

  /** The offers of the four sides, in the order `update_field` scans them. */
  function Offers(m: Maze, i: usize): (o: seq<Option<nat>>)
    requires Addressable(m) && i < USIZE_MAX
    ensures |o| == 4 && forall k :: 0 <= k < 4 ==> o[k] == Offer(m, i, SIDES[k])
  {
    [Offer(m, i, UP), Offer(m, i, DOWN), Offer(m, i, LEFT), Offer(m, i, RIGHT)]
  }

  /** The cheapest of the first `n` offers. */
  function LeastOffer(o: seq<Option<nat>>, n: nat): Option<nat>
    requires n <= |o|
  {
    if n == 0 then None else MinOpt(LeastOffer(o, n - 1), o[n - 1])
  }

  /** The sides among the first `n` whose offer is exactly `c`. */
  function SidesOffering(o: seq<Option<nat>>, n: nat, c: nat): Dir
    requires n <= |o| <= 4
  {
    if n == 0 then NONE
    else Or(SidesOffering(o, n - 1, c), if o[n - 1] == Some(c) then SIDES[n - 1] else NONE)
  }

  /** The best the first `n` offers give: the cheapest cost and every side offering it. */
  function BestAmong(o: seq<Option<nat>>, n: nat): (Dir, nat)
    requires n <= |o| <= 4
  {
    match LeastOffer(o, n)
    case None => (NONE, 0)
    case Some(c) => (SidesOffering(o, n, c), c)
  }

  /**
   * The outcome of `update_field` for cell `i`: (NONE, 0) for a wall or a cell
   * no neighbour reaches, otherwise the best all four sides offer.
   */
  function Best(m: Maze, i: usize): (Dir, nat)
    requires Addressable(m) && i < |m.cells|
  {
    if m.cells[i] == Wall then (NONE, 0) else BestAmong(Offers(m, i), 4)
  }

  lemma {:induction false} LeastOfferIsAnOffer(o: seq<Option<nat>>, n: nat)
    requires n <= |o|
    ensures LeastOffer(o, n).None? <==> forall k :: 0 <= k < n ==> o[k].None?
    ensures LeastOffer(o, n).Some? ==> exists k :: 0 <= k < n && o[k] == LeastOffer(o, n)
    ensures forall k :: 0 <= k < n && o[k].Some? ==> LeastOffer(o, n).Some? && LeastOffer(o, n).value <= o[k].value
  {
    if n > 0 {
      LeastOfferIsAnOffer(o, n - 1);
      if LeastOffer(o, n).Some? && LeastOffer(o, n) != o[n - 1] {
        var k :| 0 <= k < n - 1 && o[k] == LeastOffer(o, n - 1);
        assert o[k] == LeastOffer(o, n);
      }
    }
  }

  lemma {:induction false} SidesOfferingExactly(o: seq<Option<nat>>, n: nat, c: nat)
    requires n <= |o| <= 4
    ensures forall f :: f in FLAGS ==>
              (Has(SidesOffering(o, n, c), f) <==> exists k :: 0 <= k < n && SIDES[k] == f && o[k] == Some(c))
  {
    if n > 0 {
      SidesOfferingExactly(o, n - 1, c);
      SidesAreFlags();
      var prev := SidesOffering(o, n - 1, c);
      var added := if o[n - 1] == Some(c) then SIDES[n - 1] else NONE;
      forall f | f in FLAGS
        ensures Has(SidesOffering(o, n, c), f) <==> exists k :: 0 <= k < n && SIDES[k] == f && o[k] == Some(c)
      {
        HasOr(prev, added, f);
        FlagHasFlag(SIDES[n - 1], f);
      }
    }
  }

  /**
   * What the best offer means: NONE exactly for a wall or a cell no reached
   * neighbour borders; otherwise a cost no side undercuts, offered by some
   * side, together with exactly the sides that offer it.
   */
  lemma BestCharacterized(m: Maze, i: usize)
    requires Addressable(m) && i < |m.cells|
    ensures Best(m, i).0 == NONE <==>
              m.cells[i] == Wall || forall f :: f in FLAGS ==> !InDir(m, i, f).Calculated?
    ensures m.cells[i] == Wall ==> Best(m, i) == (NONE, 0)
    ensures Best(m, i).0 != NONE ==>
              (forall f :: f in FLAGS && InDir(m, i, f).Calculated? ==> Best(m, i).1 <= Offer(m, i, f).value)
              && forall f :: f in FLAGS ==> (Has(Best(m, i).0, f) <==> Offer(m, i, f) == Some(Best(m, i).1))
  {
    var o := Offers(m, i);
    LeastOfferIsAnOffer(o, 4);
    NoOffers(m, i);
    if m.cells[i] != Wall {
      match LeastOffer(o, 4)
      case None =>
      case Some(c) =>
        BestOfLeast(m, i, c);
    }
  }

  /** No side offers anything exactly when no neighbour is reached. */
  lemma NoOffers(m: Maze, i: usize)
    requires Addressable(m) && i < USIZE_MAX
    ensures (forall k :: 0 <= k < 4 ==> Offers(m, i)[k].None?) <==> forall f :: f in FLAGS ==> !InDir(m, i, f).Calculated?
  {
    var o := Offers(m, i);
    SidesAreFlags();
    if forall k :: 0 <= k < 4 ==> o[k].None? {
      forall f | f in FLAGS
        ensures !InDir(m, i, f).Calculated?
      {
        var k :| 0 <= k < 4 && SIDES[k] == f;
        assert o[k] == Offer(m, i, f);
      }
    }
  }

  /** When the cheapest offer is `c`, no side undercuts it and the sides offering it are exactly those recorded. */
  lemma BestOfLeast(m: Maze, i: usize, c: nat)
    requires Addressable(m) && i < USIZE_MAX && LeastOffer(Offers(m, i), 4) == Some(c)
    ensures forall f :: f in FLAGS && InDir(m, i, f).Calculated? ==> c <= Offer(m, i, f).value
    ensures forall f :: f in FLAGS ==> (Has(SidesOffering(Offers(m, i), 4, c), f) <==> Offer(m, i, f) == Some(c))
    ensures SidesOffering(Offers(m, i), 4, c) != NONE
  {
    var o := Offers(m, i);
    SidesAreFlags();
    LeastOfferIsAnOffer(o, 4);
    SidesOfferingExactly(o, 4, c);
    assert forall f :: f in FLAGS ==> exists k :: 0 <= k < 4 && SIDES[k] == f;
    var k :| 0 <= k < 4 && o[k] == Some(c);
    assert Has(SidesOffering(o, 4, c), SIDES[k]);
  }

  lemma {:induction false} NothingBelowLeast(o: seq<Option<nat>>, n: nat, c: nat)
    requires n <= |o| <= 4
    requires LeastOffer(o, n).None? || c < LeastOffer(o, n).value
    ensures SidesOffering(o, n, c) == NONE
  {
    if n > 0 {
      NothingBelowLeast(o, n - 1, c);
    }
  }

  lemma {:induction false} LeastIsOffered(o: seq<Option<nat>>, n: nat)
    requires n <= |o| <= 4
    requires LeastOffer(o, n).Some?
    ensures SidesOffering(o, n, LeastOffer(o, n).value) != NONE
  {
    var c := LeastOffer(o, n).value;
    if LeastOffer(o, n - 1) == Some(c) {
      LeastIsOffered(o, n - 1);
      assert HasAll(SidesOffering(o, n, c), SidesOffering(o, n - 1, c));
    } else {
      assert o[n - 1] == Some(c);
    }
  }

  /**
   * One step of the scan in `update_field`: fold the offer `updated` from side
   * `dir` into the best so far.
   */
  function Fold(best: (Dir, nat), updated: Option<nat>, dir: Dir): (Dir, nat)
  {
    match updated
    case None => best
    case Some(ncost) =>
      if best.0 == NONE then (dir, ncost)
      else if best.1 == ncost then (Or(best.0, dir), best.1)
      else if ncost < best.1 then (dir, ncost)
      else best
  }

  /** Folding the offer of one more side into the best so far gives the best of one more side. */
  lemma FoldExtends(o: seq<Option<nat>>, k: nat)
    requires k < |o| == 4
    ensures BestAmong(o, k + 1) == Fold(BestAmong(o, k), o[k], SIDES[k])
    ensures BestAmong(o, k + 1).0 == NONE <==> LeastOffer(o, k + 1).None?
  {
    var updated := o[k];
    if LeastOffer(o, k).Some? {
      LeastIsOffered(o, k);
    }
    if LeastOffer(o, k + 1).Some? {
      LeastIsOffered(o, k + 1);
    }
    if updated.Some? {
      var ncost := updated.value;
      if LeastOffer(o, k).None? || ncost < LeastOffer(o, k).value {
        NothingBelowLeast(o, k, ncost);
      }
    }
  }

  /**
   * `update_field`: scans the four sides in order, folding each offer into the
   * best so far; the result is the best offer.
   */
  method UpdateField(input: Maze, idx: usize) returns (best: (Dir, nat))
    requires Addressable(input) && idx < |input.cells|
    ensures best == Best(input, idx)
  {
    best := (NONE, 0);
    if input.cells[idx] == Wall {
      return;
    }
    ghost var offers := Offers(input, idx);
    for k := 0 to 4
      invariant best == BestAmong(offers, k)
    {
      var dir := SIDES[k];
      var updated := match InDir(input, idx, dir)
        case Calculated(pdir, cost) => Some(cost + if HasAll(pdir, dir) then 0 else 1)
        case _ => None;
      FoldExtends(offers, k);
      best := Fold(best, updated, dir);
    }
  }

  // ---------------------------------------------------------------------------
  // Settling one cell (the match in `iteration`)
  // ---------------------------------------------------------------------------

  /**
   * The new value of a cell whose previous value is `prev` and whose best offer
   * is `best`, together with the change it reports (Some(cost) when it improved).
   */
  function Settle(best: (Dir, nat), prev: Field): (Field, Option<nat>)
  {
    var (udir, ucost) := best;
    if udir == NONE then (prev, None)
    else match prev
      case Calculated(pdir, pcost) =>
        if ucost == pcost then
          if !HasAll(pdir, udir) then (Calculated(Or(udir, pdir), ucost), Some(ucost))
          else (Calculated(udir, ucost), None)
        else if ucost < pcost then (Calculated(udir, ucost), Some(ucost))
        else (prev, None)
      case Empty => (Calculated(udir, ucost), Some(ucost))
      case Wall => (prev, None)
  }

  /** Settling never breaks what `FieldEvolves` allows: walls stay, costs never rise. */
  lemma SettleEvolves(best: (Dir, nat), prev: Field)
    ensures FieldEvolves(prev, Settle(best, prev).0)
  {
  }

  /**
   * A change is reported exactly when the cell was first reached, reached
   * more cheaply, or reached at its old cost from a side it did not record;
   * the reported value is the new cost. A new side at the old cost joins the
   * recorded ones; a first or cheaper offer records the offering sides alone;
   * a cell that reports nothing, other than at an equal cost, is left as it was.
   */
  lemma SettleReportsImprovement(best: (Dir, nat), prev: Field)
    ensures Settle(best, prev).1.Some? <==>
              best.0 != NONE &&
              (prev == Empty
               || (prev.Calculated? && best.1 < prev.cost)
               || (prev.Calculated? && best.1 == prev.cost && !HasAll(prev.dirs, best.0)))
    ensures Settle(best, prev).1.Some? ==>
              Settle(best, prev).0 == Calculated(Settle(best, prev).0.dirs, best.1)
              && Settle(best, prev).1 == Some(best.1)
    ensures best.0 != NONE && prev.Calculated? && best.1 == prev.cost && !HasAll(prev.dirs, best.0) ==>
              Settle(best, prev).0 == Calculated(Or(best.0, prev.dirs), best.1)
    ensures best.0 != NONE && (prev == Empty || (prev.Calculated? && best.1 < prev.cost)) ==>
              Settle(best, prev).0 == Calculated(best.0, best.1)
    ensures Settle(best, prev).1.None? && !(best.0 != NONE && prev.Calculated? && best.1 == prev.cost) ==>
              Settle(best, prev).0 == prev
  {
  }

  /**
   * An offer at the cell's own cost from sides it already recorded reports no
   * change, and the cell then keeps only the offering sides: its recorded
   * sides may shrink.
   */
  lemma SettleSameCostNoNewSides(best: (Dir, nat), pdir: Dir)
    requires best.0 != NONE && HasAll(pdir, best.0)
    ensures Settle(best, Calculated(pdir, best.1)) == (Calculated(best.0, best.1), None)
  {
  }

  /** A wall is left as it is whatever it is offered. */
  lemma SettleKeepsWall(best: (Dir, nat))
    ensures Settle(best, Wall) == (Wall, None)
  {
  }

  // ---------------------------------------------------------------------------
  // One round (`iteration`)
  // ---------------------------------------------------------------------------

  /** Cell `i` of the next round and the change it reports. */
  function NextCell(m: Maze, i: usize): (Field, Option<nat>)
    requires Addressable(m) && i < |m.cells|
  {
    Settle(Best(m, i), m.cells[i])
  }

  /** The next values and reported changes of the first `n` cells, in index order. */
  function NextCells(m: Maze, n: nat): (r: seq<(Field, Option<nat>)>)
    requires Addressable(m) && n <= |m.cells|
    ensures |r| == n
  {
    if n == 0 then [] else NextCells(m, n - 1) + [NextCell(m, n - 1)]
  }

  lemma {:induction false} NextCellsAt(m: Maze, n: nat, i: nat)
    requires Addressable(m) && i < n <= |m.cells|
    ensures NextCells(m, n)[i] == NextCell(m, i)
  {
    if i < n - 1 {
      NextCellsAt(m, n - 1, i);
      assert NextCells(m, n) == NextCells(m, n - 1) + [NextCell(m, n - 1)];
    }
  }

  /** The grid after one round. */
  function Step(m: Maze): (r: Maze)
    requires Addressable(m)
    ensures Addressable(r) && r.w == m.w && |r.cells| == |m.cells|
  {
    var next := NextCells(m, |m.cells|);
    Maze(seq(|m.cells|, i requires 0 <= i < |m.cells| => next[i].0), m.w)
  }

  /** The changes one round reports. */
  function StepChanges(m: Maze): (r: seq<Option<nat>>)
    requires Addressable(m)
    ensures |r| == |m.cells|
  {
    var next := NextCells(m, |m.cells|);
    seq(|m.cells|, i requires 0 <= i < |m.cells| => next[i].1)
  }

  /** Cell `i` of the next round is the cell settled from its best offer, with the change it reports. */
  lemma StepAt(m: Maze)
    requires Addressable(m)
    ensures forall i :: 0 <= i < |m.cells| ==> Step(m).cells[i] == NextCell(m, i).0 && StepChanges(m)[i] == NextCell(m, i).1
  {
    forall i | 0 <= i < |m.cells| {
      NextCellsAt(m, |m.cells|, i);
    }
  }

  /** A round only moves the grid as `Evolves` allows. */
  lemma StepEvolves(m: Maze)
    requires Addressable(m)
    ensures Evolves(m.cells, Step(m).cells)
  {
    StepAt(m);
    forall i | 0 <= i < |m.cells|
      ensures FieldEvolves(m.cells[i], Step(m).cells[i])
    {
      SettleEvolves(Best(m, i), m.cells[i]);
    }
  }

  /**
   * `iteration`: writes the next round of the front buffer `input` into the
   * back buffer `output` and the reported changes into `updates`. Each cell
   * depends only on `input` and its own index, so the order the cells are
   * visited in (parallel in the source) does not matter.
   */
  method Iteration(input: array<Field>, w: usize, output: array<Field>, updates: array<Option<nat>>)
    requires input != output
    requires Addressable(Maze(input[..], w))
    requires output.Length == input.Length && updates.Length == input.Length
    modifies output, updates
    ensures output[..] == Step(Maze(input[..], w)).cells
    ensures updates[..] == StepChanges(Maze(input[..], w))
  {
    ghost var m := Maze(input[..], w);
    for idx := 0 to output.Length
      invariant input[..] == m.cells
      invariant forall j :: 0 <= j < idx ==> output[j] == NextCell(m, j).0 && updates[j] == NextCell(m, j).1
    {
      var updated := UpdateField(Maze(input[..], w), idx);
      var (field, change) := Settle(updated, input[idx]);
      output[idx] := field;
      updates[idx] := change;
    }
    StepAt(m);
  }

  // ---------------------------------------------------------------------------
  // Stopping (`is_done`)
  // ---------------------------------------------------------------------------

  /** The cheapest reported change, None when no cell changed. */
  function LeastChange(updates: seq<Option<nat>>): Option<nat>
  {
    if |updates| == 0 then None
    else MinOpt(LeastChange(updates[..|updates| - 1]), updates[|updates| - 1])
  }

  /** The cheapest change is None exactly when nothing changed, and otherwise a change no other undercuts. */
  lemma {:induction false} LeastChangeIsLeast(updates: seq<Option<nat>>)
    ensures LeastChange(updates).None? <==> forall k :: 0 <= k < |updates| ==> updates[k].None?
    ensures LeastChange(updates).Some? ==> exists k :: 0 <= k < |updates| && updates[k] == LeastChange(updates)
    ensures forall k :: 0 <= k < |updates| && updates[k].Some? ==>
              LeastChange(updates).Some? && LeastChange(updates).value <= updates[k].value
  {
    if |updates| > 0 {
      var init := updates[..|updates| - 1];
      LeastChangeIsLeast(init);
      assert forall k :: 0 <= k < |init| ==> init[k] == updates[k];
      if LeastChange(updates).Some? && LeastChange(updates) != updates[|updates| - 1] {
        var k :| 0 <= k < |init| && init[k] == LeastChange(init);
        assert updates[k] == LeastChange(updates);
      }
    }
  }

  /** `is_done`: no cell changed, or the exit is reached no dearer than the cheapest change. */
  function IsDone(exit: Field, updates: seq<Option<nat>>): bool
  {
    match LeastChange(updates)
    case None => true
    case Some(best) => exit.Calculated? && best >= exit.cost
  }

  /**
   * The stopping rule stated over the changes themselves: nothing changed, or
   * the exit is reached and every change costs at least as much as the exit.
   */
  lemma IsDoneMeans(exit: Field, updates: seq<Option<nat>>)
    ensures IsDone(exit, updates) <==>
              (forall k :: 0 <= k < |updates| ==> updates[k].None?)
              || (exit.Calculated? && forall k :: 0 <= k < |updates| && updates[k].Some? ==> updates[k].value >= exit.cost)
  {
    LeastChangeIsLeast(updates);
    var least := LeastChange(updates);
    if least.Some? && exit.Calculated? && forall k :: 0 <= k < |updates| && updates[k].Some? ==> updates[k].value >= exit.cost {
      var k :| 0 <= k < |updates| && updates[k] == least;
      assert updates[k].value >= exit.cost;
    }
  }

  /** The changes `flood` starts from: every cell marked as changed at cost 0. */
  function InitialChanges(n: nat): (r: seq<Option<nat>>)
    ensures |r| == n && forall k :: 0 <= k < n ==> r[k] == Some(0)
  {
    seq(n, _ => Some(0))
  }

  /**
   * The first check of `flood` stops at once only for an empty grid or an exit
   * that is already reached at cost 0.
   */
  lemma InitialDone(exit: Field, n: nat)
    ensures IsDone(exit, InitialChanges(n)) <==> n == 0 || (exit.Calculated? && exit.cost == 0)
  {
    IsDoneMeans(exit, InitialChanges(n));
    if n > 0 {
      assert InitialChanges(n)[0] == Some(0);
    }
  }

  // ---------------------------------------------------------------------------
  // The solver (`flood`)
  // ---------------------------------------------------------------------------

  /** The grid after `n` rounds. */
  function Rounds(m: Maze, n: nat): (r: Maze)
    requires Addressable(m)
    ensures Addressable(r) && r.w == m.w && |r.cells| == |m.cells|
  {
    if n == 0 then m else Step(Rounds(m, n - 1))
  }

  /** The changes the `n`-th round reported (the initial marks before any round). */
  function ChangesAfter(m: Maze, n: nat): (r: seq<Option<nat>>)
    requires Addressable(m)
    ensures |r| == |m.cells|
  {
    if n == 0 then InitialChanges(|m.cells|) else StepChanges(Rounds(m, n - 1))
  }

  /** A grid that moved on from `a` as `Evolves` allows still has, one round later. */
  lemma EvolvesThenStep(a: seq<Field>, m: Maze)
    requires Addressable(m) && Evolves(a, m.cells)
    ensures Evolves(a, Step(m).cells)
  {
    StepEvolves(m);
    EvolvesTransitive(a, m.cells, Step(m).cells);
  }

  /** Any number of rounds only moves the grid as `Evolves` allows, so walls never move. */
  lemma {:induction false} RoundsEvolve(m: Maze, j: nat, k: nat)
    requires Addressable(m) && j <= k
    ensures Evolves(Rounds(m, j).cells, Rounds(m, k).cells)
  {
    if j < k {
      RoundsEvolve(m, j, k - 1);
      EvolvesThenStep(Rounds(m, j).cells, Rounds(m, k - 1));
    }
  }

  /** Whether `flood` stops after `n` rounds. */
  predicate DoneAfter(m: Maze, x: usize, y: usize, n: nat)
    requires Addressable(m)
  {
    IsDone(FieldAt(Rounds(m, n), x, y), ChangesAfter(m, n))
  }

  /** No round before round `n` met the stop test for the exit (x, y). */
  predicate NotDoneBefore(m: Maze, x: usize, y: usize, n: nat)
    requires Addressable(m)
  {
    forall k :: 0 <= k < n ==> !DoneAfter(m, x, y, k)
  }

  lemma NotDoneOneMore(m: Maze, x: usize, y: usize, n: nat)
    requires Addressable(m)
    requires NotDoneBefore(m, x, y, n) && !DoneAfter(m, x, y, n)
    ensures NotDoneBefore(m, x, y, n + 1)
  {
  }

  /**
   * `flood`: runs rounds, swapping the two buffers after each, until `is_done`
   * holds for the exit at (x, y). The loop is bounded by `fuel` rounds; `done`
   * says whether the source's own stopping rule was reached, and then `rounds`
   * is the first round at which it holds.
   */
  method Flood(maze: Maze, x: usize, y: usize, fuel: nat) returns (r: Maze, rounds: nat, done: bool)
    requires Addressable(maze)
    ensures rounds <= fuel && r == Rounds(maze, rounds)
    ensures done == DoneAfter(maze, x, y, rounds)
    ensures !done ==> rounds == fuel
    ensures NotDoneBefore(maze, x, y, rounds)
  {
    var front, backbuffer, updates := Buffers(maze);
    rounds := 0;
    done := IsDone(FieldAt(Maze(front[..], maze.w), x, y), updates[..]);
    while !done && rounds < fuel
      invariant fresh(front) && fresh(backbuffer) && fresh(updates)
      invariant front != backbuffer && backbuffer.Length == |maze.cells|
      invariant rounds <= fuel
      invariant Maze(front[..], maze.w) == Rounds(maze, rounds)
      invariant updates[..] == ChangesAfter(maze, rounds)
      invariant done == DoneAfter(maze, x, y, rounds)
      invariant NotDoneBefore(maze, x, y, rounds)
    {
      NotDoneOneMore(maze, x, y, rounds);
      Round(maze, rounds, front, backbuffer, updates);
      front, backbuffer := backbuffer, front;
      rounds := rounds + 1;
      done := IsDone(FieldAt(Maze(front[..], maze.w), x, y), updates[..]);
    }
    r := Maze(front[..], maze.w);
  }

  /** The buffers `flood` starts with: the grid in front, a back buffer, and every cell marked as changed. */
  method Buffers(maze: Maze) returns (front: array<Field>, backbuffer: array<Field>, updates: array<Option<nat>>)
    ensures fresh(front) && fresh(backbuffer) && fresh(updates) && front != backbuffer
    ensures Maze(front[..], maze.w) == maze && backbuffer.Length == |maze.cells|
    ensures updates[..] == InitialChanges(|maze.cells|)
  {
    front := new Field[|maze.cells|](i requires 0 <= i < |maze.cells| => maze.cells[i]);
    backbuffer := new Field[|maze.cells|](_ => Wall);
    updates := new Option<nat>[|maze.cells|](_ => Some(0));
    assert front[..] == maze.cells;
    assert updates[..] == InitialChanges(|maze.cells|);
  }

  /** One round of `flood`: `iteration` from the front buffer into the back buffer. */
  method Round(maze: Maze, ghost n: nat, front: array<Field>, backbuffer: array<Field>, updates: array<Option<nat>>)
    requires Addressable(maze) && front != backbuffer
    requires Maze(front[..], maze.w) == Rounds(maze, n)
    requires backbuffer.Length == front.Length && updates.Length == front.Length
    modifies backbuffer, updates
    ensures Maze(backbuffer[..], maze.w) == Rounds(maze, n + 1)
    ensures updates[..] == ChangesAfter(maze, n + 1)
  {
    Iteration(front, maze.w, backbuffer, updates);
  }
}
