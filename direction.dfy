/**
 * The direction bitset shared by both solvers (src/maze.rs, `Dir`).
 *
 * A `Dir` is a byte holding up to four flags: LEFT = 1, UP = 2, RIGHT = 4 and
 * DOWN = 8. A flag records a direction from which a cell can be entered at its
 * known cost, so a cell reached equally well from two sides holds two flags.
 */
module Direction {

  /** The low four bits of a byte; every value the solvers build stays below 16. */
  type Dir = d: bv8 | d < 16

  const NONE: Dir := 0
  const LEFT: Dir := 1
  const UP: Dir := 2
  const RIGHT: Dir := 4
  const DOWN: Dir := 8
  const ANY: Dir := 15

  /** The four single-flag values. */
  const FLAGS: set<Dir> := {LEFT, UP, RIGHT, DOWN}

  /** `d` holds the single flag `f`. */
  predicate Has(d: Dir, f: Dir) {
    d & f != 0
  }

  /** The flags present in `d`: the abstract set that the byte encodes. */
  function Flags(d: Dir): (s: set<Dir>)
    ensures s <= FLAGS
  {
    (if Has(d, LEFT) then {LEFT} else {}) + (if Has(d, UP) then {UP} else {})
    + (if Has(d, RIGHT) then {RIGHT} else {}) + (if Has(d, DOWN) then {DOWN} else {})
  }

  /** Two directions holding the same flags are the same byte. */
  lemma FlagsInjective(a: Dir, b: Dir)
    requires Flags(a) == Flags(b)
    ensures a == b
  {
    assert LEFT in Flags(a) <==> LEFT in Flags(b);
    assert UP in Flags(a) <==> UP in Flags(b);
    assert RIGHT in Flags(a) <==> RIGHT in Flags(b);
    assert DOWN in Flags(a) <==> DOWN in Flags(b);
  }

  /** `has_all`: every flag of `other` is present in `d`. */
  function HasAll(d: Dir, other: Dir): bool
  {
    d & other == other
  }

  /** `has_all` is the subset test on the flags. */
  lemma HasAllIsSubset(d: Dir, other: Dir)
    ensures HasAll(d, other) <==> Flags(other) <= Flags(d)
  {
  }

  /** `BitOr`: the union of two direction sets. */
  function Or(a: Dir, b: Dir): Dir
  {
    a | b
  }

  /** The union holds exactly the flags of both operands, so it has all of either. */
  lemma OrIsUnion(a: Dir, b: Dir)
    ensures Flags(Or(a, b)) == Flags(a) + Flags(b)
    ensures HasAll(Or(a, b), a) && HasAll(Or(a, b), b)
  {
  }

  /** A flag is in the union exactly when it is in one of the two sets. */
  lemma HasOr(a: Dir, b: Dir, f: Dir)
    requires f in FLAGS
    ensures Has(Or(a, b), f) <==> Has(a, f) || Has(b, f)
  {
  }

  /** A single flag holds exactly itself among the flags. */
  lemma FlagHasFlag(f: Dir, g: Dir)
    requires f in FLAGS && g in FLAGS
    ensures Has(f, g) <==> f == g
  {
  }

  lemma OrCommutative(a: Dir, b: Dir)
    ensures Or(a, b) == Or(b, a)
  {
  }

  lemma OrAssociative(a: Dir, b: Dir, c: Dir)
    ensures Or(Or(a, b), c) == Or(a, Or(b, c))
  {
  }

  lemma OrIdempotent(a: Dir)
    ensures Or(a, a) == a
  {
  }

  /** The union adds a flag exactly when `HasAll` fails. */
  lemma OrGrowsUnlessContained(a: Dir, b: Dir)
    ensures Or(a, b) == a <==> HasAll(a, b)
  {
    if HasAll(a, b) {
      FlagsInjective(Or(a, b), a);
    }
  }

  // ---------------------------------------------------------------------------
  // The ring of the four flags
  // ---------------------------------------------------------------------------

  /** One left rotation of a single flag: LEFT -> DOWN -> RIGHT -> UP -> LEFT. */
  function NextLeft(f: Dir): Dir
  {
    if f == LEFT then DOWN else if f == DOWN then RIGHT else if f == RIGHT then UP
    else if f == UP then LEFT else f
  }

  /** One right rotation of a single flag: LEFT -> UP -> RIGHT -> DOWN -> LEFT. */
  function NextRight(f: Dir): Dir
  {
    if f == LEFT then UP else if f == UP then RIGHT else if f == RIGHT then DOWN
    else if f == DOWN then LEFT else f
  }

  /** Rotation to the left of a whole set, flag by flag. */
  function TurnedLeft(d: Dir): (r: Dir)
    ensures forall f :: f in FLAGS ==> (Has(r, NextLeft(f)) <==> Has(d, f))
  {
    (if Has(d, LEFT) then DOWN else NONE) | (if Has(d, UP) then LEFT else NONE)
    | (if Has(d, RIGHT) then UP else NONE) | (if Has(d, DOWN) then RIGHT else NONE)
  }

  /** Rotation to the right of a whole set: the ring walked the other way. */
  function TurnedRight(d: Dir): (r: Dir)
    ensures forall f :: f in FLAGS ==> (Has(r, NextRight(f)) <==> Has(d, f))
  {
    (if Has(d, LEFT) then UP else NONE) | (if Has(d, UP) then RIGHT else NONE)
    | (if Has(d, RIGHT) then DOWN else NONE) | (if Has(d, DOWN) then LEFT else NONE)
  }

  /** `left`: the byte is shifted one bit down and bit 0 moves to bit 3. */
  method RotateLeft(d: Dir) returns (r: Dir)
    ensures r == TurnedLeft(d)
  {
    var down: bv8 := (d & 1) << 3;
    r := d >> 1;
    r := r | down;
  }

  /** `right`: the byte is shifted one bit up, bit 3 moves to bit 0, and it is masked to 4 bits. */
  method RotateRight(d: Dir) returns (r: Dir)
    ensures r == TurnedRight(d)
  {
    var left: bv8 := (d & 8) >> 3;
    var v: bv8 := d << 1;
    v := v | left;
    v := v & 0xf;
    r := v;
  }

  lemma LeftCycle()
    ensures TurnedLeft(LEFT) == DOWN && TurnedLeft(DOWN) == RIGHT
    ensures TurnedLeft(RIGHT) == UP && TurnedLeft(UP) == LEFT
  {
  }

  lemma RotationsInverse(d: Dir)
    ensures TurnedRight(TurnedLeft(d)) == d
    ensures TurnedLeft(TurnedRight(d)) == d
  {
  }

  lemma FourTurnsIdentity(d: Dir)
    ensures TurnedLeft(TurnedLeft(TurnedLeft(TurnedLeft(d)))) == d
    ensures TurnedRight(TurnedRight(TurnedRight(TurnedRight(d)))) == d
  {
  }

  lemma RotationFixedPoints()
    ensures TurnedLeft(NONE) == NONE && TurnedRight(NONE) == NONE
    ensures TurnedLeft(ANY) == ANY && TurnedRight(ANY) == ANY
  {
  }

  // ---------------------------------------------------------------------------
  // vec
  // ---------------------------------------------------------------------------

  /**
   * `vec(from, to)`: the flags of the steps needed from `from` towards `to`,
   * coordinates being (column, row). The horizontal flag is LEFT when
   * from.x < to.x and RIGHT when from.x > to.x; the vertical one UP when
   * from.y < to.y and DOWN when from.y > to.y.
   */
  function Vec(from: (nat, nat), to: (nat, nat)): (r: Dir)
    ensures Has(r, LEFT) <==> from.0 < to.0
    ensures Has(r, RIGHT) <==> from.0 > to.0
    ensures Has(r, UP) <==> from.1 < to.1
    ensures Has(r, DOWN) <==> from.1 > to.1
    ensures r == NONE <==> from == to
  {
    var h := if from.0 < to.0 then LEFT else if from.0 > to.0 then RIGHT else NONE;
    var v := if from.1 < to.1 then UP else if from.1 > to.1 then DOWN else NONE;
    Or(h, v)
  }

  lemma VecSame(p: (nat, nat))
    ensures Vec(p, p) == NONE
  {
  }

  /** At most one horizontal and at most one vertical flag. */
  lemma VecAtMostOnePerAxis(a: (nat, nat), b: (nat, nat))
    ensures !(Has(Vec(a, b), LEFT) && Has(Vec(a, b), RIGHT))
    ensures !(Has(Vec(a, b), UP) && Has(Vec(a, b), DOWN))
  {
  }

  /** Swapping the endpoints turns the result half way round the ring. */
  lemma VecReversed(a: (nat, nat), b: (nat, nat))
    ensures Vec(b, a) == TurnedLeft(TurnedLeft(Vec(a, b)))
  {
  }

  // ---------------------------------------------------------------------------
  // min_rotation
  // ---------------------------------------------------------------------------

  /** One step of the ring in the given sense. */
  function Next(f: Dir, leftwards: bool): Dir
  {
    if leftwards then NextLeft(f) else NextRight(f)
  }

  /** The flag reached from `f` after `k` single steps in the given sense. */
  function Turns(f: Dir, k: nat, leftwards: bool): (g: Dir)
    requires f in FLAGS
    ensures g in FLAGS
  {
    if k == 0 then f else Next(Turns(f, k - 1, leftwards), leftwards)
  }

  /** Number of single steps (0..3) in the given sense that take flag `f` to flag `g`. */
  function Dist(f: Dir, g: Dir, leftwards: bool): (k: nat)
    requires f in FLAGS && g in FLAGS
    ensures k < 4
  {
    if g == f then 0
    else if Next(f, leftwards) == g then 1
    else if Next(Next(f, leftwards), leftwards) == g then 2
    else 3
  }

  function Max(a: nat, b: nat): nat { if a < b then b else a }

  function Min(a: nat, b: nat): nat { if a < b then a else b }

  /**
   * Fewest steps of the anchor flag `f` in one sense after which every flag
   * of `other` has been passed: the largest distance of such a flag.
   */
  function Sweep(f: Dir, other: Dir, leftwards: bool): (k: nat)
    requires f in FLAGS
    ensures k < 4
  {
    var l := if Has(other, LEFT) then Dist(f, LEFT, leftwards) else 0;
    var u := if Has(other, UP) then Dist(f, UP, leftwards) else 0;
    var r := if Has(other, RIGHT) then Dist(f, RIGHT, leftwards) else 0;
    var d := if Has(other, DOWN) then Dist(f, DOWN, leftwards) else 0;
    Max(Max(l, u), Max(r, d))
  }

  /** The sweep is the largest distance from the anchor to a flag of `other`, 0 when there is none. */
  lemma SweepIsLargestDistance(f: Dir, other: Dir, leftwards: bool)
    requires f in FLAGS
    ensures forall g :: g in FLAGS && Has(other, g) ==> Dist(f, g, leftwards) <= Sweep(f, other, leftwards)
    ensures Sweep(f, other, leftwards) == 0
            || exists g :: g in FLAGS && Has(other, g) && Dist(f, g, leftwards) == Sweep(f, other, leftwards)
  {
  }

  /** Best of both senses for one anchor flag; 4 when the anchor is absent from `d`. */
  function AnchorCost(d: Dir, other: Dir, f: Dir): nat
    requires f in FLAGS
  {
    if Has(d, f) then Min(Sweep(f, other, true), Sweep(f, other, false)) else 4
  }

  /** Minimum of the anchor costs over the anchors `fs`, starting from 4. */
  function MinOverAnchors(d: Dir, other: Dir, fs: seq<Dir>): (k: nat)
    requires forall i :: 0 <= i < |fs| ==> fs[i] in FLAGS
    ensures k <= 4
  {
    if fs == [] then 4
    else Min(MinOverAnchors(d, other, fs[..|fs| - 1]), AnchorCost(d, other, fs[|fs| - 1]))
  }

  /** The anchors in the order `min_rotation` visits them. */
  const ANCHORS: seq<Dir> := [LEFT, RIGHT, UP, DOWN]

  /**
   * Reference value of `min_rotation(d, other)`: the fewest single-step
   * rotations, in one sense, of one flag of `d` that pass over every flag of
   * `other`; 4 when `d` is empty.
   */
  function MinRotationSpec(d: Dir, other: Dir): (k: nat)
    ensures k <= 4
  {
    MinOverAnchors(d, other, ANCHORS)
  }

  lemma {:induction false} MinOverAnchorsBounds(d: Dir, other: Dir, fs: seq<Dir>)
    requires forall i :: 0 <= i < |fs| ==> fs[i] in FLAGS
    ensures MinOverAnchors(d, other, fs) == 4
            || exists i :: 0 <= i < |fs| && MinOverAnchors(d, other, fs) == AnchorCost(d, other, fs[i])
    ensures forall i :: 0 <= i < |fs| ==> MinOverAnchors(d, other, fs) <= AnchorCost(d, other, fs[i])
  {
    if fs != [] {
      var init := fs[..|fs| - 1];
      MinOverAnchorsBounds(d, other, init);
      forall i | 0 <= i < |init| ensures init[i] == fs[i] { }
    }
  }

  /** An empty set gives the sentinel 4. */
  lemma MinRotationOfNone(other: Dir)
    ensures MinRotationSpec(NONE, other) == 4
  {
    MinOverAnchorsBounds(NONE, other, ANCHORS);
  }

  /** A non-empty set never needs more than three rotations. */
  lemma MinRotationAtMostThree(d: Dir, other: Dir)
    requires d != NONE
    ensures MinRotationSpec(d, other) <= 3
  {
    MinOverAnchorsBounds(d, other, ANCHORS);
    NonEmptyHasFlag(d);
    var f :| f in FLAGS && Has(d, f);
    assert AnchorCost(d, other, ANCHORS[AnchorIndex(f)]) <= 3;
  }

  /** Index of an anchor in `ANCHORS`. */
  function AnchorIndex(f: Dir): (i: nat)
    requires f in FLAGS
    ensures i < 4 && ANCHORS[i] == f
  {
    if f == LEFT then 0 else if f == RIGHT then 1 else if f == UP then 2 else 3
  }

  /** `other` is covered by the single flag `f` when every flag it holds is `f`. */
  lemma CoveredBySingle(f: Dir, other: Dir)
    requires f in FLAGS
    ensures HasAll(f, other) <==> forall g :: g in FLAGS && Has(other, g) ==> g == f
  {
    if forall g :: g in FLAGS && Has(other, g) ==> g == f {
      assert !Has(other, LEFT) || LEFT == f;
      assert !Has(other, UP) || UP == f;
      assert !Has(other, RIGHT) || RIGHT == f;
      assert !Has(other, DOWN) || DOWN == f;
    }
  }

  /** A sweep of length zero means every flag of `other` is the anchor itself. */
  lemma SweepZero(f: Dir, other: Dir, leftwards: bool)
    requires f in FLAGS
    ensures Sweep(f, other, leftwards) == 0 <==> HasAll(f, other)
  {
    CoveredBySingle(f, other);
    if HasAll(f, other) {
      forall g | g in FLAGS && Has(other, g) ensures Dist(f, g, leftwards) == 0 {
      }
    }
  }

  /** Zero rotations exactly when one flag of `d` alone covers `other`. */
  lemma MinRotationZero(d: Dir, other: Dir)
    ensures MinRotationSpec(d, other) == 0 <==> exists f :: f in FLAGS && Has(d, f) && HasAll(f, other)
  {
    MinOverAnchorsBounds(d, other, ANCHORS);
    if MinRotationSpec(d, other) == 0 {
      var i :| 0 <= i < 4 && 0 == AnchorCost(d, other, ANCHORS[i]);
      var f := ANCHORS[i];
      assert f in FLAGS && Has(d, f);
      if Sweep(f, other, true) == 0 {
        SweepZero(f, other, true);
      } else {
        SweepZero(f, other, false);
      }
    }
    if exists f :: f in FLAGS && Has(d, f) && HasAll(f, other) {
      var f :| f in FLAGS && Has(d, f) && HasAll(f, other);
      SweepZero(f, other, true);
      assert AnchorCost(d, other, ANCHORS[AnchorIndex(f)]) == 0;
    }
  }

  /** A single flag `g` is hit after exactly `Dist` steps. */
  lemma TurnsHit(f: Dir, g: Dir, k: nat, leftwards: bool)
    requires f in FLAGS && g in FLAGS && k < 4
    ensures Turns(f, k, leftwards) == g <==> Dist(f, g, leftwards) == k
  {
    var t1 := Next(f, leftwards);
    var t2 := Next(t1, leftwards);
    var t3 := Next(t2, leftwards);
    assert Turns(f, 1, leftwards) == t1;
    assert Turns(f, 2, leftwards) == t2;
    assert Turns(f, 3, leftwards) == t3;
    assert f != t1 && f != t2 && f != t3 && t1 != t2 && t1 != t3 && t2 != t3;
  }

  /** `o & !d`: the flags of `o` that are not in `d`. */
  function Clear(o: Dir, d: Dir): Dir
  {
    o & !(d as bv8)
  }

  /** Clearing the single flag `d` from `o` removes exactly that flag. */
  lemma ClearFlag(o: Dir, d: Dir, g: Dir)
    requires d in FLAGS && g in FLAGS
    ensures Has(Clear(o, d), g) <==> Has(o, g) && g != d
  {
  }

  /** A non-empty set holds one of the four flags. */
  lemma NonEmptyHasFlag(o: Dir)
    requires o != NONE
    ensures exists g :: g in FLAGS && Has(o, g)
  {
    assert Has(o, LEFT) || Has(o, UP) || Has(o, RIGHT) || Has(o, DOWN);
  }

  /** The flags of `other` still left after `k` steps from the anchor `dir` are exactly those of `o`. */
  ghost predicate Remaining(o: Dir, other: Dir, dir: Dir, k: nat, leftwards: bool)
    requires dir in FLAGS
  {
    forall g :: g in FLAGS ==> (Has(o, g) <==> Has(other, g) && Dist(dir, g, leftwards) > k)
  }

  /** Before the first rotation, every flag of `other` but the anchor itself remains. */
  lemma RemainingStart(other: Dir, dir: Dir, leftwards: bool)
    requires dir in FLAGS
    ensures Remaining(Clear(other, dir), other, dir, 0, leftwards)
  {
    forall g | g in FLAGS
      ensures Has(Clear(other, dir), g) <==> Has(other, g) && Dist(dir, g, leftwards) > 0
    {
      ClearFlag(other, dir, g);
    }
  }

  /** Clearing the flag reached by one more rotation keeps exactly the flags still farther away. */
  lemma RemainingStep(o: Dir, other: Dir, dir: Dir, k: nat, leftwards: bool)
    requires dir in FLAGS && k < 3
    requires Remaining(o, other, dir, k, leftwards)
    ensures Remaining(Clear(o, Turns(dir, k + 1, leftwards)), other, dir, k + 1, leftwards)
  {
    var d := Turns(dir, k + 1, leftwards);
    forall g | g in FLAGS
      ensures Has(Clear(o, d), g) <==> Has(other, g) && Dist(dir, g, leftwards) > k + 1
    {
      RemainingStepAt(o, other, dir, k, leftwards, g, Has(o, g));
    }
  }

  /** `RemainingStep` for one flag `g`, where `had` says whether `o` holds `g`. */
  lemma RemainingStepAt(o: Dir, other: Dir, dir: Dir, k: nat, leftwards: bool, g: Dir, had: bool)
    requires dir in FLAGS && g in FLAGS && k < 3
    requires had == Has(o, g) && (had <==> Has(other, g) && Dist(dir, g, leftwards) > k)
    ensures Has(Clear(o, Turns(dir, k + 1, leftwards)), g) <==> Has(other, g) && Dist(dir, g, leftwards) > k + 1
  {
    ClearFlag(o, Turns(dir, k + 1, leftwards), g);
    TurnsHit(dir, g, k + 1, leftwards);
  }

  /** Rotating a single flag is one step of the ring. */
  lemma TurnedSingle(f: Dir)
    requires f in FLAGS
    ensures TurnedLeft(f) == NextLeft(f) && TurnedRight(f) == NextRight(f)
  {
  }

  /** While flags remain, the sweep needs more steps than taken so far. */
  lemma RemainingBelowSweep(o: Dir, other: Dir, dir: Dir, k: nat, leftwards: bool)
    requires dir in FLAGS && o != NONE
    requires Remaining(o, other, dir, k, leftwards)
    ensures k < Sweep(dir, other, leftwards)
  {
    NonEmptyHasFlag(o);
  }

  /** Once no flag remains, the steps taken cover the whole sweep. */
  lemma NoneRemainingCoversSweep(other: Dir, dir: Dir, k: nat, leftwards: bool)
    requires dir in FLAGS
    requires Remaining(NONE, other, dir, k, leftwards)
    ensures Sweep(dir, other, leftwards) <= k
  {
  }

  /**
   * One `while` loop of `min_rotation`: rotate the anchor `dir` one way,
   * clearing the flags of `other` it passes, and count the rotations.
   */
  method SweepCount(dir: Dir, other: Dir, leftwards: bool) returns (cnt: nat)
    requires dir in FLAGS
    ensures cnt == Sweep(dir, other, leftwards)
  {
    SweepIsLargestDistance(dir, other, leftwards);
    var d := dir;
    RemainingStart(other, dir, leftwards);
    var o := Clear(other, dir);
    cnt := 0;
    while o != 0
      invariant cnt <= Sweep(dir, other, leftwards)
      invariant d == Turns(dir, cnt, leftwards)
      invariant Remaining(o, other, dir, cnt, leftwards)
      decreases 4 - cnt
    {
      RemainingBelowSweep(o, other, dir, cnt, leftwards);
      RemainingStep(o, other, dir, cnt, leftwards);
      TurnedSingle(d);
      cnt := cnt + 1;
      if leftwards {
        d := RotateLeft(d);
      } else {
        d := RotateRight(d);
      }
      o := Clear(o, d);
    }
    NoneRemainingCoversSweep(other, dir, cnt, leftwards);
  }

  /** Taking one more anchor into the minimum. */
  lemma AnchorsStep(d: Dir, other: Dir, i: nat)
    requires i < 4
    ensures ANCHORS[i] in FLAGS
    ensures MinOverAnchors(d, other, ANCHORS[..i + 1])
            == Min(MinOverAnchors(d, other, ANCHORS[..i]), AnchorCost(d, other, ANCHORS[i]))
  {
    assert ANCHORS[..i + 1][..i] == ANCHORS[..i];
  }

  /** An anchor flag absent from `d` costs 4, which leaves the minimum as it is. */
  lemma AbsentAnchor(d: Dir, other: Dir, f: Dir)
    requires f in FLAGS && !HasAll(d, f)
    ensures AnchorCost(d, other, f) == 4
  {
  }

  /**
   * `min_rotation`: for each anchor flag present in `d` (LEFT, RIGHT, UP,
   * DOWN in that order) sweep leftwards and rightwards and keep the least count.
   */
  method MinRotation(d: Dir, other: Dir) returns (min: nat)
    ensures min == MinRotationSpec(d, other)
  {
    min := 4;
    for i := 0 to 4
      invariant min == MinOverAnchors(d, other, ANCHORS[..i])
    {
      var dir := ANCHORS[i];
      AnchorsStep(d, other, i);
      if !HasAll(d, dir) {
        AbsentAnchor(d, other, dir);
        continue;
      }
      var cnt := SweepCount(dir, other, true);
      min := Min(min, cnt);
      cnt := SweepCount(dir, other, false);
      min := Min(min, cnt);
    }
    assert ANCHORS[..4] == ANCHORS;
  }
}
