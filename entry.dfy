/**
 * The seed and outcome logic of the maze application (`main` in src/maze.rs):
 * read the grid, mark the entry cell (0, 1) as reached at cost 0 from every
 * side, run a solver towards the exit (x - 1, y - 2), and report the exit.
 */
module Entry {
  import opened Direction
  import opened Grid
  import Flood
  import AStar

  /** What the application prints about the exit. */
  datatype Report = Unreachable | Invalid | Cost(cost: nat)

  /** The ways the application stops before printing anything. */
  datatype Panic =
    | BadCharacter      // `from_input` met a character other than '0' or '1'
    | NoEntryCell       // `field_mut(0, 1)` found no cell, and `unwrap` failed
    | TargetUnderflow   // `x - 1` or `y - 2` went below zero

  datatype Outcome = Printed(report: Report) | Panicked(reason: Panic) | OutOfFuel

  /** The two path calculators `main` can be given. */
  datatype Solver = FloodSolver | AStarSolver

  /** The final match: a passable cell was never reached, a wall is no exit, a reached cell has a cost. */
  function Classify(f: Field): Report
  {
    match f
    case Empty => Unreachable
    case Wall => Invalid
    case Calculated(_, c) => Cost(c)
  }

  /**
   * A solver that only moves the grid on as `Evolves` allows cannot change
   * whether the exit is invalid, and an exit that was reached stays reached,
   * at a cost no higher than before.
   */
  lemma ClassifyAfterSolving(a: Maze, b: Maze, x: usize, y: usize)
    requires a.w == b.w && Evolves(a.cells, b.cells)
    ensures Classify(FieldAt(b, x, y)) == Invalid <==> Classify(FieldAt(a, x, y)) == Invalid
    ensures Classify(FieldAt(a, x, y)).Cost? ==>
              Classify(FieldAt(b, x, y)).Cost? && Classify(FieldAt(b, x, y)).cost <= Classify(FieldAt(a, x, y)).cost
  {
    var i := Idx(a.w, x, y);
    if i < |a.cells| {
      assert FieldEvolves(a.cells[i], b.cells[i]);
    }
  }

  /** The grid as the solver receives it: decoded, then seeded at (0, 1). */
  function Seeded(x: usize, y: nat, lines: seq<string>): (r: Option<Maze>)
    ensures r.Some? <==> Binary(Taken(lines, y)) && x < |Taken(lines, y)|
    ensures r.Some? ==> r.value.w == x && |r.value.cells| == |Taken(lines, y)|
    ensures r.Some? ==> FieldAt(r.value, 0, 1) == Calculated(ANY, 0)
  {
    match FromInput(x, y, lines)
    case None => None
    case Some(m) => Seed(m)
  }

  /**
   * `main`: decode, seed, solve towards (x - 1, y - 2) and classify the exit.
   * The solver's loop is bounded by `fuel`; `grid` is the solver's result and
   * `steps` the number of flood rounds or A* expansions it took.
   */
  method Run(x: usize, y: usize, lines: seq<string>, solver: Solver, fuel: nat)
    returns (out: Outcome, grid: Maze, steps: nat)
    requires |Taken(lines, y)| < USIZE_MAX
    ensures out == Panicked(BadCharacter) <==> !Binary(Taken(lines, y))
    ensures out == Panicked(NoEntryCell) <==> Binary(Taken(lines, y)) && |Taken(lines, y)| <= x
    ensures out == Panicked(TargetUnderflow) <==> Seeded(x, y, lines).Some? && (x < 1 || y < 2)
    ensures !out.Panicked? ==> Seeded(x, y, lines).Some? && 1 <= x && 2 <= y && steps <= fuel
    ensures !out.Panicked? ==>
              && grid.w == x
              && Evolves(Seeded(x, y, lines).value.cells, grid.cells)
              && (out == OutOfFuel ==> steps == fuel)
              && (out.Printed? ==> out.report == Classify(FieldAt(grid, x - 1, y - 2)))
              && (out.Printed? ==> (out.report == Invalid <==> FieldAt(Seeded(x, y, lines).value, x - 1, y - 2) == Wall))
    ensures !out.Panicked? && solver == FloodSolver ==>
              && grid == Flood.Rounds(Seeded(x, y, lines).value, steps)
              && (out.Printed? <==> Flood.DoneAfter(Seeded(x, y, lines).value, x - 1, y - 2, steps))
              && Flood.NotDoneBefore(Seeded(x, y, lines).value, x - 1, y - 2, steps)
    ensures !out.Panicked? && solver == AStarSolver ==>
              && grid == Maze(AStar.Expansions(Seeded(x, y, lines).value, x - 1, y - 2, steps).0, x)
              && (out == OutOfFuel <==> AStar.GoesOn(Seeded(x, y, lines).value, x - 1, y - 2, steps))
              && AStar.GoesOnBefore(Seeded(x, y, lines).value, x - 1, y - 2, steps)
              && (out.Printed? && out.report.Cost? <==> steps > 0 && FieldAt(grid, x - 1, y - 2).Calculated?)
  {
    grid := Maze([], x);
    steps := 0;
    var decoded := FromInput(x, y, lines);
    if decoded.None? {
      return Panicked(BadCharacter), grid, steps;
    }
    var maze := decoded.value;
    match FieldMut(maze, 0, 1) {
      case None =>
        return Panicked(NoEntryCell), grid, steps;
      case Some(i) =>
        maze := maze.(cells := maze.cells[i := Calculated(ANY, 0)]);
    }
    assert Seeded(x, y, lines) == Some(maze);
    if x < 1 || y < 2 {
      return Panicked(TargetUnderflow), grid, steps;
    }
    var tx, ty := x - 1, y - 2;
    match solver {
      case FloodSolver =>
        var done;
        grid, steps, done := Flood.Flood(maze, tx, ty, fuel);
        Flood.RoundsEvolve(maze, 0, steps);
        out := if done then Printed(Classify(FieldAt(grid, tx, ty))) else OutOfFuel;
      case AStarSolver =>
        var stop;
        grid, stop, steps := AStar.Search(maze, tx, ty, fuel);
        out := if stop == AStar.OutOfFuel then OutOfFuel else Printed(Classify(FieldAt(grid, tx, ty)));
    }
    ClassifyAfterSolving(maze, grid, tx, ty);
  }
}
