/**
 * The grid shared by both solvers (src/maze.rs, `Field` and `Maze`): a flat
 * sequence of cells addressed row by row through the width `w`. Any index at
 * or past the end of the sequence reads as a wall, and the index arithmetic
 * saturates or wraps so that a step off the grid lands on such an index.
 */
module Grid {
  import opened Direction

  /** Largest value of a 64-bit `usize`. */
  const USIZE_MAX: nat := 0xFFFF_FFFF_FFFF_FFFF

  type usize = n: nat | n <= USIZE_MAX

  /** One cell: a wall, a passable cell not reached yet, or a reached cell with its cost. */
  datatype Field = Empty | Wall | Calculated(dirs: Dir, cost: nat)

  /** All cells flattened row by row, and the width used to address them. */
  datatype Maze = Maze(cells: seq<Field>, w: usize)

  /**
   * A maze the solvers can address: a non-zero width (`coords` divides by it)
   * and fewer cells than `usize::MAX`, which every Rust slice of cells has.
   */
  predicate Addressable(m: Maze)
  {
    0 < m.w && |m.cells| < USIZE_MAX
  }

  // ---------------------------------------------------------------------------
  // usize arithmetic
  // ---------------------------------------------------------------------------

  /** `saturating_mul`. */
  function SatMul(a: usize, b: usize): (r: usize)
    ensures a * b <= USIZE_MAX ==> r == a * b
    ensures a * b > USIZE_MAX ==> r == USIZE_MAX
  {
    if a * b > USIZE_MAX then USIZE_MAX else a * b
  }

  /** `saturating_add`. */
  function SatAdd(a: usize, b: usize): (r: usize)
    ensures a + b <= USIZE_MAX ==> r == a + b
    ensures a + b > USIZE_MAX ==> r == USIZE_MAX
  {
    if a + b > USIZE_MAX then USIZE_MAX else a + b
  }

  /** `wrapping_sub(1)`. */
  function WrapDec(a: usize): (r: usize)
    ensures (r + 1) % (USIZE_MAX + 1) == a
  {
    if a == 0 then USIZE_MAX else a - 1
  }

  // ---------------------------------------------------------------------------
  // Addressing
  // ---------------------------------------------------------------------------

  /** `idx`: the flat index of column `x` in row `y`, saturating at `usize::MAX`. */
  function Idx(w: usize, x: usize, y: usize): (i: usize)
    ensures y * w + x <= USIZE_MAX ==> i == y * w + x
    ensures y * w + x > USIZE_MAX ==> i == USIZE_MAX
  {
    SatAdd(SatMul(y, w), x)
  }

  /** `coords`: column and row of a flat index. */
  function Coords(w: usize, i: usize): (c: (usize, usize))
    requires w > 0
    ensures c.0 < w && c.1 <= i
    ensures c.1 * w + c.0 == i
  {
    QuotientBelow(w, i);
    (i % w, i / w)
  }

  lemma QuotientBelow(w: nat, i: nat)
    requires w > 0
    ensures (i / w) * w + i % w == i && i / w <= i
  {
    MulMonotone(1, w, i / w);
    assert (i / w) * 1 <= (i / w) * w;
  }

  /** Division by a positive width has a unique quotient and remainder. */
  lemma DivModUnique(w: nat, q: nat, r: nat)
    requires 0 <= r < w
    ensures (q * w + r) / w == q && (q * w + r) % w == r
  {
    var i := q * w + r;
    var q', r' := i / w, i % w;
    assert i == q' * w + r';
    if q' < q {
      MulMonotone(q' + 1, q, w);
      assert false;
    } else if q' > q {
      MulMonotone(q + 1, q', w);
      assert false;
    }
  }

  lemma MulMonotone(a: nat, b: nat, w: nat)
    requires a <= b
    ensures a * w <= b * w && w * a <= w * b
  {
  }

  /** `coords` inverts `idx` inside the grid's width, when `idx` did not saturate. */
  lemma CoordsOfIdx(w: usize, x: usize, y: usize)
    requires x < w && y * w + x <= USIZE_MAX
    ensures Coords(w, Idx(w, x, y)) == (x, y)
  {
    DivModUnique(w, y, x);
  }

  /** `idx` inverts `coords` for every index. */
  lemma IdxOfCoords(w: usize, i: usize)
    requires w > 0
    ensures Idx(w, Coords(w, i).0, Coords(w, i).1) == i
  {
  }

  /**
   * `in_dir_idx`: the index one step away in the single direction `d`;
   * UP and LEFT subtract with wrap-around, and any other `Dir` (NONE or
   * several flags) leaves the position where it is.
   */
  function InDirIdx(w: usize, i: usize, d: Dir): usize
    requires w > 0 && i < USIZE_MAX
  {
    var (x, y) := Coords(w, i);
    if d == UP then Idx(w, x, WrapDec(y))
    else if d == DOWN then Idx(w, x, y + 1)
    else if d == LEFT then Idx(w, WrapDec(x), y)
    else if d == RIGHT then Idx(w, x + 1, y)
    else Idx(w, x, y)
  }

  /**
   * What each step does to a flat index: UP subtracts a row (or gives
   * `usize::MAX` from the top row), DOWN adds a row (saturating), LEFT
   * subtracts one (or gives `usize::MAX` from column 0), RIGHT adds one with
   * no column check, and every other `Dir` stays put.
   */
  lemma InDirIdxSteps(w: usize, i: usize)
    requires w > 0 && i < USIZE_MAX
    ensures InDirIdx(w, i, UP) == if i < w then USIZE_MAX else i - w
    ensures InDirIdx(w, i, DOWN) == if i + w <= USIZE_MAX then i + w else USIZE_MAX
    ensures InDirIdx(w, i, LEFT) == if i % w == 0 then USIZE_MAX else i - 1
    ensures InDirIdx(w, i, RIGHT) == i + 1
    ensures forall d :: d !in FLAGS ==> InDirIdx(w, i, d) == i
  {
    StepUp(w, i);
    StepDown(w, i);
    StepLeft(w, i);
    StepRight(w, i);
  }

  lemma StepUp(w: usize, i: usize)
    requires w > 0 && i < USIZE_MAX
    ensures InDirIdx(w, i, UP) == if i < w then USIZE_MAX else i - w
  {
    var (x, y) := Coords(w, i);
    if y == 0 {
      MulMonotone(1, w, USIZE_MAX);
      assert USIZE_MAX * w >= USIZE_MAX;
    } else {
      assert (y - 1) * w + x == i - w;
    }
  }

  lemma StepDown(w: usize, i: usize)
    requires w > 0 && i < USIZE_MAX
    ensures InDirIdx(w, i, DOWN) == if i + w <= USIZE_MAX then i + w else USIZE_MAX
  {
    var (x, y) := Coords(w, i);
    assert (y + 1) * w + x == i + w;
  }

  lemma StepLeft(w: usize, i: usize)
    requires w > 0 && i < USIZE_MAX
    ensures InDirIdx(w, i, LEFT) == if i % w == 0 then USIZE_MAX else i - 1
  {
    var (x, y) := Coords(w, i);
    assert y * w + USIZE_MAX >= USIZE_MAX;
  }

  lemma StepRight(w: usize, i: usize)
    requires w > 0 && i < USIZE_MAX
    ensures InDirIdx(w, i, RIGHT) == i + 1
  {
  }

  /** `maze.get(i).copied().unwrap_or(Field::Wall)`: a read that gives Wall past the end. */
  function Get(m: Maze, i: nat): (f: Field)
    ensures f == Wall <==> i >= |m.cells| || m.cells[i] == Wall
    ensures f != Wall ==> i < |m.cells| && f == m.cells[i]
  {
    if i < |m.cells| then m.cells[i] else Wall
  }

  /** `in_dir`: the cell one step away, Wall if there is none. */
  function InDir(m: Maze, i: usize, d: Dir): Field
    requires Addressable(m) && i < USIZE_MAX
  {
    Get(m, InDirIdx(m.w, i, d))
  }

  /** `field`: the cell at column `x`, row `y`, Wall if there is none. */
  function FieldAt(m: Maze, x: usize, y: usize): Field
  {
    Get(m, Idx(m.w, x, y))
  }

  /** `field_mut`: the index of the cell at (x, y) if it exists. */
  function FieldMut(m: Maze, x: usize, y: usize): (r: Option<usize>)
    ensures r.Some? <==> Idx(m.w, x, y) < |m.cells|
    ensures r.Some? ==> r.value == Idx(m.w, x, y) && FieldAt(m, x, y) == m.cells[r.value]
  {
    var i := Idx(m.w, x, y);
    if i < |m.cells| then Some(i) else None
  }

  datatype Option<T> = None | Some(value: T)

  /** Stepping UP from the top row reads Wall. */
  lemma UpFromTopRowIsWall(m: Maze, i: usize)
    requires Addressable(m) && i < m.w
    ensures InDir(m, i, UP) == Wall
  {
    InDirIdxSteps(m.w, i);
  }

  /** Stepping LEFT from column 0 reads Wall. */
  lemma LeftFromFirstColumnIsWall(m: Maze, i: usize)
    requires Addressable(m) && i < USIZE_MAX && i % m.w == 0
    ensures InDir(m, i, LEFT) == Wall
  {
    InDirIdxSteps(m.w, i);
  }

  /** Stepping RIGHT from the last column lands on column 0 of the next row. */
  lemma RightFromLastColumnWraps(m: Maze, x: usize, y: usize)
    requires Addressable(m) && x == m.w - 1 && y * m.w + x < |m.cells|
    ensures InDirIdx(m.w, Idx(m.w, x, y), RIGHT) == Idx(m.w, 0, y + 1)
  {
    InDirIdxSteps(m.w, Idx(m.w, x, y));
    assert (y + 1) * m.w == y * m.w + m.w;
  }

  // ---------------------------------------------------------------------------
  // How a solver may change the grid
  // ---------------------------------------------------------------------------

  /**
   * A cell may change from `p` to `q` during solving: walls stay walls and
   * nothing else becomes one, and a reached cell stays reached at a cost
   * that is not higher.
   */
  predicate FieldEvolves(p: Field, q: Field)
  {
    && (p == Wall <==> q == Wall)
    && (p.Calculated? ==> q.Calculated? && q.cost <= p.cost)
  }

  /** The whole grid changes from `a` to `b` cell by cell as `FieldEvolves` allows. */
  predicate Evolves(a: seq<Field>, b: seq<Field>)
  {
    |a| == |b| && forall i :: 0 <= i < |a| ==> FieldEvolves(a[i], b[i])
  }

  lemma EvolvesTransitive(a: seq<Field>, b: seq<Field>, c: seq<Field>)
    requires Evolves(a, b) && Evolves(b, c)
    ensures Evolves(a, c)
  {
  }

  // ---------------------------------------------------------------------------
  // Reading the input (`from_input`)
  // ---------------------------------------------------------------------------

  /** One input byte: '0' is a wall, '1' is passable, anything else is invalid input. */
  function DecodeCell(c: char): Option<Field>
  {
    if c == '0' then Some(Wall) else if c == '1' then Some(Empty) else None
  }

  /** The characters of `lines`, one after the other. */
  function Concat(lines: seq<string>): (s: string)
  {
    if lines == [] then [] else Concat(lines[..|lines| - 1]) + lines[|lines| - 1]
  }

  /** Every character is '0' or '1'. */
  predicate Binary(s: string)
  {
    forall k :: 0 <= k < |s| ==> s[k] == '0' || s[k] == '1'
  }

  /** The cells of a line of characters; None if any character is not '0' or '1'. */
  function DecodeRow(s: string): (r: Option<seq<Field>>)
    ensures r.Some? <==> Binary(s)
    ensures r.Some? ==> |r.value| == |s|
    ensures r.Some? ==> forall k :: 0 <= k < |s| ==> r.value[k] == (if s[k] == '0' then Wall else Empty)
  {
    if s == [] then Some([])
    else match (DecodeRow(s[..|s| - 1]), DecodeCell(s[|s| - 1]))
      case (Some(init), Some(last)) => Some(init + [last])
      case _ => None
  }

  /** The characters of the first `y` lines (all of them if there are fewer), one line after the other. */
  function Taken(lines: seq<string>, y: nat): string
  {
    Concat(lines[..if y < |lines| then y else |lines|])
  }

  /**
   * `from_input`: the cells of the first `y` lines, in order, with width `x`;
   * None (a panic in the source) if one of those characters is not '0' or '1'.
   */
  function FromInput(x: usize, y: nat, lines: seq<string>): (r: Option<Maze>)
    ensures var text := Taken(lines, y);
      && (r.Some? <==> Binary(text))
      && (r.Some? ==> r.value.w == x && |r.value.cells| == |text|)
      && (r.Some? ==> forall k :: 0 <= k < |text| ==>
            r.value.cells[k] == (if text[k] == '0' then Wall else Empty))
  {
    match DecodeRow(Taken(lines, y))
    case Some(cells) => Some(Maze(cells, x))
    case None => None
  }

  /** The input character of a wall or passable cell. */
  function EncodeCell(f: Field): char
  {
    if f == Wall then '0' else '1'
  }

  /** The text of a row of cells. */
  function EncodeRow(cells: seq<Field>): (s: string)
    ensures |s| == |cells|
  {
    if cells == [] then [] else EncodeRow(cells[..|cells| - 1]) + [EncodeCell(cells[|cells| - 1])]
  }

  /** A grid of walls and passable cells, written as rows of '0' and '1', reads back as itself. */
  lemma {:induction false} DecodeEncode(cells: seq<Field>)
    requires forall k :: 0 <= k < |cells| ==> cells[k] == Wall || cells[k] == Empty
    ensures DecodeRow(EncodeRow(cells)) == Some(cells)
  {
    if cells != [] {
      var init := cells[..|cells| - 1];
      DecodeEncode(init);
      assert EncodeRow(cells)[..|cells| - 1] == EncodeRow(init);
      assert init + [cells[|cells| - 1]] == cells;
    }
  }

  /** Reading rows of '0'/'1' text gives the cells of those rows with the stated width. */
  lemma FromInputOfEncoded(x: usize, rows: seq<seq<Field>>)
    requires forall r, k :: 0 <= r < |rows| && 0 <= k < |rows[r]| ==> rows[r][k] == Wall || rows[r][k] == Empty
    ensures FromInput(x, |rows|, seq(|rows|, r requires 0 <= r < |rows| => EncodeRow(rows[r])))
            == Some(Maze(Flatten(rows), x))
  {
    var lines := seq(|rows|, r requires 0 <= r < |rows| => EncodeRow(rows[r]));
    assert lines[..|rows|] == lines;
    ConcatEncoded(rows);
    DecodeEncode(Flatten(rows));
    FlattenWallsAndEmpties(rows);
  }

  /** The cells of `rows`, one row after the other. */
  function Flatten(rows: seq<seq<Field>>): seq<Field>
  {
    if rows == [] then [] else Flatten(rows[..|rows| - 1]) + rows[|rows| - 1]
  }

  lemma {:induction false} FlattenWallsAndEmpties(rows: seq<seq<Field>>)
    requires forall r, k :: 0 <= r < |rows| && 0 <= k < |rows[r]| ==> rows[r][k] == Wall || rows[r][k] == Empty
    ensures forall k :: 0 <= k < |Flatten(rows)| ==> Flatten(rows)[k] == Wall || Flatten(rows)[k] == Empty
  {
    if rows != [] {
      FlattenWallsAndEmpties(rows[..|rows| - 1]);
    }
  }

  lemma {:induction false} EncodeRowAppend(a: seq<Field>, b: seq<Field>)
    ensures EncodeRow(a + b) == EncodeRow(a) + EncodeRow(b)
  {
    if b != [] {
      EncodeRowAppend(a, b[..|b| - 1]);
      assert (a + b)[..|a + b| - 1] == a + b[..|b| - 1];
    } else {
      assert a + b == a;
    }
  }

  lemma {:induction false} ConcatEncoded(rows: seq<seq<Field>>)
    ensures Concat(seq(|rows|, r requires 0 <= r < |rows| => EncodeRow(rows[r]))) == EncodeRow(Flatten(rows))
  {
    var lines := seq(|rows|, r requires 0 <= r < |rows| => EncodeRow(rows[r]));
    if rows != [] {
      var init := rows[..|rows| - 1];
      ConcatEncoded(init);
      assert lines[..|lines| - 1] == seq(|init|, r requires 0 <= r < |init| => EncodeRow(init[r]));
      EncodeRowAppend(Flatten(init), rows[|rows| - 1]);
    }
  }

  // ---------------------------------------------------------------------------
  // Seeding the entry cell (`main`)
  // ---------------------------------------------------------------------------

  /**
   * `*maze.field_mut(0, 1).unwrap() = Calculated(ANY, 0)`: the entry cell at
   * column 0, row 1 becomes reached from every side at cost 0; None (a panic
   * in the source) when that cell does not exist.
   */
  function Seed(m: Maze): (r: Option<Maze>)
    ensures r.Some? <==> m.w < |m.cells|
    ensures r.Some? ==> r.value.w == m.w && |r.value.cells| == |m.cells|
    ensures r.Some? ==> FieldAt(r.value, 0, 1) == Calculated(ANY, 0)
    ensures r.Some? ==> forall j :: 0 <= j < |m.cells| && j != m.w ==> r.value.cells[j] == m.cells[j]
  {
    match FieldMut(m, 0, 1)
    case Some(i) => Some(Maze(m.cells[i := Calculated(ANY, 0)], m.w))
    case None => None
  }
}
