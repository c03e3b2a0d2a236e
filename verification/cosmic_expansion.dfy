/**
  Cosmic Expansion (2023 day 11): galaxies `#` on a grid of lines, where
  every row and column without a galaxy has aged into `age` copies of
  itself; the answer is the sum of the galaxy pairs' distances in the
  aged universe.
*/
module CosmicExpansion {
  import opened Wrappers

  /** A galaxy's `(col, row)` position. */
  datatype Galaxy = Galaxy(col: nat, row: nat)

  /** The empty columns and rows are those below the first line's width and the line count. */
  datatype Cosmos = Cosmos(galaxies: seq<Galaxy>, emptyCols: set<nat>, emptyRows: set<nat>)

  /** `a` comes before `b` in reading order. */
  predicate Before(a: Galaxy, b: Galaxy)
  {
    a.row < b.row || (a.row == b.row && a.col < b.col)
  }

  /** Strictly in reading order, so also free of repeats. */
  predicate RowMajor(gs: seq<Galaxy>)
  {
    forall i, j :: 0 <= i < j < |gs| ==> Before(gs[i], gs[j])
  }

  /** Line `row` holds a galaxy at column `col`. */
  predicate IsGalaxy(lines: seq<string>, col: nat, row: nat)
  {
    row < |lines| && col < |lines[row]| && lines[row][col] == '#'
  }

  /** The galaxies of line `row` from column `col` on, left to right. */
  function RowGalaxies(lines: seq<string>, row: nat, col: nat): (gs: seq<Galaxy>)
    requires row < |lines|
    ensures forall g :: g in gs <==> g.row == row && col <= g.col && IsGalaxy(lines, g.col, g.row)
    ensures RowMajor(gs)
    decreases |lines[row]| - col
  {
    if col >= |lines[row]| then []
    else
      var rest := RowGalaxies(lines, row, col + 1);
      assert forall j :: 0 <= j < |rest| ==> rest[j] in rest;
      if lines[row][col] == '#' then [Galaxy(col, row)] + rest else rest
  }

  /** The galaxies of the lines from `row` on, in reading order. */
  function GalaxiesFrom(lines: seq<string>, row: nat): (gs: seq<Galaxy>)
    ensures forall g :: g in gs <==> row <= g.row && IsGalaxy(lines, g.col, g.row)
    ensures RowMajor(gs)
    decreases |lines| - row
  {
    if row >= |lines| then []
    else
      var here, rest := RowGalaxies(lines, row, 0), GalaxiesFrom(lines, row + 1);
      assert forall j :: 0 <= j < |here| ==> here[j] in here;
      assert forall j :: 0 <= j < |rest| ==> rest[j] in rest;
      here + rest
  }

  /** The coordinate of `g` along columns (`onCols`) or rows. */
  function Coord(g: Galaxy, onCols: bool): nat
  {
    if onCols then g.col else g.row
  }

  /** Some galaxy lies in column (or row) `v`. */
  predicate Occupied(gs: seq<Galaxy>, v: nat, onCols: bool)
  {
    exists k :: 0 <= k < |gs| && Coord(gs[k], onCols) == v
  }

  /** The lines below `n` that no galaxy lies in, found one by one as the `for_each` over `0..n` does. */
  function EmptyBelow(gs: seq<Galaxy>, n: nat, onCols: bool): (e: set<nat>)
    ensures forall v: nat :: v in e <==> v < n && !Occupied(gs, v, onCols)
  {
    if n == 0 then {}
    else
      var occupied := exists k :: 0 <= k < |gs| && Coord(gs[k], onCols) == n - 1;
      EmptyBelow(gs, n - 1, onCols) + (if occupied then {} else {n - 1})
  }

  /**
    `Cosmos::from_str`: the galaxies in reading order and the empty columns
    and rows. The width is that of the first line, so input without lines
    panics at its `unwrap`.
  */
  function FromLines(lines: seq<string>): (r: Outcome<Cosmos>)
    ensures r.Panic? <==> |lines| == 0
    ensures r.Done? ==> RowMajor(r.value.galaxies)
    ensures r.Done? ==> forall g :: g in r.value.galaxies <==> IsGalaxy(lines, g.col, g.row)
    ensures r.Done? ==> forall c: nat :: c in r.value.emptyCols <==> c < |lines[0]| && forall row: nat :: !IsGalaxy(lines, c, row)
    ensures r.Done? ==> forall row: nat :: row in r.value.emptyRows <==> row < |lines| && forall c: nat :: !IsGalaxy(lines, c, row)
  {
    if |lines| == 0 then Panic
    else
      var gs := GalaxiesFrom(lines, 0);
      var c := Cosmos(gs, EmptyBelow(gs, |lines[0]|, true), EmptyBelow(gs, |lines|, false));
      OccupiedIff(lines, gs);
      Done(c)
  }

  /** A line is occupied exactly when some cell of it is a galaxy. */
  lemma OccupiedIff(lines: seq<string>, gs: seq<Galaxy>)
    requires forall g :: g in gs <==> IsGalaxy(lines, g.col, g.row)
    ensures forall c: nat :: Occupied(gs, c, true) <==> exists row: nat :: IsGalaxy(lines, c, row)
    ensures forall row: nat :: Occupied(gs, row, false) <==> exists c: nat :: IsGalaxy(lines, c, row)
  {
    forall c: nat | exists row: nat :: IsGalaxy(lines, c, row)
      ensures Occupied(gs, c, true)
    {
      var row :| IsGalaxy(lines, c, row);
      assert Galaxy(c, row) in gs;
      var k :| 0 <= k < |gs| && gs[k] == Galaxy(c, row);
    }
    forall row: nat | exists c: nat :: IsGalaxy(lines, c, row)
      ensures Occupied(gs, row, false)
    {
      var c :| IsGalaxy(lines, c, row);
      assert Galaxy(c, row) in gs;
      var k :| 0 <= k < |gs| && gs[k] == Galaxy(c, row);
    }
    forall c: nat | Occupied(gs, c, true) ensures exists row: nat :: IsGalaxy(lines, c, row) {
      var k :| 0 <= k < |gs| && gs[k].col == c;
      assert gs[k] in gs;
    }
    forall row: nat | Occupied(gs, row, false) ensures exists c: nat :: IsGalaxy(lines, c, row) {
      var k :| 0 <= k < |gs| && gs[k].row == row;
      assert gs[k] in gs;
    }
  }

  // ---------------------------------------------------------------------
  // Distances

  /** `tuple_combinations`: each pair of positions `i < j`, ordered by `i` and then `j`. */
  function Pairs<T>(xs: seq<T>): (ps: seq<(T, T)>)
    ensures |ps| == |xs| * (|xs| - 1) / 2
    ensures forall i, j :: 0 <= i < j < |xs| ==> (xs[i], xs[j]) in ps
    ensures forall p :: p in ps ==> exists i, j :: 0 <= i < j < |xs| && p == (xs[i], xs[j])
  {
    if |xs| == 0 then []
    else
      var tail := xs[1..];
      var first, rest := PairsWith(xs[0], tail), Pairs(tail);
      PairsCover(xs, first, tail, rest);
      PairsSound(xs, first, tail, rest);
      PairCount(|xs|);
      first + rest
  }

  /** `x` paired with each of `ys`, in order. */
  function PairsWith<T>(x: T, ys: seq<T>): (ps: seq<(T, T)>)
    ensures |ps| == |ys| && forall k :: 0 <= k < |ys| ==> ps[k] == (x, ys[k])
  {
    seq(|ys|, k requires 0 <= k < |ys| => (x, ys[k]))
  }

  /** `n` choose 2 is `n - 1` more than `n - 1` choose 2. */
  lemma PairCount(n: nat)
    requires n >= 1
    ensures n * (n - 1) / 2 == n - 1 + (n - 1) * (n - 2) / 2
  {
    assert n * (n - 1) == 2 * (n - 1) + (n - 1) * (n - 2);
  }

  /** The pairs with the first position, then those of the tail, cover every pair of `xs`. */
  lemma PairsCover<T>(xs: seq<T>, first: seq<(T, T)>, tail: seq<T>, rest: seq<(T, T)>)
    requires |xs| > 0 && tail == xs[1..]
    requires |first| == |tail| && forall k :: 0 <= k < |first| ==> first[k] == (xs[0], tail[k])
    requires forall i, j :: 0 <= i < j < |tail| ==> (tail[i], tail[j]) in rest
    ensures forall i, j :: 0 <= i < j < |xs| ==> (xs[i], xs[j]) in first + rest
  {
    forall i, j | 0 <= i < j < |xs| ensures (xs[i], xs[j]) in first + rest {
      if i == 0 {
        assert first[j - 1] == (xs[i], xs[j]);
      } else {
        assert (tail[i - 1], tail[j - 1]) in rest;
      }
    }
  }

  /** Every pair built from the first position or from the tail is a pair of `xs`. */
  lemma PairsSound<T>(xs: seq<T>, first: seq<(T, T)>, tail: seq<T>, rest: seq<(T, T)>)
    requires |xs| > 0 && tail == xs[1..]
    requires |first| == |tail| && forall k :: 0 <= k < |first| ==> first[k] == (xs[0], tail[k])
    requires forall p :: p in rest ==> exists i, j :: 0 <= i < j < |tail| && p == (tail[i], tail[j])
    ensures forall p :: p in first + rest ==> exists i, j :: 0 <= i < j < |xs| && p == (xs[i], xs[j])
  {
    forall p | p in first + rest ensures exists i, j :: 0 <= i < j < |xs| && p == (xs[i], xs[j]) {
      if p in first {
        var k :| 0 <= k < |first| && first[k] == p;
        assert p == (xs[0], xs[k + 1]);
      } else {
        var i, j :| 0 <= i < j < |tail| && p == (tail[i], tail[j]);
        assert p == (xs[i + 1], xs[j + 1]);
      }
    }
  }

  /** The empty lines strictly between `lo` and `hi`: the `filter(..).count()`. */
  function Between(empty: set<nat>, lo: nat, hi: nat): nat
  {
    |set v | v in empty && lo < v < hi|
  }

  /** The distance along one axis from `a` to `b`, each empty line in between counting `age` times. */
  function AxisDistance(empty: set<nat>, a: nat, b: nat, age: nat): (d: nat)
    requires age >= 1
    ensures d == Abs(a - b) + (age - 1) * Between(empty, Min(a, b), Max(a, b))
  {
    var (lo, hi) := (Min(a, b), Max(a, b));
    (hi - lo) + Between(empty, lo, hi) * (age - 1)
  }

  /** One pair's distance: across the columns and then the rows. */
  function Distance(c: Cosmos, a: Galaxy, b: Galaxy, age: nat): (d: nat)
    requires age >= 1
    ensures d == Abs(a.col - b.col) + Abs(a.row - b.row) + (age - 1) * Gravity(c, a, b)
  {
    var k: nat := age - 1;
    var dc, dr := AxisDistance(c.emptyCols, a.col, b.col, age), AxisDistance(c.emptyRows, a.row, b.row, age);
    Distribute(k, Between(c.emptyCols, Min(a.col, b.col), Max(a.col, b.col)), Between(c.emptyRows, Min(a.row, b.row), Max(a.row, b.row)));
    dc + dr
  }

  /** The empty columns and rows strictly between the two galaxies. */
  function Gravity(c: Cosmos, a: Galaxy, b: Galaxy): nat
  {
    Between(c.emptyCols, Min(a.col, b.col), Max(a.col, b.col)) + Between(c.emptyRows, Min(a.row, b.row), Max(a.row, b.row))
  }

  lemma DistanceSymmetric(c: Cosmos, a: Galaxy, b: Galaxy, age: nat)
    requires age >= 1
    ensures Distance(c, a, b, age) == Distance(c, b, a, age)
  {
  }

  function SumDistances(c: Cosmos, ps: seq<(Galaxy, Galaxy)>, age: nat): nat
    requires age >= 1
  {
    if |ps| == 0 then 0 else Distance(c, ps[0].0, ps[0].1, age) + SumDistances(c, ps[1..], age)
  }

  function SumGravity(c: Cosmos, ps: seq<(Galaxy, Galaxy)>): nat
  {
    if |ps| == 0 then 0 else Gravity(c, ps[0].0, ps[0].1) + SumGravity(c, ps[1..])
  }

  /**
    `manhattan_distance_with_gravity`: the sum over every pair of galaxies.
    `age - 1` is evaluated once per pair, so age 0 panics exactly when
    there is a pair.
  */
  function TotalDistance(c: Cosmos, age: nat): (r: Outcome<nat>)
    ensures r.Panic? <==> age == 0 && |c.galaxies| >= 2
    ensures r.Done? && |c.galaxies| < 2 ==> r.value == 0
  {
    var ps := Pairs(c.galaxies);
    if |ps| == 0 then Done(0)
    else if age == 0 then Panic
    else Done(SumDistances(c, ps, age))
  }

  /** Every further year of age adds each pair's empty lines once more. */
  lemma {:induction false} SumAffine(c: Cosmos, ps: seq<(Galaxy, Galaxy)>, age: nat)
    requires age >= 1
    ensures SumDistances(c, ps, age) == SumDistances(c, ps, 1) + (age - 1) * SumGravity(c, ps)
  {
    if |ps| > 0 {
      SumAffine(c, ps[1..], age);
      var g, rest := Gravity(c, ps[0].0, ps[0].1), SumGravity(c, ps[1..]);
      assert Distance(c, ps[0].0, ps[0].1, age) == Distance(c, ps[0].0, ps[0].1, 1) + (age - 1) * g;
      Distribute(age - 1, g, rest);
    }
  }

  lemma Distribute(k: nat, g: nat, rest: nat)
    ensures k * (g + rest) == k * g + k * rest
  {
  }

  /** The total is affine in `age - 1`, starting from the plain Manhattan sum at age 1. */
  lemma TotalAffine(c: Cosmos, age: nat)
    requires age >= 1
    ensures TotalDistance(c, age).Done? && TotalDistance(c, 1).Done?
    ensures TotalDistance(c, age).value == TotalDistance(c, 1).value + (age - 1) * SumGravity(c, Pairs(c.galaxies))
  {
    SumAffine(c, Pairs(c.galaxies), age);
  }

  // ---------------------------------------------------------------------
  // The expanded universe

  /** The empty lines below `v`. */
  function Below(empty: set<nat>, v: nat): nat
  {
    |set w | w in empty && w < v|
  }

  /** Where coordinate `v` lands once every empty line before it has grown to `age` lines. */
  function Expand(empty: set<nat>, age: nat, v: nat): nat
    requires age >= 1
  {
    v + (age - 1) * Below(empty, v)
  }

  /** Between two coordinates, the lower not itself empty, lie the empty lines below the upper but not the lower. */
  lemma BelowSplit(empty: set<nat>, lo: nat, hi: nat)
    requires lo <= hi && lo !in empty
    ensures Below(empty, hi) == Below(empty, lo) + Between(empty, lo, hi)
  {
    var low, mid := set w | w in empty && w < lo, set w | w in empty && lo < w < hi;
    assert (set w | w in empty && w < hi) == low + mid;
    assert low !! mid;
  }

  /** The axis distance is the plain distance of the two coordinates in the expanded universe. */
  lemma AxisExpanded(empty: set<nat>, a: nat, b: nat, age: nat)
    requires age >= 1 && a !in empty && b !in empty
    ensures AxisDistance(empty, a, b, age) == Abs(Expand(empty, age, a) - Expand(empty, age, b))
  {
    var (lo, hi) := (Min(a, b), Max(a, b));
    BelowSplit(empty, lo, hi);
    assert (age - 1) * Below(empty, hi) == (age - 1) * Below(empty, lo) + (age - 1) * Between(empty, lo, hi);
  }

  /** No galaxy lies in a line counted as empty. */
  predicate Consistent(c: Cosmos)
  {
    forall k :: 0 <= k < |c.galaxies| ==> c.galaxies[k].col !in c.emptyCols && c.galaxies[k].row !in c.emptyRows
  }

  lemma FromLinesConsistent(lines: seq<string>)
    requires FromLines(lines).Done?
    ensures Consistent(FromLines(lines).value)
  {
    var c := FromLines(lines).value;
    forall k | 0 <= k < |c.galaxies|
      ensures c.galaxies[k].col !in c.emptyCols && c.galaxies[k].row !in c.emptyRows
    {
      assert c.galaxies[k] in c.galaxies;
    }
  }

  /** A pair's distance is the Manhattan distance between the galaxies' expanded positions. */
  lemma DistanceExpanded(c: Cosmos, i: nat, j: nat, age: nat)
    requires Consistent(c) && i < |c.galaxies| && j < |c.galaxies| && age >= 1
    ensures var a, b := c.galaxies[i], c.galaxies[j];
      Distance(c, a, b, age)
      == Abs(Expand(c.emptyCols, age, a.col) - Expand(c.emptyCols, age, b.col))
       + Abs(Expand(c.emptyRows, age, a.row) - Expand(c.emptyRows, age, b.row))
  {
    var a, b := c.galaxies[i], c.galaxies[j];
    AxisExpanded(c.emptyCols, a.col, b.col, age);
    AxisExpanded(c.emptyRows, a.row, b.row, age);
  }

  // ---------------------------------------------------------------------
  // The puzzle

  function Solve(lines: seq<string>, age: nat): (r: Outcome<nat>)
    ensures r.Panic? <==> |lines| == 0 || (age == 0 && |FromLines(lines).value.galaxies| >= 2)
  {
    var c := FromLines(lines);
    if c.Panic? then Panic else TotalDistance(c.value, age)
  }

  /** `part_one`: every empty line counts twice. */
  function PartOne(lines: seq<string>): (r: Outcome<nat>)
    ensures r.Panic? <==> |lines| == 0
  {
    Solve(lines, 2)
  }

  /** `part_two`: every empty line counts a million times. */
  function PartTwo(lines: seq<string>): (r: Outcome<nat>)
    ensures r.Panic? <==> |lines| == 0
  {
    Solve(lines, 1000000)
  }

  lemma SolveTotal(lines: seq<string>, c: Cosmos, age: nat)
    requires FromLines(lines) == Done(c)
    ensures Solve(lines, age) == TotalDistance(c, age)
  {
  }

  /** The two parts differ by 999998 times the pairs' empty lines. */
  lemma PartsAffine(lines: seq<string>)
    requires |lines| > 0
    ensures PartTwo(lines).value == PartOne(lines).value + 999998 * SumGravity(FromLines(lines).value, Pairs(FromLines(lines).value.galaxies))
  {
    var c := FromLines(lines).value;
    var g := SumGravity(c, Pairs(c.galaxies));
    SolveTotal(lines, c, 2);
    SolveTotal(lines, c, 1000000);
    TotalAffine(c, 2);
    TotalAffine(c, 1000000);
    var base := TotalDistance(c, 1).value;
    assert PartOne(lines).value == base + g;
    assert PartTwo(lines).value == base + 999999 * g;
  }
}
