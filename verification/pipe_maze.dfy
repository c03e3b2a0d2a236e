/**
  Pipe Maze (2023 day 10): a grid of pipe pieces holds one loop through
  the start `S`. The loop is walked from the start, half its length is the
  farthest distance along it, and the shoelace formula with Pick's theorem
  counts the tiles it encloses.
*/
module PipeMaze {
  import opened Wrappers

  /**
    A grid point `(y, x)`. Rust keeps points as `usize` and wraps a step
    off the top or left edge round to a huge value; every such point is out
    of the grid, exactly as a negative coordinate is here.
  */
  datatype Point = Point(y: int, x: int)

  datatype Offset = Offset(dy: int, dx: int)

  /** The puzzle's lines, one row of characters each. */
  type Grid = seq<string>

  predicate InGrid(grid: Grid, p: Point)
  {
    0 <= p.y < |grid| && 0 <= p.x < |grid[p.y]|
  }

  /** `get_val`: the character at `p`; rows may differ in length. */
  function GetVal(grid: Grid, p: Point): (r: Option<char>)
    ensures r.None? <==> p.y < 0 || p.y >= |grid| || p.x < 0 || p.x >= |grid[p.y]|
    ensures r.Some? ==> r.value == grid[p.y][p.x]
  {
    if p.y < 0 || p.y >= |grid| then None
    else
      var row := grid[p.y];
      if p.x < 0 || p.x >= |row| then None else Some(row[p.x])
  }

  /** `add_offset` */
  function Add(p: Point, off: Offset): Point
  {
    Point(p.y + off.dy, p.x + off.dx)
  }

  /** Two points one orthogonal step apart. */
  predicate Adjacent(p: Point, q: Point)
  {
    || (p.y == q.y && (q.x == p.x - 1 || q.x == p.x + 1))
    || (p.x == q.x && (q.y == p.y - 1 || q.y == p.y + 1))
  }

  const NeighborOffsets: seq<Offset> := [Offset(-1, 0), Offset(1, 0), Offset(0, -1), Offset(0, 1)]

  /** `neighbors`: up, down, left, right; together exactly the adjacent points. */
  function Neighbors(p: Point): (ns: seq<Point>)
    ensures |ns| == 4
    ensures ns[0] == Point(p.y - 1, p.x) && ns[1] == Point(p.y + 1, p.x)
    ensures ns[2] == Point(p.y, p.x - 1) && ns[3] == Point(p.y, p.x + 1)
    ensures forall q :: q in ns <==> Adjacent(p, q)
  {
    var ns := seq(4, i requires 0 <= i < 4 => Add(p, NeighborOffsets[i]));
    assert forall q :: Adjacent(p, q) ==> q in ns by {
      forall q | Adjacent(p, q) ensures q in ns {
        if q.y < p.y { assert q == ns[0]; }
        else if q.y > p.y { assert q == ns[1]; }
        else if q.x < p.x { assert q == ns[2]; }
        else { assert q == ns[3]; }
      }
    }
    ns
  }

  /** The four neighbours of a point are four different points. */
  predicate Distinct(ps: seq<Point>)
  {
    forall i, j :: 0 <= i < j < |ps| ==> ps[i] != ps[j]
  }

  lemma NeighborsDistinct(p: Point)
    ensures Distinct(Neighbors(p))
  {
  }

  // ---------------------------------------------------------------------
  // Pipes

  /** `PIPE_OFFSETS`: the two ends of each pipe piece; any other character has none. */
  function PipeOffsets(c: char): Option<(Offset, Offset)>
  {
    match c
    case '|' => Some((Offset(1, 0), Offset(-1, 0)))
    case '-' => Some((Offset(0, 1), Offset(0, -1)))
    case 'L' => Some((Offset(-1, 0), Offset(0, 1)))
    case 'J' => Some((Offset(-1, 0), Offset(0, -1)))
    case '7' => Some((Offset(0, -1), Offset(1, 0)))
    case 'F' => Some((Offset(0, 1), Offset(1, 0)))
    case _ => None
  }

  predicate Unit(off: Offset)
  {
    Abs(off.dy) + Abs(off.dx) == 1
  }

  /** Exactly the six pipe characters have ends, and those are two different orthogonal steps. */
  lemma PipeOffsetsShape(c: char)
    ensures PipeOffsets(c).Some? <==> c in "|-LJ7F"
    ensures PipeOffsets(c).Some? ==>
      var (a, b) := PipeOffsets(c).value;
      Unit(a) && Unit(b) && a != b
  {
  }

  /**
    `possible_moves`: the points at the two ends of the pipe at `p`. A point
    off the grid or holding no pipe panics (the two `unwrap`s).
  */
  function PossibleMoves(grid: Grid, p: Point): (r: Outcome<(Point, Point)>)
    ensures r.Panic? <==> !InGrid(grid, p) || PipeOffsets(grid[p.y][p.x]).None?
    ensures r.Done? ==> Adjacent(p, r.value.0) && Adjacent(p, r.value.1) && r.value.0 != r.value.1
  {
    var c := GetVal(grid, p);
    if c.None? then Panic
    else
      var offsets := PipeOffsets(c.value);
      if offsets.None? then Panic
      else
        PipeOffsetsShape(c.value);
        Done((Add(p, offsets.value.0), Add(p, offsets.value.1)))
  }

  // ---------------------------------------------------------------------
  // The start

  /** `line.iter().position(|&c| c == 'S')` */
  function Position(row: string, c: char): (r: Option<nat>)
    ensures r.None? <==> c !in row
    ensures r.Some? ==> r.value < |row| && row[r.value] == c && c !in row[..r.value]
  {
    if |row| == 0 then None
    else if row[0] == c then Some(0)
    else
      var rest := Position(row[1..], c);
      if rest.None? then None
      else
        assert row[..rest.value + 1] == [row[0]] + row[1..][..rest.value];
        Some(rest.value + 1)
  }

  /** The first row from `y` on holding an `S`, with the `S`'s column. */
  function FirstStart(grid: Grid, y: nat): (r: Option<Point>)
    requires y <= |grid|
    ensures r.None? <==> forall k :: y <= k < |grid| ==> 'S' !in grid[k]
    ensures r.Some? ==> y <= r.value.y && InGrid(grid, r.value) && grid[r.value.y][r.value.x] == 'S'
    ensures r.Some? ==> 'S' !in grid[r.value.y][..r.value.x] && forall k :: y <= k < r.value.y ==> 'S' !in grid[k]
    decreases |grid| - y
  {
    if y == |grid| then None
    else
      var x := Position(grid[y], 'S');
      if x.Some? then Some(Point(y, x.value)) else FirstStart(grid, y + 1)
  }

  /**
    `starting_pos`: the first `S` in reading order; a grid without one
    panics (the `expect`).
  */
  function StartingPos(grid: Grid): (r: Outcome<Point>)
    ensures r.Panic? <==> forall k :: 0 <= k < |grid| ==> 'S' !in grid[k]
    ensures r.Done? ==> InGrid(grid, r.value) && grid[r.value.y][r.value.x] == 'S'
    ensures r.Done? ==> 'S' !in grid[r.value.y][..r.value.x] && forall k :: 0 <= k < r.value.y ==> 'S' !in grid[k]
  {
    var p := FirstStart(grid, 0);
    if p.None? then Panic else Done(p.value)
  }

  /** `n` is on the grid, not ground, and one end of its pipe is `s`. */
  predicate Connects(grid: Grid, s: Point, n: Point)
  {
    && InGrid(grid, n) && grid[n.y][n.x] != '.'
    && var moves := PossibleMoves(grid, n);
       moves.Done? && (s == moves.value.0 || s == moves.value.1)
  }

  /** `n` is on the grid and not ground, but holds no pipe: looking at it panics. */
  predicate Blocked(grid: Grid, n: Point)
  {
    InGrid(grid, n) && grid[n.y][n.x] != '.' && PossibleMoves(grid, n).Panic?
  }

  /** `v` is in `ns`, and no candidate before it connects. */
  ghost predicate FirstConnecting(grid: Grid, s: Point, ns: seq<Point>, v: Point)
  {
    exists i :: 0 <= i < |ns| && ns[i] == v && forall j :: 0 <= j < i ==> !Connects(grid, s, ns[j])
  }

  lemma FirstConnectingTail(grid: Grid, s: Point, ns: seq<Point>, v: Point)
    requires |ns| > 0 && !Connects(grid, s, ns[0]) && FirstConnecting(grid, s, ns[1..], v)
    ensures FirstConnecting(grid, s, ns, v)
  {
    var i :| 0 <= i < |ns| - 1 && ns[1..][i] == v && forall j :: 0 <= j < i ==> !Connects(grid, s, ns[1..][j]);
    assert ns[i + 1] == v;
    assert forall j :: 1 <= j < i + 1 ==> ns[j] == ns[1..][j - 1];
  }

  /** The verdict on one candidate: kept, skipped, or the panic of looking at a pipe that is not one. */
  function Verdict(grid: Grid, s: Point, n: Point): (r: Outcome<bool>)
    ensures r.Panic? <==> Blocked(grid, n)
    ensures r.Done? ==> (r.value <==> Connects(grid, s, n))
  {
    var c := GetVal(grid, n);
    if c.None? || c.value == '.' then Done(false)
    else
      var moves := PossibleMoves(grid, n);
      if moves.Panic? then Panic else Done(s == moves.value.0 || s == moves.value.1)
  }

  /** The loop of `start_neighbors` over the candidates `ns`, in order. */
  function Connecting(grid: Grid, s: Point, ns: seq<Point>): (r: Outcome<seq<Point>>)
    ensures r.Panic? <==> exists k :: 0 <= k < |ns| && Blocked(grid, ns[k])
    ensures r.Done? ==> forall p :: p in r.value <==> p in ns && Connects(grid, s, p)
  {
    if |ns| == 0 then Done([])
    else
      assert forall k :: 1 <= k < |ns| ==> ns[1..][k - 1] == ns[k];
      var v, rest := Verdict(grid, s, ns[0]), Connecting(grid, s, ns[1..]);
      if v.Panic? || rest.Panic? then Panic
      else Done((if v.value then [ns[0]] else []) + rest.value)
  }

  /** Candidates that are all different stay all different. */
  lemma {:induction false} ConnectingDistinct(grid: Grid, s: Point, ns: seq<Point>)
    requires Distinct(ns) && Connecting(grid, s, ns).Done?
    ensures Distinct(Connecting(grid, s, ns).value)
  {
    if |ns| > 0 {
      assert Distinct(ns[1..]);
      ConnectingDistinct(grid, s, ns[1..]);
      assert ns[0] !in ns[1..];
    }
  }

  /** The first kept candidate is the first that connects. */
  lemma {:induction false} ConnectingFirst(grid: Grid, s: Point, ns: seq<Point>)
    requires Connecting(grid, s, ns).Done? && |Connecting(grid, s, ns).value| > 0
    ensures FirstConnecting(grid, s, ns, Connecting(grid, s, ns).value[0])
  {
    var r := Connecting(grid, s, ns).value;
    if Connects(grid, s, ns[0]) {
      assert r[0] == ns[0];
    } else {
      assert r == Connecting(grid, s, ns[1..]).value;
      ConnectingFirst(grid, s, ns[1..]);
      FirstConnectingTail(grid, s, ns, r[0]);
    }
  }

  /**
    `start_neighbors`: the first two neighbours of `s` (up, down, left,
    right) whose pipes lead back to it. Fewer than two panics on the index.
  */
  function StartNeighbors(grid: Grid, s: Point): (r: Outcome<(Point, Point)>)
    ensures r.Done? ==> Connects(grid, s, r.value.0) && Connects(grid, s, r.value.1)
    ensures r.Done? ==> Adjacent(s, r.value.0) && Adjacent(s, r.value.1) && r.value.0 != r.value.1
    ensures r.Done? ==> FirstConnecting(grid, s, Neighbors(s), r.value.0)
    ensures (exists k :: 0 <= k < 4 && Blocked(grid, Neighbors(s)[k])) ==> r.Panic?
  {
    var ns := Neighbors(s);
    NeighborsDistinct(s);
    var found := Connecting(grid, s, ns);
    if found.Panic? || |found.value| < 2 then Panic
    else
      ConnectingDistinct(grid, s, ns);
      ConnectingFirst(grid, s, ns);
      assert found.value[0] in found.value && found.value[1] in found.value;
      Done((found.value[0], found.value[1]))
  }

  // ---------------------------------------------------------------------
  // The walk

  /** At `cur`, reached from `prev`, the walk goes on to `next`: the end of the pipe that is not `b == prev`. */
  predicate Step(grid: Grid, prev: Point, cur: Point, next: Point)
  {
    var moves := PossibleMoves(grid, cur);
    moves.Done? && next == (if moves.value.1 == prev then moves.value.0 else moves.value.1)
  }

  /** The walk never turns back to the point it just left, and always moves one step. */
  lemma StepForward(grid: Grid, prev: Point, cur: Point, next: Point)
    requires Step(grid, prev, cur, next)
    ensures next != prev && Adjacent(cur, next)
  {
  }

  /** The loop is closed at `cur`, reached from `prev`: one end of its pipe is the start, and `prev` was not. */
  predicate Closes(grid: Grid, s: Point, prev: Point, cur: Point)
  {
    var moves := PossibleMoves(grid, cur);
    moves.Done? && (moves.value.0 == s || moves.value.1 == s) && prev != s
  }

  /** The positions at `i`, `i + 1` and `i + 2` are a step of the walk. */
  predicate StepAt(grid: Grid, ps: seq<Point>, i: nat)
  {
    i + 2 < |ps| && Step(grid, ps[i], ps[i + 1], ps[i + 2])
  }

  /** From index `from` on, every three consecutive positions are a step of the walk. */
  predicate Steps(grid: Grid, ps: seq<Point>, from: nat)
  {
    forall i: nat :: from <= i < |ps| - 2 ==> StepAt(grid, ps, i)
  }

  /**
    One round of the `loop` at `current`, reached from `prev`: the panic of
    a point without a pipe, `None` when the loop closes here, or the point
    to go on to.
  */
  function Advance(grid: Grid, s: Point, prev: Point, current: Point): (r: Outcome<Option<Point>>)
    ensures r.Panic? <==> PossibleMoves(grid, current).Panic?
    ensures r == Done(None) <==> Closes(grid, s, prev, current)
    ensures r.Done? && r.value.Some? ==> Step(grid, prev, current, r.value.value)
  {
    var moves := PossibleMoves(grid, current);
    if moves.Panic? then Panic
    else
      var (a, b) := moves.value;
      if (a == s || b == s) && prev != s then Done(None)
      else Done(Some(if b == prev then a else b))
  }

  /**
    The `loop` of both parts, from `current` with `positions` visited so
    far. Each round steps once; running out of `fuel` stands for a walk
    that never closes.
  */
  function Walk(grid: Grid, s: Point, positions: seq<Point>, current: Point, fuel: nat): (r: Outcome<seq<Point>>)
    requires |positions| > 0
    ensures r.Done? ==> positions + [current] <= r.value
    decreases fuel
  {
    var ps := positions + [current];
    var next := Advance(grid, s, positions[|positions| - 1], current);
    if next.Panic? then Panic
    else if next.value.None? then Done(ps)
    else if fuel == 0 then Panic
    else Walk(grid, s, ps, next.value.value, fuel - 1)
  }

  /** A walk that comes back has stepped from pipe to pipe, and stops at the first pipe leading to the start. */
  lemma {:induction false} WalkSound(grid: Grid, s: Point, positions: seq<Point>, current: Point, fuel: nat)
    requires |positions| > 0 && Walk(grid, s, positions, current, fuel).Done?
    ensures var ps := Walk(grid, s, positions, current, fuel).value;
      Closes(grid, s, ps[|ps| - 2], ps[|ps| - 1]) && Steps(grid, ps, |positions| - 1)
    decreases fuel
  {
    var prev := positions[|positions| - 1];
    var adv := Advance(grid, s, prev, current);
    var qs := positions + [current];
    if adv.value.None? {
      assert Walk(grid, s, positions, current, fuel).value == qs;
    } else {
      var next := adv.value.value;
      WalkSound(grid, s, qs, next, fuel - 1);
      var ps := Walk(grid, s, qs, next, fuel - 1).value;
      assert qs + [next] <= ps;
      var k := |positions| - 1;
      assert ps[k] == prev && ps[k + 1] == current && ps[k + 2] == next;
      assert StepAt(grid, ps, k);
    }
  }

  /** The number of cells of the grid. */
  function Cells(grid: Grid): nat
  {
    if |grid| == 0 then 0 else |grid[0]| + Cells(grid[1..])
  }

  /**
    The walk's state is the pair of its current cell and the neighbour it
    came from, so a walk that has not closed after this many rounds never
    will.
  */
  function Fuel(grid: Grid): nat
  {
    4 * Cells(grid)
  }

  /** A path of orthogonal steps that never turns straight back and ends next to where it began. */
  ghost predicate ClosedPath(ps: seq<Point>)
  {
    && |ps| >= 2
    && (forall i, j :: 0 <= i < j < |ps| && j == i + 1 ==> Adjacent(ps[i], ps[j]))
    && (forall i, j :: 0 <= i < j < |ps| && j == i + 2 ==> ps[j] != ps[i])
    && Adjacent(ps[|ps| - 1], ps[0])
  }

  /**
    The positions of the loop: the start, then the walk from the first of
    the start's connecting neighbours until it comes back.
  */
  function Loop(grid: Grid): (r: Outcome<seq<Point>>)
    ensures StartingPos(grid).Panic? ==> r.Panic?
    ensures r.Done? ==> |r.value| >= 2 && r.value[0] == StartingPos(grid).value
  {
    var s := StartingPos(grid);
    if s.Panic? then Panic
    else
      var sn := StartNeighbors(grid, s.value);
      if sn.Panic? then Panic
      else
        Walk(grid, s.value, [s.value], sn.value.0, Fuel(grid))
  }

  /** The loop found is a closed path of orthogonal steps from the start. */
  lemma LoopClosed(grid: Grid)
    requires Loop(grid).Done?
    ensures ClosedPath(Loop(grid).value)
  {
    var s := StartingPos(grid).value;
    var sn := StartNeighbors(grid, s).value;
    assert Loop(grid) == Walk(grid, s, [s], sn.0, Fuel(grid));
    StartWalkClosed(grid, s, sn.0, Fuel(grid));
  }

  /** A walk from the start through an adjacent pipe that comes back is a closed path. */
  lemma StartWalkClosed(grid: Grid, s: Point, first: Point, fuel: nat)
    requires Adjacent(s, first) && Walk(grid, s, [s], first, fuel).Done?
    ensures ClosedPath(Walk(grid, s, [s], first, fuel).value)
  {
    assert [s] + [first] == [s, first];
    WalkSound(grid, s, [s], first, fuel);
    WalkClosed(grid, s, first, Walk(grid, s, [s], first, fuel).value);
  }

  /** A walk from the start's connecting neighbour that comes back is a closed path. */
  lemma WalkClosed(grid: Grid, s: Point, first: Point, ps: seq<Point>)
    requires Adjacent(s, first) && [s, first] <= ps
    requires Closes(grid, s, ps[|ps| - 2], ps[|ps| - 1]) && Steps(grid, ps, 0)
    ensures ClosedPath(ps)
  {
    assert ps[0] == s && ps[1] == first;
    forall i, j | 0 <= i < j < |ps| && j == i + 2 ensures ps[j] != ps[i] {
      assert StepAt(grid, ps, i);
      StepForward(grid, ps[i], ps[i + 1], ps[j]);
    }
    forall i, j | 0 <= i < j < |ps| && j == i + 1 ensures Adjacent(ps[i], ps[j]) {
      if i > 0 {
        assert StepAt(grid, ps, i - 1);
        StepForward(grid, ps[i - 1], ps[i], ps[j]);
      }
    }
    var moves := PossibleMoves(grid, ps[|ps| - 1]);
    assert Adjacent(ps[|ps| - 1], ps[0]) by {
      assert moves.value.0 == s || moves.value.1 == s;
    }
  }

  /** `part_one`: the farthest point along the loop, half its length rounded up. */
  function PartOne(grid: Grid): (r: Outcome<nat>)
    ensures r.Done? <==> Loop(grid).Done?
    ensures r.Done? ==> r.value * 2 == |Loop(grid).value| || r.value * 2 == |Loop(grid).value| + 1
  {
    var ps := Loop(grid);
    if ps.Panic? then Panic else Done((|ps.value| + 1) / 2)
  }

  // ---------------------------------------------------------------------
  // Area

  /** One shoelace term, for the edge from `p` to `q`. */
  function Term(p: Point, q: Point): int
  {
    (p.y + q.y) * (p.x - q.x)
  }

  /** The terms over `windows(2)`: each vertex with the one after it. */
  function OpenSum(vs: seq<Point>): int
  {
    if |vs| < 2 then 0 else Term(vs[0], vs[1]) + OpenSum(vs[1..])
  }

  /** The shoelace sum of the closed polygon: the windows plus the edge from the last vertex back to the first. */
  function ClosedSum(vs: seq<Point>): int
  {
    if |vs| == 0 then 0 else OpenSum(vs) + Term(vs[|vs| - 1], vs[0])
  }

  /** `i32` division by 2, which truncates toward zero. */
  function HalfTowardZero(n: int): (h: int)
    ensures n >= 0 ==> h >= 0 && (2 * h == n || 2 * h == n - 1)
    ensures n < 0 ==> h <= 0 && (2 * h == n || 2 * h == n + 1)
  {
    if n >= 0 then n / 2 else -((-n) / 2)
  }

  /** `shoelace` as written: the windows only, without the closing edge. */
  function ShoelaceAsWritten(vs: seq<Point>): nat
  {
    Abs(HalfTowardZero(OpenSum(vs)))
  }

  /** The shoelace area of the polygon through `vs`, closing edge included. */
  function Shoelace(vs: seq<Point>): nat
  {
    Abs(HalfTowardZero(ClosedSum(vs)))
  }

  lemma {:induction false} OpenSumSnoc(vs: seq<Point>, v: Point)
    requires |vs| > 0
    ensures OpenSum(vs + [v]) == OpenSum(vs) + Term(vs[|vs| - 1], v)
  {
    if |vs| == 1 {
      assert vs + [v] == [vs[0], v];
    } else {
      assert (vs + [v])[1..] == vs[1..] + [v];
      OpenSumSnoc(vs[1..], v);
    }
  }

  /** The closed sum does not depend on which vertex the loop is listed from. */
  lemma ClosedSumRotate(vs: seq<Point>)
    requires |vs| > 0
    ensures ClosedSum(vs[1..] + [vs[0]]) == ClosedSum(vs)
  {
    if |vs| > 1 {
      OpenSumSnoc(vs[1..], vs[0]);
    }
  }

  function Translate(vs: seq<Point>, off: Offset): (ws: seq<Point>)
    ensures |ws| == |vs| && forall i :: 0 <= i < |vs| ==> ws[i] == Add(vs[i], off)
  {
    seq(|vs|, i requires 0 <= i < |vs| => Add(vs[i], off))
  }

  /** Moving the polygon adds a multiple of the offset and the gap between the first and last vertex to the open sum. */
  lemma {:induction false} OpenSumTranslate(vs: seq<Point>, off: Offset)
    requires |vs| > 0
    ensures OpenSum(Translate(vs, off)) == OpenSum(vs) + 2 * off.dy * (vs[0].x - vs[|vs| - 1].x)
  {
    if |vs| > 1 {
      var ws := Translate(vs, off);
      assert ws[1..] == Translate(vs[1..], off);
      OpenSumTranslate(vs[1..], off);
      assert Term(ws[0], ws[1]) == Term(vs[0], vs[1]) + 2 * off.dy * (vs[0].x - vs[1].x);
    }
  }

  /** The closed sum, and so the area, does not change when the polygon moves. */
  lemma ClosedSumTranslate(vs: seq<Point>, off: Offset)
    ensures ClosedSum(Translate(vs, off)) == ClosedSum(vs)
  {
    if |vs| > 0 {
      var ws := Translate(vs, off);
      OpenSumTranslate(vs, off);
      var l := |vs| - 1;
      assert Term(ws[l], ws[0]) == Term(vs[l], vs[0]) + 2 * off.dy * (vs[l].x - vs[0].x);
    }
  }

  /**
    `picks` as written: Pick's theorem `A = i + b/2 - 1` solved for the
    interior count `i` as `A - b/2 + 1`. The `usize` subtraction comes
    first, so it panics whenever `A < b/2`, which by the theorem is every
    loop with no tile inside.
  */
  function PicksAsWritten(area: nat, boundary: nat): (r: Outcome<nat>)
    ensures r.Panic? <==> area < boundary / 2
    ensures r.Done? ==> area == r.value + boundary / 2 - 1
  {
    if area < boundary / 2 then Panic else Done(area - boundary / 2 + 1)
  }

  /** `picks` with the `+ 1` before the subtraction: it panics only when no interior count fits the theorem. */
  function Picks(area: nat, boundary: nat): (r: Outcome<nat>)
    ensures r.Panic? <==> area + 1 < boundary / 2
    ensures r.Done? ==> area == r.value + boundary / 2 - 1
  {
    if area + 1 < boundary / 2 then Panic else Done(area + 1 - boundary / 2)
  }

  /** Wherever the code as written gives an answer, the corrected one gives the same. */
  lemma PicksAgree(area: nat, boundary: nat)
    requires PicksAsWritten(area, boundary).Done?
    ensures Picks(area, boundary) == PicksAsWritten(area, boundary)
  {
  }

  /** The smallest loop has area 1 and four boundary tiles: as written the count underflows where it should be 0. */
  lemma PicksUnderflow()
    ensures PicksAsWritten(1, 4).Panic? && Picks(1, 4) == Done(0)
  {
  }

  /** `part_two` as written: the open shoelace sum and the underflowing `picks`. */
  function PartTwoAsWritten(grid: Grid): (r: Outcome<nat>)
    ensures Loop(grid).Panic? ==> r.Panic?
    ensures r.Done? ==> ShoelaceAsWritten(Loop(grid).value) == r.value + |Loop(grid).value| / 2 - 1
  {
    var ps := Loop(grid);
    if ps.Panic? then Panic else PicksAsWritten(ShoelaceAsWritten(ps.value), |ps.value|)
  }

  /** `part_two`: the tiles enclosed by the loop, by Pick's theorem over the closed polygon's area. */
  function PartTwo(grid: Grid): (r: Outcome<nat>)
    ensures Loop(grid).Panic? ==> r.Panic?
    ensures r.Done? ==> Shoelace(Loop(grid).value) == r.value + |Loop(grid).value| / 2 - 1
  {
    var ps := Loop(grid);
    if ps.Panic? then Panic else Picks(Shoelace(ps.value), |ps.value|)
  }

  // ---------------------------------------------------------------------
  // A loop whose closing edge matters

  /** The smallest loop: four pipes around a corner shared by four tiles, enclosing none. */
  function SquareLoop(): Grid
  {
    ["....", ".S7.", ".LJ.", "...."]
  }

  /** The positions the walk visits on `SquareLoop`, from the start. */
  function SquarePositions(): seq<Point>
  {
    [Point(1, 1), Point(2, 1), Point(2, 2), Point(1, 2)]
  }

  /** The pipe `c` at `p` leads to `a` and `b`. */
  lemma PipeMoves(g: Grid, p: Point, c: char, a: Point, b: Point)
    requires InGrid(g, p) && g[p.y][p.x] == c
    requires PipeOffsets(c).Some? && a == Add(p, PipeOffsets(c).value.0) && b == Add(p, PipeOffsets(c).value.1)
    ensures PossibleMoves(g, p) == Done((a, b))
  {
  }

  lemma SquareStart()
    ensures StartingPos(SquareLoop()) == Done(Point(1, 1))
  {
    var g := SquareLoop();
    assert Position(g[0], 'S') == None;
    assert Position(g[1], 'S') == Some(1);
  }

  /** One round of the `start_neighbors` loop. */
  lemma ConnectingCons(grid: Grid, s: Point, ns: seq<Point>, keep: bool, rest: seq<Point>)
    requires |ns| > 0 && Verdict(grid, s, ns[0]) == Done(keep) && Connecting(grid, s, ns[1..]) == Done(rest)
    ensures Connecting(grid, s, ns) == Done((if keep then [ns[0]] else []) + rest)
  {
  }

  /** The last two neighbours of the start: left is ground, right leads back. */
  lemma SquareLeftRight(g: Grid, ns: seq<Point>)
    requires g == SquareLoop() && ns == [Point(1, 0), Point(1, 2)]
    ensures Connecting(g, Point(1, 1), ns) == Done([Point(1, 2)])
  {
    var s := Point(1, 1);
    PipeMoves(g, Point(1, 2), '7', Point(1, 1), Point(2, 2));
    assert Verdict(g, s, ns[0]) == Done(false);
    assert Verdict(g, s, ns[1]) == Done(true);
    assert ns[2..] == [] && Connecting(g, s, []) == Done([]);
    assert ns[1..][0] == ns[1];
    ConnectingCons(g, s, ns[1..], true, []);
    assert [ns[1]] + [] == [Point(1, 2)];
    assert ns[1..][1..] == ns[2..];
    ConnectingCons(g, s, ns, false, [Point(1, 2)]);
    assert [] + [Point(1, 2)] == [Point(1, 2)];
  }

  /** Of all four neighbours, down and right lead back to the start. */
  lemma SquareConnecting(g: Grid, ns: seq<Point>)
    requires g == SquareLoop() && ns == [Point(0, 1), Point(2, 1), Point(1, 0), Point(1, 2)]
    ensures Connecting(g, Point(1, 1), ns) == Done([Point(2, 1), Point(1, 2)])
  {
    var s := Point(1, 1);
    PipeMoves(g, Point(2, 1), 'L', Point(1, 1), Point(2, 2));
    assert Verdict(g, s, ns[0]) == Done(false);
    assert Verdict(g, s, ns[1]) == Done(true);
    SquareLeftRight(g, ns[2..]);
    assert ns[1..][0] == ns[1] && ns[1..][1..] == ns[2..];
    ConnectingCons(g, s, ns[1..], true, [Point(1, 2)]);
    assert [ns[1]] + [Point(1, 2)] == [Point(2, 1), Point(1, 2)];
    ConnectingCons(g, s, ns, false, [Point(2, 1), Point(1, 2)]);
    assert [] + [Point(2, 1), Point(1, 2)] == [Point(2, 1), Point(1, 2)];
  }

  lemma SquareNeighbors(g: Grid)
    requires g == SquareLoop()
    ensures StartNeighbors(g, Point(1, 1)) == Done((Point(2, 1), Point(1, 2)))
  {
    var ns := Neighbors(Point(1, 1));
    assert ns == [Point(0, 1), Point(2, 1), Point(1, 0), Point(1, 2)];
    SquareConnecting(g, ns);
  }

  lemma SquareFuel()
    ensures Fuel(SquareLoop()) == 64
  {
    var g := SquareLoop();
    assert Cells(g[3..]) == 4;
    assert Cells(g[2..]) == 8;
    assert Cells(g[1..]) == 12;
  }

  /** One round of the walk that does not close the loop. */
  lemma WalkCons(grid: Grid, s: Point, positions: seq<Point>, current: Point, fuel: nat, next: Point, visited: seq<Point>)
    requires |positions| > 0 && fuel > 0 && visited == positions + [current]
    requires Advance(grid, s, positions[|positions| - 1], current) == Done(Some(next))
    ensures Walk(grid, s, positions, current, fuel) == Walk(grid, s, visited, next, fuel - 1)
  {
  }

  /** The round of the walk that closes the loop. */
  lemma WalkEnd(grid: Grid, s: Point, positions: seq<Point>, current: Point, fuel: nat, visited: seq<Point>)
    requires |positions| > 0 && visited == positions + [current]
    requires Advance(grid, s, positions[|positions| - 1], current) == Done(None)
    ensures Walk(grid, s, positions, current, fuel) == Done(visited)
  {
  }

  lemma SquareTail3(g: Grid)
    requires g == SquareLoop()
    ensures Walk(g, Point(1, 1), [Point(1, 1), Point(2, 1), Point(2, 2)], Point(1, 2), 62) == Done(SquarePositions())
  {
    PipeMoves(g, Point(1, 2), '7', Point(1, 1), Point(2, 2));
    assert [Point(1, 1), Point(2, 1), Point(2, 2)] + [Point(1, 2)] == SquarePositions();
    WalkEnd(g, Point(1, 1), [Point(1, 1), Point(2, 1), Point(2, 2)], Point(1, 2), 62, SquarePositions());
  }

  lemma SquareTail2(g: Grid)
    requires g == SquareLoop()
    ensures Walk(g, Point(1, 1), [Point(1, 1), Point(2, 1)], Point(2, 2), 63) == Done(SquarePositions())
  {
    PipeMoves(g, Point(2, 2), 'J', Point(1, 2), Point(2, 1));
    assert [Point(1, 1), Point(2, 1)] + [Point(2, 2)] == [Point(1, 1), Point(2, 1), Point(2, 2)];
    WalkCons(g, Point(1, 1), [Point(1, 1), Point(2, 1)], Point(2, 2), 63, Point(1, 2), [Point(1, 1), Point(2, 1), Point(2, 2)]);
    SquareTail3(g);
  }

  lemma SquareTail1(g: Grid)
    requires g == SquareLoop()
    ensures Walk(g, Point(1, 1), [Point(1, 1)], Point(2, 1), 64) == Done(SquarePositions())
  {
    PipeMoves(g, Point(2, 1), 'L', Point(1, 1), Point(2, 2));
    assert [Point(1, 1)] + [Point(2, 1)] == [Point(1, 1), Point(2, 1)];
    WalkCons(g, Point(1, 1), [Point(1, 1)], Point(2, 1), 64, Point(2, 2), [Point(1, 1), Point(2, 1)]);
    SquareTail2(g);
  }

  /** The walk on `SquareLoop` visits `SquarePositions`. */
  lemma SquareWalk(g: Grid)
    requires g == SquareLoop()
    ensures Loop(g) == Done(SquarePositions())
  {
    SquareStart();
    SquareNeighbors(g);
    SquareFuel();
    SquareTail1(g);
  }

  /**
    On the smallest loop the windows miss the closing edge from `(1, 2)`
    back to the start: the open sum halves to an area of 2 where the square
    through the four pipe centres has area 1, so `part_two` as written
    reports one enclosed tile where there is none. With the closing edge
    the area is 1, which only the corrected `picks` turns into 0.
  */
  lemma ShoelaceMissesClosingEdge(g: Grid)
    requires g == SquareLoop()
    ensures ShoelaceAsWritten(SquarePositions()) == 2 && Shoelace(SquarePositions()) == 1
    ensures PartTwoAsWritten(g) == Done(1) && PartTwo(g) == Done(0)
  {
    SquareWalk(g);
    SquareSums();
  }

  lemma SquareSums()
    ensures OpenSum(SquarePositions()) == -4 && ClosedSum(SquarePositions()) == -2
  {
    var ps := SquarePositions();
    assert OpenSum(ps[3..]) == 0;
    assert OpenSum(ps[2..]) == 0;
    assert OpenSum(ps[1..]) == -4;
  }

  /** The open sum changes when the same loop sits one row higher, so as written the area depends on where the loop is. */
  lemma ShoelaceAsWrittenMoves()
    ensures TopPositions() == Translate(SquarePositions(), Offset(-1, 0))
    ensures ShoelaceAsWritten(TopPositions()) == 1 && Shoelace(TopPositions()) == 1
  {
    TopTranslated();
    TopSums();
    SquareSums();
  }

  lemma TopTranslated()
    ensures TopPositions() == Translate(SquarePositions(), Offset(-1, 0))
  {
    var ps := Translate(SquarePositions(), Offset(-1, 0));
    assert ps[0] == Point(0, 1) && ps[1] == Point(1, 1) && ps[2] == Point(1, 2) && ps[3] == Point(0, 2);
  }

  lemma TopSums()
    ensures OpenSum(TopPositions()) == -2 && ClosedSum(TopPositions()) == -2
  {
    var ps := TopPositions();
    assert OpenSum(ps[2..]) == 0;
    assert OpenSum(ps[1..]) == -2;
  }

  // ---------------------------------------------------------------------
  // The same loop one row higher

  /** `SquareLoop` without its empty first row: the start now sits in row 0. */
  function TopLoop(): Grid
  {
    [".S7.", ".LJ."]
  }

  /** The positions the walk visits on `TopLoop`: those of `SquareLoop`, one row higher. */
  function TopPositions(): seq<Point>
  {
    [Point(0, 1), Point(1, 1), Point(1, 2), Point(0, 2)]
  }

  lemma TopStart()
    ensures StartingPos(TopLoop()) == Done(Point(0, 1))
  {
    var g := TopLoop();
    assert Position(g[0], 'S') == Some(1);
  }

  /** The last two neighbours of the start: left is ground, right leads back. */
  lemma TopLeftRight(g: Grid, ns: seq<Point>)
    requires g == TopLoop() && ns == [Point(0, 0), Point(0, 2)]
    ensures Connecting(g, Point(0, 1), ns) == Done([Point(0, 2)])
  {
    var s := Point(0, 1);
    PipeMoves(g, Point(0, 2), '7', Point(0, 1), Point(1, 2));
    assert Verdict(g, s, ns[0]) == Done(false);
    assert Verdict(g, s, ns[1]) == Done(true);
    assert ns[2..] == [] && Connecting(g, s, []) == Done([]);
    assert ns[1..][0] == ns[1];
    ConnectingCons(g, s, ns[1..], true, []);
    assert [ns[1]] + [] == [Point(0, 2)];
    assert ns[1..][1..] == ns[2..];
    ConnectingCons(g, s, ns, false, [Point(0, 2)]);
    assert [] + [Point(0, 2)] == [Point(0, 2)];
  }

  /** Of all four neighbours, the one above is off the grid, and down and right lead back to the start. */
  lemma TopConnecting(g: Grid, ns: seq<Point>)
    requires g == TopLoop() && ns == [Point(-1, 1), Point(1, 1), Point(0, 0), Point(0, 2)]
    ensures Connecting(g, Point(0, 1), ns) == Done([Point(1, 1), Point(0, 2)])
  {
    var s := Point(0, 1);
    PipeMoves(g, Point(1, 1), 'L', Point(0, 1), Point(1, 2));
    assert Verdict(g, s, ns[0]) == Done(false);
    assert Verdict(g, s, ns[1]) == Done(true);
    TopLeftRight(g, ns[2..]);
    assert ns[1..][0] == ns[1] && ns[1..][1..] == ns[2..];
    ConnectingCons(g, s, ns[1..], true, [Point(0, 2)]);
    assert [ns[1]] + [Point(0, 2)] == [Point(1, 1), Point(0, 2)];
    ConnectingCons(g, s, ns, false, [Point(1, 1), Point(0, 2)]);
    assert [] + [Point(1, 1), Point(0, 2)] == [Point(1, 1), Point(0, 2)];
  }

  lemma TopNeighbors(g: Grid)
    requires g == TopLoop()
    ensures StartNeighbors(g, Point(0, 1)) == Done((Point(1, 1), Point(0, 2)))
  {
    var ns := Neighbors(Point(0, 1));
    assert ns == [Point(-1, 1), Point(1, 1), Point(0, 0), Point(0, 2)];
    TopConnecting(g, ns);
  }

  lemma TopFuel()
    ensures Fuel(TopLoop()) == 32
  {
    var g := TopLoop();
    assert Cells(g[1..]) == 4;
  }

  lemma TopTail3(g: Grid)
    requires g == TopLoop()
    ensures Walk(g, Point(0, 1), [Point(0, 1), Point(1, 1), Point(1, 2)], Point(0, 2), 30) == Done(TopPositions())
  {
    PipeMoves(g, Point(0, 2), '7', Point(0, 1), Point(1, 2));
    assert Advance(g, Point(0, 1), Point(1, 2), Point(0, 2)) == Done(None);
    assert [Point(0, 1), Point(1, 1), Point(1, 2)] + [Point(0, 2)] == TopPositions();
    WalkEnd(g, Point(0, 1), [Point(0, 1), Point(1, 1), Point(1, 2)], Point(0, 2), 30, TopPositions());
  }

  lemma TopTail2(g: Grid)
    requires g == TopLoop()
    ensures Walk(g, Point(0, 1), [Point(0, 1), Point(1, 1)], Point(1, 2), 31) == Done(TopPositions())
  {
    PipeMoves(g, Point(1, 2), 'J', Point(0, 2), Point(1, 1));
    assert [Point(0, 1), Point(1, 1)] + [Point(1, 2)] == [Point(0, 1), Point(1, 1), Point(1, 2)];
    WalkCons(g, Point(0, 1), [Point(0, 1), Point(1, 1)], Point(1, 2), 31, Point(0, 2), [Point(0, 1), Point(1, 1), Point(1, 2)]);
    TopTail3(g);
  }

  lemma TopTail1(g: Grid)
    requires g == TopLoop()
    ensures Walk(g, Point(0, 1), [Point(0, 1)], Point(1, 1), 32) == Done(TopPositions())
  {
    PipeMoves(g, Point(1, 1), 'L', Point(0, 1), Point(1, 2));
    assert [Point(0, 1)] + [Point(1, 1)] == [Point(0, 1), Point(1, 1)];
    WalkCons(g, Point(0, 1), [Point(0, 1)], Point(1, 1), 32, Point(1, 2), [Point(0, 1), Point(1, 1)]);
    TopTail2(g);
  }

  /** The walk on `TopLoop` visits `TopPositions`. */
  lemma TopWalk(g: Grid)
    requires g == TopLoop()
    ensures Loop(g) == Done(TopPositions())
  {
    TopStart();
    TopNeighbors(g);
    TopFuel();
    TopTail1(g);
  }

  /**
    One row higher the open sum happens to give the right area, 1, and with
    four boundary tiles `picks` as written subtracts 2 from 1 in `usize`:
    the count underflows where the corrected one is 0.
  */
  lemma PartTwoUnderflows(g: Grid)
    requires g == TopLoop()
    ensures PartTwoAsWritten(g).Panic? && PartTwo(g) == Done(0)
  {
    TopWalk(g);
    ShoelaceAsWrittenMoves();
    PicksUnderflow();
    assert |TopPositions()| == 4;
  }
}
