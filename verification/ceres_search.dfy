/**
  Ceres Search (2024 day 4): a word search over the input's bytes. Part
  one counts `XMAS` in the eight directions from every `X`; part two
  counts the `A`s at the centre of two crossing `MAS`es.
*/
module CeresSearch {
  import opened Wrappers

  newtype Byte = b: int | 0 <= b < 256

  const X: Byte := 88
  const M: Byte := 77
  const A: Byte := 65
  const S: Byte := 83

  /** The word of part one, as bytes. */
  const Xmas: seq<Byte> := [X, M, A, S]

  /** Row `x`, column `y`: the grid is `grid[x][y]`. A coordinate that went negative stands for a `usize` that wrapped. */
  datatype Point = Point(x: int, y: int)

  datatype Offset = Offset(dx: int, dy: int)

  /** `WordSearch`: the rows of bytes, `h` of them, and the width `w` of the first. */
  datatype WordSearch = WordSearch(w: nat, h: nat, grid: seq<seq<Byte>>)

  /** `WordSearch::from_str`: one row per line; the width is 0 without lines. */
  function FromRows(rows: seq<seq<Byte>>): (ws: WordSearch)
    ensures ws.grid == rows && ws.h == |rows|
    ensures ws.w == if |rows| == 0 then 0 else |rows[0]|
  {
    WordSearch(if |rows| == 0 then 0 else |rows[0]|, |rows|, rows)
  }

  // ---------------------------------------------------------------------
  // Points and offsets

  /** The points of rows `x..h`, each row's columns `0..w` in order. */
  function PointsFrom(w: nat, h: nat, x: nat): (ps: seq<Point>)
    requires x <= h
    ensures |ps| == (h - x) * w
    ensures forall p :: p in ps <==> x <= p.x < h && 0 <= p.y < w
    ensures forall i, j :: 0 <= i < j < |ps| ==> Before(ps[i], ps[j])
    decreases h - x
  {
    if x == h then []
    else
      var row, rest := Row(w, x), PointsFrom(w, h, x + 1);
      assert (h - x) * w == w + (h - (x + 1)) * w;
      row + rest
  }

  /** Row `x`, columns `0..w` in order. */
  function Row(w: nat, x: int): (row: seq<Point>)
    ensures |row| == w
    ensures forall p :: p in row <==> p.x == x && 0 <= p.y < w
    ensures forall j :: 0 <= j < w ==> row[j] == Point(x, j)
  {
    var row := seq(w, y requires 0 <= y < w => Point(x, y));
    assert forall p: Point | p.x == x && 0 <= p.y < w :: row[p.y] == p;
    row
  }

  /** Reading order. */
  predicate Before(p: Point, q: Point)
  {
    p.x < q.x || (p.x == q.x && p.y < q.y)
  }

  /** `points`: every cell of the `h` by `w` rectangle once, row by row. */
  function Points(ws: WordSearch): (ps: seq<Point>)
    ensures |ps| == ws.h * ws.w
    ensures forall p :: p in ps <==> 0 <= p.x < ws.h && 0 <= p.y < ws.w
    ensures forall i, j :: 0 <= i < j < |ps| ==> ps[i] != ps[j]
  {
    var ps := PointsFrom(ws.w, ws.h, 0);
    assert forall i, j :: 0 <= i < j < |ps| ==> Before(ps[i], ps[j]);
    ps
  }

  /** `get`: the byte at `p`, or `None` off the grid, including past the end of a short row. */
  function Get(ws: WordSearch, p: Point): (r: Option<Byte>)
    ensures r.None? <==> p.x < 0 || p.x >= |ws.grid| || p.y < 0 || p.y >= |ws.grid[p.x]|
    ensures r.Some? ==> r.value == ws.grid[p.x][p.y]
  {
    if 0 <= p.x < |ws.grid| && 0 <= p.y < |ws.grid[p.x]| then Some(ws.grid[p.x][p.y]) else None
  }

  /** `Point::offset`. */
  function Move(p: Point, o: Offset): Point
  {
    Point(p.x + o.dx, p.y + o.dy)
  }

  /** `Offset * i32`. */
  function Scale(o: Offset, k: int): (r: Offset)
    ensures r.dx == o.dx * k && r.dy == o.dy * k
  {
    Offset(o.dx * k, o.dy * k)
  }

  /** `-Offset`. */
  function Negate(o: Offset): (r: Offset)
    ensures r.dx == -o.dx && r.dy == -o.dy
  {
    Offset(-o.dx, -o.dy)
  }

  lemma NegateScale(o: Offset)
    ensures Negate(o) == Scale(o, -1) && Negate(Negate(o)) == o
  {
  }

  /** Moving by `o` and then by `-o` returns to the start. */
  lemma MoveNegate(p: Point, o: Offset)
    ensures Move(Move(p, o), Negate(o)) == p
  {
  }

  /** `NEIGHBORS`: every `(dx, dy)` with both in `-1..=1`, `(0, 0)` included, `dx` varying slowest. */
  const Neighbors: seq<Offset> := [
    Offset(-1, -1), Offset(-1, 0), Offset(-1, 1),
    Offset(0, -1), Offset(0, 0), Offset(0, 1),
    Offset(1, -1), Offset(1, 0), Offset(1, 1)]

  /** The eight directions of `NEIGHBORS` that actually move. */
  const Compass: seq<Offset> := Neighbors[..4] + Neighbors[5..]

  /** `POSSIBLE_CROSSES`: the four diagonal offsets, in pairs of two for `chunks(2)`. */
  const Crosses: seq<Offset> := [Offset(-1, -1), Offset(-1, 1), Offset(1, -1), Offset(1, 1)]

  // ---------------------------------------------------------------------
  // Part one

  /** `XMAS` reads from `p` in direction `d`: byte `i` lies `i` steps of `d` away. */
  predicate XmasAlong(ws: WordSearch, p: Point, d: Offset)
  {
    forall i :: 0 <= i < 4 ==> Get(ws, Move(p, Scale(d, i))) == Some(Xmas[i])
  }

  /** Standing still reads `X` twice, never `XM`. */
  lemma StillNeverXmas(ws: WordSearch, p: Point)
    ensures !XmasAlong(ws, p, Offset(0, 0))
  {
    assert Move(p, Scale(Offset(0, 0), 1)) == Move(p, Scale(Offset(0, 0), 0));
  }

  /** The directions among `ds` in which `XMAS` reads from `p`. */
  function CountDirections(ws: WordSearch, p: Point, ds: seq<Offset>): (n: nat)
    ensures n <= |ds|
    ensures n == 0 <==> forall k :: 0 <= k < |ds| ==> !XmasAlong(ws, p, ds[k])
  {
    if |ds| == 0 then 0
    else
      assert forall k :: 1 <= k < |ds| ==> ds[1..][k - 1] == ds[k];
      (if XmasAlong(ws, p, ds[0]) then 1 else 0) + CountDirections(ws, p, ds[1..])
  }

  /** `num_xmas`: the directions from an `X` in which `XMAS` reads; 0 from any other cell. */
  function NumXmas(ws: WordSearch, p: Point): (n: nat)
    ensures Get(ws, p) != Some(X) ==> n == 0
    ensures n <= 8
    ensures n > 0 <==> exists k :: 0 <= k < 9 && XmasAlong(ws, p, Neighbors[k])
    ensures Get(ws, p) == Some(X) ==> n == CountDirections(ws, p, Compass)
  {
    if Get(ws, p) != Some(X) then
      assert forall d :: !XmasAlong(ws, p, d) by {
        forall d ensures !XmasAlong(ws, p, d) {
          assert Move(p, Scale(d, 0)) == p;
        }
      }
      0
    else
      StillIgnored(ws, p);
      CountDirections(ws, p, Neighbors)
  }

  /** The `(0, 0)` entry of `NEIGHBORS` never adds to the count. */
  lemma StillIgnored(ws: WordSearch, p: Point)
    ensures CountDirections(ws, p, Neighbors) == CountDirections(ws, p, Compass)
  {
    var a, still, b := Neighbors[..4], [Offset(0, 0)], Neighbors[5..];
    assert Neighbors == a + (still + b);
    CountAppend(ws, p, a, still + b);
    CountAppend(ws, p, still, b);
    CountAppend(ws, p, a, b);
    StillNeverXmas(ws, p);
    assert still[1..] == [];
    assert CountDirections(ws, p, still) == 0;
  }

  /** Counting is additive over concatenation. */
  lemma {:induction false} CountAppend(ws: WordSearch, p: Point, a: seq<Offset>, b: seq<Offset>)
    ensures CountDirections(ws, p, a + b) == CountDirections(ws, p, a) + CountDirections(ws, p, b)
  {
    if |a| == 0 {
      assert a + b == b;
    } else {
      assert (a + b)[1..] == a[1..] + b;
      CountAppend(ws, p, a[1..], b);
    }
  }

  // ---------------------------------------------------------------------
  // Part two

  /** `describes_mas`: `M` on one side of `p` along `d` and `S` on the other. */
  predicate DescribesMas(ws: WordSearch, p: Point, d: Offset)
  {
    var (m, s) := (Get(ws, Move(p, d)), Get(ws, Move(p, Negate(d))));
    (m == Some(M) && s == Some(S)) || (m == Some(S) && s == Some(M))
  }

  /** Looking the other way along a line sees the same `MAS`. */
  lemma DescribesMasSymmetric(ws: WordSearch, p: Point, d: Offset)
    ensures DescribesMas(ws, p, d) == DescribesMas(ws, p, Negate(d))
  {
    NegateScale(d);
  }

  /** Whether some pair `(cs[2k], cs[2k+1])` both describe a `MAS` through `p`. */
  function AnyCross(ws: WordSearch, p: Point, cs: seq<Offset>): bool
    decreases |cs|
  {
    if |cs| < 2 then false
    else (DescribesMas(ws, p, cs[0]) && DescribesMas(ws, p, cs[1])) || AnyCross(ws, p, cs[2..])
  }

  /**
    `is_x_mas_a`: `p` holds an `A` and both diagonals through it read
    `MAS` one way or the other. The loop also tries the pair
    `(1, -1), (1, 1)`, which names the same two diagonals.
  */
  function IsXMasA(ws: WordSearch, p: Point): (r: bool)
    ensures r <==> Get(ws, p) == Some(A) && DescribesMas(ws, p, Offset(-1, -1)) && DescribesMas(ws, p, Offset(-1, 1))
  {
    DescribesMasSymmetric(ws, p, Offset(-1, -1));
    DescribesMasSymmetric(ws, p, Offset(-1, 1));
    assert Crosses[2..][2..] == [];
    Get(ws, p) == Some(A) && AnyCross(ws, p, Crosses)
  }

  // ---------------------------------------------------------------------
  // The puzzle

  function SumXmas(ws: WordSearch, ps: seq<Point>): (n: nat)
    ensures n <= 8 * |ps|
  {
    if |ps| == 0 then 0 else NumXmas(ws, ps[0]) + SumXmas(ws, ps[1..])
  }

  function CountXMas(ws: WordSearch, ps: seq<Point>): (n: nat)
    ensures n <= |ps|
    ensures n == 0 <==> forall k :: 0 <= k < |ps| ==> !IsXMasA(ws, ps[k])
  {
    if |ps| == 0 then 0
    else
      assert forall k :: 1 <= k < |ps| ==> ps[1..][k - 1] == ps[k];
      (if IsXMasA(ws, ps[0]) then 1 else 0) + CountXMas(ws, ps[1..])
  }

  /** `part_one`: `XMAS` counted from every cell, at most 8 per cell. */
  function PartOne(rows: seq<seq<Byte>>): (n: nat)
    ensures n <= 8 * (FromRows(rows).h * FromRows(rows).w)
  {
    var ws := FromRows(rows);
    SumXmas(ws, Points(ws))
  }

  /** `part_two`: the cells that are the `A` of an X-`MAS`. */
  function PartTwo(rows: seq<seq<Byte>>): (n: nat)
    ensures n <= FromRows(rows).h * FromRows(rows).w
    ensures n == 0 <==> forall p: Point :: 0 <= p.x < FromRows(rows).h && 0 <= p.y < FromRows(rows).w ==> !IsXMasA(FromRows(rows), p)
  {
    var ws := FromRows(rows);
    var ps := Points(ws);
    assert forall p :: p in ps ==> exists k :: 0 <= k < |ps| && ps[k] == p;
    CountXMas(ws, ps)
  }

  // ---------------------------------------------------------------------
  // Examples

  const Dot: Byte := 46

  /** A single row `XMAS` holds the word once, read left to right from its `X`. */
  lemma OneRow(rows: seq<seq<Byte>>)
    requires rows == [[X, M, A, S]]
    ensures PartOne(rows) == 1
  {
    var ws := FromRows(rows);
    OneRowPoints(ws);
    OneRowFromX(ws);
    OneRowSum(ws, Points(ws));
  }

  lemma OneRowPoints(ws: WordSearch)
    requires ws.w == 4 && ws.h == 1
    ensures Points(ws) == [Point(0, 0), Point(0, 1), Point(0, 2), Point(0, 3)]
  {
    assert PointsFrom(4, 1, 1) == [];
  }

  lemma OneRowSum(ws: WordSearch, ps: seq<Point>)
    requires ws.grid == [[X, M, A, S]] && NumXmas(ws, Point(0, 0)) == 1
    requires ps == [Point(0, 0), Point(0, 1), Point(0, 2), Point(0, 3)]
    ensures SumXmas(ws, ps) == 1
  {
    assert NumXmas(ws, ps[3]) == 0 && NumXmas(ws, ps[2]) == 0 && NumXmas(ws, ps[1]) == 0;
    assert SumXmas(ws, ps[3..]) == 0;
    assert SumXmas(ws, ps[2..]) == 0;
    assert SumXmas(ws, ps[1..]) == 0;
  }

  lemma OneRowFromX(ws: WordSearch)
    requires ws.grid == [[X, M, A, S]]
    ensures NumXmas(ws, Point(0, 0)) == 1
  {
    var p := Point(0, 0);
    assert XmasAlong(ws, p, Offset(0, 1)) by {
      assert forall i :: 0 <= i < 4 ==> Move(p, Scale(Offset(0, 1), i)) == Point(0, i);
    }
    forall k | 0 <= k < 8 && k != 4 ensures !XmasAlong(ws, p, Compass[k]) {
      assert Get(ws, Move(p, Scale(Compass[k], 1))).None?;
    }
    assert Compass[4] == Offset(0, 1);
    CountOnly(ws, p, Compass, 4);
  }

  /** Counting directions where only the one at `k` reads `XMAS` gives 1. */
  lemma {:induction false} CountOnly(ws: WordSearch, p: Point, ds: seq<Offset>, k: nat)
    requires k < |ds| && XmasAlong(ws, p, ds[k])
    requires forall j :: 0 <= j < |ds| && j != k ==> !XmasAlong(ws, p, ds[j])
    ensures CountDirections(ws, p, ds) == 1
  {
    assert forall j :: 1 <= j < |ds| ==> ds[1..][j - 1] == ds[j];
    if k > 0 {
      CountOnly(ws, p, ds[1..], k - 1);
    } else {
      assert CountDirections(ws, p, ds[1..]) == 0;
    }
  }

  /** `M.S` / `.A.` / `M.S` holds one X-`MAS`, centred on its `A`. */
  lemma OneCross(rows: seq<seq<Byte>>)
    requires rows == [[M, Dot, S], [Dot, A, Dot], [M, Dot, S]]
    ensures PartTwo(rows) == 1
  {
    var ws := FromRows(rows);
    assert IsXMasA(ws, Point(1, 1));
    forall p: Point | 0 <= p.x < 3 && 0 <= p.y < 3 && p != Point(1, 1) ensures !IsXMasA(ws, p) {
      assert Get(ws, p) != Some(A);
    }
    var ps := Points(ws);
    var k :| 0 <= k < |ps| && ps[k] == Point(1, 1);
    CountXMasOnly(ws, ps, k);
  }

  lemma {:induction false} CountXMasOnly(ws: WordSearch, ps: seq<Point>, k: nat)
    requires k < |ps| && IsXMasA(ws, ps[k])
    requires forall j :: 0 <= j < |ps| && j != k ==> !IsXMasA(ws, ps[j])
    ensures CountXMas(ws, ps) == 1
  {
    assert forall j :: 1 <= j < |ps| ==> ps[1..][j - 1] == ps[j];
    if k > 0 {
      CountXMasOnly(ws, ps[1..], k - 1);
    } else {
      assert CountXMas(ws, ps[1..]) == 0;
    }
  }
}
