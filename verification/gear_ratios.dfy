/**
  Gear Ratios (2023 day 3): numbers in an engine schematic that touch a
  symbol are part numbers; a '*' touching exactly two numbers is a gear
  whose ratio is their product.
*/
module GearRatios {
  import opened Wrappers
  import Text

  // ---------------------------------------------------------------------
  // The grid

  /**
    The schematic as the source holds it: every line's characters end to
    end, the first line's length as the width, and as many whole rows as
    fit as the height.
  */
  datatype Grid = Grid(cells: string, w: nat, h: nat) {
    predicate Valid() { h * w <= |cells| }
    predicate InGrid(x: int, y: int) { 0 <= x < w && 0 <= y < h }
  }

  function Concat(lines: seq<string>): (s: string)
    ensures |lines| > 0 ==> |s| >= |lines[0]|
  {
    if |lines| == 0 then "" else lines[0] + Concat(lines[1..])
  }

  /**
    Builds the grid; the first line is `unwrap`ped (no lines panics) and
    the cell count is divided by its length (an empty first line panics).
  */
  function MakeGrid(lines: seq<string>): (r: Outcome<Grid>)
    ensures r.Done? <==> |lines| > 0 && |lines[0]| > 0
    ensures r.Done? ==> r.value.Valid() && r.value.w == |lines[0]| && r.value.cells == Concat(lines)
    ensures r.Done? ==> |r.value.cells| < (r.value.h + 1) * r.value.w
  {
    if |lines| == 0 || |lines[0]| == 0 then Panic
    else
      var cells := Concat(lines);
      var w := |lines[0]|;
      Done(Grid(cells, w, Quotient(|cells|, w)))
  }

  /** `y * w + x` stays below `h * w` for an in-grid point. */
  lemma IndexBelow(x: nat, y: nat, w: nat, h: nat)
    requires x < w && y < h
    ensures y * w + x < h * w
  {
    assert (y + 1) * w <= h * w by {
      assert y + 1 <= h;
    }
  }

  /** The cell at (x, y); points outside the grid are skipped, never read. */
  function At(g: Grid, x: int, y: int): (r: Option<char>)
    requires g.Valid()
    ensures r.Some? <==> g.InGrid(x, y)
  {
    if g.InGrid(x, y) then
      IndexBelow(x, y, g.w, g.h);
      Some(g.cells[y * g.w + x])
    else None
  }

  predicate IsSymbol(c: char) { !Text.IsDigit(c) && c != '.' }

  predicate SymbolAt(g: Grid, x: int, y: int)
    requires g.Valid()
  {
    At(g, x, y).Some? && IsSymbol(At(g, x, y).value)
  }

  /** Rows of one width `w`. */
  predicate Rectangular(lines: seq<string>, w: nat)
  {
    forall k :: 0 <= k < |lines| ==> |lines[k]| == w
  }

  lemma {:induction false} ConcatRectangular(lines: seq<string>, w: nat, x: nat, y: nat)
    requires Rectangular(lines, w) && x < w && y < |lines|
    ensures |Concat(lines)| == |lines| * w
    ensures y * w + x < |Concat(lines)| && Concat(lines)[y * w + x] == lines[y][x]
    decreases y
  {
    ConcatLength(lines, w);
    if y > 0 {
      ConcatRectangular(lines[1..], w, x, y - 1);
      assert (y - 1) * w + x + w == y * w + x;
    }
  }

  lemma {:induction false} ConcatLength(lines: seq<string>, w: nat)
    requires Rectangular(lines, w)
    ensures |Concat(lines)| == |lines| * w
  {
    if |lines| > 0 {
      ConcatLength(lines[1..], w);
      assert (|lines| - 1) * w + w == |lines| * w;
    }
  }

  /** For a rectangular schematic the grid is exactly its lines: `At` reads line `y`, column `x`. */
  lemma AtRectangular(lines: seq<string>, x: nat, y: nat)
    requires MakeGrid(lines).Done? && Rectangular(lines, |lines[0]|)
    requires x < |lines[0]| && y < |lines|
    ensures MakeGrid(lines).value.h == |lines|
    ensures At(MakeGrid(lines).value, x, y) == Some(lines[y][x])
  {
    var g := MakeGrid(lines).value;
    ConcatRectangular(lines, g.w, x, y);
    assert |g.cells| == |lines| * g.w;
    QuotientExact(|lines|, g.w);
  }

  /** `n / w` for the `usize` division, by repeated subtraction. */
  function Quotient(n: nat, w: nat): (q: nat)
    requires w > 0
    ensures q * w <= n < (q + 1) * w
    decreases n
  {
    if n < w then 0 else 1 + Quotient(n - w, w)
  }

  lemma {:induction false} QuotientExact(k: nat, w: nat)
    requires w > 0
    ensures Quotient(k * w, w) == k
  {
    if k > 0 {
      assert k * w - w == (k - 1) * w;
      QuotientExact(k - 1, w);
    }
  }

  // ---------------------------------------------------------------------
  // Digit runs

  /** The digits of line `y` from column `x`, `len` of them. */
  datatype Run = Run(x: nat, y: nat, len: nat)

  /** `line[x..x+len]` is a whole number: all digits, with no digit just before or after. */
  predicate MaximalRun(line: string, x: nat, len: nat)
  {
    && len > 0 && x + len <= |line|
    && (forall i :: x <= i < x + len ==> Text.IsDigit(line[i]))
    && (x == 0 || !Text.IsDigit(line[x - 1]))
    && (x + len == |line| || !Text.IsDigit(line[x + len]))
  }

  /** How many digits follow from `from` (the `take_while`). */
  function DigitsFrom(line: string, from: nat): (n: nat)
    requires from <= |line|
    ensures from + n <= |line|
    decreases |line| - from
  {
    if from == |line| || !Text.IsDigit(line[from]) then 0 else 1 + DigitsFrom(line, from + 1)
  }

  /** The digits counted from `from` are all digits, and the line's end or a non-digit ends them. */
  lemma {:induction false} DigitsFromRun(line: string, from: nat)
    requires from <= |line|
    ensures forall i :: from <= i < from + DigitsFrom(line, from) ==> Text.IsDigit(line[i])
    ensures var n := DigitsFrom(line, from); from + n == |line| || !Text.IsDigit(line[from + n])
    decreases |line| - from
  {
    if from < |line| && Text.IsDigit(line[from]) {
      DigitsFromRun(line, from + 1);
    }
  }

  /** Scanning may resume at `from`: it is not inside a number. */
  predicate ScanStart(line: string, from: nat)
  {
    from == 0 || from >= |line| || !Text.IsDigit(line[from - 1])
  }

  /**
    The runs of line `y` from column `from`: a non-digit is skipped, a
    digit starts a run, and the `take_while` that ends the run also
    consumes the character after it.
  */
  function LineRuns(line: string, y: nat, from: nat): seq<Run>
    requires ScanStart(line, from)
    decreases |line| - from
  {
    if from >= |line| then []
    else if !Text.IsDigit(line[from]) then LineRuns(line, y, from + 1)
    else
      var n := 1 + DigitsFrom(line, from + 1);
      DigitsFromRun(line, from + 1);
      [Run(from, y, n)] + LineRuns(line, y, from + n + 1)
  }

  /** A non-digit is skipped. */
  lemma LineRunsSkip(line: string, y: nat, from: nat)
    requires ScanStart(line, from) && from < |line| && !Text.IsDigit(line[from])
    ensures ScanStart(line, from + 1) && LineRuns(line, y, from) == LineRuns(line, y, from + 1)
  {
  }

  /** A digit starts a run of `n` digits; scanning resumes past the character that ends it. */
  lemma LineRunsDigit(line: string, y: nat, from: nat) returns (n: nat)
    requires ScanStart(line, from) && from < |line| && Text.IsDigit(line[from])
    ensures MaximalRun(line, from, n) && ScanStart(line, from + n + 1)
    ensures LineRuns(line, y, from) == [Run(from, y, n)] + LineRuns(line, y, from + n + 1)
  {
    n := 1 + DigitsFrom(line, from + 1);
    DigitsFromRun(line, from + 1);
  }

  /** Every run of `rs` is a whole number of line `y` starting at or after `from`. */
  predicate RunsOfLine(line: string, y: nat, from: nat, rs: seq<Run>)
  {
    forall k :: 0 <= k < |rs| ==> rs[k].y == y && from <= rs[k].x && MaximalRun(line, rs[k].x, rs[k].len)
  }

  /** The runs of `rs` come strictly left to right. */
  predicate LeftToRight(rs: seq<Run>)
  {
    forall k, l :: 0 <= k < l < |rs| ==> rs[k].x < rs[l].x
  }

  /** Every run found on a line is a whole number of that line, and runs come left to right. */
  lemma LineRunsSound(line: string, y: nat, from: nat)
    requires ScanStart(line, from)
    ensures RunsOfLine(line, y, from, LineRuns(line, y, from))
    ensures LeftToRight(LineRuns(line, y, from))
  {
    var rs := LineRuns(line, y, from);
    forall k | 0 <= k < |rs|
      ensures rs[k].y == y && from <= rs[k].x && MaximalRun(line, rs[k].x, rs[k].len)
    {
      LineRunAt(line, y, from, k);
    }
    forall k, l | 0 <= k < l < |rs|
      ensures rs[k].x < rs[l].x
    {
      LineRunsOrdered(line, y, from, k, l);
    }
  }

  /** The `k`-th run found is a whole number of the line, at or after `from`. */
  lemma {:induction false} LineRunAt(line: string, y: nat, from: nat, k: nat)
    requires ScanStart(line, from) && k < |LineRuns(line, y, from)|
    ensures var r := LineRuns(line, y, from)[k];
      r.y == y && from <= r.x && MaximalRun(line, r.x, r.len)
    decreases |line| - from
  {
    if from < |line| {
      if !Text.IsDigit(line[from]) {
        LineRunsSkip(line, y, from);
        LineRunAt(line, y, from + 1, k);
      } else {
        var n := LineRunsDigit(line, y, from);
        if k > 0 {
          var rest := LineRuns(line, y, from + n + 1);
          LineRunAt(line, y, from + n + 1, k - 1);
          ConsIndex(Run(from, y, n), rest, LineRuns(line, y, from), k - 1);
        }
      }
    }
  }

  /** An earlier run found starts left of a later one. */
  lemma {:induction false} LineRunsOrdered(line: string, y: nat, from: nat, k: nat, l: nat)
    requires ScanStart(line, from) && k < l < |LineRuns(line, y, from)|
    ensures LineRuns(line, y, from)[k].x < LineRuns(line, y, from)[l].x
    decreases |line| - from
  {
    if from < |line| {
      if !Text.IsDigit(line[from]) {
        LineRunsSkip(line, y, from);
        LineRunsOrdered(line, y, from + 1, k, l);
      } else {
        var n := LineRunsDigit(line, y, from);
        var rest := LineRuns(line, y, from + n + 1);
        ConsIndex(Run(from, y, n), rest, LineRuns(line, y, from), l - 1);
        if k == 0 {
          LineRunAt(line, y, from + n + 1, l - 1);
        } else {
          ConsIndex(Run(from, y, n), rest, LineRuns(line, y, from), k - 1);
          LineRunsOrdered(line, y, from + n + 1, k - 1, l - 1);
        }
      }
    }
  }

  /** Every whole number of the line from `from` on is found, at index `k`. */
  lemma {:induction false} LineRunsComplete(line: string, y: nat, from: nat, x: nat, len: nat) returns (k: nat)
    requires ScanStart(line, from) && from <= x && MaximalRun(line, x, len)
    ensures k < |LineRuns(line, y, from)| && LineRuns(line, y, from)[k] == Run(x, y, len)
    decreases |line| - from
  {
    if !Text.IsDigit(line[from]) {
      LineRunsSkip(line, y, from);
      k := LineRunsComplete(line, y, from + 1, x, len);
    } else {
      var n := LineRunsDigit(line, y, from);
      var rest := LineRuns(line, y, from + n + 1);
      if x == from {
        RunLengthUnique(line, x, len, n);
        k := 0;
      } else {
        RunAfterRun(line, from, n, x, len);
        var j := LineRunsComplete(line, y, from + n + 1, x, len);
        k := j + 1;
        ConsIndex(Run(from, y, n), rest, LineRuns(line, y, from), j);
      }
    }
  }

  /** A whole number that starts after the run at `from` starts after the character that ends it. */
  lemma RunAfterRun(line: string, from: nat, n: nat, x: nat, len: nat)
    requires from < x && MaximalRun(line, x, len) && MaximalRun(line, from, n)
    ensures x > from + n
  {
    assert !Text.IsDigit(line[x - 1]) && Text.IsDigit(line[x]);
  }

  lemma ConsIndex<T>(x: T, rest: seq<T>, whole: seq<T>, j: nat)
    requires whole == [x] + rest && j < |rest|
    ensures j + 1 < |whole| && whole[j + 1] == rest[j]
  {
  }

  lemma RunLengthUnique(line: string, x: nat, a: nat, b: nat)
    requires MaximalRun(line, x, a) && MaximalRun(line, x, b)
    ensures a == b
  {
    var atA := if x + a < |line| then Text.IsDigit(line[x + a]) else false;
    var atB := if x + b < |line| then Text.IsDigit(line[x + b]) else false;
  }

  /** The runs of all lines, line by line. */
  function AllRuns(lines: seq<string>, y: nat): (rs: seq<Run>)
    ensures forall k :: 0 <= k < |rs| ==> y <= rs[k].y < y + |lines| && MaximalRun(lines[rs[k].y - y], rs[k].x, rs[k].len)
    ensures forall k, l :: 0 <= k < l < |rs| ==> rs[k].y < rs[l].y || (rs[k].y == rs[l].y && rs[k].x < rs[l].x)
  {
    if |lines| == 0 then []
    else
      var here, rest := LineRuns(lines[0], y, 0), AllRuns(lines[1..], y + 1);
      LineRunsSound(lines[0], y, 0);
      assert forall k :: 0 <= k < |rest| ==> lines[rest[k].y - y] == lines[1..][rest[k].y - (y + 1)];
      here + rest
  }

  /** The runs are exactly the whole numbers of the schematic. */
  lemma {:induction false} AllRunsComplete(lines: seq<string>, y: nat, r: Run)
    requires y <= r.y < y + |lines| && MaximalRun(lines[r.y - y], r.x, r.len)
    ensures r in AllRuns(lines, y)
  {
    var here, rest := LineRuns(lines[0], y, 0), AllRuns(lines[1..], y + 1);
    assert AllRuns(lines, y) == here + rest;
    if r.y == y {
      var k := LineRunsComplete(lines[0], y, 0, r.x, r.len);
      assert r == here[k];
    } else {
      assert lines[r.y - y] == lines[1..][r.y - (y + 1)];
      AllRunsComplete(lines[1..], y + 1, r);
      assert r in rest;
    }
  }

  // ---------------------------------------------------------------------
  // Part numbers

  /** The offsets tried around each digit, in the order of `iproduct!([-1, 0, 1], [-1, 0, 1])`. */
  const Offsets: seq<(int, int)> := [(-1, -1), (-1, 0), (-1, 1), (0, -1), (0, 0), (0, 1), (1, -1), (1, 0), (1, 1)]

  lemma OffsetsAreNeighbours(dx: int, dy: int)
    ensures (-1 <= dx <= 1 && -1 <= dy <= 1) <==> exists k :: 0 <= k < 9 && Offsets[k] == (dx, dy)
  {
    if -1 <= dx <= 1 && -1 <= dy <= 1 {
      var k := (dx + 1) * 3 + (dy + 1);
      assert Offsets[k] == (dx, dy);
    }
  }

  /** The cell at offset `k` from (x, y) holds a symbol. */
  predicate SymbolNear(g: Grid, x: int, y: int, k: nat)
    requires g.Valid() && k < 9
  {
    SymbolAt(g, x + Offsets[k].0, y + Offsets[k].1)
  }

  /** The `is_part` flag after trying the offsets from the `k`th on around (x, y). */
  function FlagAround(g: Grid, x: int, y: int, k: nat, flag: bool): (f: bool)
    requires g.Valid() && k <= 9
    ensures f <==> flag || exists j :: k <= j < 9 && SymbolNear(g, x, y, j)
    decreases 9 - k
  {
    if k == 9 then flag
    else FlagAround(g, x, y, k + 1, flag || SymbolNear(g, x, y, k))
  }

  /** The `is_part` flag after the digits of `r` from column `i` on. */
  function FlagRun(g: Grid, r: Run, i: nat, flag: bool): (f: bool)
    requires g.Valid() && r.x <= i <= r.x + r.len
    ensures f <==> flag || exists j, k :: i <= j < r.x + r.len && 0 <= k < 9 && SymbolNear(g, j, r.y, k)
    decreases r.x + r.len - i
  {
    if i == r.x + r.len then flag
    else FlagRun(g, r, i + 1, FlagAround(g, i, r.y, 0, flag))
  }

  /** `is_part` as the scan computes it. */
  predicate IsPart(g: Grid, r: Run)
    requires g.Valid()
  {
    FlagRun(g, r, r.x, false)
  }

  /** The cell `(dx, dy)` away from (x, y) holds a symbol. */
  predicate SymbolBy(g: Grid, x: int, y: int, dx: int, dy: int)
    requires g.Valid()
  {
    SymbolAt(g, x + dx, y + dy)
  }

  /** Some digit of `r` has an in-grid 8-neighbour (or is itself) a symbol. */
  ghost predicate TouchesSymbol(g: Grid, r: Run)
    requires g.Valid()
  {
    exists i, dx, dy :: r.x <= i < r.x + r.len && -1 <= dx <= 1 && -1 <= dy <= 1 && SymbolBy(g, i, r.y, dx, dy)
  }

  /** A number is a part exactly when one of its digits touches a symbol. */
  lemma IsPartIff(g: Grid, r: Run)
    requires g.Valid()
    ensures IsPart(g, r) <==> TouchesSymbol(g, r)
  {
    if IsPart(g, r) {
      PartTouches(g, r);
    }
    if TouchesSymbol(g, r) {
      TouchingIsPart(g, r);
    }
  }

  lemma PartTouches(g: Grid, r: Run)
    requires g.Valid() && IsPart(g, r)
    ensures TouchesSymbol(g, r)
  {
    var j, k :| r.x <= j < r.x + r.len && 0 <= k < 9 && SymbolNear(g, j, r.y, k);
    OffsetsAreNeighbours(Offsets[k].0, Offsets[k].1);
    assert SymbolBy(g, j, r.y, Offsets[k].0, Offsets[k].1);
  }

  lemma TouchingIsPart(g: Grid, r: Run)
    requires g.Valid() && TouchesSymbol(g, r)
    ensures IsPart(g, r)
  {
    var i, dx, dy :| r.x <= i < r.x + r.len && -1 <= dx <= 1 && -1 <= dy <= 1 && SymbolBy(g, i, r.y, dx, dy);
    OffsetsAreNeighbours(dx, dy);
    var k :| 0 <= k < 9 && Offsets[k] == (dx, dy);
    assert SymbolNear(g, i, r.y, k);
  }

  /** A run of the schematic: it lies on one of the lines as a whole number. */
  predicate RunOf(lines: seq<string>, r: Run)
  {
    r.y < |lines| && MaximalRun(lines[r.y], r.x, r.len)
  }

  /** The number a run spells. */
  function Value(lines: seq<string>, r: Run): nat
    requires RunOf(lines, r)
  {
    Text.DecimalValue(lines[r.y][r.x..r.x + r.len])
  }

  /**
    The `parts` map built in scan order: each part is stored under its
    first digit's position with its value (`values[k]` for `runs[k]`),
    which must parse as a `u32`.
  */
  function Parts(g: Grid, runs: seq<Run>, values: seq<nat>): (r: Outcome<seq<(Run, nat)>>)
    requires g.Valid() && |values| == |runs|
    ensures r.Done? <==> forall k :: 0 <= k < |runs| && IsPart(g, runs[k]) ==> values[k] < Text.U32
  {
    if |runs| == 0 then Done([])
    else
      var rest := Parts(g, runs[1..], values[1..]);
      assert forall k :: 1 <= k < |runs| ==> runs[1..][k - 1] == runs[k] && values[1..][k - 1] == values[k];
      if !IsPart(g, runs[0]) then rest
      else if values[0] >= Text.U32 || rest.Panic? then Panic
      else Done([(runs[0], values[0])] + rest.value)
  }

  /** The stored entries are exactly the parts, each with its value. */
  lemma {:induction false} PartsEntries(g: Grid, runs: seq<Run>, values: seq<nat>, e: (Run, nat))
    requires g.Valid() && |values| == |runs|
    requires Parts(g, runs, values).Done?
    ensures e in Parts(g, runs, values).value <==> exists k :: 0 <= k < |runs| && e == (runs[k], values[k]) && IsPart(g, runs[k])
  {
    if |runs| > 0 {
      assert forall k :: 1 <= k < |runs| ==> runs[1..][k - 1] == runs[k] && values[1..][k - 1] == values[k];
      PartsEntries(g, runs[1..], values[1..], e);
      if k :| 0 <= k < |runs| && e == (runs[k], values[k]) && IsPart(g, runs[k]) {
        if k > 0 {
          assert e == (runs[1..][k - 1], values[1..][k - 1]);
        }
      }
    }
  }

  /** Without parts nothing is stored. */
  lemma {:induction false} PartsEmpty(g: Grid, runs: seq<Run>, values: seq<nat>)
    requires g.Valid() && |values| == |runs|
    requires forall k :: 0 <= k < |runs| ==> !IsPart(g, runs[k])
    ensures Parts(g, runs, values) == Done([])
  {
    if |runs| > 0 {
      assert forall k :: 1 <= k < |runs| ==> runs[1..][k - 1] == runs[k];
      PartsEmpty(g, runs[1..], values[1..]);
    }
  }

  function SumValues(ps: seq<(Run, nat)>): nat
  {
    if |ps| == 0 then 0 else ps[0].1 + SumValues(ps[1..])
  }

  /** Run `a` starts before run `b` in reading order: an earlier line, or further left on the same line. */
  predicate Before(a: Run, b: Run)
  {
    a.y < b.y || (a.y == b.y && a.x < b.x)
  }

  /**
    The stored entries keep the scan order, so no two share a position:
    every `insert` adds a new key and none overwrites an earlier part.
  */
  lemma {:induction false} PartsOrdered(g: Grid, runs: seq<Run>, values: seq<nat>)
    requires g.Valid() && |values| == |runs| && Parts(g, runs, values).Done?
    requires forall k, l :: 0 <= k < l < |runs| ==> Before(runs[k], runs[l])
    ensures var ps := Parts(g, runs, values).value;
            forall i, j :: 0 <= i < j < |ps| ==> Before(ps[i].0, ps[j].0) && (ps[i].0.x, ps[i].0.y) != (ps[j].0.x, ps[j].0.y)
  {
    if |runs| > 0 {
      assert forall k :: 1 <= k < |runs| ==> runs[1..][k - 1] == runs[k] && values[1..][k - 1] == values[k];
      PartsOrdered(g, runs[1..], values[1..]);
      var rest := Parts(g, runs[1..], values[1..]).value;
      forall e | e in rest
        ensures Before(runs[0], e.0)
      {
        PartsEntries(g, runs[1..], values[1..], e);
      }
    }
  }

  /**
    The reference answer: the value of every number of `rs` that is a
    part, each number of `rs` looked at once.
  */
  function PartSum(g: Grid, lines: seq<string>, rs: seq<Run>): nat
    requires g.Valid() && forall k :: 0 <= k < |rs| ==> RunOf(lines, rs[k])
  {
    if |rs| == 0 then 0
    else (if IsPart(g, rs[0]) then Value(lines, rs[0]) else 0) + PartSum(g, lines, rs[1..])
  }

  /** Summing the stored entries adds up exactly the parts' values. */
  lemma {:induction false} PartsSum(g: Grid, lines: seq<string>, runs: seq<Run>, values: seq<nat>)
    requires g.Valid() && |values| == |runs| && Parts(g, runs, values).Done?
    requires forall k :: 0 <= k < |runs| ==> RunOf(lines, runs[k]) && values[k] == Value(lines, runs[k])
    ensures SumValues(Parts(g, runs, values).value) == PartSum(g, lines, runs)
  {
    if |runs| > 0 {
      assert forall k :: 1 <= k < |runs| ==> runs[1..][k - 1] == runs[k] && values[1..][k - 1] == values[k];
      PartsSum(g, lines, runs[1..], values[1..]);
    }
  }

  /** The schematic's runs, all lines from row 0, in reading order. */
  function Runs(lines: seq<string>): (rs: seq<Run>)
    ensures forall k :: 0 <= k < |rs| ==> RunOf(lines, rs[k])
    ensures forall r :: r in rs ==> RunOf(lines, r)
    ensures forall k, l :: 0 <= k < l < |rs| ==> Before(rs[k], rs[l])
    ensures forall k, l :: 0 <= k < |rs| && 0 <= l < |rs| && rs[k] == rs[l] ==> k == l
  {
    AllRuns(lines, 0)
  }

  /** The value of each run, in order. */
  function Values(lines: seq<string>, rs: seq<Run>): (vs: seq<nat>)
    requires forall k :: 0 <= k < |rs| ==> RunOf(lines, rs[k])
    ensures |vs| == |rs| && forall k :: 0 <= k < |rs| ==> vs[k] == Value(lines, rs[k])
  {
    seq(|rs|, k requires 0 <= k < |rs| => Value(lines, rs[k]))
  }

  /** The parts of the schematic, or the panic on a part too large for a `u32`. */
  function SchematicParts(g: Grid, lines: seq<string>): (r: Outcome<seq<(Run, nat)>>)
    requires g.Valid()
    ensures r.Done? <==> forall k :: 0 <= k < |Runs(lines)| && IsPart(g, Runs(lines)[k]) ==> Value(lines, Runs(lines)[k]) < Text.U32
  {
    var rs := Runs(lines);
    Parts(g, rs, Values(lines, rs))
  }

  /**
    `part_one`: the sum of the part numbers, each counted once. It
    panics on an empty schematic or first line, or on a part number that
    does not fit a `u32`.
  */
  function PartOne(lines: seq<string>): (r: Outcome<Option<nat>>)
    ensures r.Done? <==> MakeGrid(lines).Done? && SchematicParts(MakeGrid(lines).value, lines).Done?
    ensures r.Done? ==> r.value == Some(PartSum(MakeGrid(lines).value, lines, Runs(lines)))
  {
    var g := MakeGrid(lines);
    if g.Panic? then Panic
    else
      var ps := SchematicParts(g.value, lines);
      if ps.Panic? then Panic
      else
        var rs := Runs(lines);
        PartsSum(g.value, lines, rs, Values(lines, rs));
        Done(Some(SumValues(ps.value)))
  }

  /**
    Each part of the schematic is summed exactly once: the runs summed
    are every whole number of the schematic, without repeats, and the
    stored entries have distinct positions.
  */
  lemma PartOneCountsOnce(lines: seq<string>)
    requires PartOne(lines).Done?
    ensures var rs := Runs(lines);
            (forall r :: r in rs <==> RunOf(lines, r)) &&
            (forall k, l :: 0 <= k < l < |rs| ==> rs[k] != rs[l]) &&
            var ps := SchematicParts(MakeGrid(lines).value, lines).value;
            forall i, j :: 0 <= i < j < |ps| ==> (ps[i].0.x, ps[i].0.y) != (ps[j].0.x, ps[j].0.y)
  {
    var g := MakeGrid(lines).value;
    var rs := Runs(lines);
    forall r | RunOf(lines, r)
      ensures r in rs
    {
      AllRunsComplete(lines, 0, r);
    }
    PartsOrdered(g, rs, Values(lines, rs));
  }

  /** A schematic without symbols has no parts, so part one is 0. */
  lemma NoSymbolNoPart(lines: seq<string>)
    requires MakeGrid(lines).Done?
    requires forall x, y :: !SymbolAt(MakeGrid(lines).value, x, y)
    ensures PartOne(lines) == Done(Some(0))
  {
    var g := MakeGrid(lines).value;
    var rs := Runs(lines);
    forall k | 0 <= k < |rs| ensures !IsPart(g, rs[k]) {
      IsPartIff(g, rs[k]);
    }
    PartsEmpty(g, rs, Values(lines, rs));
  }

  // ---------------------------------------------------------------------
  // Gears

  /** The star at (sx, sy) lies in the ring of cells around run `r`. */
  predicate Adjacent(g: Grid, r: Run, sx: int, sy: int)
    requires g.Valid()
  {
    r.x - 1 <= sx <= r.x + r.len && r.y - 1 <= sy <= r.y + 1 && At(g, sx, sy) == Some('*')
  }

  /** The cell `(dx, dy)` away from (x, y) is the star at (sx, sy). */
  predicate StarBy(g: Grid, x: int, y: int, dx: int, dy: int, sx: int, sy: int)
    requires g.Valid()
  {
    x + dx == sx && y + dy == sy && At(g, sx, sy) == Some('*')
  }

  /**
    The scan files run `r` under the star at (sx, sy) exactly when one of
    its digits has that star among its neighbours, which is adjacency.
  */
  lemma AdjacentIff(g: Grid, r: Run, sx: int, sy: int)
    requires g.Valid() && r.len > 0
    ensures Adjacent(g, r, sx, sy) <==>
            exists i, dx, dy :: r.x <= i < r.x + r.len && -1 <= dx <= 1 && -1 <= dy <= 1 && StarBy(g, i, r.y, dx, dy, sx, sy)
  {
    if Adjacent(g, r, sx, sy) {
      var i := if sx < r.x then r.x else if sx >= r.x + r.len then r.x + r.len - 1 else sx;
      assert StarBy(g, i, r.y, sx - i, sy - r.y, sx, sy);
    }
  }

  /** A number next to a star touches a symbol, so it is a part. */
  lemma AdjacentIsPart(g: Grid, r: Run, sx: int, sy: int)
    requires g.Valid() && r.len > 0 && Adjacent(g, r, sx, sy)
    ensures IsPart(g, r)
  {
    var i := if sx < r.x then r.x else if sx >= r.x + r.len then r.x + r.len - 1 else sx;
    assert SymbolBy(g, i, r.y, sx - i, sy - r.y);
    IsPartIff(g, r);
  }

  /** The numbers the scan files under the star at (sx, sy), in scan order. */
  function Touching(g: Grid, runs: seq<Run>, sx: int, sy: int): (t: seq<Run>)
    requires g.Valid()
    ensures forall r :: r in t <==> r in runs && Adjacent(g, r, sx, sy)
    ensures |t| <= |runs|
  {
    if |runs| == 0 then []
    else
      var rest := Touching(g, runs[1..], sx, sy);
      if Adjacent(g, runs[0], sx, sy) then [runs[0]] + rest else rest
  }

  /** `all_parts.get(..)`: the value stored under a run's position. */
  function Lookup(parts: seq<(Run, nat)>, r: Run): (v: Option<nat>)
    ensures v.Some? <==> exists n :: (r, n) in parts
    ensures v.Some? ==> (r, v.value) in parts
  {
    if |parts| == 0 then None
    else if parts[0].0 == r then Some(parts[0].1)
    else
      var rest := Lookup(parts[1..], r);
      assert forall n :: (r, n) in parts ==> (r, n) in parts[1..];
      rest
  }

  /**
    The ratio of the star at (sx, sy): the product of its two numbers'
    values when it touches exactly two, otherwise 0; the `unwrap` of the
    lookup panics on a number that was not stored.
  */
  function GearRatio(g: Grid, runs: seq<Run>, parts: seq<(Run, nat)>, sx: int, sy: int): (r: Outcome<nat>)
    requires g.Valid()
    ensures |Touching(g, runs, sx, sy)| != 2 ==> r == Done(0)
  {
    var t := Touching(g, runs, sx, sy);
    if |t| != 2 then Done(0)
    else
      var a, b := Lookup(parts, t[0]), Lookup(parts, t[1]);
      if a.None? || b.None? then Panic else Done(a.value * b.value)
  }

  /** The sum of the ratios of the cells from (x, y) on, row by row. */
  function GearSum(g: Grid, runs: seq<Run>, parts: seq<(Run, nat)>, x: nat, y: nat): (r: Outcome<nat>)
    requires g.Valid()
    decreases g.h - y, g.w - x
  {
    if y >= g.h then Done(0)
    else if x >= g.w then GearSum(g, runs, parts, 0, y + 1)
    else
      var here, rest := GearRatio(g, runs, parts, x, y), GearSum(g, runs, parts, x + 1, y);
      if here.Panic? || rest.Panic? then Panic else Done(here.value + rest.value)
  }

  /**
    `part_two`: the sum of the gear ratios. It panics exactly where part
    one does, since a number next to a star is always a stored part.
  */
  function PartTwo(lines: seq<string>): (r: Outcome<Option<nat>>)
    ensures r.Done? <==> MakeGrid(lines).Done? && SchematicParts(MakeGrid(lines).value, lines).Done?
    ensures r.Done? ==> r.value.Some?
  {
    var g := MakeGrid(lines);
    if g.Panic? then Panic
    else
      var ps := SchematicParts(g.value, lines);
      if ps.Panic? then Panic
      else
        GearSumDone(g.value, lines, 0, 0);
        var s := GearSum(g.value, Runs(lines), ps.value, 0, 0);
        if s.Panic? then Panic else Done(Some(s.value))
  }

  /** A stored part is found again under its own position, with its value. */
  lemma LookupPart(g: Grid, lines: seq<string>, r: Run)
    requires g.Valid() && SchematicParts(g, lines).Done?
    requires r in Runs(lines) && IsPart(g, r)
    ensures Lookup(SchematicParts(g, lines).value, r) == Some(Value(lines, r))
  {
    var rs := Runs(lines);
    var vs := Values(lines, rs);
    var parts := SchematicParts(g, lines).value;
    var k :| 0 <= k < |rs| && rs[k] == r;
    PartsEntries(g, rs, vs, (rs[k], vs[k]));
    var v := Lookup(parts, r);
    PartsEntries(g, rs, vs, (r, v.value));
  }

  /** A star touching exactly the numbers `a` and `b` has ratio `a * b`. */
  lemma GearRatioOfPair(g: Grid, lines: seq<string>, sx: int, sy: int, a: Run, b: Run)
    requires g.Valid() && SchematicParts(g, lines).Done?
    requires Touching(g, Runs(lines), sx, sy) == [a, b]
    ensures RunOf(lines, a) && RunOf(lines, b)
    ensures GearRatio(g, Runs(lines), SchematicParts(g, lines).value, sx, sy) == Done(Value(lines, a) * Value(lines, b))
  {
    assert a in [a, b] && b in [a, b];
    AdjacentIsPart(g, a, sx, sy);
    AdjacentIsPart(g, b, sx, sy);
    LookupPart(g, lines, a);
    LookupPart(g, lines, b);
    RatioOfFound(g, Runs(lines), SchematicParts(g, lines).value, sx, sy, a, b, Value(lines, a), Value(lines, b));
  }

  /** With both touching runs found in the table, the ratio is the product of their values. */
  lemma RatioOfFound(g: Grid, runs: seq<Run>, parts: seq<(Run, nat)>, sx: int, sy: int, a: Run, b: Run, va: nat, vb: nat)
    requires g.Valid() && Touching(g, runs, sx, sy) == [a, b]
    requires Lookup(parts, a) == Some(va) && Lookup(parts, b) == Some(vb)
    ensures GearRatio(g, runs, parts, sx, sy) == Done(va * vb)
  {
  }

  /** Once the parts are stored, no star's lookup can fail. */
  lemma GearRatioDone(g: Grid, lines: seq<string>, sx: int, sy: int)
    requires g.Valid() && SchematicParts(g, lines).Done?
    ensures GearRatio(g, Runs(lines), SchematicParts(g, lines).value, sx, sy).Done?
  {
    var t := Touching(g, Runs(lines), sx, sy);
    if |t| == 2 {
      assert t == [t[0], t[1]];
      GearRatioOfPair(g, lines, sx, sy, t[0], t[1]);
    }
  }

  lemma {:induction false} GearSumDone(g: Grid, lines: seq<string>, x: nat, y: nat)
    requires g.Valid() && SchematicParts(g, lines).Done?
    ensures GearSum(g, Runs(lines), SchematicParts(g, lines).value, x, y).Done?
    decreases g.h - y, g.w - x
  {
    if y < g.h {
      if x >= g.w {
        GearSumDone(g, lines, 0, y + 1);
      } else {
        GearRatioDone(g, lines, x, y);
        GearSumDone(g, lines, x + 1, y);
      }
    }
  }
}
