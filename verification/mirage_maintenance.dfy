/**
  Mirage Maintenance (2023 day 9): a history is extended by building the
  table of repeated differences down to an all-zero row, appending a 0
  to that row and summing back up.
*/
module MirageMaintenance {
  import opened Wrappers
  import Text

  /** The differences of neighbouring values. */
  function Diffs(row: seq<int>): (d: seq<int>)
    requires |row| > 0
    ensures |d| == |row| - 1
  {
    seq(|row| - 1, i requires 0 <= i < |row| - 1 => row[i + 1] - row[i])
  }

  /** Every value is 0; the empty row counts as all zero. */
  predicate AllZero(row: seq<int>)
  {
    forall i :: 0 <= i < |row| ==> row[i] == 0
  }

  /** Each row of `t` after the first is the differences of the one before. */
  predicate DifferenceTable(t: seq<seq<int>>)
  {
    && (forall k :: 0 <= k < |t| - 1 ==> |t[k]| > 0)
    && (forall k :: 0 <= k < |t| - 1 ==> t[k + 1] == Diffs(t[k]))
  }

  /**
    The rows from `row` on: a new row of differences is made at least
    once, and the first all-zero one ends the table.
  */
  function Table(row: seq<int>): (t: seq<seq<int>>)
    requires |row| > 0
    ensures 2 <= |t| <= |row| + 1 && t[0] == row
    ensures DifferenceTable(t)
    ensures AllZero(t[|t| - 1]) && forall k :: 1 <= k < |t| - 1 ==> !AllZero(t[k])
    decreases |row|
  {
    var d := Diffs(row);
    if AllZero(d) then [row, d]
    else
      var rest := Table(d);
      assert forall k :: 1 <= k < |rest| + 1 ==> ([row] + rest)[k] == rest[k - 1];
      [row] + rest
  }

  /**
    `gen_differences`: the table of a history. An empty history panics
    when `len() - 1` underflows.
  */
  function GenDifferences(hist: seq<int>): (r: Outcome<seq<seq<int>>>)
    ensures r.Panic? <==> |hist| == 0
    ensures r.Done? ==> r.value == Table(hist)
  {
    if |hist| == 0 then Panic else Done(Table(hist))
  }

  function Last(row: seq<int>): int
    requires |row| > 0
  {
    row[|row| - 1]
  }

  /**
    The value `extrapolate_next` appends to row `k`: 0 for the last row,
    else the row's last value plus the value appended to the row below.
  */
  function NextFrom(t: seq<seq<int>>, k: nat): int
    requires k < |t| && forall j :: 0 <= j < |t| - 1 ==> |t[j]| > 0
    decreases |t| - k
  {
    if k == |t| - 1 then 0 else Last(t[k]) + NextFrom(t, k + 1)
  }

  /** Row `k` with its appended value. */
  function Extended(t: seq<seq<int>>, k: nat): seq<int>
    requires k < |t| && forall j :: 0 <= j < |t| - 1 ==> |t[j]| > 0
  {
    t[k] + [NextFrom(t, k)]
  }

  lemma DiffsSnoc(row: seq<int>, v: int)
    requires |row| > 0
    ensures Diffs(row + [v]) == Diffs(row) + [v - Last(row)]
  {
  }

  /**
    Appending keeps the table a difference table: every extended row's
    differences are the extended row below it, and the last stays all zero.
  */
  lemma ExtendedTable(t: seq<seq<int>>, k: nat)
    requires DifferenceTable(t) && |t| > 0 && AllZero(t[|t| - 1])
    requires k < |t| - 1
    ensures Diffs(Extended(t, k)) == Extended(t, k + 1)
    ensures AllZero(Extended(t, |t| - 1))
  {
    DiffsSnoc(t[k], NextFrom(t, k));
  }

  /** `extrapolate_next` of a history: the value appended to its first row. */
  function Next(hist: seq<int>): (r: Outcome<int>)
    ensures r.Panic? <==> |hist| == 0
    ensures r.Done? ==> r.value == Last(Extended(Table(hist), 0))
  {
    var t := GenDifferences(hist);
    if t.Panic? then Panic else Done(NextFrom(t.value, 0))
  }

  // ---------------------------------------------------------------------
  // Histories with a known continuation

  function Arith(a: int, d: int, n: nat): (s: seq<int>)
    ensures |s| == n && forall i :: 0 <= i < n ==> s[i] == a + i * d
  {
    seq(n, i requires 0 <= i < n => a + i * d)
  }

  lemma DiffsArith(a: int, d: int, n: nat)
    requires n > 0
    ensures Diffs(Arith(a, d, n)) == Arith(d, 0, n - 1)
  {
    var s := Arith(a, d, n);
    forall i | 0 <= i < n - 1 ensures s[i + 1] - s[i] == d {
      assert (i + 1) * d == i * d + d;
    }
  }

  /** A constant history continues with the same value. */
  lemma ConstantNext(c: int, n: nat)
    requires n > 0
    ensures Next(Arith(c, 0, n)) == Done(c)
  {
    var h := Arith(c, 0, n);
    DiffsArith(c, 0, n);
    var t := Table(h);
    assert t == [h, Arith(0, 0, n - 1)];
    assert NextFrom(t, 0) == Last(h) + NextFrom(t, 1);
  }

  /** An arithmetic history of two or more values continues with its next term. */
  lemma ArithmeticNext(a: int, d: int, n: nat)
    requires n >= 2
    ensures Next(Arith(a, d, n)) == Done(a + n * d)
  {
    var h := Arith(a, d, n);
    DiffsArith(a, d, n);
    var t := Table(h);
    if d != 0 {
      SlopedTable(a, d, n);
      assert NextFrom(t, 1) == d;
    } else {
      assert t == [h, Arith(0, 0, n - 1)];
    }
    assert NextFrom(t, 0) == Last(h) + NextFrom(t, 1);
    assert (n - 1) * d + d == n * d;
  }

  /** A non-constant arithmetic history needs one row of differences, then zeros. */
  lemma SlopedTable(a: int, d: int, n: nat)
    requires n >= 2 && d != 0
    ensures Table(Arith(a, d, n)) == [Arith(a, d, n), Arith(d, 0, n - 1), Arith(0, 0, n - 2)]
    ensures NextFrom(Table(Arith(a, d, n)), 1) == d
  {
    var h := Arith(a, d, n);
    DiffsArith(a, d, n);
    DiffsArith(d, 0, n - 1);
    assert !AllZero(Diffs(h)) by {
      assert Diffs(h)[0] == d;
    }
    assert Table(Arith(d, 0, n - 1)) == [Arith(d, 0, n - 1), Arith(0, 0, n - 2)];
    var t := Table(h);
    assert t == [h, Arith(d, 0, n - 1), Arith(0, 0, n - 2)];
    assert NextFrom(t, 1) == d + NextFrom(t, 2);
  }

  function Reverse(s: seq<int>): (r: seq<int>)
    ensures |r| == |s| && forall i :: 0 <= i < |s| ==> r[i] == s[|s| - 1 - i]
  {
    seq(|s|, i requires 0 <= i < |s| => s[|s| - 1 - i])
  }

  /** Extending a reversed arithmetic history gives the term before its first. */
  lemma ArithmeticPrevious(a: int, d: int, n: nat)
    requires n >= 2
    ensures Next(Reverse(Arith(a, d, n))) == Done(a - d)
  {
    var b := a + (n - 1) * d;
    forall i | 0 <= i < n ensures Reverse(Arith(a, d, n))[i] == b + i * (-d) {
      assert a + (n - 1 - i) * d == b + i * (-d);
    }
    assert Reverse(Arith(a, d, n)) == Arith(b, -d, n);
    ArithmeticNext(b, -d, n);
    assert b + n * (-d) == a - d;
  }

  // ---------------------------------------------------------------------
  // The puzzle

  function ParseValue(w: string): Option<int>
  {
    Text.ParseSigned(w, Text.I32)
  }

  /** Every word is an `i32`. */
  predicate AllValues(ws: seq<string>)
  {
    forall k :: 0 <= k < |ws| ==> ParseValue(ws[k]).Some?
  }

  /** A line's history: its words as `i32`s; one bad word panics (the `unwrap`). */
  function ParseHistory(line: string): (r: Outcome<seq<int>>)
    ensures r.Done? <==> AllValues(Text.Words(line))
    ensures r.Done? ==> |r.value| == |Text.Words(line)|
    ensures r.Done? ==> forall k :: 0 <= k < |r.value| ==> ParseValue(Text.Words(line)[k]) == Some(r.value[k])
  {
    var vs := Collect(Text.Words(line), ParseValue);
    if vs.None? then Panic else Done(vs.value)
  }

  /** A history written out with single spaces reads back as exactly its values. */
  lemma ParseShownHistory(vs: seq<int>)
    requires forall k :: 0 <= k < |vs| ==> -(Text.I32 as int) <= vs[k] < Text.I32
    ensures ParseHistory(Text.Join(Text.ShowAll(vs), " ")) == Done(vs)
  {
    var line := Text.Join(Text.ShowAll(vs), " ");
    Text.WordsOfShown(vs);
    forall k | 0 <= k < |vs| ensures ParseValue(Text.Words(line)[k]) == Some(vs[k]) {
      Text.ParseShowInt(vs[k], Text.I32);
    }
    var r := ParseHistory(line);
    assert r.Done?;
    assert r.value == vs;
  }

  /** The line parses to a history that is not empty. */
  predicate Usable(line: string)
  {
    AllValues(Text.Words(line)) && |Text.Words(line)| > 0
  }

  /** The sum of the extrapolations of `hists`, each reversed first when `backward`. */
  function SumNext(hists: seq<seq<int>>, backward: bool): (r: Outcome<int>)
    ensures r.Done? <==> forall k :: 0 <= k < |hists| ==> |hists[k]| > 0
  {
    if |hists| == 0 then Done(0)
    else
      assert forall k :: 1 <= k < |hists| ==> hists[1..][k - 1] == hists[k];
      var n, rest := Next(if backward then Reverse(hists[0]) else hists[0]), SumNext(hists[1..], backward);
      if n.Panic? || rest.Panic? then Panic else Done(n.value + rest.value)
  }

  /** Every line's history, or the panic of the first that fails to parse. */
  function Histories(lines: seq<string>): (r: Outcome<seq<seq<int>>>)
    ensures r.Done? <==> forall k :: 0 <= k < |lines| ==> ParseHistory(lines[k]).Done?
    ensures r.Done? ==> |r.value| == |lines| && forall k :: 0 <= k < |lines| ==> ParseHistory(lines[k]) == Done(r.value[k])
  {
    if |lines| == 0 then Done([])
    else
      assert forall k :: 1 <= k < |lines| ==> lines[1..][k - 1] == lines[k];
      var h, rest := ParseHistory(lines[0]), Histories(lines[1..]);
      if h.Panic? || rest.Panic? then Panic else Done([h.value] + rest.value)
  }

  /** The sum over the lines' histories, each reversed first when `backward`. */
  function Predict(lines: seq<string>, backward: bool): (r: Outcome<int>)
    ensures r.Done? <==> forall k :: 0 <= k < |lines| ==> Usable(lines[k])
  {
    var hs := Histories(lines);
    if hs.Panic? then Panic else SumNext(hs.value, backward)
  }

  /** `part_one`: the sum of the next values; `Some` always. */
  function PartOne(lines: seq<string>): (r: Outcome<int>)
    ensures r.Done? <==> forall k :: 0 <= k < |lines| ==> Usable(lines[k])
  {
    Predict(lines, false)
  }

  /** `part_two`: the same over reversed histories, so it fails on the same inputs. */
  function PartTwo(lines: seq<string>): (r: Outcome<int>)
    ensures r.Done? <==> PartOne(lines).Done?
  {
    Predict(lines, true)
  }
}
