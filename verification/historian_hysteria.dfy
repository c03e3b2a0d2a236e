/**
  Historian Hysteria (2024 day 1): two columns of location ids. The total
  distance pairs the columns up by rank; the similarity score weighs each
  left id by how often it appears on the right.
*/
module HistorianHysteria {
  import opened Wrappers
  import Sorting
  import Text

  /** `ListPair`: both columns, and how often each id appears in the right one. */
  datatype ListPair = ListPair(left: seq<int>, right: seq<int>, rightAppearances: map<int, nat>)

  // ---------------------------------------------------------------------
  // Parsing

  function ParseId(w: string): Option<nat>
  {
    Text.ParseUnsigned(w, Text.U32)
  }

  /**
    One line: its first two words as `u32` ids; further words are ignored.
    A missing word or an id that does not parse panics (the `expect`s).
  */
  function ParseLine(line: string): (r: Outcome<(nat, nat)>)
    ensures r.Done? <==> |Text.Words(line)| >= 2 && ParseId(Text.Words(line)[0]).Some? && ParseId(Text.Words(line)[1]).Some?
    ensures r.Done? ==> r.value.0 < Text.U32 && r.value.1 < Text.U32
    ensures r.Done? ==> r.value.0 == Text.DecimalValue(Text.UnsignedDigits(Text.Words(line)[0]))
    ensures r.Done? ==> r.value.1 == Text.DecimalValue(Text.UnsignedDigits(Text.Words(line)[1]))
  {
    var ws := Text.Words(line);
    if |ws| < 2 then Panic
    else
      var l, r := ParseId(ws[0]), ParseId(ws[1]);
      if l.None? || r.None? then Panic else Done((l.value, r.value))
  }

  /** Two `u32` ids written out with whitespace between them read back as that pair. */
  lemma ParseShownLine(a: nat, b: nat, gap: string)
    requires a < Text.U32 && b < Text.U32
    requires |gap| > 0 && forall i :: 0 <= i < |gap| ==> Text.IsSpace(gap[i])
    ensures ParseLine(Text.ShowNat(a) + gap + Text.ShowNat(b)) == Done((a, b))
  {
    Text.ShowNatRoundTrip(a);
    Text.ShowNatRoundTrip(b);
    Text.WordsGap(Text.ShowInt(a), gap, Text.ShowNat(b));
    Text.WordsOfShown([b]);
    assert Text.ShowAll([b]) == [Text.ShowNat(b)];
    assert Text.IsDigit(Text.ShowNat(a)[0]) && Text.IsDigit(Text.ShowNat(b)[0]);
  }

  /** The `unzip` of the parsed lines, or the panic of the first bad one. */
  function Columns(lines: seq<string>): (r: Outcome<(seq<int>, seq<int>)>)
    ensures r.Done? <==> forall i :: 0 <= i < |lines| ==> ParseLine(lines[i]).Done?
    ensures r.Done? ==> |r.value.0| == |lines| && |r.value.1| == |lines|
    ensures r.Done? ==> forall i :: 0 <= i < |lines| ==> ParseLine(lines[i]).value == (r.value.0[i], r.value.1[i])
  {
    if |lines| == 0 then Done(([], []))
    else
      var first, rest := ParseLine(lines[0]), Columns(lines[1..]);
      if first.Panic? || rest.Panic? then
        assert rest.Panic? ==> exists i :: 1 <= i < |lines| && ParseLine(lines[i]).Panic? by {
          if rest.Panic? {
            var j :| 0 <= j < |lines| - 1 && ParseLine(lines[1..][j]).Panic?;
            assert lines[1..][j] == lines[j + 1];
          }
        }
        Panic
      else
        var left, right := [first.value.0 as int] + rest.value.0, [first.value.1 as int] + rest.value.1;
        ColumnsCons(lines, lines[1..], ParseLine, rest.value.0, rest.value.1);
        Done((left, right))
  }

  /** The columns of the tail, with the first line's pair in front, are the columns of all the lines. */
  lemma ColumnsCons<T>(xs: seq<T>, tail: seq<T>, parse: T -> Outcome<(nat, nat)>, lefts: seq<int>, rights: seq<int>)
    requires |xs| > 0 && tail == xs[1..] && parse(xs[0]).Done?
    requires |lefts| == |rights| == |tail|
    requires forall j :: 0 <= j < |tail| ==> parse(tail[j]).Done? && parse(tail[j]).value == (lefts[j], rights[j])
    ensures forall i :: 0 <= i < |xs| ==> parse(xs[i]).Done?
    ensures forall i :: 0 <= i < |xs| ==>
      parse(xs[i]).value == (([parse(xs[0]).value.0 as int] + lefts)[i], ([parse(xs[0]).value.1 as int] + rights)[i])
  {
    forall i | 1 <= i < |xs| ensures parse(xs[i]) == parse(tail[i - 1]) {
      assert tail[i - 1] == xs[i];
    }
  }

  /** The number of appearances recorded for `k`; absent ids count 0 (the `unwrap_or(&0)`). */
  function Lookup(m: map<int, nat>, k: int): nat
  {
    if k in m then m[k] else 0
  }

  /** The `fold` that counts each id of `right`, one entry at a time from the left. */
  function Appearances(right: seq<int>): (m: map<int, nat>)
    ensures forall k :: k in m <==> k in right
    ensures forall k :: Lookup(m, k) == multiset(right)[k]
  {
    if |right| == 0 then map[]
    else
      var init, k := right[..|right| - 1], right[|right| - 1];
      assert right == init + [k];
      var m := Appearances(init);
      m[k := Lookup(m, k) + 1]
  }

  /** `ListPair::from_str`. */
  function FromLines(lines: seq<string>): (r: Outcome<ListPair>)
    ensures r.Done? <==> forall i :: 0 <= i < |lines| ==> ParseLine(lines[i]).Done?
    ensures r.Done? ==> |r.value.left| == |r.value.right| == |lines|
    ensures r.Done? ==> forall k :: Lookup(r.value.rightAppearances, k) == multiset(r.value.right)[k]
  {
    var cs := Columns(lines);
    if cs.Panic? then Panic else Done(ListPair(cs.value.0, cs.value.1, Appearances(cs.value.1)))
  }

  // ---------------------------------------------------------------------
  // Total distance

  function Le(a: int, b: int): bool { a <= b }

  /** `sort` of a column: ascending, with the same elements. */
  function Sort(xs: seq<int>): (s: seq<int>)
    ensures multiset(s) == multiset(xs)
    ensures forall i, j :: 0 <= i < j < |s| ==> s[i] <= s[j]
  {
    assert Sorting.TotalPreorderOn(Le, xs);
    Sorting.SortIsSorted(xs, Le);
    Sorting.InsertionSort(xs, Le)
  }

  /** The `zip` of two columns mapped to `abs_diff` and summed; the longer column's tail is dropped. */
  function SumDiffs(l: seq<int>, r: seq<int>): nat
  {
    if |l| == 0 || |r| == 0 then 0 else Abs(l[0] - r[0]) + SumDiffs(l[1..], r[1..])
  }

  /**
    `total_distance`: the columns paired up by rank. Equal-length columns
    are 0 apart exactly when they hold the same ids.
  */
  function TotalDistance(p: ListPair): (d: nat)
    ensures |p.left| == |p.right| ==> (d == 0 <==> multiset(p.left) == multiset(p.right))
  {
    var l, r := Sort(p.left), Sort(p.right);
    assert |p.left| == |p.right| ==> (SumDiffs(l, r) == 0 <==> multiset(p.left) == multiset(p.right)) by {
      if |p.left| == |p.right| {
        assert |l| == |multiset(l)| == |multiset(r)| == |r|;
        if multiset(p.left) == multiset(p.right) {
          SortDeterminedByElements(p.left, p.right);
          SumDiffsSelf(l);
        }
        if SumDiffs(l, r) == 0 {
          SumDiffsZero(l, r);
        }
      }
    }
    SumDiffs(l, r)
  }

  /** Sorting depends only on the elements. */
  lemma SortDeterminedByElements(a: seq<int>, b: seq<int>)
    requires multiset(a) == multiset(b)
    ensures Sort(a) == Sort(b)
  {
    Sorting.SortedUnique(Sort(a), Sort(b));
  }

  /** Reordering either column leaves the total distance unchanged. */
  lemma DistancePermutation(p: ListPair, q: ListPair)
    requires multiset(p.left) == multiset(q.left) && multiset(p.right) == multiset(q.right)
    ensures TotalDistance(p) == TotalDistance(q)
  {
    SortDeterminedByElements(p.left, q.left);
    SortDeterminedByElements(p.right, q.right);
  }

  lemma {:induction false} SumDiffsSelf(s: seq<int>)
    ensures SumDiffs(s, s) == 0
  {
    if |s| > 0 {
      SumDiffsSelf(s[1..]);
    }
  }

  lemma {:induction false} SumDiffsZero(l: seq<int>, r: seq<int>)
    requires |l| == |r| && SumDiffs(l, r) == 0
    ensures l == r
  {
    if |l| > 0 {
      SumDiffsZero(l[1..], r[1..]);
      assert l == [l[0]] + l[1..] && r == [r[0]] + r[1..];
    }
  }

  // ---------------------------------------------------------------------
  // Similarity score

  /** Each left id times its recorded appearances, summed. */
  function Weighted(left: seq<int>, m: map<int, nat>): int
  {
    if |left| == 0 then 0 else left[0] * Lookup(m, left[0]) + Weighted(left[1..], m)
  }

  /** Each left id times how often it occurs in `right`: the score's definition. */
  function Similarity(left: seq<int>, right: seq<int>): int
  {
    if |left| == 0 then 0 else left[0] * multiset(right)[left[0]] + Similarity(left[1..], right)
  }

  /**
    `similarity_score`: the weighted sum, through the appearance map. When
    the map counts the right column, as `FromLines` builds it, this is the
    score's definition.
  */
  function SimilarityScore(p: ListPair): (s: int)
    ensures (forall k :: Lookup(p.rightAppearances, k) == multiset(p.right)[k]) ==> s == Similarity(p.left, p.right)
  {
    assert (forall k :: Lookup(p.rightAppearances, k) == multiset(p.right)[k]) ==>
        Weighted(p.left, p.rightAppearances) == Similarity(p.left, p.right) by {
      if forall k :: Lookup(p.rightAppearances, k) == multiset(p.right)[k] {
        WeightedCounts(p.left, p.rightAppearances, p.right);
      }
    }
    Weighted(p.left, p.rightAppearances)
  }

  /** Weighting by any map that counts `right` gives the score's definition. */
  lemma {:induction false} WeightedCounts(left: seq<int>, m: map<int, nat>, right: seq<int>)
    requires forall k :: Lookup(m, k) == multiset(right)[k]
    ensures Weighted(left, m) == Similarity(left, right)
  {
    if |left| > 0 {
      WeightedCounts(left[1..], m, right);
    }
  }

  /** Ids missing from the right column add nothing. */
  lemma {:induction false} AbsentAddNothing(left: seq<int>, right: seq<int>, v: int)
    requires v !in right
    ensures Similarity(left + [v], right) == Similarity(left, right)
  {
    if |left| > 0 {
      assert (left + [v])[1..] == left[1..] + [v];
      AbsentAddNothing(left[1..], right, v);
    } else {
      var one: seq<int> := [v];
      assert one[1..] == [];
    }
  }

  // ---------------------------------------------------------------------
  // The puzzle

  /** `part_one`; a bad line panics, otherwise the answer is always there. */
  function PartOne(lines: seq<string>): (r: Outcome<nat>)
    ensures r.Done? <==> forall i :: 0 <= i < |lines| ==> ParseLine(lines[i]).Done?
  {
    var p := FromLines(lines);
    if p.Panic? then Panic else Done(TotalDistance(p.value))
  }

  /** `part_two`: the similarity score, failing on the same inputs as part one. */
  function PartTwo(lines: seq<string>): (r: Outcome<int>)
    ensures r.Done? <==> PartOne(lines).Done?
    ensures r.Done? ==> r.value == Similarity(FromLines(lines).value.left, FromLines(lines).value.right)
  {
    var p := FromLines(lines);
    if p.Panic? then Panic
    else
      Done(SimilarityScore(p.value))
  }
}
