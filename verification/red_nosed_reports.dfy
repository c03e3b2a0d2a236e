/**
  Red-Nosed Reports (2024 day 2): a report of levels is safe when it only
  rises or only falls, by 1 to 3 at each step. The problem dampener lets
  a report drop one bad level.
*/
module RedNosedReports {
  import opened Wrappers
  import Text

  // ---------------------------------------------------------------------
  // What safety means

  // Window `i` is the pair of neighbouring levels `ls[i]`, `ls[i + 1]`.

  /** Window `i` steps by 1, 2 or 3. */
  predicate StepOk(ls: seq<int>, i: nat)
    requires i + 1 < |ls|
  {
    1 <= Abs(ls[i + 1] - ls[i]) <= 3
  }

  predicate Rises(ls: seq<int>, i: nat)
    requires i + 1 < |ls|
  {
    ls[i] < ls[i + 1]
  }

  predicate Falls(ls: seq<int>, i: nat)
    requires i + 1 < |ls|
  {
    ls[i] > ls[i + 1]
  }

  /** The first `n` windows all step by 1 to 3 and all rise or all fall. */
  ghost predicate SafeWindows(ls: seq<int>, n: nat)
    requires n == 0 || n < |ls|
  {
    && (forall i: nat :: i < n ==> StepOk(ls, i))
    && ((forall i: nat :: i < n ==> Rises(ls, i)) || (forall i: nat :: i < n ==> Falls(ls, i)))
  }

  /** The number of windows. */
  function Windows(ls: seq<int>): nat
  {
    if |ls| == 0 then 0 else |ls| - 1
  }

  /** The puzzle's rule for a safe report: every window; fewer than two levels are safe. */
  ghost predicate Safe(ls: seq<int>)
  {
    SafeWindows(ls, Windows(ls))
  }

  /** The report with level `p` removed: `Vec::remove` on a clone. */
  function Remove(ls: seq<int>, p: nat): (r: seq<int>)
    requires p < |ls|
    ensures |r| == |ls| - 1
    ensures forall i :: 0 <= i < |r| ==> r[i] == if i < p then ls[i] else ls[i + 1]
  {
    ls[..p] + ls[p + 1..]
  }

  lemma SafeWindowsPrefix(ls: seq<int>, m: nat, n: nat)
    requires m <= n && (n == 0 || n < |ls|) && SafeWindows(ls, n)
    ensures SafeWindows(ls, m)
  {
  }

  // ---------------------------------------------------------------------
  // The scan shared by `is_safe` and `dampened_is_safe`

  datatype Ordering = Less | Equal | Greater

  function Cmp(a: int, b: int): Ordering
  {
    if a < b then Less else if a > b then Greater else Equal
  }

  /** A change of direction from `ord` to `next`. */
  predicate Turns(ord: Ordering, next: Ordering)
  {
    (ord == Greater && next == Less) || (ord == Less && next == Greater)
  }

  /**
    The windows from `k` on, with `ord` the order of the previous window
    (`Equal` before the first): the index of the first window that turns
    or whose step is outside 1..=3.
  */
  function Scan(ls: seq<int>, k: nat, ord: Ordering): (r: Option<nat>)
    ensures r.Some? ==> k <= r.value && r.value + 1 < |ls|
    decreases |ls| - k
  {
    if k + 1 >= |ls| then None
    else
      var next := Cmp(ls[k], ls[k + 1]);
      if Turns(ord, next) || !StepOk(ls, k) then Some(k)
      else Scan(ls, k + 1, next)
  }

  /** The first window at which the loop returns, or `None` when it runs to the end. */
  function FirstBad(ls: seq<int>): (r: Option<nat>)
    ensures r.None? <==> Safe(ls)
    ensures r.Some? ==> r.value + 1 < |ls| && SafeWindows(ls, r.value) && !SafeWindows(ls, r.value + 1)
  {
    ScanSound(ls, 0, Equal);
    Scan(ls, 0, Equal)
  }

  /** The scan from `k` stops at exactly the first window that breaks safety. */
  lemma {:induction false} ScanSound(ls: seq<int>, k: nat, ord: Ordering)
    requires k == 0 ==> ord == Equal
    requires k > 0 ==> k < |ls| && ord == Cmp(ls[k - 1], ls[k]) && SafeWindows(ls, k)
    ensures Scan(ls, k, ord).None? <==> Safe(ls)
    ensures Scan(ls, k, ord).Some? ==> SafeWindows(ls, Scan(ls, k, ord).value) && !SafeWindows(ls, Scan(ls, k, ord).value + 1)
    decreases |ls| - k
  {
    if k + 1 < |ls| {
      var next := Cmp(ls[k], ls[k + 1]);
      if Turns(ord, next) || !StepOk(ls, k) {
        BadWindow(ls, k, ord);
        if Safe(ls) {
          SafeWindowsPrefix(ls, k + 1, Windows(ls));
        }
      } else {
        GoodWindow(ls, k, ord);
        ScanSound(ls, k + 1, next);
      }
    }
  }

  /** A window that turns or steps badly breaks safety. */
  lemma BadWindow(ls: seq<int>, k: nat, ord: Ordering)
    requires k + 1 < |ls|
    requires k == 0 ==> ord == Equal
    requires k > 0 ==> ord == Cmp(ls[k - 1], ls[k])
    requires Turns(ord, Cmp(ls[k], ls[k + 1])) || !StepOk(ls, k)
    ensures !SafeWindows(ls, k + 1)
  {
    if Turns(ord, Cmp(ls[k], ls[k + 1])) {
      if ord == Greater {
        assert Falls(ls, k - 1) && !Rises(ls, k - 1) && Rises(ls, k) && !Falls(ls, k);
      } else {
        assert Rises(ls, k - 1) && !Falls(ls, k - 1) && Falls(ls, k) && !Rises(ls, k);
      }
    } else {
      assert !StepOk(ls, k);
    }
  }

  /** A window that keeps the direction of the one before and steps by 1 to 3 extends safety. */
  lemma GoodWindow(ls: seq<int>, k: nat, ord: Ordering)
    requires k + 1 < |ls|
    requires k == 0 ==> ord == Equal
    requires k > 0 ==> ord == Cmp(ls[k - 1], ls[k]) && SafeWindows(ls, k)
    requires !Turns(ord, Cmp(ls[k], ls[k + 1])) && StepOk(ls, k)
    ensures SafeWindows(ls, k + 1)
  {
    if k == 0 {
      assert Rises(ls, 0) || Falls(ls, 0);
    } else {
      assert StepOk(ls, k - 1);
      if ord == Less {
        assert Rises(ls, k - 1) && !Falls(ls, k - 1) && Rises(ls, k);
      } else {
        assert Falls(ls, k - 1) && !Rises(ls, k - 1) && Falls(ls, k);
      }
    }
  }

  /** `is_safe`: the scan finds no bad window. */
  function IsSafe(ls: seq<int>): (r: bool)
    ensures r <==> Safe(ls)
    ensures |ls| < 2 ==> r
  {
    FirstBad(ls).None?
  }

  // ---------------------------------------------------------------------
  // The problem dampener

  /** Some single level can be removed to leave a safe report. */
  ghost predicate SafeAfterRemoval(ls: seq<int>)
  {
    exists p :: 0 <= p < |ls| && Safe(Remove(ls, p))
  }

  /**
    `dampened_is_safe` as written: at the first bad window `(i, i + 1)`
    only those two levels are tried (`possible_parts_safety`).
  */
  function DampenedAsWritten(ls: seq<int>): (r: bool)
    ensures Safe(ls) ==> r
    ensures !Safe(ls) ==> (r <==> exists p :: p in {FirstBad(ls).value, FirstBad(ls).value + 1} && Safe(Remove(ls, p)))
  {
    match FirstBad(ls)
    case None => true
    case Some(i) => IsSafe(Remove(ls, i)) || IsSafe(Remove(ls, i + 1))
  }

  /** Whether any removal from `p` on leaves a safe report. */
  function AnyRemovalFrom(ls: seq<int>, p: nat): (r: bool)
    ensures r <==> exists q :: p <= q < |ls| && Safe(Remove(ls, q))
    decreases |ls| - p
  {
    if p >= |ls| then false else IsSafe(Remove(ls, p)) || AnyRemovalFrom(ls, p + 1)
  }

  /** The dampener as the puzzle states it: safe, or safe once any one level is gone. */
  function Dampened(ls: seq<int>): (r: bool)
    ensures r <==> Safe(ls) || SafeAfterRemoval(ls)
  {
    IsSafe(ls) || AnyRemovalFrom(ls, 0)
  }

  /** A safe report stays safe under the dampener, as written and corrected. */
  lemma SafeIsDampened(ls: seq<int>)
    requires Safe(ls)
    ensures DampenedAsWritten(ls) && Dampened(ls)
  {
  }

  /** The code as written never calls an unsafe report safe. */
  lemma AsWrittenSound(ls: seq<int>)
    requires DampenedAsWritten(ls)
    ensures Dampened(ls)
  {
    if !Safe(ls) {
      var i := FirstBad(ls).value;
      if Safe(Remove(ls, i)) {
        assert 0 <= i < |ls| && Safe(Remove(ls, i));
      } else {
        assert 0 <= i + 1 < |ls| && Safe(Remove(ls, i + 1));
      }
    }
  }

  /**
    `[3, 2, 3, 4, 5]` first turns at the window `(2, 3)`; dropping either
    of those levels leaves an unsafe report, but dropping the first level
    leaves `[2, 3, 4, 5]`, which is safe.
  */
  lemma DampenerMissesEarlierLevel()
    ensures !DampenedAsWritten([3, 2, 3, 4, 5]) && Dampened([3, 2, 3, 4, 5])
  {
    DampenerExample([3, 2, 3, 4, 5]);
  }

  lemma DampenerExample(ls: seq<int>)
    requires ls == [3, 2, 3, 4, 5]
    ensures !DampenedAsWritten(ls) && Dampened(ls)
  {
    FirstBadExample(ls);
    RemovalsExample(ls);
    assert DampenedAsWritten(ls) == (IsSafe(Remove(ls, 1)) || IsSafe(Remove(ls, 2)));
    assert AnyRemovalFrom(ls, 0);
  }

  lemma FirstBadExample(ls: seq<int>)
    requires ls == [3, 2, 3, 4, 5]
    ensures FirstBad(ls) == Some(1)
  {
    assert Scan(ls, 1, Greater) == Some(1);
  }

  lemma RemovalsExample(ls: seq<int>)
    requires ls == [3, 2, 3, 4, 5]
    ensures !Safe(Remove(ls, 1)) && !Safe(Remove(ls, 2)) && Safe(Remove(ls, 0))
  {
    FlatUnsafe(Remove(ls, 1));
    TurnUnsafe(Remove(ls, 2));
    RisingSafe(Remove(ls, 0));
  }

  lemma FlatUnsafe(a: seq<int>)
    requires a == [3, 3, 4, 5]
    ensures !Safe(a)
  {
    assert !StepOk(a, 0);
  }

  lemma TurnUnsafe(b: seq<int>)
    requires b == [3, 2, 4, 5]
    ensures !Safe(b)
  {
    assert Falls(b, 0) && !Rises(b, 0) && Rises(b, 1) && !Falls(b, 1);
  }

  lemma RisingSafe(c: seq<int>)
    requires c == [2, 3, 4, 5]
    ensures Safe(c)
  {
    assert StepOk(c, 0) && StepOk(c, 1) && StepOk(c, 2);
    assert Rises(c, 0) && Rises(c, 1) && Rises(c, 2);
  }

  // ---------------------------------------------------------------------
  // The puzzle

  function ParseLevel(w: string): Option<int>
  {
    Text.ParseSigned(w, Text.I32)
  }

  /** Every word is an `i32`. */
  predicate AllLevels(ws: seq<string>)
  {
    forall k :: 0 <= k < |ws| ==> ParseLevel(ws[k]).Some?
  }

  /** `Report::from_str`: every word an `i32`; the first that is not panics. */
  function ParseReport(line: string): (r: Outcome<seq<int>>)
    ensures r.Done? <==> AllLevels(Text.Words(line))
    ensures r.Done? ==> |r.value| == |Text.Words(line)|
    ensures r.Done? ==> forall k :: 0 <= k < |r.value| ==> ParseLevel(Text.Words(line)[k]) == Some(r.value[k])
  {
    var ls := Collect(Text.Words(line), ParseLevel);
    if ls.None? then Panic else Done(ls.value)
  }

  /** A report written out with single spaces reads back as exactly its values. */
  lemma ParseShownReport(vs: seq<int>)
    requires forall k :: 0 <= k < |vs| ==> -(Text.I32 as int) <= vs[k] < Text.I32
    ensures ParseReport(Text.Join(Text.ShowAll(vs), " ")) == Done(vs)
  {
    var line := Text.Join(Text.ShowAll(vs), " ");
    Text.WordsOfShown(vs);
    forall k | 0 <= k < |vs| ensures ParseLevel(Text.Words(line)[k]) == Some(vs[k]) {
      Text.ParseShowInt(vs[k], Text.I32);
    }
    var r := ParseReport(line);
    assert r.Done?;
    assert r.value == vs;
  }

  /** Every line is a report. */
  predicate AllReports(lines: seq<string>)
  {
    forall k :: 0 <= k < |lines| ==> ParseReport(lines[k]).Done?
  }

  /** Which check a report must pass: plain safety, the dampener as written, or the corrected dampener. */
  datatype Check = Plain | AsWritten | Corrected

  function Passes(c: Check, ls: seq<int>): bool
  {
    match c
    case Plain => IsSafe(ls)
    case AsWritten => DampenedAsWritten(ls)
    case Corrected => Dampened(ls)
  }

  /** The reports that pass check `c`, counted; a line that is not a report panics. */
  function CountSafe(lines: seq<string>, c: Check): (r: Outcome<nat>)
    ensures r.Done? <==> AllReports(lines)
    ensures r.Done? ==> r.value <= |lines|
  {
    if |lines| == 0 then Done(0)
    else
      assert forall k :: 1 <= k < |lines| ==> lines[1..][k - 1] == lines[k];
      var rep, rest := ParseReport(lines[0]), CountSafe(lines[1..], c);
      if rep.Panic? || rest.Panic? then Panic
      else Done((if Passes(c, rep.value) then 1 else 0) + rest.value)
  }

  /** The positions of the lines whose report passes check `c`. */
  ghost function Passing(lines: seq<string>, c: Check): set<nat>
    requires AllReports(lines)
  {
    set i: nat | i < |lines| && Passes(c, ParseReport(lines[i]).value)
  }

  /** Each line's verdict under check `c`, in order. */
  function Verdicts(lines: seq<string>, c: Check): (vs: seq<bool>)
    requires AllReports(lines)
    ensures |vs| == |lines|
  {
    if |lines| == 0 then []
    else
      assert forall k :: 1 <= k < |lines| ==> lines[1..][k - 1] == lines[k];
      [Passes(c, ParseReport(lines[0]).value)] + Verdicts(lines[1..], c)
  }

  /** Each verdict is that line's. */
  lemma {:induction false} VerdictAt(lines: seq<string>, c: Check, i: nat)
    requires AllReports(lines) && i < |lines|
    ensures Verdicts(lines, c)[i] == Passes(c, ParseReport(lines[i]).value)
    decreases i
  {
    if i > 0 {
      assert forall k :: 1 <= k < |lines| ==> lines[1..][k - 1] == lines[k];
      VerdictAt(lines[1..], c, i - 1);
    }
  }

  /** The number of `true` verdicts, counted from the back. */
  function Trues(vs: seq<bool>): nat
  {
    if |vs| == 0 then 0 else Trues(vs[..|vs| - 1]) + (if vs[|vs| - 1] then 1 else 0)
  }

  /** Counting from the front gives the same. */
  lemma {:induction false} TruesCons(vs: seq<bool>)
    requires |vs| > 0
    ensures Trues(vs) == (if vs[0] then 1 else 0) + Trues(vs[1..])
    decreases |vs|
  {
    if |vs| > 1 {
      TruesCons(vs[..|vs| - 1]);
      assert vs[..|vs| - 1][1..] == vs[1..][..|vs| - 2];
    }
  }

  /** The count of `true` verdicts is the number of positions holding one. */
  lemma {:induction false} TruesSet(vs: seq<bool>)
    ensures Trues(vs) == |set i: nat | i < |vs| && vs[i]|
    decreases |vs|
  {
    if |vs| > 0 {
      var n := |vs| - 1;
      var init := vs[..n];
      TruesSet(init);
      var before := set i: nat | i < |init| && init[i];
      if vs[n] {
        assert (set i: nat | i < |vs| && vs[i]) == before + {n};
      } else {
        assert (set i: nat | i < |vs| && vs[i]) == before;
      }
    }
  }

  /** One round of `CountSafe`: the first line's verdict, then the rest. */
  lemma CountSafeCons(lines: seq<string>, c: Check)
    requires |lines| > 0 && AllReports(lines)
    ensures AllReports(lines[1..])
    ensures CountSafe(lines, c).value == (if Passes(c, ParseReport(lines[0]).value) then 1 else 0) + CountSafe(lines[1..], c).value
  {
    assert forall k :: 1 <= k < |lines| ==> lines[1..][k - 1] == lines[k];
  }

  /** The count of passing reports is the number of `true` verdicts. */
  lemma {:induction false} CountSafeTrues(lines: seq<string>, c: Check)
    requires AllReports(lines)
    ensures CountSafe(lines, c).value == Trues(Verdicts(lines, c))
    decreases |lines|
  {
    if |lines| > 0 {
      var vs := Verdicts(lines, c);
      CountSafeCons(lines, c);
      CountSafeTrues(lines[1..], c);
      assert vs[1..] == Verdicts(lines[1..], c);
      TruesCons(vs);
    }
  }

  /** The count is the number of lines whose report passes. */
  lemma CountSafeCounts(lines: seq<string>, c: Check)
    requires AllReports(lines)
    ensures CountSafe(lines, c).value == |Passing(lines, c)|
  {
    CountSafeTrues(lines, c);
    TruesSet(Verdicts(lines, c));
    PassingVerdicts(lines, c);
  }

  /** The passing lines are the positions of the `true` verdicts. */
  lemma PassingVerdicts(lines: seq<string>, c: Check)
    requires AllReports(lines)
    ensures var vs := Verdicts(lines, c); Passing(lines, c) == set i: nat | i < |vs| && vs[i]
  {
    var vs := Verdicts(lines, c);
    forall i | 0 <= i < |lines| ensures vs[i] == Passes(c, ParseReport(lines[i]).value) {
      VerdictAt(lines, c, i);
    }
  }

  /** `part_one`: the safe reports. */
  function PartOne(lines: seq<string>): (r: Outcome<nat>)
    ensures r.Done? <==> AllReports(lines)
    ensures r.Done? ==> r.value == |Passing(lines, Plain)|
  {
    if AllReports(lines) then CountSafeCounts(lines, Plain); CountSafe(lines, Plain) else CountSafe(lines, Plain)
  }

  /** `part_two` as written: the reports the as-written dampener accepts. */
  function PartTwoAsWritten(lines: seq<string>): (r: Outcome<nat>)
    ensures r.Done? <==> AllReports(lines)
    ensures r.Done? ==> r.value == |Passing(lines, AsWritten)|
  {
    if AllReports(lines) then CountSafeCounts(lines, AsWritten); CountSafe(lines, AsWritten) else CountSafe(lines, AsWritten)
  }

  /** `part_two` with the corrected dampener: the reports safe after removing at most one level. */
  function PartTwo(lines: seq<string>): (r: Outcome<nat>)
    ensures r.Done? <==> AllReports(lines)
    ensures r.Done? ==> r.value == |Passing(lines, Corrected)|
  {
    if AllReports(lines) then CountSafeCounts(lines, Corrected); CountSafe(lines, Corrected) else CountSafe(lines, Corrected)
  }

  /** A check that accepts everything `a` accepts counts at least as many reports. */
  lemma {:induction false} CountMonotone(lines: seq<string>, a: Check, b: Check)
    requires AllReports(lines)
    requires forall ls :: Passes(a, ls) ==> Passes(b, ls)
    ensures CountSafe(lines, a).value <= CountSafe(lines, b).value
  {
    if |lines| > 0 {
      assert forall k :: 1 <= k < |lines| ==> lines[1..][k - 1] == lines[k];
      CountMonotone(lines[1..], a, b);
    }
  }

  /** Safe reports stay accepted by either dampener, and the as-written one accepts only what the corrected one does. */
  lemma PartsOrdered(lines: seq<string>)
    requires AllReports(lines)
    ensures PartOne(lines).value <= PartTwoAsWritten(lines).value <= PartTwo(lines).value
  {
    forall ls ensures Passes(Plain, ls) ==> Passes(AsWritten, ls) {
      if IsSafe(ls) { SafeIsDampened(ls); }
    }
    forall ls ensures Passes(AsWritten, ls) ==> Passes(Corrected, ls) {
      if DampenedAsWritten(ls) { AsWrittenSound(ls); }
    }
    CountMonotone(lines, Plain, AsWritten);
    CountMonotone(lines, AsWritten, Corrected);
  }
}
