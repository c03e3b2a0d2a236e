/**
  Print Queue (2024 day 5): page-ordering rules `l|r` say page `l` is
  printed before page `r`. Part one sums the middle pages of the updates
  that already follow the rules; part two sorts the others by the rules
  and sums their middle pages.
*/
module PrintQueue {
  import opened Wrappers
  import Sorting
  import Text

  /** `Page = usize`. */
  type Page = nat

  /** For each page `l`, the pages some rule prints after it. */
  type Rules = map<Page, set<Page>>

  /** `SafetyManual`. */
  datatype Manual = Manual(rules: Rules, updates: seq<seq<Page>>)

  /** `str::parse::<usize>` on a 64-bit target. */
  function ParsePage(s: string): Option<Page>
  {
    Text.ParseUnsigned(s, Text.U64)
  }

  // ---------------------------------------------------------------------
  // Rules

  /** One rule line `l|r`, split at its first `|`; a missing `|` or a page that does not parse fails (an `expect`). */
  function ParseRule(line: string): (r: Option<(Page, Page)>)
    ensures '|' !in line ==> r.None?
    ensures r.Some? ==> exists l, x :: line == l + "|" + x && '|' !in l && ParsePage(l) == Some(r.value.0) && ParsePage(x) == Some(r.value.1)
  {
    var once := Text.SplitOnce(line, "|");
    if once.None? then None
    else
      var (l, x) := once.value;
      assert line[|l|] == '|';
      assert '|' !in l by {
        forall i | 0 <= i < |l| ensures l[i] != '|' {
          assert !Text.OccursAt(line, "|", i);
          assert line[i..i + 1] == [l[i]];
        }
      }
      var lp, xp := ParsePage(l), ParsePage(x);
      if lp.None? || xp.None? then None else Some((lp.value, xp.value))
  }

  /** `page` is printed after `l` by some rule. */
  predicate Follows(rules: Rules, l: Page, page: Page)
  {
    l in rules && page in rules[l]
  }

  /** Every page with an entry has at least one page after it. */
  predicate NoEmptyEntry(rules: Rules)
  {
    forall l :: l in rules ==> rules[l] != {}
  }

  /** `rules.entry(l).or_default().insert(x)`. */
  function AddRule(rules: Rules, l: Page, x: Page): (r: Rules)
    ensures forall a: Page, b: Page :: Follows(r, a, b) <==> Follows(rules, a, b) || (a == l && b == x)
    ensures NoEmptyEntry(rules) ==> NoEmptyEntry(r)
  {
    rules[l := (if l in rules then rules[l] else {}) + {x}]
  }

  /** Adding a rule a second time changes nothing. */
  lemma AddRuleIdempotent(rules: Rules, l: Page, x: Page)
    ensures AddRule(AddRule(rules, l, x), l, x) == AddRule(rules, l, x)
  {
  }

  /** Some line of `lines` is the rule `l|x`. */
  predicate HasRule(lines: seq<string>, l: Page, x: Page)
  {
    exists i :: 0 <= i < |lines| && ParseRule(lines[i]) == Some((l, x))
  }

  /** Every line is a rule. */
  predicate AllRules(lines: seq<string>)
  {
    forall i :: 0 <= i < |lines| ==> ParseRule(lines[i]).Some?
  }

  /** The `for_each` over the parsed rules, each added in turn. */
  function Build(ps: seq<(Page, Page)>): (r: Rules)
    ensures NoEmptyEntry(r)
  {
    if |ps| == 0 then map[] else AddRule(Build(ps[..|ps| - 1]), ps[|ps| - 1].0, ps[|ps| - 1].1)
  }

  /** The built map records exactly the rules it was given. */
  lemma {:induction false} BuildFollows(ps: seq<(Page, Page)>, a: Page, b: Page)
    ensures Follows(Build(ps), a, b) <==> (a, b) in ps
  {
    if |ps| > 0 {
      var init := ps[..|ps| - 1];
      BuildFollows(init, a, b);
      assert ps == init + [ps[|ps| - 1]];
    }
  }

  /** The rules section; any bad line panics. */
  function RulesOf(lines: seq<string>): (r: Outcome<Rules>)
    ensures r.Done? <==> AllRules(lines)
    ensures r.Done? ==> NoEmptyEntry(r.value)
  {
    var ps := Collect(lines, ParseRule);
    if ps.None? then Panic else Done(Build(ps.value))
  }

  /** The parsed rules say `b` follows `a` exactly when some line says so. */
  lemma RulesOfFollows(lines: seq<string>, a: Page, b: Page)
    requires RulesOf(lines).Done?
    ensures Follows(RulesOf(lines).value, a, b) <==> HasRule(lines, a, b)
  {
    var ps := Collect(lines, ParseRule).value;
    BuildFollows(ps, a, b);
    if (a, b) in ps {
      var i :| 0 <= i < |ps| && ps[i] == (a, b);
      assert ParseRule(lines[i]) == Some((a, b));
    }
  }

  /** Repeating a rule anywhere in the section changes nothing. */
  lemma RepeatedRule(ps: seq<(Page, Page)>, i: nat)
    requires i < |ps|
    ensures Build(ps + [ps[i]]) == Build(ps)
  {
    var (l, x) := ps[i];
    var qs := ps + [ps[i]];
    assert qs[..|qs| - 1] == ps && qs[|qs| - 1] == (l, x);
    var m := Build(ps);
    assert Build(qs) == AddRule(m, l, x);
    BuildFollows(ps, l, x);
    AddRulePresent(m, l, x);
  }

  /** Adding a rule the map already has changes nothing. */
  lemma AddRulePresent(rules: Rules, l: Page, x: Page)
    requires Follows(rules, l, x)
    ensures AddRule(rules, l, x) == rules
  {
    assert rules[l] + {x} == rules[l];
  }

  // ---------------------------------------------------------------------
  // Updates

  /** Every piece parses as a page. */
  predicate AllPages(parts: seq<string>)
  {
    forall i :: 0 <= i < |parts| ==> ParsePage(parts[i]).Some?
  }

  /** One update line: comma-separated pages; an empty piece or a bad page fails (an `expect`). */
  function ParseUpdate(line: string): (r: Option<seq<Page>>)
    ensures r.Some? <==> AllPages(Text.Split(line, ","))
    ensures r.Some? ==> |r.value| == |Text.Split(line, ",")| > 0
    ensures r.Some? ==> forall i :: 0 <= i < |r.value| ==> ParsePage(Text.Split(line, ",")[i]) == Some(r.value[i])
  {
    Collect(Text.Split(line, ","), ParsePage)
  }

  /** Every line is an update. */
  predicate AllUpdates(lines: seq<string>)
  {
    forall i :: 0 <= i < |lines| ==> ParseUpdate(lines[i]).Some?
  }

  /** The updates section, one update per line; any bad line panics. */
  function UpdatesOf(lines: seq<string>): (r: Outcome<seq<seq<Page>>>)
    ensures r.Done? <==> AllUpdates(lines)
    ensures r.Done? ==> |r.value| == |lines|
    ensures r.Done? ==> forall i :: 0 <= i < |lines| ==> ParseUpdate(lines[i]) == Some(r.value[i])
    ensures r.Done? ==> forall i :: 0 <= i < |r.value| ==> |r.value[i]| > 0
  {
    var us := Collect(lines, ParseUpdate);
    if us.None? then Panic else Done(us.value)
  }

  /** `SafetyManual::from_str`, given the lines before and after the blank line. */
  function FromSections(ruleLines: seq<string>, updateLines: seq<string>): (r: Outcome<Manual>)
    ensures r.Done? <==> RulesOf(ruleLines).Done? && UpdatesOf(updateLines).Done?
    ensures r.Done? ==> r.value.rules == RulesOf(ruleLines).value && r.value.updates == UpdatesOf(updateLines).value
  {
    var rules, updates := RulesOf(ruleLines), UpdatesOf(updateLines);
    if rules.Panic? || updates.Panic? then Panic else Done(Manual(rules.value, updates.value))
  }

  // ---------------------------------------------------------------------
  // Ordering

  /** `ordered_update`: each page and the next one are joined by an explicit rule. */
  function OrderedUpdate(rules: Rules, upd: seq<Page>): (r: bool)
    ensures r <==> forall i :: 0 <= i < |upd| - 1 ==> Follows(rules, upd[i], upd[i + 1])
    ensures |upd| <= 1 ==> r
  {
    if |upd| < 2 then true
    else
      assert forall i :: 1 <= i < |upd| - 1 ==> upd[1..][i - 1] == upd[i] && upd[1..][i] == upd[i + 1];
      Follows(rules, upd[0], upd[1]) && OrderedUpdate(rules, upd[1..])
  }

  /** `middle_page_number`: `pages[len / 2]`, which panics on an empty update. */
  function MiddlePage(pages: seq<Page>): (r: Outcome<Page>)
    ensures r.Panic? <==> |pages| == 0
    ensures r.Done? ==> exists i :: 0 <= i < |pages| && pages[i] == r.value && (|pages| - 1 - i == i || |pages| - 1 - i == i - 1)
  {
    if |pages| == 0 then Panic else Done(pages[|pages| / 2])
  }

  datatype Ordering = Less | Equal | Greater

  /** The comparator of `sort_pages`. */
  function Compare(rules: Rules, a: Page, b: Page): (o: Ordering)
    ensures o == Less <==> Follows(rules, a, b)
    ensures o == Greater <==> a in rules && !Follows(rules, a, b)
    ensures o == Equal <==> a !in rules
  {
    if a !in rules then Equal else if b in rules[a] then Less else Greater
  }

  /** `b` may not precede `a` unless the comparator puts `a` first: the order a stable sort keeps. */
  function NotAfter(rules: Rules): (Page, Page) -> bool
  {
    (a: Page, b: Page) => Compare(rules, b, a) != Less
  }

  /** `sort_pages`: the update reordered by the comparator. */
  function SortPages(rules: Rules, pages: seq<Page>): (s: seq<Page>)
    ensures multiset(s) == multiset(pages) && |s| == |pages|
  {
    var s := Sorting.InsertionSort(pages, NotAfter(rules));
    assert |s| == |multiset(s)| == |multiset(pages)| == |pages|;
    s
  }

  /** No page appears twice. */
  predicate Distinct(pages: seq<Page>)
  {
    forall i, j :: 0 <= i < j < |pages| ==> pages[i] != pages[j]
  }

  /** The rules order the pages of `pages` strictly and totally. */
  ghost predicate StrictTotalOn(rules: Rules, pages: seq<Page>)
  {
    && (forall a, b :: a in pages && b in pages && Follows(rules, a, b) ==> !Follows(rules, b, a))
    && (forall a, b :: a in pages && b in pages && a != b ==> Follows(rules, a, b) || Follows(rules, b, a))
    && (forall a, b, c :: a in pages && b in pages && c in pages && Follows(rules, a, b) && Follows(rules, b, c) ==> Follows(rules, a, c))
  }

  /**
    When the rules order an update's distinct pages strictly and totally,
    sorting it yields an ordered update: the fix part two relies on.
  */
  lemma SortOrders(rules: Rules, pages: seq<Page>)
    requires Distinct(pages) && StrictTotalOn(rules, pages)
    ensures OrderedUpdate(rules, SortPages(rules, pages))
  {
    var le := NotAfter(rules);
    assert Sorting.TotalPreorderOn(le, pages) by {
      forall a, b, c | a in pages && b in pages && c in pages && le(a, b) && le(b, c) ensures le(a, c) {
        if a != b && b != c {
          assert Follows(rules, a, b) && Follows(rules, b, c);
        }
      }
    }
    Sorting.SortIsSorted(pages, le);
    var s := SortPages(rules, pages);
    DistinctPermutation(pages, s);
    forall i | 0 <= i < |s| - 1 ensures Follows(rules, s[i], s[i + 1]) {
      assert le(s[i], s[i + 1]);
      assert s[i] in multiset(pages) && s[i + 1] in multiset(pages);
    }
  }

  /** A reordering of distinct pages has distinct pages. */
  lemma DistinctPermutation(a: seq<Page>, b: seq<Page>)
    requires Distinct(a) && multiset(a) == multiset(b)
    ensures Distinct(b)
  {
    forall v ensures multiset(a)[v] <= 1 {
      DistinctCount(a, v);
    }
    CountDistinct(b);
  }

  lemma {:induction false} DistinctCount(a: seq<Page>, v: Page)
    requires Distinct(a)
    ensures multiset(a)[v] <= 1
  {
    if |a| > 0 {
      assert a == [a[0]] + a[1..];
      DistinctCount(a[1..], v);
      if a[0] == v {
        assert v !in a[1..];
      }
    }
  }

  lemma {:induction false} CountDistinct(s: seq<Page>)
    requires forall v :: multiset(s)[v] <= 1
    ensures Distinct(s)
  {
    if |s| > 0 {
      assert s == [s[0]] + s[1..];
      assert forall v :: multiset(s[1..])[v] <= multiset(s)[v];
      assert multiset(s[1..])[s[0]] == 0;
      CountDistinct(s[1..]);
      assert forall j :: 1 <= j < |s| ==> s[1..][j - 1] == s[j] && s[j] in multiset(s[1..]);
    }
  }

  // ---------------------------------------------------------------------
  // The puzzle

  /** The updates the rules already order, in input order. */
  function Ordered(rules: Rules, us: seq<seq<Page>>): (r: seq<seq<Page>>)
    ensures forall u :: u in r <==> u in us && OrderedUpdate(rules, u)
  {
    if |us| == 0 then [] else (if OrderedUpdate(rules, us[0]) then [us[0]] else []) + Ordered(rules, us[1..])
  }

  /** The updates the rules do not order, in input order. */
  function Unordered(rules: Rules, us: seq<seq<Page>>): (r: seq<seq<Page>>)
    ensures forall u :: u in r <==> u in us && !OrderedUpdate(rules, u)
  {
    if |us| == 0 then [] else (if OrderedUpdate(rules, us[0]) then [] else [us[0]]) + Unordered(rules, us[1..])
  }

  /** Every update goes to exactly one of the two parts. */
  lemma {:induction false} Partition(rules: Rules, us: seq<seq<Page>>)
    ensures multiset(Ordered(rules, us)) + multiset(Unordered(rules, us)) == multiset(us)
    ensures |Ordered(rules, us)| + |Unordered(rules, us)| == |us|
  {
    if |us| > 0 {
      var tail := us[1..];
      assert us == [us[0]] + tail;
      Partition(rules, tail);
      SplitStep(rules, us);
      PartitionStep(us[0], tail, Ordered(rules, tail), Unordered(rules, tail),
        Ordered(rules, us), Unordered(rules, us), OrderedUpdate(rules, us[0]));
    }
  }

  /** The first update goes to the ordered part exactly when the rules order it. */
  lemma SplitStep(rules: Rules, us: seq<seq<Page>>)
    requires |us| > 0
    ensures OrderedUpdate(rules, us[0]) ==>
      Ordered(rules, us) == [us[0]] + Ordered(rules, us[1..]) && Unordered(rules, us) == Unordered(rules, us[1..])
    ensures !OrderedUpdate(rules, us[0]) ==>
      Ordered(rules, us) == Ordered(rules, us[1..]) && Unordered(rules, us) == [us[0]] + Unordered(rules, us[1..])
  {
  }

  /** Sending `x` to one side keeps a split of `tail` a split of `[x] + tail`. */
  lemma PartitionStep<T>(x: T, tail: seq<T>, left: seq<T>, right: seq<T>, left': seq<T>, right': seq<T>, toLeft: bool)
    requires multiset(left) + multiset(right) == multiset(tail) && |left| + |right| == |tail|
    requires toLeft ==> left' == [x] + left && right' == right
    requires !toLeft ==> left' == left && right' == [x] + right
    ensures multiset(left') + multiset(right') == multiset([x] + tail)
    ensures |left'| + |right'| == |tail| + 1
  {
  }

  /** The sum of the middle pages, or a panic at an empty update. */
  function SumMiddles(us: seq<seq<Page>>): (r: Outcome<nat>)
    ensures r.Panic? <==> exists i :: 0 <= i < |us| && |us[i]| == 0
  {
    if |us| == 0 then Done(0)
    else
      assert forall i :: 1 <= i < |us| ==> us[1..][i - 1] == us[i];
      var m, rest := MiddlePage(us[0]), SumMiddles(us[1..]);
      if m.Panic? || rest.Panic? then Panic else Done(m.value + rest.value)
  }

  /** Every update `sort_pages`d. */
  function SortAll(rules: Rules, us: seq<seq<Page>>): (r: seq<seq<Page>>)
    ensures |r| == |us|
    ensures forall i :: 0 <= i < |us| ==> r[i] == SortPages(rules, us[i])
  {
    if |us| == 0 then [] else [SortPages(rules, us[0])] + SortAll(rules, us[1..])
  }

  /** `part_one`: it fails only when the input does not parse. */
  function PartOne(ruleLines: seq<string>, updateLines: seq<string>): (r: Outcome<nat>)
    ensures r.Done? <==> FromSections(ruleLines, updateLines).Done?
  {
    var sm := FromSections(ruleLines, updateLines);
    if sm.Panic? then Panic
    else
      var us := Ordered(sm.value.rules, sm.value.updates);
      assert forall i :: 0 <= i < |us| ==> us[i] in sm.value.updates;
      SumMiddles(us)
  }

  /** `part_two`: sorting keeps every update non-empty, so it fails only when the input does not parse. */
  function PartTwo(ruleLines: seq<string>, updateLines: seq<string>): (r: Outcome<nat>)
    ensures r.Done? <==> FromSections(ruleLines, updateLines).Done?
  {
    var sm := FromSections(ruleLines, updateLines);
    if sm.Panic? then Panic
    else
      var sorted := SortAll(sm.value.rules, Unordered(sm.value.rules, sm.value.updates));
      SortedUnorderedNonEmpty(sm.value.rules, sm.value.updates);
      SumMiddles(sorted)
  }

  /** Picking out the unordered updates and sorting each keeps every one of them non-empty. */
  lemma SortedUnorderedNonEmpty(rules: Rules, us: seq<seq<Page>>)
    requires forall i :: 0 <= i < |us| ==> |us[i]| > 0
    ensures forall i :: 0 <= i < |SortAll(rules, Unordered(rules, us))| ==> |SortAll(rules, Unordered(rules, us))[i]| > 0
  {
    var un := Unordered(rules, us);
    forall i | 0 <= i < |un| ensures |SortAll(rules, un)[i]| > 0 {
      assert un[i] in us;
    }
  }

  // ---------------------------------------------------------------------
  // Example

  /** With the single rule `47|53`, `53,47` is out of order and sorts to `47,53`. */
  lemma SwapFixed(rules: Rules)
    requires rules == map[47 := {53}]
    ensures OrderedUpdate(rules, [47, 53]) && !OrderedUpdate(rules, [53, 47])
    ensures SortPages(rules, [53, 47]) == [47, 53]
  {
    var le := NotAfter(rules);
    var one: seq<Page> := [47];
    assert Sorting.InsertionSort(one, le) == one;
    assert !le(53, 47);
  }
}
