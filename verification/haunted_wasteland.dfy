/**
  Haunted Wasteland (2023 day 8): a network of nodes, each with a left
  and a right neighbour, walked by cycling through a list of 'L'/'R'
  instructions; part two combines the walks' lengths by `lcm`.
*/
module HauntedWasteland {
  import opened Wrappers
  import Text

  /** A `{id} = ({left}, {right})` line, as the derived parser captures it. */
  datatype Node = Node(id: string, left: string, right: string)

  datatype Document = Document(instructions: string, nodes: map<string, Node>)

  predicate EndsWith(s: string, c: char) { |s| > 0 && s[|s| - 1] == c }

  // ---------------------------------------------------------------------
  // The document

  /** `collect` into a `HashMap` keyed by id: a later node replaces an earlier one with the same id. */
  function NodeMap(ns: seq<Node>): (m: map<string, Node>)
    ensures forall id :: id in m <==> exists k :: 0 <= k < |ns| && ns[k].id == id
    ensures forall id :: id in m ==> exists k :: 0 <= k < |ns| && ns[k] == m[id] && LastWithId(ns, k)
  {
    if |ns| == 0 then map[]
    else
      var rest := NodeMap(ns[1..]);
      var m := if ns[0].id in rest then rest else rest[ns[0].id := ns[0]];
      NodeMapKeys(ns, ns[1..], rest, m);
      NodeMapLast(ns, ns[1..], rest, m);
      m
  }

  /** Adding the first node's id when it is new gives the ids of all the nodes. */
  lemma NodeMapKeys(ns: seq<Node>, tail: seq<Node>, rest: map<string, Node>, m: map<string, Node>)
    requires |ns| > 0 && tail == ns[1..]
    requires forall id :: id in rest <==> exists k :: 0 <= k < |tail| && tail[k].id == id
    requires m == if ns[0].id in rest then rest else rest[ns[0].id := ns[0]]
    ensures forall id :: id in m <==> exists k :: 0 <= k < |ns| && ns[k].id == id
  {
    forall id | id in m ensures exists k :: 0 <= k < |ns| && ns[k].id == id {
      if id != ns[0].id {
        var k :| 0 <= k < |tail| && tail[k].id == id;
        assert ns[k + 1] == tail[k];
      }
    }
    forall id, k | 0 <= k < |ns| && ns[k].id == id ensures id in m {
      if k > 0 {
        assert tail[k - 1] == ns[k];
      }
    }
  }

  /** Every entry, the first node's included, holds the last node with its id. */
  lemma NodeMapLast(ns: seq<Node>, tail: seq<Node>, rest: map<string, Node>, m: map<string, Node>)
    requires |ns| > 0 && tail == ns[1..]
    requires forall id :: id in rest <==> exists k :: 0 <= k < |tail| && tail[k].id == id
    requires forall id :: id in rest ==> exists k :: 0 <= k < |tail| && tail[k] == rest[id] && LastWithId(tail, k)
    requires m == if ns[0].id in rest then rest else rest[ns[0].id := ns[0]]
    ensures forall id :: id in m ==> exists k :: 0 <= k < |ns| && ns[k] == m[id] && LastWithId(ns, k)
  {
    forall id | id in m ensures exists k :: 0 <= k < |ns| && ns[k] == m[id] && LastWithId(ns, k) {
      if id in rest {
        var k :| 0 <= k < |tail| && tail[k] == rest[id] && LastWithId(tail, k);
        assert m[id] == rest[id];
        assert ns[k + 1] == tail[k];
        forall j | k + 1 < j < |ns| ensures ns[j].id != ns[k + 1].id {
          assert ns[j] == tail[j - 1];
        }
        assert LastWithId(ns, k + 1);
      } else {
        assert id == ns[0].id && m[id] == ns[0];
        forall j | 0 < j < |ns| ensures ns[j].id != ns[0].id {
          assert tail[j - 1] == ns[j];
        }
        assert LastWithId(ns, 0);
      }
    }
  }

  /** `ns[k]` is the last node with its id. */
  predicate LastWithId(ns: seq<Node>, k: nat)
    requires k < |ns|
  {
    forall j :: k < j < |ns| ==> ns[j].id != ns[k].id
  }

  /**
    `Document::from_str`: the instructions are the characters before the
    first blank line (`split_once("\n\n")`, whose `unwrap` panics without
    one); the nodes are the lines after it.
  */
  function MakeDocument(input: string, ns: seq<Node>): (r: Outcome<Document>)
    ensures r.Panic? <==> forall i :: 0 <= i ==> !Text.OccursAt(input, "\n\n", i)
    ensures r.Done? ==> r.value.nodes == NodeMap(ns) && exists rest :: input == r.value.instructions + "\n\n" + rest
    ensures r.Done? ==> forall i :: 0 <= i < |r.value.instructions| ==> !Text.OccursAt(input, "\n\n", i)
  {
    var once := Text.SplitOnce(input, "\n\n");
    if once.None? then Panic else Done(Document(once.value.0, NodeMap(ns)))
  }

  // ---------------------------------------------------------------------
  // gcd and lcm

  /** Euclid's `gcd`: the second argument shrinks at every call. */
  function Gcd(x: nat, y: nat): (g: nat)
    ensures g == 0 <==> x == 0 && y == 0
    decreases y
  {
    if y == 0 then x else Gcd(y, x % y)
  }

  function Times(k: nat, d: nat): nat { k * d }

  /** `d` divides `n`. */
  ghost predicate Divides(d: nat, n: nat)
  {
    exists k: nat :: Times(k, d) == n
  }

  /** `gcd(x, y)` divides both `x` and `y`. */
  lemma {:induction false} GcdDivides(x: nat, y: nat)
    ensures Divides(Gcd(x, y), x) && Divides(Gcd(x, y), y)
    decreases y
  {
    var g := Gcd(x, y);
    if y == 0 {
      assert Times(1, g) == x && Times(0, g) == y;
    } else {
      assert g == Gcd(y, x % y);
      GcdDivides(y, x % y);
      var a: nat :| Times(a, g) == y;
      var b: nat :| Times(b, g) == x % y;
      var k := Combine(x, y, a, b, g);
    }
  }

  /** When `g` divides `y` and `x % y`, it divides `x`: `x = (x / y)·y + x % y`. */
  lemma Combine(x: nat, y: nat, a: nat, b: nat, g: nat) returns (k: nat)
    requires y > 0 && Times(a, g) == y && Times(b, g) == x % y
    ensures Times(k, g) == x
  {
    var q := x / y;
    k := q * a + b;
    calc {
      k * g;
      == q * (a * g) + b * g;
      == q * y + x % y;
      == x;
    }
  }

  /** Every common divisor of `x` and `y` divides `gcd(x, y)`. */
  lemma {:induction false} GcdGreatest(x: nat, y: nat, d: nat)
    requires Divides(d, x) && Divides(d, y)
    ensures Divides(d, Gcd(x, y))
    decreases y
  {
    if y > 0 {
      var a: nat :| Times(a, d) == x;
      var b: nat :| Times(b, d) == y;
      var q := x / y;
      assert x % y == x - q * y;
      assert x % y == (a - q * b) * d by {
        assert q * y == q * b * d;
        assert (a - q * b) * d == a * d - q * b * d;
      }
      assert a - q * b >= 0 by {
        assert d > 0;
        if a - q * b < 0 {
          NegativeTimes(a - q * b, d);
        }
      }
      assert Times(a - q * b, d) == x % y;
      GcdGreatest(y, x % y, d);
    }
  }

  lemma NegativeTimes(k: int, d: int)
    requires k < 0 && d > 0
    ensures k * d < 0
  {
  }

  /** `lcm(x, y) = x / gcd(x, y) * y`; the division panics when both are 0. */
  function Lcm(x: nat, y: nat): (r: Outcome<nat>)
    ensures r.Panic? <==> x == 0 && y == 0
  {
    var g := Gcd(x, y);
    if g == 0 then Panic else Done(x / g * y)
  }

  /** `lcm(x, y)` is a multiple of both `x` and `y`. */
  lemma LcmCommonMultiple(x: nat, y: nat)
    requires Lcm(x, y).Done?
    ensures Divides(x, Lcm(x, y).value) && Divides(y, Lcm(x, y).value)
  {
    var g := Gcd(x, y);
    GcdDivides(x, y);
    var a: nat :| Times(a, g) == x;
    var b: nat :| Times(b, g) == y;
    DivExact(a, g);
    var l := Lcm(x, y).value;
    assert l == a * y;
    assert Times(a, y) == l;
    assert Times(b, x) == l by {
      assert a * y == a * (b * g) == b * (a * g);
    }
  }

  lemma DivExact(a: nat, g: nat)
    requires g > 0
    ensures Times(a, g) / g == a
  {
    var n := a * g;
    var q, r := n / g, n % g;
    assert (a - q) * g == r by {
      assert n == q * g + r;
    }
    OnlyZero(a - q, g);
  }

  /** The only multiple of `g` in `0..g-1` is 0. */
  lemma OnlyZero(k: int, g: int)
    requires g > 0 && 0 <= k * g < g
    ensures k == 0
  {
  }

  lemma GcdOne(s: nat)
    ensures Gcd(1, s) == 1
  {
    if s > 1 {
      assert 1 % s == 1;
      assert Gcd(s, 1) == Gcd(1, 0);
    }
  }

  /** The fold's seed is neutral: `lcm(1, s) = s`. */
  lemma LcmOne(s: nat)
    ensures Lcm(1, s) == Done(s)
  {
    GcdOne(s);
  }

  /** Dividing is transitive. */
  lemma DividesTrans(a: nat, b: nat, c: nat)
    requires Divides(a, b) && Divides(b, c)
    ensures Divides(a, c)
  {
    var k: nat :| Times(k, a) == b;
    var l: nat :| Times(l, b) == c;
    assert Times(l * k, a) == c by {
      assert l * k * a == l * (k * a);
    }
  }

  // ---------------------------------------------------------------------
  // Walking

  /**
    How a step reads its instruction: `steps_to_end` accepts only 'L'
    and 'R' (`Strict`), the part-one loop takes anything but 'L' as
    right (`Lenient`).
  */
  datatype Rule = Strict | Lenient

  /** One step from node `cur`; a missing node panics (the `unwrap`), and so does a bad direction under `Strict`. */
  function Move(doc: Document, rule: Rule, cur: string, dir: char): (r: Outcome<string>)
    ensures r.Panic? <==> cur !in doc.nodes || (rule.Strict? && dir != 'L' && dir != 'R')
    ensures r.Done? && dir == 'L' ==> r.value == doc.nodes[cur].left
    ensures r.Done? && dir != 'L' ==> r.value == doc.nodes[cur].right
  {
    if cur !in doc.nodes then Panic
    else if dir == 'L' then Done(doc.nodes[cur].left)
    else if dir == 'R' || rule.Lenient? then Done(doc.nodes[cur].right)
    else Panic
  }

  /** The instruction of step `i`, cycling through the list. */
  function Dir(doc: Document, i: nat): char
    requires |doc.instructions| > 0
  {
    doc.instructions[i % |doc.instructions|]
  }

  /** Where `n` steps from `start` lead: the reference walk the loops are measured against. */
  function Walk(doc: Document, rule: Rule, start: string, n: nat): (r: Outcome<string>)
    ensures n > 0 && |doc.instructions| == 0 ==> r.Panic?
  {
    if n == 0 then Done(start)
    else if |doc.instructions| == 0 then Panic
    else
      var prev := Walk(doc, rule, start, n - 1);
      if prev.Panic? then Panic else Move(doc, rule, prev.value, Dir(doc, n - 1))
  }

  /** `n` steps reach a node, and it is the first that ends in 'Z'. */
  ghost predicate FirstEnd(doc: Document, start: string, n: nat)
  {
    && Walk(doc, Strict, start, n).Done? && EndsWith(Walk(doc, Strict, start, n).value, 'Z')
    && forall m :: 0 <= m < n ==> Walk(doc, Strict, start, m).Done? && !EndsWith(Walk(doc, Strict, start, m).value, 'Z')
  }

  /**
    The `steps_to_end` loop from node `cur` after `i` steps: stop on a
    node ending in 'Z', else take the next instruction (an empty list
    panics on `unwrap`). `fuel` bounds the number of steps.
  */
  function StepsFrom(doc: Document, cur: string, i: nat, fuel: nat): (r: Outcome<nat>)
    ensures r.Done? ==> r.value >= i
    decreases fuel
  {
    if EndsWith(cur, 'Z') then Done(i)
    else if |doc.instructions| == 0 || fuel == 0 then Panic
    else
      var next := Move(doc, Strict, cur, Dir(doc, i));
      if next.Panic? then Panic else StepsFrom(doc, next.value, i + 1, fuel - 1)
  }

  /** `steps_to_end`: 0 from a node that already ends in 'Z'. */
  function StepsToEnd(doc: Document, start: string, fuel: nat): (r: Outcome<nat>)
    ensures EndsWith(start, 'Z') ==> r == Done(0)
  {
    StepsFrom(doc, start, 0, fuel)
  }

  lemma {:induction false} StepsFromSound(doc: Document, start: string, cur: string, i: nat, fuel: nat)
    requires Walk(doc, Strict, start, i) == Done(cur) && StepsFrom(doc, cur, i, fuel).Done?
    requires forall m :: 0 <= m < i ==> Walk(doc, Strict, start, m).Done? && !EndsWith(Walk(doc, Strict, start, m).value, 'Z')
    ensures FirstEnd(doc, start, StepsFrom(doc, cur, i, fuel).value)
    decreases fuel
  {
    if !EndsWith(cur, 'Z') {
      var next := Move(doc, Strict, cur, Dir(doc, i));
      assert Walk(doc, Strict, start, i + 1) == next;
      StepsFromSound(doc, start, next.value, i + 1, fuel - 1);
    }
  }

  /** A finished `steps_to_end` counts the steps to the first node ending in 'Z'. */
  lemma StepsToEndSound(doc: Document, start: string, fuel: nat)
    requires StepsToEnd(doc, start, fuel).Done?
    ensures FirstEnd(doc, start, StepsToEnd(doc, start, fuel).value)
  {
    StepsFromSound(doc, start, start, 0, fuel);
  }

  lemma {:induction false} StepsFromComplete(doc: Document, start: string, cur: string, i: nat, fuel: nat, n: nat)
    requires Walk(doc, Strict, start, i) == Done(cur) && FirstEnd(doc, start, n) && i <= n && n - i <= fuel
    ensures StepsFrom(doc, cur, i, fuel) == Done(n)
    decreases fuel
  {
    if i < n {
      assert !EndsWith(cur, 'Z');
      assert Walk(doc, Strict, start, i + 1).Done?;
      StepsFromComplete(doc, start, Walk(doc, Strict, start, i + 1).value, i + 1, fuel - 1, n);
    }
  }

  /** With fuel for `n` steps, a walk whose first 'Z' node comes after `n` steps reports `n`. */
  lemma StepsToEndComplete(doc: Document, start: string, fuel: nat, n: nat)
    requires FirstEnd(doc, start, n) && n <= fuel
    ensures StepsToEnd(doc, start, fuel) == Done(n)
  {
    StepsFromComplete(doc, start, start, 0, fuel, n);
  }

  /**
    The fuel the walks are given: `|nodes| * |instructions| + 1` steps.
    A walk that has not stopped by then has repeated a (node, position in
    the instructions) state, so the source would loop for ever.
  */
  function Fuel(doc: Document): nat
  {
    |doc.nodes| * |doc.instructions| + 1
  }

  // ---------------------------------------------------------------------
  // Part one

  const Start := "AAA"
  const Goal := "ZZZ"

  /** The part-one loop at node `cur` after `i` steps: step, then stop if the step reached "ZZZ". */
  function PartOneFrom(doc: Document, cur: string, i: nat, fuel: nat): (r: Outcome<nat>)
    requires |doc.instructions| > 0
    ensures r.Done? ==> r.value > i
    decreases fuel
  {
    if fuel == 0 then Panic
    else
      var next := Move(doc, Lenient, cur, Dir(doc, i));
      if next.Panic? then Panic
      else if next.value == Goal then Done(i + 1)
      else PartOneFrom(doc, next.value, i + 1, fuel - 1)
  }

  /** `part_one`: `None` exactly for an empty instruction list, else the steps from "AAA" to "ZZZ". */
  function PartOne(doc: Document): (r: Outcome<Option<nat>>)
    ensures r == Done(None) <==> |doc.instructions| == 0
    ensures r.Done? && r.value.Some? ==> r.value.value >= 1
  {
    if |doc.instructions| == 0 then Done(None)
    else
      var n := PartOneFrom(doc, Start, 0, Fuel(doc));
      if n.Panic? then Panic else Done(Some(n.value))
  }

  /** After `n >= 1` steps the walk from "AAA" first reaches "ZZZ" (it is not checked before a step). */
  ghost predicate FirstGoal(doc: Document, n: nat)
  {
    && n >= 1 && Walk(doc, Lenient, Start, n) == Done(Goal)
    && forall m :: 1 <= m < n ==> Walk(doc, Lenient, Start, m).Done? && Walk(doc, Lenient, Start, m).value != Goal
  }

  lemma {:induction false} PartOneFromSound(doc: Document, cur: string, i: nat, fuel: nat)
    requires |doc.instructions| > 0
    requires Walk(doc, Lenient, Start, i) == Done(cur) && PartOneFrom(doc, cur, i, fuel).Done?
    requires forall m :: 1 <= m <= i ==> Walk(doc, Lenient, Start, m).Done? && Walk(doc, Lenient, Start, m).value != Goal
    ensures FirstGoal(doc, PartOneFrom(doc, cur, i, fuel).value)
    decreases fuel
  {
    var next := Move(doc, Lenient, cur, Dir(doc, i));
    assert Walk(doc, Lenient, Start, i + 1) == next;
    if next.value != Goal {
      PartOneFromSound(doc, next.value, i + 1, fuel - 1);
    }
  }

  /** A step count from part one is that of the walk's first arrival at "ZZZ". */
  lemma PartOneSound(doc: Document)
    requires PartOne(doc).Done? && PartOne(doc).value.Some?
    ensures FirstGoal(doc, PartOne(doc).value.value)
  {
    PartOneFromSound(doc, Start, 0, Fuel(doc));
  }

  lemma {:induction false} PartOneFromComplete(doc: Document, cur: string, i: nat, fuel: nat, n: nat)
    requires |doc.instructions| > 0
    requires Walk(doc, Lenient, Start, i) == Done(cur) && FirstGoal(doc, n) && i < n && n - i <= fuel
    ensures PartOneFrom(doc, cur, i, fuel) == Done(n)
    decreases fuel
  {
    var next := Move(doc, Lenient, cur, Dir(doc, i));
    assert Walk(doc, Lenient, Start, i + 1) == next;
    if i + 1 < n {
      assert Walk(doc, Lenient, Start, i + 1).Done? && Walk(doc, Lenient, Start, i + 1).value != Goal;
      PartOneFromComplete(doc, next.value, i + 1, fuel - 1, n);
    }
  }

  /** When the walk first reaches "ZZZ" within the fuel bound, part one reports that step count. */
  lemma PartOneComplete(doc: Document, n: nat)
    requires |doc.instructions| > 0 && FirstGoal(doc, n) && n <= Fuel(doc)
    ensures PartOne(doc) == Done(Some(n))
  {
    PartOneFromComplete(doc, Start, 0, Fuel(doc), n);
  }

  // ---------------------------------------------------------------------
  // Part two

  /**
    `result = lcm(result, steps_to_end(start))` over `starts` from `acc`;
    the first walk or `lcm` that panics ends the fold.
  */
  function FoldLcm(doc: Document, starts: seq<string>, acc: nat): (r: Outcome<nat>)
  {
    if |starts| == 0 then Done(acc)
    else
      var steps := StepsToEnd(doc, starts[0], Fuel(doc));
      if steps.Panic? then Panic
      else
        var l := Lcm(acc, steps.value);
        if l.Panic? then Panic else FoldLcm(doc, starts[1..], l.value)
  }

  /** The fold's result is a multiple of the seed and of every walk's length. */
  lemma {:induction false} FoldLcmMultiple(doc: Document, starts: seq<string>, acc: nat)
    requires FoldLcm(doc, starts, acc).Done?
    ensures Divides(acc, FoldLcm(doc, starts, acc).value)
    ensures forall k :: 0 <= k < |starts| ==>
              StepsToEnd(doc, starts[k], Fuel(doc)).Done? && Divides(StepsToEnd(doc, starts[k], Fuel(doc)).value, FoldLcm(doc, starts, acc).value)
  {
    var r := FoldLcm(doc, starts, acc).value;
    if |starts| == 0 {
      assert Times(1, acc) == r;
    } else {
      var steps := StepsToEnd(doc, starts[0], Fuel(doc)).value;
      var l := Lcm(acc, steps).value;
      FoldLcmMultiple(doc, starts[1..], l);
      LcmCommonMultiple(acc, steps);
      DividesTrans(acc, l, r);
      DividesTrans(steps, l, r);
      assert forall k :: 1 <= k < |starts| ==> starts[1..][k - 1] == starts[k];
    }
  }

  /**
    `part_two`: the `lcm` of the walks from every node ending in 'A',
    visited in `starts`, the map's iteration order; the answer is a
    common multiple of the walks' lengths.
  */
  function PartTwo(doc: Document, starts: seq<string>): (r: Outcome<nat>)
    requires forall s :: s in starts <==> s in doc.nodes && EndsWith(s, 'A')
    requires forall j, k :: 0 <= j < k < |starts| ==> starts[j] != starts[k]
    ensures r.Done? ==> forall s :: s in doc.nodes && EndsWith(s, 'A') ==>
              StepsToEnd(doc, s, Fuel(doc)).Done? && Divides(StepsToEnd(doc, s, Fuel(doc)).value, r.value)
  {
    var r := FoldLcm(doc, starts, 1);
    if r.Panic? then r
    else
      FoldLcmMultiple(doc, starts, 1);
      assert forall s :: s in starts ==> exists k :: 0 <= k < |starts| && starts[k] == s;
      r
  }
}
