/**
  The seed almanac (2023 day 5): ids travel from "seed" through a chain of
  category maps; each map is a list of rules that shift a block of ids by a
  constant. The model works on whole closed intervals, splitting them at
  rule boundaries, and proves that this agrees with the id-by-id meaning.
*/
module SeedFertilizer {
  import opened Wrappers

  /** The closed range `start..=end` of ids. */
  datatype Interval = Interval(start: nat, end: nat) {
    predicate Valid() { start <= end }
    predicate Contains(x: int) { start <= x <= end }
    function Size(): nat { if start <= end then end - start + 1 else 0 }
  }

  /** One line "dst src len" of a map: ids `src..src+len-1` go to `dst..dst+len-1`. */
  datatype Rule = Rule(src: nat, dst: nat, len: nat) {
    /** The last id of the domain; `src - 1` for an empty domain. */
    function SrcEnd(): int { src + len - 1 }
    predicate InDomain(x: int) { src <= x < src + len }
    /** The image of an id of the domain. */
    function Shift(x: int): int { x + dst - src }
    /** The id of the domain an image came from. */
    function Unshift(y: int): int { y - dst + src }
  }

  /** A category map such as "seed-to-soil map:". */
  datatype Map = Map(srcCategory: string, dstCategory: string, rules: seq<Rule>)

  /** The parsed almanac: its seeds and its maps keyed by source category. */
  datatype Almanac = Almanac(seeds: seq<Interval>, maps: map<string, Map>)

  /** The three pieces `ConversionRange::convert` returns. */
  datatype Pieces = Pieces(below: Option<Interval>, overlap: Option<Interval>, above: Option<Interval>)

  predicate AllValid(rs: seq<Interval>) { forall i :: 0 <= i < |rs| ==> rs[i].Valid() }

  predicate PieceContains(p: Option<Interval>, x: int) { p.Some? && p.value.Contains(x) }

  predicate PieceValid(p: Option<Interval>) { p.Some? ==> p.value.Valid() }

  function PieceSize(p: Option<Interval>): nat { if p.Some? then p.value.Size() else 0 }

  function PieceSeq(p: Option<Interval>): seq<Interval> { if p.Some? then [p.value] else [] }

  /** Some interval of the collection holds `x`. */
  predicate Covers(rs: seq<Interval>, x: int) { exists i :: 0 <= i < |rs| && rs[i].Contains(x) }

  /** The number of ids in a collection, counted with multiplicity. */
  function TotalSize(rs: seq<Interval>): nat
  {
    if |rs| == 0 then 0 else rs[0].Size() + TotalSize(rs[1..])
  }

  /**
    Splits `inp` against one rule. `below` and `above` are the parts of the
    input left and right of the rule's domain, unshifted; `overlap` is the
    part inside the domain moved by `dst - src`. A piece is present exactly
    when it holds an id, and the three pieces count the input's ids once.
    This is `ConversionRange::convert` for a rule of positive length
    (`ConvertAsWritten`); a rule of length 0 moves no id and yields no
    overlap at all.
  */
  function Convert(r: Rule, inp: Interval): (p: Pieces)
    requires inp.Valid()
    ensures PieceValid(p.below) && PieceValid(p.overlap) && PieceValid(p.above)
    ensures forall x :: PieceContains(p.below, x) <==> inp.Contains(x) && x < r.src
    ensures forall x :: PieceContains(p.above, x) <==> inp.Contains(x) && x > r.SrcEnd()
    ensures forall y :: PieceContains(p.overlap, y) <==>
              inp.Contains(r.Unshift(y)) && r.InDomain(r.Unshift(y))
    ensures PieceSize(p.below) + PieceSize(p.overlap) + PieceSize(p.above) == inp.Size()
  {
    var srcEnd := r.SrcEnd();
    var below :=
      if inp.start < r.src then Some(Interval(inp.start, Min(r.src - 1, inp.end))) else None;
    var overlap :=
      if r.len > 0 && inp.end >= r.src && inp.start <= srcEnd
      then Some(Interval(r.dst + Max(inp.start, r.src) - r.src, r.dst + Min(inp.end, srcEnd) - r.src))
      else None;
    var above :=
      if inp.end > srcEnd then Some(Interval(Max(srcEnd + 1, inp.start), inp.end)) else None;
    Pieces(below, overlap, above)
  }

  /**
    One pass of the rule loop of `Map::correspond`: every pending interval is
    split; overlaps are finished (first component), below/above pieces are
    forwarded to the next rule (second component), in the source's order.
  */
  function SplitAll(r: Rule, ranges: seq<Interval>): (out: (seq<Interval>, seq<Interval>))
    requires AllValid(ranges)
    ensures AllValid(out.0) && AllValid(out.1)
  {
    if |ranges| == 0 then ([], [])
    else
      var p := Convert(r, ranges[0]);
      var rest := SplitAll(r, ranges[1..]);
      (PieceSeq(p.overlap) + rest.0, PieceSeq(p.below) + PieceSeq(p.above) + rest.1)
  }

  /** The rule loop, with `result` the finished intervals so far. */
  function Pass(rules: seq<Rule>, ranges: seq<Interval>, result: seq<Interval>): seq<Interval>
    requires AllValid(ranges)
    decreases |rules|
  {
    if |rules| == 0 then result + ranges
    else
      var split := SplitAll(rules[0], ranges);
      Pass(rules[1..], split.1, result + split.0)
  }

  /**
    `Map::correspond`: the intervals one input interval becomes. A map
    with no rules hands back exactly the input.
  */
  function Correspond(m: Map, inp: Interval): (out: seq<Interval>)
    requires inp.Valid()
    ensures AllValid(out)
    ensures |m.rules| == 0 ==> out == [inp]
  {
    PassValid(m.rules, [inp], []);
    Pass(m.rules, [inp], [])
  }

  /** One stage of the fold in `min_soil_number`: flat-map `correspond`. */
  function MapAll(m: Map, ranges: seq<Interval>): (out: seq<Interval>)
    requires AllValid(ranges)
    ensures AllValid(out)
  {
    if |ranges| == 0 then []
    else
      var out := Correspond(m, ranges[0]) + MapAll(m, ranges[1..]);
      out
  }

  /** Folds a collection through every stage in order. */
  function Fold(stages: seq<Map>, ranges: seq<Interval>): (out: seq<Interval>)
    requires AllValid(ranges)
    ensures AllValid(out)
  {
    if |stages| == 0 then ranges else Fold(stages[1..], MapAll(stages[0], ranges))
  }

  /**
    The stage chain of `min_soil_number`: start at the map whose source is
    `cat` and keep following destination categories. The source loops for
    ever on a cyclic chain; `fuel` bounds the walk (an acyclic chain never
    needs more than one unit per map).
  */
  function ChainFrom(maps: map<string, Map>, cat: string, fuel: nat): (c: seq<Map>)
    ensures |c| <= fuel
    ensures |c| > 0 ==> cat in maps && c[0] == maps[cat]
    ensures forall i :: 0 <= i < |c| - 1 ==> c[i].dstCategory in maps && c[i + 1] == maps[c[i].dstCategory]
    ensures |c| < fuel ==> if |c| == 0 then cat !in maps else c[|c| - 1].dstCategory !in maps
    decreases fuel
  {
    if fuel == 0 || cat !in maps then []
    else
      var tail := ChainFrom(maps, maps[cat].dstCategory, fuel - 1);
      [maps[cat]] + tail
  }

  /** The least `start` of a non-empty collection. */
  function MinStart(rs: seq<Interval>): (m: nat)
    requires |rs| > 0
    ensures exists i :: 0 <= i < |rs| && rs[i].start == m
    ensures forall i :: 0 <= i < |rs| ==> m <= rs[i].start
  {
    if |rs| == 1 then rs[0].start
    else
      var m := MinStart(rs[1..]);
      assert forall i :: 1 <= i < |rs| ==> rs[1..][i - 1] == rs[i];
      if rs[0].start <= m then rs[0].start else m
  }

  /**
    The fold and minimum of `min_soil_number` over an explicit stage list.
    An empty final collection is the `unwrap` on an empty `min`: a panic.
  */
  function LowestLocation(stages: seq<Map>, seeds: seq<Interval>): Outcome<nat>
    requires AllValid(seeds)
  {
    var final := Fold(stages, seeds);
    if |final| == 0 then Panic else Done(MinStart(final))
  }

  /** The chain from "seed", walked for at most one step per map. */
  function SeedChain(maps: map<string, Map>): seq<Map>
  {
    ChainFrom(maps, "seed", |maps|)
  }

  /**
    The walk from "seed" is still going after one step per map: it has
    visited a category twice (`ChainRepeats`), so the source's `while let`
    never ends.
  */
  predicate Endless(maps: map<string, Map>)
  {
    var c := SeedChain(maps);
    |c| == |maps| > 0 && c[|c| - 1].dstCategory in maps
  }

  /**
    `Almanac::min_soil_number`: build the chain from "seed", then fold. A
    chain that never ends is a `Panic`, standing for the loop that does
    not terminate; no seeds is the `unwrap` on an empty `min`.
  */
  function MinSoilNumber(a: Almanac, seeds: seq<Interval>): (r: Outcome<nat>)
    requires AllValid(seeds)
    ensures r.Panic? <==> Endless(a.maps) || |seeds| == 0
    ensures r.Done? ==> var chain := SeedChain(a.maps);
      Reaches(chain, seeds, r.value) &&
      forall x: nat :: Covers(seeds, x) ==> r.value <= Trace(chain, x)
  {
    var chain := SeedChain(a.maps);
    LowestLocationIsLeastTrace(chain, seeds);
    if Endless(a.maps) then Panic else LowestLocation(chain, seeds)
  }

  /** The category the walk is at after `k` steps of the chain `c`. */
  function CategoryAt(c: seq<Map>, k: nat): string
    requires k <= |c|
  {
    if k == 0 then "seed" else c[k - 1].dstCategory
  }

  /**
    An endless chain visits some category twice within its first `|maps|`
    steps: the walk has entered a cycle.
  */
  lemma ChainRepeats(maps: map<string, Map>) returns (i: nat, j: nat)
    requires Endless(maps)
    ensures i < j <= |SeedChain(maps)| && CategoryAt(SeedChain(maps), i) == CategoryAt(SeedChain(maps), j)
  {
    var c := SeedChain(maps);
    var cats := seq(|c| + 1, k requires 0 <= k <= |c| => CategoryAt(c, k));
    forall k | 0 <= k < |cats| ensures cats[k] in maps.Keys {
      if k > 0 && k < |c| {
        assert c[k - 1].dstCategory in maps;
      }
    }
    assert |maps.Keys| == |maps|;
    i, j := Pigeonhole(cats, maps.Keys);
  }

  /** More items than places: two of them share one. */
  lemma {:induction false} Pigeonhole<T>(s: seq<T>, places: set<T>) returns (i: nat, j: nat)
    requires forall k :: 0 <= k < |s| ==> s[k] in places
    requires |s| > |places|
    ensures i < j < |s| && s[i] == s[j]
    decreases |s|
  {
    var last := s[|s| - 1];
    var init := s[..|s| - 1];
    if k :| 0 <= k < |init| && init[k] == last {
      i, j := k, |s| - 1;
    } else {
      forall k | 0 <= k < |init| ensures init[k] in places - {last} {
        assert init[k] == s[k];
      }
      i, j := Pigeonhole(init, places - {last});
    }
  }

  /** Seeds of the first part: every id `id` becomes `id..=id`. */
  function SingleSeeds(ids: seq<nat>): (rs: seq<Interval>)
    ensures AllValid(rs) && |rs| == |ids|
    ensures forall x :: Covers(rs, x) <==> x in ids
  {
    if |ids| == 0 then []
    else
      var rest := SingleSeeds(ids[1..]);
      CoversCons([Interval(ids[0], ids[0])], rest);
      assert forall x :: x in ids <==> x == ids[0] || x in ids[1..];
      assert [Interval(ids[0], ids[0])][0].Contains(ids[0]);
      [Interval(ids[0], ids[0])] + rest
  }

  /** The ids a ranged seed list names: pair `k` is `(start, len)`. */
  ghost predicate InSeedRanges(nums: seq<nat>, x: int)
  {
    exists k :: 0 <= k < |nums| / 2 && nums[2 * k] <= x < nums[2 * k] + nums[2 * k + 1]
  }

  function SumLengths(nums: seq<nat>): nat
  {
    if |nums| < 2 then 0 else nums[1] + SumLengths(nums[2..])
  }

  /** Every pair is complete and has a positive length. */
  predicate PairsOk(nums: seq<nat>)
  {
    |nums| % 2 == 0 && forall k :: 0 <= k < |nums| / 2 ==> nums[2 * k + 1] > 0
  }

  /**
    Seeds of the second part: consecutive pairs `(start, len)` become
    `start..=start+len-1`. An odd count is a panic (`chunk[1]` out of
    bounds); a zero length is refused (see README).
  */
  function RangedSeeds(nums: seq<nat>): (r: Outcome<seq<Interval>>)
    ensures r.Done? <==> PairsOk(nums)
    ensures r.Done? ==> AllValid(r.value) && |r.value| == |nums| / 2
    ensures r.Done? ==> forall x :: Covers(r.value, x) <==> InSeedRanges(nums, x)
    ensures r.Done? ==> TotalSize(r.value) == SumLengths(nums)
  {
    if |nums| == 0 then Done([])
    else if |nums| == 1 then Panic
    else
      PairsOkCons(nums);
      if nums[1] == 0 then Panic
      else
        var head := Interval(nums[0], nums[0] + nums[1] - 1);
        var rest := RangedSeeds(nums[2..]);
        if rest.Panic? then Panic
        else
          CoversCons([head], rest.value);
          assert [head][0].Contains(nums[0]);
          SizeAppend([head], rest.value);
          forall x ensures InSeedRanges(nums, x) <==> head.Contains(x) || InSeedRanges(nums[2..], x) {
            SeedRangesCons(nums, x);
          }
          Done([head] + rest.value)
  }

  // ---------------------------------------------------------------------
  // The id-by-id meaning

  /** Where one id goes under a rule list: the first rule whose domain holds it. */
  function Lookup(rules: seq<Rule>, x: nat): nat
  {
    if |rules| == 0 then x
    else if rules[0].InDomain(x) then x + rules[0].dst - rules[0].src
    else Lookup(rules[1..], x)
  }

  /** Where one id ends up after every stage. */
  function Trace(stages: seq<Map>, x: nat): nat
  {
    if |stages| == 0 then x else Trace(stages[1..], Lookup(stages[0].rules, x))
  }

  /** `y` is where some id of `ranges` goes under `rules`. */
  ghost predicate InImage(rules: seq<Rule>, ranges: seq<Interval>, y: int)
  {
    exists x: nat :: Covers(ranges, x) && Lookup(rules, x) == y
  }

  /** Where every id of `seeds` ends up: `y` is the trace of some seed id. */
  ghost predicate Reaches(stages: seq<Map>, seeds: seq<Interval>, y: int)
  {
    exists x: nat :: Covers(seeds, x) && Trace(stages, x) == y
  }

  /** No two rules of the list share an id of their domains. */
  predicate DisjointDomains(rules: seq<Rule>)
  {
    forall i, j :: 0 <= i < j < |rules| ==>
      rules[i].src + rules[i].len <= rules[j].src || rules[j].src + rules[j].len <= rules[i].src
  }

  // ---------------------------------------------------------------------
  // Interval splitting agrees with the id-by-id meaning

  /** The finished pieces of one rule pass are the shifted in-domain ids; the forwarded ones the rest. */
  lemma {:induction false} SplitAllCovers(r: Rule, ranges: seq<Interval>)
    requires AllValid(ranges)
    ensures forall y :: Covers(SplitAll(r, ranges).0, y) <==>
              Covers(ranges, r.Unshift(y)) && r.InDomain(r.Unshift(y))
    ensures forall x :: Covers(SplitAll(r, ranges).1, x) <==> Covers(ranges, x) && !r.InDomain(x)
    decreases |ranges|
  {
    if |ranges| > 0 {
      var p := Convert(r, ranges[0]);
      var rest := SplitAll(r, ranges[1..]);
      SplitAllCovers(r, ranges[1..]);
      CoversCons(PieceSeq(p.overlap), rest.0);
      CoversCons(PieceSeq(p.below) + PieceSeq(p.above), rest.1);
      CoversCons(PieceSeq(p.below), PieceSeq(p.above));
      CoversFirst(ranges);
      PieceSeqCovers(p.below);
      PieceSeqCovers(p.overlap);
      PieceSeqCovers(p.above);
    }
  }

  /** One rule pass neither loses nor duplicates an id. */
  lemma {:induction false} SplitAllSize(r: Rule, ranges: seq<Interval>)
    requires AllValid(ranges)
    ensures TotalSize(SplitAll(r, ranges).0) + TotalSize(SplitAll(r, ranges).1) == TotalSize(ranges)
    decreases |ranges|
  {
    if |ranges| > 0 {
      var p := Convert(r, ranges[0]);
      var rest := SplitAll(r, ranges[1..]);
      SplitAllSize(r, ranges[1..]);
      SizeAppend(PieceSeq(p.overlap), rest.0);
      SizeAppend(PieceSeq(p.below) + PieceSeq(p.above), rest.1);
      SizeAppend(PieceSeq(p.below), PieceSeq(p.above));
    }
  }

  /**
    The rule loop maps every pending id by the first rule whose domain holds
    it and passes it through when no rule does: an overlap, once finished,
    is never offered to a later rule.
  */
  lemma {:induction false} PassCovers(rules: seq<Rule>, ranges: seq<Interval>, result: seq<Interval>)
    requires AllValid(ranges)
    ensures forall y :: Covers(Pass(rules, ranges, result), y) <==> Covers(result, y) || InImage(rules, ranges, y)
    decreases |rules|
  {
    if |rules| == 0 {
      CoversCons(result, ranges);
      forall y ensures Covers(ranges, y) <==> InImage(rules, ranges, y) {
        if Covers(ranges, y) {
          var i :| 0 <= i < |ranges| && ranges[i].Contains(y);
          var x: nat := y;
          assert Covers(ranges, x) && Lookup(rules, x) == y;
        }
      }
    } else {
      var r := rules[0];
      var split := SplitAll(r, ranges);
      SplitAllCovers(r, ranges);
      PassCovers(rules[1..], split.1, result + split.0);
      CoversCons(result, split.0);
      forall y ensures Covers(split.0, y) || InImage(rules[1..], split.1, y) <==> InImage(rules, ranges, y) {
        if Covers(split.0, y) {
          var x: nat := r.Unshift(y);
          assert Covers(ranges, x) && Lookup(rules, x) == y;
        }
        if InImage(rules[1..], split.1, y) {
          var x: nat :| Covers(split.1, x) && Lookup(rules[1..], x) == y;
          assert Covers(ranges, x) && Lookup(rules, x) == y;
        }
        if InImage(rules, ranges, y) {
          var x: nat :| Covers(ranges, x) && Lookup(rules, x) == y;
          if r.InDomain(x) {
            assert r.Unshift(y) == x;
          } else {
            assert Covers(split.1, x) && Lookup(rules[1..], x) == y;
          }
        }
      }
    }
  }

  /** The rule loop keeps the number of ids: finished plus pending, before and after. */
  lemma {:induction false} PassSize(rules: seq<Rule>, ranges: seq<Interval>, result: seq<Interval>)
    requires AllValid(ranges)
    ensures TotalSize(Pass(rules, ranges, result)) == TotalSize(result) + TotalSize(ranges)
    decreases |rules|
  {
    if |rules| == 0 {
      SizeAppend(result, ranges);
    } else {
      var split := SplitAll(rules[0], ranges);
      SplitAllSize(rules[0], ranges);
      PassSize(rules[1..], split.1, result + split.0);
      SizeAppend(result, split.0);
    }
  }

  /** `correspond` covers exactly the images of the input's ids under first-match lookup. */
  lemma CorrespondIsLookup(m: Map, inp: Interval)
    requires inp.Valid()
    ensures forall y :: Covers(Correspond(m, inp), y) <==> InImage(m.rules, [inp], y)
  {
    PassCovers(m.rules, [inp], []);
  }

  /** `correspond` preserves cardinality: its pieces hold as many ids as the input. */
  lemma CorrespondPreservesSize(m: Map, inp: Interval)
    requires inp.Valid()
    ensures TotalSize(Correspond(m, inp)) == inp.Size()
  {
    PassSize(m.rules, [inp], []);
  }

  /** One stage maps a whole collection to the images of its ids. */
  lemma {:induction false} MapAllCovers(m: Map, ranges: seq<Interval>)
    requires AllValid(ranges)
    ensures forall y :: Covers(MapAll(m, ranges), y) <==> InImage(m.rules, ranges, y)
    decreases |ranges|
  {
    if |ranges| > 0 {
      CorrespondIsLookup(m, ranges[0]);
      MapAllCovers(m, ranges[1..]);
      CoversCons(Correspond(m, ranges[0]), MapAll(m, ranges[1..]));
      forall y ensures InImage(m.rules, ranges, y) <==>
                       InImage(m.rules, [ranges[0]], y) || InImage(m.rules, ranges[1..], y) {
        InImageCons(m.rules, ranges, y);
      }
    }
  }

  /** One stage keeps the number of ids of a collection. */
  lemma {:induction false} MapAllSize(m: Map, ranges: seq<Interval>)
    requires AllValid(ranges)
    ensures TotalSize(MapAll(m, ranges)) == TotalSize(ranges)
    decreases |ranges|
  {
    if |ranges| > 0 {
      CorrespondPreservesSize(m, ranges[0]);
      MapAllSize(m, ranges[1..]);
      SizeAppend(Correspond(m, ranges[0]), MapAll(m, ranges[1..]));
    }
  }

  /** The fold covers exactly the traces of the seed ids through every stage. */
  lemma {:induction false} FoldCovers(stages: seq<Map>, ranges: seq<Interval>)
    requires AllValid(ranges)
    ensures forall y :: Covers(Fold(stages, ranges), y) <==> Reaches(stages, ranges, y)
    decreases |stages|
  {
    if |stages| == 0 {
      forall y ensures Covers(ranges, y) <==> Reaches(stages, ranges, y) {
        if Covers(ranges, y) {
          var i :| 0 <= i < |ranges| && ranges[i].Contains(y);
          var x: nat := y;
          assert Covers(ranges, x) && Trace(stages, x) == y;
        }
      }
    } else {
      var s0 := stages[0];
      var next := MapAll(s0, ranges);
      MapAllCovers(s0, ranges);
      FoldCovers(stages[1..], next);
      forall y ensures Reaches(stages[1..], next, y) <==> Reaches(stages, ranges, y) {
        if Reaches(stages[1..], next, y) {
          var z: nat :| Covers(next, z) && Trace(stages[1..], z) == y;
          var x: nat :| Covers(ranges, x) && Lookup(s0.rules, x) == z;
          assert Covers(ranges, x) && Trace(stages, x) == y;
        }
        if Reaches(stages, ranges, y) {
          var x: nat :| Covers(ranges, x) && Trace(stages, x) == y;
          var z := Lookup(s0.rules, x);
          assert InImage(s0.rules, ranges, z);
          assert Covers(next, z) && Trace(stages[1..], z) == y;
        }
      }
    }
  }

  /** The fold keeps the number of ids. */
  lemma {:induction false} FoldSize(stages: seq<Map>, ranges: seq<Interval>)
    requires AllValid(ranges)
    ensures TotalSize(Fold(stages, ranges)) == TotalSize(ranges)
    decreases |stages|
  {
    if |stages| > 0 {
      MapAllSize(stages[0], ranges);
      FoldSize(stages[1..], MapAll(stages[0], ranges));
    }
  }

  /**
    End to end: the answer is the least location any seed id reaches, and
    it is a panic exactly when there are no seeds.
  */
  lemma LowestLocationIsLeastTrace(stages: seq<Map>, seeds: seq<Interval>)
    requires AllValid(seeds)
    ensures LowestLocation(stages, seeds).Panic? <==> |seeds| == 0
    ensures LowestLocation(stages, seeds).Done? ==>
              Reaches(stages, seeds, LowestLocation(stages, seeds).value) &&
              forall x: nat :: Covers(seeds, x) ==> LowestLocation(stages, seeds).value <= Trace(stages, x)
  {
    var final := Fold(stages, seeds);
    FoldSize(stages, seeds);
    FoldCovers(stages, seeds);
    EmptyIffNoIds(seeds);
    EmptyIffNoIds(final);
    if |final| > 0 {
      var v := MinStart(final);
      var i :| 0 <= i < |final| && final[i].start == v;
      assert final[i].Contains(v);
      forall x: nat | Covers(seeds, x) ensures v <= Trace(stages, x) {
        assert Reaches(stages, seeds, Trace(stages, x));
        var j :| 0 <= j < |final| && final[j].Contains(Trace(stages, x));
      }
    }
  }

  // ---------------------------------------------------------------------
  // Rule order does not matter when domains are disjoint

  /** With disjoint domains, an id in some rule's domain is moved by that rule. */
  lemma {:induction false} LookupByDomain(rules: seq<Rule>, x: nat, k: nat)
    requires DisjointDomains(rules) && k < |rules| && rules[k].InDomain(x)
    ensures Lookup(rules, x) == rules[k].Shift(x)
    decreases |rules|
  {
    if k > 0 {
      assert !rules[0].InDomain(x);
      assert DisjointDomains(rules[1..]) by {
        forall i, j | 0 <= i < j < |rules| - 1
          ensures rules[1..][i].src + rules[1..][i].len <= rules[1..][j].src ||
                  rules[1..][j].src + rules[1..][j].len <= rules[1..][i].src {
          assert rules[1..][i] == rules[i + 1] && rules[1..][j] == rules[j + 1];
        }
      }
      LookupByDomain(rules[1..], x, k - 1);
    }
  }

  /** Whatever the rule list, lookup either moves `x` by a rule holding it or leaves it. */
  lemma {:induction false} LookupCases(rules: seq<Rule>, x: nat)
    ensures (forall k :: 0 <= k < |rules| ==> !rules[k].InDomain(x)) ==> Lookup(rules, x) == x
    ensures (exists k :: 0 <= k < |rules| && rules[k].InDomain(x)) ==>
              exists k :: 0 <= k < |rules| && rules[k].InDomain(x) && Lookup(rules, x) == rules[k].Shift(x)
    decreases |rules|
  {
    if |rules| > 0 {
      LookupCases(rules[1..], x);
      if !rules[0].InDomain(x) {
        assert forall k :: 1 <= k < |rules| ==> rules[1..][k - 1] == rules[k];
        if exists k :: 0 <= k < |rules| && rules[k].InDomain(x) {
          var k :| 0 <= k < |rules| && rules[k].InDomain(x);
          assert rules[1..][k - 1].InDomain(x);
          var k' :| 0 <= k' < |rules| - 1 && rules[1..][k'].InDomain(x) && Lookup(rules[1..], x) == rules[1..][k'].Shift(x);
          assert rules[k' + 1].InDomain(x) && Lookup(rules, x) == rules[k' + 1].Shift(x);
        }
      } else {
        assert rules[0].InDomain(x) && Lookup(rules, x) == rules[0].Shift(x);
      }
    }
  }

  /**
    Order independence: the same disjoint rules listed in any order (or with
    repeats) move every id the same way.
  */
  lemma ReorderedRulesLookup(rules: seq<Rule>, reordered: seq<Rule>, x: nat)
    requires DisjointDomains(rules)
    requires forall r :: r in reordered <==> r in rules
    ensures Lookup(reordered, x) == Lookup(rules, x)
  {
    LookupCases(reordered, x);
    LookupCases(rules, x);
    if exists k :: 0 <= k < |reordered| && reordered[k].InDomain(x) {
      var k :| 0 <= k < |reordered| && reordered[k].InDomain(x) && Lookup(reordered, x) == reordered[k].Shift(x);
      assert reordered[k] in rules;
      var j :| 0 <= j < |rules| && rules[j] == reordered[k];
      LookupByDomain(rules, x, j);
    } else {
      forall k | 0 <= k < |rules| ensures !rules[k].InDomain(x) {
        assert rules[k] in reordered;
      }
    }
  }

  /** Hence a map's output covers the same ids whatever the order of its disjoint rules. */
  lemma ReorderedRulesCorrespond(m: Map, reordered: seq<Rule>, inp: Interval)
    requires inp.Valid() && DisjointDomains(m.rules)
    requires forall r :: r in reordered <==> r in m.rules
    ensures forall y ::
              Covers(Correspond(m, inp), y) <==> Covers(Correspond(m.(rules := reordered), inp), y)
  {
    var m' := m.(rules := reordered);
    CorrespondIsLookup(m, inp);
    CorrespondIsLookup(m', inp);
    forall y ensures InImage(m.rules, [inp], y) <==> InImage(reordered, [inp], y) {
      if InImage(m.rules, [inp], y) {
        var x: nat :| Covers([inp], x) && Lookup(m.rules, x) == y;
        ReorderedRulesLookup(m.rules, reordered, x);
      }
      if InImage(reordered, [inp], y) {
        var x: nat :| Covers([inp], x) && Lookup(reordered, x) == y;
        ReorderedRulesLookup(m.rules, reordered, x);
      }
    }
  }

  // ---------------------------------------------------------------------
  // `convert` as written, rules of length 0 included

  /** Every rule of the list has a non-empty domain. */
  predicate Positive(rules: seq<Rule>) { forall i :: 0 <= i < |rules| ==> rules[i].len > 0 }

  predicate AllPositive(stages: seq<Map>) { forall i :: 0 <= i < |stages| ==> Positive(stages[i].rules) }

  /**
    `ConversionRange::convert` exactly as written, for any rule and any
    range. `src + len - 1` underflows for a rule with `src` and `len` both
    0, and `dst + overlap_end - src` underflows when a rule of length 0 and
    `dst` 0 splits the input: both are `u64` panics. Any other rule of
    length 0 that splits the input yields the empty overlap `dst..=dst-1`.
  */
  function ConvertAsWritten(r: Rule, inp: Interval): (p: Outcome<Pieces>)
    ensures p.Panic? <==> r.src + r.len == 0 || (r.len == 0 && r.dst == 0 && inp.start < r.src <= inp.end)
    ensures r.len > 0 && inp.Valid() ==> p == Done(Convert(r, inp))
    ensures p.Done? && r.len == 0 && inp.Valid() ==>
              p.value.below == Convert(r, inp).below && p.value.above == Convert(r, inp).above &&
              p.value.overlap == (if inp.start < r.src <= inp.end then Some(Interval(r.dst, r.dst - 1)) else None)
  {
    if r.src + r.len == 0 then Panic
    else
      var srcEnd := r.src + r.len - 1;
      var below :=
        if inp.start < r.src then Some(Interval(inp.start, Min(r.src - 1, inp.end))) else None;
      var hit := inp.end >= r.src && inp.start <= srcEnd;
      if hit && r.dst + Min(inp.end, srcEnd) < r.src then Panic
      else
        var overlap :=
          if hit then Some(Interval(r.dst + Max(inp.start, r.src) - r.src, r.dst + Min(inp.end, srcEnd) - r.src))
          else None;
        var above :=
          if inp.end > srcEnd then Some(Interval(Max(srcEnd + 1, inp.start), inp.end)) else None;
        Done(Pieces(below, overlap, above))
  }

  /** One pass of the rule loop as written: it panics exactly when splitting some pending range does. */
  function SplitAllAsWritten(r: Rule, ranges: seq<Interval>): (out: Outcome<(seq<Interval>, seq<Interval>)>)
    ensures out.Panic? <==> exists k :: 0 <= k < |ranges| && ConvertAsWritten(r, ranges[k]).Panic?
    ensures r.len > 0 && AllValid(ranges) ==> out == Done(SplitAll(r, ranges))
  {
    if |ranges| == 0 then Done(([], []))
    else
      var p := ConvertAsWritten(r, ranges[0]);
      var rest := SplitAllAsWritten(r, ranges[1..]);
      assert forall k :: 1 <= k < |ranges| ==> ranges[1..][k - 1] == ranges[k];
      if p.Panic? || rest.Panic? then Panic
      else
        Done((PieceSeq(p.value.overlap) + rest.value.0,
              PieceSeq(p.value.below) + PieceSeq(p.value.above) + rest.value.1))
  }

  /** The rule loop as written. */
  function PassAsWritten(rules: seq<Rule>, ranges: seq<Interval>, result: seq<Interval>): (out: Outcome<seq<Interval>>)
    ensures Positive(rules) && AllValid(ranges) ==> out == Done(Pass(rules, ranges, result))
    decreases |rules|
  {
    if |rules| == 0 then Done(result + ranges)
    else
      var split := SplitAllAsWritten(rules[0], ranges);
      if split.Panic? then Panic
      else PassAsWritten(rules[1..], split.value.1, result + split.value.0)
  }

  /** `Map::correspond` as written. */
  function CorrespondAsWritten(m: Map, inp: Interval): (out: Outcome<seq<Interval>>)
    ensures Positive(m.rules) && inp.Valid() ==> out == Done(Correspond(m, inp))
  {
    PassAsWritten(m.rules, [inp], [])
  }

  /** One stage of the fold as written. */
  function MapAllAsWritten(m: Map, ranges: seq<Interval>): (out: Outcome<seq<Interval>>)
    ensures |ranges| == 0 ==> out == Done([])
    ensures Positive(m.rules) && AllValid(ranges) ==> out == Done(MapAll(m, ranges))
  {
    if |ranges| == 0 then Done([])
    else
      var head := CorrespondAsWritten(m, ranges[0]);
      var rest := MapAllAsWritten(m, ranges[1..]);
      if head.Panic? || rest.Panic? then Panic else Done(head.value + rest.value)
  }

  /** The fold through every stage as written. */
  function FoldAsWritten(stages: seq<Map>, ranges: seq<Interval>): (out: Outcome<seq<Interval>>)
    ensures |ranges| == 0 ==> out == Done([])
    ensures AllPositive(stages) && AllValid(ranges) ==> out == Done(Fold(stages, ranges))
  {
    if |stages| == 0 then Done(ranges)
    else
      var next := MapAllAsWritten(stages[0], ranges);
      if next.Panic? then Panic else FoldAsWritten(stages[1..], next.value)
  }

  /**
    `Almanac::min_soil_number` as written, for any rules and any seed
    ranges. The least `start` of the final ranges may belong to an empty
    range (`ZeroLengthPhantom`). When every rule of the chain has a
    non-empty domain it agrees with `MinSoilNumber`.
  */
  function MinSoilNumberAsWritten(a: Almanac, seeds: seq<Interval>): (r: Outcome<nat>)
    ensures Endless(a.maps) || |seeds| == 0 ==> r.Panic?
    ensures AllPositive(SeedChain(a.maps)) && AllValid(seeds) ==> r == MinSoilNumber(a, seeds)
  {
    if Endless(a.maps) then Panic
    else
      var final := FoldAsWritten(SeedChain(a.maps), seeds);
      if final.Panic? || |final.value| == 0 then Panic else Done(MinStart(final.value))
  }

  /** A single map from "seed" to another category is the whole chain, and it ends. */
  lemma SingleStage(m: Map)
    requires m.dstCategory != "seed"
    ensures SeedChain(map["seed" := m]) == [m] && !Endless(map["seed" := m])
  {
    assert map["seed" := m].Keys == {"seed"};
  }

  /** The stage "1 5 0" as written and corrected, on the seeds 3..=7. */
  lemma PhantomStage()
    ensures var m := Map("seed", "location", [Rule(5, 1, 0)]);
      MapAllAsWritten(m, [Interval(3, 7)]) == Done([Interval(1, 0), Interval(3, 4), Interval(5, 7)]) &&
      MapAll(m, [Interval(3, 7)]) == [Interval(3, 4), Interval(5, 7)]
  {
    var m := Map("seed", "location", [Rule(5, 1, 0)]);
    assert ConvertAsWritten(Rule(5, 1, 0), Interval(3, 7))
           == Done(Pieces(Some(Interval(3, 4)), Some(Interval(1, 0)), Some(Interval(5, 7))));
    assert Convert(Rule(5, 1, 0), Interval(3, 7)) == Pieces(Some(Interval(3, 4)), None, Some(Interval(5, 7)));
    assert [Interval(3, 7)][1..] == [];
    assert SplitAllAsWritten(Rule(5, 1, 0), []) == Done(([], []));
    assert [Interval(1, 0)] + [] == [Interval(1, 0)];
    assert [Interval(3, 4)] + [Interval(5, 7)] + [] == [Interval(3, 4), Interval(5, 7)];
    assert SplitAllAsWritten(Rule(5, 1, 0), [Interval(3, 7)])
           == Done(([Interval(1, 0)], [Interval(3, 4), Interval(5, 7)]));
    assert [Rule(5, 1, 0)][1..] == [];
    var rest: seq<Rule> := [];
    assert [Interval(1, 0)] + [Interval(3, 4), Interval(5, 7)] == [Interval(1, 0), Interval(3, 4), Interval(5, 7)];
    assert PassAsWritten(rest, [Interval(3, 4), Interval(5, 7)], [Interval(1, 0)])
           == Done([Interval(1, 0), Interval(3, 4), Interval(5, 7)]);
    var none: seq<Interval> := [];
    assert none + [Interval(1, 0)] == [Interval(1, 0)];
    assert PassAsWritten(m.rules, [Interval(3, 7)], none)
           == PassAsWritten(rest, [Interval(3, 4), Interval(5, 7)], [Interval(1, 0)]);
    assert CorrespondAsWritten(m, Interval(3, 7)) == Done([Interval(1, 0), Interval(3, 4), Interval(5, 7)]);
    assert Correspond(m, Interval(3, 7)) == [Interval(3, 4), Interval(5, 7)];
    assert [Interval(1, 0), Interval(3, 4), Interval(5, 7)] + [] == [Interval(1, 0), Interval(3, 4), Interval(5, 7)];
    assert [Interval(3, 4), Interval(5, 7)] + [] == [Interval(3, 4), Interval(5, 7)];
  }

  /**
    A rule of length 0 that splits the seeds leaves the empty overlap
    `dst..=dst-1` among the results: under the rule "1 5 0" the seeds
    3..=7 give the answer 1 as written, a location no seed reaches, where
    the least location reached is 3.
  */
  lemma ZeroLengthPhantom()
    ensures var a := Almanac([], map["seed" := Map("seed", "location", [Rule(5, 1, 0)])]);
      MinSoilNumberAsWritten(a, [Interval(3, 7)]) == Done(1) &&
      MinSoilNumber(a, [Interval(3, 7)]) == Done(3) &&
      !Reaches(SeedChain(a.maps), [Interval(3, 7)], 1)
  {
    PhantomWritten();
    PhantomCorrected();
  }

  lemma PhantomWritten()
    ensures MinSoilNumberAsWritten(Almanac([], map["seed" := Map("seed", "location", [Rule(5, 1, 0)])]), [Interval(3, 7)]) == Done(1)
  {
    var m := Map("seed", "location", [Rule(5, 1, 0)]);
    SingleStage(m);
    PhantomStage();
    assert [m][1..] == [];
    var written := [Interval(1, 0), Interval(3, 4), Interval(5, 7)];
    assert FoldAsWritten([m], [Interval(3, 7)]) == Done(written);
    assert MinStart(written) == 1 by {
      assert written[0].start == 1;
    }
  }

  lemma PhantomCorrected()
    ensures MinSoilNumber(Almanac([], map["seed" := Map("seed", "location", [Rule(5, 1, 0)])]), [Interval(3, 7)]) == Done(3)
  {
    var m := Map("seed", "location", [Rule(5, 1, 0)]);
    SingleStage(m);
    PhantomStage();
    assert [m][1..] == [];
    var corrected := [Interval(3, 4), Interval(5, 7)];
    assert Fold([m], [Interval(3, 7)]) == corrected;
    assert MinStart(corrected) == 3 by {
      assert corrected[0].start == 3;
    }
  }

  /** The stage with the single rule `r`, on the seeds 3..=7, panics as written when converting 3..=7 does. */
  lemma PanickingStage(r: Rule)
    requires ConvertAsWritten(r, Interval(3, 7)).Panic?
    ensures FoldAsWritten([Map("seed", "location", [r])], [Interval(3, 7)]).Panic?
  {
    var m := Map("seed", "location", [r]);
    assert SplitAllAsWritten(r, [Interval(3, 7)]).Panic?;
    assert PassAsWritten(m.rules, [Interval(3, 7)], []).Panic?;
    assert MapAllAsWritten(m, [Interval(3, 7)]).Panic?;
  }

  /** The two rules of length 0 whose arithmetic underflows make the code as written panic. */
  lemma ZeroLengthUnderflow()
    ensures MinSoilNumberAsWritten(Almanac([], map["seed" := Map("seed", "location", [Rule(0, 5, 0)])]), [Interval(3, 7)]).Panic?
    ensures MinSoilNumberAsWritten(Almanac([], map["seed" := Map("seed", "location", [Rule(5, 0, 0)])]), [Interval(3, 7)]).Panic?
    ensures MinSoilNumber(Almanac([], map["seed" := Map("seed", "location", [Rule(0, 5, 0)])]), [Interval(3, 7)]) == Done(3)
  {
    var m1 := Map("seed", "location", [Rule(0, 5, 0)]);
    var m2 := Map("seed", "location", [Rule(5, 0, 0)]);
    SingleStage(m1);
    SingleStage(m2);
    PanickingStage(Rule(0, 5, 0));
    PanickingStage(Rule(5, 0, 0));
    assert [Interval(3, 7)][1..] == [];
    assert Convert(Rule(0, 5, 0), Interval(3, 7)) == Pieces(None, None, Some(Interval(3, 7)));
    assert Correspond(m1, Interval(3, 7)) == [Interval(3, 7)];
    assert [m1][1..] == [];
    assert Fold([m1], [Interval(3, 7)]) == [Interval(3, 7)];
  }

  // ---------------------------------------------------------------------
  // Worked examples

  /** Seed 79 under rules "50 98 2" and "52 50 48" becomes soil 81. */
  lemma SeedSeventyNine()
    ensures Correspond(Map("seed", "soil", [Rule(98, 50, 2), Rule(50, 52, 48)]), Interval(79, 79))
            == [Interval(81, 81)]
  {
    var r1, r2 := Rule(98, 50, 2), Rule(50, 52, 48);
    assert Convert(r1, Interval(79, 79)) == Pieces(Some(Interval(79, 79)), None, None);
    assert Convert(r2, Interval(79, 79)) == Pieces(None, Some(Interval(81, 81)), None);
    assert [Interval(79, 79)][1..] == [];
    assert SplitAll(r1, []) == ([], []) && SplitAll(r2, []) == ([], []);
    assert PieceSeq(Convert(r1, Interval(79, 79)).overlap) == [];
    assert PieceSeq(Convert(r1, Interval(79, 79)).above) == [];
    assert PieceSeq(Some(Interval(81, 81))) + [] == [Interval(81, 81)];
    var s1 := SplitAll(r1, [Interval(79, 79)]);
    assert s1.0 == [];
    assert s1.1 == [Interval(79, 79)];
    assert SplitAll(r2, [Interval(79, 79)]) == ([Interval(81, 81)], []);
  }

  /** Seed range 79..=92 inside rule "52 50 48" becomes exactly 81..=94. */
  lemma SeedRangeInsideRule()
    ensures Correspond(Map("seed", "soil", [Rule(50, 52, 48)]), Interval(79, 92)) == [Interval(81, 94)]
  {
    assert Convert(Rule(50, 52, 48), Interval(79, 92)) == Pieces(None, Some(Interval(81, 94)), None);
    assert [Interval(79, 92)][1..] == [];
  }

  // ---------------------------------------------------------------------
  // Helper facts about collections

  lemma CoversCons(a: seq<Interval>, b: seq<Interval>)
    ensures forall x :: Covers(a + b, x) <==> Covers(a, x) || Covers(b, x)
  {
    forall x ensures Covers(a + b, x) <==> Covers(a, x) || Covers(b, x) {
      if Covers(a + b, x) {
        var i :| 0 <= i < |a + b| && (a + b)[i].Contains(x);
        if i >= |a| { assert b[i - |a|] == (a + b)[i]; }
      }
      if Covers(b, x) {
        var i :| 0 <= i < |b| && b[i].Contains(x);
        assert (a + b)[|a| + i] == b[i];
      }
      if Covers(a, x) {
        var i :| 0 <= i < |a| && a[i].Contains(x);
        assert (a + b)[i] == a[i];
      }
    }
  }

  lemma PieceSeqCovers(p: Option<Interval>)
    ensures forall x :: Covers(PieceSeq(p), x) <==> PieceContains(p, x)
  {
    if p.Some? {
      forall x | PieceContains(p, x) ensures Covers(PieceSeq(p), x) {
        assert PieceSeq(p)[0].Contains(x);
      }
    }
  }

  lemma InImageCons(rules: seq<Rule>, ranges: seq<Interval>, y: int)
    requires |ranges| > 0
    ensures InImage(rules, ranges, y) <==> InImage(rules, [ranges[0]], y) || InImage(rules, ranges[1..], y)
  {
    CoversFirst(ranges);
    assert forall x :: Covers([ranges[0]], x) <==> ranges[0].Contains(x) by {
      forall x | ranges[0].Contains(x) ensures Covers([ranges[0]], x) {
        assert [ranges[0]][0].Contains(x);
      }
    }
    if InImage(rules, ranges, y) {
      var x: nat :| Covers(ranges, x) && Lookup(rules, x) == y;
      if ranges[0].Contains(x) {
        assert Covers([ranges[0]], x);
      } else {
        assert Covers(ranges[1..], x);
      }
    }
    if InImage(rules, [ranges[0]], y) {
      var x: nat :| Covers([ranges[0]], x) && Lookup(rules, x) == y;
      assert Covers(ranges, x);
    }
    if InImage(rules, ranges[1..], y) {
      var x: nat :| Covers(ranges[1..], x) && Lookup(rules, x) == y;
      assert Covers(ranges, x);
    }
  }

  /** A collection of valid intervals holds no id exactly when it is empty. */
  lemma {:induction false} EmptyIffNoIds(rs: seq<Interval>)
    requires AllValid(rs)
    ensures TotalSize(rs) >= |rs|
  {
    if |rs| > 0 {
      EmptyIffNoIds(rs[1..]);
    }
  }

  lemma CoversFirst(rs: seq<Interval>)
    requires |rs| > 0
    ensures forall x :: Covers(rs, x) <==> rs[0].Contains(x) || Covers(rs[1..], x)
  {
    assert rs == [rs[0]] + rs[1..];
    CoversCons([rs[0]], rs[1..]);
  }

  lemma SizeAppend(a: seq<Interval>, b: seq<Interval>)
    ensures TotalSize(a + b) == TotalSize(a) + TotalSize(b)
  {
    if |a| == 0 {
      assert a + b == b;
    } else {
      assert (a + b)[1..] == a[1..] + b;
      SizeAppend(a[1..], b);
    }
  }

  lemma SeedRangesCons(nums: seq<nat>, x: int)
    requires |nums| >= 2
    ensures InSeedRanges(nums, x) <==> (nums[0] <= x < nums[0] + nums[1]) || InSeedRanges(nums[2..], x)
  {
    var tail := nums[2..];
    if InSeedRanges(nums, x) {
      var k :| 0 <= k < |nums| / 2 && nums[2 * k] <= x < nums[2 * k] + nums[2 * k + 1];
      if k > 0 {
        assert tail[2 * (k - 1)] == nums[2 * k] && tail[2 * (k - 1) + 1] == nums[2 * k + 1];
      }
    }
    if InSeedRanges(tail, x) {
      var k :| 0 <= k < |tail| / 2 && tail[2 * k] <= x < tail[2 * k] + tail[2 * k + 1];
      assert nums[2 * (k + 1)] == tail[2 * k] && nums[2 * (k + 1) + 1] == tail[2 * k + 1];
    }
    if nums[0] <= x < nums[0] + nums[1] {
      assert nums[2 * 0] <= x < nums[2 * 0] + nums[2 * 0 + 1];
    }
  }

  lemma PairsOkCons(nums: seq<nat>)
    requires |nums| >= 2
    ensures PairsOk(nums) <==> nums[1] > 0 && PairsOk(nums[2..])
  {
    var tail := nums[2..];
    if nums[1] > 0 && PairsOk(tail) {
      forall k | 0 <= k < |nums| / 2 ensures nums[2 * k + 1] > 0 {
        if k > 0 { assert nums[2 * k + 1] == tail[2 * (k - 1) + 1]; }
      }
    }
    if PairsOk(nums) {
      assert nums[2 * 0 + 1] > 0;
      forall k | 0 <= k < |tail| / 2 ensures tail[2 * k + 1] > 0 {
        assert tail[2 * k + 1] == nums[2 * (k + 1) + 1];
      }
    }
  }

  lemma PassValid(rules: seq<Rule>, ranges: seq<Interval>, result: seq<Interval>)
    requires AllValid(ranges) && AllValid(result)
    ensures AllValid(Pass(rules, ranges, result))
    ensures |rules| == 0 ==> Pass(rules, ranges, result) == result + ranges
    decreases |rules|
  {
    if |rules| > 0 {
      var split := SplitAll(rules[0], ranges);
      PassValid(rules[1..], split.1, result + split.0);
    }
  }
}
