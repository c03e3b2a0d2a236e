/**
  Trebuchet calibration (2023 day 1): a line's value is ten times its
  first digit plus its last digit; in the second part every spelled-out
  number word is first rewritten to carry its digit.
*/
module Trebuchet {
  import opened Wrappers
  import Text

  /** The digits of a line in order: `chars().filter_map(|c| c.to_digit(10))`. */
  function Digits(line: string): (ds: seq<nat>)
    ensures forall k :: 0 <= k < |ds| ==> ds[k] < 10
    ensures |ds| == 0 <==> forall i :: 0 <= i < |line| ==> !Text.IsDigit(line[i])
  {
    if |line| == 0 then []
    else
      var rest := Digits(line[1..]);
      assert forall i :: 1 <= i < |line| ==> line[1..][i - 1] == line[i];
      if Text.IsDigit(line[0]) then [Text.DigitValue(line[0])] + rest else rest
  }

  /**
    A line's calibration value: the first digit, then `next_back` for the
    last one, falling back to the first when it was the only digit. A line
    without digits panics on the first `unwrap`.
  */
  function LineValue(line: string): (r: Outcome<nat>)
    ensures r.Panic? <==> forall i :: 0 <= i < |line| ==> !Text.IsDigit(line[i])
    ensures r.Done? ==> r.value <= 99
  {
    var ds := Digits(line);
    if |ds| == 0 then Panic
    else
      var fst := ds[0];
      var snd := if |ds| >= 2 then ds[|ds| - 1] else fst;
      Done(fst * 10 + snd)
  }

  /** `i` is the position of the first digit of `line`. */
  predicate FirstDigitAt(line: string, i: nat)
  {
    i < |line| && Text.IsDigit(line[i]) && forall k :: 0 <= k < i ==> !Text.IsDigit(line[k])
  }

  /** `j` is the position of the last digit of `line`. */
  predicate LastDigitAt(line: string, j: nat)
  {
    j < |line| && Text.IsDigit(line[j]) && forall k :: j < k < |line| ==> !Text.IsDigit(line[k])
  }

  /**
    The value is 10·(first digit) + (last digit), read off the line's own
    characters; when the line has one digit, `i == j` and it counts twice.
  */
  lemma LineValueFirstLast(line: string, i: nat, j: nat)
    requires FirstDigitAt(line, i) && LastDigitAt(line, j)
    ensures LineValue(line) == Done(10 * Text.DigitValue(line[i]) + Text.DigitValue(line[j]))
  {
    DigitsFirst(line, i);
    DigitsLast(line, j);
  }

  lemma {:induction false} DigitsFirst(line: string, i: nat)
    requires FirstDigitAt(line, i)
    ensures |Digits(line)| > 0 && Digits(line)[0] == Text.DigitValue(line[i])
    decreases i
  {
    if i > 0 {
      assert line[1..][i - 1] == line[i];
      DigitsFirst(line[1..], i - 1);
    }
  }

  lemma {:induction false} DigitsLast(line: string, j: nat)
    requires LastDigitAt(line, j)
    ensures |Digits(line)| > 0 && Digits(line)[|Digits(line)| - 1] == Text.DigitValue(line[j])
    decreases j
  {
    if j > 0 {
      assert line[1..][j - 1] == line[j];
      DigitsLast(line[1..], j - 1);
    } else {
      assert |Digits(line[1..])| == 0 by {
        forall k | 0 <= k < |line[1..]| ensures !Text.IsDigit(line[1..][k]) {
          assert line[1..][k] == line[k + 1];
        }
      }
    }
  }

  /** Sum of the line values; the first digitless line panics. */
  function SumValues(lines: seq<string>): (r: Outcome<nat>)
    ensures r.Panic? <==> exists i :: 0 <= i < |lines| && LineValue(lines[i]).Panic?
    ensures r.Done? ==> r.value <= 99 * |lines|
  {
    if |lines| == 0 then Done(0)
    else
      var v, rest := LineValue(lines[0]), SumValues(lines[1..]);
      assert forall i :: 1 <= i < |lines| ==> lines[1..][i - 1] == lines[i];
      if v.Panic? || rest.Panic? then Panic else Done(v.value + rest.value)
  }

  /**
    `part_one`: `reduce` over no lines gives `None`, so empty input is
    `None`; otherwise the sum of the line values.
  */
  function PartOne(lines: seq<string>): (r: Outcome<Option<nat>>)
    ensures r == Done(None) <==> |lines| == 0
    ensures r.Panic? <==> exists i :: 0 <= i < |lines| && LineValue(lines[i]).Panic?
    ensures r.Done? && r.value.Some? ==> r.value.value <= 99 * |lines|
  {
    if |lines| == 0 then Done(None)
    else
      var s := SumValues(lines);
      if s.Panic? then Panic else Done(Some(s.value))
  }

  // ---------------------------------------------------------------------
  // Part two: spelled-out digits

  const NumberWords: seq<string> := ["one", "two", "three", "four", "five", "six", "seven", "eight", "nine"]

  /** The replacement for the `k`th word: the word, its digit, the word again. */
  function Spelled(k: nat): (rep: string)
    requires k < 9
    ensures NumberWords[k] <= rep
  {
    NumberWords[k] + [Text.DigitChar(k + 1)] + NumberWords[k]
  }

  /** The `fold` of `replace` over the words from the `k`th on, in the source's order. */
  function RewriteFrom(s: string, k: nat): string
    requires k <= 9
    decreases 9 - k
  {
    if k == 9 then s else RewriteFrom(Text.ReplaceAll(s, NumberWords[k], Spelled(k)), k + 1)
  }

  function Rewrite(s: string): string { RewriteFrom(s, 0) }

  /**
    `part_two`: `part_one` over the rewritten lines. The rewrite keeps
    every digit, so it panics only on input where `part_one` panics too.
  */
  function PartTwo(lines: seq<string>): (r: Outcome<Option<nat>>)
    ensures r == Done(None) <==> |lines| == 0
    ensures r.Panic? ==> exists i :: 0 <= i < |lines| && LineValue(lines[i]).Panic?
    ensures r.Done? && r.value.Some? ==> r.value.value <= 99 * |lines|
  {
    var rewritten := seq(|lines|, i requires 0 <= i < |lines| => Rewrite(lines[i]));
    assert (forall i :: 0 <= i < |lines| ==> LineValue(lines[i]).Done?) ==>
        forall i :: 0 <= i < |rewritten| ==> LineValue(rewritten[i]).Done? by {
      forall i | 0 <= i < |lines| && LineValue(lines[i]).Done? ensures LineValue(rewritten[i]).Done? {
        RewriteKeepsValue(lines[i]);
      }
    }
    PartOne(rewritten)
  }

  // ---------------------------------------------------------------------
  // The rewrite never deletes a character

  /** `f` places the characters of `a`, in order, at positions of `b`. */
  ghost predicate Embeds(a: string, b: string, f: seq<nat>)
  {
    && |f| == |a|
    && (forall k :: 0 <= k < |f| ==> f[k] < |b| && b[f[k]] == a[k])
    && (forall k, l :: 0 <= k < l < |f| ==> f[k] < f[l])
  }

  ghost predicate Subsequence(a: string, b: string)
  {
    exists f :: Embeds(a, b, f)
  }

  function Shift(f: seq<nat>, d: nat): (g: seq<nat>)
    ensures |g| == |f| && forall k :: 0 <= k < |f| ==> g[k] == f[k] + d
  {
    seq(|f|, k requires 0 <= k < |f| => f[k] + d)
  }

  function Upto(n: nat): (f: seq<nat>)
    ensures |f| == n && forall k :: 0 <= k < n ==> f[k] == k
  {
    seq(n, k => k)
  }

  /** Each replacement keeps the text it replaces, so the old text embeds in the new. */
  lemma {:induction false} ReplaceEmbeds(s: string, pat: string, rep: string) returns (f: seq<nat>)
    requires |pat| > 0 && pat <= rep
    ensures Embeds(s, Text.ReplaceAll(s, pat, rep), f)
    decreases |s|
  {
    if |s| < |pat| {
      f := Upto(|s|);
    } else if s[..|pat|] == pat {
      var rest := s[|pat|..];
      assert pat + rest == s;
      assert Text.ReplaceAll(s, pat, rep) == rep + Text.ReplaceAll(rest, pat, rep);
      var g := ReplaceEmbeds(rest, pat, rep);
      f := EmbedsConcat(pat, rep, rest, Text.ReplaceAll(rest, pat, rep), Upto(|pat|), g);
    } else {
      var head, rest := s[..1], s[1..];
      assert head + rest == s;
      assert Text.ReplaceAll(s, pat, rep) == head + Text.ReplaceAll(rest, pat, rep);
      var g := ReplaceEmbeds(rest, pat, rep);
      f := EmbedsConcat(head, head, rest, Text.ReplaceAll(rest, pat, rep), Upto(1), g);
    }
  }

  /** Embeddings of two pieces combine into one of the concatenations. */
  lemma EmbedsConcat(a1: string, b1: string, a2: string, b2: string, f1: seq<nat>, f2: seq<nat>) returns (f: seq<nat>)
    requires Embeds(a1, b1, f1) && Embeds(a2, b2, f2)
    ensures Embeds(a1 + a2, b1 + b2, f)
  {
    f := f1 + Shift(f2, |b1|);
  }

  lemma EmbedsCompose(a: string, b: string, c: string, f: seq<nat>, g: seq<nat>) returns (h: seq<nat>)
    requires Embeds(a, b, f) && Embeds(b, c, g)
    ensures Embeds(a, c, h)
  {
    h := seq(|f|, k requires 0 <= k < |f| => g[f[k]]);
  }

  /** The rewritten line still contains the original line as a subsequence. */
  lemma RewriteKeepsLine(s: string, k: nat)
    requires k <= 9
    ensures Subsequence(s, RewriteFrom(s, k))
  {
    var f := RewriteEmbeds(s, k);
  }

  /** The embedding behind `RewriteKeepsLine`, composed replacement by replacement. */
  lemma {:induction false} RewriteEmbeds(s: string, k: nat) returns (f: seq<nat>)
    requires k <= 9
    ensures Embeds(s, RewriteFrom(s, k), f)
    decreases 9 - k
  {
    if k == 9 {
      f := Upto(|s|);
    } else {
      var t := Text.ReplaceAll(s, NumberWords[k], Spelled(k));
      assert RewriteFrom(s, k) == RewriteFrom(t, k + 1);
      var e := ReplaceEmbeds(s, NumberWords[k], Spelled(k));
      var g := RewriteEmbeds(t, k + 1);
      f := EmbedsCompose(s, t, RewriteFrom(t, k + 1), e, g);
    }
  }

  /** Every character, digits included, survives the rewrite: the part-one digits are still there. */
  lemma RewriteKeepsDigits(s: string)
    ensures Subsequence(s, Rewrite(s))
  {
    RewriteKeepsLine(s, 0);
  }

  /** Rewriting keeps every digit, so a line part one can value, part two can value too. */
  lemma RewriteKeepsValue(line: string)
    requires LineValue(line).Done?
    ensures LineValue(Rewrite(line)).Done?
  {
    RewriteKeepsLine(line, 0);
    var f :| Embeds(line, Rewrite(line), f);
    var i :| 0 <= i < |line| && Text.IsDigit(line[i]);
    assert Text.IsDigit(Rewrite(line)[f[i]]);
  }

  // ---------------------------------------------------------------------
  // Overlapping words: "twone" yields both of its digits

  /** A pattern with a character the text lacks does not occur in it, so `replace` changes nothing. */
  lemma Absent(s: string, pat: string, rep: string, c: char)
    requires |pat| > 0 && c in pat && c !in s
    ensures Text.ReplaceAll(s, pat, rep) == s
  {
    var k :| 0 <= k < |pat| && pat[k] == c;
    forall i | 0 <= i ensures !Text.OccursAt(s, pat, i) {
      if i + |pat| <= |s| {
        assert s[i..i + |pat|][k] == s[i + k];
      }
    }
    Text.ReplaceAllAbsent(s, pat, rep);
  }

  /** With no earlier character that could start it, the occurrence at `i` is the first, and `replace` rewrites it and carries on after it. */
  lemma FirstAt(s: string, pat: string, rep: string, i: nat)
    requires |pat| > 0 && Text.OccursAt(s, pat, i)
    requires forall k :: 0 <= k < i ==> s[k] != pat[0]
    ensures Text.ReplaceAll(s, pat, rep) == s[..i] + rep + Text.ReplaceAll(s[i + |pat|..], pat, rep)
  {
    forall j | 0 <= j < i ensures !Text.OccursAt(s, pat, j) {
      if j + |pat| <= |s| {
        assert s[j..j + |pat|][0] == s[j];
      }
    }
    Text.ReplaceAllFirst(s, pat, rep, i);
  }

  lemma TwoneOne(s: string, t: string)
    requires s == "twone" && t == "twone1one"
    ensures RewriteFrom(s, 0) == RewriteFrom(t, 1)
  {
    OneInTwone(s, t, NumberWords[0], Spelled(0));
  }

  lemma OneInTwone(s: string, t: string, pat: string, rep: string)
    requires s == "twone" && t == "twone1one" && pat == "one" && rep == "one1one"
    ensures Text.ReplaceAll(s, pat, rep) == t
  {
    var rest := s[5..];
    assert Text.ReplaceAll(rest, pat, rep) == rest by {
      assert rest == "";
    }
    FirstAt(s, pat, rep, 2);
    assert s[..2] + rep + rest == t;
  }

  lemma TwoneTwo(s: string, t: string)
    requires s == "twone1one" && t == "two2twone1one"
    ensures RewriteFrom(s, 1) == RewriteFrom(t, 2)
  {
    TwoInTwone(s, t, NumberWords[1], Spelled(1));
  }

  lemma TwoInTwone(s: string, t: string, pat: string, rep: string)
    requires s == "twone1one" && t == "two2twone1one" && pat == "two" && rep == "two2two"
    ensures Text.ReplaceAll(s, pat, rep) == t
  {
    var rest := s[3..];
    assert Text.ReplaceAll(rest, pat, rep) == rest by {
      assert rest == "ne1one";
      Absent(rest, pat, rep, 'w');
    }
    FirstAt(s, pat, rep, 0);
    assert s[..0] + rep + rest == t;
  }

  lemma TwoneRest(s: string)
    requires s == "two2twone1one"
    ensures RewriteFrom(s, 2) == s
  {
    NoWordsFrom(s, 2, "ohhffssii");
  }

  lemma TwoneValue(s: string)
    requires s == "two2twone1one"
    ensures LineValue(s) == Done(21)
  {
    LineValueFirstLast(s, 3, 9);
  }

  /** No word from the `k`th on occurs in `s` (each lacks a character `s` lacks): the rest of the fold is the identity. */
  lemma {:induction false} NoWordsFrom(s: string, k: nat, missing: string)
    requires k <= 9 && |missing| == 9
    requires forall j :: k <= j < 9 ==> missing[j] in NumberWords[j] && missing[j] !in s
    ensures RewriteFrom(s, k) == s
    decreases 9 - k
  {
    if k < 9 {
      Absent(s, NumberWords[k], Spelled(k), missing[k]);
      NoWordsFrom(s, k + 1, missing);
    }
  }

  /**
    "twone" becomes "two2twone1one": replacing "one" keeps the "o" that
    "two" needs, so the line is worth 21 rather than 22.
  */
  lemma Twone(line: string, s1: string, s2: string)
    requires line == "twone" && s1 == "twone1one" && s2 == "two2twone1one"
    ensures Rewrite(line) == s2
    ensures LineValue(Rewrite(line)) == Done(21)
  {
    TwoneOne(line, s1);
    TwoneTwo(s1, s2);
    TwoneRest(s2);
    TwoneValue(s2);
  }
}
