/**
  The `str` operations the puzzles parse with: `find`, `split_once`,
  `split`, `split_whitespace`, `strip_prefix`, `replace` and the integer
  `parse` of the standard library, over strings as sequences of chars.
*/
module Text {
  import opened Wrappers

  /** Exclusive upper bounds of the unsigned widths the puzzles parse into. */
  const U32: nat := 0x1_0000_0000
  const U64: nat := 0x1_0000_0000_0000_0000
  /** `i32` values lie in `-I32..I32-1`. */
  const I32: nat := 0x8000_0000

  predicate IsDigit(c: char) { '0' <= c <= '9' }

  predicate AllDigits(s: string) { forall i :: 0 <= i < |s| ==> IsDigit(s[i]) }

  function DigitValue(c: char): nat
    requires IsDigit(c)
  {
    (c as int) - ('0' as int)
  }

  function DigitChar(d: nat): (c: char)
    requires d < 10
    ensures IsDigit(c) && DigitValue(c) == d
  {
    ('0' as int + d) as char
  }

  /** The number a string of decimal digits spells, most significant first. */
  function DecimalValue(s: string): nat
    requires AllDigits(s)
  {
    if |s| == 0 then 0 else DecimalValue(s[..|s| - 1]) * 10 + DigitValue(s[|s| - 1])
  }

  /** The decimal spelling of `n`, without leading zeros. */
  function ShowNat(n: nat): (s: string)
    ensures |s| > 0 && AllDigits(s)
  {
    if n < 10 then [DigitChar(n)] else ShowNat(n / 10) + [DigitChar(n % 10)]
  }

  /** Reading back a spelled number gives the number. */
  lemma {:induction false} ShowNatRoundTrip(n: nat)
    ensures DecimalValue(ShowNat(n)) == n
  {
    if n >= 10 {
      var s := ShowNat(n);
      assert s[..|s| - 1] == ShowNat(n / 10);
      ShowNatRoundTrip(n / 10);
    }
  }

  /**
    `str::parse` for an unsigned type whose values lie below `bound`:
    an optional '+' and at least one digit, nothing else, in range.
  */
  function ParseUnsigned(s: string, bound: nat): (r: Option<nat>)
    ensures r.Some? ==> r.value < bound
    ensures r.Some? <==> var d := UnsignedDigits(s); |d| > 0 && AllDigits(d) && DecimalValue(d) < bound
  {
    var d := UnsignedDigits(s);
    if |d| == 0 || !AllDigits(d) || DecimalValue(d) >= bound then None else Some(DecimalValue(d))
  }

  /** The digits after an optional leading '+'. */
  function UnsignedDigits(s: string): string
  {
    if |s| > 0 && s[0] == '+' then s[1..] else s
  }

  /** Every number in range parses back from its spelling. */
  lemma ParseShowNat(n: nat, bound: nat)
    requires n < bound
    ensures ParseUnsigned(ShowNat(n), bound) == Some(n)
  {
    ShowNatRoundTrip(n);
  }

  /**
    `str::parse::<i32>`-style parsing for a signed type holding
    `-bound..bound-1`: an optional sign and at least one digit.
  */
  function ParseSigned(s: string, bound: nat): (r: Option<int>)
    requires bound > 0
    ensures r.Some? ==> -(bound as int) <= r.value < bound
    ensures |s| > 0 && s[0] == '-' ==>
              r == (if |s| > 1 && AllDigits(s[1..]) && DecimalValue(s[1..]) <= bound
                    then Some(0 - DecimalValue(s[1..])) else None)
    ensures !(|s| > 0 && s[0] == '-') ==> r == ParseUnsigned(s, bound)
  {
    if |s| > 0 && s[0] == '-' then
      if |s| > 1 && AllDigits(s[1..]) && DecimalValue(s[1..]) <= bound
      then Some(0 - DecimalValue(s[1..])) else None
    else
      var u := ParseUnsigned(s, bound);
      if u.Some? then Some(u.value) else None
  }

  /** The decimal spelling of an integer, with a '-' before a negative one. */
  function ShowInt(v: int): (s: string)
    ensures |s| > 0 && NoSpace(s)
  {
    if v < 0 then "-" + ShowNat(-v) else ShowNat(v)
  }

  /** Every value of a signed type parses back from its spelling. */
  lemma ParseShowInt(v: int, bound: nat)
    requires -(bound as int) <= v < bound
    ensures ParseSigned(ShowInt(v), bound) == Some(v)
  {
    var s := ShowInt(v);
    if v < 0 {
      ShowNatRoundTrip(-v);
      assert s[1..] == ShowNat(-v);
    } else {
      ParseShowNat(v, bound);
      assert IsDigit(s[0]);
    }
  }

  /** The spellings of `vs`, one word per value. */
  function ShowAll(vs: seq<int>): (ws: seq<string>)
    ensures |ws| == |vs| && forall k :: 0 <= k < |vs| ==> ws[k] == ShowInt(vs[k])
  {
    seq(|vs|, k requires 0 <= k < |vs| => ShowInt(vs[k]))
  }

  // ---------------------------------------------------------------------
  // Searching and splitting

  predicate OccursAt(s: string, pat: string, i: int)
  {
    0 <= i && i + |pat| <= |s| && s[i..i + |pat|] == pat
  }

  /** `str::find`: the first index where a non-empty `pat` occurs. */
  function Find(s: string, pat: string): (r: Option<nat>)
    requires |pat| > 0
    ensures r.Some? ==> OccursAt(s, pat, r.value)
    ensures r.Some? ==> forall i :: 0 <= i < r.value ==> !OccursAt(s, pat, i)
    ensures r.None? ==> forall i :: 0 <= i ==> !OccursAt(s, pat, i)
    decreases |s|
  {
    if |s| < |pat| then None
    else if s[..|pat|] == pat then Some(0)
    else
      var rest := Find(s[1..], pat);
      assert forall i :: 1 <= i && OccursAt(s, pat, i) ==> OccursAt(s[1..], pat, i - 1) by {
        forall i | 1 <= i && OccursAt(s, pat, i) ensures OccursAt(s[1..], pat, i - 1) {
          assert s[1..][i - 1..i - 1 + |pat|] == s[i..i + |pat|];
        }
      }
      if rest.None? then None
      else
        assert s[1..][rest.value..rest.value + |pat|] == s[rest.value + 1..rest.value + 1 + |pat|];
        Some(rest.value + 1)
  }

  /** `str::split_once`: the text before and after the first `sep`. */
  function SplitOnce(s: string, sep: string): (r: Option<(string, string)>)
    requires |sep| > 0
    ensures r.Some? ==> s == r.value.0 + sep + r.value.1
    ensures r.Some? ==> forall i :: 0 <= i < |r.value.0| ==> !OccursAt(s, sep, i)
    ensures r.None? <==> forall i :: 0 <= i ==> !OccursAt(s, sep, i)
  {
    var f := Find(s, sep);
    if f.None? then None
    else
      var i := f.value;
      assert s == s[..i] + s[i..i + |sep|] + s[i + |sep|..];
      Some((s[..i], s[i + |sep|..]))
  }

  /** `str::strip_prefix`. */
  function StripPrefix(s: string, prefix: string): (r: Option<string>)
    ensures r.Some? <==> prefix <= s
    ensures r.Some? ==> s == prefix + r.value
  {
    if prefix <= s then
      assert s == prefix + s[|prefix|..];
      Some(s[|prefix|..])
    else None
  }

  /** `str::split` by a non-empty separator: the pieces between its leftmost matches. */
  function Split(s: string, sep: string): (parts: seq<string>)
    requires |sep| > 0
    ensures |parts| > 0
    decreases |s|
  {
    var once := SplitOnce(s, sep);
    if once.None? then [s] else [once.value.0] + Split(once.value.1, sep)
  }

  /** Glues pieces back together with `sep` between neighbours. */
  function Join(parts: seq<string>, sep: string): string
  {
    if |parts| == 0 then ""
    else if |parts| == 1 then parts[0]
    else parts[0] + sep + Join(parts[1..], sep)
  }

  /** Splitting loses nothing: joining the pieces with the separator restores the text. */
  lemma {:induction false} SplitJoin(s: string, sep: string)
    requires |sep| > 0
    ensures Join(Split(s, sep), sep) == s
    decreases |s|
  {
    var once := SplitOnce(s, sep);
    if once.Some? {
      SplitJoin(once.value.1, sep);
      var tail := Split(once.value.1, sep);
      assert Split(s, sep) == [once.value.0] + tail;
      assert ([once.value.0] + tail)[1..] == tail;
    }
  }

  /** Rust's `char::is_whitespace`, restricted to ASCII. */
  predicate IsSpace(c: char)
  {
    c == ' ' || c == '\t' || c == '\n' || c == '\r' || c == '\U{0B}' || c == '\U{0C}'
  }

  predicate NoSpace(w: string) { forall i :: 0 <= i < |w| ==> !IsSpace(w[i]) }

  /** The longest prefix of `s` free of whitespace. */
  function WordPrefix(s: string): (w: string)
    ensures w <= s && NoSpace(w)
    ensures |w| == |s| || IsSpace(s[|w|])
  {
    if |s| == 0 || IsSpace(s[0]) then ""
    else
      var w := WordPrefix(s[1..]);
      [s[0]] + w
  }

  /** `str::split_whitespace`: the maximal runs of non-whitespace. */
  function Words(s: string): (ws: seq<string>)
    ensures forall k :: 0 <= k < |ws| ==> |ws[k]| > 0 && NoSpace(ws[k])
    decreases |s|
  {
    if |s| == 0 then []
    else if IsSpace(s[0]) then Words(s[1..])
    else
      var w := WordPrefix(s);
      [w] + Words(s[|w|..])
  }

  /** Words joined by single spaces split back into the same words. */
  lemma {:induction false} WordsOfJoin(ws: seq<string>)
    requires forall k :: 0 <= k < |ws| ==> |ws[k]| > 0 && NoSpace(ws[k])
    ensures Words(Join(ws, " ")) == ws
    decreases |ws|
  {
    if |ws| == 1 {
      WordPrefixWhole(ws[0], "");
      assert ws[0] + "" == ws[0];
      assert ws[0][|ws[0]|..] == "";
    } else if |ws| > 1 {
      WordsCons(ws[0], Join(ws[1..], " "));
      WordsOfJoin(ws[1..]);
      assert ws == [ws[0]] + ws[1..];
    }
  }

  /** Values written out with single spaces split back into their spellings. */
  lemma WordsOfShown(vs: seq<int>)
    ensures Words(Join(ShowAll(vs), " ")) == ShowAll(vs)
  {
    WordsOfJoin(ShowAll(vs));
  }

  /** A word, a run of whitespace and more text split into the word and the words of the rest. */
  lemma WordsGap(w: string, gap: string, rest: string)
    requires |w| > 0 && NoSpace(w)
    requires |gap| > 0 && forall i :: 0 <= i < |gap| ==> IsSpace(gap[i])
    ensures Words(w + gap + rest) == [w] + Words(rest)
  {
    var s := w + gap + rest;
    WordPrefixWhole(w, gap + rest);
    assert w + (gap + rest) == s;
    assert s[|w|..] == gap + rest;
    SkipSpaces(gap, rest);
  }

  /** Leading whitespace adds no word. */
  lemma {:induction false} SkipSpaces(gap: string, rest: string)
    requires forall i :: 0 <= i < |gap| ==> IsSpace(gap[i])
    ensures Words(gap + rest) == Words(rest)
    decreases |gap|
  {
    if |gap| > 0 {
      assert (gap + rest)[1..] == gap[1..] + rest;
      SkipSpaces(gap[1..], rest);
    } else {
      assert gap + rest == rest;
    }
  }

  /** A word, a space and more text split into the word and the words of the rest. */
  lemma WordsCons(w: string, rest: string)
    requires |w| > 0 && NoSpace(w)
    ensures Words(w + " " + rest) == [w] + Words(rest)
  {
    var s := w + " " + rest;
    WordPrefixWhole(w, " " + rest);
    assert w + (" " + rest) == s;
    assert s[|w|..] == " " + rest;
    assert (" " + rest)[1..] == rest;
  }

  lemma {:induction false} WordPrefixWhole(w: string, t: string)
    requires |w| > 0 && NoSpace(w)
    requires |t| == 0 || IsSpace(t[0])
    ensures WordPrefix(w + t) == w
    decreases |w|
  {
    if |w| > 1 {
      assert (w + t)[1..] == w[1..] + t;
      WordPrefixWhole(w[1..], t);
      assert w == [w[0]] + w[1..];
    } else {
      assert (w + t)[1..] == t;
    }
  }

  /**
    `str::replace`: every leftmost non-overlapping occurrence of a
    non-empty `pat` becomes `rep`, scanning from the front.
  */
  function ReplaceAll(s: string, pat: string, rep: string): string
    requires |pat| > 0
    decreases |s|
  {
    if |s| < |pat| then s
    else if s[..|pat|] == pat then rep + ReplaceAll(s[|pat|..], pat, rep)
    else [s[0]] + ReplaceAll(s[1..], pat, rep)
  }

  /** Text with no occurrence starting before `i` goes through `replace` unchanged up to `i`. */
  lemma {:induction false} ReplaceAllSkips(s: string, pat: string, rep: string, i: nat)
    requires |pat| > 0 && i <= |s|
    requires forall j :: 0 <= j < i ==> !OccursAt(s, pat, j)
    ensures ReplaceAll(s, pat, rep) == s[..i] + ReplaceAll(s[i..], pat, rep)
    decreases i
  {
    if i == 0 {
      assert s[..0] + s[0..] == s;
    } else if |s| < |pat| {
      assert s[..i] + s[i..] == s;
    } else {
      assert !OccursAt(s, pat, 0);
      assert s[..|pat|] != pat by {
        assert s[0..0 + |pat|] == s[..|pat|];
      }
      var rest := s[1..];
      forall j | 0 <= j < i - 1 ensures !OccursAt(rest, pat, j) {
        assert !OccursAt(s, pat, j + 1);
        if j + |pat| <= |rest| {
          assert rest[j..j + |pat|] == s[j + 1..j + 1 + |pat|];
        }
      }
      ReplaceAllSkips(rest, pat, rep, i - 1);
      assert rest[i - 1..] == s[i..];
      assert [s[0]] + rest[..i - 1] == s[..i];
    }
  }

  /** `replace` leaves text without an occurrence as it is. */
  lemma ReplaceAllAbsent(s: string, pat: string, rep: string)
    requires |pat| > 0 && forall j :: 0 <= j ==> !OccursAt(s, pat, j)
    ensures ReplaceAll(s, pat, rep) == s
  {
    ReplaceAllSkips(s, pat, rep, |s|);
    assert s[..|s|] == s;
  }

  /** `replace` rewrites the first occurrence and carries on after its end. */
  lemma ReplaceAllFirst(s: string, pat: string, rep: string, i: nat)
    requires |pat| > 0 && OccursAt(s, pat, i)
    requires forall j :: 0 <= j < i ==> !OccursAt(s, pat, j)
    ensures ReplaceAll(s, pat, rep) == s[..i] + rep + ReplaceAll(s[i + |pat|..], pat, rep)
  {
    var t, rest := s[i..], s[i + |pat|..];
    assert ReplaceAll(t, pat, rep) == rep + ReplaceAll(rest, pat, rep) by {
      assert t[..|pat|] == pat;
      assert t[|pat|..] == rest;
    }
    ReplaceAllSkips(s, pat, rep, i);
  }

  /** The scan agrees with the description through `find`: nothing to do, or rewrite the first occurrence and carry on. */
  lemma ReplaceAllFind(s: string, pat: string, rep: string)
    requires |pat| > 0
    ensures Find(s, pat).None? ==> ReplaceAll(s, pat, rep) == s
    ensures Find(s, pat).Some? ==>
      var i := Find(s, pat).value;
      ReplaceAll(s, pat, rep) == s[..i] + rep + ReplaceAll(s[i + |pat|..], pat, rep)
  {
    match Find(s, pat)
    case None => ReplaceAllAbsent(s, pat, rep);
    case Some(i) =>
      assert ReplaceAll(s, pat, rep) == s[..i] + rep + ReplaceAll(s[i + |pat|..], pat, rep) by {
        ReplaceAllFirst(s, pat, rep, i);
      }
  }
}
