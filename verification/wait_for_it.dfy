/**
  Wait For It (2023 day 6): holding a boat's button for `t` of a race's
  `duration` milliseconds moves it `t * (duration - t)` millimetres; the
  ways to win are the hold times that beat the record distance.
*/
module WaitForIt {
  import opened Wrappers
  import Text

  datatype Race = Race(duration: nat, distance: nat)

  /** Holding for `t` (at most the whole race) beats the record. */
  predicate Wins(r: Race, t: nat)
  {
    t <= r.duration && t * (r.duration - t) > r.distance
  }

  /** The winning hold times from `t` to the race's end, in ascending order. */
  function WinningFrom(r: Race, t: nat): (ws: seq<nat>)
    ensures forall u :: u in ws <==> t <= u && Wins(r, u)
    ensures forall i, j :: 0 <= i < j < |ws| ==> ws[i] < ws[j]
    ensures t <= r.duration ==> |ws| <= r.duration - t
    decreases r.duration + 1 - t
  {
    if t > r.duration then []
    else
      var rest := WinningFrom(r, t + 1);
      assert forall i :: 0 <= i < |rest| ==> rest[i] in rest;
      if Wins(r, t) then [t] + rest else rest
  }

  /** `winning_strategies`: every winning hold time in `0..=duration`, ascending. */
  function WinningStrategies(r: Race): (ws: seq<nat>)
    ensures forall u :: u in ws <==> Wins(r, u)
    ensures forall i, j :: 0 <= i < j < |ws| ==> ws[i] < ws[j]
    ensures |ws| == 0 || |ws| < r.duration
  {
    WinningFrom(r, 0)
  }

  /** Holding for `t` or for the rest of the race travels equally far. */
  lemma WinsSymmetric(r: Race, t: nat)
    requires t <= r.duration
    ensures Wins(r, t) <==> Wins(r, r.duration - t)
  {
    assert (r.duration - t) * (r.duration - (r.duration - t)) == t * (r.duration - t);
  }

  /** Not holding at all, or holding for the whole race, goes nowhere. */
  lemma EndsNeverWin(r: Race)
    ensures !Wins(r, 0) && !Wins(r, r.duration)
  {
  }

  /** The winning hold times form one unbroken range. */
  lemma WinsContiguous(r: Race, a: nat, b: nat, c: nat)
    requires a <= b <= c && Wins(r, a) && Wins(r, c)
    ensures Wins(r, b)
  {
    var d: int := r.duration;
    if a + b <= d {
      Rise(d, a, b);
    } else {
      Rise(d, c, b);
    }
  }

  /** Moving the hold time towards the middle never shortens the distance. */
  lemma Rise(d: int, a: int, b: int)
    requires (a <= b && a + b <= d) || (b <= a && a + b >= d)
    ensures b * (d - b) >= a * (d - a)
  {
    assert b * (d - b) - a * (d - a) == (b - a) * (d - a - b);
    NonNegative(b - a, d - a - b);
  }

  lemma NonNegative(x: int, y: int)
    requires (x >= 0 && y >= 0) || (x <= 0 && y <= 0)
    ensures x * y >= 0
  {
  }

  /** A race nobody can win. */
  predicate Unwinnable(r: Race)
  {
    forall t :: 0 <= t <= r.duration ==> !Wins(r, t)
  }

  lemma UnwinnableIff(r: Race)
    ensures Unwinnable(r) <==> |WinningStrategies(r)| == 0
  {
    var ws := WinningStrategies(r);
    if |ws| > 0 {
      assert ws[0] in ws;
    }
  }

  // ---------------------------------------------------------------------
  // Parsing

  /** `split_whitespace().skip(1)`: the columns after the label. */
  function Columns(line: string): (cs: seq<string>)
    ensures |Text.Words(line)| > 0 ==> cs == Text.Words(line)[1..]
    ensures |Text.Words(line)| == 0 ==> cs == []
  {
    var ws := Text.Words(line);
    if |ws| == 0 then [] else ws[1..]
  }

  /** The time line and the distance text after it, or the `unwrap` panic on input without a newline. */
  function Lines(input: string): (r: Outcome<(string, string)>)
    ensures r.Panic? <==> forall i :: 0 <= i ==> !Text.OccursAt(input, "\n", i)
    ensures r.Done? ==> input == r.value.0 + "\n" + r.value.1 && '\n' !in r.value.0
  {
    var once := Text.SplitOnce(input, "\n");
    if once.None? then Panic
    else
      var before := once.value.0;
      assert '\n' !in before by {
        forall i | 0 <= i < |before| ensures before[i] != '\n' {
          assert input[i..i + 1] == [before[i]];
          assert !Text.OccursAt(input, "\n", i);
        }
      }
      Done(once.value)
  }

  function ParseU64(w: string): Option<nat>
  {
    Text.ParseUnsigned(w, Text.U64)
  }

  /** `zip`: the columns paired up, cut to the shorter list. */
  function Zip(times: seq<string>, distances: seq<string>): (ps: seq<(string, string)>)
    ensures |ps| == Min(|times|, |distances|)
    ensures forall k :: 0 <= k < |ps| ==> ps[k] == (times[k], distances[k])
  {
    seq(Min(|times|, |distances|), k requires 0 <= k < Min(|times|, |distances|) => (times[k], distances[k]))
  }

  /** One column pair read as a race; both numbers are `u64`s. */
  function ParseRace(p: (string, string)): (r: Option<Race>)
    ensures r.Some? <==> ParseU64(p.0).Some? && ParseU64(p.1).Some?
    ensures r.Some? ==> r.value == Race(ParseU64(p.0).value, ParseU64(p.1).value)
  {
    var t, d := ParseU64(p.0), ParseU64(p.1);
    if t.None? || d.None? then None else Some(Race(t.value, d.value))
  }

  /** The races of zipped columns; the first `unwrap` that fails panics. */
  function ZipRaces(times: seq<string>, distances: seq<string>): (r: Outcome<seq<Race>>)
    ensures r.Done? <==> forall k :: 0 <= k < Min(|times|, |distances|) ==> ParseRace((times[k], distances[k])).Some?
    ensures r.Done? ==> |r.value| == Min(|times|, |distances|)
    ensures r.Done? ==> forall k :: 0 <= k < |r.value| ==> ParseRace((times[k], distances[k])) == Some(r.value[k])
  {
    var races := Collect(Zip(times, distances), ParseRace);
    if races.None? then Panic else Done(races.value)
  }

  /** `input_to_races`: one race per column. */
  function Races(input: string): (r: Outcome<seq<Race>>)
    ensures Lines(input).Panic? ==> r.Panic?
    ensures Lines(input).Done? ==> r == ZipRaces(Columns(Lines(input).value.0), Columns(Lines(input).value.1))
    ensures Lines(input).Done? ==>
      var ts, ds := Columns(Lines(input).value.0), Columns(Lines(input).value.1);
      (r.Done? <==> forall k :: 0 <= k < Min(|ts|, |ds|) ==> ParseU64(ts[k]).Some? && ParseU64(ds[k]).Some?) &&
      (r.Done? ==>
         |r.value| == Min(|ts|, |ds|) &&
         forall k :: 0 <= k < |r.value| ==> r.value[k] == Race(ParseU64(ts[k]).value, ParseU64(ds[k]).value))
  {
    var ls := Lines(input);
    if ls.Panic? then Panic else ZipRaces(Columns(ls.value.0), Columns(ls.value.1))
  }

  /** `collect::<String>()`: the columns glued together. */
  function Glue(ws: seq<string>): (s: string)
    ensures |ws| == 1 ==> s == ws[0]
  {
    if |ws| == 0 then "" else ws[0] + Glue(ws[1..])
  }

  /** Where column `k` starts in the glued string: the lengths of the columns before it. */
  function Offset(ws: seq<string>, k: nat): nat
    requires k <= |ws|
  {
    if k == 0 then 0 else |ws[0]| + Offset(ws[1..], k - 1)
  }

  /** The glued string is as long as all columns together. */
  lemma {:induction false} GlueLength(ws: seq<string>)
    ensures |Glue(ws)| == Offset(ws, |ws|)
    decreases |ws|
  {
    if |ws| > 0 {
      GlueLength(ws[1..]);
    }
  }

  /** Column `k` sits in the glued string at its offset, unchanged. */
  lemma {:induction false} GlueAt(ws: seq<string>, k: nat)
    requires k < |ws|
    ensures Offset(ws, k) + |ws[k]| <= |Glue(ws)|
    ensures Glue(ws)[Offset(ws, k)..Offset(ws, k) + |ws[k]|] == ws[k]
    decreases k
  {
    GlueLength(ws);
    if k > 0 {
      GlueAt(ws[1..], k - 1);
      var rest := Glue(ws[1..]);
      var o := Offset(ws[1..], k - 1);
      assert Glue(ws) == ws[0] + rest;
      assert Glue(ws)[|ws[0]| + o..|ws[0]| + o + |ws[k]|] == rest[o..o + |ws[k]|];
    } else {
      assert Glue(ws) == ws[0] + Glue(ws[1..]);
    }
  }

  /** The example's time line: columns "7", "15" and "30" are read as one race of 71530 ms. */
  lemma GlueExample()
    ensures Glue(["7", "15", "30"]) == "71530"
  {
  }

  /** `input_to_race`: the columns of each line read as one number, ignoring the spaces. */
  function OneRace(input: string): (r: Outcome<Race>)
    ensures Lines(input).Panic? ==> r.Panic?
    ensures Lines(input).Done? ==>
      var race := ParseRace((Glue(Columns(Lines(input).value.0)), Glue(Columns(Lines(input).value.1))));
      (r.Done? <==> race.Some?) && (r.Done? ==> race == Some(r.value))
  {
    var ls := Lines(input);
    if ls.Panic? then Panic
    else
      var race := ParseRace((Glue(Columns(ls.value.0)), Glue(Columns(ls.value.1))));
      if race.None? then Panic else Done(race.value)
  }

  /** Words free of whitespace, joined by single spaces, stay on one line. */
  lemma {:induction false} JoinOneLine(ws: seq<string>)
    requires forall k :: 0 <= k < |ws| ==> Text.NoSpace(ws[k])
    ensures '\n' !in Text.Join(ws, " ")
    decreases |ws|
  {
    if |ws| > 0 {
      assert '\n' !in ws[0] by {
        forall i | 0 <= i < |ws[0]| ensures ws[0][i] != '\n' {
          assert !Text.IsSpace(ws[0][i]);
        }
      }
      if |ws| > 1 {
        JoinOneLine(ws[1..]);
      }
    }
  }

  /** Text without a line break, a newline and more text: `split_once` cuts at that newline. */
  lemma LinesOf(a: string, b: string)
    requires '\n' !in a
    ensures Lines(a + "\n" + b) == Done((a, b))
  {
    var input := a + "\n" + b;
    assert Text.OccursAt(input, "\n", |a|) by {
      assert input[|a|..|a| + 1] == "\n";
    }
    var r := Lines(input);
    var before := r.value.0;
    assert input[|before|] == '\n' && input[|a|] == '\n';
    assert forall i :: 0 <= i < |a| ==> input[i] == a[i];
    assert forall i :: 0 <= i < |before| ==> input[i] == before[i];
    assert |before| == |a|;
    assert before == input[..|a|] == a;
    assert r.value.1 == input[|a| + 1..] == b;
  }

  /** The sheet "Time: <ts>" over "Distance: <ds>", columns separated by single spaces. */
  function Sheet(ts: seq<string>, ds: seq<string>): string
  {
    Text.Join(["Time:"] + ts, " ") + "\n" + Text.Join(["Distance:"] + ds, " ")
  }

  /** Non-empty columns free of whitespace are read back from a sheet as they were written. */
  lemma SheetColumns(ts: seq<string>, ds: seq<string>)
    requires forall k :: 0 <= k < |ts| ==> |ts[k]| > 0 && Text.NoSpace(ts[k])
    requires forall k :: 0 <= k < |ds| ==> |ds[k]| > 0 && Text.NoSpace(ds[k])
    ensures Lines(Sheet(ts, ds)) == Done((Text.Join(["Time:"] + ts, " "), Text.Join(["Distance:"] + ds, " ")))
    ensures Columns(Text.Join(["Time:"] + ts, " ")) == ts
    ensures Columns(Text.Join(["Distance:"] + ds, " ")) == ds
  {
    var tl, dl := ["Time:"] + ts, ["Distance:"] + ds;
    assert forall k :: 1 <= k < |tl| ==> tl[k] == ts[k - 1];
    assert forall k :: 1 <= k < |dl| ==> dl[k] == ds[k - 1];
    Text.WordsOfJoin(tl);
    Text.WordsOfJoin(dl);
    assert tl[1..] == ts && dl[1..] == ds;
    JoinOneLine(tl);
    LinesOf(Text.Join(tl, " "), Text.Join(dl, " "));
  }

  function Durations(races: seq<Race>): seq<int>
  {
    seq(|races|, k requires 0 <= k < |races| => races[k].duration)
  }

  function Distances(races: seq<Race>): seq<int>
  {
    seq(|races|, k requires 0 <= k < |races| => races[k].distance)
  }

  /** Races written out as a sheet, one column each, read back as exactly those races. */
  lemma RacesOfSheet(races: seq<Race>)
    requires forall k :: 0 <= k < |races| ==> races[k].duration < Text.U64 && races[k].distance < Text.U64
    ensures Races(Sheet(Text.ShowAll(Durations(races)), Text.ShowAll(Distances(races)))) == Done(races)
  {
    var ts, ds := Text.ShowAll(Durations(races)), Text.ShowAll(Distances(races));
    SheetColumns(ts, ds);
    forall k | 0 <= k < |races|
      ensures ParseU64(ts[k]) == Some(races[k].duration) && ParseU64(ds[k]) == Some(races[k].distance)
    {
      Text.ParseShowNat(races[k].duration, Text.U64);
      Text.ParseShowNat(races[k].distance, Text.U64);
    }
    var r := Races(Sheet(ts, ds));
    assert r.Done?;
    assert r.value == races;
  }

  /** Every character of a column is a character of the glued string. */
  lemma GlueChars(ws: seq<string>, k: nat, i: nat)
    requires k < |ws| && i < |ws[k]|
    ensures Offset(ws, k) + i < |Glue(ws)| && ws[k][i] == Glue(ws)[Offset(ws, k) + i]
  {
    GlueAt(ws, k);
    var o := Offset(ws, k);
    assert Glue(ws)[o..o + |ws[k]|][i] == Glue(ws)[o + i];
  }

  /**
    Part two's reading: however the digits of the duration and the record
    are spread over non-empty columns, the sheet is read as the one race
    those digits spell.
  */
  lemma OneRaceOfPieces(ts: seq<string>, ds: seq<string>, race: Race)
    requires race.duration < Text.U64 && race.distance < Text.U64
    requires forall k :: 0 <= k < |ts| ==> |ts[k]| > 0
    requires forall k :: 0 <= k < |ds| ==> |ds[k]| > 0
    requires Glue(ts) == Text.ShowNat(race.duration) && Glue(ds) == Text.ShowNat(race.distance)
    ensures OneRace(Sheet(ts, ds)) == Done(race)
  {
    forall k | 0 <= k < |ts| ensures Text.NoSpace(ts[k]) {
      forall i | 0 <= i < |ts[k]| ensures !Text.IsSpace(ts[k][i]) {
        GlueChars(ts, k, i);
        assert Text.IsDigit(Glue(ts)[Offset(ts, k) + i]);
      }
    }
    forall k | 0 <= k < |ds| ensures Text.NoSpace(ds[k]) {
      forall i | 0 <= i < |ds[k]| ensures !Text.IsSpace(ds[k][i]) {
        GlueChars(ds, k, i);
        assert Text.IsDigit(Glue(ds)[Offset(ds, k) + i]);
      }
    }
    SheetColumns(ts, ds);
    Text.ParseShowNat(race.duration, Text.U64);
    Text.ParseShowNat(race.distance, Text.U64);
  }

  /** The example sheet is read by part two as the race of 71530 ms with record 940200 mm. */
  lemma OneRaceExample()
    ensures OneRace(Sheet(["7", "15", "30"], ["9", "40", "200"])) == Done(Race(71530, 940200))
  {
    assert Text.ShowNat(71530) == "71530";
    assert Text.ShowNat(940200) == "940200";
    assert Glue(["9", "40", "200"]) == "940200";
    GlueExample();
    OneRaceOfPieces(["7", "15", "30"], ["9", "40", "200"], Race(71530, 940200));
  }

  /** With a single column on each line, both readings give the same race. */
  lemma OneColumn(input: string)
    requires Lines(input).Done?
    requires |Columns(Lines(input).value.0)| == 1 && |Columns(Lines(input).value.1)| == 1
    ensures OneRace(input).Done? <==> Races(input).Done?
    ensures OneRace(input).Done? ==> Races(input).value == [OneRace(input).value]
  {
  }

  /** The product of the races' numbers of ways to win; 1 for no races. */
  function Ways(races: seq<Race>): (p: nat)
    ensures |races| == 0 ==> p == 1
    ensures p == 0 <==> exists k :: 0 <= k < |races| && Unwinnable(races[k])
  {
    if |races| == 0 then 1
    else
      assert forall k :: 1 <= k < |races| ==> races[1..][k - 1] == races[k];
      UnwinnableIff(races[0]);
      |WinningStrategies(races[0])| * Ways(races[1..])
  }

  /** `part_one`: the product of the ways to win each race. */
  function PartOne(input: string): (r: Outcome<nat>)
    ensures r.Done? <==> Races(input).Done?
    ensures r.Done? && |Races(input).value| == 0 ==> r.value == 1
    ensures r.Done? ==> (r.value == 0 <==> exists k :: 0 <= k < |Races(input).value| && Unwinnable(Races(input).value[k]))
  {
    var races := Races(input);
    if races.Panic? then Panic else Done(Ways(races.value))
  }

  /** `part_two`: the ways to win the one long race, fewer than its duration. */
  function PartTwo(input: string): (r: Outcome<nat>)
    ensures r.Done? <==> OneRace(input).Done?
    ensures r.Done? ==> (r.value == 0 <==> Unwinnable(OneRace(input).value))
    ensures r.Done? ==> r.value == 0 || r.value < OneRace(input).value.duration
  {
    var race := OneRace(input);
    if race.Panic? then Panic
    else
      UnwinnableIff(race.value);
      Done(|WinningStrategies(race.value)|)
  }
}
