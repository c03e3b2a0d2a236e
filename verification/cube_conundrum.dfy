/**
  Cube Conundrum (2023 day 2): games of cube draws, which of them a bag
  of 12 red, 13 green and 14 blue cubes allows, and the power of the
  smallest bag each game needs.
*/
module CubeConundrum {
  import opened Wrappers
  import Text

  /** One handful of cubes; a colour that was not drawn counts 0. */
  datatype CubeSet = CubeSet(red: nat, green: nat, blue: nat)

  datatype Game = Game(id: nat, sets: seq<CubeSet>)

  datatype Colour = Red | Green | Blue

  function Get(s: CubeSet, c: Colour): nat
  {
    match c
    case Red => s.red
    case Green => s.green
    case Blue => s.blue
  }

  // ---------------------------------------------------------------------
  // Parsing

  /** The colour a name selects; any other name is ignored by the parser. */
  function ColourOf(name: string): Option<Colour>
  {
    if name == "red" then Some(Red)
    else if name == "green" then Some(Green)
    else if name == "blue" then Some(Blue)
    else None
  }

  /** One "<count> <colour>" piece: the first space splits it, and the count must be a `u32`. */
  function Cube(piece: string): (r: Option<(nat, string)>)
    ensures r.Some? ==> exists num :: piece == num + " " + r.value.1 && ' ' !in num
                                      && Text.ParseUnsigned(num, Text.U32) == Some(r.value.0)
    ensures (forall i :: 0 <= i < |piece| ==> piece[i] != ' ') ==> r.None?
  {
    var once := Text.SplitOnce(piece, " ");
    if once.None? then None
    else
      var (num, colour) := once.value;
      var n := Text.ParseUnsigned(num, Text.U32);
      if n.None? then None
      else
        assert ' ' !in num by {
          forall i | 0 <= i < |num| ensures num[i] != ' ' {
            assert !Text.OccursAt(piece, " ", i);
            assert piece[i..i + 1] == [num[i]];
          }
        }
        Some((n.value, colour))
  }

  /** A count spelled in digits, a space and a name read back as that count and name. */
  lemma CubeOfShown(n: nat, name: string)
    requires n < Text.U32
    ensures Cube(Text.ShowNat(n) + " " + name) == Some((n, name))
  {
    var digits := Text.ShowNat(n);
    var piece := digits + " " + name;
    assert Text.OccursAt(piece, " ", |digits|) by {
      assert piece[|digits|..|digits| + 1] == " ";
    }
    forall i | 0 <= i < |digits| ensures !Text.OccursAt(piece, " ", i) {
      assert piece[i..i + 1][0] == digits[i];
    }
    assert Text.Find(piece, " ") == Some(|digits|);
    assert piece[..|digits|] == digits && piece[|digits| + 1..] == name;
    Text.ParseShowNat(n, Text.U32);
  }

  function With(s: CubeSet, c: Colour, n: nat): (t: CubeSet)
    ensures Get(t, c) == n && forall d :: d != c ==> Get(t, d) == Get(s, d)
  {
    match c
    case Red => s.(red := n)
    case Green => s.(green := n)
    case Blue => s.(blue := n)
  }

  /**
    The counting half of `Set::from_str`: starting from the empty set,
    each (count, colour) piece overwrites its colour's count in turn.
  */
  function Assign(cubes: seq<(nat, string)>): CubeSet
  {
    if |cubes| == 0 then CubeSet(0, 0, 0)
    else
      var init := Assign(cubes[..|cubes| - 1]);
      var (n, name) := cubes[|cubes| - 1];
      var c := ColourOf(name);
      if c.None? then init else With(init, c.value, n)
  }

  /** The piece at `i` names colour `c`. */
  predicate Names(cubes: seq<(nat, string)>, i: int, c: Colour)
  {
    0 <= i < |cubes| && ColourOf(cubes[i].1) == Some(c)
  }

  /**
    What a parsed set says about colour `c`: the count of the last piece
    naming `c`, or 0 when no piece names it.
  */
  ghost predicate LastCount(cubes: seq<(nat, string)>, c: Colour, n: nat)
  {
    || (exists i :: Names(cubes, i, c) && cubes[i].0 == n && forall j :: i < j < |cubes| ==> !Names(cubes, j, c))
    || (n == 0 && forall i :: 0 <= i < |cubes| ==> !Names(cubes, i, c))
  }

  /** Unknown colours are ignored, missing ones are 0, and a repeated colour keeps its last count. */
  lemma {:induction false} AssignLastCount(cubes: seq<(nat, string)>, c: Colour)
    ensures LastCount(cubes, c, Get(Assign(cubes), c))
  {
    if |cubes| > 0 {
      var k := |cubes| - 1;
      var front := cubes[..k];
      if Names(cubes, k, c) {
        assert forall j :: k < j < |cubes| ==> !Names(cubes, j, c);
        assert Names(cubes, k, c) && cubes[k].0 == Get(Assign(cubes), c);
      } else {
        AssignLastCount(front, c);
        assert Get(Assign(cubes), c) == Get(Assign(front), c);
        LastCountSnoc(cubes, c, Get(Assign(front), c));
      }
    }
  }

  lemma LastCountSnoc(cubes: seq<(nat, string)>, c: Colour, n: nat)
    requires |cubes| > 0 && LastCount(cubes[..|cubes| - 1], c, n) && !Names(cubes, |cubes| - 1, c)
    ensures LastCount(cubes, c, n)
  {
    var front := cubes[..|cubes| - 1];
    forall i | 0 <= i < |front| ensures Names(cubes, i, c) == Names(front, i, c) {
      assert cubes[i] == front[i];
    }
    if i :| Names(front, i, c) && front[i].0 == n && forall j :: i < j < |front| ==> !Names(front, j, c) {
      assert Names(cubes, i, c) && cubes[i].0 == n;
    }
  }

  /** The ", "-separated pieces of a set. */
  function Pieces(s: string): seq<string> { Text.Split(s, ", ") }

  /**
    `Set::from_str`: the ", "-separated pieces each give a count and a
    colour, and the counts are assigned in order; a bad piece fails.
  */
  function ParseSet(s: string): (r: Option<CubeSet>)
    ensures r.Some? <==> forall i :: 0 <= i < |Pieces(s)| ==> Cube(Pieces(s)[i]).Some?
  {
    var cubes := Collect(Pieces(s), Cube);
    if cubes.None? then None else Some(Assign(cubes.value))
  }

  /** Each colour of a parsed set is the count of the last piece naming it, or 0. */
  lemma ParseSetLastCount(s: string, c: Colour)
    requires ParseSet(s).Some?
    ensures var cubes := Collect(Pieces(s), Cube).value;
            LastCount(cubes, c, Get(ParseSet(s).value, c))
  {
    AssignLastCount(Collect(Pieces(s), Cube).value, c);
  }

  /** The "; "-separated sets of a game; the first bad set fails. */
  function ParseSets(parts: seq<string>): Option<seq<CubeSet>>
  {
    Collect(parts, ParseSet)
  }

  /** Splits "Game <id>: <sets>" at the prefix and the first ": ". */
  function GameParts(line: string): (r: Option<(string, string)>)
    ensures !("Game " <= line) ==> r.None?
    ensures r.Some? ==> line == "Game " + r.value.0 + ": " + r.value.1
  {
    var body := Text.StripPrefix(line, "Game ");
    if body.None? then None
    else
      var once := Text.SplitOnce(body.value, ": ");
      if once.None? then None
      else
        assert line == "Game " + once.value.0 + ": " + once.value.1;
        once
  }

  /**
    `Game::from_str`: "Game <id>: <sets>". The prefix, the ": " and a
    `u32` id are required; the sets must each parse.
  */
  function ParseGame(line: string): (r: Option<Game>)
    ensures !("Game " <= line) ==> r.None?
    ensures r.Some? ==> r.value.id < Text.U32
    ensures r.Some? ==> exists idText, rest ::
              && line == "Game " + idText + ": " + rest
              && Text.ParseUnsigned(idText, Text.U32) == Some(r.value.id)
              && ParseSets(Text.Split(rest, "; ")) == Some(r.value.sets)
  {
    var parts := GameParts(line);
    if parts.None? then None
    else
      var (idText, rest) := parts.value;
      var id := Text.ParseUnsigned(idText, Text.U32);
      if id.None? then None
      else
        var sets := ParseSets(Text.Split(rest, "; "));
        if sets.None? then None else Some(Game(id.value, sets.value))
  }

  /** Spelling a game out and parsing it back gives the id and the sets' parse. */
  lemma ParseShownGame(id: nat, rest: string)
    requires id < Text.U32 && ParseSets(Text.Split(rest, "; ")).Some?
    ensures ParseGame("Game " + Text.ShowNat(id) + ": " + rest)
            == Some(Game(id, ParseSets(Text.Split(rest, "; ")).value))
  {
    ShownGameParts(Text.ShowNat(id), rest);
    Text.ParseShowNat(id, Text.U32);
  }

  /** An id spelled in digits contains no ": ", so the split lands right after it. */
  lemma ShownGameParts(digits: string, rest: string)
    requires Text.AllDigits(digits)
    ensures GameParts("Game " + digits + ": " + rest) == Some((digits, rest))
  {
    var line := "Game " + digits + ": " + rest;
    var body := digits + ": " + rest;
    assert line == "Game " + body;
    assert Text.StripPrefix(line, "Game ") == Some(body);
    assert Text.OccursAt(body, ": ", |digits|) by {
      assert body[|digits|..|digits| + 2] == ": ";
    }
    forall i | 0 <= i < |digits| ensures !Text.OccursAt(body, ": ", i) {
      assert body[i..i + 2][0] == digits[i];
    }
    var f := Text.Find(body, ": ");
    assert f == Some(|digits|);
    assert body[..|digits|] == digits;
    assert body[|digits| + 2..] == rest;
  }

  // ---------------------------------------------------------------------
  // Feasibility and power

  /** Some set of the game draws more of a colour than the bag holds. */
  predicate Impossible(g: Game, bag: CubeSet)
  {
    exists i :: 0 <= i < |g.sets| && (g.sets[i].red > bag.red || g.sets[i].green > bag.green || g.sets[i].blue > bag.blue)
  }

  predicate Within(a: CubeSet, b: CubeSet)
  {
    a.red <= b.red && a.green <= b.green && a.blue <= b.blue
  }

  /** A bigger bag can only make an impossible game possible, never the reverse. */
  lemma ImpossibleMonotone(g: Game, small: CubeSet, big: CubeSet)
    requires Within(small, big) && Impossible(g, big)
    ensures Impossible(g, small)
  {
  }

  /** The largest count of colour `c` over the sets, 0 over none. */
  function MaxCount(sets: seq<CubeSet>, c: Colour): (m: nat)
    ensures forall i :: 0 <= i < |sets| ==> Get(sets[i], c) <= m
    ensures m == 0 || exists i :: 0 <= i < |sets| && Get(sets[i], c) == m
  {
    if |sets| == 0 then 0
    else
      var rest := MaxCount(sets[1..], c);
      assert forall i :: 1 <= i < |sets| ==> sets[1..][i - 1] == sets[i];
      Max(Get(sets[0], c), rest)
  }

  /** The running maxima of `power`: the smallest bag the game allows. */
  function Fewest(g: Game): CubeSet
  {
    CubeSet(MaxCount(g.sets, Red), MaxCount(g.sets, Green), MaxCount(g.sets, Blue))
  }

  /** The fewest-cubes bag allows the game. */
  lemma FewestPossible(g: Game)
    ensures !Impossible(g, Fewest(g))
  {
    var f := Fewest(g);
    forall i | 0 <= i < |g.sets| ensures Within(g.sets[i], f) {
      assert Get(g.sets[i], Red) <= f.red && Get(g.sets[i], Green) <= f.green && Get(g.sets[i], Blue) <= f.blue;
    }
  }

  /** A bag that allows the game holds at least the most of each colour ever drawn. */
  lemma FewestBelow(g: Game, bag: CubeSet, c: Colour)
    requires !Impossible(g, bag)
    ensures MaxCount(g.sets, c) <= Get(bag, c)
  {
    var m := MaxCount(g.sets, c);
    if m != 0 {
      var i :| 0 <= i < |g.sets| && Get(g.sets[i], c) == m;
      assert Within(g.sets[i], bag);
    }
  }

  /** The fewest-cubes bag is exactly the least bag under which the game is possible. */
  lemma FewestIsLeast(g: Game, bag: CubeSet)
    ensures !Impossible(g, bag) <==> Within(Fewest(g), bag)
  {
    if !Impossible(g, bag) {
      FewestBelow(g, bag, Red);
      FewestBelow(g, bag, Green);
      FewestBelow(g, bag, Blue);
    } else if Within(Fewest(g), bag) {
      FewestPossible(g);
      ImpossibleMonotone(g, Fewest(g), bag);
    }
  }

  /** No set of the game draws colour `c`. */
  predicate NeverDrawn(g: Game, c: Colour)
  {
    forall i :: 0 <= i < |g.sets| ==> Get(g.sets[i], c) == 0
  }

  /** `power`: the product of the fewest-cubes counts. */
  function Power(g: Game): nat
  {
    var f := Fewest(g);
    ProductNonNegative(f.red, f.green, f.blue);
    f.red * f.green * f.blue
  }

  lemma ProductNonNegative(a: nat, b: nat, c: nat)
    ensures a * b * c >= 0
  {
    assert a * b >= 0;
  }

  /** The power is zero exactly when some colour is never drawn, in particular when there are no sets. */
  lemma PowerZero(g: Game)
    ensures Power(g) == 0 <==> NeverDrawn(g, Red) || NeverDrawn(g, Green) || NeverDrawn(g, Blue)
    ensures |g.sets| == 0 ==> Power(g) == 0
  {
    var f := Fewest(g);
    assert f.red == 0 <==> NeverDrawn(g, Red);
    assert f.green == 0 <==> NeverDrawn(g, Green);
    assert f.blue == 0 <==> NeverDrawn(g, Blue);
    ProductZero(f.red, f.green, f.blue);
  }

  /** The power is the least product of the counts of a bag that allows the game, and some such bag attains it. */
  lemma PowerIsLeast(g: Game, bag: CubeSet)
    requires !Impossible(g, bag)
    ensures Power(g) <= bag.red * bag.green * bag.blue
    ensures !Impossible(g, Fewest(g)) && Power(g) == Fewest(g).red * Fewest(g).green * Fewest(g).blue
  {
    FewestIsLeast(g, bag);
    FewestPossible(g);
    var f := Fewest(g);
    ProductMonotone(f.red, f.green, f.blue, bag.red, bag.green, bag.blue);
  }

  lemma ProductMonotone(a: nat, b: nat, c: nat, x: nat, y: nat, z: nat)
    requires a <= x && b <= y && c <= z
    ensures a * b * c <= x * y * z
  {
    MulMonotone(a, b, x, y);
    MulMonotone(a * b, c, x * y, z);
  }

  lemma MulMonotone(a: nat, b: nat, x: nat, y: nat)
    requires a <= x && b <= y
    ensures a * b <= x * y
  {
    var d, e := x - a, y - b;
    assert x * y == a * b + d * b + a * e + d * e;
    assert d * b >= 0 && a * e >= 0 && d * e >= 0;
  }

  lemma ProductZero(a: nat, b: nat, c: nat)
    ensures a * b * c == 0 <==> a == 0 || b == 0 || c == 0
  {
    if a > 0 && b > 0 && c > 0 {
      assert a * b >= 1;
      assert a * b * c >= 1;
    }
  }

  // ---------------------------------------------------------------------
  // The two parts

  const Bag := CubeSet(12, 13, 14)

  /** Every line parses into a game; `unwrap` panics otherwise. */
  function ParseGames(lines: seq<string>): (r: Outcome<seq<Game>>)
    ensures r.Done? <==> forall i :: 0 <= i < |lines| ==> ParseGame(lines[i]).Some?
    ensures r.Done? ==> |r.value| == |lines| && forall i :: 0 <= i < |lines| ==> ParseGame(lines[i]) == Some(r.value[i])
  {
    var games := Collect(lines, ParseGame);
    if games.None? then Panic else Done(games.value)
  }

  /** The ids of the games the bag allows, in order. */
  function PossibleIds(games: seq<Game>): (ids: seq<nat>)
    ensures |ids| == 0 <==> forall i :: 0 <= i < |games| ==> Impossible(games[i], Bag)
  {
    if |games| == 0 then []
    else
      var rest := PossibleIds(games[1..]);
      assert forall i :: 1 <= i < |games| ==> games[1..][i - 1] == games[i];
      if Impossible(games[0], Bag) then rest else [games[0].id] + rest
  }

  function Total(xs: seq<nat>): nat
  {
    if |xs| == 0 then 0 else xs[0] + Total(xs[1..])
  }

  /** Each game's id where the bag allows it, 0 where it does not: a sum that skips no position. */
  function Masked(games: seq<Game>): seq<nat>
  {
    seq(|games|, i requires 0 <= i < |games| => if Impossible(games[i], Bag) then 0 else games[i].id)
  }

  /** The kept ids are exactly the ids of the possible games, at most one per game. */
  lemma {:induction false} PossibleIdsMembers(games: seq<Game>)
    ensures |PossibleIds(games)| <= |games|
    ensures forall x :: x in PossibleIds(games) <==>
      exists i :: 0 <= i < |games| && !Impossible(games[i], Bag) && games[i].id == x
  {
    if |games| > 0 {
      PossibleIdsMembers(games[1..]);
      assert forall i :: 1 <= i < |games| ==> games[1..][i - 1] == games[i];
      forall x | exists i :: 0 <= i < |games| && !Impossible(games[i], Bag) && games[i].id == x
        ensures x in PossibleIds(games)
      {
        var i :| 0 <= i < |games| && !Impossible(games[i], Bag) && games[i].id == x;
        if i > 0 {
          assert games[1..][i - 1] == games[i];
        }
      }
    }
  }

  /** Filtering out the impossible games sums to the same as zeroing them. */
  lemma {:induction false} PossibleIdsSum(games: seq<Game>)
    ensures Total(PossibleIds(games)) == Total(Masked(games))
  {
    if |games| > 0 {
      PossibleIdsSum(games[1..]);
      assert Masked(games)[1..] == Masked(games[1..]);
    }
  }

  /** `reduce(add)`: `None` over no values, the sum otherwise. */
  function Reduce(xs: seq<nat>): (r: Option<nat>)
    ensures r.None? <==> |xs| == 0
  {
    if |xs| == 0 then None else Some(Total(xs))
  }

  /**
    `part_one`: the id sum of the possible games, `None` when no game is
    possible (in particular on empty input).
  */
  function PartOne(lines: seq<string>): (r: Outcome<Option<nat>>)
    ensures r.Done? <==> forall i :: 0 <= i < |lines| ==> ParseGame(lines[i]).Some?
    ensures r.Done? ==> (r.value.None? <==> forall i :: 0 <= i < |lines| ==> Impossible(ParseGame(lines[i]).value, Bag))
    ensures r.Done? && r.value.Some? ==> r.value.value == Total(Masked(ParseGames(lines).value))
  {
    var games := ParseGames(lines);
    if games.Panic? then Panic
    else
      PossibleIdsSum(games.value);
      Done(Reduce(PossibleIds(games.value)))
  }

  function Powers(games: seq<Game>): (ps: seq<nat>)
    ensures |ps| == |games| && forall i :: 0 <= i < |games| ==> ps[i] == Power(games[i])
  {
    seq(|games|, i requires 0 <= i < |games| => Power(games[i]))
  }

  /** `part_two`: the sum of the powers, `None` on empty input. */
  function PartTwo(lines: seq<string>): (r: Outcome<Option<nat>>)
    ensures r.Done? <==> forall i :: 0 <= i < |lines| ==> ParseGame(lines[i]).Some?
    ensures r.Done? ==> (r.value.None? <==> |lines| == 0)
  {
    var games := ParseGames(lines);
    if games.Panic? then Panic else Done(Reduce(Powers(games.value)))
  }

  /** The id sum only counts possible games, each once: it is at most the sum of all ids. */
  lemma {:induction false} PossibleIdsBounded(games: seq<Game>)
    ensures Total(PossibleIds(games)) <= Total(seq(|games|, i requires 0 <= i < |games| => games[i].id))
  {
    if |games| > 0 {
      PossibleIdsBounded(games[1..]);
      var all := seq(|games|, i requires 0 <= i < |games| => games[i].id);
      assert all[1..] == seq(|games| - 1, i requires 0 <= i < |games| - 1 => games[1..][i].id);
    }
  }
}
