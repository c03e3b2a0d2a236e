/**
  Scratchcards (2023 day 4): a card scores by how many of your numbers
  are winning numbers, and with `n` matches wins a copy of each of the
  `n` cards after it.
*/
module Scratchcards {
  import opened Wrappers
  import Text

  /** The fields of a `Card {id}: {winning} | {yours}` line, as the derived parser captures them. */
  datatype CardText = CardText(id: nat, winning: string, yours: string)

  datatype Card = Card(id: nat, winning: set<int>, yours: set<int>)

  /** One number of a list: an `i32`. */
  function ParseNumber(w: string): Option<int>
  {
    Text.ParseSigned(w, Text.I32)
  }

  /** Every word parses as a number. */
  predicate AllNumbers(ws: seq<string>)
  {
    forall k :: 0 <= k < |ws| ==> ParseNumber(ws[k]).Some?
  }

  /**
    `Numbers::from_str`: the whitespace-separated words, each parsed as an
    `i32`, collected into a set; one bad word fails the list.
  */
  function ParseNumbers(s: string): (r: Option<set<int>>)
    ensures r.Some? <==> AllNumbers(Text.Words(s))
    ensures r.Some? ==> forall v :: v in r.value <==> exists k :: 0 <= k < |Text.Words(s)| && ParseNumber(Text.Words(s)[k]) == Some(v)
  {
    var ws := Text.Words(s);
    var vs := Collect(ws, ParseNumber);
    if vs.None? then None
    else
      assert forall v :: v in vs.value <==> exists k :: 0 <= k < |ws| && ParseNumber(ws[k]) == Some(v) by {
        forall v | v in vs.value ensures exists k :: 0 <= k < |ws| && ParseNumber(ws[k]) == Some(v) {
          var k :| 0 <= k < |vs.value| && vs.value[k] == v;
          assert ParseNumber(ws[k]) == Some(v);
        }
      }
      Some(set v | v in vs.value)
  }

  /**
    A list written out with single spaces parses back to the set of its
    numbers: a repeated number is kept once.
  */
  lemma ParseShownNumbers(vs: seq<int>)
    requires forall k :: 0 <= k < |vs| ==> -(Text.I32 as int) <= vs[k] < Text.I32
    ensures ParseNumbers(Text.Join(Text.ShowAll(vs), " ")) == Some(set v | v in vs)
  {
    var ws := Text.ShowAll(vs);
    Text.WordsOfShown(vs);
    forall k | 0 <= k < |ws| ensures ParseNumber(ws[k]) == Some(vs[k]) {
      Text.ParseShowInt(vs[k], Text.I32);
    }
    var r := ParseNumbers(Text.Join(ws, " "));
    assert r.Some?;
    forall v | v in r.value ensures v in vs {
      var k :| 0 <= k < |ws| && ParseNumber(ws[k]) == Some(v);
    }
    forall v | v in vs ensures v in r.value {
      var k :| 0 <= k < |vs| && vs[k] == v;
      assert ParseNumber(ws[k]) == Some(v);
    }
    assert r.value == (set v | v in vs);
  }

  /** Some word of the list `s` reads as `v`. */
  ghost predicate Listed(s: string, v: int)
  {
    exists k :: 0 <= k < |Text.Words(s)| && ParseNumber(Text.Words(s)[k]) == Some(v)
  }

  /** `Card::from_str` past the derived parser: both number lists must parse. */
  function ParseCard(t: CardText): (r: Option<Card>)
    ensures r.Some? <==> AllNumbers(Text.Words(t.winning)) && AllNumbers(Text.Words(t.yours))
    ensures r.Some? ==> r.value.id == t.id
    ensures r.Some? ==> forall v :: v in r.value.winning <==> Listed(t.winning, v)
    ensures r.Some? ==> forall v :: v in r.value.yours <==> Listed(t.yours, v)
  {
    var w, y := ParseNumbers(t.winning), ParseNumbers(t.yours);
    if w.None? || y.None? then None
    else
      assert forall v :: v in w.value <==> Listed(t.winning, v);
      assert forall v :: v in y.value <==> Listed(t.yours, v);
      Some(Card(t.id, w.value, y.value))
  }

  /**
    A card written out with single spaces reads back as its id and the sets
    of its winning numbers and your numbers.
  */
  lemma ParseShownCard(id: nat, winning: seq<int>, yours: seq<int>)
    requires forall k :: 0 <= k < |winning| ==> -(Text.I32 as int) <= winning[k] < Text.I32
    requires forall k :: 0 <= k < |yours| ==> -(Text.I32 as int) <= yours[k] < Text.I32
    ensures ParseCard(CardText(id, Text.Join(Text.ShowAll(winning), " "), Text.Join(Text.ShowAll(yours), " ")))
            == Some(Card(id, set v | v in winning, set v | v in yours))
  {
    ParseShownNumbers(winning);
    ParseShownNumbers(yours);
  }

  /** `matches`: your numbers that are also winning numbers. */
  function Matches(c: Card): (m: set<int>)
    ensures forall v :: v in m <==> v in c.yours && v in c.winning
  {
    c.yours * c.winning
  }

  function Pow2(e: nat): (p: nat)
    ensures p >= 1
  {
    if e == 0 then 1 else 2 * Pow2(e - 1)
  }

  /** The score of `n` matches: nothing for none, else `2^(n-1)`. */
  function Points(n: nat): (p: nat)
    ensures p == 0 <==> n == 0
  {
    if n == 0 then 0 else Pow2(n - 1)
  }

  /** The first match scores 1 and each further match doubles the score. */
  lemma PointsDouble(n: nat)
    ensures Points(1) == 1
    ensures n >= 1 ==> Points(n + 1) == 2 * Points(n)
  {
  }

  /** The sum of the cards' scores. */
  function TotalPoints(cards: seq<Card>): (s: nat)
    ensures s == 0 <==> forall k :: 0 <= k < |cards| ==> |Matches(cards[k])| == 0
  {
    if |cards| == 0 then 0
    else
      assert forall k :: 1 <= k < |cards| ==> cards[1..][k - 1] == cards[k];
      Points(|Matches(cards[0])|) + TotalPoints(cards[1..])
  }

  /** Every line's card, or the panic of the `expect` on the first that fails to parse. */
  function ParseDeck(texts: seq<CardText>): (r: Outcome<seq<Card>>)
    ensures r.Done? <==> forall k :: 0 <= k < |texts| ==> ParseCard(texts[k]).Some?
    ensures r.Done? ==> |r.value| == |texts| && forall k :: 0 <= k < |texts| ==> ParseCard(texts[k]) == Some(r.value[k])
  {
    var cards := Collect(texts, ParseCard);
    if cards.None? then Panic else Done(cards.value)
  }

  /** `part_one`: the total score; `Some` always, on no cards too. */
  function PartOne(texts: seq<CardText>): (r: Outcome<nat>)
    ensures r.Done? <==> ParseDeck(texts).Done?
    ensures r.Done? ==> (r.value == 0 <==> forall k :: 0 <= k < |texts| ==> |Matches(ParseDeck(texts).value[k])| == 0)
  {
    var deck := ParseDeck(texts);
    if deck.Panic? then Panic else Done(TotalPoints(deck.value))
  }

  // ---------------------------------------------------------------------
  // Copies

  /**
    `total_copies` of card `i`: itself plus the copies won by the cards at
    positions `id`, `id + 1`, ... (one per match). A position past the
    deck's end panics (the `expect`); `fuel` bounds the depth of the
    recursion, which the source leaves unbounded, and running out stands
    for the endless recursion of a deck whose cards win themselves back.
  */
  function Copies(deck: seq<Card>, i: nat, fuel: nat): (r: Outcome<nat>)
    requires i < |deck|
    ensures r.Done? ==> r.value >= 1
    decreases fuel, 0, 0
  {
    if fuel == 0 then Panic
    else
      var won := CopiesFrom(deck, deck[i].id, |Matches(deck[i])|, fuel - 1);
      if won.Panic? then Panic else Done(1 + won.value)
  }

  /** The copies won from the `n` positions starting at `start`. */
  function CopiesFrom(deck: seq<Card>, start: nat, n: nat, fuel: nat): (r: Outcome<nat>)
    ensures r.Done? ==> r.value >= n
    decreases fuel, 1, n
  {
    if n == 0 then Done(0)
    else
      var rest := CopiesFrom(deck, start, n - 1, fuel);
      if start + n - 1 >= |deck| || rest.Panic? then Panic
      else
        var last := Copies(deck, start + n - 1, fuel);
        if last.Panic? then Panic else Done(rest.value + last.value)
  }

  /** A card without matches is just itself. */
  lemma NoMatchesOneCopy(deck: seq<Card>, i: nat, fuel: nat)
    requires i < |deck| && |Matches(deck[i])| == 0 && fuel > 0
    ensures Copies(deck, i, fuel) == Done(1)
  {
  }

  /** More fuel changes nothing once the recursion has finished. */
  lemma {:induction false} CopiesFuel(deck: seq<Card>, i: nat, fuel: nat, more: nat)
    requires i < |deck| && fuel <= more && Copies(deck, i, fuel).Done?
    ensures Copies(deck, i, more) == Copies(deck, i, fuel)
    decreases fuel, 0, 0
  {
    CopiesFromFuel(deck, deck[i].id, |Matches(deck[i])|, fuel - 1, more - 1);
  }

  lemma {:induction false} CopiesFromFuel(deck: seq<Card>, start: nat, n: nat, fuel: nat, more: nat)
    requires fuel <= more && CopiesFrom(deck, start, n, fuel).Done?
    ensures CopiesFrom(deck, start, n, more) == CopiesFrom(deck, start, n, fuel)
    decreases fuel, 1, n
  {
    if n > 0 {
      CopiesFromFuel(deck, start, n - 1, fuel, more);
      CopiesFuel(deck, start + n - 1, fuel, more);
    }
  }

  /** Card `k` (from 0) has id `k + 1`, as in a puzzle input. */
  predicate WellNumbered(deck: seq<Card>)
  {
    forall k :: 0 <= k < |deck| ==> deck[k].id == k + 1
  }

  /** No card wins copies past the end of the deck. */
  predicate WithinDeck(deck: seq<Card>)
  {
    forall k :: 0 <= k < |deck| ==> deck[k].id + |Matches(deck[k])| <= |deck|
  }

  /**
    In a well-numbered deck every card wins only later cards, so the
    recursion from card `i` ends within `|deck| - i` levels.
  */
  lemma {:induction false} CopiesDone(deck: seq<Card>, i: nat)
    requires WellNumbered(deck) && WithinDeck(deck) && i < |deck|
    ensures Copies(deck, i, |deck| - i).Done?
    decreases |deck| - i, 1
  {
    CopiesFromDone(deck, i, |Matches(deck[i])|);
  }

  lemma {:induction false} CopiesFromDone(deck: seq<Card>, i: nat, n: nat)
    requires WellNumbered(deck) && WithinDeck(deck) && i < |deck| && n <= |Matches(deck[i])|
    ensures CopiesFrom(deck, i + 1, n, |deck| - i - 1).Done?
    decreases |deck| - i, 0, n
  {
    if n > 0 {
      CopiesFromDone(deck, i, n - 1);
      var j := i + n;
      CopiesDone(deck, j);
      CopiesFuel(deck, j, |deck| - j, |deck| - i - 1);
    }
  }

  /** The copies of every card, each with fuel `|deck|`. */
  function AllCopies(deck: seq<Card>, i: nat): (r: Outcome<nat>)
    requires i <= |deck|
    ensures r.Done? ==> r.value >= |deck| - i
    decreases |deck| - i
  {
    if i == |deck| then Done(0)
    else
      var here, rest := Copies(deck, i, |deck|), AllCopies(deck, i + 1);
      if here.Panic? || rest.Panic? then Panic else Done(here.value + rest.value)
  }

  /**
    `part_two`: the number of cards held in the end. A chain of wins that
    never repeats a card is at most `|deck|` long, so fuel `|deck|` only
    runs out where the source would recurse forever.
  */
  function PartTwo(texts: seq<CardText>): (r: Outcome<nat>)
    ensures ParseDeck(texts).Panic? ==> r.Panic?
    ensures r.Done? ==> r.value >= |texts|
  {
    var deck := ParseDeck(texts);
    if deck.Panic? then Panic else AllCopies(deck.value, 0)
  }

  /** A well-numbered deck whose wins stay inside it never panics. */
  lemma PartTwoDone(texts: seq<CardText>)
    requires ParseDeck(texts).Done?
    requires WellNumbered(ParseDeck(texts).value) && WithinDeck(ParseDeck(texts).value)
    ensures PartTwo(texts).Done?
  {
    AllCopiesDone(ParseDeck(texts).value, 0);
  }

  lemma {:induction false} AllCopiesDone(deck: seq<Card>, i: nat)
    requires WellNumbered(deck) && WithinDeck(deck) && i <= |deck|
    ensures AllCopies(deck, i).Done?
    decreases |deck| - i
  {
    if i < |deck| {
      CopiesDone(deck, i);
      CopiesFuel(deck, i, |deck| - i, |deck|);
      AllCopiesDone(deck, i + 1);
    }
  }
}
