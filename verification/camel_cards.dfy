/**
  Camel cards (2023 day 7): five-card hands with jokers are classified by
  the multiplicities of their cards after each joker becomes the most
  frequent other card, ordered by type and then card by card, and the
  bids are weighted by rank.
*/
module CamelCards {
  import opened Wrappers
  import Sorting
  import Text

  /** Declaration order is the derived `Ord`: `Joker` least, `Ace` greatest. There is no jack. */
  datatype Card = Joker | One | Two | Three | Four | Five | Six | Seven | Eight | Nine | Ten | Queen | King | Ace

  function Rank(c: Card): nat
  {
    match c
    case Joker => 0 case One => 1 case Two => 2 case Three => 3 case Four => 4
    case Five => 5 case Six => 6 case Seven => 7 case Eight => 8 case Nine => 9
    case Ten => 10 case Queen => 11 case King => 12 case Ace => 13
  }

  /** The letter a card is written with. */
  function Letter(c: Card): char
  {
    match c
    case Joker => 'J' case One => '1' case Two => '2' case Three => '3' case Four => '4'
    case Five => '5' case Six => '6' case Seven => '7' case Eight => '8' case Nine => '9'
    case Ten => 'T' case Queen => 'Q' case King => 'K' case Ace => 'A'
  }

  /**
    `Card::from(char)`: only "123456789TJQKA" are cards, 'J' is the joker,
    and any other letter reaches the `panic!` arm (`None`).
  */
  function ParseCard(ch: char): (r: Option<Card>)
    ensures r.Some? <==> ch in "123456789TJQKA"
    ensures r.Some? ==> Letter(r.value) == ch
    ensures r == Some(Joker) <==> ch == 'J'
  {
    match ch
    case '1' => Some(One) case '2' => Some(Two) case '3' => Some(Three) case '4' => Some(Four)
    case '5' => Some(Five) case '6' => Some(Six) case '7' => Some(Seven) case '8' => Some(Eight)
    case '9' => Some(Nine) case 'T' => Some(Ten) case 'J' => Some(Joker) case 'Q' => Some(Queen)
    case 'K' => Some(King) case 'A' => Some(Ace)
    case _ => None
  }

  /** Every card is read back from its letter, and the joker ranks below every other card. */
  lemma ParseLetter(c: Card)
    ensures ParseCard(Letter(c)) == Some(c)
    ensures c != Joker ==> Rank(Joker) < Rank(c)
  {
  }

  /** `Hand::from_str`: a hand is its letters read one by one; a bad letter panics. */
  function ParseHand(s: string): (r: Option<seq<Card>>)
    ensures r.Some? <==> forall i :: 0 <= i < |s| ==> ParseCard(s[i]).Some?
    ensures r.Some? ==> |r.value| == |s| && forall i :: 0 <= i < |s| ==> Letter(r.value[i]) == s[i]
  {
    if |s| == 0 then Some([])
    else
      var c := ParseCard(s[0]);
      var rest := ParseHand(s[1..]);
      assert forall i :: 1 <= i < |s| ==> s[1..][i - 1] == s[i];
      if c.None? || rest.None? then None else Some([c.value] + rest.value)
  }

  datatype HandType = HighCard | OnePair | TwoPair | ThreeOfAKind | FullHouse | FourOfAKind | FiveOfAKind

  function TypeRank(t: HandType): nat
  {
    match t
    case HighCard => 0 case OnePair => 1 case TwoPair => 2 case ThreeOfAKind => 3
    case FullHouse => 4 case FourOfAKind => 5 case FiveOfAKind => 6
  }

  function Count(cards: seq<Card>, c: Card): nat { multiset(cards)[c] }

  // ---------------------------------------------------------------------
  // Tallies: the `HashMap<Card, usize>` of frequencies, one slot per card

  function Sum(v: seq<nat>): nat { if |v| == 0 then 0 else v[0] + Sum(v[1..]) }

  /** The number of cards with a positive frequency: `freqs.len()`. */
  function Positives(v: seq<nat>): nat { if |v| == 0 then 0 else (if v[0] > 0 then 1 else 0) + Positives(v[1..]) }

  /** The largest frequency: `freqs.values().max()`. */
  function MaxOf(v: seq<nat>): nat { if |v| == 0 then 0 else Max(v[0], MaxOf(v[1..])) }

  function Zeros(n: nat): (v: seq<nat>)
    ensures |v| == n && Sum(v) == 0
    ensures forall i :: 0 <= i < n ==> v[i] == 0
  {
    if n == 0 then [] else [0] + Zeros(n - 1)
  }

  /** The frequency table, one slot per card in rank order: the source's `HashMap` of counts. */
  function Tally(cards: seq<Card>): (v: seq<nat>)
    ensures |v| == 14
  {
    if |cards| == 0 then Zeros(14)
    else
      var v := Tally(cards[..|cards| - 1]);
      var last := cards[|cards| - 1];
      v[Rank(last) := v[Rank(last)] + 1]
  }

  /** Slot `Rank(c)` holds the number of `c`s, and the slots add up to the hand size. */
  lemma {:induction false} TallyCounts(cards: seq<Card>)
    ensures Sum(Tally(cards)) == |cards|
    ensures forall c :: Tally(cards)[Rank(c)] == Count(cards, c)
    decreases |cards|
  {
    if |cards| > 0 {
      var init := cards[..|cards| - 1];
      var last := cards[|cards| - 1];
      assert cards == init + [last];
      assert multiset(cards) == multiset(init) + multiset{last};
      var v := Tally(init);
      TallyCounts(init);
      SumBump(v, Rank(last));
      forall c ensures Tally(cards)[Rank(c)] == Count(cards, c) {
        if c != last {
          CardOfRank(c);
          CardOfRank(last);
        }
      }
    }
  }

  /** Counting from the front: the first card, then the rest. */
  lemma CountCons(h: seq<Card>, d: Card)
    requires |h| > 0
    ensures Count(h, d) == (if h[0] == d then 1 else 0) + Count(h[1..], d)
  {
    assert h == [h[0]] + h[1..];
  }

  /** One slot of the tally, and the total: `TallyCounts` for a single card. */
  lemma TallySlot(cards: seq<Card>, c: Card)
    ensures Tally(cards)[Rank(c)] == Count(cards, c) && Sum(Tally(cards)) == |cards|
  {
    TallyCounts(cards);
  }

  // ---------------------------------------------------------------------
  // Joker substitution

  /** `a` beats `b` for substitution: more frequent, or as frequent and at least as high. */
  predicate AtLeast(cards: seq<Card>, a: Card, b: Card)
  {
    Count(cards, a) > Count(cards, b) || (Count(cards, a) == Count(cards, b) && Rank(a) >= Rank(b))
  }

  /** The card of rank `k`. */
  function CardOf(k: nat): (c: Card)
    requires k < 14
    ensures Rank(c) == k
  {
    [Joker, One, Two, Three, Four, Five, Six, Seven, Eight, Nine, Ten, Queen, King, Ace][k]
  }

  lemma CardOfRank(c: Card)
    ensures CardOf(Rank(c)) == c
  {
  }

  /**
    Scans the cards of rank `k` and up, in rising rank, keeping the best
    so far; a later card wins a tie.
  */
  function BestFrom(cards: seq<Card>, k: nat, best: Card): (r: Card)
    requires 1 <= Rank(best) < k <= 14
    ensures 1 <= Rank(best) <= Rank(r)
    ensures AtLeast(cards, r, best) && forall d :: k <= Rank(d) ==> AtLeast(cards, r, d)
    decreases 14 - k
  {
    if k == 14 then best
    else
      var c := CardOf(k);
      var next := if Count(cards, c) >= Count(cards, best) then c else best;
      assert AtLeast(cards, next, best) && AtLeast(cards, next, c);
      var r := BestFrom(cards, k + 1, next);
      assert forall d :: Rank(d) == k ==> d == c;
      r
  }

  /**
    The card jokers stand for: the most frequent non-joker, ties to the
    higher card. With no non-joker every count is zero and the tie goes to
    the ace, as the source's `unwrap_or(Ace)` has it.
  */
  function MostFrequent(cards: seq<Card>): (r: Card)
    ensures r != Joker
    ensures forall d :: d != Joker ==> AtLeast(cards, r, d)
    ensures (forall d :: d != Joker ==> Count(cards, d) == 0) ==> r == Ace
  {
    var r := BestFrom(cards, 2, One);
    assert forall d :: d != Joker ==> d == One || 2 <= Rank(d);
    assert AtLeast(cards, r, Ace);
    r
  }

  /** Every joker replaced by `best`, every other card kept. */
  function Replace(cards: seq<Card>, best: Card): (r: seq<Card>)
    ensures |r| == |cards|
  {
    if |cards| == 0 then [] else [if cards[0] == Joker then best else cards[0]] + Replace(cards[1..], best)
  }

  /**
    A non-joker `best` takes every joker's place: no joker is left, `best`
    gains exactly the jokers' count, and every other card keeps its count.
  */
  lemma {:induction false} ReplaceCount(cards: seq<Card>, best: Card, d: Card)
    requires best != Joker
    ensures Count(Replace(cards, best), d) ==
      if d == Joker then 0 else if d == best then Count(cards, best) + Count(cards, Joker) else Count(cards, d)
    decreases |cards|
  {
    if |cards| > 0 {
      ReplaceCount(cards[1..], best, d);
      CountCons(cards, d);
      CountCons(cards, Joker);
      CountCons(cards, best);
      var r := Replace(cards, best);
      CountCons(r, d);
      assert r[1..] == Replace(cards[1..], best);
    }
  }

  /** Each non-joker stays where it was. */
  lemma {:induction false} ReplaceKeeps(cards: seq<Card>, best: Card, i: nat)
    requires i < |cards| && cards[i] != Joker
    ensures Replace(cards, best)[i] == cards[i]
    decreases i
  {
    if i > 0 {
      ReplaceKeeps(cards[1..], best, i - 1);
    }
  }

  /** Every joker replaced by the most frequent other card. */
  function Substitute(cards: seq<Card>): (r: seq<Card>)
    ensures |r| == |cards|
  {
    Replace(cards, MostFrequent(cards))
  }

  /**
    After substitution no joker is left, the chosen card has gained every
    joker, and every other card keeps its count and its place.
  */
  lemma SubstituteCounts(cards: seq<Card>)
    ensures var r, best := Substitute(cards), MostFrequent(cards);
      Count(r, Joker) == 0 &&
      Count(r, best) == Count(cards, best) + Count(cards, Joker) &&
      (forall d :: d != Joker && d != best ==> Count(r, d) == Count(cards, d)) &&
      (forall i :: 0 <= i < |cards| && cards[i] != Joker ==> r[i] == cards[i])
  {
    var best := MostFrequent(cards);
    ReplaceCount(cards, best, Joker);
    ReplaceCount(cards, best, best);
    forall d | d != Joker && d != best ensures Count(Substitute(cards), d) == Count(cards, d) {
      ReplaceCount(cards, best, d);
    }
    forall i | 0 <= i < |cards| && cards[i] != Joker ensures Substitute(cards)[i] == cards[i] {
      ReplaceKeeps(cards, best, i);
    }
  }

  /** A hand without jokers is left as it is. */
  lemma NoJokersKept(cards: seq<Card>)
    requires Count(cards, Joker) == 0
    ensures Substitute(cards) == cards
  {
    SubstituteCounts(cards);
    forall i | 0 <= i < |cards| ensures Substitute(cards)[i] == cards[i] {
      assert cards[i] in multiset(cards);
    }
  }

  /** The `match (freqs.len(), max)` of `HandType::from`; `None` is the `panic!` arm. */
  function TypeOf(distinct: nat, most: nat): Option<HandType>
  {
    if distinct == 5 then Some(HighCard)
    else if distinct == 4 then Some(OnePair)
    else if distinct == 3 && most == 3 then Some(ThreeOfAKind)
    else if distinct == 3 && most == 2 then Some(TwoPair)
    else if distinct == 2 && most == 4 then Some(FourOfAKind)
    else if distinct == 2 && most == 3 then Some(FullHouse)
    else if distinct == 1 then Some(FiveOfAKind)
    else None
  }

  /**
    `HandType::from(&Hand)`: the type of the hand after joker substitution.
    An empty hand panics on the `max` of no frequencies.
  */
  function Classify(cards: seq<Card>): Option<HandType>
  {
    var v := Tally(Substitute(cards));
    if Positives(v) == 0 then None else TypeOf(Positives(v), MaxOf(v))
  }

  /** For every five-card hand the classification never reaches the `panic!` arm. */
  lemma FiveCardsClassify(cards: seq<Card>)
    requires |cards| == 5
    ensures Classify(cards).Some?
  {
    var v := Tally(Substitute(cards));
    TallyCounts(Substitute(cards));
    SumAtMost(v);
    SumAtLeast(v);
    TypeOfTotal(Positives(v), MaxOf(v));
  }

  /** The frequency profiles five cards can have all have a type. */
  lemma TypeOfTotal(d: nat, m: nat)
    requires 5 <= d * m && m + d <= 6
    ensures TypeOf(d, m).Some?
  {
    if d == 3 {
      assert 2 <= m;
    } else if d == 2 {
      assert 3 <= m;
    }
  }

  // ---------------------------------------------------------------------
  // Ordering

  datatype Ordering = Less | Equal | Greater {
    function Flip(): Ordering { match this case Less => Greater case Equal => Equal case Greater => Less }
  }

  /** The derived `Ord` of `Vec<Card>`: lexicographic, a proper prefix first. */
  function CompareCards(a: seq<Card>, b: seq<Card>): Ordering
  {
    if |a| == 0 && |b| == 0 then Equal
    else if |a| == 0 then Less
    else if |b| == 0 then Greater
    else if Rank(a[0]) < Rank(b[0]) then Less
    else if Rank(a[0]) > Rank(b[0]) then Greater
    else CompareCards(a[1..], b[1..])
  }

  predicate Classifies(cards: seq<Card>) { Classify(cards).Some? }

  /** `Ord for Hand`: by type first, then card by card. */
  function CompareHands(a: seq<Card>, b: seq<Card>): Ordering
    requires Classifies(a) && Classifies(b)
  {
    var ta, tb := TypeRank(Classify(a).value), TypeRank(Classify(b).value);
    if ta < tb then Less else if ta > tb then Greater else CompareCards(a, b)
  }

  lemma {:induction false} CompareCardsFlip(a: seq<Card>, b: seq<Card>)
    ensures CompareCards(a, b) == CompareCards(b, a).Flip()
    ensures CompareCards(a, b) == Equal <==> a == b
    decreases |a|
  {
    if |a| > 0 && |b| > 0 && Rank(a[0]) == Rank(b[0]) {
      CompareCardsFlip(a[1..], b[1..]);
      assert a[0] == b[0];
      if a[1..] == b[1..] { assert a == [a[0]] + a[1..] && b == [b[0]] + b[1..]; }
    }
  }

  lemma {:induction false} CompareCardsTransitive(a: seq<Card>, b: seq<Card>, c: seq<Card>)
    requires CompareCards(a, b) != Greater && CompareCards(b, c) != Greater
    ensures CompareCards(a, c) != Greater
    decreases |a|
  {
    if |a| > 0 && |b| > 0 && |c| > 0 && Rank(a[0]) == Rank(b[0]) == Rank(c[0]) {
      CompareCardsTransitive(a[1..], b[1..], c[1..]);
    }
  }

  /** Hands compare antisymmetrically, and only identical hands are equal. */
  lemma CompareHandsFlip(a: seq<Card>, b: seq<Card>)
    requires Classifies(a) && Classifies(b)
    ensures CompareHands(a, b) == CompareHands(b, a).Flip()
    ensures CompareHands(a, b) == Equal <==> a == b
  {
    CompareCardsFlip(a, b);
  }

  /** The hand order is transitive, so together with the above it is a total order. */
  lemma CompareHandsTransitive(a: seq<Card>, b: seq<Card>, c: seq<Card>)
    requires Classifies(a) && Classifies(b) && Classifies(c)
    requires CompareHands(a, b) != Greater && CompareHands(b, c) != Greater
    ensures CompareHands(a, c) != Greater
  {
    if TypeRank(Classify(a).value) == TypeRank(Classify(b).value) == TypeRank(Classify(c).value) {
      CompareCardsTransitive(a, b, c);
    }
  }

  // ---------------------------------------------------------------------
  // Winnings

  /** The `sort_by_key` order: may `x` come before `y`? */
  predicate HandLe(x: (seq<Card>, nat), y: (seq<Card>, nat))
  {
    Classifies(x.0) && Classifies(y.0) ==> CompareHands(x.0, y.0) != Greater
  }

  /** The (hand, bid) lines in ascending hand order. */
  function RankHands(hands: seq<(seq<Card>, nat)>): (r: seq<(seq<Card>, nat)>)
    ensures multiset(r) == multiset(hands)
  {
    Sorting.InsertionSort(hands, HandLe)
  }

  /** Σ rank·bid with ranks counted from `rank`. */
  function RankSum(hands: seq<(seq<Card>, nat)>, rank: nat): nat
  {
    if |hands| == 0 then 0 else rank * hands[0].1 + RankSum(hands[1..], rank + 1)
  }

  function SumBids(hands: seq<(seq<Card>, nat)>): nat
  {
    if |hands| == 0 then 0 else hands[0].1 + SumBids(hands[1..])
  }

  /**
    `part_one`/`part_two`: Σ rank·bid over the sorted hands. Sorting two or
    more hands compares every one of them, so a hand that cannot be
    classified panics; a lone hand is never compared and is never typed.
  */
  function Winnings(hands: seq<(seq<Card>, nat)>): (r: Outcome<nat>)
    ensures r.Done? <==> |hands| < 2 || forall i :: 0 <= i < |hands| ==> Classifies(hands[i].0)
    ensures |hands| == 0 ==> r == Done(0)
    ensures |hands| == 1 ==> r == Done(hands[0].1)
  {
    if |hands| < 2 || forall i :: 0 <= i < |hands| ==> Classifies(hands[i].0) then
      var ranked := RankHands(hands);
      assert |hands| == 1 ==> RankSum(ranked, 1) == hands[0].1 by {
        if |hands| == 1 {
          assert |ranked| == |multiset(ranked)| == 1;
          assert multiset(hands) == multiset{hands[0]} by { assert hands == [hands[0]]; }
          assert ranked[0] in multiset(hands);
          assert ranked[1..] == [];
        }
      }
      Done(RankSum(ranked, 1))
    else Panic
  }

  /** The ranked hands really are in ascending order. */
  lemma RankedHandsAscend(hands: seq<(seq<Card>, nat)>)
    requires forall i :: 0 <= i < |hands| ==> Classifies(hands[i].0)
    ensures Sorting.SortedBy(RankHands(hands), HandLe)
  {
    assert Sorting.TotalPreorderOn(HandLe, hands) by {
      forall a, b | a in hands && b in hands ensures HandLe(a, b) || HandLe(b, a) {
        CompareHandsFlip(a.0, b.0);
      }
      forall a, b, c | a in hands && b in hands && c in hands && HandLe(a, b) && HandLe(b, c)
        ensures HandLe(a, c)
      {
        CompareHandsTransitive(a.0, b.0, c.0);
      }
    }
    Sorting.SortIsSorted(hands, HandLe);
  }

  /** Every bid is paid at least once and at most `rank + |hands| - 1` times. */
  lemma {:induction false} RankSumBounds(hands: seq<(seq<Card>, nat)>, rank: nat)
    requires rank >= 1
    ensures SumBids(hands) <= RankSum(hands, rank)
    ensures RankSum(hands, rank) <= (rank + |hands| - 1) * SumBids(hands)
    decreases |hands|
  {
    if |hands| > 0 {
      var tail := hands[1..];
      RankSumBounds(tail, rank + 1);
      assert rank + 1 + |tail| - 1 == rank + |hands| - 1;
      BoundStep(rank, |tail|, hands[0].1, SumBids(tail), RankSum(tail, rank + 1));
    }
  }

  lemma {:induction false} SumBidsPermutation(a: seq<(seq<Card>, nat)>, b: seq<(seq<Card>, nat)>)
    requires multiset(a) == multiset(b)
    ensures SumBids(a) == SumBids(b)
    decreases |a|
  {
    if |a| == 0 {
      assert |multiset(b)| == 0;
    } else {
      var k := Locate(a[0], a, b);
      var b' := b[..k] + b[k + 1..];
      RemoveMatching(a, b, k);
      SumBidsPermutation(a[1..], b');
      SumBidsRemove(b, k);
    }
  }

  /** The first element of `a` sits somewhere in any permutation `b` of `a`. */
  lemma Locate<T>(x: T, a: seq<T>, b: seq<T>) returns (k: nat)
    requires |a| > 0 && x == a[0] && multiset(a) == multiset(b)
    ensures k < |b| && b[k] == x
  {
    assert x in multiset(a);
    k :| 0 <= k < |b| && b[k] == x;
  }

  /** Taking the first element from `a` and its copy from a permutation `b` leaves permutations. */
  lemma RemoveMatching<T>(a: seq<T>, b: seq<T>, k: nat)
    requires |a| > 0 && k < |b| && b[k] == a[0] && multiset(a) == multiset(b)
    ensures multiset(a[1..]) == multiset(b[..k] + b[k + 1..])
  {
    var a', b' := a[1..], b[..k] + b[k + 1..];
    assert multiset(b) == multiset(b') + multiset{b[k]} by {
      assert b == b[..k] + [b[k]] + b[k + 1..];
    }
    assert multiset(a) == multiset(a') + multiset{a[0]} by {
      assert a == [a[0]] + a';
    }
    assert multiset(a') == multiset(a) - multiset{a[0]};
    assert multiset(b') == multiset(b) - multiset{b[k]};
  }

  lemma {:induction false} SumBidsRemove(b: seq<(seq<Card>, nat)>, k: nat)
    requires k < |b|
    ensures SumBids(b) == b[k].1 + SumBids(b[..k] + b[k + 1..])
    decreases k
  {
    var c := b[..k] + b[k + 1..];
    if k > 0 {
      var t := b[1..];
      assert t[..k - 1] + t[k..] == c[1..] by {
        assert t[..k - 1] == b[1..k] && t[k..] == b[k + 1..];
      }
      assert c[0] == b[0];
      SumBidsRemove(t, k - 1);
    } else {
      assert c == b[1..];
    }
  }

  /** Total winnings lie between the sum of the bids and `|hands|` times it. */
  lemma WinningsBounds(hands: seq<(seq<Card>, nat)>)
    requires Winnings(hands).Done?
    ensures SumBids(hands) <= Winnings(hands).value <= |hands| * SumBids(hands)
  {
    var r := RankHands(hands);
    RankSumBounds(r, 1);
    SumBidsPermutation(r, hands);
    assert |r| == |multiset(r)| == |hands|;
  }

  // ---------------------------------------------------------------------
  // Facts about frequency vectors

  lemma {:induction false} SumBump(v: seq<nat>, i: nat)
    requires i < |v|
    ensures Sum(v[i := v[i] + 1]) == Sum(v) + 1
    decreases |v|
  {
    if i > 0 {
      SumBump(v[1..], i - 1);
      assert v[i := v[i] + 1][1..] == v[1..][i - 1 := v[i] + 1];
    }
  }

  /** With `d` positive frequencies, the largest `m`, the total is at most `d·m`. */
  lemma {:induction false} SumAtMost(v: seq<nat>)
    ensures Sum(v) <= Positives(v) * MaxOf(v)
    decreases |v|
  {
    if |v| > 0 {
      var w := v[1..];
      SumAtMost(w);
      var a, p, top := v[0], Positives(w), MaxOf(v);
      MulMono(p, MaxOf(w), top);
      if a > 0 {
        assert (p + 1) * top == p * top + top;
      }
    }
  }

  /** With `d` positive frequencies, the largest `m`, the total is at least `m + d - 1`. */
  lemma {:induction false} SumAtLeast(v: seq<nat>)
    ensures Positives(v) == 0 ==> Sum(v) == 0
    ensures Positives(v) > 0 ==> MaxOf(v) >= 1 && Sum(v) + 1 >= MaxOf(v) + Positives(v)
    decreases |v|
  {
    if |v| > 0 {
      var w := v[1..];
      SumAtLeast(w);
      assert Sum(v) == v[0] + Sum(w) && MaxOf(v) == Max(v[0], MaxOf(w));
      if v[0] == 0 {
        assert Positives(v) == Positives(w);
      } else {
        assert Positives(v) == Positives(w) + 1;
        if Positives(w) == 0 {
          assert MaxOf(w) == 0 by { ZeroMax(w); }
        }
      }
    }
  }

  lemma {:induction false} ZeroMax(v: seq<nat>)
    requires Positives(v) == 0
    ensures MaxOf(v) == 0
    decreases |v|
  {
    if |v| > 0 {
      ZeroMax(v[1..]);
    }
  }

  lemma BoundStep(rank: nat, n: nat, b: nat, rest: nat, ranked: nat)
    requires rank >= 1 && rest <= ranked <= (rank + n) * rest
    ensures b + rest <= rank * b + ranked <= (rank + n) * (b + rest)
  {
    MulMono(b, 1, rank);
    MulMono(b, rank, rank + n);
    assert (rank + n) * (b + rest) == (rank + n) * b + (rank + n) * rest;
  }

  lemma MulMono(p: nat, m: nat, n: nat)
    requires m <= n
    ensures p * m <= p * n
  {
  }

  /** Every slot is at most the largest frequency. */
  lemma {:induction false} MaxOfAtLeast(v: seq<nat>, k: nat)
    requires k < |v|
    ensures v[k] <= MaxOf(v)
    decreases k
  {
    if k > 0 {
      MaxOfAtLeast(v[1..], k - 1);
    }
  }

  /** A bound on every slot bounds the largest frequency. */
  lemma {:induction false} MaxOfAtMost(v: seq<nat>, b: nat)
    requires forall i :: 0 <= i < |v| ==> v[i] <= b
    ensures MaxOf(v) <= b
    decreases |v|
  {
    if |v| > 0 {
      MaxOfAtMost(v[1..], b);
    }
  }

  /** Emptying a positive slot takes one from `Positives`. */
  lemma {:induction false} PositivesDrop(v: seq<nat>, k: nat)
    requires k < |v| && v[k] > 0
    ensures Positives(v) == Positives(v[k := 0]) + 1
    decreases k
  {
    if k > 0 {
      PositivesDrop(v[1..], k - 1);
      assert v[k := 0][1..] == v[1..][k - 1 := 0];
    }
  }

  /** Five cards, `top >= 3` of them in slot `ia` and single ones in `ib` and `ic`: the type is fixed. */
  lemma TypeOfSlots(v: seq<nat>, top: nat, ia: nat, ib: nat, ic: nat)
    requires Sum(v) == 5 && 3 <= top <= 5 && ia < |v| && v[ia] == top
    requires top <= 4 ==> ib < |v| && ib != ia && v[ib] == 1
    requires top == 3 ==> ic < |v| && ic != ia && ic != ib && v[ic] == 1
    ensures TypeOf(Positives(v), MaxOf(v)) == Some(if top == 5 then FiveOfAKind else if top == 4 then FourOfAKind else ThreeOfAKind)
  {
    SumAtLeast(v);
    MaxOfAtLeast(v, ia);
    PositivesDrop(v, ia);
    if top <= 4 {
      var w := v[ia := 0];
      PositivesDrop(w, ib);
      if top == 3 {
        PositivesDrop(w[ib := 0], ic);
      }
    }
  }

  /**
    A five-card hand whose substituted cards are `top` of card `a` and
    single `b`s and `c`s has the type those counts name.
  */
  lemma TypeByCounts(h: seq<Card>, top: nat, a: Card, b: Card, c: Card)
    requires |h| == 5 && 3 <= top <= 5 && Count(Substitute(h), a) == top
    requires top <= 4 ==> b != a && Count(Substitute(h), b) == 1
    requires top == 3 ==> c != a && c != b && Count(Substitute(h), c) == 1
    ensures Classify(h) == Some(if top == 5 then FiveOfAKind else if top == 4 then FourOfAKind else ThreeOfAKind)
  {
    var s := Substitute(h);
    TallySlot(s, a);
    TallySlot(s, b);
    TallySlot(s, c);
    TypeOfSlots(Tally(s), top, Rank(a), Rank(b), Rank(c));
  }

  /**
    A hand of five whose substituted cards come at most in pairs ranks
    below three of a kind: high card, one pair or two pair.
  */
  lemma PairsAtMost(h: seq<Card>)
    requires |h| == 5 && forall d :: Count(Substitute(h), d) <= 2
    ensures Classify(h).Some? ==> TypeRank(Classify(h).value) <= TypeRank(TwoPair)
  {
    var v := Tally(Substitute(h));
    TallyCounts(Substitute(h));
    SumAtMost(v);
    forall i | 0 <= i < |v| ensures v[i] <= 2 {
      assert v[Rank(CardOf(i))] == Count(Substitute(h), CardOf(i));
    }
    MaxOfAtMost(v, 2);
    MulMono(Positives(v), MaxOf(v), 2);
  }

  /** The type ranks as constants, so that callers need not evaluate `TypeRank`. */
  lemma TypeRanks()
    ensures TypeRank(HighCard) == 0 && TypeRank(OnePair) == 1 && TypeRank(TwoPair) == 2
    ensures TypeRank(ThreeOfAKind) == 3 && TypeRank(FullHouse) == 4
    ensures TypeRank(FourOfAKind) == 5 && TypeRank(FiveOfAKind) == 6
  {
  }

  /** Hands of different types compare by type alone. */
  lemma TypeDecides(a: seq<Card>, b: seq<Card>, ta: HandType, tb: HandType)
    requires Classify(a) == Some(ta) && Classify(b) == Some(tb) && TypeRank(ta) > TypeRank(tb)
    ensures CompareHands(a, b) == Greater
  {
  }

  /** Hands of one type compare by their first cards when those differ. */
  lemma FirstCardDecides(a: seq<Card>, b: seq<Card>)
    requires Classifies(a) && Classifies(b) && Classify(a) == Classify(b)
    requires |a| > 0 && |b| > 0 && Rank(a[0]) < Rank(b[0])
    ensures CompareHands(a, b) == Less
  {
  }

  /** A run of one card counts that card once per position and nothing else. */
  lemma {:induction false} AllSame(h: seq<Card>, c: Card, d: Card)
    requires forall i :: 0 <= i < |h| ==> h[i] == c
    ensures Count(h, d) == if d == c then |h| else 0
    decreases |h|
  {
    if |h| > 0 {
      AllSame(h[1..], c, d);
      assert h == [h[0]] + h[1..];
    }
  }

  /** The count of a card in five, position by position. */
  lemma Count5(h: seq<Card>, d: Card)
    requires |h| == 5
    ensures Count(h, d) == (if h[0] == d then 1 else 0) + (if h[1] == d then 1 else 0) +
      (if h[2] == d then 1 else 0) + (if h[3] == d then 1 else 0) + (if h[4] == d then 1 else 0)
  {
    var t := h;
    for k := 0 to 5
      invariant t == h[k..]
      invariant Count(h, d) == Count(t, d) + (if 0 < k && h[0] == d then 1 else 0) +
        (if 1 < k && h[1] == d then 1 else 0) + (if 2 < k && h[2] == d then 1 else 0) +
        (if 3 < k && h[3] == d then 1 else 0) + (if 4 < k && h[4] == d then 1 else 0)
    {
      CountCons(t, d);
      t := t[1..];
    }
  }

  /** Five jokers become five aces: five of a kind. */
  lemma FiveJokers(j: seq<Card>)
    requires |j| == 5 && forall i :: 0 <= i < 5 ==> j[i] == Joker
    ensures Classify(j) == Some(FiveOfAKind)
  {
    forall d | d != Joker ensures Count(j, d) == 0 { AllSame(j, Joker, d); }
    AllSame(j, Joker, Joker);
    SubstituteCounts(j);
    TypeByCounts(j, 5, Ace, Ace, Ace);
  }

  /** Four of card `c` and then a `d`: four of a kind once no joker is involved. */
  lemma FourThenOne(h: seq<Card>, c: Card, d: Card)
    requires c != Joker && d != Joker && c != d
    requires |h| == 5 && h[0] == h[1] == h[2] == h[3] == c && h[4] == d
    ensures Classify(h) == Some(FourOfAKind)
  {
    var fours := h[..4];
    assert multiset(h) == multiset(fours) + multiset{d} by { assert h == fours + [h[4]]; }
    AllSame(fours, c, c);
    AllSame(fours, c, d);
    AllSame(fours, c, Joker);
    NoJokersKept(h);
    TypeByCounts(h, 4, c, d, d);
  }

  /**
    "JJJJJ" beats "AAAA2": the first ordering of `test_misc`. Each hand is
    given card by card.
  */
  lemma FiveJokersBeatFourAces(j: seq<Card>, a: seq<Card>)
    requires |j| == 5 && forall i :: 0 <= i < 5 ==> j[i] == Joker
    requires |a| == 5 && a[0] == a[1] == a[2] == a[3] == Ace && a[4] == Two
    ensures Classify(j) == Some(FiveOfAKind) && Classify(a) == Some(FourOfAKind)
    ensures CompareHands(j, a) == Greater
  {
    FiveJokers(j);
    FourThenOne(a, Ace, Two);
    TypeRanks();
    TypeDecides(j, a, FiveOfAKind, FourOfAKind);
  }

  /** "AKQAJ": the joker joins the pair of aces, making three of a kind. */
  lemma AcesWithJoker(h: seq<Card>)
    requires |h| == 5 && h[0] == Ace && h[1] == King && h[2] == Queen && h[3] == Ace && h[4] == Joker
    ensures Classify(h) == Some(ThreeOfAKind)
  {
    var m := MostFrequent(h);
    Count5(h, Ace);
    Count5(h, King);
    Count5(h, Queen);
    Count5(h, Joker);
    assert m == Ace by {
      Count5(h, m);
      assert AtLeast(h, m, Ace);
    }
    SubstituteCounts(h);
    TypeByCounts(h, 3, Ace, King, Queen);
  }

  /** "AKQAK": two pairs, so at most two pair. */
  lemma AcesAndKings(h: seq<Card>)
    requires |h| == 5 && h[0] == Ace && h[1] == King && h[2] == Queen && h[3] == Ace && h[4] == King
    ensures Classifies(h) && TypeRank(Classify(h).value) <= 2
  {
    Count5(h, Joker);
    forall d ensures Count(h, d) <= 2 { Count5(h, d); }
    NoJokersKept(h);
    FiveCardsClassify(h);
    PairsAtMost(h);
    TypeRanks();
  }

  /** "AKQAJ" beats "AKQAK": the second ordering of `test_misc`. */
  lemma JokerMakesThree(j: seq<Card>, k: seq<Card>)
    requires |j| == 5 && j[0] == Ace && j[1] == King && j[2] == Queen && j[3] == Ace && j[4] == Joker
    requires |k| == 5 && k[0] == Ace && k[1] == King && k[2] == Queen && k[3] == Ace && k[4] == King
    ensures Classify(j) == Some(ThreeOfAKind) && Classifies(k)
    ensures CompareHands(j, k) == Greater
  {
    AcesWithJoker(j);
    AcesAndKings(k);
    TypeRanks();
    TypeDecides(j, k, ThreeOfAKind, Classify(k).value);
  }

  /** "JKKK2": the joker becomes a fourth king. */
  lemma KingsWithJoker(h: seq<Card>)
    requires |h| == 5 && h[0] == Joker && h[1] == King && h[2] == King && h[3] == King && h[4] == Two
    ensures Classify(h) == Some(FourOfAKind)
  {
    var m := MostFrequent(h);
    Count5(h, King);
    Count5(h, Two);
    Count5(h, Joker);
    assert m == King by {
      Count5(h, m);
      assert AtLeast(h, m, King);
    }
    SubstituteCounts(h);
    TypeByCounts(h, 4, King, Two, Two);
  }

  /**
    "JKKK2" loses to "QQQQ2": the third ordering of `test_misc`. Both are
    four of a kind, and the joker ranks below the queen.
  */
  lemma JokerRanksLowest(j: seq<Card>, q: seq<Card>)
    requires |j| == 5 && j[0] == Joker && j[1] == King && j[2] == King && j[3] == King && j[4] == Two
    requires |q| == 5 && q[0] == q[1] == q[2] == q[3] == Queen && q[4] == Two
    ensures Classify(j) == Some(FourOfAKind) && Classify(q) == Some(FourOfAKind)
    ensures CompareHands(j, q) == Less
  {
    KingsWithJoker(j);
    FourThenOne(q, Queen, Two);
    FirstCardDecides(j, q);
  }

  // ---------------------------------------------------------------------
  // Input

  /**
    One input line: the first two whitespace-separated words are the hand
    and the `u32` bid; fewer words, a bad card or a bad bid panic.
  */
  function ParseLine(line: string): (r: Outcome<(seq<Card>, nat)>)
    ensures r.Done? <==> var ws := Text.Words(line);
      |ws| >= 2 && ParseHand(ws[0]).Some? && Text.ParseUnsigned(ws[1], Text.U32).Some?
    ensures r.Done? ==> |r.value.0| == |Text.Words(line)[0]| && r.value.1 < Text.U32
    ensures r.Done? ==> forall i :: 0 <= i < |r.value.0| ==> Letter(r.value.0[i]) == Text.Words(line)[0][i]
    ensures r.Done? ==> Text.DecimalValue(Text.UnsignedDigits(Text.Words(line)[1])) == r.value.1
  {
    var ws := Text.Words(line);
    if |ws| < 2 then Panic
    else
      var hand, bid := ParseHand(ws[0]), Text.ParseUnsigned(ws[1], Text.U32);
      if hand.None? || bid.None? then Panic else Done((hand.value, bid.value))
  }

  /** The letters of a hand. */
  function Spell(h: seq<Card>): (s: string)
    ensures |s| == |h| && forall i :: 0 <= i < |h| ==> s[i] == Letter(h[i])
  {
    seq(|h|, i requires 0 <= i < |h| => Letter(h[i]))
  }

  /** A hand spelled out, a space and a `u32` bid read back as that hand and bid. */
  lemma ParseShownLine(h: seq<Card>, bid: nat)
    requires |h| > 0 && bid < Text.U32
    ensures ParseLine(Spell(h) + " " + Text.ShowNat(bid)) == Done((h, bid))
  {
    var w := Spell(h);
    assert Text.NoSpace(w);
    Text.WordsGap(w, " ", Text.ShowNat(bid));
    Text.WordsOfShown([bid]);
    assert Text.ShowAll([bid]) == [Text.ShowNat(bid)];
    Text.ParseShowNat(bid, Text.U32);
    forall i | 0 <= i < |w| ensures ParseCard(w[i]) == Some(h[i]) {
      ParseLetter(h[i]);
    }
    var hand := ParseHand(w);
    assert hand.Some?;
    forall i | 0 <= i < |h| ensures hand.value[i] == h[i] {
      ParseLetter(hand.value[i]);
      ParseLetter(h[i]);
    }
    assert hand.value == h;
  }

  /** Every line parsed in order; the first bad line panics. */
  function ParseHands(lines: seq<string>): (r: Outcome<seq<(seq<Card>, nat)>>)
    ensures r.Done? <==> forall i :: 0 <= i < |lines| ==> ParseLine(lines[i]).Done?
    ensures r.Done? ==> |r.value| == |lines| && forall i :: 0 <= i < |lines| ==> r.value[i] == ParseLine(lines[i]).value
  {
    if |lines| == 0 then Done([])
    else
      var first, rest := ParseLine(lines[0]), ParseHands(lines[1..]);
      assert forall i :: 1 <= i < |lines| ==> lines[1..][i - 1] == lines[i];
      if first.Panic? || rest.Panic? then Panic else Done([first.value] + rest.value)
  }

  /**
    `part_one` and `part_two`, which are the same: the total winnings of
    the listed hands. It panics exactly when a line is malformed, or when
    there are two or more hands and one of them has no type.
  */
  function PartOne(lines: seq<string>): (r: Outcome<nat>)
    ensures r.Done? <==>
      ParseHands(lines).Done? && (|lines| < 2 || forall i :: 0 <= i < |lines| ==> Classifies(ParseLine(lines[i]).value.0))
    ensures |lines| == 1 && ParseLine(lines[0]).Done? ==> r == Done(ParseLine(lines[0]).value.1)
  {
    var hands := ParseHands(lines);
    if hands.Panic? then Panic else Winnings(hands.value)
  }

  /** Two slots holding one card each and nothing else: two kinds, each once. */
  lemma TwoSingleSlots(v: seq<nat>, i: nat, j: nat)
    requires Sum(v) == 2 && i < |v| && j < |v| && i != j && v[i] == 1 && v[j] == 1
    ensures Positives(v) == 2 && MaxOf(v) == 1
  {
    SumAtLeast(v);
    MaxOfAtLeast(v, i);
    PositivesDrop(v, i);
    PositivesDrop(v[i := 0], j);
  }

  /** Two different non-jokers: two frequencies of one match no arm of the type table. */
  lemma TwoCardsUntyped(h: seq<Card>)
    requires |h| == 2 && h[0] != h[1] && h[0] != Joker && h[1] != Joker
    ensures !Classifies(h)
  {
    assert multiset(h) == multiset{h[0], h[1]} by { assert h == [h[0], h[1]]; }
    NoJokersKept(h);
    TallySlot(h, h[0]);
    TallySlot(h, h[1]);
    var v := Tally(h);
    TwoSingleSlots(v, Rank(h[0]), Rank(h[1]));
    assert Classify(h) == TypeOf(2, 1);
  }

  /**
    The one-line input "AK 5": its two-card hand has no type, yet a lone
    hand is never compared, so the answer is its bid.
  */
  lemma LoneHandNeverTyped(h: seq<Card>)
    requires |h| == 2 && h[0] == Ace && h[1] == King
    ensures !Classifies(h)
    ensures Winnings([(h, 5)]) == Done(5)
  {
    TwoCardsUntyped(h);
  }
}
