/** Cards, the shoe and hand totals: packages/blackjack/src/cards.ts. */
module Cards {
  import opened Sums
  import Radix

  datatype Rank = Ace | Two | Three | Four | Five | Six | Seven | Eight | Nine | Ten | Jack | Queen | King

  datatype Suit = Spades | Hearts | Diamonds | Clubs

  /** A card id such as "TH", already parsed into its rank and suit. */
  datatype Card = Card(rank: Rank, suit: Suit)

  const RANKS: seq<Rank> := [Ace, Two, Three, Four, Five, Six, Seven, Eight, Nine, Ten, Jack, Queen, King]
  const SUITS: seq<Suit> := [Spades, Hearts, Diamonds, Clubs]
  const DECKS := 6

  function CardValue(r: Rank): nat {
    match r
    case Ace => 11
    case Two => 2
    case Three => 3
    case Four => 4
    case Five => 5
    case Six => 6
    case Seven => 7
    case Eight => 8
    case Nine => 9
    case _ => 10
  }

  predicate IsTenValue(r: Rank) {
    CardValue(r) == 10
  }

  /** Cards count their number, the three court cards ten, and an ace eleven to begin with. */
  lemma ValuesByPlace(i: nat)
    requires i < 13
    ensures CardValue(RANKS[i]) == if i == 0 then 11 else if i < 10 then i + 1 else 10
    ensures IsTenValue(RANKS[i]) <==> i >= 9
  {
  }

  // ---------------------------------------------------------------- the shoe

  function RankIndex(r: Rank): (i: nat)
    ensures i < 13
    ensures forall j: nat :: j < 13 ==> (RANKS[j] == r <==> i == j)
  {
    match r
    case Ace => 0
    case Two => 1
    case Three => 2
    case Four => 3
    case Five => 4
    case Six => 5
    case Seven => 6
    case Eight => 7
    case Nine => 8
    case Ten => 9
    case Jack => 10
    case Queen => 11
    case King => 12
  }

  function SuitIndex(s: Suit): (i: nat)
    ensures i < 4
    ensures forall j: nat :: j < 4 ==> (SUITS[j] == s <==> i == j)
  {
    match s
    case Spades => 0
    case Hearts => 1
    case Diamonds => 2
    case Clubs => 3
  }

  /** Whether `c` comes before position (`rank`, `suit`) in one deck. */
  predicate Before(c: Card, rank: nat, suit: nat) {
    RankIndex(c.rank) < rank || (RankIndex(c.rank) == rank && SuitIndex(c.suit) < suit)
  }

  lemma NextPosition(r: nat, s: nat)
    requires r < 13 && s < 4
    ensures forall c :: Before(c, r, s + 1) <==> Before(c, r, s) || c == Card(RANKS[r], SUITS[s])
  {
    forall c: Card
      ensures Before(c, r, s + 1) <==> Before(c, r, s) || c == Card(RANKS[r], SUITS[s])
    {
      assert RankIndex(c.rank) == r <==> RANKS[r] == c.rank;
      assert SuitIndex(c.suit) == s <==> SUITS[s] == c.suit;
      assert c == Card(c.rank, c.suit);
    }
  }

  /** The card at a place of a fresh shoe: deck by deck, rank by rank, suit by suit. */
  function ShoeCard(i: nat): Card {
    Card(RANKS[i % 52 / 4], SUITS[i % 4])
  }

  function FullShoe(decks: nat): (cards: seq<Card>)
    ensures |cards| == 52 * decks
    ensures forall i :: 0 <= i < |cards| ==> cards[i] == ShoeCard(i)
  {
    seq(52 * decks, i requires 0 <= i => ShoeCard(i))
  }

  /** Each card that comes before the position has been added once more than the others. */
  ghost predicate Dealt(cards: seq<Card>, decks: nat, rank: nat, suit: nat) {
    && |cards| == 52 * decks + 4 * rank + suit
    && (forall i :: 0 <= i < |cards| ==> cards[i] == ShoeCard(i))
    && forall c :: multiset(cards)[c] == decks + if Before(c, rank, suit) then 1 else 0
  }

  lemma PlaceOfCard(d: nat, r: nat, s: nat)
    requires r < 13 && s < 4
    ensures ShoeCard(52 * d + 4 * r + s) == Card(RANKS[r], SUITS[s])
  {
    var i, x := 52 * d + 4 * r + s, 4 * r + s;
    Radix.DivMod(i, d, x, 52);
    Radix.DivMod(x, r, s, 4);
    Radix.DivMod(i, 13 * d + r, s, 4);
  }

  lemma NothingBefore(c: Card)
    ensures !Before(c, 0, 0)
  {
  }

  lemma NoCardsDealt()
    ensures Dealt([], 0, 0, 0)
  {
    forall c
      ensures !Before(c, 0, 0)
    {
      NothingBefore(c);
    }
    hide Before, ShoeCard;
  }

  lemma DealtIsShoe(cards: seq<Card>, decks: nat)
    requires Dealt(cards, decks, 0, 0)
    ensures cards == FullShoe(decks)
    ensures forall c :: multiset(cards)[c] == decks
  {
    hide Before, ShoeCard;
    forall c
      ensures multiset(cards)[c] == decks
    {
      NothingBefore(c);
    }
  }

  lemma OneMoreDealt(cards: seq<Card>, d: nat, r: nat, s: nat)
    requires Dealt(cards, d, r, s) && r < 13 && s < 4
    ensures Dealt(cards + [Card(RANKS[r], SUITS[s])], d, r, s + 1)
  {
    var card := Card(RANKS[r], SUITS[s]);
    NextPosition(r, s);
    PlaceOfCard(d, r, s);
    hide Before, ShoeCard;
    assert multiset(cards + [card]) == multiset(cards) + multiset{card};
  }

  lemma DealtCarriesOver(cards: seq<Card>, d: nat, r: nat)
    ensures Dealt(cards, d, r, 4) <==> Dealt(cards, d, r + 1, 0)
    ensures Dealt(cards, d, 13, 0) <==> Dealt(cards, d + 1, 0, 0)
  {
    hide RankIndex, SuitIndex, ShoeCard;
    assert forall c :: Before(c, r, 4) <==> Before(c, r + 1, 0);
    assert forall c :: Before(c, 13, 0) && !Before(c, 0, 0);
    hide Before;
  }

  /** Lines 21-34: a shoe of whole decks in their order, each card as often as there are decks. */
  method BuildFullMultiset(decks: nat) returns (cards: seq<Card>)
    ensures cards == FullShoe(decks)
    ensures forall c :: multiset(cards)[c] == decks
  {
    hide Dealt, FullShoe;
    cards := [];
    NoCardsDealt();
    for d := 0 to decks
      invariant Dealt(cards, d, 0, 0)
    {
      for r := 0 to 13
        invariant Dealt(cards, d, r, 0)
      {
        for s := 0 to 4
          invariant Dealt(cards, d, r, s)
        {
          OneMoreDealt(cards, d, r, s);
          cards := cards + [Card(RANKS[r], SUITS[s])];
        }
        DealtCarriesOver(cards, d, r);
      }
      DealtCarriesOver(cards, d, 13);
    }
    DealtIsShoe(cards, decks);
  }

  // ---------------------------------------------------------------- hand totals

  datatype Total = Total(total: nat, soft: bool)

  /** Every ace as 11. */
  function HighValue(): Card -> int {
    (c: Card) => CardValue(c.rank) as int
  }

  function AceCount(): Card -> int {
    (c: Card) => if c.rank == Ace then 1 else 0
  }

  lemma {:induction false} SumsAreNatural(cards: seq<Card>)
    ensures SeqSum(cards, HighValue()) >= 11 * SeqSum(cards, AceCount())
    ensures SeqSum(cards, AceCount()) >= 0
  {
    if |cards| > 0 {
      SumsAreNatural(cards[1..]);
    }
  }

  function Aces(cards: seq<Card>): nat {
    SumsAreNatural(cards);
    SeqSum(cards, AceCount())
  }

  function Raw(cards: seq<Card>): (raw: nat)
    ensures raw >= 11 * Aces(cards)
  {
    SumsAreNatural(cards);
    SeqSum(cards, HighValue())
  }

  /** Count aces as 1 while the total is over 21. */
  function Demote(total: nat, aces: nat): (r: (nat, nat))
    requires total >= 11 * aces
  {
    if total > 21 && aces > 0 then Demote(total - 10, aces - 1) else (total, aces)
  }

  function HandTotal(cards: seq<Card>): Total {
    var (total, aces) := Demote(Raw(cards), Aces(cards));
    Total(total, aces > 0 && total <= 21)
  }

  /** Lines 53-71. */
  method ComputeHandTotal(cards: seq<Card>) returns (t: Total)
    ensures t == HandTotal(cards)
  {
    var total: int := 0;
    var aces: int := 0;
    for i := 0 to |cards|
      invariant total == SeqSum(cards[..i], HighValue())
      invariant aces == SeqSum(cards[..i], AceCount())
    {
      assert cards[..i + 1] == cards[..i] + [cards[i]];
      SeqSumAppend(cards[..i], [cards[i]], HighValue());
      SeqSumAppend(cards[..i], [cards[i]], AceCount());
      assert [cards[i]][1..] == [];
      var rank := cards[i].rank;
      if rank == Ace {
        aces := aces + 1;
        total := total + 11;
      } else {
        total := total + CardValue(rank);
      }
    }
    assert cards[..|cards|] == cards;
    SumsAreNatural(cards);
    while total > 21 && aces > 0
      invariant total >= 11 * aces >= 0
      invariant Demote(total, aces) == Demote(Raw(cards), Aces(cards))
    {
      total := total - 10;
      aces := aces - 1;
    }
    return Total(total, aces > 0 && total <= 21);
  }

  predicate IsBlackjack(cards: seq<Card>) {
    |cards| == 2 && HandTotal(cards).total == 21
  }

  predicate IsBust(cards: seq<Card>) {
    HandTotal(cards).total > 21
  }

  // ---------------------------------------------------------------- what the total means

  /** The value of a hand when the aces marked in `high` count 11 and the others 1. */
  function ValueWith(cards: seq<Card>, high: seq<bool>): nat
    requires |high| == |cards|
  {
    if |cards| == 0 then 0 else
      (if cards[0].rank == Ace then (if high[0] then 11 else 1) else CardValue(cards[0].rank))
      + ValueWith(cards[1..], high[1..])
  }

  function HighAces(cards: seq<Card>, high: seq<bool>): nat
    requires |high| == |cards|
  {
    if |cards| == 0 then 0 else
      (if cards[0].rank == Ace && high[0] then 1 else 0) + HighAces(cards[1..], high[1..])
  }

  function AllLow(n: nat): (r: seq<bool>)
    ensures |r| == n && forall i :: 0 <= i < n ==> !r[i]
  {
    seq(n, i => false)
  }

  /** Every ace as 1. */
  function HardTotal(cards: seq<Card>): nat {
    Raw(cards) - 10 * Aces(cards)
  }

  lemma {:induction false} ValueByHighAces(cards: seq<Card>, high: seq<bool>)
    requires |high| == |cards|
    ensures ValueWith(cards, high) == HardTotal(cards) + 10 * HighAces(cards, high)
    ensures HighAces(cards, high) <= Aces(cards)
    ensures HighAces(cards, high) > 0 <==> exists i :: 0 <= i < |cards| && cards[i].rank == Ace && high[i]
  {
    if |cards| > 0 {
      ValueByHighAces(cards[1..], high[1..]);
      forall i | 0 <= i < |cards[1..]|
        ensures cards[1..][i] == cards[i + 1] && high[1..][i] == high[i + 1]
      {
      }
      if i :| 1 <= i < |cards| && cards[i].rank == Ace && high[i] {
        assert cards[1..][i - 1].rank == Ace && high[1..][i - 1];
      }
      if j :| 0 <= j < |cards[1..]| && cards[1..][j].rank == Ace && high[1..][j] {
        assert cards[j + 1].rank == Ace && high[j + 1];
      }
    }
  }

  /** Any number of the aces can be counted high. */
  lemma {:induction false} ChooseHigh(cards: seq<Card>, k: nat) returns (high: seq<bool>)
    requires k <= Aces(cards)
    ensures |high| == |cards| && HighAces(cards, high) == k
  {
    if |cards| == 0 {
      return [];
    }
    var up := cards[0].rank == Ace && k > 0;
    assert Aces(cards) == Aces(cards[1..]) + if cards[0].rank == Ace then 1 else 0;
    var rest := ChooseHigh(cards[1..], if up then k - 1 else k);
    high := [up] + rest;
    assert high[1..] == rest;
  }

  /** `Demote` keeps the most aces high that 21 allows. */
  lemma {:induction false} DemoteIsBest(hard: nat, aces: nat)
    requires hard >= aces
    ensures var (t, k) := Demote(hard + 10 * aces, aces);
            && t == hard + 10 * k && k <= aces
            && (t <= 21 || k == 0)
            && forall j: nat :: k < j <= aces ==> hard + 10 * j > 21
  {
    if hard + 10 * aces > 21 && aces > 0 {
      DemoteIsBest(hard, aces - 1);
    }
  }

  ghost predicate Obtainable(cards: seq<Card>, t: nat) {
    exists high: seq<bool> :: |high| == |cards| && ValueWith(cards, high) == t
  }

  /** Some ace counts 11 in a way of counting that gives `t`. */
  ghost predicate AceHighAt(cards: seq<Card>, t: nat) {
    exists high: seq<bool> | |high| == |cards| ::
      ValueWith(cards, high) == t && HighAces(cards, high) > 0
  }

  /**
   * The total is the greatest not over 21 that counting each ace as 1 or 11 can give, or the all-ones
   * total when there is none; the hand is soft exactly when an ace still counts 11 in that total.
   */
  lemma HandTotalIsBest(cards: seq<Card>)
    ensures Obtainable(cards, HandTotal(cards).total)
    ensures forall t: nat :: t <= 21 && Obtainable(cards, t) ==> t <= HandTotal(cards).total <= 21
    ensures HandTotal(cards).total > 21 ==> HandTotal(cards).total == ValueWith(cards, AllLow(|cards|))
    ensures HandTotal(cards).soft <==> AceHighAt(cards, HandTotal(cards).total)
  {
    var hard, aces := HardTotal(cards), Aces(cards);
    DemoteIsBest(hard, aces);
    var (t, k) := Demote(hard + 10 * aces, aces);
    var high := ChooseHigh(cards, k);
    ValueByHighAces(cards, high);
    ValueByHighAces(cards, AllLow(|cards|));
    forall h: seq<bool> | |h| == |cards|
      ensures ValueWith(cards, h) == hard + 10 * HighAces(cards, h) && HighAces(cards, h) <= aces
    {
      ValueByHighAces(cards, h);
    }
  }

  /** The total does not depend on the order of the cards. */
  lemma HandTotalIgnoresOrder(a: seq<Card>, b: seq<Card>)
    requires multiset(a) == multiset(b)
    ensures HandTotal(a) == HandTotal(b)
  {
    SeqSumPermutation(a, b, HighValue());
    SeqSumPermutation(a, b, AceCount());
  }

  // ---------------------------------------------------------------- facts the engine relies on

  lemma {:induction false} HardAtLeastCards(cards: seq<Card>)
    ensures HardTotal(cards) >= |cards|
  {
    if |cards| > 0 {
      HardAtLeastCards(cards[1..]);
    }
  }

  /** A hand counts at least one for each card, so a hand that is not bust is short. */
  lemma TotalAtLeastCards(cards: seq<Card>)
    ensures HandTotal(cards).total >= |cards|
  {
    HardAtLeastCards(cards);
    var hard, aces := HardTotal(cards), Aces(cards);
    DemoteIsBest(hard, aces);
    var (t, k) := Demote(hard + 10 * aces, aces);
    assert HandTotal(cards).total == t >= hard;
  }

  lemma SumOfTwo(a: Card, b: Card, f: Card -> int)
    ensures SeqSum([a, b], f) == f(a) + f(b)
  {
    assert [a, b][1..] == [b] && [b][1..] == [];
    assert SeqSum([b], f) == f(b);
  }

  lemma TwoCards(a: Card, b: Card)
    ensures Raw([a, b]) == CardValue(a.rank) + CardValue(b.rank)
    ensures Aces([a, b]) == AceCount()(a) + AceCount()(b)
  {
    SumOfTwo(a, b, HighValue());
    SumOfTwo(a, b, AceCount());
  }

  /** A natural is an ace and a ten-value card, so the first card already shows that it is possible. */
  lemma NaturalShows(cards: seq<Card>)
    requires IsBlackjack(cards)
    ensures cards[0].rank == Ace || IsTenValue(cards[0].rank)
  {
    TwoCards(cards[0], cards[1]);
    assert cards == [cards[0], cards[1]];
  }

  /** The total of a hand can fall as it grows: a soft 15 turns into a hard 12. */
  lemma TotalCanFall()
    ensures var hand := [Card(Ace, Spades), Card(Four, Spades)];
            HandTotal(hand + [Card(Seven, Spades)]).total < HandTotal(hand).total < 17
  {
    var a, b, c := Card(Ace, Spades), Card(Four, Spades), Card(Seven, Spades);
    TwoCards(a, b);
    SeqSumAppend([a, b], [c], HighValue());
    SeqSumAppend([a, b], [c], AceCount());
    assert [c][1..] == [];
    assert Raw([a, b] + [c]) == 22 && Aces([a, b] + [c]) == 1;
  }
}
