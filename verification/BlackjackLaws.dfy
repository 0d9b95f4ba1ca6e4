/**
 * Provable fairness and safety of a blackjack hand, for every key, seed, nonce, shoe and run of
 * player actions.
 */
module BlackjackLaws {
  import opened Money
  import opened Cards
  import opened Sampler
  import opened Text
  import opened Blackjack

  // ---------------------------------------------------------------- one order for the shoe

  /** The shoe in the order in which the draws from `cardIndex` on would take it. */
  function OrderFrom(h: Hmac, cs: string, nonce: nat, remaining: seq<Card>, cardIndex: nat): seq<Card>
    decreases |remaining|
  {
    match DrawFrom(h, cs, nonce, cardIndex, remaining)
    case Stuck(_) => remaining
    case Drew(card, rest) => [card] + OrderFrom(h, cs, nonce, rest, cardIndex + 1)
  }

  /** What is left of the shoe after `k` draws from `cardIndex` on. */
  function After(h: Hmac, cs: string, nonce: nat, remaining: seq<Card>, cardIndex: nat, k: nat): seq<Card>
    decreases k
  {
    if k == 0 then remaining else
      match DrawFrom(h, cs, nonce, cardIndex, remaining)
      case Stuck(_) => remaining
      case Drew(_, rest) => After(h, cs, nonce, rest, cardIndex + 1, k - 1)
  }

  lemma RemovedMultiset(s: seq<Card>, i: nat)
    requires i < |s|
    ensures multiset(s) == multiset{s[i]} + multiset(Removed(s, i))
  {
    assert s == s[..i] + [s[i]] + s[i + 1..];
  }

  /** The order is a permutation of the shoe. */
  lemma {:induction false} OrderIsPermutation(h: Hmac, cs: string, nonce: nat, remaining: seq<Card>, cardIndex: nat)
    ensures multiset(OrderFrom(h, cs, nonce, remaining, cardIndex)) == multiset(remaining)
    decreases |remaining|
  {
    match DrawFrom(h, cs, nonce, cardIndex, remaining)
    case Stuck(_) =>
    case Drew(card, rest) =>
      var i :| 0 <= i < |remaining| && card == remaining[i] && rest == Removed(remaining, i);
      RemovedMultiset(remaining, i);
      OrderIsPermutation(h, cs, nonce, rest, cardIndex + 1);
  }

  /** The cards of a hand in the order they left the shoe. */
  function DealOrder(hand: Hand): seq<Card>
    requires |hand.player| >= 2 && |hand.dealer| >= 2
  {
    [hand.player[0], hand.dealer[0], hand.player[1], hand.dealer[1]] + hand.player[2..] + hand.dealer[2..]
  }

  // ---------------------------------------------------------------- the invariant of a hand

  function CardsOut(hand: Hand): nat {
    |hand.player| + |hand.dealer|
  }

  /** The hand's cards are the first of the shoe's order, and the rest of the order is still to come. */
  ghost predicate FollowsOrder(h: Hmac, hand: Hand) {
    && |hand.player| >= 2 && |hand.dealer| >= 2
    && DealOrder(hand) + OrderFrom(h, hand.clientSeed, hand.nonce, hand.remaining, CardsOut(hand))
       == OrderFrom(h, hand.clientSeed, hand.nonce, hand.before, 0)
    && hand.remaining == After(h, hand.clientSeed, hand.nonce, hand.before, 0, CardsOut(hand))
    && |hand.remaining| + CardsOut(hand) == |hand.before|
  }

  /** Someone has a natural in the first two cards. */
  predicate HasNatural(hand: Hand) {
    IsBlackjack(hand.player) || IsBlackjack(hand.dealer)
  }

  /** The dealer drew just to 17: the total is 17 or more and was less with every card before. */
  ghost predicate DrewToSeventeen(dealer: seq<Card>) {
    && HandTotal(dealer).total >= 17
    && forall n :: 2 <= n < |dealer| ==> HandTotal(dealer[..n]).total < 17
  }

  ghost predicate InPlay(hand: Hand) {
    && |hand.dealer| == 2 && hand.holeHidden && !hand.doubled
    && !HasNatural(hand) && !IsBust(hand.player)
    && hand.outcome == None && hand.settlement == None
  }

  ghost predicate Finished(hand: Hand) {
    && !hand.holeHidden
    && hand.outcome == Some(ResolveOutcome(hand.player, hand.dealer, false))
    && hand.settlement == SettlementFromOutcome(hand.outcome.value, hand.bet)
    && (hand.doubled ==> |hand.player| == 3)
    && (HasNatural(hand) ==> |hand.player| == 2)
    && if HasNatural(hand) || IsBust(hand.player) then |hand.dealer| == 2 else DrewToSeventeen(hand.dealer)
  }

  /** What holds of every reachable hand that was dealt for `bet`. */
  ghost predicate HandOk(h: Hmac, hand: Hand, bet: int) {
    && FollowsOrder(h, hand)
    && bet > 0 && hand.bet == (if hand.doubled then 2 * bet else bet)
    && match hand.phase
       case PlayerTurn => InPlay(hand)
       case DealerTurn => false
       case Settled => Finished(hand)
  }

  lemma OrderShape(h: Hmac, hand: Hand)
    requires FollowsOrder(h, hand)
    ensures |hand.player| >= 2 && |hand.dealer| >= 2
    ensures |hand.remaining| + CardsOut(hand) == |hand.before|
  {
  }

  /** Nothing about where the hand came from changes, and no card is taken back. */
  predicate SameDeal(hand: Hand, next: Hand) {
    && next.handId == hand.handId && next.clientSeed == hand.clientSeed && next.nonce == hand.nonce
    && next.before == hand.before && hand.player <= next.player && hand.dealer <= next.dealer
  }

  // ---------------------------------------------------------------- one draw

  lemma DrawnCard(h: Hmac, cs: string, nonce: nat, cardIndex: nat, remaining: seq<Card>)
    ensures match DrawFrom(h, cs, nonce, cardIndex, remaining)
            case Stuck(e) => e == EmptyShoe <==> remaining == []
            case Drew(card, rest) => |rest| == |remaining| - 1
  {
    hide SampleFrom;
    if |remaining| > 0 {
      DrawIndexIsFirstAccepted(h, DrawPrefix(cs, nonce, cardIndex), |remaining|);
    }
  }

  lemma {:induction false} AfterLength(h: Hmac, cs: string, nonce: nat, shoe: seq<Card>, i: nat, k: nat)
    ensures |After(h, cs, nonce, shoe, i, k)| + k >= |shoe|
    decreases k
  {
    hide DrawFrom;
    if k > 0 {
      DrawnCard(h, cs, nonce, i, shoe);
      match DrawFrom(h, cs, nonce, i, shoe)
      case Stuck(_) =>
      case Drew(_, rest) => AfterLength(h, cs, nonce, rest, i + 1, k - 1);
    }
  }

  /** One draw more than `k` successful ones. */
  lemma {:induction false} AfterOneMore(h: Hmac, cs: string, nonce: nat, shoe: seq<Card>, i: nat, k: nat)
    requires |After(h, cs, nonce, shoe, i, k)| + k == |shoe|
    requires DrawFrom(h, cs, nonce, i + k, After(h, cs, nonce, shoe, i, k)).Drew?
    ensures After(h, cs, nonce, shoe, i, k + 1)
            == DrawFrom(h, cs, nonce, i + k, After(h, cs, nonce, shoe, i, k)).rest
    decreases k
  {
    hide DrawFrom;
    if k == 0 {
      assert After(h, cs, nonce, shoe, i, 1)
          == After(h, cs, nonce, DrawFrom(h, cs, nonce, i, shoe).rest, i + 1, 0);
    } else {
      match DrawFrom(h, cs, nonce, i, shoe)
      case Stuck(_) =>
      case Drew(_, rest) =>
        DrawnCard(h, cs, nonce, i, shoe);
        assert (i + 1) + (k - 1) == i + k;
        AfterOneMore(h, cs, nonce, rest, i + 1, k - 1);
    }
  }

  /** `next` is `hand` with one more card: any to the dealer, or to the player before the dealer draws. */
  predicate Grows(hand: Hand, next: Hand, card: Card) {
    || (next.dealer == hand.dealer + [card] && next.player == hand.player)
    || (next.player == hand.player + [card] && next.dealer == hand.dealer && |hand.dealer| == 2)
  }

  lemma DealOrderGrows(hand: Hand, next: Hand, card: Card)
    requires |hand.player| >= 2 && |hand.dealer| >= 2 && Grows(hand, next, card)
    ensures DealOrder(next) == DealOrder(hand) + [card]
  {
    var first := [hand.player[0], hand.dealer[0], hand.player[1], hand.dealer[1]];
    if next.player == hand.player {
      assert next.dealer[2..] == hand.dealer[2..] + [card];
    } else {
      assert next.player[2..] == hand.player[2..] + [card];
      assert hand.dealer[2..] == [];
    }
  }

  lemma Regroup(s: seq<Card>, card: Card, t: seq<Card>)
    ensures s + ([card] + t) == (s + [card]) + t
  {
  }

  /** A card the hand draws, to either side, is the next of the order. */
  lemma CardKeepsOrder(h: Hmac, hand: Hand, next: Hand, card: Card)
    requires FollowsOrder(h, hand)
    requires next.clientSeed == hand.clientSeed && next.nonce == hand.nonce && next.before == hand.before
    requires DrawFrom(h, hand.clientSeed, hand.nonce, CardsOut(hand), hand.remaining) == Drew(card, next.remaining)
    requires Grows(hand, next, card)
    ensures FollowsOrder(h, next)
  {
    hide DrawFrom, DealOrder, After;
    DrawnCard(h, hand.clientSeed, hand.nonce, CardsOut(hand), hand.remaining);
    AfterOneMore(h, hand.clientSeed, hand.nonce, hand.before, 0, CardsOut(hand));
    DealOrderGrows(hand, next, card);
    Regroup(DealOrder(hand), card, OrderFrom(h, hand.clientSeed, hand.nonce, next.remaining, CardsOut(next)));
    assert CardsOut(next) == CardsOut(hand) + 1;
    assert OrderFrom(h, hand.clientSeed, hand.nonce, hand.remaining, CardsOut(hand))
        == [card] + OrderFrom(h, hand.clientSeed, hand.nonce, next.remaining, CardsOut(hand) + 1);
  }

  // ---------------------------------------------------------------- the dealer's turn

  /** The dealer finds the shoe empty only when shoe and dealer's hand were 16 cards or fewer. */
  lemma {:induction false} DealerEmptiesShort(h: Hmac, cs: string, nonce: nat, dealer: seq<Card>,
                                              remaining: seq<Card>, cardIndex: nat)
    requires DealerDraws(h, cs, nonce, dealer, remaining, cardIndex) == Err(EmptyShoe)
    ensures |dealer| + |remaining| <= 16
    decreases |remaining|
  {
    hide DrawFrom, HandTotal;
    DrawnCard(h, cs, nonce, cardIndex, remaining);
    match DrawFrom(h, cs, nonce, cardIndex, remaining)
    case Stuck(_) => TotalAtLeastCards(dealer);
    case Drew(card, rest) => DealerEmptiesShort(h, cs, nonce, dealer + [card], rest, cardIndex + 1);
  }

  /** The dealer's hand grew from `hand` in order and stopped at the first total of 17 or more. */
  ghost predicate StoppedAt(h: Hmac, hand: Hand, dealer: seq<Card>, remaining: seq<Card>) {
    && FollowsOrder(h, hand.(dealer := dealer, remaining := remaining))
    && hand.dealer <= dealer
    && HandTotal(dealer).total >= 17
    && forall n :: |hand.dealer| <= n < |dealer| ==> HandTotal(dealer[..n]).total < 17
  }

  lemma StoppedEarlier(h: Hmac, hand: Hand, next: Hand, card: Card,
                                          dealer: seq<Card>, remaining: seq<Card>)
    requires next == hand.(dealer := hand.dealer + [card], remaining := next.remaining)
    requires HandTotal(hand.dealer).total < 17 && StoppedAt(h, next, dealer, remaining)
    ensures StoppedAt(h, hand, dealer, remaining)
  {
    hide FollowsOrder, HandTotal;
    assert hand.(dealer := dealer, remaining := remaining) == next.(dealer := dealer, remaining := remaining);
    assert dealer[..|hand.dealer|] == hand.dealer;
  }

  lemma {:induction false} DealerPlays(h: Hmac, hand: Hand)
    requires FollowsOrder(h, hand)
    ensures var r := DealerDraws(h, hand.clientSeed, hand.nonce, hand.dealer, hand.remaining, CardsOut(hand));
            r.Ok? ==> StoppedAt(h, hand, r.value.0, r.value.1)
    decreases |hand.remaining|
  {
    hide DrawFrom, HandTotal, FollowsOrder;
    if HandTotal(hand.dealer).total >= 17 {
      assert hand == hand.(dealer := hand.dealer, remaining := hand.remaining);
    } else {
      match DrawFrom(h, hand.clientSeed, hand.nonce, CardsOut(hand), hand.remaining)
      case Stuck(_) =>
      case Drew(card, rest) =>
        var next := hand.(dealer := hand.dealer + [card], remaining := rest);
        DrawnCard(h, hand.clientSeed, hand.nonce, CardsOut(hand), hand.remaining);
        CardKeepsOrder(h, hand, next, card);
        DealerPlays(h, next);
        var r := DealerDraws(h, hand.clientSeed, hand.nonce, next.dealer, rest, CardsOut(next));
        if r.Ok? {
          StoppedEarlier(h, hand, next, card, r.value.0, r.value.1);
        }
    }
  }

  /** A dealer who had to draw, or stood on two cards without a natural, has none. */
  lemma StillNoNatural(first: seq<Card>, dealer: seq<Card>)
    requires first <= dealer && |first| == 2 && !IsBlackjack(first)
    ensures !IsBlackjack(dealer)
  {
    if |dealer| == 2 {
      assert dealer == first;
    }
  }

  /** The order concerns only the seeds and the cards. */
  lemma SameCardsSameOrder(h: Hmac, hand: Hand, other: Hand)
    requires FollowsOrder(h, hand)
    requires other.clientSeed == hand.clientSeed && other.nonce == hand.nonce && other.before == hand.before
    requires other.player == hand.player && other.dealer == hand.dealer && other.remaining == hand.remaining
    ensures FollowsOrder(h, other)
  {
    hide OrderFrom, After;
    assert DealOrder(other) == DealOrder(hand) && CardsOut(other) == CardsOut(hand);
  }

  lemma SettleFinishes(hand: Hand, busted: bool)
    requires busted ==> IsBust(hand.player)
    requires hand.doubled ==> |hand.player| == 3
    requires HasNatural(hand) ==> |hand.player| == 2
    requires if HasNatural(hand) || IsBust(hand.player) then |hand.dealer| == 2 else DrewToSeventeen(hand.dealer)
    ensures Finished(Settle(hand, busted)) && Settle(hand, busted).phase == Settled
  {
    assert ResolveOutcome(hand.player, hand.dealer, busted) == ResolveOutcome(hand.player, hand.dealer, false);
  }

  /** What holds of a hand the player has just stood on, doubled or busted. */
  ghost predicate ReadyToFinish(h: Hmac, hand: Hand, bet: int) {
    && FollowsOrder(h, hand)
    && bet > 0 && hand.bet == (if hand.doubled then 2 * bet else bet)
    && |hand.dealer| == 2 && !HasNatural(hand) && (hand.doubled ==> |hand.player| == 3)
  }

  lemma SettledOk(h: Hmac, hand: Hand, dealer: seq<Card>, remaining: seq<Card>, bet: int)
    requires ReadyToFinish(h, hand, bet) && !IsBust(hand.player)
    requires StoppedAt(h, hand, dealer, remaining)
    ensures HandOk(h, Settle(hand.(dealer := dealer, remaining := remaining), false), bet)
  {
    hide FollowsOrder, HandTotal;
    var last := hand.(dealer := dealer, remaining := remaining);
    SameCardsSameOrder(h, last, Settle(last, false));
    StillNoNatural(hand.dealer, dealer);
    assert DrewToSeventeen(dealer);
    SettleFinishes(last, false);
  }

  lemma BustedOk(h: Hmac, hand: Hand, bet: int)
    requires ReadyToFinish(h, hand, bet) && IsBust(hand.player)
    ensures HandOk(h, Settle(hand, true), bet)
  {
    hide FollowsOrder, HandTotal;
    SameCardsSameOrder(h, hand, Settle(hand, true));
    SettleFinishes(hand, true);
  }

  lemma FinishKeeps(h: Hmac, hand: Hand, bet: int)
    requires ReadyToFinish(h, hand, bet)
    ensures match FinishDealer(h, hand, CardsOut(hand), IsBust(hand.player))
            case Err(e) => !IsBust(hand.player) && (e == EmptyShoe ==> |hand.before| <= |hand.player| + 16)
            case Ok(done) => HandOk(h, done, bet) && SameDeal(hand, done)
  {
    hide DealerDraws, FollowsOrder, HandTotal;
    OrderShape(h, hand);
    if IsBust(hand.player) {
      BustedOk(h, hand, bet);
    } else {
      match DealerDraws(h, hand.clientSeed, hand.nonce, hand.dealer, hand.remaining, CardsOut(hand))
      case Err(e) =>
        if e == EmptyShoe {
          DealerEmptiesShort(h, hand.clientSeed, hand.nonce, hand.dealer, hand.remaining, CardsOut(hand));
        }
      case Ok(d) =>
        DealerPlays(h, hand);
        SettledOk(h, hand, d.0, d.1, bet);
    }
  }

  // ---------------------------------------------------------------- the deal

  lemma RoundInOrder(h: Hmac, cs: string, nonce: nat, i: nat, shoe: seq<Card>, k: nat)
    ensures match DealRound(h, cs, nonce, i, shoe)
            case Err(e) => e == EmptyShoe ==> |shoe| < 2
            case Ok(a) =>
              && |a.rest| == |shoe| - 2
              && OrderFrom(h, cs, nonce, shoe, i) == [a.player, a.dealer] + OrderFrom(h, cs, nonce, a.rest, i + 2)
              && After(h, cs, nonce, shoe, i, k + 2) == After(h, cs, nonce, a.rest, i + 2, k)
  {
    hide DrawFrom;
    DrawnCard(h, cs, nonce, i, shoe);
    match DrawFrom(h, cs, nonce, i, shoe)
    case Stuck(_) =>
    case Drew(p, rest) =>
      DrawnCard(h, cs, nonce, i + 1, rest);
      match DrawFrom(h, cs, nonce, i + 1, rest)
      case Stuck(_) =>
      case Drew(d, rest') =>
        var order := OrderFrom(h, cs, nonce, rest', i + 2);
        assert OrderFrom(h, cs, nonce, rest, i + 1) == [d] + order;
        assert [p] + ([d] + order) == [p, d] + order;
        assert After(h, cs, nonce, rest, i + 1, k + 1) == After(h, cs, nonce, rest', i + 2, k);
  }

  lemma AfterNone(h: Hmac, cs: string, nonce: nat, shoe: seq<Card>, i: nat)
    ensures After(h, cs, nonce, shoe, i, 0) == shoe
  {
  }

  /** The two opening rounds are the first four cards of the order. */
  lemma TwoRoundsInOrder(h: Hmac, cs: string, nonce: nat, shoe: seq<Card>, a: Round, b: Round)
    requires DealRound(h, cs, nonce, 0, shoe) == Ok(a) && DealRound(h, cs, nonce, 2, a.rest) == Ok(b)
    ensures OrderFrom(h, cs, nonce, shoe, 0)
            == [a.player, a.dealer, b.player, b.dealer] + OrderFrom(h, cs, nonce, b.rest, 4)
    ensures After(h, cs, nonce, shoe, 0, 4) == b.rest
    ensures |b.rest| + 4 == |shoe|
  {
    hide *;
    RoundInOrder(h, cs, nonce, 0, shoe, 2);
    RoundInOrder(h, cs, nonce, 2, a.rest, 0);
    var order := OrderFrom(h, cs, nonce, b.rest, 4);
    assert [a.player, a.dealer] + ([b.player, b.dealer] + order)
        == [a.player, a.dealer, b.player, b.dealer] + order;
    assert After(h, cs, nonce, b.rest, 4, 0) == b.rest by { AfterNone(h, cs, nonce, b.rest, 4); }
  }

  lemma FirstCardsFollowOrder(h: Hmac, hand: Hand, a: Round, b: Round)
    requires DealRound(h, hand.clientSeed, hand.nonce, 0, hand.before) == Ok(a)
    requires DealRound(h, hand.clientSeed, hand.nonce, 2, a.rest) == Ok(b)
    requires hand.player == [a.player, b.player] && hand.dealer == [a.dealer, b.dealer]
    requires hand.remaining == b.rest
    ensures FollowsOrder(h, hand)
  {
    hide OrderFrom, After, DealRound;
    TwoRoundsInOrder(h, hand.clientSeed, hand.nonce, hand.before, a, b);
    assert hand.player[2..] == [] && hand.dealer[2..] == [];
    assert DealOrder(hand) == [a.player, a.dealer, b.player, b.dealer];
    assert CardsOut(hand) == 4;
  }

  lemma RoundNeedsNoBet(h: Hmac, cs: string, nonce: nat, i: nat, shoe: seq<Card>)
    ensures DealRound(h, cs, nonce, i, shoe) != Err(BetNotPositive)
  {
    DrawnCard(h, cs, nonce, i, shoe);
  }

  /** Two cards never exceed 21. */
  lemma TwoCardsNotBust(cards: seq<Card>)
    requires |cards| == 2
    ensures !IsBust(cards)
  {
    TwoCards(cards[0], cards[1]);
    assert cards == [cards[0], cards[1]];
    if Raw(cards) > 21 {
      assert Demote(22, 2) == Demote(12, 1);
    }
  }

  lemma NewHandOk(h: Hmac, hand: Hand)
    requires FollowsOrder(h, hand) && hand.bet > 0 && |hand.player| == |hand.dealer| == 2
    requires hand.phase == PlayerTurn && !hand.doubled && hand.holeHidden
    requires hand.outcome == None && hand.settlement == None
    ensures HandOk(h, if HasNatural(hand) then Settle(hand, false) else hand, hand.bet)
  {
    hide FollowsOrder, IsBust, IsBlackjack;
    TwoCardsNotBust(hand.player);
    if HasNatural(hand) {
      SameCardsSameOrder(h, hand, Settle(hand, false));
      SettleFinishes(hand, false);
    }
  }

  /** The deal takes four cards in order, and leaves nobody with a natural still to act. */
  lemma DealtHandOk(h: Hmac, handId: string, bet: int, cs: string, nonce: nat, shoe: seq<Card>)
    ensures match CreateHand(h, handId, bet, cs, nonce, shoe)
            case Ok(hand) =>
              && HandOk(h, hand, bet) && !hand.doubled && |hand.player| == 2
              && hand.handId == handId && hand.before == shoe && hand.clientSeed == cs && hand.nonce == nonce
            case Err(e) => (e == BetNotPositive <==> bet <= 0) && (e == EmptyShoe ==> |shoe| < 4)
  {
    hide DealRound, HandOk, FollowsOrder;
    if bet > 0 {
      RoundInOrder(h, cs, nonce, 0, shoe, 0);
      match DealRound(h, cs, nonce, 0, shoe)
      case Err(_) => RoundNeedsNoBet(h, cs, nonce, 0, shoe);
      case Ok(a) =>
        RoundInOrder(h, cs, nonce, 2, a.rest, 0);
        match DealRound(h, cs, nonce, 2, a.rest)
        case Err(_) => RoundNeedsNoBet(h, cs, nonce, 2, a.rest);
        case Ok(b) =>
          var hand := Fresh(handId, bet, cs, nonce, shoe, [a.player, b.player], [a.dealer, b.dealer], b.rest);
          FirstCardsFollowOrder(h, hand, a, b);
          NewHandOk(h, hand);
    }
  }

  // ---------------------------------------------------------------- one action

  lemma DoubleKeeps(h: Hmac, hand: Hand, card: Card, rest: seq<Card>, bet: int)
    requires HandOk(h, hand, bet) && hand.phase == PlayerTurn && |hand.player| == 2
    requires DrawFrom(h, hand.clientSeed, hand.nonce, CardsOut(hand), hand.remaining) == Drew(card, rest)
    ensures var next := hand.(player := hand.player + [card], remaining := rest, doubled := true, bet := hand.bet * 2);
            match FinishDealer(h, next, CardsOut(next), IsBust(next.player))
            case Err(e) => e == EmptyShoe ==> |hand.before| <= 19
            case Ok(done) => HandOk(h, done, bet) && SameDeal(hand, done)
  {
    hide DrawFrom, FinishDealer, FollowsOrder, HandTotal;
    var drawn := hand.(player := hand.player + [card], remaining := rest);
    CardKeepsOrder(h, hand, drawn, card);
    var next := drawn.(doubled := true, bet := hand.bet * 2);
    SameCardsSameOrder(h, drawn, next);
    FinishKeeps(h, next, bet);
  }

  lemma HitKeeps(h: Hmac, hand: Hand, card: Card, rest: seq<Card>, bet: int)
    requires HandOk(h, hand, bet) && hand.phase == PlayerTurn
    requires DrawFrom(h, hand.clientSeed, hand.nonce, CardsOut(hand), hand.remaining) == Drew(card, rest)
    ensures var next := hand.(player := hand.player + [card], remaining := rest);
            if IsBust(next.player) then
              var r := FinishDealer(h, next, CardsOut(next), true);
              r.Ok? && HandOk(h, r.value, bet) && SameDeal(hand, r.value)
            else HandOk(h, next, bet)
  {
    hide DrawFrom, FinishDealer, FollowsOrder, HandTotal;
    var next := hand.(player := hand.player + [card], remaining := rest);
    OrderShape(h, hand);
    CardKeepsOrder(h, hand, next, card);
    if IsBust(next.player) {
      FinishKeeps(h, next, bet);
    }
  }

  /**
   * An action keeps the invariant, changes neither the seeds nor the shoe, and finds the shoe empty
   * only when it started with fewer than 38 cards.
   */
  lemma ActionKeeps(h: Hmac, hand: Hand, action: Action, bet: int)
    requires HandOk(h, hand, bet)
    ensures match ApplyAction(h, hand, action)
            case Ok(next) => HandOk(h, next, bet) && SameDeal(hand, next)
            case Err(e) => e == EmptyShoe ==> |hand.before| < 38
  {
    hide DrawFrom, FinishDealer, FollowsOrder, HandTotal;
    if hand.phase == PlayerTurn {
      OrderShape(h, hand);
      TotalAtLeastCards(hand.player);
      if action == Stand {
        FinishKeeps(h, hand, bet);
      } else {
        DrawnCard(h, hand.clientSeed, hand.nonce, CardsOut(hand), hand.remaining);
        match DrawFrom(h, hand.clientSeed, hand.nonce, CardsOut(hand), hand.remaining)
        case Stuck(_) =>
        case Drew(card, rest) =>
          if action == Hit {
            HitKeeps(h, hand, card, rest, bet);
          } else if |hand.player| == 2 {
            DoubleKeeps(h, hand, card, rest, bet);
          }
      }
    }
  }

  // ---------------------------------------------------------------- every run

  /** A run of the player's choices; a refused or failed one leaves the hand as it was. */
  function Play(h: Hmac, hand: Hand, actions: seq<Action>): Hand
    decreases |actions|
  {
    if |actions| == 0 then hand else
      var r := ApplyAction(h, hand, actions[0]);
      Play(h, if r.Ok? then r.value else hand, actions[1..])
  }

  lemma {:induction false} PlayKeeps(h: Hmac, hand: Hand, actions: seq<Action>, bet: int)
    requires HandOk(h, hand, bet)
    ensures HandOk(h, Play(h, hand, actions), bet) && SameDeal(hand, Play(h, hand, actions))
    decreases |actions|
  {
    hide HandOk, ApplyAction;
    if |actions| > 0 {
      ActionKeeps(h, hand, actions[0], bet);
      var r := ApplyAction(h, hand, actions[0]);
      PlayKeeps(h, if r.Ok? then r.value else hand, actions[1..], bet);
    }
  }

  datatype Deal = Deal(handId: string, bet: int, clientSeed: string, nonce: nat, shoe: seq<Card>)

  /** The hand that a deal and a run of choices lead to. */
  function Reached(h: Hmac, deal: Deal, actions: seq<Action>): Result<Hand> {
    match CreateHand(h, deal.handId, deal.bet, deal.clientSeed, deal.nonce, deal.shoe)
    case Err(e) => Err(e)
    case Ok(hand) => Ok(Play(h, hand, actions))
  }

  predicate From(hand: Hand, deal: Deal) {
    && hand.handId == deal.handId && hand.clientSeed == deal.clientSeed
    && hand.nonce == deal.nonce && hand.before == deal.shoe
  }

  lemma ReachedOk(h: Hmac, deal: Deal, actions: seq<Action>)
    requires Reached(h, deal, actions).Ok?
    ensures HandOk(h, Reached(h, deal, actions).value, deal.bet)
    ensures From(Reached(h, deal, actions).value, deal)
  {
    hide HandOk, CreateHand, Play;
    DealtHandOk(h, deal.handId, deal.bet, deal.clientSeed, deal.nonce, deal.shoe);
    PlayKeeps(h, CreateHand(h, deal.handId, deal.bet, deal.clientSeed, deal.nonce, deal.shoe).value, actions, deal.bet);
  }

  predicate InDealOrder(hand: Hand, order: seq<Card>) {
    |hand.player| >= 2 && |hand.dealer| >= 2 && DealOrder(hand) <= order
  }

  /**
   * For fixed seeds, nonce and shoe there is one permutation of the shoe such that in every run of
   * choices the cards dealt are the first of it, in deal order.
   */
  lemma OneOrderForEveryRun(h: Hmac, deal: Deal)
    ensures var order := OrderFrom(h, deal.clientSeed, deal.nonce, deal.shoe, 0);
            && multiset(order) == multiset(deal.shoe)
            && forall actions :: Reached(h, deal, actions).Ok? ==>
                 InDealOrder(Reached(h, deal, actions).value, order)
  {
    var order := OrderFrom(h, deal.clientSeed, deal.nonce, deal.shoe, 0);
    OrderIsPermutation(h, deal.clientSeed, deal.nonce, deal.shoe, 0);
    forall actions | Reached(h, deal, actions).Ok?
      ensures InDealOrder(Reached(h, deal, actions).value, order)
    {
      hide OrderFrom, Reached, DealOrder;
      ReachedOk(h, deal, actions);
    }
  }

  lemma Nested(a: Card, b: Card, c: Card, d: Card, ps: seq<Card>, ds: seq<Card>)
    ensures [a, b, c, d] + ps + ds == [a] + ([b] + ([c] + ([d] + (ps + ds))))
  {
  }

  lemma SplitTwo(s: seq<Card>)
    requires |s| >= 2
    ensures s == [s[0]] + ([s[1]] + s[2..])
  {
  }

  lemma Regrouped(a: multiset<Card>, b: multiset<Card>, c: multiset<Card>, d: multiset<Card>,
                                     p: multiset<Card>, q: multiset<Card>)
    ensures a + (b + (c + (d + (p + q)))) == (a + (c + p)) + (b + (d + q))
  {
  }

  lemma OneMore(a: Card, s: seq<Card>)
    ensures multiset([a] + s) == multiset{a} + multiset(s)
  {
  }

  lemma Interleaved(a: Card, b: Card, c: Card, d: Card, ps: seq<Card>, ds: seq<Card>)
    ensures multiset([a] + ([b] + ([c] + ([d] + (ps + ds))))) == multiset([a] + ([c] + ps)) + multiset([b] + ([d] + ds))
  {
    OneMore(a, [b] + ([c] + ([d] + (ps + ds))));
    OneMore(b, [c] + ([d] + (ps + ds)));
    OneMore(c, [d] + (ps + ds));
    OneMore(d, ps + ds);
    OneMore(a, [c] + ps);
    OneMore(c, ps);
    OneMore(b, [d] + ds);
    OneMore(d, ds);
    Regrouped(multiset{a}, multiset{b}, multiset{c}, multiset{d}, multiset(ps), multiset(ds));
  }

  lemma DealOrderMultiset(hand: Hand)
    requires |hand.player| >= 2 && |hand.dealer| >= 2
    ensures multiset(DealOrder(hand)) == multiset(hand.player) + multiset(hand.dealer)
  {
    var a, b, c, d := hand.player[0], hand.dealer[0], hand.player[1], hand.dealer[1];
    var ps, ds := hand.player[2..], hand.dealer[2..];
    Interleaved(a, b, c, d, ps, ds);
    Nested(a, b, c, d, ps, ds);
    SplitTwo(hand.player);
    SplitTwo(hand.dealer);
  }

  /** No card is lost or invented: both hands and the rest of the shoe are the starting shoe. */
  lemma NoCardLost(h: Hmac, deal: Deal, actions: seq<Action>)
    requires Reached(h, deal, actions).Ok?
    ensures var hand := Reached(h, deal, actions).value;
            multiset(hand.player) + multiset(hand.dealer) + multiset(hand.remaining) == multiset(deal.shoe)
  {
    hide OrderFrom, Reached, DealOrder, After;
    ReachedOk(h, deal, actions);
    var hand := Reached(h, deal, actions).value;
    OrderIsPermutation(h, deal.clientSeed, deal.nonce, deal.shoe, 0);
    OrderIsPermutation(h, deal.clientSeed, deal.nonce, hand.remaining, CardsOut(hand));
    DealOrderMultiset(hand);
  }

  lemma NaturalNotBust(cards: seq<Card>)
    requires IsBlackjack(cards)
    ensures !IsBust(cards)
  {
  }

  /**
   * While the player may act neither side holds a natural and the player is not bust; so a natural
   * is paid only on the first two cards, never on a doubled bet.
   */
  lemma NaturalsSettleAtOnce(h: Hmac, deal: Deal, actions: seq<Action>)
    requires Reached(h, deal, actions).Ok?
    ensures var hand := Reached(h, deal, actions).value;
            && hand.phase != DealerTurn
            && (hand.phase == PlayerTurn ==> !HasNatural(hand) && !IsBust(hand.player))
            && (hand.phase == Settled ==>
                  (hand.outcome == Some(PlayerBlackjack) <==> IsBlackjack(hand.player) && !IsBlackjack(hand.dealer)))
            && (hand.outcome == Some(PlayerBlackjack) ==> !hand.doubled && hand.bet == deal.bet)
  {
    hide FollowsOrder, Reached, HandTotal;
    ReachedOk(h, deal, actions);
    var hand := Reached(h, deal, actions).value;
    if hand.phase == Settled && IsBlackjack(hand.player) {
      NaturalNotBust(hand.player);
    }
  }

  /** From a shoe of 38 cards or more, and so from six decks, no draw of any run finds it empty. */
  lemma ShoeNeverEmpties(h: Hmac, deal: Deal, actions: seq<Action>, next: Action)
    requires |deal.shoe| >= 38
    ensures match Reached(h, deal, actions)
            case Err(e) => e != EmptyShoe
            case Ok(hand) => ApplyAction(h, hand, next) != Err(EmptyShoe)
  {
    hide HandOk, CreateHand, Play, ApplyAction;
    DealtHandOk(h, deal.handId, deal.bet, deal.clientSeed, deal.nonce, deal.shoe);
    match Reached(h, deal, actions)
    case Err(_) =>
    case Ok(hand) =>
      ReachedOk(h, deal, actions);
      ActionKeeps(h, hand, next, deal.bet);
  }

  /** Every settlement of a reachable hand passes the ledger's checks, for every safe stake. */
  lemma SettlementsAreValid(h: Hmac, deal: Deal, actions: seq<Action>)
    requires Reached(h, deal, actions).Ok? && Reached(h, deal, actions).value.phase == Settled
    requires IsSafeAmount(Reached(h, deal, actions).value.bet)
    ensures var hand := Reached(h, deal, actions).value;
            && hand.settlement.Some? && IsValidSettlement(hand.settlement.value)
            && hand.settlement.value.bet == hand.bet == (if hand.doubled then 2 * deal.bet else deal.bet)
            && Some(hand.settlement.value.outcome) == hand.outcome
  {
    hide FollowsOrder, Reached, HandTotal, ResolveOutcome;
    ReachedOk(h, deal, actions);
  }

  // ---------------------------------------------------------------- what the outcome means

  /** Bust hands score 0 and a natural beats every other 21. */
  function Score(cards: seq<Card>): nat {
    if IsBust(cards) then 0 else if IsBlackjack(cards) then 22 else HandTotal(cards).total
  }

  /**
   * The settlement compares the two scores, except that a bust player loses to a bust dealer: the
   * better hand wins the bet, or three halves of it rounded down with a natural, and equals push. The
   * outcome says which of these it was.
   */
  lemma SettlementComparesScores(player: seq<Card>, dealer: seq<Card>, bet: int)
    requires bet > 0 && |player| >= 2
    ensures var s := SettlementFromOutcome(ResolveOutcome(player, dealer, false), bet);
            && s.Some?
            && s.value.houseDelta ==
               (if Score(player) < Score(dealer) || Score(player) == 0 then bet
               else if Score(player) == Score(dealer) then 0
               else if Score(player) == 22 then -(3 * bet / 2)
               else -bet)
            && s.value.bet == bet && s.value.credit == bet - s.value.houseDelta
            && (s.value.outcome == PlayerBust <==> IsBust(player))
            && (s.value.outcome == PlayerBlackjack <==> IsBlackjack(player) && !IsBlackjack(dealer))
            && (s.value.outcome == DealerBlackjack <==> !IsBlackjack(player) && !IsBust(player) && IsBlackjack(dealer))
            && (s.value.outcome == Push <==> Score(player) == Score(dealer) > 0)
            && (s.value.outcome == PlayerLose ==> Score(player) < Score(dealer))
  {
    if IsBlackjack(player) {
      NaturalNotBust(player);
    }
    TotalAtLeastCards(player);
    hide HandTotal;
  }

  // ---------------------------------------------------------------- replay

  lemma ReadBack(hand: Hand)
    requires |hand.player| >= 2 && |hand.dealer| >= 2
    ensures var d, n := DealOrder(hand), |hand.player| + 2;
            && |d| == CardsOut(hand)
            && hand.player == [d[0], d[2]] + d[4..n] && hand.dealer == [d[1], d[3]] + d[n..]
  {
  }

  lemma SameOrderSameHands(a: Hand, b: Hand)
    requires |a.player| >= 2 && |a.dealer| >= 2 && |b.dealer| >= 2
    requires |a.player| == |b.player| && DealOrder(a) <= DealOrder(b)
    ensures a.player == b.player && a.dealer <= b.dealer
  {
    ReadBack(a);
    ReadBack(b);
    var d, e, n := DealOrder(a), DealOrder(b), |a.player| + 2;
    hide DealOrder;
    assert d[4..n] == e[4..n];
    assert d[n..] <= e[n..];
  }

  /** The dealer's rule decides how many cards the dealer has. */
  lemma SameDealer(a: Hand, b: Hand)
    requires Finished(a) && Finished(b) && |a.dealer| >= 2
    requires a.player == b.player && a.dealer <= b.dealer
    ensures a.dealer == b.dealer
  {
    hide HandTotal;
    assert a.dealer == b.dealer[..|a.dealer|];
    if |a.dealer| < |b.dealer| {
      assert false;
    }
  }

  lemma PrefixesCompare(s: seq<Card>, t: seq<Card>, x: seq<Card>, y: seq<Card>)
    requires s + x == t + y && |s| <= |t|
    ensures s <= t
  {
    assert s == (s + x)[..|s|] && t == (t + y)[..|t|];
  }

  lemma ShorterDecides(h: Hmac, a: Hand, b: Hand, bet: int)
    requires HandOk(h, a, bet) && HandOk(h, b, bet) && a.phase == Settled && b.phase == Settled
    requires a.handId == b.handId && a.clientSeed == b.clientSeed && a.nonce == b.nonce && a.before == b.before
    requires |a.player| == |b.player| && a.doubled == b.doubled && |a.dealer| <= |b.dealer|
    ensures a == b
  {
    hide OrderFrom, After, HandTotal, ResolveOutcome, DealOrder;
    ReadBack(a);
    ReadBack(b);
    PrefixesCompare(DealOrder(a), DealOrder(b),
                    OrderFrom(h, a.clientSeed, a.nonce, a.remaining, CardsOut(a)),
                    OrderFrom(h, b.clientSeed, b.nonce, b.remaining, CardsOut(b)));
    SameOrderSameHands(a, b);
    SameDealer(a, b);
  }

  /**
   * Replay: the seeds, the nonce, the shoe, the bet and how many cards the player took, doubled or
   * not, determine the settled hand: cards, outcome, payout and what is left of the shoe.
   */
  lemma SettledHandReplays(h: Hmac, deal: Deal, some: seq<Action>, other: seq<Action>)
    requires Reached(h, deal, some).Ok? && Reached(h, deal, other).Ok?
    requires var a, b := Reached(h, deal, some).value, Reached(h, deal, other).value;
             && a.phase == Settled && b.phase == Settled
             && |a.player| == |b.player| && a.doubled == b.doubled
    ensures Reached(h, deal, some) == Reached(h, deal, other)
  {
    hide HandOk, Reached;
    ReachedOk(h, deal, some);
    ReachedOk(h, deal, other);
    var a, b := Reached(h, deal, some).value, Reached(h, deal, other).value;
    if |a.dealer| <= |b.dealer| {
      ShorterDecides(h, a, b, deal.bet);
    } else {
      ShorterDecides(h, b, a, deal.bet);
    }
  }

  /** Under one client seed no two draws, and no two tries of one draw, share a message. */
  lemma DrawMessagesDiffer(cs: string, n: nat, i: nat, c: nat, n': nat, i': nat, c': nat)
    requires Message(DrawPrefix(cs, n, i), c) == Message(DrawPrefix(cs, n', i'), c')
    ensures n == n' && i == i' && c == c'
  {
    hide Dec;
    assert ':' !in Dec(c) && ':' !in Dec(c') && ':' !in Dec(i) && ':' !in Dec(i');
    SplitAtLast(DrawPrefix(cs, n, i), Dec(c), DrawPrefix(cs, n', i'), Dec(c'), ':');
    SplitAtLast(cs + ":" + Dec(n), Dec(i), cs + ":" + Dec(n'), Dec(i'), ':');
    PrefixCancels(cs + ":", Dec(n), Dec(n'));
    DecInjective(c, c');
    DecInjective(i, i');
    DecInjective(n, n');
  }
}
