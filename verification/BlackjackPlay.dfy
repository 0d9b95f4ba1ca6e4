/**
 * When a deal and each action of the player go through, and what they leave: a hand fails only where
 * the sampler does.
 */
module BlackjackPlay {
  import opened Money
  import opened Cards
  import opened Sampler
  import opened Text
  import opened Blackjack
  import opened BlackjackLaws

  /** The sampler finds an index for card `i` of the hand among `size` cards. */
  predicate Samples(h: Hmac, cs: string, nonce: nat, i: nat, size: nat) {
    DrawIndex(h, DrawPrefix(cs, nonce, i), size).Index?
  }

  /** The sampler finds the next `k` cards from card `i` on, out of `size` cards and one fewer each time. */
  predicate FindsAll(h: Hmac, cs: string, nonce: nat, i: nat, size: nat, k: nat)
    decreases k
  {
    k == 0 || (size > 0 && Samples(h, cs, nonce, i, size) && FindsAll(h, cs, nonce, i + 1, size - 1, k - 1))
  }

  /** Taking the k-th card of the shoe leaves the others in their order. */
  predicate TakenAt(k: nat, remaining: seq<Card>, card: Card, rest: seq<Card>) {
    k < |remaining| && card == remaining[k] && rest == remaining[..k] + remaining[k + 1..]
  }

  lemma DrawnExactlyWhen(h: Hmac, cs: string, nonce: nat, i: nat, remaining: seq<Card>)
    ensures var d := DrawFrom(h, cs, nonce, i, remaining);
            && (d.Stuck? ==>
                  && !Samples(h, cs, nonce, i, |remaining|)
                  && d.error == if remaining == [] then EmptyShoe else RejectionSamplingFailed)
            && (d.Drew? ==>
                  && Samples(h, cs, nonce, i, |remaining|) && |remaining| > 0
                  && d.card in remaining && |d.rest| == |remaining| - 1
                  && OrderFrom(h, cs, nonce, remaining, i) == [d.card] + OrderFrom(h, cs, nonce, d.rest, i + 1)
                  && TakenAt(DrawIndex(h, cs + ":" + Dec(nonce) + ":" + Dec(i), |remaining|).i, remaining, d.card, d.rest))
  {
    hide SampleFrom;
    if |remaining| > 0 {
      DrawIndexIsFirstAccepted(h, DrawPrefix(cs, nonce, i), |remaining|);
    }
  }

  // ---------------------------------------------------------------- the odds of a card

  function IsCard(remaining: seq<Card>, card: Card): nat -> bool {
    (k: nat) => k < |remaining| && remaining[k] == card
  }

  /** The digests of a draw that take `card` from the shoe. */
  function Takes(cs: string, nonce: nat, i: nat, remaining: seq<Card>, card: Card): nat -> bool {
    (d: nat) =>
      d < MAX_U32 && DrawFrom(Constant(d), cs, nonce, i, remaining).Drew? && DrawFrom(Constant(d), cs, nonce, i, remaining).card == card
  }

  lemma TakenBy(cs: string, nonce: nat, i: nat, remaining: seq<Card>, card: Card, d: nat)
    requires 0 < |remaining| <= MAX_U32 && d < Limit(|remaining|) <= MAX_U32
    ensures Takes(cs, nonce, i, remaining, card)(d) == ByRemainder(IsCard(remaining, card), |remaining|)(d)
  {
    hide Limit, DrawFrom, OrderFrom, SampleFrom;
    ConstantDraws(d, DrawPrefix(cs, nonce, i), |remaining|);
    DrawnExactlyWhen(Constant(d), cs, nonce, i, remaining);
  }

  /**
   * Every draw is fair: of the accepted digests each card of the shoe is taken by exactly its share, by
   * as many times more as the shoe still holds of it.
   */
  lemma CardOddsAreExact(cs: string, nonce: nat, i: nat, remaining: seq<Card>, card: Card)
    requires 0 < |remaining| <= MAX_U32
    ensures var n := |remaining|;
            Count(Limit(n), Takes(cs, nonce, i, remaining, card)) == (Limit(n) / n) * Count(n, IsCard(remaining, card))
  {
    var n := |remaining|;
    LimitIsMultiple(n);
    forall d: nat | d < Limit(n)
      ensures Takes(cs, nonce, i, remaining, card)(d) == ByRemainder(IsCard(remaining, card), n)(d)
    {
      TakenBy(cs, nonce, i, remaining, card, d);
    }
    hide Takes, IsCard, Limit;
    CountSame(Limit(n), Takes(cs, nonce, i, remaining, card), ByRemainder(IsCard(remaining, card), n));
    SamplingIsUniform(n, IsCard(remaining, card));
  }

  /** Under any key a draw is that of its first accepted digest alone. */
  lemma DrawIsOneDigests(h: Hmac, cs: string, nonce: nat, i: nat, remaining: seq<Card>)
    requires |remaining| > 0
    ensures || (exists d :: FirstAccepted(h, DrawPrefix(cs, nonce, i), |remaining|, d)
                            && DrawFrom(h, cs, nonce, i, remaining) == DrawFrom(Constant(d), cs, nonce, i, remaining))
            || DrawFrom(h, cs, nonce, i, remaining) == Stuck(RejectionSamplingFailed)
  {
    hide DrawIndex, FirstAccepted;
    OneDigestDecides(h, DrawPrefix(cs, nonce, i), |remaining|);
  }

  // ---------------------------------------------------------------- the deal

  lemma RoundExactlyWhen(h: Hmac, cs: string, nonce: nat, i: nat, shoe: seq<Card>)
    ensures var both := |shoe| >= 2 && Samples(h, cs, nonce, i, |shoe|) && Samples(h, cs, nonce, i + 1, |shoe| - 1);
            var r := DealRound(h, cs, nonce, i, shoe);
            && (r.Ok? <==> both)
            && (r.Ok? ==> |r.value.rest| == |shoe| - 2)
            && (r.Err? ==> r.error == if |shoe| == 0 || (|shoe| == 1 && Samples(h, cs, nonce, i, 1)) then EmptyShoe
                                      else RejectionSamplingFailed)
  {
    hide DrawFrom, Samples, OrderFrom;
    DrawnExactlyWhen(h, cs, nonce, i, shoe);
    var d := DrawFrom(h, cs, nonce, i, shoe);
    if d.Drew? {
      DrawnExactlyWhen(h, cs, nonce, i + 1, d.rest);
    }
  }

  lemma FindsFirst(h: Hmac, cs: string, nonce: nat, i: nat, size: nat, k: nat)
    ensures k > 0 ==> (FindsAll(h, cs, nonce, i, size, k)
                       <==> size > 0 && Samples(h, cs, nonce, i, size) && FindsAll(h, cs, nonce, i + 1, size - 1, k - 1))
    ensures FindsAll(h, cs, nonce, i, size, 0)
  {
  }

  lemma FindsFour(h: Hmac, cs: string, nonce: nat, size: nat)
    ensures FindsAll(h, cs, nonce, 0, size, 4)
            <==> size >= 4 && Samples(h, cs, nonce, 0, size) && Samples(h, cs, nonce, 1, size - 1)
                 && Samples(h, cs, nonce, 2, size - 2) && Samples(h, cs, nonce, 3, size - 3)
    ensures size < 4 ==>
              (FindsAll(h, cs, nonce, 0, size, size)
               <==> (size > 0 ==> Samples(h, cs, nonce, 0, size)) && (size > 1 ==> Samples(h, cs, nonce, 1, size - 1))
                    && (size > 2 ==> Samples(h, cs, nonce, 2, size - 2)))
  {
    hide Samples, FindsAll;
    FindsFirst(h, cs, nonce, 0, size, 4);
    FindsFirst(h, cs, nonce, 0, size, size);
    if size > 0 {
      FindsFirst(h, cs, nonce, 1, size - 1, 3);
      FindsFirst(h, cs, nonce, 1, size - 1, size - 1);
    }
    if size > 1 {
      FindsFirst(h, cs, nonce, 2, size - 2, 2);
      FindsFirst(h, cs, nonce, 2, size - 2, size - 2);
    }
    if size > 2 {
      FindsFirst(h, cs, nonce, 3, size - 3, 1);
      FindsFirst(h, cs, nonce, 3, size - 3, size - 3);
    }
    if size > 3 {
      FindsFirst(h, cs, nonce, 4, size - 4, 0);
    }
  }

  /**
   * A hand is dealt exactly when the bet is positive and the sampler finds the first four cards; the
   * shoe is called empty only if it runs out before the sampler fails.
   */
  lemma DealtExactlyWhen(h: Hmac, handId: string, bet: int, cs: string, nonce: nat, shoe: seq<Card>)
    ensures var r := CreateHand(h, handId, bet, cs, nonce, shoe);
            && (r.Ok? <==> bet > 0 && FindsAll(h, cs, nonce, 0, |shoe|, 4))
            && (r.Err? ==> r.error == if bet <= 0 then BetNotPositive
                                      else if |shoe| < 4 && FindsAll(h, cs, nonce, 0, |shoe|, |shoe|) then EmptyShoe
                                      else RejectionSamplingFailed)
  {
    hide DealRound, Samples, IsBlackjack;
    FindsFour(h, cs, nonce, |shoe|);
    hide FindsAll;
    RoundExactlyWhen(h, cs, nonce, 0, shoe);
    var a := DealRound(h, cs, nonce, 0, shoe);
    if a.Ok? {
      RoundExactlyWhen(h, cs, nonce, 2, a.value.rest);
    }
  }

  // ---------------------------------------------------------------- the dealer

  /** Drawing in order from card `i` on, the dealer has 17 or more after `k` cards that the sampler finds. */
  predicate SeventeenAfter(h: Hmac, cs: string, nonce: nat, dealer: seq<Card>, remaining: seq<Card>, i: nat, k: nat) {
    && FindsAll(h, cs, nonce, i, |remaining|, k) && k <= |OrderFrom(h, cs, nonce, remaining, i)|
    && HandTotal(dealer + OrderFrom(h, cs, nonce, remaining, i)[..k]).total >= 17
  }

  ghost predicate ReachesSeventeen(h: Hmac, cs: string, nonce: nat, dealer: seq<Card>, remaining: seq<Card>, i: nat) {
    exists k: nat :: SeventeenAfter(h, cs, nonce, dealer, remaining, i, k)
  }

  lemma OneCardLater(h: Hmac, cs: string, nonce: nat, dealer: seq<Card>, remaining: seq<Card>, i: nat, k: nat)
    requires k > 0 && DrawFrom(h, cs, nonce, i, remaining).Drew?
    ensures var d := DrawFrom(h, cs, nonce, i, remaining);
            SeventeenAfter(h, cs, nonce, dealer, remaining, i, k)
            <==> SeventeenAfter(h, cs, nonce, dealer + [d.card], d.rest, i + 1, k - 1)
  {
    hide DrawFrom, Samples, HandTotal;
    DrawnExactlyWhen(h, cs, nonce, i, remaining);
    var d := DrawFrom(h, cs, nonce, i, remaining);
    var all, rest := OrderFrom(h, cs, nonce, remaining, i), OrderFrom(h, cs, nonce, d.rest, i + 1);
    assert all == [d.card] + rest;
    hide OrderFrom;
    if k <= |all| {
      assert all[..k] == [d.card] + rest[..k - 1];
      assert dealer + all[..k] == (dealer + [d.card]) + rest[..k - 1];
    }
  }

  lemma StuckDealer(h: Hmac, cs: string, nonce: nat, dealer: seq<Card>, remaining: seq<Card>, i: nat)
    requires HandTotal(dealer).total < 17 && !Samples(h, cs, nonce, i, |remaining|)
    ensures !ReachesSeventeen(h, cs, nonce, dealer, remaining, i)
  {
    hide Samples, HandTotal, OrderFrom;
    if k: nat :| SeventeenAfter(h, cs, nonce, dealer, remaining, i, k) {
      assert k == 0 ==> dealer + OrderFrom(h, cs, nonce, remaining, i)[..k] == dealer;
      assert false;
    }
  }

  lemma AtOnce(h: Hmac, cs: string, nonce: nat, dealer: seq<Card>, remaining: seq<Card>, i: nat)
    requires HandTotal(dealer).total >= 17
    ensures ReachesSeventeen(h, cs, nonce, dealer, remaining, i)
  {
    hide HandTotal, OrderFrom;
    assert dealer + OrderFrom(h, cs, nonce, remaining, i)[..0] == dealer;
    assert SeventeenAfter(h, cs, nonce, dealer, remaining, i, 0);
  }

  lemma NotAtOnce(h: Hmac, cs: string, nonce: nat, dealer: seq<Card>, remaining: seq<Card>, i: nat)
    requires HandTotal(dealer).total < 17
    ensures !SeventeenAfter(h, cs, nonce, dealer, remaining, i, 0)
  {
    hide HandTotal, OrderFrom;
    assert dealer + OrderFrom(h, cs, nonce, remaining, i)[..0] == dealer;
  }

  /** The dealer's turn ends exactly when 17 is reached before a card is not found. */
  lemma {:induction false} DealerEndsExactlyWhen(h: Hmac, cs: string, nonce: nat, dealer: seq<Card>, remaining: seq<Card>, i: nat)
    ensures DealerDraws(h, cs, nonce, dealer, remaining, i).Ok? <==> ReachesSeventeen(h, cs, nonce, dealer, remaining, i)
    decreases |remaining|
  {
    hide DrawFrom, Samples, HandTotal, SeventeenAfter, OrderFrom;
    DrawnExactlyWhen(h, cs, nonce, i, remaining);
    if HandTotal(dealer).total >= 17 {
      AtOnce(h, cs, nonce, dealer, remaining, i);
    } else {
      match DrawFrom(h, cs, nonce, i, remaining)
      case Stuck(_) => StuckDealer(h, cs, nonce, dealer, remaining, i);
      case Drew(card, rest) =>
        DealerEndsExactlyWhen(h, cs, nonce, dealer + [card], rest, i + 1);
        if ReachesSeventeen(h, cs, nonce, dealer, remaining, i) {
          var k: nat :| SeventeenAfter(h, cs, nonce, dealer, remaining, i, k);
          NotAtOnce(h, cs, nonce, dealer, remaining, i);
          OneCardLater(h, cs, nonce, dealer, remaining, i, k);
        }
        if ReachesSeventeen(h, cs, nonce, dealer + [card], rest, i + 1) {
          var k: nat :| SeventeenAfter(h, cs, nonce, dealer + [card], rest, i + 1, k);
          OneCardLater(h, cs, nonce, dealer, remaining, i, k + 1);
        }
    }
  }

  // ---------------------------------------------------------------- the player

  /** A reachable hand on which the player is to act. */
  ghost predicate Live(h: Hmac, hand: Hand, bet: int) {
    HandOk(h, hand, bet) && hand.phase == PlayerTurn && |hand.before| >= 38
  }

  lemma ReachedIsLive(h: Hmac, deal: Deal, actions: seq<Action>)
    requires Reached(h, deal, actions).Ok? && Reached(h, deal, actions).value.phase == PlayerTurn && |deal.shoe| >= 38
    ensures Live(h, Reached(h, deal, actions).value, deal.bet)
  {
    hide HandOk, Reached;
    ReachedOk(h, deal, actions);
  }

  /** The next card of the shoe for this hand is found. */
  predicate NextFound(h: Hmac, hand: Hand) {
    Samples(h, hand.clientSeed, hand.nonce, CardsOut(hand), |hand.remaining|)
  }

  /** The dealer gets to 17 from the hand's cards on. */
  ghost predicate DealerGetsThere(h: Hmac, hand: Hand) {
    ReachesSeventeen(h, hand.clientSeed, hand.nonce, hand.dealer, hand.remaining, CardsOut(hand))
  }

  lemma LiveShoe(h: Hmac, hand: Hand, bet: int)
    requires Live(h, hand, bet)
    ensures |hand.remaining| > 0 && !hand.doubled && |hand.player| >= 2
  {
    hide FollowsOrder, HandTotal, OrderFrom;
    OrderShape(h, hand);
    TotalAtLeastCards(hand.player);
  }

  lemma LiveIsPlayerTurn(h: Hmac, hand: Hand, bet: int)
    requires Live(h, hand, bet)
    ensures hand.phase == PlayerTurn
  {
  }

  lemma NextCard(h: Hmac, hand: Hand)
    ensures var d := DrawFrom(h, hand.clientSeed, hand.nonce, CardsOut(hand), hand.remaining);
            && (NextFound(h, hand) <==> d.Drew?)
            && (d.Stuck? ==> d.error == if hand.remaining == [] then EmptyShoe else RejectionSamplingFailed)
            && (d.Drew? ==> d.card in hand.remaining)
  {
    hide Samples, DrawFrom, OrderFrom, TakenAt;
    DrawnExactlyWhen(h, hand.clientSeed, hand.nonce, CardsOut(hand), hand.remaining);
  }

  /**
   * A hit is played exactly when the next card is found, and is otherwise refused for the sampler;
   * played, it adds one card and ends the hand exactly if that busts it.
   */
  lemma HitIs(h: Hmac, hand: Hand, bet: int)
    requires Live(h, hand, bet)
    ensures var r := ApplyAction(h, hand, Hit);
            && (r.Ok? <==> NextFound(h, hand))
            && (r.Err? ==> r.error == RejectionSamplingFailed)
            && (r.Ok? ==>
                  && (exists card :: card in hand.remaining && r.value.player == hand.player + [card])
                  && r.value.dealer == hand.dealer && r.value.bet == hand.bet && !r.value.doubled
                  && (r.value.phase == Settled <==> IsBust(r.value.player))
                  && (r.value.phase == PlayerTurn <==> !IsBust(r.value.player)))
  {
    hide Live, DrawFrom, OrderFrom, HandTotal, NextFound, SettlementFromOutcome, ResolveOutcome, DealerDraws;
    LiveShoe(h, hand, bet);
    LiveIsPlayerTurn(h, hand, bet);
    NextCard(h, hand);
    var d := DrawFrom(h, hand.clientSeed, hand.nonce, CardsOut(hand), hand.remaining);
    if d.Drew? {
      assert ApplyAction(h, hand, Hit).value.player == hand.player + [d.card];
    }
  }

  lemma {:induction false} DealerFailures(h: Hmac, cs: string, nonce: nat, dealer: seq<Card>, remaining: seq<Card>, i: nat)
    ensures var r := DealerDraws(h, cs, nonce, dealer, remaining, i);
            r.Err? ==> r.error == EmptyShoe || r.error == RejectionSamplingFailed
    decreases |remaining|
  {
    hide HandTotal, DrawFrom, Samples, OrderFrom;
    DrawnExactlyWhen(h, cs, nonce, i, remaining);
    var d := DrawFrom(h, cs, nonce, i, remaining);
    if d.Drew? {
      DealerFailures(h, cs, nonce, dealer + [d.card], d.rest, i + 1);
    }
  }

  /** A stand ends the hand exactly when the dealer gets to 17, and is otherwise refused for the sampler. */
  lemma StandIs(h: Hmac, hand: Hand, bet: int)
    requires Live(h, hand, bet)
    ensures var r := ApplyAction(h, hand, Stand);
            && (r.Ok? <==> DealerGetsThere(h, hand))
            && (r.Err? ==> r.error == RejectionSamplingFailed)
            && (r.Ok? ==> r.value.phase == Settled && r.value.player == hand.player && r.value.bet == hand.bet && !r.value.doubled)
  {
    LiveShoe(h, hand, bet);
    LiveIsPlayerTurn(h, hand, bet);
    ActionKeeps(h, hand, Stand, bet);
    hide HandOk, OrderFrom, HandTotal, ResolveOutcome, DealerDraws, ReachesSeventeen;
    DealerEndsExactlyWhen(h, hand.clientSeed, hand.nonce, hand.dealer, hand.remaining, CardsOut(hand));
    DealerFailures(h, hand.clientSeed, hand.nonce, hand.dealer, hand.remaining, CardsOut(hand));
  }

  /** The hand of a double once its card is drawn. */
  function Doubled(hand: Hand, card: Card, rest: seq<Card>): Hand {
    hand.(player := hand.player + [card], remaining := rest, doubled := true, bet := hand.bet * 2)
  }

  /**
   * A double is refused as such exactly when the player does not hold two cards. Otherwise it is
   * played exactly when the next card is found and then busts the hand or lets the dealer get to 17;
   * played, it ends the hand at once, with three cards and twice the bet.
   */
  lemma DoubleIs(h: Hmac, hand: Hand, bet: int)
    requires Live(h, hand, bet)
    ensures var d := DrawFrom(h, hand.clientSeed, hand.nonce, CardsOut(hand), hand.remaining);
            var r, two := ApplyAction(h, hand, Double), |hand.player| == 2;
            && (r == Err(DoubleNotAllowed) <==> !two)
            && (NextFound(h, hand) <==> d.Drew?)
            && (two ==> (r.Ok? <==> d.Drew? && (IsBust(hand.player + [d.card]) || DealerGetsThere(h, Doubled(hand, d.card, d.rest)))))
            && (two && r.Err? ==> r.error == RejectionSamplingFailed)
            && (r.Ok? ==>
                  && d.Drew? && r.value.phase == Settled && r.value.player == hand.player + [d.card] && |r.value.player| == 3
                  && r.value.doubled && r.value.bet == 2 * hand.bet)
  {
    hide OrderFrom, HandTotal, ResolveOutcome, DealerDraws, ReachesSeventeen, DrawFrom, NextFound, FollowsOrder;
    LiveShoe(h, hand, bet);
    LiveIsPlayerTurn(h, hand, bet);
    ActionKeeps(h, hand, Double, bet);
    hide HandOk;
    NextCard(h, hand);
    var d := DrawFrom(h, hand.clientSeed, hand.nonce, CardsOut(hand), hand.remaining);
    if d.Drew? {
      var next := Doubled(hand, d.card, d.rest);
      DealerEndsExactlyWhen(h, next.clientSeed, next.nonce, next.dealer, next.remaining, CardsOut(next));
      DealerFailures(h, next.clientSeed, next.nonce, next.dealer, next.remaining, CardsOut(next));
    }
  }
}
