/**
 * The blackjack engine: packages/blackjack/src/engine.ts and settlement.ts. HMAC-SHA256 under the
 * hand's server seed is a parameter `h`; functions say what each call does, methods are the code.
 */
module Blackjack {
  import opened Money
  import opened Cards
  import opened Sampler
  import opened Text

  datatype Action = Hit | Stand | Double

  datatype Phase = PlayerTurn | DealerTurn | Settled

  datatype Error = BetNotPositive | EmptyShoe | RejectionSamplingFailed | NotPlayerTurn | DoubleNotAllowed

  datatype Result<+T> = Ok(value: T) | Err(error: Error)

  datatype Hand = Hand(
    handId: string, bet: int, phase: Phase, player: seq<Card>, dealer: seq<Card>, holeHidden: bool,
    clientSeed: string, nonce: nat, before: seq<Card>, remaining: seq<Card>,
    outcome: Option<Outcome>, settlement: Option<Settlement>, doubled: bool)

  // ---------------------------------------------------------------- settlement

  /** settlementFromOutcome; None when the bet is not positive. */
  function SettlementFromOutcome(o: Outcome, bet: int): Option<Settlement> {
    if bet <= 0 then None else
      match o
      case PlayerLose => Some(Settlement(o, bet, 0, bet))
      case PlayerBust => Some(Settlement(o, bet, 0, bet))
      case DealerBlackjack => Some(Settlement(o, bet, 0, bet))
      case Push => Some(Settlement(o, bet, bet, 0))
      case PlayerWin => Some(Settlement(o, bet, bet * 2, -bet))
      case PlayerBlackjack =>
        var netWin := (bet * 3) / 2;
        Some(Settlement(o, bet, bet + netWin, -netWin))
  }

  function ResolveOutcome(player: seq<Card>, dealer: seq<Card>, playerBusted: bool): Outcome {
    if playerBusted || IsBust(player) then PlayerBust
    else if IsBlackjack(player) && IsBlackjack(dealer) then Push
    else if IsBlackjack(player) then PlayerBlackjack
    else if IsBlackjack(dealer) then DealerBlackjack
    else if IsBust(dealer) then PlayerWin
    else if HandTotal(player).total > HandTotal(dealer).total then PlayerWin
    else if HandTotal(player).total < HandTotal(dealer).total then PlayerLose
    else Push
  }

  // ---------------------------------------------------------------- drawing

  datatype Draw = Drew(card: Card, rest: seq<Card>) | Stuck(error: Error)

  /** The part of the authenticated message before the rejection counter. */
  function DrawPrefix(clientSeed: string, nonce: nat, cardIndex: nat): string {
    clientSeed + ":" + Dec(nonce) + ":" + Dec(cardIndex)
  }

  function Removed(s: seq<Card>, i: nat): seq<Card>
    requires i < |s|
  {
    s[..i] + s[i + 1..]
  }

  function DrawFrom(h: Hmac, clientSeed: string, nonce: nat, cardIndex: nat, remaining: seq<Card>): Draw {
    match DrawIndex(h, DrawPrefix(clientSeed, nonce, cardIndex), |remaining|)
    case EmptyMultiset => Stuck(EmptyShoe)
    case SamplingFailed => Stuck(RejectionSamplingFailed)
    case Index(i) =>
      if i < |remaining| then Drew(remaining[i], Removed(remaining, i)) else Stuck(EmptyShoe)
  }

  /** Lines 83-100. */
  method DrawCard(h: Hmac, clientSeed: string, nonce: nat, cardIndex: nat, remaining: seq<Card>) returns (d: Draw)
    ensures d == DrawFrom(h, clientSeed, nonce, cardIndex, remaining)
    ensures d.Drew? ==> |d.rest| == |remaining| - 1
  {
    var idx := HmacIndex(h, DrawPrefix(clientSeed, nonce, cardIndex), |remaining|);
    match idx {
      case EmptyMultiset => return Stuck(EmptyShoe);
      case SamplingFailed => return Stuck(RejectionSamplingFailed);
      case Index(i) =>
        DrawIndexIsFirstAccepted(h, DrawPrefix(clientSeed, nonce, cardIndex), |remaining|);
        return Drew(remaining[i], Removed(remaining, i));
    }
  }

  // ---------------------------------------------------------------- the dealer

  /** The dealer draws to 17 and stands on all 17s; the cards drawn and the shoe afterwards. */
  function DealerDraws(h: Hmac, clientSeed: string, nonce: nat, dealer: seq<Card>, remaining: seq<Card>,
                       cardIndex: nat): Result<(seq<Card>, seq<Card>)>
    decreases |remaining|
  {
    if HandTotal(dealer).total >= 17 then Ok((dealer, remaining)) else
      match DrawFrom(h, clientSeed, nonce, cardIndex, remaining)
      case Stuck(e) => Err(e)
      case Drew(card, rest) => DealerDraws(h, clientSeed, nonce, dealer + [card], rest, cardIndex + 1)
  }

  function Settle(hand: Hand, playerBusted: bool): Hand {
    var o := ResolveOutcome(hand.player, hand.dealer, playerBusted);
    hand.(holeHidden := false, phase := Settled, outcome := Some(o),
          settlement := SettlementFromOutcome(o, hand.bet))
  }

  function FinishDealer(h: Hmac, hand: Hand, cardIndex: nat, playerBusted: bool): Result<Hand> {
    if playerBusted then Ok(Settle(hand, true)) else
      match DealerDraws(h, hand.clientSeed, hand.nonce, hand.dealer, hand.remaining, cardIndex)
      case Err(e) => Err(e)
      case Ok((dealer, remaining)) => Ok(Settle(hand.(dealer := dealer, remaining := remaining), false))
  }

  /** Lines 239-274. */
  method PlayDealer(h: Hmac, start: Hand, cardIndex: nat, playerBusted: bool) returns (r: Result<Hand>)
    ensures r == FinishDealer(h, start, cardIndex, playerBusted)
  {
    var state := start.(holeHidden := false, phase := DealerTurn);
    var remaining := start.remaining;
    if !playerBusted {
      var index := cardIndex;
      while HandTotal(state.dealer).total < 17
        invariant state == start.(holeHidden := false, phase := DealerTurn, dealer := state.dealer)
        invariant DealerDraws(h, start.clientSeed, start.nonce, state.dealer, remaining, index)
                  == DealerDraws(h, start.clientSeed, start.nonce, start.dealer, start.remaining, cardIndex)
        decreases |remaining|
      {
        var d := DrawCard(h, state.clientSeed, state.nonce, index, remaining);
        if d.Stuck? {
          return Err(d.error);
        }
        state := state.(dealer := state.dealer + [d.card]);
        remaining := d.rest;
        index := index + 1;
      }
    }
    state := state.(remaining := remaining, phase := Settled);
    var outcome := ResolveOutcome(state.player, state.dealer, playerBusted);
    state := state.(outcome := Some(outcome));
    state := state.(settlement := SettlementFromOutcome(outcome, state.bet));
    return Ok(state);
  }

  // ---------------------------------------------------------------- dealing a hand

  function Fresh(handId: string, bet: int, clientSeed: string, nonce: nat, shoe: seq<Card>,
                 player: seq<Card>, dealer: seq<Card>, remaining: seq<Card>): Hand {
    Hand(handId, bet, PlayerTurn, player, dealer, true, clientSeed, nonce, shoe, remaining, None, None, false)
  }

  /** One card to the player, one to the dealer, and the shoe afterwards. */
  datatype Round = Round(player: Card, dealer: Card, rest: seq<Card>)

  function DealRound(h: Hmac, clientSeed: string, nonce: nat, cardIndex: nat, shoe: seq<Card>): Result<Round> {
    match DrawFrom(h, clientSeed, nonce, cardIndex, shoe)
    case Stuck(e) => Err(e)
    case Drew(p, rest) =>
      match DrawFrom(h, clientSeed, nonce, cardIndex + 1, rest)
      case Stuck(e) => Err(e)
      case Drew(d, rest') => Ok(Round(p, d, rest'))
  }

  method DrawRound(h: Hmac, clientSeed: string, nonce: nat, cardIndex: nat, shoe: seq<Card>)
    returns (r: Result<Round>)
    ensures r == DealRound(h, clientSeed, nonce, cardIndex, shoe)
  {
    var p := DrawCard(h, clientSeed, nonce, cardIndex, shoe);
    if p.Stuck? {
      return Err(p.error);
    }
    var d := DrawCard(h, clientSeed, nonce, cardIndex + 1, p.rest);
    if d.Stuck? {
      return Err(d.error);
    }
    return Ok(Round(p.card, d.card, d.rest));
  }

  /** Player, dealer, player, dealer; a natural on either side settles at once. */
  function CreateHand(h: Hmac, handId: string, bet: int, clientSeed: string, nonce: nat, shoe: seq<Card>): Result<Hand> {
    if bet <= 0 then Err(BetNotPositive) else
      match DealRound(h, clientSeed, nonce, 0, shoe)
      case Err(e) => Err(e)
      case Ok(a) =>
        match DealRound(h, clientSeed, nonce, 2, a.rest)
        case Err(e) => Err(e)
        case Ok(b) =>
          var hand := Fresh(handId, bet, clientSeed, nonce, shoe,
                            [a.player, b.player], [a.dealer, b.dealer], b.rest);
          if IsBlackjack(hand.player) || IsBlackjack(hand.dealer) then Ok(Settle(hand, false)) else Ok(hand)
  }

  /** Lines 146-164. */
  method SettleNaturals(state: Hand) returns (r: Hand)
    requires |state.dealer| > 0
    ensures r == if IsBlackjack(state.player) || IsBlackjack(state.dealer) then Settle(state, false) else state
  {
    var up := state.dealer[0].rank;
    if IsBlackjack(state.dealer) {
      NaturalShows(state.dealer);
    }
    if up == Ace || IsTenValue(up) {
      if IsBlackjack(state.dealer) || IsBlackjack(state.player) {
        return Settle(state, false);
      }
    }
    if IsBlackjack(state.player) && !IsBlackjack(state.dealer) {
      return Settle(state, false);
    }
    if IsBlackjack(state.player) && IsBlackjack(state.dealer) {
      return Settle(state, false);
    }
    return state;
  }

  /** Lines 102-165: the dealer peeks only under an ace or a ten-value card. */
  method Deal(h: Hmac, handId: string, bet: int, clientSeed: string, nonce: nat, shoe: seq<Card>)
    returns (r: Result<Hand>)
    ensures r == CreateHand(h, handId, bet, clientSeed, nonce, shoe)
  {
    if bet <= 0 {
      return Err(BetNotPositive);
    }
    var a := DrawRound(h, clientSeed, nonce, 0, shoe);
    if a.Err? {
      return Err(a.error);
    }
    var b := DrawRound(h, clientSeed, nonce, 2, a.value.rest);
    if b.Err? {
      return Err(b.error);
    }
    var state := Fresh(handId, bet, clientSeed, nonce, shoe, [a.value.player, b.value.player],
                       [a.value.dealer, b.value.dealer], b.value.rest);
    var settled := SettleNaturals(state);
    return Ok(settled);
  }

  // ---------------------------------------------------------------- actions

  function ApplyAction(h: Hmac, hand: Hand, action: Action): Result<Hand> {
    var index := |hand.player| + |hand.dealer|;
    if hand.phase != PlayerTurn then Err(NotPlayerTurn)
    else if action == Stand then FinishDealer(h, hand, index, false)
    else if action == Double && (|hand.player| != 2 || hand.doubled) then Err(DoubleNotAllowed)
    else
      match DrawFrom(h, hand.clientSeed, hand.nonce, index, hand.remaining)
      case Stuck(e) => Err(e)
      case Drew(card, rest) =>
        var next := hand.(player := hand.player + [card], remaining := rest);
        if action == Double then
          FinishDealer(h, next.(doubled := true, bet := hand.bet * 2), index + 1, IsBust(next.player))
        else if IsBust(next.player) then FinishDealer(h, next, index + 1, true)
        else Ok(next)
  }

  /** Lines 183-237; the given hand is copied, so a failed action leaves it as it was. */
  method Act(h: Hmac, hand: Hand, action: Action) returns (r: Result<Hand>)
    ensures r == ApplyAction(h, hand, action)
  {
    hide DrawFrom, FinishDealer, HandTotal;
    if hand.phase != PlayerTurn {
      return Err(NotPlayerTurn);
    }
    var remaining := hand.remaining;
    var cardIndex := |hand.player| + |hand.dealer|;
    var next := hand;
    if action == Double {
      if |next.player| != 2 || next.doubled {
        return Err(DoubleNotAllowed);
      }
      next := next.(doubled := true);
      next := next.(bet := hand.bet * 2);
      var d := DrawCard(h, next.clientSeed, next.nonce, cardIndex, remaining);
      if d.Stuck? { return Err(d.error); }
      next := next.(player := next.player + [d.card]);
      cardIndex := cardIndex + 1;
      next := next.(remaining := d.rest);
      if IsBust(next.player) {
        r := PlayDealer(h, next, cardIndex, true);
        return;
      }
      r := PlayDealer(h, next, cardIndex, false);
      return;
    }
    if action == Hit {
      var d := DrawCard(h, next.clientSeed, next.nonce, cardIndex, remaining);
      if d.Stuck? { return Err(d.error); }
      next := next.(player := next.player + [d.card]);
      cardIndex := cardIndex + 1;
      next := next.(remaining := d.rest);
      if IsBust(next.player) {
        r := PlayDealer(h, next, cardIndex, true);
        return;
      }
      return Ok(next);
    }
    r := PlayDealer(h, next, cardIndex, false);
  }
}
