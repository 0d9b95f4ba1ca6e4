/**
 * The shared demo table: apps/web/src/lib/demo-session.ts and the state changes of the four game
 * routes under apps/web/src/app/api/demo (deal, action, videocate, instant).
 *
 * Functions say what each request does to the table; the class is the routes' code on a ledger object.
 */
module DemoTable {
  import opened Money
  import opened Text
  import L = Ledger
  import B = Blackjack
  import Cards
  import S = Sampler
  import H = HouseGames

  const USER := "demo"
  const SEED_KEY := "demo-seed"

  /** 100 USDC */
  const SEED_AMOUNT := 100_000_000

  datatype Limits = Limits(min: int, max: int)

  /** usdcToAtomic refuses amounts outside the safe integers of the language. */
  const MAX_SAFE_INTEGER := 9_007_199_254_740_991

  predicate WithinLimits(bet: int, limits: Limits) {
    limits.min <= bet <= limits.max
  }

  /** A hand together with HMAC-SHA256 under its server seed. */
  datatype Seat = Seat(hand: B.Hand, hmac: S.Hmac)

  /** A VideoCate hand; the cards matter only for the rank they draw to. */
  datatype Video = Video(holding: bool, bet: int, nonce: nat, settlement: Option<Settlement>)

  datatype Table = Table(books: L.Books, seat: Option<Seat>, video: Option<Video>, nonce: nat)

  datatype Refusal =
    | HandInPlay | VideoInPlay | BetOutOfLimits | LockRefused | SettleRefused | NoPlayerTurn
    | EngineFailed(error: B.Error) | NothingToDraw | BadHeld | PickNotOffered | GameFailed(cause: H.Error)

  datatype Reply = Played | Refused(why: Refusal)

  // ---------------------------------------------------------------- keys

  function Key(prefix: string, n: nat): string { prefix + "-" + Dec(n) }

  function HandId(n: nat): string { Key("hand", n) }

  function DoubleKey(handId: string): string { "double-" + handId }

  function SettleKey(handId: string): string { "settle-" + handId }

  datatype GameId = CateFlip | CateDice | CateSpin | HighCate | CateSlots | CatePoker

  /** The games that ask for a pick or a mode. */
  type PickGame = id: GameId | id != CateSlots && id != CatePoker witness CateFlip

  /** A game with a pick or mode it offers, or one with a pick or mode it does not know. */
  datatype Choice = Known(game: H.Game) | Unknown(id: PickGame)

  function IdOf(g: H.Game): GameId {
    match g
    case Flip(_) => CateFlip
    case Dice(_, _) => CateDice
    case Spin(_) => CateSpin
    case HighCate(_) => HighCate
    case Slots => CateSlots
    case Poker(_) => CatePoker
  }

  function GameName(c: Choice): string {
    match if c.Known? then IdOf(c.game) else c.id
    case CateFlip => "cateflip"
    case CateDice => "catedice"
    case CateSpin => "catespin"
    case HighCate => "highcate"
    case CateSlots => "cateslots"
    case CatePoker => "catepoker"
  }

  // ---------------------------------------------------------------- what a request does

  function Lock(b: L.Books, amount: int, key: string): (L.Books, bool) {
    var (b', reply) := L.Apply(b, L.Move(L.LockBet(amount), USER, Some(key)));
    (b', reply.Done?)
  }

  function Pay(b: L.Books, s: Settlement, key: string): (L.Books, bool) {
    var (b', reply) := L.Apply(b, L.Move(L.SettleHand(s), USER, Some(key)));
    (b', reply.Done?)
  }

  const SEEDED_BOOKS := L.Apply(L.EMPTY_BOOKS, L.Move(L.CreditDeposit(SEED_AMOUNT), USER, Some(SEED_KEY))).0
  const START := Table(SEEDED_BOOKS, None, None, 1)

  predicate HandLive(t: Table) {
    t.seat.Some? && t.seat.value.hand.phase != B.Settled
  }

  predicate VideoLive(t: Table) {
    t.video.Some? && t.video.value.holding
  }

  /** Settle the hand if it is over, then put it on the table. */
  function Finish(t: Table, hand: B.Hand, hmac: S.Hmac): (Table, Reply) {
    if hand.phase == B.Settled && hand.settlement.Some? then
      var (b, paid) := Pay(t.books, hand.settlement.value, SettleKey(hand.handId));
      if paid then (t.(books := b, seat := Some(Seat(hand, hmac))), Played)
      else (t.(books := b), Refused(SettleRefused))
    else (t.(seat := Some(Seat(hand, hmac))), Played)
  }

  /** The deal route locks first, and counts the nonce up only once the hand is there. */
  function Deal(t: Table, hmac: S.Hmac, shoe: seq<Cards.Card>, bet: int, limits: Limits): (Table, Reply) {
    if HandLive(t) then (t, Refused(HandInPlay))
    else if !WithinLimits(bet, limits) then (t, Refused(BetOutOfLimits))
    else
      var (b, locked) := Lock(t.books, bet, Key("lock", t.nonce));
      if !locked then (t.(books := b), Refused(LockRefused)) else
        match B.CreateHand(hmac, HandId(t.nonce), bet, Key("web", t.nonce), t.nonce, shoe)
        case Err(e) => (t.(books := b), Refused(EngineFailed(e)))
        case Ok(hand) => Finish(t.(books := b, nonce := t.nonce + 1), hand, hmac)
  }

  /** Lock what the action added to the bet, then finish. */
  function LockAndFinish(t: Table, prevBet: int, next: B.Hand, hmac: S.Hmac): (Table, Reply) {
    if next.doubled && next.bet > prevBet then
      var (b, locked) := Lock(t.books, next.bet - prevBet, DoubleKey(next.handId));
      if locked then Finish(t.(books := b), next, hmac) else (t.(books := b), Refused(LockRefused))
    else Finish(t, next, hmac)
  }

  function Act(t: Table, action: B.Action): (Table, Reply) {
    if t.seat.None? || t.seat.value.hand.phase != B.PlayerTurn then (t, Refused(NoPlayerTurn)) else
      var Seat(hand, hmac) := t.seat.value;
      match B.ApplyAction(hmac, hand, action)
      case Err(e) => (t, Refused(EngineFailed(e)))
      case Ok(next) => LockAndFinish(t, hand.bet, next, hmac)
  }

  function DealVideo(t: Table, bet: int, limits: Limits): (Table, Reply) {
    if HandLive(t) then (t, Refused(HandInPlay))
    else if VideoLive(t) then (t, Refused(VideoInPlay))
    else if !WithinLimits(bet, limits) then (t, Refused(BetOutOfLimits))
    else
      var (b, locked) := Lock(t.books, bet, Key("lock-videocate", t.nonce));
      var t1 := t.(books := b, nonce := t.nonce + 1);
      if locked then (t1.(video := Some(Video(true, bet, t.nonce, None))), Played) else (t1, Refused(LockRefused))
  }

  /** The held cards decide the rank, which is an input here. */
  function DrawVideo(t: Table, held: seq<bool>, rank: H.PokerRank): (Table, Reply) {
    if !VideoLive(t) then (t, Refused(NothingToDraw))
    else if |held| != 5 then (t, Refused(BadHeld))
    else
      var v := t.video.value;
      var s := H.MultToSettlement(v.bet, H.JobMult(rank));
      var (b, paid) := Pay(t.books, s, Key("settle-videocate", v.nonce));
      if paid then (t.(books := b, video := Some(v.(holding := false, settlement := Some(s)))), Played)
      else (t.(books := b), Refused(SettleRefused))
  }

  /** Picks and modes are looked at only once the bet is locked. */
  function Instant(t: Table, hash: H.Hash, serverSeed: string, choice: Choice, bet: int, limits: Limits): (Table, Reply) {
    if !WithinLimits(bet, limits) then (t, Refused(BetOutOfLimits))
    else if HandLive(t) then (t, Refused(HandInPlay))
    else if VideoLive(t) then (t, Refused(VideoInPlay))
    else
      var (b, locked) := Lock(t.books, bet, Key("lock-" + GameName(choice), t.nonce));
      var t1 := t.(books := b, nonce := t.nonce + 1);
      if !locked then (t1, Refused(LockRefused))
      else if choice.Unknown? then (t1, Refused(PickNotOffered))
      else
        match H.PlayGame(hash, H.Seeds(serverSeed, Key("demo", t.nonce), t.nonce), choice.game, bet)
        case Err(e) => (t1, Refused(GameFailed(e)))
        case Ok(s) =>
          var (b', paid) := Pay(b, s, Key("settle-" + GameName(choice), t.nonce));
          (t1.(books := b'), if paid then Played else Refused(SettleRefused))
  }

  // ---------------------------------------------------------------- the table object

  class TableObject {
    const ledger: L.LedgerSnapshot
    var seat: Option<Seat>
    var video: Option<Video>
    var nonce: nat

    ghost function State(): Table
      reads this, ledger
    {
      Table(ledger.State(), seat, video, nonce)
    }

    /** getDemoTable, the first time it is called. */
    constructor ()
      ensures State() == START
      ensures fresh(ledger)
    {
      ledger := new L.LedgerSnapshot();
      seat, video, nonce := None, None, 1;
      new;
      var _ := ledger.CreditDeposit(USER, SEED_AMOUNT, Some(SEED_KEY));
    }

    method NextNonce() returns (n: nat)
      modifies this`nonce
      ensures n == old(nonce) && nonce == n + 1
    {
      n := nonce;
      nonce := nonce + 1;
    }

    method SettleAndSeat(hand: B.Hand, hmac: S.Hmac) returns (reply: Reply)
      modifies this`seat, ledger
      ensures (State(), reply) == Finish(old(State()), hand, hmac)
    {
      hide L.Apply;
      if hand.phase == B.Settled && hand.settlement.Some? {
        var paid := ledger.SettleHand(USER, hand.settlement.value, Some(SettleKey(hand.handId)));
        if paid.Failed? {
          return Refused(SettleRefused);
        }
      }
      seat := Some(Seat(hand, hmac));
      return Played;
    }

    /** deal/route.ts lines 19-57. */
    method PostDeal(hmac: S.Hmac, shoe: seq<Cards.Card>, bet: int, limits: Limits) returns (reply: Reply)
      modifies this, ledger
      ensures (State(), reply) == Deal(old(State()), hmac, shoe, bet, limits)
    {
      hide B.CreateHand, L.Apply, Finish;
      if seat.Some? && seat.value.hand.phase != B.Settled {
        return Refused(HandInPlay);
      }
      if !(limits.min <= bet <= limits.max) {
        return Refused(BetOutOfLimits);
      }
      var locked := ledger.LockBet(USER, bet, Some(Key("lock", nonce)));
      if locked.Failed? {
        return Refused(LockRefused);
      }
      var hand := B.Deal(hmac, HandId(nonce), bet, Key("web", nonce), nonce, shoe);
      if hand.Err? {
        return Refused(EngineFailed(hand.error));
      }
      nonce := nonce + 1;
      reply := SettleAndSeat(hand.value, hmac);
    }

    /** Lines 31-47 of action/route.ts. */
    method LockAndSeat(prevBet: int, hand: B.Hand, hmac: S.Hmac) returns (reply: Reply)
      modifies this`seat, ledger
      ensures (State(), reply) == LockAndFinish(old(State()), prevBet, hand, hmac)
    {
      hide L.Apply;
      if hand.doubled && hand.bet > prevBet {
        var locked := ledger.LockBet(USER, hand.bet - prevBet, Some(DoubleKey(hand.handId)));
        if locked.Failed? {
          return Refused(LockRefused);
        }
      }
      reply := SettleAndSeat(hand, hmac);
    }

    /** action/route.ts lines 23-47. */
    method PostAction(action: B.Action) returns (reply: Reply)
      modifies this, ledger
      ensures (State(), reply) == Act(old(State()), action)
    {
      hide B.ApplyAction, LockAndFinish;
      if seat.None? || seat.value.hand.phase != B.PlayerTurn {
        return Refused(NoPlayerTurn);
      }
      var prevBet := seat.value.hand.bet;
      var hmac := seat.value.hmac;
      var next := B.Act(hmac, seat.value.hand, action);
      if next.Err? {
        return Refused(EngineFailed(next.error));
      }
      reply := LockAndSeat(prevBet, next.value, hmac);
    }

    /** videocate/route.ts lines 71-94. */
    method PostVideoDeal(bet: int, limits: Limits) returns (reply: Reply)
      modifies this, ledger
      ensures (State(), reply) == DealVideo(old(State()), bet, limits)
    {
      hide L.Apply;
      if seat.Some? && seat.value.hand.phase != B.Settled {
        return Refused(HandInPlay);
      }
      if video.Some? && video.value.holding {
        return Refused(VideoInPlay);
      }
      if !(limits.min <= bet <= limits.max) {
        return Refused(BetOutOfLimits);
      }
      var n := NextNonce();
      var locked := ledger.LockBet(USER, bet, Some(Key("lock-videocate", n)));
      if locked.Failed? {
        return Refused(LockRefused);
      }
      video := Some(Video(true, bet, n, None));
      return Played;
    }

    /** videocate/route.ts lines 106-121. */
    method PostVideoDraw(held: seq<bool>, rank: H.PokerRank) returns (reply: Reply)
      modifies this, ledger
      ensures (State(), reply) == DrawVideo(old(State()), held, rank)
    {
      hide L.Apply;
      if video.None? || !video.value.holding {
        return Refused(NothingToDraw);
      }
      if |held| != 5 {
        return Refused(BadHeld);
      }
      var s := H.MultToSettlement(video.value.bet, H.JobMult(rank));
      var paid := ledger.SettleHand(USER, s, Some(Key("settle-videocate", video.value.nonce)));
      if paid.Failed? {
        return Refused(SettleRefused);
      }
      video := Some(video.value.(holding := false, settlement := Some(s)));
      return Played;
    }

    /** instant/route.ts lines 88-181. */
    method PostInstant(hash: H.Hash, serverSeed: string, choice: Choice, bet: int, limits: Limits) returns (reply: Reply)
      modifies this, ledger
      ensures (State(), reply) == Instant(old(State()), hash, serverSeed, choice, bet, limits)
    {
      hide H.PlayGame, L.Apply;
      if !(limits.min <= bet <= limits.max) {
        return Refused(BetOutOfLimits);
      }
      if seat.Some? && seat.value.hand.phase != B.Settled {
        return Refused(HandInPlay);
      }
      if video.Some? && video.value.holding {
        return Refused(VideoInPlay);
      }
      var n := NextNonce();
      var locked := ledger.LockBet(USER, bet, Some(Key("lock-" + GameName(choice), n)));
      if locked.Failed? {
        return Refused(LockRefused);
      }
      if choice.Unknown? {
        return Refused(PickNotOffered);
      }
      var result := H.PlayGame(hash, H.Seeds(serverSeed, Key("demo", n), n), choice.game, bet);
      if result.Err? {
        return Refused(GameFailed(result.error));
      }
      var paid := ledger.SettleHand(USER, result.value, Some(Key("settle-" + GameName(choice), n)));
      if paid.Failed? {
        return Refused(SettleRefused);
      }
      return Played;
    }
  }
}
