/**
 * Payouts of the instant games: packages/house-games/src. Rolls are a hash of the seeds, taken as a
 * parameter; the poker hand rank of the drawn cards is a parameter too.
 */
module HouseGames {
  import opened Money
  import opened Text
  import opened Sampler
  import Radix

  datatype Error = BetNotPositive | TargetOutOfRange | BadWinChance

  datatype Result<+T> = Ok(value: T) | Err(error: Error)

  // ---------------------------------------------------------------- settlements

  function Lose(bet: int): Settlement { Settlement(PlayerLose, bet, 0, bet) }

  function Win(bet: int, credit: int): Settlement { Settlement(PlayerWin, bet, credit, -(credit - bet)) }

  /** multToSettlement of cards-lite.ts: `mult` is the total credit as a multiple of the bet. */
  function MultToSettlement(bet: int, mult: int): Settlement {
    if mult <= 0 then Lose(bet) else
      Settlement(if mult > 1 then PlayerWin else Push, bet, bet * mult, -(bet * mult - bet))
  }

  datatype SlotMult = Times(n: int) | OneAndHalf

  /** settlementFromCreditMult of cateslots.ts. */
  function SettlementFromCreditMult(bet: int, mult: SlotMult): Settlement {
    if mult.Times? && mult.n <= 0 then Lose(bet) else
      var credit := if mult.OneAndHalf? then (bet * 3) / 2 else bet * mult.n;
      Settlement(if credit > bet then PlayerWin else Push, bet, credit, -(credit - bet))
  }

  datatype PokerRank =
    | RoyalFlush | StraightFlush | FourKind | FullHouse | Flush | Straight | ThreeKind | TwoPair | JacksOrBetter | HighCard

  function JobMult(r: PokerRank): int {
    match r
    case RoyalFlush => 250
    case StraightFlush => 50
    case FourKind => 25
    case FullHouse => 9
    case Flush => 6
    case Straight => 4
    case ThreeKind => 3
    case TwoPair => 2
    case JacksOrBetter => 2
    case HighCard => 0
  }

  function StudMult(r: PokerRank): int {
    match r
    case RoyalFlush => 100
    case StraightFlush => 50
    case FourKind => 20
    case FullHouse => 8
    case Flush => 5
    case Straight => 4
    case ThreeKind => 3
    case TwoPair => 2
    case JacksOrBetter => 2
    case HighCard => 0
  }

  // ---------------------------------------------------------------- the games

  /** SHA-256 of a message, as its first 32 bits. */
  type Hash = string -> Digest32

  datatype Seeds = Seeds(server: string, client: string, nonce: nat)

  /** rollInt: a number from 0 to `max`, by plain remainder. */
  function RollInt(hash: Hash, s: Seeds, max: nat): nat {
    hash(s.server + ":" + s.client + ":" + Dec(s.nonce)) % (max + 1)
  }

  datatype Mode = Over | Under

  function WinChance(mode: Mode, target: int): int {
    if mode == Over then 100 - target else target - 1
  }

  predicate DiceWins(mode: Mode, target: int, roll: int) {
    if mode == Over then roll > target else roll < target
  }

  /** The credit multiple in hundredths. */
  function MultBps(mode: Mode, target: int): int
    requires WinChance(mode, target) > 0
  {
    9900 / WinChance(mode, target)
  }

  function DiceSettlement(mode: Mode, target: int, bet: int, roll: int): Settlement
    requires WinChance(mode, target) > 0
  {
    if DiceWins(mode, target, roll) then Win(bet, (bet * MultBps(mode, target)) / 100) else Lose(bet)
  }

  /** The target is rounded down already; None is the not-a-number a malformed one becomes, which no check stops. */
  function PlayDice(hash: Hash, s: Seeds, mode: Mode, target: Option<int>, bet: int): Result<Settlement> {
    if bet <= 0 then Err(BetNotPositive)
    else if target.None? then Ok(Lose(bet))
    else if target.value < 2 || target.value > 98 then Err(TargetOutOfRange)
    else if WinChance(mode, target.value) <= 0 || WinChance(mode, target.value) >= 99 then Err(BadWinChance)
    else Ok(DiceSettlement(mode, target.value, bet, RollInt(hash, s, 99) + 1))
  }

  datatype Symbol = CATE | CAT | GOLD | MOON | PAW | RUG

  const REEL_STRIP: seq<Symbol> := [RUG, RUG, RUG, PAW, PAW, PAW, MOON, MOON, GOLD, GOLD, CAT, CAT, CATE]

  function TripleMult(s: Symbol): int {
    match s
    case CATE => 25
    case CAT => 12
    case GOLD => 8
    case MOON => 5
    case PAW => 3
    case RUG => 0
  }

  function SpinReel(hash: Hash, s: Seeds, reel: nat): Symbol {
    REEL_STRIP[RollInt(hash, s.(client := s.client + ":reel:" + Dec(reel)), |REEL_STRIP| - 1)]
  }

  /** Three of a kind, or a left pair of one of the three best symbols. */
  function CreditMult(a: Symbol, b: Symbol, c: Symbol): SlotMult {
    if a == b && b == c then Times(TripleMult(a))
    else if a == b && (a == CATE || a == CAT || a == GOLD) then OneAndHalf
    else Times(0)
  }

  function PlaySlots(hash: Hash, s: Seeds, bet: int): Result<Settlement> {
    if bet <= 0 then Err(BetNotPositive) else
      Ok(SettlementFromCreditMult(bet, CreditMult(SpinReel(hash, s, 0), SpinReel(hash, s, 1), SpinReel(hash, s, 2))))
  }

  datatype Color = Red | Black | Green

  const RED_NUMBERS: set<nat> := {1, 3, 5, 7, 9, 12, 14, 16, 18, 19, 21, 23, 25, 27, 30, 32, 34, 36}

  function SpinColor(n: nat): Color {
    if n == 0 then Green else if n in RED_NUMBERS then Red else Black
  }

  datatype HighPick = High | Low | Seven

  predicate HighWins(pick: HighPick, total: int) {
    match pick
    case Low => 2 <= total <= 6
    case High => 8 <= total <= 12
    case Seven => total == 7
  }

  datatype Game =
    | Flip(heads: bool)
    | Dice(mode: Mode, target: Option<int>)
    | Spin(color: Color)
    | HighCate(pick: HighPick)
    | Slots
    | Poker(rank: PokerRank)

  /** One round of an instant game. */
  function PlayGame(hash: Hash, s: Seeds, game: Game, bet: int): Result<Settlement> {
    if bet <= 0 then Err(BetNotPositive) else
      match game
      case Flip(heads) => Ok(if (RollInt(hash, s, 1) == 0) == heads then Win(bet, bet * 2) else Lose(bet))
      case Dice(mode, target) => PlayDice(hash, s, mode, target, bet)
      case Spin(color) =>
        Ok(if SpinColor(RollInt(hash, s, 36)) != color then Lose(bet)
           else Win(bet, if color == Green then bet * 36 else bet * 2))
      case HighCate(pick) =>
        var total := RollInt(hash, s, 5) + 1 + RollInt(hash, s.(client := s.client + ":b"), 5) + 1;
        Ok(if !HighWins(pick, total) then Lose(bet) else Win(bet, if pick == Seven then bet * 5 else bet * 2))
      case Slots => PlaySlots(hash, s, bet)
      case Poker(rank) => Ok(MultToSettlement(bet, StudMult(rank)))
  }

  // ---------------------------------------------------------------- every settlement is valid

  /** The engine refuses only a bet that is not positive and a dice target that is a number outside 2 to 98. */
  predicate Playable(game: Game) {
    game.Dice? && game.target.Some? ==> 2 <= game.target.value <= 98
  }

  lemma Scale(w: int, m: int, bet: int)
    requires w > 0 && bet > 0 && 101 <= m <= 9900 && w * m <= 9900
    ensures bet <= (bet * m) / 100 <= bet * 99
    ensures w * ((bet * m) / 100) <= 99 * bet
  {
    var credit := (bet * m) / 100;
    assert bet * 101 <= bet * m <= bet * 9900 by {
      Radix.MulMonotone(101, m, bet);
      Radix.MulMonotone(m, 9900, bet);
    }
    Radix.MulMonotone(100 * credit, bet * m, w);
    Radix.MulMonotone(w * m, 9900, bet);
    calc {
      100 * (w * credit);
    ==
      (100 * credit) * w;
    <=
      (bet * m) * w;
    ==
      (w * m) * bet;
    <=
      9900 * bet;
    }
  }

  lemma DiceCreditBounds(mode: Mode, target: int, bet: int)
    requires 0 < WinChance(mode, target) <= 98 && bet > 0
    ensures 101 <= MultBps(mode, target) <= 9900
    ensures bet <= (bet * MultBps(mode, target)) / 100 <= bet * 99
    ensures WinChance(mode, target) * ((bet * MultBps(mode, target)) / 100) <= 99 * bet
  {
    var w, m := WinChance(mode, target), MultBps(mode, target);
    assert w * m <= 9900 && m >= 101;
    Scale(w, m, bet);
  }

  lemma MultIsValid(bet: int, mult: int)
    requires IsSafeAmount(bet) && mult <= 1000
    ensures IsValidSettlement(MultToSettlement(bet, mult)) && MultToSettlement(bet, mult).bet == bet
    ensures IsValidSettlement(SettlementFromCreditMult(bet, Times(mult)))
    ensures IsValidSettlement(SettlementFromCreditMult(bet, OneAndHalf))
  {
    if mult > 0 {
      Radix.MulMonotone(mult, 1000, bet);
    }
  }

  /**
   * Every game accepts every safe bet it can play, and its settlement passes the ledger's checks; a dice
   * target that is no number is played and always lost.
   */
  lemma EveryGameSettles(hash: Hash, s: Seeds, game: Game, bet: int)
    requires IsSafeAmount(bet)
    ensures PlayGame(hash, s, game, bet).Ok? <==> Playable(game)
    ensures PlayGame(hash, s, game, bet).Ok? ==>
              && IsValidSettlement(PlayGame(hash, s, game, bet).value)
              && PlayGame(hash, s, game, bet).value.bet == bet
    ensures game.Dice? && game.target.None? ==> PlayGame(hash, s, game, bet) == Ok(Lose(bet))
  {
    hide RollInt, SpinReel;
    match game
    case Dice(mode, target) =>
      if target.Some? && 2 <= target.value <= 98 {
        DiceCreditBounds(mode, target.value, bet);
      }
    case Poker(rank) => MultIsValid(bet, StudMult(rank));
    case Slots =>
      var m := CreditMult(SpinReel(hash, s, 0), SpinReel(hash, s, 1), SpinReel(hash, s, 2));
      MultIsValid(bet, if m.Times? then m.n else 0);
    case _ =>
  }

  // ---------------------------------------------------------------- the dice edge

  function Winning(mode: Mode, target: int): nat -> bool {
    (i: nat) => DiceWins(mode, target, i + 1)
  }

  lemma {:induction false} NoneOver(n: nat, t: nat)
    requires n <= t
    ensures Count(n, (i: nat) => i + 1 > t) == 0
  {
    if n > 0 {
      NoneOver(n - 1, t);
    }
  }

  lemma {:induction false} CountOver(n: nat, t: nat)
    requires t <= n
    ensures Count(n, (i: nat) => i + 1 > t) == n - t
    ensures Count(t, (i: nat) => i + 1 > t) == 0
  {
    if n > t {
      CountOver(n - 1, t);
    } else if n > 0 {
      NoneOver(n, t);
    }
  }

  lemma {:induction false} CountUnder(n: nat, t: nat)
    requires 1 <= t
    ensures Count(n, (i: nat) => i + 1 < t) == if n < t then n else t - 1
  {
    if n > 0 {
      CountUnder(n - 1, t);
    }
  }

  /** Of the 100 rolls, exactly `WinChance` win. */
  lemma WinChanceIsExact(mode: Mode, target: nat)
    requires 2 <= target <= 98
    ensures Count(100, Winning(mode, target)) == WinChance(mode, target)
  {
    if mode == Over {
      CountOver(100, target);
      CountSame(100, Winning(mode, target), (i: nat) => i + 1 > target);
    } else {
      CountUnder(100, target);
      CountSame(100, Winning(mode, target), (i: nat) => i + 1 < target);
    }
  }
}
