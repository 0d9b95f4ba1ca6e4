/**
 * What each instant game pays: the credit of every outcome, and all outcomes of a bet together.
 */
module HousePays {
  import opened Money
  import opened Text
  import opened Sampler
  import opened HouseGames
  import Radix

  /** What a round hands back. */
  function Credit(hash: Hash, s: Seeds, game: Game, bet: int): int {
    if PlayGame(hash, s, game, bet).Ok? then PlayGame(hash, s, game, bet).value.credit else 0
  }

  function Total(n: nat, f: nat -> int): int {
    if n == 0 then 0 else Total(n - 1, f) + f(n - 1)
  }

  lemma {:induction false} TotalSame(n: nat, f: nat -> int, g: nat -> int)
    requires forall i: nat :: i < n ==> f(i) == g(i)
    ensures Total(n, f) == Total(n, g)
  {
    if n > 0 {
      TotalSame(n - 1, f, g);
    }
  }

  /** Where the outcomes with property `p` pay `w` and the others nothing. */
  lemma {:induction false} TotalOfWins(n: nat, p: nat -> bool, w: int, f: nat -> int)
    requires forall i: nat :: i < n ==> f(i) == if p(i) then w else 0
    ensures Total(n, f) == Count(n, p) * w
  {
    if n > 0 {
      TotalOfWins(n - 1, p, w, f);
      assert (Count(n - 1, p) + 1) * w == Count(n - 1, p) * w + w;
    }
  }

  /** The hash whose first 32 bits are always `d`. */
  function Fixed(d: nat): Hash
    requires d < MAX_U32
  {
    (message: string) => d
  }

  // ---------------------------------------------------------------- the dice

  /** The number of the 100 rolls that win. */
  function Chance(mode: Mode, target: int): int {
    match mode
    case Over => 100 - target
    case Under => target - 1
  }

  predicate Beats(mode: Mode, target: int, roll: int) {
    match mode
    case Over => roll > target
    case Under => roll < target
  }

  /** The multiple in hundredths: the greatest that keeps the house its hundredth. */
  predicate IsMultiple(m: int, chance: int) {
    m * chance <= 9900 < (m + 1) * chance
  }

  lemma MultiplesIsUnique(m: int, n: int, chance: int)
    requires chance > 0 && IsMultiple(m, chance) && IsMultiple(n, chance)
    ensures m == n
  {
    if m < n {
      Radix.MulMonotone(m + 1, n, chance);
    }
    if n < m {
      Radix.MulMonotone(n + 1, m, chance);
    }
  }

  lemma MultBpsIs(mode: Mode, target: int, m: int)
    requires 2 <= target <= 98 && IsMultiple(m, Chance(mode, target))
    ensures WinChance(mode, target) == Chance(mode, target) && MultBps(mode, target) == m
  {
    var w := WinChance(mode, target);
    assert IsMultiple(9900 / w, w);
    hide IsMultiple;
    MultiplesIsUnique(m, 9900 / w, w);
  }

  lemma Hundredths(x: int)
    ensures 100 * (x / 100) <= x < 100 * (x / 100 + 1)
  {
  }

  /**
   * What the dice pay: a winning roll the greatest whole credit within the multiple, and at least the
   * stake; a losing roll nothing.
   */
  lemma DicePays(hash: Hash, s: Seeds, mode: Mode, target: int, bet: int, m: int)
    requires 2 <= target <= 98 && bet > 0 && IsMultiple(m, Chance(mode, target))
    ensures var roll, r := RollInt(hash, s, 99) + 1, PlayDice(hash, s, mode, Some(target), bet);
            && r.Ok? && r.value.bet == bet && r.value.houseDelta == bet - r.value.credit
            && (Beats(mode, target, roll) ==>
                  100 * r.value.credit <= bet * m < 100 * (r.value.credit + 1) && r.value.credit >= bet)
            && (!Beats(mode, target, roll) ==> r.value.credit == 0)
            && r.value.outcome == if Beats(mode, target, roll) then PlayerWin else PlayerLose
  {
    hide RollInt, MultBps, IsMultiple;
    MultBpsIs(mode, target, m);
    DiceCreditBounds(mode, target, bet);
    Hundredths(bet * m);
  }

  lemma RollBelow(hash: Hash, s: Seeds, max: nat)
    ensures 0 <= RollInt(hash, s, max) <= max
  {
  }

  lemma FixedRoll(d: nat, s: Seeds, max: nat)
    requires d <= max < MAX_U32
    ensures RollInt(Fixed(d), s, max) == d
  {
    Radix.DivMod(d, 0, d, max + 1);
  }

  function DiceCredit(s: Seeds, mode: Mode, target: int, bet: int): nat -> int {
    (d: nat) => if d < 100 then Credit(Fixed(d), s, Dice(mode, Some(target)), bet) else 0
  }

  lemma DiceCreditIs(s: Seeds, mode: Mode, target: int, bet: int, d: nat)
    requires 2 <= target <= 98 && bet > 0 && d < 100
    ensures DiceCredit(s, mode, target, bet)(d)
            == if Winning(mode, target)(d) then (bet * MultBps(mode, target)) / 100 else 0
  {
    hide RollInt;
    FixedRoll(d, s, 99);
  }

  lemma CreditWithin(w: int, m: int, bet: int, c: int)
    requires w > 0 && bet > 0 && m > 0 && IsMultiple(m, w) && 100 * c <= bet * m < 100 * (c + 1)
    ensures w * c <= 99 * bet
    ensures 100 * (w * c) >= (9901 - w) * bet - 99 * w
  {
    Radix.MulMonotone(100 * c, bet * m, w);
    Radix.MulMonotone(w * m, 9900, bet);
    Radix.MulMonotone(bet * m, 100 * c + 99, w);
    assert m * w >= 9901 - w by {
      assert (m + 1) * w == m * w + w;
    }
    Radix.MulMonotone(9901 - w, m * w, bet);
    assert 100 * (w * c) == (100 * c) * w;
    assert (bet * m) * w == (w * m) * bet;
    assert (100 * c + 99) * w == (100 * c) * w + 99 * w;
    assert (m * w) * bet == (w * m) * bet;
  }

  function WonCredit(mode: Mode, target: int, bet: int): int
    requires 2 <= target <= 98
  {
    (bet * MultBps(mode, target)) / 100
  }

  lemma WonCreditIs(mode: Mode, target: int, bet: int)
    requires 2 <= target <= 98 && bet > 0
    ensures var w, c := Chance(mode, target), WonCredit(mode, target, bet);
            w == WinChance(mode, target) && w * c <= 99 * bet && 100 * (w * c) >= (9901 - w) * bet - 99 * w
  {
    var w := WinChance(mode, target);
    assert IsMultiple(9900 / w, w);
    CreditWithin(w, 9900 / w, bet, WonCredit(mode, target, bet));
  }

  /**
   * The house edge of the dice: the credits of all 100 rolls together are at most 99 bets, and short of
   * that by no more than the rounding of the multiple and of the credits.
   */
  lemma DiceKeepsItsEdge(s: Seeds, mode: Mode, target: nat, bet: int)
    requires 2 <= target <= 98 && bet > 0
    ensures var all, w := Total(100, DiceCredit(s, mode, target, bet)), Chance(mode, target);
            && all <= 99 * bet
            && 100 * all >= (9901 - w) * bet - 99 * w
  {
    var c := WonCredit(mode, target, bet);
    forall d: nat | d < 100
      ensures DiceCredit(s, mode, target, bet)(d) == if Winning(mode, target)(d) then c else 0
    {
      DiceCreditIs(s, mode, target, bet, d);
    }
    hide DiceCredit, Winning, Total, Count, WonCredit;
    TotalOfWins(100, Winning(mode, target), c, DiceCredit(s, mode, target, bet));
    WinChanceIsExact(mode, target);
    WonCreditIs(mode, target, bet);
  }

  // ---------------------------------------------------------------- the coin and the wheel

  function FlipCredit(s: Seeds, heads: bool, bet: int): nat -> int {
    (d: nat) => if d < 2 then Credit(Fixed(d), s, Flip(heads), bet) else 0
  }

  /** The coin is even: a side called right pays twice the bet, and both sides together two bets. */
  lemma FlipPays(hash: Hash, s: Seeds, heads: bool, bet: int)
    requires bet > 0
    ensures Credit(hash, s, Flip(heads), bet) == if heads == (RollInt(hash, s, 1) == 0) then 2 * bet else 0
    ensures Credit(hash, s, Flip(true), bet) + Credit(hash, s, Flip(false), bet) == 2 * bet
    ensures Total(2, FlipCredit(s, heads, bet)) == 2 * bet
  {
    FixedRoll(0, s, 1);
    FixedRoll(1, s, 1);
    hide RollInt;
    assert Total(2, FlipCredit(s, heads, bet)) == Total(1, FlipCredit(s, heads, bet)) + FlipCredit(s, heads, bet)(1);
    assert Total(1, FlipCredit(s, heads, bet)) == Total(0, FlipCredit(s, heads, bet)) + FlipCredit(s, heads, bet)(0);
  }

  function Shows(color: Color): nat -> bool {
    (n: nat) => n < 37 && SpinColor(n) == color
  }

  function Reds(n: nat): nat { Count(n, Shows(Red)) }

  predicate IsRed(n: nat) {
    n == 1 || n == 3 || n == 5 || n == 7 || n == 9 || n == 12 || n == 14 || n == 16 || n == 18
    || n == 19 || n == 21 || n == 23 || n == 25 || n == 27 || n == 30 || n == 32 || n == 34 || n == 36
  }

  lemma NextNumber(n: nat)
    requires n < 37
    ensures Reds(n + 1) == Reds(n) + if IsRed(n) then 1 else 0
  {
  }

  lemma RedsBelow13()
    ensures Reds(13) == 6
  {
    assert Reds(0) == 0;
    hide Reds, Shows, SpinColor;
    NextNumber(0); NextNumber(1); NextNumber(2); NextNumber(3); NextNumber(4); NextNumber(5);
    NextNumber(6); NextNumber(7); NextNumber(8); NextNumber(9); NextNumber(10); NextNumber(11);
    NextNumber(12);
  }

  lemma RedsBelow25()
    ensures Reds(25) == 12
  {
    RedsBelow13();
    hide Reds, Shows, SpinColor;
    NextNumber(13); NextNumber(14); NextNumber(15); NextNumber(16); NextNumber(17); NextNumber(18);
    NextNumber(19); NextNumber(20); NextNumber(21); NextNumber(22); NextNumber(23); NextNumber(24);
  }

  lemma RedsBelow37()
    ensures Reds(37) == 18
  {
    RedsBelow25();
    hide Reds, Shows, SpinColor;
    NextNumber(25); NextNumber(26); NextNumber(27); NextNumber(28); NextNumber(29); NextNumber(30);
    NextNumber(31); NextNumber(32); NextNumber(33); NextNumber(34); NextNumber(35); NextNumber(36);
  }

  lemma CountGreen()
    ensures Count(37, Shows(Green)) == 1
  {
    CountOne(37, 0);
    CountSame(37, Shows(Green), (i: nat) => i == 0);
  }

  lemma {:induction false} OneColorEach(n: nat)
    requires n <= 37
    ensures Count(n, Shows(Red)) + Count(n, Shows(Black)) + Count(n, Shows(Green)) == n
  {
    if n > 0 {
      OneColorEach(n - 1);
    }
  }

  lemma ColorCounts()
    ensures Count(37, Shows(Red)) == 18 && Count(37, Shows(Black)) == 18 && Count(37, Shows(Green)) == 1
  {
    hide SpinColor;
    RedsBelow37();
    assert Reds(37) == Count(37, Shows(Red));
    CountGreen();
    OneColorEach(37);
  }

  function SpinCredit(s: Seeds, color: Color, bet: int): nat -> int {
    (d: nat) => if d < 37 then Credit(Fixed(d), s, Spin(color), bet) else 0
  }

  function SpinMult(color: Color): int {
    match color
    case Green => 36
    case _ => 2
  }

  /**
   * The wheel of 37 numbers, 18 of them red and 18 black: the colour called right pays 2 bets, or 36 on
   * the zero, so all numbers together pay 36 bets, whatever the colour.
   */
  lemma SpinPays(hash: Hash, s: Seeds, color: Color, bet: int)
    requires bet > 0
    ensures Credit(hash, s, Spin(color), bet) == if SpinColor(RollInt(hash, s, 36)) == color then SpinMult(color) * bet else 0
    ensures Count(37, Shows(color)) == if color == Green then 1 else 18
    ensures Total(37, SpinCredit(s, color, bet)) == 36 * bet
  {
    ColorCounts();
    hide RollInt, SpinColor, Count, Total;
    forall d: nat | d < 37
      ensures SpinCredit(s, color, bet)(d) == if Shows(color)(d) then SpinMult(color) * bet else 0
    {
      FixedRoll(d, s, 36);
    }
    TotalOfWins(37, Shows(color), SpinMult(color) * bet, SpinCredit(s, color, bet));
  }

  // ---------------------------------------------------------------- two dice

  /** A hash with one value on one message and another on all others. */
  function TwoValued(message: string, a: nat, b: nat): Hash
    requires a < MAX_U32 && b < MAX_U32
  {
    (m: string) => if m == message then a else b
  }

  function FirstMessage(s: Seeds): string {
    s.server + ":" + s.client + ":" + Dec(s.nonce)
  }

  lemma TwoRolls(s: Seeds, a: nat, b: nat)
    requires a < 6 && b < 6
    ensures var hash := TwoValued(FirstMessage(s), a, b);
            RollInt(hash, s, 5) == a && RollInt(hash, s.(client := s.client + ":b"), 5) == b
  {
    Radix.DivMod(a, 0, a, 6);
    Radix.DivMod(b, 0, b, 6);
    assert |FirstMessage(s.(client := s.client + ":b"))| == |FirstMessage(s)| + 2;
  }

  function HighMult(pick: HighPick): int {
    match pick
    case Seven => 5
    case _ => 2
  }

  predicate Called(pick: HighPick, total: int) {
    match pick
    case Low => total < 7
    case Seven => total == 7
    case High => total > 7
  }

  function HighCredit(s: Seeds, pick: HighPick, bet: int, a: nat): nat -> int {
    (b: nat) => if a < 6 && b < 6 then Credit(TwoValued(FirstMessage(s), a, b), s, HouseGames.HighCate(pick), bet) else 0
  }

  lemma HighCreditIs(s: Seeds, pick: HighPick, bet: int, a: nat, b: nat)
    requires bet > 0 && a < 6 && b < 6
    ensures HighCredit(s, pick, bet, a)(b) == if Called(pick, a + b + 2) then HighMult(pick) * bet else 0
  {
    TwoRolls(s, a, b);
    hide RollInt, TwoValued, FirstMessage;
  }

  function Sixth(f: nat -> int): int { f(0) + f(1) + f(2) + f(3) + f(4) + f(5) }

  lemma TotalOfSix(f: nat -> int)
    ensures Total(6, f) == Sixth(f)
  {
    assert Total(6, f) == Total(5, f) + f(5);
    assert Total(4, f) == Total(3, f) + f(3);
    assert Total(2, f) == Total(1, f) + f(1);
  }

  function Ways(pick: HighPick, a: nat): int
    requires a < 6
  {
    match pick
    case Low => 5 - a
    case Seven => 1
    case High => a
  }

  lemma SecondDie(s: Seeds, pick: HighPick, bet: int, a: nat)
    requires bet > 0 && a < 6
    ensures Total(6, HighCredit(s, pick, bet, a)) == Ways(pick, a) * (HighMult(pick) * bet)
  {
    hide HighCredit;
    TotalOfSix(HighCredit(s, pick, bet, a));
    HighCreditIs(s, pick, bet, a, 0);
    HighCreditIs(s, pick, bet, a, 1);
    HighCreditIs(s, pick, bet, a, 2);
    HighCreditIs(s, pick, bet, a, 3);
    HighCreditIs(s, pick, bet, a, 4);
    HighCreditIs(s, pick, bet, a, 5);
  }

  function FirstDie(s: Seeds, pick: HighPick, bet: int): nat -> int {
    (a: nat) => Total(6, HighCredit(s, pick, bet, a))
  }

  lemma DieIs(s: Seeds, pick: HighPick, bet: int, a: nat)
    ensures FirstDie(s, pick, bet)(a) == Total(6, HighCredit(s, pick, bet, a))
  {
    hide Total, HighCredit;
  }

  lemma AllThrows(s: Seeds, pick: HighPick, bet: int)
    requires bet > 0
    ensures Total(6, FirstDie(s, pick, bet)) == 30 * bet
  {
    TotalOfSix(FirstDie(s, pick, bet));
    var w := HighMult(pick) * bet;
    forall a: nat | a < 6
      ensures FirstDie(s, pick, bet)(a) == Ways(pick, a) * w
    {
      hide *;
      SecondDie(s, pick, bet, a);
      assert FirstDie(s, pick, bet)(a) == Total(6, HighCredit(s, pick, bet, a)) by { DieIs(s, pick, bet, a); }
    }
    hide FirstDie, Total, HighCredit;
    assert Ways(pick, 0) + Ways(pick, 1) + Ways(pick, 2) + Ways(pick, 3) + Ways(pick, 4) + Ways(pick, 5)
        == if pick == Seven then 6 else 15;
  }

  lemma ThrowPays(hash: Hash, s: Seeds, pick: HighPick, bet: int)
    requires bet > 0
    ensures var total := RollInt(hash, s, 5) + RollInt(hash, s.(client := s.client + ":b"), 5) + 2;
            Credit(hash, s, HouseGames.HighCate(pick), bet) == if Called(pick, total) then HighMult(pick) * bet else 0
  {
    RollBelow(hash, s, 5);
    RollBelow(hash, s.(client := s.client + ":b"), 5);
    hide RollInt, Total;
  }

  /**
   * Two dice: a total called right pays 2 bets, or 5 on the seven, so the 36 throws together pay 30
   * bets, whatever the call.
   */
  lemma HighCatePays(hash: Hash, s: Seeds, pick: HighPick, bet: int)
    requires bet > 0
    ensures var total := RollInt(hash, s, 5) + RollInt(hash, s.(client := s.client + ":b"), 5) + 2;
            Credit(hash, s, HouseGames.HighCate(pick), bet) == if Called(pick, total) then HighMult(pick) * bet else 0
    ensures Total(6, FirstDie(s, pick, bet)) == 30 * bet
  {
    hide *;
    ThrowPays(hash, s, pick, bet);
    AllThrows(s, pick, bet);
  }

  // ---------------------------------------------------------------- the reels

  function ReelMessage(s: Seeds, reel: nat): string {
    s.server + ":" + (s.client + ":reel:" + Dec(reel)) + ":" + Dec(s.nonce)
  }

  /** A hash with a value of its own for each of the three reels. */
  function ReelValued(s: Seeds, a: nat, b: nat, c: nat): Hash
    requires a < MAX_U32 && b < MAX_U32 && c < MAX_U32
  {
    (m: string) => if m == ReelMessage(s, 0) then a else if m == ReelMessage(s, 1) then b else c
  }

  lemma ReelMessagesDiffer(s: Seeds, i: nat, j: nat)
    requires ReelMessage(s, i) == ReelMessage(s, j)
    ensures i == j
  {
    hide Dec;
    var pre, post := s.server + ":" + s.client + ":reel:", ":" + Dec(s.nonce);
    assert ReelMessage(s, i) == pre + (Dec(i) + post) && ReelMessage(s, j) == pre + (Dec(j) + post);
    PrefixCancels(pre, Dec(i) + post, Dec(j) + post);
    assert Dec(i) + post == Dec(i) + [':'] + Dec(s.nonce) && Dec(j) + post == Dec(j) + [':'] + Dec(s.nonce);
    assert ':' !in Dec(i) && ':' !in Dec(j);
    SplitAtFirst(Dec(i), Dec(s.nonce), Dec(j), Dec(s.nonce), ':');
    DecInjective(i, j);
  }

  lemma ReelsShow(s: Seeds, a: nat, b: nat, c: nat)
    requires a < 13 && b < 13 && c < 13
    ensures var hash := ReelValued(s, a, b, c);
            && SpinReel(hash, s, 0) == REEL_STRIP[a] && SpinReel(hash, s, 1) == REEL_STRIP[b] && SpinReel(hash, s, 2) == REEL_STRIP[c]
  {
    hide Dec;
    Radix.DivMod(a, 0, a, 13);
    Radix.DivMod(b, 0, b, 13);
    Radix.DivMod(c, 0, c, 13);
    if ReelMessage(s, 0) == ReelMessage(s, 1) {
      ReelMessagesDiffer(s, 0, 1);
    }
    if ReelMessage(s, 0) == ReelMessage(s, 2) {
      ReelMessagesDiffer(s, 0, 2);
    }
    if ReelMessage(s, 1) == ReelMessage(s, 2) {
      ReelMessagesDiffer(s, 1, 2);
    }
  }

  /** How often the symbol is on a reel of 13. */
  function OnReel(x: Symbol): int {
    match x
    case RUG => 3
    case PAW => 3
    case MOON => 2
    case GOLD => 2
    case CAT => 2
    case CATE => 1
  }

  /** What three of the symbol pay, in bets. */
  function Triple(x: Symbol): int {
    match x
    case RUG => 0
    case PAW => 3
    case MOON => 5
    case GOLD => 8
    case CAT => 12
    case CATE => 25
  }

  /** A left pair of the symbol pays half a bet more than the bet, rounded down. */
  predicate PairPays(x: Symbol) { x == GOLD || x == CAT || x == CATE }

  function Reels(a: Symbol, b: Symbol, c: Symbol, bet: int): int {
    if a != b then 0
    else if b == c then Triple(a) * bet
    else if PairPays(a) then (3 * bet) / 2 else 0
  }

  function ReelCredit(s: Seeds, bet: int, a: nat, b: nat): nat -> int {
    (c: nat) => if a < 13 && b < 13 && c < 13 then Credit(ReelValued(s, a, b, c), s, Slots, bet) else 0
  }

  lemma ReelsPay(hash: Hash, s: Seeds, bet: int)
    requires bet > 0
    ensures Credit(hash, s, Slots, bet) == Reels(SpinReel(hash, s, 0), SpinReel(hash, s, 1), SpinReel(hash, s, 2), bet)
  {
    hide SpinReel;
  }

  /** A total over the reel by symbol. */
  lemma TotalByReel(f: nat -> int, g: Symbol -> int)
    requires forall i: nat :: i < 13 ==> f(i) == g(REEL_STRIP[i])
    ensures Total(13, f) == 3 * g(RUG) + 3 * g(PAW) + 2 * g(MOON) + 2 * g(GOLD) + 2 * g(CAT) + g(CATE)
  {
    assert Total(3, f) == f(0) + f(1) + f(2) by {
      assert Total(1, f) == Total(0, f) + f(0);
    }
    assert Total(6, f) == Total(3, f) + f(3) + f(4) + f(5) by {
      assert Total(5, f) == Total(4, f) + f(4);
    }
    assert Total(10, f) == Total(6, f) + f(6) + f(7) + f(8) + f(9) by {
      assert Total(8, f) == Total(7, f) + f(7);
      assert Total(9, f) == Total(8, f) + f(8);
    }
    assert Total(13, f) == Total(10, f) + f(10) + f(11) + f(12) by {
      assert Total(12, f) == Total(11, f) + f(11);
    }
    hide Total;
  }

  /** What a left pair of `a` and `b` pays over all thirteen stops of the last reel. */
  function PairTotal(a: Symbol, b: Symbol, bet: int): int {
    if a != b then 0 else OnReel(a) * (Triple(a) * bet) + (13 - OnReel(a)) * (if PairPays(a) then (3 * bet) / 2 else 0)
  }

  function LastSymbol(x: Symbol, y: Symbol, bet: int): Symbol -> int {
    (z: Symbol) => Reels(x, y, z, bet)
  }

  lemma StopPays(s: Seeds, bet: int, a: nat, b: nat, c: nat)
    requires bet > 0 && a < 13 && b < 13 && c < 13
    ensures ReelCredit(s, bet, a, b)(c) == LastSymbol(REEL_STRIP[a], REEL_STRIP[b], bet)(REEL_STRIP[c])
  {
    hide ReelValued, SpinReel, Reels, Credit;
    ReelsShow(s, a, b, c);
    ReelsPay(ReelValued(s, a, b, c), s, bet);
  }

  lemma PairTotalIs(x: Symbol, y: Symbol, bet: int)
    ensures var g := LastSymbol(x, y, bet);
            3 * g(RUG) + 3 * g(PAW) + 2 * g(MOON) + 2 * g(GOLD) + 2 * g(CAT) + g(CATE) == PairTotal(x, y, bet)
  {
    var w, pair := Triple(x) * bet, if PairPays(x) then (3 * bet) / 2 else 0;
    assert forall z :: LastSymbol(x, y, bet)(z) == if x != y then 0 else if y == z then w else pair;
    hide Triple, PairPays, Reels, LastSymbol;
  }

  lemma LastReel(s: Seeds, bet: int, a: nat, b: nat)
    requires bet > 0 && a < 13 && b < 13
    ensures Total(13, ReelCredit(s, bet, a, b)) == PairTotal(REEL_STRIP[a], REEL_STRIP[b], bet)
  {
    hide ReelCredit, LastSymbol, Total, PairTotal;
    forall c: nat | c < 13
      ensures ReelCredit(s, bet, a, b)(c) == LastSymbol(REEL_STRIP[a], REEL_STRIP[b], bet)(REEL_STRIP[c])
    {
      StopPays(s, bet, a, b, c);
    }
    TotalByReel(ReelCredit(s, bet, a, b), LastSymbol(REEL_STRIP[a], REEL_STRIP[b], bet));
    PairTotalIs(REEL_STRIP[a], REEL_STRIP[b], bet);
  }

  function TwoReels(s: Seeds, bet: int, a: nat): nat -> int {
    (b: nat) => Total(13, ReelCredit(s, bet, a, b))
  }

  function SecondSymbol(x: Symbol, bet: int): Symbol -> int {
    (y: Symbol) => PairTotal(x, y, bet)
  }

  lemma SecondReel(s: Seeds, bet: int, a: nat, b: nat)
    requires bet > 0 && a < 13 && b < 13
    ensures TwoReels(s, bet, a)(b) == SecondSymbol(REEL_STRIP[a], bet)(REEL_STRIP[b])
  {
    hide Total, ReelCredit, PairTotal;
    LastReel(s, bet, a, b);
  }

  lemma SecondTotalIs(x: Symbol, bet: int)
    ensures var g := SecondSymbol(x, bet);
            3 * g(RUG) + 3 * g(PAW) + 2 * g(MOON) + 2 * g(GOLD) + 2 * g(CAT) + g(CATE) == OnReel(x) * PairTotal(x, x, bet)
  {
    assert forall y :: SecondSymbol(x, bet)(y) == if x == y then PairTotal(x, x, bet) else 0;
    hide PairTotal, SecondSymbol;
  }

  lemma LastTwoReels(s: Seeds, bet: int, a: nat)
    requires bet > 0 && a < 13
    ensures Total(13, TwoReels(s, bet, a)) == OnReel(REEL_STRIP[a]) * PairTotal(REEL_STRIP[a], REEL_STRIP[a], bet)
  {
    hide TwoReels, SecondSymbol, Total, PairTotal, OnReel;
    forall b: nat | b < 13
      ensures TwoReels(s, bet, a)(b) == SecondSymbol(REEL_STRIP[a], bet)(REEL_STRIP[b])
    {
      SecondReel(s, bet, a, b);
    }
    TotalByReel(TwoReels(s, bet, a), SecondSymbol(REEL_STRIP[a], bet));
    SecondTotalIs(REEL_STRIP[a], bet);
  }

  function ThreeReels(s: Seeds, bet: int): nat -> int {
    (a: nat) => Total(13, TwoReels(s, bet, a))
  }

  function FromFirst(bet: int): Symbol -> int {
    (x: Symbol) => OnReel(x) * PairTotal(x, x, bet)
  }

  lemma FirstReel(s: Seeds, bet: int, a: nat)
    requires bet > 0 && a < 13
    ensures ThreeReels(s, bet)(a) == FromFirst(bet)(REEL_STRIP[a])
  {
    hide Total, TwoReels, PairTotal, OnReel;
    LastTwoReels(s, bet, a);
  }

  lemma EachFirst(bet: int)
    ensures var g, pair := FromFirst(bet), (3 * bet) / 2;
            && g(RUG) == 0 && g(PAW) == 27 * bet && g(MOON) == 20 * bet
            && g(GOLD) == 32 * bet + 22 * pair && g(CAT) == 48 * bet + 22 * pair && g(CATE) == 25 * bet + 12 * pair
  {
  }

  lemma AllStops(s: Seeds, bet: int)
    requires bet > 0
    ensures Total(13, ThreeReels(s, bet)) == 306 * bet + 100 * ((3 * bet) / 2)
  {
    EachFirst(bet);
    hide ThreeReels, FromFirst, Total;
    forall a: nat | a < 13
      ensures ThreeReels(s, bet)(a) == FromFirst(bet)(REEL_STRIP[a])
    {
      FirstReel(s, bet, a);
    }
    TotalByReel(ThreeReels(s, bet), FromFirst(bet));
  }

  /**
   * The reels: three of a kind pay their multiple, a left pair of the three best symbols one and a half
   * bets rounded down, and nothing else pays; the 2197 stops together pay 306 bets and 100 such pairs.
   */
  lemma SlotsPay(hash: Hash, s: Seeds, bet: int)
    requires bet > 0
    ensures Credit(hash, s, Slots, bet) == Reels(SpinReel(hash, s, 0), SpinReel(hash, s, 1), SpinReel(hash, s, 2), bet)
    ensures Total(13, ThreeReels(s, bet)) == 306 * bet + 100 * ((3 * bet) / 2)
  {
    ReelsPay(hash, s, bet);
    AllStops(s, bet);
  }

  // ---------------------------------------------------------------- poker ranks

  /** The rank's place from the worst up. */
  function RankPlace(r: PokerRank): nat {
    match r
    case HighCard => 0
    case JacksOrBetter => 1
    case TwoPair => 2
    case ThreeKind => 3
    case Straight => 4
    case Flush => 5
    case FullHouse => 6
    case FourKind => 7
    case StraightFlush => 8
    case RoyalFlush => 9
  }

  /**
   * Both pay tables: nothing on a high card, twice the bet on the lowest pair and on two pair, and from
   * there every better rank pays more, up to 250 and 100 bets.
   */
  lemma BetterRanksPayMore(a: PokerRank, b: PokerRank)
    ensures 2 <= RankPlace(a) < RankPlace(b) ==> JobMult(a) < JobMult(b) && StudMult(a) < StudMult(b)
    ensures RankPlace(a) in {1, 2} ==> JobMult(a) == StudMult(a) == 2
    ensures RankPlace(a) == 0 <==> JobMult(a) == 0
    ensures RankPlace(a) == 0 <==> StudMult(a) == 0
    ensures JobMult(a) <= 250 == JobMult(RoyalFlush) && StudMult(a) <= 100 == StudMult(RoyalFlush)
  {
  }

  /** A multiple pays just that many bets, and nothing when it is not positive; the house gets the rest. */
  lemma MultiplePays(bet: int, mult: int)
    requires bet > 0
    ensures var s := MultToSettlement(bet, mult);
            && s.bet == bet && s.credit == (if mult > 0 then mult else 0) * bet && s.houseDelta == bet - s.credit
            && (s.outcome == PlayerLose <==> s.credit == 0) && (s.outcome == Push <==> s.credit == bet)
            && (s.outcome == PlayerWin <==> s.credit > bet)
  {
    if mult > 1 {
      Radix.MulMonotone(2, mult, bet);
    }
  }

  /** CatePoker pays its rank's multiple. */
  lemma PokerPays(hash: Hash, s: Seeds, rank: PokerRank, bet: int)
    requires bet > 0
    ensures Credit(hash, s, Poker(rank), bet) == StudMult(rank) * bet
  {
    MultiplePays(bet, StudMult(rank));
  }
}
