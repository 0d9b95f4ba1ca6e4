/**
 * The demo table keeps every live bet locked, so a live hand can always be settled; and the money on
 * it is always the 100 USDC it was seeded with.
 */
module DemoLaws {
  import opened Money
  import opened Text
  import opened DemoTable
  import L = Ledger
  import LL = LedgerLaws
  import B = Blackjack
  import BL = BlackjackLaws
  import Cards
  import S = Sampler
  import H = HouseGames
  import HP = HousePays

  // ---------------------------------------------------------------- keys

  /** A key ends in the nonce it was made for, so keys of different nonces or kinds differ. */
  lemma KeyInjective(p: string, m: nat, q: string, n: nat)
    requires Key(p, m) == Key(q, n)
    ensures p == q && m == n
  {
    hide Dec;
    assert '-' !in Dec(m) && '-' !in Dec(n);
    SplitAtLast(p, Dec(m), q, Dec(n), '-');
    DecInjective(m, n);
  }

  lemma SeedKeyIsNoKey(p: string, n: nat)
    ensures Key(p, n) != SEED_KEY
  {
    hide Dec;
    var d := Dec(n);
    assert Key(p, n)[|p| + 1 + |d| - 1] == d[|d| - 1];
    assert SEED_KEY[8] == 'd';
  }

  lemma HandKeys(n: nat)
    ensures DoubleKey(HandId(n)) == Key("double-hand", n)
    ensures SettleKey(HandId(n)) == Key("settle-hand", n)
  {
    hide Dec;
    assert "double-" + ("hand" + "-" + Dec(n)) == "double-hand" + "-" + Dec(n);
    assert "settle-" + ("hand" + "-" + Dec(n)) == "settle-hand" + "-" + Dec(n);
  }

  ghost predicate MadeBefore(k: string, nonce: nat) {
    exists p, n: nat :: n < nonce && k == Key(p, n)
  }

  /** Every key on the ledger is the seed's or was made for a nonce already used. */
  ghost predicate KeysOld(keys: set<string>, nonce: nat) {
    forall k | k in keys :: k == SEED_KEY || MadeBefore(k, nonce)
  }

  lemma KeyIsFresh(keys: set<string>, nonce: nat, p: string, n: nat)
    requires KeysOld(keys, nonce) && n >= nonce
    ensures Key(p, n) !in keys
  {
    hide Key;
    SeedKeyIsNoKey(p, n);
    if Key(p, n) in keys {
      var q, m: nat :| m < nonce && Key(p, n) == Key(q, m);
      KeyInjective(p, n, q, m);
      assert false;
    }
  }

  // ---------------------------------------------------------------- locking and paying

  function RowOf(b: L.Books): L.Row { L.RowOf(b, USER) }

  lemma LockIs(b: L.Books, amount: int, key: string)
    requires key != "" && key !in b.appliedKeys
    ensures var (b', ok) := Lock(b, amount, key);
            && (ok <==> IsSafeAmount(amount) && RowOf(b).available >= amount)
            && b'.appliedKeys == (if ok then b.appliedKeys + {key} else b.appliedKeys)
            && RowOf(b') == if ok then RowOf(b).(available := RowOf(b).available - amount,
                                                 lockedHand := RowOf(b).lockedHand + amount)
                            else RowOf(b)
  {
    assert L.IsValidUserId(USER);
  }

  lemma PayIs(b: L.Books, s: Settlement, key: string)
    requires key != "" && key !in b.appliedKeys && IsValidSettlement(s)
    ensures var (b', ok) := Pay(b, s, key);
            && (ok <==> RowOf(b).lockedHand >= s.bet)
            && b'.appliedKeys == (if ok then b.appliedKeys + {key} else b.appliedKeys)
            && RowOf(b') == if ok then RowOf(b).(available := RowOf(b).available + s.credit,
                                                 lockedHand := RowOf(b).lockedHand - s.bet)
                            else RowOf(b)
  {
    assert L.IsValidUserId(USER);
  }

  /** Whatever comes of it, locking or paying moves no money on or off the table. */
  lemma LockConserves(b: L.Books, amount: int, key: string)
    ensures LL.Holdings(Lock(b, amount, key).0) == LL.Holdings(b)
  {
    hide LL.Holdings, L.TakesEffect;
    LL.StepConserves(b, L.Move(L.LockBet(amount), USER, Some(key)));
  }

  lemma PayConserves(b: L.Books, s: Settlement, key: string)
    ensures LL.Holdings(Pay(b, s, key).0) == LL.Holdings(b)
  {
    hide LL.Holdings, L.TakesEffect;
    LL.StepConserves(b, L.Move(L.SettleHand(s), USER, Some(key)));
  }

  // ---------------------------------------------------------------- the invariant

  /** A bet and its double both pass the ledger's amount check. */
  predicate Playable(bet: int) { 0 < bet && IsSafeAmount(2 * bet) }

  function HandBet(t: Table): int { if HandLive(t) then t.seat.value.hand.bet else 0 }

  function VideoBet(t: Table): int { if VideoLive(t) then t.video.value.bet else 0 }

  /** What is behind the hand lock. */
  function Locked(t: Table): int { RowOf(t.books).lockedHand }

  /** What is free to bet. */
  function Free(t: Table): int { RowOf(t.books).available }

  /** The live bets are behind the hand lock. */
  predicate Covered(t: Table) {
    Locked(t) >= HandBet(t) + VideoBet(t)
  }

  function LockKey(t: Table): string { Key("lock", t.nonce) }

  /** A deal has locked its bet under the nonce that the next deal will use, and has failed. */
  predicate LockSpent(t: Table) {
    LockKey(t) in t.books.appliedKeys
  }

  /** A double of the live hand has locked its bet, and has failed. */
  predicate DoubleSpent(t: Table) {
    HandLive(t) && DoubleKey(t.seat.value.hand.handId) in t.books.appliedKeys
  }

  /** Every key but the next deal's lock belongs to a nonce that is over. */
  ghost predicate KeysUsed(t: Table) {
    KeysOld(t.books.appliedKeys - {LockKey(t)}, t.nonce)
  }

  ghost predicate HandFits(t: Table) {
    HandLive(t) ==>
      var Seat(hand, hmac) := t.seat.value;
      && BL.HandOk(hmac, hand, hand.bet) && hand.phase == B.PlayerTurn && Playable(hand.bet)
      && hand.nonce < t.nonce && hand.handId == HandId(hand.nonce) && |hand.before| >= 38
      && SettleKey(hand.handId) !in t.books.appliedKeys
  }

  ghost predicate VideoFits(t: Table) {
    VideoLive(t) ==>
      var v := t.video.value;
      Playable(v.bet) && v.nonce < t.nonce && Key("settle-videocate", v.nonce) !in t.books.appliedKeys
  }

  /** What holds in every run, covered or not. */
  ghost predicate Sound(t: Table) {
    KeysUsed(t) && HandFits(t) && VideoFits(t) && Locked(t) >= 0 && (LockSpent(t) ==> !HandLive(t))
  }

  /** What holds as long as every bet has been covered. */
  ghost predicate Safe(t: Table) {
    Sound(t) && Covered(t) && !DoubleSpent(t)
  }

  /** A key that is not the next deal's lock, for the current nonce or a later one, is unused. */
  lemma KeyIsUnused(t: Table, p: string, n: nat)
    requires KeysUsed(t) && n >= t.nonce && (p != "lock" || n > t.nonce)
    ensures Key(p, n) !in t.books.appliedKeys
  {
    hide Key, KeysOld;
    KeyIsFresh(t.books.appliedKeys - {LockKey(t)}, t.nonce, p, n);
    if Key(p, n) == LockKey(t) {
      KeyInjective(p, n, "lock", t.nonce);
    }
  }

  /** One more key of a nonce that is over by then. */
  lemma KeysGrow(t: Table, p: string, n: nat, nonce: nat)
    requires KeysUsed(t) && t.nonce <= nonce && n < nonce
    ensures var lock, keys := Key("lock", nonce), t.books.appliedKeys + {Key(p, n)};
            && KeysOld(keys - {lock}, nonce) && KeysOld(t.books.appliedKeys - {lock}, nonce)
            && (lock in keys <==> nonce == t.nonce && LockSpent(t))
  {
    hide Key;
    if nonce > t.nonce {
      KeyIsUnused(t, "lock", nonce);
      assert MadeBefore(LockKey(t), nonce);
    }
    assert MadeBefore(Key(p, n), nonce);
    forall k | k in t.books.appliedKeys && k != LockKey(t)
      ensures k == SEED_KEY || MadeBefore(k, nonce)
    {
      assert k in t.books.appliedKeys - {LockKey(t)};
    }
    if Key(p, n) == Key("lock", nonce) {
      KeyInjective(p, n, "lock", nonce);
    }
  }

  /** Keys that settle neither of the live hands. */
  ghost predicate OtherKeys(t: Table, keys: set<string>) {
    && (HandLive(t) ==> SettleKey(t.seat.value.hand.handId) !in keys)
    && (VideoLive(t) ==> Key("settle-videocate", t.video.value.nonce) !in keys)
  }

  /** A key made for the current nonce or a later one is no live hand's. */
  lemma NewKeyIsOther(t: Table, p: string, n: nat)
    requires HandFits(t) && VideoFits(t) && n >= t.nonce
    ensures OtherKeys(t, {Key(p, n)})
    ensures HandLive(t) ==> DoubleKey(t.seat.value.hand.handId) != Key(p, n)
  {
    hide Key, HandId, DoubleKey, SettleKey, BL.HandOk;
    if HandLive(t) {
      var m := t.seat.value.hand.nonce;
      HandKeys(m);
      if Key(p, n) == Key("double-hand", m) {
        KeyInjective(p, n, "double-hand", m);
      }
      if Key(p, n) == Key("settle-hand", m) {
        KeyInjective(p, n, "settle-hand", m);
      }
    }
    if VideoLive(t) {
      var m := t.video.value.nonce;
      if Key(p, n) == Key("settle-videocate", m) {
        KeyInjective(p, n, "settle-videocate", m);
      }
    }
  }

  /** The ledger changed, the hands did not. */
  lemma BooksChange(t: Table, books: L.Books, nonce: nat, keys: set<string>)
    requires Sound(t) && nonce >= t.nonce
    requires books.appliedKeys == t.books.appliedKeys + keys && OtherKeys(t, keys)
    requires KeysOld(books.appliedKeys - {Key("lock", nonce)}, nonce)
    requires Key("lock", nonce) in books.appliedKeys ==> !HandLive(t)
    requires RowOf(books).lockedHand >= 0
    ensures Sound(t.(books := books, nonce := nonce))
  {
    hide KeysOld, BL.HandOk, DoubleKey, SettleKey, Key, HandId;
  }

  // ---------------------------------------------------------------- settling a hand

  /** A hand ready to be put on the table: its keys are unused. Its bet may or may not be locked. */
  ghost predicate Seatable(t: Table, hand: B.Hand, hmac: S.Hmac, bet: int) {
    && Sound(t) && !LockSpent(t)
    && BL.HandOk(hmac, hand, bet) && Playable(bet)
    && hand.nonce < t.nonce && hand.handId == HandId(hand.nonce) && |hand.before| >= 38
    && SettleKey(hand.handId) !in t.books.appliedKeys
  }

  /** What a hand that is over pays: the settlement of its outcome. */
  function CreditOf(hand: B.Hand): int {
    if hand.phase == B.Settled && hand.bet > 0 then
      B.SettlementFromOutcome(B.ResolveOutcome(hand.player, hand.dealer, false), hand.bet).value.credit
    else 0
  }

  /** A reachable hand that is over carries a settlement of its own bet that the ledger accepts. */
  lemma SettledHandPays(hmac: S.Hmac, hand: B.Hand, bet: int)
    requires BL.HandOk(hmac, hand, bet) && Playable(bet)
    ensures hand.phase != B.DealerTurn && IsSafeAmount(hand.bet)
    ensures hand.phase == B.PlayerTurn ==> !hand.doubled && hand.bet == bet
    ensures hand.phase == B.Settled ==>
              && hand.settlement.Some? && hand.settlement.value.bet == hand.bet && IsValidSettlement(hand.settlement.value)
              && hand.settlement.value.credit == CreditOf(hand)
  {
    hide BL.FollowsOrder, BL.DrewToSeventeen, Cards.HandTotal, B.ResolveOutcome;
  }

  lemma KindsDiffer(m: nat, n: nat)
    ensures SettleKey(HandId(m)) != Key("settle-videocate", n)
    ensures DoubleKey(HandId(m)) != Key("settle-videocate", n)
    ensures DoubleKey(HandId(m)) != SettleKey(HandId(m))
  {
    hide Key, HandId, DoubleKey, SettleKey;
    HandKeys(m);
    if Key("settle-hand", m) == Key("settle-videocate", n) {
      KeyInjective("settle-hand", m, "settle-videocate", n);
    }
    if Key("double-hand", m) == Key("settle-videocate", n) {
      KeyInjective("double-hand", m, "settle-videocate", n);
    }
    if Key("double-hand", m) == Key("settle-hand", m) {
      KeyInjective("double-hand", m, "settle-hand", m);
    }
  }

  /** What becomes of a hand that is put on the table: it is refused only if it is over and its stake is not there. */
  ghost predicate Seated(t: Table, hand: B.Hand, hmac: S.Hmac, t': Table, reply: Reply) {
    && Sound(t') && t'.nonce == t.nonce && t'.video == t.video && !LockSpent(t')
    && if hand.phase == B.Settled && Locked(t) < hand.bet then
         && reply == Refused(SettleRefused) && t'.seat == t.seat && t'.books.appliedKeys == t.books.appliedKeys
         && Locked(t') == Locked(t) && Free(t') == Free(t)
       else
         && reply == Played && t'.seat == Some(Seat(hand, hmac))
         && if hand.phase == B.Settled then Locked(t') == Locked(t) - hand.bet && Free(t') == Free(t) + CreditOf(hand)
            else t'.books == t.books
  }

  lemma FinishPays(t: Table, hand: B.Hand, hmac: S.Hmac, bet: int)
    requires Seatable(t, hand, hmac, bet) && hand.phase == B.Settled
    ensures Seated(t, hand, hmac, Finish(t, hand, hmac).0, Finish(t, hand, hmac).1)
  {
    SettledHandPays(hmac, hand, bet);
    HandKeys(hand.nonce);
    hide KeysOld, BL.HandOk, Key, HandId, SettleKey, DoubleKey, Pay;
    var key := SettleKey(hand.handId);
    PayIs(t.books, hand.settlement.value, key);
    KeysGrow(t, "settle-hand", hand.nonce, t.nonce);
    if Locked(t) < hand.bet {
      BooksChange(t, Pay(t.books, hand.settlement.value, key).0, t.nonce, {});
    } else if VideoLive(t) {
      KindsDiffer(hand.nonce, t.video.value.nonce);
    }
  }

  lemma FinishSeats(t: Table, hand: B.Hand, hmac: S.Hmac, bet: int)
    requires Seatable(t, hand, hmac, bet)
    ensures Seated(t, hand, hmac, Finish(t, hand, hmac).0, Finish(t, hand, hmac).1)
  {
    hide KeysOld, BL.HandOk, Key, HandId, SettleKey, DoubleKey, Pay;
    SettledHandPays(hmac, hand, bet);
    if hand.phase == B.Settled {
      FinishPays(t, hand, hmac, bet);
    }
  }

  // ---------------------------------------------------------------- acting on a hand

  lemma BetAfter(hmac: S.Hmac, next: B.Hand, bet: int)
    requires BL.HandOk(hmac, next, bet)
    ensures bet > 0 && next.bet == if next.doubled then 2 * bet else bet
  {
  }

  lemma LiveHandIs(t: Table)
    requires Sound(t) && HandLive(t)
    ensures var Seat(hand, hmac) := t.seat.value;
            && BL.HandOk(hmac, hand, hand.bet) && hand.phase == B.PlayerTurn && !hand.doubled
            && |hand.before| >= 38
  {
    var Seat(hand, hmac) := t.seat.value;
    SettledHandPays(hmac, hand, hand.bet);
    hide BL.HandOk;
  }

  lemma KeyNotEmpty(p: string, n: nat)
    ensures Key(p, n) != ""
  {
  }

  /** The stake behind the lock once the action's own lock has gone through. */
  function StakeFor(t: Table, next: B.Hand): int
    requires HandLive(t)
  {
    Locked(t) + if next.doubled && !DoubleSpent(t) then t.seat.value.hand.bet else 0
  }

  /** The double asks for more than is available. */
  predicate CannotDouble(t: Table, next: B.Hand)
    requires HandLive(t)
  {
    next.doubled && !DoubleSpent(t) && RowOf(t.books).available < t.seat.value.hand.bet
  }

  /** What a request to act on a live hand is answered with. */
  function ActionReply(t: Table, action: B.Action): Reply
    requires HandLive(t)
  {
    match B.ApplyAction(t.seat.value.hmac, t.seat.value.hand, action)
    case Err(e) => Refused(EngineFailed(e))
    case Ok(next) =>
      if CannotDouble(t, next) then Refused(LockRefused)
      else if next.phase == B.Settled && StakeFor(t, next) < next.bet then Refused(SettleRefused)
      else Played
  }

  lemma LockAgain(b: L.Books, amount: int, key: string)
    requires key != "" && key in b.appliedKeys && IsSafeAmount(amount)
    ensures Lock(b, amount, key).1 && RowOf(Lock(b, amount, key).0) == RowOf(b)
    ensures Lock(b, amount, key).0.appliedKeys == b.appliedKeys
  {
    assert L.IsValidUserId(USER);
  }

  /** The books after the live hand's double tried its lock. */
  ghost predicate DoubleTried(t: Table, next: B.Hand, b: L.Books, locked: bool)
    requires HandLive(t)
  {
    && (locked <==> !CannotDouble(t, next))
    && RowOf(b).lockedHand == (if locked then StakeFor(t, next) else Locked(t))
    && RowOf(b).available == Free(t) - (if locked then StakeFor(t, next) - Locked(t) else 0)
    && b.appliedKeys == t.books.appliedKeys + if locked then {DoubleKey(next.handId)} else {}
  }

  lemma DoubleKeyIs(t: Table)
    requires Sound(t) && HandLive(t)
    ensures DoubleKey(t.seat.value.hand.handId) != "" && IsSafeAmount(t.seat.value.hand.bet)
  {
    hide Key, HandId, KeysUsed, VideoFits, BL.HandOk;
    HandKeys(t.seat.value.hand.nonce);
    KeyNotEmpty("double-hand", t.seat.value.hand.nonce);
  }

  lemma FirstDoubleLocks(t: Table, next: B.Hand, key: string)
    requires HandLive(t) && next.doubled && next.handId == t.seat.value.hand.handId && IsSafeAmount(t.seat.value.hand.bet)
    requires key == DoubleKey(next.handId) && key != "" && key !in t.books.appliedKeys
    ensures var (b, locked) := Lock(t.books, t.seat.value.hand.bet, key); DoubleTried(t, next, b, locked)
  {
    hide DoubleKey, Lock;
    LockIs(t.books, t.seat.value.hand.bet, key);
  }

  lemma SecondDoubleLocks(t: Table, next: B.Hand, key: string)
    requires HandLive(t) && next.doubled && next.handId == t.seat.value.hand.handId && IsSafeAmount(t.seat.value.hand.bet)
    requires key == DoubleKey(next.handId) && key != "" && key in t.books.appliedKeys
    ensures var (b, locked) := Lock(t.books, t.seat.value.hand.bet, key); DoubleTried(t, next, b, locked)
  {
    hide DoubleKey, Lock;
    LockAgain(t.books, t.seat.value.hand.bet, key);
  }

  lemma DoubleLocks(t: Table, next: B.Hand)
    requires Sound(t) && HandLive(t) && next.doubled && next.handId == t.seat.value.hand.handId
    ensures var (b, locked) := Lock(t.books, t.seat.value.hand.bet, DoubleKey(next.handId)); DoubleTried(t, next, b, locked)
  {
    DoubleKeyIs(t);
    var key := DoubleKey(next.handId);
    hide *;
    if key in t.books.appliedKeys {
      SecondDoubleLocks(t, next, key);
    } else {
      FirstDoubleLocks(t, next, key);
    }
  }

  /** The live hand's double locks its bet unless that is done or the balance is short. */
  lemma DoubleKeeps(t: Table, next: B.Hand, b: L.Books, locked: bool)
    requires Sound(t) && HandLive(t) && next.doubled && next.handId == t.seat.value.hand.handId
    requires DoubleTried(t, next, b, locked)
    ensures Sound(t.(books := b)) && !LockSpent(t.(books := b))
    ensures SettleKey(next.handId) !in b.appliedKeys
    ensures locked <==> DoubleKey(next.handId) in b.appliedKeys
  {
    var hand := t.seat.value.hand;
    hide KeysOld, Key, HandId, SettleKey, DoubleKey, BL.HandOk;
    HandKeys(hand.nonce);
    KindsDiffer(hand.nonce, if VideoLive(t) then t.video.value.nonce else 0);
    KeysGrow(t, "double-hand", hand.nonce, t.nonce);
    BooksChange(t, b, t.nonce, if locked then {DoubleKey(next.handId)} else {});
  }

  /** How a table answers an action that made `next` of its live hand. */
  ghost predicate Answered(t: Table, next: B.Hand, t': Table, reply: Reply)
    requires HandLive(t)
  {
    && Sound(t') && t'.nonce == t.nonce && t'.video == t.video && !LockSpent(t')
    && if CannotDouble(t, next) then
         && reply == Refused(LockRefused) && t'.seat == t.seat && Locked(t') == Locked(t) && Free(t') == Free(t)
         && DoubleSpent(t') == DoubleSpent(t)
       else if next.phase == B.Settled && StakeFor(t, next) < next.bet then
         && reply == Refused(SettleRefused) && t'.seat == t.seat
         && Locked(t') == StakeFor(t, next) && Free(t') == Free(t) - (StakeFor(t, next) - Locked(t))
       else
         && reply == Played && t'.seat == Some(Seat(next, t.seat.value.hmac))
         && if next.phase == B.Settled then
              && Locked(t') == StakeFor(t, next) - next.bet
              && Free(t') == Free(t) - (StakeFor(t, next) - Locked(t)) + CreditOf(next)
            else t'.books == t.books
  }

  lemma DoubledIs(t: Table, next: B.Hand)
    requires Sound(t) && HandLive(t) && next.doubled
    requires var Seat(hand, hmac) := t.seat.value; BL.HandOk(hmac, next, hand.bet) && BL.SameDeal(hand, next)
    ensures var (t', reply) := LockAndFinish(t, t.seat.value.hand.bet, next, t.seat.value.hmac); Answered(t, next, t', reply)
  {
    hide KeysUsed, VideoFits, Key, HandId, SettleKey, DoubleKey, Lock, Finish, BL.HandOk;
    var Seat(hand, hmac) := t.seat.value;
    BetAfter(hmac, next, hand.bet);
    SettledHandPays(hmac, next, hand.bet);
    DoubleLocks(t, next);
    var (b, locked) := Lock(t.books, hand.bet, DoubleKey(next.handId));
    DoubleKeeps(t, next, b, locked);
    if locked {
      FinishSeats(t.(books := b), next, hmac, hand.bet);
    }
  }

  lemma UndoubledIs(t: Table, next: B.Hand)
    requires Sound(t) && HandLive(t) && !next.doubled
    requires var Seat(hand, hmac) := t.seat.value; BL.HandOk(hmac, next, hand.bet) && BL.SameDeal(hand, next)
    ensures var (t', reply) := LockAndFinish(t, t.seat.value.hand.bet, next, t.seat.value.hmac); Answered(t, next, t', reply)
  {
    hide KeysOld, Key, HandId, SettleKey, DoubleKey, Lock, Finish, BL.HandOk;
    FinishSeats(t, next, t.seat.value.hmac, t.seat.value.hand.bet);
  }

  lemma AnswerIsSafe(t: Table, next: B.Hand, t': Table, reply: Reply)
    requires Safe(t) && HandLive(t) && Answered(t, next, t', reply)
    requires var Seat(hand, hmac) := t.seat.value; BL.HandOk(hmac, next, hand.bet) && BL.SameDeal(hand, next)
    ensures Safe(t') && reply != Refused(SettleRefused)
  {
    var Seat(hand, hmac) := t.seat.value;
    BetAfter(hmac, next, hand.bet);
    SettledHandPays(hmac, next, hand.bet);
    hide Sound, BL.HandOk, DoubleKey;
  }

  /**
   * An action on a live hand is played unless the engine refuses it, it doubles and the available
   * balance does not cover the second bet, or it ends the hand and the stake is not there; while all
   * bets are covered the last never happens.
   */
  lemma ActKeeps(t: Table, action: B.Action)
    requires Sound(t)
    ensures Sound(Act(t, action).0) && (LockSpent(Act(t, action).0) <==> LockSpent(t))
    ensures HandLive(t) ==> Act(t, action).1 == ActionReply(t, action) != Refused(EngineFailed(B.EmptyShoe))
    ensures !HandLive(t) ==> Act(t, action).1 == Refused(NoPlayerTurn)
    ensures Safe(t) ==> Safe(Act(t, action).0) && Act(t, action).1 != Refused(SettleRefused)
    ensures HandLive(t) && B.ApplyAction(t.seat.value.hmac, t.seat.value.hand, action).Ok? ==>
              Answered(t, B.ApplyAction(t.seat.value.hmac, t.seat.value.hand, action).value, Act(t, action).0, Act(t, action).1)
    ensures HandLive(t) && B.ApplyAction(t.seat.value.hmac, t.seat.value.hand, action).Err? ==> Act(t, action).0 == t
  {
    if HandLive(t) {
      LiveHandIs(t);
      var Seat(hand, hmac) := t.seat.value;
      hide LockAndFinish, B.ApplyAction, BL.HandOk, BL.SameDeal, RowOf, KeysUsed, VideoFits, Covered, DoubleSpent;
      BL.ActionKeeps(hmac, hand, action, hand.bet);
      if B.ApplyAction(hmac, hand, action).Ok? {
        var next := B.ApplyAction(hmac, hand, action).value;
        if next.doubled {
          DoubledIs(t, next);
        } else {
          UndoubledIs(t, next);
        }
        if Safe(t) {
          AnswerIsSafe(t, next, Act(t, action).0, Act(t, action).1);
        }
      }
    }
  }

  // ---------------------------------------------------------------- dealing a hand

  /** The hand the deal makes. */
  function Created(t: Table, hmac: S.Hmac, shoe: seq<Cards.Card>, bet: int): B.Result<B.Hand> {
    B.CreateHand(hmac, HandId(t.nonce), bet, Key("web", t.nonce), t.nonce, shoe)
  }

  /** The deal gets as far as its lock, and the lock goes through. */
  predicate TakesLock(t: Table, bet: int, limits: Limits) {
    !HandLive(t) && limits.min <= bet <= limits.max && IsSafeAmount(bet) && (LockSpent(t) || Free(t) >= bet)
  }

  /** What the lock puts behind the bet: nothing, when its key is already spent. */
  function NewStake(t: Table, bet: int): int {
    if LockSpent(t) then 0 else bet
  }

  lemma DealLocks(t: Table, bet: int)
    requires Sound(t)
    ensures var (b, locked) := Lock(t.books, bet, LockKey(t));
            && (locked <==> IsSafeAmount(bet) && (LockSpent(t) || RowOf(t.books).available >= bet))
            && b.appliedKeys == t.books.appliedKeys + (if locked then {LockKey(t)} else {})
            && RowOf(b).lockedHand == Locked(t) + (if locked then NewStake(t, bet) else 0)
            && RowOf(b).available == Free(t) - (if locked then NewStake(t, bet) else 0)
  {
    KeyNotEmpty("lock", t.nonce);
    assert L.IsValidUserId(USER);
    hide Key, KeysOld, BL.HandOk;
    if LockSpent(t) && IsSafeAmount(bet) {
      LockAgain(t.books, bet, LockKey(t));
    } else if !LockSpent(t) {
      LockIs(t.books, bet, LockKey(t));
    }
  }

  /** The nonce counted up over the deal's lock. */
  lemma LockedTableIsSound(t: Table, b: L.Books)
    requires Sound(t) && !HandLive(t) && RowOf(b).lockedHand >= 0
    requires b.appliedKeys == t.books.appliedKeys + {LockKey(t)}
    ensures Sound(t.(books := b)) && LockSpent(t.(books := b))
    ensures Sound(t.(books := b, nonce := t.nonce + 1)) && !LockSpent(t.(books := b, nonce := t.nonce + 1))
  {
    hide KeysOld, Key, HandId, SettleKey, DoubleKey, BL.HandOk;
    KeysGrow(t, "lock", t.nonce, t.nonce + 1);
    NewKeyIsOther(t, "lock", t.nonce);
    assert b.appliedKeys - {LockKey(t)} == t.books.appliedKeys - {LockKey(t)};
    BooksChange(t, b, t.nonce, {LockKey(t)});
    BooksChange(t, b, t.nonce + 1, {LockKey(t)});
  }

  lemma LockIsNoHandKey(n: nat)
    ensures Key("lock", n) != Key("settle-hand", n) && Key("lock", n) != Key("double-hand", n)
  {
    hide Key;
    if Key("lock", n) == Key("settle-hand", n) {
      KeyInjective("lock", n, "settle-hand", n);
    }
    if Key("lock", n) == Key("double-hand", n) {
      KeyInjective("lock", n, "double-hand", n);
    }
  }

  /** The hand just dealt. */
  lemma DealtIs(t: Table, hmac: S.Hmac, shoe: seq<Cards.Card>, bet: int, b: L.Books, hand: B.Hand)
    requires Sound(t) && !HandLive(t) && |shoe| >= 38 && Playable(bet) && Created(t, hmac, shoe, bet) == B.Ok(hand)
    requires b.appliedKeys == t.books.appliedKeys + {LockKey(t)} && RowOf(b).lockedHand >= 0
    ensures var t1 := t.(books := b, nonce := t.nonce + 1);
            var (t', reply) := Finish(t1, hand, hmac);
            && Seated(t1, hand, hmac, t', reply) && hand.bet == bet && !DoubleSpent(t')
            && (hand.phase == B.PlayerTurn || hand.phase == B.Settled)
  {
    hide KeysOld, Key, HandId, SettleKey, DoubleKey, Finish, BL.HandOk, B.CreateHand;
    var n := t.nonce;
    BL.DealtHandOk(hmac, HandId(n), bet, Key("web", n), n, shoe);
    BetAfter(hmac, hand, bet);
    SettledHandPays(hmac, hand, bet);
    HandKeys(n);
    LockedTableIsSound(t, b);
    KeyIsUnused(t, "settle-hand", n);
    KeyIsUnused(t, "double-hand", n);
    LockIsNoHandKey(n);
    FinishSeats(t.(books := b, nonce := n + 1), hand, hmac, bet);
  }

  /** The deal's lock went through and its hand then failed. */
  predicate FailedAfterLock(t: Table, hmac: S.Hmac, shoe: seq<Cards.Card>, bet: int, limits: Limits) {
    TakesLock(t, bet, limits) && Created(t, hmac, shoe, bet).Err?
  }

  /**
   * The three ends of a deal: no lock, and nothing changed; a lock and no hand, and the nonce handed
   * out again; a hand, seated unless it is over at once and its stake is not there.
   */
  ghost predicate DealEnds(t: Table, hmac: S.Hmac, shoe: seq<Cards.Card>, bet: int, limits: Limits, t': Table, reply: Reply) {
    && Sound(t') && t'.video == t.video
    && if !TakesLock(t, bet, limits) then
         && t'.seat == t.seat && t'.nonce == t.nonce && Locked(t') == Locked(t) && Free(t') == Free(t)
         && t'.books.appliedKeys == t.books.appliedKeys
         && reply == Refused(if HandLive(t) then HandInPlay
                             else if bet < limits.min || bet > limits.max then BetOutOfLimits
                             else LockRefused)
       else match Created(t, hmac, shoe, bet)
         case Err(e) =>
           && t'.seat == t.seat && t'.nonce == t.nonce && Locked(t') == Locked(t) + NewStake(t, bet)
           && Free(t') == Free(t) - NewStake(t, bet) && LockSpent(t') && reply == Refused(EngineFailed(e))
         case Ok(hand) =>
           var stake, free := Locked(t) + NewStake(t, bet), Free(t) - NewStake(t, bet);
           && t'.nonce == t.nonce + 1 && hand.bet == bet && (hand.phase == B.PlayerTurn || hand.phase == B.Settled)
           && !LockSpent(t') && !DoubleSpent(t')
           && if hand.phase == B.Settled && stake < bet then
                reply == Refused(SettleRefused) && t'.seat == t.seat && Locked(t') == stake && Free(t') == free
              else
                && reply == Played && t'.seat == Some(Seat(hand, hmac))
                && if hand.phase == B.Settled then Locked(t') == stake - bet && Free(t') == free + CreditOf(hand)
                   else Locked(t') == stake && Free(t') == free
  }

  lemma SafeBet(bet: int, limits: Limits)
    requires WithinLimits(bet, limits) && limits.max <= MAX_SAFE_INTEGER && IsSafeAmount(bet)
    ensures Playable(bet)
  {
  }

  lemma DealIs(t: Table, hmac: S.Hmac, shoe: seq<Cards.Card>, bet: int, limits: Limits)
    requires Sound(t) && |shoe| >= 38 && limits.max <= MAX_SAFE_INTEGER
    ensures DealEnds(t, hmac, shoe, bet, limits, Deal(t, hmac, shoe, bet, limits).0, Deal(t, hmac, shoe, bet, limits).1)
  {
    hide Lock, B.CreateHand, Finish, KeysOld, Key, BL.HandOk, HandId;
    if !HandLive(t) && WithinLimits(bet, limits) {
      DealLocks(t, bet);
      var (b, locked) := Lock(t.books, bet, LockKey(t));
      if !locked {
        assert b.appliedKeys == t.books.appliedKeys;
        BooksChange(t, b, t.nonce, {});
      } else {
        SafeBet(bet, limits);
        LockedTableIsSound(t, b);
        match Created(t, hmac, shoe, bet)
        case Err(_) =>
        case Ok(hand) => DealtIs(t, hmac, shoe, bet, b, hand);
      }
    }
  }

  // ---------------------------------------------------------------- VideoCate and the instant games

  /** The answer to a request for a bet that takes its lock, if it is not refused later. */
  function BetReply(t: Table, bet: int, limits: Limits): Reply {
    if HandLive(t) then Refused(HandInPlay)
    else if VideoLive(t) then Refused(VideoInPlay)
    else if bet < limits.min || bet > limits.max then Refused(BetOutOfLimits)
    else if !IsSafeAmount(bet) || Free(t) < bet then Refused(LockRefused)
    else Played
  }

  lemma VideoLocked(t: Table, b: L.Books, bet: int)
    requires Sound(t) && !HandLive(t) && Playable(bet)
    requires b.appliedKeys == t.books.appliedKeys + {Key("lock-videocate", t.nonce)}
    requires RowOf(b).lockedHand == Locked(t) + bet
    ensures var t' := t.(books := b, nonce := t.nonce + 1, video := Some(Video(true, bet, t.nonce, None)));
            Safe(t') && !LockSpent(t')
  {
    var n := t.nonce;
    KeyIsUnused(t, "settle-videocate", n);
    KeysGrow(t, "lock-videocate", n, n + 1);
    hide KeysOld, Key;
    if Key("lock-videocate", n) == Key("settle-videocate", n) {
      KeyInjective("lock-videocate", n, "settle-videocate", n);
    }
  }

  lemma DealVideoKeeps(t: Table, bet: int, limits: Limits)
    requires Sound(t) && limits.max <= MAX_SAFE_INTEGER
    ensures var (t', reply) := DealVideo(t, bet, limits);
            && Sound(t') && (Safe(t) ==> Safe(t')) && (LockSpent(t') ==> LockSpent(t)) && t'.seat == t.seat
            && reply == BetReply(t, bet, limits)
            && if reply == Played then
                 VideoLive(t') && VideoBet(t') == bet && Locked(t') == Locked(t) + bet && Free(t') == Free(t) - bet
               else t'.video == t.video && Locked(t') == Locked(t) && Free(t') == Free(t)
  {
    hide KeysOld, Key, Lock, BL.HandOk;
    if !HandLive(t) && !VideoLive(t) && WithinLimits(bet, limits) {
      var n := t.nonce;
      KeyIsUnused(t, "lock-videocate", n);
      KeyNotEmpty("lock-videocate", n);
      LockIs(t.books, bet, Key("lock-videocate", n));
      var (b, locked) := Lock(t.books, bet, Key("lock-videocate", n));
      if locked {
        SafeBet(bet, limits);
        VideoLocked(t, b, bet);
      } else {
        KeysGrow(t, "lock-videocate", n, n + 1);
        BooksChange(t, b, n + 1, {});
      }
    }
  }

  /** The VideoCate hand is paid exactly when its stake is there. */
  lemma VideoPays(t: Table, s: Settlement)
    requires Sound(t) && VideoLive(t) && IsValidSettlement(s) && s.bet == t.video.value.bet
    ensures var v := t.video.value;
            var (b, paid) := Pay(t.books, s, Key("settle-videocate", v.nonce));
            var t' := if paid then t.(books := b, video := Some(v.(holding := false, settlement := Some(s)))) else t.(books := b);
            && (paid <==> Locked(t) >= v.bet) && Locked(t') == Locked(t) - (if paid then v.bet else 0)
            && Free(t') == Free(t) + (if paid then s.credit else 0)
            && Sound(t') && (LockSpent(t') <==> LockSpent(t)) && (DoubleSpent(t') <==> DoubleSpent(t))
  {
    var v := t.video.value;
    KeyNotEmpty("settle-videocate", v.nonce);
    KeysGrow(t, "settle-videocate", v.nonce, t.nonce);
    if HandLive(t) {
      KindsDiffer(t.seat.value.hand.nonce, v.nonce);
    }
    hide KeysOld, Key, HandId, SettleKey, DoubleKey, Pay, BL.HandOk, SettlementFault;
    PayIs(t.books, s, Key("settle-videocate", v.nonce));
  }

  lemma JobPays(bet: int, rank: H.PokerRank)
    requires IsSafeAmount(bet)
    ensures var s := H.MultToSettlement(bet, H.JobMult(rank));
            IsValidSettlement(s) && s.bet == bet && s.credit == H.JobMult(rank) * bet
  {
    H.MultIsValid(bet, H.JobMult(rank));
  }

  lemma LiveVideoIs(t: Table)
    requires Sound(t) && VideoLive(t)
    ensures IsSafeAmount(t.video.value.bet) && VideoBet(t) == t.video.value.bet && HandBet(t) >= 0
  {
    hide KeysUsed, BL.HandOk;
  }

  /** Drawing a live VideoCate hand. */
  lemma LiveDraw(t: Table, held: seq<bool>, rank: H.PokerRank)
    requires Sound(t) && VideoLive(t) && |held| == 5
    ensures var (t', reply) := DrawVideo(t, held, rank);
            && Sound(t') && (LockSpent(t') <==> LockSpent(t)) && (DoubleSpent(t') <==> DoubleSpent(t)) && t'.seat == t.seat
            && reply == (if Locked(t) < VideoBet(t) then Refused(SettleRefused) else Played)
            && (if reply == Played then
                  !VideoLive(t') && Locked(t') == Locked(t) - VideoBet(t) && Free(t') == Free(t) + H.JobMult(rank) * VideoBet(t)
                else t'.video == t.video && Locked(t') == Locked(t) && Free(t') == Free(t))
  {
    LiveVideoIs(t);
    JobPays(t.video.value.bet, rank);
    hide Sound, LockSpent, DoubleSpent, H.MultToSettlement, H.JobMult, Pay, Key, IsValidSettlement, RowOf;
    VideoPays(t, H.MultToSettlement(t.video.value.bet, H.JobMult(rank)));
  }

  /** A live VideoCate hand can be drawn and settled, whatever it draws, exactly when its stake is there. */
  lemma DrawVideoKeeps(t: Table, held: seq<bool>, rank: H.PokerRank)
    requires Sound(t)
    ensures var (t', reply) := DrawVideo(t, held, rank);
            && Sound(t') && (LockSpent(t') <==> LockSpent(t)) && (Safe(t) ==> Safe(t'))
            && reply == (if !VideoLive(t) then Refused(NothingToDraw) else if |held| != 5 then Refused(BadHeld)
                         else if Locked(t) < t.video.value.bet then Refused(SettleRefused) else Played)
            && (reply == Played ==>
                  !VideoLive(t') && Locked(t') == Locked(t) - VideoBet(t) && Free(t') == Free(t) + H.JobMult(rank) * VideoBet(t))
            && (reply != Played ==> t'.video == t.video && Locked(t') == Locked(t) && Free(t') == Free(t))
            && (Safe(t) ==> reply != Refused(SettleRefused))
  {
    hide Sound, LockSpent, DoubleSpent, H.MultToSettlement, H.JobMult, Pay, Key, RowOf;
    if VideoLive(t) && |held| == 5 {
      LiveVideoIs(t);
      LiveDraw(t, held, rank);
    }
  }

  lemma LockIsNoSettle(g: Choice, n: nat)
    ensures Key("lock-" + GameName(g), n) != Key("settle-" + GameName(g), n)
    ensures "lock-" + GameName(g) != "lock" && "settle-" + GameName(g) != "lock"
  {
    hide Key;
    var lock, settle := "lock-" + GameName(g), "settle-" + GameName(g);
    assert lock[0] != settle[0];
    assert |lock| > 4 && |settle| > 4;
    if Key(lock, n) == Key(settle, n) {
      KeyInjective(lock, n, settle, n);
    }
  }

  /** The books after an instant round has locked its bet and been paid. */
  lemma RoundPays(t: Table, b: L.Books, g: Choice, bet: int, s: Settlement)
    requires Sound(t) && !HandLive(t) && !VideoLive(t)
    requires b.appliedKeys == t.books.appliedKeys + {Key("lock-" + GameName(g), t.nonce)}
    requires RowOf(b).lockedHand == Locked(t) + bet
    requires IsValidSettlement(s) && s.bet == bet
    ensures var (b', paid) := Pay(b, s, Key("settle-" + GameName(g), t.nonce));
            && paid && Safe(t.(books := b', nonce := t.nonce + 1)) && !LockSpent(t.(books := b', nonce := t.nonce + 1))
            && RowOf(b').lockedHand == Locked(t) && RowOf(b').available == RowOf(b).available + s.credit
  {
    var n, settle, t1 := t.nonce, "settle-" + GameName(g), t.(books := b, nonce := t.nonce + 1);
    LockIsNoSettle(g, n);
    KeyIsUnused(t, settle, n);
    KeysGrow(t, "lock-" + GameName(g), n, n + 1);
    hide KeysOld, Key, Pay, GameName;
    KeyNotEmpty(settle, n);
    PayIs(b, s, Key(settle, n));
    KeysGrow(t1, settle, n, n + 1);
  }

  /** What the round hands back: the credit of the game played on the table's seeds. */
  function RoundCredit(t: Table, hash: H.Hash, serverSeed: string, game: H.Game, bet: int): int {
    HP.Credit(hash, H.Seeds(serverSeed, "demo-" + Dec(t.nonce), t.nonce), game, bet)
  }

  /** The checks before the lock come in another order here than for VideoCate. */
  function InstantReply(t: Table, bet: int, limits: Limits): Reply {
    if bet < limits.min || bet > limits.max then Refused(BetOutOfLimits)
    else BetReply(t, bet, limits)
  }

  /** A round whose bet is locked: unless its pick or target is refused it is played, and pays at once. */
  ghost predicate RoundEnds(t: Table, hash: H.Hash, serverSeed: string, choice: Choice, bet: int, t': Table, reply: Reply) {
    if choice.Known? && H.Playable(choice.game) then
      reply == Played && Locked(t') == Locked(t) && Free(t') == Free(t) - bet + RoundCredit(t, hash, serverSeed, choice.game, bet)
    else
      && Locked(t') == Locked(t) + bet && Free(t') == Free(t) - bet
      && if choice.Unknown? then reply == Refused(PickNotOffered) else reply.Refused? && reply.why.GameFailed?
  }

  lemma SeedName(n: nat)
    ensures Key("demo", n) == "demo-" + Dec(n)
  {
    hide Dec;
    assert "demo" + "-" + Dec(n) == "demo-" + Dec(n);
  }

  /**
   * An instant round that locked its bet and could be played is settled, in every run; its stake is
   * kept if its pick is refused, and nothing moves if it did not get as far as the lock.
   */
  lemma InstantKeeps(t: Table, hash: H.Hash, serverSeed: string, choice: Choice, bet: int, limits: Limits)
    requires Sound(t)
    ensures var (t', reply) := Instant(t, hash, serverSeed, choice, bet, limits);
            && Sound(t') && (Safe(t) ==> Safe(t')) && (LockSpent(t') ==> LockSpent(t))
            && t'.seat == t.seat && t'.video == t.video
            && if InstantReply(t, bet, limits) == Played then RoundEnds(t, hash, serverSeed, choice, bet, t', reply)
               else reply == InstantReply(t, bet, limits) && Locked(t') == Locked(t) && Free(t') == Free(t)
  {
    hide KeysOld, Key, Lock, Pay, H.PlayGame, GameName, BL.HandOk;
    SeedName(t.nonce);
    if !HandLive(t) && !VideoLive(t) && WithinLimits(bet, limits) {
      var n, lock := t.nonce, "lock-" + GameName(choice);
      LockIsNoSettle(choice, n);
      KeyIsUnused(t, lock, n);
      KeysGrow(t, lock, n, n + 1);
      KeyNotEmpty(lock, n);
      LockIs(t.books, bet, Key(lock, n));
      var (b, locked) := Lock(t.books, bet, Key(lock, n));
      BooksChange(t, b, n + 1, if locked then {Key(lock, n)} else {});
      if locked && choice.Known? {
        var game := choice.game;
        var seeds := H.Seeds(serverSeed, Key("demo", n), n);
        H.EveryGameSettles(hash, seeds, game, bet);
        if H.PlayGame(hash, seeds, game, bet).Ok? {
          RoundPays(t, b, choice, bet, H.PlayGame(hash, seeds, game, bet).value);
        }
      }
    }
  }

  // ---------------------------------------------------------------- one request

  datatype Event =
    | Dealt(hmac: S.Hmac, shoe: seq<Cards.Card>, bet: int, limits: Limits)
    | Acted(action: B.Action)
    | VideoDealt(bet: int, limits: Limits)
    | VideoDrawn(held: seq<bool>, rank: H.PokerRank)
    | InstantPlayed(hash: H.Hash, serverSeed: string, choice: Choice, bet: int, limits: Limits)

  function Respond(t: Table, e: Event): (Table, Reply) {
    match e
    case Dealt(hmac, shoe, bet, limits) => Deal(t, hmac, shoe, bet, limits)
    case Acted(action) => Act(t, action)
    case VideoDealt(bet, limits) => DealVideo(t, bet, limits)
    case VideoDrawn(held, rank) => DrawVideo(t, held, rank)
    case InstantPlayed(hash, serverSeed, choice, bet, limits) => Instant(t, hash, serverSeed, choice, bet, limits)
  }

  /** The limits are what usdcToAtomic can give, and the shoe is not tiny. */
  predicate Sized(e: Event) {
    && (e.Dealt? || e.VideoDealt? ==> e.limits.max <= MAX_SAFE_INTEGER)
    && (e.Dealt? ==> |e.shoe| >= 38)
  }

  /** A deal that finds its lock's key spent by a failed one: it gets its hand and locks nothing. */
  predicate Redeals(t: Table, e: Event) {
    && e.Dealt? && LockSpent(t)
    && !HandLive(t) && WithinLimits(e.bet, e.limits) && IsSafeAmount(e.bet) && Created(t, e.hmac, e.shoe, e.bet).Ok?
  }

  /** Its hand stays in play, or is paid out at once, on money that VideoCate or nobody has locked. */
  predicate ShortRedeal(t: Table, e: Event) {
    && Redeals(t, e) && Locked(t) < e.bet + VideoBet(t)
    && (Created(t, e.hmac, e.shoe, e.bet).value.phase == B.PlayerTurn || Locked(t) >= e.bet)
  }

  /** Its hand is over at once and the lock does not hold its bet. */
  predicate UnpaidRedeal(t: Table, e: Event) {
    Redeals(t, e) && Created(t, e.hmac, e.shoe, e.bet).value.phase == B.Settled && Locked(t) < e.bet
  }

  /** The request ends a hand whose stake is not there. */
  predicate ShortOfStake(t: Table, e: Event) {
    match e
    case Dealt(_, _, _, _) => UnpaidRedeal(t, e)
    case Acted(action) => HandLive(t) && ActionReply(t, action) == Refused(SettleRefused)
    case VideoDrawn(held, _) => VideoLive(t) && |held| == 5 && Locked(t) < t.video.value.bet
    case _ => false
  }

  lemma NothingIsNegative(t: Table)
    requires Sound(t)
    ensures VideoBet(t) >= 0 && Locked(t) >= 0
  {
  }

  /**
   * One request on any table a run can reach: the invariant is kept, and a settlement is refused
   * exactly for want of stake.
   */
  lemma StepIsSound(t: Table, e: Event)
    requires Sound(t) && Sized(e)
    ensures Sound(Respond(t, e).0)
    ensures Respond(t, e).1 == Refused(SettleRefused) <==> ShortOfStake(t, e)
  {
    NothingIsNegative(t);
    hide Sound, Deal, Act, DealVideo, DrawVideo, Instant, B.CreateHand, ActionReply;
    match e
    case Dealt(hmac, shoe, bet, limits) => DealIs(t, hmac, shoe, bet, limits);
    case Acted(action) => ActKeeps(t, action);
    case VideoDealt(bet, limits) => DealVideoKeeps(t, bet, limits);
    case VideoDrawn(held, rank) => DrawVideoKeeps(t, held, rank);
    case InstantPlayed(hash, serverSeed, choice, bet, limits) => InstantKeeps(t, hash, serverSeed, choice, bet, limits);
  }

  /** A deal leaves a covered table covered unless it is a short redeal; a deal that fails spends its key. */
  lemma DealKeeps(t: Table, e: Event)
    requires Safe(t) && Sized(e) && e.Dealt?
    ensures Covered(Respond(t, e).0) <==> !ShortRedeal(t, e)
    ensures !ShortRedeal(t, e) ==> Safe(Respond(t, e).0)
    ensures LockSpent(Respond(t, e).0)
            <==> FailedAfterLock(t, e.hmac, e.shoe, e.bet, e.limits) || (LockSpent(t) && !Redeals(t, e))
    ensures Respond(t, e).1 == Refused(SettleRefused) <==> UnpaidRedeal(t, e)
  {
    NothingIsNegative(t);
    hide Sound, Deal, B.CreateHand, DoubleKey;
    DealIs(t, e.hmac, e.shoe, e.bet, e.limits);
  }

  /** One request on a covered table: it stays covered exactly if the request is no short redeal. */
  lemma StepIsCovered(t: Table, e: Event)
    requires Safe(t) && Sized(e)
    ensures Covered(Respond(t, e).0) <==> !ShortRedeal(t, e)
    ensures !ShortRedeal(t, e) ==> Safe(Respond(t, e).0)
    ensures Respond(t, e).1 == Refused(SettleRefused) <==> UnpaidRedeal(t, e)
  {
    hide Sound, Deal, Act, DealVideo, DrawVideo, Instant, B.CreateHand, Covered, DoubleSpent;
    match e
    case Dealt(hmac, shoe, bet, limits) => DealKeeps(t, e);
    case Acted(action) => ActKeeps(t, action);
    case VideoDealt(bet, limits) => DealVideoKeeps(t, bet, limits);
    case VideoDrawn(held, rank) => DrawVideoKeeps(t, held, rank);
    case InstantPlayed(hash, serverSeed, choice, bet, limits) => InstantKeeps(t, hash, serverSeed, choice, bet, limits);
  }

  // ---------------------------------------------------------------- every run

  function Run(t: Table, es: seq<Event>): Table
    decreases |es|
  {
    if |es| == 0 then t else Run(Respond(t, es[0]).0, es[1..])
  }

  predicate AllSized(es: seq<Event>) {
    forall i :: 0 <= i < |es| ==> Sized(es[i])
  }

  lemma StartOk()
    ensures Safe(START) && !LockSpent(START)
  {
    SeedKeyIsNoKey("lock", 1);
    assert L.IsValidUserId(USER);
  }

  lemma {:induction false} RunIsSound(t: Table, es: seq<Event>)
    requires Sound(t) && AllSized(es)
    ensures Sound(Run(t, es))
    decreases |es|
  {
    hide Sound, Respond, Sized;
    if |es| > 0 {
      StepIsSound(t, es[0]);
      RunIsSound(Respond(t, es[0]).0, es[1..]);
    }
  }

  /** The table before the i-th request of the run. */
  function Before(es: seq<Event>, i: nat): Table
    requires i <= |es|
  {
    Run(START, es[..i])
  }

  lemma {:induction false} RunSplits(t: Table, es: seq<Event>, e: Event)
    ensures Run(t, es + [e]) == Respond(Run(t, es), e).0
    decreases |es|
  {
    hide Respond;
    if |es| == 0 {
      assert [e][1..] == [];
      assert Run(Respond(t, e).0, []) == Respond(t, e).0;
    } else {
      assert (es + [e])[1..] == es[1..] + [e];
      RunSplits(Respond(t, es[0]).0, es[1..], e);
    }
  }

  lemma NextTable(es: seq<Event>, i: nat)
    requires i < |es|
    ensures Before(es, i + 1) == Respond(Before(es, i), es[i]).0
  {
    hide Respond, Run;
    assert es[..i + 1] == es[..i] + [es[i]];
    RunSplits(START, es[..i], es[i]);
  }

  /** No request up to the n-th is a short redeal. */
  predicate NoShortRedeal(es: seq<Event>, n: nat)
    requires n <= |es|
  {
    forall i :: 0 <= i < n ==> !ShortRedeal(Before(es, i), es[i])
  }

  predicate AlwaysCovered(es: seq<Event>, n: nat)
    requires n <= |es|
  {
    forall i :: 0 <= i <= n ==> Covered(Before(es, i))
  }

  lemma NothingYetDone(es: seq<Event>)
    ensures Before(es, 0) == START
  {
    assert es[..0] == [];
  }

  lemma {:induction false} SafeUpTo(es: seq<Event>, n: nat)
    requires AllSized(es) && n <= |es|
    ensures NoShortRedeal(es, n) <==> AlwaysCovered(es, n)
    ensures NoShortRedeal(es, n) ==> Safe(Before(es, n))
    decreases n
  {
    hide Before, Respond, Sound, Covered, DoubleSpent, ShortRedeal, Sized;
    if n == 0 {
      StartOk();
      NothingYetDone(es);
    } else {
      SafeUpTo(es, n - 1);
      NextTable(es, n - 1);
      if NoShortRedeal(es, n - 1) {
        StepIsCovered(Before(es, n - 1), es[n - 1]);
      }
    }
  }

  /**
   * In every run from the start, whatever the digests, the hand lock holds the live blackjack and
   * VideoCate bets together at every point exactly if no deal of the run is a short redeal.
   */
  lemma LiveBetsStayLocked(es: seq<Event>)
    requires AllSized(es)
    ensures (forall i :: 0 <= i <= |es| ==> Covered(Before(es, i)))
            <==> (forall i :: 0 <= i < |es| ==> !ShortRedeal(Before(es, i), es[i]))
  {
    SafeUpTo(es, |es|);
  }

  /** In every run, covered or not, a settlement is refused exactly for want of stake. */
  lemma {:induction false} RefusedForWantOfStake(es: seq<Event>, e: Event)
    requires AllSized(es) && Sized(e)
    ensures Respond(Run(START, es), e).1 == Refused(SettleRefused) <==> ShortOfStake(Run(START, es), e)
  {
    hide Respond, Run, Sound, ShortOfStake;
    StartOk();
    RunIsSound(START, es);
    StepIsSound(Run(START, es), e);
  }

  lemma DrawErrors(hmac: S.Hmac, cs: string, nonce: nat, i: nat, shoe: seq<Cards.Card>)
    ensures var d := B.DrawFrom(hmac, cs, nonce, i, shoe);
            d.Stuck? ==> d.error == B.EmptyShoe || d.error == B.RejectionSamplingFailed
  {
    hide S.DrawIndex;
  }

  lemma {:induction false} DealerErrors(hmac: S.Hmac, cs: string, nonce: nat, dealer: seq<Cards.Card>,
                                        remaining: seq<Cards.Card>, i: nat)
    ensures var r := B.DealerDraws(hmac, cs, nonce, dealer, remaining, i);
            r.Err? ==> r.error == B.EmptyShoe || r.error == B.RejectionSamplingFailed
    decreases |remaining|
  {
    hide Cards.HandTotal;
    DrawErrors(hmac, cs, nonce, i, remaining);
    BL.DrawnCard(hmac, cs, nonce, i, remaining);
    var d := B.DrawFrom(hmac, cs, nonce, i, remaining);
    hide B.DrawFrom;
    if d.Drew? {
      DealerErrors(hmac, cs, nonce, dealer + [d.card], d.rest, i + 1);
    }
  }

  lemma StandErrors(hmac: S.Hmac, hand: B.Hand)
    requires hand.phase == B.PlayerTurn
    ensures var r := B.ApplyAction(hmac, hand, B.Stand);
            r.Err? ==> r.error == B.EmptyShoe || r.error == B.RejectionSamplingFailed
    ensures B.ApplyAction(hmac, hand, B.Stand).Ok? ==> B.ApplyAction(hmac, hand, B.Stand).value.doubled == hand.doubled
  {
    hide B.DealerDraws, Cards.HandTotal;
    DealerErrors(hmac, hand.clientSeed, hand.nonce, hand.dealer, hand.remaining, |hand.player| + |hand.dealer|);
  }

  /**
   * Without a short redeal no action, no draw and no instant round is ever refused for lack of stake;
   * only a redeal can be, whose hand is over at once and whose bet the lock does not hold.
   */
  lemma {:induction false} SettlingNeverFails(es: seq<Event>, e: Event)
    requires AllSized(es) && Sized(e) && NoShortRedeal(es, |es|)
    ensures var (t', reply) := Respond(Run(START, es), e);
            && (reply == Refused(SettleRefused) <==> UnpaidRedeal(Run(START, es), e))
            && (HandLive(Run(START, es)) && e == Acted(B.Stand) ==>
                  reply == Played || reply == Refused(EngineFailed(B.RejectionSamplingFailed)))
  {
    SafeUpTo(es, |es|);
    assert es[..|es|] == es;
    var t := Run(START, es);
    assert Safe(t);
    hide Run, Sound, Covered, DoubleSpent, Deal, DealVideo, DrawVideo, Instant, Act, UnpaidRedeal, B.ApplyAction, NoShortRedeal;
    StepIsCovered(t, e);
    if HandLive(t) && e == Acted(B.Stand) {
      ActKeeps(t, B.Stand);
      LiveHandIs(t);
      StandErrors(t.seat.value.hmac, t.seat.value.hand);
    }
  }

  // ---------------------------------------------------------------- runs in which sampling succeeds

  /** Sampling the first cards of a deal succeeds. */
  predicate Samples(t: Table, e: Event) {
    e.Dealt? ==> Created(t, e.hmac, e.shoe, e.bet) != B.Err(B.RejectionSamplingFailed)
  }

  predicate AllSampled(es: seq<Event>) {
    forall i :: 0 <= i < |es| ==> Samples(Before(es, i), es[i])
  }

  lemma DealErrors(hmac: S.Hmac, id: string, bet: int, cs: string, nonce: nat, shoe: seq<Cards.Card>)
    ensures var r := B.CreateHand(hmac, id, bet, cs, nonce, shoe);
            r.Err? ==> r.error == B.BetNotPositive || r.error == B.EmptyShoe || r.error == B.RejectionSamplingFailed
  {
    hide B.DrawFrom;
    forall i: nat, s: seq<Cards.Card>
      ensures var d := B.DrawFrom(hmac, cs, nonce, i, s);
              d.Stuck? ==> d.error == B.EmptyShoe || d.error == B.RejectionSamplingFailed
    {
      DrawErrors(hmac, cs, nonce, i, s);
    }
  }

  /** Sampling is all that can fail once the bet is locked. */
  lemma OnlySamplingFails(t: Table, e: Event)
    requires e.Dealt? && Sized(e) && Samples(t, e)
    ensures !FailedAfterLock(t, e.hmac, e.shoe, e.bet, e.limits)
  {
    hide B.CreateHand, BL.HandOk;
    BL.DealtHandOk(e.hmac, HandId(t.nonce), e.bet, Key("web", t.nonce), t.nonce, e.shoe);
    DealErrors(e.hmac, HandId(t.nonce), e.bet, Key("web", t.nonce), t.nonce, e.shoe);
  }

  lemma SampledStep(t: Table, e: Event)
    requires Safe(t) && !LockSpent(t) && Sized(e) && Samples(t, e)
    ensures Safe(Respond(t, e).0) && !LockSpent(Respond(t, e).0) && Respond(t, e).1 != Refused(SettleRefused)
  {
    hide Sound, Deal, Act, DealVideo, DrawVideo, Instant, B.CreateHand, Covered, DoubleSpent, LockSpent, FailedAfterLock;
    StepIsCovered(t, e);
    match e
    case Dealt(_, _, _, _) =>
      OnlySamplingFails(t, e);
      DealKeeps(t, e);
    case Acted(action) => ActKeeps(t, action);
    case VideoDealt(bet, limits) => DealVideoKeeps(t, bet, limits);
    case VideoDrawn(held, rank) => DrawVideoKeeps(t, held, rank);
    case InstantPlayed(hash, serverSeed, choice, bet, limits) => InstantKeeps(t, hash, serverSeed, choice, bet, limits);
  }

  lemma {:induction false} SampledUpTo(es: seq<Event>, n: nat)
    requires AllSized(es) && AllSampled(es) && n <= |es|
    ensures Safe(Before(es, n)) && !LockSpent(Before(es, n))
  {
    hide Before, Respond, Safe, LockSpent, Sized, Samples;
    if n == 0 {
      StartOk();
      NothingYetDone(es);
    } else {
      SampledUpTo(es, n - 1);
      NextTable(es, n - 1);
      SampledStep(Before(es, n - 1), es[n - 1]);
    }
  }

  /** So as long as sampling succeeds, every live bet is covered and no settlement is ever refused. */
  lemma SampledRunsAreCovered(es: seq<Event>, i: nat)
    requires AllSized(es) && AllSampled(es) && i < |es|
    ensures Covered(Before(es, i + 1)) && Respond(Before(es, i), es[i]).1 != Refused(SettleRefused)
  {
    hide Before, Respond, Sound, LockSpent, Sized, Samples;
    SampledUpTo(es, i);
    SampledUpTo(es, i + 1);
    SampledStep(Before(es, i), es[i]);
  }

  // ---------------------------------------------------------------- the money on the table

  lemma FinishConserves(t: Table, hand: B.Hand, hmac: S.Hmac)
    ensures LL.Holdings(Finish(t, hand, hmac).0.books) == LL.Holdings(t.books)
  {
    hide Pay, LL.Holdings;
    if hand.phase == B.Settled && hand.settlement.Some? {
      PayConserves(t.books, hand.settlement.value, SettleKey(hand.handId));
    }
  }

  lemma HandsConserve(t: Table, e: Event)
    requires e.Dealt? || e.Acted?
    ensures LL.Holdings(Respond(t, e).0.books) == LL.Holdings(t.books)
  {
    hide Lock, Finish, LL.Holdings, B.CreateHand, B.ApplyAction, RowOf;
    match e
    case Dealt(hmac, shoe, bet, limits) =>
      LockConserves(t.books, bet, Key("lock", t.nonce));
      var b := Lock(t.books, bet, Key("lock", t.nonce)).0;
      var r := B.CreateHand(hmac, HandId(t.nonce), bet, Key("web", t.nonce), t.nonce, shoe);
      if r.Ok? {
        FinishConserves(t.(books := b, nonce := t.nonce + 1), r.value, hmac);
      }
    case Acted(action) =>
      if HandLive(t) {
        var Seat(hand, hmac) := t.seat.value;
        var r := B.ApplyAction(hmac, hand, action);
        if r.Ok? {
          LockConserves(t.books, r.value.bet - hand.bet, DoubleKey(r.value.handId));
          FinishConserves(t, r.value, hmac);
          FinishConserves(t.(books := Lock(t.books, r.value.bet - hand.bet, DoubleKey(r.value.handId)).0), r.value, hmac);
        }
      }
  }

  lemma StepConserves(t: Table, e: Event)
    ensures LL.Holdings(Respond(t, e).0.books) == LL.Holdings(t.books)
  {
    hide Lock, Pay, Deal, Act, LL.Holdings, H.PlayGame;
    match e
    case VideoDealt(bet, limits) => LockConserves(t.books, bet, Key("lock-videocate", t.nonce));
    case VideoDrawn(held, rank) =>
      if VideoLive(t) {
        var v := t.video.value;
        PayConserves(t.books, H.MultToSettlement(v.bet, H.JobMult(rank)), Key("settle-videocate", v.nonce));
      }
    case InstantPlayed(hash, serverSeed, choice, bet, limits) =>
      var lock := Key("lock-" + GameName(choice), t.nonce);
      LockConserves(t.books, bet, lock);
      if choice.Known? {
        var r := H.PlayGame(hash, H.Seeds(serverSeed, Key("demo", t.nonce), t.nonce), choice.game, bet);
        if r.Ok? {
          PayConserves(Lock(t.books, bet, lock).0, r.value, Key("settle-" + GameName(choice), t.nonce));
        }
      }
    case _ => HandsConserve(t, e);
  }

  /** Nothing is ever added to the table or lost from it: balance, locks and house together. */
  lemma {:induction false} MoneyStays(t: Table, es: seq<Event>)
    ensures LL.Holdings(Run(t, es).books) == LL.Holdings(t.books)
    decreases |es|
  {
    hide Respond, LL.Holdings;
    if |es| > 0 {
      StepConserves(t, es[0]);
      MoneyStays(Respond(t, es[0]).0, es[1..]);
    }
  }

  lemma NothingYet()
    ensures LL.Holdings(L.EMPTY_BOOKS) == 0
  {
  }

  lemma SeededHoldings()
    ensures LL.Holdings(START.books) == SEED_AMOUNT
  {
    var c := L.Move(L.CreditDeposit(SEED_AMOUNT), USER, Some(SEED_KEY));
    assert L.IsValidUserId(USER) && L.TakesEffect(L.EMPTY_BOOKS, c);
    NothingYet();
    hide LL.Holdings;
    LL.StepConserves(L.EMPTY_BOOKS, c);
  }

  /** In every run whatever, proper or not, the players and the house together hold the 100 USDC seeded. */
  lemma SeedIsConserved(es: seq<Event>)
    ensures LL.Holdings(Run(START, es).books) == SEED_AMOUNT
  {
    hide Run, LL.Holdings;
    MoneyStays(START, es);
    SeededHoldings();
  }

  // ---------------------------------------------------------------- when sampling does fail

  lemma SeededRow()
    ensures RowOf(START.books) == L.Row(SEED_AMOUNT, 0, 0, false)
  {
    assert L.IsValidUserId(USER);
  }

  /**
   * What such a failure costs: the next deal reuses the nonce, so its lock is taken for a retry and
   * moves no money. All it has is what was locked before, with the first stake unless an earlier deal
   * failed under the same nonce already. The table is covered afterwards exactly when that holds the
   * new live bets, or when the new hand is over at once and cannot be paid.
   */
  lemma RedealAfterFailure(t: Table, first: Event, second: Event)
    requires Safe(t) && Sized(first) && Sized(second) && first.Dealt? && second.Dealt?
    requires FailedAfterLock(t, first.hmac, first.shoe, first.bet, first.limits)
    requires WithinLimits(second.bet, second.limits) && Created(t, second.hmac, second.shoe, second.bet).Ok?
    ensures var (after, reply) := Respond(Respond(t, first).0, second);
            var over := Created(t, second.hmac, second.shoe, second.bet).value.phase == B.Settled;
            var held := Locked(t) + NewStake(t, first.bet);
            && (Covered(after) <==> held >= second.bet + VideoBet(t) || (over && held < second.bet))
            && reply == if over && held < second.bet then Refused(SettleRefused) else Played
  {
    NothingIsNegative(t);
    hide B.CreateHand, Key, HandId, Deal, Sound, Covered, DoubleSpent, BL.HandOk;
    DealKeeps(t, first);
    DealIs(t, first.hmac, first.shoe, first.bet, first.limits);
    BL.DealtHandOk(second.hmac, HandId(t.nonce), second.bet, Key("web", t.nonce), t.nonce, second.shoe);
    var failed := Respond(t, first).0;
    DealKeeps(failed, second);
    DealIs(failed, second.hmac, second.shoe, second.bet, second.limits);
  }

  // ---------------------------------------------------------------- that it can happen

  lemma TopDigestFailsDeal(id: string, bet: int, cs: string, nonce: nat)
    ensures B.CreateHand(S.Constant(0xFFFF_FFFF), id, bet, cs, nonce, Cards.FullShoe(Cards.DECKS)).Err?
  {
    hide S.DrawIndex, S.Constant;
    S.TopDigestFails(B.DrawPrefix(cs, nonce, 0), 312);
  }

  lemma ZeroDigestDraws(cs: string, nonce: nat, i: nat, shoe: seq<Cards.Card>)
    requires 0 < |shoe| <= 312
    ensures B.DrawFrom(S.Constant(0), cs, nonce, i, shoe) == B.Drew(shoe[0], shoe[1..])
  {
    hide S.DrawIndex, S.Constant;
    S.ZeroDigestIsFirst(B.DrawPrefix(cs, nonce, i), |shoe|);
    assert B.Removed(shoe, 0) == shoe[1..];
  }

  lemma ZeroDigestDeals(cs: string, nonce: nat, i: nat, shoe: seq<Cards.Card>)
    requires 2 <= |shoe| <= 312
    ensures B.DealRound(S.Constant(0), cs, nonce, i, shoe) == B.Ok(B.Round(shoe[0], shoe[1], shoe[2..]))
  {
    hide B.DrawFrom, S.Constant;
    ZeroDigestDraws(cs, nonce, i, shoe);
    ZeroDigestDraws(cs, nonce, i + 1, shoe[1..]);
    assert shoe[1..][1..] == shoe[2..];
  }

  lemma AcesAreNoNatural(x: Cards.Card, y: Cards.Card)
    requires x.rank == Cards.Ace && y.rank == Cards.Ace
    ensures !Cards.IsBlackjack([x, y])
  {
    Cards.TwoCards(x, y);
    assert Cards.Demote(22, 2) == Cards.Demote(12, 1);
  }

  /** With zero digests the first four aces of a fresh shoe are dealt, and the hand is in play. */
  lemma ZeroDigestStaysInPlay(id: string, bet: int, cs: string, nonce: nat)
    requires bet > 0
    ensures var r := B.CreateHand(S.Constant(0), id, bet, cs, nonce, Cards.FullShoe(Cards.DECKS));
            r.Ok? && r.value.phase == B.PlayerTurn
  {
    hide B.DealRound, S.Constant, Cards.HandTotal, Cards.FullShoe;
    var shoe := Cards.FullShoe(Cards.DECKS);
    assert shoe[0].rank == shoe[1].rank == shoe[2].rank == shoe[3].rank == Cards.Ace;
    ZeroDigestDeals(cs, nonce, 0, shoe);
    ZeroDigestDeals(cs, nonce, 2, shoe[2..]);
    AcesAreNoNatural(shoe[0], shoe[2]);
    AcesAreNoNatural(shoe[1], shoe[3]);
  }

  /**
   * The failure from the start, on six decks: 1001 rejected digests in a row, then a deal that goes
   * through. Every pair of a smaller and a larger bet leaves the larger hand uncovered.
   */
  lemma FailedDealUncovers(a: int, b: int, limits: Limits)
    requires 0 < a < b && a <= SEED_AMOUNT && WithinLimits(a, limits) && WithinLimits(b, limits)
    requires limits.max <= MAX_SAFE_INTEGER
    ensures var shoe := Cards.FullShoe(Cards.DECKS);
            var failed := Deal(START, S.Constant(0xFFFF_FFFF), shoe, a, limits).0;
            var (after, reply) := Deal(failed, S.Constant(0), shoe, b, limits);
            reply == Played && !Covered(after)
  {
    hide B.CreateHand, Key, HandId, S.Constant, Deal, Covered, Cards.FullShoe;
    StartOk();
    SeededRow();
    TopDigestFailsDeal(HandId(1), a, Key("web", 1), 1);
    ZeroDigestStaysInPlay(HandId(1), b, Key("web", 1), 1);
    var shoe := Cards.FullShoe(Cards.DECKS);
    RedealAfterFailure(START, Dealt(S.Constant(0xFFFF_FFFF), shoe, a, limits), Dealt(S.Constant(0), shoe, b, limits));
  }
}
