/**
 * The stake-lock ledger of packages/ledger/src/ledger.ts: per-user balances with separate hand and
 * withdraw locks, house equity, and idempotency keys that are recorded only on success.
 *
 * `Apply` says what one command does to the books; the class below is the source's code.
 */
module Ledger {
  import opened Money
  import opened Sums

  datatype Row = Row(available: int, lockedHand: int, lockedWithdraw: int, withdrawFrozen: bool)

  datatype Equity = Equity(housePlay: int, seed: int, platform: int)

  datatype Books = Books(users: map<string, Row>, equity: Equity, appliedKeys: set<string>)

  datatype Balance = Balance(available: int, locked: int)

  datatype Error =
    | InvalidUserId
    | UnsafeAmount
    | InvalidSettlement(fault: SettlementError)
    | InsufficientAvailable
    | InsufficientLockedStake
    | WithdrawalsFrozen
    | InsufficientLockedWithdraw

  datatype Reply = Done(balance: Balance) | Failed(error: Error)

  datatype Op =
    | CreditDeposit(amount: int)
    | ReverseDeposit(amount: int)
    | LockBet(amount: int)
    | SettleHand(settlement: Settlement)
    | RequestWithdraw(amount: int)
    | CancelWithdraw(amount: int)
    | CompleteWithdraw(amount: int)

  datatype Command =
    | Move(op: Op, userId: string, key: Option<string>)
    | SetWithdrawFrozen(userId: string, frozen: bool)

  const ZERO_ROW := Row(0, 0, 0, false)
  const EMPTY_BOOKS := Books(map[], Equity(0, 0, 0), {})

  // ---------------------------------------------------------------- reading the books

  /** A user without a row reads as zero everywhere. */
  function RowOf(b: Books, userId: string): Row {
    if userId in b.users then b.users[userId] else ZERO_ROW
  }

  function ToBalance(r: Row): Balance {
    Balance(r.available, r.lockedHand + r.lockedWithdraw)
  }

  function RowTotal(r: Row): int {
    r.available + (r.lockedHand + r.lockedWithdraw)
  }

  ghost function TotalLiability(b: Books): int {
    Sum(b.users, RowTotal)
  }

  predicate IsValidUserId(userId: string) {
    && 0 < |userId| <= 128
    && forall i :: 0 <= i < |userId| ==> userId[i] != '\0' && userId[i] != '\n'
  }

  /** An absent or empty key never counts as applied. */
  predicate WasApplied(keys: set<string>, key: Option<string>) {
    key.Some? && key.value != "" && key.value in keys
  }

  function MarkApplied(keys: set<string>, key: Option<string>): set<string> {
    if key.Some? && key.value != "" then keys + {key.value} else keys
  }

  // ---------------------------------------------------------------- what a command does

  /** The argument checks that come before the key is looked at. */
  function ArgumentFault(op: Op): Option<Error> {
    match op
    case SettleHand(s) =>
      if SettlementFault(s).Some? then Some(InvalidSettlement(SettlementFault(s).value)) else None
    case _ => if IsSafeAmount(op.amount) then None else Some(UnsafeAmount)
  }

  /** The guard of an operation on the user's row. */
  function Refusal(op: Op, r: Row): Option<Error> {
    match op
    case CreditDeposit(_) => None
    case ReverseDeposit(_) => None
    case LockBet(a) => if r.available < a then Some(InsufficientAvailable) else None
    case SettleHand(s) => if r.lockedHand < s.bet then Some(InsufficientLockedStake) else None
    case RequestWithdraw(a) =>
      if r.withdrawFrozen then Some(WithdrawalsFrozen)
      else if r.available < a then Some(InsufficientAvailable) else None
    case CancelWithdraw(a) => if r.lockedWithdraw < a then Some(InsufficientLockedWithdraw) else None
    case CompleteWithdraw(a) => if r.lockedWithdraw < a then Some(InsufficientLockedWithdraw) else None
  }

  function Effect(op: Op, r: Row): Row {
    match op
    case CreditDeposit(a) => r.(available := r.available + a)
    case ReverseDeposit(a) =>
      if r.available >= a then r.(available := r.available - a)
      else r.(available := 0, withdrawFrozen := true)
    case LockBet(a) => r.(available := r.available - a, lockedHand := r.lockedHand + a)
    case SettleHand(s) => r.(lockedHand := r.lockedHand - s.bet, available := r.available + s.credit)
    case RequestWithdraw(a) => r.(available := r.available - a, lockedWithdraw := r.lockedWithdraw + a)
    case CancelWithdraw(a) => r.(lockedWithdraw := r.lockedWithdraw - a, available := r.available + a)
    case CompleteWithdraw(a) => r.(lockedWithdraw := r.lockedWithdraw - a)
  }

  function HouseGain(op: Op): int {
    if op.SettleHand? then op.settlement.houseDelta else 0
  }

  /** getOrCreate: the row is there afterwards, even when the command then fails. */
  function Touch(b: Books, userId: string): Books {
    b.(users := b.users[userId := RowOf(b, userId)])
  }

  function Freeze(b: Books, userId: string, frozen: bool): Books {
    b.(users := b.users[userId := RowOf(b, userId).(withdrawFrozen := frozen)])
  }

  predicate PassesChecks(b: Books, c: Command) {
    IsValidUserId(c.userId) && (c.Move? ==> ArgumentFault(c.op).None?)
  }

  /** The command gets past the checks and the key, and its guard lets it move money. */
  predicate TakesEffect(b: Books, c: Command) {
    && c.Move? && PassesChecks(b, c)
    && !WasApplied(b.appliedKeys, c.key)
    && Refusal(c.op, RowOf(b, c.userId)).None?
  }

  function Apply(b: Books, c: Command): (Books, Reply) {
    if !IsValidUserId(c.userId) then (b, Failed(InvalidUserId)) else
      var r := RowOf(b, c.userId);
      match c
      case SetWithdrawFrozen(u, frozen) => (Freeze(b, u, frozen), Done(ToBalance(r)))
      case Move(op, u, key) =>
        if ArgumentFault(op).Some? then (b, Failed(ArgumentFault(op).value))
        else if WasApplied(b.appliedKeys, key) then (Touch(b, u), Done(ToBalance(r)))
        else if Refusal(op, r).Some? then (Touch(b, u), Failed(Refusal(op, r).value))
        else
          var r' := Effect(op, r);
          (Books(b.users[u := r'], b.equity.(housePlay := b.equity.housePlay + HouseGain(op)),
                 MarkApplied(b.appliedKeys, key)),
           Done(ToBalance(r')))
  }

  // ---------------------------------------------------------------- the ledger object

  class LedgerSnapshot {
    var users: map<string, Row>
    var equity: Equity
    var appliedKeys: set<string>

    function State(): Books
      reads this
    {
      Books(users, equity, appliedKeys)
    }

    constructor ()
      ensures State() == EMPTY_BOOKS
    {
      users := map[];
      equity := Equity(0, 0, 0);
      appliedKeys := {};
    }

    method GetOrCreate(userId: string) returns (r: Row)
      modifies this
      ensures State() == Touch(old(State()), userId)
      ensures r == RowOf(old(State()), userId) && r == users[userId]
    {
      if userId !in users {
        users := users[userId := Row(0, 0, 0, false)];
      }
      r := users[userId];
    }

    /** Lines 139-145. */
    method TotalPlayerLiability() returns (sum: int)
      ensures sum == TotalLiability(State())
    {
      sum := 0;
      var rest := users;
      while rest != map[]
        invariant forall k :: k in rest ==> k in users && rest[k] == users[k]
        invariant sum + Sum(rest, RowTotal) == Sum(users, RowTotal)
        decreases |rest|
      {
        var k :| k in rest;
        var r := rest[k];
        SumRemove(rest, RowTotal, k);
        sum := sum + (r.available + (r.lockedHand + r.lockedWithdraw));
        rest := rest - {k};
      }
    }

    method CreditDeposit(userId: string, amount: int, key: Option<string>) returns (reply: Reply)
      modifies this
      ensures (State(), reply) == Apply(old(State()), Move(Op.CreditDeposit(amount), userId, key))
    {
      if !IsValidUserId(userId) { return Failed(InvalidUserId); }
      if !IsSafeAmount(amount) { return Failed(UnsafeAmount); }
      var b := GetOrCreate(userId);
      if WasApplied(appliedKeys, key) { return Done(ToBalance(b)); }
      b := b.(available := b.available + amount);
      users := users[userId := b];
      assert users == old(users)[userId := b];
      appliedKeys := MarkApplied(appliedKeys, key);
      return Done(ToBalance(b));
    }

    method ReverseDeposit(userId: string, amount: int, key: Option<string>) returns (reply: Reply)
      modifies this
      ensures (State(), reply) == Apply(old(State()), Move(Op.ReverseDeposit(amount), userId, key))
    {
      if !IsValidUserId(userId) { return Failed(InvalidUserId); }
      if !IsSafeAmount(amount) { return Failed(UnsafeAmount); }
      var b := GetOrCreate(userId);
      if WasApplied(appliedKeys, key) { return Done(ToBalance(b)); }
      if b.available >= amount {
        b := b.(available := b.available - amount);
      } else {
        b := b.(available := 0);
        b := b.(withdrawFrozen := true);
      }
      users := users[userId := b];
      assert users == old(users)[userId := b];
      appliedKeys := MarkApplied(appliedKeys, key);
      return Done(ToBalance(b));
    }

    method SetFrozen(userId: string, frozen: bool) returns (reply: Reply)
      modifies this
      ensures (State(), reply) == Apply(old(State()), SetWithdrawFrozen(userId, frozen))
    {
      if !IsValidUserId(userId) { return Failed(InvalidUserId); }
      var b := GetOrCreate(userId);
      users := users[userId := b.(withdrawFrozen := frozen)];
      assert users == old(users)[userId := b.(withdrawFrozen := frozen)];
      assert State() == Freeze(old(State()), userId, frozen);
      return Done(ToBalance(b));
    }

    method LockBet(userId: string, bet: int, key: Option<string>) returns (reply: Reply)
      modifies this
      ensures (State(), reply) == Apply(old(State()), Move(Op.LockBet(bet), userId, key))
    {
      if !IsValidUserId(userId) { return Failed(InvalidUserId); }
      if !IsSafeAmount(bet) { return Failed(UnsafeAmount); }
      var b := GetOrCreate(userId);
      if WasApplied(appliedKeys, key) { return Done(ToBalance(b)); }
      if b.available < bet { return Failed(InsufficientAvailable); }
      b := b.(available := b.available - bet);
      b := b.(lockedHand := b.lockedHand + bet);
      users := users[userId := b];
      assert users == old(users)[userId := b];
      appliedKeys := MarkApplied(appliedKeys, key);
      return Done(ToBalance(b));
    }

    method SettleHand(userId: string, settlement: Settlement, key: Option<string>) returns (reply: Reply)
      modifies this
      ensures (State(), reply) == Apply(old(State()), Move(Op.SettleHand(settlement), userId, key))
    {
      if !IsValidUserId(userId) { return Failed(InvalidUserId); }
      var fault := SettlementFault(settlement);
      if fault.Some? { return Failed(InvalidSettlement(fault.value)); }
      var b := GetOrCreate(userId);
      if WasApplied(appliedKeys, key) { return Done(ToBalance(b)); }
      if b.lockedHand < settlement.bet { return Failed(InsufficientLockedStake); }
      b := b.(lockedHand := b.lockedHand - settlement.bet);
      b := b.(available := b.available + settlement.credit);
      users := users[userId := b];
      assert users == old(users)[userId := b];
      equity := equity.(housePlay := equity.housePlay + settlement.houseDelta);
      appliedKeys := MarkApplied(appliedKeys, key);
      return Done(ToBalance(b));
    }

    method RequestWithdraw(userId: string, amount: int, key: Option<string>) returns (reply: Reply)
      modifies this
      ensures (State(), reply) == Apply(old(State()), Move(Op.RequestWithdraw(amount), userId, key))
    {
      if !IsValidUserId(userId) { return Failed(InvalidUserId); }
      if !IsSafeAmount(amount) { return Failed(UnsafeAmount); }
      var b := GetOrCreate(userId);
      if WasApplied(appliedKeys, key) { return Done(ToBalance(b)); }
      if b.withdrawFrozen { return Failed(WithdrawalsFrozen); }
      if b.available < amount { return Failed(InsufficientAvailable); }
      b := b.(available := b.available - amount);
      b := b.(lockedWithdraw := b.lockedWithdraw + amount);
      users := users[userId := b];
      assert users == old(users)[userId := b];
      appliedKeys := MarkApplied(appliedKeys, key);
      return Done(ToBalance(b));
    }

    method CancelWithdraw(userId: string, amount: int, key: Option<string>) returns (reply: Reply)
      modifies this
      ensures (State(), reply) == Apply(old(State()), Move(Op.CancelWithdraw(amount), userId, key))
    {
      if !IsValidUserId(userId) { return Failed(InvalidUserId); }
      if !IsSafeAmount(amount) { return Failed(UnsafeAmount); }
      var b := GetOrCreate(userId);
      if WasApplied(appliedKeys, key) { return Done(ToBalance(b)); }
      if b.lockedWithdraw < amount { return Failed(InsufficientLockedWithdraw); }
      b := b.(lockedWithdraw := b.lockedWithdraw - amount);
      b := b.(available := b.available + amount);
      users := users[userId := b];
      assert users == old(users)[userId := b];
      appliedKeys := MarkApplied(appliedKeys, key);
      return Done(ToBalance(b));
    }

    method CompleteWithdraw(userId: string, amount: int, key: Option<string>) returns (reply: Reply)
      modifies this
      ensures (State(), reply) == Apply(old(State()), Move(Op.CompleteWithdraw(amount), userId, key))
    {
      if !IsValidUserId(userId) { return Failed(InvalidUserId); }
      if !IsSafeAmount(amount) { return Failed(UnsafeAmount); }
      var b := GetOrCreate(userId);
      if WasApplied(appliedKeys, key) { return Done(ToBalance(b)); }
      if b.lockedWithdraw < amount { return Failed(InsufficientLockedWithdraw); }
      b := b.(lockedWithdraw := b.lockedWithdraw - amount);
      users := users[userId := b];
      assert users == old(users)[userId := b];
      appliedKeys := MarkApplied(appliedKeys, key);
      return Done(ToBalance(b));
    }
  }
}
