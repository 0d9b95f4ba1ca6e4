/**
 * What every run of the ledger keeps: idempotent retries, conservation of money, nonnegative
 * balances, and separate hand and withdraw locks.
 */
module LedgerLaws {
  import opened Money
  import opened Sums
  import opened Ledger

  function Next(b: Books, c: Command): Books { Apply(b, c).0 }

  function ReplyOf(b: Books, c: Command): Reply { Apply(b, c).1 }

  function Run(b: Books, cs: seq<Command>): Books
    decreases |cs|
  {
    if |cs| == 0 then b else Run(Next(b, cs[0]), cs[1..])
  }

  /** Equal in everything a caller can read: rows that were only touched do not show. */
  ghost predicate SameBooks(a: Books, b: Books) {
    && (forall u :: RowOf(a, u) == RowOf(b, u))
    && a.equity == b.equity
    && a.appliedKeys == b.appliedKeys
  }

  // ---------------------------------------------------------------- one command

  lemma RowAfter(b: Books, c: Command, u: string)
    ensures RowOf(Next(b, c), u) ==
            if u != c.userId || !PassesChecks(b, c) then RowOf(b, u)
            else if c.SetWithdrawFrozen? then RowOf(b, u).(withdrawFrozen := c.frozen)
            else if TakesEffect(b, c) then Effect(c.op, RowOf(b, u))
            else RowOf(b, u)
  {
  }

  /** A failed command changes nothing that can be read, and leaves its key free for a retry. */
  lemma FailureLeavesNoTrace(b: Books, c: Command)
    requires ReplyOf(b, c).Failed?
    ensures SameBooks(Next(b, c), b)
    ensures c.Move? && ArgumentFault(c.op).None? && IsValidUserId(c.userId)
            ==> !WasApplied(Next(b, c).appliedKeys, c.key)
  {
    forall u
      ensures RowOf(Next(b, c), u) == RowOf(b, u)
    {
      RowAfter(b, c, u);
    }
  }

  lemma SameDecision(a: Books, b: Books, c: Command)
    requires SameBooks(a, b)
    ensures PassesChecks(a, c) == PassesChecks(b, c) && TakesEffect(a, c) == TakesEffect(b, c)
    ensures ReplyOf(a, c) == ReplyOf(b, c)
    ensures Next(a, c).equity == Next(b, c).equity && Next(a, c).appliedKeys == Next(b, c).appliedKeys
  {
    assert RowOf(a, c.userId) == RowOf(b, c.userId);
    hide Effect, Refusal, ArgumentFault, IsValidUserId, RowOf, ToBalance;
  }

  /** Ledgers that read alike answer alike and stay alike. */
  lemma SameBooksIsCongruence(a: Books, b: Books, c: Command)
    requires SameBooks(a, b)
    ensures ReplyOf(a, c) == ReplyOf(b, c)
    ensures SameBooks(Next(a, c), Next(b, c))
  {
    SameDecision(a, b, c);
    hide Next, ReplyOf, TakesEffect, PassesChecks, RowOf, Effect;
    forall u
      ensures RowOf(Next(a, c), u) == RowOf(Next(b, c), u)
    {
      RowAfter(a, c, u);
      RowAfter(b, c, u);
    }
  }

  // ---------------------------------------------------------------- answers

  /** The command's arguments are ones the ledger takes. */
  predicate WellFormed(c: Command) {
    && IsValidUserId(c.userId)
    && (c.Move? ==> if c.op.SettleHand? then IsValidSettlement(c.op.settlement) else IsSafeAmount(c.op.amount))
  }

  /** The row has what the operation takes from it; a deposit, and its reversal, always go through. */
  predicate Affords(op: Op, r: Row) {
    match op
    case LockBet(bet) => bet <= r.available
    case SettleHand(s) => s.bet <= r.lockedHand
    case RequestWithdraw(a) => a <= r.available && !r.withdrawFrozen
    case CancelWithdraw(a) => a <= r.lockedWithdraw
    case CompleteWithdraw(a) => a <= r.lockedWithdraw
    case _ => true
  }

  /**
   * A command is answered exactly when it is well formed and either a retry or affordable; the answer
   * is the user's balance after it, what is free and what is behind the two locks.
   */
  lemma AnsweredExactlyWhen(b: Books, c: Command)
    ensures var r, r', reply := RowOf(b, c.userId), RowOf(Next(b, c), c.userId), ReplyOf(b, c);
            && (reply.Done?
                <==> WellFormed(c) && (c.Move? ==> WasApplied(b.appliedKeys, c.key) || Affords(c.op, r)))
            && (reply.Done? ==> reply.balance.available == r'.available
                                && reply.balance.locked == r'.lockedHand + r'.lockedWithdraw)
  {
  }

  /** Why a command fails: the first of a bad user, a bad argument, a freeze and a short balance. */
  lemma FailureReason(b: Books, c: Command)
    requires ReplyOf(b, c).Failed?
    ensures var r, why := RowOf(b, c.userId), ReplyOf(b, c).error;
            && (why == InvalidUserId <==> !IsValidUserId(c.userId))
            && (why.InvalidSettlement? || why == UnsafeAmount <==> IsValidUserId(c.userId) && !WellFormed(c))
            && (why.InvalidSettlement? ==> c.Move? && c.op.SettleHand?)
            && (why == WithdrawalsFrozen <==> WellFormed(c) && c.Move? && c.op.RequestWithdraw? && r.withdrawFrozen)
            && (why == InsufficientAvailable ==>
                  c.Move? && (c.op.LockBet? || c.op.RequestWithdraw?) && r.available < c.op.amount)
            && (why == InsufficientLockedStake ==> c.Move? && c.op.SettleHand? && r.lockedHand < c.op.settlement.bet)
            && (why == InsufficientLockedWithdraw ==>
                  c.Move? && (c.op.CancelWithdraw? || c.op.CompleteWithdraw?) && r.lockedWithdraw < c.op.amount)
  {
  }

  // ---------------------------------------------------------------- retries

  /** The command's key has already succeeded. */
  predicate IsRetry(b: Books, c: Command) {
    c.Move? && WasApplied(b.appliedKeys, c.key)
  }

  /** The run with every retry of a succeeded command removed. */
  function WithoutRetries(b: Books, cs: seq<Command>): seq<Command>
    decreases |cs|
  {
    if |cs| == 0 then [] else
      var rest := WithoutRetries(Next(b, cs[0]), cs[1..]);
      if IsRetry(b, cs[0]) then rest else [cs[0]] + rest
  }

  function Replies(b: Books, cs: seq<Command>): seq<Reply>
    decreases |cs|
  {
    if |cs| == 0 then [] else [ReplyOf(b, cs[0])] + Replies(Next(b, cs[0]), cs[1..])
  }

  /** The replies of a run to the commands that `WithoutRetries` keeps. */
  function KeptReplies(b: Books, cs: seq<Command>): seq<Reply>
    decreases |cs|
  {
    if |cs| == 0 then [] else
      var rest := KeptReplies(Next(b, cs[0]), cs[1..]);
      if IsRetry(b, cs[0]) then rest else [ReplyOf(b, cs[0])] + rest
  }

  lemma RetryReadsOnly(b: Books, c: Command)
    requires IsRetry(b, c)
    ensures SameBooks(Next(b, c), b)
  {
    forall u
      ensures RowOf(Next(b, c), u) == RowOf(b, u)
    {
      RowAfter(b, c, u);
    }
  }

  /**
   * Retry theorem: a run and the run without its retries read alike at the end, and every command
   * that is not a retry gets the same answer in both. (Runs are arbitrary, so it holds of every
   * prefix, at every later point.)
   */
  lemma {:induction false} RetriesAreInvisible(a: Books, b: Books, cs: seq<Command>)
    requires SameBooks(a, b)
    ensures SameBooks(Run(a, cs), Run(b, WithoutRetries(a, cs)))
    ensures Replies(b, WithoutRetries(a, cs)) == KeptReplies(a, cs)
    decreases |cs|
  {
    if |cs| > 0 {
      var c, rest := cs[0], cs[1..];
      var kept := WithoutRetries(Next(a, c), rest);
      if IsRetry(a, c) {
        RetryReadsOnly(a, c);
        RetriesAreInvisible(Next(a, c), b, rest);
      } else {
        SameBooksIsCongruence(a, b, c);
        RetriesAreInvisible(Next(a, c), Next(b, c), rest);
        assert ([c] + kept)[1..] == kept;
      }
    }
  }

  predicate CarriesKey(c: Command, k: string) {
    c.Move? && c.key == Some(k)
  }

  /** How many commands of the run that carry key `k` move money. */
  function EffectsUnder(b: Books, cs: seq<Command>, k: string): nat
    decreases |cs|
  {
    if |cs| == 0 then 0 else
      (if CarriesKey(cs[0], k) && TakesEffect(b, cs[0]) then 1 else 0) + EffectsUnder(Next(b, cs[0]), cs[1..], k)
  }

  /** Each key moves money at most once in any run, and is recorded exactly when it did. */
  lemma {:induction false} OneEffectPerKey(b: Books, cs: seq<Command>, k: string)
    requires k != ""
    ensures EffectsUnder(b, cs, k) <= 1
    ensures k in b.appliedKeys ==> EffectsUnder(b, cs, k) == 0
    ensures k in Run(b, cs).appliedKeys <==> k in b.appliedKeys || EffectsUnder(b, cs, k) == 1
    decreases |cs|
  {
    if |cs| > 0 {
      OneEffectPerKey(Next(b, cs[0]), cs[1..], k);
    }
  }

  // ---------------------------------------------------------------- conservation

  /** Money that entered and left: credited deposits, amounts actually reversed, withdrawals completed. */
  datatype Flows = Flows(credited: int, reversed: int, completed: int)

  function OpFlow(op: Op, r: Row): Flows {
    match op
    case CreditDeposit(a) => Flows(a, 0, 0)
    case ReverseDeposit(a) => Flows(0, if r.available >= a then a else r.available, 0)
    case CompleteWithdraw(a) => Flows(0, 0, a)
    case _ => Flows(0, 0, 0)
  }

  function FlowOf(b: Books, c: Command): Flows {
    if TakesEffect(b, c) then OpFlow(c.op, RowOf(b, c.userId)) else Flows(0, 0, 0)
  }

  function Net(f: Flows): int { f.credited - f.reversed - f.completed }

  function Plus(x: Flows, y: Flows): Flows {
    Flows(x.credited + y.credited, x.reversed + y.reversed, x.completed + y.completed)
  }

  function RunFlows(b: Books, cs: seq<Command>): Flows
    decreases |cs|
  {
    if |cs| == 0 then Flows(0, 0, 0) else Plus(FlowOf(b, cs[0]), RunFlows(Next(b, cs[0]), cs[1..]))
  }

  /** What the players are owed, locked or not, and the house's play equity. */
  ghost function Holdings(b: Books): int {
    TotalLiability(b) + b.equity.housePlay
  }

  /** What an operation does to a row's total and to the house is the money that flows in or out. */
  lemma EffectOnTotal(op: Op, r: Row)
    requires op.SettleHand? ==> SettlementFault(op.settlement).None?
    ensures var f := OpFlow(op, r);
            RowTotal(Effect(op, r)) + HouseGain(op) == RowTotal(r) + f.credited - f.reversed - f.completed
  {
    match op
    case SettleHand(s) => assert s.credit + s.houseDelta == s.bet;
    case _ =>
  }

  /** A command writes one row and nothing else that counts as a balance. */
  lemma OneRowWritten(b: Books, c: Command)
    requires PassesChecks(b, c)
    ensures var r := RowOf(b, c.userId);
            Next(b, c).users == b.users[c.userId :=
              if c.SetWithdrawFrozen? then r.(withdrawFrozen := c.frozen)
              else if TakesEffect(b, c) then Effect(c.op, r) else r]
    ensures Next(b, c).equity
            == b.equity.(housePlay := b.equity.housePlay + if TakesEffect(b, c) then HouseGain(c.op) else 0)
  {
    hide Effect, HouseGain, RowOf, Refusal, ArgumentFault;
  }

  lemma ZeroRowTotal()
    ensures RowTotal(ZERO_ROW) == 0
  {
  }

  /** Writing one row changes the holdings by the change of that row and of the house. */
  lemma HoldingsAfter(b: Books, c: Command, r': Row, gain: int)
    requires Next(b, c).users == b.users[c.userId := r']
    requires Next(b, c).equity.housePlay == b.equity.housePlay + gain
    ensures Holdings(Next(b, c)) == Holdings(b) + RowTotal(r') + gain - RowTotal(RowOf(b, c.userId))
  {
    hide Next, RowTotal;
    SumUpdate(b.users, RowTotal, c.userId, r');
    ZeroRowTotal();
  }

  lemma EffectConserves(b: Books, c: Command)
    requires TakesEffect(b, c)
    ensures var f := FlowOf(b, c);
            Holdings(Next(b, c)) == Holdings(b) + f.credited - f.reversed - f.completed
  {
    var r := RowOf(b, c.userId);
    EffectOnTotal(c.op, r);
    OneRowWritten(b, c);
    HoldingsAfter(b, c, Effect(c.op, r), HouseGain(c.op));
    hide Next, Effect, HouseGain, OpFlow, RowTotal, Holdings, RowOf;
  }

  lemma QuietConserves(b: Books, c: Command)
    requires !TakesEffect(b, c)
    ensures Holdings(Next(b, c)) == Holdings(b)
  {
    if PassesChecks(b, c) {
      var r := RowOf(b, c.userId);
      var r' := if c.SetWithdrawFrozen? then r.(withdrawFrozen := c.frozen) else r;
      OneRowWritten(b, c);
      HoldingsAfter(b, c, r', 0);
    } else {
      assert Next(b, c) == b;
    }
    hide Next, Holdings, TakesEffect, RowOf;
  }

  lemma StepConserves(b: Books, c: Command)
    ensures var f := FlowOf(b, c);
            Holdings(Next(b, c)) == Holdings(b) + f.credited - f.reversed - f.completed
  {
    hide Holdings, Next, TakesEffect;
    if TakesEffect(b, c) {
      EffectConserves(b, c);
    } else {
      QuietConserves(b, c);
    }
  }

  /** Seed and platform equity are never moved by a command. */
  lemma OtherEquityStays(b: Books, c: Command)
    ensures Next(b, c).equity.seed == b.equity.seed && Next(b, c).equity.platform == b.equity.platform
  {
    hide Effect;
  }

  lemma RunUnfolds(b: Books, cs: seq<Command>)
    ensures |cs| == 0 ==> Run(b, cs) == b && Net(RunFlows(b, cs)) == 0
    ensures |cs| > 0 ==>
              var f := FlowOf(b, cs[0]);
              && Run(b, cs) == Run(Next(b, cs[0]), cs[1..])
              && Net(RunFlows(b, cs))
                 == f.credited - f.reversed - f.completed + Net(RunFlows(Next(b, cs[0]), cs[1..]))
  {
    hide FlowOf, Next;
  }

  /**
   * Conservation over all runs: what the players are owed plus the house's play equity is exactly
   * what was deposited, less what was reversed, less what was paid out.
   */
  lemma {:induction false} RunConserves(b: Books, cs: seq<Command>)
    ensures Holdings(Run(b, cs)) == Holdings(b) + Net(RunFlows(b, cs))
    ensures Run(b, cs).equity.seed == b.equity.seed && Run(b, cs).equity.platform == b.equity.platform
    decreases |cs|
  {
    hide *;
    RunUnfolds(b, cs);
    if |cs| > 0 {
      OtherEquityStays(b, cs[0]);
      StepConserves(b, cs[0]);
      RunConserves(Next(b, cs[0]), cs[1..]);
    }
  }

  lemma LedgerConserves(cs: seq<Command>)
    ensures Holdings(Run(EMPTY_BOOKS, cs)) == Net(RunFlows(EMPTY_BOOKS, cs))
  {
    RunConserves(EMPTY_BOOKS, cs);
  }

  // ---------------------------------------------------------------- safety

  predicate Solvent(r: Row) {
    r.available >= 0 && r.lockedHand >= 0 && r.lockedWithdraw >= 0
  }

  ghost predicate AllSolvent(b: Books) {
    forall u :: Solvent(RowOf(b, u))
  }

  /** No balance of any user is ever negative, in any run. */
  lemma {:induction false} NeverNegative(b: Books, cs: seq<Command>)
    requires AllSolvent(b)
    ensures AllSolvent(Run(b, cs))
    decreases |cs|
  {
    if |cs| > 0 {
      forall u
        ensures Solvent(RowOf(Next(b, cs[0]), u))
      {
        RowAfter(b, cs[0], u);
      }
      NeverNegative(Next(b, cs[0]), cs[1..]);
    }
  }

  predicate MovesHandLock(op: Op) { op.LockBet? || op.SettleHand? }

  predicate MovesWithdrawLock(op: Op) {
    op.RequestWithdraw? || op.CancelWithdraw? || op.CompleteWithdraw?
  }

  /** The commands of the run that name user `u`. */
  function About(cs: seq<Command>, u: string): seq<Command> {
    if |cs| == 0 then [] else
      if cs[0].userId == u then [cs[0]] + About(cs[1..], u) else About(cs[1..], u)
  }

  /** Hand locks and withdraw locks are each moved only by their own operations, in any run. */
  lemma {:induction false} LocksAreSeparate(b: Books, cs: seq<Command>, u: string)
    ensures (forall i :: 0 <= i < |cs| && cs[i].userId == u && cs[i].Move? ==> !MovesHandLock(cs[i].op))
            ==> RowOf(Run(b, cs), u).lockedHand == RowOf(b, u).lockedHand
    ensures (forall i :: 0 <= i < |cs| && cs[i].userId == u && cs[i].Move? ==> !MovesWithdrawLock(cs[i].op))
            ==> RowOf(Run(b, cs), u).lockedWithdraw == RowOf(b, u).lockedWithdraw
    ensures About(cs, u) == [] ==> RowOf(Run(b, cs), u) == RowOf(b, u)
    decreases |cs|
  {
    hide RowOf, Refusal, ArgumentFault, WasApplied;
    if |cs| > 0 {
      RowAfter(b, cs[0], u);
      LocksAreSeparate(Next(b, cs[0]), cs[1..], u);
      assert forall i :: 0 <= i < |cs[1..]| ==> cs[1..][i] == cs[i + 1];
    }
  }

  /** A reversal that the available balance does not cover zeroes it and freezes withdrawals. */
  lemma ShortReversalFreezes(b: Books, c: Command)
    requires c.Move? && c.op.ReverseDeposit? && TakesEffect(b, c)
    requires RowOf(b, c.userId).available < c.op.amount
    ensures RowOf(Next(b, c), c.userId) == RowOf(b, c.userId).(available := 0, withdrawFrozen := true)
  {
  }

  /**
   * A freeze holds in every continuation that does not lift it, and meanwhile nothing more of the
   * user's money goes behind a withdraw lock.
   */
  lemma {:induction false} FreezeHolds(b: Books, cs: seq<Command>, u: string)
    requires RowOf(b, u).withdrawFrozen
    requires forall i :: 0 <= i < |cs| ==> cs[i] != SetWithdrawFrozen(u, false)
    ensures RowOf(Run(b, cs), u).withdrawFrozen
    ensures RowOf(Run(b, cs), u).lockedWithdraw <= RowOf(b, u).lockedWithdraw
    decreases |cs|
  {
    if |cs| > 0 {
      RowAfter(b, cs[0], u);
      assert cs[0] != SetWithdrawFrozen(u, false);
      FreezeHolds(Next(b, cs[0]), cs[1..], u);
    }
  }

  /**
   * After a reversal that the available balance does not cover, in every continuation that does not
   * lift the freeze it caused, no more of the user's money goes behind a withdraw lock.
   */
  lemma ShortReversalStopsWithdrawals(b: Books, c: Command, cs: seq<Command>)
    requires c.Move? && c.op.ReverseDeposit? && TakesEffect(b, c) && RowOf(b, c.userId).available < c.op.amount
    requires forall i :: 0 <= i < |cs| ==> cs[i] != SetWithdrawFrozen(c.userId, false)
    ensures var after := Run(b, [c] + cs);
            && RowOf(after, c.userId).withdrawFrozen
            && RowOf(after, c.userId).lockedWithdraw <= RowOf(b, c.userId).lockedWithdraw
  {
    ShortReversalFreezes(b, c);
    hide Next, RowOf, TakesEffect;
    assert ([c] + cs)[1..] == cs;
    FreezeHolds(Next(b, c), cs, c.userId);
  }

  /** The command freezes the user's withdrawals: by itself, or as a reversal of more than is available. */
  predicate Freezes(b: Books, c: Command, u: string) {
    && c.userId == u && WellFormed(c)
    && if c.SetWithdrawFrozen? then c.frozen
       else c.op.ReverseDeposit? && !WasApplied(b.appliedKeys, c.key) && RowOf(b, u).available < c.op.amount
  }

  predicate Thaws(c: Command, u: string) {
    WellFormed(c) && c == SetWithdrawFrozen(u, false)
  }

  /** What the last command of the run that froze or thawed the user did: Some(true) if it froze. */
  function LastFreeze(b: Books, cs: seq<Command>, u: string): Option<bool>
    decreases |cs|
  {
    if |cs| == 0 then None else
      var later := LastFreeze(Next(b, cs[0]), cs[1..], u);
      if later.Some? then later
      else if Freezes(b, cs[0], u) then Some(true)
      else if Thaws(cs[0], u) then Some(false)
      else None
  }

  lemma FreezeStep(b: Books, c: Command, u: string)
    ensures RowOf(Next(b, c), u).withdrawFrozen
            <==> Freezes(b, c, u) || (RowOf(b, u).withdrawFrozen && !Thaws(c, u))
  {
    RowAfter(b, c, u);
  }

  lemma FreezesOrThaws(b: Books, c: Command, u: string)
    ensures !(Freezes(b, c, u) && Thaws(c, u))
  {
  }

  /**
   * After any run a user's withdrawals are frozen exactly if the last command that froze or thawed
   * them froze them, or there was none and they were frozen to begin with. A reversal that the
   * balance covers is not such a command.
   */
  lemma {:induction false} FrozenExactlyWhen(b: Books, cs: seq<Command>, u: string)
    ensures RowOf(Run(b, cs), u).withdrawFrozen
            <==> LastFreeze(b, cs, u) == Some(true) || (LastFreeze(b, cs, u).None? && RowOf(b, u).withdrawFrozen)
    decreases |cs|
  {
    hide Next, Freezes, Thaws, RowOf;
    if |cs| > 0 {
      FreezeStep(b, cs[0], u);
      FreezesOrThaws(b, cs[0], u);
      FrozenExactlyWhen(Next(b, cs[0]), cs[1..], u);
    }
  }
}
