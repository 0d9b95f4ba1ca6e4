/**
 * What the withdraw policy still promises once its questions are asked on balances and flags read
 * before an await: every row was approved within the policy, and when the cool-down can be missed.
 */
module WithdrawLaws {
  import opened Clock
  import opened Money
  import opened Custody
  import opened CustodyLaws
  import opened ClaimLaws
  import L = Ledger
  import D = DepositClaim
  import W = WithdrawPolicy
  import Addresses

  // ---------------------------------------------------------------- every row was approved

  /** `e` is the return of a hot balance on which a request for row `x` was approved, its status aside. */
  predicate ApprovedBy(s: System, e: Event, x: Withdrawal) {
    && e.HotBalanceReturns? && e.balance.Some? && e.task in s.tasks && s.tasks[e.task].AwaitHot?
    && var t := s.tasks[e.task];
       var q, p := RequestFor(s, t, e.balance.value, e.now), t.cfg.withdraw;
       && W.WithinPolicy(q, p) && W.AsPolicySets(q, p, x.amount, x.destination, x.level, x.availableAtMs)
       && x.userId == t.wallet && x.createdAtMs == e.now && x.idempotencyKey == WithdrawKey(t.wallet, t.clientKey)
       && 1 <= |t.clientKey| <= 128 && '\n' !in t.clientKey
  }

  ghost predicate IdsFresh(r: Root) {
    forall n: nat | n >= r.seq_ :: WithdrawalId(n) !in r.withdrawals
  }

  /** No row goes away, and none changes in more than its status. */
  ghost predicate RowsStay(r: Root, r': Root) {
    forall id | id in r.withdrawals ::
      id in r'.withdrawals && r'.withdrawals[id] == r.withdrawals[id].(status := r'.withdrawals[id].status)
  }

  /** The call makes no row. */
  ghost predicate MakesNoRow(r: Root, r': Root) {
    RowsStay(r, r') && r'.withdrawals.Keys == r.withdrawals.Keys && r'.seq_ >= r.seq_
  }

  /** What the policy asks about the wallet's past. */
  ghost predicate Flags(r: Root, wallet: string, hasPrior: bool, last: Option<int>) {
    UserOf(r, wallet).hasCompletedWithdraw == hasPrior && UserOf(r, wallet).lastRequestedAtMs == last
  }

  ghost predicate SameFlags(r: Root, r': Root, wallet: string) {
    Flags(r', wallet, UserOf(r, wallet).hasCompletedWithdraw, UserOf(r, wallet).lastRequestedAtMs)
  }

  lemma CreditMakesNoRow(r: Root, owner: string, sig: string, amount: int, now: int, wallet: string)
    ensures var r' := RecordDepositCredit(r, owner, sig, amount, DepositKey(sig), now).0;
            MakesNoRow(r, r') && SameFlags(r, r', wallet)
  {
    hide L.Apply, Addresses.IsValidSolanaPubkey, DepositId, DepositKey;
  }

  lemma ClaimMakesNoRow(s: System, task: nat, tx: D.FetchedTx, now: int, wallet: string)
    requires task in s.tasks && (s.tasks[task].AwaitFirst? || s.tasks[task].AwaitSecond?)
    ensures var r' := AfterFetch(s, task, tx, now).root; MakesNoRow(s.root, r') && SameFlags(s.root, r', wallet)
  {
    var t := s.tasks[task];
    var d := D.Evaluate(ClaimInputFor(s, t, tx), t.cfg.claim);
    hide D.Evaluate, ClaimInputFor, RecordDepositCredit, DepositKey;
    if d.Accepted? {
      CreditMakesNoRow(s.root, t.wallet, t.sig, d.amount, now, wallet);
    }
  }

  lemma CancelMakesNoRow(r: Root, owner: string, id: string, wallet: string)
    ensures var r' := CancelUserWithdrawal(r, owner, id).0; MakesNoRow(r, r') && SameFlags(r, r', wallet)
  {
    hide L.Apply, Addresses.IsValidSolanaPubkey, CancelKey;
  }

  lemma SendMakesNoRow(r: Root, id: string, now: int, wallet: string)
    ensures var (r', sent) := MarkWithdrawalSent(r, id, now);
            && MakesNoRow(r, r')
            && var completes := id in r.withdrawals && r.withdrawals[id].userId == wallet && r.withdrawals[id].status != W.Sent && sent.Ok?;
               Flags(r', wallet, UserOf(r, wallet).hasCompletedWithdraw || completes, UserOf(r, wallet).lastRequestedAtMs)
  {
    hide L.Apply;
  }

  lemma RequestSetsTime(r: Root, n: NewWithdrawal, now: int, wallet: string)
    ensures var r' := CreateWithdrawal(r, n, now).0;
            Flags(r', wallet, UserOf(r, wallet).hasCompletedWithdraw,
                  if r'.seq_ > r.seq_ && n.wallet == wallet then Some(now) else UserOf(r, wallet).lastRequestedAtMs)
  {
    hide L.Apply, RowFor;
  }

  lemma RequestAddsItsRow(r: Root, n: NewWithdrawal, now: int)
    requires IdsFresh(r)
    ensures var r' := CreateWithdrawal(r, n, now).0;
            && r'.seq_ == r.seq_ + (if r'.withdrawals == r.withdrawals then 0 else 1)
            && (r'.withdrawals == r.withdrawals || r'.withdrawals == r.withdrawals[WithdrawalId(r.seq_) := RowFor(n, r.seq_, now)])
            && IdsFresh(r') && RowsStay(r, r')
  {
    var id := WithdrawalId(r.seq_);
    assert id !in r.withdrawals;
    forall m: nat | m > r.seq_
      ensures WithdrawalId(m) != id
    {
      if WithdrawalId(m) == id {
        WithdrawalIdInjective(m, r.seq_);
      }
    }
    hide WithdrawalId;
  }

  lemma RowsAfterHot(s: System, e: Event)
    requires e.HotBalanceReturns? && IdsFresh(s.root)
    ensures var r, r' := s.root, Step(s, e).root;
            && IdsFresh(r') && RowsStay(r, r')
            && forall id | id in r'.withdrawals :: id in r.withdrawals || ApprovedBy(s, e, r'.withdrawals[id])
  {
    if e.task in s.tasks && s.tasks[e.task].AwaitHot? && e.balance.Some? {
      var t := s.tasks[e.task];
      var q := RequestFor(s, t, e.balance.value, e.now);
      var d := W.Decide(q, t.cfg.withdraw);
      W.ApprovedExactlyWhen(q, t.cfg.withdraw);
      hide W.Decide, CreateWithdrawal, WithdrawalId, W.WithinPolicy, W.AsPolicySets, WithdrawKey;
      if d.Approved? {
        RequestAddsItsRow(s.root, QueueFor(t, d), e.now);
      }
    }
  }

  lemma RowsAfterStep(s: System, e: Event)
    requires IdsFresh(s.root)
    ensures var r, r' := s.root, Step(s, e).root;
            && IdsFresh(r') && RowsStay(r, r')
            && forall id | id in r'.withdrawals :: id in r.withdrawals || ApprovedBy(s, e, r'.withdrawals[id])
  {
    hide ApprovedBy, WithdrawalId, AfterFetch, CancelUserWithdrawal, MarkWithdrawalSent, AfterHotBalance;
    match e {
      case FirstFetchReturns(task, _, now) =>
        if ResumesClaim(s, e) {
          ClaimMakesNoRow(s, task, Reported(e).value, now, "");
        }
      case SecondFetchReturns(task, _, _, now) =>
        if ResumesClaim(s, e) {
          ClaimMakesNoRow(s, task, Reported(e).value, now, "");
        }
      case HotBalanceReturns(_, _, _) => RowsAfterHot(s, e);
      case CancelRequested(wallet, id) => CancelMakesNoRow(s.root, wallet, id, "");
      case SendSucceeds(id, now) => SendMakesNoRow(s.root, id, now, "");
      case _ =>
    }
  }

  lemma ClaimLeavesRows(s: System, task: nat, tx: D.FetchedTx, now: int)
    requires task in s.tasks && (s.tasks[task].AwaitFirst? || s.tasks[task].AwaitSecond?)
    ensures AfterFetch(s, task, tx, now).root.withdrawals == s.root.withdrawals
  {
    hide D.Evaluate, L.Apply, ClaimInputFor, DepositId, Addresses.IsValidSolanaPubkey;
  }

  /** A row is made pending, under a key no other row has. */
  lemma NewRowIsPending(s: System, e: Event)
    requires e.HotBalanceReturns? && IdsFresh(s.root)
    ensures var ws, ws' := s.root.withdrawals, Step(s, e).root.withdrawals;
            ws' == ws || exists id, x ::
              id !in ws && ws' == ws[id := x] && x.status == W.Pending && !KeyTaken(ws, x.idempotencyKey)
  {
    if e.task in s.tasks && s.tasks[e.task].AwaitHot? && e.balance.Some? {
      var t := s.tasks[e.task];
      var d := W.Decide(RequestFor(s, t, e.balance.value, e.now), t.cfg.withdraw);
      assert WithdrawalId(s.root.seq_) !in s.root.withdrawals;
      hide W.Decide, WithdrawalId, L.Apply, Addresses.IsValidSolanaPubkey;
    }
  }

  lemma {:induction false} RowsStayInRun(s: System, es: seq<Event>)
    requires IdsFresh(s.root)
    ensures RowsStay(s.root, Run(s, es).root)
    decreases |es|
  {
    hide Step, IdsFresh;
    if |es| > 0 {
      RowsAfterStep(s, es[0]);
      RowsStayInRun(Step(s, es[0]), es[1..]);
    }
  }

  lemma {:induction false} ApprovedInRun(s: System, es: seq<Event>, id: string)
    requires IdsFresh(s.root) && id in Run(s, es).root.withdrawals
    ensures var x := Run(s, es).root.withdrawals[id];
            || (id in s.root.withdrawals && x == s.root.withdrawals[id].(status := x.status))
            || exists i :: 0 <= i < |es| && ApprovedBy(Run(s, es[..i]), es[i], x)
    decreases |es|
  {
    hide Step, IdsFresh;
    if |es| > 0 {
      var e, rest, s' := es[0], es[1..], Step(s, es[0]);
      RowsAfterStep(s, e);
      ApprovedInRun(s', rest, id);
      var x := Run(s, es).root.withdrawals[id];
      if i :| 0 <= i < |rest| && ApprovedBy(Run(s', rest[..i]), rest[i], x) {
        assert es[..i + 1][0] == e && es[..i + 1][1..] == rest[..i];
        assert ApprovedBy(Run(s, es[..i + 1]), es[i + 1], x);
      } else if id !in s.root.withdrawals {
        assert ApprovedBy(s, e, s'.root.withdrawals[id]);
        assert es[..0] == [];
        assert ApprovedBy(Run(s, es[..0]), es[0], x);
      }
    }
  }

  /** What has left the hot wallet on the day of `now`. */
  function OutflowOn(r: Root, now: int): int {
    if Day(now) in r.outflow then r.outflow[Day(now)] else 0
  }

  /**
   * Row `x`, its status aside, was asked for by `es[i]` and approved at `es[j]`: what was read at the
   * one and the outflow, hot balance and time at the other are within the policy.
   */
  ghost predicate ApprovedAt(es: seq<Event>, i: nat, j: nat, x: Withdrawal) {
    && i < j < |es| && es[i].WithdrawStarts? && es[j].HotBalanceReturns? && es[j].balance.Some?
    && es[i].wallet == x.userId && x.createdAtMs == es[j].now && x.idempotencyKey == WithdrawKey(x.userId, es[i].clientKey)
    && 1 <= |es[i].clientKey| <= 128 && '\n' !in es[i].clientKey
    && var read, u := RowOf(Run(START, es[..i]).root, x.userId), UserOf(Run(START, es[..i]).root, x.userId);
       var q := W.Request(
         x.userId, x.userId, es[i].amount, read.available,
         u.selfExcludedUntilMs.Some? && u.selfExcludedUntilMs.value > es[i].now, read.withdrawFrozen,
         u.hasCompletedWithdraw, u.lastRequestedAtMs,
         es[j].now, OutflowOn(Run(START, es[..j]).root, es[j].now), es[j].balance.value);
       && W.WithinPolicy(q, es[i].cfg.withdraw)
       && W.AsPolicySets(q, es[i].cfg.withdraw, x.amount, x.destination, x.level, x.availableAtMs)
  }

  lemma ReadThenApproved(es: seq<Event>, i: nat, j: nat, x: Withdrawal)
    requires i < j < |es| && ApprovedBy(Run(START, es[..j]), es[j], x)
    requires ReadBy(Run(START, es[..j]).tasks[es[j].task], Run(START, es[..i]), es[i])
    ensures ApprovedAt(es, i, j, x)
  {
    hide Run, W.WithinPolicy, W.AsPolicySets, WithdrawKey, RowOf, UserOf, Addresses.IsValidSolanaPubkey;
  }

  /**
   * In every run whatever, each row of the store goes back to a request of its wallet and a later hot
   * balance on which, with what the request had read, it was within the policy; and it has the amount,
   * destination, review level and time that the policy sets.
   */
  lemma {:induction false} RowsWereApproved(es: seq<Event>, id: string)
    requires id in Run(START, es).root.withdrawals
    ensures exists i: nat, j: nat :: ApprovedAt(es, i, j, Run(START, es).root.withdrawals[id])
  {
    hide Run, ReadBy, RequestFor, W.WithinPolicy, W.AsPolicySets, WithdrawKey;
    var x := Run(START, es).root.withdrawals[id];
    ApprovedInRun(START, es, id);
    var j :| 0 <= j < |es| && ApprovedBy(Run(START, es[..j]), es[j], x);
    TaskOrigin(START, es[..j], es[j].task);
    var t := Run(START, es[..j]).tasks[es[j].task];
    var i :| 0 <= i < j && StartedBy(t, Run(START, es[..j][..i]), es[..j][i]);
    assert es[..j][i] == es[i] && es[..j][..i] == es[..i];
    ReadThenApproved(es, i, j, x);
  }

  // ---------------------------------------------------------------- who cancels, and what a repeated key gets

  lemma CancelStatus(r: Root, owner: string, id: string, k: string)
    requires k in r.withdrawals && k in CancelUserWithdrawal(r, owner, id).0.withdrawals
    ensures var now, then' := r.withdrawals[k].status, CancelUserWithdrawal(r, owner, id).0.withdrawals[k].status;
            then' != now ==> then' == W.Cancelled && now == W.Pending && k == id && owner == r.withdrawals[k].userId
  {
    hide L.Apply, Addresses.IsValidSolanaPubkey;
  }

  lemma SendStatus(r: Root, id: string, now: int, k: string)
    requires k in r.withdrawals && k in MarkWithdrawalSent(r, id, now).0.withdrawals
    ensures var before, after := r.withdrawals[k].status, MarkWithdrawalSent(r, id, now).0.withdrawals[k].status;
            after != before ==> after == W.Sent && k == id
  {
    hide L.Apply, Addresses.IsValidSolanaPubkey;
  }

  /** A step cancels a row only if it is the wallet's own request to cancel it, while it is pending. */
  lemma CancelledByStep(s: System, e: Event, id: string)
    requires IdsFresh(s.root) && id in Step(s, e).root.withdrawals && Step(s, e).root.withdrawals[id].status == W.Cancelled
    ensures id in s.root.withdrawals
    ensures s.root.withdrawals[id].status != W.Cancelled ==>
              s.root.withdrawals[id].status == W.Pending && e == CancelRequested(s.root.withdrawals[id].userId, id)
  {
    RowsAfterStep(s, e);
    hide AfterFetch, AfterHotBalance, CancelUserWithdrawal, MarkWithdrawalSent, CreateWithdrawal, W.Decide, WithdrawalId;
    match e {
      case FirstFetchReturns(task, _, now) =>
        if ResumesClaim(s, e) {
          ClaimLeavesRows(s, task, Reported(e).value, now);
        }
      case SecondFetchReturns(task, _, _, now) =>
        if ResumesClaim(s, e) {
          ClaimLeavesRows(s, task, Reported(e).value, now);
        }
      case HotBalanceReturns(_, _, _) => NewRowIsPending(s, e);
      case CancelRequested(wallet, k) => CancelStatus(s.root, wallet, k, id);
      case SendSucceeds(k, now) => SendStatus(s.root, k, now, id);
      case _ =>
    }
  }

  /** `es[i]` is the row's own wallet cancelling it while it is pending. */
  ghost predicate CancelledAt(s: System, es: seq<Event>, i: nat, id: string, wallet: string) {
    && i < |es| && es[i] == CancelRequested(wallet, id)
    && id in Run(s, es[..i]).root.withdrawals && Run(s, es[..i]).root.withdrawals[id].status == W.Pending
  }

  lemma CancelledInRun(s: System, es: seq<Event>, id: string)
    requires IdsFresh(s.root)
    requires id in Run(s, es).root.withdrawals && Run(s, es).root.withdrawals[id].status == W.Cancelled
    ensures || (id in s.root.withdrawals && s.root.withdrawals[id].status == W.Cancelled)
            || exists i: nat :: CancelledAt(s, es, i, id, Run(s, es).root.withdrawals[id].userId)
    decreases |es|
  {
    hide Step, IdsFresh;
    if |es| > 0 {
      var e, rest, s' := es[0], es[1..], Step(s, es[0]);
      var owner := Run(s, es).root.withdrawals[id].userId;
      RowsAfterStep(s, e);
      CancelledInRun(s', rest, id);
      if i: nat :| CancelledAt(s', rest, i, id, owner) {
        assert es[..i + 1][0] == e && es[..i + 1][1..] == rest[..i];
        assert CancelledAt(s, es, i + 1, id, owner);
      } else {
        CancelledByStep(s, e, id);
        RowsStayInRun(s', rest);
        assert es[..0] == [];
        assert s.root.withdrawals[id].status == W.Cancelled || CancelledAt(s, es, 0, id, owner);
      }
    }
  }

  /** In every run whatever, a cancelled row was cancelled by a request of its own wallet, while it was pending. */
  lemma CancelledByItsWallet(es: seq<Event>, id: string)
    requires id in Run(START, es).root.withdrawals && Run(START, es).root.withdrawals[id].status == W.Cancelled
    ensures exists i: nat :: CancelledAt(START, es, i, id, Run(START, es).root.withdrawals[id].userId)
  {
    CancelledInRun(START, es, id);
  }

  /** How a request to cancel is answered where the books agree: it fails only for what it names. */
  lemma CancelAnswers(r: Root, wallet: string, id: string)
    requires Inv(r)
    ensures var own, (r', reply) := id in r.withdrawals && r.withdrawals[id].userId == wallet, CancelUserWithdrawal(r, wallet, id);
            && (reply.Ok? <==> own && r.withdrawals[id].status == W.Pending)
            && (reply.Ok? ==> reply.value == r.withdrawals[id].(status := W.Cancelled)
                              && r'.withdrawals == r.withdrawals[id := reply.value])
            && (reply == Err(NotFound) <==> !own)
            && (!reply.Ok? ==> r' == r && reply.error in {NotFound, NotCancellable})
  {
    CancelKeeps(r, wallet, id);
    hide Inv, L.Apply, Addresses.IsValidSolanaPubkey;
  }

  /**
   * How marking a row sent is answered where the books agree: it fails only for a row that is not there
   * or, with the wallet's lock too small, a cancelled one; a row already sent is left as it is.
   */
  lemma SendAnswers(r: Root, id: string, now: int)
    requires Inv(r)
    ensures var (r', reply) := MarkWithdrawalSent(r, id, now);
            && (reply == Err(NotFound) <==> id !in r.withdrawals)
            && (reply.Ok? <==> id in r.withdrawals && (r.withdrawals[id].status == W.Cancelled ==> SpendsOtherLock(r, id)))
            && (reply.Ok? ==> reply.value == r.withdrawals[id].(status := W.Sent)
                              && r'.withdrawals == r.withdrawals[id := reply.value])
            && (!reply.Ok? ==> r'.withdrawals == r.withdrawals && r'.outflow == r.outflow)
            && (id in r.withdrawals && r.withdrawals[id].status == W.Sent ==> r' == r)
  {
    if id in r.withdrawals && SpendsOtherLock(r, id) {
      CompleteKeyFresh(r, r.withdrawals[id].userId, id);
      PubkeyHasNoColon(r.withdrawals[id].userId);
      AfterSend(r, id, now);
    } else {
      SendKeeps(r, id, now);
    }
    hide Inv, L.Apply, Addresses.IsValidSolanaPubkey, CompleteKey;
  }

  lemma NewKeyIsUnique(ws: map<string, Withdrawal>, id: string, x: Withdrawal)
    requires UniqueKeys(ws) && !KeyTaken(ws, x.idempotencyKey)
    ensures UniqueKeys(ws[id := x])
  {
    assert forall k | k in ws :: ws[k].idempotencyKey == x.idempotencyKey ==> HasKey(ws, k, x.idempotencyKey);
  }

  lemma KeysStayUnique(s: System, e: Event)
    requires IdsFresh(s.root) && UniqueKeys(s.root.withdrawals)
    ensures UniqueKeys(Step(s, e).root.withdrawals)
  {
    RowsAfterStep(s, e);
    hide AfterFetch, AfterHotBalance, CancelUserWithdrawal, MarkWithdrawalSent, CreateWithdrawal, W.Decide, WithdrawalId, KeyTaken;
    match e {
      case FirstFetchReturns(task, _, now) =>
        if ResumesClaim(s, e) {
          ClaimLeavesRows(s, task, Reported(e).value, now);
        }
      case SecondFetchReturns(task, _, _, now) =>
        if ResumesClaim(s, e) {
          ClaimLeavesRows(s, task, Reported(e).value, now);
        }
      case HotBalanceReturns(_, _, _) =>
        NewRowIsPending(s, e);
        var ws, ws' := s.root.withdrawals, Step(s, e).root.withdrawals;
        if ws' != ws {
          var id: string, x: Withdrawal :| id !in ws && ws' == ws[id := x] && x.status == W.Pending && !KeyTaken(ws, x.idempotencyKey);
          NewKeyIsUnique(ws, id, x);
        }
      case CancelRequested(wallet, k) => CancelMakesNoRow(s.root, wallet, k, "");
      case SendSucceeds(k, now) => SendMakesNoRow(s.root, k, now, "");
      case _ =>
    }
  }

  lemma {:induction false} RunKeepsUnique(s: System, es: seq<Event>)
    requires IdsFresh(s.root) && UniqueKeys(s.root.withdrawals)
    ensures UniqueKeys(Run(s, es).root.withdrawals)
    decreases |es|
  {
    hide Step, IdsFresh, UniqueKeys;
    if |es| > 0 {
      RowsAfterStep(s, es[0]);
      KeysStayUnique(s, es[0]);
      RunKeepsUnique(Step(s, es[0]), es[1..]);
    }
  }

  /**
   * In every run whatever, a request whose key a row of the store already has changes nothing and is
   * answered with that row, as it stands.
   */
  lemma RepeatedKeyIsAnswered(es: seq<Event>, id: string, n: NewWithdrawal, now: int)
    requires id in Run(START, es).root.withdrawals && Run(START, es).root.withdrawals[id].idempotencyKey == n.key
    ensures var r := Run(START, es).root;
            CreateWithdrawal(r, n, now) == (r, Ok(r.withdrawals[id]))
  {
    RunKeepsUnique(START, es);
    hide Run;
    var ws := Run(START, es).root.withdrawals;
    assert HasKey(ws, id, n.key);
  }

  // ---------------------------------------------------------------- when the cool-down is missed

  /** The step makes a row for the wallet. */
  ghost predicate Creates(s: System, e: Event, wallet: string) {
    && e.HotBalanceReturns? && e.task in s.tasks && s.tasks[e.task].AwaitHot? && s.tasks[e.task].wallet == wallet
    && Step(s, e).root.seq_ > s.root.seq_
  }

  /** The step completes a withdrawal of the wallet. */
  predicate Completes(s: System, e: Event, wallet: string) {
    && e.SendSucceeds? && e.id in s.root.withdrawals && s.root.withdrawals[e.id].userId == wallet
    && s.root.withdrawals[e.id].status != W.Sent && MarkWithdrawalSent(s.root, e.id, e.now).1.Ok?
  }

  /** The times at which the run makes rows for the wallet. */
  ghost function RequestTimes(s: System, es: seq<Event>, wallet: string): seq<int>
    decreases |es|
  {
    if |es| == 0 then [] else
      (if Creates(s, es[0], wallet) then [es[0].now] else []) + RequestTimes(Step(s, es[0]), es[1..], wallet)
  }

  ghost predicate CompletesOne(s: System, es: seq<Event>, wallet: string)
    decreases |es|
  {
    |es| > 0 && (Completes(s, es[0], wallet) || CompletesOne(Step(s, es[0]), es[1..], wallet))
  }

  lemma FlagsAfterStep(s: System, e: Event, wallet: string)
    ensures var u := UserOf(s.root, wallet);
            Flags(Step(s, e).root, wallet, u.hasCompletedWithdraw || Completes(s, e, wallet),
                  if Creates(s, e, wallet) then Some(e.now) else u.lastRequestedAtMs)
  {
    hide AfterFetch, CancelUserWithdrawal, MarkWithdrawalSent, CreateWithdrawal, W.Decide, L.Touch, L.RowOf;
    match e {
      case FirstFetchReturns(task, _, now) =>
        if ResumesClaim(s, e) {
          ClaimMakesNoRow(s, task, Reported(e).value, now, wallet);
        }
      case SecondFetchReturns(task, _, _, now) =>
        if ResumesClaim(s, e) {
          ClaimMakesNoRow(s, task, Reported(e).value, now, wallet);
        }
      case HotBalanceReturns(task, balance, now) =>
        if task in s.tasks && s.tasks[task].AwaitHot? && balance.Some? {
          var t := s.tasks[task];
          var d := W.Decide(RequestFor(s, t, balance.value, now), t.cfg.withdraw);
          if d.Approved? {
            RequestSetsTime(s.root, QueueFor(t, d), now, wallet);
          }
        }
      case CancelRequested(owner, id) => CancelMakesNoRow(s.root, owner, id, wallet);
      case SendSucceeds(id, now) => SendMakesNoRow(s.root, id, now, wallet);
      case _ =>
    }
  }

  lemma {:induction false} FlagsAfterRun(s: System, es: seq<Event>, wallet: string)
    ensures var u, times := UserOf(s.root, wallet), RequestTimes(s, es, wallet);
            Flags(Run(s, es).root, wallet, u.hasCompletedWithdraw || CompletesOne(s, es, wallet),
                  if times == [] then u.lastRequestedAtMs else Some(times[|times| - 1]))
    decreases |es|
  {
    hide Step, Creates, Completes;
    if |es| > 0 {
      FlagsAfterStep(s, es[0], wallet);
      FlagsAfterRun(Step(s, es[0]), es[1..], wallet);
    }
  }

  lemma TaskWaits(s: System, e: Event, task: nat)
    requires task < s.nextTask
    ensures task < Step(s, e).nextTask
    ensures task in Step(s, e).tasks && Step(s, e).tasks[task].AwaitHot? ==>
              task in s.tasks && s.tasks[task] == Step(s, e).tasks[task]
  {
  }

  lemma {:induction false} TaskWaitsInRun(s: System, es: seq<Event>, task: nat)
    requires task < s.nextTask && task in Run(s, es).tasks && Run(s, es).tasks[task].AwaitHot?
    ensures task in s.tasks && s.tasks[task] == Run(s, es).tasks[task]
    decreases |es|
  {
    hide Step;
    if |es| > 0 {
      TaskWaits(s, es[0], task);
      TaskWaitsInRun(Step(s, es[0]), es[1..], task);
    }
  }

  /** The policy question of a waiting request, asked on what the store says now about the wallet's past. */
  ghost function AskedNow(s: System, t: Task, hotBalance: int, now: int): W.Request
    requires t.AwaitHot?
  {
    var u := UserOf(s.root, t.wallet);
    RequestFor(s, t, hotBalance, now).(hasPriorWithdraw := u.hasCompletedWithdraw, lastRequestedAtMs := u.lastRequestedAtMs)
  }

  lemma CoolingDownIs(q: W.Request, p: W.Policy)
    ensures W.CoolingDown(q, p)
            <==> q.hasPriorWithdraw && p.cooldownMinutes > 0
                 && q.lastRequestedAtMs.Some? && q.nowMs < q.lastRequestedAtMs.value + p.cooldownMinutes * 60_000
  {
  }

  /**
   * A request that was read before an await and passes the cool-down after it, whatever the run `es`
   * in between did: the store of that moment would still refuse it exactly when another row of the
   * wallet was made in between and is too young, or none was, the wallet's first withdrawal
   * completed in between and the last request read is too young.
   */
  lemma {:induction false} CooldownMissedIff(s: System, es: seq<Event>, cfg: Config, wallet: string, amount: int, key: string,
                                             at: int, hotBalance: int, now: int)
    requires Step(s, WithdrawStarts(cfg, wallet, amount, key, at)).nextTask == s.nextTask + 1
    requires var s' := Run(Step(s, WithdrawStarts(cfg, wallet, amount, key, at)), es);
             && s.nextTask in s'.tasks && s'.tasks[s.nextTask].AwaitHot?
             && !W.CoolingDown(RequestFor(s', s'.tasks[s.nextTask], hotBalance, now), cfg.withdraw)
    ensures var begun := Step(s, WithdrawStarts(cfg, wallet, amount, key, at));
            var s', u, times := Run(begun, es), UserOf(s.root, wallet), RequestTimes(begun, es, wallet);
            var wait := cfg.withdraw.cooldownMinutes * 60_000;
            W.CoolingDown(AskedNow(s', s'.tasks[s.nextTask], hotBalance, now), cfg.withdraw)
            <==> wait > 0
                 && if times != [] then
                      (u.hasCompletedWithdraw || CompletesOne(begun, es, wallet)) && now < times[|times| - 1] + wait
                    else
                      && !u.hasCompletedWithdraw && CompletesOne(begun, es, wallet)
                      && u.lastRequestedAtMs.Some? && now < u.lastRequestedAtMs.value + wait
  {
    var begun := Step(s, WithdrawStarts(cfg, wallet, amount, key, at));
    TaskWaitsInRun(begun, es, s.nextTask);
    FlagsAfterRun(begun, es, wallet);
    var t := begun.tasks[s.nextTask];
    assert Flags(begun.root, wallet, t.hasPrior, t.lastRequestedAtMs);
    hide Run, RequestTimes, CompletesOne;
    CoolingDownIs(RequestFor(Run(begun, es), t, hotBalance, now), cfg.withdraw);
    CoolingDownIs(AskedNow(Run(begun, es), t, hotBalance, now), cfg.withdraw);
  }
}
