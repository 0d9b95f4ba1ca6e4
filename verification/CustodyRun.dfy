/**
 * Two runs of the custody system from the empty store. In one the send of a cancelled row spends
 * another row's lock: a claim, a request that is cancelled, a second request, the send of the first.
 * In the other two requests begun at once both pass the cool-down: a claim, a request that is sent,
 * then two requests that both read the store before either makes its row.
 */
module CustodyRun {
  import opened Money
  import opened Text
  import opened Sums
  import opened Custody
  import opened CustodyLaws
  import opened ClaimLaws
  import opened WithdrawLaws
  import L = Ledger
  import D = DepositClaim
  import W = WithdrawPolicy
  import Addresses

  const DEPOSIT := 30
  const AMOUNT := 10

  /** One minute, the cool-down, after the first request. */
  const LATER := 60_000

  function Times(c: char, n: nat): (s: string)
    ensures |s| == n && forall i :: 0 <= i < n ==> s[i] == c
  {
    seq(n, i => c)
  }

  function Wallet(): string { Times('1', 32) }

  function Account(): string { Times('2', 32) }

  function Signature(): string { Times('1', 88) }

  function ClaimRules(): D.ClaimPolicy { D.ClaimPolicy(true, false, false, "usdc", {"usdc"}, 1, 0, 1000) }

  function WithdrawRules(): W.Policy { W.Policy(true, false, false, 0, 1, 1000, 1000, 1000, 1000) }

  function Settings(): Config { Config(ClaimRules(), Account(), true, false, WithdrawRules()) }

  function Leg(): D.Leg { D.Leg("usdc", Account(), Wallet(), DEPOSIT, D.SplToken) }

  function Tx(): D.FetchedTx { D.FetchedTx(true, 0, [Leg()]) }

  lemma KeysAreValid()
    ensures Addresses.IsValidSolanaPubkey(Wallet()) && Addresses.IsValidSolanaPubkey(Account())
    ensures Addresses.IsValidTxSignature(Signature())
  {
    assert Addresses.Base58Class('1') && Addresses.Base58Class('2');
  }

  // ---------------------------------------------------------------- the claim

  lemma ClaimIsAccepted(s: System)
    requires Signature() !in s.root.deposits
    ensures var t := AwaitFirst(Settings(), Wallet(), Signature());
            var d := D.Evaluate(ClaimInputFor(s, t, Tx()), ClaimRules());
            d.Accepted? && d.amount == DEPOSIT && !d.requireSecondary
  {
    KeysAreValid();
    var t := AwaitFirst(Settings(), Wallet(), Signature());
    var i := ClaimInputFor(s, t, Tx());
    hide Addresses.IsValidSolanaPubkey, Addresses.IsValidTxSignature;
    assert i.transfers == [Leg()] && Leg() in i.transfers;
    assert D.Matches(D.Bind(i, ClaimRules()), Leg());
    assert [Leg()][1..] == [];
    assert D.ClaimTotal(i, ClaimRules()) == DEPOSIT;
  }

  /** What the run keeps in view of a state. */
  ghost predicate View(s: System, n: nat, seq_: nat, row: L.Row, prior: bool) {
    && Inv(s.root) && s.nextTask == n && s.root.seq_ == seq_
    && s.root.outflow == (if prior then map[0 := AMOUNT] else map[]) && RowOf(s.root, Wallet()) == row
    && UserOf(s.root, Wallet()).selfExcludedUntilMs == None && UserOf(s.root, Wallet()).hasCompletedWithdraw == prior
  }

  function Claim(): seq<Event> {
    [ClaimStarts(Settings(), Wallet(), Signature()), FirstFetchReturns(0, Some(Tx()), 0)]
  }

  lemma AfterClaim()
    ensures LegalRun(START, Claim())
    ensures View(Run(START, Claim()), 1, 2, L.Row(DEPOSIT, 0, 0, false), false)
    ensures Run(START, Claim()).root.withdrawals == map[]
  {
    var s0 := Step(START, Claim()[0]);
    assert Claim()[1..] == [Claim()[1]] && [Claim()[1]][1..] == [];
    assert s0.tasks[0] == AwaitFirst(Settings(), Wallet(), Signature());
    ClaimIsAccepted(s0);
    StartOk();
    KeysAreValid();
    hide D.Evaluate, Inv, Addresses.IsValidSolanaPubkey, Addresses.IsValidTxSignature;
    AfterFetchKeeps(s0, 0, Tx(), 0);
    RecordIsExact(s0.root, Wallet(), Signature(), DEPOSIT, 0);
  }

  // ---------------------------------------------------------------- a large claim

  const LARGE := 5000

  function LargeTx(): D.FetchedTx { Tx().(transfers := [Leg().(amount := LARGE)]) }

  /** The claim reaches the threshold, so it takes both sources. */
  function LargeClaim(): seq<Event> {
    [ClaimStarts(Settings().(secondaryConfigured := true), Wallet(), Signature()),
     FirstFetchReturns(0, Some(LargeTx()), 0), SecondFetchReturns(0, Some(LargeTx()), Some(LargeTx()), 0)]
  }

  lemma LargeIsCreditable(t: Task)
    requires t == AwaitFirst(Settings().(secondaryConfigured := true), Wallet(), Signature())
             || t == AwaitSecond(Settings().(secondaryConfigured := true), Wallet(), Signature())
    ensures Creditable(t, LargeTx()) && Total(t, LargeTx()) == LARGE && IsLarge(t, LargeTx())
  {
    KeysAreValid();
    var i, p := ClaimOf(t.cfg, t.wallet, t.sig, LargeTx()), ClaimRules();
    hide Addresses.IsValidSolanaPubkey, Addresses.IsValidTxSignature;
    var leg := Leg().(amount := LARGE);
    assert i.transfers == [leg] && leg in i.transfers && D.OwnLeg(i, p, leg);
    assert [leg][1..] == [];
    assert D.PaidIn(i, p) == LARGE;
  }

  lemma SourcesAgree()
    ensures MergedSources(Some(LargeTx()), Some(LargeTx())) == Some(LargeTx())
  {
    hide D.LegKey;
  }

  ghost function LargeWaiting(): System { Step(Step(START, LargeClaim()[0]), LargeClaim()[1]) }

  lemma LargeRuns()
    ensures Run(START, LargeClaim()[..2]) == LargeWaiting()
    ensures Run(START, LargeClaim()) == Step(LargeWaiting(), LargeClaim()[2])
  {
    var es := LargeClaim();
    hide Step;
    var s1 := Step(START, es[0]);
    var s2 := Step(s1, es[1]);
    assert es[..2][0] == es[0] && es[..2][1..] == [es[1]] && [es[1]][1..] == [];
    assert es[1..] == [es[1], es[2]] && [es[1], es[2]][1..] == [es[2]] && [es[2]][1..] == [];
    assert Run(START, es[..2]) == Run(s1, [es[1]]) == Run(s2, []);
    assert Run(START, es) == Run(s1, [es[1], es[2]]) == Run(s2, [es[2]]) == Run(Step(s2, es[2]), []);
  }

  lemma LargeWaits()
    ensures var s := LargeWaiting();
            && s.root == START.root && Inv(s.root)
            && s.tasks == map[0 := AwaitSecond(Settings().(secondaryConfigured := true), Wallet(), Signature())]
  {
    var es := LargeClaim();
    var s1 := Step(START, es[0]);
    assert s1.root == START.root && s1.tasks == map[0 := AwaitFirst(es[0].cfg, Wallet(), Signature())];
    StartOk();
    LargeIsCreditable(AwaitFirst(es[0].cfg, Wallet(), Signature()));
    hide Creditable, IsLarge, Total, Inv, AfterFetch, LargeTx;
    CreditedExactlyWhen(s1, es[1]);
  }

  /** A run in which a claim above the threshold waits for the second fetch and then is credited in full. */
  lemma LargeClaimIsCredited()
    ensures var first, last := Run(START, LargeClaim()[..2]), Run(START, LargeClaim());
            && 0 in first.tasks && first.tasks[0].AwaitSecond? && first.root.deposits == map[]
            && Signature() in last.root.deposits && last.root.deposits[Signature()].amount == LARGE
            && RowOf(last.root, Wallet()).available == LARGE
  {
    LargeRuns();
    LargeWaits();
    LargeIsCreditable(AwaitSecond(Settings().(secondaryConfigured := true), Wallet(), Signature()));
    SourcesAgree();
    var s, e := LargeWaiting(), LargeClaim()[2];
    assert RowOf(s.root, Wallet()).available == 0;
    hide Creditable, IsLarge, Total, Inv, AfterFetch, RowOf, LargeTx, Run, LargeWaiting;
    CreditedExactlyWhen(s, e);
    CreditIsExact(s, e, Signature());
  }

  // ---------------------------------------------------------------- a request

  function QueuedAs(n: nat, key: string, now: int): Withdrawal {
    Withdrawal(WithdrawalId(n), Wallet(), AMOUNT, Wallet(), W.Pending, W.Auto, now, now, WithdrawKey(Wallet(), key))
  }

  function Waiting(key: string, read: L.Row, prior: bool, last: Option<int>): (t: Task)
    ensures t.AwaitHot?
  {
    AwaitHot(Settings(), Wallet(), AMOUNT, key, read.available, read.withdrawFrozen, false, prior, last)
  }

  lemma RequestStarts(s: System, n: nat, seq_: nat, row: L.Row, prior: bool, key: string, last: Option<int>, now: int)
    requires View(s, n, seq_, row, prior) && UserOf(s.root, Wallet()).lastRequestedAtMs == last
    ensures var s' := Step(s, WithdrawStarts(Settings(), Wallet(), AMOUNT, key, now));
            && View(s', n + 1, seq_, row, prior) && UserOf(s'.root, Wallet()).lastRequestedAtMs == last
            && s'.tasks == s.tasks[n := Waiting(key, row, prior, last)]
            && s'.root.withdrawals == s.root.withdrawals
  {
    KeysAreValid();
    hide Inv, Addresses.IsValidSolanaPubkey;
    var ledger := UserOf(s.root, Wallet()).ledger;
    QuietLedgerKeeps(s.root, Wallet(), L.Touch(ledger, Wallet()));
  }

  /** Past the cool-down of what was read. */
  predicate Rested(prior: bool, last: Option<int>, now: int) {
    prior && last.Some? ==> now >= last.value + LATER
  }

  lemma RequestIsApproved(s: System, n: nat, seq_: nat, row: L.Row, read: L.Row, prior: bool, key: string,
                                             last: Option<int>, now: int)
    requires View(s, n, seq_, row, prior) && read.available >= AMOUNT && !read.withdrawFrozen && Rested(prior, last, now)
    ensures var t := Waiting(key, read, prior, last);
            var q := RequestFor(s, t, AMOUNT, now);
            && W.Decide(q, WithdrawRules()) == W.Approved(AMOUNT, Wallet(), W.Auto, now)
            && QueuedRow(s, t, AMOUNT, now) == QueuedAs(seq_, key, now)
  {
    KeysAreValid();
    hide Inv, Addresses.IsValidSolanaPubkey;
  }

  /** What creating a withdrawal leaves alone. */
  lemma CreationFrame(r: Root, n: NewWithdrawal, now: int)
    ensures var r' := CreateWithdrawal(r, n, now).0;
            && r'.outflow == r.outflow
            && UserOf(r', n.wallet).selfExcludedUntilMs == UserOf(r, n.wallet).selfExcludedUntilMs
            && UserOf(r', n.wallet).hasCompletedWithdraw == UserOf(r, n.wallet).hasCompletedWithdraw
    ensures WithdrawalId(r.seq_) !in r.withdrawals && WithdrawalId(r.seq_) in CreateWithdrawal(r, n, now).0.withdrawals
            ==> CreateWithdrawal(r, n, now).0.seq_ == r.seq_ + 1
                && UserOf(CreateWithdrawal(r, n, now).0, n.wallet).lastRequestedAtMs == Some(now)
  {
  }

  /** The request may have read an older row than the wallet has now. */
  lemma HotBalanceQueues(s: System, n: nat, task: nat, seq_: nat, row: L.Row, read: L.Row, prior: bool, key: string,
                                            last: Option<int>, now: int)
    requires View(s, n, seq_, row, prior) && row.available >= AMOUNT && !row.withdrawFrozen
    requires read.available >= AMOUNT && !read.withdrawFrozen && Rested(prior, last, now)
    requires task in s.tasks && s.tasks[task] == Waiting(key, read, prior, last)
    requires IsClientKey(Wallet(), key) && !KeyTaken(s.root.withdrawals, WithdrawKey(Wallet(), key))
    ensures var s' := Step(s, HotBalanceReturns(task, Some(AMOUNT), now));
            && View(s', n, seq_ + 1, row.(available := row.available - AMOUNT, lockedWithdraw := row.lockedWithdraw + AMOUNT), prior)
            && s'.root.withdrawals == s.root.withdrawals[WithdrawalId(seq_) := QueuedAs(seq_, key, now)]
            && s'.tasks == s.tasks - {task} && UserOf(s'.root, Wallet()).lastRequestedAtMs == Some(now)
  {
    RequestIsApproved(s, n, seq_, row, read, prior, key, last, now);
    StaleReadIsSafe(s, task, AMOUNT, now);
    AfterHotKeeps(s, task, AMOUNT, now);
    CreationFrame(s.root, NewWithdrawal(Wallet(), AMOUNT, Wallet(), W.Auto, now, WithdrawKey(Wallet(), key)), now);
    hide Inv, CreateWithdrawal, W.Decide, RowOf, QueuedRow, QueuedAs, WithdrawKey, WithdrawalId;
  }

  function Request(task: nat, key: string): seq<Event> {
    [WithdrawStarts(Settings(), Wallet(), AMOUNT, key, 0), HotBalanceReturns(task, Some(AMOUNT), 0)]
  }

  lemma RequestIsQueued(s: System, n: nat, seq_: nat, row: L.Row, key: string)
    requires View(s, n, seq_, row, false) && row.available >= AMOUNT && !row.withdrawFrozen
    requires IsClientKey(Wallet(), key) && !KeyTaken(s.root.withdrawals, WithdrawKey(Wallet(), key))
    ensures LegalRun(s, Request(n, key))
    ensures var s' := Run(s, Request(n, key));
            && View(s', n + 1, seq_ + 1,
                    row.(available := row.available - AMOUNT, lockedWithdraw := row.lockedWithdraw + AMOUNT), false)
            && s'.root.withdrawals == s.root.withdrawals[WithdrawalId(seq_) := QueuedAs(seq_, key, 0)]
            && UserOf(s'.root, Wallet()).lastRequestedAtMs == Some(0)
  {
    var last := UserOf(s.root, Wallet()).lastRequestedAtMs;
    RequestStarts(s, n, seq_, row, false, key, last, 0);
    var es := Request(n, key);
    var s1 := Step(s, es[0]);
    HotBalanceQueues(s1, n + 1, n, seq_, row, row, false, key, last, 0);
    hide View, Step, QueuedAs, WithdrawalId, WithdrawKey;
    assert es[1..] == [es[1]] && [es[1]][1..] == [];
    assert Run(s1, [es[1]]) == Run(Step(s1, es[1]), []);
    assert LegalRun(Step(s1, es[1]), []);
    assert LegalRun(s1, [es[1]]);
  }

  // ---------------------------------------------------------------- the cancel

  lemma {:induction false} CancelReturns(s: System, n: nat, seq_: nat, row: L.Row, id: string)
    requires View(s, n, seq_, row, false) && id in s.root.withdrawals
    requires var x := s.root.withdrawals[id]; x.userId == Wallet() && x.status == W.Pending && x.amount == AMOUNT
    ensures LegalRun(s, [CancelRequested(Wallet(), id)])
    ensures var s' := Run(s, [CancelRequested(Wallet(), id)]);
            && View(s', n, seq_, row.(available := row.available + AMOUNT, lockedWithdraw := row.lockedWithdraw - AMOUNT), false)
            && s'.root.withdrawals == s.root.withdrawals[id := s.root.withdrawals[id].(status := W.Cancelled)]
  {
    KeysAreValid();
    PubkeyHasNoColon(Wallet());
    PendingIsLocked(s.root, id);
    CancelKeyFresh(s.root, Wallet(), id);
    CancelKeeps(s.root, Wallet(), id);
    var e := CancelRequested(Wallet(), id);
    assert [e][1..] == [];
    assert Run(s, [e]) == Step(s, e) by {
      assert Run(Step(s, e), []) == Step(s, e);
    }
    hide Inv, Addresses.IsValidSolanaPubkey, L.IsValidUserId, L.WasApplied, CancelKey;
  }

  // ---------------------------------------------------------------- the whole run

  lemma {:induction false} RunAppend(s: System, a: seq<Event>, b: seq<Event>)
    requires LegalRun(s, a) && LegalRun(Run(s, a), b)
    ensures LegalRun(s, a + b) && Run(s, a + b) == Run(Run(s, a), b)
    decreases |a|
  {
    hide Step, Missends;
    if |a| == 0 {
      assert a + b == b;
    } else {
      assert (a + b)[1..] == a[1..] + b;
      RunAppend(Step(s, a[0]), a[1..], b);
    }
  }

  const FIRST := WithdrawalId(2)
  const SECOND := WithdrawalId(3)

  function Events(): seq<Event> {
    Claim() + Request(1, "a") + [CancelRequested(Wallet(), FIRST)] + Request(2, "b")
  }

  lemma KeysDiffer(a: string, b: string)
    requires a != b
    ensures WithdrawKey(Wallet(), a) != WithdrawKey(Wallet(), b)
  {
    if WithdrawKey(Wallet(), a) == WithdrawKey(Wallet(), b) {
      WithdrawKeyInjective(Wallet(), a, Wallet(), b);
      assert false;
    }
  }

  lemma TwoKeys()
    ensures WithdrawKey(Wallet(), "a") != WithdrawKey(Wallet(), "b")
    ensures FIRST != SECOND
    ensures IsClientKey(Wallet(), "a") && IsClientKey(Wallet(), "b")
  {
    KeysDiffer("a", "b");
    if FIRST == SECOND {
      WithdrawalIdInjective(2, 3);
      assert false;
    }
  }

  ghost function AfterFirst(): System { Run(Run(START, Claim()), Request(1, "a")) }

  lemma AfterFirstIs()
    ensures LegalRun(START, Claim() + Request(1, "a"))
    ensures AfterFirst() == Run(START, Claim() + Request(1, "a"))
    ensures View(AfterFirst(), 2, 3, L.Row(20, 0, AMOUNT, false), false) && UserOf(AfterFirst().root, Wallet()).lastRequestedAtMs == Some(0)
    ensures AfterFirst().root.withdrawals == map[FIRST := QueuedAs(2, "a", 0)]
  {
    hide View, QueuedAs, WithdrawKey, WithdrawalId, Claim, Request, Run, LegalRun;
    AfterClaim();
    TwoKeys();
    var s1 := Run(START, Claim());
    RequestIsQueued(s1, 1, 2, L.Row(DEPOSIT, 0, 0, false), "a");
    RunAppend(START, Claim(), Request(1, "a"));
    assert s1.root.withdrawals[FIRST := QueuedAs(2, "a", 0)] == map[FIRST := QueuedAs(2, "a", 0)];
  }

  ghost function AfterCancel(): System { Run(AfterFirst(), [CancelRequested(Wallet(), FIRST)]) }

  lemma AfterCancelIs()
    ensures LegalRun(START, Claim() + Request(1, "a") + [CancelRequested(Wallet(), FIRST)])
    ensures AfterCancel() == Run(START, Claim() + Request(1, "a") + [CancelRequested(Wallet(), FIRST)])
    ensures View(AfterCancel(), 2, 3, L.Row(DEPOSIT, 0, 0, false), false)
    ensures AfterCancel().root.withdrawals == map[FIRST := QueuedAs(2, "a", 0).(status := W.Cancelled)]
  {
    hide View, WithdrawKey, WithdrawalId, Claim, Request, Run, LegalRun, AfterFirst;
    AfterFirstIs();
    CancelReturns(AfterFirst(), 2, 3, L.Row(20, 0, AMOUNT, false), FIRST);
    RunAppend(START, Claim() + Request(1, "a"), [CancelRequested(Wallet(), FIRST)]);
    assert map[FIRST := QueuedAs(2, "a", 0)][FIRST := QueuedAs(2, "a", 0).(status := W.Cancelled)]
        == map[FIRST := QueuedAs(2, "a", 0).(status := W.Cancelled)];
  }

  /** The run reaches a cancelled and a pending row of one wallet and one amount, with only the latter locked. */
  lemma BothRowsReached()
    ensures LegalRun(START, Events())
    ensures var r := Run(START, Events()).root;
            && Inv(r) && RowOf(r, Wallet()) == L.Row(20, 0, AMOUNT, false)
            && FIRST != SECOND
            && r.withdrawals == map[FIRST := QueuedAs(2, "a", 0).(status := W.Cancelled), SECOND := QueuedAs(3, "b", 0)]
  {
    hide WithdrawKey, WithdrawalId, Claim, Request, Run, LegalRun, AfterCancel, Inv, RowOf;
    AfterCancelIs();
    TwoKeys();
    var s := AfterCancel();
    assert !KeyTaken(s.root.withdrawals, WithdrawKey(Wallet(), "b"));
    RequestIsQueued(s, 2, 3, L.Row(DEPOSIT, 0, 0, false), "b");
    RunAppend(START, Claim() + Request(1, "a") + [CancelRequested(Wallet(), FIRST)], Request(2, "b"));
    assert s.root.withdrawals[SECOND := QueuedAs(3, "b", 0)]
        == map[FIRST := QueuedAs(2, "a", 0).(status := W.Cancelled), SECOND := QueuedAs(3, "b", 0)];
  }

  lemma LockIsPending(r: Root)
    requires Inv(r)
    ensures RowOf(r, Wallet()).lockedWithdraw == Sum(r.withdrawals, PendingOf(Wallet()))
  {
    hide RowsOk, UniqueKeys, KeysAccounted, Sum;
    assert WalletAgrees(r, Wallet());
  }

  /**
   * After that run the worker's send of the cancelled row goes through, on the other row's lock, and
   * the wallet can no longer cancel its pending row: the books no longer agree.
   */
  lemma CancelledSendIsReachable()
    ensures LegalRun(START, Events())
    ensures var r := Run(START, Events()).root;
            var (sent, reply) := MarkWithdrawalSent(r, FIRST, 0);
            && FIRST in r.withdrawals && r.withdrawals[FIRST].status == W.Cancelled
            && reply.Ok? && !BooksAgree(sent)
            && CancelUserWithdrawal(sent, Wallet(), SECOND).1 == Err(LedgerRefused(L.InsufficientLockedWithdraw))
  {
    BothRowsReached();
    hide Inv, Run, LegalRun, Events, MarkWithdrawalSent, CancelUserWithdrawal, BooksAgree, WithdrawKey, WithdrawalId, Sum;
    var r := Run(START, Events()).root;
    LockIsPending(r);
    CancelledSendTakesAnotherLock(r, FIRST, SECOND, 0);
    SendingCancelledRow(r, FIRST, 0);
  }

  // ---------------------------------------------------------------- two requests at once

  lemma SendReturns(s: System, n: nat, seq_: nat, row: L.Row, last: Option<int>)
    requires View(s, n, seq_, row, false) && UserOf(s.root, Wallet()).lastRequestedAtMs == last
    requires s.root.withdrawals == map[FIRST := QueuedAs(2, "a", 0)]
    ensures var s' := Step(s, SendSucceeds(FIRST, 0));
            && View(s', n, seq_, row.(lockedWithdraw := row.lockedWithdraw - AMOUNT), true)
            && s'.root.withdrawals == map[FIRST := QueuedAs(2, "a", 0).(status := W.Sent)]
            && UserOf(s'.root, Wallet()).lastRequestedAtMs == last
  {
    KeysAreValid();
    PubkeyHasNoColon(Wallet());
    hide Inv, Addresses.IsValidSolanaPubkey, L.IsValidUserId, L.WasApplied, CompleteKey;
    PendingIsLocked(s.root, FIRST);
    CompleteKeyFresh(s.root, Wallet(), FIRST);
    SendKeeps(s.root, FIRST, 0);
    assert map[FIRST := QueuedAs(2, "a", 0)][FIRST := QueuedAs(2, "a", 0).(status := W.Sent)]
        == map[FIRST := QueuedAs(2, "a", 0).(status := W.Sent)];
  }

  function Sending(): seq<Event> { Claim() + Request(1, "a") + [SendSucceeds(FIRST, 0)] }

  lemma AfterSendingIs()
    ensures LegalRun(START, Sending())
    ensures var s := Run(START, Sending());
            && View(s, 2, 3, L.Row(20, 0, 0, false), true) && UserOf(s.root, Wallet()).lastRequestedAtMs == Some(0)
            && s.root.withdrawals == map[FIRST := QueuedAs(2, "a", 0).(status := W.Sent)]
  {
    hide View, WithdrawKey, WithdrawalId, Claim, Request, Step, AfterFirst;
    AfterFirstIs();
    var e := SendSucceeds(FIRST, 0);
    SendReturns(AfterFirst(), 2, 3, L.Row(20, 0, AMOUNT, false), Some(0));
    assert [e][1..] == [];
    assert Run(AfterFirst(), [e]) == Run(Step(AfterFirst(), e), []);
    assert LegalRun(Step(AfterFirst(), e), []);
    RunAppend(START, Claim() + Request(1, "a"), [e]);
  }

  const THIRD := WithdrawalId(4)

  function Begins(key: string): Event { WithdrawStarts(Settings(), Wallet(), AMOUNT, key, LATER) }

  function Returns(task: nat): Event { HotBalanceReturns(task, Some(AMOUNT), LATER) }

  /** Both requests read the store, then both go on. */
  function Both(): seq<Event> { [Begins("b"), Begins("c"), Returns(2), Returns(3)] }

  ghost function BothBegun(): System { Step(Step(Run(START, Sending()), Begins("b")), Begins("c")) }

  ghost function OneMade(): System { Step(BothBegun(), Returns(2)) }

  lemma BothBegunIs()
    ensures var s, read := BothBegun(), L.Row(20, 0, 0, false);
            && View(s, 4, 3, read, true) && UserOf(s.root, Wallet()).lastRequestedAtMs == Some(0)
            && {2, 3} <= s.tasks.Keys
            && s.tasks[2] == Waiting("b", read, true, Some(0)) && s.tasks[3] == Waiting("c", read, true, Some(0))
            && s.root.withdrawals == map[FIRST := QueuedAs(2, "a", 0).(status := W.Sent)]
  {
    hide View, QueuedAs, WithdrawKey, WithdrawalId, Sending, Step, Run, Waiting;
    AfterSendingIs();
    var s := Run(START, Sending());
    RequestStarts(s, 2, 3, L.Row(20, 0, 0, false), true, "b", Some(0), LATER);
    RequestStarts(Step(s, Begins("b")), 3, 3, L.Row(20, 0, 0, false), true, "c", Some(0), LATER);
  }

  lemma OneMadeIs()
    ensures var s := OneMade();
            && View(s, 4, 4, L.Row(10, 0, AMOUNT, false), true) && UserOf(s.root, Wallet()).lastRequestedAtMs == Some(LATER)
            && 3 in s.tasks && s.tasks[3] == Waiting("c", L.Row(20, 0, 0, false), true, Some(0))
            && s.root.withdrawals == map[FIRST := QueuedAs(2, "a", 0).(status := W.Sent)][SECOND := QueuedAs(3, "b", LATER)]
  {
    hide View, WithdrawKey, WithdrawalId, Step, BothBegun, Waiting;
    BothBegunIs();
    KeysDiffer("a", "b");
    var s := BothBegun();
    assert !KeyTaken(s.root.withdrawals, WithdrawKey(Wallet(), "b"));
    HotBalanceQueues(s, 4, 2, 3, L.Row(20, 0, 0, false), L.Row(20, 0, 0, false), true, "b", Some(0), LATER);
  }

  lemma BothMadeIs()
    ensures SECOND != THIRD
    ensures Step(OneMade(), Returns(3)).root.withdrawals
            == OneMade().root.withdrawals[THIRD := QueuedAs(4, "c", LATER)]
  {
    hide View, WithdrawKey, WithdrawalId, Step, OneMade, Waiting;
    OneMadeIs();
    KeysDiffer("a", "c");
    KeysDiffer("b", "c");
    if SECOND == THIRD {
      WithdrawalIdInjective(3, 4);
      assert false;
    }
    var s := OneMade();
    assert !KeyTaken(s.root.withdrawals, WithdrawKey(Wallet(), "c"));
    HotBalanceQueues(s, 4, 3, 4, L.Row(10, 0, AMOUNT, false), L.Row(20, 0, 0, false), true, "c", Some(0), LATER);
  }

  lemma BothRuns()
    ensures LegalRun(START, Sending() + Both())
    ensures Run(START, Sending() + Both()) == Step(OneMade(), Returns(3))
  {
    hide Step, Sending;
    AfterSendingIs();
    var s, es := Run(START, Sending()), Both();
    assert es[1..] == [Begins("c"), Returns(2), Returns(3)];
    assert es[1..][1..] == [Returns(2), Returns(3)];
    assert [Returns(2), Returns(3)][1..] == [Returns(3)] && [Returns(3)][1..] == [];
    assert Run(Step(OneMade(), Returns(3)), []) == Step(OneMade(), Returns(3));
    assert Run(OneMade(), [Returns(3)]) == Step(OneMade(), Returns(3));
    assert LegalRun(Step(OneMade(), Returns(3)), []);
    assert LegalRun(OneMade(), [Returns(3)]);
    assert LegalRun(BothBegun(), [Returns(2), Returns(3)]);
    RunAppend(START, Sending(), Both());
  }

  /**
   * Two requests of one wallet that read the store at the same time both pass the cool-down of one
   * minute: they make two rows in the same millisecond, the second while the store's own record would
   * have refused it.
   */
  lemma TwoRequestsPassCooldown()
    ensures LegalRun(START, Sending() + Both())
    ensures var ws := Run(START, Sending() + Both()).root.withdrawals;
            && SECOND != THIRD && SECOND in ws && THIRD in ws
            && ws[SECOND].userId == ws[THIRD].userId && ws[SECOND].createdAtMs == ws[THIRD].createdAtMs
    ensures 3 in OneMade().tasks && OneMade().tasks[3].AwaitHot?
            && W.CoolingDown(AskedNow(OneMade(), OneMade().tasks[3], AMOUNT, LATER), WithdrawRules())
  {
    hide Step, Sending, Both, WithdrawalId, WithdrawKey, OneMade, Run, LegalRun;
    BothRuns();
    OneMadeIs();
    BothMadeIs();
  }
}
