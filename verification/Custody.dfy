/**
 * The custody store (apps/web/src/lib/custody/user-store.ts) and the two services that run against
 * it, cut into steps at their awaits (deposit-service.ts, withdraw-service.ts).
 *
 * Functions say what each call does to the store; `CustodyStore` is the source's code.
 */
module Custody {
  import opened Clock
  import opened Money
  import opened Sums
  import opened Text
  import L = Ledger
  import D = DepositClaim
  import W = WithdrawPolicy
  import Addresses

  datatype DepositRecord = DepositRecord(id: string, userId: string, txSignature: string, amount: int, creditedAt: int)

  datatype Withdrawal = Withdrawal(
    id: string, userId: string, amount: int, destination: string, status: W.WithdrawalStatus,
    level: W.ApprovalLevel, availableAtMs: int, createdAtMs: int, idempotencyKey: string)

  datatype UserCustody = UserCustody(
    ledger: L.Books, selfExcludedUntilMs: Option<int>, hasCompletedWithdraw: bool, lastRequestedAtMs: Option<int>)

  datatype Root = Root(
    users: map<string, UserCustody>, deposits: map<string, DepositRecord>,
    withdrawals: map<string, Withdrawal>, outflow: map<int, int>, seq_: nat)

  datatype Error = InvalidWallet | LedgerRefused(error: L.Error) | NotFound | NotCancellable

  datatype Result<+T> = Ok(value: T) | Err(error: Error)

  const FRESH_USER := UserCustody(L.EMPTY_BOOKS, None, false, None)
  const EMPTY_ROOT := Root(map[], map[], map[], map[], 1)

  function UserOf(r: Root, wallet: string): UserCustody {
    if wallet in r.users then r.users[wallet] else FRESH_USER
  }

  /** The wallet's row in its own ledger. */
  function RowOf(r: Root, wallet: string): L.Row {
    L.RowOf(UserOf(r, wallet).ledger, wallet)
  }

  // ---------------------------------------------------------------- idempotency keys

  function DepositKey(txSignature: string): string { "deposit:tx:" + txSignature }

  function WithdrawKey(wallet: string, clientKey: string): string {
    "withdraw:req:" + wallet + ":" + clientKey
  }

  function CancelKey(id: string): string { "cancel:" + id }

  function CompleteKey(id: string): string { "complete:" + id }

  function DepositId(n: nat): string { "dep_" + Dec(n) }

  function WithdrawalId(n: nat): string { "wd_" + Dec(n) }

  /** withdrawIdempotencyKey refuses empty parts, newlines and long client keys. */
  predicate IsClientKey(wallet: string, clientKey: string) {
    |wallet| > 0 && |clientKey| > 0 && '\n' !in clientKey && |clientKey| <= 128
  }

  // ---------------------------------------------------------------- the store's operations

  function SetLedger(r: Root, wallet: string, books: L.Books): Root {
    r.(users := r.users[wallet := UserOf(r, wallet).(ledger := books)])
  }

  function RecordDepositCredit(r: Root, wallet: string, sig: string, amount: int, key: string, now: int)
    : (Root, Result<DepositRecord>)
  {
    if sig in r.deposits then (r, Ok(r.deposits[sig]))
    else if !Addresses.IsValidSolanaPubkey(wallet) then (r, Err(InvalidWallet))
    else
      var (books, reply) := L.Apply(UserOf(r, wallet).ledger, L.Move(L.CreditDeposit(amount), wallet, Some(key)));
      var r1 := SetLedger(r, wallet, books);
      if reply.Failed? then (r1, Err(LedgerRefused(reply.error))) else
        var rec := DepositRecord(DepositId(r.seq_), wallet, sig, amount, now);
        (r1.(deposits := r.deposits[sig := rec], seq_ := r.seq_ + 1), Ok(rec))
  }

  ghost predicate HasKey(ws: map<string, Withdrawal>, id: string, key: string) {
    id in ws && ws[id].idempotencyKey == key
  }

  ghost predicate UniqueKeys(ws: map<string, Withdrawal>) {
    forall i, j | i in ws && j in ws :: ws[i].idempotencyKey == ws[j].idempotencyKey ==> i == j
  }

  ghost predicate KeyTaken(ws: map<string, Withdrawal>, key: string) {
    exists id :: HasKey(ws, id, key)
  }

  ghost function IdWithKey(ws: map<string, Withdrawal>, key: string): (id: string)
    requires KeyTaken(ws, key)
    ensures HasKey(ws, id, key)
  {
    var id :| HasKey(ws, id, key); id
  }

  datatype NewWithdrawal = NewWithdrawal(
    wallet: string, amount: int, destination: string, level: W.ApprovalLevel, availableAtMs: int, key: string)

  function RowFor(n: NewWithdrawal, seq_: nat, now: int): Withdrawal {
    Withdrawal(WithdrawalId(seq_), n.wallet, n.amount, n.destination, W.Pending, n.level, n.availableAtMs, now, n.key)
  }

  ghost function CreateWithdrawal(r: Root, n: NewWithdrawal, now: int): (Root, Result<Withdrawal>) {
    if KeyTaken(r.withdrawals, n.key) then (r, Ok(r.withdrawals[IdWithKey(r.withdrawals, n.key)]))
    else if !Addresses.IsValidSolanaPubkey(n.wallet) then (r, Err(InvalidWallet))
    else
      var (books, reply) := L.Apply(UserOf(r, n.wallet).ledger, L.Move(L.RequestWithdraw(n.amount), n.wallet, Some(n.key)));
      if reply.Failed? then (SetLedger(r, n.wallet, books), Err(LedgerRefused(reply.error))) else
        var rec := RowFor(n, r.seq_, now);
        (r.(users := r.users[n.wallet := UserOf(r, n.wallet).(ledger := books, lastRequestedAtMs := Some(now))],
            withdrawals := r.withdrawals[rec.id := rec], seq_ := r.seq_ + 1),
         Ok(rec))
  }

  function CancelUserWithdrawal(r: Root, wallet: string, id: string): (Root, Result<Withdrawal>) {
    if id !in r.withdrawals || r.withdrawals[id].userId != wallet then (r, Err(NotFound))
    else if r.withdrawals[id].status != W.Pending then (r, Err(NotCancellable))
    else if !Addresses.IsValidSolanaPubkey(wallet) then (r, Err(InvalidWallet))
    else
      var rec := r.withdrawals[id];
      var (books, reply) :=
        L.Apply(UserOf(r, wallet).ledger, L.Move(L.CancelWithdraw(rec.amount), wallet, Some(CancelKey(rec.id))));
      var r1 := SetLedger(r, wallet, books);
      if reply.Failed? then (r1, Err(LedgerRefused(reply.error))) else
        var rec' := rec.(status := W.Cancelled);
        (r1.(withdrawals := r.withdrawals[id := rec']), Ok(rec'))
  }

  function AddOutflow(outflow: map<int, int>, amount: int, now: int): map<int, int> {
    outflow[Day(now) := (if Day(now) in outflow then outflow[Day(now)] else 0) + amount]
  }

  /** The code looks only for rows already sent; see `SendingCancelledRow` for what that allows. */
  function MarkWithdrawalSent(r: Root, id: string, now: int): (Root, Result<Withdrawal>) {
    if id !in r.withdrawals then (r, Err(NotFound))
    else if r.withdrawals[id].status == W.Sent then (r, Ok(r.withdrawals[id]))
    else if !Addresses.IsValidSolanaPubkey(r.withdrawals[id].userId) then (r, Err(InvalidWallet))
    else
      var rec := r.withdrawals[id];
      var (books, reply) := L.Apply(UserOf(r, rec.userId).ledger,
                                    L.Move(L.CompleteWithdraw(rec.amount), rec.userId, Some(CompleteKey(rec.id))));
      if reply.Failed? then (SetLedger(r, rec.userId, books), Err(LedgerRefused(reply.error))) else
        var rec' := rec.(status := W.Sent);
        (r.(users := r.users[rec.userId := UserOf(r, rec.userId).(ledger := books, hasCompletedWithdraw := true)],
            withdrawals := r.withdrawals[id := rec'],
            outflow := AddOutflow(r.outflow, rec.amount, now)),
         Ok(rec'))
  }

  // ---------------------------------------------------------------- the services, step by step

  datatype Config = Config(
    claim: D.ClaimPolicy, depositAta: string, rpcConfigured: bool, secondaryConfigured: bool, withdraw: W.Policy)

  /** A request that is waiting for an await to return, with the locals it still holds. */
  datatype Task =
    | AwaitFirst(cfg: Config, wallet: string, sig: string)
    | AwaitSecond(cfg: Config, wallet: string, sig: string)
    | AwaitHot(cfg: Config, wallet: string, amount: int, clientKey: string,
               available: int, frozen: bool, selfExcluded: bool, hasPrior: bool, lastRequestedAtMs: Option<int>)

  datatype System = System(root: Root, tasks: map<nat, Task>, nextTask: nat)

  const START := System(EMPTY_ROOT, map[], 0)

  datatype Event =
    | ClaimStarts(cfg: Config, wallet: string, sig: string)
    | FirstFetchReturns(task: nat, tx: Option<D.FetchedTx>, now: int)
    | SecondFetchReturns(task: nat, primary: Option<D.FetchedTx>, secondary: Option<D.FetchedTx>, now: int)
    | WithdrawStarts(cfg: Config, wallet: string, amount: int, clientKey: string, now: int)
    | HotBalanceReturns(task: nat, balance: Option<int>, now: int)
    | CancelRequested(wallet: string, id: string)
    | SendSucceeds(id: string, now: int)

  function Spawn(s: System, t: Task): System {
    s.(tasks := s.tasks[s.nextTask := t], nextTask := s.nextTask + 1)
  }

  function Finish(s: System, task: nat): System {
    s.(tasks := s.tasks - {task})
  }

  function ClaimInputFor(s: System, t: Task, tx: D.FetchedTx): D.ClaimInput
    requires t.AwaitFirst? || t.AwaitSecond?
  {
    D.ClaimOn(D.ClaimInput(t.wallet, t.sig, false, 0, t.cfg.depositAta, [], t.sig in s.root.deposits, false), tx)
  }

  /** Lines 89-187 of deposit-service.ts, from the return of one fetch to the next await or the end. */
  function AfterFetch(s: System, task: nat, tx: D.FetchedTx, now: int): System
    requires task in s.tasks && (s.tasks[task].AwaitFirst? || s.tasks[task].AwaitSecond?)
  {
    var t := s.tasks[task];
    var decision := D.Evaluate(ClaimInputFor(s, t, tx), t.cfg.claim);
    if decision.Rejected? then Finish(s, task)
    else if t.AwaitFirst? && decision.requireSecondary then
      if !t.cfg.secondaryConfigured then Finish(s, task)
      else s.(tasks := s.tasks[task := AwaitSecond(t.cfg, t.wallet, t.sig)])
    else
      var (root, _) := RecordDepositCredit(s.root, t.wallet, t.sig, decision.amount, DepositKey(t.sig), now);
      Finish(s.(root := root), task)
  }

  function MergedSources(primary: Option<D.FetchedTx>, secondary: Option<D.FetchedTx>): Option<D.FetchedTx> {
    if primary.None? || secondary.None? then None else D.MergeSources(primary.value, secondary.value)
  }

  /** The policy question of lines 109-124 of withdraw-service.ts, on the balance read earlier. */
  function RequestFor(s: System, t: Task, hotBalance: int, now: int): W.Request
    requires t.AwaitHot?
  {
    var day := Day(now);
    W.Request(t.wallet, t.wallet, t.amount, t.available, t.selfExcluded, t.frozen, t.hasPrior,
              t.lastRequestedAtMs, now, if day in s.root.outflow then s.root.outflow[day] else 0, hotBalance)
  }

  /** The row to be made of an approved request. */
  function QueueFor(t: Task, d: W.Decision): NewWithdrawal
    requires t.AwaitHot? && d.Approved?
  {
    NewWithdrawal(t.wallet, d.amount, d.destination, d.level, d.availableAtMs, WithdrawKey(t.wallet, t.clientKey))
  }

  /** Lines 109-166 of withdraw-service.ts: what happens to the store. */
  ghost function AfterHotBalance(s: System, task: nat, hotBalance: int, now: int): System
    requires task in s.tasks && s.tasks[task].AwaitHot?
  {
    var t := s.tasks[task];
    var d := W.Decide(RequestFor(s, t, hotBalance, now), t.cfg.withdraw);
    if d.Refused? || !IsClientKey(t.wallet, t.clientKey) then Finish(s, task)
    else Finish(s.(root := CreateWithdrawal(s.root, QueueFor(t, d), now).0), task)
  }

  datatype Answer = NotApproved(reason: W.RejectReason) | BadClientKey | Stored(result: Result<Withdrawal>)

  /** The same lines: what the caller is told. */
  ghost function AnswerFor(s: System, task: nat, hotBalance: int, now: int): Answer
    requires task in s.tasks && s.tasks[task].AwaitHot?
  {
    var t := s.tasks[task];
    var d := W.Decide(RequestFor(s, t, hotBalance, now), t.cfg.withdraw);
    if d.Refused? then NotApproved(d.reason)
    else if !IsClientKey(t.wallet, t.clientKey) then BadClientKey
    else Stored(CreateWithdrawal(s.root, QueueFor(t, d), now).1)
  }

  function ReadForWithdraw(s: System, cfg: Config, wallet: string, amount: int, clientKey: string, now: int): System {
    if !cfg.withdraw.withdrawalsEnabled || !IsSafeAmount(amount) || !Addresses.IsValidSolanaPubkey(wallet) then s else
      var u := UserOf(s.root, wallet);
      var row := L.RowOf(u.ledger, wallet);
      var touched := SetLedger(s.root, wallet, L.Touch(u.ledger, wallet));
      Spawn(s.(root := touched),
            AwaitHot(cfg, wallet, amount, clientKey, row.available, row.withdrawFrozen,
                     u.selfExcludedUntilMs.Some? && u.selfExcludedUntilMs.value > now,
                     u.hasCompletedWithdraw, u.lastRequestedAtMs))
  }

  /** One stretch of code between awaits. */
  ghost function Step(s: System, e: Event): System {
    match e
    case ClaimStarts(cfg, wallet, sig) =>
      if cfg.claim.depositsEnabled && cfg.depositAta != "" && cfg.rpcConfigured
      then Spawn(s, AwaitFirst(cfg, wallet, sig)) else s
    case FirstFetchReturns(task, tx, now) =>
      if task !in s.tasks || !s.tasks[task].AwaitFirst? then s
      else if tx.None? then Finish(s, task)
      else AfterFetch(s, task, tx.value, now)
    case SecondFetchReturns(task, primary, secondary, now) =>
      if task !in s.tasks || !s.tasks[task].AwaitSecond? then s
      else if MergedSources(primary, secondary).None? then Finish(s, task)
      else AfterFetch(s, task, MergedSources(primary, secondary).value, now)
    case WithdrawStarts(cfg, wallet, amount, clientKey, now) => ReadForWithdraw(s, cfg, wallet, amount, clientKey, now)
    case HotBalanceReturns(task, balance, now) =>
      if task !in s.tasks || !s.tasks[task].AwaitHot? then s
      else if balance.None? then Finish(s, task)
      else AfterHotBalance(s, task, balance.value, now)
    case CancelRequested(wallet, id) => s.(root := CancelUserWithdrawal(s.root, wallet, id).0)
    case SendSucceeds(id, now) => s.(root := MarkWithdrawalSent(s.root, id, now).0)
  }

  // ---------------------------------------------------------------- the store object

  class CustodyStore {
    var users: map<string, UserCustody>
    var deposits: map<string, DepositRecord>
    var withdrawals: map<string, Withdrawal>
    var hotDailyOutflow: map<int, int>
    var nextSeq: nat

    function State(): Root
      reads this
    {
      Root(users, deposits, withdrawals, hotDailyOutflow, nextSeq)
    }

    /** No two rows share an idempotency key, so a search for one has one answer. */
    ghost predicate Valid()
      reads this
    {
      UniqueKeys(withdrawals)
    }

    constructor ()
      ensures State() == EMPTY_ROOT && Valid()
    {
      users, deposits, withdrawals, hotDailyOutflow := map[], map[], map[], map[];
      nextSeq := 1;
    }

    method GetOrCreateUser(wallet: string) returns (u: UserCustody)
      modifies this`users
      ensures u == UserOf(old(State()), wallet)
      ensures users == old(users)[wallet := u]
    {
      if wallet !in users {
        users := users[wallet := FRESH_USER];
      }
      u := users[wallet];
    }

    method NextId(prefix: string) returns (id: string)
      modifies this`nextSeq
      ensures id == prefix + "_" + Dec(old(nextSeq)) && nextSeq == old(nextSeq) + 1
    {
      id := prefix + "_" + Dec(nextSeq);
      nextSeq := nextSeq + 1;
    }

    /** Lines 115-143. */
    method Credit(wallet: string, sig: string, amount: int, key: string, now: int) returns (r: Result<DepositRecord>)
      modifies this
      ensures (State(), r) == RecordDepositCredit(old(State()), wallet, sig, amount, key, now)
      ensures withdrawals == old(withdrawals)
    {
      if sig in deposits {
        return Ok(deposits[sig]);
      }
      if !Addresses.IsValidSolanaPubkey(wallet) {
        return Err(InvalidWallet);
      }
      var user := GetOrCreateUser(wallet);
      var (books, reply) := L.Apply(user.ledger, L.Move(L.CreditDeposit(amount), wallet, Some(key)));
      users := users[wallet := user.(ledger := books)];
      assert users == SetLedger(old(State()), wallet, books).users;
      if reply.Failed? {
        return Err(LedgerRefused(reply.error));
      }
      var id := NextId("dep");
      assert "dep" + "_" == "dep_";
      var rec := DepositRecord(id, wallet, sig, amount, now);
      deposits := deposits[sig := rec];
      return Ok(rec);
    }

    /** Lines 182-186: the row with this key, if there is one. */
    method FindByKey(key: string) returns (found: Option<Withdrawal>)
      requires Valid()
      ensures found.Some? <==> KeyTaken(withdrawals, key)
      ensures found.Some? ==> found.value == withdrawals[IdWithKey(withdrawals, key)]
    {
      var rest := withdrawals;
      while rest != map[]
        invariant forall id :: id in rest ==> id in withdrawals && rest[id] == withdrawals[id]
        invariant forall id :: id in withdrawals && id !in rest ==> !HasKey(withdrawals, id, key)
        decreases |rest|
      {
        var id :| id in rest;
        if rest[id].idempotencyKey == key {
          assert HasKey(withdrawals, id, key);
          return Some(rest[id]);
        }
        rest := rest - {id};
      }
      return None;
    }

    lemma KeepsUnique(ws: map<string, Withdrawal>, id: string, rec: Withdrawal)
      requires UniqueKeys(ws) && !KeyTaken(ws, rec.idempotencyKey)
      ensures UniqueKeys(ws[id := rec])
    {
      assert forall i | i in ws :: ws[i].idempotencyKey == rec.idempotencyKey ==> HasKey(ws, i, rec.idempotencyKey);
    }

    /** Lines 172-208. */
    method Create(n: NewWithdrawal, now: int) returns (r: Result<Withdrawal>)
      requires Valid()
      modifies this
      ensures Valid()
      ensures (State(), r) == CreateWithdrawal(old(State()), n, now)
    {
      var found := FindByKey(n.key);
      if found.Some? {
        return Ok(found.value);
      }
      if !Addresses.IsValidSolanaPubkey(n.wallet) {
        return Err(InvalidWallet);
      }
      var user := GetOrCreateUser(n.wallet);
      var (books, reply) := L.Apply(user.ledger, L.Move(L.RequestWithdraw(n.amount), n.wallet, Some(n.key)));
      users := users[n.wallet := user.(ledger := books)];
      assert users == old(users)[n.wallet := user.(ledger := books)];
      if reply.Failed? {
        return Err(LedgerRefused(reply.error));
      }
      users := users[n.wallet := user.(ledger := books, lastRequestedAtMs := Some(now))];
      assert users == old(users)[n.wallet := user.(ledger := books, lastRequestedAtMs := Some(now))];
      var id := NextId("wd");
      assert "wd" + "_" == "wd_";
      var rec := Withdrawal(id, n.wallet, n.amount, n.destination, W.Pending, n.level, n.availableAtMs, now, n.key);
      KeepsUnique(withdrawals, id, rec);
      withdrawals := withdrawals[id := rec];
      return Ok(rec);
    }

    /** Lines 224-245. */
    method Cancel(wallet: string, id: string) returns (r: Result<Withdrawal>)
      requires Valid()
      modifies this
      ensures Valid()
      ensures (State(), r) == CancelUserWithdrawal(old(State()), wallet, id)
    {
      if id !in withdrawals || withdrawals[id].userId != wallet {
        return Err(NotFound);
      }
      var rec := withdrawals[id];
      if rec.status != W.Pending {
        return Err(NotCancellable);
      }
      if !Addresses.IsValidSolanaPubkey(wallet) {
        return Err(InvalidWallet);
      }
      var user := GetOrCreateUser(wallet);
      var (books, reply) := L.Apply(user.ledger, L.Move(L.CancelWithdraw(rec.amount), wallet, Some(CancelKey(rec.id))));
      users := users[wallet := user.(ledger := books)];
      assert users == SetLedger(old(State()), wallet, books).users;
      if reply.Failed? {
        return Err(LedgerRefused(reply.error));
      }
      rec := rec.(status := W.Cancelled);
      withdrawals := withdrawals[id := rec];
      return Ok(rec);
    }

    method AddHotDailyOutflow(amount: int, now: int)
      modifies this`hotDailyOutflow
      ensures hotDailyOutflow == AddOutflow(old(hotDailyOutflow), amount, now)
      ensures Sum(hotDailyOutflow, Identity()) == Sum(old(hotDailyOutflow), Identity()) + amount
      ensures hotDailyOutflow - {Day(now)} == old(hotDailyOutflow) - {Day(now)}
    {
      var k := Day(now);
      SumUpdate(hotDailyOutflow, Identity(), k, (if k in hotDailyOutflow then hotDailyOutflow[k] else 0) + amount);
      hotDailyOutflow := hotDailyOutflow[k := (if k in hotDailyOutflow then hotDailyOutflow[k] else 0) + amount];
    }

    /** Lines 248-264. */
    method MarkSent(id: string, now: int) returns (r: Result<Withdrawal>)
      requires Valid()
      modifies this
      ensures Valid()
      ensures (State(), r) == MarkWithdrawalSent(old(State()), id, now)
    {
      if id !in withdrawals {
        return Err(NotFound);
      }
      var rec := withdrawals[id];
      if rec.status == W.Sent {
        return Ok(rec);
      }
      if !Addresses.IsValidSolanaPubkey(rec.userId) {
        return Err(InvalidWallet);
      }
      var user := GetOrCreateUser(rec.userId);
      var (books, reply) :=
        L.Apply(user.ledger, L.Move(L.CompleteWithdraw(rec.amount), rec.userId, Some(CompleteKey(rec.id))));
      users := users[rec.userId := user.(ledger := books)];
      assert users == SetLedger(old(State()), rec.userId, books).users;
      if reply.Failed? {
        return Err(LedgerRefused(reply.error));
      }
      rec := rec.(status := W.Sent);
      withdrawals := withdrawals[id := rec];
      users := users[rec.userId := user.(ledger := books, hasCompletedWithdraw := true)];
      assert users == old(users)[rec.userId := user.(ledger := books, hasCompletedWithdraw := true)];
      AddHotDailyOutflow(rec.amount, now);
      return Ok(rec);
    }

    /** The claim service after a fetch has returned `tx`; `next` is the await it stops at, if any. */
    method ClaimAfterFetch(t: Task, tx: D.FetchedTx, now: int) returns (next: Option<Task>)
      requires Valid() && (t.AwaitFirst? || t.AwaitSecond?)
      modifies this
      ensures Valid()
      ensures var after := AfterFetch(System(old(State()), map[0 := t], 1), 0, tx, now);
              && State() == after.root
              && after.tasks == if next.Some? then map[0 := next.value] else map[]
    {
      ghost var s := System(State(), map[0 := t], 1);
      var input := D.ClaimOn(D.ClaimInput(t.wallet, t.sig, false, 0, t.cfg.depositAta, [], t.sig in deposits, false), tx);
      assert input == ClaimInputFor(s, t, tx);
      var decision := D.EvaluateDepositClaim(input, t.cfg.claim);
      assert s.tasks - {0} == map[];
      if decision.Rejected? {
        return None;
      }
      if t.AwaitFirst? && decision.requireSecondary {
        if !t.cfg.secondaryConfigured {
          return None;
        }
        assert s.tasks[0 := AwaitSecond(t.cfg, t.wallet, t.sig)] == map[0 := AwaitSecond(t.cfg, t.wallet, t.sig)];
        return Some(AwaitSecond(t.cfg, t.wallet, t.sig));
      }
      var _ := Credit(t.wallet, t.sig, decision.amount, DepositKey(t.sig), now);
      return None;
    }

    /** The withdraw service after the hot balance has been read. */
    method RequestAfterHotBalance(t: Task, hotBalance: int, now: int) returns (answer: Answer)
      requires Valid() && t.AwaitHot?
      modifies this
      ensures Valid()
      ensures var s := System(old(State()), map[0 := t], 1);
              State() == AfterHotBalance(s, 0, hotBalance, now).root && answer == AnswerFor(s, 0, hotBalance, now)
    {
      ghost var s := System(State(), map[0 := t], 1);
      var day := Day(now);
      var q := W.Request(t.wallet, t.wallet, t.amount, t.available, t.selfExcluded, t.frozen, t.hasPrior,
                         t.lastRequestedAtMs, now, if day in hotDailyOutflow then hotDailyOutflow[day] else 0, hotBalance);
      assert q == RequestFor(s, t, hotBalance, now);
      var d := W.EvaluateWithdrawRequest(q, t.cfg.withdraw);
      if d.Refused? {
        return NotApproved(d.reason);
      }
      if !IsClientKey(t.wallet, t.clientKey) {
        return BadClientKey;
      }
      var made := Create(QueueFor(t, d), now);
      return Stored(made);
    }
  }
}
