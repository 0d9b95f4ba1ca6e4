/**
 * When a claim is credited: exactly by the rules of what the sources reported, at once below the
 * second-source threshold and after the second fetch above it; and where every record comes from.
 */
module ClaimLaws {
  import opened Money
  import opened Custody
  import opened CustodyLaws
  import L = Ledger
  import D = DepositClaim
  import W = WithdrawPolicy
  import Addresses

  // ---------------------------------------------------------------- what a claim asks

  /** The claim of `wallet` for transaction `sig` as the sources reported it, not credited before. */
  function ClaimOf(cfg: Config, wallet: string, sig: string, tx: D.FetchedTx): D.ClaimInput {
    D.ClaimInput(wallet, sig, tx.txSucceeded, if tx.confirmations <= 1_000_000 then tx.confirmations else 1_000_000,
                 cfg.depositAta, tx.transfers, false, false)
  }

  /** The reported transaction is within the rules of a claim. */
  predicate Creditable(t: Task, tx: D.FetchedTx)
    requires t.AwaitFirst? || t.AwaitSecond?
  {
    D.WithinRules(ClaimOf(t.cfg, t.wallet, t.sig, tx), t.cfg.claim)
  }

  /** What the wallet paid in with it. */
  function Total(t: Task, tx: D.FetchedTx): int
    requires t.AwaitFirst? || t.AwaitSecond?
  {
    D.PaidIn(ClaimOf(t.cfg, t.wallet, t.sig, tx), t.cfg.claim)
  }

  /** The amount asks for a second source. */
  predicate IsLarge(t: Task, tx: D.FetchedTx)
    requires t.AwaitFirst? || t.AwaitSecond?
  {
    Total(t, tx) >= t.cfg.claim.secondaryThreshold
  }

  lemma AskedAsClaim(s: System, t: Task, tx: D.FetchedTx)
    requires (t.AwaitFirst? || t.AwaitSecond?) && t.sig !in s.root.deposits
    ensures ClaimInputFor(s, t, tx) == ClaimOf(t.cfg, t.wallet, t.sig, tx)
  {
  }

  lemma KnownIsRejected(s: System, t: Task, tx: D.FetchedTx)
    requires (t.AwaitFirst? || t.AwaitSecond?) && t.sig in s.root.deposits
    ensures D.Evaluate(ClaimInputFor(s, t, tx), t.cfg.claim).Rejected?
  {
    D.AcceptedExactlyWhen(ClaimInputFor(s, t, tx), t.cfg.claim);
    hide D.Evaluate;
  }

  /** The record of a credit. */
  function RecordFor(r: Root, t: Task, tx: D.FetchedTx, now: int): DepositRecord
    requires t.AwaitFirst? || t.AwaitSecond?
  {
    DepositRecord(DepositId(r.seq_), t.wallet, t.sig, Total(t, tx), now)
  }

  /** A claim for a signature not yet credited, once a fetch has returned `tx`. */
  lemma FetchDecides(s: System, task: nat, tx: D.FetchedTx, now: int)
    requires Inv(s.root) && task in s.tasks && (s.tasks[task].AwaitFirst? || s.tasks[task].AwaitSecond?)
    requires s.tasks[task].sig !in s.root.deposits
    ensures var t, s', r := s.tasks[task], AfterFetch(s, task, tx, now), s.root;
            && (s'.root.deposits
                == if Creditable(t, tx) && (!IsLarge(t, tx) || t.AwaitSecond?)
                   then r.deposits[t.sig := RecordFor(r, t, tx, now)] else r.deposits)
            && (s'.root.deposits == r.deposits ==> s'.root == r)
            && (s'.tasks
                == if Creditable(t, tx) && IsLarge(t, tx) && t.AwaitFirst? && t.cfg.secondaryConfigured
                   then s.tasks[task := AwaitSecond(t.cfg, t.wallet, t.sig)] else s.tasks - {task})
  {
    var t := s.tasks[task];
    AskedAsClaim(s, t, tx);
    var i := ClaimInputFor(s, t, tx);
    D.AcceptedExactlyWhen(i, t.cfg.claim);
    hide D.Evaluate, D.PaidIn, Inv, RecordDepositCredit, ClaimInputFor;
    if Creditable(t, tx) {
      assert IsSafeAmount(Total(t, tx)) && Addresses.IsValidSolanaPubkey(t.wallet);
      RecordIsExact(s.root, t.wallet, t.sig, Total(t, tx), now);
    }
  }

  lemma KnownStaysAsItIs(s: System, task: nat, tx: D.FetchedTx, now: int)
    requires task in s.tasks && (s.tasks[task].AwaitFirst? || s.tasks[task].AwaitSecond?)
    requires s.tasks[task].sig in s.root.deposits
    ensures AfterFetch(s, task, tx, now) == Finish(s, task)
  {
    KnownIsRejected(s, s.tasks[task], tx);
    hide D.Evaluate, ClaimInputFor;
  }

  /**
   * A claim that a fetch resumes ends credited exactly when its signature is new, what was reported is
   * within the rules, and it is below the threshold or this was the second fetch; it goes on to the
   * second fetch exactly when the first one reached the threshold and a second source is configured.
   * It changes nothing in the store unless it credits.
   */
  lemma CreditedExactlyWhen(s: System, e: Event)
    requires Inv(s.root) && ResumesClaim(s, e)
    ensures var t, tx, r, s' := s.tasks[e.task], Reported(e).value, s.root, Step(s, e);
            var fit := t.sig !in r.deposits && Creditable(t, tx);
            && (s'.root.deposits
                == if fit && (!IsLarge(t, tx) || e.SecondFetchReturns?)
                   then r.deposits[t.sig := RecordFor(r, t, tx, e.now)] else r.deposits)
            && (s'.root.deposits == r.deposits ==> s'.root == r)
            && (s'.tasks
                == if fit && IsLarge(t, tx) && e.FirstFetchReturns? && t.cfg.secondaryConfigured
                   then s.tasks[e.task := AwaitSecond(t.cfg, t.wallet, t.sig)] else s.tasks - {e.task})
  {
    var t, tx := s.tasks[e.task], Reported(e).value;
    hide Inv, Creditable, IsLarge, AfterFetch, RecordFor;
    assert Step(s, e) == AfterFetch(s, e.task, tx, e.now);
    if t.sig in s.root.deposits {
      KnownStaysAsItIs(s, e.task, tx, e.now);
    } else {
      FetchDecides(s, e.task, tx, e.now);
    }
  }

  // ---------------------------------------------------------------- where a task comes from

  /** What a withdraw request reads before its await, field by field. */
  ghost predicate ReadBy(t: Task, s: System, e: Event) {
    && t.AwaitHot? && e.WithdrawStarts?
    && e.cfg == t.cfg && e.wallet == t.wallet && e.amount == t.amount && e.clientKey == t.clientKey
    && e.cfg.withdraw.withdrawalsEnabled && IsSafeAmount(e.amount) && Addresses.IsValidSolanaPubkey(e.wallet)
    && var u := UserOf(s.root, e.wallet);
       && t.available == RowOf(s.root, e.wallet).available && t.frozen == RowOf(s.root, e.wallet).withdrawFrozen
       && (t.selfExcluded <==> u.selfExcludedUntilMs.Some? && u.selfExcludedUntilMs.value > e.now)
       && t.hasPrior == u.hasCompletedWithdraw && t.lastRequestedAtMs == u.lastRequestedAtMs
  }

  /** The claim was begun with deposits on, an account to pay into and a source to ask. */
  predicate BegunBy(t: Task, e: Event) {
    && (t.AwaitFirst? || t.AwaitSecond?) && e == ClaimStarts(t.cfg, t.wallet, t.sig)
    && t.cfg.claim.depositsEnabled && t.cfg.depositAta != "" && t.cfg.rpcConfigured
  }

  ghost predicate StartedBy(t: Task, s: System, e: Event) {
    ReadBy(t, s, e) || BegunBy(t, e)
  }

  /** A task that a step leaves was there before, the same or awaiting its second fetch now, or was started by the step. */
  lemma TaskAfterStep(s: System, e: Event, task: nat)
    requires task in Step(s, e).tasks
    ensures var t := Step(s, e).tasks[task];
            || (task in s.tasks && s.tasks[task] == t)
            || (task in s.tasks && s.tasks[task].AwaitFirst? && t == AwaitSecond(s.tasks[task].cfg, s.tasks[task].wallet, s.tasks[task].sig))
            || StartedBy(t, s, e)
  {
    hide D.Evaluate, W.Decide, L.Touch;
  }

  lemma TaskOrigin(s: System, es: seq<Event>, task: nat)
    requires task in Run(s, es).tasks
    ensures var t := Run(s, es).tasks[task];
            || (exists i :: 0 <= i < |es| && StartedBy(t, Run(s, es[..i]), es[i]))
            || (task in s.tasks
                && (t == s.tasks[task]
                    || (s.tasks[task].AwaitFirst? && t == AwaitSecond(s.tasks[task].cfg, s.tasks[task].wallet, s.tasks[task].sig))))
    decreases |es|
  {
    hide Step, RowOf, UserOf, Addresses.IsValidSolanaPubkey;
    if |es| > 0 {
      var e, rest, s' := es[0], es[1..], Step(s, es[0]);
      var t := Run(s, es).tasks[task];
      TaskOrigin(s', rest, task);
      if i :| 0 <= i < |rest| && StartedBy(t, Run(s', rest[..i]), rest[i]) {
        assert es[..i + 1][0] == e && es[..i + 1][1..] == rest[..i];
        assert StartedBy(t, Run(s, es[..i + 1]), es[i + 1]);
      } else {
        TaskAfterStep(s, e, task);
        assert es[..0] == [];
        assert StartedBy(s'.tasks[task], s, e) ==> StartedBy(t, Run(s, es[..0]), es[0]);
      }
    }
  }

  /** What the withdraw service waits with, read from the store at `now`. */
  function Waiting(s: System, cfg: Config, wallet: string, amount: int, clientKey: string, now: int): Task {
    var u, row := UserOf(s.root, wallet), RowOf(s.root, wallet);
    AwaitHot(cfg, wallet, amount, clientKey, row.available, row.withdrawFrozen,
             u.selfExcludedUntilMs.Some? && u.selfExcludedUntilMs.value > now, u.hasCompletedWithdraw, u.lastRequestedAtMs)
  }

  /**
   * When a claim and a withdraw request get as far as their first await, and with what; and that a
   * request is over once its hot balance has come, or failed to.
   */
  lemma BeginsExactlyWhen(s: System, e: Event)
    ensures e.ClaimStarts? ==>
              Step(s, e) == if e.cfg.claim.depositsEnabled && e.cfg.depositAta != "" && e.cfg.rpcConfigured
                            then Spawn(s, AwaitFirst(e.cfg, e.wallet, e.sig)) else s
    ensures e.WithdrawStarts? ==>
              var begun := e.cfg.withdraw.withdrawalsEnabled && IsSafeAmount(e.amount) && Addresses.IsValidSolanaPubkey(e.wallet);
              && (!begun ==> Step(s, e) == s)
              && (begun ==> Step(s, e).tasks == s.tasks[s.nextTask := Waiting(s, e.cfg, e.wallet, e.amount, e.clientKey, e.now)]
                            && Step(s, e).nextTask == s.nextTask + 1)
    ensures e.HotBalanceReturns? && e.task in s.tasks && s.tasks[e.task].AwaitHot? ==> Step(s, e).tasks == s.tasks - {e.task}
    ensures e.HotBalanceReturns? && e.balance.None? ==> Step(s, e).root == s.root
  {
    hide W.Decide, Addresses.IsValidSolanaPubkey, CreateWithdrawal;
  }

  // ---------------------------------------------------------------- every record was claimed

  /** Both sources were asked, and report success, the same legs and enough confirmations. */
  predicate BothSay(e: Event, minConfirmations: int)
    requires e.SecondFetchReturns?
  {
    && e.primary.Some? && e.secondary.Some?
    && e.primary.value.txSucceeded && e.secondary.value.txSucceeded
    && D.LegsEqual(e.primary.value.transfers, e.secondary.value.transfers)
    && minConfirmations <= e.primary.value.confirmations && minConfirmations <= e.secondary.value.confirmations
  }

  lemma SecondReportIsJoint(s: System, e: Event)
    requires ResumesClaim(s, e) && e.SecondFetchReturns? && Creditable(s.tasks[e.task], Reported(e).value)
    ensures BothSay(e, s.tasks[e.task].cfg.claim.minConfirmations)
    ensures Reported(e).value.transfers == e.primary.value.transfers
  {
    hide D.LegsEqual, D.PaidIn, Addresses.IsValidSolanaPubkey, Addresses.IsValidTxSignature;
  }

  /** The event resumes a claim of `wallet` for `sig` that what it reports entitles to `amount`. */
  predicate EntitledBy(s: System, e: Event, sig: string, rec: DepositRecord) {
    && ResumesClaim(s, e) && s.tasks[e.task].sig == sig && s.tasks[e.task].wallet == rec.userId
    && Creditable(s.tasks[e.task], Reported(e).value) && rec.amount == Total(s.tasks[e.task], Reported(e).value)
    && (IsLarge(s.tasks[e.task], Reported(e).value) ==> e.SecondFetchReturns?)
    && (e.SecondFetchReturns? ==> BothSay(e, s.tasks[e.task].cfg.claim.minConfirmations))
    && rec.txSignature == sig && rec.creditedAt == e.now
  }

  lemma RecordsAfterFetch(s: System, task: nat, tx: D.FetchedTx, now: int, sig: string)
    requires task in s.tasks && (s.tasks[task].AwaitFirst? || s.tasks[task].AwaitSecond?)
    requires sig !in s.root.deposits && sig in AfterFetch(s, task, tx, now).root.deposits
    ensures var t, rec := s.tasks[task], AfterFetch(s, task, tx, now).root.deposits[sig];
            && t.sig == sig && t.wallet == rec.userId && rec.txSignature == sig && rec.creditedAt == now
            && Creditable(t, tx) && rec.amount == Total(t, tx) && (IsLarge(t, tx) ==> t.AwaitSecond?)
  {
    var t := s.tasks[task];
    if t.sig in s.root.deposits {
      KnownStaysAsItIs(s, task, tx, now);
    } else {
      AskedAsClaim(s, t, tx);
      D.AcceptedExactlyWhen(ClaimInputFor(s, t, tx), t.cfg.claim);
      hide D.Evaluate, D.PaidIn, D.WithinRules, ClaimInputFor, L.Apply, DepositId;
    }
  }

  lemma RecordsAfterStep(s: System, e: Event, sig: string)
    requires sig in Step(s, e).root.deposits
    ensures sig in s.root.deposits || EntitledBy(s, e, sig, Step(s, e).root.deposits[sig])
  {
    DepositsAfterStep(s, e);
    hide Step, AfterFetch, Creditable, Total, IsLarge, BothSay;
    if sig !in s.root.deposits {
      RecordsAfterFetch(s, e.task, Reported(e).value, e.now, sig);
      if e.SecondFetchReturns? {
        SecondReportIsJoint(s, e);
      }
    }
  }

  lemma EntitledInRun(s: System, es: seq<Event>, sig: string)
    requires sig in Run(s, es).root.deposits && sig !in s.root.deposits
    ensures exists j :: 0 <= j < |es| && EntitledBy(Run(s, es[..j]), es[j], sig, Run(s, es).root.deposits[sig])
    decreases |es|
  {
    hide Step, EntitledBy;
    if |es| > 0 {
      var e, rest, s' := es[0], es[1..], Step(s, es[0]);
      var rec := Run(s, es).root.deposits[sig];
      if sig in s'.root.deposits {
        RecordsAfterStep(s, e, sig);
        DepositsAreFinal(s', rest, sig);
        assert es[..0] == [];
        assert EntitledBy(Run(s, es[..0]), es[0], sig, rec);
      } else {
        EntitledInRun(s', rest, sig);
        var j :| 0 <= j < |rest| && EntitledBy(Run(s', rest[..j]), rest[j], sig, rec);
        assert es[..j + 1][0] == e && es[..j + 1][1..] == rest[..j];
        assert EntitledBy(Run(s, es[..j + 1]), es[j + 1], sig, rec);
      }
    }
  }

  lemma ClaimsReadNothing(t: Task, s: System, e: Event)
    requires !t.AwaitHot?
    ensures !ReadBy(t, s, e)
  {
  }

  /** A claim begun by `es[i]` and entitled to the record by what `es[j]` reported. */
  ghost predicate ClaimedAt(es: seq<Event>, i: nat, j: nat, sig: string, rec: DepositRecord) {
    && i < j < |es| && EntitledBy(Run(START, es[..j]), es[j], sig, rec)
    && BegunBy(Run(START, es[..j]).tasks[es[j].task], es[i])
  }

  /**
   * In every run whatever, each deposit record goes back to a claim begun by its wallet for its
   * signature, with deposits on, and to a later report that was within the rules and worth its amount:
   * for a large one the joint report of two sources.
   */
  lemma RecordsWereClaimed(es: seq<Event>, sig: string)
    requires sig in Run(START, es).root.deposits
    ensures exists i: nat, j: nat :: ClaimedAt(es, i, j, sig, Run(START, es).root.deposits[sig])
  {
    hide Creditable, Total, IsLarge, Run, ReadBy;
    EntitledInRun(START, es, sig);
    var rec := Run(START, es).root.deposits[sig];
    var j :| 0 <= j < |es| && EntitledBy(Run(START, es[..j]), es[j], sig, rec);
    TaskOrigin(START, es[..j], es[j].task);
    var t := Run(START, es[..j]).tasks[es[j].task];
    var i :| 0 <= i < j && StartedBy(t, Run(START, es[..j][..i]), es[..j][i]);
    assert es[..j][i] == es[i];
    ClaimsReadNothing(t, Run(START, es[..j][..i]), es[..j][i]);
    assert ClaimedAt(es, i, j, sig, rec);
  }
}
