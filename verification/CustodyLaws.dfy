/**
 * The rows of the custody store and the wallets' ledgers are two views of the same money, and they
 * agree in every state that any interleaving of claims, withdraw requests, cancels and sends reaches.
 */
module CustodyLaws {
  import opened Clock
  import opened Money
  import opened Sums
  import opened Text
  import opened Custody
  import L = Ledger
  import D = DepositClaim
  import W = WithdrawPolicy
  import Addresses

  // ---------------------------------------------------------------- the two views

  ghost function PendingOf(wallet: string): Withdrawal -> int {
    (x: Withdrawal) => if x.userId == wallet && x.status == W.Pending then x.amount else 0
  }

  ghost function SentOf(wallet: string): Withdrawal -> int {
    (x: Withdrawal) => if x.userId == wallet && x.status == W.Sent then x.amount else 0
  }

  ghost function SentAmount(): Withdrawal -> int {
    (x: Withdrawal) => if x.status == W.Sent then x.amount else 0
  }

  ghost function CreditedTo(wallet: string): DepositRecord -> int {
    (x: DepositRecord) => if x.userId == wallet then x.amount else 0
  }

  /** The wallet's ledger row says what its deposit and withdrawal rows say. */
  ghost predicate WalletAgrees(r: Root, wallet: string) {
    var row := RowOf(r, wallet);
    var pending := Sum(r.withdrawals, PendingOf(wallet));
    && row.lockedHand == 0
    && row.available >= 0
    && row.lockedWithdraw == pending
    && row.available + pending + Sum(r.withdrawals, SentOf(wallet)) == Sum(r.deposits, CreditedTo(wallet))
  }

  /** What left the hot wallet, over all days, is what the sent rows say. */
  ghost predicate OutflowAgrees(r: Root) {
    Sum(r.outflow, Identity()) == Sum(r.withdrawals, SentAmount())
  }

  ghost predicate BooksAgree(r: Root) {
    OutflowAgrees(r) && forall wallet :: WalletAgrees(r, wallet)
  }

  // ---------------------------------------------------------------- the invariant behind it

  predicate RowOk(id: string, x: Withdrawal) {
    && x.id == id
    && Addresses.IsValidSolanaPubkey(x.userId) && x.destination == x.userId
    && IsSafeAmount(x.amount)
    && (x.status == W.Pending || x.status == W.Cancelled || x.status == W.Sent)
    && |x.idempotencyKey| > 0 && x.idempotencyKey[0] == 'w'
  }

  ghost predicate RowsOk(r: Root) {
    && (forall id | id in r.withdrawals :: RowOk(id, r.withdrawals[id]))
    && (forall n: nat | n >= r.seq_ :: WithdrawalId(n) !in r.withdrawals)
  }

  ghost predicate IsDepositKey(r: Root, k: string) {
    exists sig | sig in r.deposits :: k == DepositKey(sig)
  }

  ghost predicate IsCancelKey(r: Root, k: string) {
    exists id | id in r.withdrawals :: r.withdrawals[id].status == W.Cancelled && k == CancelKey(id)
  }

  ghost predicate IsCompleteKey(r: Root, k: string) {
    exists id | id in r.withdrawals :: r.withdrawals[id].status == W.Sent && k == CompleteKey(id)
  }

  /** Every applied ledger key belongs to a row in the state it led to. */
  ghost predicate KeysAccounted(r: Root) {
    forall wallet, k | k in UserOf(r, wallet).ledger.appliedKeys ::
      IsDepositKey(r, k) || KeyTaken(r.withdrawals, k) || IsCancelKey(r, k) || IsCompleteKey(r, k)
  }

  ghost predicate Inv(r: Root) {
    BooksAgree(r) && RowsOk(r) && UniqueKeys(r.withdrawals) && KeysAccounted(r)
  }

  // ---------------------------------------------------------------- keys never collide

  lemma DepositKeyInjective(a: string, b: string)
    requires DepositKey(a) == DepositKey(b)
    ensures a == b
  {
    PrefixCancels("deposit:tx:", a, b);
  }

  lemma CancelKeyInjective(a: string, b: string)
    requires CancelKey(a) == CancelKey(b)
    ensures a == b
  {
    PrefixCancels("cancel:", a, b);
  }

  lemma CompleteKeyInjective(a: string, b: string)
    requires CompleteKey(a) == CompleteKey(b)
    ensures a == b
  {
    PrefixCancels("complete:", a, b);
  }

  /** A withdraw key determines the wallet and the client's key, for wallets without a colon. */
  lemma WithdrawKeyInjective(w1: string, c1: string, w2: string, c2: string)
    requires ':' !in w1 && ':' !in w2
    requires WithdrawKey(w1, c1) == WithdrawKey(w2, c2)
    ensures w1 == w2 && c1 == c2
  {
    var p := "withdraw:req:";
    assert WithdrawKey(w1, c1) == p + (w1 + ":" + c1);
    assert WithdrawKey(w2, c2) == p + (w2 + ":" + c2);
    PrefixCancels(p, w1 + ":" + c1, w2 + ":" + c2);
    SplitAtFirst(w1, c1, w2, c2, ':');
  }

  lemma WithdrawalIdInjective(m: nat, n: nat)
    requires WithdrawalId(m) == WithdrawalId(n)
    ensures m == n
  {
    PrefixCancels("wd_", Dec(m), Dec(n));
    DecInjective(m, n);
  }

  lemma PubkeyHasNoColon(wallet: string)
    requires Addresses.IsValidSolanaPubkey(wallet)
    ensures ':' !in wallet
    ensures L.IsValidUserId(wallet)
  {
    forall i | 0 <= i < |wallet|
      ensures wallet[i] != ':' && wallet[i] != '\0' && wallet[i] != '\n'
    {
      assert Addresses.Base58Class(wallet[i]);
    }
  }

  lemma DepositKeyFresh(r: Root, wallet: string, sig: string)
    requires Inv(r) && sig !in r.deposits
    ensures !L.WasApplied(UserOf(r, wallet).ledger.appliedKeys, Some(DepositKey(sig)))
  {
    var k := DepositKey(sig);
    assert k[0] == 'd';
    if k in UserOf(r, wallet).ledger.appliedKeys {
      if IsDepositKey(r, k) {
        var s :| s in r.deposits && k == DepositKey(s);
        DepositKeyInjective(sig, s);
      }
      assert false;
    }
  }

  lemma CancelKeyFresh(r: Root, wallet: string, id: string)
    requires Inv(r) && id in r.withdrawals && r.withdrawals[id].status == W.Pending
    ensures !L.WasApplied(UserOf(r, wallet).ledger.appliedKeys, Some(CancelKey(id)))
  {
    var k := CancelKey(id);
    assert k[0] == 'c' && k[1] == 'a';
    if k in UserOf(r, wallet).ledger.appliedKeys {
      if IsCancelKey(r, k) {
        var j :| j in r.withdrawals && r.withdrawals[j].status == W.Cancelled && k == CancelKey(j);
        CancelKeyInjective(id, j);
      }
      assert false;
    }
  }

  lemma CompleteKeyFresh(r: Root, wallet: string, id: string)
    requires Inv(r) && id in r.withdrawals && r.withdrawals[id].status != W.Sent
    ensures !L.WasApplied(UserOf(r, wallet).ledger.appliedKeys, Some(CompleteKey(id)))
  {
    var k := CompleteKey(id);
    assert k[0] == 'c' && k[1] == 'o';
    if k in UserOf(r, wallet).ledger.appliedKeys {
      if IsCompleteKey(r, k) {
        var j :| j in r.withdrawals && r.withdrawals[j].status == W.Sent && k == CompleteKey(j);
        CompleteKeyInjective(id, j);
      }
      assert false;
    }
  }

  lemma RequestKeyFresh(r: Root, wallet: string, k: string)
    requires Inv(r) && !KeyTaken(r.withdrawals, k) && |k| > 0 && k[0] == 'w'
    ensures !L.WasApplied(UserOf(r, wallet).ledger.appliedKeys, Some(k))
  {
  }

  // ---------------------------------------------------------------- each operation keeps it

  /** Touching a wallet, or a refused ledger command, changes nothing the invariant speaks about. */
  lemma QuietLedgerKeeps(r: Root, wallet: string, books: L.Books)
    requires Inv(r)
    requires L.RowOf(books, wallet) == RowOf(r, wallet)
    requires books.appliedKeys == UserOf(r, wallet).ledger.appliedKeys
    ensures Inv(SetLedger(r, wallet, books))
  {
    var r' := SetLedger(r, wallet, books);
    forall w
      ensures WalletAgrees(r', w)
    {
      assert WalletAgrees(r, w);
    }
    forall w, k | k in UserOf(r', w).ledger.appliedKeys
      ensures IsDepositKey(r', k) || KeyTaken(r'.withdrawals, k) || IsCancelKey(r', k) || IsCompleteKey(r', k)
    {
      assert k in UserOf(r, w).ledger.appliedKeys;
      assert IsDepositKey(r, k) ==> IsDepositKey(r', k);
    }
  }

  lemma CreditKeepsKeys(r: Root, r': Root, sig: string)
    requires KeysAccounted(r) && r'.withdrawals == r.withdrawals
    requires sig in r'.deposits && forall s | s in r.deposits :: s in r'.deposits
    requires forall w, k | k in UserOf(r', w).ledger.appliedKeys ::
               k in UserOf(r, w).ledger.appliedKeys || k == DepositKey(sig)
    ensures KeysAccounted(r')
  {
    forall w, k | k in UserOf(r', w).ledger.appliedKeys
      ensures IsDepositKey(r', k) || KeyTaken(r'.withdrawals, k) || IsCancelKey(r', k) || IsCompleteKey(r', k)
    {
      if k != DepositKey(sig) {
        assert k in UserOf(r, w).ledger.appliedKeys;
      }
    }
  }

  lemma CreditAdds(r: Root, wallet: string, sig: string, books: L.Books, rec: DepositRecord)
    requires Inv(r) && sig !in r.deposits && rec.userId == wallet && rec.amount >= 0
    requires L.RowOf(books, wallet) == RowOf(r, wallet).(available := RowOf(r, wallet).available + rec.amount)
    requires books.appliedKeys == UserOf(r, wallet).ledger.appliedKeys + {DepositKey(sig)}
    ensures Inv(SetLedger(r, wallet, books).(deposits := r.deposits[sig := rec], seq_ := r.seq_ + 1))
  {
    hide Sum, DepositKey, KeysAccounted;
    var r' := SetLedger(r, wallet, books).(deposits := r.deposits[sig := rec], seq_ := r.seq_ + 1);
    forall w
      ensures WalletAgrees(r', w)
    {
      assert WalletAgrees(r, w);
      SumUpdate(r.deposits, CreditedTo(w), sig, rec);
    }
    CreditKeepsKeys(r, r', sig);
  }

  lemma CreditKeeps(r: Root, wallet: string, sig: string, amount: int, now: int)
    requires Inv(r)
    ensures Inv(RecordDepositCredit(r, wallet, sig, amount, DepositKey(sig), now).0)
  {
    if sig !in r.deposits && Addresses.IsValidSolanaPubkey(wallet) {
      DepositKeyFresh(r, wallet, sig);
      PubkeyHasNoColon(wallet);
      var (books, reply) := L.Apply(UserOf(r, wallet).ledger, L.Move(L.CreditDeposit(amount), wallet, Some(DepositKey(sig))));
      if reply.Failed? {
        QuietLedgerKeeps(r, wallet, books);
      } else {
        var rec := DepositRecord(DepositId(r.seq_), wallet, sig, amount, now);
        CreditAdds(r, wallet, sig, books, rec);
      }
    }
  }

  lemma NewRowKeepsKeys(r: Root, r': Root, rec: Withdrawal)
    requires KeysAccounted(r) && rec.id !in r.withdrawals
    requires r'.withdrawals == r.withdrawals[rec.id := rec] && r'.deposits == r.deposits
    requires forall w, k | k in UserOf(r', w).ledger.appliedKeys ::
               k in UserOf(r, w).ledger.appliedKeys || k == rec.idempotencyKey
    ensures KeysAccounted(r')
  {
    forall w, k | k in UserOf(r', w).ledger.appliedKeys
      ensures IsDepositKey(r', k) || KeyTaken(r'.withdrawals, k) || IsCancelKey(r', k) || IsCompleteKey(r', k)
    {
      if k == rec.idempotencyKey {
        assert HasKey(r'.withdrawals, rec.id, k);
      } else {
        assert k in UserOf(r, w).ledger.appliedKeys;
        if KeyTaken(r.withdrawals, k) {
          var id :| HasKey(r.withdrawals, id, k);
          assert HasKey(r'.withdrawals, id, k);
        }
        assert forall id | id in r.withdrawals :: id in r'.withdrawals && r'.withdrawals[id] == r.withdrawals[id];
      }
    }
  }

  lemma NewRowKeepsRows(r: Root, r': Root, rec: Withdrawal)
    requires RowsOk(r) && UniqueKeys(r.withdrawals)
    requires r'.withdrawals == r.withdrawals[rec.id := rec] && r'.seq_ == r.seq_ + 1
    requires rec.id == WithdrawalId(r.seq_) && RowOk(rec.id, rec) && !KeyTaken(r.withdrawals, rec.idempotencyKey)
    ensures RowsOk(r') && UniqueKeys(r'.withdrawals)
  {
    forall n: nat | n >= r'.seq_
      ensures WithdrawalId(n) !in r'.withdrawals
    {
      if WithdrawalId(n) == rec.id {
        WithdrawalIdInjective(n, r.seq_);
      }
    }
    forall i | i in r.withdrawals
      ensures r.withdrawals[i].idempotencyKey != rec.idempotencyKey
    {
      assert !HasKey(r.withdrawals, i, rec.idempotencyKey);
    }
  }

  lemma CreateAdds(r: Root, u: UserCustody, rec: Withdrawal)
    requires Inv(r) && rec.id == WithdrawalId(r.seq_) && rec.status == W.Pending && RowOk(rec.id, rec)
    requires !KeyTaken(r.withdrawals, rec.idempotencyKey)
    requires var row := RowOf(r, rec.userId);
             && rec.amount <= row.available
             && L.RowOf(u.ledger, rec.userId)
                == row.(available := row.available - rec.amount, lockedWithdraw := row.lockedWithdraw + rec.amount)
    requires u.ledger.appliedKeys == UserOf(r, rec.userId).ledger.appliedKeys + {rec.idempotencyKey}
    ensures Inv(r.(users := r.users[rec.userId := u], withdrawals := r.withdrawals[rec.id := rec], seq_ := r.seq_ + 1))
  {
    hide Sum, KeyTaken, KeysAccounted, WithdrawalId;
    var r' := r.(users := r.users[rec.userId := u], withdrawals := r.withdrawals[rec.id := rec], seq_ := r.seq_ + 1);
    assert rec.id !in r.withdrawals;
    forall w
      ensures WalletAgrees(r', w)
    {
      assert WalletAgrees(r, w);
      SumUpdate(r.withdrawals, PendingOf(w), rec.id, rec);
      SumUpdate(r.withdrawals, SentOf(w), rec.id, rec);
    }
    SumUpdate(r.withdrawals, SentAmount(), rec.id, rec);
    NewRowKeepsRows(r, r', rec);
    NewRowKeepsKeys(r, r', rec);
  }

  lemma CreateKeeps(r: Root, n: NewWithdrawal, clientKey: string, now: int)
    requires Inv(r)
    requires n.key == WithdrawKey(n.wallet, clientKey) && n.destination == n.wallet
    ensures Inv(CreateWithdrawal(r, n, now).0)
  {
    if !KeyTaken(r.withdrawals, n.key) && Addresses.IsValidSolanaPubkey(n.wallet) {
      RequestKeyFresh(r, n.wallet, n.key);
      PubkeyHasNoColon(n.wallet);
      var (books, reply) := L.Apply(UserOf(r, n.wallet).ledger, L.Move(L.RequestWithdraw(n.amount), n.wallet, Some(n.key)));
      if reply.Failed? {
        QuietLedgerKeeps(r, n.wallet, books);
      } else {
        var u := UserOf(r, n.wallet).(ledger := books, lastRequestedAtMs := Some(now));
        CreateAdds(r, u, RowFor(n, r.seq_, now));
      }
    }
  }

  lemma MovedRowSums(ws: map<string, Withdrawal>, id: string, status: W.WithdrawalStatus, w: string)
    requires id in ws && ws[id].status == W.Pending && (status == W.Cancelled || status == W.Sent)
    ensures var ws', own := ws[id := ws[id].(status := status)], if ws[id].userId == w then ws[id].amount else 0;
            && Sum(ws', PendingOf(w)) == Sum(ws, PendingOf(w)) - own
            && Sum(ws', SentOf(w)) == Sum(ws, SentOf(w)) + if status == W.Sent then own else 0
  {
    SumUpdate(ws, PendingOf(w), id, ws[id].(status := status));
    SumUpdate(ws, SentOf(w), id, ws[id].(status := status));
  }

  lemma MovedRowKeepsKeys(r: Root, r': Root, id: string, status: W.WithdrawalStatus, key: string)
    requires KeysAccounted(r) && id in r.withdrawals && r.withdrawals[id].status == W.Pending
    requires status == W.Cancelled || status == W.Sent
    requires key == if status == W.Cancelled then CancelKey(id) else CompleteKey(id)
    requires r'.withdrawals == r.withdrawals[id := r.withdrawals[id].(status := status)] && r'.deposits == r.deposits
    requires forall w, k | k in UserOf(r', w).ledger.appliedKeys :: k in UserOf(r, w).ledger.appliedKeys || k == key
    ensures KeysAccounted(r')
  {
    forall w, k | k in UserOf(r', w).ledger.appliedKeys
      ensures IsDepositKey(r', k) || KeyTaken(r'.withdrawals, k) || IsCancelKey(r', k) || IsCompleteKey(r', k)
    {
      if k == key {
        assert id in r'.withdrawals;
      } else {
        assert k in UserOf(r, w).ledger.appliedKeys;
        if KeyTaken(r.withdrawals, k) {
          var j :| HasKey(r.withdrawals, j, k);
          assert HasKey(r'.withdrawals, j, k);
        }
        assert forall j | j in r.withdrawals && j != id :: j in r'.withdrawals && r'.withdrawals[j] == r.withdrawals[j];
      }
    }
  }

  /** A pending row becomes cancelled or sent, and the wallet's ledger moves with it. */
  lemma RowMoves(r: Root, r': Root, id: string, u: UserCustody, status: W.WithdrawalStatus, key: string)
    requires Inv(r) && id in r.withdrawals && r.withdrawals[id].status == W.Pending
    requires status == W.Cancelled || status == W.Sent
    requires key == if status == W.Cancelled then CancelKey(id) else CompleteKey(id)
    requires r'.withdrawals == r.withdrawals[id := r.withdrawals[id].(status := status)]
    requires r'.users == r.users[r.withdrawals[id].userId := u]
    requires r'.deposits == r.deposits && r'.seq_ == r.seq_
    requires Sum(r'.outflow, Identity())
             == Sum(r.outflow, Identity()) + if status == W.Sent then r.withdrawals[id].amount else 0
    requires var row, a := RowOf(r, r.withdrawals[id].userId), r.withdrawals[id].amount;
             L.RowOf(u.ledger, r.withdrawals[id].userId)
             == row.(lockedWithdraw := row.lockedWithdraw - a,
                     available := row.available + if status == W.Cancelled then a else 0)
    requires u.ledger.appliedKeys == UserOf(r, r.withdrawals[id].userId).ledger.appliedKeys + {key}
    ensures Inv(r')
  {
    hide CancelKey, CompleteKey, KeysAccounted, Sum;
    var rec := r.withdrawals[id].(status := status);
    forall w
      ensures WalletAgrees(r', w)
    {
      assert WalletAgrees(r, w);
      MovedRowSums(r.withdrawals, id, status, w);
    }
    SumUpdate(r.withdrawals, SentAmount(), id, rec);
    MovedRowKeepsKeys(r, r', id, status, key);
    assert RowsOk(r') && UniqueKeys(r'.withdrawals);
  }

  /** A pending row's lock is always there to give back. */
  lemma PendingIsLocked(r: Root, id: string)
    requires Inv(r) && id in r.withdrawals && r.withdrawals[id].status == W.Pending
    ensures RowOf(r, r.withdrawals[id].userId).lockedWithdraw >= r.withdrawals[id].amount
  {
    var w := r.withdrawals[id].userId;
    assert WalletAgrees(r, w);
    TermAtMostSum(r.withdrawals, PendingOf(w), id);
  }

  lemma {:induction false} CancelKeeps(r: Root, wallet: string, id: string)
    requires Inv(r)
    ensures Inv(CancelUserWithdrawal(r, wallet, id).0)
    ensures id in r.withdrawals && r.withdrawals[id].userId == wallet && r.withdrawals[id].status == W.Pending
            ==> CancelUserWithdrawal(r, wallet, id).1.Ok?
  {
    if id in r.withdrawals && r.withdrawals[id].userId == wallet && r.withdrawals[id].status == W.Pending {
      PendingIsLocked(r, id);
      CancelKeyFresh(r, wallet, id);
      PubkeyHasNoColon(wallet);
      var r' := CancelUserWithdrawal(r, wallet, id).0;
      RowMoves(r, r', id, r'.users[wallet], W.Cancelled, CancelKey(id));
    }
  }

  lemma SendRefused(r: Root, id: string, now: int)
    requires id in r.withdrawals && r.withdrawals[id].status != W.Sent && RowOk(id, r.withdrawals[id])
    requires var w := r.withdrawals[id].userId;
             && L.IsValidUserId(w)
             && !L.WasApplied(UserOf(r, w).ledger.appliedKeys, Some(CompleteKey(id)))
             && RowOf(r, w).lockedWithdraw < r.withdrawals[id].amount
    ensures var w := r.withdrawals[id].userId;
            && MarkWithdrawalSent(r, id, now).0 == SetLedger(r, w, L.Touch(UserOf(r, w).ledger, w))
            && MarkWithdrawalSent(r, id, now).1.Err?
  {
  }

  /** A cancelled row's send that the wallet's lock, held by other rows, still covers. */
  predicate SpendsOtherLock(r: Root, id: string) {
    && id in r.withdrawals && r.withdrawals[id].status == W.Cancelled
    && RowOf(r, r.withdrawals[id].userId).lockedWithdraw >= r.withdrawals[id].amount
  }

  lemma SendKeeps(r: Root, id: string, now: int)
    requires Inv(r) && !SpendsOtherLock(r, id)
    ensures Inv(MarkWithdrawalSent(r, id, now).0)
    ensures id in r.withdrawals ==>
              (MarkWithdrawalSent(r, id, now).1.Ok? <==> r.withdrawals[id].status != W.Cancelled)
  {
    if id in r.withdrawals && r.withdrawals[id].status != W.Sent {
      var w := r.withdrawals[id].userId;
      CompleteKeyFresh(r, w, id);
      PubkeyHasNoColon(w);
      if r.withdrawals[id].status == W.Pending {
        PendingIsLocked(r, id);
        var r' := MarkWithdrawalSent(r, id, now).0;
        SumUpdate(r.outflow, Identity(), Day(now), r'.outflow[Day(now)]);
        RowMoves(r, r', id, r'.users[w], W.Sent, CompleteKey(id));
      } else {
        SendRefused(r, id, now);
        QuietLedgerKeeps(r, w, L.Touch(UserOf(r, w).ledger, w));
      }
    }
  }

  // ---------------------------------------------------------------- sending a cancelled row

  lemma AfterSend(r: Root, i: string, now: int)
    requires i in r.withdrawals && r.withdrawals[i].status != W.Sent && RowOk(i, r.withdrawals[i])
    requires var w := r.withdrawals[i].userId;
             && L.IsValidUserId(w)
             && !L.WasApplied(UserOf(r, w).ledger.appliedKeys, Some(CompleteKey(i)))
             && RowOf(r, w).lockedWithdraw >= r.withdrawals[i].amount
    ensures var (r', sent) := MarkWithdrawalSent(r, i, now);
            var w := r.withdrawals[i].userId;
            && sent.Ok?
            && RowOf(r', w).lockedWithdraw == RowOf(r, w).lockedWithdraw - r.withdrawals[i].amount
            && UserOf(r', w).ledger.appliedKeys == UserOf(r, w).ledger.appliedKeys + {CompleteKey(i)}
            && r'.withdrawals == r.withdrawals[i := r.withdrawals[i].(status := W.Sent)]
  {
  }

  /**
   * markWithdrawalSent does not look for cancelled rows. The books still agree afterwards exactly
   * when the row was not cancelled, or the wallet's remaining lock was too small and the call failed.
   */
  lemma SendingCancelledRow(r: Root, id: string, now: int)
    requires Inv(r) && id in r.withdrawals
    ensures BooksAgree(MarkWithdrawalSent(r, id, now).0)
            <==> r.withdrawals[id].status != W.Cancelled
                 || RowOf(r, r.withdrawals[id].userId).lockedWithdraw < r.withdrawals[id].amount
  {
    if SpendsOtherLock(r, id) {
      var w := r.withdrawals[id].userId;
      CompleteKeyFresh(r, w, id);
      PubkeyHasNoColon(w);
      assert WalletAgrees(r, w);
      AfterSend(r, id, now);
      SumUpdate(r.withdrawals, PendingOf(w), id, r.withdrawals[id].(status := W.Sent));
      assert !WalletAgrees(MarkWithdrawalSent(r, id, now).0, w);
    } else {
      SendKeeps(r, id, now);
    }
  }

  lemma CancelRefused(r: Root, w: string, j: string)
    requires j in r.withdrawals && RowOk(j, r.withdrawals[j]) && r.withdrawals[j].userId == w
    requires r.withdrawals[j].status == W.Pending && L.IsValidUserId(w)
    requires !L.WasApplied(UserOf(r, w).ledger.appliedKeys, Some(CancelKey(j)))
    requires RowOf(r, w).lockedWithdraw < r.withdrawals[j].amount
    ensures CancelUserWithdrawal(r, w, j).1 == Err(LedgerRefused(L.InsufficientLockedWithdraw))
  {
  }

  /** How it goes wrong: sending a cancelled row spends another row's lock, which then cannot be undone. */
  lemma CancelledSendTakesAnotherLock(r: Root, i: string, j: string, now: int)
    requires Inv(r) && i in r.withdrawals && j in r.withdrawals && i != j
    requires r.withdrawals[i].status == W.Cancelled && r.withdrawals[j].status == W.Pending
    requires r.withdrawals[i].userId == r.withdrawals[j].userId && r.withdrawals[i].amount == r.withdrawals[j].amount
    requires Sum(r.withdrawals, PendingOf(r.withdrawals[j].userId)) == r.withdrawals[j].amount
    ensures MarkWithdrawalSent(r, i, now).1.Ok?
    ensures CancelUserWithdrawal(MarkWithdrawalSent(r, i, now).0, r.withdrawals[j].userId, j).1
            == Err(LedgerRefused(L.InsufficientLockedWithdraw))
  {
    hide MarkWithdrawalSent, CancelUserWithdrawal, UniqueKeys, KeysAccounted, Sum;
    var w := r.withdrawals[j].userId;
    assert WalletAgrees(r, w);
    CompleteKeyFresh(r, w, i);
    CancelKeyFresh(r, w, j);
    PubkeyHasNoColon(w);
    AfterSend(r, i, now);
    var r' := MarkWithdrawalSent(r, i, now).0;
    assert CompleteKey(i)[1] == 'o' && CancelKey(j)[1] == 'a';
    assert !L.WasApplied(UserOf(r', w).ledger.appliedKeys, Some(CancelKey(j)));
    CancelRefused(r', w, j);
  }

  // ---------------------------------------------------------------- every interleaving

  /** The worker's send of a cancelled row goes through, on a lock that is another row's. */
  predicate Missends(r: Root, e: Event) {
    e.SendSucceeds? && SpendsOtherLock(r, e.id)
  }

  ghost function Run(s: System, es: seq<Event>): System
    decreases |es|
  {
    if |es| == 0 then s else Run(Step(s, es[0]), es[1..])
  }

  /** No step of the run is such a send. */
  ghost predicate LegalRun(s: System, es: seq<Event>)
    decreases |es|
  {
    |es| == 0 || (!Missends(s.root, es[0]) && LegalRun(Step(s, es[0]), es[1..]))
  }

  lemma AfterHotKeeps(s: System, task: nat, hotBalance: int, now: int)
    requires Inv(s.root) && task in s.tasks && s.tasks[task].AwaitHot?
    ensures Inv(AfterHotBalance(s, task, hotBalance, now).root)
  {
    var t := s.tasks[task];
    var d := W.Decide(RequestFor(s, t, hotBalance, now), t.cfg.withdraw);
    if d.Approved? {
      CreateKeeps(s.root, QueueFor(t, d), t.clientKey, now);
    }
  }

  lemma AfterFetchKeeps(s: System, task: nat, tx: D.FetchedTx, now: int)
    requires Inv(s.root) && task in s.tasks && (s.tasks[task].AwaitFirst? || s.tasks[task].AwaitSecond?)
    ensures Inv(AfterFetch(s, task, tx, now).root)
  {
    var t := s.tasks[task];
    var d := D.Evaluate(ClaimInputFor(s, t, tx), t.cfg.claim);
    if d.Accepted? {
      CreditKeeps(s.root, t.wallet, t.sig, d.amount, now);
    }
  }

  lemma {:induction false} StepKeeps(s: System, e: Event)
    requires Inv(s.root) && !Missends(s.root, e)
    ensures Inv(Step(s, e).root)
  {
    hide Inv, AfterFetch, AfterHotBalance, MarkWithdrawalSent, CancelUserWithdrawal;
    match e {
      case ClaimStarts(_, _, _) =>
      case FirstFetchReturns(task, tx, now) =>
        if task in s.tasks && s.tasks[task].AwaitFirst? && tx.Some? {
          AfterFetchKeeps(s, task, tx.value, now);
        }
      case SecondFetchReturns(task, primary, secondary, now) =>
        var tx := MergedSources(primary, secondary);
        if task in s.tasks && s.tasks[task].AwaitSecond? && tx.Some? {
          AfterFetchKeeps(s, task, tx.value, now);
        }
      case WithdrawStarts(_, wallet, _, _, _) =>
        QuietLedgerKeeps(s.root, wallet, L.Touch(UserOf(s.root, wallet).ledger, wallet));
      case HotBalanceReturns(task, balance, now) =>
        if task in s.tasks && s.tasks[task].AwaitHot? && balance.Some? {
          AfterHotKeeps(s, task, balance.value, now);
        }
      case CancelRequested(wallet, id) => CancelKeeps(s.root, wallet, id);
      case SendSucceeds(id, now) => SendKeeps(s.root, id, now);
    }
  }

  lemma {:induction false} RunKeeps(s: System, es: seq<Event>)
    requires Inv(s.root) && LegalRun(s, es)
    ensures Inv(Run(s, es).root)
    decreases |es|
  {
    hide Inv, Step, Missends;
    if |es| > 0 {
      StepKeeps(s, es[0]);
      RunKeeps(Step(s, es[0]), es[1..]);
    }
  }

  lemma StartOk()
    ensures Inv(START.root)
  {
  }

  lemma MissendShows(s: System, e: Event)
    requires Inv(s.root) && Missends(s.root, e)
    ensures !BooksAgree(Step(s, e).root)
  {
    hide Inv, BooksAgree, MarkWithdrawalSent;
    SendingCancelledRow(s.root, e.id, e.now);
  }

  lemma {:induction false} AgreesExactlyWhen(s: System, es: seq<Event>)
    requires Inv(s.root)
    ensures LegalRun(s, es) <==> forall i :: 0 <= i <= |es| ==> BooksAgree(Run(s, es[..i]).root)
    decreases |es|
  {
    if |es| == 0 {
      assert forall i :: 0 <= i <= |es| ==> es[..i] == [];
    } else {
      var e, rest := es[0], es[1..];
      assert es[..0] == [];
      assert forall i :: 0 < i <= |es| ==> es[..i][0] == e && es[..i][1..] == rest[..i - 1];
      hide Step, Missends, BooksAgree, RowsOk, UniqueKeys, KeysAccounted;
      if Missends(s.root, e) {
        MissendShows(s, e);
        assert Run(s, es[..1]) == Run(Step(s, e), []);
      } else {
        StepKeeps(s, e);
        AgreesExactlyWhen(Step(s, e), rest);
        assert forall i :: 0 <= i <= |rest| ==> es[..i + 1][1..] == rest[..i];
        assert forall i :: 0 <= i <= |rest| ==> Run(s, es[..i + 1]) == Run(Step(s, e), rest[..i]);
      }
    }
  }

  /**
   * In every interleaving of claims, requests, cancels and sends: at every point, for each wallet, the
   * withdraw lock is the sum of its pending rows, available + pending + sent is what was deposited,
   * and the hot outflow over all days is what was sent, exactly if no step is a send of a cancelled
   * row that the wallet's lock still covers.
   */
  lemma CustodyBooksAgree(es: seq<Event>)
    ensures LegalRun(START, es)
            <==> forall i :: 0 <= i <= |es| ==> var r := Run(START, es[..i]).root;
                   OutflowAgrees(r) && forall wallet :: WalletAgrees(r, wallet)
  {
    StartOk();
    AgreesExactlyWhen(START, es);
    hide Run, OutflowAgrees, WalletAgrees;
    assert forall i :: 0 <= i <= |es| ==>
      (BooksAgree(Run(START, es[..i]).root)
       <==> OutflowAgrees(Run(START, es[..i]).root) && forall wallet :: WalletAgrees(Run(START, es[..i]).root, wallet));
  }

  /** In every reachable state a wallet can cancel any of its pending rows, and the worker can send it at any time. */
  lemma CancelNeverFails(es: seq<Event>, id: string, now: int)
    requires LegalRun(START, es)
    requires var ws := Run(START, es).root.withdrawals; id in ws && ws[id].status == W.Pending
    ensures var r := Run(START, es).root;
            && CancelUserWithdrawal(r, r.withdrawals[id].userId, id).1.Ok?
            && MarkWithdrawalSent(r, id, now).1.Ok?
  {
    StartOk();
    RunKeeps(START, es);
    var r := Run(START, es).root;
    CancelKeeps(r, r.withdrawals[id].userId, id);
    SendKeeps(r, id, now);
  }

  /** The row of an approved request: pending, to the wallet itself, at the level and time decided. */
  function QueuedRow(s: System, t: Task, hotBalance: int, now: int): Withdrawal
    requires t.AwaitHot?
  {
    var q := RequestFor(s, t, hotBalance, now);
    Withdrawal(WithdrawalId(s.root.seq_), t.wallet, t.amount, t.wallet, W.Pending, W.Level(t.amount, t.cfg.withdraw),
               W.ReadyAt(q, t.cfg.withdraw), now, WithdrawKey(t.wallet, t.clientKey))
  }

  /**
   * A request decided on a balance read before the await locks money exactly when the decision was
   * yes, the client key is valid and new, and now the wallet is not frozen and its balance covers it;
   * otherwise no row and no balance moves. No other wallet's balance moves either way.
   */
  lemma StaleReadIsSafe(s: System, task: nat, hotBalance: int, now: int)
    requires Inv(s.root) && task in s.tasks && s.tasks[task].AwaitHot?
    ensures var t, r, r' := s.tasks[task], s.root, AfterHotBalance(s, task, hotBalance, now).root;
            var row, key := RowOf(r, t.wallet), WithdrawKey(t.wallet, t.clientKey);
            var locks := && W.Decide(RequestFor(s, t, hotBalance, now), t.cfg.withdraw).Approved?
                         && IsClientKey(t.wallet, t.clientKey) && !KeyTaken(r.withdrawals, key)
                         && !row.withdrawFrozen && row.available >= t.amount;
            && (locks ==>
                  && WithdrawalId(r.seq_) !in r.withdrawals && WithdrawalId(r.seq_) in r'.withdrawals
                  && r'.withdrawals == r.withdrawals[WithdrawalId(r.seq_) := QueuedRow(s, t, hotBalance, now)]
                  && RowOf(r', t.wallet) == row.(available := row.available - t.amount,
                                                 lockedWithdraw := row.lockedWithdraw + t.amount))
            && (!locks ==> r'.withdrawals == r.withdrawals && RowOf(r', t.wallet) == row)
            && (locks ==> AnswerFor(s, task, hotBalance, now) == Stored(Ok(QueuedRow(s, t, hotBalance, now))))
            && forall w :: w != t.wallet ==> RowOf(r', w) == RowOf(r, w)
  {
    var t := s.tasks[task];
    var key := WithdrawKey(t.wallet, t.clientKey);
    assert key[0] == 'w';
    if !KeyTaken(s.root.withdrawals, key) {
      RequestKeyFresh(s.root, t.wallet, key);
    }
    if Addresses.IsValidSolanaPubkey(t.wallet) {
      PubkeyHasNoColon(t.wallet);
    }
  }

  // ---------------------------------------------------------------- deposits

  lemma OnlyCreditsTouchDeposits(r: Root, n: NewWithdrawal, wallet: string, id: string, now: int)
    ensures CreateWithdrawal(r, n, now).0.deposits == r.deposits
    ensures CancelUserWithdrawal(r, wallet, id).0.deposits == r.deposits
    ensures MarkWithdrawalSent(r, id, now).0.deposits == r.deposits
  {
  }

  lemma AfterHotKeepsDeposits(s: System, task: nat, hotBalance: int, now: int)
    requires task in s.tasks && s.tasks[task].AwaitHot?
    ensures AfterHotBalance(s, task, hotBalance, now).root.deposits == s.root.deposits
  {
    var t := s.tasks[task];
    var d := W.Decide(RequestFor(s, t, hotBalance, now), t.cfg.withdraw);
    if d.Approved? {
      OnlyCreditsTouchDeposits(s.root, QueueFor(t, d), "", "", now);
    }
  }

  /** What the sources reported to a claim step; None when the step is not one or they disagree. */
  function Reported(e: Event): Option<D.FetchedTx> {
    match e
    case FirstFetchReturns(_, tx, _) => tx
    case SecondFetchReturns(_, primary, secondary, _) => MergedSources(primary, secondary)
    case _ => None
  }

  /** The tasks of a claim that this event resumes with an answer from the sources. */
  predicate ResumesClaim(s: System, e: Event) {
    && Reported(e).Some?
    && (e.FirstFetchReturns? || e.SecondFetchReturns?) && e.task in s.tasks
    && (if e.FirstFetchReturns? then s.tasks[e.task].AwaitFirst? else s.tasks[e.task].AwaitSecond?)
  }

  lemma DepositsAfterStep(s: System, e: Event)
    ensures Step(s, e).root.deposits
            == if ResumesClaim(s, e) then AfterFetch(s, e.task, Reported(e).value, e.now).root.deposits
               else s.root.deposits
    ensures ResumesClaim(s, e) ==> Step(s, e) == AfterFetch(s, e.task, Reported(e).value, e.now)
  {
    match e {
      case HotBalanceReturns(task, balance, now) =>
        if task in s.tasks && s.tasks[task].AwaitHot? && balance.Some? {
          AfterHotKeepsDeposits(s, task, balance.value, now);
        }
      case CancelRequested(wallet, id) =>
        OnlyCreditsTouchDeposits(s.root, NewWithdrawal("", 0, "", W.Auto, 0, ""), wallet, id, 0);
      case SendSucceeds(id, now) =>
        OnlyCreditsTouchDeposits(s.root, NewWithdrawal("", 0, "", W.Auto, 0, ""), "", id, now);
      case _ =>
    }
  }

  lemma AfterFetchDeposits(s: System, task: nat, tx: D.FetchedTx, now: int, sig: string)
    requires task in s.tasks && (s.tasks[task].AwaitFirst? || s.tasks[task].AwaitSecond?)
    ensures sig in s.root.deposits ==>
              var r' := AfterFetch(s, task, tx, now).root;
              sig in r'.deposits && r'.deposits[sig] == s.root.deposits[sig]
  {
  }

  /** A credited signature stays credited, to the same wallet and for the same amount. */
  lemma {:induction false} DepositsAreFinal(s: System, es: seq<Event>, sig: string)
    requires sig in s.root.deposits
    ensures sig in Run(s, es).root.deposits
    ensures Run(s, es).root.deposits[sig] == s.root.deposits[sig]
    decreases |es|
  {
    if |es| > 0 {
      var e := es[0];
      DepositsAfterStep(s, e);
      if ResumesClaim(s, e) {
        AfterFetchDeposits(s, e.task, Reported(e).value, e.now, sig);
      }
      DepositsAreFinal(Step(s, e), es[1..], sig);
    }
  }

  ghost predicate CreditedExactly(s: System, task: nat, tx: D.FetchedTx, sig: string, r': Root)
    requires task in s.tasks && (s.tasks[task].AwaitFirst? || s.tasks[task].AwaitSecond?) && sig in r'.deposits
  {
    var t, rec, r := s.tasks[task], r'.deposits[sig], s.root;
    && t.sig == sig && rec.txSignature == sig && rec.userId == t.wallet
    && rec.amount == D.ClaimTotal(ClaimInputFor(s, t, tx), t.cfg.claim) && IsSafeAmount(rec.amount)
    && tx.txSucceeded && tx.confirmations >= t.cfg.claim.minConfirmations
    && RowOf(r', t.wallet) == RowOf(r, t.wallet).(available := RowOf(r, t.wallet).available + rec.amount)
    && forall w :: w != t.wallet ==> RowOf(r', w) == RowOf(r, w)
  }

  lemma RecordIsExact(r: Root, wallet: string, sig: string, amount: int, now: int)
    requires Inv(r) && sig !in r.deposits && Addresses.IsValidSolanaPubkey(wallet) && IsSafeAmount(amount)
    ensures var r' := RecordDepositCredit(r, wallet, sig, amount, DepositKey(sig), now).0;
            && r'.deposits == r.deposits[sig := DepositRecord(DepositId(r.seq_), wallet, sig, amount, now)]
            && RowOf(r', wallet) == RowOf(r, wallet).(available := RowOf(r, wallet).available + amount)
            && forall w :: w != wallet ==> RowOf(r', w) == RowOf(r, w)
  {
    DepositKeyFresh(r, wallet, sig);
    PubkeyHasNoColon(wallet);
  }

  lemma AfterFetchIsExact(s: System, task: nat, tx: D.FetchedTx, now: int, sig: string)
    requires Inv(s.root) && task in s.tasks && (s.tasks[task].AwaitFirst? || s.tasks[task].AwaitSecond?)
    requires sig !in s.root.deposits && sig in AfterFetch(s, task, tx, now).root.deposits
    ensures CreditedExactly(s, task, tx, sig, AfterFetch(s, task, tx, now).root)
    ensures s.tasks[task].AwaitFirst? ==>
              AfterFetch(s, task, tx, now).root.deposits[sig].amount < s.tasks[task].cfg.claim.secondaryThreshold
  {
    var t := s.tasks[task];
    var i := ClaimInputFor(s, t, tx);
    var d := D.Evaluate(i, t.cfg.claim);
    D.AcceptedIsBound(i, t.cfg.claim);
    DepositKeyFresh(s.root, t.wallet, t.sig);
    PubkeyHasNoColon(t.wallet);
    RecordIsExact(s.root, t.wallet, t.sig, d.amount, now);
    assert t.sig == sig;
  }

  /**
   * A signature is credited only by a claim for it, to the claiming wallet, for exactly the sum of
   * the legs that match mint, destination and owner; a large one only on the word of both sources.
   * The wallet's balance grows by that amount and no other wallet's changes.
   */
  lemma CreditIsExact(s: System, e: Event, sig: string)
    requires Inv(s.root) && sig !in s.root.deposits && sig in Step(s, e).root.deposits
    ensures ResumesClaim(s, e)
    ensures CreditedExactly(s, e.task, Reported(e).value, sig, Step(s, e).root)
    ensures Step(s, e).root.deposits[sig].amount >= s.tasks[e.task].cfg.claim.secondaryThreshold
            ==> e.SecondFetchReturns?
  {
    DepositsAfterStep(s, e);
    AfterFetchIsExact(s, e.task, Reported(e).value, e.now, sig);
  }
}
