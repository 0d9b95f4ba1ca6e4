/**
 * Deposit claims: packages/chain/src/deposit-claim.ts, and the comparison and merge of two RPC
 * sources in packages/chain/src/rpc-client.ts.
 */
module DepositClaim {
  import opened Money
  import opened Sums
  import opened Text
  import Addresses

  datatype Program = SplToken | Token2022

  datatype Leg = Leg(mint: string, destination: string, sourceOwner: string, amount: nat, program: Program)

  datatype ClaimInput = ClaimInput(
    sessionWallet: string, txSignature: string, txSucceeded: bool, confirmations: int,
    depositAta: string, transfers: seq<Leg>, alreadyCredited: bool, reorged: bool)

  datatype ClaimPolicy = ClaimPolicy(
    depositsEnabled: bool, mainnet: bool, publicMainnetFunds: bool, usdcMint: string,
    allowedMints: set<string>, minDeposit: int, minConfirmations: int, secondaryThreshold: int)

  datatype RejectReason =
    | DepositsDisabled | MainnetFundsDisabled | InvalidSessionWallet | InvalidTxSignature
    | InvalidDepositAta | AlreadyCredited | Reorged | TxFailed | InsufficientConfirmations
    | AmountUnsafe | SourceBindingFailed | WrongMint | WrongDestination | NoMatchingTransfer
    | BelowMinDeposit

  datatype ClaimResult =
    | Accepted(amount: int, matched: seq<Leg>, requireSecondary: bool)
    | Rejected(reason: RejectReason)

  // ---------------------------------------------------------------- what a claim is worth

  /** What a leg is compared with. */
  datatype Binding = Binding(allowedMints: set<string>, usdcMint: string, depositAta: string, wallet: string)

  function Bind(i: ClaimInput, p: ClaimPolicy): Binding {
    Binding(p.allowedMints, p.usdcMint, i.depositAta, i.sessionWallet)
  }

  /** The leg moves the cluster's USDC from the session wallet to the platform's deposit account. */
  predicate Matches(b: Binding, leg: Leg) {
    && leg.mint in b.allowedMints
    && leg.mint == b.usdcMint
    && leg.destination == b.depositAta
    && leg.sourceOwner == b.wallet
  }

  function Worth(b: Binding): Leg -> int {
    (leg: Leg) => if Matches(b, leg) then leg.amount else 0
  }

  /** The sum of the matching legs. */
  function ClaimTotal(i: ClaimInput, p: ClaimPolicy): int {
    SeqSum(i.transfers, Worth(Bind(i, p)))
  }

  function MatchedLegs(b: Binding, legs: seq<Leg>): seq<Leg> {
    if |legs| == 0 then []
    else if Matches(b, legs[0]) then [legs[0]] + MatchedLegs(b, legs[1..])
    else MatchedLegs(b, legs[1..])
  }

  predicate AnyMatch(i: ClaimInput, p: ClaimPolicy) {
    exists leg :: leg in i.transfers && Matches(Bind(i, p), leg)
  }

  predicate AnyUnsafe(i: ClaimInput, p: ClaimPolicy) {
    exists leg :: leg in i.transfers && Matches(Bind(i, p), leg) && !IsSafeAmount(leg.amount)
  }

  // ---------------------------------------------------------------- the decision

  /** The checks that come before the legs are looked at, lines 136-175. */
  function GateFault(i: ClaimInput, p: ClaimPolicy): Option<RejectReason> {
    if !p.depositsEnabled then Some(DepositsDisabled)
    else if p.mainnet && !p.publicMainnetFunds then Some(MainnetFundsDisabled)
    else if !Addresses.IsValidSolanaPubkey(i.sessionWallet) then Some(InvalidSessionWallet)
    else if !Addresses.IsValidTxSignature(i.txSignature) then Some(InvalidTxSignature)
    else if !Addresses.IsValidSolanaPubkey(i.depositAta) then Some(InvalidDepositAta)
    else if i.alreadyCredited then Some(AlreadyCredited)
    else if i.reorged then Some(Reorged)
    else if !i.txSucceeded then Some(TxFailed)
    else if i.confirmations < p.minConfirmations then Some(InsufficientConfirmations)
    else None
  }

  predicate ToDeposit(i: ClaimInput) {
    exists leg :: leg in i.transfers && leg.destination == i.depositAta
  }

  predicate ForeignSource(i: ClaimInput) {
    exists leg :: leg in i.transfers && leg.destination == i.depositAta && leg.sourceOwner != i.sessionWallet
  }

  predicate ForeignMint(i: ClaimInput, p: ClaimPolicy) {
    exists leg :: leg in i.transfers && leg.destination == i.depositAta && leg.mint != p.usdcMint
  }

  /** Why nothing matched, lines 208-243. */
  function NoMatchReason(i: ClaimInput, p: ClaimPolicy): RejectReason {
    if ToDeposit(i) then
      if ForeignSource(i) then SourceBindingFailed
      else if ForeignMint(i, p) then WrongMint
      else NoMatchingTransfer
    else if |i.transfers| > 0 then WrongDestination
    else NoMatchingTransfer
  }

  function Evaluate(i: ClaimInput, p: ClaimPolicy): ClaimResult {
    var gate := GateFault(i, p);
    if gate.Some? then Rejected(gate.value)
    else if AnyUnsafe(i, p) then Rejected(AmountUnsafe)
    else if !AnyMatch(i, p) then Rejected(NoMatchReason(i, p))
    else
      var total := ClaimTotal(i, p);
      if total < p.minDeposit then Rejected(BelowMinDeposit)
      else if !IsSafeAmount(total) then Rejected(AmountUnsafe)
      else Accepted(total, MatchedLegs(Bind(i, p), i.transfers), total >= p.secondaryThreshold)
  }

  // ---------------------------------------------------------------- the rules of a claim

  /** The leg pays the platform's deposit account in the cluster's USDC, out of the claiming wallet. */
  predicate OwnLeg(i: ClaimInput, p: ClaimPolicy, leg: Leg) {
    && leg.sourceOwner == i.sessionWallet && leg.destination == i.depositAta
    && leg.mint == p.usdcMint && p.usdcMint in p.allowedMints
  }

  /** What the wallet paid in. */
  function PaidIn(i: ClaimInput, p: ClaimPolicy): int {
    SeqSum(i.transfers, (leg: Leg) => if OwnLeg(i, p, leg) then leg.amount as int else 0)
  }

  /** What has to hold before the legs count. */
  predicate Presentable(i: ClaimInput, p: ClaimPolicy) {
    && p.depositsEnabled && (p.mainnet ==> p.publicMainnetFunds)
    && Addresses.IsValidSolanaPubkey(i.sessionWallet) && Addresses.IsValidSolanaPubkey(i.depositAta)
    && Addresses.IsValidTxSignature(i.txSignature)
    && !i.alreadyCredited && !i.reorged && i.txSucceeded && p.minConfirmations <= i.confirmations
  }

  /** The rules of a claim, all together. */
  predicate WithinRules(i: ClaimInput, p: ClaimPolicy) {
    && Presentable(i, p)
    && (exists leg :: leg in i.transfers && OwnLeg(i, p, leg))
    && (forall leg :: leg in i.transfers && OwnLeg(i, p, leg) ==> IsSafeAmount(leg.amount))
    && IsSafeAmount(PaidIn(i, p)) && p.minDeposit <= PaidIn(i, p)
  }

  lemma {:induction false} PaidInSum(i: ClaimInput, p: ClaimPolicy, legs: seq<Leg>)
    ensures SeqSum(legs, (leg: Leg) => if OwnLeg(i, p, leg) then leg.amount as int else 0) == SeqSum(legs, Worth(Bind(i, p)))
  {
    if |legs| > 0 {
      PaidInSum(i, p, legs[1..]);
    }
  }

  /** A claim is accepted exactly when it is within the rules, for what the wallet paid in. */
  lemma AcceptedExactlyWhen(i: ClaimInput, p: ClaimPolicy)
    ensures Evaluate(i, p).Accepted? <==> WithinRules(i, p)
    ensures Evaluate(i, p).Accepted? ==>
              && Evaluate(i, p).amount == PaidIn(i, p)
              && (Evaluate(i, p).requireSecondary <==> p.secondaryThreshold <= PaidIn(i, p))
  {
    PaidInSum(i, p, i.transfers);
    hide SeqSum;
    assert forall leg :: OwnLeg(i, p, leg) <==> Matches(Bind(i, p), leg);
  }

  /** The faults of a claim as such, in the order of the checks. */
  const GATES: seq<RejectReason> := [DepositsDisabled, MainnetFundsDisabled, InvalidSessionWallet, InvalidTxSignature,
                                     InvalidDepositAta, AlreadyCredited, Reorged, TxFailed, InsufficientConfirmations]

  predicate HasFault(i: ClaimInput, p: ClaimPolicy, fault: RejectReason) {
    match fault
    case DepositsDisabled => !p.depositsEnabled
    case MainnetFundsDisabled => p.mainnet && !p.publicMainnetFunds
    case InvalidSessionWallet => !Addresses.IsValidSolanaPubkey(i.sessionWallet)
    case InvalidTxSignature => !Addresses.IsValidTxSignature(i.txSignature)
    case InvalidDepositAta => !Addresses.IsValidSolanaPubkey(i.depositAta)
    case AlreadyCredited => i.alreadyCredited
    case Reorged => i.reorged
    case TxFailed => !i.txSucceeded
    case InsufficientConfirmations => i.confirmations < p.minConfirmations
    case _ => false
  }

  lemma FirstGate(i: ClaimInput, p: ClaimPolicy, k: nat)
    requires k < |GATES|
    ensures GateFault(i, p) == Some(GATES[k])
            <==> HasFault(i, p, GATES[k]) && forall j :: 0 <= j < k ==> !HasFault(i, p, GATES[j])
  {
    hide Addresses.IsValidSolanaPubkey, Addresses.IsValidTxSignature;
    assert HasFault(i, p, GATES[0]) == !p.depositsEnabled;
    assert HasFault(i, p, GATES[1]) == (p.mainnet && !p.publicMainnetFunds);
    assert HasFault(i, p, GATES[2]) == !Addresses.IsValidSolanaPubkey(i.sessionWallet);
    assert HasFault(i, p, GATES[3]) == !Addresses.IsValidTxSignature(i.txSignature);
    assert HasFault(i, p, GATES[4]) == !Addresses.IsValidSolanaPubkey(i.depositAta);
    assert HasFault(i, p, GATES[5]) == i.alreadyCredited;
    assert HasFault(i, p, GATES[6]) == i.reorged;
    assert HasFault(i, p, GATES[7]) == !i.txSucceeded;
    assert HasFault(i, p, GATES[8]) == (i.confirmations < p.minConfirmations);
  }

  /** Of several faults the first in the order of the checks is the reason given. */
  lemma FirstFaultIsTheReason(i: ClaimInput, p: ClaimPolicy, k: nat)
    requires k < |GATES|
    ensures Evaluate(i, p) == Rejected(GATES[k])
            <==> HasFault(i, p, GATES[k]) && forall j :: 0 <= j < k ==> !HasFault(i, p, GATES[j])
  {
    FirstGate(i, p, k);
    hide GateFault, HasFault;
    assert NoMatchReason(i, p) !in GATES;
  }

  /** A presentable claim without a leg of the wallet's own is told what is wrong with the others. */
  lemma NoOwnLegReason(i: ClaimInput, p: ClaimPolicy)
    requires Presentable(i, p) && forall leg :: leg in i.transfers ==> !OwnLeg(i, p, leg)
    ensures var paid, r := (set leg | leg in i.transfers && leg.destination == i.depositAta), Evaluate(i, p);
            && (r == Rejected(WrongDestination) <==> i.transfers != [] && paid == {})
            && (r == Rejected(SourceBindingFailed) <==> exists leg :: leg in paid && leg.sourceOwner != i.sessionWallet)
            && (r == Rejected(WrongMint)
                <==> paid != {} && (forall leg :: leg in paid ==> leg.sourceOwner == i.sessionWallet)
                     && exists leg :: leg in paid && leg.mint != p.usdcMint)
            && r in {Rejected(WrongDestination), Rejected(SourceBindingFailed), Rejected(WrongMint), Rejected(NoMatchingTransfer)}
  {
    assert forall leg :: OwnLeg(i, p, leg) <==> Matches(Bind(i, p), leg);
    assert GateFault(i, p).None?;
    assert !AnyMatch(i, p) && !AnyUnsafe(i, p);
    hide GateFault, Matches, Addresses.IsValidSolanaPubkey, Addresses.IsValidTxSignature;
    var paid := set leg | leg in i.transfers && leg.destination == i.depositAta;
    if ToDeposit(i) {
      var leg :| leg in i.transfers && leg.destination == i.depositAta;
      assert leg in paid;
    }
    assert paid != {} ==> exists leg :: leg in paid;
    assert ForeignSource(i) <==> exists leg :: leg in paid && leg.sourceOwner != i.sessionWallet;
    assert ForeignMint(i, p) <==> exists leg :: leg in paid && leg.mint != p.usdcMint;
    assert i.transfers != [] ==> i.transfers[0] in i.transfers;
  }

  lemma Extend(matched: seq<Leg>, leg: Leg, rest: seq<Leg>)
    ensures matched + ([leg] + rest) == (matched + [leg]) + rest
    ensures [] + rest == rest
  {
  }

  lemma OneLegLess(b: Binding, legs: seq<Leg>, k: nat)
    requires k <= |legs|
    ensures k < |legs| ==>
              && MatchedLegs(b, legs[k..]) == (if Matches(b, legs[k]) then [legs[k]] else []) + MatchedLegs(b, legs[k + 1..])
              && SeqSum(legs[k..], Worth(b))
                 == (if Matches(b, legs[k]) then legs[k].amount else 0) + SeqSum(legs[k + 1..], Worth(b))
    ensures k == |legs| ==> MatchedLegs(b, legs[k..]) == [] && SeqSum(legs[k..], Worth(b)) == 0
  {
    if k < |legs| {
      assert legs[k..][1..] == legs[k + 1..];
    }
  }

  /** Lines 131-265: one pass over the legs, pushing to `matched` and adding to `total`. */
  method EvaluateDepositClaim(i: ClaimInput, p: ClaimPolicy) returns (r: ClaimResult)
    ensures r == Evaluate(i, p)
    ensures r.Accepted? <==> WithinRules(i, p)
    ensures r.Accepted? ==> r.amount == PaidIn(i, p) && (r.requireSecondary <==> p.secondaryThreshold <= PaidIn(i, p))
  {
    AcceptedExactlyWhen(i, p);
    hide GateFault, NoMatchReason, MatchedLegs, SeqSum, Worth, WithinRules, PaidIn;
    var gate := GateFault(i, p);
    if gate.Some? {
      return Rejected(gate.value);
    }
    assert i.transfers[0..] == i.transfers;
    var matched: seq<Leg> := [];
    var total := 0;
    var k := 0;
    while k < |i.transfers|
      invariant k <= |i.transfers|
      invariant forall j :: 0 <= j < k && Matches(Bind(i, p), i.transfers[j]) ==> IsSafeAmount(i.transfers[j].amount)
      invariant |matched| > 0 <==> exists j :: 0 <= j < k && Matches(Bind(i, p), i.transfers[j])
      invariant matched + MatchedLegs(Bind(i, p), i.transfers[k..]) == MatchedLegs(Bind(i, p), i.transfers)
      invariant total + SeqSum(i.transfers[k..], Worth(Bind(i, p))) == ClaimTotal(i, p)
    {
      var leg := i.transfers[k];
      assert leg in i.transfers;
      OneLegLess(Bind(i, p), i.transfers, k);
      Extend(matched, leg, MatchedLegs(Bind(i, p), i.transfers[k + 1..]));
      if leg.mint in p.allowedMints && leg.mint == p.usdcMint
         && leg.destination == i.depositAta && leg.sourceOwner == i.sessionWallet {
        if !IsSafeAmount(leg.amount) {
          return Rejected(AmountUnsafe);
        }
        matched := matched + [leg];
        total := total + leg.amount;
      }
      k := k + 1;
    }
    OneLegLess(Bind(i, p), i.transfers, k);
    assert !AnyUnsafe(i, p);
    assert AnyMatch(i, p) <==> |matched| > 0;
    if |matched| == 0 {
      return Rejected(NoMatchReason(i, p));
    }
    if total < p.minDeposit {
      return Rejected(BelowMinDeposit);
    }
    if !IsSafeAmount(total) {
      return Rejected(AmountUnsafe);
    }
    return Accepted(total, matched, total >= p.secondaryThreshold);
  }

  lemma {:induction false} MatchedSum(b: Binding, legs: seq<Leg>)
    ensures SeqSum(MatchedLegs(b, legs), (leg: Leg) => leg.amount) == SeqSum(legs, Worth(b))
    ensures forall leg :: leg in MatchedLegs(b, legs) <==> leg in legs && Matches(b, leg)
  {
    if |legs| > 0 {
      MatchedSum(b, legs[1..]);
      assert legs == [legs[0]] + legs[1..];
    }
  }

  /** What a credit is for: at least one safe leg of the wallet's own, and exactly their sum. */
  lemma AcceptedIsBound(i: ClaimInput, p: ClaimPolicy)
    requires Evaluate(i, p).Accepted?
    ensures !i.alreadyCredited && i.txSucceeded && i.confirmations >= p.minConfirmations
    ensures Evaluate(i, p).amount == SeqSum(Evaluate(i, p).matched, (leg: Leg) => leg.amount) == ClaimTotal(i, p)
    ensures forall leg :: leg in Evaluate(i, p).matched <==> leg in i.transfers && Matches(Bind(i, p), leg)
    ensures IsSafeAmount(Evaluate(i, p).amount) && p.minDeposit <= Evaluate(i, p).amount
    ensures Addresses.IsValidSolanaPubkey(i.sessionWallet) && Addresses.IsValidTxSignature(i.txSignature)
  {
    MatchedSum(Bind(i, p), i.transfers);
  }

  // ---------------------------------------------------------------- leg order and the two sources

  /** Everything of a leg but its program. */
  datatype Fields = Fields(mint: string, destination: string, sourceOwner: string, amount: nat)

  function FieldsOf(leg: Leg): Fields {
    Fields(leg.mint, leg.destination, leg.sourceOwner, leg.amount)
  }

  function AllFields(legs: seq<Leg>): (r: seq<Fields>)
    ensures |r| == |legs|
    ensures forall k :: 0 <= k < |legs| ==> r[k] == FieldsOf(legs[k])
  {
    if |legs| == 0 then [] else [FieldsOf(legs[0])] + AllFields(legs[1..])
  }

  function Outline(r: ClaimResult): (bool, int, bool, Option<RejectReason>) {
    match r
    case Accepted(a, _, second) => (true, a, second, None)
    case Rejected(why) => (false, 0, false, Some(why))
  }

  function FieldWorth(b: Binding): Fields -> int {
    (f: Fields) => Worth(b)(Leg(f.mint, f.destination, f.sourceOwner, f.amount, SplToken))
  }

  lemma {:induction false} WorthByFields(b: Binding, legs: seq<Leg>)
    ensures SeqSum(legs, Worth(b)) == SeqSum(AllFields(legs), FieldWorth(b))
  {
    if |legs| > 0 {
      WorthByFields(b, legs[1..]);
    }
  }

  lemma {:induction false} SameFieldsSameTotal(b: Binding, x: seq<Leg>, y: seq<Leg>)
    requires multiset(AllFields(x)) == multiset(AllFields(y))
    ensures SeqSum(x, Worth(b)) == SeqSum(y, Worth(b))
    ensures |x| == |y|
  {
    WorthByFields(b, x);
    WorthByFields(b, y);
    SeqSumPermutation(AllFields(x), AllFields(y), FieldWorth(b));
    assert |AllFields(x)| == |multiset(AllFields(x))| == |AllFields(y)|;
  }

  lemma {:induction false} SameFieldsBothWays(a: seq<Leg>, b: seq<Leg>)
    requires multiset(AllFields(a)) == multiset(AllFields(b))
    ensures forall x :: x in a ==> exists y :: y in b && FieldsOf(y) == FieldsOf(x)
  {
    forall x | x in a
      ensures exists y :: y in b && FieldsOf(y) == FieldsOf(x)
    {
      var k :| 0 <= k < |a| && a[k] == x;
      assert AllFields(a)[k] in multiset(AllFields(b));
      var j :| 0 <= j < |b| && AllFields(b)[j] == FieldsOf(x);
      assert b[j] in b;
    }
  }

  lemma GateIgnoresLegs(i: ClaimInput, j: ClaimInput, p: ClaimPolicy)
    requires j == i.(transfers := j.transfers)
    ensures GateFault(i, p) == GateFault(j, p)
  {
  }

  /** The existence questions of the decision have the same answers for both leg lists. */
  lemma SameLegsExist(i: ClaimInput, j: ClaimInput, p: ClaimPolicy)
    requires j == i.(transfers := j.transfers)
    requires multiset(AllFields(i.transfers)) == multiset(AllFields(j.transfers))
    ensures AnyMatch(i, p) ==> AnyMatch(j, p)
    ensures AnyUnsafe(i, p) ==> AnyUnsafe(j, p)
    ensures ToDeposit(i) ==> ToDeposit(j)
    ensures ForeignSource(i) ==> ForeignSource(j)
    ensures ForeignMint(i, p) ==> ForeignMint(j, p)
  {
    SameFieldsBothWays(i.transfers, j.transfers);
  }

  function OutlineOf(gate: Option<RejectReason>, unsafe: bool, any: bool, none: RejectReason, total: int,
                     p: ClaimPolicy): (bool, int, bool, Option<RejectReason>) {
    if gate.Some? then (false, 0, false, gate)
    else if unsafe then (false, 0, false, Some(AmountUnsafe))
    else if !any then (false, 0, false, Some(none))
    else if total < p.minDeposit then (false, 0, false, Some(BelowMinDeposit))
    else if !IsSafeAmount(total) then (false, 0, false, Some(AmountUnsafe))
    else (true, total, total >= p.secondaryThreshold, None)
  }

  lemma OutlineByParts(i: ClaimInput, p: ClaimPolicy)
    ensures Outline(Evaluate(i, p))
            == OutlineOf(GateFault(i, p), AnyUnsafe(i, p), AnyMatch(i, p), NoMatchReason(i, p), ClaimTotal(i, p), p)
  {
  }

  /**
   * The decision and the amount depend only on the legs as a multiset of mint, destination, owner
   * and amount: not on their order, and not on the program field.
   */
  lemma LegOrderIsIrrelevant(i: ClaimInput, j: ClaimInput, p: ClaimPolicy)
    requires j == i.(transfers := j.transfers)
    requires multiset(AllFields(i.transfers)) == multiset(AllFields(j.transfers))
    ensures ClaimTotal(i, p) == ClaimTotal(j, p)
    ensures Outline(Evaluate(i, p)) == Outline(Evaluate(j, p))
  {
    SameFieldsSameTotal(Bind(i, p), i.transfers, j.transfers);
    SameLegsExist(i, j, p);
    SameLegsExist(j, i, p);
    GateIgnoresLegs(i, j, p);
    OutlineByParts(i, p);
    OutlineByParts(j, p);
  }

  function LegKey(f: Fields): string {
    f.mint + "|" + f.destination + "|" + f.sourceOwner + "|" + Dec(f.amount)
  }

  function LegKeys(fs: seq<Fields>): (ks: seq<string>)
    ensures |ks| == |fs|
    ensures forall k :: 0 <= k < |fs| ==> ks[k] == LegKey(fs[k])
  {
    if |fs| == 0 then [] else [LegKey(fs[0])] + LegKeys(fs[1..])
  }

  /** legsEqual, lines 159-169: compare the sorted key lists position by position. */
  predicate LegsEqual(a: seq<Leg>, b: seq<Leg>) {
    && |a| == |b|
    && Sort(LegKeys(AllFields(a))) == Sort(LegKeys(AllFields(b)))
  }

  predicate PipeFree(f: Fields) {
    '|' !in f.mint && '|' !in f.destination && '|' !in f.sourceOwner
  }

  predicate AllPipeFree(fs: seq<Fields>) {
    forall k :: 0 <= k < |fs| ==> PipeFree(fs[k])
  }

  function Without<T>(s: seq<T>, i: nat): seq<T>
    requires i < |s|
  {
    s[..i] + s[i + 1..]
  }

  lemma PipeFreeWithout(fs: seq<Fields>, i: nat)
    requires AllPipeFree(fs) && i < |fs|
    ensures AllPipeFree(Without(fs, i))
  {
    forall k | 0 <= k < |fs| - 1
      ensures PipeFree(Without(fs, i)[k])
    {
      assert Without(fs, i)[k] == fs[if k < i then k else k + 1];
    }
  }

  function Pipes(s: string): nat {
    if |s| == 0 then 0 else (if s[0] == '|' then 1 else 0) + Pipes(s[1..])
  }

  lemma {:induction false} PipesAppend(s: string, t: string)
    ensures Pipes(s + t) == Pipes(s) + Pipes(t)
  {
    if |s| == 0 {
      assert s + t == t;
    } else {
      assert (s + t)[1..] == s[1..] + t;
      PipesAppend(s[1..], t);
    }
  }

  lemma {:induction false} NoPipes(s: string)
    ensures Pipes(s) == 0 <==> '|' !in s
  {
    if |s| > 0 {
      NoPipes(s[1..]);
      assert s == [s[0]] + s[1..];
    }
  }

  /** A key holds the three separators and the pipes of its fields. */
  lemma PipesOfKey(f: Fields)
    ensures Pipes(LegKey(f)) == 3 + Pipes(f.mint) + Pipes(f.destination) + Pipes(f.sourceOwner)
  {
    hide Dec;
    NoPipes(Dec(f.amount));
    assert Pipes("|") == 1;
    hide Pipes;
    PipesAppend(f.mint, "|");
    PipesAppend(f.mint + "|", f.destination);
    PipesAppend(f.mint + "|" + f.destination, "|");
    PipesAppend(f.mint + "|" + f.destination + "|", f.sourceOwner);
    PipesAppend(f.mint + "|" + f.destination + "|" + f.sourceOwner, "|");
    PipesAppend(f.mint + "|" + f.destination + "|" + f.sourceOwner + "|", Dec(f.amount));
  }

  /** The key of a leg without pipes is no other leg's key, whatever that leg holds. */
  lemma LegKeyInjective(f: Fields, g: Fields)
    requires PipeFree(f) && LegKey(f) == LegKey(g)
    ensures f == g
  {
    hide Dec;
    PipesOfKey(f);
    PipesOfKey(g);
    NoPipes(f.mint);
    NoPipes(f.destination);
    NoPipes(f.sourceOwner);
    NoPipes(g.mint);
    NoPipes(g.destination);
    NoPipes(g.sourceOwner);
    hide Pipes;
    var f2, g2 := f.sourceOwner + "|" + Dec(f.amount), g.sourceOwner + "|" + Dec(g.amount);
    var f1, g1 := f.destination + "|" + f2, g.destination + "|" + g2;
    assert LegKey(f) == f.mint + "|" + f1 && LegKey(g) == g.mint + "|" + g1;
    SplitAtFirst(f.mint, f1, g.mint, g1, '|');
    SplitAtFirst(f.destination, f2, g.destination, g2, '|');
    SplitAtFirst(f.sourceOwner, Dec(f.amount), g.sourceOwner, Dec(g.amount), '|');
    DecInjective(f.amount, g.amount);
  }

  /** The string around its first pipe. */
  lemma AroundPipe(s: string) returns (x: string, y: string)
    requires '|' in s
    ensures s == x + "|" + y && |x| < |s| && |y| < |s|
  {
    var i :| 0 <= i < |s| && s[i] == '|';
    x, y := s[..i], s[i + 1..];
  }

  /** A pipe inside a field can be taken for a separator: another leg has the same key. */
  lemma MovePipe(f: Fields) returns (g: Fields)
    requires !PipeFree(f)
    ensures g != f && LegKey(g) == LegKey(f)
  {
    hide Dec;
    if '|' in f.mint {
      var x, y := AroundPipe(f.mint);
      g := Fields(x, y + "|" + f.destination, f.sourceOwner, f.amount);
      assert x + "|" + (y + "|" + f.destination) == f.mint + "|" + f.destination;
    } else if '|' in f.destination {
      var x, y := AroundPipe(f.destination);
      g := Fields(f.mint + "|" + x, y, f.sourceOwner, f.amount);
      assert f.mint + "|" + x + "|" + y == f.mint + "|" + f.destination;
    } else {
      var x, y := AroundPipe(f.sourceOwner);
      g := Fields(f.mint, f.destination + "|" + x, y, f.amount);
      assert f.mint + "|" + (f.destination + "|" + x) + "|" + y == f.mint + "|" + f.destination + "|" + f.sourceOwner;
    }
  }

  /** A leg's key identifies it exactly when its fields hold no pipe. */
  lemma KeyIdentifiesIff(f: Fields)
    ensures PipeFree(f) <==> forall g :: LegKey(g) == LegKey(f) ==> g == f
  {
    hide LegKey;
    if PipeFree(f) {
      forall g | LegKey(g) == LegKey(f)
        ensures g == f
      {
        LegKeyInjective(f, g);
      }
    } else {
      var g := MovePipe(f);
    }
  }

  lemma {:induction false} KeysWithout(b: seq<Fields>, i: nat)
    requires i < |b|
    ensures LegKeys(Without(b, i)) == Without(LegKeys(b), i)
    ensures multiset(Without(b, i)) == multiset(b) - multiset{b[i]}
    ensures multiset(LegKeys(Without(b, i))) == multiset(LegKeys(b)) - multiset{LegKey(b[i])}
  {
    hide LegKey;
    MultisetRemove(b, i);
    MultisetRemove(LegKeys(b), i);
  }

  lemma Restore<T>(a: seq<T>, b: seq<T>, x: T)
    requires x in multiset(a) && x in multiset(b)
    requires multiset(a) - multiset{x} == multiset(b) - multiset{x}
    ensures multiset(a) == multiset(b)
  {
    assert multiset(a) == (multiset(a) - multiset{x}) + multiset{x};
    assert multiset(b) == (multiset(b) - multiset{x}) + multiset{x};
  }

  lemma {:induction false} KeysOfPermutation(a: seq<Fields>, b: seq<Fields>)
    requires multiset(a) == multiset(b)
    ensures multiset(LegKeys(a)) == multiset(LegKeys(b))
  {
    if |a| == 0 {
      assert |multiset(b)| == 0;
    } else {
      assert a[0] in multiset(b);
      var i :| 0 <= i < |b| && b[i] == a[0];
      KeysWithout(a, 0);
      KeysWithout(b, i);
      KeysOfPermutation(Without(a, 0), Without(b, i));
      Restore(LegKeys(a), LegKeys(b), LegKey(a[0]));
    }
  }

  lemma {:induction false} PermutationOfKeys(a: seq<Fields>, b: seq<Fields>)
    requires AllPipeFree(a)
    requires multiset(LegKeys(a)) == multiset(LegKeys(b))
    ensures multiset(a) == multiset(b)
  {
    if |a| == 0 {
      assert |multiset(LegKeys(b))| == 0;
    } else {
      assert LegKeys(a)[0] in multiset(LegKeys(b));
      var i :| 0 <= i < |b| && LegKeys(b)[i] == LegKey(a[0]);
      LegKeyInjective(a[0], b[i]);
      PipeFreeWithout(a, 0);
      KeysWithout(a, 0);
      KeysWithout(b, i);
      PermutationOfKeys(Without(a, 0), Without(b, i));
      Restore(a, b, a[0]);
    }
  }

  /**
   * legsEqual holds exactly when the two leg lists are equal as multisets of their four fields, as
   * soon as one of the lists holds no pipe.
   */
  lemma LegsEqualIffSameMultiset(a: seq<Leg>, b: seq<Leg>)
    requires AllPipeFree(AllFields(a))
    ensures LegsEqual(a, b) <==> multiset(AllFields(a)) == multiset(AllFields(b))
    ensures LegsEqual(b, a) <==> LegsEqual(a, b)
  {
    var ka, kb := LegKeys(AllFields(a)), LegKeys(AllFields(b));
    SortSorts(ka);
    SortSorts(kb);
    if LegsEqual(a, b) {
      PermutationOfKeys(AllFields(a), AllFields(b));
    }
    if multiset(AllFields(a)) == multiset(AllFields(b)) {
      KeysOfPermutation(AllFields(a), AllFields(b));
      SortIsTheSort(kb, Sort(ka));
      assert |AllFields(a)| == |multiset(AllFields(a))| == |AllFields(b)|;
    }
  }

  lemma LegsWithOneReplaced(a: seq<Leg>, k: nat, leg: Leg)
    requires k < |a|
    ensures AllFields(a[k := leg]) == AllFields(a)[k := FieldsOf(leg)]
    ensures LegKey(FieldsOf(leg)) == LegKey(AllFields(a)[k]) ==> LegsEqual(a, a[k := leg])
    ensures FieldsOf(leg) != AllFields(a)[k] ==> multiset(AllFields(a[k := leg])) != multiset(AllFields(a))
  {
    hide LegKey;
    var fs, b := AllFields(a), a[k := leg];
    assert AllFields(b) == fs[k := FieldsOf(leg)];
    if LegKey(FieldsOf(leg)) == LegKey(fs[k]) {
      assert LegKeys(AllFields(b)) == LegKeys(fs);
    }
    assert multiset(fs[k := FieldsOf(leg)])[fs[k]] == multiset(fs)[fs[k]] - if FieldsOf(leg) != fs[k] then 1 else 0;
  }

  /** Legs with a pipe somewhere have a different list that legsEqual takes for them. */
  lemma ConfusedWith(a: seq<Leg>) returns (b: seq<Leg>)
    requires !AllPipeFree(AllFields(a))
    ensures LegsEqual(a, b) && multiset(AllFields(a)) != multiset(AllFields(b))
  {
    hide LegsEqual, LegKey, PipeFree;
    var k :| 0 <= k < |a| && !PipeFree(AllFields(a)[k]);
    var g := MovePipe(AllFields(a)[k]);
    var leg := Leg(g.mint, g.destination, g.sourceOwner, g.amount, SplToken);
    LegsWithOneReplaced(a, k, leg);
    b := a[k := leg];
  }

  ghost predicate ComparesExactly(a: seq<Leg>) {
    forall b :: LegsEqual(a, b) <==> multiset(AllFields(a)) == multiset(AllFields(b))
  }

  /** When one source's legs are safe to compare by keys: exactly when none of their fields holds a pipe. */
  lemma LegsEqualIsExactIff(a: seq<Leg>)
    ensures ComparesExactly(a) <==> AllPipeFree(AllFields(a))
  {
    hide LegsEqual, AllPipeFree, AllFields;
    if AllPipeFree(AllFields(a)) {
      forall b
        ensures LegsEqual(a, b) <==> multiset(AllFields(a)) == multiset(AllFields(b))
      {
        LegsEqualIffSameMultiset(a, b);
      }
    } else {
      var b := ConfusedWith(a);
    }
  }

  /** With the separator inside a field the comparison can take different legs for equal ones. */
  lemma PipeConfusesLegsEqual()
    ensures var a, b := Leg("m|d", "x", "o", 1, SplToken), Leg("m", "d|x", "o", 1, SplToken);
            LegsEqual([a], [b]) && multiset(AllFields([a])) != multiset(AllFields([b]))
  {
    var a, b := Leg("m|d", "x", "o", 1, SplToken), Leg("m", "d|x", "o", 1, SplToken);
    assert LegKey(FieldsOf(a)) == LegKey(FieldsOf(b)) == "m|d|x|o|" + Dec(1);
    assert AllFields([a]) == [FieldsOf(a)] && AllFields([b]) == [FieldsOf(b)];
    assert FieldsOf(a) in multiset(AllFields([a])) && FieldsOf(a) !in multiset(AllFields([b]));
  }

  datatype FetchedTx = FetchedTx(txSucceeded: bool, confirmations: int, transfers: seq<Leg>)

  /** The two-source merge of fetchDepositTransaction; None when the sources disagree. */
  function MergeSources(primary: FetchedTx, secondary: FetchedTx): Option<FetchedTx> {
    if primary.txSucceeded != secondary.txSucceeded then None
    else if !LegsEqual(primary.transfers, secondary.transfers) then None
    else Some(primary.(confirmations :=
      if primary.confirmations <= secondary.confirmations then primary.confirmations else secondary.confirmations))
  }

  function ClaimOn(base: ClaimInput, tx: FetchedTx): ClaimInput {
    base.(txSucceeded := tx.txSucceeded,
          confirmations := if tx.confirmations <= 1_000_000 then tx.confirmations else 1_000_000,
          transfers := tx.transfers)
  }

  /**
   * Once one source's legs hold no pipe, a merged answer is one both sources stand for: whichever is
   * called primary, the decision and the amount are the same, and the amount is what each alone says.
   */
  lemma MergeIsSymmetric(base: ClaimInput, p: ClaimPolicy, one: FetchedTx, two: FetchedTx)
    requires AllPipeFree(AllFields(one.transfers))
    ensures MergeSources(one, two).Some?
            <==> one.txSucceeded == two.txSucceeded && multiset(AllFields(one.transfers)) == multiset(AllFields(two.transfers))
    ensures MergeSources(one, two).Some? <==> MergeSources(two, one).Some?
    ensures MergeSources(one, two).Some? ==>
      var a, b := MergeSources(one, two).value, MergeSources(two, one).value;
      && Outline(Evaluate(ClaimOn(base, a), p)) == Outline(Evaluate(ClaimOn(base, b), p))
      && ClaimTotal(ClaimOn(base, a), p) == ClaimTotal(ClaimOn(base, one), p) == ClaimTotal(ClaimOn(base, two), p)
      && a.txSucceeded == one.txSucceeded && a.transfers == one.transfers
      && a.confirmations == b.confirmations && a.confirmations in {one.confirmations, two.confirmations}
      && a.confirmations <= one.confirmations && a.confirmations <= two.confirmations
  {
    hide Evaluate, Outline, LegsEqual, SeqSum, Worth, AllFields, PipeFree;
    LegsEqualIffSameMultiset(one.transfers, two.transfers);
    if MergeSources(one, two).Some? {
      var a, b := MergeSources(one, two).value, MergeSources(two, one).value;
      LegOrderIsIrrelevant(ClaimOn(base, a), ClaimOn(base, b), p);
      SameFieldsSameTotal(Bind(base, p), one.transfers, two.transfers);
    }
  }
}
