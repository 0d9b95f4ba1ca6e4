/** The withdraw request policy of packages/chain/src/withdraw-policy.ts. */
module WithdrawPolicy {
  import opened Money
  import Addresses

  datatype WithdrawalStatus = Pending | ApprovedStatus | Sending | Sent | Failed | Rejected | Cancelled

  datatype ApprovalLevel = Auto | Manual | DualAdmin

  datatype Request = Request(
    sessionWallet: string, destination: string, amount: int, available: int,
    selfExcluded: bool, withdrawFrozen: bool, hasPriorWithdraw: bool,
    lastRequestedAtMs: Option<int>, nowMs: int, hotDailyOutflow: int, hotBalance: int)

  datatype Policy = Policy(
    withdrawalsEnabled: bool, mainnet: bool, publicMainnetFunds: bool,
    firstCooldownHours: int, cooldownMinutes: int,
    manualThreshold: int, dualThreshold: int, perTxCap: int, dailyCap: int)

  datatype RejectReason =
    | WithdrawalsDisabled | MainnetFundsDisabled | InvalidSessionWallet | InvalidDestination
    | DestinationNotOwnWallet | SelfExcluded | Frozen | AmountUnsafe | InsufficientAvailable
    | CooldownActive | ExceedsHotDailyCap | ExceedsHotPerTxCap | HotUnderfunded

  datatype Decision =
    | Approved(amount: int, destination: string, level: ApprovalLevel, availableAtMs: int)
    | Refused(reason: RejectReason)

  function CooldownMs(q: Request, p: Policy): int {
    if q.hasPriorWithdraw then p.cooldownMinutes * 60_000 else p.firstCooldownHours * 3_600_000
  }

  /** A later request is still inside the cool-down of the previous one. */
  predicate CoolingDown(q: Request, p: Policy) {
    && q.hasPriorWithdraw && CooldownMs(q, p) > 0
    && q.lastRequestedAtMs.Some? && q.nowMs < q.lastRequestedAtMs.value + CooldownMs(q, p)
  }

  function Level(amount: int, p: Policy): ApprovalLevel {
    if amount >= p.dualThreshold then DualAdmin
    else if amount >= p.manualThreshold then Manual
    else Auto
  }

  function ReadyAt(q: Request, p: Policy): int {
    if !q.hasPriorWithdraw && CooldownMs(q, p) > 0 then q.nowMs + CooldownMs(q, p) else q.nowMs
  }

  function Fault(q: Request, p: Policy): Option<RejectReason> {
    if !p.withdrawalsEnabled then Some(WithdrawalsDisabled)
    else if p.mainnet && !p.publicMainnetFunds then Some(MainnetFundsDisabled)
    else if !Addresses.IsValidSolanaPubkey(q.sessionWallet) then Some(InvalidSessionWallet)
    else if !Addresses.IsValidSolanaPubkey(q.destination) then Some(InvalidDestination)
    else if q.destination != q.sessionWallet then Some(DestinationNotOwnWallet)
    else if q.selfExcluded then Some(SelfExcluded)
    else if q.withdrawFrozen then Some(Frozen)
    else if !IsSafeAmount(q.amount) then Some(AmountUnsafe)
    else if q.available < q.amount then Some(InsufficientAvailable)
    else if CoolingDown(q, p) then Some(CooldownActive)
    else if q.hotDailyOutflow + q.amount > p.dailyCap then Some(ExceedsHotDailyCap)
    else if Level(q.amount, p).Auto? && q.amount > p.perTxCap then Some(ExceedsHotPerTxCap)
    else if Level(q.amount, p).Auto? && q.hotBalance < q.amount then Some(HotUnderfunded)
    else None
  }

  function Decide(q: Request, p: Policy): Decision {
    if Fault(q, p).Some? then Refused(Fault(q, p).value)
    else Approved(q.amount, q.destination, Level(q.amount, p), ReadyAt(q, p))
  }

  /**
   * The rules for a request: the money goes to the session wallet itself, within the balance that was
   * read and the daily cap, a second request waits for the cool-down, and only a small, funded amount
   * goes without review.
   */
  predicate WithinPolicy(q: Request, p: Policy) {
    && p.withdrawalsEnabled && (p.mainnet ==> p.publicMainnetFunds)
    && Addresses.IsValidSolanaPubkey(q.sessionWallet) && q.destination == q.sessionWallet
    && !q.selfExcluded && !q.withdrawFrozen
    && IsSafeAmount(q.amount) && q.amount <= q.available
    && (q.hasPriorWithdraw && q.lastRequestedAtMs.Some? && p.cooldownMinutes > 0
        ==> q.nowMs - q.lastRequestedAtMs.value >= p.cooldownMinutes * 60_000)
    && q.hotDailyOutflow + q.amount <= p.dailyCap
    && (q.amount < p.manualThreshold && q.amount < p.dualThreshold
        ==> q.amount <= p.perTxCap && q.amount <= q.hotBalance)
  }

  /** What is approved: the whole amount, to the session wallet, at the level and the time the policy sets. */
  predicate AsPolicySets(q: Request, p: Policy, amount: int, destination: string, level: ApprovalLevel, availableAtMs: int) {
    && amount == q.amount && destination == q.sessionWallet
    && (level.Auto? <==> amount < p.manualThreshold && amount < p.dualThreshold)
    && (level.DualAdmin? <==> amount >= p.dualThreshold)
    && availableAtMs - q.nowMs == if !q.hasPriorWithdraw && p.firstCooldownHours > 0 then p.firstCooldownHours * 3_600_000 else 0
  }

  /** A request is approved exactly when it is within the policy, and as the policy sets. */
  lemma ApprovedExactlyWhen(q: Request, p: Policy)
    ensures Decide(q, p).Approved? <==> WithinPolicy(q, p)
    ensures Decide(q, p).Approved? ==>
              var d := Decide(q, p); AsPolicySets(q, p, d.amount, d.destination, d.level, d.availableAtMs)
  {
  }

  /** The reasons in the order of the checks. */
  const REASONS: seq<RejectReason> := [
    WithdrawalsDisabled, MainnetFundsDisabled, InvalidSessionWallet, InvalidDestination, DestinationNotOwnWallet,
    SelfExcluded, Frozen, AmountUnsafe, InsufficientAvailable, CooldownActive, ExceedsHotDailyCap, ExceedsHotPerTxCap,
    HotUnderfunded]

  /** No review is asked for the amount. */
  predicate Unreviewed(q: Request, p: Policy) {
    q.amount < p.manualThreshold && q.amount < p.dualThreshold
  }

  /** What each reason says about a request, whatever else is wrong with it. */
  predicate IsTrueOf(reason: RejectReason, q: Request, p: Policy) {
    match reason
    case WithdrawalsDisabled => !p.withdrawalsEnabled
    case MainnetFundsDisabled => p.mainnet && !p.publicMainnetFunds
    case InvalidSessionWallet => !Addresses.IsValidSolanaPubkey(q.sessionWallet)
    case InvalidDestination => !Addresses.IsValidSolanaPubkey(q.destination)
    case DestinationNotOwnWallet => q.destination != q.sessionWallet
    case SelfExcluded => q.selfExcluded
    case Frozen => q.withdrawFrozen
    case AmountUnsafe => !IsSafeAmount(q.amount)
    case InsufficientAvailable => q.amount > q.available
    case CooldownActive =>
      && q.hasPriorWithdraw && q.lastRequestedAtMs.Some? && p.cooldownMinutes > 0
      && q.nowMs - q.lastRequestedAtMs.value < p.cooldownMinutes * 60_000
    case ExceedsHotDailyCap => q.hotDailyOutflow + q.amount > p.dailyCap
    case ExceedsHotPerTxCap => Unreviewed(q, p) && q.amount > p.perTxCap
    case HotUnderfunded => Unreviewed(q, p) && q.amount > q.hotBalance
  }

  lemma EarlyReasons(q: Request, p: Policy)
    ensures IsTrueOf(REASONS[0], q, p) == !p.withdrawalsEnabled
    ensures IsTrueOf(REASONS[1], q, p) == (p.mainnet && !p.publicMainnetFunds)
    ensures IsTrueOf(REASONS[2], q, p) == !Addresses.IsValidSolanaPubkey(q.sessionWallet)
    ensures IsTrueOf(REASONS[3], q, p) == !Addresses.IsValidSolanaPubkey(q.destination)
    ensures IsTrueOf(REASONS[4], q, p) == (q.destination != q.sessionWallet)
    ensures IsTrueOf(REASONS[5], q, p) == q.selfExcluded
    ensures IsTrueOf(REASONS[6], q, p) == q.withdrawFrozen
  {
  }

  lemma LateReasons(q: Request, p: Policy)
    ensures IsTrueOf(REASONS[7], q, p) == !IsSafeAmount(q.amount)
    ensures IsTrueOf(REASONS[8], q, p) == (q.available < q.amount)
    ensures IsTrueOf(REASONS[9], q, p) == CoolingDown(q, p)
    ensures IsTrueOf(REASONS[10], q, p) == (q.hotDailyOutflow + q.amount > p.dailyCap)
    ensures IsTrueOf(REASONS[11], q, p) == (Level(q.amount, p).Auto? && q.amount > p.perTxCap)
    ensures IsTrueOf(REASONS[12], q, p) == (Level(q.amount, p).Auto? && q.hotBalance < q.amount)
  {
  }

  /** A refused request is told the first reason, in the order of the checks, that is true of it. */
  lemma FirstTrueReason(q: Request, p: Policy, k: nat)
    requires k < |REASONS|
    ensures Decide(q, p) == Refused(REASONS[k])
            <==> IsTrueOf(REASONS[k], q, p) && forall j :: 0 <= j < k ==> !IsTrueOf(REASONS[j], q, p)
  {
    EarlyReasons(q, p);
    LateReasons(q, p);
    hide IsTrueOf, CoolingDown, Level, IsSafeAmount, Addresses.IsValidSolanaPubkey;
  }

  /** Lines 113-250. */
  method EvaluateWithdrawRequest(q: Request, p: Policy) returns (d: Decision)
    ensures d == Decide(q, p)
    ensures d.Approved? <==> WithinPolicy(q, p)
    ensures d.Approved? ==> AsPolicySets(q, p, d.amount, d.destination, d.level, d.availableAtMs)
  {
    ApprovedExactlyWhen(q, p);
    if !p.withdrawalsEnabled { return Refused(WithdrawalsDisabled); }
    if p.mainnet && !p.publicMainnetFunds { return Refused(MainnetFundsDisabled); }
    if !Addresses.IsValidSolanaPubkey(q.sessionWallet) { return Refused(InvalidSessionWallet); }
    if !Addresses.IsValidSolanaPubkey(q.destination) { return Refused(InvalidDestination); }
    if q.destination != q.sessionWallet { return Refused(DestinationNotOwnWallet); }
    if q.selfExcluded { return Refused(SelfExcluded); }
    if q.withdrawFrozen { return Refused(Frozen); }
    if !IsSafeAmount(q.amount) { return Refused(AmountUnsafe); }
    if q.available < q.amount { return Refused(InsufficientAvailable); }

    var cooldownMs := if q.hasPriorWithdraw then p.cooldownMinutes * 60_000 else p.firstCooldownHours * 3_600_000;
    var availableAtMs := q.nowMs;
    if cooldownMs > 0 && q.lastRequestedAtMs.Some? && q.hasPriorWithdraw {
      var earliest := q.lastRequestedAtMs.value + cooldownMs;
      if q.nowMs < earliest { return Refused(CooldownActive); }
    }
    if !q.hasPriorWithdraw && cooldownMs > 0 {
      availableAtMs := q.nowMs + cooldownMs;
    }
    if q.hotDailyOutflow + q.amount > p.dailyCap { return Refused(ExceedsHotDailyCap); }

    var level := Auto;
    if q.amount >= p.dualThreshold {
      level := DualAdmin;
    } else if q.amount >= p.manualThreshold {
      level := Manual;
    }
    if level == Auto {
      if q.amount > p.perTxCap { return Refused(ExceedsHotPerTxCap); }
      if q.hotBalance < q.amount { return Refused(HotUnderfunded); }
    }
    return Approved(q.amount, q.destination, level, availableAtMs);
  }
}
