/** Amounts and settlements shared by the ledger and the games. */
module Money {

  /** MAX_ATOMIC_AMOUNT of packages/config/src/schema.ts, 10^21. */
  const MAX_ATOMIC_AMOUNT := 1_000_000_000_000_000_000_000

  datatype Option<+T> = None | Some(value: T)

  /** assertSafeAtomicAmount */
  predicate IsSafeAmount(amount: int) {
    0 < amount <= MAX_ATOMIC_AMOUNT
  }

  datatype Outcome = PlayerBlackjack | PlayerWin | Push | PlayerLose | PlayerBust | DealerBlackjack

  /** How a locked stake is split: `credit` goes to the player, `houseDelta` to the house. */
  datatype Settlement = Settlement(outcome: Outcome, bet: int, credit: int, houseDelta: int)

  datatype SettlementError = UnsafeBet | NegativeCredit | CreditTooLarge | NotConserved

  /** assertValidSettlement: the first check that fails, in the source's order; 1000 is MAX_SETTLEMENT_CREDIT_MULT. */
  function SettlementFault(s: Settlement): Option<SettlementError> {
    if !IsSafeAmount(s.bet) then Some(UnsafeBet)
    else if s.credit < 0 then Some(NegativeCredit)
    else if s.credit > 1000 * s.bet then Some(CreditTooLarge)
    else if s.credit + s.houseDelta != s.bet then Some(NotConserved)
    else None
  }

  predicate IsValidSettlement(s: Settlement) {
    SettlementFault(s).None?
  }

  /** A settlement is valid exactly when it splits a safe stake, up to a thousand times of it credited. */
  lemma ValidExactlyWhen(s: Settlement)
    ensures IsValidSettlement(s)
            <==> 0 < s.bet <= 1_000_000_000_000_000_000_000 && 0 <= s.credit <= 1000 * s.bet && s.houseDelta == s.bet - s.credit
    ensures SettlementFault(s) == Some(UnsafeBet) <==> !IsSafeAmount(s.bet)
    ensures SettlementFault(s) == Some(NegativeCredit) <==> IsSafeAmount(s.bet) && s.credit < 0
    ensures SettlementFault(s) == Some(CreditTooLarge) <==> IsSafeAmount(s.bet) && s.credit > 1000 * s.bet
  {
  }
}
