# Catesino: money and fairness in Dafny

A Dafny model of the parts of the Catesino repository that carry money or a fairness claim, with
proofs about every input, every run or every reachable state. Four groups:

1. **Custody.** The stake-lock ledger (`Ledger`, `LedgerLaws`), the deposit and withdrawal rows kept
   beside it and the two asynchronous services cut into steps at their awaits (`Custody`,
   `CustodyLaws`, `ClaimLaws`, `WithdrawLaws`, `CustodyRun`), the claim and withdraw policies
   (`DepositClaim`, `WithdrawPolicy`). Rows and ledgers are two views of the same money; the table says in exactly which
   interleavings they agree.
2. **Base58 and addresses** (`Radix`, `Base58`, `Addresses`). The carry loops over growing arrays are a
   bijection, and its length bounds are what the validators rely on. (The nearest text to a standard
   is the draft draft-msporny-base58, sections 3 and 4.)
3. **Blackjack and the demo table** (`Sampler`, `Cards`, `Blackjack`, `BlackjackLaws`,
   `BlackjackPlay`, `HouseGames`, `HousePays`, `DemoTable`, `DemoLaws`). HMAC-SHA256 (section 2 of RFC 2104) is an arbitrary function to 32-bit
   numbers, so provable fairness is a theorem about all keys; the table says in exactly which runs the
   locks cover every live bet.
4. **The Machine and two small protocols** (`Odds`, `Pull`, `PullOdds`, `Locker`, `LockerLaws`,
   `LockerAnswers`, `RateLimit`, `Siws`).
   Exact odds after fallback, hard pity over whole runs, the yarn and inventory economy, the pruned
   sliding window, and the sign-in message (the "Message Format" section of ERC-4361).

`Money`, `Text`, `Sums` and `Clock` hold what these share.

The code that updates state in place is modelled as classes and methods with loops, each proved against
a function that says what the call does; the laws are proved about those functions and about runs of
them. Clocks, fresh seeds, network answers and hashes are parameters.

Where the code and what it is meant to do disagree, the model follows the code and the table names the
exact condition:

- `markWithdrawalSent` does not look for cancelled rows (`CustodyLaws.SendingCancelledRow`,
  over runs `CustodyLaws.CustodyBooksAgree`, reached in `CustodyRun.CancelledSendIsReachable`).
- A withdraw request asks for its cool-down what it read before an await, so two requests can pass it at
  once (`WithdrawLaws.CooldownMissedIff`, reached in `CustodyRun.TwoRequestsPassCooldown`).
- The deal route locks the bet under a nonce it counts up only after the cards are drawn. If the draw
  fails in between, which takes 1001 rejected digests in a row, the next hand that is dealt locks
  nothing: it may not be covered, may be paid out of VideoCate's lock, or may not be paid at all
  (`DemoLaws.LiveBetsStayLocked`, `DemoLaws.SettlingNeverFails`, `DemoLaws.RefusedForWantOfStake` over
  every run, `DemoLaws.FailedDealUncovers` for an example).
- A sign-in domain such as `Nonce:` is read as a field line (`Siws.PrefixDomainFails`), and more
  generally `Siws.ParseOfBuild` says when parsing undoes printing.
- Comparing transfer legs by joined keys is exact only without the separator in a field
  (`DepositClaim.LegsEqualIsExactIff`).
- The pruned limiter relies on a clock that does not revive what it pruned
  (`RateLimit.LimiterIsRightIff`).
- Not every 64-byte signature passes the length check (`Addresses.SignatureValidIff`).

`dafny verify dfyconfig.toml` checks the whole project.

## Model

| member | source | states |
|---|---|---|
| Base58.Base58Encode | packages/chain/src/base58.ts:8-38 | the nested carry loops, the leading '1's and the reversed read-out print exactly the base-58 numeral of the bytes; the fallback of line 37 is never needed |
| Base58.Base58Decode | packages/chain/src/base58.ts:40-73 | the loops rebuild exactly the base-256 numeral of the characters, with one zero byte for each leading '1'; any character outside the alphabet is refused |
| Base58.AbsorbByte | packages/chain/src/base58.ts:14-23 | one carry pass over the digit array, growing it while the carry lasts, multiplies the number by 256 and adds the byte |
| Base58.AbsorbChar | packages/chain/src/base58.ts:50-59 | one carry pass over the byte array multiplies the number by 58 and adds the character's value |
| Base58.WriteOut | packages/chain/src/base58.ts:68-72 | the output is the zero bytes followed by the computed bytes from the top one down |
| Base58.EncodeCarry | packages/chain/src/base58.ts:15-22 | carries stay at most 255 while encoding, so the 32-bit shift by 8 and the or with 0 are exact multiplication and truncating division |
| Base58.DecodeCarry | packages/chain/src/base58.ts:51-58 | carries stay at most 57 while decoding, so `& 0xff` and `>> 8` are exact remainder and division by 256 |
| Base58.NotEmpty | packages/chain/src/base58.ts:35-37 | a nonempty input never encodes to the empty string, so the guard is dead code |
| Base58.DecodeEncode | packages/chain/src/base58.ts:8-73 | decode(encode(b)) = b for every byte sequence, leading zeros included |
| Base58.EncodeDecode | packages/chain/src/base58.ts:8-73 | encode(decode(s)) = s for every string over the alphabet |
| Base58.AlphabetSpelling | packages/chain/src/base58.ts:3-6 | the arithmetic definition of the alphabet spells the 58 characters of the source |
| Radix.MulAddIsExact | packages/chain/src/base58.ts:13-24 | a carry pass turns the canonical digits of n into the canonical digits of factor * n + carry, in any base |
| Radix.ConvertRoundTrip | packages/chain/src/base58.ts:8-73 | changing base and changing back is the identity on digit lists, leading zeros included, for any two bases |
| Addresses.ValidIffDecodable | packages/chain/src/addresses.ts:7-19 | the validator's character class accepts exactly the nonempty strings the codec can decode |
| Addresses.EncodedLength | packages/chain/src/addresses.ts:9-15 | n bytes print in at least n and at most (11n + 7) / 8 characters |
| Addresses.EncodedKeyIsValid | packages/chain/src/addresses.ts:9-27 | every 32-byte array prints in 32 to 44 characters and passes isValidSolanaPubkey |
| Addresses.KeyValidIff | packages/chain/src/addresses.ts:9-27 | a printed byte string of any length passes isValidSolanaPubkey exactly when its zeros and value take 32 to 44 characters |
| Addresses.EncodedSignatureIsValid | packages/chain/src/addresses.ts:13-33 | every 64-byte array with a nonzero first byte prints in 87 or 88 characters and passes isValidTxSignature |
| Addresses.SignatureValidIff | packages/chain/src/addresses.ts:13-33 | a printed 64-byte array passes isValidTxSignature exactly when its value is at least 58 to the power of 79 less its leading zero bytes |
| Addresses.FewZerosPass | packages/chain/src/addresses.ts:13-33 | so up to 19 leading zero bytes never stop a signature from passing |
| Addresses.ZeroSignatureIsRefused | packages/chain/src/addresses.ts:29-33 | and the all-zero array is refused: it prints in 64 characters |
| Addresses.SecureEqual | packages/chain/src/addresses.ts:48-55 | the accumulating XOR loop answers true exactly for equal strings |
| Ledger.LedgerSnapshot.GetOrCreate | packages/ledger/src/ledger.ts:110-123 | creates at most one zero row, changes no existing row and nothing a caller can read |
| Ledger.LedgerSnapshot.TotalPlayerLiability | packages/ledger/src/ledger.ts:139-146 | the loop over the rows adds every user's available and locked amounts, in whatever order |
| Ledger.LedgerSnapshot.CreditDeposit | packages/ledger/src/ledger.ts:148-167 | the object's whole new state and reply are those of the specified command: checks, key, effect, key recorded only on success |
| Ledger.LedgerSnapshot.ReverseDeposit | packages/ledger/src/ledger.ts:169-190 | new state and reply as specified; a reversal the balance does not cover zeroes it and freezes withdrawals |
| Ledger.LedgerSnapshot.SetFrozen | packages/ledger/src/ledger.ts:192-199 | new state and reply as specified, for the freeze flag |
| Ledger.LedgerSnapshot.LockBet | packages/ledger/src/ledger.ts:212-231 | new state and reply as specified; refused when the available balance is short |
| Ledger.LedgerSnapshot.SettleHand | packages/ledger/src/ledger.ts:267-291 | new state and reply as specified; refused on an invalid settlement or a missing stake, otherwise the house gains what the player does not get back |
| Money.ValidExactlyWhen | packages/ledger/src/ledger.ts:243-262 | a settlement is valid exactly when it splits a safe stake and credits at most a thousand times of it; which fault is named otherwise |
| Ledger.LedgerSnapshot.RequestWithdraw | packages/ledger/src/ledger.ts:293-318 | new state and reply as specified; refused when frozen or short |
| Ledger.LedgerSnapshot.CancelWithdraw | packages/ledger/src/ledger.ts:320-343 | new state and reply as specified; refused when the withdraw lock is short |
| Ledger.LedgerSnapshot.CompleteWithdraw | packages/ledger/src/ledger.ts:345-363 | new state and reply as specified; the withdraw lock falls by the amount |
| LedgerLaws.FailureLeavesNoTrace | packages/ledger/src/ledger.ts:126-137 | a failed command changes no balance that can be read and leaves its key free for a retry |
| LedgerLaws.AnsweredExactlyWhen | packages/ledger/src/ledger.ts:148-363 | a command is answered exactly when its user and arguments are valid and it is a retry or the row covers it; the answer is the free and the locked balance of the row after it |
| LedgerLaws.FailureReason | packages/ledger/src/ledger.ts:148-363 | which error a failed command gets: bad user, bad argument, freeze and short balance, in that order |
| LedgerLaws.SameBooksIsCongruence | packages/ledger/src/ledger.ts:110-145 | ledgers that read alike answer every command alike and stay alike: a touched row never shows |
| LedgerLaws.RetriesAreInvisible | packages/ledger/src/ledger.ts:126-363 | any run reads, at its end and in every reply, as the run with each command whose key had already succeeded removed |
| LedgerLaws.OneEffectPerKey | packages/ledger/src/ledger.ts:126-137 | in any run a key moves money at most once, and is recorded exactly when it did |
| LedgerLaws.LedgerConserves | packages/ledger/src/ledger.ts:139-363 | over all runs: total liability + house play equity = deposits credited - amounts actually reversed - withdrawals completed |
| LedgerLaws.RunConserves | packages/ledger/src/ledger.ts:148-363 | the same from any starting ledger; seed and platform equity never move |
| LedgerLaws.NeverNegative | packages/ledger/src/ledger.ts:212-363 | all three balances of every user stay nonnegative in every run |
| LedgerLaws.LocksAreSeparate | packages/ledger/src/ledger.ts:212-363 | the hand lock and the withdraw lock of a user are each moved only by their own operations, and users nobody names are untouched |
| LedgerLaws.ShortReversalStopsWithdrawals | packages/ledger/src/ledger.ts:169-199 | after a reversal above the available balance, until the freeze it caused is lifted, no more of the user's money goes behind a withdraw lock |
| LedgerLaws.FreezeHolds | packages/ledger/src/ledger.ts:192-199 | a freeze lasts until it is lifted, and meanwhile no more of the user's money goes behind a withdraw lock |
| LedgerLaws.FrozenExactlyWhen | packages/ledger/src/ledger.ts:169-199 | after any run a user is frozen exactly if the last freeze, thaw or short reversal of the run froze, or there was none and the user was frozen before: a covered reversal freezes nobody |
| DepositClaim.EvaluateDepositClaim | packages/chain/src/deposit-claim.ts:131-265 | the single pass over the legs accepts exactly the claims within the rules, for what the wallet paid in, and gives the specified reason on every refusal |
| DepositClaim.AcceptedExactlyWhen | packages/chain/src/deposit-claim.ts:131-265 | a claim is accepted exactly when all rules hold: deposits on, mainnet only with public funds, valid keys and signature, new, not reorged, succeeded, confirmed, a leg of the wallet's own, each safe, their sum safe and at least the minimum; for that sum, with a second source asked exactly at the threshold |
| DepositClaim.FirstFaultIsTheReason | packages/chain/src/deposit-claim.ts:136-175 | of several faults before the legs the first in the order of the checks is the reason given, and no other rejection gives it |
| DepositClaim.NoOwnLegReason | packages/chain/src/deposit-claim.ts:208-243 | without a leg of its own a claim is told of a foreign source, a foreign mint, a wrong destination or nothing matching, exactly by what the other legs are |
| DepositClaim.AcceptedIsBound | packages/chain/src/deposit-claim.ts:131-265 | an accepted claim is for exactly the sum of the legs matching mint, destination and source owner, all safe, at least one, above the minimum and confirmed |
| DepositClaim.LegOrderIsIrrelevant | packages/chain/src/deposit-claim.ts:177-264 | decision, reason and amount depend only on the legs as a multiset of mint, destination, owner and amount |
| DepositClaim.KeyIdentifiesIff | packages/chain/src/rpc-client.ts:163-165 | the joined key of a leg is no other leg's key exactly when its fields hold no pipe character |
| DepositClaim.LegsEqualIsExactIff | packages/chain/src/rpc-client.ts:159-169 | comparing a list's sorted keys with those of any other list is equality as multisets of the four fields exactly when none of its fields holds a pipe character |
| DepositClaim.LegsEqualIffSameMultiset | packages/chain/src/rpc-client.ts:159-169 | legsEqual holds exactly when the legs are equal as multisets of mint, destination, owner and amount, once one of the two lists holds no pipe character |
| DepositClaim.PipeConfusesLegsEqual | packages/chain/src/rpc-client.ts:159-169 | a concrete pair of different legs that compare equal |
| DepositClaim.MergeIsSymmetric | packages/chain/src/rpc-client.ts:60-95 | two sources merge exactly when they agree on success and on the legs as a multiset; a merged answer gives the same decision and amount whichever source is primary, the amount each source alone gives, and the lower confirmation count |
| WithdrawPolicy.EvaluateWithdrawRequest | packages/chain/src/withdraw-policy.ts:113-250 | the sequence of checks and reassigned locals approves exactly the requests within the policy, as the policy sets, and gives the first failing reason otherwise |
| WithdrawPolicy.ApprovedExactlyWhen | packages/chain/src/withdraw-policy.ts:113-250 | a request is approved exactly when the rules hold together: own wallet, balance, cool-down, daily cap, and for unreviewed amounts cap and hot balance; and then for its whole amount, at the level and time the policy sets |
| WithdrawPolicy.FirstTrueReason | packages/chain/src/withdraw-policy.ts:113-250 | a refused request is told the first of the 13 reasons, in the order of the checks, that is true of it |
| Custody.CustodyStore.Credit | apps/web/src/lib/custody/user-store.ts:115-143 | the store's whole new state and result are those of the specified credit; a known signature returns its record |
| Custody.CustodyStore.FindByKey | apps/web/src/lib/custody/user-store.ts:182-186 | the scan over the rows finds the row with the key exactly when there is one |
| Custody.CustodyStore.Create | apps/web/src/lib/custody/user-store.ts:172-208 | new state and result as specified for a withdrawal request; idempotent by key; no two rows share a key afterwards |
| Custody.CustodyStore.Cancel | apps/web/src/lib/custody/user-store.ts:224-245 | new state and result as specified for a cancel: only a pending row of the wallet itself |
| Custody.CustodyStore.AddHotDailyOutflow | apps/web/src/lib/custody/user-store.ts:166-170 | adds the amount to its own day, leaves every other day, and the total over all days grows by it |
| Custody.CustodyStore.MarkSent | apps/web/src/lib/custody/user-store.ts:248-264 | new state and result as specified for a completed send, with the outflow of its day; a row already sent is returned as it is |
| Custody.CustodyStore.ClaimAfterFetch | apps/web/src/lib/custody/deposit-service.ts:89-187 | the stretch of a claim after a fetch returns changes the store as the specified step does and stops at the second await exactly when that step does |
| Custody.CustodyStore.RequestAfterHotBalance | apps/web/src/lib/custody/withdraw-service.ts:109-166 | the stretch of a withdraw request after the hot balance is read changes the store and answers the caller as the specified step does: the reason of a refusal, a bad key, or the row or error of the store |
| CustodyLaws.CustodyBooksAgree | apps/web/src/lib/custody/user-store.ts:115-264 | in any interleaving of claims, requests, cancels and sends, at every point lockedWithdraw = sum of pending rows, available + pending + sent = credited deposits, and the outflow over all days = all sent amounts, exactly if no step sends a cancelled row that the wallet's lock still covers |
| CustodyLaws.StepKeeps | apps/web/src/lib/custody/withdraw-service.ts:94-157 | every other stretch of code between awaits keeps the agreement of rows and ledgers, whatever balance was read before |
| CustodyLaws.CancelNeverFails | apps/web/src/lib/custody/user-store.ts:224-264 | in every state such a run reaches a pending row can be cancelled, and can be sent at any time |
| CustodyLaws.StaleReadIsSafe | apps/web/src/lib/custody/withdraw-service.ts:94-157 | a request decided on a balance read before the await locks money, and is answered with its row, exactly when the decision was yes, its key is new and valid, the wallet is not frozen now and the balance covers it now; no other wallet's balance moves |
| CustodyLaws.DepositsAreFinal | apps/web/src/lib/custody/user-store.ts:115-143 | a credited signature stays credited, to the same wallet and for the same amount, in every continuation |
| CustodyLaws.CreditIsExact | apps/web/src/lib/custody/deposit-service.ts:69-187 | a signature is credited only by a claim for it, to the claiming wallet, for exactly its matching legs, a large one only on the word of both sources; no other wallet's balance changes |
| ClaimLaws.CreditedExactlyWhen | apps/web/src/lib/custody/deposit-service.ts:89-187 | a resumed claim is credited exactly when its signature is new, the report is within the rules, and it is below the threshold or this was the second fetch; it goes on to the second fetch exactly when the first one reached the threshold and a second source is configured |
| ClaimLaws.BeginsExactlyWhen | apps/web/src/lib/custody/deposit-service.ts:40-79 | when a claim and a withdraw request get as far as their first await and what the latter has read; a request is over once its hot balance has come |
| ClaimLaws.RecordsWereClaimed | apps/web/src/lib/custody/deposit-service.ts:40-187 | in every run whatever, each deposit record goes back to a claim begun by its wallet with deposits on, and to a later report within the rules and worth its amount; a large one to the joint report of two sources |
| CustodyRun.LargeClaimIsCredited | apps/web/src/lib/custody/deposit-service.ts:118-187 | a run from the empty store in which a claim above the threshold waits for the second fetch and is then credited in full |
| CustodyLaws.SendingCancelledRow | apps/web/src/lib/custody/user-store.ts:248-264 | marking a row sent keeps the books in agreement exactly when the row is not cancelled or the wallet's remaining lock is too small for the call to succeed |
| CustodyLaws.CancelledSendTakesAnotherLock | apps/web/src/lib/custody/user-store.ts:248-264 | how that goes wrong: sending a cancelled row spends another row's lock, and that row can no longer be cancelled |
| CustodyRun.CancelledSendIsReachable | apps/web/src/lib/custody/user-store.ts:224-264 | a run from the empty store reaches that state and that outcome: a claim, a request, its cancel, a second request, the send of the first |
| WithdrawLaws.RowsWereApproved | apps/web/src/lib/custody/withdraw-service.ts:94-157 | in every run whatever, each row goes back to a request of its wallet and a later hot balance on which, with the balance, freeze, exclusion and past that the request had read, it was within the policy; it has the amount, destination, review level and time that the policy sets |
| WithdrawLaws.CancelledByItsWallet | apps/web/src/lib/custody/user-store.ts:224-245 | in every run whatever, a cancelled row was cancelled by a request of its own wallet while it was pending |
| WithdrawLaws.CancelAnswers | apps/web/src/lib/custody/user-store.ts:224-245 | a cancel goes through exactly for a pending row of the wallet itself, is answered NotFound exactly for a row it does not have, and changes nothing otherwise |
| WithdrawLaws.SendAnswers | apps/web/src/lib/custody/user-store.ts:248-264 | marking a row sent fails only for a missing row or a cancelled one beyond the lock, changes just that row, and leaves a row already sent as it is |
| WithdrawLaws.RepeatedKeyIsAnswered | apps/web/src/lib/custody/user-store.ts:182-186 | in every run whatever, a request with the key of a row changes nothing and is answered with that row as it stands |
| WithdrawLaws.CooldownMissedIff | apps/web/src/lib/custody/withdraw-service.ts:94-124 | the cool-down passed on flags read before the await, whatever ran in between, is missed exactly when another row of the wallet was made meanwhile and is too young, or none was, its first withdrawal completed meanwhile and the last request is too young |
| CustodyRun.TwoRequestsPassCooldown | apps/web/src/lib/custody/withdraw-service.ts:94-157 | a run from the empty store in which two requests that read the store together make two rows in one millisecond under a cool-down of a minute |
| CustodyLaws.WithdrawKeyInjective | packages/chain/src/withdraw-policy.ts:305-317 | a withdraw key determines the wallet and the client's key, for wallets without a colon |
| CustodyLaws.DepositKeyInjective | packages/chain/src/deposit-claim.ts:278-281 | a deposit key determines the signature |
| CustodyLaws.CancelKeyFresh | apps/web/src/lib/custody/user-store.ts:237-242 | the ledger key of a pending row's cancel has never been used, under any wallet |
| Sampler.HmacIndex | packages/blackjack/src/engine.ts:61-81 | the rejection loop returns the specified sample: first accepted digest, or failure after 1001 |
| Sampler.DrawIndexIsFirstAccepted | packages/blackjack/src/engine.ts:61-81 | the result is always in range and comes from the first digest that is not rejected; at most 1001 digests are tried |
| Sampler.LargestMultipleIs | packages/blackjack/src/engine.ts:69-71 | the computed limit is the largest multiple of the size not above 2^32 |
| Sampler.SamplingIsUnbiased | packages/blackjack/src/engine.ts:61-81 | for every size from 1 to 2^32 each index is the result of exactly limit / size accepted 32-bit digests, and more than half of all digests are accepted |
| Sampler.SamplingIsUniform | packages/gacha/src/rng.ts:25-43 | every property of the index is met by exactly limit / size digests for each index that has it |
| Sampler.TooManyChoicesAlwaysFail | packages/gacha/src/rng.ts:32-41 | above 2^32 choices every digest is rejected, so the bound on the size is exact |
| Sampler.MessagesDiffer | packages/blackjack/src/engine.ts:73-78 | successive tries never authenticate the same message |
| Cards.BuildFullMultiset | packages/blackjack/src/cards.ts:21-34 | the shoe is the decks one after another in rank and suit order and holds every card exactly as often as there are decks |
| Cards.ComputeHandTotal | packages/blackjack/src/cards.ts:53-71 | the two loops compute the specified total and softness |
| Cards.ValuesByPlace | packages/blackjack/src/cards.ts:38-51 | a card counts its number, the court cards ten, an ace eleven to begin with |
| Cards.HandTotalIsBest | packages/blackjack/src/cards.ts:53-71 | the total is the greatest not over 21 that counting each ace as 1 or 11 can give, or the all-ones total if none; soft holds exactly when an ace counts 11 in it; hands of any length |
| Cards.HandTotalIgnoresOrder | packages/blackjack/src/cards.ts:53-71 | the total depends only on the multiset of cards |
| Cards.NaturalShows | packages/blackjack/src/engine.ts:146-153 | a natural's first card is an ace or a ten-value card, so the peek never misses a dealer natural |
| Cards.TotalCanFall | packages/blackjack/src/engine.ts:249-262 | a hand's total can fall as it grows, so the dealer's loop does not stop because the total rises |
| Blackjack.DrawCard | packages/blackjack/src/engine.ts:83-100 | draws and splices exactly the sampled card; the rest of the shoe keeps its order |
| Blackjack.DrawRound | packages/blackjack/src/engine.ts:117-122 | one card to the player, then one to the dealer, with consecutive card indices |
| Blackjack.PlayDealer | packages/blackjack/src/engine.ts:239-274 | the dealer's loop draws as specified and ends, the hand is settled on the cards it leaves |
| Blackjack.SettleNaturals | packages/blackjack/src/engine.ts:146-164 | the three peek and natural branches together settle exactly the hands in which someone has a natural |
| Blackjack.Deal | packages/blackjack/src/engine.ts:102-165 | deals player, dealer, player, dealer and settles naturals; a bet that is not positive is refused |
| Blackjack.Act | packages/blackjack/src/engine.ts:183-237 | hit, stand and double as specified, with every refusal; a refused or failed action leaves the given hand as it was |
| BlackjackLaws.OneOrderForEveryRun | packages/blackjack/src/engine.ts:83-274 | for fixed seeds, nonce and shoe there is one permutation of the shoe such that in every run of choices the cards dealt, in deal order, are a prefix of it |
| BlackjackLaws.SettledHandReplays | packages/blackjack/src/engine.ts:183-274 | two runs of one deal that settle with as many player cards, doubled or not alike, end in the same hand: cards, outcome, payout and remaining shoe |
| BlackjackLaws.NoCardLost | packages/blackjack/src/engine.ts:83-274 | in every reachable hand player + dealer + remaining cards are the starting shoe as multisets |
| BlackjackLaws.NaturalsSettleAtOnce | packages/blackjack/src/engine.ts:146-164 | while the player may act neither side holds a natural and the player is not bust; 3:2 is paid exactly to a lone player natural, never on a doubled bet |
| BlackjackLaws.ShoeNeverEmpties | packages/blackjack/src/engine.ts:83-100 | from a shoe of 38 cards or more, so from six decks, no draw of any run finds it empty |
| BlackjackLaws.ActionKeeps | packages/blackjack/src/engine.ts:183-274 | every action keeps the hand's invariant: order of the shoe, bet, dealer stopped just at 17 or more, settlement of the final cards |
| BlackjackLaws.DealtHandOk | packages/blackjack/src/engine.ts:102-165 | every deal establishes it |
| BlackjackPlay.DealtExactlyWhen | packages/blackjack/src/engine.ts:102-165 | a hand is dealt exactly when the bet is positive and the sampler finds the first four cards; which error otherwise |
| BlackjackPlay.DrawnExactlyWhen | packages/blackjack/src/engine.ts:83-100 | a draw takes the card at the sampled index and leaves the others in order, and fails exactly when there is no card or no index |
| BlackjackPlay.CardOddsAreExact | packages/blackjack/src/engine.ts:83-100 | of the accepted digests of a draw each card takes exactly its share, as many times more as the shoe still holds of it |
| BlackjackPlay.DrawIsOneDigests | packages/blackjack/src/engine.ts:61-100 | under any key a draw is that of its first accepted digest alone, or fails |
| BlackjackPlay.ReachedIsLive | packages/blackjack/src/engine.ts:183-237 | every hand on which a run of choices from a deal of 38 cards or more leaves the player to act meets the conditions of the three laws that follow |
| BlackjackPlay.HitIs | packages/blackjack/src/engine.ts:225-233 | on every live hand a hit is played exactly when the next card is found; it adds one card and ends the hand exactly if that busts it; it fails only for the sampler |
| BlackjackPlay.StandIs | packages/blackjack/src/engine.ts:235-274 | a stand ends the hand exactly when the dealer gets to 17 before a card is not found, and fails only for the sampler |
| BlackjackPlay.DoubleIs | packages/blackjack/src/engine.ts:204-223 | a double is refused as such exactly off two cards; otherwise it is played exactly when the card is found and busts or lets the dealer finish, and then ends the hand with three cards and twice the bet |
| BlackjackPlay.DealerEndsExactlyWhen | packages/blackjack/src/engine.ts:239-262 | the dealer's loop ends exactly when 17 is reached before a draw fails, drawing in the order of the shoe |
| BlackjackLaws.DealerPlays | packages/blackjack/src/engine.ts:249-262 | the dealer stops at the first total of 17 or more, having drawn the next cards of the order |
| BlackjackLaws.SettlementsAreValid | packages/blackjack/src/settlement.ts:12-60 | every settlement of a reachable hand passes the ledger's checks for every safe stake and carries the hand's own bet and outcome |
| BlackjackLaws.SettlementComparesScores | packages/blackjack/src/settlement.ts:62-81 | the settlement compares the two scores: the better hand wins the bet, or three halves of it rounded down with a natural, equals push, and a bust player always loses; the outcome named is the one that happened |
| BlackjackLaws.DrawMessagesDiffer | packages/blackjack/src/engine.ts:73-78 | under one client seed no two draws, and no two tries of one draw, share a message |
| Odds.RarityFromBucket | packages/gacha/src/odds.ts:59-69 | the cumulative loop finds the row whose interval holds the bucket; out-of-range buckets are refused |
| Odds.RarityIsTheRows | packages/gacha/src/odds.ts:59-69 | a bucket has the rarity of exactly the row whose cumulative interval holds it, and is refused exactly when out of range or beyond the weights |
| Odds.BucketsMeetWeights | packages/gacha/src/odds.ts:59-69 | for any table, exactly weight-many of the buckets below the total weight land on the rows with a given property of the rarity |
| Odds.TablesAreComplete | packages/gacha/src/odds.ts:11-57 | the weights of each published table sum to its total, and every bucket has a rarity |
| Odds.ApplyRarityFallback | packages/gacha/src/catalog.ts:179-190 | the loop returns the first stocked rarity at or below the given one |
| Odds.FallbackIsFirstStocked | packages/gacha/src/catalog.ts:178-190 | fallback goes to `to` exactly when `to` is stocked and everything from the start down to it is not; it is idempotent and never moves up |
| Odds.FallbackOddsAreExact | packages/gacha/src/catalog.ts:164-190 | after fallback a stocked rarity is what precisely its own weight plus the weights of the empty rarities above it of the buckets come to, and their share of the accepted digests |
| Odds.LiveOdds | packages/gacha/src/odds.ts:23-34 | on the live table without a stocked Ultra 8800, 1100 and 100 of the 10000 buckets come to Common, Uncommon and Rare, and none to Ultra |
| Pull.PullIsHonest | packages/gacha/src/pull.ts:19-79 | a pull hands out an item of the announced rarity that is not sold out: the bucket's rarity after fallback, or Rare exactly when a Common or Uncommon comes with the counter at the threshold and a Rare in stock; the published list is the in-supply ids sorted, the hashes are of that list and of the seed |
| Pull.HardPityHolds | packages/gacha/src/pity.ts:10-28 | with Rare in supply and a threshold N of at least 1, any N + 1 consecutive pulls contain a Rare or better |
| Pull.CounterIsBounded | packages/gacha/src/pity.ts:10-28 | the counter never exceeds N from a start of at most N |
| Pull.NothingRareWithoutSupply | packages/gacha/src/pull.ts:32-67 | with neither Rare nor Ultra in supply no pull is Rare or better, whatever the counter |
| PullOdds.PulledExactlyWhen | packages/gacha/src/pull.ts:19-87 | a pull succeeds exactly when the seeds are well formed, the table is known, something at or below the bucket's rarity is in supply and neither lane has 1001 digests rejected in a row |
| PullOdds.RollOddsAreExact | packages/gacha/src/pull.ts:19-43 | while pity is not due, exactly its own weight plus the weights that roll down to it of the rarity lane's accepted digests make a pull come to a rarity |
| PullOdds.RarityIsOneDigests | packages/gacha/src/pull.ts:25-43 | under any key a pull's rarity is that of the first accepted digest of its rarity lane alone |
| PullOdds.ItemOddsAreExact | packages/gacha/src/pull.ts:45-61 | every in-supply item of the final rarity is handed out by equally many accepted digests of the item lane |
| PullOdds.PityIsNotEarly | packages/gacha/src/pity.ts:10-28 | a pull of a fresh counter is forced only with a full threshold of pulls behind it, none of them a Rare or better |
| PullOdds.KeyDeterminesSeed | packages/gacha/src/rng.ts:14-19 | two server seeds make the same key exactly when they differ in the case of digits alone |
| PullOdds.JoinedIdsAreRead | packages/gacha/src/catalog.ts:192-195 | the text hashed for a supply list determines the list, for ids without a comma |
| Pull.LaneMessagesDiffer | packages/gacha/src/rng.ts:35-41 | under one client seed no two samples of any nonce and lane, and no two tries, share a message |
| Pull.HonestReceiptVerifies | packages/gacha/src/verify.ts:7-48 | the receipt of every successful pull verifies against the catalog it was pulled from |
| Pull.OnlyHonestReceiptsVerify | packages/gacha/src/verify.ts:7-48 | a receipt verifies exactly when some pull of this catalog came to what it says, up to how the default client seed is written |
| Pull.OneOutcomePerDraw | packages/gacha/src/verify.ts:18-46 | two receipts that verify for one catalog with the same server seed, normalized client seed, nonce, threshold and counter agree in rarity, item, bucket and hash |
| Pull.AlteredReceiptIsRefused | packages/gacha/src/verify.ts:35-46 | an honest receipt altered in rarity, item, bucket or hash is refused, for the first part that differs |
| Locker.ApplyEconomy | packages/gacha/src/apply.ts:7-24 | dust grants its yarn; an item at its cap turns into one yarn and leaves the counts alone, otherwise its count grows by one |
| Locker.CountsFromInventory | apps/web/src/lib/demo-gacha-session.ts:155-161 | the loop builds the map from ids to counts |
| Locker.CountsRoundTrip | apps/web/src/lib/demo-gacha-session.ts:155-170 | counts to rows and back keeps exactly the positive counts |
| Locker.InventoryRoundTrip | apps/web/src/lib/demo-gacha-session.ts:155-170 | rows to counts and back is the identity on every inventory sorted by id with positive counts |
| Locker.FromCountsIsCanonical | apps/web/src/lib/demo-gacha-session.ts:163-170 | the rows are strictly sorted by id, all positive, and are exactly the positive counts |
| LockerLaws.PullConserves | apps/web/src/lib/gacha-demo.ts:197-266 | each pull changes yarn + total items held by exactly the dust grant of the item drawn, whether or not it converts at the cap |
| LockerAnswers.PullAnswered | apps/web/src/lib/gacha-demo.ts:197-266 | a pull goes through exactly with a yarn to spend and a draw that succeeds; it spends a yarn and a nonce, and the item drawn is one more of its kind or, at its cap, a yarn back |
| LockerAnswers.EquipAnswered | apps/web/src/lib/gacha-demo.ts:268-293 | a place is given an item exactly when the locker holds it and its slot is the place's, with the first failing reason otherwise; nothing else changes |
| LockerAnswers.BagworkAnswered | apps/web/src/lib/demo-gacha-session.ts:122-153 | a post is accepted exactly when it is another tweet than the last and the day's first; what it stamps and grants |
| LockerAnswers.StampsAreKept | apps/web/src/lib/demo-gacha-session.ts:122-153 | in any run the locker has counted just the accepted posts and holds since the first of them |
| LockerAnswers.NoncesAreSpent | apps/web/src/lib/gacha-demo.ts:208-222 | the pulls of a run use successive nonces |
| LockerLaws.LockerRuns | apps/web/src/lib/gacha-demo.ts:197-293 | in every run: yarn is nonnegative, rows are sorted, distinct and within 1 to their cap, equipped items are owned and fit, and yarn + items is the start plus all grants |
| LockerLaws.EveryLockerIsOk | apps/web/src/lib/demo-gacha-session.ts:46-64 | so it is of every locker that began empty, with the starting yarn and the grants |
| LockerLaws.PityStaysInRange | apps/web/src/lib/gacha-demo.ts:88-92 | in every run the pity counter stays between 0 and the threshold, so "until Rare" is never negative |
| LockerLaws.LockerPityHolds | apps/web/src/lib/gacha-demo.ts:197-266 | in every run of a locker with a Rare stocked, of any threshold + 1 pulls in a row one is a Rare or better, whatever equips, bonuses and bagwork posts lie between |
| LockerLaws.OneGrantADay | apps/web/src/lib/demo-gacha-session.ts:122-153 | with a clock that does not run backwards the daily bagwork post is accepted at most once a day |
| RateLimit.Limiter.AllowGachaPull | apps/web/src/lib/gacha-rate-limit.ts:8-18 | the map is pruned, extended and answered as specified |
| RateLimit.LimiterMatchesHistory | apps/web/src/lib/gacha-rate-limit.ts:3-18 | the pruned lists decide every call of a run as the full history of accepted calls does, if no call of a key prunes a hit that is recent again at a later one |
| RateLimit.LimiterIsRightIff | apps/web/src/lib/gacha-rate-limit.ts:10-16 | exactly: they do so for every list of calls a clock can time if and only if no reading, once the clock was a window past an earlier one, is back within a window of that |
| RateLimit.ForwardClockIsRight | apps/web/src/lib/gacha-rate-limit.ts:8-18 | so on every clock that never runs backwards the pruned limiter decides as the full history does |
| RateLimit.RevivalDiffers | apps/web/src/lib/gacha-rate-limit.ts:10-16 | otherwise 20 calls at the first reading, one at the second and one at the third are decided differently, from an empty map |
| RateLimit.NoWindowHoldsMoreThanTwenty | apps/web/src/lib/gacha-rate-limit.ts:3-18 | of the calls the pruned limiter accepts in such a run, no 60 s window holds more than 20 of a key |
| Siws.ParseOfBuild | packages/chain/src/siws.ts:21-74 | for fields without line breaks and trimmed values, parsing the printed message returns its domain, address, nonce, times and chain id exactly when neither header nor statement is taken for a field line |
| Siws.PlainFieldsRoundTrip | packages/chain/src/siws.ts:21-74 | so it does when domain and statement start with no field prefix and the domain is not a prefix short of its last space |
| Siws.HeaderShadowing | packages/chain/src/siws.ts:27-63 | the header line starts with a field prefix exactly when the domain does or is the prefix without its last space |
| Siws.PrefixDomainFails | packages/chain/src/siws.ts:54-73 | the domains `Nonce:`, `Issued At:`, `Expiration Time:` and `Chain ID:` start with no prefix and each still loses its own field |
| Siws.SplitOfJoin | packages/chain/src/siws.ts:40-51 | splitting at line feeds undoes joining |
| Siws.JoinOfSplit | packages/chain/src/siws.ts:51-52 | joining undoes splitting: the lines are the pieces between the line feeds |
| Siws.ParsedExactlyWhen | packages/chain/src/siws.ts:43-75 | what parsing accepts and as what, for every message: ten lines or more, domain and fixed wording, a valid address, each field on the first line with its prefix |
| Siws.TrimTakesSpace | packages/chain/src/siws.ts:57-65 | trimming takes away the white space at both ends, all of it and nothing else |
| HouseGames.EveryGameSettles | packages/house-games/src/catedice.ts:36-75 | every instant game plays every safe bet, dice for targets 2 to 98 and for one that is no number (which always loses), and its settlement passes the ledger's checks for that bet |
| HouseGames.MultIsValid | packages/house-games/src/cards-lite.ts:148-169 | so does every paytable multiple up to 1000, and every slots multiple (cateslots.ts:72-95) |
| HouseGames.WinChanceIsExact | packages/house-games/src/catedice.ts:40-51 | exactly the stated number of the 100 rolls win |
| HousePays.DicePays | packages/house-games/src/catedice.ts:40-75 | a winning roll is credited the greatest whole amount within the greatest multiple that keeps the house its hundredth, at least the stake; a losing roll nothing |
| HousePays.DiceKeepsItsEdge | packages/house-games/src/catedice.ts:53-67 | the credits of all 100 rolls together are at most 99 bets, and short of that by no more than the rounding of the multiple and of the credits |
| HousePays.FlipPays | packages/house-games/src/cateflip.ts:20-50 | the coin pays two bets on the side called and nothing on the other, so both sides together two bets |
| HousePays.SpinPays | packages/house-games/src/catespin.ts:10-74 | the colour called pays 2 bets, 36 on the zero; 18 of 37 numbers are red and 18 black; all numbers together pay 36 bets whatever the colour |
| HousePays.HighCatePays | packages/house-games/src/highcate.ts:27-69 | a total called right pays 2 bets, 5 on the seven; the 36 throws together pay 30 bets whatever the call |
| HousePays.SlotsPay | packages/house-games/src/cateslots.ts:15-141 | three of a kind, a left pair of the three best symbols and nothing else pay; the 2197 stops together pay 306 bets and 100 pairs of one and a half bets rounded down |
| HousePays.MultiplePays | packages/house-games/src/cards-lite.ts:148-169 | a multiple pays just that many bets, and the outcome is a loss, a push or a win by the credit |
| HousePays.BetterRanksPayMore | packages/house-games/src/cards-lite.ts:80-109 | in both pay tables better ranks pay more, a high card nothing, up to 250 and 100 bets |
| HousePays.PokerPays | packages/house-games/src/catepoker.ts:29-56 | CatePoker credits its rank's multiple of the bet |
| DemoTable.TableObject.constructor | apps/web/src/lib/demo-session.ts:41-58 | a new table holds 100 USDC, no hand and nonce 1 |
| DemoTable.TableObject.NextNonce | apps/web/src/lib/demo-session.ts:68-72 | hands out the nonce and counts it up |
| DemoTable.TableObject.PostDeal | apps/web/src/app/api/demo/deal/route.ts:19-57 | lock, deal, count the nonce, settle, seat: the table and ledger objects change as specified, on every early exit too |
| DemoTable.TableObject.PostAction | apps/web/src/app/api/demo/action/route.ts:23-47 | act, lock the double, settle, seat, likewise |
| DemoTable.TableObject.PostVideoDeal | apps/web/src/app/api/demo/videocate/route.ts:71-94 | count the nonce, lock, seat, likewise |
| DemoTable.TableObject.PostVideoDraw | apps/web/src/app/api/demo/videocate/route.ts:106-121 | draw, settle, seat, likewise |
| DemoTable.TableObject.PostInstant | apps/web/src/app/api/demo/instant/route.ts:88-181 | count the nonce, lock, look at the pick, play, settle, likewise: an unknown pick is refused only after the lock |
| DemoLaws.LiveBetsStayLocked | apps/web/src/app/api/demo/deal/route.ts:41-57 | in every run from the start, whatever the digests, the hand lock holds the live blackjack and VideoCate bets together at every point exactly if no deal of the run is a short redeal |
| DemoLaws.SettlingNeverFails | apps/web/src/app/api/demo/action/route.ts:29-47 | after a run without a short redeal a request is refused for lack of stake exactly when it is a redeal whose hand is over at once above the lock; a stand on a live hand fails only if sampling does |
| DemoLaws.RefusedForWantOfStake | apps/web/src/app/api/demo/action/route.ts:29-47 | in every run, covered or not, a request is refused at its settlement exactly when the stake of the hand it ends is not behind the lock: keys never collide and settlements are always valid |
| DemoLaws.SampledRunsAreCovered | apps/web/src/app/api/demo/deal/route.ts:41-57 | as long as sampling the first cards succeeds, every live bet is covered and no settlement is ever refused |
| DemoLaws.StepIsCovered | apps/web/src/app/api/demo/deal/route.ts:41-57 | one request on a covered table, deals under a nonce already failed included: it stays covered exactly if the request is no short redeal |
| DemoLaws.ActKeeps | apps/web/src/app/api/demo/action/route.ts:28-47 | an action on a live hand is played unless the engine refuses it, it doubles beyond the available balance, or it ends the hand above its stake; what is free and locked afterwards, to the credit of the hand; while all bets are covered the last never happens and coverage is kept |
| DemoLaws.DrawVideoKeeps | apps/web/src/app/api/demo/videocate/route.ts:106-121 | a live VideoCate hand is drawn and settled exactly when its stake is there, which it is while all bets are covered, and is paid its rank's multiple of the bet |
| DemoLaws.InstantKeeps | apps/web/src/app/api/demo/instant/route.ts:104-181 | in every run an instant round that locked and can be played is settled and paid exactly the game's credit; one that cannot leaves its stake locked; one that did not lock moves nothing |
| DemoLaws.DealIs | apps/web/src/app/api/demo/deal/route.ts:19-57 | the three ends of a deal, in every run: refused with nothing changed, failed with its bet locked and its key spent, or a hand seated or paid; what is free and locked after each |
| DemoLaws.DealVideoKeeps | apps/web/src/app/api/demo/videocate/route.ts:71-94 | a VideoCate deal takes exactly the bet behind the lock, or is refused for the first of five reasons with nothing moved |
| DemoLaws.DealKeeps | apps/web/src/app/api/demo/deal/route.ts:40-57 | a deal keeps a covered table covered exactly if it is no short redeal; it leaves its lock's key spent exactly when it fails between locking the bet and counting the nonce, or follows such a deal and makes no hand |
| DemoLaws.RedealAfterFailure | apps/web/src/app/api/demo/deal/route.ts:41-57 | after one more failure at bet a, the first or not under its nonce, the next deal's hand of bet b has only what was locked before, plus a for a first failure: covered exactly when that reaches b plus the VideoCate bet or the hand is over at once and b is above it, refused exactly in the latter case |
| DemoLaws.FailedDealUncovers | apps/web/src/app/api/demo/deal/route.ts:41-57 | from the start, on six decks, digests exist for which every smaller bet a and larger bet b leave the second hand uncovered |
| DemoLaws.SeedIsConserved | apps/web/src/lib/demo-session.ts:41-51 | in every run whatever, balance, locks and house together are the 100 USDC seeded |

## Left out

- HMAC-SHA256, SHA-256 and Ed25519 are parameters or absent; that they are one-way or unforgeable is not modelled.
- Server seeds are not a field of a hand: a hand on the demo table carries HMAC under its seed instead, and `publicHandView` (which hides the seed and the hole card) is not modelled.
- The ledgers inside the custody store are values, not references: that two users never share a ledger object is assumed, and `LedgerSnapshot` is the object proved to act as those values do.
- The hot outflow is keyed by the number of the UTC day instead of its date string; self-exclusion is read but nothing in these files sets it.
- Custody events are the stretches between awaits of one process; crashes, restarts and several processes are not modelled.
- `assertWithdrawSendAllowed` asks for a status the store never sets; that the worker sends only live rows is not modelled, so the laws say which sends do harm instead.
- The daily cap is compared with what was already sent, so no law bounds pending rows by it.
- A retried withdraw request can be refused on balance before its key is looked at, so the laws claim no second lock, not the same reply.
- DepositClaim.LegsEqualIffSameMultiset: needs one list without the pipe character, as mints, accounts and owners in base 58 are; that is the exact condition.
- Addresses.EncodedSignatureIsValid: needs a nonzero first byte for its 87 or 88 characters; `Addresses.SignatureValidIff` covers every 64-byte array.
- Characters are code points, while the source counts and orders UTF-16 code units; the two differ for ids, seeds and keys beyond the basic plane.
- DemoLaws.LiveBetsStayLocked: takes limits within the safe integers, as usdcToAtomic gives, and shoes of at least 38 cards; lock coverage is "at least", because an instant round that cannot be played leaves its stake locked.
- `evaluateFive` and the cards of VideoCate and CatePoker: the poker rank is an input; the plain-remainder rolls of the instant games are not claimed to be unbiased.
- `rollPull` indexes the items in catalog order and publishes a sorted list; that the published list is the indexed one is not claimed.
- The contents of the item catalogs, NFT marks, desk sessions, feature flags, configuration parsing and conversions from floating point are not modelled; amounts are integers.
- `computeFreeBalanceAtomic`, `computeBuyAmountAtomic`, the read-only listings and the policy projections from configuration would add only easy members.
- The limiter's key is one string; that it is made of two shortened hashes, which could collide, is not modelled.
- HTTP, cookies and their sealing, RPC transport, React components and CSS are not part of this model.
