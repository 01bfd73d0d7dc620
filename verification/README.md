# JoinMarket: verified models of its core algorithms

JoinMarket is a Bitcoin CoinJoin client. This project models the parts of it that carry hard
invariants, and proves them:

- **PayJoin (BIP 78)**: `PayjoinPsbt`, `PayjoinManager` (the sender's checks), `PayjoinConverter` (the
  receiver's rewriting of the payment), `PayjoinSafety` (what any accepted proposal can cost the
  sender), `PayjoinComposition` (when the sender accepts what the receiver makes of its own request).
- **Tumbler schedules**: `ScheduleFractions`, `TumblePlan`, `TumbleRun` (an operational semantics of
  schedules), `TumbleSchedule` (the generator), `ScheduleTweak` (re-planning after a failure),
  `TumbleTweaks` (generated schedules can be re-planned), `TumbleTwice` (one family that cannot) and
  `TumbleRetry` (whom a re-planned schedule pays).
- **PoDLE commitments**: `Residues` (shared with the schedules), `PrimeField`, `Podle` (the proof of
  discrete log equivalence), `PodleSoundness` (what an accepted proof proves), `PodleWire` (its wire
  format), `PodleLedger` (the file of used commitments).
- **Descriptor checksums (BIP 380)**: `DescriptorChecksum` (what they detect), `DescriptorCode` (the code
  they belong to).
- **History paging** while the log grows: `HistoryPaging`.
- **Maker penalties**: `CooldownWindow`, `MakerPenalties`.
- **Cached BIP 32 derivation**: `LruDerivation`.
- **Sybil attack probabilities**: `SybilTree`.
- **The fidelity bond cache** shared by threads: `BondCache` (refreshing), `BondAnswers` (what requests
  are answered).
- **Old mnemonics**: `OldMnemonic`; **mixdepth selection**: `MixdepthSelection`; **a maker's check of a
  coinjoin**: `MakerCheck`.
- Shared by several of them: `Wrappers`, `Sequences`, `Sorting`, `Hexadecimal`.

Objects whose methods update fields are classes, loops are loops, and each such method is proved
against a specification about which the theorems are then proved. Random draws, times, coin selection,
mempool acceptance, signing and thread interleavings are arguments; hashes, curve points, key
derivation and the coinjoin fee are arbitrary functions. Python floats are reals, except that nothing
is claimed about rounding. A Python exception is a result (`Crashed`, `Failed`, `Raised`, `None`, ...).

## What was found about the code

- A PayJoin sender whose inputs share sequence number zero never gets a proposal it accepts, since the
  receiver tests the common number for truth and gives its own input the default. A sender that uses
  several numbers gets one only from a receiver that remembers its first number from an earlier
  payment: a stale number overwrites all of them (`SequencesPassIff`, `ProposalAcceptedIff`, `Negotiate`).
- A PayJoin payment without a change output makes the receiver fail on an unassigned variable
  (`RequestToPsbt`), unless it remembers the change of an earlier payment; then it answers with a
  proposal that pays out that old change. As long as the sender's own contribution does not use up the
  old change, the fee falls and the sender refuses (`StaleChangeRefused`).
- A sender with change whose `max_additional_fee_contribution` is a number, as the configuration file
  suggests, refuses every proposal, because the setting stays a string (`NumericSettingRefusesAll`);
  nothing else stands in the way of a sound payment (`SomeProposalAcceptableIff`). The checklist's
  comment also promises a check for derivation data; only xpubs are looked at.
- When a schedule is finished, an entry of the last mixdepth that equals an earlier entry is left in and
  the earlier one removed: the intended schedule comes out exactly if there is no such entry
  (`GetTumbleSchedule`, `ScheduleOfPlanIff`; an instance in `TwoVisitsGenerated`).
- When a mixdepth is visited twice, re-planning its first visit overwrites amounts of other mixdepths,
  and re-planning its second visit can plan negative fractions. `ReplanFirstVisit` and
  `ReplanSecondVisit` run into it, for any acceptable draw, on a schedule that the generator makes for
  a wallet of two mixdepths. `OthersUntouchedIff` and `NeverNegativeIff` say exactly when some draw that
  can be made does so; `DrawableIff` says which fractions can be drawn.
- Re-planning an entry whose external destination is not in the list of final destinations, `addrask`
  included, makes it an internal payment: the retried schedule then pays one destination fewer
  (`SameDestinationsIff`).
- 2t-2 cooldowns within a window already force an automatic ban at threshold t, one fewer than
  expected, and 2t-3 do not (`BanUnavoidable`, `BoundIsTight`). A cooldown that bans automatically
  replaces the ban there is, even a permanent manual one: the old ban is kept for its whole time exactly
  if there is no automatic ban that ends before it (`RecordSingleStage2Cooldown`, `BanKeptIff`,
  `LoseAPermanentBan`).
- As long as all requests see the same announcements, background refreshing works exactly if every
  refresher thread could be started: after one failed start the key stays claimed and these
  announcements are not refreshed in the background again (`ServedIff`, `AbandonedForever`).
- A maker whose coinjoin and change scripts coincide can be underpaid (`GuaranteeIff`).
- An address containing `)` does not survive its descriptor (`AddressRoundTrip`). Mnemonic words that
  decode to 2^32 or more do not survive re-encoding (`EncodeDecodeIff`), and a message survives its
  encoding only if it is plain hexadecimal, though more is accepted (`DecodeEncodeIff`).

## Model

| member | source | states |
|---|---|---|
| PayjoinManager.JMPayjoinManager.constructor | src/jmclient/payjoin.py:48-105 | a new manager has seen no payment: no outputs, no common sequence number |
| PayjoinManager.JMPayjoinManager.SanityCheckInitialPayment | src/jmclient/payjoin.py:137-205 | accepts if and only if the payment is finished, of the wallet's type, free of wallet data, with one payment output and at most one other; records which is which, and the sequence number exactly when it is uniform |
| PayjoinManager.JMPayjoinManager.SetPaymentTxAndPsbt | src/jmclient/payjoin.py:112-122 | stores the payment; the state advances exactly for sane payments, anything else raises |
| PayjoinManager.AllFoundIff | src/jmclient/payjoin.py:244-258 | counting first matches finds every input once exactly when the sender's inputs are distinct and each occurs once in the proposal |
| PayjoinManager.CheckInputs | src/jmclient/payjoin.py:244-258 | check 1: accepts exactly when each of the sender's inputs is there once, fails exactly when the numbers do not add up, and lists the receiver's inputs |
| PayjoinManager.CheckPaid | src/jmclient/payjoin.py:259-268 | check 2: exactly one output pays the destination at least the amount; fails exactly on an output without an address |
| PayjoinManager.CheckOthers | src/jmclient/payjoin.py:269-280 | check 3: every foreign input is finalized and of the wallet's type |
| PayjoinManager.CheckFees | src/jmclient/payjoin.py:281-300 | checks 4 and 5: the fee does not fall and the fee rate reaches the minimum |
| PayjoinManager.CheckChange | src/jmclient/payjoin.py:301-320 | check 6: the change script occurs once and lost neither more than the fee rose nor more than the contribution offered |
| PayjoinManager.CheckSequences | src/jmclient/payjoin.py:324-328 | check 8: all inputs carry the sequence number of the sender's first |
| PayjoinManager.JMPayjoinManager.CheckReceiverProposal | src/jmclient/payjoin.py:207-337 | a proposal is accepted if and only if it satisfies the declarative checklist `Acceptable` |
| PayjoinManager.JMPayjoinManager.SetPayjoinPsbt | src/jmclient/payjoin.py:339-355 | a proposal is stored, and the state advances, exactly if it is acceptable |
| PayjoinSafety.SpendsAllOnce | src/jmclient/payjoin.py:244-258 | a transaction passing check 1 spends exactly the sender's coins, whatever else it spends and in whatever order |
| PayjoinSafety.SenderLossBounded | src/jmclient/payjoin.py:241-337 | for every accepted proposal the sender gives away at most the fee increase, and at most 1.2 times the cost of one input of its type at its own fee rate, more than in its own payment; without change, nothing more |
| PayjoinSafety.PayeeReceives | src/jmclient/payjoin.py:259-268 | with output substitution disabled every accepted proposal pays the payee at least the original amount |
| PayjoinSafety.ContributionLimit | src/jmclient/payjoin.py:459-474 | the default contribution is 1.2 times the cost of a 68 or 91 vbyte input at the payment's fee rate, rounded down |
| PayjoinSafety.InputsAlike | src/jmclient/payjoin.py:244-280 | in an accepted proposal every input spends a coin of the sender's wallet type, and every foreign one is finalized |
| PayjoinSafety.NumericSettingRefusesAll | src/jmclient/payjoin.py:459-474 | with a change output and a numeric contribution setting no proposal whatever is acceptable |
| PayjoinSafety.SomeProposalAcceptableIff | src/jmclient/payjoin.py:207-337 | for a sound payment that reaches its own minimum fee rate, some proposal is acceptable if and only if there is no change or the setting is the default |
| PayjoinConverter.MakePayjoinRequestParams | src/jmclient/payjoin.py:498-528 | the parameters for every setting: the change output with the default contribution or the number as configured, or neither without change; always the minimum fee rate |
| PayjoinConverter.RandomInsert | src/jmbase/support.py:338-344 | inserts each new element at the drawn place |
| PayjoinConverter.InsertionKeepsOrder | src/jmbase/support.py:338-344 | for all draws the old elements keep their order and exactly the new ones are added |
| PayjoinConverter.FillInputs | src/jmclient/payjoin.py:852-880 | sequence number, spent output and owner are aligned with the inputs, position by position; it fails exactly on an input that is nobody's |
| PayjoinConverter.FinishInputs | src/jmclient/payjoin.py:882-908 | a non-zero uniform sequence number goes to all inputs; the receiver's inputs are finished, the sender's bare |
| PayjoinConverter.PayjoinConverter.AcceptRequest | src/jmclient/payjoin.py:690-752 | a request is taken on exactly when version, payment, parameters, fee output and mempool allow; what is remembered from earlier payments |
| PayjoinConverter.PayjoinConverter.MakeOutputs | src/jmclient/payjoin.py:770-798 | payment and change keep their places and scripts, the receiver's coins are added to the payment |
| PayjoinConverter.PayjoinConverter.CheckRate | src/jmclient/payjoin.py:809-842 | passes exactly when the sender's minimum fee rate is not above that of its payment and, without a contribution, survives the larger size |
| PayjoinConverter.ZeroMinRate | src/jmclient/payjoin.py:809-842 | a minimum fee rate of zero is no minimum |
| PayjoinConverter.ChargedWithinOffer | src/jmclient/payjoin.py:815-846 | for every request and every sender: without an offer the change is untouched; with one the change loses at most the limit offered and at most what keeps the fee rate, and less than that, rounded down, only if it loses the limit |
| PayjoinConverter.ProposalInputs | src/jmclient/payjoin.py:852-908 | in every proposal the sender's inputs are bare and the receiver's name their coin, finished, in its wallet's type; all carry the common sequence number unless it is zero, and otherwise the sender's their own and the receiver's the final one |
| PayjoinConverter.PayjoinConverter.MakeProposal | src/jmclient/payjoin.py:759-908 | from an accepted payment, the exact conditions for a proposal, a change that covers the bump among them, and its exact inputs and outputs; the change is charged within the sender's offer; failure without change |
| PayjoinConverter.PayjoinConverter.RequestToPsbt | src/jmclient/payjoin.py:681-919 | whatever payments came before: a proposal if and only if `Willing`, and then exactly the rewritten payment, charged within the sender's offer; which refusal otherwise, malformed or unpaired fee parameters included; failure for a payment taken on while no change is known |
| PayjoinComposition.KeepsAll | src/jmclient/payjoin.py:764-768 | random insertion of foreign coins keeps each of the sender's inputs exactly once |
| PayjoinComposition.ProposalWorth | src/jmclient/payjoin.py:764-768 | the proposal's inputs are worth the sender's and the receiver's coins together |
| PayjoinComposition.BumpNotCapped | src/jmclient/payjoin.py:815-829 | for the sender's own default request the fee bump is never capped |
| PayjoinComposition.ProposalFee | src/jmclient/payjoin.py:793-846 | the proposal's fee is the payment's plus exactly the bump that keeps the fee rate |
| PayjoinComposition.SequencesPassIff | src/jmclient/payjoin.py:852-886 | the proposal passes check 8 if and only if the sender's first sequence number is not zero and is its common one or the one the receiver remembers |
| PayjoinComposition.ProposalAcceptedIff | src/jmclient/payjoin.py:681-919 | composition: the sender accepts what the receiver made of its own request if and only if the number of its first input is fixed and not zero and the new fee rate reaches its minimum; the change covers the bump |
| PayjoinComposition.StaleChangeRefused | src/jmclient/payjoin.py:772-798 | a proposal that pays out the change of an earlier payment is never accepted, whatever the request, unless the bump uses that change up |
| PayjoinComposition.RateBarelyFalls | src/jmclient/payjoin.py:815-829 | the fee rate falls by less than one satoshi over the new size |
| PayjoinComposition.ComfortableRateAccepted | src/jmclient/payjoin.py:207-337 | with an original fee rate of at least the minimum plus one over the new size, and a size grown by at most one input, every check passes |
| PayjoinComposition.SendPayjoin | src/jmclient/payjoin.py:530-575 | payment and request are ready for the receiver: the request names the change and the default contribution |
| PayjoinComposition.Negotiate | src/jmclient/payjoin.py:604-639 | the whole exchange between two managers, whatever they have seen before, ends with an accepted proposal if and only if the first number is fixed and not zero, the change covers the bump, and the minimum fee rate is met before and after |
| ScheduleFractions.SortedDownSorts | src/jmclient/schedule.py:75-76 | the knives are sorted downwards and none is lost |
| ScheduleFractions.Cut | src/jmclient/schedule.py:75-82 | the running sums of the fractions are one minus the sorted knives; each fraction is between 0 and 1 |
| ScheduleFractions.LastIsLeast | src/jmclient/schedule.py:85-88 | the last fraction exceeds 5% exactly if every knife does |
| ScheduleFractions.GetAmountFractions | src/jmclient/schedule.py:64-89 | for every count and all draws: non-negative fractions summing to 1, the last above 5%, from the first acceptable draw |
| ScheduleFractions.CutsDetermined | src/jmclient/schedule.py:75-82 | only one list of fractions belongs to given knives |
| ScheduleFractions.DrawableIff | src/jmclient/schedule.py:64-89 | the fractions that can be drawn are exactly those of a whole with a last one above 5% and, of two or more, a first one that is not zero |
| ScheduleFractions.SweepKeepsItsShare | src/jmclient/schedule.py:65-72 | paying all fractions but the last leaves more than 5% for the sweep |
| Residues.ModIsRemainder | src/jmclient/schedule.py:171-185 | the residues counted out for mixdepths, and for the curve order, are the remainders of division |
| TumbleRun.RunConserves | scripts/README.md:28-32 | executing any schedule, whatever its non-sweep entries really send, conserves all coins |
| TumbleRun.FlagsTrue | src/jmclient/schedule.py:125-144 | for any balances the flags name exactly the mixdepths that hold coins after the stage-1 sweeps |
| TumbleRun.BlockEffect | src/jmclient/schedule.py:146-180 | executing one finished block empties its mixdepth and touches only its target |
| TumbleRun.TumbleEmptiesWallet | src/jmclient/schedule.py:91-207 | every mixdepth covered by stage 2 ends empty, the others are as stage 1 left them, each external destination is paid once, in order |
| TumbleRun.PaysEverythingIff | src/jmclient/schedule.py:91-207 | all coins reach external destinations if and only if stage 2 covers every flagged mixdepth |
| TumbleRun.EverythingCovered | src/jmclient/schedule.py:171-172 | with at least as many blocks as mixdepths, stage 2 covers all of them |
| TumbleSchedule.PlanSweeps | src/jmclient/schedule.py:114-140 | stage 1 sweeps exactly the funded mixdepths, highest first, with the drawn attributes, and keeps the flags |
| TumbleSchedule.LowestFlagged | src/jmclient/schedule.py:141-144 | the lowest flagged mixdepth, none exactly if none is flagged |
| TumbleSchedule.DraftBlock | src/jmclient/schedule.py:146-180 | a block spends the fractions of the first acceptable draw, with the drawn attributes, and ends in a sweep |
| TumbleSchedule.FindLast | src/jmclient/schedule.py:183-189 | the last entry leaving a mixdepth |
| TumbleSchedule.DropInternals | src/jmclient/schedule.py:190-201 | from the final block the internal entries are removed, last first, each where an equal entry comes first |
| TumbleSchedule.OnlySweepKept | src/jmclient/schedule.py:190-201 | that leaves exactly the sweep, provided no entry removed equals an earlier one |
| TumbleSchedule.FoundAt | src/jmclient/schedule.py:183-189 | after any number of destinations, the entry found next is the end of the block whose turn it is |
| TumbleSchedule.GiveDestinations | src/jmclient/schedule.py:181-201 | the schedule after all destinations, for all drafted entries: the last entry of each mixdepth is redirected in turn, the final block trimmed after the first |
| TumbleSchedule.DestinedIsFinal | src/jmclient/schedule.py:181-201 | without mix-ups the last blocks get the destinations, from the last one backwards, and nothing else changes but the final block |
| TumbleSchedule.MixedUp | src/jmclient/schedule.py:201-201 | if an entry to be removed equals an earlier one, entries end up in places of other mixdepths |
| TumbleSchedule.ScheduleOfPlanIff | src/jmclient/schedule.py:181-201 | a plan leads to the intended schedule if and only if no entry to be removed equals an earlier one |
| TumbleSchedule.GetTumbleSchedule | src/jmclient/schedule.py:91-207 | no schedule exactly for an empty wallet (or unlucky draws without end); otherwise the schedule of a fitting plan, the intended one if and only if no entry to be removed equals an earlier one |
| TumbleSchedule.ExternalsInOrder | src/jmclient/schedule.py:181-188 | destinations are used in the order given, then those to be asked for; surplus ones are dropped from the front |
| TumbleSchedule.ScheduleOutcome | src/jmclient/schedule.py:91-207 | executing a generated schedule: coins conserved, covered mixdepths empty, the requested destinations paid once each in order, all coins paid out exactly if covered |
| TumbleSchedule.EverythingPaid | src/jmclient/schedule.py:91-207 | visiting as many mixdepths as the wallet has pays out every coin |
| TumbleSchedule.DistinctDepthsDistinguish | src/jmclient/schedule.py:201-201 | no mix-up of equal entries when no mixdepth is visited twice and no last fraction is zero |
| ScheduleTweak.TweakTumbleSchedule | src/jmclient/schedule.py:209-263 | a sweep loses a maker down to the minimum; otherwise the entries from the failed one on get fresh fractions of what is left, as found from the first equal entry of the mixdepth; exactly when draws run out or an index is out of range; if no earlier entry equals it, a step that keeps the schedule in order |
| TumbleRetry.RunPays | scripts/README.md:28-32 | running any schedule pays the destinations it names, each once, in order |
| TumbleRetry.RetryPays | src/jmclient/schedule.py:219-222 | a retried schedule pays the destinations of the original one, except that of the retried entry if this is an address outside the list given, or still to be asked for |
| TumbleRetry.SameDestinationsIff | src/jmclient/schedule.py:219-222 | whatever the balances and amounts, the retried schedule pays the same destinations in the same order as the original one if and only if the retried entry is internal or pays an address in the list given |
| TumbleRetry.RetriedMakers | src/jmclient/schedule.py:223-230 | only a retried sweep changes its makers: one fewer, but never below the minimum and the minimum if it was there or below; it still sweeps |
| ScheduleTweak.PreciseFinds | src/jmclient/schedule.py:245-262 | if no earlier entry equals the one retried, count and rest are those of its mixdepth and no index is out of range |
| ScheduleTweak.CompletionMakesPrecise | src/jmclient/schedule.py:245-247 | with completed entries flagged, the search finds the entry itself |
| ScheduleTweak.RewritesOwnMixdepthIff | src/jmclient/schedule.py:245-262 | the rewritten entries all belong to the mixdepth being re-planned if and only if the rest of it is contiguous |
| ScheduleTweak.ReplanSpends | src/jmclient/schedule.py:249-262 | what one mixdepth spends in all after a re-plan |
| ScheduleTweak.ReplanSparesOthers | src/jmclient/schedule.py:256-262 | a re-plan leaves every other mixdepth's entries as they were |
| ScheduleTweak.ReplanKeepsTumbleOk | src/jmclient/schedule.py:209-263 | a re-plan keeps non-negative amounts, fractions below the whole and a final sweep per mixdepth |
| ScheduleTweak.TweakKeepsTumbleOk | src/jmclient/schedule.py:209-263 | so does any tweak, which moreover touches nothing that is done and no other mixdepth's amounts |
| ScheduleTweak.RunKeepsTumbleOk | src/jmclient/schedule.py:209-263 | so does any sequence of tweaks that find their entry, completions and changes of destination |
| ScheduleTweak.OthersUntouchedIff | src/jmclient/schedule.py:245-262 | re-planned amounts never touch other mixdepths', for any draw that can be made, if and only if the entries of others within reach are sweeps that get zero again |
| ScheduleTweak.NeverNegativeIff | src/jmclient/schedule.py:249-260 | re-planned amounts are never negative, for any draw that can be made, if and only if the mixdepth has spent at most the whole |
| TumbleTweaks.GeneratedTumbleOk | src/jmclient/schedule.py:91-207 | a generated schedule that visits no mixdepth twice satisfies the invariant that tweaks keep |
| TumbleTwice.TwoVisitsPlanned | src/jmclient/schedule.py:91-180 | plans that the generator can make for a wallet of two mixdepths and four visits |
| TumbleTwice.TwoVisitsGenerated | src/jmclient/schedule.py:181-201 | their schedule, and the one draw for which the generator mixes up two equal entries |
| TumbleTwice.ReplanReachesAnotherMixdepth | src/jmclient/schedule.py:245-262 | some draw that can be made changes amounts planned for the other mixdepth when the first visit of that schedule is re-planned |
| TumbleTwice.ReplanFirstVisit | src/jmclient/schedule.py:209-263 | through the code: whatever acceptable knives are drawn, two amounts of the other mixdepth become fractions of the draw |
| TumbleTwice.ReplanTurnsNegative | src/jmclient/schedule.py:249-260 | some draw that can be made plans negative amounts when its second visit is re-planned |
| TumbleTwice.ReplanSecondVisit | src/jmclient/schedule.py:209-263 | through the code: whatever acceptable knife is drawn, the planned amount is negative |
| PrimeField.HasInverse | src/jmclient/podle.py:184-198 | every non-zero residue modulo a prime has an inverse |
| Podle.BytesRoundTrip | src/jmclient/podle.py:126-129 | numbers survive their fixed-width big-endian encoding |
| Podle.PoDLE.GetCommitment | src/jmclient/podle.py:77-85 | the commitment is the hash of the second point |
| Podle.PoDLE.GeneratePodle | src/jmclient/podle.py:87-130 | sets the proof for one base point: points, commitment, challenge and response |
| Podle.PoDLE.VerifyProof | src/jmclient/podle.py:174-200 | compares the commitment and accepts exactly as trying the base points in order does |
| Podle.NonceRecovered | src/jmclient/podle.py:187-194 | an honest response leads back to the nonce point at every base point |
| Podle.HonestAccepted | src/jmclient/podle.py:87-130 | at its own base point an honest proof is accepted exactly when its response and challenge are usable |
| Podle.Completeness | src/jmclient/podle.py:174-200 | with every range of base points containing its own, an honest proof is accepted if usable and raises otherwise, unless a base point tried before gives the point at infinity |
| Podle.SpecialSoundness | src/jmclient/podle.py:184-198 | two accepted answers to different challenges yield one secret behind both points |
| Podle.TwoAnswersProveTheClaim | src/jmclient/podle.py:184-198 | hence the two points have the same discrete logarithm |
| PodleSoundness.MessageDetermines | src/jmclient/podle.py:124-124 | the hashed message determines both nonce points and both claimed points |
| PodleSoundness.AcceptedAt | src/jmclient/podle.py:174-200 | an accepted proof opens its commitment and is accepted at one of the known base points asked for |
| PodleSoundness.ChallengeBinds | src/jmclient/podle.py:174-200 | two proofs accepted with the same challenge, over any ranges, agree in points, response, commitment and base point, unless the two messages hashed are a collision |
| PodleSoundness.TwoVerdicts | src/jmclient/podle.py:174-200 | special soundness of the verdict: if proofs for two hash answers to the same message are both accepted, the claim is true or the two answers are the same challenge modulo the order |
| PodleWire.HexRoundTrip | src/jmbase/support.py:99-107 | bytes survive hexadecimal |
| PodleWire.DecimalRoundTrip | src/jmbase/support.py:126-161 | indices survive decimal |
| PodleWire.SplitJoin | src/jmclient/podle.py:148-172 | splitting undoes joining when no part contains the separator |
| PodleWire.UtxoRoundTrip | src/jmbase/support.py:126-161 | a utxo has a string form exactly if well formed, and survives it |
| PodleWire.WireFields | src/jmclient/podle.py:148-159 | what is sent has the five fields utxo, P, P2, response and challenge, in this order |
| PodleWire.RevelationRoundTrip | src/jmclient/podle.py:148-172 | every revelation that can be sent is received unchanged |
| PodleWire.AcceptedOverTheWire | src/jmclient/podle.py:469-473 | the same for a proof made, sent, received and verified |
| PodleLedger.CommitmentFile.UpdateCommitments | src/jmclient/podle.py:379-399 | adds the commitment to those used |
| PodleLedger.CommitmentFile.GetPodleTries | src/jmclient/podle.py:401-420 | one more than the highest used index below the limit |
| PodleLedger.CommitmentFile.GeneratePodle | src/jmclient/podle.py:422-450 | takes the first wallet key with tries left, at its first free index, and records it |
| PodleLedger.NextMeaning | src/jmclient/podle.py:422-450 | what is issued is unused and its predecessor used; nothing is issued only if every key's last try is used |
| PodleLedger.LedgerInvariant | src/jmclient/podle.py:379-450 | over any run from an empty file, if the keys asked for have different commitments within the limit: the file holds what was issued, nothing is issued twice, every key's used indices form a prefix |
| PodleLedger.AtMostLimit | src/jmclient/podle.py:401-450 | no key ever supplies more commitments than the limit |
| PodleLedger.RefusalMeansExhausted | src/jmclient/podle.py:422-450 | a call is refused exactly when all its keys have used up all their tries |
| DescriptorChecksum.PolyModLinear | src/jmbitcoin/output_descriptors.py:5-23 | the register is linear over GF(2) in state and input |
| DescriptorChecksum.PolyModInjective | src/jmbitcoin/output_descriptors.py:5-23 | different states stay different under the same symbol |
| DescriptorChecksum.FeedInjective | src/jmbitcoin/output_descriptors.py:37-56 | and under any stream of symbols |
| DescriptorChecksum.BurstInjective | src/jmbitcoin/output_descriptors.py:5-56 | up to eight consecutive symbols can be read back from any common state |
| DescriptorChecksum.ExpandInjective | src/jmbitcoin/output_descriptors.py:37-52 | different descriptors expand to different symbols |
| DescriptorChecksum.RenderInjective | src/jmbitcoin/output_descriptors.py:55-58 | different registers render differently |
| DescriptorChecksum.DescriptorChecksumOf | src/jmbitcoin/output_descriptors.py:26-58 | the in-place computation equals the register fed with the expansion; empty outside the charset |
| DescriptorChecksum.DetectsBurst | src/jmbitcoin/output_descriptors.py:26-58 | descriptors of any length differing only within two consecutive aligned groups of three have different checksums |
| DescriptorChecksum.DetectsSubstitution | src/jmbitcoin/output_descriptors.py:26-58 | in particular any change of one character is detected |
| DescriptorChecksum.AddressRoundTrip | src/jmbitcoin/output_descriptors.py:61-97 | an address is read back from its checksummed descriptor if and only if it contains no closing parenthesis |
| DescriptorCode.DoubleDigitwise | src/jmbitcoin/output_descriptors.py:5-23 | doubling a register multiplies each of its eight digits by x in GF(2)[x] / (x^5 + x^3 + 1) |
| DescriptorCode.PolyModOverField | src/jmbitcoin/output_descriptors.py:5-23 | the register is linear over the field with 32 elements: doubling register and symbol doubles the result |
| DescriptorCode.PositionIsRank | src/jmbitcoin/output_descriptors.py:32-40 | each character has one place in the input charset, the one its kind tells |
| DescriptorCode.ExampleChecksum | src/jmbitcoin/output_descriptors.py:93-94 | addr(2MvAfRVvRAeBS18NT7mKVc1gFim169GkFC5) has the checksum h5yn9eq4 |
| DescriptorCode.ExampleDescriptor | src/jmbitcoin/output_descriptors.py:61-73 | the descriptor built for that address is the one in the source's example |
| HistoryPaging.YieldOlder | src/jmclient/blockchaininterface.py:218-220 | yields the older part of a window, newest first |
| HistoryPaging.WindowAt | src/jmclient/blockchaininterface.py:206-215 | where the window of a later call lies in the first log |
| HistoryPaging.SkipStep | src/jmclient/blockchaininterface.py:206-217 | when the last yielded entry has moved out of the window, skipping the window loses nothing |
| HistoryPaging.FoundStep | src/jmclient/blockchaininterface.py:206-223 | when it is found, the entries before it come next, and a short window ends the history |
| HistoryPaging.YieldTransactions | src/jmclient/blockchaininterface.py:194-223 | whatever is appended between calls, exactly the history of the first call is yielded, newest first, within 2 + log2 of the final length calls |
| CooldownWindow.WindowMeaning | src/jmclient/maker_penalty_store.py:250-261 | count and start of the window are those of the last event that opened one |
| CooldownWindow.CounterCountsLog | src/jmclient/maker_penalty_store.py:250-261 | the counter is the number of logged cooldowns since the window start, never further back than the window length |
| CooldownWindow.BanNeedsThreshold | src/jmclient/maker_penalty_store.py:250-268 | the auto-ban branch needs `threshold` cooldowns within the window length |
| CooldownWindow.BanUnavoidable | src/jmclient/maker_penalty_store.py:250-268 | any max(1, 2t-2) cooldowns within the window length include one that takes it |
| CooldownWindow.BoundIsTight | src/jmclient/maker_penalty_store.py:250-268 | one cooldown fewer can avoid it |
| MakerPenalties.MakerPenaltyStore.constructor | src/jmclient/maker_penalty_store.py:39-42 | a new store has no rows and no events |
| MakerPenalties.MakerPenaltyStore.RecordSingleStage2Cooldown | src/jmclient/maker_penalty_store.py:237-315 | the whole new table and log; banned exactly if the counter reaches the threshold; an existing ban is kept for its whole time exactly if no automatic ban ends before it |
| MakerPenalties.MakerPenaltyStore.RecordStage2Cooldown | src/jmclient/maker_penalty_store.py:215-235 | each named maker is recorded once however often it is listed, in order of first mention, blanks and others not at all; nothing without a positive cooldown |
| MakerPenalties.FirstNamedOnce | src/jmclient/maker_penalty_store.py:232-235 | exactly the makers named are recorded, each once |
| MakerPenalties.MakerPenaltyStore.RecordSoftFailure | src/jmclient/maker_penalty_store.py:317-346 | each named maker is logged once, under the stage given or `unknown`, and its row's last entries updated, without moving counters, bans or cooldowns; blanks not at all |
| MakerPenalties.MakerPenaltyStore.BanNick | src/jmclient/maker_penalty_store.py:348-379 | the whole new table and log: banned until the given time, for good if it is zero, with the reason given; cooldowns stay; a blank nick changes nothing |
| MakerPenalties.MakerPenaltyStore.UnbanNick | src/jmclient/maker_penalty_store.py:381-403 | the whole new table and log: the ban is lifted, cooldowns and what is kept for diagnosis stay, and no other nick changes; a blank nick changes nothing |
| MakerPenalties.MakerPenaltyStore.Prune | src/jmclient/maker_penalty_store.py:189-213 | rows become the pruned rows without changing a later answer or what is kept for diagnosis; the log stays |
| MakerPenalties.PruneInvisible | src/jmclient/maker_penalty_store.py:160-213 | pruning changes no answer about the same or a later time, and forgets exactly what expired in between |
| MakerPenalties.ConsistentWithCooldown | src/jmclient/maker_penalty_store.py:237-309 | logging a cooldown keeps every counter equal to the replay of its log |
| MakerPenalties.ConsistentWithOther | src/jmclient/maker_penalty_store.py:317-403 | so does every other event |
| MakerPenalties.CounterMeaning | src/jmclient/maker_penalty_store.py:237-309 | the stored counter is the number of logged cooldowns since the stored window start |
| MakerPenalties.AutoBanJustified | src/jmclient/maker_penalty_store.py:237-309 | every automatic ban has `threshold` logged cooldowns in the window |
| MakerPenalties.AutoBanUnavoidable | src/jmclient/maker_penalty_store.py:237-309 | enough cooldowns in the window include one that bans |
| MakerPenalties.BanKeptIff | src/jmclient/maker_penalty_store.py:261-299 | a recorded cooldown keeps an existing ban for its whole time if and only if there is no automatic ban, it is permanent, or it does not end before the old one |
| MakerPenalties.AutoBanReplacesPermanentBan | src/jmclient/maker_penalty_store.py:261-299 | with temporary automatic bans, a cooldown leaves a permanent ban alone if and only if the counter stays below the threshold; otherwise the maker is free when the automatic ban ends |
| MakerPenalties.LoseAPermanentBan | src/jmclient/maker_penalty_store.py:237-379 | through the store: banned for good, then one cooldown, and free again when the automatic ban has run out |
| LruDerivation.LatestMeaning | src/jmclient/cryptoengine.py:77-98 | an element is among the last n distinct ones exactly if fewer than n others were accessed since |
| LruDerivation.LatestTouchHit | src/jmclient/cryptoengine.py:90-94 | a bounded cache that moves a hit to the end keeps up with recency |
| LruDerivation.LatestTouchMiss | src/jmclient/cryptoengine.py:86-88 | and one that appends a miss and evicts the oldest |
| LruDerivation.DeriveFailsIff | src/jmclient/cryptoengine.py:188-198 | a derivation fails exactly on a level outside 0 .. 2^32 - 1 |
| LruDerivation.SimpleLruCache.constructor | src/jmclient/cryptoengine.py:81-84 | a new cache is empty |
| LruDerivation.SimpleLruCache.SetItem | src/jmclient/cryptoengine.py:86-88 | the cache holds exactly the last distinct keys accessed, in recency order |
| LruDerivation.SimpleLruCache.GetItem | src/jmclient/cryptoengine.py:90-94 | returns the stored value and moves its key to the end |
| LruDerivation.SimpleLruCache.AdjustSize | src/jmclient/cryptoengine.py:96-98 | drops the oldest entries beyond the size |
| LruDerivation.WalkBip32Path | src/jmclient/cryptoengine.py:188-198 | from any reachable cache the result is the plain fold of the derivation, and the cache stays reachable and recent |
| SybilTree.DescendProbabilityTree | scripts/obwatch/sybil_attack_calculations.py:41-60 | backtracking leaves the weights as they were and returns the branch probability times the tree's |
| SybilTree.CalculateTopMakersSybilAttackSuccessProbability | scripts/obwatch/sybil_attack_calculations.py:62-66 | the probability for the top weights, a number between 0 and 1 |
| SybilTree.TreeBounds | scripts/obwatch/sybil_attack_calculations.py:41-60 | the tree is a probability |
| SybilTree.TreeAntitone | scripts/obwatch/sybil_attack_calculations.py:41-60 | more honest weight never raises it |
| SybilTree.TreePositive | scripts/obwatch/sybil_attack_calculations.py:41-60 | positive exactly if there are enough sybil makers |
| SybilTree.TreeCertain | scripts/obwatch/sybil_attack_calculations.py:41-60 | one exactly if besides there is no honest weight |
| SybilTree.DrawsComplete | scripts/obwatch/sybil_attack_calculations.py:49-60 | the enumeration holds exactly the ordered draws without replacement |
| SybilTree.DrawsOnce | scripts/obwatch/sybil_attack_calculations.py:49-60 | each of them once |
| SybilTree.TreeIsSumOverDraws | scripts/obwatch/sybil_attack_calculations.py:41-60 | the tree is the sum of the probabilities of all ordered draws of sybil makers |
| BondCache.StepServed | scripts/obwatch/ob-watcher.py:208-310 | every step that can start its thread keeps a claimed key served by a refresher |
| BondCache.AnswersFit | scripts/obwatch/ob-watcher.py:268-310 | over every interleaving a request gets empty data or data for its own announcements, a waiting one for its full key |
| BondAnswers.DataIsCalculated | scripts/obwatch/ob-watcher.py:208-310 | over every interleaving all data stored or answered was calculated, with success, for the key it carries |
| BondAnswers.KeysAreTold | scripts/obwatch/ob-watcher.py:238-293 | and the key a thread works with is made of the answers that very thread got |
| BondAnswers.CacheIsLastStore | scripts/obwatch/ob-watcher.py:208-224 | the cache is empty until something is stored and then holds exactly what was stored last |
| BondAnswers.SixSteps | scripts/obwatch/ob-watcher.py:208-310 | no thread takes more than six steps |
| BondAnswers.WaitingRequest | scripts/obwatch/ob-watcher.py:291-310 | over every interleaving a waiting request ends within six steps with data for the key it was told, unless its own calculation failed or another key was stored between its store and its rereading; it has no answer only if asking the node failed |
| BondAnswers.ImpatientRequest | scripts/obwatch/ob-watcher.py:276-289 | a request that does not wait is answered with what the cache held for its announcements at its first step, unless it could not start a refresher |
| BondAnswers.RefreshClaimedIff | scripts/obwatch/ob-watcher.py:254-289 | two steps into such a request a refresh is claimed if and only if it was before or the cache holds nothing of the last minute for its announcements |
| BondCache.RefreshServed | scripts/obwatch/ob-watcher.py:208-266 | over every interleaving in which refreshers can be started, a claimed refreshing key names a refresher still on its way |
| BondCache.RefresherReleases | scripts/obwatch/ob-watcher.py:208-252 | a refresher releases its key within four of its own steps, whatever fails |
| BondCache.NotBlocked | scripts/obwatch/ob-watcher.py:208-266 | from every reachable state the threads at hand can unblock refreshing |
| BondCache.ServedIff | scripts/obwatch/ob-watcher.py:208-310 | with all requests seeing the same announcements, a claimed key is served after a run if and only if every refresher could be started during it; otherwise it is abandoned |
| BondCache.AbandonedForever | scripts/obwatch/ob-watcher.py:208-310 | whatever requests for those announcements arrive, waiting or not, an abandoned key stays claimed and nobody serves it |
| BondCache.AbandonedCacheStays | scripts/obwatch/ob-watcher.py:254-310 | without waiting requests the cache then keeps its content for good |
| BondCache.FailedStartSticks | scripts/obwatch/ob-watcher.py:254-266 | a run of four steps that ends so |
| BondCache.OneRefresherAtATime | scripts/obwatch/ob-watcher.py:254-266 | for one set of announcements there is never more than one refresher |
| OldMnemonic.TripleSuffices | src/jmclient/old_mnemonic.py:242-252 | 16^8 < 1626^3: three words hold eight digits |
| OldMnemonic.FromToTriple | src/jmclient/old_mnemonic.py:242-263 | numbers below 2^32 survive their three words |
| OldMnemonic.ToFromTriple | src/jmclient/old_mnemonic.py:242-263 | any three words survive their number |
| OldMnemonic.Hex8Size | src/jmclient/old_mnemonic.py:262-262 | eight digits are printed exactly below 2^32 |
| OldMnemonic.MnEncode | src/jmclient/old_mnemonic.py:242-252 | the encoding word by word, for whatever `int` reads, negative numbers included; an exception exactly for a wrong length or a word that cannot be read |
| OldMnemonic.MnDecode | src/jmclient/old_mnemonic.py:255-263 | the decoding, an exception exactly for an unknown word; spare words are ignored |
| OldMnemonic.DecodeEncode | src/jmclient/old_mnemonic.py:242-263 | decoding an encoding of plain digits gives the message in lower case |
| OldMnemonic.DecodeEncodeIff | src/jmclient/old_mnemonic.py:242-263 | decoding an encoding gives the message in lower case if and only if it consists of plain digits |
| OldMnemonic.EncodeDecodeIff | src/jmclient/old_mnemonic.py:242-263 | encoding a decoding gives the words if and only if they are full triples each below 2^32 |
| MixdepthSelection.SortedAscends | scripts/yg-privacyenhanced.py:32-32 | sorting keeps the available mixdepths and orders them |
| MixdepthSelection.GapsGoAround | scripts/yg-privacyenhanced.py:39-40 | the gaps sum to the number of mixdepths |
| MixdepthSelection.LargestGapIsBest | scripts/yg-privacyenhanced.py:33-44 | starting after the largest gap minimises the farthest forward distance over all starts |
| MixdepthSelection.IndexOfLargest | scripts/yg-privacyenhanced.py:44-44 | the first of the largest gaps |
| MixdepthSelection.SelectInputMixdepth | scripts/yg-privacyenhanced.py:24-44 | the mixdepth returned follows the first largest gap; no start, available or not, has a smaller farthest distance |
| Sorting.SortedOrders | scripts/yg-privacyenhanced.py:32-32 | insertion sort orders by any total order |
| MakerCheck.VerifyUnsignedTx | src/jmclient/maker.py:180-244 | accepts if and only if the maker's inputs are there, it does not lose, and each script is paid once and enough |
| MakerCheck.MakerPaid | src/jmclient/maker.py:203-244 | with two different scripts the maker gets its inputs and its earnings, for any transaction and any amount |
| MakerCheck.SharedOutputSigned | src/jmclient/maker.py:225-244 | with one script for both, a single output worth the larger expectation is signed |
| MakerCheck.GuaranteeIff | src/jmclient/maker.py:203-244 | the guarantee holds for all transactions the maker would sign if and only if the scripts differ, or the amount or the expected change is not positive, or the offer loses |

## Left out

- Twisted and Tor networking, JSON-RPC, Qt, command lines, SQL syntax, file formats and logging: input and output only.
- libsecp256k1, signatures, script evaluation, key derivation and hashes: arbitrary functions with the properties each theorem names.
- Python float rounding in fee rates, fractions and waiting times: reals instead; `wait` values are not rounded to two digits.
- python-bitcointx is not part of this model: building a transaction with a negative output is taken to fail.
- PayJoin timers, fallback broadcast, `report` and the states after signing: decided by the reactor and process shutdown.
- Schedule files: their text form depends on how Python prints floats.
- Podle.Completeness: says nothing when the point at infinity comes up at a base point tried before.
- PoDLE external commitments: only the wallet's own utxos supply commitments here.
- OldMnemonic: `int(s, 16)` is an arbitrary function that reads eight hexadecimal digits as their number.
- PodleWire.DecimalRoundTrip: blanks and underscores, which `int` also takes, are not modelled.
- Penalty store: nicks are given stripped; makers of one batch are logged in the order they are first listed; the configured ban list is a plain set; time order of rows in answers is not modelled, answers are sets.
- HistoryPaging.YieldTransactions: reorganisations and entries that change while listed are not modelled.
- Fidelity bonds: `calculate_fidelity_bond_data` is an arbitrary function of its arguments that may fail; the lock exists before any thread starts.
- `get_xpub_descriptor`: three fixed wrappings around a key; it would only add easy members.
- `create_my_orders`, `modify_orders`, `calc_cj_fee`, the taker, the wallet and the orderbook are not part of this model.
