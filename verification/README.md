# PON relay: a verified model

This project models the three parts of the relay where correctness is not visible in any single function body, and
proves what they promise.

* **The signature check** (`rpbs/types.go`, `rpbs/rpbs.go`): hashing a digest to a point of y² = x³ + 3, the
  quadratic-extension arithmetic and Cipolla square root behind it, the signature equation, and the string that is signed.
  `Congruence`, `Quadratic` and `Residues` build the number theory from nothing (Euclid's lemma, binomials at a prime,
  Frobenius, Fermat, Euler), `HashToCurve` and `Signature` hold the program, `Text` and `InfoString` the printing.
* **The bid board** (`bids/bids.go`, `relay/relay.go`): a flat Redis keyspace that stands for five per-slot tables
  (`BidTables`, `BidBoard`), the handlers run one at a time (`Submission`, `Relay`, and `Admission` for what one submission
  does in plain terms), the handlers interleaved at every
  Redis operation (`Protocol`, with `Schedules` to put runs together and `SoloRun` for a handler left alone), the same
  interleavings on the flat keyspace (`FlatStore`), which submission each entry comes from (`Provenance`), what can be trusted when they come to rest (`Quiescence`, `Contest`,
  `StaleAuction`), whether receive times can go back (`ReceiveTimes`), and who may still write a slot that has closed
  (`Closing`).
* **The head tracker and the derived caches** (`beaconinterface/*`, `utils/*`): the head, the windowed maps and the
  proposer lookup (`HeadTracker`), the same under concurrent tasks (`HeadCaches`), the builder-status copy in Redis
  (`StatusMirror`), and the validator index maps (`ValidatorIndex`). `Words` holds the 64-bit conversions.

Objects the code updates through pointers are objects here: field elements, the exponent that `ComplexExponent` consumes,
the two reused points and the hash state of `VerifySignature`, the board, the relay, the beacon data.

## Findings

* `a := zero` in `BytesToPoint` is a pointer alias. If the search for a non-residue ever moved `a`, the closing test
  would compare the imaginary part 0 with a nonzero `zero` and fail. The search does not move exactly because the modulus
  is 3 modulo 4: `Residues.NegatedSquare` and `HashToCurve.FinishAcceptsOnlyAnUnmovedZero` give both directions.
  The root algorithm itself is right for every odd prime (`Residues.Cipolla`).
* `ComplexExponent` stops when the rest of the exponent is 0 in the field, not when it is 0.
  `HashToCurve.WholeExponentIsRead` says exactly which exponents are read to the end; every exponent below p is.
* Concurrent auctions can leave a beaten bid in the highest key for good. For any set of submissions of different
  builders to one slot, every run that admits exactly those ends with a best bid in the key if and only if some of them
  are positive and the positive ones are equal (`StaleAuction.SafeExactlyWhenPositivesAgree`); otherwise any positive one
  can be made to win (`StaleAuction.AnyPositiveCanWin`). For one given run, if the builder chosen by the last auction to
  write has stored no value since its read, the key is maximal if and only if no value written after that read exceeds it
  (`Quiescence.QuietSlotIsDecided`).
* Stored receive times never go back while no builder has two bids of a slot in flight, and can otherwise
  (`ReceiveTimes.ExclusiveTimesNeverDecrease`, `ReceiveTimes.TimesDecreaseWithoutExclusion`).
* In serial runs the highest key is right exactly when some latest bid of the slot is positive
  (`Relay.HighestIsBestExactlyWhenSomeBidIsPositive`); when all are zero or negative the auction reports an error and
  leaves an earlier winner in place.
* A delivered slot is guarded by the first gate and a past slot by the second, so "passed the gates" must be read gate by
  gate: a handler past the first gate when the slot is delivered may still pass the second and write
  (`Closing.DeliveredSlotIsStillWritten`).
* Slot 0 reopens when the head is 2^64 − 1, and only then (`Submission.PastSlotIsClosed`); in runs that never receive
  that head it is as final as any other slot.
* Eviction spares the current and the next epoch exactly outside the 96 heads around 2^63, where the signed comparison
  changes sign (`HeadTracker.EvictionKeepsActiveEpochs`).
* A failed status write is remembered as done and never retried; the looked-up status is right exactly when the failures
  since the last success are even in number (`StatusMirror.StatusIsCurrentExactlyAfterEvenFailures`).
* Two answers "with the same transcript and different products" cannot both be accepted under one hash, so the forking
  statement is about two hashes (`Signature.ForkRevealsSecret`).
* `handleProposerHeader` complains about a record for another slot or proposer but serves it all the same
  (`relay/relay.go:718-721` has no return); the model does the same and shows the slot always matches.

## Model

| member | source | states |
|---|---|---|
| Quadratic.ReducedProduct | rpbs/types.go:103-121 | the product with a reduction after every field operation is the product of Z[w], w² = neg, reduced once |
| Quadratic.CurveMulIsCommutativeRing | rpbs/types.go:103-121 | the product is commutative and associative with unit 1 on every operand, reduced or not |
| Quadratic.CurveMulNorm | rpbs/types.go:103-121 | re² − neg·im² of a product is the product of the two norms modulo p |
| Quadratic.Frobenius | rpbs/types.go:181-191 | raising a sum to the power p is the sum of the powers modulo p, in the extension and so in the field |
| Residues.Fermat | rpbs/types.go:165-175 | a^p = a modulo every prime p, for every integer a |
| Residues.EulerPower | rpbs/types.go:165-175 | the symbol is 0 exactly on multiples of p and Euler's power is 1 or −1 elsewhere |
| Residues.LegendreIsSquareTest | rpbs/types.go:161-168 | for p = 3 mod 4 the symbol is 1 exactly on the nonzero squares |
| Residues.NegatedSquare | rpbs/types.go:170-175 | the negation of a nonzero square is a non-residue if and only if p = 3 mod 4, so only then is the search loop skipped |
| Residues.RealHalfPowerIsRoot | rpbs/types.go:181-201 | for any odd prime and any a, if the half power of a + w has zero imaginary part its real part squares to n |
| Residues.Cipolla | rpbs/types.go:170-197 | for any odd prime, residue n and a with a² − n a non-residue, the half power of a + w is real and squares to n |
| HashToCurve.SmallExponentIsRead | rpbs/types.go:132-140 | an exponent below p is consumed whole and left at 0 |
| HashToCurve.WholeExponentIsRead | rpbs/types.go:132-140 | the exponent is consumed whole if and only if none of its right shifts is a nonzero multiple of p |
| HashToCurve.ReadsUpToFirstMultiple | rpbs/types.go:132-140 | for every exponent the loop stops at its first right shift that is a multiple of p, having read exactly the bits shifted out |
| HashToCurve.ComplexExponent | rpbs/types.go:123-143 | square and multiply returns the power by the consumed part of the exponent, and leaves the caller's exponent at the unread rest; below p that is the full power and 0 |
| HashToCurve.CurveRHSIsCubePlusThree | rpbs/types.go:145-152 | the right-hand side is x³ + 3 reduced |
| HashToCurve.SearchEndsAtOne | rpbs/types.go:165-168 | x = 1 always passes the search test, because 1 + 3 is the square of 2 |
| HashToCurve.FromBytesAppends | rpbs/types.go:155 | the digest is read with the first byte weighing most and each byte counting as its own value |
| HashToCurve.FromBytesInjective | rpbs/types.go:155 | different digests are read as different numbers |
| HashToCurve.FinishAcceptsOnlyAnUnmovedZero | rpbs/types.go:172-203 | with a and zero aliased, the closing checks pass if and only if the search left a at 0 |
| HashToCurve.HalfPowerOfOmega | rpbs/types.go:182-191 | with a = 0 the exponentiation yields the real number (−n)^((p+1)/4) |
| HashToCurve.AdmissibleIsSquare | rpbs/types.go:161-168 | an abscissa passes the search test if and only if the curve has a point with nonzero ordinate above it |
| HashToCurve.ImageExists | rpbs/types.go:154-204 | every digest has an image point |
| HashToCurve.ImageIsUnique | rpbs/types.go:154-204 | a digest has one image point |
| HashToCurve.ImageSolvesTheCurve | rpbs/types.go:193-203 | the image satisfies y² = x³ + 3 and y is not 0 |
| HashToCurve.ImageMeans | rpbs/types.go:154-204 | a point is the image if and only if its abscissa is the first, counting cyclically from the digest itself, with a point of nonzero ordinate above it, y² = x³ + 3, and y is (−x³ − 3)^((p+1)/4) reduced |
| HashToCurve.BytesToPoint | rpbs/types.go:154-204 | for every 32-byte digest both searches end, neither error is returned, and the point is above the cyclically first admissible abscissa at or after the digest, with ordinate (−n)^((p+1)/4) |
| HashToCurve.ModulusInUse | rpbs/types.go:30 | the modulus of the curve is odd and 3 modulo 4 |
| Signature.NegateBigInt | rpbs/types.go:206-210 | the canonical representative of the additive inverse modulo the order, for any integer |
| Signature.MultNegate | rpbs/types.go:226-228 | multiplying by that representative is negating the multiple |
| Signature.VerifySignature | rpbs/types.go:212-259 | hashes the given string, maps its digest to the one image point (the discarded error never occurs), and, reusing two points and one hash state, accepts exactly when c1·c2 equals the digest of the eight points written out, modulo the order |
| Signature.CompleteWithKey | rpbs/types.go:212-259 | whoever knows x with y1 = xG and z1 = x·m1 can make an accepted signature for any choice of nonce, c2 ≠ 0 and s2 |
| Signature.CompleteWithInfo | rpbs/types.go:212-259 | so can whoever knows w with y2 = wG, for any choice of nonce, c1 ≠ 0 and s1 |
| Signature.TwoAnswersSolve | rpbs/types.go:225-241 | two answers to one commitment under challenges different modulo the order give the key's logarithm from the scalars alone |
| Signature.TwoAnswersAgree | rpbs/types.go:225-241 | two answers under equal challenges are equal modulo the order |
| Signature.OneTranscriptOneSignature | rpbs/types.go:225-243 | two signatures with one transcript have equal scalars modulo the order, or their scalars give x or w |
| Signature.ForkRevealsSecret | rpbs/types.go:225-258 | one transcript accepted under two digests that differ on it gives x with y1 = xG and z1 = x·m1, or w with y2 = wG |
| InfoString.InfoLowersToCanonical | rpbs/rpbs.go:12 | whatever case the wallet was printed in, the signed string is the four lower-case labels each followed by its own field |
| InfoString.InfoInjective | rpbs/rpbs.go:11-13 | equal signed strings come from the same wallet, slot, amount (any integer or missing) and transaction bytes |
| InfoString.AmountIsDecimal | rpbs/rpbs.go:12 | the amount is printed in base ten with its sign and reads back as itself; a missing one prints as <nil> |
| Text.DecimalShape | rpbs/rpbs.go:12 | the characters of a printed number are its decimal digits, most significant first, with no leading zero |
| Text.HexShape | rpbs/rpbs.go:12 | each byte prints as its high and then its low half, in lower case |
| BidBoard.KeyInjective | bids/types.go:13-19 | equal keys have the same kind and slot, for all five prefixes, one of which begins three others |
| BidBoard.KeyIsNotDelivered | bids/types.go:21-24 | no per-slot key is the key of the delivered slots |
| BidBoard.OtherKeysStand | bids/bids.go:52-94 | a write at one key leaves the rows of every other kind and slot as they were |
| BidBoard.KeyspaceSpelledOut | bids/types.go:13-24 | which Redis key and field holds each entry of a slot, and in what form |
| BidBoard.BidBoard.constructor | redisPackage/redis.go:25 | a flushed keyspace stands for empty tables |
| BidBoard.BidBoard.SaveBuilderBid | bids/bids.go:34-95 | on the flat store, writes exactly the bid, time and value of the builder in the rows of the slot, and never meets a key of the wrong type |
| BidBoard.BidBoard.SavePayloadUtils | bids/bids.go:97-115 | writes exactly the payload entry of the block hash |
| BidBoard.BidBoard.GetPayloadUtils | bids/bids.go:117-127 | reads the payload entry of the block hash, or reports that there is none |
| BidBoard.BidBoard.AuctionBid | bids/bids.go:129-181 | in whatever order the map is visited, settles on a builder with a positive value none exceeds, stores and returns its bid; with no positive value or a missing bid, stores nothing |
| BidBoard.BidBoard.WinningBid | bids/bids.go:183-195 | reads the highest record of the slot, or reports that there is none |
| BidBoard.BidBoard.GetPayloadDelivered | bids/bids.go:197-201 | reads the mark of the slot from the shared hash |
| BidBoard.BidBoard.PutPayloadDelivered | bids/bids.go:203-211 | sets the mark of the slot and changes nothing else |
| BidBoard.BidBoard.BuilderBlockLast | bids/bids.go:213-236 | reads back the time printed by the last save, or reports no bid or a number too large for int64 |
| Submission.PastSlotIsClosed | relay/relay.go:531-538 | the slot gate refuses a slot behind the head, except slot 0 at head 2^64 − 1, in both directions |
| Relay.Relay.HandleSubmitBlock | relay/relay.go:476-689 | refuses for the first failing gate and then changes nothing; otherwise performs the four writes and one auction, answers with its result, and keeps the serial invariant |
| Admission.GatesInOrder | relay/relay.go:476-621 | each refusal is given exactly when its own gate is the first to fail, in plain conditions on slot, head, hashes, verdicts and stored times, and changes nothing; past all gates the auction answers |
| Admission.NewestIsPlain | relay/relay.go:611-621 | in serial runs the last gate refuses exactly when a later bid of the builder is stored |
| Admission.AdmittedStores | relay/relay.go:640-665 | past the gates, header, endpoint and builder are stored under the block hash, and slot, proposer, value, header and time under the builder, with nothing else changed |
| Admission.AdmittedAuction | bids/bids.go:140-171 | an acceptance names a builder with a positive value that none exceeds and makes its stored bid the highest record; otherwise the highest record stays |
| Relay.Relay.HandleProposerHeader | relay/relay.go:691-759 | serves the highest record, always of the requested slot and with its payload stored, and complains exactly when the proposer differs |
| Relay.Relay.HandleProposerPayload | relay/relay.go:820-895 | marks the slot delivered for the builder of the stored payload exactly when the payload is known and the builder answers, and changes nothing else |
| Relay.Relay.NewHead | beaconinterface/multiclientSub.go:31-40 | the slot the gates compare with is the largest of all head slots received so far, 0 before the first |
| Relay.HandledKeepsInv | relay/relay.go:611-674 | any outcome of any submission keeps: equal builders in the three tables, values equal to their bids, stored payloads, sound highest key |
| Relay.AcceptedAnswersTheBest | relay/relay.go:669-687 | a submission past the gates is accepted exactly when some latest bid is positive, and then the answer and the highest key are the best latest bid |
| Relay.HighestIsBestExactlyWhenSomeBidIsPositive | bids/bids.go:140-171 | in serial runs the highest key holds a maximal latest bid if and only if some latest bid is positive |
| Relay.TimesNeverDecrease | relay/relay.go:611-621 | a submission never lowers the stored receive time of any builder |
| Relay.TimesNeverDecreaseInRuns | relay/relay.go:611-621 | nor does any serial run of submissions, heads and deliveries |
| Relay.SerialRunKeepsInv | relay/relay.go:476-689 | every serial run of submissions, heads and deliveries keeps the serial invariant |
| Relay.ClosedSlotsAreFinal | relay/relay.go:518-538 | once delivered or behind the head, no row of a slot changes for the rest of any serial run; slot 0 behind the head included, unless the run receives head 2^64 − 1 |
| Protocol.StepKeepsNested | bids/bids.go:53-94 | every single operation of every handler keeps the nesting of the tables and what each handler relies on |
| Protocol.TablesStayNested | bids/bids.go:53-94 | in every interleaving values ⊆ times ⊆ bids, every record carries its slot, and every bid and the highest record have a payload entry |
| Protocol.TopBidIsNeverMissing | bids/bids.go:161-165 | in every interleaving the auction's second read finds the bid of the builder it chose |
| Protocol.ServedHeaderIsDeliverable | relay/relay.go:704-820 | a header the winning-bid read can return has a payload entry under its block hash then and ever after |
| Provenance.PayloadsHaveASource | relay/relay.go:640-656 | in every interleaving the payload under a block hash carries the builder, endpoint and header of one admitted submission for that slot and hash |
| Provenance.RowsHaveASource | bids/bids.go:52-94 | the stored bid, time and value of a builder each come from one admitted submission of that builder for that slot |
| Provenance.HighestHasASource | bids/bids.go:157-171 | the record a proposer is shown carries the slot, proposer, value and header of one admitted submission |
| Provenance.DeliveriesHaveASource | relay/relay.go:842-895 | a delivered slot is marked with the builder of one admitted submission for it |
| Provenance.AdmittedIsInTimeAndSane | relay/relay.go:531-560 | in every interleaving an admitted submission is for a slot no later than the one after the head, and its header carries the hashes it was submitted under |
| BidTables.TopExists | bids/bids.go:140-158 | once some value is positive there is a builder the auction may settle on |
| Protocol.ActiveHandlerMoves | relay/relay.go:518-674 | no interleaving blocks a handler: one in flight can always move, and every move brings it nearer to its end |
| SoloRun.AloneIsHandled | relay/relay.go:518-674 | a handler interleaved with nobody ends, refused exactly when a gate refuses, and has done to the tables what the serial specification allows |
| SoloRun.AloneEnds | relay/relay.go:518-674 | and it always can, because a maximum to settle on exists whenever one is needed |
| FlatStore.KeyspaceFollowsTheTables | bids/bids.go:52-168 | every interleaving, run command by command on the flushed flat keyspace, is never refused for a key type and always stands for the protocol's tables |
| Quiescence.StepKeepsTracked | bids/bids.go:143-171 | one operation keeps: each bid agrees with its value or is between its two writes, and what an auction chose is still the maximum, and what it read still the bid, among the values not rewritten since its read |
| Quiescence.QuietSlotIsDecided | bids/bids.go:34-181 | with one submission per builder in flight, at rest bids and values agree for every builder; if the builder chosen by the last auction to write has stored no value since that auction's read, the highest key holds that builder's standing bid, and it is maximal if and only if no standing value written after the read exceeds it |
| Quiescence.LastReadDecides | bids/bids.go:140-171 | in particular it is maximal when that auction read after every value write |
| Contest.SomeSubmissionWins | bids/bids.go:129-171 | every run, with or without two bids of a builder in flight, that admits exactly one submission per builder ends with the key filled exactly when some is positive, then with the record of a positive one, and with a best one if the positive ones are equal |
| StaleAuction.AnyPositiveCanWin | bids/bids.go:129-171 | however low, any positive submission of such a set is left in the highest key by some run that ends at rest with all of them stored |
| StaleAuction.SafeExactlyWhenPositivesAgree | bids/bids.go:129-171 | every such run ends with a best submission in the key if and only if some submission is positive and the positive ones have equal values |
| StaleAuction.StaleAuctionWins | bids/bids.go:129-171 | for any two positive bids of different builders, in any slot, some such run ends at rest with the lower one in the highest key and the higher one in the value table |
| ReceiveTimes.ExclusiveTimesNeverDecrease | relay/relay.go:611-665 | between any two moments of any run with one submission per builder and slot in flight, no stored receive time goes back |
| ReceiveTimes.TimesDecreaseWithoutExclusion | relay/relay.go:611-665 | for any two submissions of one builder some run with both in flight stores the later time and then the earlier one |
| Closing.LateWriterWasInside | relay/relay.go:518-538 | in every interleaving, whatever changes a closed slot is a handler that was already past the gate that closed it; slot 0 behind the head included, unless the run receives head 2^64 − 1 |
| Closing.ClosedEmptySlotIsFinal | relay/relay.go:649-669 | a slot that closes with no handler inside is final |
| Closing.DeliveredSlotIsStillWritten | relay/relay.go:518-538 | for any two submissions of different builders some run delivers the slot for the first while the second is between the two gates, after which the second passes and writes |
| HeadTracker.TrackIsFirstMaximum | beaconinterface/multiclientSub.go:24-40 | the tracked slot is the maximum of 0 and the slots received, the tracked head the first event with it, the epoch its 32nd part |
| HeadTracker.TrackIgnoresOrderAndRepeats | beaconinterface/multiclientSub.go:16-34 | slot and epoch depend only on which events arrived |
| HeadTracker.StaleMeansOld | beaconinterface/multiclientSub.go:70-78 | below 2^63 the signed comparison evicts exactly the keys more than 64 slots behind |
| HeadTracker.EvictionKeepsActiveEpochs | beaconinterface/multiclientSub.go:64-79 | no slot of the current or next epoch is evicted if and only if the head is outside the stretch around 2^63 |
| HeadTracker.EdgeIsFirstOrLast | beaconinterface/multiclientSub.go:52-60 | the refresh test fires exactly on the first and last slot of an epoch, and its subtraction never wraps on a processed head |
| HeadTracker.Evict | beaconinterface/multiclientSub.go:70-79 | deleting while ranging removes exactly the stale keys, below 2^63 exactly those more than 64 slots behind, and keeps the rest unchanged, for both maps |
| HeadTracker.BeaconData.ProcessHead | beaconinterface/multiclientSub.go:24-80 | an old event changes nothing and spawns nothing; a new one moves head, slot and epoch, asks for the randao of the slot before, its own and the next, refreshes exactly at the first and last slot of an epoch, and cleans both maps |
| HeadTracker.BeaconData.SubscribeToHeadEvents | beaconinterface/multiclientSub.go:20-83 | the event loop tracks the first maximum of whatever it is fed |
| HeadTracker.BeaconData.GetSlotProposerMap | beaconinterface/multiFetch.go:76-105 | the answer is that of client i whenever i answers and no client before it does, and a failure exactly when none answers |
| HeadTracker.BeaconData.Merge | beaconinterface/multiclient.go:323-327 | copies fetched duties over the map under each duty's own slot and touches nothing else |
| HeadTracker.BeaconData.GetSlotProposer | beaconinterface/multiclient.go:331-365 | a cached slot is answered as cached; otherwise the first reply is merged and decides the answer |
| HeadCaches.StepKeepsInv | beaconinterface/multiclientSub.go:20-83 | one critical section of any task keeps head, agreement, answers and window |
| HeadCaches.CachesAgreeWithAssignment | beaconinterface/multiclient.go:254-365 | in every interleaving of heads, cleaning, refreshes and lookups, cached duties are the assigned ones and every answered lookup answers as the assignment itself |
| HeadCaches.FillAnswers | beaconinterface/multiclient.go:331-365 | a lookup that a client answered is told what the assignment says and caches the whole epoch of its slot, nothing else |
| HeadCaches.FailuresWereGivenUp | beaconinterface/multiclient.go:331-365 | a lookup fails only when no client answered it |
| HeadCaches.ReceiveSpawns | beaconinterface/multiclientSub.go:41-60 | a new head asks for the randao of three neighbouring slots and, at the edge of an epoch, for one refresh per client; an old one for nothing |
| HeadCaches.RefreshAsks | beaconinterface/multiclient.go:267-277 | a refresh asks for the epoch of the head and the next, and no other |
| HeadCaches.EpochIsWritten | beaconinterface/multiclient.go:301-329 | a fetched epoch is written whole, and nothing else |
| HeadCaches.WrittenDutiesStay | beaconinterface/multiclient.go:323-328 | a cached duty stays, with its assigned value, until the next cleaning |
| HeadCaches.RandaoWasAsked | beaconinterface/multiclient.go:198-214 | the randao map holds only slots next to a received head |
| HeadCaches.OnlyLateKeysAreStale | beaconinterface/multiclient.go:198-214 | a key outside the window was written by a task after the last cleaning |
| HeadCaches.CleaningLeavesNoOldKey | beaconinterface/multiclientSub.go:64-80 | right after a cleaning no randao or proposer key is more than 64 slots behind a head below 2^63 |
| HeadCaches.CleaningKeepsActiveDuties | beaconinterface/multiclientSub.go:64-74 | a cached duty of the current or next epoch survives the cleaning |
| HeadCaches.CleaningKeepsWindow | beaconinterface/multiclientSub.go:70-79 | below 2^63 a cleaning keeps exactly the keys at most 64 slots behind the head, of whatever epoch |
| StatusMirror.StatusIsCurrentExactlyAfterEvenFailures | utils/relayUtils.go:184-193 | the looked-up status is the latest one if and only if the writes failed since the last success are even in number |
| StatusMirror.OneFailureIsStale | utils/relayUtils.go:188-192 | a single failed write leaves an active builder looked up as inactive |
| StatusMirror.DeltaRefinesOverwrite | utils/relayUtils.go:174-199 | without failures, writing only differences reads like writing every mention, from the flushed store |
| StatusMirror.MirroredAppends | utils/relayUtils.go:111-116 | polls one after the other are one long poll |
| StatusMirror.MirrorState | utils/relayUtils.go:184-193 | the remembered status is the last mentioned one, and the looked-up status is that one or its opposite by the parity of the writes failed since the last success |
| StatusMirror.OneMoreMention | utils/relayUtils.go:184-193 | after any history a repeated status does nothing, so a failed write is not retried; a new one is remembered, and stored if Redis takes it |
| StatusMirror.BuilderUtils.GetBuilders | utils/relayUtils.go:174-199 | one poll applies its entries in order, remembering a status even when its write fails, so that memory and store always mirror the history of all polls; a failed query changes nothing |
| StatusMirror.BuilderUtils.BuilderStatus | utils/relayUtils.go:241-252 | the answer is the status last mentioned in any poll so far exactly when the writes failed since the last success are even in number |
| ValidatorIndex.ChunkSlice | utils/types.go:93-111 | the chunks concatenate to the input, none is empty, and all but the last are full |
| ValidatorIndex.ChunksAreInPlace | utils/types.go:93-111 | entry j of chunk i is entry i · size + j of the input |
| ValidatorIndex.ValidatorIndexes.GetValidatorIndex | beaconinterface/multiFetch.go:261-293 | merges exactly the first reply, or nothing when no client answers |
| ValidatorIndex.MergedAppends | beaconinterface/multiFetch.go:285-290 | merging chunk after chunk is merging their concatenation |
| ValidatorIndex.LastReportStands | beaconinterface/multiFetch.go:285-290 | whatever the nodes report, the last report about a key or an index is the one that stands |
| ValidatorIndex.UnreportedStays | beaconinterface/multiFetch.go:285-290 | keys and indexes not reported keep their entries |
| ValidatorIndex.MapsStayInverse | beaconinterface/multiFetch.go:285-290 | if the nodes agree on one index per validator, the two maps are inverse and hold exactly the validators merged |
| ValidatorIndex.MergeOrderIsIrrelevant | utils/relayUtils.go:166-172 | the order in which chunks finish does not show in the maps |

## Left out

- HashToCurve.BytesToPoint: primality of the modulus is a hypothesis; the modulus is any odd prime that is 3 modulo 4, and `ModulusInUse` checks the residue of the one in use. gnark is not part of this model; its field operations are arithmetic modulo p and its Legendre symbol is Euler's power.
- HashToCurve.ComplexExponent: a negative exponent, on which the loop would never end, is excluded; no caller passes one.
- Signature.VerifySignature: the curve group is any commutative group killed by a prime order with any reading of affine points as its elements, and the two hashes are any functions, of the string and of the eight points; point encoding, decoding and SHA-256 are not modelled.
- Quiescence.QuietSlotIsDecided: nothing is said about the highest key when the chosen builder has itself stored a value since that read.
- Protocol.TablesStayNested: Redis expiry and Redis failures are outside the step system; all runs happen within one time-to-live.
- Relay.TimesNeverDecrease: the clock is not before 1970, so that printed times read back as int64.
- HeadCaches.CachesAgreeWithAssignment: the clients are assumed to agree; a reorganisation that changes duties is not modelled.
- InfoString.InfoInjective: the wallet type is defined outside this repository; its printer may use either case of hex digits.
- Requests, JSON, logging, MQTT, Discord and Postgres: plumbing; stored records are kept as values.
- Builder status, block time, RPBS and ECDSA verdicts of a submission are inputs of its handler; ECDSA recovery and BLS are not part of this model.
- Bounty bids: the route is commented out (`relay/relay.go:118`).
- Payload attributes, fork versions, client ranking and sync status: no claim beyond single assignments, or dependent on wall-clock measurements.
- Randao values: only which slots have one is tracked.
- Proposer and reporter statuses: the same delta update as for builders.
