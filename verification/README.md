# Verified model of the playerbots LLM bridge

The repository joins a game server (the C++ worldserver module) to a language model through a Python
sidecar. Two things have to hold whatever the model, the network, or the clock does: the money bound
must never be passed, and the two independent implementations must agree on every byte they exchange. This project
models the code that is responsible for that and proves it, in Dafny, over all inputs, all runs, and all
interleavings.

`dafny verify dfyconfig.toml` checks everything.

## What is modelled

**The budget ledger.** `Budget` is the pure admission policy in integer nano-USD with exact real prices and
every rounding written out. `Ledger` gives the stored state (reservation rows, two totals a day, the circuit
breaker) and what one committed transaction does to it. `BudgetLedger` is the same as an object whose methods
change rows and totals statement by statement, each proved to leave exactly the state `Ledger` describes.
`LedgerSafety` holds the invariant, `LedgerTheorems` what follows from it over every run. `Sidecars` runs any
number of processes interleaved one SQL statement at a time, with rollbacks and crashes between any two, and
proves that what they commit is a run of atomic transactions. `Pipeline` takes one request through count,
reserve, generate, and settle or release, cut off at any awaited step while other callers use the ledger, first as a
function of the ledger it meets and then as the service object proved to compute it.

The row keeps the lane a reservation was made for. The table stores only `unspecified` in that column, and no
transaction ever reads the field back, so it serves as the evidence the reserve theorems need.

**The wire codec.** `FlatJson` states the grammar of the strict flat-object reader as documents that render to
bytes and denote maps, and proves that the reader accepts exactly that grammar; `FlatJsonParser` is the reader
with its moving position. `JsonWriter` has the escaping writers of both sides. `SocialFrame` and `OtherFrames`
are the four exact-count response readers, `SocialEncoder` and `SocialReply` the sidecar's side of the social
frame from the model's proposal to the bytes, `FixedUsd` the spelling of costs, `Utf8Text` the prefix cutter,
`SocialContext` the nested, size-bounded request context with its recursive shedding, `ContextLoss` exactly when that
leaves nothing, and `NestedJson` and `SidecarContext` the sidecar's structured reader at the other end of it.
`ContextCrossing`, `ReplyOutcome`, `AcceptedFrames`, and `Utf8CodePoints` say what all of this means in terms neither
side's code uses: the privacy of a memory from the worldserver's record to a citation, when a reply is spoken and as
what, what no payload can make a reader accept, and UTF-8 from its code points.

**The transport.** `SocialTransport` keeps outstanding exchanges with deadlines and one regeneration each, as state
functions that the class in `SocialTransportClass` is proved against, with a log of what happened to every token.
`SocialTransportTheorems` are its promises over every run, and `SocialDrain` is exactly what one drain makes of the
answers to a token. `BoundedQueue` is the queue it runs over. `EndToEnd` joins all of it: a validated reply, encoded,
arriving in time, is delivered exactly as intended if and only if it survives the wire.

**Smaller pieces.** `Speaker` (weighted choice of who talks), `Ambient` (the rolling-hour limiter), `AmbientSidecars`
(the limiter under sidecars interleaved statement by statement), and `Conversation` (the bounded history).

## What was found

- The sidecar's encoder allows twenty-four evidence and twelve memory citations, and the frame's own counts
  allow as many, but the reader's first test on the number of keys (src/PlayerbotLLM.cpp:1626-1628) refuses every frame
  with more than twenty-three citations in all. `SocialEncoder.EncodedFrameIsAcceptedIff` gives the exact condition,
  `SocialReplyRules.TwentyFourCitationsAreLost` a legal reply that is paid for and then dropped.
- Token counts and the latency have no upper bound on the sidecar's side
  (sidecar/src/playerbots_llm/protocol.py:653-671) and the model name is not checked for control bytes there. A count
  past 64 bits loses the whole frame; both are part of the same exact condition, `SocialEncoder.Survives`.
- The ambient limiter purges by the caller's clock. `Ambient.SteppingBackAdmitsTooMany` is a run with three admissions
  in an hour at rate two. `Ambient.DecidesLikeTheRecordIff` is the exact condition: the limiter decides like the full
  record at all rates if and only if no call comes back into an hour that an earlier call purged from. A clock that
  steps back by less is harmless.
- The encoder can shed everything a context had to say. It does so if and only if there are only memories and the
  first one offered is alone too long (`SocialContextLoss.NothingIsSentIff`). That takes a name of thousands of
  bytes, which is outside what the worldserver sends: its names are m1, m2, and so on
  (sidecar/src/playerbots_llm/protocol.py:677-686), and with names up to 64 bytes nothing is lost
  (`SocialContextLoss.BoundedNamesLoseNothing`).
- The encoder sends contexts the sidecar's reader does not take and then treats as opaque text: a memory whose name is
  not of the minted shape or comes twice, a memory text that is empty once cut, or a fictional identity together with
  authorized roleplay, which the encoder does not exclude. `SidecarContextReader.SentContextIsTakenIff` is the exact
  condition, `SidecarContextReader.RoleplayIdentityIsNotTaken` such a context.
- The comment above the shedding says the persona "in practice never" goes. It never goes at all:
  persona, identity, and authority fit the frame even fully escaped (`SocialContextEncoder.PersonaIsNeverShed`).
- A settled cost exceeds its reservation exactly when the breaker fires on a report that is not negative, except for a
  reservation that already sits at the largest storable amount (`Budget.StoredOverrunIffBreach`). There every overrun
  is stored without being visible as one (`Budget.OverrunAtTheLimitIsInvisible`).

## Model

| member | source | states |
|---|---|---|
| Budget.ReserveFloorProtects | sidecar/src/playerbots_llm/budget.py:182-191 | the protected share is rounded up, so background work never gets a part of it, and it stays within the ceiling |
| Budget.AdmissionByTheNumbers | sidecar/src/playerbots_llm/budget.py:249-291 | an open breaker, an unknown price, and an impossible request are each refused as such; otherwise the ceiling refuses exactly what exceeds it, the reserve exactly background work reaching into the exact protected share, and everything else is admitted |
| Budget.QuantizeIsLeast | sidecar/src/playerbots_llm/budget.py:316-333 | the quantized amount is the least whole number of microdollars not below the amount |
| Budget.StorableIsStorable | sidecar/src/playerbots_llm/budget.py:336-355 | every stored cost, even of a negative or enormous report, is a whole number of microdollars that fits its column |
| Budget.StoredOverrunIffBreach | sidecar/src/playerbots_llm/budget.py:336-371 | a stored cost exceeds its quantized reservation if and only if the breaker fires, the report is not negative, and the reservation is below the storage limit |
| Budget.OverrunAtTheLimitIsInvisible | sidecar/src/playerbots_llm/budget.py:336-371 | every report past the storage limit, against a reservation at that limit, fires the breaker and is stored as no overrun |
| Budget.StoredOverrunIsBreach | sidecar/src/playerbots_llm/budget.py:336-371 | no stored overrun ever goes without a breach |
| Budget.TokenCostIsTheRoundedPrice | sidecar/src/playerbots_llm/budget.py:194-230 | input at the input price and output at the output price, a thousand nano-USD a token and dollar a million, rounded up to the next whole nano-USD; only negative counts and missing or negative prices have no cost |
| Budget.TokenCostMonotone | sidecar/src/playerbots_llm/budget.py:194-230 | more tokens never cost less, and whether a price is usable does not depend on the counts |
| Budget.HonestUsageNeverBreaches | sidecar/src/playerbots_llm/budget.py:194-246 | usage within the counted input and the output limit, priced exactly, never exceeds the quantized reservation |
| Ledger.DayIsTwentyFourHours | sidecar/src/playerbots_llm/schema.py:383-394 | a moment belongs to the day whose twenty-four hours contain it |
| BudgetLedgerClass.BudgetLedger.LockDay | sidecar/src/playerbots_llm/ledger.py:174-212 | creates a missing day row and reads the day's total and the breaker, changing nothing else |
| BudgetLedgerClass.BudgetLedger.OutstandingNano | sidecar/src/playerbots_llm/ledger.py:214-245 | expires exactly the day's overdue reservations and returns the sum of the remaining maxima |
| BudgetLedgerClass.BudgetLedger.RewriteReserved | sidecar/src/playerbots_llm/ledger.py:155-172 | rewrites the day's reserved figure to the sum over its reserved rows |
| BudgetLedgerClass.BudgetLedger.Reserve | sidecar/src/playerbots_llm/ledger.py:247-336 | leaves exactly the state and answer of the atomic reservation and keeps the invariant |
| BudgetLedgerClass.BudgetLedger.Settle | sidecar/src/playerbots_llm/ledger.py:338-418 | leaves exactly the state and receipt of the atomic settlement and keeps the invariant |
| BudgetLedgerClass.BudgetLedger.Release | sidecar/src/playerbots_llm/ledger.py:420-445 | leaves exactly the state and answer of the atomic release and keeps the invariant |
| BudgetLedgerClass.BudgetLedger.ReadSnapshot | sidecar/src/playerbots_llm/ledger.py:447-475 | returns what the ledger owes, counting only reservations that have not expired |
| LedgerSafety.ReserveKeeps | sidecar/src/playerbots_llm/ledger.py:247-336 | every reservation, granted or refused, keeps the money bound, both totals, and the reserve on every day |
| LedgerSafety.SettleKeeps | sidecar/src/playerbots_llm/ledger.py:338-418 | every settlement, breach and saturation included, keeps the same invariant |
| LedgerSafety.ReleaseKeeps | sidecar/src/playerbots_llm/ledger.py:420-445 | every release keeps the same invariant |
| LedgerSafety.RunKeeps | sidecar/src/playerbots_llm/ledger.py:105-475 | every state a run of committed transactions reaches satisfies the invariant |
| LedgerTheorems.MoneyBound | sidecar/src/playerbots_llm/ledger.py:247-445 | per day, charged plus reserved money stays within the ceiling plus what completions overran, and within the ceiling when none did |
| LedgerTheorems.TotalsAreExact | sidecar/src/playerbots_llm/ledger.py:155-172 | a day's spent total is the clamped sum of its completed rows and its reserved figure the sum over its reserved rows |
| LedgerTheorems.BackgroundStaysOutOfReserve | sidecar/src/playerbots_llm/budget.py:249-291 | on a day without overruns, background charges and reservations never enter the protected reserve |
| LedgerTheorems.HumanReserveIsGuaranteed | sidecar/src/playerbots_llm/ledger.py:279-336 | with the breaker closed, a human request within the reserve less what humans hold is always granted |
| LedgerTheorems.GrantedIffItFits | sidecar/src/playerbots_llm/ledger.py:247-336 | in every reachable state with the breaker closed, for either lane: granted if and only if it fits under the ceiling on top of what the unexpired rows hold, and background work also only if the exact protected share stays untouched; each refusal names its reason exactly |
| LedgerTheorems.RunEvolves | sidecar/src/playerbots_llm/ledger.py:338-445 | rows keep their identity and leave reserved at most once, and the breaker never closes |
| LedgerTheorems.LeftReservedIsFinal | sidecar/src/playerbots_llm/ledger.py:338-445 | settling or releasing a row that already left reserved changes nothing and reports so |
| LedgerTheorems.SettleChargesOnlyItsRow | sidecar/src/playerbots_llm/ledger.py:338-418 | a settlement charges exactly when it completes its own row, by that row's stored cost, on that day only |
| LedgerTheorems.ReserveHoldsItsMaximum | sidecar/src/playerbots_llm/ledger.py:247-336 | a grant is one new reserved row for ten minutes, and what the ledger owes grows by exactly its maximum and stays within the ceiling; a refusal only sweeps the day, and owes no more |
| LedgerTheorems.ReleaseFreesItsMaximum | sidecar/src/playerbots_llm/ledger.py:420-445 | a release frees exactly its row's maximum, once, and touches nothing else |
| LedgerTheorems.SaturationImpliesOverrun | sidecar/src/playerbots_llm/ledger.py:351-381 | the day's total can only saturate on a day where some completion overran its reservation |
| LedgerTheorems.BreakerSaysWhy | sidecar/src/playerbots_llm/ledger.py:338-418 | a settlement trips the breaker exactly when the report is negative or above the reservation or the day cannot hold it, and records which, the amount, and the time |
| LedgerTheorems.HonestSettlementIsOrdinary | sidecar/src/playerbots_llm/ledger.py:338-418 | honest usage settles without breach, and on an overrun-free day without saturation and without touching the breaker |
| LedgerTheorems.SnapshotAgreesWithReserve | sidecar/src/playerbots_llm/ledger.py:447-475 | the unlocked snapshot is the state a reservation at that instant decides on, so admission on it predicts the reservation |
| Sidecars.StatementKeepsInStep | sidecar/src/playerbots_llm/ledger.py:155-445 | what a lock holder has read and written so far stays consistent with the atomic transaction it is running |
| Sidecars.CommitRefines | sidecar/src/playerbots_llm/schema.py:354-380 | a commit has the effect and the answer of the atomic transaction on the state it commits to |
| Sidecars.InterleavingRefinesAtomicLedger | sidecar/src/playerbots_llm/schema.py:354-380 | any interleaving of any number of sidecars, with rollbacks and crashes anywhere, commits a run of atomic transactions |
| Sidecars.LockExcludes | sidecar/src/playerbots_llm/schema.py:354-380 | two transactions are never both past the named lock |
| Sidecars.ConcurrentBudgetSafety | sidecar/src/playerbots_llm/ledger.py:174-445 | the money bound and the reserve hold in every database interleaved sidecars can produce |
| Pipeline.NothingReservedLeavesNothing | sidecar/src/playerbots_llm/app.py:764-986 | a request that ends with nothing reserved leaves no row of its own, no charge, and no breaker change: at most the expired rows of the day were swept |
| Pipeline.OwnRowIsLeft | sidecar/src/playerbots_llm/app.py:764-986 | a granted reservation is one new row at this request's price, kind, lane, and model, which every other caller can at most let expire before it is accounted |
| Pipeline.ProviderIsCalledIff | sidecar/src/playerbots_llm/app.py:764-986 | the provider is called if and only if generation is on for this request, its counted input is within the limit, and its reservation was granted in time; a request that may not ask leaves the ledger as it is |
| Pipeline.ReservationCoversTheWorstCase | sidecar/src/playerbots_llm/app.py:287-325 | background exactly for ambient, career, memory, biography, and background social requests, of the kind of work it pays for, and covering the counted input with the whole output limit at the configured prices |
| Pipeline.CostCoversEveryToken | sidecar/src/playerbots_llm/app.py:324-352 | a completion costs its input, cache writes, and cache reads at the input price and its output at the output price, rounded up, and is not priced when any count is negative |
| Pipeline.AccountingSettlesWhatIsOwed | sidecar/src/playerbots_llm/app.py:988-1035 | a row still held is released after a proven refusal, completed at the cost of any priceable reported usage, valid output or not, and left alone otherwise; an expired row and every other row stay as they are |
| Pipeline.EveryReservationIsAccounted | sidecar/src/playerbots_llm/app.py:764-1035 | on every path the request's own row ends reserved, expired, released with the proof of a refusal, or completed at a cost the provider reported, and exactly as owed when it was still held |
| Pipeline.AnsweredIff | sidecar/src/playerbots_llm/app.py:533-986 | each answer comes back exactly when it is due: a social one if and only if an answer was generated, priced, and settled on a held row within its reservation and the storable total, and its metadata fits; another one without those last conditions; a retry of a social request exactly for refused output whose accounting is done or impossible |
| Pipeline.SpokenIsPaidFor | sidecar/src/playerbots_llm/app.py:533-986 | whatever is spoken has its own row completed at the reported cost, and a social answer names that cost, which is within the reservation |
| Pipeline.OrphanStopsCounting | sidecar/src/playerbots_llm/ledger.py:214-245 | a reservation nobody came back for counts for nothing in any snapshot ten minutes later, and the next reservation of its day expires it |
| Pipeline.SidecarService.Spend | sidecar/src/playerbots_llm/app.py:764-986 | leaves exactly the ledger and outcome those theorems are about, with one provider call behind its own admitted reservation or none |
| Pipeline.SidecarService.AccountForFailure | sidecar/src/playerbots_llm/app.py:988-1035 | leaves exactly the ledger that AccountingSettlesWhatIsOwed is about |
| Pipeline.SidecarService.Process | sidecar/src/playerbots_llm/app.py:533-986 | an answer is spoken exactly when one was generated, priced, and settled on a held row; with nothing reserved nothing is left, and otherwise the own row is accounted for |
| Pipeline.ForeignTransaction | sidecar/src/playerbots_llm/ledger.py:214-445 | another caller's transaction can at most expire a reservation that is not its own |
| FixedUsd.FixedMicrodollarUsdIsValid | src/PlayerbotLLM.cpp:412-430 | accepts exactly one to six digits without a redundant zero, a point, and six digits |
| FixedUsd.RenderedIsAccepted | sidecar/src/playerbots_llm/budget.py:306-313 | every storable amount is spelled in an accepted way |
| FixedUsd.RenderedMeansItsAmount | sidecar/src/playerbots_llm/budget.py:306-313 | the number before the point is the dollars and the number after it the microdollars of the amount |
| FixedUsd.RenderingIsInjective | sidecar/src/playerbots_llm/budget.py:306-313 | no two storable amounts share a spelling |
| FixedUsd.AcceptedIsRendered | src/PlayerbotLLM.cpp:412-430 | every accepted spelling is the rendering of a storable amount |
| FixedUsd.StoredCostIsRenderable | sidecar/src/playerbots_llm/budget.py:306-355 | whatever a settlement stores can be spelled on the wire |
| FlatJson.ParseAcceptsExactlyTheGrammar | src/PlayerbotLLM.cpp:163-401 | a byte string is accepted with a map if and only if some document of the grammar renders to it and denotes that map |
| FlatJson.GrammarIsUnambiguous | src/PlayerbotLLM.cpp:163-401 | documents that look the same mean the same |
| FlatJsonParserClass.FlatJsonParser.Parse | src/PlayerbotLLM.cpp:171-209 | the moving-position reader returns exactly what the grammar's reading function returns, duplicate keys and trailing bytes refused |
| FlatJsonParserClass.FlatJsonParser.ParseUnsigned | src/PlayerbotLLM.cpp:265-294 | reads one to twenty digits within 64 bits and refuses overflow and what would be a float |
| FlatJsonParserClass.FlatJsonParser.ParseString | src/PlayerbotLLM.cpp:296-356 | reads a quoted string with its escapes exactly as the grammar says |
| Utf8CodePoints.EscapeIsItsCodePoint | src/PlayerbotLLM.cpp:334-399 | a four-digit escape in either case reads as the UTF-8 of its code point, and a surrogate is refused |
| Utf8CodePoints.ShortEscapes | src/PlayerbotLLM.cpp:322-344 | exactly eight short escapes are read, each as the character it stands for |
| JsonWriter.AppendEscapedJsonString | src/PlayerbotLLM.cpp:41-82 | appends the quoted escaping of any byte string |
| JsonWriter.EscapingDenotes | src/PlayerbotLLM.cpp:41-82 | the escaping of any byte string is in the grammar and denotes that byte string |
| JsonWriter.EscapedLength | src/PlayerbotLLM.cpp:41-82 | escaping never shrinks a text and never makes it more than six times as long |
| JsonWriter.WrittenObjectIsReadBack | src/PlayerbotLLM.cpp:84-102 | an object of distinct keys with 64-bit numbers or arbitrary bytes is read back as exactly that map |
| JsonWriter.OverflowingObjectIsRefused | src/PlayerbotLLM.cpp:265-284 | with distinct keys, an object is read back if and only if every number fits 64 bits |
| SocialFrame.ParseSocialResponsePayload | src/PlayerbotLLM.cpp:1615-1855 | the reader with its citation loops computes the frame function that the round trips are about |
| SocialFrame.AcceptedFrameHasExactlyItsKeys | src/PlayerbotLLM.cpp:1727-1789 | an accepted answer carries exactly the protocol's keys and the slots its counts declare |
| SocialFrame.AcceptedRegenerationHasExactlyItsKeys | src/PlayerbotLLM.cpp:1626-1706 | an accepted regeneration carries exactly the nine control keys |
| AcceptedFrames.OneReaderOneAddress | src/PlayerbotLLM.cpp:1615-1680 | whatever the payload, at most one of the four readers takes it, for at most one bridge token, request, and bot |
| AcceptedFrames.FrameForAnotherIsRefused | src/PlayerbotLLM.cpp:1615-1680 | a frame encoded for one bridge token, request, and bot is refused when read for any other |
| AcceptedFrames.DeliverableIsOneAnswer | src/PlayerbotLLM.cpp:1708-1855 | whatever the payload, what is delivered is one known gesture without words, one clean line of at most 240 bytes, or silence, with at most twenty-three distinct well-formed citations |
| SocialEncoder.FillPayload | sidecar/src/playerbots_llm/protocol.py:1155-1286 | the dictionary filled slot by slot is the frame the round trip is about |
| SocialEncoder.EncodedFrameIsAcceptedIff | sidecar/src/playerbots_llm/protocol.py:1155-1286 | a coherent encoded frame is read back unchanged if and only if it cites at most twenty-three things, its counts fit 64 bits, and its model name is one clean line; otherwise it is refused whole |
| AcceptedFrames.SurvivesIff | src/PlayerbotLLM.cpp:1626-1726 | that condition in the wire's numbers: twenty-three citations, counts of 64 bits, and a clean model name of 1 to 64 bytes |
| SocialEncoder.RegenerationIsAccepted | sidecar/src/playerbots_llm/protocol.py:1155-1286 | a request to try again always reads back as one |
| SocialReplyRules.CitedMemoryIsWithinChannel | sidecar/src/playerbots_llm/protocol.py:783-795 | a validated reply never cites a memory more private than the channel it is spoken on |
| SocialReplyRules.ValidatedIsCoherent | sidecar/src/playerbots_llm/generation.py:165-196 | a reply that passes both validators meets the encoder's demands and the reader's coherence rules |
| ReplyOutcome.CoherentExactlyWhen | sidecar/src/playerbots_llm/generation.py:165-196 | a reply is coherent exactly when its text, its gesture, its declared kind, and its contribution all say the same one thing, and only words cite or have a subject |
| ReplyOutcome.SpokenExactlyWhen | sidecar/src/playerbots_llm/generation.py:855-1029 | what a coherent reply is spoken as, and exactly when: each gesture by its number in say and party, a line when allowed and borne out by evidence of its subject that the channel may hear, silence always |
| SocialReplyRules.ValidatedReplyCrossesTheWireIff | sidecar/src/playerbots_llm/generation.py:855-1029 | a validated reply is encoded, and read back with the same text, gesture, contribution, subject, and citations if and only if it survives |
| SocialReplyRules.TwentyFourCitationsAreLost | src/PlayerbotLLM.cpp:1626-1628 | a concrete legal reply citing twenty-four evidence entries is encoded and then refused |
| OtherFrames.ParseMemoryResponsePayload | src/PlayerbotLLM.cpp:2716-2835 | the reader with its slot loop computes the memory frame function |
| OtherFrames.AcceptedMemoryFrameHasExactlyItsKeys | src/PlayerbotLLM.cpp:2774-2796 | an accepted memory frame carries exactly the seven protocol keys and four keys a memory |
| AcceptedFrames.AcceptedMemoriesAreBounded | src/PlayerbotLLM.cpp:2716-2835 | an accepted memory frame has at most four memories, each a bounded paraphrase about somebody with a known scope and an event of the right shape |
| AcceptedFrames.ProperMemoriesArrive | sidecar/src/playerbots_llm/protocol.py:1527-1601 | and up to four memories within those bounds always arrive |
| OtherFrames.MemoryFrameRoundTrip | sidecar/src/playerbots_llm/protocol.py:1527-1601 | every memory reply the sidecar encodes is read back with the same thread and the same memories |
| OtherFrames.ParseBiographyResponsePayload | src/PlayerbotLLM.cpp:1538-1613 | the reader with its field loop computes the biography frame function |
| OtherFrames.AcceptedBiographyHasExactlyItsKeys | src/PlayerbotLLM.cpp:1546-1552 | an accepted biography carries exactly five protocol keys and the eight generated ones |
| AcceptedFrames.AcceptedBiographyIsEightLines | src/PlayerbotLLM.cpp:1538-1613 | an accepted biography is eight clean lines, none empty, none over 240 bytes |
| AcceptedFrames.ProperBiographyArrives | sidecar/src/playerbots_llm/protocol.py:1289-1345 | and eight such lines always arrive in order |
| OtherFrames.BiographyRoundTrip | sidecar/src/playerbots_llm/protocol.py:1289-1345 | eight bounded clean lines are read back line for line |
| OtherFrames.ParseRoleplayAssessmentResponsePayload | src/PlayerbotLLM.cpp:2971-3056 | the reader with its slot loop computes the assessment frame function |
| OtherFrames.AcceptedAssessmentHasExactlyItsKeys | src/PlayerbotLLM.cpp:3022-3049 | an accepted assessment carries exactly six protocol keys and one key a capability |
| AcceptedFrames.AcceptedAssessmentIsShaped | src/PlayerbotLLM.cpp:2971-3056 | an accepted assessment names capabilities only for roleplay, distinct and known, classic content only alone, and exactly the unknown one when uncertain |
| AcceptedFrames.ProperAssessmentArrives | sidecar/src/playerbots_llm/protocol.py:1021-1049 | and every assessment of that shape always arrives |
| OtherFrames.AssessmentRoundTrip | sidecar/src/playerbots_llm/protocol.py:1021-1049 | every completion within the shape contract is read back as the kind and capabilities it reported |
| Utf8Text.Utf8PrefixLength | src/PlayerbotLLM.cpp:1107-1142 | returns the longest prefix within the limit that is a concatenation of whole UTF-8 sequences |
| Utf8Text.CutIsIdempotent | src/PlayerbotLLM.cpp:1107-1142 | cutting what was already cut keeps all of it |
| Utf8Text.CutLosesLessThanFour | src/PlayerbotLLM.cpp:1107-1142 | on whole text the cut keeps everything or stops within three bytes of the limit |
| Utf8Text.CutOfValidIsValid | src/PlayerbotLLM.cpp:1107-1142 | a cut of strictly valid text is strictly valid |
| Utf8CodePoints.EncodedIsOneSequence | src/PlayerbotLLM.cpp:1107-1142 | the UTF-8 of every code point is one valid sequence of the width the cutter takes it for, and one character |
| Utf8CodePoints.ValidIffEncoded | src/PlayerbotLLM.cpp:403-410 | strict validity holds of exactly the concatenations of encoded code points |
| SocialContextEncoder.EncodeFictionalIdentity | src/PlayerbotLLM.cpp:1250-1292 | facts are written exactly when they are asked for, in range, and on the roster; the empty text is returned exactly when nothing was asked and nothing given, and every other identity is refused |
| SocialContextEncoder.AppendJsonStringList | src/PlayerbotLLM.cpp:1225-1249 | appends nothing for an empty list, else the first twelve entries, each cut to its bound |
| SocialContextEncoder.AppendMemories | src/PlayerbotLLM.cpp:1350-1391 | appends the first twelve named and non-empty memories, and takes the key back when there is none |
| ContextCrossing.FirstTwelveAreOffered | src/PlayerbotLLM.cpp:1350-1391 | offered are the first twelve of the memories that have a name and a text |
| ContextCrossing.FirstTwelveAreKept | src/PlayerbotLLM.cpp:1225-1249 | a list is cut to its first twelve entries |
| ContextCrossing.LongestBeginningIsKept | src/PlayerbotLLM.cpp:1107-1142 | an entry is cut to the longest beginning of whole characters within 512 bytes |
| SocialContextEncoder.Assemble | src/PlayerbotLLM.cpp:1310-1411 | the flag-driven assembly writes exactly the non-empty blocks joined by commas, then the authority |
| SocialContextEncoder.EncodeSocialContext | src/PlayerbotLLM.cpp:1295-1443 | the recursive encoder terminates and computes the shedding function |
| SocialContextEncoder.ShedStep | src/PlayerbotLLM.cpp:1418-1440 | the program's shedding is the closed form: memories, thread, nearby, starter, relationship, from the back |
| SocialContextEncoder.EncodesTheFirstThatFits | src/PlayerbotLLM.cpp:1295-1443 | the result is the one-pass encoding of the first context on the shedding order that fits, every longer one being oversize |
| ContextCrossing.SentWithoutTheLeastUseful | src/PlayerbotLLM.cpp:1412-1443 | what is sent is a beginning of each kind, with nothing of a kind gone while a less useful kind is left, and persona, facts, mode, and expansion always whole |
| SocialContextEncoder.BareContextFits | src/PlayerbotLLM.cpp:1425-1437 | persona, identity, and authority always fit, so the last-resort empty return is unreachable |
| SocialContextEncoder.ResultIsBoundedAndAuthorized | src/PlayerbotLLM.cpp:1399-1443 | the result is at most 4096 bytes and, when not empty, ends with its mode and expansion |
| SocialContextEncoder.PersonaIsNeverShed | src/PlayerbotLLM.cpp:1310-1328 | a non-empty persona opens every result, whole up to its own bound |
| SocialContextLoss.NothingIsSentIff | src/PlayerbotLLM.cpp:1295-1443 | nothing is sent if and only if there is nothing to say, or there are only memories and the first one offered is alone too long for the frame |
| SocialContextLoss.BoundedNamesLoseNothing | sidecar/src/playerbots_llm/protocol.py:674-688 | with memory names of the length the worldserver mints, nothing is sent if and only if there is nothing to say |
| SocialContextLoss.OversizedMemoryNameLosesTheContext | src/PlayerbotLLM.cpp:1370-1380 | a lone memory with a name past the frame bound is something to say and empties the result |
| NestedJson.WrittenDocumentIsReadBack | sidecar/src/playerbots_llm/protocol.py:798-815 | every nested document without repeated keys is read back whole from its writing |
| SidecarContextReader.PassIsTheDocument | src/PlayerbotLLM.cpp:1295-1411 | what the assembly writes with raw keys and joined blocks is the writing of one nested document |
| SidecarContextReader.DocumentIsRead | sidecar/src/playerbots_llm/protocol.py:691-820 | the structured reader takes that document as exactly the meant context if it is usable, and not at all otherwise |
| SidecarContextReader.SentContextIsTakenIff | sidecar/src/playerbots_llm/protocol.py:691-820 | what is sent of a context is the first that fits, and the sidecar takes it as exactly that if and only if its memory names are shaped like m1 and m2 and distinct, its memory texts not empty, and no fictional identity goes with authorized roleplay |
| SidecarContextReader.RoleplayIdentityIsNotTaken | sidecar/src/playerbots_llm/protocol.py:728-746 | a concrete context with an age to tell under authorized roleplay is encoded and sent, and then not taken |
| ContextCrossing.BoundedContextArrivesWhole | sidecar/src/playerbots_llm/protocol.py:691-820 | a context within both sides' bounds is sent and read as exactly its own texts, lists, facts, mode, expansion, and memories |
| ContextCrossing.ReadContextIsProper | sidecar/src/playerbots_llm/protocol.py:691-820 | whatever text is sent, a context read from it is within every bound, with minted distinct memory names, facts only as asked for, and none under authorized roleplay |
| ContextCrossing.ReadMemoriesKeepTheirPrivacy | src/PlayerbotLLM.cpp:1196-1217 | every memory the sidecar reads out of a sent context is one of that context's, ranked exactly as private as the worldserver holds it, an unknown scope as a whisper |
| ContextCrossing.CitedMemoryWasNeverMorePrivate | sidecar/src/playerbots_llm/generation.py:855-1029 | a validated reply never cites a memory that the worldserver holds to be more private than the channel it is spoken on |
| SocialTransportClass.Transport.SubmitAt | src/PlayerbotLLM.cpp:743-775 | accepts exactly a usable request with a new token, fewer than 512 outstanding, that the bridge takes, and changes nothing otherwise |
| SocialTransportClass.Transport.ClassifyPayload | src/PlayerbotLLM.cpp:705-736 | an answer is delivered exactly when it parses as one for its own token and bot, asked again exactly when it parses as a regeneration and none was asked before, and otherwise abandoned with the exchange as it was |
| SocialTransportClass.Transport.Resolve | src/PlayerbotLLM.cpp:782-917 | computes the answer-then-sweep state and reports exactly the new events in order |
| SocialTransportClass.Transport.SweepOverdue | src/PlayerbotLLM.cpp:904-914 | erasing while walking the map ends exactly the overdue exchanges, in key order |
| SocialTransportClass.Transport.Clear | src/PlayerbotLLM.h:1140-1140 | forgets every outstanding exchange without reporting any |
| SocialTransportTheorems.NextKeeps | src/PlayerbotLLM.cpp:743-917 | every Submit, Resolve, and Clear keeps the bound and ties every exchange to its token's history |
| SocialTransportTheorems.TokenLife | src/PlayerbotLLM.cpp:705-917 | over every run a token is outstanding with at most one retry of the same request, each enqueue with exactly the configured time ahead of it or thirty seconds if less, or ended exactly once, a delivery being in time and what the payload says |
| SocialTransportTheorems.OneEnding | src/PlayerbotLLM.cpp:782-917 | over every run two endings recorded for one token are the same ending |
| SocialTransportTheorems.CompletionsAreBounded | src/PlayerbotLLM.cpp:782-917 | a token is reported at most one Regenerate and then at most one Deliver or Abandon, and enqueued at most twice |
| SocialTransportTheorems.ToldIsReported | src/PlayerbotLLM.cpp:782-917 | what a token's history tells is what the returned completions say about it |
| SocialDrain.ReportsCarryTheResults | src/PlayerbotLLM.cpp:837-893 | exactly the delivered results are reported, and nothing but a delivery carries one |
| SocialTransportTheorems.AcceptedTokensAreAccountedFor | src/PlayerbotLLM.cpp:743-917 | accepted tokens are the disjoint union of outstanding, reported, and cleared ones |
| SocialTransportTheorems.NothingOverdueSurvives | src/PlayerbotLLM.cpp:895-914 | after a drain every deadline is later than now, nothing new is outstanding, and the bounds hold |
| SocialTransportTheorems.OnlyRetriesMoveDeadlines | src/PlayerbotLLM.cpp:813-835 | whatever a drain leaves outstanding is untouched or was retried once, with the same request and a whole deadline from this drain |
| SocialTransportTheorems.InTimeAnswerIsDelivered | src/PlayerbotLLM.cpp:782-893 | an answer that arrived by its deadline is delivered however late the drain runs |
| SocialTransportTheorems.UnreadableAnswerIsAbandoned | src/PlayerbotLLM.cpp:827-835 | an answer that does not parse ends its exchange |
| SocialDrain.FirstAnswerEndsIt | src/PlayerbotLLM.cpp:782-893 | the first answer delivers when it is in time, parses, and names one of the four channels, and otherwise abandons, late answers, bad channels, and spent or refused retries included; nothing after it is looked at |
| SocialDrain.RegenerationIsCarriedOutIff | src/PlayerbotLLM.cpp:813-835 | an answer in time that asks for a retry sends the same request again with the whole time to answer and one retry spent; it abandons if and only if the retry was spent or the bridge refuses |
| SocialDrain.UnansweredWaitsUntilItsDeadline | src/PlayerbotLLM.cpp:895-914 | a token nobody answered is untouched before its deadline and abandoned from then on |
| BoundedQueueClass.BoundedQueue.TryPush | src/PlayerbotLLM.h:707-718 | full or stopped refuses and changes nothing; otherwise the item is appended |
| BoundedQueueClass.BoundedQueue.TryPop | src/PlayerbotLLM.h:720-729 | hands out items in the order they were pushed, none lost or repeated, none once stopped |
| EndToEnd.ValidatedReplyIsDeliveredIff | src/PlayerbotLLM.cpp:782-893 | in every reachable transport state, the frame of a validated reply arriving in time is delivered as intended if and only if it survives the wire, and abandoned if and only if it does not |
| EndToEnd.AskedAgainIsRetriedIff | src/PlayerbotLLM.cpp:782-893 | in every reachable transport state, the sidecar's request to try again sends the same request once more if and only if it was handed over only once and the bridge takes it |
| EndToEnd.AnOrdinaryReplyIsDelivered | src/PlayerbotLLM.cpp:743-893 | a concrete run in which every premise of that theorem holds: submitted, answered in time, delivered long after the deadline |
| Speaker.SelectSpeaker | src/PlayerbotLLM.cpp:1953-1981 | on the list as it came, the speaker is the one whose interval of cumulative weight holds the remainder of the event's seed stirred with the identities in ascending order, whatever order the sort leaves |
| Speaker.OneSpeaks | src/PlayerbotLLM.cpp:1953-1981 | no two identities meet that condition |
| Speaker.SeedForgetsNothing | src/PlayerbotLLM.cpp:1956-1963 | under a mixer that loses nothing, equal seeds come from the same event and the same identities in order |
| Speaker.ChancesAreWeights | src/PlayerbotLLM.cpp:1965-1980 | of all events the weights can tell apart, exactly as many make an identity speak as the sum of its weights |
| Speaker.WeightOfOne | src/PlayerbotLLM.cpp:1965-1967 | a candidate listed once weighs one plus its sociability |
| Speaker.SelectionIsOrderBlind | src/PlayerbotLLM.cpp:1920-1981 | sorted permutations select the same speaker, repeated identities included |
| Speaker.ChoiceIsByInterval | src/PlayerbotLLM.cpp:1941-1950 | the fallback is never reached, and a guid is chosen if and only if the roll falls in its interval of cumulative weight |
| Speaker.RollsMatchWeights | src/PlayerbotLLM.cpp:1936-1950 | each guid is chosen by exactly as many rolls as the sum of its weights |
| Ambient.AttemptTable.TryBeginAmbient | sidecar/src/playerbots_llm/store.py:230-275 | purges, decides on the remaining count, and records an admission |
| Ambient.TableForgetsNothingThatMatters | sidecar/src/playerbots_llm/store.py:251-262 | for any cutoff no earlier call was purged past, in whatever order the clock ran, the purged table counts like the full record |
| Ambient.EveryHourWithinRate | sidecar/src/playerbots_llm/store.py:230-275 | while no call comes back into an hour already purged from, no sixty minutes, wherever they end, hold more admissions than the highest rate asked for, and never more than six |
| Ambient.RefusedOnlyWhenFull | sidecar/src/playerbots_llm/store.py:230-275 | when nothing was purged past its hour, a call is admitted if and only if its rate is one to six and all admissions since an hour before it leave room, which is the last hour itself unless an earlier call was later |
| Ambient.DecidesLikeTheRecordIff | sidecar/src/playerbots_llm/store.py:230-275 | for given call times, the limiter decides like the full record at all rates if and only if no call comes back into an hour already purged from |
| Ambient.SteppingBackAdmitsTooMany | sidecar/src/playerbots_llm/store.py:241-262 | a run with a clock that steps back admits three in an hour at rate two |
| AmbientSidecars.StatementKeepsInStep | sidecar/src/playerbots_llm/store.py:241-275 | what a lock holder has purged and counted so far stays consistent with the single call it is making |
| AmbientSidecars.InterleavingRefinesLimiter | sidecar/src/playerbots_llm/schema.py:354-380 | any interleaving of sidecars asking for a slot, with rollbacks and crashes anywhere, grants the slots of one run of the limiter in commit order |
| AmbientSidecars.ConcurrentHoursWithinRate | sidecar/src/playerbots_llm/store.py:230-275 | interleaved sidecars never oversubscribe an hour while no commit comes back into an hour already purged from |
| Conversation.TurnTable.AppendTurn | sidecar/src/playerbots_llm/store.py:141-177 | appends and trims so that every bot's rows stay the last twelve of everything it said |
| Conversation.TurnTable.RecentTurns | sidecar/src/playerbots_llm/store.py:179-188 | returns the bot's last twelve turns, oldest first |
| Conversation.TrimKeepsTheLast | sidecar/src/playerbots_llm/store.py:168-173 | trimming one bot keeps exactly its last turns and every turn of every other bot |

## Left out

- Sockets, threads, reconnects, sleeps, and timeouts of the bridge worker; the transport sees an arbitrary answer to every enqueue. `WaitPop`'s waiting and the mutex of the queue are not part of the model.
- MySQL, connection pooling, SQL text, DDL, and column rounding: row collections, one exclusive lock held to commit or rollback, and reads after it that see all committed state stand in for them. Row ids are indices, the minted public ids are not modelled, and the release of the lock is the commit.
- The provider adapter and its SDK are an oracle that counts, answers, refuses, or fails; prompts, golden files, and evaluation scripts are not modelled.
- The regular-expression content filters, the trimming of text, and the literal-claim checks are opaque verdicts; of trimming only that it keeps valid UTF-8 valid is assumed.
- Closing the breaker is an operator's act outside the program; within the program nothing closes it.
- Prices and the reserve ratio are exact reals; the decimal context's precision is not modelled.
- Times are unbounded integers, of microseconds in the ledger and the limiter. The 64-bit range of the steady clock and of deadlines is not modelled.
- Database failures inside one service request are modelled as the request ending before or after its commit; the deadline and a crash are the same event.
- Pipeline.SidecarService.Process: the five request pipelines are one function of the request, and one method, because they differ only in lane, kind, limits, and what is written after settlement; decoding the request and building its prompt are not part of it.
- SocialReplyRules.ValidatedReplyCrossesTheWireIff: assumes the message the model returned encodes as valid UTF-8, which the sidecar's own encoding step would otherwise reject, and ids of ASCII digits, where the sidecar's digit test also admits other Unicode digits.
- OtherFrames.BiographyRoundTrip: the sidecar also refuses a field of white space only; the round trip holds for those fields too, so the refusal is not modelled.
- OtherFrames.MemoryFrameRoundTrip: the event identity shape is the one the sidecar checks; the worldserver's own validity test for it is not in this repository and is taken to be the same.
- OtherFrames.AssessmentRoundTrip: the shape contract of the worldserver is not in this repository and is taken to be the sidecar's, which states that the two are identical.
- SocialContextEncoder.BareContextFits: the list of approved countries is a parameter whose names are at most 32 bytes, the bound the sidecar puts on the same field.
- SidecarContextReader.DocumentIsRead: the reader is modelled on documents without white space between tokens, on the number spellings the worldserver writes, and counts the characters of a text by its UTF-8 leading bytes; the decoding of the request around it is not modelled. Roster names have at least one character.
- SocialTransportClass.Transport.SubmitAt: whether a request is usable is a parameter, because the grounding envelope and public-id rules it consults are not in this repository. An exchange is a value in the map, as the program holds it.
- SocialTransportTheorems.TokenLife: assumes the coordinator never submits a token it already used, as the program's own comment demands; the class itself does not.
- Speaker.SelectSpeaker: the seed mixer is an arbitrary function, the event's own words are folded into the start value, and weights are summed without 64-bit wrap, which would need 2^56 candidates. Both selectors are this method with a different start value.
- The memory validator of the sidecar, the chat and career frames, the roleplay assessment deadlines, the ambient cadence, cooldown trackers, and the pending-purge loop are not modelled: their statements would be easy next to those above.
- Game hooks, player lookups, configuration parsing, environment tokens, constant-time comparison, and logging.
