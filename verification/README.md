# A verified model of batch2go's evidence path

This project models, in Dafny, the path on which batch2go turns requests into evidence and
evidence into a verdict, and proves what that path promises.

* **Cohort formation at the proxy.** `Formation` is the registry as a state machine, one
  function per critical section; `Service` is the same registry as shared objects updated in
  place, each method proved to be the function of the same name. `Proxy` adds the callers, the
  builder, the backend's arbitrary answers, the records and a non-decreasing clock; `ProxySteps`
  and `ProxyRuns` prove one invariant over every schedule and read it out as theorems about runs;
  `Arrivals` says what each single step does to whom.
* **The envelope.** `Envelope` has the builder and the separate validator, with `ByteAccounting`
  for the counter that counts itself.
* **The event stream.** `Wire`, `Codec`, `RequestId` and `RoundTrip` are the Protocol Buffers
  wire format as this schema uses it, encoder against decoder, and `Proto` holds both to a table
  written from the message's declaration; `Encoder` writes it into a buffer in place; `Stream`,
  `BankPool` and `Writer` carry the frames through the double-buffered writer to the sink, for any
  interleaving; `Drops` says exactly which records are dropped and `Widest` exactly when the banks
  are large enough.
* **The validator.** `Joins` and `PathMeaning` are the offline join; `Checks`, `Aggregation`,
  `Executions`, `Coverage`, `Conservation`, `FanOut` and `Chains` are the checks, each a method
  whose contract says exactly which defects it names; `Verdict` composes them. `Findings`,
  `Residuals`, `OnArrival` and `Releases` say on the records and timestamps themselves, without the
  checks' own terms, when each defect is named. `Soundness` says what a pass means, `Limits` exactly
  when it means the rest of what it seems to, and `Unjudged` what no verdict depends on.
* **Around it.** `Results` and `Executor` have the adapter's and the executor's mapping of results
  to members and the account of the fan-out, read back by the check, and `Owners` that proxy and
  adapter write the stages the schema gives them; `Archive` has the row conversion and `Runner` the
  two ways a run is judged. `Fixtures` and `Bundles` build synthetic evidence and split it into
  records; `BuiltRuns` and `BuiltVerdict` recover the delays of a run built for F10 and decide its
  verdict, `AloneRuns` and `AloneVerdict` those of D0, F00 and F00's sequential control, over
  `CleanPaths`; and `ExpiredCohorts` shows that proxy and validator diagnose one failure alike.

Identifiers are subset types of the source's widths; conversions, wrap-around of sequence
numbers, envelope ids and cohort ids, and the 32-bit truncation of sizes are written out.
Presence masks are words on the record and sets of stages on a joined path. A formation's done
channel is a count of its closes; a timer is armed, fired or finished; a lock's critical section
is one atomic step. Clock readings, the backend's answers, the order in which goroutines run and
the envelope's size but for its own counter are parameters.

Four things the documentation claims are not so in the code, and are stated as the code has
them, each with the exact condition under which it holds. The ownership check's comment says
every stage was written by its owner; it looks at the last writer of each stage only
(`Limits.OwnershipExact`). One envelope per cohort is counted over the members that name one
(`Limits.SharedEnvelopeExact`). The size check on a new writer is there so that a record fits its
bank; it leaves out the run header, which can take that room. A new writer keeps its order in every
run if and only if every frame fits an empty bank (`Widest.EveryRunStreams`), which the modelled
constructor demands. Archive and streams must agree; the
archive is refused for reasons the streams are never asked about (`Runner.VerdictsAgreeExactly`).

## Model

| member | source | states |
|---|---|---|
| Identity.UidInvertible | internal/identity/identity.go:172-191 | the uid packing is undone by its inverse if and only if the ordinal is at most MaxOrdinal |
| Identity.UidIsPacked | internal/identity/identity.go:172-191 | up to MaxOrdinal the uid is the cohort above twenty bits of ordinal |
| Schema.MaskWithHas | internal/events/schema.go:121-127 | adding a stage to a mask adds exactly that stage, whatever the word held before |
| Schema.MaskIsBits | internal/events/schema.go:121-127 | a mask holds stage s exactly when its bit s-1 is set, counted by division |
| Schema.Record.SetStage | internal/events/schema.go:375-380 | timestamp and presence bit move together: one stage becomes present, one timestamp changes |
| Wire.UvarintReadsBack | internal/events/codec.go:241-247 | every 64-bit varint reads back as itself from the front of any stream, consuming exactly its own bytes |
| Wire.ReadFieldEncoded | internal/events/codec.go:288-334 | an encoded field of either wire type, followed by anything, is read back as that field and nothing of what follows |
| RequestId.ParseInvertsRender | internal/events/codec.go:189-235 | the textual request id of every pair of 32-bit numbers parses back to that pair |
| RequestId.ParseRequestId | internal/events/codec.go:209-235 | the parser accepts a text if and only if it is "c", a decimal numeral, "/o" and a decimal numeral, each of a 32-bit number, and returns the numbers they denote, leading zeros or not |
| Codec.RecordFitsBodyBound | internal/events/codec.go:69-84 | the encoding of any record is at most maxBodySize, 1055, bytes |
| Codec.DecodeField | internal/events/codec.go:288-334 | one turn of the decoding loop equals one step of the decoding function, errors included |
| Codec.Decode | internal/events/codec.go:286-334 | the decoding loop returns what the recursive decoding of the whole body returns |
| RoundTrip.ApplyHeader | internal/events/codec.go:395-418 | the header's fields, applied in order, set the schema version and every part of the header but the writer id, and nothing of the record |
| RoundTrip.ApplyRecord | internal/events/codec.go:336-393 | a record's fields, applied in order to an empty record, set the writer id and exactly the record's canonical form |
| RoundTrip.OtherFieldSkipped | internal/events/codec.go:288-418 | a field the decoder has no place for is skipped wherever it stands: the body decodes as without it |
| RoundTrip.DecodeEncoded | internal/events/codec.go:288-334 | decoding the encoding of any field list applies exactly those fields, in order |
| RoundTrip.DecodeBodyOf | internal/events/codec.go:116-186 | every body decodes without error to its own header and the record's canonical form |
| RoundTrip.RoundTripExactly | internal/events/codec.go:288-334 | a record comes back unchanged if and only if it is normalised: absent timestamps zero, no evidence without its flag, no uids without a count |
| Proto.EncodesTheTable | api/events/v1/event.proto:52-131 | for every header and record the encoder's fields are exactly those the declaration's numbers call for, each number once, rising, with the named field's value if and only if it is set |
| Proto.ReadsNumber | internal/events/codec.go:336-393 | a number field read back sets the declared field of its number, in its width, and no other |
| Proto.ReadsText | internal/events/codec.go:395-418 | a text field read back sets the declared header field of its number and nothing else |
| Proto.ReadsUids | internal/events/codec.go:395-418 | field 43 sets the members and their count, and nothing else |
| Proto.VarintSpells | internal/events/codec.go:241-247 | a varint is seven bits a byte, lowest first, the top bit set on all bytes but the last, and spells its value |
| Proto.FieldSpells | internal/events/codec.go:249-284 | a field is the varint of its number and wire type, and then its value, or its length and its bytes |
| Proto.FrameSpells | internal/events/writer.go:150-159 | a frame is the body behind the varint of its length |
| Proto.VarintReadExactly | internal/events/codec.go:288-334 | a varint is read exactly where one stands: well ended, within ten bytes and 64 bits, shortest or not |
| Proto.FieldReadExactly | internal/events/codec.go:288-334 | a field is read exactly where one stands, of wire type 0 or 2 with all its bytes there; any other input is an error |
| Encoder.AppendRecord | internal/events/codec.go:129-186 | appending in place puts exactly the record's fields, those of Proto.EncodesTheTable, behind what the buffer held, within maxBodySize bytes, and touches nothing else |
| Encoder.AppendTimestamps | internal/events/codec.go:129-186 | the stage loop appends exactly the present stages' timestamps, negative ones included |
| Encoder.AppendMembership | internal/events/codec.go:129-186 | the packed uid list is appended with its own length in front, summed before anything is written |
| Stream.ReadStreamOf | internal/events/writer.go:240-263 | reading the frames of any records returns all of them, canonically, with no error |
| Stream.ReadAll | internal/events/writer.go:240-263 | the reader's loop returns the records before the first fault, and that fault |
| Stream.CutStream | internal/events/writer.go:240-263 | of a stream cut at any byte the reader returns exactly the records whose frames are whole, and an error exactly where the cut falls inside a frame |
| Writer.Bank.AppendFrame | internal/events/writer.go:150-159 | wherever the frame itself fits, reserve, encode, prefix and slide or copy turn the bank into its old contents, the body's length and the body, inside the buffer |
| Writer.Bank.SealFrame | internal/events/writer.go:150-159 | writing the true length and sliding the body back leaves every earlier frame as it was |
| Widest.WidestRecord | internal/events/codec.go:129-186 | no record of any writer encodes longer than one particular record, every field of which is present and as long as its type allows |
| Widest.BankLargeEnough | internal/events/writer.go:96-133 | every record's frame fits an empty bank if and only if the header and that widest record do, and none outgrows its reservation if and only if they do behind the longest prefix |
| Widest.RotatedBankOverflows | internal/events/writer.go:140-167 | room is not checked again after rotating: a record too long for an empty bank is accepted, and what the bank is to hold outgrows it |
| Widest.EveryRunStreams | internal/events/writer.go:96-238 | for every header, bank size and number of banks the size check admits: every run of a new writer keeps its banks within their size and the accepted frames on their way in lock order if and only if every record's frame fits an empty bank |
| Widest.FirstCallOverflows | internal/events/writer.go:96-167 | with a header as long as a bank the first call of a new writer, numbered 1, is accepted and breaks that order, whatever it records |
| Widest.LongHeaderNeverFits | internal/events/writer.go:96-133 | there are such headers at every bank size: with one as long as the bank no record fits |
| BankPool.FrameFits | internal/events/writer.go:131-133 | the frame of any record fits in the room the writer demands before encoding |
| BankPool.EnterKeeps | internal/events/writer.go:143-167 | where every frame fits an empty bank, Record's critical section keeps the pool invariant and logs the record exactly when it is accepted |
| BankPool.RotateKeeps | internal/events/writer.go:169-181 | rotation keeps the bytes on their way to the sink in order and leaves an empty active bank |
| BankPool.ReceiveKeeps | internal/events/writer.go:185-198 | the flusher's receive keeps the pool invariant |
| BankPool.DrainKeeps | internal/events/writer.go:185-198 | writing the received bank keeps every byte in order |
| BankPool.ReturnKeeps | internal/events/writer.go:185-198 | handing the empty bank back keeps the invariant and finds room in the channel |
| BankPool.CloseKeeps | internal/events/writer.go:217-238 | queueing the active bank at Close keeps the invariant and finds room in the channel |
| BankPool.SendsNeverBlock | internal/events/writer.go:172-198 | no channel send can block in any state the invariant allows |
| BankPool.DrainedIsComplete | internal/events/writer.go:217-238 | once the closed writer's flusher is done, the sink holds exactly the accepted frames in lock order |
| BankPool.AllCounted | internal/events/writer.go:140-167 | once no call is between its steps, the two counters add up to every call made |
| Writer.Writer.Enter | internal/events/writer.go:140-167 | on real banks, Record is refused if and only if the writer was closed, or the active bank had fewer than 10 bytes, the header and maxBodySize left and no bank was free; it rotates only for want of room; and otherwise it does what the pool step says |
| Writer.Writer.RotateLocked | internal/events/writer.go:169-181 | rotation on real banks succeeds exactly when a bank is free |
| Drops.DropsExactly | internal/events/writer.go:140-167 | a call at the lock is dropped exactly where the writer is closed, or the active bank short of room and every other bank full or being written, and otherwise logged |
| Drops.DroppedForCause | internal/events/writer.go:140-198 | in every run every dropped record met that condition at its own lock |
| Drops.CauseDrops | internal/events/writer.go:140-198 | and in every run a call is dropped or logged as that condition says, when its turn at the lock comes |
| Drops.NothingDropped | internal/events/writer.go:140-198 | a new writer that is not closed drops nothing while the frames accepted leave its first bank room for one more |
| Writer.Writer.FlushRest | internal/events/writer.go:185-198 | draining after Close ends, with the sink equal to the frames of the accepted records |
| Writer.Run | internal/events/writer.go:137-238 | for any schedule of calls, flusher steps and Close: the sink is exactly the frames of the records Record accepted, in lock order, reads back as them, written plus dropped is every call, and the calls are the schedule's, numbered as they came; the pool of banks runs as its state machine does |
| ByteAccounting.AccountBytes | internal/envelope/envelope.go:300-318 | the self-referential counter's loop ends, with counters that partition the size that includes the counter, at the least such value |
| ByteAccounting.AuxiliaryIsLeast | internal/envelope/envelope.go:300-318 | no smaller counter partitions the marshaled size |
| ByteAccounting.CounterIsField17 | api/envelope/v1/envelope.proto:78-83 | the counter's size is that of field 17 encoded, and nothing at zero |
| Envelope.Builder.Independent | internal/envelope/envelope.go:66-83 | an independent envelope carries its one member, no seal, partitioned bytes, and is accepted exactly when its payload is not empty |
| Envelope.Builder.Aggregate | internal/envelope/envelope.go:85-124 | the sorting, checking and counting method builds exactly the declared envelope, or refuses for the declared fault |
| Envelope.ArrivalOrderIrrelevant | internal/envelope/envelope.go:85-142 | two arrival orders of the same members and payloads are both sent or both refused for the same fault, and what is sent is the same envelope |
| Envelope.AggregateIsAccepted | internal/envelope/envelope.go:85-239 | what the builder of an aggregating cell sends is accepted by the separate validator if and only if no payload is empty |
| Envelope.AggregatedExactly | internal/envelope/envelope.go:85-124 | the builder sends if and only if there is a payload for each of the ordinals 0 to B-1, once each and of one cohort, and names a wrong count, an empty or a mixed cohort as such; what it sends has the run's header, the seal, every member at its ordinal's place with its own payload, and counters that partition the size |
| Envelope.AcceptedExactly | internal/envelope/envelope.go:168-298 | an envelope is accepted if and only if schema, run, cell, clock domain, B and factor flags are the run's, every member is of its cohort, under its own uid and with a payload, and it is either a sealed cohort, ordinal i at place i of B, or one request without a seal |
| Envelope.FaultIsTrue | internal/envelope/envelope.go:168-298 | whatever fault an envelope is refused for is one it has |
| Envelope.Validate | internal/envelope/envelope.go:168-239 | the tests, in order, find exactly the first fault |
| Envelope.CheckCohortMembership | internal/envelope/envelope.go:241-286 | one count per ordinal names exactly the repeated, missing and stray ordinals; none means an exact cohort |
| Envelope.CheckCanonicalOrder | internal/envelope/envelope.go:288-298 | comparing neighbours decides the order of every pair |
| Envelope.CanonicalOrder | internal/envelope/envelope.go:126-142 | the order is a permutation of the members with ordinals ascending |
| Envelope.ExactSortedIsIdentity | internal/envelope/envelope.go:241-298 | sorted ordinals that form an exact cohort are 0, 1, and so on below B |
| Formation.ListAbsent | internal/proxy/cohort.go:202-213 | the loop lists exactly the ordinals not admitted, increasing |
| Formation.JoinKeeps | internal/proxy/cohort.go:109-182 | join keeps the registry invariant: five shapes of formation, one per cohort id ever |
| Formation.ExpireKeeps | internal/proxy/cohort.go:184-200 | expire keeps the invariant, whoever won the race to the lock |
| Formation.CloseKeeps | internal/proxy/cohort.go:215-237 | Close keeps the invariant and leaves no cohort forming |
| Formation.CompleteIsSent | internal/proxy/cohort.go:92-107 | the builder never refuses a complete cohort: ordinal o is sent at place o with what slot o held |
| Formation.OneCloserAlways | internal/proxy/cohort.go:42-81 | done is closed at most once, and while it is open a deadline or the one sealing member remains to close it |
| Service.Service.Join | internal/proxy/cohort.go:109-182 | join on shared formation objects is the registry's join, and returns its answer; what that does to whom is Arrivals' |
| Service.Service.Expire | internal/proxy/cohort.go:184-200 | expire on a formation object is the registry's expire |
| Service.Service.Close | internal/proxy/cohort.go:215-237 | the loop over the map, in any order, fails every forming cohort and no other |
| Service.Service.Assemble | internal/proxy/cohort.go:295-311 | assembling and sealing in place always sends, and sends what the registry's step says |
| Service.Service.Answer | internal/proxy/cohort.go:311-328 | the return of the backend call is written in place and closes the formation once |
| ProxyRuns.StepKeeps | internal/proxy/proxy.go:194-255 | every step of every participant keeps the invariant tying callers, formations, envelopes and records together |
| ProxyRuns.OneEnvelopePerCohort | internal/proxy/cohort.go:282-328 | in every run at most one envelope is sent per cohort id; it carries each ordinal once with the payload of the join that admitted it; ids differ until the counter wraps |
| ProxyRuns.SentIsAccepted | internal/proxy/cohort.go:282-328 | the adapter accepts every envelope any run sends if and only if no payload in it is empty |
| Arrivals.FaultyArrivalFails | internal/proxy/cohort.go:109-182 | in every reachable state a second arrival of an admitted ordinal, or one outside the cohort, fails the still open cohort at once with that cause: done is closed once, whoever waits is owed an error, the arrival leaves a failed record, and no other cohort is touched |
| Arrivals.FailedForever | internal/proxy/cohort.go:275-280 | whatever happens next, a failed cohort keeps its cause and is neither sealed nor sent |
| Arrivals.FaultyCohortNeverSent | internal/proxy/cohort.go:109-182 | so in every run a cohort id that met a faulty arrival while open is never sent in an envelope |
| Arrivals.GoodArrivalIsHeld | internal/proxy/cohort.go:139-182 | any other arrival at an open cohort is held with its payload, and the last of B seals it at that instant and becomes its sender |
| Arrivals.ClosedTurnsAway | internal/proxy/cohort.go:109-131 | an arrival at a closed proxy leaves its failed record and changes no formation |
| Arrivals.ExpiryFails | internal/proxy/cohort.go:184-200 | a deadline fails an open cohort with exactly the ordinals not admitted, owes its waiters an error, and leaves a settled one alone |
| Arrivals.CloseFailsOpen | internal/proxy/cohort.go:215-237 | Close fails exactly the open cohorts, each for its own missing ordinals, and owes their waiters an error |
| Arrivals.LeavesAlone | internal/proxy/proxy.go:299-317 | a caller whose context ends leaves with a timeout or an error as it ended, and touches nobody else |
| Arrivals.InstantsAreTheirSteps | internal/proxy/proxy.go:194-255 | arrival, send, response and fan-out times are the clock readings of the steps they name |
| ProxyRuns.SomeoneIsOwed | internal/proxy/cohort.go:330-351 | in every run a waiting caller has a next step: its own wake, a deadline, or the sealing member's |
| ProxyRuns.ClosedForGood | internal/proxy/cohort.go:215-237 | after Close, whatever follows, no cohort is forming |
| ProxyRuns.OnlyTheSealerWrites | internal/proxy/cohort.go:282-294 | from seal to close only the sealing member's own steps change the formation, and none its slots or its seal |
| ProxyRuns.SealedForever | internal/proxy/cohort.go:156-182 | over any continuation a sealed cohort keeps its slots and seal, and its envelope once it has one |
| ProxyRuns.JudgedAdmitsNobody | internal/proxy/cohort.go:133-138 | a cohort id that sealed or failed never opens a second formation: a later arrival only leaves its record |
| ProxyRuns.ReplyStages | internal/proxy/proxy.go:224-238 | an answered member's record carries exactly the proxy's five stages, with its own and its cohort's values, its payload's size and its envelope's |
| ProxyRuns.ArrivalStages | internal/proxy/proxy.go:306-317 | a refused or departed member's record carries its arrival and its payload's size, and nothing after it |
| ProxyRuns.AnsweredMembersAgree | internal/proxy/proxy.go:194-255 | in every run, records with a seal are in order recv, seal, send, response, fan-out; those of one cohort agree on envelope, seal, send and response; no request has two; two cohorts name different envelopes |
| ProxyRuns.AnsweredWithItsOwn | internal/proxy/proxy.go:194-271 | in every run an answered caller is given the result computed for its own member, whose place in the envelope held the payload that caller submitted, in whatever order the response lists results; its record's status is that result's |
| ExpiredCohorts.ExpiredIsNamed | internal/validate/aggregation.go:203-246 | after any run a cohort that expired is named by the validator with the proxy's own absent list and exactly the admitted held, if and only if nobody reached the proxy late; the records are the proxy's as they are read back, numbered by the writer and in canonical form |
| ExpiredCohorts.WrittenIsNamed | internal/events/writer.go:137-167 | the same of whatever a writer that dropped none of the run's records accepted, in any order, read back beside the other streams |
| ExpiredCohorts.JudgeStream | internal/events/writer.go:137-263 | the same from end to end: the proxy's writer under any schedule, its sink read back, joined and diagnosed |
| ExpiredCohorts.CauseMeans | internal/proxy/cohort.go:184-213 | the expiry cause of any run lists exactly the ordinals never admitted: some, and not all |
| Results.Respond | internal/adapter/adapter.go:90-111 | the response carries the executor's results, each record the payload size of the member it names; a foreign result fails the envelope after the records before it |
| Results.AdapterStages | internal/adapter/adapter.go:122-151 | the adapter's record carries exactly its four stages, each with the value it names, the envelope's id and size, the release's evidence, and the member's outcome |
| Results.PayloadBytesByMember | internal/adapter/adapter.go:175-191 | sizes are found under the identity of exactly the envelope's members |
| Results.FindResult | internal/proxy/proxy.go:257-271 | the search returns the first result that names the member, if any does |
| Results.EachGetsItsOwn | internal/proxy/proxy.go:257-271 | every caller receives the result computed for its own member, whatever order the response lists results in |
| Results.AcceptedMembersDistinct | internal/envelope/envelope.go:173-298 | an accepted aggregate envelope names each member once, as the identity mapping needs |
| Executor.FanOutSlots | internal/executor/individual/individual.go:62-103 | whatever order the goroutines finish in, slot i holds the outcome of member i |
| Executor.DispatchSkew | internal/executor/individual/individual.go:105-122 | the running first and last give the distance from the earliest to the latest submission |
| Executor.Execute | internal/executor/individual/individual.go:62-103 | the results are the members' outcomes in member order, and the evidence is their number and their skew, for any finishing order; no members is an error |
| Executor.OwnAccountIsTrue | internal/validate/dispatch.go:288-362 | the executor's own account of a release, carried on the adapter's records through the join, is what the validator recomputes: evidence is found, the count and the skew are true, and none of the three is ever named |
| Executor.JudgeOwnRelease | internal/adapter/adapter.go:90-151 | the same from end to end: release, respond, record, read back among other records, join and judge |
| Owners.ProxyWritesItsOwn | internal/events/schema.go:178-212 | in every run of the proxy at A=on no record carries a stage the schema gives another process, and a record with a seal carries every stage the proxy owns |
| Owners.AdapterOwns | internal/events/schema.go:178-212 | the adapter's record carries exactly the stages the schema gives the adapter, in every cell through it |
| Joins.Join | internal/validate/validate.go:237-297 | the loop joins the records read in order, field by field as the fold does |
| Joins.OrderIrrelevant | internal/validate/validate.go:237-297 | records that agree on whatever two of them carry join to the same paths in every order |
| PathMeaning.StatusMeans | internal/validate/validate.go:299-312 | a joined status is some record's, and no record of the request states a more diagnostic one |
| PathMeaning.StatusUnconditional | internal/validate/validate.go:267-278 | the order of the records never decides a status, whatever else they disagree about |
| PathMeaning.StagePresent | internal/validate/validate.go:260-266 | a stage is present exactly when some record of the request carries it |
| PathMeaning.StageValue | internal/validate/validate.go:260-266 | its value and owner are those of the last record to carry it |
| PathMeaning.EmittersMean | internal/validate/validate.go:256-258 | each emitter's count is the number of records it wrote for the request |
| PathMeaning.EnvelopeMeans | internal/validate/validate.go:285-290 | the path's envelope is that of the last record to name one |
| PathMeaning.MembershipMeans | internal/validate/validate.go:279-284 | the path's members and their count are those of the last record to attest any |
| PathMeaning.AttestedMeans | internal/validate/validate.go:279-284 | and each process's own attestation is kept apart, from its last record |
| PathMeaning.StatedMeans | internal/validate/validate.go:267-278 | each process's own view of the outcome is that of its last record to state one |
| PathMeaning.DomainsMean | internal/validate/validate.go:256-258 | domains and schema versions are exactly those of the request's records |
| Checks.Requests | internal/validate/validate.go:162-174 | the loops list exactly the scheduled requests, with identifiers wrapping at 32 bits |
| Checks.CheckRecordIntegrity | internal/validate/validate.go:375-439 | names exactly the dropped, missing, repeated, mixed, failed and unscheduled records |
| Checks.CheckPaths | internal/validate/validate.go:441-685 | each per-path check names exactly the defects of its rule, over every path |
| Checks.ClockOf | internal/validate/validate.go:446-473 | names a mixed clock domain, or else every foreign one |
| Checks.PresenceOf | internal/validate/validate.go:481-512 | names exactly the stages missing from the topology and those outside it |
| Checks.OwnershipOf | internal/validate/validate.go:523-543 | names exactly the stages whose joined owner does not own them |
| Checks.OrderingOf | internal/validate/validate.go:548-575 | names exactly the spans that end before they start |
| Checks.MembershipOf | internal/validate/validate.go:584-685 | names exactly the membership faults, in the source's branches |
| Checks.SameUidSet | internal/validate/validate.go:758-773 | counting up and down decides equality of the two multisets |
| Checks.DisagreeingSources | internal/validate/validate.go:737-756 | comparing pairs finds whether any two sources attested different sets |
| Checks.CheckContamination | internal/validate/validate.go:687-729 | names exactly the ways the backend's counts contradict the cell |
| Aggregation.SortedRequests | internal/validate/validate.go:775-787 | the requests of the join, each once, by cohort and ordinal |
| Aggregation.FindFormationFailures | internal/validate/aggregation.go:203-246 | names exactly the cohorts with members both held and absent, with both lists complete and increasing |
| Aggregation.WithoutCohorts | internal/validate/aggregation.go:274-296 | hides the named cohorts' paths and nothing else |
| Aggregation.CheckAggregation | internal/validate/aggregation.go:77-169 | names exactly the cohorts without one envelope id, the envelope stages with several values, and the envelopes of several cohorts |
| Aggregation.EnvelopeOwners | internal/validate/aggregation.go:171-201 | maps exactly the non-zero envelope ids to all the cohorts that reported them |
| Chains.ChainVisitsTopology | internal/validate/chain.go:84-147 | the chain of every cell, the direct one included, visits each stage of the cell's topology exactly once and no other, without a gap |
| Chains.OneOwner | internal/events/schema.go:178-212 | no stage of any cell has two owners |
| Findings.OwnedExactly | internal/events/schema.go:178-212 | which process owns which stage of which cell, as a table: the stages of each, the seal the proxy's at A=on and the load generator's at A=off |
| Residuals.ChainIsCycle | internal/validate/chain.go:84-166 | which span of which cell runs from where to where, and whether the cycle model names it, as a table: a cell's chain has exactly those spans |
| Executions.NeighboursExactly | internal/validate/execution.go:90-129 | for windows in start order that end no earlier than they start, no overlap among neighbours means every two are disjoint and no instantaneous one follows one it starts with; and the reverse |
| Executions.EveryOrderDecides | internal/validate/execution.go:90-129 | every order the sort may give ties reports nothing if and only if all windows are disjoint and no instantaneous one starts with one that goes on |
| Executions.CohortDecided | internal/validate/execution.go:43-129 | the same of a cohort's executions on the joined paths, however they are gathered |
| Executions.ComputeAndGaps | internal/validate/execution.go:90-129 | compute time and the signed gaps add up to the cohort's span |
| Executions.LayOut | internal/validate/execution.go:90-129 | overlaps, measured gaps, the smallest gap, span and compute are what they are named, and exactly the overlapping windows are named |
| Executions.CheckExecutions | internal/validate/execution.go:43-138 | reports the layout of each cohort that executed anything and names exactly the windows that overlap their predecessor in a start order; naming nothing means no two executions of any cohort overlapped, and no less where no instantaneous one starts with one that goes on |
| Coverage.Cover | internal/validate/conservation.go:375-425 | covered is the number of instants some member was in flight, at most the makespan and the sum of spans; nothing is uncovered exactly when no instant is idle |
| Coverage.Sweep | internal/validate/conservation.go:384-422 | the sweep over sorted intervals measures their union |
| Coverage.UnionOfMultiset | internal/validate/conservation.go:381-383 | where the sort puts equal starts does not matter |
| Conservation.Decompose | internal/validate/conservation.go:140-163 | the span loop's totals, stage durations and completeness are the chain's |
| Conservation.ResidualIsUnnamed | internal/validate/conservation.go:124-168 | for every cell, what the model names and what it does not add up to the whole path, so the residual is the unnamed time |
| Conservation.CohortInstants | internal/validate/conservation.go:299-342 | each instant is an observation of the member that paces the cohort at that stage |
| Conservation.InstantsAreFirstAndLast | internal/validate/conservation.go:299-355 | a cohort's instants are the earliest of its members' up to the start of compute, and the latest from its end on |
| Conservation.CohortTiles | internal/validate/conservation.go:236-297 | for an ordered whole cohort every cohort span is non-negative and together they tile the makespan |
| Conservation.MakespanIsPathSpan | internal/validate/conservation.go:357-425 | for an ordered whole cohort, interval coverage and decomposition measure the same makespan |
| Conservation.FormationWaitIsLongest | internal/validate/conservation.go:95-106 | under a shared seal the cohort's formation wait is the largest of its members' |
| Conservation.ReportedResidual | internal/validate/conservation.go:78-93 | the reported cohort residual is exactly the unnamed time, between zero and the makespan |
| Conservation.AccountCohort | internal/validate/conservation.go:236-425 | one cohort's report is its coverage, its decomposition and their difference, unless no member was in flight |
| Conservation.CheckConservation | internal/validate/conservation.go:108-250 | names exactly the requests, or where envelopes are shared the cohorts, whose residual exceeds the tolerance; on timestamps, Residuals says which those are |
| Residuals.DirectResidual | internal/validate/conservation.go:108-168 | at D0 a whole path's residual is zero |
| Residuals.SharedResidual | internal/validate/conservation.go:108-168 | in every other cell it is the adapter's unpacking and its packing: from receive to dispatch and from result to send |
| Residuals.DirectNeverNamed | internal/validate/conservation.go:108-250 | at D0 the check names nothing, whatever the records |
| Residuals.IndependentNamedExactly | internal/validate/conservation.go:108-250 | in an A=off cell through the adapter a request is named if and only if it has all fifteen timestamps, takes time, and that unpacking and packing exceed the tolerated share of it |
| Residuals.CohortNamedExactly | internal/validate/conservation.go:236-250 | where envelopes are shared, an ordered whole cohort is named if and only if the cohort's own unpacking and packing exceed the tolerated share of its makespan |
| FanOut.Spread | internal/validate/dispatch.go:145-168 | the running lowest and highest give the distance between them, over the members that carry the stage |
| FanOut.ChainedLeavesNoGap | internal/validate/dispatch.go:364-397 | submissions found overlapping leave no instant of the release without a member in flight |
| FanOut.SubmissionsOverlapped | internal/validate/dispatch.go:364-397 | true exactly when each submission precedes its predecessor's return in some start order, or there are fewer than two |
| FanOut.EveryOrderOverlaps | internal/validate/dispatch.go:364-397 | every order the sort may give submissions that start together counts as overlapped if and only if each submission was still out at the next start, and at its own if another started with it |
| FanOut.EveryReleaseDecided | internal/validate/dispatch.go:340-397 | so, on the joined paths, a release of more than one member is never called serial, however its submissions are sorted, if and only if they are linked in that way |
| FanOut.SerialReleaseIsNamed | internal/validate/dispatch.go:340-397 | a release whose submissions were made one after another is named, in whatever order they are listed and sorted |
| FanOut.JudgeRelease | internal/validate/dispatch.go:288-362 | reads one release from its members and names exactly its faults |
| FanOut.CheckFanOut | internal/validate/dispatch.go:206-286 | refuses a lost bound, and otherwise names exactly the foreign evidence and the faults of each release |
| FanOut.CheckAdapterDispatch | internal/validate/dispatch.go:44-133 | names exactly the members that waited too long and the cohorts that arrived apart and left together; on timestamps, OnArrival says which those are |
| OnArrival.LeftTogetherExactly | internal/validate/dispatch.go:44-133 | a cohort is named if and only if two members or more went through, the furthest apart arrived 20 microseconds or more apart, and four times the furthest apart any were dispatched is less than that |
| OnArrival.SameDelayIsNotNamed | internal/validate/dispatch.go:30-133 | an adapter that dispatches every member the same time after it arrived is never named |
| OnArrival.JoiningIsNamed | internal/validate/dispatch.go:30-133 | one that lets members who arrived 20 microseconds or more apart go at one instant always is |
| OnArrival.WaitNamedExactly | internal/validate/dispatch.go:44-133 | a member is named if and only if it waited longer than the bound the run sets |
| OnArrival.PassMeansOnArrival | internal/validate/dispatch.go:30-133 | a pass in an A=off cell through the adapter means that no cohort arrived apart and left together, and that no member waited beyond the bound |
| Releases.ReleaseNamedExactly | internal/validate/dispatch.go:289-362 | of an envelope's release it is named, if and only if so: that no member's path has the adapter's evidence; that the first member's to have it miscounts the members or misstates how far apart they were dispatched; that this exceeds the bound |
| Releases.SerialExactly | internal/validate/dispatch.go:340-397 | however its submissions are sorted, a release of more than one member escapes being called serial if and only if each member was still out when the next was dispatched, and when another was dispatched with it |
| Releases.ForeignNamedExactly | internal/validate/dispatch.go:206-286 | another process's claim to a dispatch is named wherever the request reported an envelope |
| Releases.PassMeansTold | internal/validate/dispatch.go:206-362 | a pass in any cell through the adapter means that every release is as its evidence says, within the bound, which A=on must set, and that only the adapter claims one |
| Verdict.Validate | internal/validate/validate.go:314-363 | the verdict judges the join of the records: each check over the paths the source gives it, passed when none names anything |
| Findings.PassedExactly | internal/validate/validate.go:314-363 | a run passes if and only if none of the thirteen checks names anything |
| Findings.FormationExactly | internal/validate/aggregation.go:203-246 | a cohort is named as never formed if and only if, at A=on, the records show one member that reached the proxy and was never sealed, and another that never reached it |
| Findings.StatusIsWorst | internal/validate/validate.go:299-312 | the joined status is a timeout if any record of the request states one, else an error if any does, else a success if any does |
| Findings.IntegrityExactly | internal/validate/validate.go:375-439 | on the records: when a request is named as missing, unscheduled, recorded twice by a process, of two schemas, or not finished well, and when records as dropped |
| Findings.ClockExactly | internal/validate/validate.go:441-473 | a request is named for mixed clocks if and only if two of its records are of two, and otherwise for the one foreign clock they share |
| Findings.PresenceExactly | internal/validate/validate.go:475-512 | a stage is named as missing, or as unexpected, if and only if no record carries it and the path visits it, or the reverse; of neither in a cohort that never formed |
| Findings.OwnershipExactly | internal/validate/validate.go:514-543 | a stage is named if and only if the last record to carry it is not its owner's, in the table's terms |
| Findings.OrderingExactly | internal/validate/validate.go:545-575 | a span is named if and only if the last records to carry its ends have them backwards, whether or not the cohort formed |
| Findings.NothingAttestedExactly | internal/validate/validate.go:584-608 | a request of a formed cohort is named for attesting nothing if and only if none of its records does |
| Findings.MembershipExactly | internal/validate/validate.go:609-685 | and otherwise, of the last record to attest: exactly when its count, its own uid, its cardinality, its batch size, its cohorts and its ordinals are named |
| Findings.SourcesExactly | internal/validate/validate.go:731-773 | sources are named as disagreeing if and only if two processes' last accounts of the members differ as multisets |
| Findings.CardinalityExactly | internal/validate/aggregation.go:77-130 | at A=on a formed cohort is named unless the last records to name an envelope, over its requests, name exactly one |
| Findings.DisagreementExactly | internal/validate/aggregation.go:131-150 | at A=on stage 4, 5, 6, 12 or 13 is named if and only if two of a formed cohort's requests carry two values of it |
| Findings.SharedExactly | internal/validate/aggregation.go:150-169 | at A=on an envelope is named if and only if requests of two formed cohorts name it |
| Findings.ForeignExactly | internal/validate/dispatch.go:206-286 | a claim to a dispatch is named if and only if some record of a process other than the adapter makes it, of a request whose cohort formed and whose path names an envelope |
| Findings.AccountsExactly | internal/validate/conservation.go:357-425 | every cohort with a request that went out and came back is accounted for, and no other, whether or not it formed |
| Findings.LayoutsExactly | internal/validate/execution.go:43-138 | the executions of every cohort in which a request was computed are laid out, and of no other, whether or not it formed, unless V is on |
| Findings.TurnsExactly | internal/validate/execution.go:43-138 | at V=off, on timestamps: naming nothing means that any two requests of a cohort were computed in turn, and no less where no instantaneous one began with one that went on; whoever is named began while another was being computed |
| Findings.ContaminationExactly | internal/validate/validate.go:687-729 | the contamination check names nothing if and only if the backend counted exactly this run's executions, requests and batch sizes |
| Soundness.VerdictSound | internal/validate/validate.go:314-363 | a pass at F10 with batch size 1 means: exactly the scheduled requests, once per process, none unsuccessful, one clock, one schema each; every stage written by its owner, by it last, and forward; one envelope per cohort; every record that attests attests its own request alone; true backend counts; executions in turn; bounded releases and residuals |
| Soundness.IntegrityMeans | internal/validate/validate.go:375-439 | passing integrity means exactly the scheduled requests are recorded, at most once per process, none unsuccessfully |
| Soundness.AggregationMeans | internal/validate/aggregation.go:77-169 | passing aggregation means each cohort reports an envelope, its members agree on id and envelope stages where they carry them, and no envelope has two cohorts |
| Limits.OwnershipExact | internal/validate/validate.go:514-543 | given a pass, every record kept to stages its process owns if and only if no stage of a request was written twice |
| Limits.OwnedRecordsOrdered | internal/validate/validate.go:548-575 | and then the order along the chain and the agreement within a cohort hold of all records, not of the last ones alone |
| Limits.OwnershipDependsOnOrder | internal/validate/validate.go:514-543 | two records of one request pass the ownership check in one reading order and fail it in the other |
| Limits.NamedEnvelopeExact | internal/validate/aggregation.go:110-130 | given a pass, every record that names an envelope names its cohort's if and only if no request's records name two |
| Limits.RenamedEnvelopePasses | internal/validate/aggregation.go:110-130 | two records of one request that name two envelopes pass |
| Limits.CountsExact | internal/validate/validate.go:600-655 | given a pass at batch size 1, every attesting record counts one member, and every record stating a batch size states one, if and only if a request's records agree on them |
| Limits.UnnamedDomainPasses | internal/validate/validate.go:446-473 | where the run names no clock domain, two requests under two clocks pass |
| Limits.SharedEnvelopeExact | internal/validate/aggregation.go:110-130 | given a pass, a cohort's members all name one envelope if and only if each names any |
| Limits.UnnamedMemberPasses | internal/validate/aggregation.go:110-130 | the records of two members, one of which names no envelope, join to paths that pass |
| Limits.MembershipExact | internal/validate/validate.go:656-681 | where the batch is the cohort, an attested set that passes is exactly the cohort if and only if no request is attested twice |
| Limits.RepeatedUidPasses | internal/validate/validate.go:656-681 | the record of a batch of two attesting one request twice joins to a path that passes |
| Fixtures.ShiftFrom | internal/testkit/fixtures.go:415-446 | the stage and all after it in traversal order move by delta, and nothing before it |
| Fixtures.ShiftStretchesOne | internal/testkit/fixtures.go:415-446 | a shift changes the duration of the span that ends at the shifted stage, and of no other |
| Fixtures.IndependentCohort | internal/testkit/fixtures.go:265-295 | for all non-negative delays every injected duration is recovered exactly, the queue's never less, and V=off executions are at least the gap apart |
| Fixtures.LastOf | internal/testkit/fixtures.go:403-413 | the result is the latest value recorded if and only if some recorded value is not negative, and otherwise zero |
| Fixtures.FirstOf | internal/testkit/fixtures.go:390-401 | the result is the earliest value recorded |
| Fixtures.AggregateCohort | internal/testkit/fixtures.go:297-388 | arrivals, fan-out and envelope instants are those of one cohort sealed after its last arrival and answered after its last result |
| Fixtures.AggregateRecovers | internal/testkit/fixtures.go:324-388 | each member's durations are the injected ones, never less where it waits, and the smallest formation wait is exactly the injected one |
| Fixtures.CohortRecovers | internal/validate/conservation.go:236-342 | the cohort's own decomposition of an aggregate fixture returns every injected delay exactly but formation, which is its first wait, and execution, which runs from the first member's start to the latest end |
| Fixtures.IndependentPasses | internal/validate/execution.go:90-129 | every independent cohort built to execute one by one passes the serialization check, in every cell and however its sort orders ties |
| Fixtures.AggregatePasses | internal/validate/execution.go:90-129 | so does every aggregate cohort built to execute one by one |
| Fixtures.ChainIsProper | internal/validate/chain.go:84-147 | the chain of every cell meets what the construction assumes of a chain |
| Bundles.SplitByEmitter | internal/testkit/fixtures.go:476-562 | the loops write each process's record with exactly the stages it owns, in every cell, and none where it owns nothing recorded |
| Bundles.JoinedBack | internal/testkit/fixtures.go:479-562 | for every cell, the join of the split records has a path for exactly the requests built, each put together again: every instant under its owner, one record per process, its envelope, members and evidence |
| BuiltRuns.Build | internal/testkit/fixtures.go:172-215 | the cohort loop builds each cohort after the one before it, under its own id and envelope, with the skew its own submissions have |
| BuiltVerdict.DelaysRecovered | internal/validate/conservation.go:236-425 | judged from its split records, a built cohort's account returns every injected delay exactly but formation and execution, its makespan is the whole way, and its residual is the adapter's unpacking and packing |
| BuiltVerdict.BuiltVerdictExact | internal/validate/validate.go:314-363 | a run built for F10 passes, from its split records, if and only if that unnamed time is within tolerance of every cohort's makespan, a skew bound is set, and the stagger keeps within it and below the time a submission takes; whatever else its delays are, nothing is named |
| BuiltVerdict.ReleaseInEveryOrder | internal/validate/dispatch.go:340-397 | whatever the delays, the release of a built cohort is found faultless in every order its ties may be sorted into if and only if its skew keeps within the bound and the stagger below the time a submission takes |
| BuiltVerdict.BuiltVerdictInEveryOrder | internal/validate/validate.go:314-363 | whatever the delays, zero ones included: a run built for F10 passes in every order its ties may be sorted into if and only if its unnamed time is within tolerance of every cohort's makespan, a skew bound is set, and the stagger keeps within it and below the time a submission takes |
| CleanPaths.PathsClean | internal/validate/validate.go:365-729 | evidence put together of whole, ordered, own and scheduled requests leaves the checks of single paths nothing to name |
| AloneRuns.Build | internal/testkit/fixtures.go:172-215 | the cohort loop for D0, F00 and its sequential control builds each cohort after the one before it, under its own id, every member with an envelope of its own |
| AloneVerdict.DelaysRecovered | internal/validate/conservation.go:108-168 | judged from its split records, every request built for D0, F00 or the sequential control returns every injected delay exactly but the queue's, which is never less, and exact for the first of a cohort |
| AloneVerdict.BuiltVerdictExact | internal/validate/validate.go:314-363 | a run built for D0 always passes; one built for F00 or its sequential control passes, from its split records, if and only if, unless it is empty, the adapter's unpacking keeps to the bound on its wait, and its unpacking and packing are within tolerance of every request's path |
| Archive.ToRow | internal/events/parquet/parquet.go:116-159 | the loops build the row the record spells out, nulls for what it does not carry |
| Archive.FromRow | internal/events/parquet/parquet.go:161-248 | the loops rebuild the record, or refuse an unknown emitter, an unknown scope or partial evidence |
| Archive.ArchiveExactly | internal/events/parquet/parquet.go:116-248 | a record returns from its row unchanged if and only if it is normal and its emitter, status and scope have names a reader knows |
| Archive.ReadBack | internal/events/parquet/parquet.go:116-248 | a row is readable exactly when emitter and scope are known, and then returns all the record carries |
| Archive.WrittenExactly | internal/events/parquet/parquet.go:116-159 | column by column, what is written of a record: its own values, the names of its process, status and scope as a table has them, a null for each absent timestamp and for absent evidence |
| Archive.ReadExactly | internal/events/parquet/parquet.go:161-248 | any row is read as a record if and only if the record is, column by column, what the row says |
| Archive.ReadableExactly | internal/events/parquet/parquet.go:161-248 | any row is refused if and only if its process is not one of the four, or its evidence is neither absent nor whole with a known scope |
| Unjudged.SourceStatusesUnjudged | internal/validate/validate.go:203-206 | joins that differ only in what each process said of the outcome get the same verdicts |
| Runner.ValidateBundle | internal/runner/validate.go:66-90 | the archive is refused for its first unreadable row, or else its first foreign schema version, and otherwise judged as its records' join |
| Runner.ValidateStreams | internal/runner/validate.go:92-111 | the streams are judged without their warm-up records, and never refused |
| Runner.LoadedExactly | internal/runner/validate.go:66-90 | an archive's records are its rows', in order, unless it is refused for its first unreadable row, or else for its first record of another schema version |
| Runner.RecordedExactly | internal/runner/validate.go:92-121 | the evidence in a stream is exactly the records of cohorts from the first recorded one on, each as often as it was written, in the order read |
| Runner.VerdictsAgreeExactly | internal/runner/validate.go:66-121 | for all records, the archive made of them is judged, and to the same verdicts as the streams, if and only if every recorded process and CPU scope has a name and every record is of this schema version; statuses without a name make no difference |
| Runner.OldRecordDisagrees | internal/runner/validate.go:84-121 | a record of another schema version is judged from the streams while the archive it becomes is refused |

## Left out

- gRPC, Triton, trace files, process supervision, manifests, model materialisation and file output: foreign calls and plumbing; a backend call is a step with an arbitrary outcome.
- A sink that fails, and the flush error it leaves: the model's sink takes every write. The buffered writer in front of it is part of the sink.
- Writer.Writer.constructor: demands the bank size NewWriter checks instead of returning an error, and what NewWriter does not check: that every frame fits an empty bank. Without it the order is lost (Widest.EveryRunStreams).
- Writer.Bank.CopyFrame encodes in a buffer of its own every body that may outgrow the bank; the source's append moves a body to a larger buffer once it does outgrow it. What the bank then holds is the same.
- Records and joined paths are values: the source shares pointers to joined paths between its maps, but never writes through one after the join.
- Joins.Merge keeps the presence mask as a set of stages; bits above the fifteenth, which no method reads, are not joined.
- Signed overflow of nanosecond arithmetic in the validator and the fixtures: durations and sums are integers.
- Floating point: tolerance and the quarter of the arrival spread are compared as ratios of integers, so rounding is not modelled.
- The order in which defects and report entries are listed, their wording, medians and per-stage summaries.
- Checks.Defect tells apart findings to which the source gives one kind with different messages, and leaves messages out.
- Executions.CheckExecutions: where an execution ends before it starts, what naming nothing means is not stated; the report itself is.
- The proxy's A=off path, its uid and run checks, and the clients' response fields other than the result: each is one straight-line pass.
- Envelope.Builder.Aggregate: the size of an envelope but for its own counter is a parameter, at least the payload bytes and below two to the 63rd.
- ExpiredCohorts.ExpiredIsNamed: for cohort sizes an ordinal can count, up to two to the 32nd.
- Writing, compressing and reading the archive file: an archive is its rows.
- Runner.ValidateStreams: the streams are taken as read; a stream that does not decode is an error before any judging.
- Fixtures.AggregateCohort: cohorts that start no earlier than zero, where the source's search for the latest value, which starts from zero, finds it.
- BuiltRuns.Build: F10 at batch size 1, as AloneRuns.Build is D0, F00 and its sequential control; the cohorts of F01, F11D and F11P are built and recovered (Fixtures), split and joined back (Bundles), but the verdicts on them are not decided.
- BuiltVerdict.BuiltVerdictExact: decides one verdict, so not for cohorts of several members whose submissions start together and take no time, where the order the sort gives equal starts decides; BuiltVerdict.BuiltVerdictInEveryOrder has every run and every order.
- Soundness.VerdictSound: put together for F10 at batch size 1; for the other cells, what each check names is stated exactly (Findings, Residuals, OnArrival, Releases) and not put together.
