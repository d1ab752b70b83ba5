# Verified models of a vault engine

Dafny models of the parts of the engine whose behaviour is hardest to see from the code: a binary query protocol, a
concurrent event bus, the security state machines, and three small algorithms. `dafny verify dfyconfig.toml` checks
everything.

- **GQL codec, frame and validator** (`Gql*.dfy`, `Utf8.dfy`). `Encode` fills a byte array at a running offset and walks
  the field map twice; each walk may take any order. `DecodeQuery` reads a byte string at a running offset. Both are
  proved against one wire grammar. The validator's checks range over runes as Go does, section 4 of RFC 3629 included,
  and are proved equal to predicates over bytes.
- **Event bus** (`BusRegistry.dfy`, `BusProtocol.dfy`, `BusDelivery.dfy`). `Bus` is the class with its handler lists and in-place filter,
  tied to the order of live registrations. `BusProtocol` is the transition system of `Request`, `Dispatch` and the gate:
  one step for each section under a mutex, each channel operation and each goroutine launch, in any interleaving.
  `BusDelivery` proves what every run delivers, replies and handlers.
- **Security state machines** (`AuditLog.dfy`, `Lockdown.dfy`, `RateLimiter.dfy`, `IntrusionDetector.dfy`, `Zkp.dfy`).
  Each class is proved against a step function on its fields, and the results are about every run of that function.
  Clock readings and random draws are arguments. SHA-256 and BLAKE2b are arbitrary functions to 32 bytes; no collision
  is ruled out, one is exhibited where a result depends on it.
- **Algorithms** (`Transaction.dfy`, `Base64.dfy`, `EntropyFile.dfy`). The store under a transaction may refuse any call
  and records its answers.

`Wrappers.dfy`, `Bytes.dfy` (bytes, big-endian numbers), `EightBits.dfy` (bytes as bit-vectors) and `Sums.dfy` (folds
over a map in any order) serve the others.

Where the code does not do what it, or its documentation, suggests:

- The query round trip holds exactly for at most 100 fields and strings below 65536 bytes. Beyond that the 16-bit length
  or the count byte disagrees with what follows. Bytes after the credentials are ignored (`RoundTripExactly`,
  `DecodesExactlyTheGrammar`).
- The comment on `validatePrintable` excludes tabs (`engine/gql/validator.go:310`); the code accepts them.
- `PrevHash` of every stored audit event is the log's own `lastHash` array, so it reads as the newest event's hash
  (`PrevHashReadsNewest`). It reads as the predecessor's only where the hash function fails, in one of two ways that are
  exhibited (`PrevHashReadsPredecessor`); a log of two records where it does not is given (`PrevHashReadsWrong`). Field
  boundaries are not hashed (`BoundariesUnprotected`).
- The rate limiter's header speaks of attempts 6, 11, 16 and 21 (`engine/security/rate_limiter.go:5-9`); the code locks
  after every failure from the sixth on, by tier. Failures are apart by their lockouts exactly when each was recorded
  while `Check` would have allowed it (`SpacedExactly`); seven recorded at one moment already break that
  (`UnaskedFailures`).
- `RecordAuthFailure` also counts failures that have left the window under subjects not pruned since. The count is right
  exactly when no other subject's list has one (`CountIsExact`); three calls to a new detector show a wrong one
  (`StaleFailuresCount`).
- `PendingCount` drops a challenge at the instant of its expiry, when `VerifyProof` would still accept it and the
  cleanup loop would keep it (`CountBoundary`).
- The transaction interface promises an unchanged store on error (`engine/storage/blockstore_v2.go:41-43`). What is left
  is a prefix of the commit order, and it equals the old store wherever the commit stops only if no operation has any
  effect (`UnchangedWhereverItStops`). Commit differs from program order as soon as an id is written after its delete
  (`AgreesWithProgramOrder`).
- Registrations and gates upper-case their channel names; `Dispatch` takes the channel from the event type as it is. So
  a name covers an event exactly when the name upper-cased is the event's channel as written (`HeldByName`,
  `SnapshotReaches`), and a channel with a lower-case letter cannot be named at all (`CoverableExactly`). With "st"
  gated and the gate never opened, an event "st.rd" starts its handler (`LowerCasePasses`).
- The entropy file's scanner numbers lines by newlines exactly when every carriage return comes directly after a newline
  (`NumbersCountNewlines`); "\r\n" counts as two lines and "\n\r" as one (`BreakPairs`).

## Model

| member | source | states |
|---|---|---|
| GqlTypes.SerializeField | engine/gql/types.go:47-53 | the field's bytes land at the offset, with the length cut to 16 bits; nothing before or after them changes |
| Bytes.BEWritten | engine/gql/types.go:136-143 | two- and four-byte numbers, byte by byte, most significant first |
| GqlTypes.FieldsSize | engine/gql/types.go:98-100 | the first map loop adds up the same number whatever order it takes |
| GqlTypes.SerializeFields | engine/gql/types.go:131-135 | the second map loop writes every entry once, in its own order, and advances by exactly the number the first loop found |
| GqlTypes.Encode | engine/gql/types.go:91-149 | every write is in bounds of the buffer sized beforehand, the last one ends it, and the bytes are the payload of the query in the order walked |
| GqlTypes.CountWritten | engine/gql/types.go:108-114 | the first byte is the number of fields up to 100, and beyond that its low eight bits cut to 100 |
| GqlEndToEnd.FillsExactly | engine/gql/types.go:91-149 | the bytes written in any order number what the sizing loop counted in any other order, for every query |
| GqlEndToEnd.FitsInAFrame | engine/gql/opcodes.go:172-194 | a query within the validator's limits, with credentials below 65536 bytes, never exceeds MaxPayloadSize |
| GqlDecoder.DeserializeOfField | engine/gql/types.go:57-66 | reading back a serialised string shorter than 65536 gives it and its size, whatever follows |
| GqlDecoder.FieldOfDeserialized | engine/gql/types.go:57-66 | what is read is what serialising it again would write, so reads stay in bounds |
| GqlDecoder.DecodeQuery | engine/gql/types.go:152-259 | the decoder with its running offset, total on every byte string, computes the recursive parse, errors included |
| GqlDecoder.DecodeHeader | engine/gql/types.go:169-209 | the five header strings are the first five of the parse, or the first one cut short is named |
| GqlDecoder.DecodeFields | engine/gql/types.go:211-232 | the loop over entries reads exactly the next 2n strings and collects the map they denote |
| GqlDecoder.DecodeTail | engine/gql/types.go:234-256 | limit, offset and optional credentials, with each truncation error |
| GqlDecoder.DecodesExactlyTheGrammar | engine/gql/types.go:73-90 | a payload decodes to q if and only if it is derived from the grammar with q's parts |
| GqlDecoder.LastEntryWins | engine/gql/types.go:212-232 | a decoded key has value v if and only if its last entry in the payload says v |
| GqlDecoder.RoundTrip | engine/gql/types.go:152-177 | decoding an encoded query gives it back in any map order, for any default operation its own operation overrides |
| GqlDecoder.RoundTripExactly | engine/gql/types.go:91-259 | encode then decode is the identity if and only if the query has at most 100 fields and only strings below 65536 bytes |
| GqlDecoder.Normalises | engine/gql/types.go:152-259 | every accepted payload re-encodes, in any map order, to one that decodes to the same query |
| GqlFrame.EncodeFrame | engine/gql/frame.go:19-27 | writing the header in place and copying the payload yields exactly the bytes DecodeInvertsEncode relates to the frame, with the size field taken from the payload |
| GqlFrame.DecodeFrame | engine/gql/frame.go:32-72 | the frame parse of the buffer, with each error |
| GqlFrame.DecodeInvertsEncode | engine/gql/frame.go:19-72 | the decoder accepts data as f if and only if f is well formed and encodes to data |
| GqlFrame.AcceptsExactly | engine/gql/frame.go:32-72 | data decodes to f if and only if it is version 1, an opcode from 1 to 4, two bytes of flags and four of length, and a payload of that length, at most 16 MiB |
| GqlFrame.EncodeThenDecode | engine/gql/frame.go:19-72 | an encoded frame decodes if and only if version, opcode and payload length are acceptable, and then to itself with the true payload size |
| GqlFrame.NewQueryFrame | engine/gql/frame.go:75-88 | the frame of the query in some map order, with the opcode its operation selects |
| GqlOpcodes.ReadsAndWrites | engine/gql/opcodes.go:118-167 | the valid operations are exactly the reads and the writes, and none is both |
| Utf8.DecodeOfEncode | engine/gql/validator.go:297-315 | ranging over a string reads back every encoded scalar value with its width, whatever follows |
| Utf8.EncodeOfDecode | engine/gql/validator.go:297-315 | a rune read at more than one byte, or from an ASCII byte, is a scalar value and the bytes read are its encoding |
| Utf8.DecodesExactly | engine/gql/validator.go:297-315 | a rune is read at full width if and only if the string begins with its encoding; a string that begins with no encoding, and only such a one, gives U+FFFD for one byte |
| Utf8.AsciiRunesAreBytes | engine/gql/validator.go:297-315 | a rune below 0x80 is one byte, itself; any other rune is made of bytes at or above 0x80, invalid UTF-8 included |
| GqlValidator.ValidateIdentifier | engine/gql/validator.go:293-307 | accepts if and only if every byte is in [A-Za-z0-9_.-], invalid UTF-8 included |
| GqlValidator.ValidatePrintable | engine/gql/validator.go:311-332 | accepts if and only if no byte is below 0x20 except tab and none is 0x7F |
| GqlValidator.CharactersWritten | engine/gql/validator.go:316-350 | the bytes of identifiers and of texts, as ranges of numbers |
| GqlValidator.ValidateFields | engine/gql/validator.go:204-217 | accepts in any map order if and only if every key and value is clean |
| GqlValidator.ValidateQuery | engine/gql/validator.go:156-236 | accepts if and only if the declarative predicate Clean holds; the part an error names is the first at fault |
| GqlValidator.CleanMeans | engine/gql/validator.go:156-236 | Clean holds if and only if every length, byte and opcode is within the limits, given in numbers |
| GqlValidator.ValidateACL | engine/gql/validator.go:239-273 | accepts if and only if the session is authorised for the query; which reason an error gives |
| GqlValidator.ValidateFrame | engine/gql/validator.go:67-131 | returns q if and only if the frame carries q cleanly and the session may run it; semantic errors only for clean queries, syntactic ones only where no clean query is carried, naming the first check that fails |
| GqlEndToEnd.EndToEnd | engine/gql/validator.go:67-131 | a query sent in any map order arrives as itself if and only if it is sendable and the session allows it |
| BusRegistry.FilterInPlace | engine/kernel/bus.go:148-155 | the handlers[:0] filter leaves the order-preserving filter of the list in its prefix |
| BusRegistry.WithoutAt | engine/kernel/bus.go:149-155 | the filter drops as many entries as bear the id, and each survivor moves up by those dropped before it |
| BusRegistry.WithoutEntries | engine/kernel/bus.go:146-156 | filtering a list by id gives the list of the remaining registrations |
| BusRegistry.EntriesPerOwner | engine/kernel/bus.go:126-132 | a module's entries on a list number exactly how often it declares the channel, and unregistered ids have none |
| BusRegistry.UnregisterUndoesRegister | engine/kernel/bus.go:116-159 | register, anything done by others, unregister leaves what the others alone would have left |
| BusRegistry.WithGatedChannels | engine/kernel/bus.go:69-76 | the loop gates exactly the channels some configured name upper-cases to |
| BusRegistry.CoverableExactly | engine/kernel/bus.go:73-127 | with a stable upper-casing, some list of names covers a channel if and only if the channel is its own upper case |
| BusRegistry.Bus.constructor | engine/kernel/bus.go:84-98 | a new bus has no registrations and gates the configured names, upper-cased |
| BusRegistry.Bus.ReachedExactly | engine/kernel/bus.go:124-132 | an entry is on the list of a channel if and only if it is a registered module's and one of its declared names upper-cases to that channel |
| BusRegistry.Bus.Register | engine/kernel/bus.go:116-135 | appends to every list one entry for each time the module declares its channel, and keeps lists and registrations in step; refused exactly when the id is taken, and then nothing changes |
| BusRegistry.Bus.Unregister | engine/kernel/bus.go:137-159 | removes the module, and leaves every list as filtered by its id |
| BusRegistry.Bus.Subscribe | engine/kernel/bus.go:161-168 | appends one entry to the list of the event type, and changes no other |
| BusRegistry.Bus.Unsubscribe | engine/kernel/bus.go:170-181 | leaves every list as filtered by the subscription's id; again, nothing changes |
| BusRegistry.Bus.Snapshot | engine/kernel/bus.go:224-232 | the handlers of the channel then those of the exact type, in registration order |
| BusProtocol.Channel | engine/kernel/event.go:136-144 | the prefix before the first dot, or the whole type |
| BusProtocol.RepliesAreCorrelated | engine/kernel/bus.go:252-281 | in every interleaving, a returned reply answers the request's own id and was the first offered to its slot; pending is exactly the requests in flight |
| BusProtocol.PendingStep | engine/kernel/bus.go:259-267 | every step keeps pending and the requests in flight in one-to-one correspondence |
| BusProtocol.ReachableSlots | engine/kernel/bus.go:257-274 | in every run the result of a request is the first event ever offered to its slot, and the slot holds the first one offered since the reply was taken |
| BusProtocol.ReachablePending | engine/kernel/bus.go:252-281 | both invariants hold in every reachable state |
| BusProtocol.DispatchersNeverBlock | engine/kernel/bus.go:184-250 | an unfinished dispatcher has a step of its own to take in any state, so a full slot never holds it up |
| BusProtocol.DispatchersFinish | engine/kernel/bus.go:184-250 | in every run a dispatcher takes at most three own steps, or four and one for each handler of its snapshot, and has a next one if and only if it is not finished |
| BusProtocol.GateState | engine/kernel/bus.go:101-114 | the gate is open exactly when some OpenGate has no CloseGate after it |
| BusProtocol.GateSafety | engine/kernel/bus.go:214-247 | every launch comes from a dispatch that passed its gate check, for a gated channel after an OpenGate with no CloseGate in between |
| BusProtocol.DroppedExactly | engine/kernel/bus.go:185-222 | in every run a dispatch is dropped if and only if its TTL was negative or its gate check came for a gated channel with the gate shut |
| BusProtocol.HeldByName | engine/kernel/bus.go:212-222 | a dispatch is held at a shut gate if and only if some configured name upper-cases to its channel as written |
| BusProtocol.SnapshotReaches | engine/kernel/bus.go:212-228 | a module is reached by an event if and only if one of its declared names upper-cases to the channel as written |
| BusProtocol.LowerCasePasses | engine/kernel/bus.go:212-222 | a run in which the gated name is "st", the gate never opens and the handler of "st.rd" starts |
| BusProtocol.LaunchesFollowSnapshot | engine/kernel/bus.go:224-247 | at any time a dispatch has launched a prefix of the snapshot it took, in order, whatever is registered or removed since |
| BusProtocol.FinishedDispatchLaunchedAll | engine/kernel/bus.go:234-249 | a finished dispatch launched its whole snapshot, once each, or was dropped and launched nothing |
| BusDelivery.CarriesEvent | engine/kernel/bus.go:184-193 | in every run a dispatch carries the event it was handed, by a caller or by a request, unchanged but for the TTL, whose value is given |
| BusDelivery.RequestKeepsEvent | engine/kernel/bus.go:252-261 | a request keeps the event it was made with |
| BusDelivery.Stands | engine/kernel/bus.go:200-210 | in every run, where a dispatch stands says exactly whether it has looked its request up, found it in flight, and sent |
| BusDelivery.OfferedExactly | engine/kernel/bus.go:200-210 | an event is offered to a request if and only if a dispatch carrying it looked the request up while it was in flight, under the id the event answers, and has sent |
| BusDelivery.RepliesArrive | engine/kernel/bus.go:200-210 | a reply dispatched with its TTL not negative has been looked up by the time it comes to the gate, and offered if its request was found in flight |
| BusDelivery.OfferedCanBeTaken | engine/kernel/bus.go:269-275 | once an event was offered the slot holds the first one unless the request has it already; when its own dispatch is over the request can take that one |
| BusDelivery.RequestsCanMove | engine/kernel/bus.go:252-281 | each step of a request can be taken exactly in its phase, once its own dispatch is over, and for a reply with one in the slot |
| BusDelivery.RequestsMove | engine/kernel/bus.go:252-281 | what each step makes of the request's phase and result |
| BusDelivery.OthersAreFree | engine/kernel/bus.go:101-114 | gate operations and registrations can be taken in any state, and any caller may dispatch |
| BusDelivery.RequestsCanBegin | engine/kernel/bus.go:259-261 | a request can begin if and only if no request in flight has its id |
| BusDelivery.RoutesInForce | engine/kernel/bus.go:224-232 | the lists in force are those of the last registration or removal |
| BusDelivery.SnapshotIsTheBus | engine/kernel/bus.go:224-232 | the handlers a dispatch takes are, index by index, those of the modules on the channel and then those of the subscriptions on the type: what Bus.Snapshot returns |
| BusDelivery.SubscribersExactly | engine/kernel/bus.go:161-181 | a subscription is on the list of its own event type, once, and on no other |
| AuditLog.ContentLayout | engine/security/audit.go:77-81 | what is hashed after the previous hash is eight bytes of time and then all four texts in order |
| AuditLog.ContentMeans | engine/security/audit.go:73-81 | two records hash the same bytes if and only if the timestamps and Level + Module + Message + SubjectID agree |
| AuditLog.OneFieldCounts | engine/security/audit.go:73-81 | records that differ in exactly one field, whichever, hash different bytes |
| AuditLog.TamperEvidence | engine/security/audit.go:66-83 | equally long chains with the same final hash started alike and agree entry by entry on timestamp and Level + Module + Message + SubjectID, or a position holds two inputs with one hash |
| AuditLog.SameContentsSameChain | engine/security/audit.go:73-83 | the converse: what the chain does not see |
| AuditLog.BoundariesUnprotected | engine/security/audit.go:78-81 | two different records no hash function tells apart |
| AuditLog.RepeatFails | engine/security/audit.go:73-83 | a chain that comes back to an earlier hash exhibits two inputs with one hash or an input that hashes to the start |
| AuditLog.PushHolds | engine/security/audit.go:85-91 | writing after the newest cell, over the oldest when full, keeps the ring the last min(count, capacity) events |
| AuditLog.AppendChained | engine/security/audit.go:73-83 | an append keeps every stored hash the hash of its predecessor's hash and its own content |
| AuditLog.RingAuditLog.constructor | engine/security/audit.go:55-64 | an empty log over the given hash, of the given capacity or 1024 |
| AuditLog.RingAuditLog.Append | engine/security/audit.go:66-92 | adds one chained event to the list since the last Drain, stamped with the clock if it had no time |
| AuditLog.RingAuditLog.Store | engine/security/audit.go:85-91 | the ring refines the list with the event added |
| AuditLog.RingAuditLog.Recent | engine/security/audit.go:94-108 | the last min(n, size) events since the last Drain, in order |
| AuditLog.RingAuditLog.Drain | engine/security/audit.go:110-121 | hands out everything held and empties the ring; the chain goes on from the same hash |
| AuditLog.RingAuditLog.PrevHashReadsNewest | engine/security/audit.go:74-83 | the PrevHash of every event held reads as the hash of the newest event |
| AuditLog.RingAuditLog.PrevHashReadsPredecessor | engine/security/audit.go:74-83 | where it reads as its predecessor's hash, two inputs of the chain with one hash, or one that hashes to zeros, are exhibited |
| AuditLog.PrevHashReadsWrong | engine/security/audit.go:66-108 | a log of two appended records whose second event has its own hash as PrevHash, not the first one's |
| Lockdown.CallsKeepConsistent | engine/security/lockdown.go:90-174 | the invariant tying failures and overridesLeft to the state; only RecordSuccess leaves Hard |
| Lockdown.RemainingZeroIsHard | engine/security/lockdown.go:145-157 | no attempts remain if and only if the state is Hard |
| Lockdown.Progress | engine/security/lockdown.go:90-143 | failures and time spent, as a function of the soft lockdowns that expired |
| Lockdown.AttemptBound | engine/security/lockdown.go:90-143 | without success and short of Hard, k expiries allow at most (k+1)(threshold+maxOverrides-1) failures and take more than k lockdown periods |
| Lockdown.SoftEndsExactly | engine/security/lockdown.go:132-143 | a soft lockdown begun by a failure at t is lifted by State if and only if it comes strictly after t and the configured minutes |
| Lockdown.BurstExactly | engine/security/lockdown.go:90-120 | n failures in a row reach Hard if and only if n is at least threshold+maxOverrides, so the bound is tight |
| Lockdown.HardIsFinal | engine/security/lockdown.go:94-96 | Hard lasts through any calls but RecordSuccess |
| Lockdown.LockdownManager.constructor | engine/security/lockdown.go:70-88 | a fresh manager; each setting is kept if positive and replaced by its default if not |
| Lockdown.LockdownManager.RecordFailure | engine/security/lockdown.go:90-120 | the step function's failure, the callback exactly on reaching Hard, the attempts count of the error |
| Lockdown.LockdownManager.RecordSuccess | engine/security/lockdown.go:122-130 | back to a fresh state |
| Lockdown.LockdownManager.State | engine/security/lockdown.go:132-143 | lifts a soft lockdown strictly after its time |
| Lockdown.LockdownManager.RemainingAttempts | engine/security/lockdown.go:145-157 | the attempts left, 0 if and only if Hard |
| Lockdown.LockdownManager.TriggerHard | engine/security/lockdown.go:165-174 | Hard at once |
| RateLimiter.EntryFromFailures | engine/security/rate_limiter.go:64-118 | a subject's entry is a function of its own failures since its last success, whatever others do |
| RateLimiter.AllowedAfter | engine/security/rate_limiter.go:45-103 | Check allows if and only if the subject has at most five failures or has waited 60, 600, 3600 or 86400 seconds since the last, by tier |
| RateLimiter.ClearedHasWaited | engine/security/rate_limiter.go:45-59 | an allowed Check after a failure means its lockout has been sat out |
| RateLimiter.SpacedExactly | engine/security/rate_limiter.go:45-103 | successive failures of a subject are apart by the tier of the earlier one if and only if each came while Check would have allowed it |
| RateLimiter.DisciplinedIsAdmitted | engine/security/rate_limiter.go:42-59 | a caller that gets an allowed Check between failures meets that condition |
| RateLimiter.UnaskedFailures | engine/security/rate_limiter.go:64-103 | failures recorded at one moment all count, and meet the condition if and only if there are at most six |
| RateLimiter.TimeBound | engine/security/rate_limiter.go:45-103 | under that condition the n-th failure, n at least 21, comes at least 21300 + (n-21)*86400 seconds after the sixth, whatever other subjects do |
| RateLimiter.Limiter.Check | engine/security/rate_limiter.go:45-59 | allowed unless the clock is before lockedUntil, which is then returned |
| RateLimiter.Limiter.RecordFailure | engine/security/rate_limiter.go:64-103 | one more failure; the lockout of each tier, in seconds, and until when Check refuses; other subjects untouched |
| RateLimiter.Limiter.RecordSuccess | engine/security/rate_limiter.go:107-118 | forgets the subject only |
| IntrusionDetector.PruneWindow | engine/security/intrusion_detector.go:187-194 | cuts before the first timestamp in the window; on a sorted list that is filtering |
| IntrusionDetector.Record | engine/security/intrusion_detector.go:88-89 | the subject's list becomes exactly the window of everything ever recorded for it; other lists stay |
| IntrusionDetector.StoredIsTruePlusStale | engine/security/intrusion_detector.go:91-94 | the stored total is the true total in the window plus what pruning has not reached |
| IntrusionDetector.CountIsExact | engine/security/intrusion_detector.go:88-94 | the count of a call is right if and only if no other subject's list, as it stood before, has a timestamp from before the window |
| IntrusionDetector.StaleFailuresCount | engine/security/intrusion_detector.go:84-105 | three calls to a new detector, the last of which reports three failures while the window holds one |
| IntrusionDetector.Detector.constructor | engine/security/intrusion_detector.go:66-80 | an empty detector at any first clock reading |
| IntrusionDetector.Detector.RecordAuthFailure | engine/security/intrusion_detector.go:84-105 | fires exactly when the count in 300 seconds plus the stale count is at least 3, so a true 3 is never missed; the stale count is 0 if and only if no other subject's list had an old timestamp |
| IntrusionDetector.Detector.RecordEntryRead | engine/security/intrusion_detector.go:109-127 | fires exactly when the subject's reads ever recorded, filtered to the window, number at least 50 |
| IntrusionDetector.Detector.Emit | engine/security/intrusion_detector.go:169-183 | the shifted history stays the last 100 anomalies |
| IntrusionDetector.Detector.History | engine/security/intrusion_detector.go:197-207 | the last 100 anomalies ever emitted, newest first |
| Zkp.HexRoundTrip | engine/security/zkp.go:99-114 | hex decoding undoes the encoding used for nonces and ids |
| Zkp.HexDigits | engine/security/zkp.go:99-114 | the digits written and the digits of either case read |
| Zkp.HexAccepts | engine/security/zkp.go:163-167 | a string decodes if and only if its length is even and every character is a digit |
| Zkp.ComputeProof | engine/security/zkp.go:163-181 | the in-place loop makes the proof owed for the hex nonce, or fails when that is not 32 bytes of hex or the key not 32 bytes |
| Zkp.ProofBytes | engine/security/zkp.go:163-181 | there is a proof if and only if the nonce is 32 bytes of hex and the key 32 bytes; each of its bytes xored with the hash byte is the key byte |
| Zkp.SameProofExactly | engine/security/zkp.go:172-179 | under one key, two nonces owe the same proof if and only if their hashes agree |
| Zkp.AcceptsExactlyTheProof | engine/security/zkp.go:120-181 | a pending, unexpired challenge accepts exactly what ComputeProof makes from its hex nonce and the same key |
| Zkp.AcceptsExactlyTheBytes | engine/security/zkp.go:120-157 | acceptance, byte by byte: pending, not past its expiry, 32 bytes each, and proof xor hash is the key |
| Zkp.WhatIsLeft | engine/security/zkp.go:185-222 | which challenges remain, unchanged, after a sweep and after a count |
| Zkp.Run | engine/security/zkp.go:87-222 | pending and expiries have the same keys in every reachable state |
| Zkp.SingleUse | engine/security/zkp.go:120-157 | with fresh ids, the first VerifyProof consumes a challenge whatever its verdict; later ones find nothing |
| Zkp.AcceptedOnce | engine/security/zkp.go:120-157 | no challenge is accepted twice |
| Zkp.AnswersAt | engine/security/zkp.go:120-157 | the answers of a run are those of its VerifyProof calls, each in its place |
| Zkp.SweepsAreInvisible | engine/security/zkp.go:185-222 | removing every cleanup round and every PendingCount off an expiry instant from a run changes no accept or reject answer |
| Zkp.CountBoundary | engine/security/zkp.go:185-201 | PendingCount spoils an acceptance at the same instant if and only if a pending challenge expires then |
| Zkp.DropAndCount | engine/security/zkp.go:189-200 | the deleting loop, in any map order, leaves exactly the unexpired and counts them |
| Zkp.DropExpired | engine/security/zkp.go:208-221 | the cleanup loop, in any map order, deletes exactly the expired and counts them |
| Zkp.Verifier.IssueChallenge | engine/security/zkp.go:87-110 | fails, changing nothing, exactly when the random source does; else stores the nonce under its hex id, and the returned hex decodes to it |
| Zkp.Verifier.VerifyProof | engine/security/zkp.go:120-157 | the verdict of the specification; the challenge is gone whatever it is |
| Zkp.Verifier.PendingCount | engine/security/zkp.go:185-201 | drops what expires now or before and counts the rest |
| Zkp.Verifier.CleanUp | engine/security/zkp.go:204-222 | drops what expired before now |
| Transaction.AppliedAt | engine/storage/blockstore_v2.go:113-122 | after any operations, an id holds what its last operation says |
| Transaction.CommitMeans | engine/storage/blockstore_v2.go:104-124 | a commit leaves nothing under an id with a staged delete, else the last block written, else what was there |
| Transaction.AgreesWithProgramOrder | engine/storage/blockstore_v2.go:107-124 | commit equals running the operations in program order if and only if every id with a staged delete has a delete as its last operation |
| Transaction.UnchangedWhereverItStops | engine/storage/blockstore_v2.go:41-43 | the store is unchanged at every stopping point if and only if no staged operation alone changes it |
| Transaction.WriteTransaction.WriteBlock | engine/storage/blockstore_v2.go:88-94 | stages a write unless closed |
| Transaction.WriteTransaction.DeleteBlock | engine/storage/blockstore_v2.go:96-102 | stages a delete unless closed |
| Transaction.WriteTransaction.Commit | engine/storage/blockstore_v2.go:107-124 | makes the writes, the deletes and the flush, in order, up to the first one refused: succeeds if and only if every one is granted, fails if and only if one is refused, calls nothing if closed; the store holds what was granted; closed afterwards |
| Transaction.WriteTransaction.WriteStaged | engine/storage/blockstore_v2.go:113-117 | the loop over the writes stops at the first one refused |
| Transaction.WriteTransaction.DeleteStaged | engine/storage/blockstore_v2.go:118-122 | so does the loop over the deletes |
| Transaction.WriteTransaction.Rollback | engine/storage/blockstore_v2.go:126-130 | discards everything staged and closes without touching the store |
| Base64.Base64Decode | core-rust/src/main.rs:356-388 | the loop with its four-byte buffer computes the decoding by cut, strip and regroup |
| Base64.AlphabetInOrder | core-rust/src/main.rs:357 | the 64 symbols in order are the alphabet literal |
| Base64.PositionIsIndex | core-rust/src/main.rs:369 | a byte has position v if and only if it is symbol v |
| Base64.GroupIs24Bits | core-rust/src/main.rs:372-375 | the four sextets of a group are the 24 bits of its three bytes |
| Base64.RegroupOfBits | core-rust/src/main.rs:372-385 | regrouping the sextets of any byte string, cut anywhere, gives it back |
| Base64.RoundTrip | core-rust/src/main.rs:356-388 | any text that is the encoding of x once whitespace is removed, with any number of '=' after it, decodes to x |
| Base64.PaddedRoundTrip | core-rust/src/main.rs:356-388 | so does the padded encoding of section 4 of RFC 4648 |
| Base64.DecodesExactly | core-rust/src/main.rs:356-388 | a text decodes to x if and only if what precedes its first '=', without whitespace, is in the alphabet and spells the bits of x, up to the spare bits of a short last group or one lone symbol more |
| Base64.StripCut | core-rust/src/main.rs:362-368 | whitespace may be removed before or after cutting at the first '=' |
| Base64.SpacesWritten | core-rust/src/main.rs:366-368 | the five whitespace bytes that are skipped |
| Base64.AcceptedLength | core-rust/src/main.rs:362-387 | accepted if and only if everything before the first '=' is whitespace or alphabet, and n alphabet characters make floor(3n/4) bytes |
| EntropyFile.CharsetWritten | core-rust/src/lib.rs:59-60 | the 91 bytes of the charset, in order |
| EntropyFile.Generate | core-rust/src/lib.rs:95-121 | the reused buffer writes lines of 80 to 120 printable bytes, each byte the charset's at the place drawn, each line ended by a newline |
| EntropyFile.Scan | core-rust/src/lib.rs:245-272 | on every byte string the starts found are exactly the specified ones |
| EntropyFile.StartsExactly | core-rust/src/lib.rs:261-269 | a start is listed if and only if it is the first byte of a maximal run of text, numbered by the breaks that count before it |
| EntropyFile.NumbersCountNewlines | core-rust/src/lib.rs:252-265 | the numbers count newlines if and only if every carriage return comes directly after a newline, so on any file without one |
| EntropyFile.BreakPairs | core-rust/src/lib.rs:252-265 | after text, "\r\n" counts as two lines and "\n\r" as one |
| EntropyFile.StartsAscend | core-rust/src/lib.rs:251-272 | starts come in file order, each once |
| EntropyFile.ScanFindsGeneratedLines | core-rust/src/lib.rs:95-121 | on a generated file of n lines there are n starts, the i-th numbered i at its true offset |
| EntropyFile.GeneratedLineAt | core-rust/src/lib.rs:107-112 | line i stands whole at its offset, followed by its newline |
| EntropyFile.Draw | core-rust/src/lib.rs:274-298 | fails exactly when the file has no text; else exactly count coordinates, each the one its two draws choose |
| EntropyFile.Chosen | core-rust/src/lib.rs:279-297 | the draws choose a specified start and a byte of its run of text |
| EntropyFile.NamedByteIsOnItsLine | core-rust/src/lib.rs:282-297 | in any file the byte a coordinate names lies on the line its number says, with only text between start and byte |
| EntropyFile.DrawnFromGenerated | core-rust/src/lib.rs:278-298 | from a generated file, the coordinates that can be drawn for a start are exactly the bytes of its line |

## Left out

- GqlDecoder.RoundTrip: for a non-empty default operation only queries with an operation of their own are covered; the exact statement is RoundTripExactly, for the empty default that ValidateFrame passes.
- GqlValidator.ValidateFrame: error texts are reduced to the first part or reason at fault.
- GqlValidator.ValidateFields: which entry an error names depends on map order and is not modelled.
- BusProtocol.RepliesAreCorrelated: assumes the ids of requests in flight are distinct, which newID gives and a caller-supplied id may break; such a request would overwrite another's entry in pending.
- BusProtocol.DispatchersFinish: bounds a dispatcher's own steps, with no fairness among threads; a request whose reply never comes waits until its context or the bus is done (step GiveUp).
- BusRegistry.Bus.Register: strings.ToUpper is an arbitrary function, constrained only where a lemma says so, and Channels() returns the same list each time.
- AuditLog.RingAuditLog.Recent: a negative n, which panics in the source, is excluded.
- Transaction.WriteTransaction.Commit: the store is a map whose operations may fail without effect; blocks that share memory with the caller, and a store that reports a missing id on delete, are not modelled.
- Zkp.Verifier.VerifyProof: the clock reading after the lock is released is part of the same step; constant-time comparison is equality.
- Two clock readings inside one call are taken to be equal, in the lockdown, limiter, detector and audit models.
- TTL is no bound on hops, since a TTL of 0 is refreshed; only the dropping of a negative one and the decrement are modelled. Event timestamps are not.
- Shutdown, contexts, panic recovery and logging of the bus.
- Results and errors as JSON (`EncodeResult`, `NewResultFrame`, `NewErrorFrame`), `SanitizeFieldKey`, `isValidOperation`.
- `RecordIngestOp`, `RecordDeleteOp` and the exfiltration pattern; `RemainingAttempts` and `LockoutStatus` of the rate limiter; `LockdownUntil`.
- Overflow of `time.Duration` and of counters.
- File, socket, terminal and foreign-function code, including reading the entropy file, flushing and writing JSON.
- The primitives of `engine/crypto` and the quality of randomness.
