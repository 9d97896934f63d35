# nsmd: protocols and codecs

A Dafny model of the parts of nsmd that carry state or describe themselves, with
proofs of what they keep. `dafny verify dfyconfig.toml` checks all of it.

| files | what they model |
|---|---|
| InstanceId, InstanceIdFairness, InstanceIdProtocol, InstanceIdProgress, InstanceIdStarvation, InstanceIdRecovery | the instance ID allocator: the code against the answers of fcntl, its round robin, any number of processes over one lock file, when exactly a call succeeds, when none can, and when the processes can work an ID free |
| FirmwareTlv, FirmwareOrder, FirmwareResponse, FirmwareGrammar, FirmwareWire, FirmwareRoundTrip, FirmwareCodec | the eROT state response: its tags, their order, the whole message as a function of its bytes, exactly which bytes are accepted and why others are not, the bytes sent, the round trip, and the code that reads and writes it |
| CoroutineSemaphore | the hand-off semaphore, the event loop and the coroutines that use it |
| Coroutine, CoroutineProgress | coroutine frames, all the coroutines of a program, and that they can always come to an end |
| FirmwareConfig | irreversible configuration: key permissions and minimum security versions |
| Bitmap, Bitfield256 | bitmaps and index lists, 256-bit fields, the set of errors already logged |
| SampleStream | aggregate responses with their samples |
| FixedPoint | 4.12 and 8.24 numbers |
| Histogram, HistogramResponse | arrays of integers in host and wire order, and the responses that carry them |
| NsmHeader | the header of every message |
| Bits, LittleEndian, Seqs, Nsm, Wrappers | bitwise operators on naturals, integers as bytes, facts about sequences, shared codes and datatypes |

The shape is the same throughout. Code that works step by step is a method on a
class, an array or local variables; its contract ties what it leaves behind to a
function of what it started from. Theorems are about those functions, and about
the state machines whose steps are made of them. Machine integers are naturals
below a power of two; where the code wraps around or truncates, so does the model.

## Where code and documentation part

* `instance_id_alloc` is documented to return -EAGAIN when a later call may succeed
  (`libnsm/instance-id.h:79-80`). Two fresh contexts that call it in lockstep both get
  -EAGAIN, with no fcntl error and nobody else there, and keep all the shared locks
  they took (`StarvationIsReachable`). From then on no call of either is granted
  anything, whatever other processes do, until some context is destroyed
  (`StarvesUntilClose`). There is no other way to get stuck: in every reachable state
  the processes can go on, none of them destroyed, so that a context is granted
  an ID if and only if it does not starve (`GrantableIffNotStarving`). A call that nobody interrupts succeeds if and only if some
  ID is not the previous one, not allocated by its context, and without a lock of
  any other descriptor (`GrantedIffAvailable`).
* The last -EPROTO of `instance_id_alloc` cannot be returned
  (`ProbeNeverMeetsWriter`).
* The order of a slot's tags makes a difference if and only if there are two or more
  and the version string has one or two bytes too near the end of the payload: it is
  refused when put last and accepted when put first (`SlotOrderInsensitiveIff`;
  `ShortStringLast` is such a slot).
* An eROT message of 65545 bytes or more is decoded up to the low 16 bits of its
  payload size. Everything sent is restored if and only if these cover the tags
  (`RoundTripIff`); with fewer than three such bytes the decoder reports what the
  caller's structure held before (`NothingSeen`).
* A success message of eight bytes passes the decoder's length check with a payload
  size of 65535, so that the header loop can read up to 64 KiB behind the message
  (`PayloadWithinIff`).
* `bitfield256_tToBitMap` and `bitfield256_tToBitArray` carry the same comment and
  mirror each other's words (`Mirrored`); `bitMapToBitfield256_t` undoes the latter.
* `bitmapToIndices` is right up to 32 bytes; its 8-bit index wraps around after that
  (`PartitionedIff`).
* The pending minimum security version of the AP can decrease
  (`ApPendingCanDecrease`; `ApPendingDecreasesIff` says exactly when).
* The two firmware update requests report a disabled configuration and a wrong nonce
  in opposite order (`OrderOfChecks`).
* A histogram without buckets does not survive its own encoding
  (`AcceptedIff`), and the reported array size is the one given only below
  65536 with the metadata (`SizeRoundTripsIff`).

## Model

| member | source | states |
|---|---|---|
| InstanceId.InstanceDb.constructor | libnsm/instance-id.c:80-83 | every endpoint starts with previous ID 31 and an empty bitmask |
| InstanceId.InstanceDb.Alloc | libnsm/instance-id.c:111-197 | against any answers of fcntl, the loop returns after at most 62 of them, with the answer that ends the specified scan and the grant or error that it reaches, and changes only the bitmask and cursor of its endpoint |
| InstanceId.InstanceDb.Free | libnsm/instance-id.c:199-227 | which of the four results is returned, exactly when; on success one ID leaves the bitmask, else nothing changes |
| InstanceId.NextIsCloser | libnsm/instance-id.c:44-47 | the circular distance to the previous ID falls with each candidate: the measure by which the loop ends |
| InstanceId.ScanInOrder | libnsm/instance-id.c:135-192 | whatever the kernel answers, the scan visits the IDs after the previous one in circular order, each once, and what it found about each is true |
| InstanceId.AllocTerminates | libnsm/instance-id.c:135-192 | no call waits for a 63rd answer |
| InstanceId.LastAnswerTells | libnsm/instance-id.c:152-196 | the answer that ends a call tells its result: -EAGAIN exactly for EAGAIN, EINTR, or a shared lock met by a probe (or when there was no candidate), success exactly for a probe that meets no lock, and -EPROTO exactly for any other error or an exclusive lock; no call ends with a reservation that succeeds |
| InstanceId.GrantIsFirstAvailable | libnsm/instance-id.c:140-188 | a granted ID was free and is not the previous one; every ID skipped was allocated here or contended |
| InstanceId.GivingUpMeansNoneAvailable | libnsm/instance-id.c:189-196 | without an fcntl error, a failing call returns -EAGAIN and found all 31 other IDs allocated or contended |
| InstanceId.AloneGrantsFirstFree | libnsm/instance-id.c:111-197 | for a call whose first candidate is answered as free: the grant is the first free ID in circular order and joins the allocated set; -EAGAIN if and only if all other 31 are allocated |
| InstanceId.CommitAllocates | libnsm/instance-id.c:183-185 | a grant adds exactly its ID to the allocated set |
| InstanceId.ReleaseRemoves | libnsm/instance-id.c:224-225 | a free removes exactly its ID |
| InstanceIdFairness.FinishedCallIsFair | libnsm/instance-id.c:130-197 | any call that returns keeps the history of its endpoint fair: between two grants of one ID all 31 others were granted or found unavailable, even with frees in between; two grants in a row differ; allocated = granted - freed |
| InstanceIdFairness.FreeIsFair | libnsm/instance-id.c:210-225 | so does a free |
| InstanceIdProtocol.OffsetInjective | libnsm/instance-id.c:145-146 | endpoint and ID are determined by the byte that is locked |
| InstanceIdProtocol.OffsetBijective | libnsm/instance-id.c:64-68 | the bytes of the endpoints and IDs are exactly the 8192 the file must have |
| InstanceIdProtocol.StepKeepsInv | libnsm/instance-id.c:111-227 | every step of any process (open, call, answer of an fcntl, clearing the bit, destroy, a foreign lock) keeps: an ID in use is backed by a held lock, but between unlock and bit-clear, and is in use once |
| InstanceIdProtocol.NoSharedInstanceId | libnsm/instance-id.c:135-227 | in every run of any number of processes, with interrupted and failing calls, contended probes, frees and destroys at any point, no instance ID of an endpoint is in use by two contexts |
| InstanceIdProtocol.ProbeNeverMeetsWriter | libnsm/instance-id.c:189-191 | the probe never reports an exclusive lock, so this branch is dead |
| InstanceIdProtocol.CallsBehaveLikeAlloc | libnsm/instance-id.c:111-197 | the interleaved call steps of the protocol and the allocating method agree after the same answers, and on what they leave |
| InstanceIdProtocol.ReturnCodes | libnsm/instance-id.c:152-196 | in every run a call returns -EPROTO if and only if the fcntl answer that ended it was an error other than EAGAIN and EINTR, -EAGAIN if and only if it was one of these or the last candidate was contended, and else succeeds |
| InstanceIdProtocol.RoundRobinInEveryRun | libnsm/instance-id.c:130-197 | the fairness statements hold for each context and endpoint of every run of many processes |
| InstanceIdProgress.GrantedIffAvailable | libnsm/instance-id.c:111-197 | from any reachable state, a call that nobody interrupts and no fcntl error ends is granted an ID if and only if some ID is not the previous one, not allocated here and not locked through any other descriptor; it takes the first of these in circular order, and returns -EAGAIN when there is none |
| InstanceIdProgress.CallExists | libnsm/instance-id.c:135-192 | there is such a call from every state in which no foreign program holds an exclusive lock on a byte of the endpoint |
| InstanceIdProgress.AloneOutcome | libnsm/instance-id.c:135-192 | if nobody else holds a lock on the endpoint, the answers of the lock file give the outcome AloneGrantsFirstFree is about |
| InstanceIdStarvation.StuckUntilClose | libnsm/instance-id.c:166-192 | once two contexts hold the byte of an ID that neither was granted, no context is granted that ID until one of the two is destroyed |
| InstanceIdStarvation.StuckIsReachable | libnsm/instance-id.c:152-192 | two contexts that start at the same time get there, for one ID, in six steps |
| InstanceIdStarvation.StarvingStep | libnsm/instance-id.c:135-192 | if every ID but the previous one of a context is held by two contexts that were not granted it, every step but a destroy keeps that so, grants the context nothing and leaves its cursor in place |
| InstanceIdStarvation.StarvesUntilClose | libnsm/instance-id.c:135-196 | so in every run, whatever all processes do, no later call of that context is granted anything until some context is destroyed |
| InstanceIdStarvation.StarvationIsReachable | libnsm/instance-id.c:135-196 | two fresh contexts in lockstep get there in 128 steps, without fcntl errors and foreign locks, and both calls return -EAGAIN |
| InstanceIdStarvation.CloseUnsticks | libnsm/instance-id.c:101-109 | destroying one of two contexts that are stuck makes the probe of the other succeed if and only if no third descriptor holds the byte |
| InstanceIdRecovery.GrantableIffNotStarving | libnsm/instance-id.c:111-227 | in every reachable state, some continuation in which no context is destroyed grants a context an ID of an endpoint if and only if it does not starve for that endpoint |
| InstanceIdRecovery.MovedByGrant | libnsm/instance-id.c:173-188 | the cursor of a context moves only when its probe is answered that no other lock is there, and then to the ID of that probe |
| InstanceIdRecovery.StepKeepsGood | libnsm/instance-id.c:135-227 | every step of any process keeps: what a context has locked is allocated to it or is not its previous ID, and it has no lock on an ID that it is giving back and has unlocked |
| FirmwareTlv.HdrAccepts | libnsm/firmware-utils.c:416-537 | any well-formed header tags, in any order, up to the slot count are read back, and exactly they |
| FirmwareTlv.SlotAccepts | libnsm/firmware-utils.c:539-701 | a slot ID and any slot tags are read back exactly when each version string has six bytes from its tag to the end of the payload; otherwise the result is a length error |
| FirmwareTlv.HdrConsumesTags | libnsm/firmware-utils.c:423-533 | on arbitrary bytes and counts, successful or not: the payload is the tags read, each well-formed, followed by what is left, and the count fell by their number |
| FirmwareTlv.SlotConsumesTags | libnsm/firmware-utils.c:546-697 | the same for a slot, whose first tag is its ID |
| FirmwareTlv.HdrResultIff | libnsm/firmware-utils.c:423-537 | on arbitrary bytes: success if and only if the slot count was read last, or fewer than three bytes or no count are left; otherwise an error in the data if and only if the tag in front is none of the seven, and a length error if and only if it is one but not all there |
| FirmwareTlv.SlotResultIff | libnsm/firmware-utils.c:546-701 | the same for a slot: an error in the data, with nothing read, if no slot ID is in front; after one, success if and only if the bytes or the count end or the next slot begins, an error in the data if and only if the tag in front is none of the eight, a length error if and only if it is one but not all there |
| FirmwareOrder.HdrOrderInsensitive | libnsm/firmware-utils.c:423-523 | permuting distinct header tags before the slot count changes neither result, decoded header, rest nor count |
| FirmwareOrder.SlotOrderInsensitive | libnsm/firmware-utils.c:572-687 | the same for distinct tags after a slot ID whose version strings fit at the end |
| FirmwareOrder.AllOrdersAcceptedIff | libnsm/firmware-utils.c:228-240 | all orders of a slot's tags are accepted if and only if each version string would fit put last |
| FirmwareOrder.SlotOrderInsensitiveIff | libnsm/firmware-utils.c:572-687 | for distinct well-formed slot tags, all orders decode to the same if and only if there is at most one or every version string fits even at the end |
| FirmwareOrder.ShortStringLast | libnsm/firmware-utils.c:228-240 | a one-byte version string before the build type is decoded, and after it is a length error |
| FirmwareGrammar.AcceptedIff | libnsm/firmware-utils.c:728-762 | a payload is decoded with success if and only if it is a header, as many slots as the header says, and a rest, with a count that covers the tags |
| FirmwareGrammar.PayloadAccepted | libnsm/firmware-utils.c:728-762 | and then the decoded header and slots are what exactly these tags make of the caller's header and of zeros |
| FirmwareGrammar.RefusedWhere | libnsm/firmware-utils.c:728-762 | a payload that is refused has whole slots up to one that is refused, with its result; the slots before it are decoded, it is in part, and those behind it are zero; or its header is refused, with its result and no slots |
| FirmwareGrammar.MessageResultIff | libnsm/firmware-utils.c:703-767 | which messages are accepted at all, by completion code, length and payload; what is not a success message leaves the caller's structure alone, and its reason code is returned exactly for a failure of nine bytes |
| FirmwareGrammar.HdrFieldsMean | libnsm/firmware-utils.c:423-523 | each decoded header field is the value in the last valid tag of its kind, or what the caller's structure held |
| FirmwareGrammar.SlotFieldsMean | libnsm/firmware-utils.c:572-687 | the same for each slot field but the version string |
| FirmwareGrammar.VersionMeans | libnsm/firmware-utils.c:222-249 | each byte of the version string is that of the last valid version tag that is so long, or what was there |
| FirmwareWire.FrontLayout | libnsm/firmware-utils.c:313-407 | the nine first bytes of a response, one by one |
| FirmwareWire.HdrLayout | libnsm/firmware-utils.c:337-364 | its header tags, byte by byte, with the length field of each |
| FirmwareWire.SlotLayout | libnsm/firmware-utils.c:366-405 | and those of a slot |
| FirmwareWire.HeaderReadBack | libnsm/firmware-utils.c:313-331 | unpacking the header of a response or a failure gives back the instance ID, that it is a response, and the firmware type |
| FirmwareResponse.EncodedSize | libnsm/firmware-utils.c:336-405 | n slots make 29 + 47n bytes and 7 + 9n tags, and neither leaves 16 bits |
| FirmwareResponse.SlotRoundTrip | libnsm/firmware-utils.c:369-405 | an encoded slot is decoded, up to the next slot ID or the end of the tags, to all its fields |
| FirmwareRoundTrip.RoundTrip | libnsm/firmware-utils.c:304-767 | decoding an encoded response restores every header and slot field for 0 to 255 slots, each version string cut to 16 bytes and zeros, whatever the caller's structure held, if the 16-bit payload size covers the 29 + 47n bytes of its tags |
| FirmwareRoundTrip.RoundTripIff | libnsm/firmware-utils.c:703-767 | for n slots and given trailing bytes, all that can be sent is restored into every structure if and only if the payload size covers the tags |
| FirmwareRoundTrip.RoundTripUpTo65544 | libnsm/firmware-utils.c:304-767 | so messages of up to 65544 bytes are always restored, whatever bytes follow the tags |
| FirmwareResponse.PayloadWithinIff | libnsm/firmware-utils.c:718-730 | the payload size computed stays within the message if and only if that has nine bytes or more (eight pass the length check), and is all there is if and only if it has 9 to 65544 |
| FirmwareRoundTrip.NothingSeen | libnsm/firmware-utils.c:728-730 | a payload size below three, as 65536 payload bytes give, returns the caller's own header |
| FirmwareRoundTrip.FailureRoundTrip | libnsm/base.c:685-727 | an error response carries its completion and reason codes and touches nothing else |
| FirmwareResponse.SlotsConsumeTags | libnsm/firmware-utils.c:749-762 | on arbitrary bytes, successful or not: what the slot loop used up is well-formed slot IDs and slot tags, as many as the count fell by, and n slots need n of them |
| FirmwareResponse.DecodedSlotsAreTheirTags | libnsm/firmware-utils.c:539-762 | on arbitrary bytes decoded with success: the bytes are groups of well-formed tags, one group a slot, each of a slot ID and slot tags, and each slot is what exactly its group makes of the caller's structure |
| FirmwareCodec.TagReader.DecodeFixed | libnsm/firmware-utils.c:131-220 | one tag of 1, 2, 4 or 8 data bytes: fails exactly when they are not there; cursor and size move together, the end of the buffer stays where it is |
| FirmwareCodec.TagReader.DecodeText | libnsm/firmware-utils.c:222-249 | one version string: needs six bytes and what its length field says, and is copied to the front of the old string |
| FirmwareCodec.TagReader.DecodeHeader | libnsm/firmware-utils.c:416-537 | on arbitrary bytes the loop ends, result, header, rest and count are the specified ones, position plus size is constant and neither counter underflows |
| FirmwareCodec.TagReader.DecodeSlotInfo | libnsm/firmware-utils.c:539-701 | the same for a slot |
| FirmwareCodec.DecodeResponse | libnsm/firmware-utils.c:703-767 | the message decoder, with its array of slots, computes the function RoundTripIff is about, for every message whose memory reaches as far as it reads |
| FirmwareCodec.TagWriter.EncodeFixed | libnsm/firmware-utils.c:45-114 | one tag is appended; nothing else of the buffer changes |
| FirmwareCodec.TagWriter.EncodeText | libnsm/firmware-utils.c:116-129 | one version string of 16 bytes is appended; nothing else changes |
| FirmwareCodec.EncodeResponse | libnsm/firmware-utils.c:304-414 | the encoder fills the buffer with exactly the specified bytes, telemetry count included, leaves the rest of the buffer alone, and refuses instance IDs over 31 |
| CoroutineSemaphore.CoroutineSemaphore.Acquire | common/coroutineSemaphore.hpp:147-155 | a new awaiter with the next ID |
| CoroutineSemaphore.CoroutineSemaphore.CoAwait | common/coroutineSemaphore.hpp:96-126 | goes on and takes the token if there is one, and waits at the end of the queue if not |
| CoroutineSemaphore.CoroutineSemaphore.ReleaseOne | common/coroutineSemaphore.hpp:165-238 | hands over to the front of the queue, and returns the token only if nobody waits |
| CoroutineSemaphore.StepKeepsInv | common/coroutineSemaphore.hpp:96-238 | every step of semaphore, event loop and clients keeps conservation, order and no lost wakeup |
| CoroutineSemaphore.OneTokenUnlessLost | common/coroutineSemaphore.hpp:165-238 | in every reachable state, free token + holders + scheduled resumptions = 1 if and only if no callback failed to be added, else 0; a queue that is not empty means the token is taken |
| CoroutineSemaphore.NothingAfterALoss | common/coroutineSemaphore.hpp:201-230 | after a callback could not be added nobody is ever granted the semaphore again |
| CoroutineSemaphore.GrantsInOrder | common/coroutineSemaphore.hpp:111-216 | grants are a prefix of the arrivals, in every run and whatever callback runs first: no newcomer overtakes; nobody is granted twice |
| CoroutineSemaphore.NthGrantToAwaiterN | common/coroutineSemaphore.hpp:147-155 | if awaiters are awaited at once, the n-th grant goes to awaiter n |
| CoroutineSemaphore.WaitsForItsTurn | common/coroutineSemaphore.hpp:177-187 | a waiter at index k moves up by one with each hand-off, leaves the queue with exactly the (k+1)st, and has been granted the semaphore before the next |
| CoroutineSemaphore.RunsInItsTurn | common/coroutineSemaphore.hpp:165-238 | when the callback of a waiter that was at index k resumes it, there have been exactly k + 1 hand-offs since |
| CoroutineSemaphore.NotStuck | common/coroutineSemaphore.hpp:165-238 | while somebody waits and nothing was lost, a holder can release or a callback can run |
| CoroutineSemaphore.EveryStepHelps | common/coroutineSemaphore.hpp:165-238 | each of these steps lowers a measure of what is left to do for those who have arrived |
| CoroutineSemaphore.EverybodyCanBeServed | common/coroutineSemaphore.hpp:165-238 | from every reachable state in which no callback was lost, releases and callbacks alone can go on so that everybody who has arrived is granted the semaphore and it is free in the end |
| CoroutineSemaphore.ArrivesOnce | common/coroutineSemaphore.hpp:96-155 | in every reachable state, an awaiter can be made and awaited, which makes it arrive, and cannot be awaited twice |
| Coroutine.CoroutineFrame.FinalSuspend | common/coroutine.hpp:67-101 | goes on with the parent, and destroys the frame if and only if it is detached |
| Coroutine.CoroutineObject.AwaitSuspend | common/coroutine.hpp:147-151 | always suspends, and the frame knows its parent from then on |
| Coroutine.CoroutineObject.Destruct | common/coroutine.hpp:153-159 | destroys the frame if and only if the coroutine is done |
| Coroutine.CoroutineObject.Detach | common/coroutine.hpp:161-177 | destroys a frame that is done, marks one that is not, and forgets it; a second time does nothing |
| Coroutine.StepKeepsInv | common/coroutine.hpp:67-177 | every step of any program of coroutines keeps the stack, who awaits whom, and the account of each frame's life |
| Coroutine.CalledRuns | common/coroutine.hpp:52-62 | in every run the code that executes after a call or a resumption is that coroutine, above the code that called it, which has its object |
| Coroutine.CallerGoesOnAfter | common/coroutine.hpp:59-62 | in every run the code that called or resumed a coroutine executes again only after that has left the stack, by ending, suspending or awaiting |
| Coroutine.AwaitedIsPickedUp | common/coroutine.hpp:130-159 | in every run, when a coroutine that awaited another executes again, in between the other had ended, its result was picked up, its object was gone and its frame was destroyed |
| Coroutine.DetachedIsDestroyed | common/coroutine.hpp:83-177 | in every run a frame is destroyed from the moment its coroutine is both detached and at its end, and not before |
| Coroutine.OthersUntouched | common/coroutine.hpp:67-177 | a step changes no frame but those it is said to touch |
| Coroutine.NoUseAfterDestroy | common/coroutine.hpp:83-177 | in every run, no step reads, writes or resumes a destroyed frame |
| Coroutine.DestroyedAtMostOnce | common/coroutine.hpp:83-177 | no frame is destroyed twice, and only one that is done and that no object refers to |
| Coroutine.NoLeak | common/coroutine.hpp:83-177 | when all coroutines have ended and no object is left, a frame has been destroyed exactly once, by destructor, detach or final suspend, if and only if it was not orphaned |
| Coroutine.OrphanIffDropped | common/coroutine.hpp:153-159 | a frame is orphaned if and only if its object ended, not detached, before the coroutine was done |
| Coroutine.ResumedOncePerAwait | common/coroutine.hpp:83-99 | a coroutine is resumed by final suspends once for each time it suspended in co_await, and only then |
| Coroutine.AwaitsUntilResumed | common/coroutine.hpp:83-99 | a coroutine that awaits does so until a final suspend resumes it |
| Coroutine.ReverseNestingOrder | common/coroutine.hpp:83-99 | in an await chain of any depth, a coroutine is resumed only after each of those below it that awaits has been |
| Coroutine.AwaitChainsEnd | common/coroutine.hpp:83-151 | in every reachable state, a coroutine that is not over awaits, through a chain without circles, one that is on the stack or waits for somebody outside |
| CoroutineProgress.CanAllEnd | common/coroutine.hpp:59-177 | from every reachable state all coroutines can come to their end, without a call of another and without dropping an object, and then each frame has been destroyed exactly once but those that were orphaned before |
| CoroutineProgress.DeepChain | common/coroutine.hpp:130-151 | await chains of every depth are reachable |
| FirmwareConfig.FirmwareStateMachine.constructor | mockupResponder/firmwareUtils.cpp:28-62 | the initial state |
| FirmwareConfig.FirmwareStateMachine.IrreversibleConfig | mockupResponder/firmwareUtils.cpp:291-369 | answer and new state: only the configuration state changes |
| FirmwareConfig.FirmwareStateMachine.CodeAuthKeyPermUpdate | mockupResponder/firmwareUtils.cpp:449-607 | answer by the first reason to refuse; the fuse bytes are ORed in place, in bounds; nothing else changes |
| FirmwareConfig.FirmwareStateMachine.UpdateMinSecurityVersion | mockupResponder/firmwareUtils.cpp:657-780 | answer by the first reason to refuse; one minimum changes or nothing does |
| FirmwareConfig.MostRestrictiveMeans | mockupResponder/firmwareUtils.cpp:546-602 | a most restrictive bitmap has exactly the bits below the key index, and fits a fuse of n bytes if and only if the index is at most 8n |
| FirmwareConfig.MostRestrictiveFromIndices | mockupResponder/firmwareUtils.cpp:546-561 | the list of indices the handler builds gives that bitmap |
| FirmwareConfig.AnswersAreTruthful | mockupResponder/firmwareUtils.cpp:525-767 | a refusal changes nothing; after a success every bit asked for is set, or the minimum asked for is in place |
| FirmwareConfig.FuseIsOrOfAccepted | mockupResponder/firmwareUtils.cpp:525-604 | over every request sequence a bit of a fuse is set if and only if an accepted update of that component asked for it |
| FirmwareConfig.FuseIffAuthorised | mockupResponder/firmwareUtils.cpp:495-604 | the same in terms of the requests alone: a bit is set if and only if some update asked for it with an enable in force, the right nonce, kind 0 without a bitmap or 1, class 10, index 0, this component, and a bitmap that fits its fuse |
| FirmwareConfig.FuseBitsStay | mockupResponder/firmwareUtils.cpp:569-602 | no bit is ever cleared |
| FirmwareConfig.EcFusesAgree | mockupResponder/firmwareUtils.cpp:598-602 | the fuse of the EC always equals its pending fuse |
| FirmwareConfig.MostRestrictiveContributes | mockupResponder/firmwareUtils.cpp:546-604 | in every run an accepted most restrictive request contributes exactly bits 0 to 5 (AP) or 0 to 1 (EC) |
| FirmwareConfig.MinimaBounded | mockupResponder/firmwareUtils.cpp:708-767 | in every run the minimum of the EC and the pending minimum of the AP stay at or below the active version |
| FirmwareConfig.EcMinimumNeverDecreases | mockupResponder/firmwareUtils.cpp:710-745 | in every run the minimum of the EC never decreases |
| FirmwareConfig.ApPendingDecreasesIff | mockupResponder/firmwareUtils.cpp:747-767 | the pending minimum of the AP decreases if and only if a specified version below it is accepted |
| FirmwareConfig.ApPendingCanDecrease | mockupResponder/firmwareUtils.cpp:747-767 | three requests after which it has decreased |
| FirmwareConfig.ConfigMeans | mockupResponder/firmwareUtils.cpp:336-353 | the configuration is enabled if and only if some request enabled it and none has disabled it since |
| FirmwareConfig.ChangesAreAuthorized | mockupResponder/firmwareUtils.cpp:525-532 | in every run, if anything but the configuration state changes, the configuration was enabled and not disabled since, and the nonce is right |
| FirmwareConfig.OrderOfChecks | mockupResponder/firmwareUtils.cpp:691-706 | with a wrong nonce, the two update requests answer differently if and only if the configuration is disabled |
| FirmwareConfig.IrreversibleAnswers | mockupResponder/firmwareUtils.cpp:291-369 | in every run a query is answered by whether an enable is in force, an enable by the nonce |
| FirmwareConfig.KeyPermAnswers | mockupResponder/firmwareUtils.cpp:495-607 | in every run, each of the five answers to a key permission update is given if and only if a condition on request and history holds |
| FirmwareConfig.MinVersionAnswers | mockupResponder/firmwareUtils.cpp:682-780 | the same for minimum versions: success if and only if an enable is in force, the nonce is right, and the version is specified and from the minimum (EC) or 1 (AP) to the active version, or the request is most restrictive |
| FirmwareConfig.OthersStay | mockupResponder/firmwareUtils.cpp:291-780 | a request changes nothing but the configuration state, one minimum, or the fuse of one component |
| Bitmap.BitmapToIndices | common/utils.cpp:402-424 | the nested loops compute the positions of zeros and ones, modulo 256 |
| Bitmap.PartitionedIff | common/utils.cpp:402-424 | each position is in exactly one list if and only if there are at most 32 bytes; then both lists ascend |
| Bitmap.ConvertBitMaskToVector | common/utils.cpp:260-298 | appends the positions of the ones, the same list as BitmapToIndices gives |
| Bitmap.IndicesToBitmap | common/utils.cpp:426-461 | the bitmap, or the error, that ToBitmapMeans is about |
| Bitmap.ToBitmapMeans | common/utils.cpp:426-461 | fails if and only if the size is over eight or an index does not fit it; otherwise bit k is set if and only if k is listed, in the size asked for or the shortest that holds them |
| Bitmap.RestoresBitmap | common/utils.cpp:402-461 | for 1 to 8 bytes, the ones with the size restore the bitmap |
| Bitmap.RestoresTrimmed | common/utils.cpp:402-461 | for up to 32 bytes, the ones without a size restore it without its trailing zero bytes |
| Bitmap.SortsIndices | common/utils.cpp:402-461 | the other way round a list comes back sorted and without duplicates |
| Bitfield256.BitMap | common/utils.cpp:361-383 | bit k of the bitmap is bit k of the field |
| Bitfield256.BitArray | common/utils.cpp:386-400 | each word in four bytes, highest first |
| Bitfield256.FromBitArray | common/utils.cpp:556-578 | the field whose bytes these are; the empty field unless there are 32 |
| Bitfield256.BytesDetermine | common/utils.cpp:386-400 | fields with the same bytes are the same, so the two are inverses |
| Bitfield256.Mirrored | common/utils.cpp:361-400 | bits 32i + 8c to 32i + 8c + 7 of the field, byte 4i + c of the one conversion, are byte 4i + 3 - c of the other |
| Bitfield256.ErrorCodes.IsBitSet | common/utils.cpp:463-481 | false if and only if the code is not zero and not in the set yet; afterwards it is, and no other code is added |
| Bitfield256.LogOnce | common/utils.cpp:463-504 | over any sequence of codes, IsBitSet calls a code new if and only if it is not zero and has not occurred before, and the list afterwards has exactly the non-zero codes that occurred, ascending |
| Bitfield256.ErrorCodes.GetSetBits | common/utils.cpp:483-504 | the clear-lowest-bit loops end and list exactly the codes in the set, ascending |
| Bitfield256.ClearLowest | common/utils.cpp:493-500 | clearing the lowest bit takes that bit away, no other, and makes the word smaller |
| SampleStream.EncodeSample | libnsm/platform-environmental.c:1604-1632 | succeeds if and only if the length is 1, 2, 4, ... or 128, and then writes exactly the sample; otherwise tag and valid bit have been written |
| SampleStream.DecodeSample | libnsm/platform-environmental.c:1634-1661 | result, sample and length consumed, from the bytes up to the given length only |
| SampleStream.SampleRoundTrip | libnsm/platform-environmental.c:1604-1661 | a sample that could be encoded is decoded to itself, whatever follows |
| SampleStream.DecodedIsSendable | libnsm/platform-environmental.c:1634-1661 | a success consumes between 3 and the remaining bytes; encoding its sample gives the same bytes if and only if the reserved bits were zero |
| SampleStream.StreamRoundTrip | libnsm/platform-environmental.c:1604-1661 | any list of samples, encoded back to back, is recovered exactly by decoding and advancing |
| SampleStream.StreamConsumes | libnsm/platform-environmental.c:1634-1661 | on arbitrary bytes, successful or not: the samples decoded can be sent and have the length of the bytes that are gone, the rest is the end of the bytes, and a success means that there are as many as asked for |
| SampleStream.StreamIsPieces | libnsm/platform-environmental.c:1634-1661 | what is gone is the pieces, in order, each of which decodes, alone, to its sample |
| SampleStream.SentAgainIff | libnsm/platform-environmental.c:1604-1661 | the samples decoded, encoded again, are the bytes that are gone if and only if no piece has a reserved bit set |
| SampleStream.CutSample | libnsm/platform-environmental.c:1634-1661 | a sample cut short is a length error up to two bytes, and from three on an error in the data with tag, valid bit and the length it should have had |
| SampleStream.CutStream | libnsm/platform-environmental.c:1634-1661 | a stream of samples cut short at any byte gives exactly the samples that are whole and then that error |
| SampleStream.MessageRoundTrip | libnsm/platform-environmental.c:1553-1661 | header and samples of a whole message are recovered |
| SampleStream.HeaderReadBack | libnsm/platform-environmental.c:1553-1575 | its header is read back as a response of its type, with the low five bits of the instance ID |
| FixedPoint.FromUFXP4_12Means | libnsm/platform-environmental.c:5693-5697 | the value of any word has the four high bits as integer part and the twelve low bits, over 4096, as fraction |
| FixedPoint.ToUFXP4_12Means | libnsm/platform-environmental.c:5699-5716 | from 0 to 1 the parts put together are the reading times 4096 rounded down, above 1 it is 0 |
| FixedPoint.UFXP4_12RawRoundTrip | libnsm/platform-environmental.c:5693-5716 | word to value to word is the identity if and only if the word is at most 4096 |
| FixedPoint.UFXP4_12ValueRoundTrip | libnsm/platform-environmental.c:5693-5716 | value to word to value never exceeds the input, and errs by less than 2^-12 if and only if the input is at most 1 |
| FixedPoint.PartsAreQuotient | libnsm/platform-environmental.c:5718-5727 | the split into 8 and 24 bits equals the word divided by 2^24 |
| FixedPoint.UFXP8_24RawRoundTrip | libnsm/platform-environmental.c:5718-5733 | word to value to word is the identity on all 32-bit words |
| FixedPoint.UFXP8_24Greatest | libnsm/platform-environmental.c:5718-5733 | the word of a reading is the greatest whose value does not exceed it |
| FixedPoint.UFXP8_24ValueRoundTrip | libnsm/platform-environmental.c:5718-5733 | value to word to value never exceeds the input and errs by less than 2^-24 |
| Histogram.ConvertArray | libnsm/base.c:108-280 | the in-place loops convert the given number of elements and touch no byte behind them |
| Histogram.DataCopy | libnsm/base.c:282-319 | copies exactly number times element size bytes |
| Histogram.ElementSizes | libnsm/base.c:108-319 | n elements take n, 2n, 4n and 8n bytes for the types of 8, 16, 32 and 64 bits, 4n for NvS24_8 and none for an unknown type |
| Histogram.LaidIff | libnsm/base.c:108-319 | any list of integers that fit a type is what a host reads from an array if and only if the array has them laid out in its byte order |
| Histogram.ConvertMeans | libnsm/base.c:119-124 | on a host of either byte order, a converted element is its value lowest byte first, and converting again restores it |
| Histogram.AcrossHosts | libnsm/base.c:108-280 | integers of each of the eight types, converted on one host and again on another, keep their values, whatever the byte orders |
| Histogram.OnTheWire | libnsm/base.c:108-193 | what is sent has the same values lowest byte first |
| HistogramResponse.Encode | libnsm/base.c:1360-1406 | message and caller's array afterwards; two reserved bytes and everything behind the message stay |
| HistogramResponse.Decode | libnsm/base.c:1408-1443 | result, fields and destination afterwards |
| HistogramResponse.FormatRoundTrip | libnsm/base.c:1230-1242 | the fields of the format metadata survive |
| HistogramResponse.FieldsRoundTrip | libnsm/base.c:1199-1303 | all fields of an encoded message come back, and the array in it, if at least one byte follows the metadata |
| HistogramResponse.SizeRoundTripsIff | libnsm/base.c:1389-1391 | the array size comes back if and only if it fits 16 bits with the metadata, or wraps around at 2^32 |
| HistogramResponse.AcceptedIff | libnsm/base.c:1408-1443 | an encoded message, with any array and any length given, is accepted with all its fields if and only if the length reaches behind the metadata, and is a length error otherwise: so a message without buckets is refused |
| HistogramResponse.FailureFields | libnsm/base.c:685-727 | a failure gives back its codes if and only if it has nine bytes, and is a length error otherwise; a message that is accepted only gives nothing |
| HistogramResponse.HeadReadBack | libnsm/base.c:1366-1380 | its header is read back as a response of its type, with the low five bits of the instance ID |
| HistogramResponse.Transfer | libnsm/base.c:1199-1440 | from what the encoder leaves in the message to what the decoder leaves in the destination, on hosts of any byte orders: all fields come back, the buckets have the values they had, and what lies behind them in the destination is untouched |
| HistogramResponse.BucketsArrive | libnsm/base.c:1199-1440 | any integers the bucket type can hold, laid out in the sender's byte order, are in the message lowest byte first and in the destination in the receiver's byte order, with what was behind them behind them |
| HistogramResponse.Exchange | libnsm/base.c:1199-1440 | the encoder on one host and the decoder on another, called one after the other, do that |
| HistogramResponse.DataRoundTrip | libnsm/base.c:1199-1443 | in an encoded data response, type and number of the buckets are decoded to what was sent |
| HistogramResponse.FormatResponseRoundTrip | libnsm/base.c:1199-1443 | in an encoded format response, all of the format is decoded to what was sent |
| HistogramResponse.BucketsRoundTrip | libnsm/base.c:1395-1440 | an array converted on one host and, with other bytes behind it, on another has the values it had |
| NsmHeader.PackHeader | libnsm/base.c:25-73 | five bytes are written, or nothing and an error if type or instance ID are out of range |
| NsmHeader.UnpackHeader | libnsm/base.c:75-106 | the header in the bytes, or the one passed in and an error |
| NsmHeader.HeaderRoundTrip | libnsm/base.c:25-106 | every header is read back in both versions, whatever follows, and refused with any other |
| NsmHeader.UnpackIff | libnsm/base.c:75-106 | five bytes are a header if and only if they carry the vendor, the type and one of the two versions; packed again they are the same if and only if the reserved bit was zero |

## Left out

- InstanceDb.Free: shifting by an instance ID of 64 or more is undefined in C, so the ID is required to be smaller.
- NoSharedInstanceId: says nothing of progress; when contexts block each other for good is what GrantableIffNotStarving says.
- GrantedIffAvailable: is about calls that nobody interrupts; StarvesUntilClose and NoSharedInstanceId hold for all interleavings.
- AloneGrantsFirstFree: takes the answers as given; AloneOutcome derives them, and GrantIsFirstAvailable covers all others.
- DecodeResponse: the memory it reads must be there, which for a success message of eight bytes is 64 KiB more than the message; NULL pointers are not modelled.
- RoundTrip: the host is little-endian, because the telemetry count is read without conversion.
- SlotRoundTrip: is one way only; the fixed-width decoders ignore the length field, so other bytes decode to the same slot; AcceptedIff and SlotFieldsMean say which and to what.
- Acquire: the awaiter ID is unbounded where the code has an int; the mutex and the atomic are left out, the event loop being single-threaded.
- ReleaseOne: only a holder releases, try_acquire does not fail spuriously, and whether the callback can be added is an input.
- Enabled: a Coroutine object is never copied, a coroutine does not end before its objects do, and whoever resumes one from outside resumes one that waits.
- FinalSuspend: exceptions of a coroutine body reach it like a normal end; the returned value is not modelled.
- FirmwareStateMachine: requests are taken as decoded, the fields no request changes are left out but for the key indices, and a version or nonce is any natural number.
- IsBitSet: codes are from 0 to 255, as the bit field demands.
- GetSetBits: the list of codes, not its text.
- ToUFXP4_12: readings are not negative; converting a negative double to unsigned is undefined.
- ToUFXP8_24: readings are real numbers from 0 to below 256, so that the rounding of doubles is not covered.
- ConvertArray: not for NvS24_8, whose float variable makes the conversion lossy.
- Encode: as in PackHeader, the header has the layout of bit fields on a little-endian host; the usual big-endian ABIs place instance ID and OCP version in the high bits.
- Decode: message and destination must hold the elements the metadata announces; the code checks neither.
- D-Bus, asio and sd-event plumbing (`common/dBusHandler.cpp`, `common/sleep.hpp`, `nsmd/`): calls into code that is not there.
- Timers, NULL checks, logging, allocation failure, opening and sizing the lock file, command lines and the mock's sample data.
- Request and response pairs that copy one fixed structure, and the workload profile codecs.
