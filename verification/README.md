# littleB: a verified model of the server's pipeline and services

littleB is a small game server: a byte pipeline (length-field framing, opcode, protobuf
message, session role, dispatcher) in front of account and progress services that keep
their data in Redis. This project models that code in Dafny and proves what it guarantees
over whole byte streams, whole call histories and all interleavings.

`dafny verify dfyconfig.toml` checks everything.

## Layout

| file | contents |
|---|---|
| `MachineInts.dfy` | 32/64-bit conversions, byte order, sequence lemmas |
| `Segments.dfy` | buffer chains: bytes, segment boundaries, socket reads |
| `FrameDecoder.dfy` | `decode`, the read loop and a connection as functions, on bytes and on chains; the mutating methods proved against them |
| `FrameTheorems.dfy` | conservation, chunk independence, exactness of the mixed-width arithmetic |
| `FrameEncoder.dfy` | the prepender, the parameterised round trip, streams, the server's configuration |
| `SegmentTheorems.dfy` | which frames lie in one segment, for every chunking |
| `Protocol.dfy` | requests as threads of single Redis commands; the interleaving machine; a request running alone |
| `AccountTheorems.dfy`, `AccountLimits.dfy` | what holds under every interleaving, and where it stops |
| `RegistrationTheorems.dfy` | registration, passwords and sessions under interleaving, with the exact condition |
| `SequentialTheorems.dfy`, `SessionTheorems.dfy` | registration, login, erasure and sessions over call histories |
| `TaskTheorems.dfy` | progress updates and queries refine an abstract map; isolation between accounts |
| `Services.dfy` | the managers and services as mutating objects, proved to compute what `Protocol` says |
| `Registry.dfy` | the two command registries |
| `Pipeline.dfy` | opcode, messages, routing, the connection object, end to end |

## How the model is set up

* `Decode` is one call of the decoder; `ReadAll` repeats it until it yields no frame, which is
  what the base class's read is assumed to do; `Feed` is a connection fed chunk by chunk.
  Consumed bytes are kept as pieces (stripped, emitted, discarded), so nothing can vanish.
* A buffer queue is a chain of segments, kept as its bytes with a mark on each byte that
  begins a segment. A socket read carries at least one byte; whether its bytes join the last
  segment or open a new one is up to the allocator, so an `Arrival` says which. Trimming and
  splitting keep boundaries. `ReadCellsFlat` links this to the flat functions.
* A request is a `Thread` whose constructors name the Redis command it is about to issue.
  `Advance` performs one command; `Run` folds any sequence of arrivals and actions from the
  empty store. Every command may be answered by an error reply, and each branch then does
  what the code does with that reply (a failed existence check answers "already exists"; an
  error text read as progress data is parsed like data). The start-up seed is not part of it.
* `Complete` is a thread running alone. The objects in `Services.dfy` are proved to compute
  `Complete`, and `Complete` is proved to be one of the machine's runs. A history of calls is
  proved to be a run in which requests do not overlap, and the sequential theorems about
  passwords, registrations and sessions are derived from the interleaved ones.
* Account strings reach Redis through `c_str()`, so keys stop at the first NUL (`CStr`). The
  theorems are stated for all strings; "named" means that the key is not empty.
* The history fields of the machine (`issued`, `writes`, `registered`) are written by it and read by no action.
* Protobuf is a parameter (`Codec`). The theorems ask that parsing gives back the requests of
  the stream at hand (`Inverts`), that parsed messages have their command's type (`Typed`),
  and, for the converse direction, that no shorter byte string is read as the same request
  (`Strict`). `ServerEndToEndApplies` shows that these can be met for every list of up to 2^32 requests.

## Results that contradict the documentation or an expectation

* The prepender writes 65535-byte payloads; the server's decoder refuses them (`ServerLimits`,
  `ServerRefusesItsOwnLargest`). The round trip holds exactly under `Recoverable`.
* When adjustment plus end offset is negative the 32-bit sum wraps and the frame length is off
  by 2^32 (`FrameLengthExact`, `NegativeSumIsOff`); the decoder then rejects every header
  exactly when the maximum is below the wrapped sum, and otherwise waits for gigabytes on
  small field values (`NegativeSumRejectsAll`).
* The decoder's header comment shows three-byte length fields; the code has no case for them,
  so `Supported` excludes them.
* After an oversize header the pieces consumed depend on chunking (`OversizeDependsOnChunking`),
  and so can the frames handed on (`OversizeChangesFrames`).
* The parser is given only the first segment of a frame: a request reaches its service
  unchanged exactly when no socket read opened a segment inside it (`ReachesServiceIff`,
  `CutRequestIsMisread`). A cut request is not dropped: it is served as whatever its first
  segment parses to, a LOGIN without its password for instance (`CutIsReadAs`, `EndToEndCut`).
* Player ids are unique while the counter is at most 2^32 and repeat at 2^32 + 1
  (`IdsBelongToOneAccount`, `IdsRepeatAfterWrap`).
* Two registrations of one account that are both between the existence check and the password
  write can both succeed (`RegistrationsRace`). That overlap is the exact condition
  (`TwiceIffOverlap`): on every run without it, "at most once" and "the password never
  changes" hold (`RegisteredOnce`, `PasswordIsFixed`).
* A first login writes back the whole role it read, so a role stored in between is undone
  (`LoginWritesBack`).
* Progress does not always follow the reports. It does if and only if every stored write
  consists of the ids the store holds for the player and its own report (`IntactIffBuilt`). It
  fails in two ways: overlapping updates lose reports (`OverlapLosesReports`; `OverlapLoses`
  says exactly what one overlap costs), and an update whose read is answered by an error
  stores what the error text parses to, because only a nil reply is rejected
  (`FailedReadAddsTasks`; `FailedReadIsStored` says exactly when that does no harm). Without
  failed reads only losses are possible (`IntactIffLossless`); without overlaps only wrong
  reads matter (`TasksAlwaysOk`).
* A query whose read is answered by an error reports success (`QueriesAnswerTheHistory`).
* A LOGIN refused for a wrong password still binds an unbound address to the named account,
  whose progress the address can then change (`RefusedLoginStillBinds`).
* Erasing clears the session and writes the empty-name key; the account's stored role stays
  (`EraseEffect`).

## Model

| member | source | states |
|---|---|---|
| `MachineInts.UintRoundTrip` | libsrc/handlers/LengthFieldPrepender.cpp:50-88 | a length field written in either byte order is read back as the same value whenever it fits the width |
| `MachineInts.NetworkOrderMirrors` | libsrc/handlers/LengthFieldBasedFrameDecoder.cpp:86-119 | the two byte orders read the same number from mirrored bytes |
| `MachineInts.FieldDigits` | libsrc/handlers/LengthFieldBasedFrameDecoder.cpp:86-119 | every byte of a field has its weight: base-256 digit i of the value is byte i, counted from the end in network order |
| `MachineInts.TwoByteField` | libsrc/handlers/LengthFieldBasedFrameDecoder.cpp:95-102 | a two-byte field is high byte first in network order and low byte first otherwise |
| `FrameDecoder.LengthFieldBasedFrameDecoder.GetUnadjustedFrameLength` | libsrc/handlers/LengthFieldBasedFrameDecoder.cpp:79-122 | the value read is the field's bytes in the configured order and is below 256^width |
| `FrameDecoder.LengthFieldBasedFrameDecoder.DecodeOnce` | libsrc/handlers/LengthFieldBasedFrameDecoder.cpp:38-77 | the queue, the verdict and the frame, segment boundaries included, are those of `DecodeCells`; no trim exceeds the queue |
| `FrameDecoder.LengthFieldBasedFrameDecoder.DecodeKnown` | libsrc/handlers/LengthFieldBasedFrameDecoder.cpp:48-77 | once the frame length is known, the queue, the verdict and the frame are those the branches of `DecodeAt` cut off the chain |
| `FrameDecoder.LengthFieldBasedFrameDecoder.TakeFrame` | libsrc/handlers/LengthFieldBasedFrameDecoder.cpp:72-76 | a frame is split off exactly when its stripped length fits `int`; otherwise the queue is drained |
| `FrameDecoder.ReadCellsFlat` | libsrc/handlers/LengthFieldBasedFrameDecoder.cpp:38-77 | reading a chain and forgetting the boundaries is reading its bytes |
| `FrameDecoder.LengthFieldBasedFrameDecoder.Read` | libsrc/handlers/LengthFieldBasedFrameDecoder.h:184-190 | the read loop terminates and emits exactly the frames of `ReadAll`, as the chains of `ReadCells`, leaving their rest |
| `FrameDecoder.Decode` | libsrc/handlers/LengthFieldBasedFrameDecoder.cpp:38-77 | a call never lengthens the buffer and every emitted frame consumes at least one byte, which is why the loop ends |
| `FrameDecoder.RestIsSuffix` | libsrc/handlers/LengthFieldBasedFrameDecoder.cpp:38-77 | whatever the branch, the rest is the end of the buffer |
| `FrameTheorems.Conservation` | libsrc/handlers/LengthFieldBasedFrameDecoder.cpp:38-77 | over any reads, errors included, received bytes are the emitted, stripped and discarded ones in order, then the buffer |
| `FrameTheorems.DecodeStable` | libsrc/handlers/LengthFieldBasedFrameDecoder.cpp:40-63 | once a call does not wait for more, further bytes change neither its branch nor its frame |
| `FrameTheorems.ChunkIndependence` | libsrc/handlers/LengthFieldBasedFrameDecoder.cpp:38-77 | for every supported configuration, a stream that decodes cleanly at once gives the same pieces and leftover under every chunking, with no error on the way |
| `FrameTheorems.OversizeDependsOnChunking` | libsrc/handlers/LengthFieldBasedFrameDecoder.cpp:54-59 | for every configuration and every buffer whose oversize frame and content both go beyond the header, reading at once consumes other pieces than cutting after the header, where all bytes behind the header are decoded afresh |
| `FrameTheorems.OversizeChangesFrames` | libsrc/handlers/LengthFieldBasedFrameDecoder.cpp:54-59 | even the frames handed on differ: a configuration and two bytes that give no frame at once and an empty frame in two reads |
| `FrameTheorems.FrameLengthExact` | libsrc/handlers/LengthFieldBasedFrameDecoder.cpp:44-46 | the machine sum equals the integer sum if and only if neither the 32-bit nor the 64-bit addition wraps |
| `FrameTheorems.FieldIsRead` | libsrc/handlers/LengthFieldBasedFrameDecoder.cpp:79-122 | for every configuration the length field is the `width` bytes at the offset, digit by digit, in the configured order |
| `FrameTheorems.FrameLengthIs` | libsrc/handlers/LengthFieldBasedFrameDecoder.cpp:44-46 | the machine sum on every input: the integer sum, off by 2^32 where the 32-bit addition wraps and by 2^64 where the 64-bit one does |
| `FrameTheorems.DecodesExactly` | libsrc/handlers/LengthFieldBasedFrameDecoder.cpp:38-77 | one call on every input: the branch, the number of bytes gone (a frame, the header, or all that is buffered of an oversize frame, up to its length) and the bytes handed on |
| `FrameTheorems.CutsExactly` | libsrc/handlers/LengthFieldBasedFrameDecoder.cpp:38-77 | the same call on a chain cuts it at those places and moves no segment boundary |
| `FrameTheorems.ClassifiesAsSigned` | libsrc/handlers/LengthFieldBasedFrameDecoder.cpp:48-70 | without wrap, every branch is the one unbounded signed arithmetic takes |
| `FrameTheorems.NegativeSumIsOff` | libsrc/handlers/LengthFieldBasedFrameDecoder.cpp:46-59 | with a negative sum and a field of at most four bytes the length is off by 2^32, and a header is oversize exactly when the wrapped length exceeds the maximum |
| `FrameTheorems.NegativeSumRejectsAll` | libsrc/handlers/LengthFieldBasedFrameDecoder.cpp:46-59 | every header is then reported oversize if and only if the maximum is below 2^32 plus the sum |
| `FrameTheorems.WholeMessageIsExact` | libsrc/handlers/LengthFieldBasedFrameDecoder.h:76-96 | in whole-message configurations the frame length is the field value itself |
| `FrameEncoder.LengthFieldPrepender.Write` | libsrc/handlers/LengthFieldPrepender.cpp:36-97 | the outcome, error or bytes, is that of `Encode`, which `WrittenIff` characterises and `RoundTrip` inverts |
| `FrameEncoder.WrittenIff` | libsrc/handlers/LengthFieldPrepender.cpp:36-92 | for every prepender and payload: refused as negative, refused as too long, or written as a field that reads as the length followed by the payload, each exactly when the length narrowed to `int` says so |
| `FrameEncoder.RoundTrip` | libsrc/handlers/LengthFieldPrepender.cpp:36-92 | for every matching pair and every payload: it is written and recovered with the following bytes untouched if and only if its length fits the field and `int`, the adjustment does not reach below the field, the size fits `int` and the frame is within the maximum |
| `FrameEncoder.WrittenRoundTrip` | libsrc/handlers/LengthFieldPrepender.cpp:36-92 | where the write went through, the conditions on the decoder alone decide |
| `FrameEncoder.EncodedFrameLength` | libsrc/handlers/LengthFieldBasedFrameDecoder.cpp:44-46 | the matching decoder computes field width plus payload size, off by exactly 2^32 when the sum is negative |
| `FrameEncoder.OversizedFrameIsSkipped` | libsrc/handlers/LengthFieldBasedFrameDecoder.cpp:54-59 | a fully buffered frame beyond the maximum is discarded exactly; the bytes after it are left untouched |
| `FrameEncoder.ProperPrefixWaits` | libsrc/handlers/LengthFieldBasedFrameDecoder.cpp:61-63 | every proper prefix of an encoded frame is waited for, never misread |
| `FrameEncoder.AfterSomeChunks` | libsrc/handlers/LengthFieldBasedFrameDecoder.cpp:38-77 | after any prefix of the chunks: exactly the first j payloads emitted, a proper prefix of the next encoding buffered, no error |
| `FrameEncoder.ReadWholeStream` | libsrc/handlers/LengthFieldPrepender.cpp:36-97 | the encodings of sendable payloads, read at once, decode cleanly to those payloads and nothing is left |
| `FrameEncoder.WholeStream` | libsrc/handlers/LengthFieldPrepender.cpp:36-97 | every chunking of the encodings of sendable payloads yields those payloads in order and an empty buffer |
| `FrameEncoder.ServerLimits` | minigame_server/minigame_sever_main.cpp:50-53 | the prepender accepts up to 65535 bytes, the decoder recovers up to 65534 |
| `FrameEncoder.ServerWrites` | minigame_server/minigame_sever_main.cpp:50-53 | on the wire a payload of n bytes is n, low byte first in two bytes, then the payload |
| `FrameEncoder.ServerReads` | minigame_server/minigame_sever_main.cpp:50-53 | the server reads a frame length as two plus the first two bytes, low byte first |
| `FrameEncoder.ServerStream` | minigame_server/minigame_sever_main.cpp:50-53 | the stream theorem for payloads of at most 65534 bytes |
| `FrameEncoder.ServerRefusesItsOwnLargest` | minigame_server/minigame_sever_main.cpp:50-53 | a 65535-byte payload is written and then reported oversize |
| `Segments.ChainBytes` | libsrc/handlers/LengthFieldBasedFrameDecoder.cpp:72-74 | the segments of a chain, put together, are its bytes |
| `Segments.OneSegmentIff` | libsrc/handlers/cmd_message_serialize_handler.cpp:20-23 | the first segment holds everything if and only if no later byte begins a segment |
| `SegmentTheorems.FeedCellsFlat` | libsrc/handlers/LengthFieldBasedFrameDecoder.h:184-190 | for any reads, errors included, the connection on chains is the connection on bytes |
| `SegmentTheorems.ArrivalIndependence` | libsrc/handlers/LengthFieldBasedFrameDecoder.h:184-190 | on a clean stream the frames, as chains, are cut out of everything received at once, for every chunking and placement into segments |
| `SegmentTheorems.FramesAreStretches` | libsrc/handlers/LengthFieldBasedFrameDecoder.cpp:72-74 | each frame of a stream is the stretch of the received chain that its payload occupies, boundaries included |
| `SegmentTheorems.StartsIff` | libsrc/handlers/LengthFieldBasedFrameDecoder.cpp:72-74 | a byte begins a segment if and only if it is the first of a read that opened one |
| `SegmentTheorems.MarksOfFrames` | libsrc/handlers/LengthFieldBasedFrameDecoder.cpp:72-74 | inside the frame of a payload, a byte begins a segment if and only if a read opened one there |
| `SegmentTheorems.WholeStreamInSegments` | libsrc/handlers/LengthFieldBasedFrameDecoder.cpp:38-77 | every chunking yields the payloads in order and an empty buffer, and a frame lies in one segment if and only if no read opened a segment strictly inside its payload |
| `Protocol.AloneIsARun` | libsrc/sync_redis_wrapper.h:23-36 | a request running alone computes what the interleaving machine computes on one of its runs |
| `Protocol.AloneRegisters` | libsrc/login_service/minigame_register_service.cpp:14-46 | a request running alone enters the history of registrations exactly when it is a registration answered SUCCEED |
| `Protocol.ServeIsARun` | libsrc/handlers/role_inject_handler.cpp:12-48 | serving a request from its arrival is a run of the machine that ends with that response |
| `Protocol.LoginBinds` | libsrc/handlers/role_inject_handler.cpp:17-28 | a login is the binding of an unbound address to a readable role followed by the login service |
| `AccountTheorems.AdvanceKeepsKeys` | libsrc/data_manager/roleinfo_manager.cpp:14-53 | every single command keeps roles under their own key and removes no password |
| `AccountTheorems.KeysAlwaysOk` | libsrc/login_service/minigame_register_service.cpp:20-39 | under every interleaving and failure pattern each stored role's username names its key, named roles have a password, and a login's push goes to the key it was pulled from |
| `AccountTheorems.IdsAlwaysOwned` | libsrc/login_service/minigame_register_service.cpp:26-39 | every role anywhere is cleared or carries an id issued to the account it names |
| `AccountTheorems.IdsBelongToOneAccount` | libsrc/login_service/minigame_register_service.cpp:14-46 | up to 2^32 increments, a nonzero id found in the store, a session or in flight is at most the counter and belongs to one username |
| `AccountTheorems.NamedRolesHaveIds` | libsrc/login_service/minigame_register_service.cpp:33-36 | below 2^32 every named role has a nonzero id |
| `AccountTheorems.BindingLasts` | libsrc/data_manager/roleinfo_manager.h:21-24 | under every interleaving a bound address is never rebound; its role is kept or cleared |
| `AccountLimits.RegistrationsRace` | libsrc/login_service/minigame_register_service.cpp:15-25 | two registrations that both pass the check both answer SUCCEED; the second password and id win |
| `AccountLimits.IdsRepeatAfterWrap` | libsrc/login_service/minigame_register_service.cpp:33-33 | the bound is tight: a run with counter 2^32 + 1 has two accounts with id 1, whose names are 33 letters long |
| `RegistrationTheorems.RegisteredOnce` | libsrc/login_service/minigame_register_service.cpp:14-46 | over every interleaving and failure pattern in which no two registrations of an account are between check and password write, at most one answers SUCCEED |
| `RegistrationTheorems.PasswordIsFixed` | libsrc/login_service/minigame_register_service.cpp:15-25 | on the same runs a stored password never changes |
| `RegistrationTheorems.OverlapRegistersTwice` | libsrc/login_service/minigame_register_service.cpp:15-25 | from any reachable state with two registrations of one account past the check, a continuation answers SUCCEED twice and the second password wins |
| `RegistrationTheorems.TwiceIffOverlap` | libsrc/login_service/minigame_register_service.cpp:15-25 | the exact condition: registrations already past their check can reach two SUCCEED answers for an account if and only if two of them are past its check at the same time |
| `RegistrationTheorems.SessionsAgreeInterleaved` | libsrc/handlers/role_inject_handler.cpp:17-28 | on runs without such overlaps, every session role and every role held by a login, update or query in flight is cleared, unnamed, or the stored role with a possibly older flag, except that the copy a login is about to store carries the newer flag; nobody is about to recreate a role |
| `RegistrationTheorems.LoginBindsWhatItRead` | libsrc/handlers/role_inject_handler.cpp:20-24 | whatever runs in between, an unbound address is bound to the role as it was read |
| `RegistrationTheorems.LoginWritesBack` | libsrc/login_service/minigame_login_service.cpp:30-40 | whatever runs in between, a first login stores the whole role it read with the flag set, undoing what was stored under its key meanwhile |
| `SequentialTheorems.RegisterEffect` | libsrc/login_service/minigame_register_service.cpp:7-50 | which of the four commands must succeed for SUCCEED, for the password, the counter and the role, which error is answered otherwise, how many commands are issued, and that nothing else changes |
| `SequentialTheorems.LoginEffect` | libsrc/handlers/role_inject_handler.cpp:17-28 | session binding, the whole answer (each error code, and the flag, which only a success can carry), flag write and number of commands as functions of the stored password, the stored role and the failures |
| `SequentialTheorems.LoginServiceEffect` | libsrc/login_service/minigame_login_service.cpp:8-48 | the login service alone: the whole answer, the flag write and the number of commands |
| `SequentialTheorems.EraseEffect` | minigame_server/service/erase_role_service.cpp:7-22 | the session is cleared and only the empty-name key is written |
| `SequentialTheorems.TaskEffect` | minigame_server/service/task_update_service.cpp:6-31 | updates and queries change nothing but the entry of the session's player id |
| `SequentialTheorems.UpdateStores` | minigame_server/service/task_update_service.cpp:6-31 | however its commands are answered, what an update leaves under the player its address is bound to (player 0 if unbound): reported ids finished, all else kept, position truncated; nothing else changes, and it always reports success |
| `SequentialTheorems.QueryReads` | minigame_server/service/task_query_service.cpp:7-40 | a query answers, under its own rpc id, the finished ids and position of the player its address is bound to (player 0 if unbound); UNKNOWN exactly when its read goes through and there is no entry |
| `SequentialTheorems.HistoryIsARun` | libsrc/sync_redis_wrapper.h:23-36 | a history of calls is a run of the machine that ends with every request answered |
| `SequentialTheorems.HistoryIsExclusive` | libsrc/login_service/minigame_register_service.cpp:15-25 | in it registrations never overlap, so the interleaved theorems apply |
| `SequentialTheorems.PasswordNeverChanges` | libsrc/login_service/minigame_register_service.cpp:15-25 | in every sequential history a stored password never changes |
| `SequentialTheorems.RegisterSucceedsOnce` | libsrc/login_service/minigame_register_service.cpp:14-46 | register answers SUCCEED at most once per account |
| `SequentialTheorems.RoleIffRegistered` | libsrc/login_service/minigame_register_service.cpp:33-46 | a named account has a stored role if and only if some registration of it succeeded |
| `SequentialTheorems.LoginSucceedsIff` | libsrc/login_service/minigame_login_service.cpp:12-35 | with its own reads going through, a login succeeds if and only if an earlier registration succeeded with that password |
| `SessionTheorems.FlaggedIffMarked` | libsrc/login_service/minigame_login_service.cpp:36-42 | the stored returning-visitor flag is set if and only if some login stored it; nothing resets it |
| `SessionTheorems.ToldReturningIff` | libsrc/login_service/minigame_login_service.cpp:36-42 | refusals and failures included, a login is told "returning" if and only if it succeeds and an earlier one stored its mark |
| `SessionTheorems.OnlyFirstLoginIsNew` | libsrc/login_service/minigame_login_service.cpp:36-42 | where login writes succeed, exactly the first successful login is told it is the first |
| `SessionTheorems.SessionsAlwaysAgree` | libsrc/handlers/role_inject_handler.cpp:17-28 | each session role is cleared, unnamed, or the stored role with a possibly older flag |
| `SessionTheorems.BoundIff` | libsrc/data_manager/roleinfo_manager.h:21-29 | an address is bound if and only if an earlier LOGIN from it named an account with a stored role |
| `SessionTheorems.BoundToFirst` | libsrc/handlers/role_inject_handler.cpp:20-26 | the first such LOGIN decides the bound role for good; only an erase clears it |
| `SessionTheorems.RefusedLoginStillBinds` | libsrc/handlers/role_inject_handler.cpp:18-26 | a LOGIN answered PASSWORD_WRONG binds an unbound address to the named account; an update from it is stored as that account's progress |
| `TaskTheorems.IntactIffBuilt` | minigame_server/service/task_update_service.cpp:12-27 | over every interleaving and every failure pattern, failed reads included: all entries are the union of the stored reports with the last position at every moment if and only if every stored write consists of the ids the store holds for the player and its own report |
| `TaskTheorems.TasksAlwaysOk` | minigame_server/service/task_update_service.cpp:12-27 | on every run in which updates of one player do not overlap: every entry is the union of the stored reports and the last position and every pending write builds on all of them if and only if each update's read gave it the stored ids, up to its own report; reads answered with data always do |
| `TaskTheorems.IntactIffLossless` | minigame_server/service/task_update_service.cpp:12-27 | no write of an intact run replaces an entry holding an id the write lacks; on runs in which no update reads an error text as data, that alone is the exact condition, over every interleaving |
| `TaskTheorems.OrderlyIsLossless` | minigame_server/service/task_update_service.cpp:12-27 | updates of one player that do not overlap and whose reads give the stored ids lose nothing and add nothing |
| `TaskTheorems.AnswerIff` | minigame_server/service/task_query_service.cpp:12-38 | an answer to stored data is the one the history of reports calls for if and only if the entry follows the history |
| `TaskTheorems.QueriesAnswerTheHistory` | minigame_server/service/task_query_service.cpp:7-40 | on every run: a query whose read goes through succeeds exactly when a report was stored, with all reported ids and the last position truncated toward zero, if and only if the entry follows the history, so always where writes build on the store; one whose read fails reports success with what the error text parses to |
| `TaskTheorems.LooksUp` | libsrc/handlers/role_inject_handler.cpp:41-47 | a query or update that arrives and later looks up its role gets the role its address is bound to at that moment, or an empty one |
| `TaskTheorems.QueryFromArrival` | minigame_server/service/task_query_service.cpp:7-40 | the same from the arrival of the query, any requests running before its lookup and before its read: the answer is about the player bound at the lookup and the reports stored by the read |
| `TaskTheorems.OverlapLoses` | minigame_server/service/task_update_service.cpp:12-27 | however its read is answered, an update that reads, lets any requests run, then writes leaves what it read plus its own report, and exactly when that is the union of all stored reports; after a right read, when every id stored for the player in between is in that set |
| `TaskTheorems.OverlapLosesReports` | minigame_server/service/task_update_service.cpp:12-27 | for any two reports, one with an id the other lacks, a run from the empty store with every command succeeding on which that id is stored and then lost |
| `TaskTheorems.FailedReadIsStored` | minigame_server/data_manager/task_data_manager.cpp:6-21 | an update whose read fails stores what the error text parses to plus its report; a right entry stays right if and only if the parsed ids are the stored ones, up to the report |
| `TaskTheorems.FailedReadAddsTasks` | minigame_server/data_manager/task_data_manager.cpp:6-21 | a run of one update from the empty store on which a failed read stores a task nobody reported |
| `TaskTheorems.AccountsAreIsolated` | minigame_server/service/task_update_service.cpp:11-27 | in any continuation of any run, data behind a named account's queries changes only through updates sent by sessions of that account |
| `TaskTheorems.NobodyTouchesOnlyZero` | libsrc/handlers/role_inject_handler.cpp:41-47 | under every interleaving an update from an address that stays unbound or erased touches only player 0 |
| `TaskTheorems.ErasedTouchesOnlyZero` | minigame_server/service/erase_role_service.cpp:12-14 | once an address is erased, every update from it that has not yet looked up its role touches only player 0, in any continuation |
| `TaskTheorems.LaterUpdatesTouchOnlyZero` | minigame_server/service/erase_role_service.cpp:12-14 | and so does every update that arrives from it later |
| `Services.RoleinfoManager.AddRole` | libsrc/data_manager/roleinfo_manager.h:21-24 | insertion without overwriting, as seen through the map of role values |
| `Services.RoleinfoManager.GetRole` | libsrc/data_manager/roleinfo_manager.cpp:6-12 | the bound object, or null |
| `Services.RoleinfoManager.PullRoleInfoFromDB` | libsrc/data_manager/roleinfo_manager.cpp:14-26 | a fresh object holding the stored role, or null if and only if it is missing or unreadable |
| `Services.RoleinfoManager.PushRoleToDB` | libsrc/data_manager/roleinfo_manager.cpp:43-53 | writes the role under its own username or leaves the store alone |
| `Services.MinigameRegisterService.Run` | libsrc/login_service/minigame_register_service.cpp:7-50 | refines the registration thread running alone |
| `Services.MinigameFakeLoginService.Run` | libsrc/login_service/minigame_login_service.cpp:8-48 | refines the login thread running alone |
| `Services.EraseRoleService.Run` | minigame_server/service/erase_role_service.cpp:7-22 | clears the shared role object and refines the erase thread |
| `Services.TaskDataManager.PullTaskInfoFromDB` | minigame_server/data_manager/task_data_manager.cpp:6-21 | fills the cache, failing on a missing entry and on an already cached one |
| `Services.TaskDataManager.PushTaskInfoToDB` | minigame_server/data_manager/task_data_manager.cpp:22-36 | stores the cached entry, failing without a command when there is none |
| `Services.TaskDataManager.GetTaskInfo` | minigame_server/data_manager/task_data_manager.cpp:37-40 | looking up a missing entry inserts an empty one |
| `Services.TaskUpdateService.MarkFinished` | minigame_server/service/task_update_service.cpp:15-26 | the loop adds every reported id as finished, keeps the rest, and truncates the position |
| `Services.TaskUpdateService.Run` | minigame_server/service/task_update_service.cpp:6-31 | refines the update thread on an unfilled cache; on a filled one edits the cached entry |
| `Services.TaskQueryService.Collect` | minigame_server/service/task_query_service.cpp:23-34 | each finished id exactly once and no other |
| `Services.TaskQueryService.Run` | minigame_server/service/task_query_service.cpp:7-40 | refines the query thread, duplicate-free, on an unfilled cache; always fails on a filled one |
| `Services.Server.BindSession` | libsrc/handlers/role_inject_handler.cpp:20-24 | binds the address to a pulled copy before the login service runs |
| `Services.Server.Dispatch` | libsrc/handlers/role_inject_handler.cpp:41-47 | the session's role object, or a fresh empty one, goes to the command's service |
| `Services.Server.Handle` | libsrc/handlers/role_inject_handler.cpp:12-48 | every request is answered as the protocol answers it alone; LOGIN and REGISTER by the role handler, the rest by the dispatcher; no two addresses ever share a role object and the shared progress cache stays empty |
| `Registry.RegisterCommand` | libsrc/register_helper.h:99-112 | both registries receive the id |
| `Registry.RegistrationIsConsistent` | libsrc/data_manager/command_manager.cpp:8-26 | start-up succeeds if and only if the ids are distinct; then prototypes exist for exactly the sync and async ids, disjointly, with matching types |
| `Registry.SerializedMessagesDispatch` | libsrc/handlers/command_dispatcher.cpp:13-20 | a message that passes the serializer meets the dispatcher's assertion and the decorator's cast |
| `Registry.ServerRegistry` | minigame_server/minigame_sever_main.cpp:115-120 | exactly the ids 101, 103, 105, 107 and 109 are registered, all synchronous, each with its own message types |
| `Pipeline.ReadOpcode` | libsrc/handlers/opcode_inject_handler.cpp:12-28 | the id is the first two bytes little-endian; the trimmed chain holds the rest of the frame |
| `Pipeline.ParserSeesPrefix` | libsrc/handlers/cmd_message_serialize_handler.cpp:20-23 | the parser is given a prefix of the body, the whole of it if and only if all later segments are empty |
| `Pipeline.OpensExactly` | libsrc/handlers/opcode_inject_handler.cpp:12-28 | every frame, cut or whole, whose first segment holds the opcode is opened: the id is its first two bytes and the parser is given exactly the rest of the first segment |
| `Pipeline.WholeBodyIff` | libsrc/handlers/cmd_message_serialize_handler.cpp:20-23 | the parser is given the whole body if and only if the frame lies in one segment, and a proper prefix otherwise |
| `Pipeline.AnsweredIff` | libsrc/handlers/cmd_message_serialize_handler.cpp:14-31 | with synchronous commands only, a frame is answered if and only if its first segment holds a registered id and, behind it, bytes that parse; it is served as exactly what they parse to and answered under the next opcode; otherwise nothing changes |
| `Pipeline.ConverseIsFrames` | libsrc/handlers/LengthFieldBasedFrameDecoder.h:184-190 | a conversation is its decoded frames, as chains, handled in order, for every chunking |
| `Pipeline.GetsThroughIff` | libsrc/handlers/cmd_message_serialize_handler.cpp:14-31 | a request frame in one segment is parsed as that request; one that is cut is not |
| `Pipeline.OneRequest` | libsrc/handlers/command_dispatcher.cpp:9-33 | a request to a registered sync command, in one segment, gets exactly one answer, by the right handler, under opcode n + 1 |
| `Pipeline.ReachesServiceIff` | libsrc/handlers/cmd_message_serialize_handler.cpp:20-23 | for every chunking and placement into segments, request i of a stream is parsed as itself if and only if no read opened a segment strictly inside it |
| `Pipeline.CutRequestIsMisread` | libsrc/handlers/cmd_message_serialize_handler.cpp:20-23 | a lone request in two reads, the second in a new segment inside the payload, is never parsed as itself |
| `Pipeline.EndToEnd` | libsrc/handlers/cmd_message_serialize_handler.cpp:14-53 | for every chunking of a request stream that keeps each request in one segment: empty buffer, one good answer per request in order, memory as if the requests were served one by one |
| `Pipeline.CutIsReadAs` | libsrc/handlers/cmd_message_serialize_handler.cpp:20-23 | a request frame, whole or cut, is read as what the first segment of it parses to |
| `Pipeline.EndToEndCut` | libsrc/handlers/cmd_message_serialize_handler.cpp:14-53 | for every chunking and every placement into segments: the services see, in order, exactly what the first segment of each request parses to, each of these gets one good answer, the others none |
| `Pipeline.EveryStreamHasCuts` | libsrc/handlers/LengthFieldBasedFrameDecoder.cpp:72-74 | the cuts that theorem speaks of exist for every stream and every reads |
| `Pipeline.ClientSeesReplies` | libsrc/handlers/opcode_inject_handler.cpp:29-42 | for every chunking of the output, a client with the same framing receives exactly opcode n + 1 and the serialised response for each request |
| `Pipeline.OpcodeBytes` | libsrc/proto/cmd_id.proto:3-10 | on the wire LOGIN, REGISTER, QUERY_TASK, UPDATE_TASK and ERASE_ROLE are 101, 103, 105, 107 and 109, low byte first, and replies carry the next number |
| `Pipeline.ServerEndToEnd` | minigame_server/minigame_sever_main.cpp:46-60 | both directions for the server's own framing and registered commands: requests of at most 65534 bytes are answered in order and the client gets one reply each |
| `Pipeline.ServerEndToEndApplies` | minigame_server/minigame_sever_main.cpp:115-120 | for every list of up to 2^32 requests there are a codec and reads that meet all hypotheses |
| `Pipeline.Channel.HandleOne` | libsrc/handlers/cmd_message_serialize_handler.cpp:14-31 | unknown ids and unparseable bodies are dropped without effect; everything else is answered |
| `Pipeline.Channel.Receive` | minigame_server/minigame_sever_main.cpp:46-60 | the connection object moves as the conversation function says |

## Left out

- wangle, folly, hiredis and protobuf internals: the read loop, byte queues, Redis commands and message parsing appear through the contracts described above; a split that asks for too much is taken to drain the queue and throw.
- The start-up seed (account `hello` with the fixed id 31) and the start-up registration of account `2`: id theorems start from the empty store, because 31 is not drawn from the counter.
- Field widths other than 1, 2, 4 and 8, and length-field offsets of 2^31 and more: the decoder has no defined behaviour for them.
- Exceptions that escape a handler (a frame shorter than the opcode, a response too long for the length field): the model drops the frame or the write and goes on, the theorems exclude both.
- A first buffer segment shorter than two bytes: trimming it runs past the segment, which is undefined; the model loses the frame, and `Whole` excludes the case.
- Empty segments: a socket read delivers at least one byte, so chains have none; the empty frame is an empty chain.
- Coordinates outside the `int32` range and NaN: their conversion is undefined in C++, so `Position` excludes them; doubles are modelled as reals.
- Signed overflow of the prepender's `length`: undefined in C++, modelled as wrap-around, which makes the write fail.
- Data races on the session map and null replies after a lost Redis connection: map operations are atomic and every command gets a reply.
- RemoveRole, PushRoleToDB by address and RemoveTaskInfo: nothing in the server calls them, so they would only add easy members.
- Asynchronous services: covered only by the registry theorems; no server command is asynchronous.
- Response texts, the unused `gid` fields, logging, bootstrap, sockets, build files and the test programs: no property depends on them.
- The order of `done_tasks` follows an unspecified map iteration order: responses carry the set, and `Collect` states that the list enumerates it once.
