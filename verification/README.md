# Verification model of contra

contra moves packets, each a schema and a list of data bytes, between processes. This project models the
packet codec, the three transports and the relay, and proves that they deliver.

- `LittleEndian.dfy`, `PacketCodec.dfy`: a `std::size_t` as eight base-256 digits, and the two length-prefixed
  fields of a serialized packet. `SerializePacket` writes into a buffer in place.
- `FileLog.dfy`: the bytes of a written file, and what a receive makes of any file at all. `FileCuts.dfy`: files that
  end inside a frame. `FileRuns.dfy`: any run of sends by any number of transports on one file. `FileTransports.dfy`:
  the transport, its streams and its receive loop as objects.
- `FifoQueue.dfy`: the atomic queue that the transports are measured against, as histories of events.
- `SharedMemory.dfy`: the shared-memory transport as a step system with any number of handles, calls, segments and
  mutexes. Every call has a program counter. `SharedMemoryInvariants.dfy` has what each step keeps,
  `SharedMemoryCalls.dfy` what callers asked for and were answered, told from the steps that began their calls,
  `SharedMemoryDelivery.dfy` the refinement, delivery and progress results, `SharedMemoryLifecycle.dfy` when
  the name and the live handles agree, `SharedMemorySurvival.dfy` which stored packets can still be received and which
  steps put them out of reach. `SharedMemoryTransports.dfy` is the transport as objects.
- `ZeroMqLink.dfy`, `ZeroMqTransports.dfy`: one direction of a ZeroMQ connection over whole runs, and the transport
  as objects.
- `Relay.dfy`, `EndToEnd.dfy`: nodes in, nodes out, over every transport, and the transports against each other.

Histories and runs grow at the end; `Valid(s, steps)` says that each step is enabled in its turn, and `Final` is the
state reached. Results about runs hold for every interleaving.

## Where the code does less than its users may expect

- A file keeps only the packets since the most recent first send of any transport. Two transports that both send
  into one file lose packets (`FileRuns.SecondSenderTruncates`); `FileRuns.NothingLostIffNothingTruncated` gives the
  exact condition. A first send whose message is too long to allocate throws after it has truncated the file.
- A file that ends inside a frame can give back one packet too many (`FileCuts.CutYieldsOneTooMany`), and
  `FileCuts.CutLogKeepsWholeFrames` says exactly when it does and when the cut goes unnoticed.
- The destructor of a shared-memory handle removes the segment by name, not by generation. The name and the live
  handles agree at every moment exactly in the runs that keep to `SharedMemoryLifecycle.Allowed`;
  `SharedMemoryLifecycle.DestroyWhileLiveSplits` is a run that does not.
- Packets sent to shared memory can be put out of reach before anyone receives them. That happens exactly by the
  steps of `SharedMemorySurvival.Kills`: the close of a last handle, also of another generation; a crash of the last
  handle of a generation that has lost its name; and a `Destroy` with no handle attached. The sample sender of the
  repository's README (lines 136-152) closes its only handle after sending; a crashed sender followed by
  helper_apps/release-shared-memory is another case (`SharedMemorySurvival.CrashThenDestroyLosesPackets`).
- The flag that the repository's README (line 129) describes as waiting before sending also makes every ZeroMQ
  receive wait for, and return, one message, whatever else has arrived (`ZeroMqLink.ReceiveModes`,
  `ZeroMqLink.WaitingReceiveLeavesPackets`).

## Assumptions

- `sizeof(std::size_t)` and `sizeof(std::streamsize)` are 8, and sizes are stored least significant byte first.
- The constructor, the destructor and `Destroy` of the shared-memory transport take no lock in the code; each is one
  step here. Send and Receive are split into steps and interleave freely. A handle is not closed while one of its
  own calls is in flight. A crash ends a process whose calls are all outside their critical sections.
- A removed segment or mutex stays usable through the handles that had opened it.
- One send or receive on a file is one step; opening and writing a file succeed.
- A `std::vector` of bytes holds fewer than 2^63 bytes, and its constructor throws when asked for more. The schema and
  the data of a packet together leave room for 16 more bytes below 2^64 (`PacketCodec.Fits`).
- Decoding a node inverts encoding it (`Relay.Inverse`).
- `junk` stands for whatever `DeserializePacket` makes of a message whose sizes point past its end. Results hold for
  every `junk`.

## Model

| member | source | states |
|---|---|---|
| LittleEndian.SizeRoundTrip | contra/src/packet.cpp:60-64 | A size and its eight bytes determine each other, both ways. |
| LittleEndian.SizeBytesInOrder | contra/src/packet.cpp:60-64 | Which eight bytes a size has: byte j is the size divided by 256 to the power j, modulo 256. |
| LittleEndian.SizeValueInOrder | contra/src/packet.cpp:71-83 | Which size eight bytes stand for: each byte weighted by its power of 256. |
| LittleEndian.SignIsTopBit | contra/src/file_transport.cpp:86-87 | Reading a size as a streamsize makes it negative, by 2^64, exactly when the top bit of its last byte is set. |
| PacketCodec.SerializePacket | contra/src/packet.cpp:50-68 | The four in-place writes at computed offsets, into a buffer of arbitrary bytes, leave exactly size, schema, size, data; a message that no vector can hold throws. |
| PacketCodec.SerializedLayout | contra/src/packet.cpp:60-65 | Where every byte of a message comes from: the digits of the schema size, the schema, the digits of the data size, the data. |
| PacketCodec.AllocatableIffSignedSize | contra/src/packet.cpp:57-59 | A message can be held in a vector if and only if its size is unchanged when read as signed, that is, if the top bit of its size is clear. |
| PacketCodec.MessageSizeIsExact | contra/src/packet.cpp:51-57 | The size computed with wrapping additions is the real one if and only if the packet fits. |
| PacketCodec.DeserializedFields | contra/src/packet.cpp:70-90 | On every readable message no offset wraps and the two embedded sizes delimit the two results. |
| PacketCodec.DeserializeSerialized | contra/src/packet.cpp:50-90 | Deserializing a serialized packet followed by any tail is in bounds and returns the packet. |
| PacketCodec.SerializeDeserialized | contra/src/packet.cpp:50-90 | A message whose sizes account for its whole length is rebuilt byte for byte. |
| PacketCodec.ImageOfSerialized | contra/src/packet.cpp:50-90 | The serialized packets are exactly the messages without slack. |
| PacketCodec.SelfDelimiting | contra/src/packet.cpp:50-90 | Equal streams that start with serialized packets start with the same packet and continue equally. |
| PacketCodec.NoProperPrefix | contra/src/packet.cpp:50-68 | No serialized packet is a proper prefix of another. |
| PacketCodec.UniqueDecomposition | contra/src/packet.cpp:50-68 | A concatenation of serialized packets splits in one way only. |
| FileTransports.InputStream.Read | contra/src/file_transport.cpp:87-104 | An exact read sets no bit; a short read sets both bits and keeps the rest of the buffer; a read on a failed stream changes nothing else. |
| FileTransports.SignatureCheckIsExact | contra/src/file_transport.cpp:53-107 | The C-string comparison over the zero-filled buffer accepts a file if and only if its first six bytes are the signature. |
| FileLog.HasSignatureIffContra | contra/src/file_transport.cpp:53-107 | The files that are read are exactly those that start with the six characters CONTRA. |
| FileLog.UnsignedFileIsEmpty | contra/src/file_transport.cpp:78-83 | A receive from a missing file, a file shorter than the signature, or one that differs in any of its characters returns nothing. |
| FileLog.FrameLayout | contra/src/file_transport.cpp:68-72 | Where every byte of a frame comes from: the digits of the message size, then the message. |
| FileLog.ParseAnyMessage | contra/src/file_transport.cpp:85-99 | A positive size takes that many bytes as a message, whatever they are, zeros in place of missing ones: deserialized if its sizes stay inside, junk otherwise; a short one ends the receive. |
| FileTransports.FileTransport.Send | contra/src/file_transport.cpp:58-74 | Truncating or appending according to the flag, the file becomes the specified one and the flag is cleared; it throws exactly when the message cannot be allocated, after the file was opened. |
| FileTransports.FileTransport.Receive | contra/src/file_transport.cpp:76-100 | On every file, or none, the loop terminates, changes no file, and returns or throws what the stream-free description of parsing says. |
| FileLog.ParseInvertsFrames | contra/src/file_transport.cpp:85-98 | On every file that sends produce, parsing leaves by the zero size, behind the last frame and nowhere before. |
| FileLog.ReceiveInvertsSends | contra/src/file_transport.cpp:58-100 | A receive from a written file returns its packets in order. |
| FileLog.SizeWordBehindLog | contra/src/file_transport.cpp:85-94 | Behind any log, a zero size word ends the receive with the log's packets and a negative one makes it throw. |
| FileCuts.CutLogKeepsWholeFrames | contra/src/file_transport.cpp:76-100 | A log cut anywhere in its last frame gives back all whole frames and at most one packet more: none exactly when only zero size bytes remain, the original packet exactly when only zero bytes are missing (or a size below 16 remains and the out-of-bounds read happens to yield it). |
| FileCuts.ExtraPacketOfCutSize | contra/src/file_transport.cpp:85-99 | What a size cut short yields behind the whole frames: nothing if it is zero, junk if it is below 16, and otherwise the empty packet. |
| FileCuts.ExtraPacketOfCutMessage | contra/src/file_transport.cpp:92-99 | What a message cut short yields behind the whole frames: the packet of the message with zeros at its end. |
| FileCuts.CutMessageReadable | contra/src/packet.cpp:70-90 | Zeros in place of the missing end of a message never lead deserializing out of bounds. |
| FileCuts.CutYieldsOneTooMany | contra/src/file_transport.cpp:76-100 | A signature and one byte of a size give back a packet. |
| FileLog.LogIsInjective | contra/src/file_transport.cpp:58-100 | Different packet lists leave different files. |
| FileRuns.FileHoldsSendsSinceLastFirst | contra/src/file_transport.cpp:58-74 | For any number of transports and any order of sends, failing ones included, over any previous content, the file is the log of the packets written since the most recent first send. |
| FileRuns.AppendingSendFindsLog | contra/src/file_transport.cpp:64-66 | In every run, a send that appends finds a well-formed log. |
| FileRuns.NothingLostIffNothingTruncated | contra/src/file_transport.cpp:58-100 | A receive, also one before the first send, returns every packet ever written if and only if no transport sends for the first time after another one has written. |
| FileRuns.NothingLostIffSingleSender | contra/src/file_transport.cpp:58-100 | When every send succeeds, nothing is lost if and only if one transport did all the sending. |
| FileRuns.SecondSenderTruncates | contra/src/file_transport.cpp:60-63 | Two transports with one packet each: only the second packet comes back. |
| FileRuns.ReceivesGrow | contra/src/file_transport.cpp:58-100 | As long as no transport sends for the first time, a later receive returns the earlier one's packets followed by those written in between, for any number of transports. |
| FifoQueue.Conservation | contra_boost-shmem/src/shared_memory_transport.cpp:103-127 | In a legal history, what was stored, then what came in, is what went out, then what is stored. |
| FifoQueue.LegalIffPrefixes | contra_boost-shmem/src/shared_memory_transport.cpp:103-127 | A history is legal if and only if at every moment what went out is a prefix of what came in. |
| SharedMemoryInvariants.InvOfRun | contra_boost-shmem/src/shared_memory_transport.cpp:62-132 | Every run keeps: names paired, mutexes owned exactly by the calls in critical sections, copies faithful, counts right. |
| SharedMemoryInvariants.ExclusiveKept | contra_boost-shmem/src/shared_memory_transport.cpp:62-132 | Every step, lifecycle steps included, keeps a mutex owned exactly while its call is in the critical section. |
| SharedMemoryInvariants.ProgressingKeptByMove | contra_boost-shmem/src/shared_memory_transport.cpp:103-127 | A step in one critical section keeps every copying receive's list a prefix of its store. |
| SharedMemoryInvariants.CountedKept | contra_boost-shmem/src/shared_memory_transport.cpp:70-97 | Every step keeps each count equal to the live and crashed handles of its generation. |
| SharedMemoryCalls.CallsServe | contra_boost-shmem/src/shared_memory_transport.cpp:103-127 | In every run, each call in flight works on the handle, and a send with the argument, of the step that began it. |
| SharedMemoryCalls.RepliesAnswerCalls | contra_boost-shmem/src/shared_memory_transport.cpp:103-127 | In every run, there is exactly one reply for each call that has returned without failing: for a send the packet it was given, for a receive a batch. |
| SharedMemoryDelivery.StepRefinesQueue | contra_boost-shmem/src/shared_memory_transport.cpp:103-127 | The push and the clear act as the atomic send and receive, labelled by the argument and by the list returned; every other step, aborts included, leaves the store alone. |
| SharedMemoryDelivery.RunRefinesQueue | contra_boost-shmem/src/shared_memory_transport.cpp:103-127 | Every interleaving of small steps is a run of the atomic queue on each generation. |
| SharedMemoryDelivery.RepliesFollowEffects | contra_boost-shmem/src/shared_memory_transport.cpp:103-127 | Callers see the effects, in order, all but at most the one of the call that still holds the lock. |
| SharedMemoryDelivery.RunConserves | contra_boost-shmem/src/shared_memory_transport.cpp:103-127 | Between any two states nothing is lost, duplicated or reordered on any generation. |
| SharedMemoryDelivery.ExactlyOnce | contra_boost-shmem/src/shared_memory_transport.cpp:103-127 | In every run from the start, the packets given to the returned sends equal the batches of the returned receives followed by the store, counting the one call about to return. |
| SharedMemoryDelivery.ExactlyOnceWhenQuiet | contra_boost-shmem/src/shared_memory_transport.cpp:103-127 | With no call in its critical section: the packets given to the returned sends are the packets received, then the store. |
| SharedMemoryDelivery.CallIsUndisturbed | contra_boost-shmem/src/shared_memory_transport.cpp:103-127 | No other step, except the crash of its process, touches a call in flight; none changes the store of a call in its critical section. |
| SharedMemoryDelivery.HandleIsUndisturbed | contra_boost-shmem/src/shared_memory_transport.cpp:62-97 | Only its own destructor and its own crash touch a handle. |
| SharedMemoryDelivery.EveryCallCanReturn | contra_boost-shmem/src/shared_memory_transport.cpp:103-127 | No deadlock: from every reachable state every call in flight can return without failing. |
| SharedMemoryDelivery.BegunCallReturns | contra_boost-shmem/src/shared_memory_transport.cpp:103-127 | A send or receive can begin on any live handle whoever holds the lock; after other calls have left the lock it returns by its own steps, and the last event and reply so far are what it was asked for. |
| SharedMemoryDelivery.SendIsStored | contra_boost-shmem/src/shared_memory_transport.cpp:103-113 | While the lock is free, a send begun on any live handle stores its argument behind what is stored, by its own steps alone and without failing, and reports just that. |
| SharedMemoryDelivery.FailingCallHasNoEffect | contra_boost-shmem/src/shared_memory_transport.cpp:103-127 | A call can fail exactly while its effect is still ahead; then the store, the other calls and the handles are as before, the lock is free, and nothing is reported. |
| SharedMemoryDelivery.EveryHandleCanClose | contra_boost-shmem/src/shared_memory_transport.cpp:92-97 | Every live handle can be closed, whatever is stored and whoever else uses it: at once, or after its own calls have returned. |
| SharedMemoryDelivery.StoreIsDeliverable | contra_boost-shmem/src/shared_memory_transport.cpp:115-127 | While the lock is free, a receive begun by any live handle returns, by its own steps alone and without failing, exactly the whole store, which is then empty. |
| SharedMemoryLifecycle.StoreSharedIffMutexShared | contra_boost-shmem/src/shared_memory_transport.cpp:62-132 | In every run, two live handles share a store if and only if they share a mutex. |
| SharedMemoryLifecycle.HandlesShare | contra_boost-shmem/src/shared_memory_transport.cpp:62-90 | A constructor can always join a live handle of the bound name: both then have the same segment and mutex, and the store is as before. |
| SharedMemoryLifecycle.AnyNumberShare | contra_boost-shmem/src/shared_memory_transport.cpp:62-90 | For every n, n constructors give n live handles on one store and one mutex. |
| SharedMemoryLifecycle.CallsShareLock | contra_boost-shmem/src/shared_memory_transport.cpp:103-116 | A run with calls through two handles of one generation in flight together, one inside the lock and the other waiting for it. |
| SharedMemoryLifecycle.OneCallPerStore | contra_boost-shmem/src/shared_memory_transport.cpp:103-116 | In every run, at most one call per store is in its critical section. |
| SharedMemoryLifecycle.CountIsLiveAndCrashed | contra_boost-shmem/src/shared_memory_transport.cpp:70-97 | In every run, each count is its generation's live and crashed handles, and the live ones alone when nothing crashed. |
| SharedMemoryLifecycle.CrashLeavesCount | contra_boost-shmem/src/shared_memory_transport.cpp:92-97 | Without its destructor a handle leaves its count, the store and both names as they are. |
| SharedMemoryLifecycle.AlwaysHealthyIffAllAllowed | contra_boost-shmem/src/shared_memory_transport.cpp:62-132 | The name is bound exactly while some handle is live, all on one generation, throughout a run if and only if every step of it is allowed. |
| SharedMemoryLifecycle.OrdinaryUseIsHealthy | contra_boost-shmem/src/shared_memory_transport.cpp:62-97 | Runs without Destroy and without crashes always have that agreement. |
| SharedMemoryLifecycle.DestroyWhileLiveSplits | contra_boost-shmem/src/shared_memory_transport.cpp:129-132 | A concrete run in which an early Destroy leaves two live handles of one name with different stores, the older about to unbind the name of the newer. |
| SharedMemoryLifecycle.OldGenerationUnbindsNewName | contra_boost-shmem/src/shared_memory_transport.cpp:92-97 | The last handle of an old generation unbinds both names of a newer generation that is still in use. |
| SharedMemoryLifecycle.OpenIsFreshIffUnbound | contra_boost-shmem/src/shared_memory_transport.cpp:62-90 | A constructor is always possible, and starts a new generation, empty and counting one, if and only if the name is unbound. |
| SharedMemoryLifecycle.NextGenerationIsFresh | contra_boost-shmem/src/shared_memory_transport.cpp:62-97 | After the last destructor of any allowed run, the next constructor sees an empty store and a count of one. |
| SharedMemorySurvival.DeliverableIffNotDead | contra_boost-shmem/src/shared_memory_transport.cpp:62-132 | In every state that keeps the invariants, some continuation receives all that a generation stores if and only if the generation is still named or attached, whoever holds the lock. |
| SharedMemorySurvival.LostIffDeadWithPackets | contra_boost-shmem/src/shared_memory_transport.cpp:62-132 | After any run, all packets stored at its start or pushed since can be received in order, unless the generation is dead with packets in its store, and then never. |
| SharedMemorySurvival.HandOver | contra_boost-shmem/src/shared_memory_transport.cpp:92-127 | While some handle is always live, all handles stay on one generation and every packet of a closed handle can still be received, in order. |
| SharedMemorySurvival.DiesIffKilled | contra_boost-shmem/src/shared_memory_transport.cpp:92-132 | The exact steps that put a generation out of reach: certain closes, crashes and Destroys, and no other step. |
| SharedMemorySurvival.DeadIffKilled | contra_boost-shmem/src/shared_memory_transport.cpp:92-132 | In every run, a generation is out of reach if and only if one of those steps happened to it. |
| SharedMemorySurvival.VanishedPacketsAreTheUndelivered | contra_boost-shmem/src/shared_memory_transport.cpp:92-132 | Whichever of those steps ends a generation, and whatever follows, exactly the undelivered suffix of its packets is gone. |
| SharedMemorySurvival.CrashThenDestroyLosesPackets | contra_boost-shmem/src/shared_memory_transport.cpp:103-132 | A run without any destructor that loses a sent packet. |
| SharedMemoryTransports.SharedMemoryTransport.constructor | contra_boost-shmem/src/shared_memory_transport.cpp:62-90 | A found segment keeps its packets and counts one more handle; a new one starts empty at one; names are bound to what was opened. |
| SharedMemoryTransports.SharedMemoryTransport.Close | contra_boost-shmem/src/shared_memory_transport.cpp:92-97 | The count drops by one and both names are removed exactly when it reaches zero. |
| SharedMemoryTransports.SharedMemoryTransport.Send | contra_boost-shmem/src/shared_memory_transport.cpp:103-113 | The store changes as by the atomic send, the count not at all, and the mutex is free again. |
| SharedMemoryTransports.SharedMemoryTransport.Receive | contra_boost-shmem/src/shared_memory_transport.cpp:115-127 | The copy loop returns the whole store in order and leaves it empty, with the mutex free again. |
| ZeroMqLink.StepIsQueue | contra_zmq/src/zeromq_transport.cpp:61-93 | Every operation acts on the serialized messages on the wire like the queue of their packets. |
| ZeroMqLink.SendAppends | contra_zmq/src/zeromq_transport.cpp:61-67 | A send puts its message behind all accepted ones if it waits or a peer is ready, and otherwise nothing. |
| ZeroMqLink.FlagsAsLastSet | contra_zmq/src/zeromq_transport.cpp:91-95 | In every run, each flag is what it was last set to; no send or receive changes it. |
| ZeroMqLink.AcceptedOfSent | contra_zmq/src/zeromq_transport.cpp:61-67 | The accepted packets are a subsequence of the sent ones, shorter if and only if some send had a message no vector holds, or neither a ready peer nor a flag last set to wait. |
| ZeroMqLink.Delivery | contra_zmq/src/zeromq_transport.cpp:61-93 | In any mix of modes, received packets, then those on the wire, are in order the sent packets that could be held and found a ready peer or a flag last set to wait; they are all the sent ones if and only if every send did. |
| ZeroMqLink.EverythingCanBeReceived | contra_zmq/src/zeromq_transport.cpp:69-89 | From any state, in either mode, some receives return everything accepted and not yet received, in order. |
| ZeroMqLink.ReceivePossible | contra_zmq/src/zeromq_transport.cpp:69-89 | A receive can return if and only if it does not wait or something accepted was not received yet. |
| ZeroMqLink.ReceiveModes | contra_zmq/src/zeromq_transport.cpp:69-89 | A waiting receive returns the oldest packet alone, a draining one all available packets; a receive returns everything it could get if and only if it drains or there is only one packet to get, and that is when nothing that has arrived is left. |
| ZeroMqLink.WaitingReceiveLeavesPackets | contra_zmq/src/zeromq_transport.cpp:80-87 | With two packets arrived, a waiting receive returns the first and leaves the second. |
| ZeroMqTransports.ZmqTransport.Send | contra_zmq/src/zeromq_transport.cpp:61-67 | The serialized packet joins the accepted messages unless the transport neither waits nor has a ready peer, or serializing throws; the result says which. |
| ZeroMqTransports.ZmqTransport.Receive | contra_zmq/src/zeromq_transport.cpp:69-89 | With messages arriving at any moment of the call, the result and the wire are those of the specified receive; nothing is returned exactly when the call waits and there is nothing to wait for. |
| Relay.CreateNodes | contra/include/contra/relay.hpp:104-113 | The loop decodes every packet of the batch, in order, and no more. |
| Relay.LiftedHistory | contra/include/contra/relay.hpp:85-113 | A relay over a first-in-first-out transport has a legal history of nodes with the same batches. |
| Relay.RelayDelivers | contra/include/contra/relay.hpp:85-122 | Over any first-in-first-out history, nodes received, then nodes of the stored packets, are the nodes sent. |
| Relay.SharedMemoryRelay.Receive | contra/include/contra/relay.hpp:104-113 | Over shared memory, the decoded store comes back in order and the store is empty. |
| Relay.FileRelay.Receive | contra/include/contra/relay.hpp:104-113 | Over a file, the decoded packets of the whole log come back, or the error of the transport. |
| EndToEnd.SharedMemoryRelaysDeliver | contra/include/contra/relay.hpp:85-122 | Over every interleaving of small steps, relays deliver each node given to a returned send exactly once and in order. |
| EndToEnd.FileRelayDelivers | contra/include/contra/relay.hpp:85-122 | As long as no writer truncates another one's packets, a reading relay always gets all nodes written so far. |
| EndToEnd.ZeroMqRelaysDeliver | contra/include/contra/relay.hpp:85-122 | When every message could be held and every send found a ready peer or a waiting sender, nodes received, then nodes under way, are the nodes sent. |
| EndToEnd.FileAgreesWithSharedMemory | contra/src/file_transport.cpp:76-100 | For the same packets written, untruncated, a file receive equals all shared-memory batches so far, followed by the store. |

## Left out

- Conduit: compacting schemas, JSON and serializing nodes are not part of this model; a node encoding is a parameter.
- Boost.Interprocess and ZeroMQ themselves: memory layout, free-memory accounting, sockets, several clients sharing one
  server. A failed allocation inside a shared-memory call is a step of its own; elsewhere allocating fails only for
  messages that no vector can hold.
- The overlap of a constructor, a destructor or `Destroy` with another such call, and the Windows rules for names.
- The width of the reference count: it is an unbounded integer, so wrapping after 2^31 handles is not modelled.
- A crash while holding the named mutex, and reading a file during an unfinished write.
- The connection phase of ZeroMQ: whether a peer is ready is an input of each send.
- `GetFreeSize`, `GetReferenceCount`, `GetWaitForMessages`, `Greet`, logging and console warnings, which read a field or
  print; Python bindings, helper programs and build files.
- The private file transport methods that are declared but never defined.
- PacketCodec.DeserializeSerialized: messages are shorter than 2^64 bytes, as every `std::vector` is.
