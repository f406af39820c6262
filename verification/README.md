# Verification model of the mTCP stack, its ixgbe driver and utilities

This project models, in Dafny, the parts of the repository that carry state, protocols or
arithmetic with many cases, and proves what they are for:

- the receive buffer of a TCP stream: out-of-order segments, a fragment list, 32-bit sequence
  numbers that wrap, and the reader (`TcpReassembly`), every run of the receive path on it
  (`TcpDelivery`), the lock-free queue that recycles its fragment contexts between two threads
  (`FragmentQueue`), and why no context is lost there (`FragmentPool`);
- the semaphore protocol between software agents and the firmware of the network card
  (`SwFwSync`), and how long an agent keeps asking (`SwFwRetry`);
- the hashes that choose a receive queue: flow director (`AtrHash`) and Toeplitz (`ToeplitzRss`);
- the IP header checksum (`IpChecksum`);
- the filter tables for MAC addresses and VLANs as maps (`RarTable`, `VlanTable`);
- the serial EEPROM, bit by bit, against a model of the chip (`SpiEeprom`), its checksum
  (`EepromImage`) and byte-wise access (`EepromAccess`); the I2C bus against a listener that sees
  only the two lines (`I2cBus`);
- bandwidth configuration for traffic classes (`DcbCredits`);
- a byte queue with message framing (`ByteQueue`), HTTP dates (`HttpDate`, against the
  reference `Calendar`) in each of the formats that are accepted (`HttpFormats`), and the connection scheduler of the HTTP client (`WgetScheduler`).

`Bits` holds machine words: a word is the set of positions of its one bits. `Common` holds what
several modules share.

Code that changes state step by step is modelled by classes and methods with loops, each proved
against a specification on values; the lemmas are about these specifications. The two
concurrent protocols are state machines in which each access to shared memory or to a register is
a step of its own, and their theorems speak about every interleaving.

Where the code does not do what its comments or callers expect, the model follows the code; one
lemma says exactly when the expectation holds, and another gives an input on which it fails:

- `SwFwSync.SafeIffReleasesLock`, `UnlockedReleaseBreaksExclusion`: releasing a resource ignores
  whether the inner semaphore was obtained.
- `AtrHash.AgreesWithOwnKeyIff`, `BucketKeyFails`: only the literal reading of the comment fails. It
  defines the hash for a key, and on a little-endian host the code computes it for the key with its
  bytes reversed. The key is written to the card with its bytes reversed too, so that software and
  card agree (`AtrHash.FlowDirector.HashesAgree`).
- `RarTable.Table.InsertMac`, `FullTableInsert`: the error return for a full table cannot be reached.
- `HttpFormats.RoundTripIff`, `RoundTripFails`: the leap-year test is given the year minus 1900.
- `HttpDate.TruncationReportedIff`, `TruncationNotReported`: a date that does not fit is reported
  only when the buffer is exactly one character too small.
- `EepromImage.UpdateMakesValidIff`, `OverlapBreaksUpdate`: a section that contains the checksum word
  is summed too.
- `DcbCredits.AcceptedIsRules`, `WrappedIsAccepted`: the documented rules are checked with sums that
  wrap at 256.
- `WgetScheduler.FairIff`, `HeaderAloneFails`, `HeaderSplitFails`: a response header that comes alone
  counts as a closed connection, and one that comes in parts as an error. `NoLengthIsComplete`: a missing Content-Length counts as complete.
- `WgetScheduler.ProcessesDealIff`, `ProcessesOverdeal`: one process for each core starts too many
  flows.
- `TcpReassembly.DropTestExact`, `DropTestAsymmetric`: the sequence comparison is not symmetric half the space away. The
  comment in the buffer's header says that the buffer grows by itself; the code refuses a segment
  that does not fit.

`dafny verify dfyconfig.toml` checks the whole project.

## Model

| member | source | states |
|---|---|---|
| TcpReassembly.MinMaxSeqIsOrder | mtcp/src/tcp_ring_buffer.c:247-265 | Within half the sequence space of a common base, the two wrapped comparisons order sequence numbers as their distances from the base, across wrap-around. |
| TcpReassembly.DropTestExact | mtcp/src/tcp_ring_buffer.c:307-308 | For every pair of 32-bit numbers: exactly which ones the drop test keeps, including the one half the space away, which is kept on one side of the wrap and dropped on the other. |
| TcpReassembly.DropTestAsymmetric | mtcp/src/tcp_ring_buffer.c:247-255 | Two numbers half the space apart, each of which the test puts second. |
| TcpReassembly.WireOrder | mtcp/src/tcp_ring_buffer.c:306-311 | For stream offsets less than half the space apart, any number of laps into the stream, the drop test on their sequence numbers says which is first, and the unsigned difference is their distance. |
| TcpReassembly.CanMergeIsTouch | mtcp/src/tcp_ring_buffer.c:267-277 | Two fragments can be merged if and only if their ranges overlap or touch. |
| TcpReassembly.MergeIsUnion | mtcp/src/tcp_ring_buffer.c:279-289 | Merging gives the least range around both. |
| TcpReassembly.MergeCovers | mtcp/src/tcp_ring_buffer.c:279-289 | A merge of mergeable fragments covers the bytes of both and no others. |
| TcpReassembly.OrderTests | mtcp/src/tcp_ring_buffer.c:365-385 | The three comparisons made on fragments that do not merge decide before/after. |
| TcpReassembly.WalkFragments | mtcp/src/tcp_ring_buffer.c:344-371 | The loop merges into the new range exactly the run of fragments it overlaps or touches, and stops with those in front ending before it and those behind starting after it; the contexts it frees and the one it keeps are those of the run and the new one. |
| TcpReassembly.InsertFragment | mtcp/src/tcp_ring_buffer.c:344-388 | Walk and linking: out of any list of separate ascending fragments it makes another such list that covers the old bytes and the new range, exactly; every context is in the new list or freed, once. |
| TcpReassembly.SpliceCanonical | mtcp/src/tcp_ring_buffer.c:344-388 | Replacing a run of fragments by one that reaches neither neighbour keeps the list ascending and separate. |
| TcpReassembly.SpliceCovers | mtcp/src/tcp_ring_buffer.c:344-388 | Replacing a run of fragments by their union with the new range adds the new range to the covered bytes. |
| TcpReassembly.HeadCovered | mtcp/src/tcp_ring_buffer.c:389-392 | The byte at the head has arrived if and only if the first fragment starts at the head. |
| TcpReassembly.AdvanceShifts | mtcp/src/tcp_ring_buffer.c:409-429 | Advancing the head over read bytes shifts every covered offset and keeps the list ascending and separate. |
| TcpReassembly.WriteStores | mtcp/src/tcp_ring_buffer.c:316-332 | Copying a segment to its place stores it and disturbs no byte stored before, unless it overlaps it. |
| TcpReassembly.MoveStores | mtcp/src/tcp_ring_buffer.c:316-322 | Moving the stored bytes to the front of the chunk loses none of them. |
| TcpReassembly.DropStores | mtcp/src/tcp_ring_buffer.c:409-414 | The bytes at the head are the next bytes of the stream; the rest stays stored after they are dropped. |
| TcpReassembly.MergedIsReadable | mtcp/src/tcp_ring_buffer.c:389-392 | The merged length is the longest run of arrived bytes from the head on. |
| TcpReassembly.ReadStep | mtcp/src/tcp_ring_buffer.c:398-436 | One read seen from the list: it stays in order, lists what is left, and the new merged length is what remains of the first fragment. |
| TcpReassembly.TakeKeepsPlace | mtcp/src/tcp_ring_buffer.c:169-195 | Allocating a context, from the free ones or newly made, keeps every context in one place. |
| TcpReassembly.FreeKeepsPlace | mtcp/src/tcp_ring_buffer.c:344-371 | After a merge every context is listed or free, and in one place only. |
| TcpReassembly.ReadKeepsPlace | mtcp/src/tcp_ring_buffer.c:416-429 | A read gives back the first context exactly when its fragment is used up; every context stays in one place. |
| TcpReassembly.RecvBuffer.constructor | mtcp/src/tcp_ring_buffer.c:197-225 | A new buffer is a valid empty stream at the initial sequence number. |
| TcpReassembly.RecvBuffer.Compact | mtcp/src/tcp_ring_buffer.c:316-322 | Compacting keeps the whole buffer valid: same stream, same fragments. |
| TcpReassembly.RecvBuffer.CopyIn | mtcp/src/tcp_ring_buffer.c:323-332 | The segment joins the stored stream at its offset. |
| TcpReassembly.RecvBuffer.Record | mtcp/src/tcp_ring_buffer.c:334-392 | After the list walk, the list names exactly the stored bytes again and the merged length is right. |
| TcpReassembly.RecvBuffer.Put | mtcp/src/tcp_ring_buffer.c:291-396 | Refines an abstract stream: a segment at or after the head is added to the map of arrived bytes if it ends inside the buffer (result: its length) and refused otherwise (-2); a segment before the head, or an empty one, changes nothing. Every invariant is kept. |
| TcpReassembly.RecvBuffer.Remove | mtcp/src/tcp_ring_buffer.c:398-436 | The reader gets the next bytes of the stream, as many as asked for and merged, and the stream loses exactly these; a context is given back exactly when the fragment at the head is used up, and there is none at the head then. |
| TcpReassembly.RecvBuffer.ProcessPayload | mtcp/src/tcp_in.c:561-628 | A segment changes the stream only if it passes the window test and is not before the head; rcv_nxt is then the end of the longest readable run and the window the rest of the buffer; with a window that ends inside the buffer nothing is refused with -2. |
| TcpReassembly.RecvBuffer.PutAt | mtcp/src/tcp_ring_buffer.c:291-396 | A segment put by the sequence number of its stream offset is the step of the stream for that offset, and never takes the fragment at the head away. |
| TcpReassembly.RecvBuffer.ReadUpTo | mtcp/src/tcp_ring_buffer.c:398-436 | A read is the step of the stream that takes what is readable, up to the bytes asked for. |
| TcpReassembly.WindowBoundsEnd | mtcp/src/tcp_in.c:570-576 | What passes the window test never overflows the int arithmetic of RBPut. |
| TcpReassembly.WindowTestIsWindow | mtcp/src/tcp_in.c:570-576 | For segments at or after the head, passing the test is ending between rcv_nxt and the end of the window. |
| TcpReassembly.WindowFits | mtcp/src/tcp_in.c:570-576 | What passes the window test ends inside the window, counted from the head. |
| TcpDelivery.StepIsFaithful | mtcp/src/tcp_ring_buffer.c:291-436 | Every arrival and every read keeps the buffer a set of bytes of the sender's stream, and a read returns the next ones. |
| TcpDelivery.InOrderDelivery | mtcp/src/api.c:1139-1160 | Every run: whatever segments of one stream arrive, in any order, lost, repeated or overlapping, the reader gets a prefix of that stream, nothing missing, nothing twice. |
| TcpDelivery.ArrivedIsReadOrStored | mtcp/src/tcp_ring_buffer.c:291-436 | Every run: the accepted bytes are exactly the bytes read and the bytes stored. |
| TcpDelivery.AckIsLongestPrefix | mtcp/src/tcp_in.c:627-628 | Every run: the acknowledged position ends the longest prefix all of whose bytes were accepted. |
| TcpDelivery.Play | mtcp/src/tcp_ring_buffer.c:291-436 | Every run, on the buffer itself and by 32-bit sequence number: however often the numbers wrap, buffer and output are those of the stream of true offsets, for segments within half the space of the head. |
| TcpDelivery.WindowTestOffsets | mtcp/src/tcp_in.c:570-576 | Near the next byte expected, the signed window test on sequence numbers compares stream offsets. |
| TcpDelivery.ReceivedIsAfterKept | mtcp/src/tcp_in.c:561-628 | The receive path with its window is the buffer on the segments that were kept. |
| TcpDelivery.ReceiveSegment | mtcp/src/tcp_in.c:561-628 | A segment by sequence number is the step of the windowed receiver; rcv_nxt names the first byte missing. |
| TcpDelivery.CopyToUser | mtcp/src/api.c:1139-1160 | A read takes the next bytes, sets the window anew and leaves rcv_nxt where it is; with nothing to read nothing changes. |
| TcpDelivery.ReceiveAll | mtcp/src/tcp_in.c:561-628 | Every run of the receive path from a new connection, with the initial window and those the code sets: the output is that of the kept segments and rcv_nxt is the sequence number of the first byte missing. |
| TcpDelivery.ReceivedInOrder | mtcp/src/api.c:1139-1160 | Every run of the receive path on segments of one stream: the reader has a prefix of the stream, and rcv_nxt names the first byte that no kept segment has brought. |
| FragmentQueue.SlotsApart | mtcp/src/tcp_rb_frag_queue.c:42-46 | Stepping through the slots, two positions at most a lap apart share a slot if and only if they are a whole lap apart. |
| FragmentQueue.FullTest | mtcp/src/tcp_rb_frag_queue.c:96-112 | The producer's test, on a head index that may be out of date, is right about the moment it was loaded. |
| FragmentQueue.EmptyTest | mtcp/src/tcp_rb_frag_queue.c:114-130 | Equal indices mean empty, and nothing else. |
| FragmentQueue.StoreKeepsQueue | mtcp/src/tcp_rb_frag_queue.c:103-106 | The store of an enqueue never hits a slot that the consumer may still read. |
| FragmentQueue.ProducerKeepsInv | mtcp/src/tcp_rb_frag_queue.c:96-112 | Each load and store of an enqueue keeps the invariant, whatever the consumer did in between. |
| FragmentQueue.ConsumerKeepsInv | mtcp/src/tcp_rb_frag_queue.c:114-130 | Each load and store of a dequeue keeps the invariant, whatever the producer did in between. |
| FragmentQueue.RunKeepsInv | mtcp/src/tcp_rb_frag_queue.c:96-130 | The invariant holds in every state of every interleaving of one producer and one consumer. |
| FragmentQueue.FirstInFirstOut | mtcp/src/tcp_rb_frag_queue.c:96-130 | Every interleaving: what came out is a prefix of what went in, and that is, in the order of the calls, every fragment whose call did not find the queue full; at most the capacity is inside, no access leaves the array. |
| FragmentQueue.EveryCallCounts | mtcp/src/tcp_rb_frag_queue.c:96-130 | Every interleaving: the fragments of the calls that found room, judged by the two indices at their start, are exactly those enqueued and the one in progress; the dequeues that found a fragment are as many as were handed out and the one in progress. |
| FragmentQueue.EndsMoveIndices | mtcp/src/tcp_rb_frag_queue.c:103-126 | Every interleaving: the end of an enqueue moves the tail on by one slot and appends its fragment, the end of a dequeue moves the head on by one slot and hands out the oldest fragment, and nothing else moves them. |
| FragmentQueue.IndicesCount | mtcp/src/tcp_rb_frag_queue.c:42-46 | Every interleaving: tail and head are the numbers of fragments that went in and came out, modulo the size of the array. |
| FragmentQueue.FailuresAreReal | mtcp/src/tcp_rb_frag_queue.c:103-130 | An enqueue fails if and only if the queue was full when it loaded the head; a dequeue returns nothing if and only if the queue is empty. |
| FragmentPool.StepKeepsBound | mtcp/src/tcp_ring_buffer.c:169-195 | Opening and closing buffers, entering segments and using fragments up: what is queued and what the heads can still give fit into the number of chunks, and with a queue of that capacity no step loses a context. |
| FragmentPool.RunKeepsBound | mtcp/src/tcp_ring_buffer.c:398-429 | The same over every run of all buffers of a manager. |
| FragmentPool.SmallQueueLoses | mtcp/src/tcp_ring_buffer.c:420-424 | With fewer places than chunks, a run of either thread in which a context is lost because the result of the enqueue is ignored. |
| FragmentPool.NothingLostIff | mtcp/src/tcp_ring_buffer.c:81-142 | No run loses a context if and only if a queue has a place for every chunk, as it has in the manager, where both are made with the same number. |
| FragmentPool.EveryContextIsAccounted | mtcp/src/tcp_ring_buffer.c:169-195 | Over every run, each context that a read used up is in one of the two queues, was taken from them again, or is lost; each buffer that was opened is open or was closed. |
| SwFwSync.RunKeepsSemaphores | io_engine/driver/ixgbe_common.c:785-842 | One register access of one agent keeps the meaning of SMBI and SWESMBI: at most one holder, and it is the one inside. |
| SwFwSync.OneWriter | io_engine/driver/ixgbe_common.c:2022-2082 | While an agent is between its read and its write of GSSR, no other agent and no firmware is. |
| SwFwSync.NoConflictIsUnowned | io_engine/driver/ixgbe_common.c:2037-2039 | Finding the bits of both sides clear means that nobody owns the resources. |
| SwFwSync.WriteKeepsRegister | io_engine/driver/ixgbe_common.c:2055-2082 | The write of GSSR gives or takes exactly the agent's resources: no two owners, and the register names all owners. |
| SwFwSync.RunKeepsRegister | io_engine/driver/ixgbe_common.c:2022-2082 | Every step of an agent keeps ownership exclusive and the register exact. |
| SwFwSync.NextKeepsInv | io_engine/driver/ixgbe_common.c:785-860 | Every step of any agent or of the firmware keeps the protocol invariant, when releases get the inner semaphore. |
| SwFwSync.MutualExclusion | io_engine/driver/ixgbe_common.c:2022-2082 | Every interleaving of any number of agents and the firmware, with the exact poll limits: no resource has two owners, GSSR names the owners exactly, and no read-modify-write loses a bit, when releases get the inner semaphore. |
| SwFwSync.PollsFail | io_engine/driver/ixgbe_common.c:792-804 | While another agent keeps SMBI, all 2000 polls can fail and the attempt gives up. |
| SwFwSync.UnlockedReleaseBreaksExclusion | io_engine/driver/ixgbe_common.c:2070-2082 | A reachable state with two owners, after a release that went on although it did not get the inner semaphore, whose result the code ignores. |
| SwFwSync.SafeIffReleasesLock | io_engine/driver/ixgbe_common.c:2022-2082 | With two or more agents, resources never have two owners if and only if no release goes on without the inner semaphore. |
| SwFwRetry.TriesAgain | io_engine/driver/ixgbe_common.c:2027-2047 | While what it asks for is taken, an agent with n attempts left polls again with n - j, for every j below n, as a run from where it is shows. |
| SwFwRetry.GivesUp | io_engine/driver/ixgbe_common.c:2027-2052 | After the last of these attempts a run leads to the end of the call, without the resources. |
| SwFwRetry.GetsWhatIsReleased | io_engine/driver/ixgbe_common.c:2027-2060 | If the owner gives back what stands in the way before the last attempt, after any number of conflicts, a run leads to the state in which the agent owns all it asked for, and nothing else has changed. |
| SwFwRetry.RequestsGoOn | io_engine/driver/ixgbe_common.c:807-825 | While the firmware has its semaphore, a run leads to each of the 2000 requests for SWESMBI. |
| SwFwRetry.RequestsEnd | io_engine/driver/ixgbe_common.c:807-837 | After the last of them an acquire ends and SMBI is given back. |
| SwFwRetry.GrantedAfterFirmware | io_engine/driver/ixgbe_common.c:807-825 | If the firmware finishes before the last request, after any number of them, a run leads to the grant. |
| SwFwRetry.WhyItGivesUp | io_engine/driver/ixgbe_common.c:2022-2060 | In every run of all agents and the firmware, a call that ends owns what it asked for, or has met exactly as many conflicts as it had attempts, or has failed its last poll of SMBI or its last request of SWESMBI; while it goes on, its attempts are those it had less the conflicts it met. |
| AtrHash.FillKey | io_engine/driver/ixgbe_82599.c:1628-1631 | The byte array holds the key over and over, as a little-endian host lays it out. |
| AtrHash.ShiftKey | io_engine/driver/ixgbe_82599.c:1638-1643 | The shifted array holds int_key of the design, byte for byte. |
| AtrHash.ShiftStream | io_engine/driver/ixgbe_82599.c:1649-1656 | The shifted array holds int_stream of the design, byte for byte. |
| AtrHash.WindowBits | io_engine/driver/ixgbe_82599.c:1680-1684 | The value XORed in for a key bit is the sixteen stream bits of that position, at every byte and bit boundary. |
| AtrHash.ComputeHash | io_engine/driver/ixgbe_82599.c:1576-1690 | For all streams and keys the optimised loops compute the hash formula of the 82599, with the key's bytes in reverse order. `HashOfOneBit` and `HashIsLinear` say which hash that is. |
| AtrHash.HashOfOneBit | io_engine/driver/ixgbe_82599.c:1576-1690 | For each of the 336 bits of the stream and the 16 bits of the hash: the hash of that bit alone, from single bits of the key. |
| AtrHash.HashIsLinear | io_engine/driver/ixgbe_82599.c:1594-1607 | The hash of an XOR of streams is the XOR of their hashes. |
| AtrHash.HashDeterminesKey | io_engine/driver/ixgbe_82599.c:1594-1607 | Two keys that hash all streams alike are equal. |
| AtrHash.AgreesWithOwnKeyIff | io_engine/driver/ixgbe_82599.c:1594-1607 | Read literally, with the key as written, the comment's formula is what the code computes on all streams if and only if the key is the same with its bytes reversed. |
| AtrHash.BucketKeyFails | io_engine/driver/ixgbe_type.h:2169-2170 | With the bucket key in use some stream tells the literal reading and the code apart. |
| AtrHash.HtonlSwaps | io_engine/driver/ixgbe_82599.c:1443-1446 | The key that is written to the card is the key with its bytes reversed. |
| AtrHash.FlowDirector.PrimeKeys | io_engine/driver/ixgbe_82599.c:1442-1446 | Both key registers hold the keys with their bytes reversed. |
| AtrHash.FlowDirector.HashesAgree | io_engine/driver/ixgbe_82599.c:1442-1446 | For all streams and keys the software hash is the formula for the key programmed into the card, so that software and card agree. |
| ToeplitzRss.BuildKeyCache | util/rss.c:13-105 | Entry i of the sliding cache is the 32-bit window of the key at bit i. |
| ToeplitzRss.HashField | util/rss.c:124-143 | One loop over an address or port continues the Toeplitz sum over its bits. |
| ToeplitzRss.Hasher.GetRSSHash | util/rss.c:107-145 | The hash is the Toeplitz hash of source address, destination address, source port, destination port, on the first call and on later ones. |
| ToeplitzRss.Hasher.GetRSSCPUCore | util/rss.c:153-165 | The queue is the low seven bits of the hash, reversed within their group of four, modulo the queues. |
| ToeplitzRss.QueueOfLowBits | util/rss.c:153-165 | For the number m in the low seven bits of the hash, the queue is 4 * (m / 4) + 3 - m % 4 modulo the queues. |
| ToeplitzRss.Linear | util/rss.c:107-145 | The Toeplitz hash is linear in its input. |
| ToeplitzRss.ShiftedField | util/rss.c:107-145 | With a key of period sixteen, the same field sixteen or thirty-two bits further on contributes the same. |
| ToeplitzRss.HashIsSymmetric | util/rss.c:107-145 | With any key of period sixteen, both directions of a connection have the same hash. |
| ToeplitzRss.KeyHasPeriod16 | util/rss.c:16-100 | The key in use has period sixteen. |
| ToeplitzRss.RemapIsInvolution | util/rss.c:150-163 | The redirection stays in its group of four and undoes itself. |
| ToeplitzRss.SameQueueBothWays | util/rss.c:153-165 | Both directions of every connection land on the same existing queue, for any number of queues. |
| IpChecksum.AddWord | io_engine/include/ps.h:119-148 | The carry trick is addition with end-around carry. |
| IpChecksum.CsumFold | io_engine/include/ps.h:100-110 | Folding is the complement of the end-around sum of both halves. |
| IpChecksum.FoldKeepsResidue | io_engine/include/ps.h:100-110 | Folding 32 bits to 16 keeps the residue modulo 2^16 - 1, and tells zero from a nonzero multiple. |
| IpChecksum.OnesSumIsResidue | io_engine/include/ps.h:119-148 | A one's complement sum is the residue of the plain sum. |
| IpChecksum.IpFastCsum | io_engine/include/ps.h:119-148 | Summing 32-bit words and folding at the end gives the RFC 1071 checksum of the 16-bit halfwords; its complement is the sum of all halfwords modulo 65535, and zero only if all are. |
| IpChecksum.VerifiesIff | io_engine/include/ps.h:119-148 | A header checks out at the receiver if and only if the field holds the computed checksum, or all ones where that is zero. |
| IpChecksum.ByteOrderIndependence | io_engine/include/ps.h:119-148 | Exchanging the bytes of every halfword exchanges the bytes of the checksum. |
| RarTable.AddrInjective | io_engine/driver/ixgbe_82599.c:998-1001 | Different MAC addresses have different register contents. |
| RarTable.Table.SetVmdq | io_engine/driver/ixgbe_82599.c:1099-1118 | Exactly the given pool is added to the slot. |
| RarTable.Table.ClearVmdq | io_engine/driver/ixgbe_82599.c:1053-1091 | Exactly the given pool, or all of them, leaves the slot; the last one clears the address, except at slot 0. |
| RarTable.Table.ClearRar | io_engine/driver/ixgbe_common.c:1275-1300 | Clearing a slot and clearing its pools call each other, end, and leave the slot free. |
| RarTable.Table.SetRar | io_engine/driver/ixgbe_common.c:1228-1266 | The slot holds the address, enabled, with the pool added. |
| RarTable.Table.FindMac | io_engine/driver/ixgbe_82599.c:1009-1020 | The search finds the slot of the address, or that no slot below the mark has it, with a free slot seen on the way if there is one. |
| RarTable.AddKeepsTable | io_engine/driver/ixgbe_82599.c:1022-1035 | Adding keeps every address in one slot only and everything in use below the mark. |
| RarTable.RemoveKeepsTable | io_engine/driver/ixgbe_82599.c:1053-1091 | Removing a pool keeps the table in order; the slot is freed with its last pool, but for slot 0. |
| RarTable.AddUpdatesMap | io_engine/driver/ixgbe_82599.c:989-1045 | Seen as a map from addresses to pools, adding changes one key only. |
| RarTable.RemoveUpdatesMap | io_engine/driver/ixgbe_82599.c:1053-1091 | Seen as a map, removing changes one key only, and drops it with its last pool. |
| RarTable.Table.InsertMac | io_engine/driver/ixgbe_82599.c:989-1045 | Refines the map: with room the address gets the pool and the result is its slot; without room no error is reported, the result is one past the end and the mark moves past the table, which stays in order. Which of the two, if and only if there is room. |
| RarTable.FullTableInsert | io_engine/driver/ixgbe_82599.c:1029-1035 | A full table of one slot: a second address gets slot 1, which does not exist, and no error. |
| RarTable.Table.RemovePool | io_engine/driver/ixgbe_82599.c:1053-1091 | Refines removal from the map, also after the mark has moved past the table; on a free slot and past the end of the table nothing changes. |
| VlanTable.Filter.FindSlot | io_engine/driver/ixgbe_82599.c:1128-1161 | A slot is found if and only if the VLAN has one or one is free, and it is the right one. |
| VlanTable.ChangeUpdatesMap | io_engine/driver/ixgbe_82599.c:1202-1265 | Changing the pools of the right entry keeps each VLAN in one entry and changes the map from VLANs to pools at that VLAN only. |
| VlanTable.Filter.SetVfta | io_engine/driver/ixgbe_82599.c:1172-1270 | Refines the map and the filter bits: out-of-range VLANs are refused, all others set or clear their one filter bit, and the map follows if virtualisation is on and there is room; success is reported either way. |
| VlanTable.Filter.ClearVfta | io_engine/driver/ixgbe_82599.c:1278-1292 | The map and all filter bits are empty. |
| ByteQueue.RingBuffer.constructor | util/ring_buffer.c:39-47 | A new queue is empty. |
| ByteQueue.RingBuffer.GetRemain | util/ring_buffer.c:64-79 | Reports the room behind the queued bytes; moving them first changes none of them. |
| ByteQueue.RingBuffer.Remove | util/ring_buffer.c:101-117 | Takes bytes off the front if there are so many, and nothing otherwise. |
| ByteQueue.RingBuffer.AddDataLen | util/ring_buffer.c:119-125 | Bytes already written behind the queue become its last ones. |
| ByteQueue.CopyData | util/ring_buffer.c:127-147 | Appends a prefix of the source, short of what was asked only when the block is full; the source is unchanged. |
| ByteQueue.MoveToREPData | util/ring_buffer.c:149-193 | The bytes appended are messages whose payloads, joined, are what left the source, in order; deframing them gives exactly that prefix; less than asked is moved only for lack of room. |
| ByteQueue.FramingRoundTrip | util/ring_buffer.c:149-193 | Reading the messages back yields the payload bytes, for every header layout whose length can be read back. |
| HttpDate.LeapDaysExact | util/tdate_parse.c:163-179 | The closed formula for leap days agrees with counting year by year, for all years from 1970. |
| HttpDate.IsLeapOff | util/tdate_parse.c:155-159 | The leap test, given the year minus 1900, is wrong in exactly the years 0 and 300 modulo 400, and in which direction. |
| HttpDate.TmToTime | util/tdate_parse.c:163-194 | The result is the number of seconds since 1970, off by exactly one day where the leap test is wrong. |
| HttpDate.StrlongSearch | util/tdate_parse.c:70-93 | On every sorted table, binary search finds what a search in order finds. |
| HttpDate.TablesSorted | util/tdate_parse.c:96-152 | Both name tables are sorted as the search needs them. |
| HttpFormats.NamesFound | util/tdate_parse.c:96-152 | Short and long names of days and months, in letters of any case, stand for the right day and month. |
| HttpFormats.StepSigned | util/tdate_parse.c:218-220 | The %d conversion takes a sign and heeds a minus. |
| HttpFormats.EarlierFail | util/tdate_parse.c:213-311 | A date in one format is taken by none of the formats tried before it. |
| HttpFormats.ReadsEveryFormat | util/tdate_parse.c:197-333 | In each of the seven formats, behind any blanks, every field of every valid date comes back; years of four digits and of two (70 to 99, 00 to 69) mean the right year. |
| HttpFormats.ParsesEveryFormat | util/tdate_parse.c:197-333 | Every valid date in each of the seven formats, with short or long names in any case and a year of four or two digits, is read as its time, up to the error of the leap test. |
| HttpFormats.PrintNamesTheDay | util/tdate_parse.c:347-373 | The first three letters printed name the week day: Thursday on the first day, and one further each day. |
| HttpFormats.ParsePrinted | util/tdate_parse.c:197-373 | Of the seven formats the sixth is the first to accept a printed date, and it recovers every field. |
| HttpFormats.RoundTripTm | util/tdate_parse.c:197-373 | Parsing any printed valid date gives its time, up to the error of the leap test. |
| HttpFormats.RoundTripIff | util/tdate_parse.c:197-373 | For every time from 1970 on, parse after print is the identity if and only if the date is not in March to December of a year that is 0 or 300 modulo 400; otherwise by how much it is off. |
| HttpFormats.RoundTripFails | util/tdate_parse.c:155-159 | The first of March 2000 reads as the day before, that of 2300 as the day after. |
| HttpDate.TimetToHttpdate | util/tdate_parse.c:347-373 | The text is always a prefix of the date, and complete if and only if it fits. |
| HttpDate.TruncationReportedIff | util/tdate_parse.c:361-372 | An error means a cut text and a cut text an error, if and only if the buffer is at most one character too small. |
| HttpDate.TruncationNotReported | util/tdate_parse.c:361-372 | A buffer of 20 characters cuts every date up to the year 9999 and success is reported. |
| HttpDate.PrintLength | util/tdate_parse.c:359-368 | Up to the year 9999 every printed date has 29 characters. |
| HttpDate.PoundCase | util/tdate_parse.c:51-59 | The array is lower-cased in place. |
| Calendar.Gmtime | util/tdate_parse.c:347-373 | The reference calendar: every time has a valid date whose time it is. |
| SpiEeprom.Hw.ShiftOut | io_engine/driver/ixgbe_common.c:928-972 | The chip on the other side has received the bits, most significant first, and nothing else. |
| SpiEeprom.Hw.ShiftIn | io_engine/driver/ixgbe_common.c:981-1010 | The word collected is what the chip put out on these clock cycles. |
| SpiEeprom.Hw.Ready | io_engine/driver/ixgbe_common.c:866-899 | Succeeds if and only if the chip is busy for fewer than 1000 polls; polling changes no byte of it. |
| SpiEeprom.Hw.Acquire | io_engine/driver/ixgbe_common.c:734-777 | Succeeds if and only if the semaphore is free and the grant comes within 1000 polls; then both are held, otherwise neither is. |
| SpiEeprom.Hw.ReleaseEeprom | io_engine/driver/ixgbe_common.c:1052-1074 | Chip deselected, grant and semaphore given back. |
| SpiEeprom.CommandDecoded | io_engine/driver/ixgbe_common.c:583-593 | From the bits on the wire the chip decodes the command and the full address, on parts with 16 and with 8 address bits. |
| SpiEeprom.WriteCommand | io_engine/driver/ixgbe_common.c:573-598 | A complete write command stores the two bytes of the word at their addresses and nothing else. |
| SpiEeprom.ReadCommand | io_engine/driver/ixgbe_common.c:640-660 | The bits a read command puts out are the stored word after the byte swap. |
| SpiEeprom.StatusBits | io_engine/driver/ixgbe_common.c:866-899 | The status byte says busy if and only if the chip is. |
| SpiEeprom.Hw.WriteEeprom | io_engine/driver/ixgbe_common.c:551-606 | The exact result: success if and only if the offset is in range, semaphore and grant are given and the chip is busy for fewer than 1000 polls. On success exactly the word is stored, on failure nothing is; on every path the chip is deselected and nothing is held. |
| SpiEeprom.Hw.ReadEeprom | io_engine/driver/ixgbe_common.c:616-666 | The exact result, as for writing; on success the stored word comes back; reading changes nothing; on every path nothing is held. |
| SpiEeprom.StoredReadsBack | io_engine/driver/ixgbe_common.c:551-666 | A stored word reads back and every other word reads as before. |
| SpiEeprom.Hw.WriteThenRead | io_engine/driver/ixgbe_common.c:551-666 | A word written and read back at once comes back, and the read succeeds if and only if its requests are granted and the chip's write time is below 1000 polls. |
| I2cBus.Bus.StartCondition | io_engine/driver/ixgbe_phy.c:1322-1343 | From an idle bus a listener sees one start and nothing else; from other levels, what comes in front of the start. |
| I2cBus.Bus.StopCondition | io_engine/driver/ixgbe_phy.c:1351-1366 | A listener sees the closing clock and one stop. |
| I2cBus.Bus.ClockOutBit | io_engine/driver/ixgbe_phy.c:1504-1527 | Succeeds if and only if a driven one reads back as one; a listener then sees exactly this bit: the data line changes only while the clock is low. |
| I2cBus.Bus.ClockOutByte | io_engine/driver/ixgbe_phy.c:1399-1420 | Succeeds if and only if every driven one reads back; a listener then sees the eight bits, most significant first. |
| I2cBus.Bus.GetAck | io_engine/driver/ixgbe_phy.c:1428-1467 | One clock cycle with the line released; succeeds if and only if a slave holds it low at one of ten looks. |
| I2cBus.Bus.BusClear | io_engine/driver/ixgbe_phy.c:1626-1651 | From any level of the lines a listener sees a start, nine clocks with the data line released, a start and a stop; the bus is idle afterwards. |
| I2cBus.Bus.WriteByte | io_engine/driver/ixgbe_phy.c:1253-1314 | Succeeds if and only if the semaphore is granted, every bit reads back as driven and every byte is acknowledged; it is then one transfer of device, offset and data byte. On every path the lines are driven only under the semaphore, the bus is idle again and the semaphore given back. |
| I2cBus.TransferDecodes | io_engine/driver/ixgbe_phy.c:1253-1314 | A slave that watches only the two lines recovers exactly the bytes sent, between one start and one stop. |
| I2cBus.AcksIsHeard | io_engine/driver/ixgbe_phy.c:1253-1314 | A slave that holds the line low through the ninth clock, and otherwise leaves it alone, hears every transfer from an idle bus, so that every write to it succeeds. |
| EepromImage.Eeprom.CalcChecksum | io_engine/driver/ixgbe_common.c:1080-1118 | The 16-bit loops compute the magic sum minus the sum of all covered words. |
| EepromImage.Eeprom.Validate | io_engine/driver/ixgbe_common.c:1128-1162 | Validation succeeds if and only if covered words and checksum word add up to the magic sum. |
| EepromImage.Eeprom.Update | io_engine/driver/ixgbe_common.c:1168-1189 | Only the checksum word changes. |
| EepromImage.CoveredUpdate | io_engine/driver/ixgbe_common.c:1080-1118 | Changing any word that is no pointer and no length changes the covered sum by the difference, as often as the checksum covers that word. |
| EepromImage.ChecksumFollows | io_engine/driver/ixgbe_common.c:1080-1118 | So the checksum moves by that much the other way, modulo 65536; a word in front of it and in no section counts once. |
| EepromImage.UpdateStaysInRange | io_engine/driver/ixgbe_common.c:1168-1189 | Changing a word that is no pointer and no length moves no section, so that validation can follow an update. |
| EepromImage.UpdateMakesValidIff | io_engine/driver/ixgbe_common.c:1168-1189 | After an update the image is valid if and only if the sections over the checksum word do not change the sum; always when there are none. |
| EepromImage.OverlapBreaksUpdate | io_engine/driver/ixgbe_common.c:1168-1189 | An image that an update leaves invalid. |
| EepromImage.PointerToChecksumBreaksUpdate | io_engine/driver/ixgbe_common.c:1168-1189 | An image in range with a pointer to the checksum word: the update turns the checksum into the length of a section that leaves the EEPROM. |
| EepromImage.SectionNeverEndsIff | io_engine/driver/ixgbe_common.c:1106-1110 | The test of the inner loop, on its 16-bit counter, holds after every number of steps if and only if the section ends at word 65535 or later. |
| EepromAccess.WordsOfBytes | io_engine/driver/ixgbe_ethtool.c:806-809 | Words and bytes are two views of one image. |
| EepromAccess.GetEeprom | io_engine/driver/ixgbe_ethtool.c:776-813 | Any byte range reads as the bytes of the image, at any alignment; an empty one is refused. |
| EepromAccess.EndsAndMiddle | io_engine/driver/ixgbe_ethtool.c:839-858 | Kept end bytes and new bytes together are the words of the spliced image. |
| EepromAccess.SetEeprom | io_engine/driver/ixgbe_ethtool.c:815-868 | The bytes are spliced into the image at any alignment, no other byte changes but the checksum word; a wrong magic or empty request changes nothing. |
| EepromAccess.SetThenGet | io_engine/driver/ixgbe_ethtool.c:776-868 | What was written is what is read back, away from the checksum word. |
| DcbCredits.CheckConfig | io_engine/driver/ixgbe_dcb.c:48-129 | A configuration is accepted if and only if both directions meet the checks, with sums modulo 256; a rejected one is reported by its first fault, Tx before Rx, classes before groups. |
| DcbCredits.CheckClasses | io_engine/driver/ixgbe_dcb.c:59-88 | The first faulty class is the one reported; otherwise the group sums are right modulo 256. |
| DcbCredits.CheckGroups | io_engine/driver/ixgbe_dcb.c:90-119 | The first faulty group is the one reported, then the total. |
| DcbCredits.AcceptedIsRules | io_engine/driver/ixgbe_dcb.c:38-46 | A configuration meets the documented rules if and only if it is accepted and none of its sums leaves 8 bits. |
| DcbCredits.WrappedIsAccepted | io_engine/driver/ixgbe_dcb.c:87-113 | An accepted configuration that gives the link away 3.56 times. |
| DcbCredits.CalculateCredits | io_engine/driver/ixgbe_dcb.c:140-205 | Each class gets the credits of its share, truncated to the field widths of the structure. |
| DcbCredits.LinkPercentExact | io_engine/driver/ixgbe_dcb.c:162-166 | The share of a class is its part of its group's part rounded down, or one where that is less than one. |
| DcbCredits.CreditMaxExact | io_engine/driver/ixgbe_dcb.c:176-194 | The maximum is the part of all credits rounded down, where that is at least 145 (Tx: 513), and otherwise that minimum, or nothing below one credit. |
| DcbCredits.RulesBoundShares | io_engine/driver/ixgbe_dcb.c:38-46 | The documented rules leave no share above 100. |
| DcbCredits.CreditsInRange | io_engine/driver/ixgbe_dcb.c:157-200 | In every accepted configuration of shares up to 100, wrapped sums or not, each class that is not link strict gets between 1 and 100 percent and a maximum between the jumbo (Tx: TSO) minimum and 4095; link strict classes get none. |
| DcbCredits.ExactIsByGroup | io_engine/driver/ixgbe_dcb.c:157-169 | Shares counted class by class and group by group are the same. |
| DcbCredits.BandwidthIsConserved | io_engine/driver/ixgbe_dcb.c:157-169 | Under the rules the link percentages add up to at most 100, plus one for each share rounded up. |
| DcbCredits.RegisterDecodes | io_engine/driver/ixgbe_dcb_82599.c:170-183 | The fields of a credit register read back if and only if refill, maximum and group fit their 9, 12 and 3 bits. |
| DcbCredits.PriorityBits | io_engine/driver/ixgbe_dcb_82599.c:216-230 | The strict-priority bits are set if and only if the class has that priority, whatever the credits. |
| DcbCredits.ProgrammedCredits | io_engine/driver/ixgbe_dcb_82599.c:272-285 | In every accepted configuration of shares up to 100, each credit register reads back what was computed for its class. |
| DcbCredits.ConfigArbiter | io_engine/driver/ixgbe_dcb_82599.c:170-183 | The loop programs one register for each class, with that class's credits, group and priority. |
| DcbCredits.Configure | io_engine/driver/ixgbe_dcb.c:131-205 | Check, credits and registers in sequence: an accepted configuration of shares up to 100 leaves in the card, class by class, what was computed for it. |
| WgetScheduler.ReadLoop | apps/example/epwget.c:321-446 | The read loop and the tests behind it compute the verdict on the download. |
| WgetScheduler.BodyIsFair | apps/example/epwget.c:389-445 | Once the header is in, the download is complete if and only if all promised bytes arrive before the server ends it; otherwise the server's ending decides. |
| WgetScheduler.FairIff | apps/example/epwget.c:321-446 | Any reads of a new download are judged fairly if and only if there are none, or the first is not data, or it has the whole header and more than the header if more is promised, or the server does what the download is taken for: a header alone is taken for a closed connection, the first part of a header for an error. |
| WgetScheduler.HeaderFirst | apps/example/epwget.c:341-446 | With the header in the first read, the verdict is the fair one if and only if the header does not come alone or the server does close early. |
| WgetScheduler.HeaderSplitFails | apps/example/epwget.c:371-384 | A header in two reads, with all it promises: everything arrives and the download counts as an error. |
| WgetScheduler.HeaderAloneFails | apps/example/epwget.c:364-368 | A header of 100 bytes alone, then the 500 bytes it promises: everything arrives and the download counts as incomplete. |
| WgetScheduler.NoLengthIsComplete | apps/example/epwget.c:349-357 | A response without Content-Length is complete with its first read: the test for a negative length is on an unsigned variable. |
| WgetScheduler.ScanSplits | apps/example/epwget.c:321-446 | How the reads fall into events makes no difference to a download. |
| WgetScheduler.EventsAreOneScan | apps/example/epwget.c:321-446 | Data split over any events gets the verdict it gets in one. |
| WgetScheduler.OpenIsWaiting | apps/example/epwget.c:321-446 | A download that stays open has received less than promised. |
| WgetScheduler.Context.CreateConnection | apps/example/epwget.c:170-214 | One more is started and pending, or nothing changed. |
| WgetScheduler.Context.Refill | apps/example/epwget.c:224-229 | Without a failure, either the concurrency is used up or everything was started; open downloads are not touched. |
| WgetScheduler.Context.CloseConnection | apps/example/epwget.c:216-230 | Exactly one connection is done; all accounts stay balanced. |
| WgetScheduler.Context.HandleReadEvent | apps/example/epwget.c:321-446 | The verdict on the download moves exactly one outcome counter, and only a verdict closes it. |
| WgetScheduler.Context.HandleEvent | apps/example/epwget.c:635-670 | The state after every event: a writable event sends the request if it was not sent and changes nothing else; a read event that leaves the download open leaves it where the reads bring it; a verdict or an error is counted and closes this connection only, and others fill its place. The accounts stay balanced. |
| WgetScheduler.Context.ServeConnection | apps/example/epwget.c:635-670 | The events of a new connection in turn, the request and then any reads: the verdict on all of them is counted once, at the first event that has one. |
| WgetScheduler.Context.CompleteDownload | apps/example/epwget.c:635-670 | A connection from its first writable event to the last byte promised, however the data falls into events, ends as one more completion and nothing else. |
| WgetScheduler.Context.RunWgetMain | apps/example/epwget.c:598-678 | Every run over any answers of epoll: all accounts balance; every event on an open socket is handled; while the thread goes on, its concurrency is used up or all is started, and it has not reached its target; an error of epoll stops it; a finished thread has started and closed exactly its target and has nothing open. |
| WgetScheduler.DealFlows | apps/example/epwget.c:830-852 | The flows each thread gets, with all threads in one process and with one process for each core. |
| WgetScheduler.FlowsAreDealt | apps/example/epwget.c:830-852 | In one process all flows are dealt out, none twice, and no thread gets two more than another. |
| WgetScheduler.ProcessesDealIff | apps/example/epwget.c:830-852 | One process for each core adds up to the total if and only if the cores divide it. |
| WgetScheduler.ProcessesOverdeal | apps/example/epwget.c:830-852 | Three flows on two cores, a process for each: four are started. |

## Left out

- Sockets, epoll, threads, timers, logging and configuration files: input and output around the modelled core.
- The rest of the TCP stack (connection states, congestion control, retransmission, timers): the model covers the receive path from segment to reader.
- Discarding received data in FIN_WAIT_1 and FIN_WAIT_2, allocation failures of buffers and fragments, and the read lock around the receive buffer.
- TcpReassembly.RecvBuffer.Put: requires the end of a kept segment to lie within half the sequence space of the head, as the int arithmetic of the source does; `WindowBoundsEnd` shows that callers keep to it. The chunk is smaller than half the sequence space.
- TcpReassembly.RecvBuffer.ProcessPayload: a payload has at most 65535 bytes, as in an IP packet.
- TcpReassembly.WalkFragments: the fragment list is a sequence and contexts are numbers, so that relinking in place is not captured; that each context is listed or freed once is.
- TcpReassembly.TakeKeepsPlace: where a context came from is not modelled; the source marks those from calloc and then clears the whole context, with the mark.
- TcpReassembly.ReadKeepsPlace: the buffer gives its contexts to an unbounded free list; that the bounded queues of the source always have room is shown in `FragmentPool`.
- FragmentPool: a buffer is reduced to whether it has a fragment at its head; that a segment never takes it away, and that a read gives a context back exactly when it uses it up, is stated by `PutAt` and `Remove`. Taking a context from the two queues is one step.
- TcpDelivery.Play: segments begin and end within half the sequence space of the head when they arrive; farther ones are taken for others by the wrapped comparison.
- TcpDelivery.ReceiveAll: as for Play, counted from the next byte expected too.
- FragmentQueue: loads and stores take effect in program order, as on x86; one producer and one consumer.
- SwFwSync, SwFwRetry: firmware is assumed to follow the same protocol; delays are left out, the numbers of polls are not.
- AtrHash: the setters and getters of the fields of the hashed structure; the host is little-endian.
- IpChecksum: the x86 assembler version of the checksum.
- RarTable.Table.InsertMac: requires a nonzero address, because free slots are recognised by zero registers, a pool below 64, and a mark that has not moved past the table, since the registers behind it are others.
- VlanTable.Filter.SetVfta: pools are below 32 when virtualisation is on, because for others the source shifts a 32-bit word by 32 or more; that filter bits and map agree across mixed modes is not claimed.
- ByteQueue.CopyData: requires a length that is not negative; with a negative one the source calls memcpy with a huge size.
- ByteQueue: the header of a message is a parameter with the properties the code uses, since rep.h is not part of this model. MoveData, the reads and writes of sockets, and allocation failure are not modelled.
- HttpDate.TmToTime: integers are unbounded, so years beyond about 5.8 million, where an int overflows, are not modelled. The tables are given as sorted, as qsort leaves them.
- SpiEeprom: the memory size is a power of two, as the driver computes it; the semaphore request has a given outcome, without the protocol of `SwFwSync`; delays are left out. Reading through the EERD register is not modelled.
- I2cBus: reading a byte from the bus, clock stretching and delays.
- EepromImage.Eeprom.CalcChecksum: requires that followed pointers and their sections lie inside the EEPROM; for others the source adds up stale values, or never ends (`SectionNeverEndsIff`).
- EepromImage.UpdateMakesValidIff: requires that no section starts at the checksum word itself; `PointerToChecksumBreaksUpdate` shows what happens otherwise.
- EepromAccess.SetEeprom: requires a request inside the EEPROM, as the ethtool core guarantees, and for an accepted one an image whose sections stay in range; read and write failures of the chip and failed allocations are not modelled.
- EepromImage.Eeprom.Validate: as for CalcChecksum.
- EepromImage.Eeprom.Update: as for CalcChecksum.
- DcbCredits: statistics and flow control of traffic classes; the 82598 registers.
- WgetScheduler.Context.RunWgetMain: `completes` counts all downloads completed so far; the field of the statistics is zeroed every time they are printed, and printing is not modelled. A run ends with the answers of epoll it is given; events count only on open sockets, and of reading only after the request was sent. File output and response times are left out; the header parser's answers are inputs.
- Everything else in the driver (link setup, PHY identification, flow control, statistics), the packet I/O engine and the other applications.
