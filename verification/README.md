# Verification of the AESD character device and its socket server

The repository stacks a character device on a ring of entries, and a socket server on the device. This
project models each layer in Dafny and proves what the layer above relies on, up to a theorem about what
every client of the server is sent.

| file | what it models |
|---|---|
| Bytes.dfy | byte strings, concatenation, sums of sizes, positions |
| KernelHeap.dfy | kmalloc, krealloc, kfree and the user copies, as a heap of identified allocations |
| Ring.dfy | the circular buffer, for any capacity from 1 to 255 |
| DeviceSpec.dfy | the device as functions of the chunks it has accepted: entries, content, reads, seeks |
| Driver.dfy | the driver: write, read, llseek, ioctl, cleanup, on the ring and the heap |
| Links.dfy, Slist.dfy, Stailq.dfy, Lists.dfy, Tailq.dfy | the four intrusive lists of queue.h |
| Packet.dfy | the receive loop that assembles a packet |
| Session.dfy | what one handler does to the device while it holds the server's mutex, and a whole handler |
| Server.dfy | the server as a machine of interleaved steps |
| ThreadList.dfy | safety of the connection list in every run of that machine |
| Replies.dfy | what every handler sends back in every run of that machine |
| Progress.dfy | that handlers can finish and main can reap, from every state of every run |
| Witnesses.dfy | short runs of the driver and of the server in which they do less than their interfaces suggest |

How the layers meet. `Driver.Device` carries a ghost history: `chunks`, what each write accepted, in lock
order. `Valid` says that the ring, the pending buffer and the heap hold exactly what `DeviceSpec` computes
from that history, so each method's contract states the new state by stating the new history. The machine in
`Server.dfy` steps over the same functions (`ReadAt`, `SeekTarget`, one more chunk for a write), so a step of
the machine is a call whose contract is proved in `Driver.dfy`. The machine's requests are what
`Packet.AssemblePacket` assembled, already told apart into appends and seek commands, as `Session.Serve` does.

What is a parameter. Whether a lock wait is interrupted, whether an allocation fails, how much of a user
buffer could be copied, what the memory behind the entry array looks like to seek command 10, how stdio splits
its writes and reads, what a receive returns, and which memory malloc hands out. The driver is modelled with
all its failures; `Session.dfy` and the machine in `Server.dfy` are about a device whose allocations succeed
and whose lock waits are not interrupted. Freed memory of the server may be handed out again; a kernel allocation has an identity that is
never reused, so that "freed once" can be said.

## Where the code does less than its comments say

- aesd_ioctl.h counts write commands from zero; the driver counts slots. The two agree on every request exactly
  when rotating the entry sizes by `out_offs` changes nothing, so always while `out_offs` is 0
  (`DeviceSpec.SlotOrderIffRotation`), and otherwise a seek can land elsewhere (`DeviceSpec.SlotSeekGoesWrong`).
- The range check of the ioctl admits command number 10, which names no slot. Among the numbers it admits, the
  slots the seek looks at are all in the array exactly when the number is not 10, however many slots are in use
  (`DeviceSpec.SlotsInArray`). For 10, the memory behind the array is taken for an entry, and even a refusal can
  move the position (`Driver.Device.Ioctl`).
- An offset equal to the size of an entry is accepted and means the start of the next one
  (`DeviceSpec.SeekRoundTrip`).
- SEEK_END counts all bytes ever accepted, less those whose writer has unlocked but not yet added its count. It
  is the end of the stored data exactly when these are as many as the bytes evicted and pending; so, when no
  count is in flight, exactly while at most ten commands were committed and nothing is pending
  (`Driver.Device.SeekEndIsContentEnd`). It can land too far (`DeviceSpec.SeekEndGoesTooFar`) and too early
  (`Witnesses.SeekEndTooEarly`).
- A failed allocation returns with the lock held. From then on writes and seeks can only be interrupted; the
  stored entries stay as they were (`Driver.Device.WriteLocked`).
- A write that asks for bytes and copies none while nothing is pending leaves a buffer that the next write
  forgets, and a failed allocation forgets the pending buffer. No allocation is lost exactly when no write but
  perhaps the last is of the first kind and, after a failed allocation, not the last either and nothing was
  pending (`Driver.Device.NoneLost`; `Witnesses.StarvedWriteLosesBuffer`, `Witnesses.FailedGrowthLosesBuffer`).
- The receive loop takes one byte more than the packet when something follows its newline in the same receive,
  and nothing behind a NUL. It assembles what was meant exactly when that has no NUL and no byte but a NUL
  follows its newline in its receive (`Packet.PacketIsThroughNewline`, `Packet.NextPacketLeaksIn`, `Packet.NulStops`); in the first
  receive the extra byte does not fit the allocation (`Packet.FirstReceiveFits`).
- strncat may take one byte more than was scanned. It reads past the receive buffer exactly when the receive
  fills all 100 bytes, has no NUL, and has no newline before its last byte (`Packet.OverreadsExactly`,
  `Packet.FullReceiveOverreads`).
- The driver cuts entries where its writes end, so a packet with a newline before its last byte becomes other
  entries when stdio splits it otherwise. A packet is stored the same however it is split exactly when it has
  none (`DeviceSpec.SplitMatters`). Otherwise the same requests in the same order can be answered differently
  (`Witnesses.TwoReplies`); a handler does assemble such packets (`Packet.PacketIsOneLine` says exactly when,
  `Witnesses.SplitIsAssembled` for the packet of that example).

## Model

| member | source | states |
|---|---|---|
| Ring.CircularBuffer.AddEntry | aesd-char-driver/aesd-circular-buffer.c:64-100 | the stored entries gain the new one at the end and lose the oldest exactly when the ring was full; the pointer returned is the one pushed out |
| Ring.CircularBuffer.FindEntryOffset | aesd-char-driver/aesd-circular-buffer.c:29-55 | empty, partly filled or full: not found exactly when the position is at or past the total size, else the entry and offset whose position it is |
| Ring.CircularBuffer.constructor | aesd-char-driver/aesd-circular-buffer.c:105-108 | start-up leaves an empty ring whose slots are all zero |
| Ring.BoundedFifo | aesd-char-driver/aesd-circular-buffer.c:76-98 | after n adds the indices are n mod N and 0 or n mod N, full iff n >= N, and the pointers returned followed by those stored are all the pointers added, in order |
| Ring.SlotOfAdd | aesd-char-driver/aesd-circular-buffer.c:86-92 | each of the newest N adds is still in slot number (its number mod N) |
| Ring.RotateConsistent | aesd-char-driver/aesd-circular-buffer.c:76-96 | overwriting the slot at in_offs of a full ring and advancing both indices keeps the ring's meaning, with the oldest entry gone |
| Bytes.PlaceUnique | aesd-char-driver/aesd-circular-buffer.c:42-46 | a position below the total lies at one offset of one entry only, so the lookup's answer is the only one |
| KernelHeap.Heap.Krealloc | aesd-char-driver/main.c:97-100 | keeps the bytes that fit; a moved allocation frees the old identity; a failure changes nothing |
| KernelHeap.Heap.Kfree | aesd-char-driver/main.c:126-128 | only a live allocation may be freed, and it is then freed for good |
| KernelHeap.Heap.CopyFromUser | aesd-char-driver/main.c:104-106 | a prefix of the user's bytes arrives and the rest is reported missing |
| DeviceSpec.Conservation | aesd-char-driver/main.c:92-140 | the groups and the rest concatenate to everything accepted, in order; the rest has no newline and every group has one |
| DeviceSpec.CutExists | aesd-char-driver/main.c:123-137 | any history of chunks can be cut after each chunk that contains a newline |
| DeviceSpec.CutUnique | aesd-char-driver/main.c:123-137 | whatever such cut is made, its pieces are the committed groups and its tail is what is pending |
| DeviceSpec.ByteCount | aesd-char-driver/main.c:119-141 | stored, evicted and pending bytes add up to the bytes accepted |
| DeviceSpec.PartwayStep | aesd-char-driver/main.c:95-137 | accepting the next bytes of a line, or of a part of one, keeps the device in the state it would be in had all so far come in one write |
| DeviceSpec.CommitsAtLastByte | aesd-char-driver/main.c:123-137 | a line commits one entry, together with what was pending, at its last byte and not before; a part of a line only adds to what is pending |
| DeviceSpec.LineInPieces | aesd-char-driver/main.c:95-137 | a line or a part of one split into any chunks leaves the state that one chunk would |
| DeviceSpec.SplitMatters | aesd-char-driver/main.c:95-137 | a packet leaves the same state however it is split exactly when it has no newline before its last byte |
| DeviceSpec.ReadIsNext | aesd-char-driver/main.c:60-76 | a read returns the next bytes of the concatenated entries, at most as many as asked, and none exactly at the end or when none are asked |
| DeviceSpec.ReadStaysInEntry | aesd-char-driver/main.c:66-70 | a read returns bytes of one entry only, up to its end |
| DeviceSpec.ReadOn | aesd-char-driver/main.c:50-78 | one turn of a read loop keeps what was read plus what is left equal to the whole, and ends only when all is read |
| DeviceSpec.SeekRoundTrip | aesd-char-driver/main.c:205-227 | the position of an accepted seek (w, o) is found in entry w at o; with o equal to the size it is the start of entry w+1 or the end of the data |
| DeviceSpec.SeekThenRead | aesd-char-driver/main.c:205-227 | with out_offs 0 an accepted seek leaves entry w from o and all later entries to be read, and the first read is from entry w |
| DeviceSpec.SlotOrderIffRotation | aesd-char-driver/aesd_ioctl.h:25-34 | counting by slot serves every request as counting commands from zero does, exactly when rotating the sizes by out_offs changes nothing |
| DeviceSpec.SlotSeekGoesWrong | aesd-char-driver/main.c:205-216 | a concrete history after which a seek to command 1 lands in the wrong place |
| DeviceSpec.AllAcceptedStored | aesd-char-driver/main.c:123-141 | the bytes accepted are as many as those stored exactly while at most ten entries were committed and nothing is pending |
| DeviceSpec.SeekEndGoesTooFar | aesd-char-driver/main.c:158-160 | after eleven commands of one byte the data ends at 10 while 11 bytes were accepted |
| DeviceSpec.SlotsInArray | aesd-char-driver/main.c:191-216 | of the command numbers the range check admits, all but 10 look only at slots in the array, at any fill level |
| Driver.Device.constructor | aesd-char-driver/main.c:277-282 | start-up leaves an empty device with nothing allocated and the lock free |
| Driver.Device.MakeRoom | aesd-char-driver/main.c:95-113 | room behind the pending bytes, by krealloc or kmalloc; what a failure does to the pending buffer and who owns what afterwards |
| Driver.Device.Collect | aesd-char-driver/main.c:95-121 | the accepted prefix is appended to the pending bytes and the stored entries keep their memory |
| Driver.Device.Evict | aesd-char-driver/main.c:124-130 | frees the buffer of the oldest entry, once, and zeroes its size |
| Driver.Device.Commit | aesd-char-driver/main.c:123-138 | the pending bytes become the newest entry; the buffer freed is the one whose pointer the ring drops |
| Driver.Device.CommitIfComplete | aesd-char-driver/main.c:123-138 | commits exactly when the newly accepted chunk contains a newline |
| Driver.Device.Accept | aesd-char-driver/main.c:95-138 | one locked write: history, ownership and every buffer freed on the way |
| Driver.Device.WriteLocked | aesd-char-driver/main.c:79-140 | every return of a write up to the unlock and exactly when it comes: EFAULT, ERESTARTSYS, ENOMEM or the count; what is unchanged, and that the lock stays held exactly after a failed allocation |
| Driver.Device.AddToTotal | aesd-char-driver/main.c:141-142 | the unlocked increment, by writers in any order |
| Driver.Device.Write | aesd-char-driver/main.c:79-143 | the same returns; a whole write appends the accepted prefix to the history or changes nothing |
| Driver.Device.Read | aesd-char-driver/main.c:50-78 | a read returns what `ReadAt` says and moves the position by that much; its failures move nothing |
| Driver.Device.ReadToEnd | aesd-char-driver/main.c:50-78 | reads of any positive sizes return exactly the content from the position on, then 0 |
| Driver.Device.Llseek | aesd-char-driver/main.c:145-171 | the three origins, SEEK_END relative to all accepted bytes less those in flight, and that a failure leaves the position alone |
| Driver.Device.SlotsInOrder | aesd-char-driver/main.c:205-216 | in every reachable state the used slots are a prefix, with positive sizes, and hold the entries rotated by out_offs |
| Driver.Device.SeekLocked | aesd-char-driver/main.c:205-227 | over the array: a seek is accepted exactly when all slots up to the named one are in use and the offset is at most its size, and then goes to the sizes before it plus the offset; else the position is unchanged; for command 10, what the memory behind the array makes of it |
| Driver.Device.AddSizes | aesd-char-driver/main.c:205-213 | the loop over the slots, whose break leaves only the loop: the sum of the used sizes before the named slot, and an error exactly when one of these is unused |
| Driver.Device.Ioctl | aesd-char-driver/main.c:173-239 | every return of the seek command, for every command number, over the array as well as the history, and that the lock is as before |
| Driver.Device.FreeEntries | aesd-char-driver/main.c:303-308 | the exit loop frees each stored buffer once |
| Driver.Device.Cleanup | aesd-char-driver/main.c:293-312 | after unload the buffer of every used slot was freed once, in slot order; the pending buffer and buffers lost before are all that is left |
| Driver.Device.StateIsCut | aesd-char-driver/main.c:92-140 | after any run of writes the stored entries are the last ten pieces of any cut of the accepted chunks, and the pending buffer is its tail |
| Driver.Device.OneFate | aesd-char-driver/main.c:95-138 | in every state, after a failed allocation too, each allocation is exactly one of stored, pending, freed once or lost |
| Driver.Device.NoneLost | aesd-char-driver/main.c:95-138 | none is lost exactly when no write but the last was starved and, once an allocation failed, not the last either and nothing was pending |
| Driver.Device.BytesAccounted | aesd-char-driver/main.c:140-141 | buffer_size plus the counts in flight equals stored plus evicted plus pending bytes |
| Driver.Device.SeekEndIsContentEnd | aesd-char-driver/main.c:158-160 | SEEK_END is the end of the stored data exactly when the counts in flight equal the bytes evicted and pending; with none in flight, exactly while nothing was evicted and nothing is pending |
| Witnesses.SeekEndTooEarly | aesd-char-driver/main.c:140-160 | a writer has unlocked but not added its count, and SEEK_END lands before the data |
| Witnesses.StarvedWriteLosesBuffer | aesd-char-driver/main.c:95-121 | two writes after which an allocation is lost |
| Witnesses.FailedGrowthLosesBuffer | aesd-char-driver/main.c:95-101 | a write whose krealloc fails loses the pending buffer |
| Links.ForEach | server/queue.h:650-653 | visits the elements in order, each once, and ends |
| Links.WithoutKeeps | server/queue.h:660-663 | an element that does not match comes right after those kept from before it |
| Links.WithoutKeepsAll | server/queue.h:660-663 | every element that does not match occurs as often as before, and no other occurs |
| Links.ReverseAt | server/queue.h:670-673 | the reverse order, by position |
| Tailq.Init | server/queue.h:690-694 | an empty queue |
| Tailq.InsertHead | server/queue.h:721-732 | the element comes first; all links and the tail pointer right, empty queue included |
| Tailq.InsertTail | server/queue.h:734-742 | the element comes last |
| Tailq.InsertAfter | server/queue.h:696-709 | the element comes right after the one named, last element included |
| Tailq.InsertBefore | server/queue.h:711-719 | the element comes right before the one named, without access to the head |
| Tailq.Remove | server/queue.h:752-768 | the element and nothing else is gone; its own fields are left alone |
| Tailq.Concat | server/queue.h:635-644 | the second queue follows the first and is left empty, either of them empty included |
| Tailq.Swap | server/queue.h:770-785 | the two queues exchange their elements, either of them empty included |
| Tailq.Last | server/queue.h:744-745 | reading the final link as a head gives the last element, or null |
| Tailq.Prev | server/queue.h:749-750 | reading the previous link as a head gives the predecessor, or null for the first element |
| Tailq.Next | server/queue.h:747-747 | the successor, or null for the last element |
| Tailq.ForEachReverse | server/queue.h:670-673 | visits the elements in exactly the reverse order and ends |
| Tailq.RemoveMatching | server/queue.h:660-663 | visits every element once in order while removing the matching ones; the others are left, in order |
| Tailq.RemoveMatchingReverse | server/queue.h:680-683 | the same backwards |
| Lists.InsertHead | server/queue.h:529-535 | the element comes first, back links right |
| Lists.InsertAfter | server/queue.h:512-519 | the element comes right after the one named |
| Lists.InsertBefore | server/queue.h:521-527 | the element comes right before the one named, without access to the head |
| Lists.Remove | server/queue.h:544-555 | the element and nothing else is gone, without access to the head |
| Lists.Concat | server/queue.h:467-482 | the walk finds the last element; the second list follows the first and is left empty |
| Lists.Swap | server/queue.h:557-565 | the two lists exchange their elements |
| Lists.Prev | server/queue.h:539-542 | the predecessor, or null for the first element |
| Lists.RemoveMatching | server/queue.h:498-501 | visits every element once while removing the matching ones; the others are left, in order |
| Stailq.InsertHead | server/queue.h:351-355 | the element comes first, tail pointer right when the list was empty |
| Stailq.InsertTail | server/queue.h:357-361 | the element comes last |
| Stailq.InsertAfter | server/queue.h:345-349 | the element comes right after the one named, tail pointer right when that was last |
| Stailq.RemoveHead | server/queue.h:390-394 | the first element is gone, tail pointer right when it was the only one |
| Stailq.RemoveAfter | server/queue.h:384-388 | the element after the one named is gone, tail pointer right when it was last |
| Stailq.Remove | server/queue.h:370-382 | the walk reaches the element before the one named, which is then gone |
| Stailq.Concat | server/queue.h:308-314 | the second list follows the first and is left empty |
| Stailq.Swap | server/queue.h:396-407 | the two lists exchange their elements, either of them empty included |
| Stailq.Last | server/queue.h:363-366 | the last element, or null |
| Slist.InsertHead | server/queue.h:241-244 | the element comes first |
| Slist.Remove | server/queue.h:248-260 | the walk reaches the element before the one named, which is then gone |
| Slist.Concat | server/queue.h:190-201 | the second list follows the first and is left empty |
| Packet.Scan | server/aesdsocket.c:222-232 | one past the first newline, or the whole buffer |
| Packet.Strncat | server/aesdsocket.c:238-238 | appends the text in the source up to the limit, inside both buffers |
| Packet.ReceiveOne | server/aesdsocket.c:210-239 | one turn of the loop: what it adds to the packet and how far the allocation grows, for every receive on which it stays inside its buffers |
| Packet.AssemblePacket | server/aesdsocket.c:205-240 | the loop ends with `PacketText` of the receives, which with its terminator fits the j + 1 bytes allocated, for all receives on which every turn stays inside its buffers |
| Packet.OverreadsExactly | server/aesdsocket.c:210-238 | strncat stays inside the receive buffer exactly when the receive is shorter than 100 bytes, has a NUL, or has a newline before its last byte |
| Packet.FullReceiveOverreads | server/aesdsocket.c:210-238 | a full receive without a newline, or with it last, makes strncat read past the buffer |
| Packet.TurnSafeExactly | server/aesdsocket.c:210-238 | a turn stays inside both buffers exactly when its receive is one that the loop is promised for |
| Packet.PacketIsThroughNewline | server/aesdsocket.c:221-240 | the packet is everything through the first newline exactly when that has no NUL and the receive with the newline adds no byte behind it |
| Packet.PacketIsOneLine | server/aesdsocket.c:221-240 | the packet has no newline before its last byte exactly when the receive with the first newline adds no byte behind it |
| Packet.NextPacketLeaksIn | server/aesdsocket.c:221-240 | a receive whose packet carries the first byte of the next one, beyond its allocation |
| Packet.AddedIs | server/aesdsocket.c:222-238 | a receive adds its longest beginning without a NUL and with at most one byte behind a newline |
| Packet.NulStops | server/aesdsocket.c:221-240 | a line with a NUL of which only what precedes the NUL is taken |
| Packet.FirstReceiveFits | server/aesdsocket.c:234-238 | the first receive fits its allocation exactly when it adds no byte behind its newline |
| Packet.LineArrives | server/aesdsocket.c:205-240 | a line sent in any pieces is assembled whole exactly when it has no NUL |
| Session.WriteAll | server/aesdsocket.c:260-262 | a packet written in any pieces, each accepted in any part, is appended whole and in order |
| Session.AppendServed | server/aesdsocket.c:257-273 | what such pieces amount to: a line ends the newest entry, a part of a line waits, and the last ten entries are sent |
| Session.SeekCommands | server/aesdsocket.c:22-22 | the bytes a packet is compared with spell AESDCHAR_IOCSEEKTO: |
| Session.Serve | server/aesdsocket.c:243-284 | a packet that begins with the string AESDCHAR_IOCSEEKTO: changes nothing and is sent the content from its target on; any other is appended and the content is sent, a line as the end of the newest entry |
| Session.Handle | server/aesdsocket.c:194-287 | the same for a whole handler, from the receives to the reply |
| ThreadList.LinkedPush | server/queue.h:241-244 | inserting at the head keeps the chain of links, in the server's memory |
| ThreadList.LinkedUnlink | server/queue.h:248-269 | unlinking a node, first or not, keeps the chain of links |
| ThreadList.WalkingKeeps | server/queue.h:253-258 | a turn of the removal walk stays in allocated memory with its node still ahead, or unlinks it |
| ThreadList.JoiningKeeps | server/aesdsocket.c:179-181 | a node is joined only for a thread that ended and was not joined before |
| ThreadList.TaskMoved | server/aesdsocket.c:277-286 | a handler's step, and the mark it sets in its node, which is still allocated; nodes stay marked exactly when their threads are through |
| ThreadList.StepKeeps | server/aesdsocket.c:157-187 | every step of main and of the handlers keeps the list invariant |
| ThreadList.EveryRun | server/aesdsocket.c:157-187 | the list invariant holds after every run |
| ThreadList.NeverFaults | server/aesdsocket.c:157-187 | no step of any run touches memory that is not allocated, every handler that has not ended still has its node, and the removal walk never runs off the list |
| ThreadList.MarkedWhenDone | server/aesdsocket.c:277-277 | in every run a thread not joined has marked its node exactly when it is through with its client |
| ThreadList.ListIsTheUnreaped | server/aesdsocket.c:166-186 | in every run the list holds exactly the threads not reaped, the newest first; only the node main is starting has no thread yet |
| ThreadList.ReapedOnce | server/aesdsocket.c:177-186 | in every run each thread is joined at most once, after it ended, and its node freed at most once, after the join |
| Replies.StepKeeps | server/aesdsocket.c:242-286 | every step of main and of the handlers keeps the invariant about the device, the mutex and the replies |
| Replies.EveryRun | server/aesdsocket.c:242-286 | that invariant holds after every run |
| Replies.MutualExclusion | server/aesdsocket.c:243-284 | in every run at most one handler is between its lock and its unlock |
| Replies.ReplyIsOwed | server/aesdsocket.c:243-284 | in every run, whatever was sent, whoever locked as number k and read to the end was sent the content from its starting position on, of a device that had accepted exactly the packets of the first k + 1 lock holders, in lock order and each in some pieces |
| Replies.SplitBlind | server/aesdsocket.c:243-284 | when these packets have no newline before their last byte, the reply depends on the requests and the lock order alone |
| Replies.ReplyIsTail | server/aesdsocket.c:257-273 | whatever was sent, what an append is sent and what then waits are the last of all bytes appended so far, in lock order |
| Replies.EndToEnd | server/aesdsocket.c:243-284 | when the first k + 1 lock holders append, holder k is sent the last ten entries of a history whose bytes are those of their packets in lock order; when none has an early newline, the last ten lines they make up; when all are lines, the last ten packets |
| Replies.OwnPacketLast | server/aesdsocket.c:257-273 | a finished append of a line is sent its own packet last, whatever the others sent; without a newline it is sent what was there before; of any packet, the reply with what then waits is an end, or the other way round |
| Replies.SeekAnswered | server/aesdsocket.c:247-273 | what any seek command but number 10 is sent, accepted or refused, wherever the oldest entry is |
| Replies.StraySeekAnswered | server/aesdsocket.c:247-273 | seek command 10 is sent nothing or everything |
| Replies.SeekReply | server/aesdsocket.c:247-273 | in every run, whatever was sent, a finished seek was sent that, from what the packets before it left in the device |
| Progress.HolderSteps | server/aesdsocket.c:243-284 | every step of the handler that holds the mutex, but a write of nothing, ends it and gives the mutex back, or leaves less to do |
| Progress.HolderFinishes | server/aesdsocket.c:243-284 | from every state of every run the handler that holds the mutex can serve its client to the end and give the mutex back, alone |
| Progress.EveryoneCanFinish | server/aesdsocket.c:243-286 | from every state of every run handlers alone can serve all connected clients to the end |
| Progress.ScanFinds | server/aesdsocket.c:177-179 | main's scan stops at the first marked node, after passing the ones before it |
| Progress.ScanPasses | server/aesdsocket.c:177-179 | without a marked node the scan goes through the list and changes nothing |
| Progress.Reaps | server/aesdsocket.c:179-186 | main alone then joins that thread once it has ended, takes exactly its node out of the list and frees it |
| Progress.Accepts | server/aesdsocket.c:157-176 | a connection gets an unmarked node at the head of the list and a handler that waits for the mutex |
| Progress.OneConnection | server/aesdsocket.c:157-187 | from accept to accept main can list the connection, start its handler, and reap the first marked node, if there is one, and no other |
| Witnesses.TwoReplies | server/aesdsocket.c:260-273 | two runs with the same requests in the same order whose replies differ, because one packet was written whole and once in two pieces |
| Witnesses.SplitIsAssembled | server/aesdsocket.c:205-240 | a handler assembles that packet from two receives, inside its buffers |

## Left out

- Device registration, open and release, module wiring, printk and syslog: foreign calls with no state of interest.
- Overflow of `size_t`, `loff_t` and `unsigned long`: sizes are unbounded integers; the ring's uint8_t indices are bounded.
- Reads that overlap a write: `aesd_read` takes no lock, and reads are modelled as single steps between writes.
- The interleaving of the unlocked `buffer_size` increment below one step: it is modelled as atomic.
- Driver.Device.Ioctl: what is behind the entry array is a parameter for command number 10, because reading it is an access outside the array.
- Packet.AssemblePacket: not for receives on which strncat leaves one of its buffers.
- Replies.EndToEnd: says which packets are sent only when none has a newline before its last byte, because otherwise the replies differ with the split (`DeviceSpec.SplitMatters`, `Witnesses.TwoReplies`).
- Session.Serve: on a device whose allocations succeed and whose lock waits are not interrupted; so are the device's steps in the machine.
- Liveness under a scheduler: what can go on from every state is proved (`Progress.dfy`), not that a scheduler lets it.
- Socket setup, signals, daemon mode, the actual network transfer, and failures of accept, malloc and thread creation.
- sscanf: the pair (w, o) of a seek command is taken as given.
- exitFunction in server/aesdsocket.c: nothing calls it, and it names a timer thread that is declared nowhere.
- The build of the server on a plain file: the model is of the build on the device, which server/Makefile sets.
- queue.h: debug tracing, kernel checks, class variants, poisoning, the FROM variants, and the SLIST operations the server does not use except CONCAT.
- The unused fields `aesd_buffer_entry.offset` and `aesd_circular_buffer.size`.
- finder-app, examples, scripts and build files: thin wrappers over libc or the shell.
