/** The character device: chunk collection, commit and eviction, reads, the two seeks, cleanup. */
module Driver {
  import opened Bytes
  import opened KernelHeap
  import opened Ring
  import opened DeviceSpec

  datatype Errno = EFAULT | ENOMEM | ERESTARTSYS | EINVAL
  datatype Result = Ok(n: nat) | Err(errno: Errno)
  datatype UserBuf = NullBuf | Buf(data: Bytes)
  datatype Whence = SeekSet | SeekCur | SeekEnd | Unknown

  function Ids(entries: seq<Entry>): set<nat> {
    set e | e in entries && e.buffptr.At? :: e.buffptr.id
  }

  /** The stored entries own distinct live allocations, which begin with the bytes of `groups`. */
  ghost predicate Holds(mem: map<nat, Bytes>, live: seq<Entry>, groups: seq<Bytes>) {
    && |live| == |groups|
    && (forall k :: 0 <= k < |live| ==> EntryHolds(mem, live[k], groups[k]))
    && (forall j, k :: 0 <= j < k < |live| ==> live[j].buffptr != live[k].buffptr)
  }

  ghost predicate EntryHolds(mem: map<nat, Bytes>, e: Entry, group: Bytes) {
    e.buffptr.At? && e.buffptr.id in mem && e.size == |group| && group <= mem[e.buffptr.id]
  }

  /** The pending buffer begins with the bytes that wait. */
  ghost predicate Waits(mem: map<nat, Bytes>, tmpBuf: Ptr, tmpSize: nat, rest: Bytes) {
    tmpSize == |rest| && (tmpSize > 0 ==> tmpBuf.At? && tmpBuf.id in mem && rest <= mem[tmpBuf.id])
  }

  /** The pending buffer begins with `rest` and has room for `count` bytes more. */
  ghost predicate HasRoom(mem: map<nat, Bytes>, tmpBuf: Ptr, rest: Bytes, count: nat) {
    && (tmpBuf.At? <==> |rest| + count > 0)
    && (tmpBuf.At? ==> tmpBuf.id in mem && rest <= mem[tmpBuf.id] && |rest| + count <= |mem[tmpBuf.id]|)
  }

  /** Every live allocation has exactly one owner: a stored entry, the pending buffer, or nobody. */
  ghost predicate Owned(mem: map<nat, Bytes>, live: seq<Entry>, tmpBuf: Ptr, orphans: set<nat>) {
    && mem.Keys == Ids(live) + IdsOf(tmpBuf) + orphans
    && Ids(live) !! IdsOf(tmpBuf) !! orphans
  }

  lemma IdsAppend(entries: seq<Entry>, e: Entry)
    ensures Ids(entries + [e]) == Ids(entries) + IdsOf(e.buffptr)
  {
    assert forall x :: x in entries + [e] <==> x in entries || x == e;
  }

  lemma IdsDropFirst(mem: map<nat, Bytes>, live: seq<Entry>, groups: seq<Bytes>)
    requires Holds(mem, live, groups) && live != []
    ensures Ids(live[1..]) == Ids(live) - IdsOf(live[0].buffptr)
    ensures live[0].buffptr.id in Ids(live)
  {
    assert live[0] in live;
    assert forall e :: e in live[1..] ==> exists k :: 1 <= k < |live| && e == live[k];
    assert forall e :: e in live ==> e == live[0] || e in live[1..];
  }

  /** Memory that the stored entries do not own may change without touching them. */
  lemma HoldsFramed(mem: map<nat, Bytes>, mem': map<nat, Bytes>, live: seq<Entry>, groups: seq<Bytes>)
    requires Holds(mem, live, groups)
    requires forall id :: id in Ids(live) && id in mem ==> id in mem' && mem'[id] == mem[id]
    ensures Holds(mem', live, groups)
  {
    forall k | 0 <= k < |live|
      ensures EntryHolds(mem', live[k], groups[k])
    {
      assert EntryHolds(mem, live[k], groups[k]);
      assert live[k] in live;
    }
  }

  /** Dropping the oldest entry when there is no room, then appending one that holds `group`. */
  lemma HoldsReplaced(mem: map<nat, Bytes>, live: seq<Entry>, groups: seq<Bytes>, e: Entry, group: Bytes)
    requires Holds(mem, live, LastN(groups, CAPACITY)) && EntryHolds(mem, e, group)
    requires e.buffptr.id !in Ids(live)
    ensures var kept := if |live| == CAPACITY then live[1..] else live;
      Holds(mem, kept + [e], LastN(groups + [group], CAPACITY))
  {
    var kept := if |live| == CAPACITY then live[1..] else live;
    var old', new' := LastN(groups, CAPACITY), LastN(groups + [group], CAPACITY);
    assert new' == (if |live| == CAPACITY then old'[1..] else old') + [group];
    forall k | 0 <= k < |kept|
      ensures kept[k].buffptr != e.buffptr && EntryHolds(mem, kept[k], new'[k])
    {
      var k' := if |live| == CAPACITY then k + 1 else k;
      assert EntryHolds(mem, live[k'], old'[k']);
      assert live[k'] in live;
    }
  }

  /** The pending buffer becomes an entry; when there was no room the oldest entry goes, and its
      memory with it. */
  lemma Replaced(mem: map<nat, Bytes>, mem': map<nat, Bytes>, live: seq<Entry>, groups: seq<Bytes>,
      tmpBuf: Ptr, orphans: set<nat>, e: Entry, group: Bytes)
    requires Holds(mem, live, LastN(groups, CAPACITY)) && EntryHolds(mem, e, group)
    requires Owned(mem, live, tmpBuf, orphans) && e.buffptr == tmpBuf
    requires mem' == if |live| == CAPACITY then mem - IdsOf(live[0].buffptr) else mem
    ensures var kept := if |live| == CAPACITY then live[1..] else live;
      && Holds(mem', kept + [e], LastN(groups + [group], CAPACITY))
      && Owned(mem', kept + [e], Null, orphans)
  {
    var kept := if |live| == CAPACITY then live[1..] else live;
    if |live| == CAPACITY {
      IdsDropFirst(mem, live, LastN(groups, CAPACITY));
    }
    IdsAppend(kept, e);
    HoldsReplaced(mem, live, groups, e, group);
    HoldsFramed(mem, mem', kept + [e], LastN(groups + [group], CAPACITY));
  }

  /** The allocations of `entries`, in order. */
  function IdsInOrder(entries: seq<Entry>): seq<nat> {
    seq(|entries|, i requires 0 <= i < |entries| => if entries[i].buffptr.At? then entries[i].buffptr.id else 0)
  }

  lemma InSlotOrderSize(live: seq<Entry>, outOffs: nat)
    requires outOffs <= |live|
    ensures |InSlotOrder(live, outOffs)| == |live|
  {
  }

  lemma IdsInSlotOrder(live: seq<Entry>, outOffs: nat)
    requires outOffs <= |live|
    ensures Ids(InSlotOrder(live, outOffs)) == Ids(live)
  {
    var turn := |live| - outOffs;
    assert live == live[..turn] + live[turn..];
    assert forall e :: e in InSlotOrder(live, outOffs) <==> e in live;
  }

  ghost predicate DistinctAllocations(mem: map<nat, Bytes>, entries: seq<Entry>) {
    forall k :: 0 <= k < |entries| ==>
      entries[k].buffptr.At? && entries[k].buffptr.id in mem && entries[k].buffptr.id !in Ids(entries[..k])
  }

  lemma NoIds()
    ensures Ids([]) == {}
  {
  }

  lemma SlotsDistinct(mem: map<nat, Bytes>, live: seq<Entry>, groups: seq<Bytes>, outOffs: nat)
    requires Holds(mem, live, groups) && outOffs <= |live|
    ensures DistinctAllocations(mem, InSlotOrder(live, outOffs))
  {
    var slots, turn := InSlotOrder(live, outOffs), |live| - outOffs;
    forall k | 0 <= k < |slots|
      ensures slots[k] == live[if k < outOffs then turn + k else k - outOffs]
      ensures EntryHolds(mem, slots[k], groups[if k < outOffs then turn + k else k - outOffs])
    {
    }
    forall j, k | 0 <= j < k < |slots|
      ensures slots[j].buffptr != slots[k].buffptr
    {
    }
  }

  // ---- When allocations lose their owner ----

  /** Write `i` asked for memory while nothing waited, and then copied nothing into it. */
  ghost predicate Starved(asked: seq<nat>, chunks: seq<Bytes>, i: nat)
    requires |asked| == |chunks| && i < |chunks|
  {
    asked[i] > 0 && chunks[i] == [] && Rest(chunks[..i]) == []
  }

  /** No write but perhaps the last one was starved. */
  ghost predicate LeakFree(asked: seq<nat>, chunks: seq<Bytes>)
    requires |asked| == |chunks|
  {
    forall i :: 0 <= i < |chunks| - 1 ==> !Starved(asked, chunks, i)
  }

  ghost predicate EndsStarved(asked: seq<nat>, chunks: seq<Bytes>)
    requires |asked| == |chunks|
  {
    chunks != [] && Starved(asked, chunks, |chunks| - 1)
  }

  function Count(b: bool): nat {
    if b then 1 else 0
  }

  lemma NoStarvedWrites(asked: seq<nat>, chunks: seq<Bytes>)
    requires |asked| == |chunks| && forall c :: c in chunks ==> c != []
    ensures LeakFree(asked, chunks) && !EndsStarved(asked, chunks)
  {
    hide Rest;
    forall i | 0 <= i < |chunks|
      ensures !Starved(asked, chunks, i)
    {
      assert chunks[i] in chunks;
    }
  }

  lemma LeakStep(asked: seq<nat>, chunks: seq<Bytes>, n: nat, c: Bytes)
    requires |asked| == |chunks|
    ensures LeakFree(asked + [n], chunks + [c]) <==> LeakFree(asked, chunks) && !EndsStarved(asked, chunks)
    ensures EndsStarved(asked + [n], chunks + [c]) <==> n > 0 && c == [] && Rest(chunks) == []
  {
    var asked', chunks' := asked + [n], chunks + [c];
    assert chunks'[..|chunks|] == chunks;
    forall i | 0 <= i < |chunks|
      ensures Starved(asked', chunks', i) <==> Starved(asked, chunks, i)
    {
      assert chunks'[..i] == chunks[..i];
    }
  }

  /** What the unlocked counter has not been told yet is in flight. */
  ghost predicate Accounted(bufferSize: nat, inFlight: seq<nat>, chunks: seq<Bytes>) {
    bufferSize + Sum(inFlight) == |Concat(chunks)|
  }

  /** Allocations without an owner exist only because of starved writes. */
  ghost predicate LeaksKnown(tmpBuf: Ptr, tmpSize: nat, orphans: set<nat>, asked: seq<nat>, chunks: seq<Bytes>) {
    && |asked| == |chunks|
    && (tmpSize == 0 && tmpBuf.At? <==> EndsStarved(asked, chunks))
    && (orphans == {} <==> LeakFree(asked, chunks))
  }

  /** After a failed allocation the pending buffer has lost its owner too, if there was one. */
  ghost predicate LeaksKnownStuck(orphans: set<nat>, asked: seq<nat>, chunks: seq<Bytes>) {
    && |asked| == |chunks|
    && (orphans == {} <==> LeakFree(asked, chunks) && !EndsStarved(asked, chunks) && Rest(chunks) == [])
  }

  lemma LeaksStep(tmpBuf: Ptr, tmpSize: nat, orphans: set<nat>, asked: seq<nat>, chunks: seq<Bytes>,
      tmpBuf': Ptr, tmpSize': nat, n: nat, c: Bytes)
    requires LeaksKnown(tmpBuf, tmpSize, orphans, asked, chunks) && tmpSize == |Rest(chunks)|
    requires |c| <= n && tmpSize' == |Rest(chunks + [c])|
    requires tmpBuf'.At? <==> NEWLINE !in c && tmpSize + n > 0
    ensures var orphans' := orphans + (if tmpSize == 0 then IdsOf(tmpBuf) else {});
      LeaksKnown(tmpBuf', tmpSize', orphans', asked + [n], chunks + [c])
  {
    LeakStep(asked, chunks, n, c);
    CutStep(chunks, c);
    if tmpSize == 0 && tmpBuf.At? {
      assert tmpBuf.id in IdsOf(tmpBuf);
    } else if tmpSize == 0 {
      assert IdsOf(tmpBuf) == {};
    }
  }

  lemma AccountedStep(bufferSize: nat, inFlight: seq<nat>, chunks: seq<Bytes>, c: Bytes)
    requires Accounted(bufferSize, inFlight, chunks)
    ensures Accounted(bufferSize, inFlight + [|c|], chunks + [c])
  {
    ConcatAppend(chunks, [c]);
    ConcatOne(c);
    assert (inFlight + [|c|])[..|inFlight|] == inFlight;
  }

  lemma AccountedAdded(bufferSize: nat, inFlight: seq<nat>, chunks: seq<Bytes>, i: nat)
    requires Accounted(bufferSize, inFlight, chunks) && i < |inFlight|
    ensures Accounted(bufferSize + inFlight[i], inFlight[..i] + inFlight[i + 1..], chunks)
  {
    SumTotal(inFlight, i + 1);
    SumUpTo(inFlight, i);
    SumAppend(inFlight[..i], inFlight[i + 1..]);
  }

  /** The buffer an accepted chunk pushes out of a full ring, if it completes an entry. */
  function FreedByCommit(taken: Bytes, full: bool, live: seq<Entry>): seq<nat> {
    if NEWLINE in taken && full && live != [] && live[0].buffptr.At? then [live[0].buffptr.id] else []
  }

  lemma {:induction false} SizesUpTo(slots: seq<Entry>, sizes: seq<nat>, w: nat)
    requires w <= |slots| && |sizes| <= |slots|
    requires forall i :: 0 <= i < |slots| ==> slots[i].size == if i < |sizes| then sizes[i] else 0
    ensures Sum(EntrySizes(slots[..w])) == Sum(sizes[..Min(w, |sizes|)])
  {
    if w > 0 {
      SizesUpTo(slots, sizes, w - 1);
      SumUpTo(EntrySizes(slots), w - 1);
      assert EntrySizes(slots[..w]) == EntrySizes(slots)[..w];
      assert EntrySizes(slots[..w - 1]) == EntrySizes(slots)[..w - 1];
      if w <= |sizes| {
        SumUpTo(sizes, w - 1);
      }
    }
  }

  /** The size of an entry in use, and 0 for one the seek takes as unused. */
  function Usable(entry: Entry): nat {
    if entry.buffptr == Null then 0 else entry.size
  }

  /** What a seek past its checks and the lock returns, and what becomes of the position `pos`. Slot
      `w` decides about the position, and so does what is behind the array when `w` is 10; but an
      unused slot before it makes the seek return an error even then. */
  ghost predicate Sought(chunks: seq<Bytes>, w: nat, o: nat, behind: nat, pos: nat, r: Result, pos': nat) {
    match SeekLeads(chunks, w, o, behind)
    case None => r == Err(EINVAL) && pos' == pos
    case Some(target) => pos' == target && r == if w <= |Live(chunks)| then Ok(0) else Err(EINVAL)
  }

  class File {
    var fPos: nat

    constructor ()
      ensures fPos == 0
    {
      fPos := 0;
    }
  }

  class Device {
    const cb: CircularBuffer
    const heap: Heap
    var mxLocked: bool
    var tmpBuf: Ptr
    var tmpSize: nat
    var bufferSize: nat

    ghost var chunks: seq<Bytes>  // what each write accepted, in lock order
    ghost var asked: seq<nat>     // what each of those writes asked for
    ghost var inFlight: seq<nat>  // counts of writers that have unlocked but not yet added them
    ghost var orphans: set<nat>   // live allocations nobody points to any more

    ghost predicate Stored(groups: seq<Bytes>)
      reads this, cb, cb.entry, heap
    {
      && cb.Valid() && heap.Valid() && cb.entry.Length == CAPACITY
      && |cb.added| == |groups|
      && Holds(heap.mem, cb.live, LastN(groups, CAPACITY))
      && Owned(heap.mem, cb.live, tmpBuf, orphans)
    }

    /** The state between writes. */
    ghost predicate Open()
      reads this, cb, cb.entry, heap
    {
      && Stored(Groups(chunks))
      && Accounted(bufferSize, inFlight, chunks)
      && Waits(heap.mem, tmpBuf, tmpSize, Rest(chunks))
      && LeaksKnown(tmpBuf, tmpSize, orphans, asked, chunks)
    }

    /** The state an allocation failure leaves behind. */
    ghost predicate Stuck()
      reads this, cb, cb.entry, heap
    {
      && Stored(Groups(chunks))
      && Accounted(bufferSize, inFlight, chunks)
      && tmpBuf == Null
      && LeaksKnownStuck(orphans, asked, chunks)
    }

    /** The lock is held between calls only after an allocation failed. */
    ghost predicate Valid()
      reads this, cb, cb.entry, heap
    {
      if mxLocked then Stuck() else Open()
    }

    constructor ()
      ensures Valid() && fresh(cb) && fresh(cb.entry) && fresh(heap)
      ensures chunks == [] && asked == [] && inFlight == [] && bufferSize == 0 && !mxLocked
      ensures tmpBuf == Null && heap.mem == map[] && heap.freed == []
    {
      cb := new CircularBuffer(CAPACITY);
      heap := new Heap();
      mxLocked, tmpBuf, tmpSize, bufferSize := false, Null, 0, 0;
      chunks, asked, inFlight, orphans := [], [], [], {};
    }

    /** memset and copy_from_user at the end of the bytes that wait. */
    method CopyIn(data: Bytes, copied: nat, ghost rest: Bytes) returns (retval: nat)
      requires heap.Valid() && copied <= |data| && |rest| == tmpSize
      requires HasRoom(heap.mem, tmpBuf, rest, |data|)
      modifies this`tmpSize, heap
      ensures heap.Valid() && heap.freed == old(heap.freed)
      ensures retval == copied && Waits(heap.mem, tmpBuf, tmpSize, rest + data[..copied])
      ensures heap.mem.Keys == old(heap.mem.Keys)
      ensures forall id :: id in heap.mem && id !in IdsOf(tmpBuf) ==> heap.mem[id] == old(heap.mem)[id]
    {
      var count := |data|;
      heap.Memset(tmpBuf, tmpSize, count);
      var bytesMissing := heap.CopyFromUser(tmpBuf, tmpSize, data, copied);
      retval := count - bytesMissing;
      tmpSize := tmpSize + retval;
      if tmpBuf.At? {
        assert heap.mem[tmpBuf.id][..tmpSize] == rest + data[..copied];
      }
    }

    /** The allocation of one write: room for `count` more bytes behind the ones that wait. */
    method MakeRoom(count: nat, allocFails: bool, ghost rest: Bytes, ghost groups: seq<Bytes>)
      returns (ok: bool, ghost moved: bool)
      requires heap.Valid() && Holds(heap.mem, cb.live, groups) && Owned(heap.mem, cb.live, tmpBuf, orphans)
      requires Waits(heap.mem, tmpBuf, tmpSize, rest)
      modifies this`tmpBuf, this`orphans, heap
      ensures heap.Valid() && Holds(heap.mem, cb.live, groups) && Owned(heap.mem, cb.live, tmpBuf, orphans)
      ensures ok <==> !allocFails || |rest| + count == 0
      ensures !ok ==> tmpBuf == Null && heap.freed == old(heap.freed) && heap.mem == old(heap.mem)
      ensures !ok ==> orphans == old(orphans) + IdsOf(old(tmpBuf))
      ensures ok ==> HasRoom(heap.mem, tmpBuf, rest, count)
      ensures ok ==> orphans == old(orphans) + (if rest == [] then IdsOf(old(tmpBuf)) else {})
      ensures moved ==> ok && rest != []
      ensures ok ==> heap.freed == old(heap.freed) + (if moved && old(tmpBuf).At? then [old(tmpBuf).id] else [])
    {
      ghost var start := heap.mem;
      ok, moved := true, false;
      if tmpSize > 0 {
        var grown := heap.Krealloc(tmpBuf, tmpSize + count, allocFails);
        if grown == Null {
          orphans := orphans + IdsOf(tmpBuf);
          tmpBuf := Null;
          return false, false;
        }
        moved := grown != tmpBuf;
        tmpBuf := grown;
      } else {
        orphans := orphans + IdsOf(tmpBuf);
        tmpBuf := heap.Kmalloc(count, allocFails);
        ok := tmpBuf != Null;
      }
      HoldsFramed(start, heap.mem, cb.live, groups);
    }

    /** The allocation and the copy of one write, up to the search for a newline. */
    method Collect(data: Bytes, allocFails: bool, copied: nat, ghost rest: Bytes, ghost groups: seq<Bytes>)
      returns (r: Result, ghost moved: bool)
      requires heap.Valid() && Holds(heap.mem, cb.live, groups) && Owned(heap.mem, cb.live, tmpBuf, orphans)
      requires Waits(heap.mem, tmpBuf, tmpSize, rest)
      requires copied <= |data|
      modifies this`tmpBuf, this`tmpSize, this`orphans, heap
      ensures heap.Valid() && Holds(heap.mem, cb.live, groups) && Owned(heap.mem, cb.live, tmpBuf, orphans)
      ensures r == if allocFails && |rest| + |data| > 0 then Err(ENOMEM) else Ok(copied)
      ensures r.Err? ==> tmpBuf == Null && heap.freed == old(heap.freed) && heap.mem == old(heap.mem)
      ensures r.Err? ==> orphans == old(orphans) + IdsOf(old(tmpBuf)) && tmpSize == old(tmpSize)
      ensures r.Ok? ==>
        && Waits(heap.mem, tmpBuf, tmpSize, rest + data[..copied])
        && orphans == old(orphans) + (if rest == [] then IdsOf(old(tmpBuf)) else {})
        && (tmpBuf.At? <==> |rest| + |data| > 0)
      ensures moved ==> r.Ok? && rest != []
      ensures r.Ok? ==> heap.freed == old(heap.freed) + (if moved && old(tmpBuf).At? then [old(tmpBuf).id] else [])
    {
      hide Holds;
      var ok: bool;
      ok, moved := MakeRoom(|data|, allocFails, rest, groups);
      if !ok {
        return Err(ENOMEM), false;
      }
      ghost var roomy := heap.mem;
      var retval := CopyIn(data, copied, rest);
      HoldsFramed(roomy, heap.mem, cb.live, groups);
      r := Ok(retval);
    }

    /** Frees the buffer of the entry that is about to be replaced, and zeroes its size. */
    method Evict(ghost groups: seq<Bytes>)
      requires Stored(groups) && cb.full
      modifies cb, cb.entry, heap
      ensures cb.Valid() && heap.Valid() && cb.full && cb.added == old(cb.added)
      ensures cb.live == old(cb.live)[0 := old(cb.live)[0].(size := 0)]
      ensures heap.freed == old(heap.freed) + [old(cb.live)[0].buffptr.id]
      ensures heap.mem == old(heap.mem) - {old(cb.live)[0].buffptr.id}
    {
      ZeroOldestConsistent(cb.entry[..], cb.outOffs, cb.live, cb.added, cb.returned);
      var inPos := cb.inOffs;
      assert cb.entry[..][inPos] == cb.live[0];
      assert EntryHolds(heap.mem, cb.live[0], LastN(groups, CAPACITY)[0]);
      if cb.entry[inPos].buffptr != Null {
        heap.Kfree(cb.entry[inPos].buffptr);
      }
      ghost var slots := cb.entry[..];
      cb.entry[inPos] := cb.entry[inPos].(size := 0);
      cb.live := cb.live[0 := cb.live[0].(size := 0)];
      assert cb.entry[..] == slots[inPos := slots[inPos].(size := 0)];
    }

    lemma FullRing()
      requires cb.Valid()
      ensures |cb.live| <= cb.entry.Length
      ensures cb.full <==> |cb.live| == cb.entry.Length
    {
    }

    /** Makes the pending buffer the newest entry; the buffer freed on the way is the one whose
        pointer the ring drops. */
    method Commit(ghost groups: seq<Bytes>, ghost rest: Bytes) returns (dropped: Ptr)
      requires Stored(groups) && Waits(heap.mem, tmpBuf, tmpSize, rest) && rest != []
      modifies this`tmpBuf, this`tmpSize, cb, cb.entry, heap
      ensures Stored(groups + [rest]) && tmpBuf == Null && tmpSize == 0
      ensures dropped == if old(cb.full) then old(cb.live)[0].buffptr else Null
      ensures old(cb.full) ==> dropped.At?
      ensures heap.freed == old(heap.freed) + (if dropped.At? then [dropped.id] else [])
    {
      ghost var live, mem := cb.live, heap.mem;
      FullRing();
      hide Consistent, Owned;
      if cb.full {
        assert EntryHolds(heap.mem, cb.live[0], LastN(groups, CAPACITY)[0]);
        Evict(groups);
      }
      var newEntry := Entry(tmpBuf, tmpSize);
      Replaced(mem, heap.mem, live, groups, tmpBuf, orphans, newEntry, rest);
      hide Holds;
      dropped := cb.AddEntry(newEntry);
      tmpBuf := Null;
      tmpSize := 0;
    }

    /** Commits the pending buffer if it now holds a newline. */
    method CommitIfComplete(ghost taken: Bytes)
      requires Stored(Groups(chunks)) && Waits(heap.mem, tmpBuf, tmpSize, Rest(chunks) + taken)
      modifies this`tmpBuf, this`tmpSize, cb, cb.entry, heap
      ensures Stored(Groups(chunks + [taken])) && Waits(heap.mem, tmpBuf, tmpSize, Rest(chunks + [taken]))
      ensures if NEWLINE in taken then tmpBuf == Null else tmpBuf == old(tmpBuf) && tmpSize == old(tmpSize)
      ensures heap.freed == old(heap.freed) + FreedByCommit(taken, old(cb.full), old(cb.live))
    {
      hide Stored, Groups, Rest;
      StoredFull(Groups(chunks));
      CutStep(chunks, taken);
      NewestNewline(chunks, taken);
      var found := heap.Memchr(tmpBuf, NEWLINE, tmpSize);
      assert found <==> NEWLINE in Rest(chunks) + taken;
      if found {
        var _ := Commit(Groups(chunks), Rest(chunks) + taken);
      }
    }

    lemma StoredFull(groups: seq<Bytes>)
      requires Stored(groups)
      ensures cb.full ==> cb.live != [] && cb.live[0].buffptr.At?
    {
      FullRing();
      hide Consistent;
      assert cb.full ==> EntryHolds(heap.mem, cb.live[0], LastN(groups, CAPACITY)[0]);
    }

    /** What a write does while it holds the lock. `copied` is how much of the user's buffer could
        be read, `moved` whether krealloc moved the pending buffer. */
    method Accept(data: Bytes, allocFails: bool, copied: nat) returns (r: Result, ghost moved: bool)
      requires Open() && copied <= |data|
      modifies this`tmpBuf, this`tmpSize, this`chunks, this`asked, this`inFlight, this`orphans, cb, cb.entry, heap
      ensures r == if allocFails && |Rest(old(chunks))| + |data| > 0 then Err(ENOMEM) else Ok(copied)
      ensures r.Err? ==>
        && Stuck()
        && chunks == old(chunks) && asked == old(asked) && inFlight == old(inFlight)
        && cb.live == old(cb.live) && heap.mem == old(heap.mem) && heap.freed == old(heap.freed)
        && orphans == old(orphans) + IdsOf(old(tmpBuf)) && tmpBuf == Null && tmpSize == old(tmpSize)
      ensures r.Ok? ==>
        && Open()
        && chunks == old(chunks) + [data[..copied]]
        && asked == old(asked) + [|data|]
        && inFlight == old(inFlight) + [copied]
        && orphans == old(orphans) + (if Rest(old(chunks)) == [] then IdsOf(old(tmpBuf)) else {})
        && heap.freed == old(heap.freed)
          + (if moved && old(tmpBuf).At? then [old(tmpBuf).id] else [])
          + FreedByCommit(data[..copied], old(cb.full), old(cb.live))
    {
      hide Consistent, Holds, Owned, Accounted, LeakFree, EndsStarved;
      ghost var taken := data[..copied];
      r, moved := Collect(data, allocFails, copied, Rest(chunks), Live(chunks));
      if r.Err? {
        return;
      }
      CommitIfComplete(taken);
      LeaksStep(old(tmpBuf), old(tmpSize), old(orphans), asked, chunks, tmpBuf, tmpSize, |data|, taken);
      AccountedStep(bufferSize, inFlight, chunks, taken);
      chunks, asked, inFlight := chunks + [taken], asked + [|data|], inFlight + [copied];
      assert LeaksKnown(tmpBuf, tmpSize, orphans, asked, chunks);
      assert Accounted(bufferSize, inFlight, chunks);
      assert Stored(Groups(chunks));
      assert Waits(heap.mem, tmpBuf, tmpSize, Rest(chunks));
    }

    /** A write up to the release of the lock. It is refused while the lock cannot be had; when an
        allocation fails it returns with the lock still held. */
    method WriteLocked(buf: UserBuf, interrupted: bool, allocFails: bool, copied: nat)
      returns (r: Result, ghost moved: bool)
      requires Valid()
      requires buf.Buf? ==> copied <= |buf.data|
      requires buf.Buf? && mxLocked ==> interrupted
      modifies this`mxLocked, this`tmpBuf, this`tmpSize, this`chunks, this`asked, this`inFlight, this`orphans,
        cb, cb.entry, heap
      ensures Valid()
      ensures r == Err(EFAULT) <==> buf == NullBuf
      ensures r == Err(ERESTARTSYS) <==> buf.Buf? && interrupted
      ensures r == Err(ENOMEM) <==> buf.Buf? && !interrupted && allocFails && |Rest(old(chunks))| + |buf.data| > 0
      ensures r.Ok? <==> buf.Buf? && !interrupted && !(allocFails && |Rest(old(chunks))| + |buf.data| > 0)
      ensures r.Ok? ==> r.n == copied
      ensures r.Err? ==>
        && chunks == old(chunks) && asked == old(asked) && inFlight == old(inFlight)
        && cb.live == old(cb.live) && heap.mem == old(heap.mem) && heap.freed == old(heap.freed)
        && mxLocked == (old(mxLocked) || r.errno == ENOMEM)
      ensures r.Err? ==>
        && tmpSize == old(tmpSize)
        && tmpBuf == (if r.errno == ENOMEM then Null else old(tmpBuf))
        && orphans == old(orphans) + (if r.errno == ENOMEM then IdsOf(old(tmpBuf)) else {})
      ensures r.Ok? ==>
        && !mxLocked
        && chunks == old(chunks) + [buf.data[..copied]]
        && asked == old(asked) + [|buf.data|]
        && inFlight == old(inFlight) + [copied]
        && orphans == old(orphans) + (if Rest(old(chunks)) == [] then IdsOf(old(tmpBuf)) else {})
        && heap.freed == old(heap.freed)
          + (if moved && old(tmpBuf).At? then [old(tmpBuf).id] else [])
          + FreedByCommit(buf.data[..copied], old(cb.full), old(cb.live))
    {
      moved := false;
      if buf == NullBuf {
        return Err(EFAULT), false;
      }
      if interrupted {
        return Err(ERESTARTSYS), false;
      }
      mxLocked := true;
      r, moved := Accept(buf.data, allocFails, copied);
      if r.Err? {
        return;
      }
      mxLocked := false;
    }

    /** The unlocked tail of a write: adds its count to the total. Writers may get here in any order. */
    method AddToTotal(retval: nat, ghost i: nat)
      requires Valid() && i < |inFlight| && inFlight[i] == retval
      modifies this`bufferSize, this`inFlight
      ensures Valid() && mxLocked == old(mxLocked)
      ensures bufferSize == old(bufferSize) + retval
      ensures inFlight == old(inFlight)[..i] + old(inFlight)[i + 1..]
    {
      hide Consistent, Holds, Owned, LeaksKnown;
      AccountedAdded(bufferSize, inFlight, chunks, i);
      bufferSize := bufferSize + retval;
      inFlight := inFlight[..i] + inFlight[i + 1..];
    }

    /** A whole write by a single writer. */
    method Write(buf: UserBuf, interrupted: bool, allocFails: bool, copied: nat) returns (r: Result)
      requires Valid()
      requires buf.Buf? ==> copied <= |buf.data|
      requires buf.Buf? && mxLocked ==> interrupted
      modifies this, cb, cb.entry, heap
      ensures Valid()
      ensures r == Err(EFAULT) <==> buf == NullBuf
      ensures r == Err(ERESTARTSYS) <==> buf.Buf? && interrupted
      ensures r == Err(ENOMEM) <==> buf.Buf? && !interrupted && allocFails && |Rest(old(chunks))| + |buf.data| > 0
      ensures r.Ok? <==> buf.Buf? && !interrupted && !(allocFails && |Rest(old(chunks))| + |buf.data| > 0)
      ensures r.Ok? ==> r.n == copied
      ensures chunks == if r.Ok? then old(chunks) + [buf.data[..copied]] else old(chunks)
      ensures asked == if r.Ok? then old(asked) + [|buf.data|] else old(asked)
      ensures mxLocked == (old(mxLocked) || r == Err(ENOMEM))
      ensures inFlight == old(inFlight)
      ensures bufferSize == old(bufferSize) + (if r.Ok? then r.n else 0)
    {
      hide Consistent, Holds, Owned, LeaksKnown;
      ghost var moved: bool;
      r, moved := WriteLocked(buf, interrupted, allocFails, copied);
      if r.Ok? {
        AddToTotal(r.n, |inFlight| - 1);
      }
    }

    lemma StoredEntry(k: nat)
      requires Stored(Groups(chunks)) && k < |cb.live|
      ensures k < |Live(chunks)| && EntryHolds(heap.mem, cb.live[k], Live(chunks)[k])
      ensures cb.live[k].size > 0
    {
      Conservation(chunks);
      assert Live(chunks)[k] in Groups(chunks);
    }

    lemma StoredSizes()
      requires Stored(Groups(chunks))
      ensures EntrySizes(cb.live) == Sizes(Live(chunks))
      ensures Sum(EntrySizes(cb.live)) == |Content(chunks)|
    {
      hide Consistent, Owned, Concat;
      ConcatLength(Live(chunks));
      forall k | 0 <= k < |cb.live|
        ensures cb.live[k].size == |Live(chunks)[k]|
      {
        StoredEntry(k);
      }
      assert EntrySizes(cb.live) == Sizes(Live(chunks));
    }

    /** Reads without taking the lock. */
    method Read(f: File, bufNull: bool, count: nat, copyFails: bool) returns (r: Result, got: Bytes)
      requires Valid()
      modifies f
      ensures var next := ReadAt(Live(chunks), old(f.fPos), count);
        if bufNull || (copyFails && next != []) then r == Err(EFAULT) && got == [] && f.fPos == old(f.fPos)
        else r == Ok(|next|) && got == next && f.fPos == old(f.fPos) + |next|
    {
      hide Consistent, Holds, Owned, LeaksKnown, Accounted, Waits, Groups, ReadAt, Concat, Sum;
      if bufNull {
        return Err(EFAULT), [];
      }
      var found, slot, startOff, k := cb.FindEntryOffset(f.fPos);
      StoredSizes();
      if !found {
        ReadIsNext(Live(chunks), f.fPos, count);
        return Ok(0), [];
      }
      StoredEntry(k);
      ReadStaysInEntry(Live(chunks), k, startOff, count);
      var readLength := cb.entry[slot].size - startOff;
      if readLength > count {
        readLength := count;
      }
      var bytes := heap.mem[cb.entry[slot].buffptr.id][startOff..startOff + readLength];
      assert bytes == Live(chunks)[k][startOff..startOff + readLength];
      if copyFails && readLength > 0 {
        return Err(EFAULT), [];
      }
      f.fPos := f.fPos + readLength;
      return Ok(readLength), bytes;
    }

    /** Repeated reads of any positive sizes, with no write in between, return the rest of the
        content whatever the sizes are, and then nothing. */
    method ReadToEnd(f: File, counts: nat -> nat) returns (got: Bytes)
      requires Valid() && forall i :: counts(i) > 0
      modifies f
      ensures got == From(Content(chunks), old(f.fPos))
      ensures f.fPos == old(f.fPos) + |got|
    {
      hide *;
      got := [];
      var i := 0;
      ghost var all := From(Concat(Live(chunks)), f.fPos);
      assert got + all == all;
      while true
        invariant f.fPos == old(f.fPos) + |got|
        invariant got + From(Concat(Live(chunks)), f.fPos) == all
        decreases |Concat(Live(chunks))| - f.fPos
      {
        ReadOn(got, Live(chunks), f.fPos, counts(i), all);
        var r, next := Read(f, false, counts(i), false);
        if r.n == 0 {
          ContentIs(chunks);
          return;
        }
        got := got + next;
        i := i + 1;
      }
    }

    /** SEEK_END is relative to the bytes ever accepted, less those not yet added to the total. */
    method Llseek(f: File, off: int, whence: Whence) returns (r: Result)
      requires Valid()
      modifies f
      ensures var newPos :=
          match whence
          case SeekSet => off
          case SeekCur => old(f.fPos) + off
          case SeekEnd => |Concat(chunks)| - Sum(inFlight) + off
          case Unknown => -1;
        if newPos < 0 then r == Err(EINVAL) && f.fPos == old(f.fPos)
        else r == Ok(newPos) && f.fPos == newPos
    {
      var newPos: int;
      match whence {
        case SeekSet => newPos := off;
        case SeekCur => newPos := f.fPos + off;
        case SeekEnd => newPos := bufferSize + off;
        case Unknown => return Err(EINVAL);
      }
      if newPos < 0 {
        return Err(EINVAL);
      }
      f.fPos := newPos;
      return Ok(newPos);
    }

    /** Slot by slot, the array holds the stored entries in slot order, and then zeroes. */
    lemma SlotsInOrder(i: nat)
      requires Stored(Groups(chunks)) && i < CAPACITY
      ensures cb.outOffs == OutOffs(chunks) <= |cb.live| && |SlotSizes(chunks)| == |cb.live|
      ensures i < |cb.live| ==>
        && cb.entry[i] == InSlotOrder(cb.live, cb.outOffs)[i]
        && cb.entry[i].buffptr.At? && cb.entry[i].size == SlotSizes(chunks)[i] > 0
      ensures i >= |cb.live| ==> cb.entry[i] == ZERO_ENTRY
    {
      hide Holds, Owned, Residue, Accounts, Groups;
      BoundedFifo(cb);
      StoredSizes();
      var rank := Rank(i, cb.outOffs, CAPACITY);
      assert cb.entry[..][i] == if rank < |cb.live| then cb.live[rank] else ZERO_ENTRY;
      if i < |cb.live| {
        StoredEntry(rank);
      }
    }

    /** The seek command: it succeeds exactly when the slot it names is in use and the offset is at
        most that slot's size, and a failure leaves the position alone. A command number of 10
        passes the range check but names no slot; then the memory behind the array is read as the
        entry `beyond`, and a refusal for want of entries may still move the position. */
    method Ioctl(f: File, isSeekTo: bool, argReadable: bool, interrupted: bool, writeCmd: uint32, writeCmdOffset: uint32,
        beyond: Entry)
      returns (r: Result)
      requires Valid()
      requires isSeekTo && argReadable && writeCmd <= CAPACITY && mxLocked ==> interrupted
      modifies f, this`mxLocked
      ensures Valid() && mxLocked == old(mxLocked)
      ensures
        if !isSeekTo || !argReadable || writeCmd > CAPACITY then r == Err(EINVAL) && f.fPos == old(f.fPos)
        else if interrupted then r == Err(ERESTARTSYS) && f.fPos == old(f.fPos)
        else Sought(chunks, writeCmd, writeCmdOffset, Usable(beyond), old(f.fPos), r, f.fPos)
      ensures cb.entry.Length == CAPACITY
      ensures writeCmd < CAPACITY && isSeekTo && argReadable && !interrupted ==>
        if (forall i :: 0 <= i <= writeCmd ==> cb.entry[i].buffptr != Null && cb.entry[i].size > 0)
          && writeCmdOffset <= cb.entry[writeCmd].size
        then r == Ok(0) && f.fPos == Sum(EntrySizes(cb.entry[..writeCmd])) + writeCmdOffset
        else r == Err(EINVAL) && f.fPos == old(f.fPos)
      ensures writeCmd == CAPACITY && isSeekTo && argReadable && !interrupted ==>
        if beyond.buffptr != Null && beyond.size > 0 && writeCmdOffset <= beyond.size
        then f.fPos == Sum(EntrySizes(cb.entry[..])) + writeCmdOffset && r ==
          if forall i :: 0 <= i < CAPACITY ==> cb.entry[i].buffptr != Null && cb.entry[i].size > 0 then Ok(0) else Err(EINVAL)
        else r == Err(EINVAL) && f.fPos == old(f.fPos)
    {
      assert cb.entry.Length == CAPACITY;
      hide Consistent, Holds, Owned, Accounted, Waits, LeaksKnown, LeaksKnownStuck, Groups, Sought, Sum;
      if !isSeekTo || !argReadable || writeCmd > CAPACITY {
        return Err(EINVAL);
      }
      if interrupted {
        return Err(ERESTARTSYS);
      }
      mxLocked := true;
      ghost var touched;
      r, touched := SeekLocked(f, writeCmd, writeCmdOffset, beyond);
      mxLocked := false;
    }

    /** The used slots are the first ones, and their sizes are those of the entries in slot order. */
    lemma SlotSizesInOrder()
      requires Stored(Groups(chunks))
      ensures |SlotSizes(chunks)| == |Live(chunks)| <= CAPACITY
      ensures forall i :: 0 <= i < CAPACITY ==> (i < |Live(chunks)| <==> cb.entry[i].buffptr != Null && cb.entry[i].size > 0)
      ensures forall i :: 0 <= i < CAPACITY ==> cb.entry[i].size == if i < |Live(chunks)| then SlotSizes(chunks)[i] else 0
    {
      hide Consistent, Holds, Owned, Groups, InSlotOrder, Sum;
      FullRing();
      StoredSizes();
      assert |cb.live| == |EntrySizes(cb.live)| == |Live(chunks)|;
      SlotsInOrder(0);
      forall i | 0 <= i < CAPACITY
        ensures cb.entry[i].size == if i < |cb.live| then SlotSizes(chunks)[i] else 0
        ensures i < |cb.live| <==> cb.entry[i].buffptr != Null && cb.entry[i].size > 0
      {
        SlotsInOrder(i);
      }
    }

    /** What a seek does, read off the array. */
    lemma SoughtInArray(w: nat, o: nat, beyond: Entry, pos: nat, r: Result, pos': nat)
      requires Stored(Groups(chunks)) && w <= CAPACITY && Sought(chunks, w, o, Usable(beyond), pos, r, pos')
      ensures w < CAPACITY ==>
        if (forall i :: 0 <= i <= w ==> cb.entry[i].buffptr != Null && cb.entry[i].size > 0) && o <= cb.entry[w].size
        then r == Ok(0) && pos' == Sum(EntrySizes(cb.entry[..w])) + o
        else r == Err(EINVAL) && pos' == pos
      ensures w == CAPACITY ==>
        if beyond.buffptr != Null && beyond.size > 0 && o <= beyond.size
        then pos' == Sum(EntrySizes(cb.entry[..])) + o && r ==
          if forall i :: 0 <= i < CAPACITY ==> cb.entry[i].buffptr != Null && cb.entry[i].size > 0 then Ok(0) else Err(EINVAL)
        else r == Err(EINVAL) && pos' == pos
    {
      SlotSizesInOrder();
      hide Stored, Groups, SlotSizes, Sum;
      SizesUpTo(cb.entry[..], SlotSizes(chunks), w);
      assert cb.entry[..][..w] == cb.entry[..w];
      assert SlotSizes(chunks)[..|Live(chunks)|] == SlotSizes(chunks);
      assert cb.entry[..CAPACITY] == cb.entry[..];
    }

    method SeekLocked(f: File, writeCmd: nat, writeCmdOffset: nat, beyond: Entry)
      returns (r: Result, ghost touched: seq<nat>)
      requires Stored(Groups(chunks)) && writeCmd <= CAPACITY
      modifies f
      ensures Sought(chunks, writeCmd, writeCmdOffset, Usable(beyond), old(f.fPos), r, f.fPos)
      ensures writeCmd < CAPACITY ==>
        if (forall i :: 0 <= i <= writeCmd ==> cb.entry[i].buffptr != Null && cb.entry[i].size > 0)
          && writeCmdOffset <= cb.entry[writeCmd].size
        then r == Ok(0) && f.fPos == Sum(EntrySizes(cb.entry[..writeCmd])) + writeCmdOffset
        else r == Err(EINVAL) && f.fPos == old(f.fPos)
      ensures writeCmd == CAPACITY ==>
        if beyond.buffptr != Null && beyond.size > 0 && writeCmdOffset <= beyond.size
        then f.fPos == Sum(EntrySizes(cb.entry[..])) + writeCmdOffset && r ==
          if forall i :: 0 <= i < CAPACITY ==> cb.entry[i].buffptr != Null && cb.entry[i].size > 0 then Ok(0) else Err(EINVAL)
        else r == Err(EINVAL) && f.fPos == old(f.fPos)
      ensures touched == SlotsTouched(|cb.live|, writeCmd)
    {
      hide Consistent, Holds, Owned, Groups, InSlotOrder, Sum;
      SlotSizesInOrder();
      ghost var sizes := SlotSizes(chunks);
      assert sizes[..|sizes|] == sizes;
      StoredSizes();
      assert |cb.live| == |EntrySizes(cb.live)| == |Sizes(Live(chunks))|;
      var locOff: nat;
      r, locOff, touched := AddSizes(writeCmd, sizes);
      touched := touched + [writeCmd];
      var entry := if writeCmd < CAPACITY then cb.entry[writeCmd] else beyond;
      if entry.buffptr != Null && entry.size > 0 {
        if writeCmdOffset > entry.size {
          r := Err(EINVAL);
        } else {
          f.fPos := locOff + writeCmdOffset;
        }
      } else {
        r := Err(EINVAL);
      }
      SoughtInArray(writeCmd, writeCmdOffset, beyond, old(f.fPos), r, f.fPos);
    }

    /** The loop over the slots before the one named, whose break leaves only the loop; the first
        |sizes| slots are in use. */
    method AddSizes(writeCmd: nat, ghost sizes: seq<nat>) returns (r: Result, locOff: nat, ghost touched: seq<nat>)
      requires writeCmd <= CAPACITY == cb.entry.Length && |sizes| <= CAPACITY
      requires forall i :: 0 <= i < CAPACITY ==> (i < |sizes| <==> cb.entry[i].buffptr != Null && cb.entry[i].size > 0)
      requires forall i :: 0 <= i < CAPACITY ==> cb.entry[i].size == if i < |sizes| then sizes[i] else 0
      ensures r == if writeCmd <= |sizes| then Ok(0) else Err(EINVAL)
      ensures locOff == Sum(sizes[..Min(writeCmd, |sizes|)])
      ensures touched == seq(Min(writeCmd, |sizes| + 1), i => i)
    {
      var index := 0;
      r, locOff, touched := Ok(0), 0, [];
      while index < writeCmd
        invariant index <= writeCmd && r == Ok(0)
        invariant index <= |sizes| && locOff == Sum(sizes[..index])
        invariant touched == seq(index, i => i)
      {
        var entry := cb.entry[index];
        touched := touched + [index];
        if entry.buffptr != Null && entry.size > 0 {
          SumUpTo(sizes, index);
          locOff := locOff + entry.size;
        } else {
          r := Err(EINVAL);
          break;
        }
        index := index + 1;
      }
    }

    /** The loop of the module's exit, over an array that holds `slots` and then zeroes. */
    method FreeEntries(ghost slots: seq<Entry>)
      requires heap.Valid() && cb.entry.Length == CAPACITY && |slots| <= CAPACITY
      requires forall i :: 0 <= i < |slots| ==> cb.entry[i] == slots[i] && slots[i].size > 0
      requires forall i :: |slots| <= i < CAPACITY ==> cb.entry[i] == ZERO_ENTRY
      requires DistinctAllocations(heap.mem, slots)
      modifies cb.entry, heap
      ensures heap.Valid()
      ensures heap.freed == old(heap.freed) + IdsInOrder(slots)
      ensures heap.mem == old(heap.mem) - Ids(slots)
      ensures forall i :: 0 <= i < CAPACITY ==> cb.entry[i].size == 0
    {
      hide Ids, IdsOf;
      NoIds();
      var index := 0;
      while index < CAPACITY
        invariant 0 <= index <= CAPACITY && heap.Valid()
        invariant forall i :: index <= i < |slots| ==> cb.entry[i] == slots[i]
        invariant forall i :: index <= i < CAPACITY && |slots| <= i ==> cb.entry[i] == ZERO_ENTRY
        invariant forall i :: 0 <= i < index ==> cb.entry[i].size == 0
        invariant heap.mem == old(heap.mem) - Ids(slots[..Min(index, |slots|)])
        invariant heap.freed == old(heap.freed) + IdsInOrder(slots[..Min(index, |slots|)])
      {
        if cb.entry[index].size > 0 && cb.entry[index].buffptr != Null {
          assert slots[..index + 1] == slots[..index] + [slots[index]];
          IdsAppend(slots[..index], slots[index]);
          heap.Kfree(cb.entry[index].buffptr);
          cb.entry[index] := cb.entry[index].(size := 0);
        }
        index := index + 1;
      }
      assert slots[..|slots|] == slots;
    }

    /** Module unload: every stored entry's buffer is freed once, in slot order. What nobody frees is
        the pending buffer and whatever had already lost its owner. */
    method Cleanup()
      requires Valid()
      modifies cb.entry, heap
      ensures heap.Valid()
      ensures heap.freed == old(heap.freed) + IdsInOrder(InSlotOrder(cb.live, OutOffs(chunks)))
      ensures |heap.freed| == |old(heap.freed)| + |cb.live| && |cb.live| <= CAPACITY == cb.entry.Length
      ensures forall i :: 0 <= i < |cb.live| ==> old(cb.entry[i].buffptr) == At(heap.freed[|old(heap.freed)| + i])
      ensures heap.mem.Keys == IdsOf(tmpBuf) + orphans
      ensures forall id :: id in heap.mem ==> heap.mem[id] == old(heap.mem)[id]
      ensures forall i :: 0 <= i < CAPACITY ==> cb.entry[i].size == 0
    {
      hide Consistent, Groups, Holds, Accounted, Waits, LeaksKnown, InSlotOrder, OutOffs, LastN;
      SlotsReady();
      ghost var slots := InSlotOrder(cb.live, OutOffs(chunks));
      FreeEntries(slots);
      assert forall i :: 0 <= i < |slots| ==> heap.freed[|old(heap.freed)| + i] == IdsInOrder(slots)[i];
    }

    lemma AllSlotsInOrder()
      requires Stored(Groups(chunks))
      ensures OutOffs(chunks) <= |cb.live|
      ensures var slots := InSlotOrder(cb.live, OutOffs(chunks));
        && (forall i :: 0 <= i < |slots| ==> cb.entry[i] == slots[i] && slots[i].size > 0)
        && (forall i :: |slots| <= i < CAPACITY ==> cb.entry[i] == ZERO_ENTRY)
    {
      hide Consistent, Holds, Owned, Groups, InSlotOrder, OutOffs, LastN;
      FullRing();
      SlotsInOrder(0);
      InSlotOrderSize(cb.live, cb.outOffs);
      forall i | 0 <= i < CAPACITY
        ensures i < |cb.live| ==> cb.entry[i] == InSlotOrder(cb.live, cb.outOffs)[i] && cb.entry[i].size > 0
        ensures i >= |cb.live| ==> cb.entry[i] == ZERO_ENTRY
      {
        SlotsInOrder(i);
      }
    }

    lemma SlotsReady()
      requires Stored(Groups(chunks))
      ensures OutOffs(chunks) <= |cb.live| <= CAPACITY
      ensures var slots := InSlotOrder(cb.live, OutOffs(chunks));
        && |slots| == |cb.live| && Ids(slots) == Ids(cb.live)
        && DistinctAllocations(heap.mem, slots)
        && (forall i :: 0 <= i < |slots| ==> cb.entry[i] == slots[i] && slots[i].size > 0)
        && (forall i :: |slots| <= i < CAPACITY ==> cb.entry[i] == ZERO_ENTRY)
    {
      hide Groups, Owned, OutOffs, LastN, Ids, DistinctAllocations, Holds;
      AllSlotsInOrder();
      IdsInSlotOrder(cb.live, OutOffs(chunks));
      SlotsDistinct(heap.mem, cb.live, Live(chunks), OutOffs(chunks));
    }

    // ---- What holds between any two calls ----

    /** However the accepted chunks are cut after their newlines, the stored entries are the last ten
        pieces and the pending buffer is the uncut rest. */
    lemma StateIsCut(runs: seq<seq<Bytes>>, tail: seq<Bytes>)
      requires Valid() && IsCut(chunks, runs, tail)
      ensures |cb.live| == Min(|runs|, CAPACITY)
      ensures forall k :: 0 <= k < |cb.live| ==>
        EntryHolds(heap.mem, cb.live[k], Concat(runs[|runs| - |cb.live| + k]))
      ensures !mxLocked ==> Waits(heap.mem, tmpBuf, tmpSize, Concat(tail))
    {
      hide Consistent, Owned, LeaksKnown, Accounted, Groups, Rest, Concat;
      CutUnique(chunks, runs, tail);
    }

    /** Every allocation ever made has exactly one fate, and none is freed twice. */
    lemma OneFate(id: nat)
      requires Valid() && id < heap.next
      ensures Count(id in Ids(cb.live)) + Count(tmpBuf == At(id)) + Count(id in heap.freed) + Count(id in orphans) == 1
      ensures forall i, j :: 0 <= i < j < |heap.freed| ==> heap.freed[i] != heap.freed[j]
    {
      hide Consistent, Holds, Ids, Groups, Rest, Accounted, LeaksKnown, LeaksKnownStuck;
    }

    /** No allocation is lost exactly when no write but perhaps the last was starved and, once an
        allocation has failed, neither was the last and nothing was pending. */
    lemma NoneLost()
      requires Valid()
      ensures orphans == {} <==>
        LeakFree(asked, chunks) && (mxLocked ==> !EndsStarved(asked, chunks) && Rest(chunks) == [])
      ensures (forall c :: c in chunks ==> c != []) ==>
        (orphans == {} <==> !mxLocked || Rest(chunks) == []) && (tmpBuf.At? ==> tmpSize > 0)
    {
      hide Stored, Groups, Rest, Accounted, LeakFree, EndsStarved;
      if forall c :: c in chunks ==> c != [] {
        NoStarvedWrites(asked, chunks);
      }
    }

    /** The size counter, with what is in flight, counts the stored, the evicted and the pending bytes. */
    lemma BytesAccounted()
      requires Valid()
      ensures bufferSize + Sum(inFlight) ==
        Sum(EntrySizes(cb.live)) + |Concat(Evicted(chunks))| + |Rest(chunks)|
    {
      hide Consistent, Owned, LeaksKnown, Groups, Rest, Concat, Evicted;
      StoredSizes();
      ByteCount(chunks);
    }

    /** SEEK_END, which goes by the size counter, is the end of the stored data exactly while the bytes
        evicted and pending are as many as the ones in flight. */
    lemma SeekEndIsContentEnd()
      requires Valid()
      ensures bufferSize == |Content(chunks)| <==> |Concat(Evicted(chunks))| + |Rest(chunks)| == Sum(inFlight)
      ensures Sum(inFlight) == 0 ==>
        (bufferSize == |Content(chunks)| <==> |Groups(chunks)| <= CAPACITY && Rest(chunks) == [])
    {
      hide Consistent, Holds, Owned, LeaksKnown, LeaksKnownStuck, Groups, Rest, Concat, Evicted;
      StoredSizes();
      BytesAccounted();
      ByteCount(chunks);
      AllAcceptedStored(chunks);
    }
  }
}
