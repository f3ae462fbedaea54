/** The circular buffer of entries, for any capacity its uint8_t indices can address. */
module Ring {
  import opened Bytes
  import opened KernelHeap

  datatype Entry = Entry(buffptr: Ptr, size: nat)

  const ZERO_ENTRY := Entry(Null, 0)

  function EntrySizes(entries: seq<Entry>): seq<nat> {
    seq(|entries|, i requires 0 <= i < |entries| => entries[i].size)
  }

  function EntryPtrs(entries: seq<Entry>): seq<Ptr> {
    seq(|entries|, i requires 0 <= i < |entries| => entries[i].buffptr)
  }

  /** `i` reduced modulo `n`, for an index at most one turn ahead. */
  function Wrap(i: nat, n: nat): nat {
    if i < n then i else i - n
  }

  /** How far slot `i` lies behind the oldest slot, going round. */
  function Rank(i: nat, outOffs: nat, capacity: nat): nat
    requires outOffs < capacity
  {
    if i < outOffs then i + capacity - outOffs else i - outOffs
  }

  /** Going round from `outOffs`, the slots hold `live`; the others hold zeroes. */
  ghost predicate Stores(slots: seq<Entry>, outOffs: nat, live: seq<Entry>)
    requires outOffs < |slots|
  {
    forall i :: 0 <= i < |slots| ==>
      slots[i] == var rank := Rank(i, outOffs, |slots|); if rank < |live| then live[rank] else ZERO_ENTRY
  }

  /** Everything pushed out, followed by everything still stored, is everything added. */
  ghost predicate Accounts(returned: seq<Ptr>, live: seq<Entry>, added: seq<Ptr>) {
    returned + EntryPtrs(live) == added
  }

  lemma MulAtLeast(times: nat, capacity: nat)
    requires times > 0
    ensures times * capacity >= capacity
  {
  }

  lemma ModIs(n: int, capacity: nat, turns: int, rest: nat)
    requires rest < capacity && n == turns * capacity + rest
    ensures n % capacity == rest
  {
    var t, r := n / capacity, n % capacity;
    assert n == t * capacity + r;
    assert (turns - t) * capacity == turns * capacity - t * capacity == r - rest;
    assert (t - turns) * capacity == t * capacity - turns * capacity == rest - r;
    if turns > t {
      MulAtLeast(turns - t, capacity);
    } else if turns < t {
      MulAtLeast(t - turns, capacity);
    }
  }

  /** `n` modulo `capacity`, by repeated subtraction. */
  function Residue(n: nat, capacity: nat): nat
    requires 0 < capacity
  {
    if n < capacity then n else Residue(n - capacity, capacity)
  }

  lemma {:induction false} ResidueStep(n: nat, capacity: nat)
    requires 0 < capacity
    ensures Residue(n, capacity) < capacity
    ensures Residue(n + 1, capacity) == Wrap(Residue(n, capacity) + 1, capacity)
  {
    if n >= capacity {
      ResidueStep(n - capacity, capacity);
    }
  }

  lemma {:induction false} ResidueIsMod(n: nat, capacity: nat)
    requires 0 < capacity
    ensures Residue(n, capacity) == n % capacity
  {
    if n >= capacity {
      ResidueIsMod(n - capacity, capacity);
      var turns := (n - capacity) / capacity;
      assert (turns + 1) * capacity == turns * capacity + capacity;
      ModIs(n, capacity, turns + 1, (n - capacity) % capacity);
    } else {
      ModIs(n, capacity, 0, n);
    }
  }

  method NextSlot(slot: uint8, capacity: nat) returns (next: uint8)
    requires slot < capacity <= 255
    ensures next == Wrap(slot + 1, capacity)
  {
    ModIs(slot + 1, capacity, if slot + 1 == capacity then 1 else 0, Wrap(slot + 1, capacity));
    next := (slot + 1) % capacity;
  }

  /** What the fields of a ring mean: it stores `live`, the newest of everything added. */
  ghost predicate Consistent(slots: seq<Entry>, inOffs: nat, outOffs: nat, full: bool,
      live: seq<Entry>, added: seq<Ptr>, returned: seq<Ptr>)
  {
    var capacity := |slots|;
    && 1 <= capacity <= 255
    && inOffs < capacity && outOffs < capacity && |live| <= capacity
    && (full <==> |live| == capacity)
    && (!full ==> outOffs == 0)
    && inOffs == Wrap(outOffs + |live|, capacity)
    && Stores(slots, outOffs, live)
    && |live| == Min(|added|, capacity)
    && inOffs == Residue(|added|, capacity)
    && Accounts(returned, live, added)
  }

  lemma AccountsAppended(returned: seq<Ptr>, live: seq<Entry>, added: seq<Ptr>, e: Entry)
    requires Accounts(returned, live, added)
    ensures Accounts(returned, live + [e], added + [e.buffptr])
    ensures live != [] ==> Accounts(returned + [live[0].buffptr], live[1..] + [e], added + [e.buffptr])
  {
    assert EntryPtrs(live + [e]) == EntryPtrs(live) + [e.buffptr];
    if live != [] {
      assert EntryPtrs(live[1..] + [e]) == EntryPtrs(live)[1..] + [e.buffptr];
    }
  }

  lemma AppendConsistent(slots: seq<Entry>, inOffs: nat, live: seq<Entry>, added: seq<Ptr>, returned: seq<Ptr>, e: Entry)
    requires Consistent(slots, inOffs, 0, false, live, added, returned)
    ensures var next := Wrap(inOffs + 1, |slots|);
      Consistent(slots[inOffs := e], next, 0, next == 0, live + [e], added + [e.buffptr], returned)
  {
    ResidueStep(|added|, |slots|);
    AccountsAppended(returned, live, added, e);
  }

  lemma RotateConsistent(slots: seq<Entry>, offs: nat, live: seq<Entry>, added: seq<Ptr>, returned: seq<Ptr>, e: Entry)
    requires Consistent(slots, offs, offs, true, live, added, returned)
    ensures slots[offs] == live[0]
    ensures var next := Wrap(offs + 1, |slots|);
      Consistent(slots[offs := e], next, next, true, live[1..] + [e], added + [e.buffptr],
        returned + [live[0].buffptr])
  {
    ResidueStep(|added|, |slots|);
    AccountsAppended(returned, live, added, e);
  }

  /** The driver zeroes the size of the oldest entry in place before it is replaced. */
  lemma ZeroOldestConsistent(slots: seq<Entry>, offs: nat, live: seq<Entry>, added: seq<Ptr>, returned: seq<Ptr>)
    requires Consistent(slots, offs, offs, true, live, added, returned)
    ensures slots[offs] == live[0]
    ensures Consistent(slots[offs := slots[offs].(size := 0)], offs, offs, true,
      live[0 := live[0].(size := 0)], added, returned)
  {
    assert EntryPtrs(live[0 := live[0].(size := 0)]) == EntryPtrs(live);
  }

  class CircularBuffer {
    const entry: array<Entry>
    var inOffs: uint8
    var outOffs: uint8
    var full: bool

    ghost var live: seq<Entry>    // the stored entries, oldest first
    ghost var added: seq<Ptr>     // every pointer ever added, in order
    ghost var returned: seq<Ptr>  // what the adds made while full returned

    ghost predicate Valid()
      reads this, entry
    {
      Consistent(entry[..], inOffs, outOffs, full, live, added, returned)
    }

    constructor (capacity: nat)
      requires 1 <= capacity <= 255
      ensures Valid() && fresh(entry) && entry.Length == capacity
      ensures live == [] && added == [] && returned == [] && !full
    {
      entry := new Entry[capacity](_ => ZERO_ENTRY);
      inOffs, outOffs, full := 0, 0, false;
      live, added, returned := [], [], [];
    }

    /** Stores `e`; when the ring is full it replaces the oldest entry and returns its pointer. */
    method AddEntry(e: Entry) returns (value: Ptr)
      requires Valid()
      modifies this, entry
      ensures Valid()
      ensures live == (if old(full) then old(live)[1..] else old(live)) + [e]
      ensures value == if old(full) then old(live)[0].buffptr else Null
      ensures added == old(added) + [e.buffptr]
      ensures returned == old(returned) + (if old(full) then [value] else [])
    {
      hide Stores, Accounts, Residue;
      ghost var slots, kept := entry[..], if full then live[1..] else live;
      if full {
        RotateConsistent(slots, outOffs, live, added, returned, e);
      } else {
        AppendConsistent(slots, inOffs, live, added, returned, e);
      }
      value := Null;
      if full {
        value := entry[outOffs].buffptr;
        outOffs := outOffs + 1;
        if outOffs == entry.Length {
          outOffs := 0;
        }
        returned := returned + [value];
      }
      entry[inOffs] := e;
      assert entry[..] == slots[inOffs := e];
      inOffs := inOffs + 1;
      if inOffs == entry.Length {
        inOffs := 0;
      }
      if inOffs == outOffs {
        full := true;
      }
      live, added := kept + [e], added + [e.buffptr];
    }

    /** The entry that holds byte `charOffset` of the stored entries laid end to end, as its slot
        and the offset within it; `k` is its rank from the oldest. Not found exactly when the
        stored entries are too short, whether the ring is empty, partly filled or full. */
    method FindEntryOffset(charOffset: nat) returns (found: bool, slot: nat, entryOffset: nat, ghost k: nat)
      requires Valid()
      ensures found <==> charOffset < Sum(EntrySizes(live))
      ensures found ==>
        && k < |live| && slot == Wrap(outOffs + k, entry.Length) < entry.Length && entry[slot] == live[k]
        && entryOffset < live[k].size
        && Sum(EntrySizes(live)[..k]) + entryOffset == charOffset
    {
      hide Accounts, Residue;
      ghost var sizes, slots := EntrySizes(live), entry[..];
      var totalChars := 0;
      var currentOffset: uint8 := outOffs;
      found, slot, entryOffset, k := false, 0, 0, 0;
      var more := true;
      ghost var visited := 0;
      while more
        invariant 0 <= visited <= entry.Length
        invariant currentOffset == Wrap(outOffs + visited, entry.Length)
        invariant totalChars == Sum(sizes[..Min(visited, |live|)]) <= charOffset
        invariant more ==> visited < entry.Length && (live == [] || visited < |live|)
        invariant !more ==> visited >= |live|
        decreases more, entry.Length - visited
      {
        assert slots[currentOffset].size == if visited < |live| then sizes[visited] else 0;
        if visited < |live| {
          SumUpTo(sizes, visited);
        }
        if totalChars + entry[currentOffset].size > charOffset {
          found, slot, entryOffset, k := true, currentOffset, charOffset - totalChars, visited;
          SumMonotone(sizes, visited + 1, |sizes|);
          assert sizes[..|sizes|] == sizes;
          return;
        }
        totalChars := totalChars + entry[currentOffset].size;
        visited := visited + 1;
        currentOffset := NextSlot(currentOffset, entry.Length);
        more := currentOffset != inOffs;
      }
      assert sizes[..|sizes|] == sizes;
    }
  }

  /** The bounded-FIFO law after any number of adds: where the indices stand, and that the pointers
      returned, followed by the ones stored, are all the pointers added. */
  lemma BoundedFifo(cb: CircularBuffer)
    requires cb.Valid()
    ensures cb.inOffs == |cb.added| % cb.entry.Length
    ensures cb.outOffs == if |cb.added| < cb.entry.Length then 0 else |cb.added| % cb.entry.Length
    ensures cb.full <==> |cb.added| >= cb.entry.Length
    ensures |cb.live| == Min(|cb.added|, cb.entry.Length)
    ensures cb.returned + EntryPtrs(cb.live) == cb.added
  {
    ResidueIsMod(|cb.added|, cb.entry.Length);
  }

  /** Slot i % capacity remembers add number i, for each of the newest `capacity` adds. */
  lemma SlotOfAdd(cb: CircularBuffer, i: nat)
    requires cb.Valid()
    requires |cb.added| - cb.entry.Length <= i < |cb.added|
    ensures cb.entry[i % cb.entry.Length].buffptr == cb.added[i]
  {
    var capacity, n := cb.entry.Length, |cb.added|;
    var rank := i - |cb.returned|;
    assert cb.added[i] == EntryPtrs(cb.live)[rank] == cb.live[rank].buffptr;
    ResidueIsMod(n, capacity);
    SlotIndex(n, capacity, rank);
    var slot := i % capacity;
    assert cb.entry[..][slot] == cb.live[rank];
  }

  lemma SlotIndex(n: nat, capacity: nat, rank: nat)
    requires 0 < capacity && rank < Min(n, capacity)
    ensures var outOffs := if n < capacity then 0 else n % capacity;
      var i := n - Min(n, capacity) + rank;
      i % capacity == Wrap(outOffs + rank, capacity)
  {
    var i := n - Min(n, capacity) + rank;
    if n < capacity {
      ModIs(i, capacity, 0, i);
    } else {
      var turns, outOffs := n / capacity, n % capacity;
      assert n == turns * capacity + outOffs;
      assert (turns - 1) * capacity == turns * capacity - capacity;
      if outOffs + rank < capacity {
        ModIs(i, capacity, turns - 1, outOffs + rank);
      } else {
        ModIs(i, capacity, turns, outOffs + rank - capacity);
      }
    }
  }
}
