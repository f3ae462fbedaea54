/** What the device promises, as functions of the chunks it has accepted. */
module DeviceSpec {
  import opened Bytes

  const CAPACITY := 10

  // ---- Cutting the accepted chunks into entries ----

  /** The committed groups: one per chunk that contains a newline. */
  function Groups(chunks: seq<Bytes>): seq<Bytes> {
    if chunks == [] then []
    else
      var n := |chunks| - 1;
      if NEWLINE in chunks[n] then Groups(chunks[..n]) + [Rest(chunks[..n]) + chunks[n]]
      else Groups(chunks[..n])
  }

  /** The bytes that wait for a newline. */
  function Rest(chunks: seq<Bytes>): Bytes {
    if chunks == [] then []
    else
      var n := |chunks| - 1;
      if NEWLINE in chunks[n] then [] else Rest(chunks[..n]) + chunks[n]
  }

  function Live(chunks: seq<Bytes>): seq<Bytes> {
    LastN(Groups(chunks), CAPACITY)
  }

  function Content(chunks: seq<Bytes>): Bytes {
    Concat(Live(chunks))
  }

  lemma ContentIs(chunks: seq<Bytes>)
    ensures Content(chunks) == Concat(Live(chunks))
  {
  }

  function Evicted(chunks: seq<Bytes>): seq<Bytes> {
    Groups(chunks)[..|Groups(chunks)| - |Live(chunks)|]
  }

  /** The slot the oldest entry is in. */
  function OutOffs(chunks: seq<Bytes>): nat {
    var m := |Groups(chunks)|;
    if m < CAPACITY then 0 else m % CAPACITY
  }

  lemma CutStep(chunks: seq<Bytes>, c: Bytes)
    ensures Groups(chunks + [c]) ==
      if NEWLINE in c then Groups(chunks) + [Rest(chunks) + c] else Groups(chunks)
    ensures Rest(chunks + [c]) == if NEWLINE in c then [] else Rest(chunks) + c
  {
    assert (chunks + [c])[..|chunks|] == chunks;
  }

  /** Nothing accepted is lost, invented or reordered, and no newline waits. */
  lemma {:induction false} Conservation(chunks: seq<Bytes>)
    ensures Concat(Groups(chunks)) + Rest(chunks) == Concat(chunks)
    ensures NEWLINE !in Rest(chunks)
    ensures forall g :: g in Groups(chunks) ==> NEWLINE in g
  {
    if chunks != [] {
      var n := |chunks| - 1;
      Conservation(chunks[..n]);
      if NEWLINE in chunks[n] {
        var g := Rest(chunks[..n]) + chunks[n];
        ConcatAppend(Groups(chunks[..n]), [g]);
        ConcatOne(g);
      }
    }
  }

  /** A newline can only come with the newest chunk. */
  lemma NewestNewline(chunks: seq<Bytes>, c: Bytes)
    ensures NEWLINE in Rest(chunks) + c <==> NEWLINE in c
  {
    Conservation(chunks);
    hide Rest;
  }

  /** The same, counted: what is stored, what was pushed out and what waits add up. */
  lemma ByteCount(chunks: seq<Bytes>)
    ensures |Content(chunks)| + |Concat(Evicted(chunks))| + |Rest(chunks)| == |Concat(chunks)|
  {
    hide Groups, Rest, Concat;
    Conservation(chunks);
    ConcatAppend(Evicted(chunks), Live(chunks));
    assert Evicted(chunks) + Live(chunks) == Groups(chunks);
  }

  /** A run of chunks that ends with its only chunk containing a newline. */
  ghost predicate IsRun(run: seq<Bytes>) {
    && run != []
    && NEWLINE in run[|run| - 1]
    && forall i :: 0 <= i < |run| - 1 ==> NEWLINE !in run[i]
  }

  function Flatten(runs: seq<seq<Bytes>>): seq<Bytes> {
    if runs == [] then [] else Flatten(runs[..|runs| - 1]) + runs[|runs| - 1]
  }

  /** `chunks` cut after each chunk that contains a newline. */
  ghost predicate IsCut(chunks: seq<Bytes>, runs: seq<seq<Bytes>>, tail: seq<Bytes>) {
    && chunks == Flatten(runs) + tail
    && (forall r :: r in runs ==> IsRun(r))
    && (forall i :: 0 <= i < |tail| ==> NEWLINE !in tail[i])
  }

  function Glue(runs: seq<seq<Bytes>>): seq<Bytes> {
    seq(|runs|, i requires 0 <= i < |runs| => Concat(runs[i]))
  }

  lemma {:induction false} CutExists(chunks: seq<Bytes>) returns (runs: seq<seq<Bytes>>, tail: seq<Bytes>)
    ensures IsCut(chunks, runs, tail)
  {
    if chunks == [] {
      runs, tail := [], [];
    } else {
      var n := |chunks| - 1;
      runs, tail := CutExists(chunks[..n]);
      assert chunks == chunks[..n] + [chunks[n]];
      var longer := tail + [chunks[n]];
      if NEWLINE in chunks[n] {
        assert (runs + [longer])[..|runs|] == runs;
        assert chunks == Flatten(runs + [longer]) + [];
        assert IsRun(longer);
        runs, tail := runs + [longer], [];
      } else {
        assert chunks == Flatten(runs) + longer;
        tail := longer;
      }
    }
  }

  /** The recursive cut is the only one: any cut of the chunks into runs has these groups. */
  lemma {:induction false} CutUnique(chunks: seq<Bytes>, runs: seq<seq<Bytes>>, tail: seq<Bytes>)
    requires IsCut(chunks, runs, tail)
    ensures Groups(chunks) == Glue(runs)
    ensures Rest(chunks) == Concat(tail)
    decreases |chunks|
  {
    var n, t := |chunks| - 1, |tail| - 1;
    if tail != [] {
      assert chunks[..n] == Flatten(runs) + tail[..t];
      CutUnique(chunks[..n], runs, tail[..t]);
    } else if runs != [] {
      var before, last := runs[..|runs| - 1], runs[|runs| - 1];
      assert last in runs && IsRun(last);
      var opening := last[..|last| - 1];
      assert chunks[..n] == Flatten(before) + opening;
      CutUnique(chunks[..n], before, opening);
      assert Glue(runs) == Glue(before) + [Concat(last)];
    }
  }

  /** Two histories that no read, seek or later write can tell apart. */
  ghost predicate SameState(chunks: seq<Bytes>, chunks': seq<Bytes>) {
    Groups(chunks) == Groups(chunks') && Rest(chunks) == Rest(chunks')
  }

  /** `done` bytes of `packet` have been accepted after `before`, as if they came in one chunk. */
  ghost predicate Partway(chunks: seq<Bytes>, before: seq<Bytes>, packet: Bytes, done: nat) {
    done <= |packet| && SameState(chunks, before + [packet[..done]])
  }

  /** A chunk without a newline and the next one are as good as both in one. */
  lemma Glued(chunks: seq<Bytes>, before: seq<Bytes>, a: Bytes, b: Bytes)
    requires NEWLINE !in a && SameState(chunks, before + [a])
    ensures SameState(chunks + [b], before + [a + b])
  {
    CutStep(chunks, b);
    CutStep(before, a);
    CutStep(before, a + b);
    hide Groups, Rest;
    assert Rest(before) + a + b == Rest(before) + (a + b);
  }

  /** Accepting the next bytes of a line, or of a part of one, however many, keeps to it. */
  lemma PartwayStep(chunks: seq<Bytes>, before: seq<Bytes>, packet: Bytes, done: nat, n: nat)
    requires AtMostOneLine(packet) && Partway(chunks, before, packet, done) && done < |packet| && done + n <= |packet|
    ensures Partway(chunks + [packet[done..done + n]], before, packet, done + n)
  {
    hide SameState;
    assert packet[..done] == packet[..|packet| - 1][..done];
    assert packet[..done] + packet[done..done + n] == packet[..done + n];
    Glued(chunks, before, packet[..done], packet[done..done + n]);
  }

  lemma NewlineLast(packet: Bytes, done: nat)
    requires AtMostOneLine(packet) && done <= |packet|
    ensures NEWLINE in packet[..done] <==> IsLine(packet) && done == |packet|
  {
    if done == |packet| {
      assert packet[..done] == packet;
      assert packet == [] || packet == packet[..|packet| - 1] + [packet[|packet| - 1]];
    } else {
      assert packet[..done] == packet[..|packet| - 1][..done];
    }
  }

  /** A line is committed, with what waited before it, at its last byte and not before. */
  lemma CommitsAtLastByte(before: seq<Bytes>, packet: Bytes, done: nat)
    requires AtMostOneLine(packet) && done <= |packet|
    ensures IsLine(packet) && done == |packet| ==>
      Groups(before + [packet[..done]]) == Groups(before) + [Rest(before) + packet] && Rest(before + [packet[..done]]) == []
    ensures !(IsLine(packet) && done == |packet|) ==>
      Groups(before + [packet[..done]]) == Groups(before) && Rest(before + [packet[..done]]) == Rest(before) + packet[..done]
  {
    hide Groups, Rest, IsLine, AtMostOneLine;
    CutStep(before, packet[..done]);
    NewlineLast(packet, done);
    assert packet[..|packet|] == packet;
  }

  /** However a line, or a part of one, is split into chunks, it is as if it came in one. */
  lemma {:induction false} LineInPieces(chunks: seq<Bytes>, pieces: seq<Bytes>, packet: Bytes, done: nat)
    requires AtMostOneLine(packet) && done <= |packet| && Concat(pieces) == packet[..done]
    ensures Partway(chunks + pieces, chunks, packet, done)
    decreases |pieces|
  {
    if pieces == [] {
      assert chunks + pieces == chunks;
      NothingYet(chunks);
    } else {
      var n := |pieces| - 1;
      var before, piece := |Concat(pieces[..n])|, pieces[n];
      assert Concat(pieces[..n]) == packet[..before] && piece == packet[before..done];
      LineInPieces(chunks, pieces[..n], packet, before);
      assert chunks + pieces == chunks + pieces[..n] + [piece];
      hide Groups, Rest, Concat;
      if before < |packet| {
        PartwayStep(chunks + pieces[..n], chunks, packet, before, done - before);
      } else {
        NothingYet(chunks + pieces[..n]);
      }
    }
  }

  /** These are the only packets for which the split does not matter: with an earlier newline, a
      split right behind it makes one entry more, or one entry shorter. */
  lemma SplitMatters(chunks: seq<Bytes>, packet: Bytes)
    ensures (forall pieces :: Concat(pieces) == packet ==> SameState(chunks + pieces, chunks + [packet]))
      <==> AtMostOneLine(packet)
  {
    hide Groups, Rest, Concat;
    if AtMostOneLine(packet) {
      forall pieces | Concat(pieces) == packet
        ensures SameState(chunks + pieces, chunks + [packet])
      {
        assert packet[..|packet|] == packet;
        LineInPieces(chunks, pieces, packet, |packet|);
      }
    } else {
      var pieces := SplitEarly(packet);
      SplitTells(chunks, pieces[0], pieces[1]);
      assert chunks + pieces == chunks + [pieces[0]] + [pieces[1]];
    }
  }

  /** A packet split right behind a newline before its last byte. */
  lemma SplitEarly(packet: Bytes) returns (pieces: seq<Bytes>)
    requires !AtMostOneLine(packet)
    ensures |pieces| == 2 && NEWLINE in pieces[0] && pieces[1] != []
    ensures Concat(pieces) == pieces[0] + pieces[1] == packet
  {
    var i :| 0 <= i < |packet| - 1 && packet[i] == NEWLINE;
    var a, b := packet[..i + 1], packet[i + 1..];
    assert a[i] == NEWLINE;
    pieces := [a, b];
    ConcatOne(a);
    ConcatOne(b);
    ConcatAppend([a], [b]);
    assert pieces == [a] + [b];
  }

  /** The first entry the split makes ends where the packet goes on. */
  lemma SplitTells(chunks: seq<Bytes>, a: Bytes, b: Bytes)
    requires NEWLINE in a && b != []
    ensures !SameState(chunks + [a] + [b], chunks + [a + b])
  {
    CutStep(chunks, a);
    CutStep(chunks + [a], b);
    CutStep(chunks, a + b);
    hide Groups, Rest;
    var k := |Groups(chunks)|;
    assert Groups(chunks + [a] + [b])[k] == Rest(chunks) + a;
    assert Groups(chunks + [a + b])[k] == Rest(chunks) + (a + b);
    assert |Rest(chunks) + a| < |Rest(chunks) + (a + b)|;
  }

  /** What is the same stays the same. */
  lemma SameStateStep(chunks: seq<Bytes>, chunks': seq<Bytes>, c: Bytes)
    requires SameState(chunks, chunks')
    ensures SameState(chunks + [c], chunks' + [c])
  {
    CutStep(chunks, c);
    CutStep(chunks', c);
  }

  lemma NothingYet(chunks: seq<Bytes>)
    ensures SameState(chunks, chunks + [[]])
  {
    CutStep(chunks, []);
  }

  // ---- Reading ----

  /** One read: the bytes from `pos` on, up to `count` of them and no further than the entry's end. */
  function ReadAt(entries: seq<Bytes>, pos: nat, count: nat): Bytes {
    if entries == [] then []
    else if pos < |entries[0]| then entries[0][pos..Min(pos + count, |entries[0]|)]
    else ReadAt(entries[1..], pos - |entries[0]|, count)
  }

  /** A read returns the next bytes of the content and makes progress unless there is no more. */
  lemma {:induction false} ReadIsNext(entries: seq<Bytes>, pos: nat, count: nat)
    ensures var got := ReadAt(entries, pos, count);
      && got <= From(Concat(entries), pos)
      && |got| <= count
      && (got == [] <==> count == 0 || pos >= |Concat(entries)|)
  {
    if entries != [] {
      ConcatFront(entries);
      var first, others := entries[0], Concat(entries[1..]);
      if pos < |first| {
        assert From(Concat(entries), pos) == first[pos..] + others;
        assert ReadAt(entries, pos, count) <= first[pos..];
      } else {
        ReadIsNext(entries[1..], pos - |first|, count);
        assert From(Concat(entries), pos) == From(others, pos - |first|);
      }
    }
  }

  /** One turn of a read loop that has collected `got` so far and will have collected `all`. */
  lemma ReadOn(got: Bytes, entries: seq<Bytes>, pos: nat, count: nat, all: Bytes)
    requires got + From(Concat(entries), pos) == all && count > 0
    ensures var next := ReadAt(entries, pos, count);
      if next == [] then got == all
      else got + next + From(Concat(entries), pos + |next|) == all && pos + |next| <= |Concat(entries)|
  {
    ReadIsNext(entries, pos, count);
    hide ReadAt, Concat;
    var next, left := ReadAt(entries, pos, count), From(Concat(entries), pos);
    if next == [] {
      assert left == [];
      assert got + left == got;
    } else {
      assert From(Concat(entries), pos + |next|) == left[|next|..];
      assert got + left == got + next + left[|next|..];
    }
  }

  /** A read that starts `o` bytes into entry `k` returns bytes of entry `k` only. */
  lemma {:induction false} ReadStaysInEntry(entries: seq<Bytes>, k: nat, o: nat, count: nat)
    requires k < |entries| && o < |entries[k]|
    ensures ReadAt(entries, Sum(Sizes(entries)[..k]) + o, count) == entries[k][o..Min(o + count, |entries[k]|)]
  {
    if k > 0 {
      var sizes := Sizes(entries);
      assert Sizes(entries[1..]) == sizes[1..];
      SumFront(sizes[..k]);
      assert sizes[..k][1..] == sizes[1..][..k - 1];
      ReadStaysInEntry(entries[1..], k - 1, o, count);
    }
  }

  // ---- Seeking ----

  /** The stored entries in slot order, when the oldest is in slot `outOffs`. */
  function InSlotOrder<T>(live: seq<T>, outOffs: nat): seq<T>
    requires outOffs <= |live|
  {
    live[|live| - outOffs..] + live[..|live| - outOffs]
  }

  /** Where the seek command (w, o) puts the file position, if it is accepted, when `sizes`
      are the sizes of the commands counted from zero. */
  function SeekPos(sizes: seq<nat>, w: nat, o: nat): Option<nat> {
    if w < |sizes| && o <= sizes[w] then Some(Sum(sizes[..w]) + o) else None
  }

  function SlotSizes(chunks: seq<Bytes>): seq<nat> {
    InSlotOrder(Sizes(Live(chunks)), OutOffs(chunks))
  }

  /** What the driver does: it counts commands by slot. */
  function DriverSeek(chunks: seq<Bytes>, w: nat, o: nat): Option<nat> {
    SeekPos(SlotSizes(chunks), w, o)
  }

  /** Where a seek leads, if anywhere, command number 10 included: that one reads the memory behind
      the array as if it were an entry, of size `behind`, or 0 when it looks unused. */
  function SeekLeads(chunks: seq<Bytes>, w: nat, o: nat, behind: nat): Option<nat> {
    if w != CAPACITY then DriverSeek(chunks, w, o)
    else if 0 < behind && o <= behind then Some(Sum(SlotSizes(chunks)) + o)
    else None
  }

  /** The slots a seek to command `w` looks at when the first `used` slots are in use: its loop stops
      early at the first unused slot before `w`, but slot `w` is looked at in any case. */
  function SlotsTouched(used: nat, w: nat): seq<nat> {
    seq(Min(w, used + 1), i => i) + [w]
  }

  /** Of the command numbers the range check admits, all but 10 keep to the array, however full. */
  lemma SlotsInArray(used: nat, w: nat)
    requires w <= CAPACITY
    ensures (forall i :: 0 <= i < |SlotsTouched(used, w)| ==> 0 <= SlotsTouched(used, w)[i] < CAPACITY)
      <==> w != CAPACITY
  {
    var touched := SlotsTouched(used, w);
    assert touched[|touched| - 1] == w;
  }

  /** Where a freshly opened file stands after the seek command: a refused one leaves it at 0. */
  function SeekTarget(chunks: seq<Bytes>, w: nat, o: nat, behind: nat): nat {
    match SeekLeads(chunks, w, o, behind)
    case Some(pos) => pos
    case None => 0
  }

  /** A seek into a command and back: the position found there is in that command, at that offset;
      one past its last byte is the start of the next command, or the end of the data. */
  lemma SeekRoundTrip(sizes: seq<nat>, w: nat, o: nat, k: nat, b: nat)
    requires SeekPos(sizes, w, o).Some?
    ensures o < sizes[w] && k < |sizes| && b < sizes[k] && Sum(sizes[..k]) + b == SeekPos(sizes, w, o).value
      ==> k == w && b == o
    ensures o == sizes[w] && w + 1 < |sizes| ==> SeekPos(sizes, w, o) == SeekPos(sizes, w + 1, 0)
    ensures o == sizes[w] && w + 1 == |sizes| ==> SeekPos(sizes, w, o).value == Sum(sizes)
    ensures SeekPos(sizes, w, o).value <= Sum(sizes)
  {
    hide Sum;
    SumUpTo(sizes, w);
    SumMonotone(sizes, w + 1, |sizes|);
    assert sizes[..|sizes|] == sizes;
    if o < sizes[w] && k < |sizes| && b < sizes[k] && Sum(sizes[..k]) + b == Sum(sizes[..w]) + o {
      PlaceUnique(sizes, w, o, k, b);
    }
  }

  /** Counting by slot agrees with counting from the oldest command on every request exactly when
      rotating the sizes by `outOffs` changes nothing; in particular when `outOffs` is 0. */
  lemma SlotOrderIffRotation(sizes: seq<nat>, outOffs: nat)
    requires outOffs <= |sizes|
    ensures (forall w: nat, o: nat :: SeekPos(InSlotOrder(sizes, outOffs), w, o) == SeekPos(sizes, w, o))
      <==> sizes == InSlotOrder(sizes, outOffs)
    ensures outOffs == 0 ==> sizes == InSlotOrder(sizes, outOffs)
  {
    var slots := InSlotOrder(sizes, outOffs);
    if forall w: nat, o: nat :: SeekPos(slots, w, o) == SeekPos(sizes, w, o) {
      forall w | 0 <= w < |sizes|
        ensures slots[w] == sizes[w]
      {
        assert SeekPos(slots, w, slots[w]) == SeekPos(sizes, w, slots[w]);
        assert SeekPos(slots, w, sizes[w]) == SeekPos(sizes, w, sizes[w]);
      }
    }
  }

  /** With the oldest entry in slot 0, an accepted seek (w, o) leaves in front of the reader command
      w from offset o and everything after it, and the first read returns bytes of command w. */
  lemma SeekThenRead(chunks: seq<Bytes>, w: nat, o: nat, count: nat)
    requires OutOffs(chunks) == 0 && w < |Live(chunks)| && o <= |Live(chunks)[w]|
    ensures var target := DriverSeek(chunks, w, o);
      && target.Some?
      && From(Content(chunks), target.value) == Live(chunks)[w][o..] + Concat(Live(chunks)[w + 1..])
      && (o < |Live(chunks)[w]| ==>
        ReadAt(Live(chunks), target.value, count) == Live(chunks)[w][o..Min(o + count, |Live(chunks)[w]|)])
  {
    hide Groups, Concat, Sum, ReadAt;
    var live := Live(chunks);
    assert SlotSizes(chunks) == Sizes(live);
    EntryThenRest(live, w, o);
    if o < |live[w]| {
      ReadStaysInEntry(live, w, o, count);
    }
  }

  lemma EntryThenRest(entries: seq<Bytes>, w: nat, o: nat)
    requires w < |entries| && o <= |entries[w]|
    ensures From(Concat(entries), Sum(Sizes(entries)[..w]) + o) == entries[w][o..] + Concat(entries[w + 1..])
  {
    hide Concat, Sum;
    ConcatLength(entries[..w]);
    assert Sizes(entries[..w]) == Sizes(entries)[..w];
    ConcatAppend(entries[..w], entries[w..]);
    assert entries == entries[..w] + entries[w..];
    ConcatFront(entries[w..]);
    assert entries[w..][1..] == entries[w + 1..];
    assert Concat(entries) == Concat(entries[..w]) + (entries[w] + Concat(entries[w + 1..]));
  }

  lemma {:induction false} CompleteChunks(chunks: seq<Bytes>)
    requires forall c :: c in chunks ==> NEWLINE in c
    ensures Groups(chunks) == chunks && Rest(chunks) == []
  {
    if chunks != [] {
      var n := |chunks| - 1;
      assert chunks == chunks[..n] + [chunks[n]];
      CompleteChunks(chunks[..n]);
      assert [] + chunks[n] == chunks[n];
    }
  }

  /** Once the ring has turned, the same command can be sought in the wrong place: after ten commands
      of one byte and an eleventh of two, command 1 starts at byte 1, but the seek goes to byte 2. */
  lemma SlotSeekGoesWrong()
    ensures var chunks := seq(10, _ => [NEWLINE]) + [[NUL, NEWLINE]];
      && SeekPos(Sizes(Live(chunks)), 1, 0) == Some(1)
      && DriverSeek(chunks, 1, 0) == Some(2)
  {
    var chunks := seq(10, _ => [NEWLINE]) + [[NUL, NEWLINE]];
    CompleteChunks(chunks);
    var sizes, slots := Sizes(Live(chunks)), SlotSizes(chunks);
    assert sizes[0] == 1 && slots[0] == 2;
    SumUpTo(sizes, 0);
    SumUpTo(slots, 0);
  }

  /** The bytes accepted are as many as the ones stored exactly while at most ten commands have been
      committed and no byte waits for its newline. */
  lemma AllAcceptedStored(chunks: seq<Bytes>)
    ensures |Concat(chunks)| == |Content(chunks)| <==> |Groups(chunks)| <= CAPACITY && Rest(chunks) == []
  {
    ByteCount(chunks);
    Conservation(chunks);
    var evicted := Evicted(chunks);
    if evicted != [] {
      ConcatFront(evicted);
      assert evicted[0] == Groups(chunks)[0];
      assert evicted[0] in Groups(chunks);
      assert evicted[0] != [];
    }
  }

  /** After eleven commands of one byte the end of the stored data is byte 10, but SEEK_END, once no
      count is in flight, goes to byte 11. */
  lemma SeekEndGoesTooFar()
    ensures var chunks := seq(11, _ => [NEWLINE]);
      |Content(chunks)| == 10 && |Concat(chunks)| == 11
  {
    var chunks: seq<Bytes> := seq(11, _ => [NEWLINE]);
    CompleteChunks(chunks);
    OneByteEach(chunks);
    OneByteEach(Live(chunks));
  }

  lemma {:induction false} OneByteEach(parts: seq<Bytes>)
    requires forall i :: 0 <= i < |parts| ==> |parts[i]| == 1
    ensures |Concat(parts)| == |parts|
  {
    if parts != [] {
      OneByteEach(parts[..|parts| - 1]);
    }
  }
}
