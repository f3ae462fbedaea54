/** Short runs of the driver and of the server after which they do less than their interfaces suggest. */
module Witnesses {
  import opened Bytes
  import opened DeviceSpec
  import opened Driver
  import Packet
  import Server

  lemma OneLine()
    ensures Groups([[NEWLINE]]) == [[NEWLINE]] && |Content([[NEWLINE]])| == |Concat([[NEWLINE]])| == 1
    ensures Sum([1]) == 1
  {
    CompleteChunks([[NEWLINE]]);
    ConcatOne([NEWLINE]);
    assert Sum([1]) == Sum([]) + 1;
  }

  /** A writer has unlocked but not yet added its count: SEEK_END lands before the data. */
  method SeekEndTooEarly() returns (dev: Device, r: Result)
    ensures dev.Valid() && |Content(dev.chunks)| == 1 && r == Ok(0)
  {
    hide dev.Valid, Groups, Concat, Sum, Content, Rest;
    dev := new Device();
    var line: Bytes := [NEWLINE];
    assert line[..1] == line && [] + [line] == [line];
    ghost var moved: bool;
    r, moved := dev.WriteLocked(Buf(line), false, false, 1);
    assert dev.chunks == [line] && dev.inFlight == [1];
    OneLine();
    var f := new File();
    r := dev.Llseek(f, 0, SeekEnd);
  }

  lemma StarvedThenMore()
    ensures !LeakFree([1, 1], [[], [65]])
  {
    assert [[], [65]][..0] == [];
    assert Starved([1, 1], [[], [65]], 0);
  }

  /** A write of one byte that copies nothing, and then another write: the first buffer is lost. */
  method StarvedWriteLosesBuffer() returns (dev: Device)
    ensures dev.Valid() && !dev.mxLocked && dev.orphans != {}
  {
    hide dev.Valid, Groups, Rest, LeakFree;
    dev := new Device();
    var byte: Bytes := [65];
    assert byte[..0] == [] && byte[..1] == byte;
    var _ := dev.Write(Buf(byte), false, false, 0);
    var _ := dev.Write(Buf(byte), false, false, 1);
    assert dev.chunks == [[], byte] && dev.asked == [1, 1];
    StarvedThenMore();
    dev.NoneLost();
  }

  lemma OneByteWaits()
    ensures Rest([[65]]) == [65] && LeakFree([1], [[65]])
  {
    assert [[65]][..0] == [];
  }

  /** A byte waits, and the next write cannot grow its buffer: the pending buffer is lost though no
      write was starved, and the lock stays held. */
  method FailedGrowthLosesBuffer() returns (dev: Device)
    ensures dev.Valid() && dev.mxLocked && dev.orphans != {} && LeakFree(dev.asked, dev.chunks)
  {
    hide dev.Valid, Groups, Rest, LeakFree;
    dev := new Device();
    var byte: Bytes := [65];
    assert byte[..1] == byte;
    var _ := dev.Write(Buf(byte), false, false, 1);
    assert dev.chunks == [byte] && dev.asked == [1];
    OneByteWaits();
    var _ := dev.Write(Buf(byte), false, true, 0);
    dev.NoneLost();
  }

  // ---- One packet, two replies ----

  /** "A", newline, "B". */
  const SPLIT: Bytes := [65, 10, 66]

  /** A handler assembles it, inside its buffers, when "A" comes alone and the rest together. */
  lemma SplitIsAssembled()
    ensures Packet.Receivable([[65], [NEWLINE, 66]], true) && Packet.PacketText([[65], [NEWLINE, 66]]) == SPLIT
  {
    assert [[65], [NEWLINE, 66]][1..] == [[NEWLINE, 66]];
    Packet.FindUnique([65], NEWLINE, 1);
    Packet.FindUnique([65], NUL, 1);
    Packet.FindUnique([NEWLINE, 66], NEWLINE, 0);
    Packet.FindUnique([NEWLINE, 66], NUL, 2);
  }

  /** The only handler so far, asked to append `SPLIT`, is in this phase. */
  ghost predicate Serving(s: Server.State, phase: Server.Phase, reply: Bytes, chunks: seq<Bytes>) {
    && Server.Reachable(s) && s.requests == [Server.Append(SPLIT)] && s.log == [0] && s.chunks == chunks
    && s.tasks == [Server.Task(0, phase, reply)] && 0 in s.nodes
  }

  lemma Connected() returns (s: Server.State)
    ensures Serving(s, Server.Writing(0), [], [])
  {
    s := Server.START;
    assert Server.After([]) == Some(s);
    hide Server.Reachable, Server.After;
    var junk := Server.Node(None, false, None);
    Server.Reached(s, Server.Malloc(0, junk));
    s := Server.Apply(s, Server.Malloc(0, junk));
    Server.Reached(s, Server.Advance);
    s := Server.Apply(s, Server.Advance);
    Server.Reached(s, Server.Advance);
    s := Server.Apply(s, Server.Advance);
    Server.Reached(s, Server.Create(Server.Append(SPLIT)));
    s := Server.Apply(s, Server.Create(Server.Append(SPLIT)));
    Server.Reached(s, Server.TakeLock(0));
    s := Server.Apply(s, Server.TakeLock(0));
  }

  lemma Writes(s: Server.State, done: nat, n: nat, chunks: seq<Bytes>) returns (s': Server.State)
    requires Serving(s, Server.Writing(done), [], chunks) && done < 3 && done + n <= 3
    ensures Serving(s', Server.Writing(done + n), [], chunks + [SPLIT[done..done + n]])
  {
    hide Server.Reachable;
    Server.Reached(s, Server.DeviceWrite(0, n));
    s' := Server.Apply(s, Server.DeviceWrite(0, n));
  }

  lemma ReadsBack(s: Server.State, chunks: seq<Bytes>, entry: Bytes) returns (s': Server.State)
    requires Serving(s, Server.Writing(3), [], chunks) && Live(chunks) == [entry] && entry != []
    ensures Serving(s', Server.Sent, entry, chunks)
  {
    hide Server.Reachable, Live;
    Server.Reached(s, Server.Rewind(0));
    s' := Server.Apply(s, Server.Rewind(0));
    assert ReadAt([entry], 0, |entry|) == entry && [] + entry == entry;
    assert ReadAt([], 0, 1) == [] && ReadAt([entry], |entry|, 1) == [];
    hide ReadAt;
    Server.Reached(s', Server.DeviceRead(0, |entry|));
    s' := Server.Apply(s', Server.DeviceRead(0, |entry|));
    Server.Reached(s', Server.DeviceRead(0, 1));
    s' := Server.Apply(s', Server.DeviceRead(0, 1));
  }

  lemma LineThenMore(line: Bytes, after: Bytes)
    requires NEWLINE in line && NEWLINE !in after
    ensures Live([line]) == [line] && Live([line, after]) == [line]
  {
    CompleteChunks([line]);
    CutStep([line], after);
    hide Groups, Rest;
    assert [line] + [after] == [line, after];
  }

  /** The same requests, served in the same order, answered with "A", newline, "B" when the packet is
      written at once, and without the "B" when the write is split behind the newline. */
  lemma TwoReplies() returns (s: Server.State, s': Server.State)
    ensures Server.Reachable(s) && Server.Reachable(s')
    ensures s.requests == s'.requests == [Server.Append(SPLIT)] && s.log == s'.log == [0]
    ensures s.tasks == [Server.Task(0, Server.Sent, [65, 10, 66])]
    ensures s'.tasks == [Server.Task(0, Server.Sent, [65, 10])]
  {
    hide Server.Reachable, Live;
    var whole, line, after: Bytes := SPLIT, [65, NEWLINE], [66];
    assert whole[1] == line[1] == NEWLINE;
    LineThenMore(whole, after);
    LineThenMore(line, after);
    assert SPLIT[0..3] == whole && SPLIT[0..2] == line && SPLIT[2..3] == after;
    assert [] + [whole] == [whole] && [] + [line] == [line] && [line] + [after] == [line, after];
    var s0 := Connected();
    s := Writes(s0, 0, 3, []);
    s := ReadsBack(s, [whole], whole);
    s' := Writes(s0, 0, 2, []);
    s' := Writes(s', 2, 1, [line]);
    s' := ReadsBack(s', [line, after], line);
  }
}
