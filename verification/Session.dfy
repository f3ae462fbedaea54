/** What a handler does to the device while it holds the server's mutex. */
module Session {
  import opened Bytes
  import opened DeviceSpec
  import opened Ring
  import opened Driver
  import opened Packet

  const IOCTL_STRING: Bytes :=
    // "AESDCHAR_IOCSEEKTO:"
    [65, 69, 83, 68, 67, 72, 65, 82, 95, 73, 79, 67, 83, 69, 69, 75, 84, 79, 58]

  ghost predicate BeginsWith(packet: Bytes, s: string) {
    |s| <= |packet| && forall i :: 0 <= i < |s| ==> packet[i] as char == s[i]
  }

  /** The constant spells the string of the source, so that these packets are the seek commands. */
  lemma SeekCommands(packet: Bytes)
    ensures IOCTL_STRING <= packet <==> BeginsWith(packet, "AESDCHAR_IOCSEEKTO:")
  {
    var s := "AESDCHAR_IOCSEEKTO:";
    assert forall i :: 0 <= i < |s| ==> IOCTL_STRING[i] as char == s[i];
  }

  /** fwrite and the flush in rewind: the packet reaches the device in as many writes as stdio
      likes; write number i is offered `offers(i)` bytes of what is left and takes `taken(i)` of
      those, both as far as there are any. `pieces` is what the writes took. */
  method WriteAll(dev: Device, packet: Bytes, offers: nat -> nat, taken: nat -> nat) returns (ghost pieces: seq<Bytes>)
    requires dev.Valid() && !dev.mxLocked
    requires forall i :: 0 < taken(i) <= offers(i)
    modifies dev, dev.cb, dev.cb.entry, dev.heap
    ensures dev.Valid() && !dev.mxLocked
    ensures dev.chunks == old(dev.chunks) + pieces && Concat(pieces) == packet
  {
    hide *;
    var done, i := 0, 0;
    pieces := [];
    NoBytes();
    assert dev.chunks + [] == dev.chunks && packet[..0] == [];
    while done < |packet|
      invariant done <= |packet|
      invariant dev.Valid() && !dev.mxLocked
      invariant dev.chunks == old(dev.chunks) + pieces && Concat(pieces) == packet[..done]
    {
      var offered := packet[done..done + Min(offers(i), |packet| - done)];
      var n := Min(taken(i), |offered|);
      var _ := dev.Write(Buf(offered), false, false, n);
      ConcatAppend(pieces, [offered[..n]]);
      ConcatOne(offered[..n]);
      assert packet[..done] + offered[..n] == packet[..done + n];
      assert old(dev.chunks) + pieces + [offered[..n]] == old(dev.chunks) + (pieces + [offered[..n]]);
      pieces := pieces + [offered[..n]];
      done, i := done + n, i + 1;
    }
    assert packet[..done] == packet;
  }

  lemma NoBytes()
    ensures Concat([]) == []
  {
  }

  /** What a packet served leaves in the device, whose history goes from `chunks` to `chunks'`, and
      what is sent back. A seek command (w, o) leaves everything as it is. Anything else is appended,
      and the whole content is sent; a line, or a part of one, is as if it came in one write, and a
      line ends the newest entry. */
  ghost predicate Served(chunks: seq<Bytes>, chunks': seq<Bytes>, packet: Bytes, w: nat, o: nat, behind: nat, reply: Bytes) {
    if IOCTL_STRING <= packet then
      chunks' == chunks && reply == From(Content(chunks), SeekTarget(chunks, w, o, behind))
    else
      && chunks <= chunks' && Concat(chunks') == Concat(chunks) + packet
      && reply == Content(chunks')
      && (AtMostOneLine(packet) ==> SameState(chunks', chunks + [packet]))
      && (IsLine(packet) ==>
        && Groups(chunks') == Groups(chunks) + [Rest(chunks) + packet] && Rest(chunks') == []
        && reply == Concat(LastN(Groups(chunks) + [Rest(chunks) + packet], CAPACITY)))
  }

  lemma AppendServed(chunks: seq<Bytes>, pieces: seq<Bytes>, packet: Bytes, w: nat, o: nat, behind: nat)
    requires !(IOCTL_STRING <= packet) && Concat(pieces) == packet
    ensures Served(chunks, chunks + pieces, packet, w, o, behind, From(Content(chunks + pieces), 0))
  {
    ConcatAppend(chunks, pieces);
    if AtMostOneLine(packet) {
      assert packet[..|packet|] == packet;
      LineInPieces(chunks, pieces, packet, |packet|);
      CommitsAtLastByte(chunks, packet, |packet|);
    }
    hide Groups, Rest, Concat;
    assert From(Content(chunks + pieces), 0) == Content(chunks + pieces);
  }

  /** One packet served: a seek command (w, o), with w and o as scanned from it, only moves the file
      position before the content is read back; anything else is written first. */
  method Serve(dev: Device, packet: Bytes, w: uint32, o: uint32, beyond: Entry,
      offers: nat -> nat, taken: nat -> nat, counts: nat -> nat) returns (reply: Bytes)
    requires dev.Valid() && !dev.mxLocked
    requires forall i :: 0 < taken(i) <= offers(i) && counts(i) > 0
    modifies dev, dev.cb, dev.cb.entry, dev.heap
    ensures dev.Valid() && !dev.mxLocked
    ensures Served(old(dev.chunks), dev.chunks, packet, w, o, Usable(beyond), reply)
    ensures if BeginsWith(packet, "AESDCHAR_IOCSEEKTO:")
      then dev.chunks == old(dev.chunks) && reply == From(Content(dev.chunks), SeekTarget(dev.chunks, w, o, Usable(beyond)))
      else old(dev.chunks) <= dev.chunks && Concat(dev.chunks) == Concat(old(dev.chunks)) + packet && reply == Content(dev.chunks)
  {
    SeekCommands(packet);
    hide dev.Stored, Accounted, LeaksKnown, Waits, Groups, Rest, Concat, BeginsWith;
    var file := new File();
    if IOCTL_STRING <= packet {
      var _ := dev.Ioctl(file, true, true, false, w, o, beyond);
    } else {
      ghost var pieces := WriteAll(dev, packet, offers, taken);
      AppendServed(old(dev.chunks), pieces, packet, w, o, Usable(beyond));
      hide Served;
      var _ := dev.Llseek(file, 0, SeekSet);
    }
    reply := dev.ReadToEnd(file, counts);
  }

  /** A whole handler: what it receives is assembled into a packet, served and answered. */
  method Handle(dev: Device, receives: seq<Bytes>, w: uint32, o: uint32, beyond: Entry,
      offers: nat -> nat, taken: nat -> nat, counts: nat -> nat) returns (reply: Bytes)
    requires dev.Valid() && !dev.mxLocked
    requires forall i :: 0 < taken(i) <= offers(i) && counts(i) > 0
    requires Receivable(receives, true)
    modifies dev, dev.cb, dev.cb.entry, dev.heap
    ensures dev.Valid() && !dev.mxLocked
    ensures Served(old(dev.chunks), dev.chunks, PacketText(receives), w, o, Usable(beyond), reply)
    ensures if BeginsWith(PacketText(receives), "AESDCHAR_IOCSEEKTO:")
      then dev.chunks == old(dev.chunks) && reply == From(Content(dev.chunks), SeekTarget(dev.chunks, w, o, Usable(beyond)))
      else
        && old(dev.chunks) <= dev.chunks && Concat(dev.chunks) == Concat(old(dev.chunks)) + PacketText(receives)
        && reply == Content(dev.chunks)
  {
    hide *;
    var outputBuffer, j := AssemblePacket(receives);
    var n := Strlen(outputBuffer, PacketText(receives));
    reply := Serve(dev, outputBuffer[..n], w, o, beyond, offers, taken, counts);
  }
}
