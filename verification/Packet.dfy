/** How a handler puts one packet together from what it receives. */
module Packet {
  import opened Bytes

  const BUFFER_SIZE := 100

  /** The place of the first `c` in `s`, or its length. */
  function Find(s: Bytes, c: uint8): (i: nat)
    ensures i <= |s|
  {
    if s == [] then 0 else if s[0] == c then 0 else 1 + Find(s[1..], c)
  }

  lemma {:induction false} FindIsFirst(s: Bytes, c: uint8)
    ensures Find(s, c) <= |s|
    ensures c !in s[..Find(s, c)]
    ensures Find(s, c) < |s| ==> s[Find(s, c)] == c
    ensures Find(s, c) == |s| <==> c !in s
  {
    if s != [] && s[0] != c {
      FindIsFirst(s[1..], c);
      assert s == [s[0]] + s[1..];
      assert s[..Find(s, c)] == [s[0]] + s[1..][..Find(s[1..], c)];
    }
  }

  /** Nothing but the first place looks like the first place. */
  lemma FindUnique(s: Bytes, c: uint8, i: nat)
    requires i <= |s| && c !in s[..i] && (i < |s| ==> s[i] == c)
    ensures Find(s, c) == i
  {
    FindIsFirst(s, c);
  }

  /** What a receive adds: everything up to its first newline and one byte more, or up to its first
      NUL, or to its end. */
  function Added(received: Bytes): Bytes {
    received[..Min(Find(received, NEWLINE) + 2, Find(received, NUL))]
  }

  /** The packet the handler ends up with; it stops after the first receive with a newline. */
  function PacketText(receives: seq<Bytes>): Bytes {
    if receives == [] then []
    else Added(receives[0]) + if NEWLINE in receives[0] then [] else PacketText(receives[1..])
  }

  /** What a packet is meant to be: everything up to and with the first newline. */
  function ThroughNewline(s: Bytes): Bytes {
    s[..Min(Find(s, NEWLINE) + 1, |s|)]
  }

  /** A byte follows the first newline, and no NUL keeps it out of the packet. */
  ghost predicate Spills(received: Bytes) {
    Find(received, NEWLINE) + 2 <= Find(received, NUL)
  }

  /** The first receive with a newline, if one comes, spills. */
  ghost predicate Spilled(receives: seq<Bytes>) {
    receives != [] && if NEWLINE in receives[0] then Spills(receives[0]) else Spilled(receives[1..])
  }

  lemma FindSkips(a: Bytes, b: Bytes, c: uint8)
    requires c !in a
    ensures Find(a + b, c) == |a| + Find(b, c)
  {
    FindIsFirst(b, c);
    var f := Find(b, c);
    assert (a + b)[..|a| + f] == a + b[..f];
    FindUnique(a + b, c, |a| + f);
  }

  lemma FindStops(a: Bytes, b: Bytes, c: uint8)
    requires c in a
    ensures Find(a + b, c) == Find(a, c) < |a|
  {
    FindIsFirst(a, c);
    var f := Find(a, c);
    assert (a + b)[..f] == a[..f];
    FindUnique(a + b, c, f);
  }

  lemma FindWithin(s: Bytes, c: uint8, n: nat)
    requires n <= |s|
    ensures Find(s[..n], c) == Min(n, Find(s, c))
    ensures c in s[..n] <==> Find(s, c) < n
  {
    FindIsFirst(s, c);
    var f := Min(n, Find(s, c));
    assert s[..n][..f] == s[..f];
    FindUnique(s[..n], c, f);
  }

  lemma ThroughSkips(a: Bytes, b: Bytes)
    requires NEWLINE !in a
    ensures ThroughNewline(a + b) == a + ThroughNewline(b)
  {
    FindSkips(a, b, NEWLINE);
    hide Find;
    assert ThroughNewline(a + b) == a + ThroughNewline(b);
  }

  lemma ThroughStops(a: Bytes, b: Bytes)
    requires NEWLINE in a
    ensures Added(a) == ThroughNewline(a + b) <==> NUL !in ThroughNewline(a + b) && !Spills(a)
  {
    FindStops(a, b, NEWLINE);
    var f := Find(a, NEWLINE);
    FindWithin(a, NUL, f + 1);
    hide Find;
    assert ThroughNewline(a + b) == a[..f + 1];
    assert Added(a) == a[..f + 1] <==> |Added(a)| == f + 1;
  }

  lemma SameTail(a: Bytes, b: Bytes, c: Bytes)
    ensures a + b == a + c <==> b == c
  {
    assert (a + b)[|a|..] == b;
    assert (a + c)[|a|..] == c;
  }

  /** The same without search: what is added is as long as it can be without a NUL, and with at most
      one byte behind a newline. */
  lemma AddedIs(received: Bytes, k: nat)
    requires k <= |received|
    ensures Added(received) <= received
    ensures k <= |Added(received)| <==> NUL !in received[..k] && (k >= 2 ==> NEWLINE !in received[..k - 2])
  {
    FindWithin(received, NUL, k);
    if k >= 2 {
      FindWithin(received, NEWLINE, k - 2);
    }
  }

  lemma AddedHasNoNul(received: Bytes)
    ensures NUL !in Added(received)
  {
    FindWithin(received, NUL, |Added(received)|);
  }

  /** A receive without newline and NUL is taken whole. */
  lemma AddedWhole(received: Bytes)
    requires NEWLINE !in received
    ensures NEWLINE !in Added(received) && (NUL !in received ==> Added(received) == received)
  {
    FindIsFirst(received, NEWLINE);
    FindIsFirst(received, NUL);
  }

  lemma {:induction false} PacketHasNoNul(receives: seq<Bytes>)
    ensures NUL !in PacketText(receives)
  {
    if receives != [] {
      AddedHasNoNul(receives[0]);
      PacketHasNoNul(receives[1..]);
    }
  }

  /** The assembled packet is what was meant exactly when that has no NUL and the receive with the
      newline does not spill; if it does, the packet carries the first byte of the next one. */
  lemma {:induction false} PacketIsThroughNewline(receives: seq<Bytes>)
    ensures PacketText(receives) == ThroughNewline(Concat(receives)) <==>
      NUL !in ThroughNewline(Concat(receives)) && !Spilled(receives)
  {
    if receives != [] {
      var c, others := receives[0], Concat(receives[1..]);
      ConcatFront(receives);
      if NEWLINE in c {
        ThroughStops(c, others);
        assert PacketText(receives) == Added(c);
      } else {
        ThroughSkips(c, others);
        AddedWhole(c);
        PacketHasNoNul(receives);
        SameTail(c, PacketText(receives[1..]), ThroughNewline(others));
        PacketIsThroughNewline(receives[1..]);
      }
      hide Find, Added, ThroughNewline, Spills;
    }
  }

  lemma OneLineBehind(a: Bytes, b: Bytes)
    requires NEWLINE !in a
    ensures AtMostOneLine(a + b) <==> AtMostOneLine(b)
  {
    if b == [] {
      assert a + b == a;
    } else {
      assert (a + b)[..|a + b| - 1] == a + b[..|b| - 1];
    }
  }

  lemma OneLineAdded(received: Bytes)
    requires NEWLINE in received
    ensures AtMostOneLine(Added(received)) <==> !Spills(received)
  {
    FindWithin(received, NEWLINE, if Added(received) == [] then 0 else |Added(received)| - 1);
    hide Find;
    if Added(received) != [] {
      var n := |Added(received)| - 1;
      assert Added(received)[..n] == received[..n];
    }
  }

  /** Not to spill is also exactly what it takes for the packet to have no newline before its last
      byte; that holds for a connection closed before its newline too. */
  lemma {:induction false} PacketIsOneLine(receives: seq<Bytes>)
    ensures AtMostOneLine(PacketText(receives)) <==> !Spilled(receives)
  {
    if receives != [] {
      var c := receives[0];
      if NEWLINE in c {
        OneLineAdded(c);
        assert PacketText(receives) == Added(c);
      } else {
        AddedWhole(c);
        OneLineBehind(Added(c), PacketText(receives[1..]));
        PacketIsOneLine(receives[1..]);
      }
      hide Find, Added, AtMostOneLine, Spills;
    }
  }

  /** "A", newline, "B" in one receive: the packet carries the "B", which does not fit the first
      allocation. */
  lemma NextPacketLeaksIn()
    ensures var received: Bytes := [65, NEWLINE, 66];
      && PacketText([received]) == received != ThroughNewline(Concat([received])) == [65, NEWLINE]
      && |Added(received)| + 1 > Scanned(received) + 1
  {
    var received: Bytes := [65, NEWLINE, 66];
    ConcatOne(received);
    FindUnique(received, NEWLINE, 1);
    FindUnique(received, NUL, 3);
  }

  /** "A", a zero byte, "B", newline in one receive: it is a line, and of it only the "A" is taken. */
  lemma NulStops()
    ensures var received: Bytes := [65, 0, 66, 10];
      IsLine(received) && PacketText([received]) == [65]
  {
    var received: Bytes := [65, 0, 66, 10];
    FindUnique(received, NEWLINE, 3);
    FindUnique(received, NUL, 1);
  }

  /** A line sent in any pieces never spills, and arrives whole exactly when it has no NUL. */
  lemma LineArrives(receives: seq<Bytes>)
    requires IsLine(Concat(receives)) && forall c :: c in receives ==> c != []
    ensures !Spilled(receives)
    ensures PacketText(receives) == Concat(receives) <==> NUL !in Concat(receives)
  {
    var s := Concat(receives);
    FindUnique(s, NEWLINE, |s| - 1);
    LineSpillsNothing(receives);
    PacketIsThroughNewline(receives);
    hide Find, Concat;
    assert ThroughNewline(s) == s;
  }

  lemma {:induction false} LineSpillsNothing(receives: seq<Bytes>)
    requires Find(Concat(receives), NEWLINE) >= |Concat(receives)| - 1 && forall c :: c in receives ==> c != []
    ensures !Spilled(receives)
  {
    if receives != [] {
      var c, others := receives[0], Concat(receives[1..]);
      ConcatFront(receives);
      if NEWLINE in c {
        FindStops(c, others, NEWLINE);
      } else {
        FindSkips(c, others, NEWLINE);
        assert forall r :: r in receives[1..] ==> r in receives;
        LineSpillsNothing(receives[1..]);
      }
    }
  }

  // ---- The loop itself, on its two buffers ----

  /** `a` holds the C string `text`. */
  ghost predicate HoldsText(a: array<uint8>, text: Bytes)
    reads a
  {
    && |text| < a.Length && NUL !in text
    && a[..|text|] == text && a[|text|] == NUL
  }

  method Recv(buffer: array<uint8>, received: Bytes)
    requires buffer.Length == BUFFER_SIZE && |received| <= BUFFER_SIZE
    modifies buffer
    ensures buffer[..] == received + old(buffer[..])[|received|..]
  {
    for k := 0 to |received|
      invariant forall n :: 0 <= n < k ==> buffer[n] == received[n]
      invariant forall n :: k <= n < BUFFER_SIZE ==> buffer[n] == old(buffer[n])
    {
      buffer[k] := received[k];
    }
  }

  /** realloc: a new size, the bytes that fit kept. */
  method Realloc(a: array<uint8>, n: nat) returns (b: array<uint8>)
    ensures fresh(b) && b.Length == n
    ensures b[..Min(n, a.Length)] == a[..Min(n, a.Length)]
  {
    b := new uint8[n](i reads a => if 0 <= i < a.Length then a[i] else NUL);
  }

  /** strncat reads `src` up to a terminator, or else `n` bytes of it. */
  ghost predicate StaysInside(src: Bytes, n: nat) {
    n <= |src| || NUL in src
  }

  /** The C string that `s` begins with. */
  function Text(s: Bytes): Bytes {
    s[..Find(s, NUL)]
  }

  /** strncat: appends the text in `src`, at most `n` bytes of it, and a terminator. */
  method Strncat(dest: array<uint8>, src: array<uint8>, n: nat, ghost text: Bytes)
    requires dest != src && HoldsText(dest, text)
    // what it writes fits `dest`
    requires StaysInside(src[..], n)
    requires |text| + |Text(src[..Min(n, src.Length)])| < dest.Length
    modifies dest
    ensures HoldsText(dest, text + Text(src[..Min(n, src.Length)]))
  {
    ghost var field := src[..Min(n, src.Length)];
    ghost var len := Find(field, NUL);
    FindIsFirst(field, NUL);
    assert forall k :: 0 <= k < len ==> src[k] == field[..len][k] != NUL;
    assert len == src.Length ==> field == src[..];
    var at := Strlen(dest, text);
    var k := 0;
    while k < n && src[k] != NUL
      invariant 0 <= k <= len
      invariant dest[..|text| + k] == text + src[..k]
      decreases len - k
    {
      assert k < |field|;
      assert k < len;
      dest[at + k] := src[k];
      k := k + 1;
    }
    dest[at + k] := NUL;
    assert src[..len] == field[..len];
  }

  /** A receive after which strncat reads past the buffer: it fills the buffer, has no NUL, and the
      newline is its last byte or does not come. */
  ghost predicate Overreads(received: Bytes) {
    |received| == BUFFER_SIZE && Find(received, NEWLINE) >= BUFFER_SIZE - 1 && NUL !in received
  }

  /** What one turn can take: a receive that leaves strncat inside the buffer and, in the first turn,
      does not spill. */
  ghost predicate TurnSafe(received: Bytes, first: bool) {
    !Overreads(received) && (first ==> !Spills(received))
  }

  /** Receives that every turn can take, up to the one with a newline. */
  ghost predicate Receivable(receives: seq<Bytes>, first: bool) {
    receives != [] ==>
      && 1 <= |receives[0]| <= BUFFER_SIZE && TurnSafe(receives[0], first)
      && (NEWLINE in receives[0] || Receivable(receives[1..], false))
  }

  /** The scan for a newline: one past its place, or the whole buffer. */
  method Scan(buffer: array<uint8>) returns (complete: bool, i: nat)
    requires buffer.Length == BUFFER_SIZE
    ensures complete <==> NEWLINE in buffer[..]
    ensures i == if complete then Find(buffer[..], NEWLINE) + 1 else BUFFER_SIZE
  {
    complete, i := false, 0;
    while i < BUFFER_SIZE
      invariant i <= BUFFER_SIZE && !complete && NEWLINE !in buffer[..i]
    {
      if buffer[i] == NEWLINE {
        FindUnique(buffer[..], NEWLINE, i);
        assert buffer[..][..i] == buffer[..i];
        complete := true;
        i := i + 1;
        break;
      }
      i := i + 1;
    }
    assert buffer[..BUFFER_SIZE] == buffer[..];
  }

  /** A zeroed buffer after one receive: where the scan stops... */
  lemma ReceivedScan(buffer: Bytes, received: Bytes)
    requires |received| <= BUFFER_SIZE && buffer == received + seq(BUFFER_SIZE - |received|, _ => NUL)
    ensures NEWLINE in buffer <==> NEWLINE in received
    ensures Find(buffer, NEWLINE) == if NEWLINE in received then Find(received, NEWLINE) else BUFFER_SIZE
  {
    if NEWLINE in received {
      FindStops(received, seq(BUFFER_SIZE - |received|, _ => NUL), NEWLINE);
    } else {
      FindUnique(buffer, NEWLINE, BUFFER_SIZE);
    }
  }

  /** ... and what strncat takes from it, within a field of `n` bytes. */
  lemma ReceivedText(buffer: Bytes, received: Bytes, n: nat)
    requires |received| <= BUFFER_SIZE && n <= BUFFER_SIZE
    requires buffer == received + seq(BUFFER_SIZE - |received|, _ => NUL)
    ensures Text(buffer[..n]) == Text(received[..Min(n, |received|)])
  {
    var taken := received[..Min(n, |received|)];
    var zeroes: Bytes := seq(n - |taken|, _ => NUL);
    assert buffer[..n] == taken + zeroes;
    FindIsFirst(taken, NUL);
    if NUL in taken {
      FindStops(taken, zeroes, NUL);
    } else {
      FindSkips(taken, zeroes, NUL);
      FindUnique(zeroes, NUL, 0);
    }
  }

  ghost predicate Zeroed(buffer: array<uint8>)
    reads buffer
  {
    buffer.Length == BUFFER_SIZE && forall n :: 0 <= n < BUFFER_SIZE ==> buffer[n] == NUL
  }

  /** How far one receive is scanned. */
  function Scanned(received: Bytes): nat {
    if NEWLINE in received then Find(received, NEWLINE) + 1 else BUFFER_SIZE
  }

  lemma TakenIsAdded(received: Bytes)
    requires |received| <= BUFFER_SIZE
    ensures Text(received[..Min(Min(Scanned(received) + 1, BUFFER_SIZE), |received|)]) == Added(received)
  {
    FindIsFirst(received, NEWLINE);
    FindWithin(received, NUL, Min(Min(Scanned(received) + 1, BUFFER_SIZE), |received|));
  }

  /** Strncat reads past the buffer after exactly those receives. */
  lemma OverreadsExactly(received: Bytes, buffer: Bytes)
    requires |received| <= BUFFER_SIZE
    requires buffer == received + seq(BUFFER_SIZE - |received|, _ => NUL)
    ensures StaysInside(buffer, Scanned(received) + 1) <==> !Overreads(received)
  {
    FindIsFirst(received, NEWLINE);
    assert |received| < BUFFER_SIZE ==> buffer[|received|] == NUL;
    assert NUL in received ==> NUL in buffer;
    assert |received| == BUFFER_SIZE ==> buffer == received;
  }

  /** A hundred bytes without a newline are such a receive, and so are ninety-nine and a newline. */
  lemma FullReceiveOverreads(last: uint8)
    requires last == 65 || last == NEWLINE
    ensures var received: Bytes := seq(99, _ => 65) + [last];
      |received| == BUFFER_SIZE && Overreads(received) && !StaysInside(received, Scanned(received) + 1)
  {
    var received: Bytes := seq(BUFFER_SIZE - 1, _ => 65) + [last];
    FindUnique(received, NEWLINE, if last == NEWLINE then BUFFER_SIZE - 1 else BUFFER_SIZE);
    assert received == received + seq(BUFFER_SIZE - |received|, _ => NUL);
    OverreadsExactly(received, received);
  }

  /** A turn stays inside both buffers exactly when its receive is one it can take. In the first
      turn nothing has been scanned; later there is a byte to spare. */
  lemma TurnSafeExactly(received: Bytes, buffer: Bytes, first: bool, textSize: nat, j: nat)
    requires |received| <= BUFFER_SIZE
    requires buffer == received + seq(BUFFER_SIZE - |received|, _ => NUL)
    requires if first then textSize == j == 0 else textSize < j
    ensures TurnSafe(received, first) <==>
      StaysInside(buffer, Scanned(received) + 1) && textSize + |Added(received)| <= j + Scanned(received)
  {
    OverreadsExactly(received, buffer);
    AddedSize(received);
    hide Find, StaysInside, Added, Spills;
  }

  /** One turn of the receive loop. */
  method ReceiveOne(buffer: array<uint8>, outputBuffer: array<uint8>, received: Bytes, j: nat, ghost text: Bytes)
    returns (complete: bool, j': nat, outputBuffer': array<uint8>)
    requires Zeroed(buffer) && buffer != outputBuffer && HoldsText(outputBuffer, text)
    requires |received| <= BUFFER_SIZE && !Overreads(received)
    requires |text| + |Added(received)| <= j + Scanned(received)
    requires |text| <= j
    modifies buffer
    ensures Zeroed(buffer) && fresh(outputBuffer')
    ensures complete <==> NEWLINE in received
    ensures j' == j + Scanned(received) && outputBuffer'.Length == j' + 1
    ensures HoldsText(outputBuffer', text + Added(received))
  {
    Recv(buffer, received);
    ghost var filled: Bytes := buffer[..];
    ReceivedScan(filled, received);
    ReceivedText(filled, received, Min(Scanned(received) + 1, BUFFER_SIZE));
    TakenIsAdded(received);
    OverreadsExactly(received, filled);
    var i: nat;
    complete, i := Scan(buffer);
    j' := j + i;
    outputBuffer' := Grown(outputBuffer, j' + 1, text);
    Strncat(outputBuffer', buffer, i + 1, text);
    forall n | 0 <= n < BUFFER_SIZE {
      buffer[n] := NUL;
    }
  }

  /** The receive loop, until a newline or the end of the connection. The text always fits the
      allocation, which is one more byte than the count `j` of bytes scanned. */
  method AssemblePacket(receives: seq<Bytes>) returns (outputBuffer: array<uint8>, j: nat)
    requires Receivable(receives, true)
    ensures HoldsText(outputBuffer, PacketText(receives))
    ensures receives != [] ==> |PacketText(receives)| + 1 <= outputBuffer.Length == j + 1
  {
    hide *;
    var buffer := ZeroedBuffer();
    outputBuffer := ZeroedBuffer();
    j := 0;
    var packetComplete := false;
    var k := 0;
    ghost var text: Bytes, left := [], PacketText(receives);
    assert receives[0..] == receives;
    while !packetComplete && k < |receives|
      invariant k <= |receives| && fresh(buffer) && fresh(outputBuffer) && buffer != outputBuffer
      invariant Zeroed(buffer) && HoldsText(outputBuffer, text)
      invariant PacketText(receives) == text + left
      invariant left == if packetComplete then [] else PacketText(receives[k..])
      invariant k > 0 ==> outputBuffer.Length == j + 1
      invariant |text| + (if packetComplete then 0 else k) <= j
      invariant packetComplete ==> k > 0
      invariant !packetComplete ==> Receivable(receives[k..], k == 0)
      decreases |receives| - k
    {
      Turn(receives, k);
      ghost var added := Added(receives[k]);
      packetComplete, j, outputBuffer := ReceiveOne(buffer, outputBuffer, receives[k], j, text);
      k := k + 1;
      ghost var left' := if packetComplete then [] else PacketText(receives[k..]);
      Regroup(text, added, left');
      text, left := text + added, left';
    }
    NoMore(receives);
    Regroup(text, left, []);
  }

  lemma Regroup(a: Bytes, b: Bytes, c: Bytes)
    ensures a + (b + c) == a + b + c
    ensures b == [] ==> a + b == a
  {
  }

  lemma NoMore(receives: seq<Bytes>)
    ensures PacketText(receives[|receives|..]) == []
  {
  }

  /** What turn `k` needs and does: the first turn adds no more than it scans, a later one at most
      one byte more, and a turn without a newline leaves a byte spare. */
  lemma Turn(receives: seq<Bytes>, k: nat)
    requires k < |receives| && Receivable(receives[k..], k == 0)
    ensures |receives[k]| <= BUFFER_SIZE && !Overreads(receives[k])
    ensures |Added(receives[k])| <= Scanned(receives[k]) + if k == 0 then 0 else 1
    ensures NEWLINE !in receives[k] ==> |Added(receives[k])| < Scanned(receives[k])
    ensures NEWLINE !in receives[k] ==> Receivable(receives[k + 1..], false)
    ensures PacketText(receives[k..]) ==
      Added(receives[k]) + if NEWLINE in receives[k] then [] else PacketText(receives[k + 1..])
  {
    AddedSize(receives[k]);
    assert receives[k..][1..] == receives[k + 1..];
    hide Find, Added, Spills;
  }

  /** How much a receive adds, compared with what is scanned of it. */
  lemma AddedSize(received: Bytes)
    requires |received| <= BUFFER_SIZE
    ensures |Added(received)| <= Scanned(received) <==> !Spills(received)
    ensures |Added(received)| <= Scanned(received) + 1
    ensures NEWLINE !in received ==> !Spills(received) && (|Added(received)| == BUFFER_SIZE <==> Overreads(received))
  {
    FindIsFirst(received, NEWLINE);
    FindIsFirst(received, NUL);
  }

  /** The first receive fits the allocation of one byte more than was scanned exactly when it does
      not spill. */
  lemma FirstReceiveFits(received: Bytes)
    requires |received| <= BUFFER_SIZE
    ensures |Added(received)| + 1 <= Scanned(received) + 1 <==> !Spills(received)
  {
    AddedSize(received);
  }

  method ZeroedBuffer() returns (buffer: array<uint8>)
    ensures fresh(buffer) && Zeroed(buffer) && HoldsText(buffer, [])
  {
    buffer := new uint8[BUFFER_SIZE](_ => NUL);
  }

  /** realloc of a buffer that holds `text` in its first `n` bytes. */
  method Grown(a: array<uint8>, n: nat, ghost text: Bytes) returns (b: array<uint8>)
    requires HoldsText(a, text) && |text| < n
    ensures fresh(b) && b.Length == n && HoldsText(b, text)
  {
    b := Realloc(a, n);
    var m := Min(n, a.Length);
    assert b[..|text|] == b[..m][..|text|] == a[..m][..|text|] == text;
    assert b[|text|] == b[..m][|text|] == a[..m][|text|];
  }

  method Strlen(a: array<uint8>, ghost text: Bytes) returns (n: nat)
    requires HoldsText(a, text)
    ensures n == |text| < a.Length && a[..n] == text
  {
    assert forall k :: 0 <= k < |text| ==> a[k] == a[..|text|][k] == text[k] != NUL;
    n := 0;
    while a[n] != NUL
      invariant 0 <= n <= |text|
      decreases |text| - n
    {
      n := n + 1;
    }
  }
}
