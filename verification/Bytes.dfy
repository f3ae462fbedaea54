/** Byte strings, their concatenation, and arithmetic on lists of sizes. */
module Bytes {
  type uint8 = x: int | 0 <= x < 0x100
  type uint32 = x: int | 0 <= x < 0x1_0000_0000

  type Bytes = seq<uint8>

  const NUL: uint8 := 0
  const NEWLINE: uint8 := 10

  datatype Option<+T> = None | Some(value: T)

  function Min(a: nat, b: nat): (m: nat)
    ensures m <= a && m <= b && (m == a || m == b)
  {
    if a <= b then a else b
  }

  function Concat(parts: seq<Bytes>): Bytes {
    if parts == [] then [] else Concat(parts[..|parts| - 1]) + parts[|parts| - 1]
  }

  function Sum(sizes: seq<nat>): nat {
    if sizes == [] then 0 else Sum(sizes[..|sizes| - 1]) + sizes[|sizes| - 1]
  }

  function Sizes(parts: seq<Bytes>): seq<nat> {
    seq(|parts|, i requires 0 <= i < |parts| => |parts[i]|)
  }

  /** The newest `n` items of `s`, or all of them when there are fewer. */
  function LastN<T>(s: seq<T>, n: nat): seq<T> {
    if |s| <= n then s else s[|s| - n..]
  }

  /** A line: one newline, at the end. */
  ghost predicate IsLine(s: Bytes) {
    s != [] && s[|s| - 1] == NEWLINE && NEWLINE !in s[..|s| - 1]
  }

  /** A line, or a part of one: no newline before the last byte. */
  predicate AtMostOneLine(s: Bytes) {
    s == [] || NEWLINE !in s[..|s| - 1]
  }

  /** What a reader standing at `pos` still has in front of it. */
  function From(s: Bytes, pos: nat): Bytes {
    if pos <= |s| then s[pos..] else []
  }

  lemma {:induction false} ConcatAppend(a: seq<Bytes>, b: seq<Bytes>)
    ensures Concat(a + b) == Concat(a) + Concat(b)
    decreases |b|
  {
    if b == [] {
      assert a + b == a;
    } else {
      var n := |b| - 1;
      ConcatAppend(a, b[..n]);
      assert (a + b)[..|a + b| - 1] == a + b[..n];
    }
  }

  lemma {:induction false} SumAppend(a: seq<nat>, b: seq<nat>)
    ensures Sum(a + b) == Sum(a) + Sum(b)
    decreases |b|
  {
    if b == [] {
      assert a + b == a;
    } else {
      var n := |b| - 1;
      SumAppend(a, b[..n]);
      assert (a + b)[..|a + b| - 1] == a + b[..n];
    }
  }

  lemma ConcatOne(part: Bytes)
    ensures Concat([part]) == part
  {
    assert Concat([part]) == Concat([]) + part;
  }

  lemma ConcatFront(parts: seq<Bytes>)
    requires parts != []
    ensures Concat(parts) == parts[0] + Concat(parts[1..])
  {
    ConcatOne(parts[0]);
    ConcatAppend([parts[0]], parts[1..]);
    assert [parts[0]] + parts[1..] == parts;
  }

  lemma SumFront(sizes: seq<nat>)
    requires sizes != []
    ensures Sum(sizes) == sizes[0] + Sum(sizes[1..])
  {
    assert Sum([sizes[0]]) == Sum([]) + sizes[0];
    SumAppend([sizes[0]], sizes[1..]);
    assert [sizes[0]] + sizes[1..] == sizes;
  }

  lemma {:induction false} ConcatLength(parts: seq<Bytes>)
    ensures |Concat(parts)| == Sum(Sizes(parts))
  {
    if parts != [] {
      var n := |parts| - 1;
      ConcatLength(parts[..n]);
      assert Sizes(parts)[..n] == Sizes(parts[..n]);
    }
  }

  lemma SumUpTo(sizes: seq<nat>, k: nat)
    requires k < |sizes|
    ensures Sum(sizes[..k + 1]) == Sum(sizes[..k]) + sizes[k]
  {
    assert sizes[..k + 1][..k] == sizes[..k];
  }

  lemma SumMonotone(sizes: seq<nat>, j: nat, k: nat)
    requires j <= k <= |sizes|
    ensures Sum(sizes[..j]) <= Sum(sizes[..k])
  {
    SumAppend(sizes[..j], sizes[j..k]);
    assert sizes[..j] + sizes[j..k] == sizes[..k];
  }

  lemma SumTotal(sizes: seq<nat>, k: nat)
    requires k <= |sizes|
    ensures Sum(sizes) == Sum(sizes[..k]) + Sum(sizes[k..])
  {
    SumAppend(sizes[..k], sizes[k..]);
    assert sizes[..k] + sizes[k..] == sizes;
  }

  /** A position below the total lies at one offset in one item only. */
  lemma PlaceUnique(sizes: seq<nat>, j: nat, a: nat, k: nat, b: nat)
    requires j < |sizes| && a < sizes[j] && k < |sizes| && b < sizes[k]
    requires Sum(sizes[..j]) + a == Sum(sizes[..k]) + b
    ensures j == k && a == b
  {
    hide Sum;
    if j < k {
      SumUpTo(sizes, j);
      SumMonotone(sizes, j + 1, k);
    } else if k < j {
      SumUpTo(sizes, k);
      SumMonotone(sizes, k + 1, j);
    }
  }
}
