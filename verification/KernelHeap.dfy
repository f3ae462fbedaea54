/** The kernel allocator as its callers see it: allocations have an identity,
    and an identity that has been freed never becomes live again. */
module KernelHeap {
  import opened Bytes

  /** `ZeroSize` is the non-null pointer kmalloc(0) returns; it owns no memory. */
  datatype Ptr = Null | ZeroSize | At(id: nat)

  function IdsOf(p: Ptr): set<nat> {
    if p.At? then {p.id} else {}
  }

  class Heap {
    var mem: map<nat, Bytes>
    var next: nat
    ghost var freed: seq<nat>

    /** Every identity handed out so far is either live or freed, and freed only once. */
    ghost predicate Valid()
      reads this
    {
      && (forall id :: id in mem ==> id < next)
      && (forall i :: 0 <= i < |freed| ==> freed[i] < next && freed[i] !in mem)
      && (forall i, j :: 0 <= i < j < |freed| ==> freed[i] != freed[j])
      && (forall id: nat :: id < next && id !in mem ==> id in freed)
    }

    constructor ()
      ensures Valid() && mem == map[] && next == 0 && freed == []
    {
      mem, next, freed := map[], 0, [];
    }

    method Kmalloc(n: nat, fails: bool) returns (p: Ptr)
      requires Valid()
      modifies this
      ensures Valid() && freed == old(freed)
      ensures n == 0 ==> p == ZeroSize
      ensures n > 0 && fails ==> p == Null
      ensures n > 0 && !fails ==> p == At(old(next)) && p.id !in old(mem) && p.id in mem && |mem[p.id]| == n
      ensures mem.Keys == old(mem).Keys + IdsOf(p)
      ensures forall id :: id in old(mem) ==> id in mem && mem[id] == old(mem)[id]
    {
      if n == 0 {
        p := ZeroSize;
      } else if fails {
        p := Null;
      } else {
        p := At(next);
        mem := mem[next := seq(n, _ => 0)];
        next := next + 1;
      }
    }

    /** Resizes an allocation, keeping the bytes that fit. On failure the old allocation stays as it
        was. On success it may have been moved, in which case the old identity is freed. */
    method Krealloc(p: Ptr, n: nat, fails: bool) returns (q: Ptr)
      requires Valid() && p.At? && p.id in mem && n > 0
      modifies this
      ensures Valid()
      ensures fails ==> q == Null && mem == old(mem) && freed == old(freed)
      ensures !fails ==>
        && q.At? && q.id in mem && |mem[q.id]| == n
        && old(mem)[p.id][..Min(n, |old(mem)[p.id]|)] <= mem[q.id]
        && mem.Keys == old(mem).Keys - {p.id} + {q.id}
        && (q != p ==> q.id !in old(mem))
        && freed == old(freed) + (if q == p then [] else [p.id])
      ensures forall id :: id in old(mem) && id != p.id ==> id in mem && mem[id] == old(mem)[id]
    {
      if fails {
        return Null;
      }
      var kept := mem[p.id][..Min(n, |mem[p.id]|)];
      var resized := kept + seq(n - |kept|, _ => 0);
      if * {
        q := p;
        mem := mem[p.id := resized];
      } else {
        q := At(next);
        mem := (mem - {p.id})[next := resized];
        next := next + 1;
        freed := freed + [p.id];
      }
    }

    /** Freeing is only defined on null, the zero-size pointer, or a live allocation. */
    method Kfree(p: Ptr)
      requires Valid() && (p.At? ==> p.id in mem)
      modifies this
      ensures Valid()
      ensures mem == old(mem) - IdsOf(p)
      ensures freed == old(freed) + (if p.At? then [p.id] else [])
    {
      if p.At? {
        mem := mem - {p.id};
        freed := freed + [p.id];
      }
    }

    /** memset(p + from, 0, count) */
    method Memset(p: Ptr, from: nat, count: nat)
      requires Valid() && (count > 0 ==> p.At?)
      requires p.At? ==> p.id in mem && from + count <= |mem[p.id]|
      modifies this
      ensures Valid() && freed == old(freed)
      ensures !p.At? ==> mem == old(mem)
      ensures p.At? ==> mem == old(mem)[p.id :=
        old(mem)[p.id][..from] + seq(count, _ => 0) + old(mem)[p.id][from + count..]]
    {
      if p.At? {
        mem := mem[p.id := mem[p.id][..from] + seq(count, _ => 0) + mem[p.id][from + count..]];
      }
    }

    /** copy_from_user(p + from, data, |data|): a prefix arrives, the rest is reported missing. */
    method CopyFromUser(p: Ptr, from: nat, data: Bytes, copied: nat) returns (missing: nat)
      requires Valid() && copied <= |data| && (data != [] ==> p.At?)
      requires p.At? ==> p.id in mem && from + |data| <= |mem[p.id]|
      modifies this
      ensures Valid() && freed == old(freed)
      ensures missing == |data| - copied
      ensures !p.At? ==> mem == old(mem)
      ensures p.At? ==> mem == old(mem)[p.id :=
        old(mem)[p.id][..from] + data[..copied] + old(mem)[p.id][from + copied..]]
    {
      missing := |data| - copied;
      if p.At? {
        mem := mem[p.id := mem[p.id][..from] + data[..copied] + mem[p.id][from + copied..]];
      }
    }

    /** memchr(p, c, n) != NULL */
    method Memchr(p: Ptr, c: uint8, n: nat) returns (found: bool)
      requires n > 0 ==> p.At? && p.id in mem && n <= |mem[p.id]|
      ensures found <==> n > 0 && c in mem[p.id][..n]
    {
      found := n > 0 && c in mem[p.id][..n];
    }
  }
}
