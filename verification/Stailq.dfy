/** STAILQ: singly linked, with a pointer to the final link. */
module Stailq {
  import opened Links

  ghost predicate TailList(head: Link, s: seq<Link>)
    reads head, s
  {
    Chain(head, s) && TailLink(head, s)
  }

  method Init(head: Link)
    modifies head
    ensures TailList(head, [])
  {
    head.next := null;
    head.back := head;
  }

  method Last(head: Link, ghost s: seq<Link>) returns (item: Link?)
    requires TailList(head, s)
    ensures item == Item(s, |s| - 1)
  {
    item := if head.next == null then null else head.back;
  }

  method InsertHead(head: Link, elm: Link, ghost s: seq<Link>)
    requires TailList(head, s) && elm != head && elm !in s
    modifies head, elm`next
    ensures TailList(head, [elm] + s)
  {
    elm.next := head.next;
    if elm.next == null {
      head.back := elm;
    }
    head.next := elm;
    ChainInserted(head, s, 0, elm);
    assert InsertAt(s, 0, elm) == [elm] + s;
  }

  method InsertTail(head: Link, elm: Link, ghost s: seq<Link>)
    requires TailList(head, s) && elm != head && elm !in s
    modifies head, elm`next, head.back`next
    ensures TailList(head, s + [elm])
  {
    elm.next := null;
    head.back.next := elm;
    head.back := elm;
    ChainInserted(head, s, |s|, elm);
    assert InsertAt(s, |s|, elm) == s + [elm];
  }

  method InsertAfter(head: Link, tqelm: Link, elm: Link, ghost s: seq<Link>, ghost i: nat)
    requires TailList(head, s) && i < |s| && s[i] == tqelm && elm != head && elm !in s
    modifies head`back, tqelm`next, elm`next
    ensures TailList(head, InsertAt(s, i + 1, elm))
  {
    assert tqelm.next == Item(s, i + 1);
    elm.next := tqelm.next;
    if elm.next == null {
      head.back := elm;
    }
    tqelm.next := elm;
    ChainInserted(head, s, i + 1, elm);
    InsertAtItems(s, i + 1, elm, |s|);
  }

  method RemoveHead(head: Link, ghost s: seq<Link>)
    requires TailList(head, s) && s != []
    modifies head
    ensures TailList(head, s[1..])
  {
    assert s[0].next == Item(s, 1);
    head.next := head.next.next;
    if head.next == null {
      head.back := head;
    }
    ChainRemoved(head, s, 0);
    assert RemoveAt(s, 0) == s[1..];
  }

  method RemoveAfter(head: Link, elm: Link, ghost s: seq<Link>, ghost i: nat)
    requires TailList(head, s) && i + 1 < |s| && s[i] == elm
    modifies head`back, elm`next
    ensures TailList(head, RemoveAt(s, i + 1))
  {
    assert elm.next == s[i + 1] && s[i + 1].next == Item(s, i + 2);
    elm.next := elm.next.next;
    if elm.next == null {
      head.back := elm;
    }
    ChainRemoved(head, s, i + 1);
    RemoveAtItems(s, i + 1, |s| - 2);
  }

  /** Walks to the element before `elm`; the walk reaches it because `elm` is in the list. */
  method Remove(head: Link, elm: Link, ghost s: seq<Link>, ghost i: nat)
    requires TailList(head, s) && i < |s| && s[i] == elm
    modifies head, Before(head, s, i)`next
    ensures TailList(head, RemoveAt(s, i))
    ensures elm.next == old(elm.next)
  {
    if head.next == elm {
      assert s[1..] == RemoveAt(s, 0);
      RemoveHead(head, s);
    } else {
      ghost var at := 0;
      var curelm := head.next;
      while curelm.next != elm
        invariant 0 <= at < i && curelm == s[at]
        decreases i - at
      {
        curelm := curelm.next;
        at := at + 1;
      }
      RemoveAfter(head, curelm, s, at);
    }
  }

  method Concat(head1: Link, head2: Link, ghost s1: seq<Link>, ghost s2: seq<Link>)
    requires TailList(head1, s1) && TailList(head2, s2) && Apart(head1, s1, head2, s2)
    modifies head1, head2, head1.back`next
    ensures TailList(head1, s1 + s2) && TailList(head2, [])
  {
    assert s2 == [] ==> s1 + s2 == s1;
    if head2.next != null {
      head1.back.next := head2.next;
      head1.back := head2.back;
      Init(head2);
    }
  }

  method Swap(head1: Link, head2: Link, ghost s1: seq<Link>, ghost s2: seq<Link>)
    requires TailList(head1, s1) && TailList(head2, s2) && Apart(head1, s1, head2, s2)
    modifies head1, head2
    ensures TailList(head1, s2) && TailList(head2, s1)
  {
    var swapFirst, swapLast := head1.next, head1.back;
    head1.next := head2.next;
    head1.back := head2.back;
    head2.next := swapFirst;
    head2.back := swapLast;
    if head1.next == null {
      head1.back := head1;
    }
    if head2.next == null {
      head2.back := head2;
    }
  }
}
