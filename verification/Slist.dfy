/** SLIST: singly linked; the server keeps its connections in one. */
module Slist {
  import opened Links

  method InsertHead(head: Link, elm: Link, ghost s: seq<Link>)
    requires Chain(head, s) && elm != head && elm !in s
    modifies head`next, elm`next
    ensures Chain(head, [elm] + s)
  {
    elm.next := head.next;
    head.next := elm;
  }

  /** Walks to the element before `elm`; the walk reaches it because `elm` is in the list. */
  method Remove(head: Link, elm: Link, ghost s: seq<Link>, ghost i: nat)
    requires Chain(head, s) && i < |s| && s[i] == elm
    modifies Before(head, s, i)`next
    ensures Chain(head, RemoveAt(s, i))
    ensures elm.next == old(elm.next)
  {
    if head.next == elm {
      head.next := head.next.next;
    } else {
      ghost var at := 0;
      var curelm := head.next;
      while curelm.next != elm
        invariant 0 <= at < i && curelm == s[at]
        decreases i - at
      {
        curelm := curelm.next;
        at := at + 1;
      }
      curelm.next := curelm.next.next;
    }
  }

  method Concat(head1: Link, head2: Link, ghost s1: seq<Link>, ghost s2: seq<Link>)
    requires Chain(head1, s1) && Chain(head2, s2) && Apart(head1, s1, head2, s2)
    modifies head1`next, head2`next, s1
    ensures Chain(head1, s1 + s2) && Chain(head2, [])
  {
    assert s1 + s2 == if s2 == [] then s1 else if s1 == [] then s2 else s1 + s2;
    var curelm := head1.next;
    if curelm == null {
      head1.next := head2.next;
      if head1.next != null {
        head2.next := null;
      }
    } else if head2.next != null {
      ghost var at := 0;
      while curelm.next != null
        invariant 0 <= at < |s1| && curelm == s1[at]
        decreases |s1| - at
      {
        curelm := curelm.next;
        at := at + 1;
      }
      curelm.next := head2.next;
      head2.next := null;
    }
  }
}
