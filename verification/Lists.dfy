/** LIST: doubly linked, the head knows only the first element. */
module Lists {
  import opened Links

  ghost predicate LinkedList(head: Link, s: seq<Link>)
    reads head, s
  {
    Chain(head, s) && BackLinks(head, s)
  }

  method Init(head: Link)
    modifies head
    ensures LinkedList(head, [])
  {
    head.next := null;
  }

  method First(head: Link, ghost s: seq<Link>) returns (item: Link?)
    requires LinkedList(head, s)
    ensures item == Item(s, 0)
  {
    item := head.next;
  }

  method Next(elm: Link, ghost head: Link, ghost s: seq<Link>, ghost i: nat) returns (item: Link?)
    requires LinkedList(head, s) && i < |s| && s[i] == elm
    ensures item == Item(s, i + 1)
  {
    item := elm.next;
  }

  method Prev(elm: Link, head: Link, ghost s: seq<Link>, ghost i: nat) returns (item: Link?)
    requires LinkedList(head, s) && i < |s| && s[i] == elm
    ensures item == Item(s, i - 1)
  {
    item := if elm.back == head then null else elm.back;
  }

  method InsertHead(head: Link, elm: Link, ghost s: seq<Link>)
    requires LinkedList(head, s) && elm != head && elm !in s
    modifies head, elm, head.next
    ensures LinkedList(head, [elm] + s)
  {
    elm.next := head.next;
    if elm.next != null {
      head.next.back := elm;
    }
    head.next := elm;
    elm.back := head;
    ChainInserted(head, s, 0, elm);
    BackInserted(head, s, 0, elm);
    assert InsertAt(s, 0, elm) == [elm] + s;
  }

  method InsertAfter(listelm: Link, elm: Link, ghost head: Link, ghost s: seq<Link>, ghost i: nat)
    requires LinkedList(head, s) && i < |s| && s[i] == listelm && elm != head && elm !in s
    modifies listelm, elm, listelm.next
    ensures LinkedList(head, InsertAt(s, i + 1, elm))
  {
    assert listelm.next == Item(s, i + 1);
    elm.next := listelm.next;
    if elm.next != null {
      listelm.next.back := elm;
    }
    listelm.next := elm;
    elm.back := listelm;
    ChainInserted(head, s, i + 1, elm);
    BackInserted(head, s, i + 1, elm);
  }

  method InsertBefore(listelm: Link, elm: Link, ghost head: Link, ghost s: seq<Link>, ghost i: nat)
    requires LinkedList(head, s) && i < |s| && s[i] == listelm && elm != head && elm !in s
    modifies listelm, elm, listelm.back
    ensures LinkedList(head, InsertAt(s, i, elm))
  {
    assert listelm.back == Before(head, s, i);
    elm.back := listelm.back;
    elm.next := listelm;
    listelm.back.next := elm;
    listelm.back := elm;
    ChainInserted(head, s, i, elm);
    BackInserted(head, s, i, elm);
  }

  method Remove(elm: Link, ghost head: Link, ghost s: seq<Link>, ghost i: nat)
    requires LinkedList(head, s) && i < |s| && s[i] == elm
    modifies elm.next, elm.back
    ensures LinkedList(head, RemoveAt(s, i))
    ensures elm.next == old(elm.next) && elm.back == old(elm.back)
  {
    assert elm.next == Item(s, i + 1) && elm.back == Before(head, s, i);
    if elm.next != null {
      elm.next.back := elm.back;
    }
    elm.back.next := elm.next;
    ChainRemoved(head, s, i);
    BackRemoved(head, s, i);
  }

  /** Walks to the last element of the first list, then links the second one behind it. */
  method Concat(head1: Link, head2: Link, ghost s1: seq<Link>, ghost s2: seq<Link>)
    requires LinkedList(head1, s1) && LinkedList(head2, s2) && Apart(head1, s1, head2, s2)
    modifies head1, head2, s1, head2.next
    ensures LinkedList(head1, s1 + s2) && LinkedList(head2, [])
  {
    assert s1 + s2 == if s2 == [] then s1 else if s1 == [] then s2 else s1 + s2;
    var curelm := head1.next;
    if curelm == null {
      head1.next := head2.next;
      if head1.next != null {
        head2.next.back := head1;
        Init(head2);
      }
    } else if head2.next != null {
      ghost var at := 0;
      while curelm.next != null
        invariant 0 <= at < |s1| && curelm == s1[at]
        decreases |s1| - at
      {
        curelm := curelm.next;
        at := at + 1;
      }
      curelm.next := head2.next;
      head2.next.back := curelm;
      Init(head2);
    }
  }

  method Swap(head1: Link, head2: Link, ghost s1: seq<Link>, ghost s2: seq<Link>)
    requires LinkedList(head1, s1) && LinkedList(head2, s2) && Apart(head1, s1, head2, s2)
    modifies head1, head2, head1.next, head2.next
    ensures LinkedList(head1, s2) && LinkedList(head2, s1)
  {
    var swapTmp := head1.next;
    head1.next := head2.next;
    head2.next := swapTmp;
    swapTmp := head1.next;
    if swapTmp != null {
      swapTmp.back := head1;
    }
    swapTmp := head2.next;
    if swapTmp != null {
      swapTmp.back := head2;
    }
  }

  /** One visit of a removing traversal; the next element to visit was saved before it. */
  method RemoveIf(elm: Link, matches: Link -> bool, ghost head: Link, ghost s: seq<Link>, ghost i: nat, ghost all: set<Link>)
    requires LinkedList(head, s) && i < |s| && s[i] == elm
    requires Within(s, all)
    modifies head, all
    ensures LinkedList(head, if matches(elm) then RemoveAt(s, i) else s)
  {
    if matches(elm) {
      assert elm.next == Item(s, i + 1) && elm.back == Before(head, s, i);
      Remove(elm, head, s, i);
    }
  }

  /** FOREACH_SAFE that removes every element that matches. */
  method RemoveMatching(head: Link, matches: Link -> bool, ghost s: seq<Link>) returns (visited: seq<Link>)
    requires LinkedList(head, s)
    modifies head, s
    ensures visited == s
    ensures LinkedList(head, Without(s, matches))
  {
    hide *;
    Unvisited(s, matches);
    visited := [];
    var item := First(head, s);
    ghost var kept: seq<Link>, rest, now, all := [], s, s, set x | x in s;
    while item != null
      invariant visited + rest == s && kept + Without(rest, matches) == Without(s, matches)
      invariant now == kept + rest && Within(now, all)
      invariant LinkedList(head, now) && item == Item(rest, 0)
      decreases |rest|
    {
      Cursor(kept, rest);
      var elm: Link := item;
      item := Next(elm, head, now, |kept|);
      RemoveIf(elm, matches, head, now, |kept|, all);
      kept, now := PassForward(visited, kept, rest, matches, all);
      visited, rest := visited + [elm], rest[1..];
    }
    Cursor(kept, rest);
    AllVisited(visited, kept, matches);
  }
}
