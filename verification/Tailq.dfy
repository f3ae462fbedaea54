/** TAILQ: doubly linked, with a pointer to the final link. */
module Tailq {
  import opened Links

  ghost predicate TailQueue(head: Link, s: seq<Link>)
    reads head, s
  {
    Chain(head, s) && BackLinks(head, s) && TailLink(head, s)
  }

  method Init(head: Link)
    modifies head
    ensures TailQueue(head, [])
  {
    head.next := null;
    head.back := head;
  }

  /** Between the link before place `i` and the one at it, all four pointers lead to and from `elm`;
      past the last place the head's tail pointer does. */
  lemma Inserted(head: Link, s: seq<Link>, i: nat, elm: Link)
    requires i <= |s| && Distinct(head, s) && elm != head && elm !in s
    requires Before(head, s, i).next == elm && elm.next == Item(s, i) && ForwardExcept(head, s, i, i)
    requires elm.back == Before(head, s, i) && (i < |s| ==> s[i].back == elm) && BackExcept(head, s, i, i)
    requires head.back == if i < |s| then Before(head, s, |s|) else elm
    ensures TailQueue(head, InsertAt(s, i, elm))
  {
    ChainInserted(head, s, i, elm);
    BackInserted(head, s, i, elm);
    InsertAtItems(s, i, elm, |s|);
    hide Chain, BackLinks, ForwardExcept, BackExcept, Distinct;
  }

  /** Around place `i` the pointers lead past the element there. */
  lemma Removed(head: Link, s: seq<Link>, i: nat)
    requires i < |s| && Distinct(head, s)
    requires Before(head, s, i).next == Item(s, i + 1) && ForwardExcept(head, s, i, i + 1)
    requires (i + 1 < |s| ==> s[i + 1].back == Before(head, s, i)) && BackExcept(head, s, i, i + 1)
    requires head.back == if i + 1 < |s| then Before(head, s, |s|) else Before(head, s, i)
    ensures TailQueue(head, RemoveAt(s, i))
  {
    ChainRemoved(head, s, i);
    BackRemoved(head, s, i);
    if |s| > 1 {
      RemoveAtItems(s, i, |s| - 2);
    }
    hide Chain, BackLinks, ForwardExcept, BackExcept, Distinct;
  }

  method InsertHead(head: Link, elm: Link, ghost s: seq<Link>)
    requires TailQueue(head, s) && elm != head && elm !in s
    modifies head, elm, head.next
    ensures TailQueue(head, [elm] + s)
  {
    elm.next := head.next;
    if elm.next != null {
      head.next.back := elm;
    } else {
      head.back := elm;
    }
    head.next := elm;
    elm.back := head;
    Inserted(head, s, 0, elm);
    assert InsertAt(s, 0, elm) == [elm] + s;
  }

  method InsertTail(head: Link, elm: Link, ghost s: seq<Link>)
    requires TailQueue(head, s) && elm != head && elm !in s
    modifies head, elm, head.back
    ensures TailQueue(head, s + [elm])
  {
    elm.next := null;
    elm.back := head.back;
    head.back.next := elm;
    head.back := elm;
    Inserted(head, s, |s|, elm);
    assert InsertAt(s, |s|, elm) == s + [elm];
  }

  method InsertAfter(head: Link, listelm: Link, elm: Link, ghost s: seq<Link>, ghost i: nat)
    requires TailQueue(head, s) && i < |s| && s[i] == listelm && elm != head && elm !in s
    modifies head, listelm, elm, listelm.next
    ensures TailQueue(head, InsertAt(s, i + 1, elm))
  {
    assert listelm.next == Item(s, i + 1);
    elm.next := listelm.next;
    if elm.next != null {
      elm.next.back := elm;
    } else {
      head.back := elm;
    }
    listelm.next := elm;
    elm.back := listelm;
    Inserted(head, s, i + 1, elm);
  }

  method InsertBefore(listelm: Link, elm: Link, ghost head: Link, ghost s: seq<Link>, ghost i: nat)
    requires TailQueue(head, s) && i < |s| && s[i] == listelm && elm != head && elm !in s
    modifies listelm, elm, listelm.back
    ensures TailQueue(head, InsertAt(s, i, elm))
  {
    assert listelm.back == Before(head, s, i);
    elm.back := listelm.back;
    elm.next := listelm;
    listelm.back.next := elm;
    listelm.back := elm;
    Inserted(head, s, i, elm);
  }

  method Remove(head: Link, elm: Link, ghost s: seq<Link>, ghost i: nat)
    requires TailQueue(head, s) && i < |s| && s[i] == elm
    modifies head, elm.next, elm.back
    ensures TailQueue(head, RemoveAt(s, i))
    ensures elm.next == old(elm.next) && elm.back == old(elm.back)
  {
    assert elm.next == Item(s, i + 1) && elm.back == Before(head, s, i);
    if elm.next != null {
      elm.next.back := elm.back;
    } else {
      head.back := elm.back;
    }
    elm.back.next := elm.next;
    Removed(head, s, i);
  }

  method Concat(head1: Link, head2: Link, ghost s1: seq<Link>, ghost s2: seq<Link>)
    requires TailQueue(head1, s1) && TailQueue(head2, s2)
    requires Apart(head1, s1, head2, s2)
    modifies head1, head2, head1.back, head2.next
    ensures TailQueue(head1, s1 + s2) && TailQueue(head2, [])
  {
    assert s2 == [] ==> s1 + s2 == s1;
    if head2.next != null {
      head1.back.next := head2.next;
      head2.next.back := head1.back;
      head1.back := head2.back;
      Init(head2);
    }
  }

  method Swap(head1: Link, head2: Link, ghost s1: seq<Link>, ghost s2: seq<Link>)
    requires TailQueue(head1, s1) && TailQueue(head2, s2)
    requires Apart(head1, s1, head2, s2)
    modifies head1, head2, head1.next, head2.next
    ensures TailQueue(head1, s2) && TailQueue(head2, s1)
  {
    var swapFirst, swapLast := head1.next, head1.back;
    head1.next := head2.next;
    head1.back := head2.back;
    head2.next := swapFirst;
    head2.back := swapLast;
    swapFirst := head1.next;
    if swapFirst != null {
      swapFirst.back := head1;
    } else {
      head1.back := head1;
    }
    swapFirst := head2.next;
    if swapFirst != null {
      swapFirst.back := head2;
    } else {
      head2.back := head2;
    }
  }

  method First(head: Link, ghost s: seq<Link>) returns (item: Link?)
    requires TailQueue(head, s)
    ensures item == Item(s, 0)
  {
    item := head.next;
  }

  /** The last element: the head's final link, read as a head, knows the link that points to it. */
  method Last(head: Link, ghost s: seq<Link>) returns (item: Link?)
    requires TailQueue(head, s)
    ensures item == Item(s, |s| - 1)
  {
    item := head.back.back.next;
  }

  /** The predecessor: the link that points to `elm`, read as a head, knows the link before it. From
      the first element this goes round to the final link, whose `next` is null. */
  method Prev(elm: Link, ghost head: Link, ghost s: seq<Link>, ghost i: nat) returns (item: Link?)
    requires TailQueue(head, s) && i < |s| && s[i] == elm
    ensures item == Item(s, i - 1)
  {
    item := elm.back.back.next;
  }

  method Next(elm: Link, ghost head: Link, ghost s: seq<Link>, ghost i: nat) returns (item: Link?)
    requires TailQueue(head, s) && i < |s| && s[i] == elm
    ensures item == Item(s, i + 1)
  {
    item := elm.next;
  }

  method ForEachReverse(head: Link, ghost s: seq<Link>) returns (visited: seq<Link>)
    requires TailQueue(head, s)
    ensures visited == Reverse(s)
  {
    hide TailQueue, Reverse;
    visited := [];
    ghost var rest := s;
    var item := Last(head, s);
    while item != null
      invariant rest <= s && item == Item(rest, |rest| - 1)
      invariant visited + Reverse(rest) == Reverse(s)
      decreases |rest|
    {
      ghost var left := |rest| - 1;
      ReverseOn(visited, rest);
      visited := visited + [item];
      item := Prev(item, head, s, left);
      rest := rest[..left];
    }
    ReverseNone();
  }

  /** One visit of a removing traversal; the next element to visit was saved before it. */
  method RemoveIf(head: Link, elm: Link, matches: Link -> bool, ghost s: seq<Link>, ghost i: nat, ghost all: set<Link>)
    requires TailQueue(head, s) && i < |s| && s[i] == elm
    requires Within(s, all)
    modifies head, all
    ensures TailQueue(head, if matches(elm) then RemoveAt(s, i) else s)
  {
    if matches(elm) {
      assert elm.next == Item(s, i + 1) && elm.back == Before(head, s, i);
      Remove(head, elm, s, i);
    }
  }

  /** FOREACH_SAFE that removes every element that matches. */
  method RemoveMatching(head: Link, matches: Link -> bool, ghost s: seq<Link>) returns (visited: seq<Link>)
    requires TailQueue(head, s)
    modifies head, s
    ensures visited == s
    ensures TailQueue(head, Without(s, matches))
  {
    hide *;
    Unvisited(s, matches);
    visited := [];
    var item := First(head, s);
    ghost var kept: seq<Link>, rest, now, all := [], s, s, set x | x in s;
    while item != null
      invariant visited + rest == s && kept + Without(rest, matches) == Without(s, matches)
      invariant now == kept + rest && Within(now, all)
      invariant TailQueue(head, now) && item == Item(rest, 0)
      decreases |rest|
    {
      Cursor(kept, rest);
      var elm: Link := item;
      item := Next(elm, head, now, |kept|);
      RemoveIf(head, elm, matches, now, |kept|, all);
      kept, now := PassForward(visited, kept, rest, matches, all);
      visited, rest := visited + [elm], rest[1..];
    }
    Cursor(kept, rest);
    AllVisited(visited, kept, matches);
  }

  /** FOREACH_REVERSE_SAFE that removes every element that matches. */
  method RemoveMatchingReverse(head: Link, matches: Link -> bool, ghost s: seq<Link>) returns (visited: seq<Link>)
    requires TailQueue(head, s)
    modifies head, s
    ensures visited == Reverse(s)
    ensures TailQueue(head, Without(s, matches))
  {
    hide *;
    Unvisited(s, matches);
    visited := [];
    var item := Last(head, s);
    ghost var rest, kept: seq<Link>, now, all := s, [], s, set x | x in s;
    while item != null
      invariant visited + Reverse(rest) == Reverse(s) && Without(rest, matches) + kept == Without(s, matches)
      invariant now == rest + kept && Within(now, all)
      invariant TailQueue(head, now) && item == Item(rest, |rest| - 1)
      decreases |rest|
    {
      CursorBack(rest, kept);
      var elm: Link := item;
      ghost var left := |rest| - 1;
      item := Prev(elm, head, now, left);
      RemoveIf(head, elm, matches, now, left, all);
      kept, now := PassBackward(rest, kept, matches, all);
      ReverseOn(visited, rest);
      visited, rest := visited + [elm], rest[..left];
    }
    CursorBack(rest, kept);
    AllVisited(visited, kept, matches);
    ReverseNone();
  }
}
