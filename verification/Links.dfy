/** The links all four kinds of intrusive list are made of. A list head and an element's entry are
    the same kind of object: `next` is the forward pointer stored there, and a pointer to a "next"
    field is a pointer to the link that contains it. In a tail queue the second field is the head's
    `last` or the element's `prev`; the header reads one as the other, so here it has one name. */
module Links {
  class Link {
    var next: Link?
    var back: Link?

    constructor ()
    {
      next, back := null, null;
    }
  }

  /** Element `i` of the list, or null beyond either end. */
  function Item(s: seq<Link>, i: int): Link? {
    if 0 <= i < |s| then s[i] else null
  }

  /** The link that points to element `i`; beyond the last element, the final link. */
  function Before(head: Link, s: seq<Link>, i: nat): Link
    requires i <= |s|
  {
    if i == 0 then head else s[i - 1]
  }

  /** The elements of the list at `head` are `s`, each once, reached in this order. */
  ghost predicate Chain(head: Link, s: seq<Link>)
    reads head, s
  {
    && Distinct(head, s)
    && head.next == Item(s, 0)
    && (forall i {:trigger s[i].next} :: 0 <= i < |s| ==> s[i].next == Item(s, i + 1))
  }

  /** Every element's `back` names the link that points to it. */
  ghost predicate BackLinks(head: Link, s: seq<Link>)
    reads head, s
  {
    forall i {:trigger s[i].back} :: 0 <= i < |s| ==> s[i].back == Before(head, s, i)
  }

  /** The head's `back` names the final link. */
  ghost predicate TailLink(head: Link, s: seq<Link>)
    reads head
  {
    head.back == Before(head, s, |s|)
  }

  /** Two lists that share no link. */
  ghost predicate Apart(head1: Link, s1: seq<Link>, head2: Link, s2: seq<Link>) {
    && head1 != head2 && head1 !in s2 && head2 !in s1
    && (forall i, j :: 0 <= i < |s1| && 0 <= j < |s2| ==> s1[i] != s2[j])
  }

  function InsertAt<T>(s: seq<T>, i: nat, x: T): seq<T>
    requires i <= |s|
  {
    s[..i] + [x] + s[i..]
  }

  function RemoveAt<T>(s: seq<T>, i: nat): seq<T>
    requires i < |s|
  {
    s[..i] + s[i + 1..]
  }

  // ---- Placing a link between two others, and taking one out ----

  ghost predicate Distinct(head: Link, s: seq<Link>) {
    head !in s && forall j, k :: 0 <= j < k < |s| ==> s[j] != s[k]
  }

  /** Every forward link leads on as in `s`, but perhaps the ones before places `i` and `j`. */
  ghost predicate ForwardExcept(head: Link, s: seq<Link>, i: nat, j: nat)
    reads head, s
  {
    && (i > 0 && j > 0 ==> head.next == Item(s, 0))
    && (forall k {:trigger s[k].next} :: 0 <= k < |s| && k + 1 != i && k + 1 != j ==> s[k].next == Item(s, k + 1))
  }

  /** Every back link leads back as in `s`, but perhaps those at places `i` and `j`. */
  ghost predicate BackExcept(head: Link, s: seq<Link>, i: nat, j: nat)
    reads s
  {
    forall k {:trigger s[k].back} :: 0 <= k < |s| && k != i && k != j ==> s[k].back == Before(head, s, k)
  }

  lemma InsertAtItems(s: seq<Link>, i: nat, elm: Link, k: nat)
    requires i <= |s| && k <= |s|
    ensures |InsertAt(s, i, elm)| == |s| + 1
    ensures InsertAt(s, i, elm)[k] == if k < i then s[k] else if k == i then elm else s[k - 1]
  {
  }

  lemma RemoveAtItems(s: seq<Link>, i: nat, k: nat)
    requires i < |s| && k < |s| - 1
    ensures |RemoveAt(s, i)| == |s| - 1
    ensures RemoveAt(s, i)[k] == if k < i then s[k] else s[k + 1]
  {
  }

  /** When the link before place `i` leads to `elm`, `elm` leads on to what was there, and the other
      links are as they were, the list has `elm` inserted at place `i`. */
  lemma ChainInserted(head: Link, s: seq<Link>, i: nat, elm: Link)
    requires i <= |s| && Distinct(head, s) && elm != head && elm !in s
    requires Before(head, s, i).next == elm && elm.next == Item(s, i)
    requires ForwardExcept(head, s, i, i)
    ensures Chain(head, InsertAt(s, i, elm))
  {
    var s' := InsertAt(s, i, elm);
    assert |s'| == |s| + 1;
    forall j, k | 0 <= j < k < |s'|
      ensures s'[j] != s'[k]
    {
      InsertAtItems(s, i, elm, j);
      InsertAtItems(s, i, elm, k);
    }
    forall k | 0 <= k < |s'|
      ensures s'[k] != head
    {
      InsertAtItems(s, i, elm, k);
    }
    InsertAtItems(s, i, elm, 0);
    forall k | 0 <= k < |s'|
      ensures s'[k].next == Item(s', k + 1)
    {
      InsertAtItems(s, i, elm, k);
      if k < |s| {
        InsertAtItems(s, i, elm, k + 1);
      }
      assert k + 1 < i ==> s[k].next == Item(s, k + 1);
      assert k > i ==> s[k - 1].next == Item(s, k);
    }
  }

  /** The same for the back links. */
  lemma BackInserted(head: Link, s: seq<Link>, i: nat, elm: Link)
    requires i <= |s| && BackExcept(head, s, i, i)
    requires elm.back == Before(head, s, i) && (i < |s| ==> s[i].back == elm)
    ensures BackLinks(head, InsertAt(s, i, elm))
  {
    var s' := InsertAt(s, i, elm);
    forall k | 0 <= k < |s'|
      ensures s'[k].back == Before(head, s', k)
    {
      InsertAtItems(s, i, elm, k);
      if k > 0 {
        InsertAtItems(s, i, elm, k - 1);
      }
      assert k < i ==> s[k].back == Before(head, s, k);
      assert k > i + 1 ==> s[k - 1].back == Before(head, s, k - 1);
    }
  }

  /** When the link before place `i` leads past the element there, and the other links are as they
      were, the list has that element removed. */
  lemma ChainRemoved(head: Link, s: seq<Link>, i: nat)
    requires i < |s| && Distinct(head, s)
    requires Before(head, s, i).next == Item(s, i + 1)
    requires ForwardExcept(head, s, i, i + 1)
    ensures Chain(head, RemoveAt(s, i))
  {
    var s' := RemoveAt(s, i);
    assert |s'| == |s| - 1;
    forall j, k | 0 <= j < k < |s'|
      ensures s'[j] != s'[k]
    {
      RemoveAtItems(s, i, j);
      RemoveAtItems(s, i, k);
    }
    forall k | 0 <= k < |s'|
      ensures s'[k] != head
    {
      RemoveAtItems(s, i, k);
    }
    if |s'| > 0 {
      RemoveAtItems(s, i, 0);
    }
    forall k | 0 <= k < |s'|
      ensures s'[k].next == Item(s', k + 1)
    {
      RemoveAtItems(s, i, k);
      if k + 1 < |s'| {
        RemoveAtItems(s, i, k + 1);
      }
      assert k + 1 < i ==> s[k].next == Item(s, k + 1);
      assert k >= i ==> s[k + 1].next == Item(s, k + 2);
    }
  }

  /** The same for the back links. */
  lemma BackRemoved(head: Link, s: seq<Link>, i: nat)
    requires i < |s| && BackExcept(head, s, i, i + 1)
    requires i + 1 < |s| ==> s[i + 1].back == Before(head, s, i)
    ensures BackLinks(head, RemoveAt(s, i))
  {
    var s' := RemoveAt(s, i);
    forall k | 0 <= k < |s'|
      ensures s'[k].back == Before(head, s', k)
    {
      RemoveAtItems(s, i, k);
      if k > 0 {
        RemoveAtItems(s, i, k - 1);
      }
      assert k < i ==> s[k].back == Before(head, s, k);
      assert k > i ==> s[k + 1].back == Before(head, s, k + 1);
    }
  }

  function Reverse<T>(s: seq<T>): seq<T> {
    if s == [] then [] else [s[|s| - 1]] + Reverse(s[..|s| - 1])
  }

  /** The elements of `s` that do not match, in their order. */
  function Without<T>(s: seq<T>, matches: T -> bool): seq<T> {
    if s == [] then []
    else Without(s[..|s| - 1], matches) + if matches(s[|s| - 1]) then [] else [s[|s| - 1]]
  }

  lemma {:induction false} WithoutFirst<T>(x: T, s: seq<T>, matches: T -> bool)
    ensures Without([x] + s, matches) == (if matches(x) then [] else [x]) + Without(s, matches)
  {
    if s != [] {
      var n := |s| - 1;
      WithoutFirst(x, s[..n], matches);
      assert ([x] + s)[..|s|] == [x] + s[..n];
    } else {
      assert ([x] + s)[..0] == [];
    }
  }

  /** Where `Without` puts what it keeps: an element comes right after those kept from before it... */
  lemma {:induction false} WithoutKeeps<T>(s: seq<T>, matches: T -> bool, i: nat)
    requires i < |s| && !matches(s[i])
    ensures var place := |Without(s[..i], matches)|;
      place < |Without(s, matches)| && Without(s, matches)[place] == s[i]
  {
    var n := |s| - 1;
    if i < n {
      assert s[..n][..i] == s[..i];
      WithoutKeeps(s[..n], matches, i);
    }
  }

  /** ... and it keeps those, and nothing else, as often as they come. */
  lemma {:induction false} WithoutKeepsAll<T>(s: seq<T>, matches: T -> bool, x: T)
    ensures multiset(Without(s, matches))[x] == if matches(x) then 0 else multiset(s)[x]
  {
    if s != [] {
      var n := |s| - 1;
      assert s == s[..n] + [s[n]];
      WithoutKeepsAll(s[..n], matches, x);
    }
  }

  lemma {:induction false} ReverseAt<T>(s: seq<T>, k: nat)
    requires k < |s|
    ensures |Reverse(s)| == |s| && Reverse(s)[k] == s[|s| - 1 - k]
  {
    if |s| > 1 {
      ReverseAt(s[..|s| - 1], if k > 0 then k - 1 else 0);
    }
  }

  ghost predicate Within(s: seq<Link>, all: set<Link>) {
    forall i :: 0 <= i < |s| ==> s[i] in all
  }

  /** Where a forward traversal stands that has kept `kept` and has `rest` still to come. */
  lemma Cursor(kept: seq<Link>, rest: seq<Link>)
    ensures Item(rest, 0) != null <==> rest != []
    ensures rest != [] ==> Item(rest, 0) == rest[0] == (kept + rest)[|kept|]
    ensures rest != [] ==> Item(kept + rest, |kept| + 1) == Item(rest[1..], 0)
  {
  }

  /** The same for a backward traversal. */
  lemma CursorBack(rest: seq<Link>, kept: seq<Link>)
    ensures Item(rest, |rest| - 1) != null <==> rest != []
    ensures rest != [] ==> Item(rest, |rest| - 1) == rest[|rest| - 1] == (rest + kept)[|rest| - 1]
    ensures rest != [] ==> Item(rest + kept, |rest| - 2) == Item(rest[..|rest| - 1], |rest| - 2)
  {
  }

  /** Before the first visit of a traversal that removes what matches. */
  lemma Unvisited(s: seq<Link>, matches: Link -> bool)
    ensures Within(s, set x | x in s)
    ensures [] + s == s == s + []
    ensures [] + Without(s, matches) == Without(s, matches) == Without(s, matches) + []
  {
  }

  /** After its last visit. */
  lemma AllVisited(visited: seq<Link>, kept: seq<Link>, matches: Link -> bool)
    ensures visited + [] == visited && kept + [] == kept == [] + kept
    ensures kept + Without<Link>([], matches) == kept == Without<Link>([], matches) + kept
  {
  }

  lemma ReverseNone()
    ensures Reverse<Link>([]) == []
  {
  }

  /** One visit of a backward traversal. */
  lemma ReverseOn(visited: seq<Link>, rest: seq<Link>)
    requires rest != []
    ensures visited + Reverse(rest) == visited + [rest[|rest| - 1]] + Reverse(rest[..|rest| - 1])
  {
    var last, later := rest[|rest| - 1], Reverse(rest[..|rest| - 1]);
    Regroup(visited, [last], later);
  }

  lemma Regroup(a: seq<Link>, b: seq<Link>, c: seq<Link>)
    ensures a + (b + c) == a + b + c
  {
  }

  /** One visit of a forward traversal that removes what matches: `kept` has been passed, `rest`
      is still to come, and `now` becomes the list. */
  lemma PassForward(visited: seq<Link>, kept: seq<Link>, rest: seq<Link>, matches: Link -> bool, all: set<Link>)
      returns (kept': seq<Link>, now: seq<Link>)
    requires rest != [] && Within(kept + rest, all)
    ensures now == if matches(rest[0]) then RemoveAt(kept + rest, |kept|) else kept + rest
    ensures now == kept' + rest[1..] && Within(now, all)
    ensures visited + rest == visited + [rest[0]] + rest[1..]
    ensures kept' + Without(rest[1..], matches) == kept + Without(rest, matches)
  {
    hide Without;
    var x, tail, later := rest[0], rest[1..], Without(rest[1..], matches);
    assert [x] + tail == rest;
    WithoutFirst<Link>(x, tail, matches);
    kept' := if matches(x) then kept else kept + [x];
    now := kept' + tail;
    if matches(x) {
      assert now == RemoveAt(kept + rest, |kept|);
    } else {
      assert now == kept + rest;
      assert kept + [x] + later == kept + ([x] + later);
    }
  }

  /** The same going backwards. */
  lemma PassBackward(rest: seq<Link>, kept: seq<Link>, matches: Link -> bool, all: set<Link>)
      returns (kept': seq<Link>, now: seq<Link>)
    requires rest != [] && Within(rest + kept, all)
    ensures var left := |rest| - 1;
      && now == (if matches(rest[left]) then RemoveAt(rest + kept, left) else rest + kept)
      && now == rest[..left] + kept' && Within(now, all)
      && Without(rest[..left], matches) + kept' == Without(rest, matches) + kept
  {
    var left := |rest| - 1;
    kept' := (if matches(rest[left]) then [] else [rest[left]]) + kept;
    now := rest[..left] + kept';
  }

  /** FOREACH, for every kind of list: visits the elements in order, each once, and ends. */
  method ForEach(head: Link, ghost s: seq<Link>) returns (visited: seq<Link>)
    requires Chain(head, s)
    ensures visited == s
  {
    visited := [];
    var item := head.next;
    while item != null
      invariant |visited| <= |s| && visited == s[..|visited|]
      invariant item == Item(s, |visited|)
      decreases |s| - |visited|
    {
      visited := visited + [item];
      item := item.next;
    }
  }
}
