/** That the server can go on: what a handler does while it holds the mutex ends, everybody can be
    served, and main's scan reaps. */
module Progress {
  import opened Bytes
  import opened DeviceSpec
  import opened Server
  import Links
  import ThreadList
  import Replies

  // ---- A handler ----

  /** A step of thread `t` while it holds the mutex, other than a write of nothing. */
  ghost predicate OwnStep(e: Event, t: nat) {
    match e
    case DeviceWrite(u, n) => u == t && n > 0
    case Rewind(u) => u == t
    case Ioctl(u, _) => u == t
    case DeviceRead(u, _) => u == t
    case MarkDone(u) => u == t
    case Unlock(u) => u == t
    case _ => false
  }

  /** How far a phase is from the end. */
  function Stage(phase: Phase): nat {
    match phase
    case Waiting => 5
    case Writing(_) => 4
    case Seeking => 4
    case Reading(_) => 3
    case Sent => 2
    case Marked => 1
    case Ended => 0
  }

  /** How many bytes are left to write or to read in the phase. */
  function Left(phase: Phase, request: Request, chunks: seq<Bytes>): nat {
    match phase
    case Writing(done) => if request.Append? && done <= |request.packet| then |request.packet| - done else 0
    case Reading(pos) => if pos <= |Content(chunks)| then |Content(chunks)| - pos else 0
    case _ => 0
  }

  /** The second of two states is the first but for what thread `t` does alone. */
  ghost predicate OnlyThread(s: State, s': State, t: nat) {
    && s'.pc == s.pc && s'.first == s.first && s'.list == s.list && s'.joined == s.joined && s'.freed == s.freed
    && s'.requests == s.requests && s'.log == s.log && s'.nodes.Keys == s.nodes.Keys
    && (forall n :: n in s.nodes ==> s'.nodes[n].thread == s.nodes[n].thread)
    && |s'.tasks| == |s.tasks| && forall u :: 0 <= u < |s.tasks| && u != t ==> s'.tasks[u] == s.tasks[u]
  }

  /** The holder of the mutex has a request, and what it writes is a part of its packet. */
  lemma HolderIs(s: State, t: nat)
    requires Reachable(s) && s.lock == Some(t)
    ensures t < |s.tasks| == |s.requests| && Replies.Holding(s.tasks[t].phase) && s.tasks[t].node in s.nodes
    ensures s.tasks[t].phase.Writing? ==> s.requests[t].Append? && s.tasks[t].phase.done <= |s.requests[t].packet|
    ensures s.tasks[t].phase == Seeking ==> s.requests[t].Seek?
  {
    hide Reachable, Replies.StartsSound, Replies.HoldersSound;
    Replies.AlwaysReplyInv(s);
    ThreadList.NeverFaults(s);
    Replies.Holder(s, t);
  }

  /** A read that returns something leaves less to read. */
  lemma LessToRead(chunks: seq<Bytes>, pos: nat, count: nat)
    ensures var got := ReadAt(Live(chunks), pos, count);
      got != [] ==> pos + |got| <= |Content(chunks)|
  {
    ReadIsNext(Live(chunks), pos, count);
    hide ReadAt, Live, Concat;
  }

  /** Every step of the thread that holds the mutex either ends it, and gives the mutex back, or brings
      it nearer to that. */
  lemma HolderSteps(s: State, t: nat, e: Event)
    requires Reachable(s) && s.lock == Some(t) && OwnStep(e, t) && Enabled(s, e)
    ensures t < |s.tasks| && t < |s.requests|
    ensures var s' := Apply(s, e);
      && OnlyThread(s, s', t)
      && if s'.lock == Some(t) then
        var phase, phase' := s.tasks[t].phase, s'.tasks[t].phase;
        Stage(phase') < Stage(phase)
        || (Stage(phase') == Stage(phase) && Left(phase', s.requests[t], s'.chunks) < Left(phase, s.requests[t], s.chunks))
      else s'.lock == None && s'.tasks[t].phase == Ended
  {
    HolderIs(s, t);
    if e.DeviceRead? {
      LessToRead(s.chunks, s.tasks[t].phase.pos, e.count);
    }
    hide Reachable, ReadAt, Live, Content, SeekTarget;
  }

  /** It can always step. */
  lemma HolderCanStep(s: State, t: nat) returns (e: Event)
    requires Reachable(s) && s.lock == Some(t)
    ensures OwnStep(e, t) && Enabled(s, e)
  {
    HolderIs(s, t);
    hide Reachable;
    match s.tasks[t].phase
    case Writing(done) =>
      e := if done < |s.requests[t].packet| then DeviceWrite(t, |s.requests[t].packet| - done) else Rewind(t);
    case Seeking => e := Ioctl(t, 0);
    case Reading(_) => e := DeviceRead(t, 1);
    case Sent => e := MarkDone(t);
    case Marked => e := Unlock(t);
  }

  lemma RunFirst(s: State, e: Event, events: seq<Event>)
    requires Enabled(s, e)
    ensures Run(s, [e] + events) == Run(Apply(s, e), events)
  {
    assert ([e] + events)[1..] == events;
    hide Enabled, Apply;
  }

  /** So, from any state of any run, the thread that holds the mutex can serve its client to the end and
      give the mutex back, alone. */
  lemma {:induction false} HolderFinishes(s: State, t: nat) returns (events: seq<Event>, s': State)
    requires Reachable(s) && s.lock == Some(t)
    ensures forall e :: e in events ==> OwnStep(e, t)
    ensures Run(s, events) == Some(s') && Reachable(s')
    ensures OnlyThread(s, s', t) && s'.lock == None && t < |s'.tasks| && s'.tasks[t].phase == Ended
    decreases
      if t < |s.tasks| then Stage(s.tasks[t].phase) else 0,
      if t < |s.tasks| && t < |s.requests| then Left(s.tasks[t].phase, s.requests[t], s.chunks) else 0
  {
    hide Reachable, Enabled, Apply, OwnStep, Stage, Left;
    var e := HolderCanStep(s, t);
    HolderSteps(s, t, e);
    Reached(s, e);
    var next := Apply(s, e);
    var more: seq<Event> := [];
    s' := next;
    if next.lock == Some(t) {
      more, s' := HolderFinishes(next, t);
    }
    RunFirst(s, e, more);
    events := [e] + more;
  }

  // ---- Everybody ----

  function NotEnded(tasks: seq<Task>): nat {
    if tasks == [] then 0
    else NotEnded(tasks[..|tasks| - 1]) + if tasks[|tasks| - 1].phase == Ended then 0 else 1
  }

  lemma {:induction false} OneMoreEnded(tasks: seq<Task>, tasks': seq<Task>, t: nat)
    requires t < |tasks| == |tasks'| && tasks[t].phase != Ended && tasks'[t].phase == Ended
    requires forall u :: 0 <= u < |tasks| && u != t ==> tasks'[u] == tasks[u]
    ensures NotEnded(tasks') == NotEnded(tasks) - 1
  {
    var n := |tasks| - 1;
    if t < n {
      OneMoreEnded(tasks[..n], tasks'[..n], t);
    } else {
      assert tasks[..n] == tasks'[..n];
    }
  }

  /** A step of a handler. */
  predicate HandlerStep(e: Event) {
    !e.Malloc? && !e.Advance? && !e.Create?
  }

  /** While nobody holds the mutex a waiting thread can take it. */
  lemma CanTakeLock(s: State, t: nat) returns (s': State)
    requires Reachable(s) && s.lock == None && t < |s.tasks| && s.tasks[t].phase == Waiting
    ensures Enabled(s, TakeLock(t)) && s' == Apply(s, TakeLock(t)) && Reachable(s') && s'.lock == Some(t)
    ensures s'.pc == s.pc && s'.requests == s.requests && s.log <= s'.log && |s'.tasks| == |s.tasks|
    ensures s'.tasks[t].phase != Ended && forall u :: 0 <= u < |s.tasks| && u != t ==> s'.tasks[u] == s.tasks[u]
  {
    hide Reachable;
    ThreadList.NeverFaults(s);
    Reached(s, TakeLock(t));
    s' := Apply(s, TakeLock(t));
  }

  lemma FreeMeansWaiting(s: State)
    requires Reachable(s) && s.lock == None
    ensures forall t :: 0 <= t < |s.tasks| ==> s.tasks[t].phase == Waiting || s.tasks[t].phase == Ended
  {
    hide Reachable, Replies.StartsSound, Replies.HoldersSound, Replies.LogSound;
    Replies.AlwaysReplyInv(s);
  }

  lemma SameNotEnded(tasks: seq<Task>, tasks': seq<Task>, t: nat)
    requires t < |tasks| == |tasks'| && tasks[t].phase != Ended && tasks'[t].phase != Ended
    requires forall u :: 0 <= u < |tasks| && u != t ==> tasks'[u] == tasks[u]
    ensures NotEnded(tasks') == NotEnded(tasks)
  {
    var ended := tasks[t].(phase := Ended);
    OneMoreEnded(tasks, tasks[t := ended], t);
    OneMoreEnded(tasks', tasks[t := ended], t);
  }

  /** From any state of any run, handlers alone can serve every client that is connected to the end. */
  lemma {:induction false} EveryoneCanFinish(s: State) returns (events: seq<Event>, s': State)
    requires Reachable(s)
    ensures forall e :: e in events ==> HandlerStep(e)
    ensures Run(s, events) == Some(s') && Reachable(s')
    ensures s'.lock == None && forall t :: 0 <= t < |s'.tasks| ==> s'.tasks[t].phase == Ended
    ensures |s'.tasks| == |s.tasks| && s'.requests == s.requests && s'.pc == s.pc && s.log <= s'.log
    decreases NotEnded(s.tasks), s.lock == None
  {
    hide Reachable, Enabled, Apply, NotEnded;
    if s.lock.Some? {
      var t := s.lock.value;
      HolderIs(s, t);
      var first, next := HolderFinishes(s, t);
      OneMoreEnded(s.tasks, next.tasks, t);
      var more;
      more, s' := EveryoneCanFinish(next);
      RunOn(s, first, more);
      events := first + more;
    } else if t :| 0 <= t < |s.tasks| && s.tasks[t].phase != Ended {
      FreeMeansWaiting(s);
      var next := CanTakeLock(s, t);
      SameNotEnded(s.tasks, next.tasks, t);
      var more;
      more, s' := EveryoneCanFinish(next);
      RunFirst(s, TakeLock(t), more);
      events := [TakeLock(t)] + more;
    } else {
      events, s' := [], s;
    }
  }

  // ---- Main ----

  /** Main moves alone, `n` times. */
  function Moves(n: nat): seq<Event> {
    seq(n, _ => Advance)
  }

  lemma MovesOn(s: State, n: nat, s': State, m: nat)
    requires Run(s, Moves(n)) == Some(s')
    ensures Run(s, Moves(n + m)) == Run(s', Moves(m))
  {
    RunOn(s, Moves(n), Moves(m));
    assert Moves(n) + Moves(m) == Moves(n + m);
  }

  lemma OneMove(s: State)
    requires Enabled(s, Advance)
    ensures Run(s, Moves(1)) == Some(MainMove(s))
  {
    assert Moves(1) == [Advance] + [];
    RunFirst(s, Advance, []);
    hide Enabled, MainMove;
  }

  predicate MarkedAt(s: State, i: nat) {
    i < |s.list| && s.list[i] in s.nodes && s.nodes[s.list[i]].isDone
  }

  /** The first marked node in the list is at place `k`. */
  ghost predicate FirstMarked(s: State, k: nat) {
    MarkedAt(s, k) && forall i :: 0 <= i < k ==> !MarkedAt(s, i)
  }

  /** The scan passes a node that is not marked, and stops at one that is. */
  lemma ScanMove(s: State, i: nat)
    requires Reachable(s) && s.pc == Scanning(ThreadList.Item(s.list, i)) && i <= |s.list|
    ensures Run(s, Moves(1)) == Some(s.(pc :=
      if i == |s.list| then Accepting
      else if MarkedAt(s, i) then Joining(s.list[i])
      else Scanning(ThreadList.Item(s.list, i + 1))))
    ensures Reachable(MainMove(s))
  {
    hide Reachable, ThreadList.ListInv;
    ThreadList.AlwaysListInv(s);
    if i < |s.list| {
      ThreadList.Listed(s, i);
    }
    OneMove(s);
    Reached(s, Advance);
  }

  lemma {:induction false} ScanFrom(s: State, i: nat, k: nat)
    requires Reachable(s) && s.pc == Scanning(ThreadList.Item(s.list, i)) && i <= k && FirstMarked(s, k)
    ensures Run(s, Moves(k - i + 1)) == Some(s.(pc := Joining(s.list[k])))
    decreases k - i
  {
    hide Reachable, MainMove, Run, Moves;
    ScanMove(s, i);
    if i < k {
      var next := s.(pc := Scanning(ThreadList.Item(s.list, i + 1)));
      StaysReachable(s, next);
      assert forall j :: MarkedAt(next, j) == MarkedAt(s, j);
      ScanFrom(next, i + 1, k);
      MovesOn(s, 1, next, k - i);
    }
  }

  lemma StaysReachable(s: State, s': State)
    requires Reachable(s) && Run(s, Moves(1)) == Some(s')
    ensures Reachable(s')
  {
    hide Reachable, Run;
    RunReaches(s, Moves(1));
  }

  /** When the list has a marked node, main's scan stops at the first of them. */
  lemma ScanFinds(s: State, k: nat)
    requires Reachable(s) && s.pc == Scanning(s.first) && FirstMarked(s, k)
    ensures Run(s, Moves(k + 1)) == Some(s.(pc := Joining(s.list[k])))
  {
    hide Reachable, Run, Moves;
    ThreadList.AlwaysListInv(s);
    ScanFrom(s, 0, k);
  }

  lemma {:induction false} PassFrom(s: State, i: nat)
    requires Reachable(s) && s.pc == Scanning(ThreadList.Item(s.list, i)) && i <= |s.list|
    requires forall j :: 0 <= j < |s.list| ==> !MarkedAt(s, j)
    ensures Run(s, Moves(|s.list| - i + 1)) == Some(s.(pc := Accepting))
    decreases |s.list| - i
  {
    hide Reachable, MainMove, Run, Moves;
    ScanMove(s, i);
    if i < |s.list| {
      var next := s.(pc := Scanning(ThreadList.Item(s.list, i + 1)));
      StaysReachable(s, next);
      assert forall j :: MarkedAt(next, j) == MarkedAt(s, j);
      PassFrom(next, i + 1);
      MovesOn(s, 1, next, |s.list| - i);
    }
  }

  /** When it has none, the scan goes through the list and back to accept, and changes nothing. */
  lemma ScanPasses(s: State)
    requires Reachable(s) && s.pc == Scanning(s.first)
    requires forall j :: 0 <= j < |s.list| ==> !MarkedAt(s, j)
    ensures Run(s, Moves(|s.list| + 1)) == Some(s.(pc := Accepting))
  {
    hide Reachable, Run, Moves;
    ThreadList.AlwaysListInv(s);
    PassFrom(s, 0);
  }

  // ---- Reaping ----

  lemma ListedNodes(s: State, k: nat)
    requires Reachable(s) && k < |s.list|
    ensures s.list[k] in s.nodes && s.nodes[s.list[k]].next == ThreadList.Item(s.list, k + 1)
    ensures forall i :: 0 <= i < |s.list| && i != k ==> s.list[i] != s.list[k]
  {
    hide Reachable, ThreadList.ListInv;
    ThreadList.AlwaysListInv(s);
    ThreadList.Listed(s, k);
    ThreadList.Distinct(s);
  }

  /** A turn of the removal walk. */
  lemma WalkMove(s: State, j: nat, k: nat)
    requires Reachable(s) && j < k < |s.list| && s.pc == Walking(s.list[j], s.list[k], j)
    ensures Run(s, Moves(1)) == Some(
      if j + 1 == k then Unlink(s, Some(s.list[j]), s.list[k]) else s.(pc := Walking(s.list[j + 1], s.list[k], j + 1)))
  {
    hide Reachable, Unlink, Run, Moves;
    ListedNodes(s, j);
    ListedNodes(s, k);
    OneMove(s);
  }

  lemma {:induction false} WalkFrom(s: State, j: nat, k: nat)
    requires Reachable(s) && j < k < |s.list| && s.pc == Walking(s.list[j], s.list[k], j)
    ensures Run(s, Moves(k - j)) == Some(Unlink(s, Some(s.list[k - 1]), s.list[k]))
    decreases k - j
  {
    hide Reachable, Run, Moves, Unlink;
    WalkMove(s, j, k);
    ListedNodes(s, k);
    ListedNodes(s, k - 1);
    if j + 1 < k {
      var next := s.(pc := Walking(s.list[j + 1], s.list[k], j + 1));
      StaysReachable(s, next);
      WalkFrom(next, j + 1, k);
      UnlinkAnywhere(s, next, Some(s.list[k - 1]), s.list[k]);
      MovesOn(s, 1, next, k - j - 1);
    }
  }

  lemma UnlinkAnywhere(s: State, s': State, before: Option<nat>, n: nat)
    requires s' == s.(pc := s'.pc) && n in s.nodes && (before.Some? ==> before.value in s.nodes)
    ensures Unlink(s', before, n) == Unlink(s, before, n)
  {
    hide Drop;
  }

  /** SLIST_REMOVE finds the node and unlinks it. */
  lemma Removes(s: State, k: nat)
    requires Reachable(s) && k < |s.list| && s.pc == Removing(s.list[k])
    ensures Run(s, Moves(k + 1)) == Some(Unlink(s, if k == 0 then None else Some(s.list[k - 1]), s.list[k]))
  {
    hide Reachable, Run, Moves, Unlink, ThreadList.ListInv;
    ThreadList.AlwaysListInv(s);
    ThreadList.Listed(s, k);
    ListedNodes(s, k);
    OneMove(s);
    if k > 0 {
      ListedNodes(s, k - 1);
      var next := s.(pc := Walking(s.list[0], s.list[k], 0));
      StaysReachable(s, next);
      WalkFrom(next, 0, k);
      UnlinkAnywhere(s, next, Some(s.list[k - 1]), s.list[k]);
      MovesOn(s, 1, next, k);
    }
  }

  /** Two states that differ in main's list and memory only. */
  ghost predicate OnlyMain(s: State, s': State) {
    && s'.tasks == s.tasks && s'.requests == s.requests && s'.lock == s.lock && s'.chunks == s.chunks
    && s'.log == s.log && s'.starts == s.starts
  }

  lemma Unlinks(s: State, k: nat)
    requires Reachable(s) && k < |s.list|
    ensures var s' := Unlink(s, if k == 0 then None else Some(s.list[k - 1]), s.list[k]);
      && OnlyMain(s, s') && s'.pc == Freeing(s.list[k]) && s'.list == Links.RemoveAt(s.list, k)
      && s'.nodes.Keys == s.nodes.Keys && s'.joined == s.joined && s'.freed == s.freed
      && forall n :: n in s.nodes ==> s'.nodes[n].thread == s.nodes[n].thread && s'.nodes[n].isDone == s.nodes[n].isDone
  {
    hide Reachable, Links.RemoveAt, Drop;
    ListedNodes(s, k);
    if k > 0 {
      ListedNodes(s, k - 1);
    }
    ThreadList.DropRemoves(s.list, k);
  }

  /** Once the thread of the node the scan stopped at has ended, main joins it, takes its node out of
      the list, frees it, and is back at accept. */
  lemma Reaps(s: State, k: nat, t: nat) returns (s': State)
    requires Reachable(s) && k < |s.list| && s.pc == Joining(s.list[k])
    requires ThreadList.Thread(s.nodes, s.list[k]) == Some(t) && t < |s.tasks| && s.tasks[t].phase == Ended
    ensures Run(s, Moves(k + 3)) == Some(s') && s'.pc == Accepting && OnlyMain(s, s')
    ensures s'.joined == s.joined + [t] && s'.freed == s.freed + [t] && s'.list == Links.RemoveAt(s.list, k)
    ensures s'.nodes.Keys == s.nodes.Keys - {s.list[k]}
    ensures forall n :: n in s'.nodes ==> s'.nodes[n].thread == s.nodes[n].thread && s'.nodes[n].isDone == s.nodes[n].isDone
  {
    hide Reachable, Run, Moves, Unlink, Links.RemoveAt;
    ListedNodes(s, k);
    OneMove(s);
    var joining := MainMove(s);
    StaysReachable(s, joining);
    Removes(joining, k);
    Unlinks(joining, k);
    var unlinked := Unlink(joining, if k == 0 then None else Some(s.list[k - 1]), s.list[k]);
    MovesOn(s, 1, joining, k + 1);
    OneMove(unlinked);
    MovesOn(s, k + 2, unlinked, 1);
    s' := MainMove(unlinked);
  }

  // ---- One connection ----

  /** A node at place `k` of the list, marked, belongs to a thread that has ended or is about to. */
  lemma MarkedThread(s: State, k: nat) returns (t: nat)
    requires Reachable(s) && MarkedAt(s, k) && s.pc == Joining(s.list[k])
    ensures ThreadList.Thread(s.nodes, s.list[k]) == Some(t) && t < |s.tasks|
    ensures s.tasks[t].phase == Ended || s.lock == Some(t)
  {
    hide Reachable, ThreadList.Linked, ThreadList.MemoryExact, ThreadList.Tracked, ThreadList.FreedInStep,
      ThreadList.NewestFirst, ThreadList.JoinedEnded, Replies.StartsSound, Replies.HoldersSound, Replies.LogSound;
    ThreadList.AlwaysListInv(s);
    ThreadList.Listed(s, k);
    t := s.nodes[s.list[k]].thread.value;
    assert ThreadList.Thread(s.nodes, s.list[k]) == Some(t);
    Replies.AlwaysReplyInv(s);
  }

  /** A scan from the head of the list: it reaps the first marked node and no other, once that node's
      thread has let go of the mutex; without a marked node it reaps nothing. */
  lemma OneScan(s: State) returns (events: seq<Event>, s': State)
    requires Reachable(s) && s.pc == Scanning(s.first)
    ensures Run(s, events) == Some(s') && s'.pc == Accepting
    ensures |s'.tasks| == |s.tasks| && s'.requests == s.requests && s'.log == s.log
    ensures forall k: nat :: FirstMarked(s, k) ==>
      && s'.list == Links.RemoveAt(s.list, k) && s'.nodes.Keys == s.nodes.Keys - {s.list[k]}
      && ThreadList.Thread(s.nodes, s.list[k]).Some?
      && s'.joined == s.joined + [ThreadList.Thread(s.nodes, s.list[k]).value]
      && s'.freed == s.freed + [ThreadList.Thread(s.nodes, s.list[k]).value]
    ensures (forall j :: 0 <= j < |s.list| ==> !MarkedAt(s, j)) ==> s' == s.(pc := Accepting)
  {
    hide Reachable, Run, Moves, Links.RemoveAt;
    if j :| MarkedAt(s, j) {
      var k := First(s, j);
      events, s' := ScanAndReap(s, k);
      forall i: nat | FirstMarked(s, i)
        ensures i == k
      {
        FirstIsOne(s, i, k);
      }
    } else {
      ScanPasses(s);
      events, s' := Moves(|s.list| + 1), s.(pc := Accepting);
    }
  }

  lemma FirstIsOne(s: State, i: nat, k: nat)
    requires FirstMarked(s, i) && FirstMarked(s, k)
    ensures i == k
  {
    assert i < k ==> !MarkedAt(s, i);
    assert k < i ==> !MarkedAt(s, k);
  }

  lemma First(s: State, j: nat) returns (k: nat)
    requires MarkedAt(s, j)
    ensures FirstMarked(s, k)
  {
    k := 0;
    while !MarkedAt(s, k)
      invariant k <= j && forall i :: 0 <= i < k ==> !MarkedAt(s, i)
      decreases j - k
    {
      k := k + 1;
    }
  }

  lemma ScanAndReap(s: State, k: nat) returns (events: seq<Event>, s': State)
    requires Reachable(s) && s.pc == Scanning(s.first) && FirstMarked(s, k)
    ensures Run(s, events) == Some(s') && s'.pc == Accepting
    ensures |s'.tasks| == |s.tasks| && s'.requests == s.requests && s'.log == s.log
    ensures s'.list == Links.RemoveAt(s.list, k) && s'.nodes.Keys == s.nodes.Keys - {s.list[k]}
    ensures ThreadList.Thread(s.nodes, s.list[k]).Some?
    ensures s'.joined == s.joined + [ThreadList.Thread(s.nodes, s.list[k]).value]
    ensures s'.freed == s.freed + [ThreadList.Thread(s.nodes, s.list[k]).value]
  {
    hide Reachable, Run, Moves, Links.RemoveAt, OwnStep;
    ScanFinds(s, k);
    var joining := s.(pc := Joining(s.list[k]));
    RunReaches(s, Moves(k + 1));
    var t := MarkedThread(joining, k);
    var ended, finish: seq<Event> := joining, [];
    RunNothing(joining);
    if joining.tasks[t].phase != Ended {
      finish, ended := HolderFinishes(joining, t);
      ListedNodes(s, k);
    }
    s' := Reaps(ended, k, t);
    RunOn(s, Moves(k + 1), finish);
    RunOn(s, Moves(k + 1) + finish, Moves(k + 3));
    events := Moves(k + 1) + finish + Moves(k + 3);
  }

  lemma RunNothing(s: State)
    ensures Run(s, []) == Some(s)
  {
  }

  /** Main at accept takes a connection: the new node comes first in the list, unmarked, its handler waits
      for the mutex, and the scan is about to begin. */
  lemma Accepts(s: State, n: nat, junk: Node, request: Request) returns (s': State)
    requires Reachable(s) && s.pc == Accepting && n !in s.nodes && junk.thread == None
    ensures Run(s, [Malloc(n, junk), Advance, Advance, Create(request)]) == Some(s') && Reachable(s')
    ensures s'.pc == Scanning(s'.first) && s'.list == [n] + s.list && s'.nodes.Keys == s.nodes.Keys + {n}
    ensures s'.tasks == s.tasks + [Task(n, Waiting, [])] && s'.requests == s.requests + [request]
    ensures s'.log == s.log && s'.joined == s.joined && s'.freed == s.freed
    ensures s'.nodes[n].thread == Some(|s.tasks|) && !s'.nodes[n].isDone
    ensures forall m :: m in s.nodes ==>
      m != n && s'.nodes[m].thread == s.nodes[m].thread && s'.nodes[m].isDone == s.nodes[m].isDone
  {
    hide Reachable;
    var s1 := Apply(s, Malloc(n, junk));
    var s2, s3 := MainMove(s1), MainMove(MainMove(s1));
    s' := Apply(s3, Create(request));
    Reached(s, Malloc(n, junk));
    Reached(s1, Advance);
    Reached(s2, Advance);
    Reached(s3, Create(request));
    RunNothing(s');
    RunFirst(s3, Create(request), []);
    RunFirst(s2, Advance, [Create(request)]);
    RunFirst(s1, Advance, [Advance, Create(request)]);
    RunFirst(s, Malloc(n, junk), [Advance, Advance, Create(request)]);
    assert [Malloc(n, junk)] + [Advance, Advance, Create(request)] == [Malloc(n, junk), Advance, Advance, Create(request)];
    assert [Advance] + [Advance, Create(request)] == [Advance, Advance, Create(request)];
    assert [Advance] + [Create(request)] == [Advance, Create(request)];
    assert [Create(request)] + [] == [Create(request)];
  }

  lemma MarksShifted(s: State, s': State, n: nat)
    requires s'.list == [n] + s.list && n in s'.nodes && !s'.nodes[n].isDone
    requires forall i :: 0 <= i < |s.list| ==> s.list[i] in s.nodes
    requires forall m :: m in s.nodes ==> m in s'.nodes && s'.nodes[m].isDone == s.nodes[m].isDone
    ensures forall j {:trigger MarkedAt(s', j)} :: 0 <= j < |s'.list| ==> MarkedAt(s', j) == (j > 0 && MarkedAt(s, j - 1))
  {
  }

  lemma FirstShifted(s: State, s': State, n: nat, k: nat)
    requires s'.list == [n] + s.list && FirstMarked(s, k)
    requires forall j {:trigger MarkedAt(s', j)} :: 0 <= j < |s'.list| ==> MarkedAt(s', j) == (j > 0 && MarkedAt(s, j - 1))
    ensures FirstMarked(s', k + 1)
    ensures s'.list[k + 1] == s.list[k] && Links.RemoveAt(s'.list, k + 1) == [n] + Links.RemoveAt(s.list, k)
  {
    assert s'.list[..k + 1] == [n] + s.list[..k];
    assert s'.list[k + 2..] == s.list[k + 1..];
  }

  /** From accept to accept: whenever a connection comes, main can list it, start its handler, and reap
      the first node in the list that is marked, if there is one, and it reaps no other. */
  lemma OneConnection(s: State, n: nat, junk: Node, request: Request) returns (events: seq<Event>, s': State)
    requires Reachable(s) && s.pc == Accepting && n !in s.nodes && junk.thread == None
    ensures Run(s, events) == Some(s') && s'.pc == Accepting
    ensures |s'.tasks| == |s.tasks| + 1 && s'.requests == s.requests + [request]
    ensures forall k: nat :: FirstMarked(s, k) ==>
      && s'.list == [n] + Links.RemoveAt(s.list, k)
      && ThreadList.Thread(s.nodes, s.list[k]).Some?
      && s'.joined == s.joined + [ThreadList.Thread(s.nodes, s.list[k]).value]
      && s'.freed == s.freed + [ThreadList.Thread(s.nodes, s.list[k]).value]
    ensures (forall j :: 0 <= j < |s.list| ==> !MarkedAt(s, j)) ==>
      s'.list == [n] + s.list && s'.joined == s.joined && s'.freed == s.freed
  {
    hide Reachable, Run;
    var begun := Accepts(s, n, junk, request);
    var scan: seq<Event>;
    scan, s' := OneScan(begun);
    var start := [Malloc(n, junk), Advance, Advance, Create(request)];
    RunOn(s, start, scan);
    events := start + scan;
    forall j | 0 <= j < |s.list|
      ensures s.list[j] in s.nodes
    {
      ListedNodes(s, j);
    }
    MarksShifted(s, begun, n);
    forall k: nat | FirstMarked(s, k)
      ensures FirstMarked(begun, k + 1) && Links.RemoveAt(begun.list, k + 1) == [n] + Links.RemoveAt(s.list, k)
      ensures ThreadList.Thread(begun.nodes, begun.list[k + 1]) == ThreadList.Thread(s.nodes, s.list[k])
    {
      FirstShifted(s, begun, n, k);
    }
  }
}
