/** Safety of the connection list in every run of the server. */
module ThreadList {
  import opened Bytes
  import opened DeviceSpec
  import opened Server
  import Links

  type Nodes = map<nat, Node>

  function Item(list: seq<nat>, i: int): Option<nat> {
    if 0 <= i < |list| then Some(list[i]) else None
  }

  function Thread(nodes: Nodes, n: nat): Option<nat> {
    if n in nodes then nodes[n].thread else None
  }

  /** The node that is allocated but not in the list. */
  function Outside(pc: Pc): Option<nat> {
    match pc
    case Inserting(n) => Some(n)
    case Freeing(n) => Some(n)
    case _ => None
  }

  /** The node that is in the list but has no thread yet. */
  function Unstarted(pc: Pc): Option<nat> {
    match pc
    case Initializing(n) => Some(n)
    case Creating(n) => Some(n)
    case _ => None
  }

  /** The node that has no thread yet, in the list or not. */
  function Threadless(pc: Pc): Option<nat> {
    match pc
    case Inserting(n) => Some(n)
    case Initializing(n) => Some(n)
    case Creating(n) => Some(n)
    case _ => None
  }

  /** The node whose thread has been joined but which has not been freed. */
  function Doomed(pc: Pc): Option<nat> {
    match pc
    case Removing(n) => Some(n)
    case Walking(_, n, _) => Some(n)
    case Freeing(n) => Some(n)
    case _ => None
  }

  function Next(nodes: Nodes, n: nat): Option<nat> {
    if n in nodes then nodes[n].next else None
  }

  /** Following the links from `first` meets the nodes of `list`, in order and each once. */
  ghost predicate Linked(nodes: Nodes, first: Option<nat>, list: seq<nat>) {
    && first == Item(list, 0)
    && (forall i {:trigger Next(nodes, list[i])} :: 0 <= i < |list| ==> Next(nodes, list[i]) == Item(list, i + 1))
    && (forall i, j :: 0 <= i < j < |list| ==> list[i] != list[j])
  }

  /** Exactly the listed nodes, and perhaps one outside, are allocated. */
  ghost predicate MemoryExact(nodes: Nodes, list: seq<nat>, outside: Option<nat>, unstarted: Option<nat>) {
    && (forall n :: n in nodes <==> n in list || outside == Some(n))
    && (outside.Some? ==> outside.value !in list)
    && (unstarted.Some? ==> list != [] && list[0] == unstarted.value)
  }

  /** A node with a thread belongs to that thread, and is marked exactly when the thread is through. */
  ghost predicate NodesOwned(nodes: Nodes, tasks: seq<Task>, threadless: Option<nat>) {
    forall n :: n in nodes ==>
      match Thread(nodes, n)
      case None => threadless == Some(n)
      case Some(t) =>
        && threadless != Some(n) && t < |tasks| && tasks[t].node == n
        && (nodes[n].isDone <==> tasks[t].phase == Marked || tasks[t].phase == Ended)
  }

  /** A thread keeps its node until it has been joined, and then the node is on its way out. */
  ghost predicate Tracked(nodes: Nodes, tasks: seq<Task>, list: seq<nat>, joined: seq<nat>, doomed: Option<nat>) {
    && (forall t :: 0 <= t < |tasks| && t !in joined ==>
      tasks[t].node in list && Thread(nodes, tasks[t].node) == Some(t))
    && (forall n :: n in nodes && Thread(nodes, n).Some? && Thread(nodes, n).value in joined ==> doomed == Some(n))
  }

  /** Threads are joined once, and only after they ended. */
  ghost predicate JoinedEnded(tasks: seq<Task>, joined: seq<nat>) {
    && (forall t :: t in joined ==> t < |tasks| && tasks[t].phase == Ended)
    && (forall i, j :: 0 <= i < j < |joined| ==> joined[i] != joined[j])
  }

  /** Everything joined has been freed, but for the node on its way there. */
  ghost predicate FreedInStep(nodes: Nodes, joined: seq<nat>, freed: seq<nat>, doomed: Option<nat>) {
    match doomed
    case None => freed == joined
    case Some(n) => Thread(nodes, n).Some? && joined == freed + [Thread(nodes, n).value]
  }

  ghost predicate Newer(a: Option<nat>, b: Option<nat>) {
    a.Some? && b.Some? ==> a.value > b.value
  }

  /** Along the list, threads get older. */
  ghost predicate NewestFirst(nodes: Nodes, list: seq<nat>) {
    forall i, j :: 0 <= i < j < |list| ==> Newer(Thread(nodes, list[i]), Thread(nodes, list[j]))
  }

  /** Main's cursor points into the list, and the walk has its node still ahead. */
  ghost predicate CursorValid(nodes: Nodes, list: seq<nat>, pc: Pc) {
    match pc
    case Creating(n) => n in nodes && !nodes[n].isDone
    case Scanning(Some(n)) => n in list
    case Joining(n) => n in list && n in nodes && nodes[n].isDone
    case Removing(n) => n in list
    case Walking(elm, n, steps) => steps < |list| && list[steps] == elm && n in list[steps + 1..]
    case Fault => false
    case _ => true
  }

  /** What the invariant says besides the links and main's cursor. */
  ghost predicate Owned(nodes: Nodes, s: State, list: seq<nat>, tasks: seq<Task>, pc: Pc) {
    && MemoryExact(nodes, list, Outside(pc), Unstarted(pc))
    && NodesOwned(nodes, tasks, Threadless(pc))
    && Tracked(nodes, tasks, list, s.joined, Doomed(pc))
    && FreedInStep(nodes, s.joined, s.freed, Doomed(pc))
    && NewestFirst(nodes, list)
  }

  ghost predicate ListInv(s: State) {
    && Linked(s.nodes, s.first, s.list)
    && Owned(s.nodes, s, s.list, s.tasks, s.pc)
    && JoinedEnded(s.tasks, s.joined)
    && CursorValid(s.nodes, s.list, s.pc)
  }

  // ---- The links, one operation at a time ----

  lemma LinkedFramed(nodes: Nodes, nodes': Nodes, first: Option<nat>, list: seq<nat>)
    requires Linked(nodes, first, list)
    requires forall n :: n in list ==> Next(nodes', n) == Next(nodes, n)
    ensures Linked(nodes', first, list)
  {
  }

  lemma LinkedPush(nodes: Nodes, first: Option<nat>, list: seq<nat>, n: nat)
    requires Linked(nodes, first, list) && n in nodes && n !in list
    ensures Linked(nodes[n := nodes[n].(next := first)], Some(n), [n] + list)
  {
    var nodes', list' := nodes[n := nodes[n].(next := first)], [n] + list;
    forall i | 0 <= i < |list'|
      ensures Next(nodes', list'[i]) == Item(list', i + 1)
    {
      if i > 0 {
        assert list'[i] == list[i - 1] && Next(nodes, list[i - 1]) == Item(list, i);
      }
    }
  }

  lemma {:induction false} DropRemoves(list: seq<nat>, k: nat)
    requires k < |list| && forall i :: 0 <= i < k ==> list[i] != list[k]
    ensures Drop(list, list[k]) == Links.RemoveAt(list, k)
  {
    if k > 0 {
      DropRemoves(list[1..], k - 1);
    }
  }

  lemma InRemoved(list: seq<nat>, k: nat)
    requires k < |list| && forall i, j :: 0 <= i < j < |list| ==> list[i] != list[j]
    ensures forall m :: m in Links.RemoveAt(list, k) <==> m in list && m != list[k]
  {
    forall m | m in list && m != list[k]
      ensures m in Links.RemoveAt(list, k)
    {
      var i :| 0 <= i < |list| && list[i] == m;
      assert Links.RemoveAt(list, k)[if i < k then i else i - 1] == m;
    }
  }

  /** Taking node `k` out: the head, or the node before it, now points past it. */
  lemma LinkedUnlink(nodes: Nodes, nodes': Nodes, first: Option<nat>, first': Option<nat>, list: seq<nat>, k: nat)
    requires Linked(nodes, first, list) && k < |list|
    requires first' == if k == 0 then Next(nodes, list[0]) else first
    requires forall n :: n in list ==>
      Next(nodes', n) == if k > 0 && n == list[k - 1] then Next(nodes, list[k]) else Next(nodes, n)
    ensures Linked(nodes', first', Links.RemoveAt(list, k))
  {
    var list' := Links.RemoveAt(list, k);
    assert Next(nodes, list[k]) == Item(list, k + 1);
    forall i | 0 <= i < |list'|
      ensures Next(nodes', list'[i]) == Item(list', i + 1)
    {
      var j := if i < k then i else i + 1;
      assert list'[i] == list[j] && Next(nodes, list[j]) == Item(list, j + 1);
    }
  }

  // ---- Memory, threads and list, one operation at a time ----

  lemma NodeAdded(s: State, n: nat, junk: Node)
    requires Owned(s.nodes, s, s.list, s.tasks, Accepting) && n !in s.nodes && junk.thread == None
    ensures Owned(s.nodes[n := junk], s, s.list, s.tasks, Inserting(n))
  {
    var nodes' := s.nodes[n := junk];
    assert forall m :: Thread(nodes', m) == Thread(s.nodes, m);
  }

  /** Two memories in which the same nodes belong to the same threads. */
  ghost predicate SameThreads(nodes: Nodes, nodes': Nodes) {
    && nodes.Keys == nodes'.Keys
    && (forall n :: n in nodes ==>
      nodes'[n].thread == nodes[n].thread && (nodes[n].thread.Some? ==> nodes'[n].isDone == nodes[n].isDone))
  }

  lemma SameThreadsKeep(nodes: Nodes, nodes': Nodes, s: State, list: seq<nat>, pc: Pc)
    requires SameThreads(nodes, nodes') && Owned(nodes, s, list, s.tasks, pc)
    ensures Owned(nodes', s, list, s.tasks, pc)
  {
    assert forall n :: Thread(nodes', n) == Thread(nodes, n) && (n in nodes' <==> n in nodes);
  }

  /** Listing a node that has no thread. */
  lemma NodeListed(s: State, n: nat)
    requires Owned(s.nodes, s, s.list, s.tasks, Inserting(n))
    ensures Owned(s.nodes, s, [n] + s.list, s.tasks, Initializing(n))
  {
    var list := [n] + s.list;
    assert forall m :: m in list <==> m == n || m in s.list;
    assert Thread(s.nodes, n) == None;
    forall i, j | 0 <= i < j < |list|
      ensures Newer(Thread(s.nodes, list[i]), Thread(s.nodes, list[j]))
    {
      if i > 0 {
        assert list[i] == s.list[i - 1] && list[j] == s.list[j - 1];
      }
    }
  }

  lemma NewestRemoved(nodes: Nodes, list: seq<nat>, k: nat)
    requires k < |list| && NewestFirst(nodes, list)
    ensures NewestFirst(nodes, Links.RemoveAt(list, k))
  {
    var list' := Links.RemoveAt(list, k);
    forall i, j | 0 <= i < j < |list'|
      ensures Newer(Thread(nodes, list'[i]), Thread(nodes, list'[j]))
    {
      var i', j' := if i < k then i else i + 1, if j < k then j else j + 1;
      assert list'[i] == list[i'] && list'[j] == list[j'];
    }
  }

  /** Unlisting the node of a joined thread. */
  lemma NodeUnlisted(s: State, k: nat, pc: Pc)
    requires k < |s.list| && forall i, j :: 0 <= i < j < |s.list| ==> s.list[i] != s.list[j]
    requires Doomed(pc) == Some(s.list[k]) && Outside(pc) == None
    requires Owned(s.nodes, s, s.list, s.tasks, pc)
    ensures Owned(s.nodes, s, Links.RemoveAt(s.list, k), s.tasks, Freeing(s.list[k]))
  {
    InRemoved(s.list, k);
    NewestRemoved(s.nodes, s.list, k);
    assert Thread(s.nodes, s.list[k]).value in s.joined;
    hide Newer, NewestFirst, Links.RemoveAt;
  }

  /** Freeing the node that was unlisted. */
  lemma NodeFreed(s: State, n: nat)
    requires Owned(s.nodes, s, s.list, s.tasks, Freeing(n))
    ensures Thread(s.nodes, n).Some?
    ensures Owned(s.nodes - {n}, s.(freed := s.joined), s.list, s.tasks, Accepting)
  {
    var nodes' := s.nodes - {n};
    assert forall m :: m != n ==> Thread(nodes', m) == Thread(s.nodes, m);
    assert forall m :: m in nodes' <==> m in s.nodes && m != n;
  }

  /** Joining the thread of a listed node that is marked. */
  lemma ThreadJoined(s: State, n: nat, t: nat)
    requires Owned(s.nodes, s, s.list, s.tasks, Joining(n)) && n in s.nodes && Thread(s.nodes, n) == Some(t)
    ensures t !in s.joined
    ensures Owned(s.nodes, s.(joined := s.joined + [t]), s.list, s.tasks, Removing(n))
  {
    var joined := s.joined + [t];
    assert forall u :: u in joined <==> u in s.joined || u == t;
  }

  lemma NewestStarted(nodes: Nodes, list: seq<nat>, n: nat, t: nat)
    requires NewestFirst(nodes, list) && list != [] && list[0] == n && n in nodes
    requires forall i :: 0 < i < |list| ==> list[i] != n
    requires forall m :: m in nodes && Thread(nodes, m).Some? ==> Thread(nodes, m).value < t
    ensures NewestFirst(nodes[n := nodes[n].(thread := Some(t))], list)
  {
    var nodes' := nodes[n := nodes[n].(thread := Some(t))];
    forall i, j | 0 <= i < j < |list|
      ensures Newer(Thread(nodes', list[i]), Thread(nodes', list[j]))
    {
      assert Newer(Thread(nodes, list[i]), Thread(nodes, list[j]));
    }
  }

  lemma JoinedGrown(tasks: seq<Task>, joined: seq<nat>, task: Task)
    requires JoinedEnded(tasks, joined)
    ensures JoinedEnded(tasks + [task], joined) && |tasks| !in joined
  {
  }

  lemma NodesOwnedStarted(nodes: Nodes, tasks: seq<Task>, n: nat, task: Task)
    requires NodesOwned(nodes, tasks, Some(n)) && n in nodes && !nodes[n].isDone
    requires task.node == n && task.phase == Waiting
    ensures NodesOwned(nodes[n := nodes[n].(thread := Some(|tasks|))], tasks + [task], None)
  {
    var nodes' := nodes[n := nodes[n].(thread := Some(|tasks|))];
    assert forall m :: m != n ==> Thread(nodes', m) == Thread(nodes, m);
  }

  lemma TrackedStarted(nodes: Nodes, s: State, n: nat, task: Task)
    requires Tracked(nodes, s.tasks, s.list, s.joined, None) && |s.tasks| !in s.joined
    requires n in nodes && nodes[n].thread == None && n in s.list && task.node == n
    ensures Tracked(nodes[n := nodes[n].(thread := Some(|s.tasks|))], s.tasks + [task], s.list, s.joined, None)
  {
    var nodes' := nodes[n := nodes[n].(thread := Some(|s.tasks|))];
    assert forall m :: m != n ==> Thread(nodes', m) == Thread(nodes, m);
  }

  /** Starting the thread of the node inserted last. */
  lemma ThreadStarted(s: State, n: nat, nodes': Nodes, tasks': seq<Task>)
    requires Owned(s.nodes, s, s.list, s.tasks, Creating(n)) && JoinedEnded(s.tasks, s.joined)
    requires forall i :: 0 < i < |s.list| ==> s.list[i] != n
    requires n in s.nodes && !s.nodes[n].isDone
    requires nodes' == s.nodes[n := s.nodes[n].(thread := Some(|s.tasks|))]
    requires tasks' == s.tasks + [Task(n, Waiting, [])]
    ensures Owned(nodes', s, s.list, tasks', Accepting) && JoinedEnded(tasks', s.joined)
  {
    JoinedGrown(s.tasks, s.joined, Task(n, Waiting, []));
    NewestStarted(s.nodes, s.list, n, |s.tasks|);
    NodesOwnedStarted(s.nodes, s.tasks, n, Task(n, Waiting, []));
    assert Thread(s.nodes, n) == None;
    TrackedStarted(s.nodes, s, n, Task(n, Waiting, []));
    hide NewestFirst, NodesOwned, Tracked, JoinedEnded;
  }

  lemma Framed(s: State, nodes': Nodes)
    requires Owned(s.nodes, s, s.list, s.tasks, s.pc) && nodes'.Keys == s.nodes.Keys
    requires forall m :: Thread(nodes', m) == Thread(s.nodes, m)
    ensures MemoryExact(nodes', s.list, Outside(s.pc), Unstarted(s.pc))
    ensures FreedInStep(nodes', s.joined, s.freed, Doomed(s.pc)) && NewestFirst(nodes', s.list)
  {
    hide NodesOwned, Tracked, Thread;
    assert forall m :: m in nodes' <==> m in s.nodes;
  }

  lemma NodesOwnedMoved(nodes: Nodes, nodes': Nodes, tasks: seq<Task>, threadless: Option<nat>, t: nat, task: Task)
    requires NodesOwned(nodes, tasks, threadless)
    requires t < |tasks| && task.node == tasks[t].node
    requires tasks[t].phase == Marked || tasks[t].phase == Ended ==> task.phase == Ended
    requires nodes'.Keys == nodes.Keys
    requires forall m :: m in nodes ==> nodes'[m].thread == nodes[m].thread
    requires task.phase == Marked || task.phase == Ended ==> forall m :: m in nodes && nodes[m].thread == Some(t) ==> nodes'[m].isDone
    requires forall m :: m in nodes && nodes'[m].isDone != nodes[m].isDone ==>
      task.phase == Marked && nodes[m].thread == Some(t) && nodes'[m].isDone
    ensures NodesOwned(nodes', tasks[t := task], threadless)
  {
  }

  lemma TrackedMoved(nodes: Nodes, nodes': Nodes, s: State, doomed: Option<nat>, t: nat, task: Task)
    requires Tracked(nodes, s.tasks, s.list, s.joined, doomed)
    requires t < |s.tasks| && task.node == s.tasks[t].node
    requires nodes'.Keys == nodes.Keys && forall m :: Thread(nodes', m) == Thread(nodes, m)
    ensures Tracked(nodes', s.tasks[t := task], s.list, s.joined, doomed)
    ensures t !in s.joined ==> task.node in nodes && nodes[task.node].thread == Some(t)
  {
  }

  lemma JoinedMoved(tasks: seq<Task>, joined: seq<nat>, t: nat, task: Task)
    requires JoinedEnded(tasks, joined) && t < |tasks| && tasks[t].phase != Ended
    ensures JoinedEnded(tasks[t := task], joined) && t !in joined
  {
  }

  /** A handler's step: its phase and reply change, never its node, and it never goes back from being
      through; it may mark its node, which is still allocated. */
  lemma TaskMoved(s: State, t: nat, task: Task, mark: bool)
    requires Owned(s.nodes, s, s.list, s.tasks, s.pc) && JoinedEnded(s.tasks, s.joined)
    requires t < |s.tasks| && task.node == s.tasks[t].node && s.tasks[t].phase != Ended
    requires s.tasks[t].phase == Marked ==> task.phase == Ended
    requires mark ==> task.phase == Marked
    requires task.phase == Marked || task.phase == Ended ==> mark || s.tasks[t].phase == Marked
    ensures task.node in s.nodes
    ensures var nodes' := if mark then s.nodes[task.node := s.nodes[task.node].(isDone := true)] else s.nodes;
      Owned(nodes', s, s.list, s.tasks[t := task], s.pc) && JoinedEnded(s.tasks[t := task], s.joined)
  {
    JoinedMoved(s.tasks, s.joined, t, task);
    TrackedMoved(s.nodes, s.nodes, s, Doomed(s.pc), t, task);
    hide JoinedEnded, MemoryExact, FreedInStep, NewestFirst, NodesOwned, Tracked;
    var nodes' := if mark then s.nodes[task.node := s.nodes[task.node].(isDone := true)] else s.nodes;
    Framed(s, nodes');
    TrackedMoved(s.nodes, nodes', s, Doomed(s.pc), t, task);
    NodesOwnedMoved(s.nodes, nodes', s.tasks, Threadless(s.pc), t, task);
  }

  // ---- Every step keeps the invariant ----

  /** A listed node is allocated and leads on to the next one; it has a thread once it is started. */
  lemma Listed(s: State, i: nat)
    requires ListInv(s) && i < |s.list|
    ensures s.list[i] in s.nodes && s.nodes[s.list[i]].next == Item(s.list, i + 1)
    ensures s.first == Item(s.list, 0)
    ensures Threadless(s.pc) == None ==>
      s.nodes[s.list[i]].thread.Some? && s.nodes[s.list[i]].thread.value < |s.tasks|
  {
    assert Next(s.nodes, s.list[i]) == Item(s.list, i + 1);
    assert s.list[i] in s.nodes;
    assert Thread(s.nodes, s.list[i]) == s.nodes[s.list[i]].thread;
  }

  lemma Distinct(s: State)
    requires ListInv(s)
    ensures forall i, j :: 0 <= i < j < |s.list| ==> s.list[i] != s.list[j]
  {
  }

  /** The node main is starting is the newest one. */
  lemma Newest(s: State)
    requires ListInv(s) && Unstarted(s.pc).Some?
    ensures s.list != [] && s.list[0] == Unstarted(s.pc).value
    ensures s.list[0] in s.nodes && s.nodes[s.list[0]].thread == None
  {
    assert s.list[0] in s.nodes;
    assert Thread(s.nodes, s.list[0]) == None;
  }

  lemma MallocKeeps(s: State, e: Event)
    requires ListInv(s) && e.Malloc? && Enabled(s, e)
    ensures ListInv(Apply(s, e))
  {
    NodeAdded(s, e.n, e.junk);
    LinkedFramed(s.nodes, s.nodes[e.n := e.junk], s.first, s.list);
    hide Linked, Owned, JoinedEnded;
  }

  lemma CreateKeeps(s: State, e: Event)
    requires ListInv(s) && e.Create? && Enabled(s, e)
    ensures ListInv(Apply(s, e))
  {
    hide Linked, MemoryExact, NodesOwned, Tracked, FreedInStep, NewestFirst, JoinedEnded;
    Newest(s);
    Distinct(s);
    Listed(s, 0);
    var s' := Apply(s, e);
    ThreadStarted(s, s.pc.n, s'.nodes, s'.tasks);
    LinkedFramed(s.nodes, s'.nodes, s.first, s.list);
  }

  lemma InsertingKeeps(s: State)
    requires ListInv(s) && s.pc.Inserting?
    ensures ListInv(MainMove(s))
  {
    var n := s.pc.n;
    assert n in s.nodes && n !in s.list;
    LinkedPush(s.nodes, s.first, s.list, n);
    NodeListed(s, n);
    hide Linked, Owned, JoinedEnded;
    SameThreadsKeep(s.nodes, MainMove(s).nodes, s, [n] + s.list, Initializing(n));
  }

  lemma InitializingKeeps(s: State)
    requires ListInv(s) && s.pc.Initializing?
    ensures ListInv(MainMove(s))
  {
    hide Linked, MemoryExact, NodesOwned, Tracked, FreedInStep, NewestFirst, JoinedEnded;
    Newest(s);
    var nodes' := MainMove(s).nodes;
    LinkedFramed(s.nodes, nodes', s.first, s.list);
    SameThreadsKeep(s.nodes, nodes', s, s.list, s.pc);
  }

  lemma ScanningKeeps(s: State)
    requires ListInv(s) && s.pc.Scanning?
    ensures ListInv(MainMove(s))
  {
    hide Linked, MemoryExact, NodesOwned, Tracked, FreedInStep, NewestFirst, JoinedEnded;
    if s.pc.cur.Some? {
      var i :| 0 <= i < |s.list| && s.list[i] == s.pc.cur.value;
      Listed(s, i);
    }
  }

  lemma JoiningKeeps(s: State)
    requires ListInv(s) && s.pc.Joining? && JoinReady(s)
    ensures ListInv(MainMove(s))
  {
    hide Linked, MemoryExact, NodesOwned, Tracked, FreedInStep, NewestFirst;
    var n := s.pc.n;
    var i :| 0 <= i < |s.list| && s.list[i] == n;
    Listed(s, i);
    ThreadJoined(s, n, s.nodes[n].thread.value);
  }

  lemma UnlinkKeeps(s: State, k: nat)
    requires ListInv(s) && k < |s.list| && Doomed(s.pc) == Some(s.list[k]) && Outside(s.pc) == None
    ensures var s' := Unlink(s, if k == 0 then None else Some(s.list[k - 1]), s.list[k]);
      s'.pc == Freeing(s.list[k]) && ListInv(s')
  {
    hide Linked, MemoryExact, NodesOwned, Tracked, FreedInStep, NewestFirst, JoinedEnded, Links.RemoveAt, Drop;
    var n := s.list[k];
    Distinct(s);
    Listed(s, k);
    if k > 0 {
      Listed(s, k - 1);
    }
    var s' := Unlink(s, if k == 0 then None else Some(s.list[k - 1]), n);
    DropRemoves(s.list, k);
    NodeUnlisted(s, k, s.pc);
    LinkedUnlink(s.nodes, s'.nodes, s.first, s'.first, s.list, k);
    SameThreadsKeep(s.nodes, s'.nodes, s, s'.list, Freeing(n));
  }

  lemma RemovingKeeps(s: State)
    requires ListInv(s) && s.pc.Removing?
    ensures ListInv(MainMove(s))
  {
    hide Linked, MemoryExact, NodesOwned, Tracked, FreedInStep, NewestFirst, JoinedEnded, Drop;
    Listed(s, 0);
    if s.list[0] == s.pc.n {
      UnlinkKeeps(s, 0);
    } else {
      assert s.list == [s.list[0]] + s.list[1..];
    }
  }

  lemma WalkingKeeps(s: State)
    requires ListInv(s) && s.pc.Walking?
    ensures ListInv(MainMove(s))
  {
    hide Linked, MemoryExact, NodesOwned, Tracked, FreedInStep, NewestFirst, JoinedEnded, Drop;
    var k := s.pc.steps + 1;
    Listed(s, k - 1);
    if s.list[k] == s.pc.n {
      UnlinkKeeps(s, k);
    } else {
      assert s.list[k..] == [s.list[k]] + s.list[k + 1..];
    }
  }

  lemma FreeingKeeps(s: State)
    requires ListInv(s) && s.pc.Freeing?
    ensures ListInv(MainMove(s))
  {
    var n := s.pc.n;
    assert n in s.nodes && n !in s.list;
    NodeFreed(s, n);
    assert s.joined == s.freed + [Thread(s.nodes, n).value];
    LinkedFramed(s.nodes, s.nodes - {n}, s.first, s.list);
    hide Linked, MemoryExact, NodesOwned, Tracked, FreedInStep, NewestFirst, JoinedEnded;
  }

  lemma ThreadStepKeeps(s: State, e: Event)
    requires ListInv(s) && Enabled(s, e) && !e.Malloc? && !e.Advance? && !e.Create?
    ensures ListInv(Apply(s, e))
  {
    hide IsLine, ReadAt, Live, SeekTarget, Linked, MemoryExact, NodesOwned, Tracked, FreedInStep, NewestFirst, JoinedEnded;
    var t, mark, s' := e.t, e.MarkDone?, Apply(s, e);
    MarkedHasThread(s, t);
    TaskMoved(s, t, (if mark then s.tasks[t].(phase := Marked) else s'.tasks[t]), mark);
    LinkedFramed(s.nodes, s'.nodes, s.first, s.list);
    if s.pc.Creating? {
      Newest(s);
    }
  }

  /** The node a live thread uses is its own. */
  lemma MarkedHasThread(s: State, t: nat)
    requires ListInv(s) && t < |s.tasks| && s.tasks[t].phase != Ended
    ensures s.tasks[t].node in s.nodes && s.nodes[s.tasks[t].node].thread == Some(t)
  {
    OwnNode(s, t);
  }

  /** The node of a thread that was not joined. */
  lemma OwnNode(s: State, t: nat)
    requires ListInv(s) && t < |s.tasks| && t !in s.joined
    ensures s.tasks[t].node in s.nodes && s.nodes[s.tasks[t].node].thread == Some(t)
    ensures s.nodes[s.tasks[t].node].isDone <==> s.tasks[t].phase == Marked || s.tasks[t].phase == Ended
  {
    assert Thread(s.nodes, s.tasks[t].node) == Some(t);
  }

  lemma StepKeeps(s: State, e: Event)
    requires ListInv(s) && Enabled(s, e)
    ensures ListInv(Apply(s, e))
  {
    hide ListInv;
    match e
    case Malloc(_, _) => MallocKeeps(s, e);
    case Create(_) => CreateKeeps(s, e);
    case Advance =>
      match s.pc {
        case Inserting(_) => InsertingKeeps(s);
        case Initializing(_) => InitializingKeeps(s);
        case Scanning(_) => ScanningKeeps(s);
        case Joining(_) => JoiningKeeps(s);
        case Removing(_) => RemovingKeeps(s);
        case Walking(_, _, _) => WalkingKeeps(s);
        case Freeing(_) => FreeingKeeps(s);
      }
    case _ => ThreadStepKeeps(s, e);
  }

  lemma {:induction false} EveryRun(events: seq<Event>)
    requires After(events).Some?
    ensures ListInv(After(events).value)
  {
    if events != [] {
      var before := events[..|events| - 1];
      EveryRun(before);
      StepKeeps(After(before).value, events[|events| - 1]);
    }
  }

  lemma AlwaysListInv(s: State)
    requires Reachable(s)
    ensures ListInv(s)
  {
    hide ListInv;
    var events :| After(events) == Some(s);
    EveryRun(events);
  }

  // ---- What every run guarantees ----

  /** No step of main or of a handler touches memory that is not allocated, a handler that has not
      ended still has its node, and the walk of SLIST_REMOVE never runs off the list. */
  lemma NeverFaults(s: State)
    requires Reachable(s)
    ensures s.pc != Fault
    ensures forall t :: 0 <= t < |s.tasks| && s.tasks[t].phase != Ended ==> s.tasks[t].node in s.nodes
    ensures s.pc.Walking? ==> s.pc.steps + 1 < |s.list| && s.pc.n in s.list[s.pc.steps + 1..]
  {
    AlwaysListInv(s);
    forall t | 0 <= t < |s.tasks| && s.tasks[t].phase != Ended
      ensures s.tasks[t].node in s.nodes
    {
      MarkedHasThread(s, t);
    }
  }

  /** The list holds the nodes of exactly the threads not yet reaped, the newest first: following
      the links meets `list`, threads get older along it, a thread keeps its place in it until it is
      joined and has none once it is freed, and only the node main is starting has no thread. */
  lemma ListIsTheUnreaped(s: State)
    requires Reachable(s)
    ensures Linked(s.nodes, s.first, s.list) && NewestFirst(s.nodes, s.list)
    ensures forall t :: 0 <= t < |s.tasks| && t !in s.joined ==>
      s.tasks[t].node in s.list && Thread(s.nodes, s.tasks[t].node) == Some(t)
    ensures forall n :: n in s.list ==>
      match Thread(s.nodes, n)
      case Some(t) => t < |s.tasks| && s.tasks[t].node == n && t !in s.freed
      case None => Unstarted(s.pc) == Some(n)
    ensures s.pc == Accepting ==> forall n :: n in s.list ==> Thread(s.nodes, n).Some?
  {
    AlwaysListInv(s);
    forall n | n in s.list && Thread(s.nodes, n).Some?
      ensures Thread(s.nodes, n).value !in s.freed
    {
      FreedIsGone(s, n, Thread(s.nodes, n).value);
    }
  }

  lemma FreedIsGone(s: State, n: nat, t: nat)
    requires ListInv(s) && n in s.list && Thread(s.nodes, n) == Some(t)
    ensures t !in s.freed
  {
    assert n in s.nodes;
    assert forall i :: 0 <= i < |s.freed| ==> s.freed[i] == s.joined[i];
    assert t in s.freed ==> t in s.joined;
    assert t in s.joined ==> Doomed(s.pc) == Some(n) && s.joined[|s.joined| - 1] == t;
  }

  /** A thread that was not joined has marked its node exactly when it is through with its client. */
  lemma MarkedWhenDone(s: State, t: nat)
    requires Reachable(s) && t < |s.tasks| && t !in s.joined
    ensures s.tasks[t].node in s.nodes
    ensures s.nodes[s.tasks[t].node].isDone <==> s.tasks[t].phase == Marked || s.tasks[t].phase == Ended
  {
    AlwaysListInv(s);
    OwnNode(s, t);
  }

  /** Each thread is joined at most once, and only when it has ended; its node is freed at most
      once, after the join, and main never has more than one such node on its hands. */
  lemma ReapedOnce(s: State)
    requires Reachable(s)
    ensures forall i, j :: 0 <= i < j < |s.joined| ==> s.joined[i] != s.joined[j]
    ensures forall t :: t in s.joined ==> t < |s.tasks| && s.tasks[t].phase == Ended
    ensures s.freed <= s.joined && |s.joined| <= |s.freed| + 1
    ensures s.pc == Accepting ==> s.freed == s.joined
  {
    AlwaysListInv(s);
  }
}
