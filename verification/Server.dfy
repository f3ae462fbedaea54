/** The server as a machine: one main thread that accepts, inserts, starts and reaps, any number of
    handlers that serve one request each under the mutex, all interleaved step by step. */
module Server {
  import opened Bytes
  import opened DeviceSpec

  /** What a handler's assembled packet asks for. */
  datatype Request = Append(packet: Bytes) | Seek(w: nat, o: nat)

  datatype Phase =
    | Waiting
    | Writing(done: nat)  // holds the mutex, `done` bytes of the packet written
    | Seeking             // holds the mutex, before the ioctl
    | Reading(pos: nat)   // holds the mutex, file position `pos`
    | Sent                // holds the mutex, the file is read to its end and closed
    | Marked              // holds the mutex, isDone is set
    | Ended

  /** A handler thread: the list node it was given, and what it has sent back. */
  datatype Task = Task(node: nat, phase: Phase, reply: Bytes)

  /** A node of the connection list, in memory main allocates and frees. */
  datatype Node = Node(next: Option<nat>, isDone: bool, thread: Option<nat>)

  /** Where main stands. `Fault` is where an access to memory that is not allocated leads. */
  datatype Pc =
    | Accepting
    | Inserting(n: nat)
    | Initializing(n: nat)
    | Creating(n: nat)
    | Scanning(cur: Option<nat>)
    | Joining(n: nat)
    | Removing(n: nat)
    | Walking(elm: nat, n: nat, steps: nat)
    | Freeing(n: nat)
    | Fault

  datatype State = State(
    nodes: map<nat, Node>,
    first: Option<nat>,
    pc: Pc,
    requests: seq<Request>,
    tasks: seq<Task>,
    lock: Option<nat>,
    chunks: seq<Bytes>,  // what the device has accepted
    log: seq<nat>,       // threads in the order they took the mutex
    starts: seq<nat>,    // how many chunks there were each time
    list: seq<nat>,      // the nodes inserted and not yet removed, newest first
    joined: seq<nat>,    // threads joined, in order
    freed: seq<nat>      // threads whose node has been freed, in order
  )

  /** One step. Thread steps name the thread; the others are main's. What a seek command finds behind
      the entry array comes with its step; only command number 10 looks there. */
  datatype Event =
    | Malloc(n: nat, junk: Node)
    | Advance
    | Create(request: Request)
    | TakeLock(t: nat)
    | DeviceWrite(t: nat, n: nat)
    | Rewind(t: nat)
    | Ioctl(t: nat, behind: nat)
    | DeviceRead(t: nat, count: nat)
    | MarkDone(t: nat)
    | Unlock(t: nat)

  const START := State(map[], None, Accepting, [], [], None, [], [], [], [], [], [])

  // ---- Main ----

  /** Main's next move when it needs nothing from outside; every access checks its memory. */
  function MainMove(s: State): State {
    match s.pc
    case Inserting(n) =>
      if n !in s.nodes then s.(pc := Fault)
      else s.(nodes := s.nodes[n := s.nodes[n].(next := s.first)], first := Some(n), list := [n] + s.list,
              pc := Initializing(n))
    case Initializing(n) =>
      if n !in s.nodes then s.(pc := Fault)
      else s.(nodes := s.nodes[n := s.nodes[n].(isDone := false)], pc := Creating(n))
    case Scanning(None) => s.(pc := Accepting)
    case Scanning(Some(n)) =>
      if n !in s.nodes then s.(pc := Fault)
      else if s.nodes[n].isDone then s.(pc := Joining(n))
      else s.(pc := Scanning(s.nodes[n].next))
    case Joining(n) =>
      if n !in s.nodes || s.nodes[n].thread == None then s.(pc := Fault)
      else s.(joined := s.joined + [s.nodes[n].thread.value], pc := Removing(n))
    case Removing(n) =>
      if s.first == None then s.(pc := Fault)
      else if s.first == Some(n) then Unlink(s, None, n)
      else s.(pc := Walking(s.first.value, n, 0))
    case Walking(cur, n, steps) =>
      if cur !in s.nodes || s.nodes[cur].next == None then s.(pc := Fault)
      else if s.nodes[cur].next == Some(n) then Unlink(s, Some(cur), n)
      else s.(pc := Walking(s.nodes[cur].next.value, n, steps + 1))
    case Freeing(n) =>
      if n !in s.nodes || s.nodes[n].thread == None then s.(pc := Fault)
      else s.(nodes := s.nodes - {n}, freed := s.freed + [s.nodes[n].thread.value], pc := Accepting)
    case _ => s
  }

  /** SLIST_REMOVE_HEAD, or SLIST_REMOVE_AFTER the node `before`. */
  function Unlink(s: State, before: Option<nat>, n: nat): State {
    if n !in s.nodes then s.(pc := Fault)
    else
      var list := Drop(s.list, n);
      match before
      case None => s.(first := s.nodes[n].next, list := list, pc := Freeing(n))
      case Some(b) =>
        if b !in s.nodes then s.(pc := Fault)
        else s.(nodes := s.nodes[b := s.nodes[b].(next := s.nodes[n].next)], list := list, pc := Freeing(n))
  }

  function Drop(list: seq<nat>, n: nat): seq<nat> {
    if list == [] then [] else if list[0] == n then list[1..] else [list[0]] + Drop(list[1..], n)
  }

  /** The thread main waits for in pthread_join. */
  predicate JoinReady(s: State) {
    match s.pc
    case Joining(n) =>
      n in s.nodes && s.nodes[n].thread.Some? && s.nodes[n].thread.value < |s.tasks| ==>
        s.tasks[s.nodes[n].thread.value].phase == Ended
    case _ => true
  }

  // ---- The steps ----

  ghost predicate Enabled(s: State, e: Event) {
    match e
    case Malloc(n, junk) => s.pc == Accepting && n !in s.nodes && junk.thread == None
    case Advance => s.pc != Accepting && !s.pc.Creating? && s.pc != Fault && JoinReady(s)
    case Create(_) => s.pc.Creating?
    case TakeLock(t) => t < |s.tasks| && s.tasks[t].phase == Waiting && s.lock == None
    case DeviceWrite(t, n) =>
      && t < |s.tasks| && t < |s.requests| && s.requests[t].Append? && s.tasks[t].phase.Writing?
      && s.tasks[t].phase.done < |s.requests[t].packet| && s.tasks[t].phase.done + n <= |s.requests[t].packet|
    case Rewind(t) =>
      && t < |s.tasks| && t < |s.requests| && s.requests[t].Append? && s.tasks[t].phase.Writing?
      && s.tasks[t].phase.done == |s.requests[t].packet|
    case Ioctl(t, _) => t < |s.tasks| && t < |s.requests| && s.requests[t].Seek? && s.tasks[t].phase == Seeking
    case DeviceRead(t, count) => t < |s.tasks| && s.tasks[t].phase.Reading? && count > 0
    case MarkDone(t) => t < |s.tasks| && s.tasks[t].phase == Sent
    case Unlock(t) => t < |s.tasks| && s.tasks[t].phase == Marked
  }

  function WithPhase(s: State, t: nat, phase: Phase): State
    requires t < |s.tasks|
  {
    s.(tasks := s.tasks[t := s.tasks[t].(phase := phase)])
  }

  ghost function Apply(s: State, e: Event): State
    requires Enabled(s, e)
  {
    match e
    case Malloc(n, junk) => s.(nodes := s.nodes[n := junk], pc := Inserting(n))
    case Advance => MainMove(s)
    case Create(request) =>
      var n, t := s.pc.n, |s.tasks|;
      if n !in s.nodes then s.(pc := Fault)
      else s.(nodes := s.nodes[n := s.nodes[n].(thread := Some(t))],
              requests := s.requests + [request], tasks := s.tasks + [Task(n, Waiting, [])],
              pc := Scanning(s.first))
    case TakeLock(t) =>
      // The receives before it read the socket from the node.
      var phase := if t < |s.requests| && s.requests[t].Append? then Writing(0) else Seeking;
      if s.tasks[t].node !in s.nodes then s.(pc := Fault)
      else WithPhase(s, t, phase).(lock := Some(t), log := s.log + [t], starts := s.starts + [|s.chunks|])
    case DeviceWrite(t, n) =>
      var done := s.tasks[t].phase.done;
      WithPhase(s, t, Writing(done + n)).(chunks := s.chunks + [s.requests[t].packet[done..done + n]])
    case Rewind(t) => WithPhase(s, t, Reading(0))
    case Ioctl(t, behind) =>
      WithPhase(s, t, Reading(SeekTarget(s.chunks, s.requests[t].w, s.requests[t].o, behind)))
    case DeviceRead(t, count) =>
      var pos := s.tasks[t].phase.pos;
      var got := ReadAt(Live(s.chunks), pos, count);
      if got == [] then WithPhase(s, t, Sent)
      else if s.tasks[t].node !in s.nodes then s.(pc := Fault)
      else s.(tasks := s.tasks[t := s.tasks[t].(phase := Reading(pos + |got|), reply := s.tasks[t].reply + got)])
    case MarkDone(t) =>
      var n := s.tasks[t].node;
      if n !in s.nodes then s.(pc := Fault)
      else WithPhase(s, t, Marked).(nodes := s.nodes[n := s.nodes[n].(isDone := true)])
    case Unlock(t) => WithPhase(s, t, Ended).(lock := None)
  }

  /** The state after a run: events that are each enabled when they happen. */
  ghost function After(events: seq<Event>): Option<State> {
    if events == [] then Some(START)
    else
      var n := |events| - 1;
      match After(events[..n])
      case None => None
      case Some(s) => if Enabled(s, events[n]) then Some(Apply(s, events[n])) else None
  }

  /** A state that some run leads to. */
  ghost predicate Reachable(s: State) {
    exists events :: After(events) == Some(s)
  }

  lemma Reached(s: State, e: Event)
    requires Reachable(s) && Enabled(s, e)
    ensures Reachable(Apply(s, e))
  {
    var events :| After(events) == Some(s);
    assert (events + [e])[..|events|] == events;
    assert After(events + [e]) == Some(Apply(s, e));
  }

  /** The state that `events` lead to from `s`, if each is enabled when it happens. */
  ghost function Run(s: State, events: seq<Event>): Option<State>
    decreases |events|
  {
    if events == [] then Some(s)
    else if Enabled(s, events[0]) then Run(Apply(s, events[0]), events[1..])
    else None
  }

  lemma {:induction false} RunOn(s: State, events: seq<Event>, more: seq<Event>)
    requires Run(s, events).Some?
    ensures Run(s, events + more) == Run(Run(s, events).value, more)
    decreases |events|
  {
    hide Enabled, Apply;
    if events == [] {
      assert events + more == more;
    } else {
      assert (events + more)[1..] == events[1..] + more;
      RunOn(Apply(s, events[0]), events[1..], more);
    }
  }

  lemma {:induction false} RunReaches(s: State, events: seq<Event>)
    requires Reachable(s) && Run(s, events).Some?
    ensures Reachable(Run(s, events).value)
    decreases |events|
  {
    hide Enabled, Apply, Reachable;
    if events != [] {
      Reached(s, events[0]);
      RunReaches(Apply(s, events[0]), events[1..]);
    }
  }
}
