/** What every handler sends back, in every run of the server. */
module Replies {
  import opened Bytes
  import opened DeviceSpec
  import opened Server

  // ---- What a run has written ----

  /** What thread `t` appends; a seek command appends nothing. */
  function Appended(requests: seq<Request>, t: nat): Bytes {
    if t < |requests| && requests[t].Append? then requests[t].packet else []
  }

  /** The packets appended by the threads in `log`, in that order. */
  function Packets(requests: seq<Request>, log: seq<nat>): seq<Bytes> {
    if log == [] then []
    else
      var t := log[|log| - 1];
      Packets(requests, log[..|log| - 1]) +
      if t < |requests| && requests[t].Append? then [requests[t].packet] else []
  }

  /** The history of the device as the first `n` threads in the log left it; the last of them may still
      be adding to it. */
  function History(starts: seq<nat>, chunks: seq<Bytes>, n: nat): seq<Bytes> {
    if n < |starts| then chunks[..Min(starts[n], |chunks|)] else chunks
  }

  /** What thread number k has added to it. */
  function Pieces(starts: seq<nat>, chunks: seq<Bytes>, k: nat): seq<Bytes> {
    var before, after := History(starts, chunks, k), History(starts, chunks, k + 1);
    if |before| <= |after| then after[|before|..] else []
  }

  /** Where a handler starts reading: at 0, or where its seek command leads. */
  function StartOf(request: Request, history: seq<Bytes>, behind: nat): nat {
    match request
    case Append(_) => 0
    case Seek(w, o) => SeekTarget(history, w, o, behind)
  }

  /** The right reply to a request that leaves the device with this history: its content, from the
      handler's starting position on. What is behind the entry array matters to seek command 10 only. */
  ghost predicate Answers(request: Request, history: seq<Bytes>, reply: Bytes) {
    exists behind :: reply == From(Content(history), StartOf(request, history, behind))
  }

  // ---- The invariant ----

  predicate Holding(phase: Phase) {
    phase != Waiting && phase != Ended
  }

  /** Threads take the mutex once each, and those that have not are waiting. */
  ghost predicate LogSound(tasks: seq<Task>, log: seq<nat>) {
    && (forall k :: 0 <= k < |log| ==> log[k] < |tasks| && tasks[log[k]].phase != Waiting)
    && (forall j, k :: 0 <= j < k < |log| ==> log[j] != log[k])
    && (forall t :: 0 <= t < |tasks| && t !in log ==> tasks[t].phase == Waiting && tasks[t].reply == [])
  }

  /** Only the last thread to take the mutex may be in the critical section. */
  ghost predicate LockSound(tasks: seq<Task>, lock: Option<nat>, log: seq<nat>) {
    && (forall t :: 0 <= t < |tasks| && Holding(tasks[t].phase) ==> lock == Some(t))
    && (lock.Some? ==> log != [] && log[|log| - 1] == lock.value < |tasks| && Holding(tasks[lock.value].phase))
  }

  /** Every chunk was written by some thread that held the mutex. */
  ghost predicate StartsSound(starts: seq<nat>, chunks: seq<Bytes>) {
    && (forall j, k :: 0 <= j <= k < |starts| ==> starts[j] <= starts[k] <= |chunks|)
    && (if starts == [] then chunks == [] else starts[0] == 0)
  }

  /** Since it took the mutex a thread has written what it should have, and been sent what it should
      have. `history` is the device's while it holds the mutex, and as it left it afterwards. */
  ghost predicate HolderSound(request: Request, task: Task, start: nat, history: seq<Bytes>) {
    && start <= |history|
    && match task.phase
      case Waiting => false
      case Writing(done) =>
        && request.Append? && done <= |request.packet| && Concat(history[start..]) == request.packet[..done]
        && task.reply == []
      case Seeking => request.Seek? && Concat(history[start..]) == [] && task.reply == []
      case Reading(pos) =>
        && Concat(history[start..]) == Appended([request], 0)
        && Answers(request, history, task.reply + From(Content(history), pos))
      case _ => Concat(history[start..]) == Appended([request], 0) && Answers(request, history, task.reply)
  }

  ghost predicate HoldersSound(requests: seq<Request>, tasks: seq<Task>, log: seq<nat>, starts: seq<nat>, chunks: seq<Bytes>) {
    && |starts| == |log|
    && (forall k :: 0 <= k < |log| && log[k] < |requests| && log[k] < |tasks| ==>
      HolderSound(requests[log[k]], tasks[log[k]], starts[k], History(starts, chunks, k + 1)))
  }

  ghost predicate ReplyInv(s: State) {
    && |s.requests| == |s.tasks|
    && LogSound(s.tasks, s.log)
    && LockSound(s.tasks, s.lock, s.log)
    && StartsSound(s.starts, s.chunks)
    && HoldersSound(s.requests, s.tasks, s.log, s.starts, s.chunks)
  }

  // ---- Main's steps, and faults ----

  lemma MainKeeps(s: State, e: Event)
    requires ReplyInv(s) && Enabled(s, e) && (e.Malloc? || e.Advance?)
    ensures ReplyInv(Apply(s, e))
  {
    hide LogSound, LockSound, StartsSound, HoldersSound, Drop;
  }

  lemma FaultKeeps(s: State)
    requires ReplyInv(s)
    ensures ReplyInv(s.(pc := Fault))
  {
    hide LogSound, LockSound, StartsSound, HoldersSound;
  }

  lemma LogGrown(tasks: seq<Task>, lock: Option<nat>, log: seq<nat>, task: Task)
    requires LogSound(tasks, log) && LockSound(tasks, lock, log) && task.phase == Waiting && task.reply == []
    ensures LogSound(tasks + [task], log) && LockSound(tasks + [task], lock, log)
  {
  }

  lemma HoldersGrown(requests: seq<Request>, tasks: seq<Task>, log: seq<nat>, starts: seq<nat>, chunks: seq<Bytes>,
      request: Request, task: Task)
    requires HoldersSound(requests, tasks, log, starts, chunks) && LogSound(tasks, log) && |requests| == |tasks|
    ensures HoldersSound(requests + [request], tasks + [task], log, starts, chunks)
  {
    hide HolderSound, History;
  }

  lemma CreateKeeps(s: State, e: Event)
    requires ReplyInv(s) && Enabled(s, e) && e.Create? && s.pc.n in s.nodes
    ensures ReplyInv(Apply(s, e))
  {
    hide LogSound, LockSound, StartsSound, HoldersSound;
    var task := Task(s.pc.n, Waiting, []);
    LogGrown(s.tasks, s.lock, s.log, task);
    HoldersGrown(s.requests, s.tasks, s.log, s.starts, s.chunks, e.request, task);
  }

  // ---- Taking the mutex ----

  lemma LogTaken(tasks: seq<Task>, log: seq<nat>, t: nat, task: Task)
    requires LogSound(tasks, log) && t < |tasks| && t !in log && task.phase != Waiting
    ensures LogSound(tasks[t := task], log + [t])
  {
  }

  lemma LockTaken(tasks: seq<Task>, log: seq<nat>, t: nat, task: Task)
    requires LockSound(tasks, None, log) && t < |tasks| && Holding(task.phase)
    ensures LockSound(tasks[t := task], Some(t), log + [t])
  {
  }

  lemma NothingWritten(request: Request, task: Task, chunks: seq<Bytes>)
    requires task.phase == (if request.Append? then Writing(0) else Seeking) && task.reply == []
    ensures HolderSound(request, task, |chunks|, chunks)
  {
    assert chunks[|chunks|..] == [];
  }

  lemma HoldersTaken(requests: seq<Request>, tasks: seq<Task>, log: seq<nat>, starts: seq<nat>, chunks: seq<Bytes>,
      t: nat, task: Task)
    requires HoldersSound(requests, tasks, log, starts, chunks) && StartsSound(starts, chunks)
    requires t < |tasks| == |requests| && t !in log && HolderSound(requests[t], task, |chunks|, chunks)
    ensures StartsSound(starts + [|chunks|], chunks)
    ensures HoldersSound(requests, tasks[t := task], log + [t], starts + [|chunks|], chunks)
  {
    hide HolderSound;
    var log', starts' := log + [t], starts + [|chunks|];
    forall k | 0 <= k < |log'| && log'[k] < |tasks|
      ensures HolderSound(requests[log'[k]], tasks[t := task][log'[k]], starts'[k], History(starts', chunks, k + 1))
    {
      if k < |log| {
        assert log'[k] == log[k] && log[k] != t;
        assert History(starts', chunks, k + 1) == History(starts, chunks, k + 1);
      } else {
        assert History(starts', chunks, k + 1) == chunks;
      }
    }
  }

  lemma TakeLockKeeps(s: State, e: Event)
    requires ReplyInv(s) && Enabled(s, e) && e.TakeLock? && s.tasks[e.t].node in s.nodes
    ensures ReplyInv(Apply(s, e))
  {
    hide HoldersSound, HolderSound, StartsSound;
    var t := e.t;
    var task := Apply(s, e).tasks[t];
    assert t !in s.log && task.reply == [];
    hide LogSound, LockSound;
    LogTaken(s.tasks, s.log, t, task);
    LockTaken(s.tasks, s.log, t, task);
    NothingWritten(s.requests[t], task, s.chunks);
    HoldersTaken(s.requests, s.tasks, s.log, s.starts, s.chunks, t, task);
  }

  // ---- The steps of the thread that holds the mutex ----

  function Last(starts: seq<nat>): nat {
    if starts == [] then 0 else starts[|starts| - 1]
  }

  lemma ThreadMoved(tasks: seq<Task>, lock: Option<nat>, log: seq<nat>, t: nat, task: Task)
    requires LogSound(tasks, log) && LockSound(tasks, lock, log)
    requires t < |tasks| && Holding(tasks[t].phase)
    requires Holding(task.phase) || task.phase == Ended
    ensures lock == Some(t) && log != [] && log[|log| - 1] == t
    ensures LogSound(tasks[t := task], log)
    ensures LockSound(tasks[t := task], if Holding(task.phase) then lock else None, log)
  {
  }

  lemma HoldersMoved(requests: seq<Request>, tasks: seq<Task>, log: seq<nat>, starts: seq<nat>, chunks: seq<Bytes>,
      t: nat, task: Task, chunks': seq<Bytes>)
    requires HoldersSound(requests, tasks, log, starts, chunks) && StartsSound(starts, chunks) && LogSound(tasks, log)
    requires log != [] && log[|log| - 1] == t < |tasks| == |requests| && chunks <= chunks'
    requires HolderSound(requests[t], task, Last(starts), chunks')
    ensures StartsSound(starts, chunks')
    ensures HoldersSound(requests, tasks[t := task], log, starts, chunks')
  {
    hide HolderSound;
    forall k | 0 <= k < |log|
      ensures HolderSound(requests[log[k]], tasks[t := task][log[k]], starts[k], History(starts, chunks', k + 1))
    {
      if k < |log| - 1 {
        assert log[k] != t;
        assert History(starts, chunks', k + 1) == History(starts, chunks, k + 1);
      } else {
        assert History(starts, chunks', k + 1) == chunks';
      }
    }
  }

  /** What the thread that holds the mutex has done so far. */
  lemma Holder(s: State, t: nat)
    requires ReplyInv(s) && t < |s.tasks| && Holding(s.tasks[t].phase)
    ensures |s.requests| == |s.tasks| && HolderSound(s.requests[t], s.tasks[t], Last(s.starts), s.chunks)
  {
    hide StartsSound, HolderSound;
    ThreadMoved(s.tasks, s.lock, s.log, t, s.tasks[t]);
    hide LogSound, LockSound;
    assert History(s.starts, s.chunks, |s.log|) == s.chunks;
  }

  /** A step of that thread takes it to `task`, and the device's history on. */
  lemma HolderStep(s: State, s': State, t: nat, task: Task)
    requires ReplyInv(s) && t < |s.tasks| && Holding(s.tasks[t].phase)
    requires Holding(task.phase) || task.phase == Ended
    requires s'.requests == s.requests && s'.log == s.log && s'.starts == s.starts && s'.tasks == s.tasks[t := task]
    requires s'.lock == (if Holding(task.phase) then s.lock else None) && s.chunks <= s'.chunks
    requires HolderSound(s.requests[t], task, Last(s.starts), s'.chunks)
    ensures ReplyInv(s')
  {
    hide StartsSound, HoldersSound, HolderSound, LogSound, LockSound;
    ThreadMoved(s.tasks, s.lock, s.log, t, task);
    HoldersMoved(s.requests, s.tasks, s.log, s.starts, s.chunks, t, task, s'.chunks);
  }

  lemma WriteTurn(request: Request, task: Task, start: nat, chunks: seq<Bytes>, n: nat)
    requires HolderSound(request, task, start, chunks) && task.phase.Writing?
    requires task.phase.done + n <= |request.packet|
    ensures var done := task.phase.done;
      HolderSound(request, task.(phase := Writing(done + n)), start, chunks + [request.packet[done..done + n]])
  {
    var done := task.phase.done;
    var piece := request.packet[done..done + n];
    assert (chunks + [piece])[start..] == chunks[start..] + [piece];
    ConcatAppend(chunks[start..], [piece]);
    ConcatOne(piece);
    assert request.packet[..done] + piece == request.packet[..done + n];
  }

  lemma RewindTurn(request: Request, task: Task, start: nat, chunks: seq<Bytes>)
    requires HolderSound(request, task, start, chunks)
    requires task.phase.Writing? && task.phase.done == |request.packet|
    ensures HolderSound(request, task.(phase := Reading(0)), start, chunks)
  {
    hide Content, From, Concat;
    assert request.packet[..|request.packet|] == request.packet;
    assert [] + From(Content(chunks), 0) == From(Content(chunks), StartOf(request, chunks, 0));
  }

  lemma IoctlTurn(request: Request, task: Task, start: nat, chunks: seq<Bytes>, behind: nat)
    requires HolderSound(request, task, start, chunks) && task.phase == Seeking
    ensures HolderSound(request, task.(phase := Reading(SeekTarget(chunks, request.w, request.o, behind))), start, chunks)
  {
    hide Content, From, Concat, SeekTarget;
    var pos := SeekTarget(chunks, request.w, request.o, behind);
    assert [] + From(Content(chunks), pos) == From(Content(chunks), StartOf(request, chunks, behind));
  }

  /** A turn of the read loop. */
  lemma ReadTurn(request: Request, task: Task, start: nat, chunks: seq<Bytes>, count: nat)
    requires HolderSound(request, task, start, chunks) && task.phase.Reading? && count > 0
    ensures var got := ReadAt(Live(chunks), task.phase.pos, count);
      HolderSound(request,
        if got == [] then task.(phase := Sent)
        else task.(phase := Reading(task.phase.pos + |got|), reply := task.reply + got), start, chunks)
  {
    hide From, ReadAt, Concat, Live, Answers, Appended;
    ReadOn(task.reply, Live(chunks), task.phase.pos, count, task.reply + From(Content(chunks), task.phase.pos));
  }

  lemma DeviceWriteKeeps(s: State, e: Event)
    requires ReplyInv(s) && Enabled(s, e) && e.DeviceWrite?
    ensures ReplyInv(Apply(s, e))
  {
    hide ReplyInv, HolderSound;
    var t, s' := e.t, Apply(s, e);
    Holder(s, t);
    WriteTurn(s.requests[t], s.tasks[t], Last(s.starts), s.chunks, e.n);
    HolderStep(s, s', t, s'.tasks[t]);
  }

  lemma RewindKeeps(s: State, e: Event)
    requires ReplyInv(s) && Enabled(s, e) && e.Rewind?
    ensures ReplyInv(Apply(s, e))
  {
    hide ReplyInv, HolderSound;
    var t, s' := e.t, Apply(s, e);
    Holder(s, t);
    RewindTurn(s.requests[t], s.tasks[t], Last(s.starts), s.chunks);
    HolderStep(s, s', t, s'.tasks[t]);
  }

  lemma IoctlKeeps(s: State, e: Event)
    requires ReplyInv(s) && Enabled(s, e) && e.Ioctl?
    ensures ReplyInv(Apply(s, e))
  {
    hide ReplyInv, HolderSound, SeekTarget;
    var t, s' := e.t, Apply(s, e);
    Holder(s, t);
    IoctlTurn(s.requests[t], s.tasks[t], Last(s.starts), s.chunks, e.behind);
    HolderStep(s, s', t, s'.tasks[t]);
  }

  lemma DeviceReadKeeps(s: State, e: Event)
    requires ReplyInv(s) && Enabled(s, e) && e.DeviceRead?
    ensures ReplyInv(Apply(s, e))
  {
    hide ReplyInv, HolderSound, ReadAt, Live;
    var t, s' := e.t, Apply(s, e);
    if s'.pc != s.pc {
      FaultKeeps(s);
    } else {
      Holder(s, t);
      ReadTurn(s.requests[t], s.tasks[t], Last(s.starts), s.chunks, e.count);
      HolderStep(s, s', t, s'.tasks[t]);
    }
  }

  lemma LeaveKeeps(s: State, e: Event)
    requires ReplyInv(s) && Enabled(s, e)
    requires e.Unlock? || (e.MarkDone? && s.tasks[e.t].node in s.nodes)
    ensures ReplyInv(Apply(s, e))
  {
    hide ReplyInv, Concat, Content, Answers, Appended;
    var t, s' := e.t, Apply(s, e);
    Holder(s, t);
    HolderStep(s, s', t, s'.tasks[t]);
  }

  lemma StepKeeps(s: State, e: Event)
    requires ReplyInv(s) && Enabled(s, e)
    ensures ReplyInv(Apply(s, e))
  {
    hide ReplyInv;
    FaultKeeps(s);
    match e
    case Malloc(_, _) => MainKeeps(s, e);
    case Advance => MainKeeps(s, e);
    case Create(_) => if s.pc.n in s.nodes { CreateKeeps(s, e); }
    case TakeLock(t) => if s.tasks[t].node in s.nodes { TakeLockKeeps(s, e); }
    case DeviceWrite(_, _) => DeviceWriteKeeps(s, e);
    case Rewind(_) => RewindKeeps(s, e);
    case Ioctl(_, _) => IoctlKeeps(s, e);
    case DeviceRead(_, _) => DeviceReadKeeps(s, e);
    case MarkDone(t) => if s.tasks[t].node in s.nodes { LeaveKeeps(s, e); }
    case Unlock(_) => LeaveKeeps(s, e);
  }

  lemma {:induction false} EveryRun(events: seq<Event>)
    requires After(events).Some?
    ensures ReplyInv(After(events).value)
  {
    if events != [] {
      var before := events[..|events| - 1];
      EveryRun(before);
      StepKeeps(After(before).value, events[|events| - 1]);
    }
  }

  lemma AlwaysReplyInv(s: State)
    requires Reachable(s)
    ensures ReplyInv(s)
  {
    hide ReplyInv;
    var events :| After(events) == Some(s);
    EveryRun(events);
  }

  // ---- What the chunks of a history amount to ----

  /** What the first `n` threads in the log added to the history are their packets, in that order and
      each in some pieces. */
  ghost predicate Written(requests: seq<Request>, log: seq<nat>, starts: seq<nat>, chunks: seq<Bytes>, n: nat) {
    && n <= |log| && History(starts, chunks, 0) == []
    && (forall k :: 0 <= k < n ==>
      && History(starts, chunks, k + 1) == History(starts, chunks, k) + Pieces(starts, chunks, k)
      && Concat(Pieces(starts, chunks, k)) == Appended(requests, log[k]))
  }

  lemma PacketsStep(requests: seq<Request>, log: seq<nat>, t: nat)
    ensures Packets(requests, log + [t]) ==
      Packets(requests, log) + if t < |requests| && requests[t].Append? then [requests[t].packet] else []
  {
    assert (log + [t])[..|log|] == log;
  }

  lemma PacketsBytes(requests: seq<Request>, log: seq<nat>, t: nat)
    ensures Concat(Packets(requests, log + [t])) == Concat(Packets(requests, log)) + Appended(requests, t)
  {
    PacketsStep(requests, log, t);
    hide Packets, Concat;
    if t < |requests| && requests[t].Append? {
      ConcatAppend(Packets(requests, log), [requests[t].packet]);
      ConcatOne(requests[t].packet);
    } else {
      assert Packets(requests, log) + [] == Packets(requests, log);
      assert Concat(Packets(requests, log)) + [] == Concat(Packets(requests, log));
    }
  }

  lemma UpTo(log: seq<nat>, n: nat)
    requires 0 < n <= |log|
    ensures log[..n] == log[..n - 1] + [log[n - 1]]
  {
  }

  /** Whatever the packets, their bytes are those of the history. */
  lemma {:induction false} HistoryBytes(requests: seq<Request>, log: seq<nat>, starts: seq<nat>, chunks: seq<Bytes>, n: nat)
    requires Written(requests, log, starts, chunks, n)
    ensures Concat(History(starts, chunks, n)) == Concat(Packets(requests, log[..n]))
  {
    if n > 0 {
      HistoryBytes(requests, log, starts, chunks, n - 1);
      UpTo(log, n);
      PacketsBytes(requests, log[..n - 1], log[n - 1]);
      hide Concat, History, Pieces, Packets, Appended;
      ConcatAppend(History(starts, chunks, n - 1), Pieces(starts, chunks, n - 1));
    }
  }

  /** The first `n` threads in `log` append lines or parts of lines, if they append. */
  ghost predicate OneLineEach(requests: seq<Request>, log: seq<nat>, n: nat) {
    n <= |log| && forall k :: 0 <= k < n ==> AtMostOneLine(Appended(requests, log[k]))
  }

  /** Then it is as if each packet came in one write. */
  lemma {:induction false} HistoryState(requests: seq<Request>, log: seq<nat>, starts: seq<nat>, chunks: seq<Bytes>, n: nat)
    requires Written(requests, log, starts, chunks, n) && OneLineEach(requests, log, n)
    ensures SameState(History(starts, chunks, n), Packets(requests, log[..n]))
  {
    if n > 0 {
      HistoryState(requests, log, starts, chunks, n - 1);
      UpTo(log, n);
      StateStep(requests, log[..n - 1], log[n - 1], History(starts, chunks, n - 1), Pieces(starts, chunks, n - 1));
      hide Concat, History, Pieces, Packets, Appended, SameState, AtMostOneLine;
    }
  }

  lemma StateStep(requests: seq<Request>, log: seq<nat>, t: nat, history: seq<Bytes>, pieces: seq<Bytes>)
    requires SameState(history, Packets(requests, log))
    requires Concat(pieces) == Appended(requests, t) && AtMostOneLine(Appended(requests, t))
    ensures SameState(history + pieces, Packets(requests, log + [t]))
  {
    var packet, packets := Appended(requests, t), Packets(requests, log);
    PacketsStep(requests, log, t);
    hide Packets, AtMostOneLine, Concat;
    assert packet[..|packet|] == packet;
    LineInPieces(history, pieces, packet, |packet|);
    hide Groups, Rest;
    SameStateStep(history, packets, packet);
    NothingYet(packets);
    assert packets + [] == packets;
  }

  // ---- What every run guarantees ----

  predicate Finished(phase: Phase) {
    phase == Sent || phase == Marked || phase == Ended
  }

  /** In some run, thread number k to take the mutex has read its file to the end. */
  ghost predicate Served(s: State, k: nat) {
    && Reachable(s)
    && k < |s.log| && s.log[k] < |s.tasks| && s.log[k] < |s.requests| && Finished(s.tasks[s.log[k]].phase)
  }

  /** At most one thread is in the critical section, in every state of every run. */
  lemma MutualExclusion(s: State, t: nat, u: nat)
    requires Reachable(s) && t < |s.tasks| && u < |s.tasks|
    requires Holding(s.tasks[t].phase) && Holding(s.tasks[u].phase)
    ensures t == u
  {
    AlwaysReplyInv(s);
  }

  /** Threads that took the mutex before the last one have left. */
  lemma EarlierEnded(tasks: seq<Task>, lock: Option<nat>, log: seq<nat>, j: nat)
    requires LogSound(tasks, log) && LockSound(tasks, lock, log) && j < |log| - 1
    ensures log[j] < |tasks| && tasks[log[j]].phase == Ended
  {
    assert log[j] != log[|log| - 1];
  }

  lemma PiecesAre(starts: seq<nat>, chunks: seq<Bytes>, k: nat)
    requires StartsSound(starts, chunks) && k < |starts|
    ensures var before, after := History(starts, chunks, k), History(starts, chunks, k + 1);
      starts[k] <= |after| && Pieces(starts, chunks, k) == after[starts[k]..] && after == before + Pieces(starts, chunks, k)
  {
  }

  lemma WrittenBy(s: State, k: nat)
    requires ReplyInv(s) && k < |s.log| && (k == |s.log| - 1 ==> Finished(s.tasks[s.log[k]].phase))
    ensures History(s.starts, s.chunks, k + 1) == History(s.starts, s.chunks, k) + Pieces(s.starts, s.chunks, k)
    ensures Concat(Pieces(s.starts, s.chunks, k)) == Appended(s.requests, s.log[k])
  {
    hide Concat, Answers, Content, History, Pieces, StartsSound;
    if k < |s.log| - 1 {
      EarlierEnded(s.tasks, s.lock, s.log, k);
    }
    hide LockSound;
    var t := s.log[k];
    PiecesAre(s.starts, s.chunks, k);
    assert HolderSound(s.requests[t], s.tasks[t], s.starts[k], History(s.starts, s.chunks, k + 1));
    assert Appended([s.requests[t]], 0) == Appended(s.requests, t);
  }

  lemma NothingBefore(s: State)
    requires ReplyInv(s)
    ensures History(s.starts, s.chunks, 0) == []
  {
    hide LogSound, LockSound, HoldersSound;
  }

  lemma AllWritten(s: State, k: nat)
    requires ReplyInv(s) && k < |s.log| && s.log[k] < |s.tasks| && Finished(s.tasks[s.log[k]].phase)
    ensures Written(s.requests, s.log, s.starts, s.chunks, k + 1)
  {
    hide ReplyInv, Concat, Appended, History, Pieces;
    NothingBefore(s);
    forall j | 0 <= j < k + 1
      ensures History(s.starts, s.chunks, j + 1) == History(s.starts, s.chunks, j) + Pieces(s.starts, s.chunks, j)
      ensures Concat(Pieces(s.starts, s.chunks, j)) == Appended(s.requests, s.log[j])
    {
      WrittenBy(s, j);
    }
  }

  lemma FinishedAnswered(s: State, k: nat)
    requires ReplyInv(s) && k < |s.log| && s.log[k] < |s.tasks| && Finished(s.tasks[s.log[k]].phase)
    ensures Answers(s.requests[s.log[k]], History(s.starts, s.chunks, k + 1), s.tasks[s.log[k]].reply)
  {
    hide LogSound, LockSound, StartsSound, Answers, History, Concat;
    assert HolderSound(s.requests[s.log[k]], s.tasks[s.log[k]], s.starts[k], History(s.starts, s.chunks, k + 1));
  }

  /** Whoever took the mutex as number k and has read its file to the end was sent the content of the
      device as it left it, from its starting position on. That device had accepted, in the order of
      the mutex, the packets up to and with its own, each in some pieces, and nothing else. This holds
      whatever was sent to the server, however its writes and reads were split, and whatever ran in
      between. */
  lemma ReplyIsOwed(s: State, k: nat)
    requires Served(s, k)
    ensures Answers(s.requests[s.log[k]], History(s.starts, s.chunks, k + 1), s.tasks[s.log[k]].reply)
    ensures Written(s.requests, s.log, s.starts, s.chunks, k + 1)
    ensures Concat(History(s.starts, s.chunks, k + 1)) == Concat(Packets(s.requests, s.log[..k + 1]))
  {
    hide ReplyInv, Reachable, Concat, Answers, Written, Packets, History;
    AlwaysReplyInv(s);
    FinishedAnswered(s, k);
    AllWritten(s, k);
    HistoryBytes(s.requests, s.log, s.starts, s.chunks, k + 1);
  }

  /** Two histories in the same state call for the same replies. */
  lemma AnswersSame(request: Request, history: seq<Bytes>, history': seq<Bytes>, reply: Bytes)
    requires SameState(history, history') && Answers(request, history, reply)
    ensures Answers(request, history', reply)
  {
    var behind :| reply == From(Content(history), StartOf(request, history, behind));
    hide Groups, Concat, Sum;
    assert StartOf(request, history', behind) == StartOf(request, history, behind);
  }

  /** When the first k + 1 requests are lines, parts of lines or seeks, the reply to number k depends on
      these requests alone, and not on how anything was split. */
  lemma SplitBlind(s: State, k: nat)
    requires Served(s, k) && OneLineEach(s.requests, s.log, k + 1)
    ensures Answers(s.requests[s.log[k]], Packets(s.requests, s.log[..k + 1]), s.tasks[s.log[k]].reply)
  {
    hide Reachable, Answers, Written, OneLineEach, Packets, History, SameState, Concat;
    ReplyIsOwed(s, k);
    HistoryState(s.requests, s.log, s.starts, s.chunks, k + 1);
    AnswersSame(s.requests[s.log[k]], History(s.starts, s.chunks, k + 1), Packets(s.requests, s.log[..k + 1]),
      s.tasks[s.log[k]].reply);
  }

  /** An append is answered with the whole content. */
  lemma AppendAnswered(request: Request, history: seq<Bytes>, reply: Bytes)
    requires Answers(request, history, reply) && request.Append?
    ensures reply == Content(history)
  {
    hide Content;
  }

  predicate EndsIn(s: Bytes, end: Bytes) {
    |end| <= |s| && s[|s| - |end|..] == end
  }

  lemma EndsMeet(s: Bytes, a: Bytes, b: Bytes)
    requires EndsIn(s, a) && EndsIn(s, b)
    ensures EndsIn(a, b) || EndsIn(b, a)
  {
    if |b| <= |a| {
      assert s[|s| - |a|..][|a| - |b|..] == s[|s| - |b|..];
    } else {
      assert s[|s| - |b|..][|b| - |a|..] == s[|s| - |a|..];
    }
  }

  /** The content and what waits are the last bytes of the history. */
  lemma ContentIsTail(history: seq<Bytes>)
    ensures EndsIn(Concat(history), Content(history) + Rest(history))
  {
    Conservation(history);
    hide Groups, Rest, Concat;
    assert Groups(history) == Evicted(history) + Live(history);
    ConcatAppend(Evicted(history), Live(history));
    assert Concat(history) == Concat(Evicted(history)) + (Content(history) + Rest(history));
  }

  /** No byte is lost, invented or reordered from end to end: what an append is sent, and what then
      waits for a newline, are the last of all bytes appended up to and with its own. */
  lemma ReplyIsTail(s: State, k: nat)
    requires Served(s, k) && s.requests[s.log[k]].Append?
    ensures EndsIn(Concat(Packets(s.requests, s.log[..k + 1])),
      s.tasks[s.log[k]].reply + Rest(History(s.starts, s.chunks, k + 1)))
  {
    hide Reachable, Answers, Written, Packets, History, Concat, Rest, Content, EndsIn;
    ReplyIsOwed(s, k);
    AppendAnswered(s.requests[s.log[k]], History(s.starts, s.chunks, k + 1), s.tasks[s.log[k]].reply);
    ContentIsTail(History(s.starts, s.chunks, k + 1));
  }

  lemma {:induction false} AllAppends(requests: seq<Request>, log: seq<nat>)
    requires forall i :: 0 <= i < |log| ==> log[i] < |requests| && requests[log[i]].Append?
    ensures |Packets(requests, log)| == |log|
    ensures forall i :: 0 <= i < |log| ==> Packets(requests, log)[i] == requests[log[i]].packet
  {
    if log != [] {
      AllAppends(requests, log[..|log| - 1]);
    }
  }

  /** The first `n` threads in the log all append. */
  predicate AllAppend(requests: seq<Request>, log: seq<nat>, n: nat) {
    n <= |log| && forall i :: 0 <= i < n ==> log[i] < |requests| && requests[log[i]].Append?
  }

  /** Their packets, in the order of the mutex. */
  function FirstPackets(requests: seq<Request>, log: seq<nat>, n: nat): seq<Bytes>
    requires AllAppend(requests, log, n)
  {
    seq(n, i requires 0 <= i < n => requests[log[i]].packet)
  }

  lemma AreFirstPackets(requests: seq<Request>, log: seq<nat>, n: nat)
    requires AllAppend(requests, log, n)
    ensures FirstPackets(requests, log, n) == Packets(requests, log[..n])
  {
    AllAppends(requests, log[..n]);
  }

  lemma OneLineAppends(requests: seq<Request>, log: seq<nat>, n: nat)
    requires AllAppend(requests, log, n) && forall p :: p in FirstPackets(requests, log, n) ==> AtMostOneLine(p)
    ensures OneLineEach(requests, log, n)
  {
    hide AtMostOneLine;
    forall i | 0 <= i < n
      ensures AtMostOneLine(Appended(requests, log[i]))
    {
      assert FirstPackets(requests, log, n)[i] == Appended(requests, log[i]);
    }
  }

  /** End to end: when the first k + 1 threads to take the mutex all append, thread number k is sent
      the last ten entries that their k + 1 packets, in the order of the mutex and each in some pieces,
      make up. When none has a newline before its last byte, these are the last ten lines the packets
      make up; and when all are lines, they are the last ten of the packets, its own at the end. */
  lemma EndToEnd(s: State, k: nat)
    requires Served(s, k) && AllAppend(s.requests, s.log, k + 1)
    ensures var packets, reply := FirstPackets(s.requests, s.log, k + 1), s.tasks[s.log[k]].reply;
      var history := History(s.starts, s.chunks, k + 1);
      && (reply == Concat(LastN(Groups(history), CAPACITY)) && Concat(history) == Concat(packets))
      && ((forall p :: p in packets ==> AtMostOneLine(p)) ==> reply == Concat(LastN(Groups(packets), CAPACITY)))
      && ((forall p :: p in packets ==> IsLine(p)) ==> reply == Concat(LastN(packets, CAPACITY)))
  {
    hide Reachable, Answers, Written, Packets, History, Groups, Concat, OneLineEach, LastN, AtMostOneLine;
    var packets, t := FirstPackets(s.requests, s.log, k + 1), s.log[k];
    AreFirstPackets(s.requests, s.log, k + 1);
    ReplyIsOwed(s, k);
    AppendAnswered(s.requests[t], History(s.starts, s.chunks, k + 1), s.tasks[t].reply);
    if forall p :: p in packets ==> AtMostOneLine(p) {
      OneLineAppends(s.requests, s.log, k + 1);
      SplitBlind(s, k);
      AppendAnswered(s.requests[t], packets, s.tasks[t].reply);
    }
    hide Served, AllAppend, FirstPackets;
    if forall p :: p in packets ==> IsLine(p) {
      LinesAreOneLine(packets);
      CompleteChunks(packets);
    }
  }

  lemma LinesAreOneLine(packets: seq<Bytes>)
    requires forall p :: p in packets ==> IsLine(p)
    ensures forall p :: p in packets ==> AtMostOneLine(p) && NEWLINE in p
  {
  }

  lemma EndsInNewest(before: seq<Bytes>, packet: Bytes)
    ensures var content := Content(before + [packet]);
      if NEWLINE in packet then EndsIn(content, packet)
      else content == Content(before)
  {
    CutStep(before, packet);
    hide Groups, Rest;
    if NEWLINE in packet {
      var stored := Live(before + [packet]);
      assert stored[|stored| - 1] == Rest(before) + packet;
    }
  }

  /** The same when the packet, a line or a part of one, came in pieces. */
  lemma EndsInPacket(before: seq<Bytes>, pieces: seq<Bytes>, packet: Bytes)
    requires Concat(pieces) == packet && AtMostOneLine(packet)
    ensures var content := Content(before + pieces);
      if NEWLINE in packet then EndsIn(content, packet)
      else content == Content(before)
  {
    assert packet[..|packet|] == packet;
    LineInPieces(before, pieces, packet, |packet|);
    EndsInNewest(before, packet);
    hide Groups, Rest, AtMostOneLine;
  }

  lemma AllEndInLast(requests: seq<Request>, log: seq<nat>, k: nat)
    requires k < |log|
    ensures EndsIn(Concat(Packets(requests, log[..k + 1])), Appended(requests, log[k]))
  {
    UpTo(log, k + 1);
    PacketsBytes(requests, log[..k], log[k]);
    hide Packets, Concat;
  }

  /** A finished append of a line is sent that line last, whatever the others sent; one of a part of a
      line, left by a connection closed early, is sent what there was when it took the mutex. Of any
      other packet, what is sent and what then waits are an end, or the packet is an end of these. */
  lemma OwnPacketLast(s: State, k: nat)
    requires Served(s, k) && s.requests[s.log[k]].Append?
    ensures var reply, packet := s.tasks[s.log[k]].reply, s.requests[s.log[k]].packet;
      var tail := reply + Rest(History(s.starts, s.chunks, k + 1));
      && (IsLine(packet) ==> EndsIn(reply, packet))
      && (NEWLINE !in packet ==> reply == Content(History(s.starts, s.chunks, k)))
      && (EndsIn(tail, packet) || EndsIn(packet, tail))
  {
    hide Reachable, Answers, History, Pieces, Packets, Concat, Content, Rest, EndsIn;
    ReplyIsOwed(s, k);
    var packet := s.requests[s.log[k]].packet;
    ReplyIsTail(s, k);
    AllEndInLast(s.requests, s.log, k);
    EndsMeet(Concat(Packets(s.requests, s.log[..k + 1])),
      s.tasks[s.log[k]].reply + Rest(History(s.starts, s.chunks, k + 1)), packet);
    AppendAnswered(s.requests[s.log[k]], History(s.starts, s.chunks, k + 1), s.tasks[s.log[k]].reply);
    if AtMostOneLine(packet) {
      EndsInPacket(History(s.starts, s.chunks, k), Pieces(s.starts, s.chunks, k), packet);
    }
  }

  /** The right answer to the seek (w, o) after these chunks. The newest entries, as many as `OutOffs`,
      are in the first slots, and the others follow; the seek leads behind the bytes of the slots before
      slot w, counted from the start of the content. A seek that is refused is sent everything. While
      the oldest of the stored entries is in slot 0, an accepted one is therefore sent entry w from byte
      o and all later ones. */
  ghost predicate SeekAnswer(chunks: seq<Bytes>, w: nat, o: nat, reply: Bytes) {
    var stored, turn := Live(chunks), |Live(chunks)| - OutOffs(chunks);
    var slots: seq<Bytes> := stored[turn..] + stored[..turn];
    && (w >= |stored| ==> reply == Concat(stored))
    && (w < |stored| ==>
      reply == if o <= |slots[w]| then From(Concat(stored), |Concat(slots[..w])| + o) else Concat(stored))
    && (w < |stored| && OutOffs(chunks) == 0 ==>
      reply == if o <= |stored[w]| then stored[w][o..] + Concat(stored[w + 1..]) else Concat(stored))
  }

  /** Sizes in slot order are the sizes of the entries in slot order. */
  lemma SlotSizesAre(chunks: seq<Bytes>)
    ensures OutOffs(chunks) <= |Live(chunks)|
    ensures var stored, turn := Live(chunks), |Live(chunks)| - OutOffs(chunks);
      SlotSizes(chunks) == Sizes(stored[turn..] + stored[..turn])
  {
    var stored, turn := Live(chunks), |Live(chunks)| - OutOffs(chunks);
    assert OutOffs(chunks) <= |stored|;
    hide Groups, LastN, OutOffs;
    assert Sizes(stored[turn..] + stored[..turn]) == Sizes(stored)[turn..] + Sizes(stored)[..turn];
  }

  lemma SizesBefore(slots: seq<Bytes>, w: nat)
    requires w < |slots|
    ensures Sum(Sizes(slots)[..w]) == |Concat(slots[..w])|
  {
    ConcatLength(slots[..w]);
    assert Sizes(slots[..w]) == Sizes(slots)[..w];
  }

  /** Where the seek leads, over the stored entries. */
  lemma SeekTargetIs(chunks: seq<Bytes>, w: nat, o: nat, behind: nat)
    requires w < |Live(chunks)| && w != CAPACITY
    ensures OutOffs(chunks) <= |Live(chunks)|
    ensures var stored, turn := Live(chunks), |Live(chunks)| - OutOffs(chunks);
      var slots: seq<Bytes> := stored[turn..] + stored[..turn];
      SeekTarget(chunks, w, o, behind) == if o <= |slots[w]| then |Concat(slots[..w])| + o else 0
  {
    SlotSizesAre(chunks);
    hide Groups, Concat, Sum, LastN, OutOffs, SlotSizes;
    var stored, turn := Live(chunks), |Live(chunks)| - OutOffs(chunks);
    SizesBefore(stored[turn..] + stored[..turn], w);
  }

  lemma SeekAnswered(chunks: seq<Bytes>, w: nat, o: nat, reply: Bytes)
    requires Answers(Seek(w, o), chunks, reply) && w != CAPACITY
    ensures SeekAnswer(chunks, w, o, reply)
  {
    var behind :| reply == From(Content(chunks), SeekTarget(chunks, w, o, behind));
    if w < |Live(chunks)| {
      SeekTargetIs(chunks, w, o, behind);
      if OutOffs(chunks) == 0 && o <= |Live(chunks)[w]| {
        SeekThenRead(chunks, w, o, 1);
      }
      var stored := Live(chunks);
      assert OutOffs(chunks) == 0 ==> stored[|stored|..] + stored[..|stored|] == stored;
      hide SlotSizes;
    } else {
      SlotSizesAre(chunks);
    }
    hide Groups, Concat, Sum, LastN, OutOffs;
  }

  /** Command number 10 leads out of the content or nowhere. */
  lemma StraySeekAnswered(chunks: seq<Bytes>, o: nat, reply: Bytes)
    requires Answers(Seek(CAPACITY, o), chunks, reply)
    ensures reply == [] || reply == Content(chunks)
  {
    SlotSizesAre(chunks);
    var stored, turn := Live(chunks), |Live(chunks)| - OutOffs(chunks);
    ConcatLength(stored[turn..] + stored[..turn]);
    ConcatAppend(stored[turn..], stored[..turn]);
    ConcatAppend(stored[..turn], stored[turn..]);
    assert stored == stored[..turn] + stored[turn..];
    hide Groups, Concat, Sum, LastN, OutOffs, SlotSizes;
  }

  /** A seek command changes nothing. */
  lemma SeekAppendsNothing(requests: seq<Request>, log: seq<nat>, k: nat)
    requires k < |log| && log[k] < |requests| && requests[log[k]].Seek?
    ensures Packets(requests, log[..k + 1]) == Packets(requests, log[..k])
  {
    UpTo(log, k + 1);
    PacketsStep(requests, log[..k], log[k]);
    assert Packets(requests, log[..k]) + [] == Packets(requests, log[..k]);
  }

  /** A finished seek was answered right, from what the packets before it left in the device. */
  lemma SeekReply(s: State, k: nat)
    requires Served(s, k) && s.requests[s.log[k]].Seek?
    ensures var request, reply := s.requests[s.log[k]], s.tasks[s.log[k]].reply;
      && Concat(History(s.starts, s.chunks, k + 1)) == Concat(Packets(s.requests, s.log[..k]))
      && (request.w == CAPACITY ==> reply == [] || reply == Content(History(s.starts, s.chunks, k + 1)))
      && (request.w != CAPACITY ==> SeekAnswer(History(s.starts, s.chunks, k + 1), request.w, request.o, reply))
      && (request.w != CAPACITY && OneLineEach(s.requests, s.log, k + 1) ==>
        SeekAnswer(Packets(s.requests, s.log[..k]), request.w, request.o, reply))
  {
    hide SeekAnswer, Packets, Concat, Content, Reachable, Answers, Written, History, OneLineEach;
    ReplyIsOwed(s, k);
    SeekAppendsNothing(s.requests, s.log, k);
    var request, reply := s.requests[s.log[k]], s.tasks[s.log[k]].reply;
    if request.w != CAPACITY {
      SeekAnswered(History(s.starts, s.chunks, k + 1), request.w, request.o, reply);
      if OneLineEach(s.requests, s.log, k + 1) {
        SplitBlind(s, k);
        SeekAnswered(Packets(s.requests, s.log[..k]), request.w, request.o, reply);
      }
    } else {
      StraySeekAnswered(History(s.starts, s.chunks, k + 1), request.o, reply);
    }
  }
}
