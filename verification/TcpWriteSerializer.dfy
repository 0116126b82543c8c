/** One write queue per TCP socket (TcpWriteSerializer in nxnet/rtsp/tcp_write_serializer.cpp).

    Submissions and close come from any thread and post a task to a strand; the strand runs its tasks one at a
    time, and the handler of a finished write is such a task too.  So a run is any sequence of four kinds of
    step: a caller posts, a caller closes, the strand runs its next task, or the write in flight finishes. */
module TcpWriteSerializer {
  import opened Bytes
  import opened Sequences
  import opened InterleavedTransport

  type Entry = e: WriteEntry | WellFormed(e) witness Inline([])

  datatype Task = Enqueue(group: seq<Entry>) | Clear

  /** The object's fields, the strand's tasks, the writes the socket is working on, and the history:
      every group posted, every group that got into the queue, every write that finished well, whether one
      failed, and the bytes sent up to and including the first failed write. */
  datatype State = State(
    maxQueueSize: nat,
    queue: seq<Entry>,
    writing: bool,
    active: bool,
    queuedCount: nat,
    overflowCount: nat,
    socketOpen: bool,
    tasks: seq<Task>,
    flight: seq<Entry>,
    posted: seq<seq<Entry>>,
    accepted: seq<seq<Entry>>,
    completed: seq<Entry>,
    failed: bool,
    sent: bytes)

  function Initial(maxQueueSize: nat): State {
    State(maxQueueSize, [], false, true, 0, 0, true, [], [], [], [], [], false, [])
  }

  // ------------------------------------------------------------------------- steps

  /** submit, submit_frame and submit_batch: a group of one, or of many. */
  function Post(s: State, group: seq<Entry>): State {
    if !s.active || group == [] then s else s.(tasks := s.tasks + [Enqueue(group)], posted := s.posted + [group])
  }

  function Close(s: State): State {
    if !s.active then s else s.(active := false, tasks := s.tasks + [Clear])
  }

  function DoWrite(s: State): State {
    if s.queue == [] then s.(writing := false)
    else s.(writing := true, flight := s.flight + [s.queue[0]])
  }

  function Overflow(s: State): State {
    s.(overflowCount := s.overflowCount + 1, socketOpen := false, active := false)
  }

  function RunEnqueue(s: State, group: seq<Entry>): State {
    if !s.active then s
    else if |s.queue| + |group| > s.maxQueueSize then Overflow(s)
    else
      var queue := s.queue + group;
      var s' := s.(queue := queue, queuedCount := |queue|, accepted := s.accepted + [group]);
      if s.writing then s' else DoWrite(s')
  }

  function Emptied(s: State): State {
    s.(queue := [], writing := false, queuedCount := 0)
  }

  function RunNext(s: State): State {
    if s.tasks == [] then s else
      var s' := s.(tasks := s.tasks[1..]);
      match s.tasks[0]
      case Enqueue(group) => RunEnqueue(s', group)
      case Clear => Emptied(s')
  }

  /** The socket is done with a write: all of it, or an error behind so many bytes. */
  datatype WriteResult = WriteOk | WriteError(sent: nat)

  function Landed(s: State, result: WriteResult): State
    requires s.flight != []
  {
    var entry := s.flight[0];
    var bytes := EntryBytes(entry);
    var s' := s.(flight := s.flight[1..]);
    match result
    case WriteOk =>
      s'.(completed := if s.failed then s.completed else s.completed + [entry],
          sent := if s.failed then s.sent else s.sent + bytes)
    case WriteError(n) =>
      s'.(failed := true, sent := if s.failed then s.sent else s.sent + bytes[..if n < |bytes| then n else |bytes|])
  }

  /** The completion handler. */
  function Finish(s: State, result: WriteResult): State {
    if s.flight == [] then s else
      var s' := Landed(s, result);
      if result.WriteError? then Emptied(s')
      else if !s'.active || s'.queue == [] then s'.(writing := false, queuedCount := 0)
      else
        var queue := s'.queue[1..];
        DoWrite(s'.(queue := queue, queuedCount := |queue|))
  }

  datatype Action = Posting(group: seq<Entry>) | Closing | Running | Finishing(result: WriteResult)

  function Step(s: State, a: Action): State {
    match a
    case Posting(group) => Post(s, group)
    case Closing => Close(s)
    case Running => RunNext(s)
    case Finishing(result) => Finish(s, result)
  }

  function Run(s: State, actions: seq<Action>): State
    decreases |actions|
  {
    if actions == [] then s else Run(Step(s, actions[0]), actions[1..])
  }

  // ------------------------------------------------------------------- properties

  function AllBytes(entries: seq<Entry>): bytes {
    if entries == [] then [] else EntryBytes(entries[0]) + AllBytes(entries[1..])
  }

  function Groups(tasks: seq<Task>): seq<seq<Entry>> {
    if tasks == [] then []
    else (if tasks[0].Enqueue? then [tasks[0].group] else []) + Groups(tasks[1..])
  }

  /** At most one write is in flight, whatever happens; while the serializer is active it is writing exactly
      when one is in flight, exactly when the queue is not empty, and what is in flight is the queue's front. */
  ghost predicate OneWriter(s: State) {
    && |s.flight| <= 1
    && (s.active ==>
          && (s.writing <==> s.flight != [])
          && (s.writing <==> s.queue != [])
          && (s.flight != [] ==> s.flight[0] == s.queue[0])
          && s.queuedCount == |s.queue|
          && forall i | 0 <= i < |s.tasks| :: s.tasks[i].Enqueue?)
  }

  /** Groups enter whole and in the order in which they were posted; none is lost while active. */
  ghost predicate WholeGroups(s: State) {
    && |s.queue| <= s.maxQueueSize
    && s.accepted <= s.posted
    && (s.active ==> s.posted == s.accepted + Groups(s.tasks))
  }

  /** Up to the first failed write, what completed is a prefix of what was accepted, and so are the bytes sent. */
  ghost predicate InOrder(s: State) {
    && s.completed <= Concat(s.accepted)
    && s.sent <= AllBytes(Concat(s.accepted))
    && (!s.failed ==>
          && s.sent == AllBytes(s.completed)
          && s.completed + s.flight <= Concat(s.accepted)
          && (s.active ==> s.completed + s.queue == Concat(s.accepted)))
  }

  ghost predicate Inv(s: State) {
    OneWriter(s) && WholeGroups(s) && InOrder(s)
  }

  lemma DoWriteKeepsOneWriter(s: State)
    requires s.active && s.flight == [] && s.queuedCount == |s.queue|
    requires forall i | 0 <= i < |s.tasks| :: s.tasks[i].Enqueue?
    ensures OneWriter(DoWrite(s))
  {
    Empty([s.queue]);
  }

  lemma RunNextKeepsOneWriter(s: State)
    requires OneWriter(s)
    ensures OneWriter(RunNext(s))
  {
    hide DoWrite;
    if s.tasks != [] {
      var rest := s.tasks[1..];
      assert forall i | 0 <= i < |rest| :: rest[i] == s.tasks[i + 1];
      if s.active && |s.queue| + |s.tasks[0].group| <= s.maxQueueSize && !s.writing {
        var queue := s.queue + s.tasks[0].group;
        DoWriteKeepsOneWriter(s.(tasks := rest, queue := queue, queuedCount := |queue|,
                                 accepted := s.accepted + [s.tasks[0].group]));
      }
    }
  }

  lemma FinishKeepsOneWriter(s: State, result: WriteResult)
    requires OneWriter(s)
    ensures OneWriter(Finish(s, result))
  {
    hide DoWrite, Landed;
    if s.flight != [] {
      LandedKeeps(s, result);
      var s' := Landed(s, result);
      if result.WriteOk? && s'.active {
        DoWriteKeepsOneWriter(s'.(queue := s'.queue[1..], queuedCount := |s'.queue[1..]|));
      }
    }
  }

  lemma StepKeepsOneWriter(s: State, a: Action)
    requires OneWriter(s)
    ensures OneWriter(Step(s, a))
  {
    hide RunNext, Finish;
    match a
    case Posting(group) =>
    case Closing =>
    case Running => RunNextKeepsOneWriter(s);
    case Finishing(result) => FinishKeepsOneWriter(s, result);
  }

  lemma {:induction false} GroupsAppend(a: seq<Task>, b: seq<Task>)
    ensures Groups(a + b) == Groups(a) + Groups(b)
  {
    if a == [] {
      assert a + b == b;
    } else {
      assert (a + b)[0] == a[0] && (a + b)[1..] == a[1..] + b;
      GroupsAppend(a[1..], b);
    }
  }

  lemma PostKeepsWholeGroups(s: State, group: seq<Entry>)
    requires WholeGroups(s)
    ensures WholeGroups(Post(s, group))
  {
    hide Groups;
    GroupsAppend(s.tasks, [Enqueue(group)]);
    assert Groups([Enqueue(group)]) == [group] by { OneGroup(group); }
    assert s.accepted + Groups(s.tasks) + [group] == s.accepted + (Groups(s.tasks) + [group]);
  }

  lemma OneGroup(group: seq<Entry>)
    ensures Groups([Enqueue(group)]) == [group]
  {
  }

  lemma RunNextKeepsWholeGroups(s: State)
    requires OneWriter(s) && WholeGroups(s)
    ensures WholeGroups(RunNext(s))
  {
    if s.active && s.tasks != [] {
      var group, later := s.tasks[0].group, Groups(s.tasks[1..]);
      assert Groups(s.tasks) == [group] + later;
      assert s.posted == (s.accepted + [group]) + later;
    }
  }

  lemma StepKeepsWholeGroups(s: State, a: Action)
    requires OneWriter(s) && WholeGroups(s)
    ensures WholeGroups(Step(s, a))
  {
    hide EntryBytes, Groups;
    match a
    case Posting(group) => PostKeepsWholeGroups(s, group);
    case Closing =>
    case Running => RunNextKeepsWholeGroups(s);
    case Finishing(result) =>
  }

  lemma {:induction false} AllBytesAppend(a: seq<Entry>, b: seq<Entry>)
    ensures AllBytes(a + b) == AllBytes(a) + AllBytes(b)
  {
    hide EntryBytes;
    if a == [] {
      assert a + b == b;
    } else {
      assert (a + b)[0] == a[0] && (a + b)[1..] == a[1..] + b;
      AllBytesAppend(a[1..], b);
    }
  }

  lemma AllBytesPrefix(a: seq<Entry>, b: seq<Entry>)
    requires a <= b
    ensures AllBytes(a) <= AllBytes(b)
  {
    AllBytesAppend(a, b[|a|..]);
    assert b == a + b[|a|..];
  }

  lemma AllBytesSnoc(a: seq<Entry>, e: Entry)
    ensures AllBytes(a + [e]) == AllBytes(a) + EntryBytes(e)
  {
    hide EntryBytes;
    AllBytesAppend(a, [e]);
    assert AllBytes([e]) == EntryBytes(e);
  }

  lemma EnqueueKeepsInOrder(s: State, group: seq<Entry>)
    requires OneWriter(s) && InOrder(s)
    ensures InOrder(RunEnqueue(s, group))
  {
    hide EntryBytes, AllBytes, Concat;
    if s.active && |s.queue| + |group| <= s.maxQueueSize {
      ConcatSnoc(s.accepted, group);
      var before, after := Concat(s.accepted), Concat(s.accepted + [group]);
      AllBytesPrefix(before, after);
      if !s.failed {
        assert s.completed + (s.queue + group) == after;
      }
    }
  }

  lemma FinishKeepsInOrder(s: State, result: WriteResult)
    requires OneWriter(s) && InOrder(s)
    ensures InOrder(Finish(s, result))
  {
    hide EntryBytes, AllBytes, Concat;
    if s.flight != [] && !s.failed {
      var all, entry := Concat(s.accepted), s.flight[0];
      assert s.flight == [entry] && s.completed + [entry] <= all;
      AllBytesSnoc(s.completed, entry);
      AllBytesPrefix(s.completed + [entry], all);
      if result.WriteOk? && s.active {
        assert s.completed + s.queue == (s.completed + [entry]) + s.queue[1..];
      }
    }
  }

  lemma StepKeepsInOrder(s: State, a: Action)
    requires OneWriter(s) && InOrder(s)
    ensures InOrder(Step(s, a))
  {
    hide EntryBytes, AllBytes, Concat;
    match a
    case Posting(group) =>
    case Closing =>
    case Running =>
      if s.tasks != [] {
        var s' := s.(tasks := s.tasks[1..]);
        assert OneWriter(s');
        match s.tasks[0]
        case Enqueue(group) => EnqueueKeepsInOrder(s', group);
        case Clear =>
      }
    case Finishing(result) => FinishKeepsInOrder(s, result);
  }

  /** Whatever callers, strand and socket do in whatever order. */
  lemma {:induction false} RunKeepsInv(s: State, actions: seq<Action>)
    requires Inv(s)
    ensures Inv(Run(s, actions))
    decreases |actions|
  {
    hide OneWriter, WholeGroups, InOrder, Step;
    if actions != [] {
      StepKeepsOneWriter(s, actions[0]);
      StepKeepsWholeGroups(s, actions[0]);
      StepKeepsInOrder(s, actions[0]);
      RunKeepsInv(Step(s, actions[0]), actions[1..]);
    }
  }

  lemma EveryRun(maxQueueSize: nat, actions: seq<Action>)
    ensures Inv(Run(Initial(maxQueueSize), actions))
  {
    RunKeepsInv(Initial(maxQueueSize), actions);
  }

  /** When nothing is left to do and nothing went wrong, the wire has exactly what was posted. */
  lemma EverythingIsSent(maxQueueSize: nat, actions: seq<Action>)
    requires var s := Run(Initial(maxQueueSize), actions);
             s.active && !s.failed && s.tasks == [] && s.flight == []
    ensures var s := Run(Initial(maxQueueSize), actions);
            s.sent == AllBytes(Concat(s.posted)) == AllBytes(Concat(HandedOver(actions)))
  {
    hide Run, AllBytes, Concat;
    EveryRun(maxQueueSize, actions);
    PostedExactly(maxQueueSize, actions);
    var s := Run(Initial(maxQueueSize), actions);
    assert s.posted == s.accepted;
    assert s.completed + s.queue == s.completed;
  }

  /** A failed write empties the queue but does not close the serializer: what is posted next is accepted, and a
      write of it started on the same socket.  So order and prefixes are promised up to the first failure. */
  lemma StillActiveAfterError(s: State, sent: nat, group: seq<Entry>)
    requires OneWriter(s) && s.active && s.tasks == [] && s.flight != []
    requires group != [] && |group| <= s.maxQueueSize
    ensures var s' := Run(s, [Finishing(WriteError(sent)), Posting(group), Running]);
            && s'.failed && s'.active && s'.queue == group && s'.flight == [group[0]]
            && s'.accepted == s.accepted + [group]
  {
    hide Landed;
    LandedKeeps(s, WriteError(sent));
    var s1 := Finish(s, WriteError(sent));
    assert s1.tasks == [] && s1.queue == [] && s1.flight == [] && !s1.writing && s1.active;
    var s2 := Post(s1, group);
    assert [] + [Enqueue(group)] == [Enqueue(group)] && [Enqueue(group)][1..] == [];
    var s3 := RunNext(s2);
    assert [] + group == group && [] + [group[0]] == [group[0]];
    RunThree(s, Finishing(WriteError(sent)), Posting(group), Running);
  }

  // ----------------------------------------------------------- acceptance and close

  /** While the serializer is active its socket is open; an overflow closes it, once and for all. */
  ghost predicate SocketMatches(s: State) {
    && s.overflowCount <= 1
    && (s.socketOpen <==> s.overflowCount == 0)
    && (s.active ==> s.socketOpen)
  }

  lemma StepKeepsSocket(s: State, a: Action)
    requires SocketMatches(s)
    ensures SocketMatches(Step(s, a))
  {
    hide Landed;
    if a.Finishing? && s.flight != [] { LandedKeeps(s, a.result); }
  }

  /** After any run, when the strand comes to a group: it is taken whole if it fits behind what waits, and is
      refused, together with the connection, if it does not. */
  lemma TakenExactly(maxQueueSize: nat, actions: seq<Action>, group: seq<Entry>)
    requires var s := Run(Initial(maxQueueSize), actions); s.active && s.tasks != [] && s.tasks[0] == Enqueue(group)
    ensures var s, s' := Run(Initial(maxQueueSize), actions), Run(Initial(maxQueueSize), actions + [Running]);
            && s'.tasks == s.tasks[1..]
            && if |s.queue| + |group| <= maxQueueSize then
                 && s'.queue == s.queue + group && s'.accepted == s.accepted + [group]
                 && s'.active && s'.socketOpen && s'.overflowCount == 0
               else
                 && s'.queue == s.queue && s'.accepted == s.accepted
                 && !s'.active && !s'.socketOpen && s'.overflowCount == 1
  {
    hide Run, Step, NeverTooMuch;
    OverflowsFrom(Initial(maxQueueSize), actions);
    RunSnoc(Initial(maxQueueSize), actions, Running);
    TakenNext(Run(Initial(maxQueueSize), actions), group);
  }

  lemma {:induction false} RunSnoc(s: State, actions: seq<Action>, a: Action)
    ensures Run(s, actions + [a]) == Step(Run(s, actions), a)
    decreases |actions|
  {
    hide Step;
    if actions == [] {
      assert [] + [a] == [a] && [a][1..] == [];
      assert Run(Step(s, a), []) == Step(s, a);
    } else {
      Front(actions, [a]);
      RunSnoc(Step(s, actions[0]), actions[1..], a);
    }
  }

  lemma TakenNext(s: State, group: seq<Entry>)
    requires SocketMatches(s) && s.active && s.tasks != [] && s.tasks[0] == Enqueue(group)
    ensures var s' := Step(s, Running);
            && s'.tasks == s.tasks[1..]
            && if |s.queue| + |group| <= s.maxQueueSize then
                 && s'.queue == s.queue + group && s'.accepted == s.accepted + [group]
                 && s'.active && s'.socketOpen && s'.overflowCount == s.overflowCount
               else
                 && s'.queue == s.queue && s'.accepted == s.accepted
                 && !s'.active && !s'.socketOpen && s'.overflowCount == s.overflowCount + 1
  {
  }

  /** At each turn of the strand the group that comes up fits behind what waits then. */
  predicate NeverTooMuch(s: State, actions: seq<Action>)
    decreases |actions|
  {
    actions != [] ==>
      && (actions[0].Running? && s.active && s.tasks != [] && s.tasks[0].Enqueue? ==>
            |s.queue| + |s.tasks[0].group| <= s.maxQueueSize)
      && NeverTooMuch(Step(s, actions[0]), actions[1..])
  }

  lemma {:induction false} OverflowsFrom(s: State, actions: seq<Action>)
    requires SocketMatches(s)
    ensures SocketMatches(Run(s, actions)) && Run(s, actions).overflowCount >= s.overflowCount
    ensures Run(s, actions).maxQueueSize == s.maxQueueSize
    ensures Run(s, actions).overflowCount == s.overflowCount <==> NeverTooMuch(s, actions)
    decreases |actions|
  {
    hide SocketMatches, Step;
    if actions != [] {
      var s' := Step(s, actions[0]);
      StepKeepsSocket(s, actions[0]);
      StepOverflows(s, actions[0]);
      OverflowsFrom(s', actions[1..]);
    }
  }

  /** One step overflows exactly if it brings up a group that does not fit. */
  lemma StepOverflows(s: State, a: Action)
    requires SocketMatches(s)
    ensures Step(s, a).overflowCount
         == s.overflowCount + if a.Running? && s.active && s.tasks != [] && s.tasks[0].Enqueue?
                                 && |s.queue| + |s.tasks[0].group| > s.maxQueueSize then 1 else 0
    ensures Step(s, a).maxQueueSize == s.maxQueueSize
  {
    hide Landed;
    if a.Finishing? && s.flight != [] { LandedKeeps(s, a.result); }
  }

  /** Over every run: the connection is given up because of the queue exactly if at some turn of the strand a
      group comes up that does not fit; until then the socket is open. */
  lemma OverflowExactly(maxQueueSize: nat, actions: seq<Action>)
    ensures var s := Run(Initial(maxQueueSize), actions);
            && (s.overflowCount == 0 <==> NeverTooMuch(Initial(maxQueueSize), actions))
            && (s.socketOpen <==> s.overflowCount == 0)
  {
    hide Run, NeverTooMuch;
    OverflowsFrom(Initial(maxQueueSize), actions);
  }

  function PostedCount(actions: seq<Action>): nat {
    if actions == [] then 0 else
      (if actions[0].Posting? then |actions[0].group| else 0) + PostedCount(actions[1..])
  }

  function TaskCount(tasks: seq<Task>): nat {
    if tasks == [] then 0 else (if tasks[0].Enqueue? then |tasks[0].group| else 0) + TaskCount(tasks[1..])
  }

  lemma {:induction false} TaskCountSnoc(tasks: seq<Task>, t: Task)
    ensures TaskCount(tasks + [t]) == TaskCount(tasks) + if t.Enqueue? then |t.group| else 0
  {
    if tasks == [] {
      assert [] + [t] == [t] && [t][1..] == [];
    } else {
      Front(tasks, [t]);
      TaskCountSnoc(tasks[1..], t);
    }
  }

  /** What waits in the queue or on the strand grows by what is posted, at most. */
  lemma LoadGrows(s: State, a: Action)
    ensures |Step(s, a).queue| + TaskCount(Step(s, a).tasks)
         <= |s.queue| + TaskCount(s.tasks) + if a.Posting? then |a.group| else 0
    ensures Step(s, a).maxQueueSize == s.maxQueueSize
  {
    hide RunNext, Finish, TaskCount;
    match a
    case Posting(group) => TaskCountSnoc(s.tasks, Enqueue(group));
    case Closing => TaskCountSnoc(s.tasks, Clear);
    case Running => LoadMoves(s);
    case Finishing(result) => LoadShrinks(s, result);
  }

  lemma LoadMoves(s: State)
    ensures |RunNext(s).queue| + TaskCount(RunNext(s).tasks) <= |s.queue| + TaskCount(s.tasks)
    ensures RunNext(s).maxQueueSize == s.maxQueueSize
  {
    hide TaskCount;
    if s.tasks != [] { TaskCountFront(s.tasks); }
  }

  lemma LoadShrinks(s: State, result: WriteResult)
    ensures |Finish(s, result).queue| <= |s.queue| && Finish(s, result).tasks == s.tasks
    ensures Finish(s, result).maxQueueSize == s.maxQueueSize
  {
    hide Landed;
    if s.flight != [] { LandedKeeps(s, result); }
  }

  lemma TaskCountFront(tasks: seq<Task>)
    requires tasks != []
    ensures TaskCount(tasks) == (if tasks[0].Enqueue? then |tasks[0].group| else 0) + TaskCount(tasks[1..])
  {
  }

  lemma {:induction false} SmallLoadFits(s: State, actions: seq<Action>)
    requires |s.queue| + TaskCount(s.tasks) + PostedCount(actions) <= s.maxQueueSize
    ensures NeverTooMuch(s, actions)
    decreases |actions|
  {
    hide Step, TaskCount;
    if actions != [] {
      if s.tasks != [] { TaskCountFront(s.tasks); }
      LoadGrows(s, actions[0]);
      SmallLoadFits(Step(s, actions[0]), actions[1..]);
    }
  }

  /** So callers that post no more than the limit never lose the connection, whatever the socket does. */
  lemma SmallLoadKeepsSocket(maxQueueSize: nat, actions: seq<Action>)
    requires PostedCount(actions) <= maxQueueSize
    ensures Run(Initial(maxQueueSize), actions).socketOpen
  {
    hide Run, NeverTooMuch;
    SmallLoadFits(Initial(maxQueueSize), actions);
    OverflowExactly(maxQueueSize, actions);
  }

  /** After a close, as opposed to an overflow, the queue is empty or a task to empty it is on its way. */
  ghost predicate ClosesEmpty(s: State) {
    !s.active && s.overflowCount == 0 ==> Clear in s.tasks || (s.queue == [] && !s.writing)
  }

  lemma StepKeepsClosing(s: State, a: Action)
    requires ClosesEmpty(s)
    ensures ClosesEmpty(Step(s, a))
  {
    hide Landed;
    match a
    case Posting(_) =>
    case Closing => assert (s.tasks + [Clear])[|s.tasks|] == Clear;
    case Running =>
      if s.tasks != [] && Clear in s.tasks && s.tasks[0] != Clear { assert Clear in s.tasks[1..]; }
    case Finishing(result) => if s.flight != [] { LandedKeeps(s, result); }
  }

  lemma {:induction false} ClosingRun(s: State, actions: seq<Action>)
    requires ClosesEmpty(s)
    ensures ClosesEmpty(Run(s, actions))
    decreases |actions|
  {
    hide ClosesEmpty, Step;
    if actions != [] {
      StepKeepsClosing(s, actions[0]);
      ClosingRun(Step(s, actions[0]), actions[1..]);
    }
  }

  /** Once the strand has run its tasks, a closed serializer holds no entries. */
  lemma CloseEmptiesQueue(maxQueueSize: nat, actions: seq<Action>)
    ensures var s := Run(Initial(maxQueueSize), actions);
            !s.active && s.overflowCount == 0 && s.tasks == [] ==> s.queue == [] && !s.writing
  {
    hide Run;
    ClosingRun(Initial(maxQueueSize), actions);
  }

  /** The groups that callers handed over, empty ones apart. */
  function HandedOver(actions: seq<Action>): seq<seq<Entry>> {
    if actions == [] then [] else
      (if actions[0].Posting? && actions[0].group != [] then [actions[0].group] else []) + HandedOver(actions[1..])
  }

  lemma PostedStep(s: State, a: Action)
    ensures Step(s, a).posted
         == s.posted + if s.active && a.Posting? && a.group != [] then [a.group] else []
    ensures Step(s, a).active ==> s.active
  {
    hide Landed;
    Empty(s.posted);
    if a.Finishing? && s.flight != [] { LandedKeeps(s, a.result); }
  }

  lemma {:induction false} PostedFrom(s: State, actions: seq<Action>)
    ensures s.posted <= Run(s, actions).posted <= s.posted + HandedOver(actions)
    ensures Run(s, actions).active ==> s.active && Run(s, actions).posted == s.posted + HandedOver(actions)
    decreases |actions|
  {
    hide Step;
    if actions == [] {
      Empty(s.posted);
    } else {
      var first := if actions[0].Posting? && actions[0].group != [] then [actions[0].group] else [];
      var later := HandedOver(actions[1..]);
      PostedStep(s, actions[0]);
      PostedFrom(Step(s, actions[0]), actions[1..]);
      Assoc(s.posted, first, later);
      PrefixOfMore(s.posted, first, later);
      if !s.active { NothingPosted(s, actions); }
    }
  }

  lemma PrefixOfMore(a: seq<seq<Entry>>, b: seq<seq<Entry>>, c: seq<seq<Entry>>)
    ensures a <= a + b && a <= a + (b + c)
  {
  }

  lemma {:induction false} NothingPosted(s: State, actions: seq<Action>)
    requires !s.active
    ensures Run(s, actions).posted == s.posted && !Run(s, actions).active
    decreases |actions|
  {
    CloseIsFinal(s, actions);
  }

  /** Everything callers hand over while the serializer is active is posted, and nothing else ever is. */
  lemma PostedExactly(maxQueueSize: nat, actions: seq<Action>)
    ensures var s := Run(Initial(maxQueueSize), actions);
            s.posted <= HandedOver(actions) && (s.active ==> s.posted == HandedOver(actions))
  {
    hide Run;
    PostedFrom(Initial(maxQueueSize), actions);
    Empty(HandedOver(actions));
  }

  /** After close or an overflow no group is taken, no write begins, and the serializer does not come back. */
  ghost predicate OnlyFinishes(s: State, s': State) {
    && !s'.active && s'.accepted == s.accepted && s'.posted == s.posted
    && |s'.flight| <= |s.flight| && s'.flight == s.flight[|s.flight| - |s'.flight|..]
  }

  lemma ClosedStep(s: State, a: Action)
    requires !s.active
    ensures OnlyFinishes(s, Step(s, a))
  {
    hide Landed;
    if a.Finishing? && s.flight != [] { LandedKeeps(s, a.result); }
  }

  lemma {:induction false} CloseIsFinal(s: State, actions: seq<Action>)
    requires !s.active
    ensures OnlyFinishes(s, Run(s, actions))
    decreases |actions|
  {
    hide Step;
    if actions != [] {
      ClosedStep(s, actions[0]);
      CloseIsFinal(Step(s, actions[0]), actions[1..]);
    }
  }

  lemma LandedKeeps(s: State, result: WriteResult)
    requires s.flight != []
    ensures var s' := Landed(s, result);
            && s'.flight == s.flight[1..] && s'.active == s.active && s'.tasks == s.tasks && s'.queue == s.queue
            && s'.writing == s.writing && s'.queuedCount == s.queuedCount && s'.accepted == s.accepted
            && s'.maxQueueSize == s.maxQueueSize && (result.WriteError? ==> s'.failed)
            && s'.overflowCount == s.overflowCount && s'.socketOpen == s.socketOpen && s'.posted == s.posted
  {
    hide EntryBytes;
  }

  lemma RunThree(s: State, a: Action, b: Action, c: Action)
    ensures Run(s, [a, b, c]) == Step(Step(Step(s, a), b), c)
  {
    hide Step;
    assert [a, b, c][1..] == [b, c] && [b, c][1..] == [c] && [c][1..] == [];
    assert Run(Step(Step(s, a), b), [c]) == Step(Step(Step(s, a), b), c);
  }

  // --------------------------------------------------------------------- the class

  class TcpWriteSerializer {
    const maxQueueSize: nat
    var queue: seq<Entry>
    var writing: bool
    var active: bool
    var queuedCount: nat
    var overflowCount: nat
    var socketOpen: bool
    /** The strand's tasks and the writes the socket is working on. */
    var tasks: seq<Task>
    var flight: seq<Entry>
    ghost var posted: seq<seq<Entry>>
    ghost var accepted: seq<seq<Entry>>
    ghost var completed: seq<Entry>
    ghost var failed: bool
    ghost var sent: bytes

    ghost function View(): State
      reads this
    {
      State(maxQueueSize, queue, writing, active, queuedCount, overflowCount, socketOpen, tasks, flight,
            posted, accepted, completed, failed, sent)
    }

    constructor (maxQueueSize: nat)
      ensures View() == Initial(maxQueueSize)
    {
      this.maxQueueSize := maxQueueSize;
      queue, writing, active, queuedCount, overflowCount, socketOpen := [], false, true, 0, 0, true;
      tasks, flight := [], [];
      posted, accepted, completed, failed, sent := [], [], [], false, [];
    }

    method IsActive() returns (r: bool)
      ensures r == (active && socketOpen)
    {
      r := active && socketOpen;
    }

    method PostGroup(group: seq<Entry>)
      modifies this
      ensures View() == Post(old(View()), group)
    {
      if !active || group == [] { return; }
      tasks := tasks + [Enqueue(group)];
      posted := posted + [group];
    }

    method SubmitFrame(entry: Entry)
      modifies this
      ensures View() == Post(old(View()), [entry])
    {
      PostGroup([entry]);
    }

    /** Empty data is dropped. */
    method Submit(data: bytes)
      modifies this
      ensures View() == if data == [] then old(View()) else Post(old(View()), [Inline(data)])
    {
      if data == [] { return; }
      SubmitFrame(Inline(data));
    }

    method SubmitBatch(batch: seq<bytes>)
      modifies this
      ensures View() == Post(old(View()), seq(|batch|, i requires 0 <= i < |batch| => Inline(batch[i])))
    {
      var group: seq<Entry> := [];
      for i := 0 to |batch|
        invariant group == seq(i, j requires 0 <= j < i => Inline(batch[j]))
        invariant View() == old(View())
      {
        group := group + [Inline(batch[i])];
      }
      PostGroup(group);
    }

    method CloseSerializer()
      modifies this
      ensures View() == Close(old(View()))
    {
      if !active { return; }
      active := false;
      tasks := tasks + [Clear];
    }

    /** do_write; the socket starts on the front entry's buffers. */
    method StartWrite()
      modifies `writing, `flight
      ensures View() == DoWrite(old(View()))
    {
      if queue == [] {
        writing := false;
        return;
      }
      writing := true;
      flight := flight + [queue[0]];
    }

    method HandleOverflow()
      modifies `overflowCount, `socketOpen, `active
      ensures View() == Overflow(old(View()))
    {
      overflowCount := overflowCount + 1;
      if socketOpen {
        socketOpen := false;
      }
      active := false;
    }

    /** The posted part of submit_frame and submit_batch. */
    method EnqueueGroup(group: seq<Entry>)
      modifies this
      ensures View() == RunEnqueue(old(View()), group)
    {
      if !active { return; }
      if |queue| + |group| > maxQueueSize {
        HandleOverflow();
        return;
      }
      ghost var before := queue;
      for i := 0 to |group|
        invariant queue == before + group[..i]
        invariant View().(queue := []) == old(View()).(queue := [])
      {
        queue := queue + [group[i]];
      }
      assert group[..|group|] == group;
      queuedCount := |queue|;
      accepted := accepted + [group];
      if !writing {
        StartWrite();
      }
    }

    /** The strand runs its next task. */
    method RunTask()
      modifies this
      ensures View() == RunNext(old(View()))
    {
      if tasks == [] { return; }
      var task := tasks[0];
      tasks := tasks[1..];
      match task
      case Enqueue(group) =>
        EnqueueGroup(group);
      case Clear =>
        queue, writing, queuedCount := [], false, 0;
    }

    /** The socket is done with the write in flight. */
    method Land(result: WriteResult)
      requires flight != []
      modifies `flight, `completed, `failed, `sent
      ensures View() == Landed(old(View()), result)
    {
      hide EntryBytes;
      ghost var after := Landed(View(), result);
      flight := flight[1..];
      completed, failed, sent := after.completed, after.failed, after.sent;
    }

    /** The completion handler of the write in flight. */
    method WriteCompleted(result: WriteResult)
      modifies this
      ensures View() == Finish(old(View()), result)
    {
      hide EntryBytes, Landed;
      if flight == [] { return; }
      Land(result);
      if result.WriteError? {
        queue, writing, queuedCount := [], false, 0;
        return;
      }
      if !active || queue == [] {
        writing, queuedCount := false, 0;
        return;
      }
      queue := queue[1..];
      queuedCount := |queue|;
      StartWrite();
    }
  }
}
