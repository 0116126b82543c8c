/** What every run of a media pipeline keeps: no frame is lost or sent twice, frames leave in order
    (kLiveBuffered) or not before their time (kPlayback), and the completion callback comes once, at the end. */
module MediaScheduling {
  import opened Sequences
  import opened MediaPipeline

  // ------------------------------------------------------------------ conservation

  function Frames(ds: seq<Dispatch>): (fs: seq<MediaFrame>)
    ensures |fs| == |ds|
  {
    if ds == [] then [] else Frames(ds[..|ds| - 1]) + [ds[|ds| - 1].frame]
  }

  /** Every frame put into the queue is still there or was handed to the sink, and never both. */
  ghost predicate Conserved(s: State) {
    multiset(s.accepted) == s.queue + multiset(Frames(s.dispatched))
  }

  lemma DispatchConserves(s: State, f: MediaFrame)
    requires Conserved(s) && f in s.queue
    ensures Conserved(Dispatched(s, f))
  {
    var d := Dispatch(f, s.now, !s.running);
    assert (s.dispatched + [d])[..|s.dispatched|] == s.dispatched;
    assert Frames(s.dispatched + [d]) == Frames(s.dispatched) + [f];
  }

  lemma ChosenIsThere(s: State, top: Chooser)
    requires ChoosesOldest(top) && s.queue != multiset{}
    ensures IsTop(s.queue, top(s.queue))
  {
  }

  lemma FlushConserves(c: Config, s: State, top: Chooser)
    requires Conserved(s) && ChoosesOldest(top)
    ensures Conserved(FlushOneFrame(c, s, top))
  {
    hide Frames;
    if |s.queue| > 1 {
      ChosenIsThere(s, top);
      DispatchConserves(s, top(s.queue));
    }
  }

  lemma DrainConserves(s: State, top: Chooser)
    requires Conserved(s) && ChoosesOldest(top)
    ensures Conserved(DrainEofQueue(s, top))
  {
    hide Frames;
    if s.queue != multiset{} {
      ChosenIsThere(s, top);
      DispatchConserves(s, top(s.queue));
    }
  }

  lemma ScheduleConserves(c: Config, s: State, top: Chooser, lag: nat)
    requires Sound(c) && Conserved(s) && ChoosesOldest(top)
    ensures Conserved(ScheduleNextFrame(c, s, top, lag))
  {
    hide Frames, DueTime;
    if s.queue != multiset{} {
      ChosenIsThere(s, top);
      var f := top(s.queue);
      DispatchConserves(s, f);
      DispatchConserves(s.(baseTimestamp := f.timestamp, baseWallTime := s.now, baseTimeSet := true), f);
    }
  }

  lemma ReceiveConserves(c: Config, s: State, f: MediaFrame, top: Chooser, lag: nat)
    requires Sound(c) && Conserved(s) && ChoosesOldest(top)
    ensures Conserved(ReceiveFrame(c, s, f, top, lag))
  {
    hide Frames, DueTime, FlushOneFrame, DrainEofQueue, ScheduleNextFrame;
    if s.running {
      if f.isEof {
        DrainConserves(s.(waits := CancelAll(s.waits), pacingActive := false, running := false), top);
      } else {
        var s' := s.(queue := s.queue + multiset{f}, accepted := s.accepted + [f]);
        FlushConserves(c, s'.(newest := if f.timestamp > s.newest then f.timestamp else s.newest), top);
        ScheduleConserves(c, s'.(pacingActive := true), top, lag);
      }
    }
  }

  lemma StepConserves(c: Config, s: State, e: Event)
    requires Sound(c) && Conserved(s) && HeapOrdered(e)
    ensures Conserved(Step(c, s, e))
  {
    hide Frames, DueTime, FlushOneFrame, DrainEofQueue, ScheduleNextFrame, ReceiveFrame;
    match e
    case TimePasses(_) =>
    case FramePosted(_) =>
    case TaskRuns(top, lag) =>
      if s.tasks != [] {
        var s' := s.(tasks := s.tasks[1..]);
        match s.tasks[0]
        case Receive(f) => ReceiveConserves(c, s', f, top, lag);
        case Flush => FlushConserves(c, s', top);
        case Drain => DrainConserves(s', top);
        case Schedule => ScheduleConserves(c, s', top, lag);
      }
    case HandlerRuns(i, aborted, top, lag) =>
      if CanRun(s, i, aborted) && s.queue != multiset{} {
        var s' := s.(waits := s.waits[..i] + s.waits[i + 1..]);
        ChosenIsThere(s', top);
        DispatchConserves(s', top(s'.queue));
        ScheduleConserves(c, Dispatched(s', top(s'.queue)), top, lag);
      }
  }

  // -------------------------------------------------------------- the end of the stream

  predicate NoEof(fs: seq<MediaFrame>) {
    forall i | 0 <= i < |fs| :: !fs[i].isEof
  }

  /** The frames in front of the first end-of-stream marker. */
  function BeforeEof(fs: seq<MediaFrame>): seq<MediaFrame> {
    if fs == [] || fs[0].isEof then [] else [fs[0]] + BeforeEof(fs[1..])
  }

  lemma {:induction false} BeforeEofIs(a: seq<MediaFrame>, b: seq<MediaFrame>)
    requires NoEof(a)
    ensures BeforeEof(a + b) == a + BeforeEof(b)
  {
    if a == [] {
      assert a + b == b;
    } else {
      assert (a + b)[0] == a[0] && (a + b)[1..] == a[1..] + b;
      BeforeEofIs(a[1..], b);
    }
  }

  /** The frames in posted tasks that have not run yet. */
  function Underway(tasks: seq<Task>): seq<MediaFrame> {
    if tasks == [] then [] else (if tasks[0].Receive? then [tasks[0].frame] else []) + Underway(tasks[1..])
  }

  lemma {:induction false} UnderwayAppend(a: seq<Task>, b: seq<Task>)
    ensures Underway(a + b) == Underway(a) + Underway(b)
  {
    if a == [] {
      assert a + b == b;
    } else {
      assert (a + b)[0] == a[0] && (a + b)[1..] == a[1..] + b;
      UnderwayAppend(a[1..], b);
    }
  }

  function Drains(s: State): nat {
    multiset(s.tasks)[Drain]
  }

  /** Posted frames are accepted in order, exactly those before the end of the stream; from the end of the
      stream on, either one drain task is on its way or the callback has come, and then nothing is left. */
  ghost predicate EndsOnce(s: State) {
    && NoEof(s.accepted)
    && Drains(s) + s.completions == (if s.running then 0 else 1)
    && (s.completions > 0 ==> s.queue == multiset{})
    && (s.running ==> s.posted == s.accepted + Underway(s.tasks))
    && (!s.running ==> s.accepted == BeforeEof(s.posted))
  }

  lemma TaskPosted(s: State, t: Task)
    requires !t.Receive?
    ensures Underway(s.tasks + [t]) == Underway(s.tasks)
  {
    UnderwayAppend(s.tasks, [t]);
    assert Underway([t]) == [];
  }

  lemma SendingEndsOnce(s: State, f: MediaFrame, t: Task)
    requires EndsOnce(s) && s.running && (t.Flush? || t.Schedule?)
    ensures EndsOnce(Dispatched(s, f)) && EndsOnce(PostTask(Dispatched(s, f), t))
  {
    hide Underway, BeforeEof;
    TaskPosted(s, t);
  }

  lemma FlushEndsOnce(c: Config, s: State, top: Chooser)
    requires EndsOnce(s) && s.running
    ensures EndsOnce(FlushOneFrame(c, s, top))
  {
    hide EndsOnce, Dispatched;
    SendingEndsOnce(s, top(s.queue), Flush);
  }

  /** The one drain task, taken from the strand, goes on or ends. */
  lemma DrainEndsOnce(s: State, top: Chooser)
    requires !s.running && Drains(s) + s.completions == 0
    requires NoEof(s.accepted) && s.accepted == BeforeEof(s.posted)
    ensures EndsOnce(DrainEofQueue(s, top))
  {
    hide Underway, BeforeEof;
  }

  lemma ScheduleEndsOnce(c: Config, s: State, top: Chooser, lag: nat)
    requires Sound(c) && EndsOnce(s)
    ensures EndsOnce(ScheduleNextFrame(c, s, top, lag))
  {
    hide DueTime, Underway, BeforeEof;
    if s.running && s.queue != multiset{} {
      var f := top(s.queue);
      SendingEndsOnce(s, f, Schedule);
      SendingEndsOnce(s.(baseTimestamp := f.timestamp, baseWallTime := s.now, baseTimeSet := true), f, Schedule);
    }
  }

  lemma ReceiveEndsOnce(c: Config, s: State, f: MediaFrame, top: Chooser, lag: nat)
    requires Sound(c) && EndsOnce(s.(tasks := [Receive(f)] + s.tasks))
    ensures EndsOnce(ReceiveFrame(c, s, f, top, lag))
  {
    hide BeforeEof, DueTime, FlushOneFrame, DrainEofQueue, ScheduleNextFrame;
    assert ([Receive(f)] + s.tasks)[1..] == s.tasks;
    assert Drains(s.(tasks := [Receive(f)] + s.tasks)) == Drains(s);
    if s.running {
      var rest := Underway(s.tasks);
      assert s.posted == s.accepted + ([f] + rest);
      if f.isEof {
        BeforeEofIs(s.accepted, [f] + rest);
        EofIsFirst(f, rest);
        DrainEndsOnce(s.(waits := CancelAll(s.waits), pacingActive := false, running := false), top);
      } else {
        assert s.posted == (s.accepted + [f]) + rest;
        var s' := s.(queue := s.queue + multiset{f}, accepted := s.accepted + [f]);
        FlushEndsOnce(c, s'.(newest := if f.timestamp > s.newest then f.timestamp else s.newest), top);
        ScheduleEndsOnce(c, s'.(pacingActive := true), top, lag);
      }
    }
  }

  lemma EofIsFirst(f: MediaFrame, rest: seq<MediaFrame>)
    requires f.isEof
    ensures BeforeEof([f] + rest) == []
  {
  }

  lemma PostEndsOnce(s: State, f: MediaFrame)
    requires EndsOnce(s)
    ensures EndsOnce(Post(s, f))
  {
    hide BeforeEof;
    UnderwayAppend(s.tasks, [Receive(f)]);
    assert Underway([Receive(f)]) == [f] + Underway([]);
    assert s.accepted + Underway(s.tasks) + [f] == s.accepted + (Underway(s.tasks) + [f]);
  }

  lemma TaskEndsOnce(c: Config, s: State, top: Chooser, lag: nat)
    requires Sound(c) && EndsOnce(s)
    ensures EndsOnce(RunTask(c, s, top, lag))
  {
    hide BeforeEof, NoEof, DueTime, FlushOneFrame, DrainEofQueue, ScheduleNextFrame, ReceiveFrame;
    if s.tasks != [] {
      var s' := s.(tasks := s.tasks[1..]);
      assert s.tasks == [s.tasks[0]] + s'.tasks;
      assert s == s'.(tasks := [s.tasks[0]] + s'.tasks);
      match s.tasks[0]
      case Receive(f) => ReceiveEndsOnce(c, s', f, top, lag);
      case Flush => if s.running { FlushEndsOnce(c, s', top); }
      case Drain => DrainEndsOnce(s', top);
      case Schedule => ScheduleEndsOnce(c, s', top, lag);
    }
  }

  lemma StepEndsOnce(c: Config, s: State, e: Event)
    requires Sound(c) && EndsOnce(s)
    ensures EndsOnce(Step(c, s, e))
  {
    hide BeforeEof, NoEof, Underway, RunTask, Post, ScheduleNextFrame;
    match e
    case TimePasses(_) =>
    case FramePosted(f) => PostEndsOnce(s, f);
    case TaskRuns(top, lag) => TaskEndsOnce(c, s, top, lag);
    case HandlerRuns(i, aborted, top, lag) =>
      if CanRun(s, i, aborted) && s.running && s.queue != multiset{} {
        var s' := s.(waits := s.waits[..i] + s.waits[i + 1..]);
        SendingEndsOnce(s', top(s'.queue), Schedule);
        ScheduleEndsOnce(c, Dispatched(s', top(s'.queue)), top, lag);
      }
  }

  // ------------------------------------------------------------------------ all runs

  lemma {:induction false} RunKeeps(c: Config, s: State, events: seq<Event>)
    requires Sound(c) && AllHeapOrdered(events) && Conserved(s) && EndsOnce(s)
    ensures Conserved(Run(c, s, events)) && EndsOnce(Run(c, s, events))
    decreases |events|
  {
    hide Conserved, EndsOnce, Step;
    if events != [] {
      StepConserves(c, s, events[0]);
      StepEndsOnce(c, s, events[0]);
      RunKeeps(c, Step(c, s, events[0]), events[1..]);
    }
  }

  /** The frames that the source hands over. */
  function Given(events: seq<Event>): seq<MediaFrame> {
    if events == [] then [] else (if events[0].FramePosted? then [events[0].frame] else []) + Given(events[1..])
  }

  predicate HasEof(fs: seq<MediaFrame>) {
    exists i | 0 <= i < |fs| :: fs[i].isEof
  }

  lemma {:induction false} BeforeEofPrefix(a: seq<MediaFrame>, b: seq<MediaFrame>)
    requires a <= b && HasEof(a)
    ensures BeforeEof(a) == BeforeEof(b)
  {
    if !a[0].isEof {
      var i :| 0 <= i < |a| && a[i].isEof;
      assert a[1..][i - 1] == a[i];
      BeforeEofPrefix(a[1..], b[1..]);
    }
  }

  lemma {:induction false} UnderwayHas(tasks: seq<Task>, posted: seq<MediaFrame>, accepted: seq<MediaFrame>)
    requires tasks != [] && tasks[0].Receive? && tasks[0].frame.isEof && posted == accepted + Underway(tasks)
    ensures HasEof(posted)
  {
    hide Underway;
    UnderwayFront(tasks);
    assert posted[|accepted|] == tasks[0].frame;
  }

  lemma UnderwayFront(tasks: seq<Task>)
    requires tasks != [] && tasks[0].Receive?
    ensures Underway(tasks) == [tasks[0].frame] + Underway(tasks[1..])
  {
  }

  /** Only the end of the stream ends the running state, and it does so for good. */
  lemma StepGives(c: Config, s: State, e: Event)
    requires Sound(c)
    ensures Step(c, s, e).posted == s.posted + if s.running && e.FramePosted? then [e.frame] else []
    ensures Step(c, s, e).running ==> s.running
    ensures s.running && !Step(c, s, e).running ==>
              e.TaskRuns? && s.tasks != [] && s.tasks[0].Receive? && s.tasks[0].frame.isEof
  {
    hide ScheduleNextFrame, FlushOneFrame, DrainEofQueue, ReceiveFrame, Dispatched;
    Empty(s.posted);
    match e
    case TimePasses(_) =>
    case FramePosted(_) =>
    case TaskRuns(top, lag) =>
      if s.tasks != [] {
        var s' := s.(tasks := s.tasks[1..]);
        StaysRunning(c, s', top, lag);
        if s.tasks[0].Receive? { OnlyEofEnds(c, s', s.tasks[0].frame, top, lag); }
      }
    case HandlerRuns(i, aborted, top, lag) =>
      if CanRun(s, i, aborted) {
        var s' := s.(waits := s.waits[..i] + s.waits[i + 1..]);
        DispatchRuns(s', top(s'.queue));
        StaysRunning(c, Dispatched(s', top(s'.queue)), top, lag);
      }
  }

  lemma DispatchRuns(s: State, f: MediaFrame)
    ensures Dispatched(s, f).running == s.running && Dispatched(s, f).posted == s.posted
  {
  }

  lemma StaysRunning(c: Config, s: State, top: Chooser, lag: nat)
    requires Sound(c)
    ensures FlushOneFrame(c, s, top).running == s.running && DrainEofQueue(s, top).running == s.running
    ensures ScheduleNextFrame(c, s, top, lag).running == s.running
  {
    hide ScheduleNextFrame;
    ScheduleRuns(c, s, top, lag);
  }

  lemma ScheduleRuns(c: Config, s: State, top: Chooser, lag: nat)
    requires Sound(c)
    ensures ScheduleNextFrame(c, s, top, lag).running == s.running
  {
    hide DueTime, CancelAll;
  }

  lemma OnlyEofEnds(c: Config, s: State, f: MediaFrame, top: Chooser, lag: nat)
    requires Sound(c)
    ensures ReceiveFrame(c, s, f, top, lag).running == (s.running && !f.isEof)
  {
    hide ScheduleNextFrame, FlushOneFrame, DrainEofQueue;
    if s.running {
      if f.isEof {
        StaysRunning(c, s.(waits := CancelAll(s.waits), pacingActive := false, running := false), top, lag);
      } else {
        var s' := s.(queue := s.queue + multiset{f}, accepted := s.accepted + [f]);
        StaysRunning(c, s'.(newest := if f.timestamp > s.newest then f.timestamp else s.newest), top, lag);
        StaysRunning(c, s'.(pacingActive := true), top, lag);
      }
    }
  }

  lemma {:induction false} GivenIsPosted(c: Config, s: State, events: seq<Event>)
    requires Sound(c) && AllHeapOrdered(events) && EndsOnce(s) && (s.running || HasEof(s.posted))
    ensures var s' := Run(c, s, events);
            && s.posted <= s'.posted <= s.posted + Given(events)
            && (s'.running ==> s.running && s'.posted == s.posted + Given(events))
            && (s'.running || HasEof(s'.posted))
    decreases |events|
  {
    hide EndsOnce, Step, HasEof;
    if events == [] {
      Empty(s.posted);
    } else {
      var e, s1 := events[0], Step(c, s, events[0]);
      var first := if e.FramePosted? then [e.frame] else [];
      StepGives(c, s, e);
      StepEndsOnce(c, s, e);
      EofStays(s, e, s1);
      GivenIsPosted(c, s1, events[1..]);
      Assoc(s.posted, first, Given(events[1..]));
      if !s.running {
        StaysEnded(c, s1, events[1..]);
      }
    }
  }

  lemma EofStays(s: State, e: Event, s1: State)
    requires EndsOnce(s) && (s.running || HasEof(s.posted)) && s.posted <= s1.posted
    requires s.running && !s1.running ==> s.tasks != [] && s.tasks[0].Receive? && s.tasks[0].frame.isEof
    ensures s1.running || HasEof(s1.posted)
  {
    hide Underway, BeforeEof, NoEof;
    if s.running && !s1.running {
      UnderwayHas(s.tasks, s.posted, s.accepted);
    }
    if HasEof(s.posted) {
      var i :| 0 <= i < |s.posted| && s.posted[i].isEof;
      assert s1.posted[i] == s.posted[i];
    }
  }

  lemma {:induction false} StaysEnded(c: Config, s: State, events: seq<Event>)
    requires Sound(c) && !s.running
    ensures !Run(c, s, events).running && Run(c, s, events).posted == s.posted
    decreases |events|
  {
    hide Step;
    if events != [] {
      StepGives(c, s, events[0]);
      Empty(s.posted);
      StaysEnded(c, Step(c, s, events[0]), events[1..]);
    }
  }

  /** Exactly once, in either mode and over every run: whatever was handed to the sink or still waits is what
      was accepted, nothing doubled, nothing lost; and when the completion callback has come, it came once, and
      the sink has got exactly the frames that the source posted before the end of its stream. */
  lemma ExactlyOnce(c: Config, now: int, events: seq<Event>)
    requires Sound(c) && AllHeapOrdered(events)
    ensures var s := Run(c, Started(now), events);
            && s.queue + multiset(Frames(s.dispatched)) == multiset(s.accepted)
            && s.accepted <= BeforeEof(s.posted)
            && s.completions <= 1
            && s.posted <= Given(events) && (s.running ==> s.posted == Given(events))
            && (s.completions == 1 ==>
                  multiset(Frames(s.dispatched)) == multiset(BeforeEof(s.posted)) == multiset(BeforeEof(Given(events))))
  {
    hide Run, Given;
    var s := Run(c, Started(now), events);
    RunKeeps(c, Started(now), events);
    GivenIsPosted(c, Started(now), events);
    Empty(Given(events));
    if !s.running { BeforeEofPrefix(s.posted, Given(events)); }
    if s.running {
      BeforeEofIs(s.accepted, Underway(s.tasks));
    }
  }

  /** The callback is the last thing that happens: after it no frame is handed to the sink, and it does not
      come again. */
  lemma {:induction false} NothingAfterCompletion(c: Config, s: State, events: seq<Event>)
    requires Sound(c) && AllHeapOrdered(events) && EndsOnce(s) && s.completions == 1
    ensures var s' := Run(c, s, events); s'.dispatched == s.dispatched && s'.completions == 1
    decreases |events|
  {
    hide BeforeEof, NoEof, Underway, FlushOneFrame, DueTime;
    if events != [] {
      StepEndsOnce(c, s, events[0]);
      QuietStep(c, s, events[0]);
      NothingAfterCompletion(c, Step(c, s, events[0]), events[1..]);
    }
  }

  lemma QuietStep(c: Config, s: State, e: Event)
    requires Sound(c) && EndsOnce(s) && s.completions == 1
    ensures Step(c, s, e).dispatched == s.dispatched && Step(c, s, e).completions == 1
  {
    hide BeforeEof, NoEof, Underway, FlushOneFrame, DueTime;
    assert Drains(s) == 0;
    assert s.tasks != [] ==> s.tasks[0] in multiset(s.tasks);
  }

  /** How many of the events are turns of the strand. */
  function Turns(events: seq<Event>): nat {
    if events == [] then 0 else (if events[0].TaskRuns? then 1 else 0) + Turns(events[1..])
  }

  /** From the end of the stream on, as many task turns as there are tasks and waiting frames bring the
      completion callback, whatever else happens in between: the drain never stops half way. */
  lemma {:induction false} DrainFinishes(c: Config, s: State, events: seq<Event>)
    requires Sound(c) && AllHeapOrdered(events) && EndsOnce(s) && !s.running
    requires Turns(events) >= |s.tasks| + |s.queue|
    ensures Run(c, s, events).completions == 1
    decreases |events|
  {
    hide BeforeEof, NoEof, Underway, Step, EndsOnce, Drains;
    if |s.tasks| + |s.queue| == 0 {
      NothingLeft(s);
      NothingAfterCompletion(c, s, events);
    } else if events != [] {
      if events[0].TaskRuns? {
        DrainTurn(c, s, events[0]);
      } else {
        OtherEventsIdle(c, s, events[0]);
      }
      StepEndsOnce(c, s, events[0]);
      DrainFinishes(c, Step(c, s, events[0]), events[1..]);
    }
  }

  lemma NothingLeft(s: State)
    requires EndsOnce(s) && !s.running && s.tasks == []
    ensures s.completions == 1
  {
    hide BeforeEof, NoEof, Underway;
    assert Drains(s) == 0;
  }

  /** Once the pipeline has stopped running, posts, time and timer handlers leave strand and queue alone. */
  lemma OtherEventsIdle(c: Config, s: State, e: Event)
    requires Sound(c) && !s.running && !e.TaskRuns?
    ensures var s' := Step(c, s, e); !s'.running && s'.tasks == s.tasks && s'.queue == s.queue
  {
    hide ScheduleNextFrame;
  }

  lemma DrainTurn(c: Config, s: State, e: Event)
    requires Sound(c) && HeapOrdered(e) && EndsOnce(s) && !s.running && e.TaskRuns?
    requires |s.tasks| + |s.queue| > 0
    ensures var s' := Step(c, s, e); !s'.running && |s'.tasks| + |s'.queue| == |s.tasks| + |s.queue| - 1
  {
    hide BeforeEof, NoEof, Underway, FlushOneFrame, ReceiveFrame, ScheduleNextFrame, DrainEofQueue, Drains;
    TasksRemain(s);
    var s' := s.(tasks := s.tasks[1..]);
    if s.tasks[0].Drain? {
      DrainShrinks(s', e.top);
    } else {
      NotRunningIdles(c, s', e.top, e.lag);
    }
  }

  /** A frame that waits behind the end of the stream has its drain task. */
  lemma TasksRemain(s: State)
    requires EndsOnce(s) && !s.running && |s.tasks| + |s.queue| > 0
    ensures s.tasks != []
  {
    if s.tasks == [] {
      NothingLeft(s);
    }
  }

  lemma DrainShrinks(s: State, top: Chooser)
    requires ChoosesOldest(top) && !s.running
    ensures var s' := DrainEofQueue(s, top);
            !s'.running && |s'.tasks| + |s'.queue| == |s.tasks| + |s.queue|
  {
    if s.queue != multiset{} {
      ChosenIsThere(s, top);
      assert |s.queue - multiset{top(s.queue)}| == |s.queue| - 1;
    }
  }

  /** Tasks other than the drain do nothing to queue and strand then. */
  lemma NotRunningIdles(c: Config, s: State, top: Chooser, lag: nat)
    requires Sound(c) && !s.running
    ensures ScheduleNextFrame(c, s, top, lag) == s.(pacingActive := false)
    ensures forall f :: ReceiveFrame(c, s, f, top, lag) == s
  {
  }
}
