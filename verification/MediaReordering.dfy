/** The reordering buffer (kLiveBuffered): frames leave in order if they arrive not too late, and none that is
    old enough stays behind. */
module MediaReordering {
  import opened MediaPipeline
  import opened MediaScheduling

  /** The newest timestamp seen; the field starts at 0. */
  function Newest(fs: seq<MediaFrame>): int {
    if fs == [] then 0 else
      var n, last := Newest(fs[..|fs| - 1]), fs[|fs| - 1].timestamp;
      if last > n then last else n
  }

  /** No frame is older than the newest one before it by more than the buffer holds. */
  predicate InTime(c: Config, fs: seq<MediaFrame>) {
    forall i | 0 <= i < |fs| :: fs[i].timestamp >= Newest(fs[..i]) - c.bufferDuration
  }

  predicate Sorted(ds: seq<Dispatch>) {
    forall i, j | 0 <= i < j < |ds| :: ds[i].frame.timestamp <= ds[j].frame.timestamp
  }

  predicate AllAtMost(ds: seq<Dispatch>, t: int) {
    forall i | 0 <= i < |ds| :: ds[i].frame.timestamp <= t
  }

  /** What has left is in order, not newer than anything that waits, and older than the buffer allows. */
  ghost predicate Ordered(c: Config, s: State) {
    && s.waits == [] && Schedule !in s.tasks
    && (s.running ==> s.newest == Newest(s.accepted))
    && Sorted(s.dispatched)
    && (forall f | f in s.queue :: AllAtMost(s.dispatched, f.timestamp))
    && (s.running ==> AllAtMost(s.dispatched, s.newest - c.bufferDuration))
  }

  lemma OldestLeaves(c: Config, s: State, f: MediaFrame)
    requires Ordered(c, s) && IsTop(s.queue, f)
    requires s.running ==> f.timestamp <= s.newest - c.bufferDuration
    ensures Ordered(c, Dispatched(s, f))
  {
    hide Newest;
    var s' := Dispatched(s, f);
    forall g | g in s'.queue
      ensures AllAtMost(s'.dispatched, g.timestamp)
    {
      assert g in s.queue;
    }
  }

  lemma FlushOrdered(c: Config, s: State, top: Chooser)
    requires Ordered(c, s) && ChoosesOldest(top)
    ensures Ordered(c, FlushOneFrame(c, s, top))
  {
    hide Newest, Sorted, AllAtMost;
    if |s.queue| > 1 {
      ChosenIsThere(s, top);
      var f := top(s.queue);
      if s.newest - f.timestamp >= c.bufferDuration {
        OldestLeaves(c, s, f);
      }
    }
  }

  lemma DrainOrdered(c: Config, s: State, top: Chooser)
    requires Ordered(c, s) && ChoosesOldest(top) && !s.running
    ensures Ordered(c, DrainEofQueue(s, top))
  {
    hide Newest, Sorted, AllAtMost;
    if s.queue != multiset{} {
      ChosenIsThere(s, top);
      OldestLeaves(c, s, top(s.queue));
    }
  }

  /** A frame that arrives in time is not older than what has left. */
  lemma ArrivalOrdered(c: Config, s: State, f: MediaFrame)
    requires Ordered(c, s) && s.running && f.timestamp >= s.newest - c.bufferDuration
    ensures Ordered(c, s.(queue := s.queue + multiset{f}, accepted := s.accepted + [f],
                          newest := if f.timestamp > s.newest then f.timestamp else s.newest))
  {
    assert (s.accepted + [f])[..|s.accepted|] == s.accepted;
  }

  lemma NextPosted(s: State, f: MediaFrame)
    requires EndsOnce(s) && s.running && s.tasks != [] && s.tasks[0] == Receive(f)
    ensures s.posted == (s.accepted + [f]) + Underway(s.tasks[1..]) && NoEof(s.accepted)
  {
  }

  /** The next frame to be accepted is in time because the source's frames are. */
  lemma NextIsInTime(c: Config, s: State, f: MediaFrame)
    requires EndsOnce(s) && s.running && s.tasks != [] && s.tasks[0] == Receive(f) && !f.isEof
    requires s.newest == Newest(s.accepted) && InTime(c, BeforeEof(s.posted))
    ensures f.timestamp >= s.newest - c.bufferDuration
  {
    hide EndsOnce, Newest, Underway, BeforeEof;
    NextPosted(s, f);
    var rest := Underway(s.tasks[1..]);
    BeforeEofIs(s.accepted + [f], rest);
    var fs, i := BeforeEof(s.posted), |s.accepted|;
    assert fs[i] == f && fs[..i] == s.accepted;
  }

  lemma TaskOrdered(c: Config, s: State, top: Chooser, lag: nat)
    requires Sound(c) && c.mode == LiveBuffered && ChoosesOldest(top)
    requires EndsOnce(s) && Ordered(c, s) && InTime(c, BeforeEof(s.posted))
    ensures Ordered(c, RunTask(c, s, top, lag))
  {
    hide EndsOnce, InTime, Newest, BeforeEof, Sorted, AllAtMost, FlushOneFrame, DrainEofQueue, ScheduleNextFrame;
    if s.tasks != [] {
      var s' := s.(tasks := s.tasks[1..]);
      assert s.tasks[0] in s.tasks;
      assert Ordered(c, s');
      match s.tasks[0]
      case Receive(f) =>
        if s.running {
          if f.isEof {
            DrainOrdered(c, s'.(waits := CancelAll(s'.waits), pacingActive := false, running := false), top);
          } else {
            NextIsInTime(c, s, f);
            ArrivalOrdered(c, s', f);
            FlushOrdered(c, s'.(queue := s.queue + multiset{f}, accepted := s.accepted + [f],
                                newest := if f.timestamp > s.newest then f.timestamp else s.newest), top);
          }
        }
      case Flush => if s.running { FlushOrdered(c, s', top); }
      case Drain => DrainIsLate(s); DrainOrdered(c, s', top);
      case Schedule =>
    }
  }

  lemma DrainIsLate(s: State)
    requires EndsOnce(s) && s.tasks != [] && s.tasks[0] == Drain
    ensures !s.running
  {
    assert s.tasks[0] in multiset(s.tasks);
  }

  lemma StepOrdered(c: Config, s: State, e: Event)
    requires Sound(c) && c.mode == LiveBuffered && HeapOrdered(e)
    requires EndsOnce(s) && Ordered(c, s) && InTime(c, BeforeEof(s.posted))
    ensures Ordered(c, Step(c, s, e))
  {
    hide EndsOnce, InTime, Newest, BeforeEof, Sorted, AllAtMost, RunTask, TimerHandler;
    if e.TaskRuns? {
      TaskOrdered(c, s, e.top, e.lag);
    }
  }

  // -------------------------------------------------------------------- in order

  lemma PostedGrowsInStep(c: Config, s: State, e: Event)
    requires Sound(c)
    ensures s.posted <= Step(c, s, e).posted
  {
    hide DueTime, FlushOneFrame, DrainEofQueue, ScheduleNextFrame, ReceiveFrame, RunTask;
  }

  lemma {:induction false} PostedGrows(c: Config, s: State, events: seq<Event>)
    requires Sound(c)
    ensures s.posted <= Run(c, s, events).posted
    decreases |events|
  {
    hide Step;
    if events != [] {
      PostedGrowsInStep(c, s, events[0]);
      PostedGrows(c, Step(c, s, events[0]), events[1..]);
    }
  }

  lemma {:induction false} BeforeEofGrows(a: seq<MediaFrame>, b: seq<MediaFrame>)
    requires a <= b
    ensures BeforeEof(a) <= BeforeEof(b)
  {
    if a != [] && !a[0].isEof {
      BeforeEofGrows(a[1..], b[1..]);
    }
  }

  lemma InTimeSoFar(c: Config, a: seq<MediaFrame>, b: seq<MediaFrame>)
    requires a <= b && InTime(c, BeforeEof(b))
    ensures InTime(c, BeforeEof(a))
  {
    BeforeEofGrows(a, b);
    var x, y := BeforeEof(a), BeforeEof(b);
    forall i | 0 <= i < |x|
      ensures x[i].timestamp >= Newest(x[..i]) - c.bufferDuration
    {
      assert x[i] == y[i] && x[..i] == y[..i];
    }
  }

  lemma {:induction false} RunOrdered(c: Config, s: State, events: seq<Event>)
    requires Sound(c) && c.mode == LiveBuffered && AllHeapOrdered(events)
    requires EndsOnce(s) && Ordered(c, s) && InTime(c, BeforeEof(Run(c, s, events).posted))
    ensures Ordered(c, Run(c, s, events))
    decreases |events|
  {
    hide EndsOnce, Ordered, InTime, BeforeEof, Step;
    if events != [] {
      PostedGrows(c, s, events);
      InTimeSoFar(c, s.posted, Run(c, s, events).posted);
      StepOrdered(c, s, events[0]);
      StepEndsOnce(c, s, events[0]);
      RunOrdered(c, Step(c, s, events[0]), events[1..]);
    }
  }

  /** Over every run in which the source's frames are not later than the buffer allows, the sink gets them in
      order of their timestamps, the drain at the end included. */
  lemma DispatchedInOrder(c: Config, now: int, events: seq<Event>)
    requires Sound(c) && c.mode == LiveBuffered && AllHeapOrdered(events)
    requires InTime(c, BeforeEof(Run(c, Started(now), events).posted))
    ensures Sorted(Run(c, Started(now), events).dispatched)
  {
    hide Run;
    RunOrdered(c, Started(now), events);
  }

  // -------------------------------------------------------------- nothing stays behind

  /** No waiting frame is old enough to leave. */
  ghost predicate Settled(c: Config, queue: multiset<MediaFrame>, newest: int) {
    |queue| <= 1 || forall f | f in queue :: newest - f.timestamp < c.bufferDuration
  }

  ghost predicate Progresses(c: Config, s: State) {
    s.running ==> Flush in s.tasks || Settled(c, s.queue, s.newest)
  }

  lemma FlushProgresses(c: Config, s: State, top: Chooser)
    requires ChoosesOldest(top)
    requires s.waits == [] && Schedule !in s.tasks
    ensures var s' := FlushOneFrame(c, s, top); s'.waits == [] && Schedule !in s'.tasks && Progresses(c, s')
  {
    if |s.queue| > 1 {
      ChosenIsThere(s, top);
    }
  }

  lemma StepProgresses(c: Config, s: State, e: Event)
    requires Sound(c) && c.mode == LiveBuffered && HeapOrdered(e) && EndsOnce(s)
    requires s.waits == [] && Schedule !in s.tasks && Progresses(c, s)
    ensures var s' := Step(c, s, e); s'.waits == [] && Schedule !in s'.tasks && Progresses(c, s')
  {
    hide EndsOnce, ScheduleNextFrame, Settled, FlushOneFrame;
    if e.TaskRuns? && s.tasks != [] {
      var s' := s.(tasks := s.tasks[1..]);
      assert s.tasks == [s.tasks[0]] + s'.tasks;
      match s.tasks[0]
      case Receive(f) =>
        if s.running && !f.isEof {
          FlushProgresses(c, s'.(queue := s.queue + multiset{f}, accepted := s.accepted + [f],
                                 newest := if f.timestamp > s.newest then f.timestamp else s.newest), e.top);
        }
      case Flush => FlushProgresses(c, s', e.top);
      case Drain => DrainIsLate(s);
      case Schedule =>
    }
  }

  lemma {:induction false} RunProgresses(c: Config, s: State, events: seq<Event>)
    requires Sound(c) && c.mode == LiveBuffered && AllHeapOrdered(events) && EndsOnce(s)
    requires s.waits == [] && Schedule !in s.tasks && Progresses(c, s)
    ensures Progresses(c, Run(c, s, events))
    decreases |events|
  {
    hide EndsOnce, Progresses, Step;
    if events != [] {
      StepProgresses(c, s, events[0]);
      StepEndsOnce(c, s, events[0]);
      RunProgresses(c, Step(c, s, events[0]), events[1..]);
    }
  }

  /** Whenever no flush task is on its way, at most one frame waits or every waiting frame is still younger
      than the buffer's length: a frame that may leave is never stranded. */
  lemma NoFrameStranded(c: Config, now: int, events: seq<Event>)
    requires Sound(c) && c.mode == LiveBuffered && AllHeapOrdered(events)
    ensures var s := Run(c, Started(now), events); s.running && Flush !in s.tasks ==> Settled(c, s.queue, s.newest)
  {
    hide Run;
    RunProgresses(c, Started(now), events);
  }
}
