/** Paced playback (kPlayback): at most one continuation is on its way, and no frame leaves before its time. */
module MediaPacing {
  import opened Sequences
  import opened MediaPipeline
  import opened MediaScheduling

  function Schedules(s: State): nat {
    multiset(s.tasks)[Schedule]
  }

  /** While the pipeline runs, exactly one continuation (a posted task or a wait on the timer) exists if pacing
      is active, and none otherwise; and pacing is active whenever a frame waits. */
  ghost predicate OneContinuation(s: State) {
    && Flush !in s.tasks
    && (!s.running ==> !s.pacingActive && (forall i | 0 <= i < |s.waits| :: s.waits[i].cancelled))
    && (s.running ==>
          && (forall i | 0 <= i < |s.waits| :: !s.waits[i].cancelled)
          && Schedules(s) + |s.waits| == (if s.pacingActive then 1 else 0)
          && (!s.pacingActive ==> s.queue == multiset{}))
  }

  /** The base from which due times are counted, if it is set. */
  datatype Base = Base(isSet: bool, timestamp: int, wallTime: int)

  function BaseOf(s: State): Base {
    Base(s.baseTimeSet, s.baseTimestamp, s.baseWallTime)
  }

  /** Media time from the base to a frame; a frame from before the base counts as one at the base. */
  function MediaTime(base: Base, f: MediaFrame): nat {
    if f.timestamp < base.timestamp then 0 else f.timestamp - base.timestamp
  }

  /** So many milliseconds of playback take up at most, or at least, that much media time. */
  predicate PlaysAtMost(c: Config, k: nat, mediaTime: nat) {
    k * c.speedNum <= mediaTime * c.speedDen
  }

  predicate PlaysAtLeast(c: Config, k: nat, mediaTime: nat) {
    k * c.speedNum >= mediaTime * c.speedDen
  }

  /** At a time, or after it, every whole millisecond has passed that playback needs to get to the frame. */
  ghost predicate NotEarly(c: Config, base: Base, f: MediaFrame, at: int) {
    forall k: nat | PlaysAtMost(c, k, MediaTime(base, f)) :: base.wallTime + 1_000_000 * k <= at
  }

  /** The time is not behind the first whole millisecond at which playback has got to the frame. */
  ghost predicate NotLate(c: Config, base: Base, f: MediaFrame, at: int) {
    forall k: nat | PlaysAtLeast(c, k, MediaTime(base, f)) :: at <= base.wallTime + 1_000_000 * k
  }

  ghost predicate DueBy(c: Config, base: Base, f: MediaFrame, at: int) {
    base.isSet && NotEarly(c, base, f, at)
  }

  lemma QuotientBounds(n: nat, d: nat, k: nat)
    requires d > 0
    ensures k * d <= n <==> k <= n / d
    ensures k * d >= n ==> n / d <= k
  {
    assert n == (n / d) * d + n % d;
    if k <= n / d { ProductGrows(k, n / d, d); }
    if k > n / d {
      ProductGrows(n / d + 1, k, d);
      assert (n / d + 1) * d == (n / d) * d + d;
    }
  }

  /** The due time that the scheduler computes is the one time that is neither early nor late, and the times
      behind it are those that are not early. */
  lemma DueTimeExactly(c: Config, base: Base, f: MediaFrame, at: int)
    requires Sound(c)
    ensures var due := DueTime(c, base.timestamp, base.wallTime, f);
            && (due <= at <==> NotEarly(c, base, f, at))
            && (at <= due ==> NotLate(c, base, f, at))
  {
    var n := MediaTime(base, f) * c.speedDen;
    var q := n / c.speedNum;
    forall k: nat
      ensures PlaysAtMost(c, k, MediaTime(base, f)) <==> k <= q
      ensures PlaysAtLeast(c, k, MediaTime(base, f)) ==> q <= k
    {
      QuotientBounds(n, c.speedNum, k);
    }
    assert PlaysAtMost(c, q, MediaTime(base, f));
  }

  /** Frames sent by pacing were sent at their due time or later. */
  ghost predicate SentOnTime(c: Config, base: Base, ds: seq<Dispatch>) {
    forall i | 0 <= i < |ds| :: !ds[i].drained ==> DueBy(c, base, ds[i].frame, ds[i].at)
  }

  /** The timer was set for a frame that still waits, for just the time at which the frame is due; only the time
      that setting it took comes on top. */
  ghost predicate SetOnTime(c: Config, base: Base, w: Wait, queue: multiset<MediaFrame>) {
    && w.frame in queue && DueBy(c, base, w.frame, w.deadline - w.lag)
    && NotLate(c, base, w.frame, w.deadline - w.lag)
  }

  ghost predicate WaitsOnTime(c: Config, base: Base, waits: seq<Wait>, queue: multiset<MediaFrame>) {
    forall i | 0 <= i < |waits| :: SetOnTime(c, base, waits[i], queue)
  }

  /** Times count from the first frame that was sent, and from when it was sent. */
  predicate BaseIsFirst(s: State) {
    s.baseTimeSet ==>
      && s.dispatched != [] && !s.dispatched[0].drained
      && s.baseTimestamp == s.dispatched[0].frame.timestamp && s.baseWallTime == s.dispatched[0].at
  }

  /** While the pipeline runs, nothing is sent before the base is set. */
  predicate NothingBeforeBase(s: State) {
    s.running && !s.baseTimeSet ==> s.dispatched == []
  }

  ghost predicate OnTime(c: Config, s: State) {
    && BaseIsFirst(s) && NothingBeforeBase(s)
    && SentOnTime(c, BaseOf(s), s.dispatched)
    && (s.running ==> WaitsOnTime(c, BaseOf(s), s.waits, s.queue))
  }

  lemma ProductGrows(a: int, b: int, k: int)
    requires a <= b && k > 0
    ensures a * k <= b * k
  {
  }

  /** An older frame is not early when a younger one is not. */
  lemma OlderIsNotEarly(c: Config, base: Base, f: MediaFrame, g: MediaFrame, at: int)
    requires Sound(c) && f.timestamp <= g.timestamp && NotEarly(c, base, g, at)
    ensures NotEarly(c, base, f, at)
  {
    forall k: nat | PlaysAtMost(c, k, MediaTime(base, f))
      ensures base.wallTime + 1_000_000 * k <= at
    {
      ProductGrows(MediaTime(base, f), MediaTime(base, g), c.speedDen);
      assert PlaysAtMost(c, k, MediaTime(base, g));
    }
  }

  // ------------------------------------------------------------------------- steps

  /** Running schedule_next_frame as the one continuation. */
  lemma SchedulePaced(c: Config, s: State, top: Chooser, lag: nat)
    requires Sound(c) && ChoosesOldest(top) && s.running && s.pacingActive
    requires Flush !in s.tasks && s.waits == [] && Schedules(s) == 0 && OnTime(c, s)
    ensures var s' := ScheduleNextFrame(c, s, top, lag); OneContinuation(s') && OnTime(c, s')
  {
    hide DueTime, OneContinuation, OnTime, ChoosesOldest, NotEarly, NotLate;
    if s.queue == multiset{} {
      ScheduleStops(c, s, top, lag);
      NothingLeft(c, s);
    } else {
      ChosenIsThere(s, top);
      var f := top(s.queue);
      if !s.baseTimeSet {
        FirstPaced(c, s, f);
      } else {
        DueTimeExactly(c, BaseOf(s), f, s.now);
        if DueTime(c, s.baseTimestamp, s.baseWallTime, f) <= s.now {
          DispatchPaced(c, s, f);
        } else {
          WaitPaced(c, s, f, lag);
        }
      }
    }
  }

  /** The first frame sets the base and goes out at once. */
  lemma FirstPaced(c: Config, s: State, f: MediaFrame)
    requires Sound(c) && s.running && s.pacingActive && !s.baseTimeSet
    requires Flush !in s.tasks && s.waits == [] && Schedules(s) == 0 && OnTime(c, s)
    ensures var s1 := s.(baseTimestamp := f.timestamp, baseWallTime := s.now, baseTimeSet := true);
            var s' := PostTask(Dispatched(s1, f), Schedule); OneContinuation(s') && OnTime(c, s')
  {
    hide NotEarly, NotLate;
    var base := Base(true, f.timestamp, s.now);
    assert NotEarly(c, base, f, s.now) by { BaseIsNotEarly(c, base, f, s.now); }
    Empty([Dispatch(f, s.now, false)]);
  }

  lemma BaseIsNotEarly(c: Config, base: Base, f: MediaFrame, at: int)
    requires Sound(c) && f.timestamp == base.timestamp && at == base.wallTime
    ensures NotEarly(c, base, f, at)
  {
    forall k: nat | PlaysAtMost(c, k, MediaTime(base, f)) ensures k == 0 {
      if k > 0 { ProductGrows(1, k, c.speedNum); }
    }
  }

  /** With nothing waiting, pacing ends. */
  lemma NothingLeft(c: Config, s: State)
    requires Sound(c) && s.running && s.queue == multiset{}
    requires Flush !in s.tasks && s.waits == [] && Schedules(s) == 0 && OnTime(c, s)
    ensures var s' := s.(pacingActive := false); OneContinuation(s') && OnTime(c, s')
  {
    hide NotEarly, NotLate, SentOnTime;
  }

  /** The frame that is due goes out, and a task is posted. */
  lemma DispatchPaced(c: Config, s: State, f: MediaFrame)
    requires Sound(c) && s.running && s.pacingActive && DueBy(c, BaseOf(s), f, s.now)
    requires Flush !in s.tasks && s.waits == [] && Schedules(s) == 0 && OnTime(c, s)
    ensures var s' := PostTask(Dispatched(s, f), Schedule); OneContinuation(s') && OnTime(c, s')
  {
    hide NotEarly, NotLate;
  }

  /** A frame that is not due yet is waited for. */
  lemma WaitPaced(c: Config, s: State, f: MediaFrame, lag: nat)
    requires Sound(c) && s.running && s.pacingActive && s.baseTimeSet && f in s.queue
    requires Flush !in s.tasks && s.waits == [] && Schedules(s) == 0 && OnTime(c, s)
    ensures var due := DueTime(c, s.baseTimestamp, s.baseWallTime, f);
            var s' := s.(waits := CancelAll(s.waits) + [Wait(due + lag, f, lag, false)]);
            OneContinuation(s') && OnTime(c, s')
  {
    hide DueTime, SentOnTime, NotEarly, NotLate;
    var due := DueTime(c, s.baseTimestamp, s.baseWallTime, f);
    DueTimeExactly(c, BaseOf(s), f, due);
    var w := Wait(due + lag, f, lag, false);
    Empty([w]);
    assert w.deadline - w.lag == due;
    assert SetOnTime(c, BaseOf(s), w, s.queue);
  }

  lemma NewcomerWaits(c: Config, base: Base, waits: seq<Wait>, queue: multiset<MediaFrame>, f: MediaFrame)
    requires Sound(c) && WaitsOnTime(c, base, waits, queue)
    ensures WaitsOnTime(c, base, waits, queue + multiset{f})
  {
    hide DueBy, NotLate;
    forall i | 0 <= i < |waits|
      ensures SetOnTime(c, base, waits[i], queue + multiset{f})
    {
      assert SetOnTime(c, base, waits[i], queue);
    }
  }

  lemma ReceivePaced(c: Config, s: State, f: MediaFrame, top: Chooser, lag: nat)
    requires Sound(c) && c.mode == Playback && ChoosesOldest(top) && s.running && !f.isEof
    requires OneContinuation(s) && OnTime(c, s)
    ensures var s' := ReceiveFrame(c, s, f, top, lag); OneContinuation(s') && OnTime(c, s')
  {
    hide ScheduleNextFrame, SentOnTime, WaitsOnTime;
    var s' := s.(queue := s.queue + multiset{f}, accepted := s.accepted + [f]);
    NewcomerWaits(c, BaseOf(s), s.waits, s.queue, f);
    if !s.pacingActive {
      SchedulePaced(c, s'.(pacingActive := true), top, lag);
    }
  }

  lemma DrainPaced(c: Config, s: State, top: Chooser)
    requires Sound(c) && !s.running && OneContinuation(s) && OnTime(c, s)
    ensures var s' := DrainEofQueue(s, top); OneContinuation(s') && OnTime(c, s')
  {
    hide DueBy;
  }

  lemma TaskPaced(c: Config, s: State, top: Chooser, lag: nat)
    requires Sound(c) && c.mode == Playback && ChoosesOldest(top)
    requires EndsOnce(s) && OneContinuation(s) && OnTime(c, s)
    ensures var s' := RunTask(c, s, top, lag); OneContinuation(s') && OnTime(c, s')
  {
    hide SentOnTime, WaitsOnTime, EndsOnce, ScheduleNextFrame, ReceiveFrame, DrainEofQueue, FlushOneFrame;
    if s.tasks != [] {
      var s' := s.(tasks := s.tasks[1..]);
      assert s.tasks == [s.tasks[0]] + s'.tasks;
      match s.tasks[0]
      case Receive(f) => ReceiveTaskPaced(c, s', f, top, lag);
      case Flush =>
      case Drain =>
        DrainIsEnd(s);
        DrainPaced(c, s', top);
      case Schedule =>
        if s.running {
          SchedulePaced(c, s', top, lag);
        } else {
          ScheduleStops(c, s', top, lag);
        }
    }
  }

  lemma ReceiveTaskPaced(c: Config, s: State, f: MediaFrame, top: Chooser, lag: nat)
    requires Sound(c) && c.mode == Playback && ChoosesOldest(top)
    requires OneContinuation(s) && OnTime(c, s)
    ensures var s' := ReceiveFrame(c, s, f, top, lag); OneContinuation(s') && OnTime(c, s')
  {
    hide SentOnTime, WaitsOnTime, ScheduleNextFrame, DrainEofQueue, FlushOneFrame;
    if s.running {
      if f.isEof {
        DrainPaced(c, s.(waits := CancelAll(s.waits), pacingActive := false, running := false), top);
      } else {
        ReceivePaced(c, s, f, top, lag);
      }
    }
  }

  lemma DrainIsEnd(s: State)
    requires EndsOnce(s) && s.tasks != [] && s.tasks[0] == Drain
    ensures !s.running
  {
    assert s.tasks[0] in multiset(s.tasks);
  }

  lemma ScheduleStops(c: Config, s: State, top: Chooser, lag: nat)
    requires Sound(c) && (!s.running || s.queue == multiset{})
    ensures ScheduleNextFrame(c, s, top, lag) == s.(pacingActive := false)
  {
  }

  /** The timer's frame is the oldest then waiting, perhaps a newcomer that overtook the one the timer was set
      for; it is due no later than that one. */
  lemma HandlerPaced(c: Config, s: State, i: nat, aborted: bool, top: Chooser, lag: nat)
    requires Sound(c) && c.mode == Playback && ChoosesOldest(top) && CanRun(s, i, aborted)
    requires OneContinuation(s) && OnTime(c, s)
    ensures var s' := TimerHandler(c, s.(waits := s.waits[..i] + s.waits[i + 1..]), aborted, top, lag);
            OneContinuation(s') && OnTime(c, s')
  {
    hide NotEarly, NotLate, ScheduleNextFrame;
    var s' := s.(waits := s.waits[..i] + s.waits[i + 1..]);
    if s.running {
      var w := s.waits[i];
      assert SetOnTime(c, BaseOf(s), w, s.queue);
      ChosenIsThere(s', top);
      var f := top(s'.queue);
      LaterIsNotEarly(c, BaseOf(s), w.frame, w.deadline - w.lag, s.now);
      OlderIsNotEarly(c, BaseOf(s), f, w.frame, s.now);
      assert s'.waits == [];
      assert DueBy(c, BaseOf(s'), f, s'.now);
      SchedulePaced(c, Dispatched(s', f), top, lag);
    }
  }

  lemma LaterIsNotEarly(c: Config, base: Base, f: MediaFrame, at: int, later: int)
    requires NotEarly(c, base, f, at) && at <= later
    ensures NotEarly(c, base, f, later)
  {
  }

  lemma PostPaced(c: Config, s: State, f: MediaFrame)
    requires Sound(c) && OneContinuation(s) && OnTime(c, s)
    ensures OneContinuation(Post(s, f)) && OnTime(c, Post(s, f))
  {
    hide SentOnTime, WaitsOnTime;
  }

  lemma TimePaced(c: Config, s: State, now: int)
    requires Sound(c) && OneContinuation(s) && OnTime(c, s)
    ensures var s' := s.(now := now); OneContinuation(s') && OnTime(c, s')
  {
    hide SentOnTime, WaitsOnTime;
  }

  lemma StepPaced(c: Config, s: State, e: Event)
    requires Sound(c) && c.mode == Playback && HeapOrdered(e)
    requires EndsOnce(s) && OneContinuation(s) && OnTime(c, s)
    ensures OneContinuation(Step(c, s, e)) && OnTime(c, Step(c, s, e))
  {
    hide SentOnTime, WaitsOnTime, EndsOnce, TimerHandler, RunTask, OneContinuation, OnTime;
    match e
    case TimePasses(_) => TimePaced(c, s, Step(c, s, e).now);
    case FramePosted(f) => PostPaced(c, s, f);
    case TaskRuns(top, lag) => TaskPaced(c, s, top, lag);
    case HandlerRuns(i, aborted, top, lag) =>
      if CanRun(s, i, aborted) {
        HandlerPaced(c, s, i, aborted, top, lag);
      }
  }

  lemma {:induction false} RunPaced(c: Config, s: State, events: seq<Event>)
    requires Sound(c) && c.mode == Playback && AllHeapOrdered(events)
    requires EndsOnce(s) && OneContinuation(s) && OnTime(c, s)
    ensures OneContinuation(Run(c, s, events)) && OnTime(c, Run(c, s, events))
    decreases |events|
  {
    hide EndsOnce, OneContinuation, OnTime, Step;
    if events != [] {
      StepPaced(c, s, events[0]);
      StepEndsOnce(c, s, events[0]);
      RunPaced(c, Step(c, s, events[0]), events[1..]);
    }
  }

  /** Over every run of a playback: one continuation at most, none lacking while frames wait, and every frame
      that does not leave by the drain leaves when it is due or later. */
  lemma PlaybackIsPaced(c: Config, now: int, events: seq<Event>)
    requires Sound(c) && c.mode == Playback && AllHeapOrdered(events)
    ensures var s := Run(c, Started(now), events); OneContinuation(s) && OnTime(c, s)
  {
    hide Run;
    RunPaced(c, Started(now), events);
  }

  /** The same in plain numbers, for the frames that pacing sent: none leaves before every whole millisecond has
      passed that the playback speed needs from the first frame to it. */
  lemma NoFrameIsEarly(c: Config, now: int, events: seq<Event>, i: nat, k: nat)
    requires Sound(c) && c.mode == Playback && AllHeapOrdered(events)
    requires i < |Run(c, Started(now), events).dispatched|
    ensures var ds := Run(c, Started(now), events).dispatched;
            !ds[i].drained && k * c.speedNum <= (ds[i].frame.timestamp - ds[0].frame.timestamp) * c.speedDen ==>
              !ds[0].drained && ds[i].at >= ds[0].at + 1_000_000 * k
  {
    hide Run, OneContinuation;
    PlaybackIsPaced(c, now, events);
    var s := Run(c, Started(now), events);
    var f, base := s.dispatched[i].frame, BaseOf(s);
    if !s.dispatched[i].drained && k * c.speedNum <= (f.timestamp - s.dispatched[0].frame.timestamp) * c.speedDen {
      assert DueBy(c, base, f, s.dispatched[i].at);
      NegativeProduct(f.timestamp - base.timestamp, c.speedDen, k, c.speedNum);
      assert PlaysAtMost(c, k, MediaTime(base, f));
    }
  }

  lemma NegativeProduct(a: int, b: int, k: nat, n: int)
    requires b > 0 && n > 0 && k * n <= a * b
    ensures a >= 0 || k == 0
  {
    if a < 0 { ProductGrows(a, 0, b); }
  }

  /** And the timer is never set for longer than playback needs, rounded up to whole milliseconds. */
  lemma NoWaitIsLate(c: Config, now: int, events: seq<Event>, i: nat, k: nat)
    requires Sound(c) && c.mode == Playback && AllHeapOrdered(events)
    requires var s := Run(c, Started(now), events); s.running && i < |s.waits|
    ensures var s := Run(c, Started(now), events);
            var w := s.waits[i];
            && w.frame in s.queue && s.dispatched != [] && !s.dispatched[0].drained
            && (w.frame.timestamp >= s.dispatched[0].frame.timestamp
                && k * c.speedNum >= (w.frame.timestamp - s.dispatched[0].frame.timestamp) * c.speedDen ==>
                  w.deadline - w.lag <= s.dispatched[0].at + 1_000_000 * k)
  {
    hide Run, OneContinuation, SentOnTime;
    PlaybackIsPaced(c, now, events);
    var s := Run(c, Started(now), events);
    var w := s.waits[i];
    assert SetOnTime(c, BaseOf(s), w, s.queue);
    if w.frame.timestamp >= s.baseTimestamp
       && k * c.speedNum >= (w.frame.timestamp - s.baseTimestamp) * c.speedDen {
      assert PlaysAtLeast(c, k, MediaTime(BaseOf(s), w.frame));
    }
  }

  predicate OnlyAhead(before: seq<Wait>, after: seq<Wait>, now: int) {
    forall i | 0 <= i < |after| :: after[i].cancelled || after[i] in before || now < after[i].deadline - after[i].lag
  }

  lemma ScheduleAhead(c: Config, s: State, top: Chooser, lag: nat)
    requires Sound(c)
    ensures OnlyAhead(s.waits, ScheduleNextFrame(c, s, top, lag).waits, s.now)
  {
    hide DueTime;
  }

  lemma ReceiveAhead(c: Config, s: State, f: MediaFrame, top: Chooser, lag: nat)
    requires Sound(c)
    ensures OnlyAhead(s.waits, ReceiveFrame(c, s, f, top, lag).waits, s.now)
  {
    hide ScheduleNextFrame, FlushOneFrame, DrainEofQueue;
    var s' := s.(queue := s.queue + multiset{f}, accepted := s.accepted + [f]);
    if !s.running {
    } else if f.isEof {
      WaitsStay(c, s.(waits := CancelAll(s.waits), pacingActive := false, running := false), top);
    } else if c.mode == LiveBuffered {
      WaitsStay(c, s'.(newest := if f.timestamp > s.newest then f.timestamp else s.newest), top);
    } else {
      ScheduleAhead(c, s'.(pacingActive := true), top, lag);
    }
  }

  lemma WaitsStay(c: Config, s: State, top: Chooser)
    ensures FlushOneFrame(c, s, top).waits == s.waits && DrainEofQueue(s, top).waits == s.waits
  {
  }

  /** The timer is set only for a frame that is not due yet; one that is due leaves at once. */
  lemma WaitsAreAhead(c: Config, s: State, e: Event)
    requires Sound(c)
    ensures OnlyAhead(s.waits, Step(c, s, e).waits, s.now)
  {
    hide RunTask, TimerHandler;
    match e
    case TimePasses(_) =>
    case FramePosted(_) =>
    case TaskRuns(top, lag) =>
      if s.tasks == [] {
        NothingRuns(c, s, top, lag);
      } else {
        TaskAhead(c, s.(tasks := s.tasks[1..]), s.tasks[0], top, lag);
        assert [s.tasks[0]] + s.tasks[1..] == s.tasks;
      }
    case HandlerRuns(i, aborted, top, lag) =>
      if CanRun(s, i, aborted) {
        HandlerAhead(c, s.(waits := s.waits[..i] + s.waits[i + 1..]), aborted, top, lag);
      }
  }

  lemma NothingRuns(c: Config, s: State, top: Chooser, lag: nat)
    requires Sound(c) && s.tasks == []
    ensures RunTask(c, s, top, lag) == s
  {
  }

  lemma HandlerAhead(c: Config, s: State, aborted: bool, top: Chooser, lag: nat)
    requires Sound(c)
    ensures OnlyAhead(s.waits, TimerHandler(c, s, aborted, top, lag).waits, s.now)
  {
    hide ScheduleNextFrame;
    ScheduleAhead(c, Dispatched(s, top(s.queue)), top, lag);
  }

  lemma TaskAhead(c: Config, s: State, t: Task, top: Chooser, lag: nat)
    requires Sound(c)
    ensures OnlyAhead(s.waits, RunTask(c, s.(tasks := [t] + s.tasks), top, lag).waits, s.now)
  {
    hide ScheduleNextFrame, ReceiveFrame, FlushOneFrame, DrainEofQueue;
    WaitsStay(c, s, top);
    var before := s.(tasks := [t] + s.tasks);
    assert before.tasks[0] == t && before.tasks[1..] == s.tasks;
    assert before.(tasks := s.tasks) == s;
    match t
    case Receive(f) => ReceiveAhead(c, s, f, top, lag);
    case Flush =>
    case Drain =>
    case Schedule => ScheduleAhead(c, s, top, lag);
  }
}
