/** The reordering and pacing scheduler between a media source and a sink
    (MediaPipeline in nxcore/media/media_pipeline.cpp, modes kLiveBuffered and kPlayback).

    Everything runs on a strand: a FIFO of tasks, each of them atomic.  The source posts frames, tasks post
    tasks, and the handler of the pacing timer runs some time after the timer has expired.  The clock counts
    nanoseconds; timestamps and durations are milliseconds. */
module MediaPipeline {
  const NANOSECONDS_PER_MS := 1_000_000

  datatype PipelineMode = LiveBuffered | Playback

  datatype MediaFrame = MediaFrame(timestamp: int, isEof: bool, data: seq<int>)

  /** The playback speed is speedNum / speedDen. */
  datatype Config = Config(mode: PipelineMode, bufferDuration: int, speedNum: int, speedDen: int)

  predicate Sound(c: Config) {
    c.speedNum > 0 && c.speedDen > 0
  }

  datatype Task = Receive(frame: MediaFrame) | Flush | Drain | Schedule

  /** A wait on the pacing timer whose handler has not run yet: when it expires, for the history the frame it was
      set for and the time that passed between reading the clock and setting it, and whether it was cancelled. */
  datatype Wait = Wait(deadline: int, frame: MediaFrame, lag: nat, cancelled: bool)

  /** A frame handed to the sink: when, and whether by the drain behind the end of the stream. */
  datatype Dispatch = Dispatch(frame: MediaFrame, at: int, drained: bool)

  /** The object's fields, the strand, the timer and the clock, and the history: the frames the source
      posted, those put into the queue, those handed to the sink, and the number of completion callbacks. */
  datatype State = State(
    running: bool,
    queue: multiset<MediaFrame>,
    newest: int,
    baseTimestamp: int,
    baseWallTime: int,
    baseTimeSet: bool,
    pacingActive: bool,
    tasks: seq<Task>,
    waits: seq<Wait>,
    now: int,
    posted: seq<MediaFrame>,
    accepted: seq<MediaFrame>,
    dispatched: seq<Dispatch>,
    completions: nat)

  /** A pipeline that has just been started. */
  function Started(now: int): State {
    State(true, multiset{}, 0, 0, 0, false, false, [], [], now, [], [], [], 0)
  }

  // --------------------------------------------------------------- the priority queue

  /** How the priority queue chooses its top; the choice among equal timestamps is not specified. */
  type Chooser = multiset<MediaFrame> -> MediaFrame

  predicate IsTop(queue: multiset<MediaFrame>, f: MediaFrame) {
    f in queue && forall g | g in queue :: f.timestamp <= g.timestamp
  }

  ghost predicate ChoosesOldest(top: Chooser) {
    forall queue: multiset<MediaFrame> | queue != multiset{} :: IsTop(queue, top(queue))
  }

  // ------------------------------------------------------------------------- steps

  function Dispatched(s: State, f: MediaFrame): State {
    s.(queue := s.queue - multiset{f}, dispatched := s.dispatched + [Dispatch(f, s.now, !s.running)])
  }

  function PostTask(s: State, t: Task): State {
    s.(tasks := s.tasks + [t])
  }

  function FlushOneFrame(c: Config, s: State, top: Chooser): (r: State)
    ensures r.posted == s.posted
  {
    if |s.queue| <= 1 then s else
      var f := top(s.queue);
      if s.newest - f.timestamp < c.bufferDuration then s else
        var s' := Dispatched(s, f);
        if |s'.queue| > 1 then PostTask(s', Flush) else s'
  }

  function DrainEofQueue(s: State, top: Chooser): (r: State)
    ensures r.posted == s.posted
  {
    if s.queue == multiset{} then s.(completions := s.completions + 1)
    else PostTask(Dispatched(s, top(s.queue)), Drain)
  }

  /** When a frame is due: whole milliseconds behind the base, at the playback speed. */
  function DueTime(c: Config, baseTimestamp: int, baseWallTime: int, f: MediaFrame): int
    requires Sound(c)
  {
    var elapsed := if f.timestamp < baseTimestamp then 0 else f.timestamp - baseTimestamp;
    baseWallTime + NANOSECONDS_PER_MS * (elapsed * c.speedDen / c.speedNum)
  }

  function CancelAll(waits: seq<Wait>): (r: seq<Wait>)
    ensures |r| == |waits|
  {
    seq(|waits|, i requires 0 <= i < |waits| => waits[i].(cancelled := true))
  }

  /** schedule_next_frame; lag is the time between reading the clock and arming the timer. */
  function ScheduleNextFrame(c: Config, s: State, top: Chooser, lag: nat): (r: State)
    requires Sound(c)
    ensures r.posted == s.posted
  {
    if !s.running || s.queue == multiset{} then s.(pacingActive := false) else
      var f := top(s.queue);
      if !s.baseTimeSet then
        var s' := s.(baseTimestamp := f.timestamp, baseWallTime := s.now, baseTimeSet := true);
        PostTask(Dispatched(s', f), Schedule)
      else
        var due := DueTime(c, s.baseTimestamp, s.baseWallTime, f);
        if due <= s.now then PostTask(Dispatched(s, f), Schedule)
        else s.(waits := CancelAll(s.waits) + [Wait(due + lag, f, lag, false)])
  }

  /** on_frame_received_via_strand. */
  function ReceiveFrame(c: Config, s: State, f: MediaFrame, top: Chooser, lag: nat): (r: State)
    requires Sound(c)
    ensures r.posted == s.posted
  {
    if !s.running then s
    else if f.isEof then
      DrainEofQueue(s.(waits := CancelAll(s.waits), pacingActive := false, running := false), top)
    else
      var s' := s.(queue := s.queue + multiset{f}, accepted := s.accepted + [f]);
      match c.mode
      case LiveBuffered =>
        FlushOneFrame(c, s'.(newest := if f.timestamp > s.newest then f.timestamp else s.newest), top)
      case Playback =>
        if s'.pacingActive then s' else ScheduleNextFrame(c, s'.(pacingActive := true), top, lag)
  }

  function RunTask(c: Config, s: State, top: Chooser, lag: nat): (r: State)
    requires Sound(c)
    ensures r.posted == s.posted
  {
    if s.tasks == [] then s else
      var s' := s.(tasks := s.tasks[1..]);
      match s.tasks[0]
      case Receive(f) => ReceiveFrame(c, s', f, top, lag)
      case Flush => if s'.running then FlushOneFrame(c, s', top) else s'
      case Drain => DrainEofQueue(s', top)
      case Schedule => ScheduleNextFrame(c, s', top, lag)
  }

  /** The handler of a wait on the timer. */
  function TimerHandler(c: Config, s: State, aborted: bool, top: Chooser, lag: nat): (r: State)
    requires Sound(c)
    ensures r.posted == s.posted
  {
    if aborted || !s.running || s.queue == multiset{} then s.(pacingActive := false)
    else ScheduleNextFrame(c, Dispatched(s, top(s.queue)), top, lag)
  }

  /** A handler runs with an error only if its wait was cancelled, and without one only behind the deadline. */
  predicate CanRun(s: State, i: nat, aborted: bool) {
    && i < |s.waits|
    && (aborted ==> s.waits[i].cancelled)
    && (!aborted ==> s.waits[i].deadline <= s.now)
  }

  /** on_frame_received: the calling thread only posts. */
  function Post(s: State, f: MediaFrame): State {
    if !s.running then s else PostTask(s.(posted := s.posted + [f]), Receive(f))
  }

  datatype Event =
    | TimePasses(ns: nat)
    | FramePosted(frame: MediaFrame)
    | TaskRuns(top: Chooser, lag: nat)
    | HandlerRuns(index: nat, aborted: bool, top: Chooser, lag: nat)

  function Step(c: Config, s: State, e: Event): State
    requires Sound(c)
  {
    match e
    case TimePasses(ns) => s.(now := s.now + ns)
    case FramePosted(f) => Post(s, f)
    case TaskRuns(top, lag) => RunTask(c, s, top, lag)
    case HandlerRuns(i, aborted, top, lag) =>
      if !CanRun(s, i, aborted) then s
      else TimerHandler(c, s.(waits := s.waits[..i] + s.waits[i + 1..]), aborted, top, lag)
  }

  /** The priority queue does its work in this event. */
  ghost predicate HeapOrdered(e: Event) {
    match e
    case TimePasses(_) => true
    case FramePosted(_) => true
    case TaskRuns(top, _) => ChoosesOldest(top)
    case HandlerRuns(_, _, top, _) => ChoosesOldest(top)
  }

  ghost predicate AllHeapOrdered(events: seq<Event>) {
    forall i | 0 <= i < |events| :: HeapOrdered(events[i])
  }

  function Run(c: Config, s: State, events: seq<Event>): State
    requires Sound(c)
    decreases |events|
  {
    if events == [] then s else Run(c, Step(c, s, events[0]), events[1..])
  }

  // --------------------------------------------------------------------- the class

  class MediaPipeline {
    const config: Config
    var running: bool
    var frameQueue: multiset<MediaFrame>
    var newestTimestamp: int
    var baseTimestamp: int
    var baseWallTime: int
    var baseTimeSet: bool
    var pacingActive: bool
    /** The strand's tasks, the timer's waits, and the clock. */
    var tasks: seq<Task>
    var waits: seq<Wait>
    var clock: int
    ghost var posted: seq<MediaFrame>
    ghost var accepted: seq<MediaFrame>
    ghost var dispatched: seq<Dispatch>
    ghost var completions: nat

    ghost function View(): State
      reads this
    {
      State(running, frameQueue, newestTimestamp, baseTimestamp, baseWallTime, baseTimeSet, pacingActive,
            tasks, waits, clock, posted, accepted, dispatched, completions)
    }

    /** A pipeline as start() leaves it. */
    constructor (config: Config, clock: int)
      ensures View() == Started(clock) && this.config == config
    {
      this.config := config;
      this.clock := clock;
      running, frameQueue, newestTimestamp := true, multiset{}, 0;
      baseTimestamp, baseWallTime, baseTimeSet, pacingActive := 0, 0, false, false;
      tasks, waits := [], [];
      posted, accepted, dispatched, completions := [], [], [], 0;
    }

    /** on_frame_received, called by the source. */
    method OnFrameReceived(frame: MediaFrame)
      modifies this
      ensures View() == Post(old(View()), frame)
    {
      if !running { return; }
      tasks := tasks + [Receive(frame)];
      posted := posted + [frame];
    }

    /** top(), pop() and dispatch_frame() on one frame. */
    method SendTop(frame: MediaFrame)
      modifies `frameQueue, `dispatched
      ensures View() == Dispatched(old(View()), frame)
    {
      frameQueue := frameQueue - multiset{frame};
      dispatched := dispatched + [Dispatch(frame, clock, !running)];
    }

    method FlushOne(top: Chooser)
      modifies `frameQueue, `dispatched, `tasks
      ensures View() == FlushOneFrame(config, old(View()), top)
    {
      if |frameQueue| <= 1 { return; }
      var oldest := top(frameQueue);
      if newestTimestamp - oldest.timestamp < config.bufferDuration { return; }
      SendTop(oldest);
      if |frameQueue| > 1 {
        tasks := tasks + [Flush];
      }
    }

    method DrainOne(top: Chooser)
      modifies `frameQueue, `dispatched, `tasks, `completions
      ensures View() == DrainEofQueue(old(View()), top)
    {
      if frameQueue == multiset{} {
        completions := completions + 1;
        return;
      }
      SendTop(top(frameQueue));
      tasks := tasks + [Drain];
    }

    /** dispatch_frame, and a posted task instead of recursion. */
    method SendAndContinue(frame: MediaFrame)
      modifies `frameQueue, `dispatched, `tasks
      ensures View() == PostTask(Dispatched(old(View()), frame), Schedule)
    {
      SendTop(frame);
      tasks := tasks + [Schedule];
    }

    /** Setting the expiry cancels the waits before it. */
    method ArmTimer(expiry: int, frame: MediaFrame, lag: nat)
      modifies `waits
      ensures View() == old(View()).(waits := CancelAll(old(waits)) + [Wait(expiry, frame, lag, false)])
    {
      waits := CancelAll(waits) + [Wait(expiry, frame, lag, false)];
    }

    method ScheduleNext(top: Chooser, lag: nat)
      requires Sound(config)
      modifies this
      ensures View() == ScheduleNextFrame(config, old(View()), top, lag)
    {
      hide DueTime, Dispatched, PostTask;
      if !running || frameQueue == multiset{} {
        pacingActive := false;
        return;
      }
      var frame := top(frameQueue);
      if !baseTimeSet {
        baseTimestamp, baseWallTime, baseTimeSet := frame.timestamp, clock, true;
        SendAndContinue(frame);
        return;
      }
      var target := DueTime(config, baseTimestamp, baseWallTime, frame);
      var delay := target - clock;
      if delay <= 0 {
        SendAndContinue(frame);
        return;
      }
      ArmTimer(clock + lag + delay, frame, lag);
    }

    method EndOfStream(top: Chooser)
      modifies this
      ensures View() ==
              DrainEofQueue(old(View()).(waits := CancelAll(old(waits)), pacingActive := false, running := false), top)
    {
      hide DrainEofQueue;
      waits := CancelAll(waits);
      pacingActive := false;
      running := false;
      DrainOne(top);
    }

    method Buffer(frame: MediaFrame)
      modifies `frameQueue, `newestTimestamp, `accepted
      ensures var n := if config.mode == LiveBuffered && frame.timestamp > old(newestTimestamp)
                       then frame.timestamp else old(newestTimestamp);
              View() == old(View()).(queue := old(frameQueue) + multiset{frame},
                                     accepted := old(accepted) + [frame], newest := n)
    {
      if config.mode == LiveBuffered && frame.timestamp > newestTimestamp {
        newestTimestamp := frame.timestamp;
      }
      frameQueue := frameQueue + multiset{frame};
      accepted := accepted + [frame];
    }

    /** on_frame_received_via_strand. */
    method ReceiveOnStrand(frame: MediaFrame, top: Chooser, lag: nat)
      requires Sound(config)
      modifies this
      ensures View() == ReceiveFrame(config, old(View()), frame, top, lag)
    {
      hide FlushOneFrame, DrainEofQueue, ScheduleNextFrame;
      if !running { return; }
      if frame.isEof {
        EndOfStream(top);
        return;
      }
      Buffer(frame);
      match config.mode
      case LiveBuffered =>
        FlushOne(top);
      case Playback =>
        if !pacingActive {
          pacingActive := true;
          ScheduleNext(top, lag);
        }
    }

    /** The strand runs its next task. */
    method RunNextTask(top: Chooser, lag: nat)
      requires Sound(config)
      modifies this
      ensures View() == RunTask(config, old(View()), top, lag)
    {
      hide FlushOneFrame, DrainEofQueue, ScheduleNextFrame, ReceiveFrame;
      if tasks == [] { return; }
      var task := tasks[0];
      tasks := tasks[1..];
      match task
      case Receive(frame) => ReceiveOnStrand(frame, top, lag);
      case Flush => if running { FlushOne(top); }
      case Drain => DrainOne(top);
      case Schedule => ScheduleNext(top, lag);
    }

    /** The handler of a wait on the pacing timer. */
    method OnTimer(index: nat, aborted: bool, top: Chooser, lag: nat)
      requires Sound(config) && CanRun(View(), index, aborted)
      modifies this
      ensures View() == Step(config, old(View()), HandlerRuns(index, aborted, top, lag))
    {
      hide ScheduleNextFrame;
      waits := waits[..index] + waits[index + 1..];
      if aborted || !running {
        pacingActive := false;
        return;
      }
      if frameQueue == multiset{} {
        pacingActive := false;
        return;
      }
      SendTop(top(frameQueue));
      ScheduleNext(top, lag);
    }
  }
}
