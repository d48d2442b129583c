/**
  * The audit pipeline: requests log into a bounded queue, a drain loop serialises events and writes them to the
  * webhook output, and the webhook's flush loop batches them. The three run concurrently, so a run is any sequence
  * of enabled steps.
  */
module AuditPipeline {
  import opened Options
  import opened Webhooks

  datatype Event = Event(eventType: string, body: string)

  datatype Config = Config(
    enabledEvents: set<string>, logCapacity: nat, hookCapacity: nat, batchSize: nat,
    serialise: Event -> Option<Data>)

  ghost predicate ConfigOk(cfg: Config) {
    cfg.logCapacity > 0 && cfg.hookCapacity > 0 && cfg.batchSize > 0
  }

  datatype Loop = Running | Draining | Ended

  datatype Closing = Open | AwaitLogger | AwaitHook | Closed

  /** What became of an event that the drain loop took from the queue. */
  datatype Fate = Kept | Dropped | Unserialised

  datatype Handled = Handled(event: Event, fate: Fate)

  /**
    * `hand` is the event the drain loop has taken and not yet written. `accepted`, `handled`, `late` and `overdue` only
    * record: the events that entered the log queue, what became of those taken from it, which were accepted after
    * the drain loop had ended, and whether a shutdown timer fired.
    */
  datatype State = State(
    logQueue: seq<Event>, hand: Option<Event>, logger: Loop,
    hook: Hook, flusher: Loop, closing: Closing,
    accepted: seq<Event>, handled: seq<Handled>, late: seq<Event>, overdue: bool)

  const START := State([], None, Running, Hook([], [], [], 0), Running, Open, [], [], [], false)

  datatype Step =
    | Log(event: Event)
    | Take | Write | SeeStop | EndDrain
    | Receive | Tick | SeeHookStop | EndHookDrain
    | Close | LoggerDone | LoggerTimer | HookDone | HookTimer

  // ----- the logger

  function Logged(cfg: Config, s: State, event: Event): State {
    if event.eventType in cfg.enabledEvents && |s.logQueue| < cfg.logCapacity then
      s.(logQueue := s.logQueue + [event], accepted := s.accepted + [event],
         late := if s.logger == Ended then s.late + [event] else s.late)
    else s
  }

  function Took(s: State): State
    requires s.logQueue != []
  {
    s.(logQueue := s.logQueue[1..], hand := Some(s.logQueue[0]))
  }

  function FateOf(cfg: Config, hook: Hook, event: Event): Fate {
    if cfg.serialise(event).None? then Unserialised
    else if |hook.queue| < cfg.hookCapacity then Kept
    else Dropped
  }

  /** Serialise the event in hand and write it to the webhook. */
  function Wrote(cfg: Config, s: State): State
    requires s.hand.Some?
  {
    var event := s.hand.value;
    var data := cfg.serialise(event);
    s.(hand := None, handled := s.handled + [Handled(event, FateOf(cfg, s.hook, event))],
       hook := if data.None? then s.hook else Written(s.hook, data.value, cfg.hookCapacity))
  }

  // ----- the steps

  /**
    * When a step may happen. A running loop may take an event although the stop signal is up, since any ready case of
    * a select may be chosen; a draining loop ends only when its queue is empty.
    */
  predicate Enabled(s: State, step: Step) {
    match step
    case Log(_) => true
    case Take => s.logger != Ended && s.hand.None? && s.logQueue != []
    case Write => s.hand.Some?
    case SeeStop => s.logger == Running && s.hand.None? && s.closing != Open
    case EndDrain => s.logger == Draining && s.hand.None? && s.logQueue == []
    case Receive => s.flusher != Ended && s.hook.queue != []
    case Tick => s.flusher == Running
    case SeeHookStop => s.flusher == Running && (s.closing == AwaitHook || s.closing == Closed)
    case EndHookDrain => s.flusher == Draining && s.hook.queue == []
    case Close => s.closing == Open
    case LoggerDone => s.closing == AwaitLogger && s.logger == Ended
    case LoggerTimer => s.closing == AwaitLogger
    case HookDone => s.closing == AwaitHook && s.flusher == Ended
    case HookTimer => s.closing == AwaitHook
  }

  function After(cfg: Config, s: State, step: Step): State
    requires Enabled(s, step)
  {
    match step
    case Log(event) => Logged(cfg, s, event)
    case Take => Took(s)
    case Write => Wrote(cfg, s)
    case SeeStop => s.(logger := Draining)
    case EndDrain => s.(logger := Ended)
    case Receive => s.(hook := Received(s.hook, cfg.batchSize))
    case Tick => s.(hook := Flushed(s.hook))
    case SeeHookStop => s.(flusher := Draining)
    case EndHookDrain => s.(flusher := Ended, hook := Flushed(s.hook))
    case Close => s.(closing := AwaitLogger)
    case LoggerDone => s.(closing := AwaitHook)
    case LoggerTimer => s.(closing := AwaitHook, overdue := true)
    case HookDone => s.(closing := Closed)
    case HookTimer => s.(closing := Closed, overdue := true)
  }

  ghost predicate IsRun(cfg: Config, s: State, steps: seq<Step>)
    decreases |steps|
  {
    steps == [] || (Enabled(s, steps[0]) && IsRun(cfg, After(cfg, s, steps[0]), steps[1..]))
  }

  ghost function End(cfg: Config, s: State, steps: seq<Step>): State
    requires IsRun(cfg, s, steps)
    decreases |steps|
  {
    if steps == [] then s else End(cfg, After(cfg, s, steps[0]), steps[1..])
  }

  // ----- the accounts

  function Events(handled: seq<Handled>): seq<Event> {
    if handled == [] then [] else Events(handled[..|handled| - 1]) + [handled[|handled| - 1].event]
  }

  /** The serialised events that entered the webhook's queue. */
  function KeptData(cfg: Config, handled: seq<Handled>): seq<Data> {
    if handled == [] then [] else
      var last := handled[|handled| - 1];
      KeptData(cfg, handled[..|handled| - 1])
      + if last.fate == Kept && cfg.serialise(last.event).Some? then [cfg.serialise(last.event).value] else []
  }

  function Count(handled: seq<Handled>, fate: Fate): nat {
    if handled == [] then 0
    else Count(handled[..|handled| - 1], fate) + if handled[|handled| - 1].fate == fate then 1 else 0
  }

  lemma HandledLast(cfg: Config, handled: seq<Handled>, last: Handled)
    ensures Events(handled + [last]) == Events(handled) + [last.event]
    ensures KeptData(cfg, handled + [last]) == KeptData(cfg, handled)
            + if last.fate == Kept && cfg.serialise(last.event).Some? then [cfg.serialise(last.event).value] else []
    ensures forall fate :: Count(handled + [last], fate) == Count(handled, fate) + if last.fate == fate then 1 else 0
  {
    assert (handled + [last])[..|handled|] == handled;
  }

  function InHand(s: State): seq<Event> {
    if s.hand.Some? then [s.hand.value] else []
  }

  /** Nothing is lost or reordered: the accepted events are those handled, the one in hand and those queued. */
  ghost predicate LogFifo(s: State) {
    s.accepted == Events(s.handled) + InHand(s) + s.logQueue
  }

  /** Batches sent, the partial batch and the queue are exactly the data kept, in order; the rest is counted. */
  ghost predicate HookFifo(cfg: Config, s: State) {
    && Contents(s.hook) == KeptData(cfg, s.handled)
    && s.hook.drops == Count(s.handled, Dropped)
    && Batched(s.hook, cfg.batchSize)
    && forall h | h in s.handled :: h.fate == Unserialised <==> cfg.serialise(h.event).None?
  }

  ghost predicate Bounded(cfg: Config, s: State) {
    |s.logQueue| <= cfg.logCapacity && |s.hook.queue| <= cfg.hookCapacity
  }

  /** The order of the shutdown: logger, then webhook, unless a timer cut it short. */
  ghost predicate Ordered(s: State) {
    && (s.logger == Ended ==> s.hand.None? && s.logQueue == s.late)
    && (s.logger != Ended ==> s.late == [])
    && (s.logger != Running ==> s.closing != Open)
    && (s.flusher != Running ==> s.closing == AwaitHook || s.closing == Closed)
    && (!s.overdue && (s.closing == AwaitHook || s.closing == Closed) ==> s.logger == Ended)
    && (!s.overdue && s.closing == Closed ==> s.flusher == Ended)
    && (!s.overdue && s.flusher == Ended ==> s.hook.queue == [] && s.hook.batch == [])
  }

  ghost predicate Invariant(cfg: Config, s: State) {
    LogFifo(s) && HookFifo(cfg, s) && Bounded(cfg, s) && Ordered(s)
  }

  lemma StartOk(cfg: Config)
    requires ConfigOk(cfg)
    ensures Invariant(cfg, START)
  {
  }

  lemma Grouped(a: seq<Event>, b: seq<Event>, c: seq<Event>)
    ensures a + (b + c) == a + b + c
  {
  }

  lemma LogKeeps(cfg: Config, s: State, event: Event)
    requires Invariant(cfg, s)
    ensures Invariant(cfg, Logged(cfg, s, event))
  {
    Grouped(Events(s.handled) + InHand(s), s.logQueue, [event]);
  }

  lemma TakeKeeps(cfg: Config, s: State)
    requires Invariant(cfg, s) && Enabled(s, Take)
    ensures Invariant(cfg, Took(s))
  {
    assert s.logQueue == [s.logQueue[0]] + s.logQueue[1..];
    assert Events(s.handled) + [] + s.logQueue == Events(s.handled) + [s.logQueue[0]] + s.logQueue[1..];
  }

  lemma WriteKeepsLog(cfg: Config, s: State)
    requires LogFifo(s) && s.hand.Some?
    ensures LogFifo(Wrote(cfg, s))
  {
    HandledLast(cfg, s.handled, Handled(s.hand.value, FateOf(cfg, s.hook, s.hand.value)));
    assert Events(s.handled) + [s.hand.value] + [] + s.logQueue == Events(s.handled) + [s.hand.value] + s.logQueue;
  }

  lemma WriteKeepsHook(cfg: Config, s: State)
    requires HookFifo(cfg, s) && s.hand.Some?
    ensures HookFifo(cfg, Wrote(cfg, s))
  {
    var event := s.hand.value;
    var last := Handled(event, FateOf(cfg, s.hook, event));
    HandledLast(cfg, s.handled, last);
    if last.fate == Kept {
      var data := cfg.serialise(event).value;
      assert Contents(Written(s.hook, data, cfg.hookCapacity)) == Contents(s.hook) + [data];
    } else {
      assert KeptData(cfg, s.handled) + [] == KeptData(cfg, s.handled);
    }
  }

  lemma WriteKeeps(cfg: Config, s: State)
    requires Invariant(cfg, s) && s.hand.Some?
    ensures Invariant(cfg, Wrote(cfg, s))
  {
    WriteKeepsLog(cfg, s);
    WriteKeepsHook(cfg, s);
  }

  lemma StepKeeps(cfg: Config, s: State, step: Step)
    requires ConfigOk(cfg) && Invariant(cfg, s) && Enabled(s, step)
    ensures Invariant(cfg, After(cfg, s, step))
  {
    match step
    case Log(event) => LogKeeps(cfg, s, event);
    case Take => TakeKeeps(cfg, s);
    case Write => WriteKeeps(cfg, s);
    case Receive => ReceiveKeeps(s.hook, cfg.batchSize);
    case Tick => FlushKeeps(s.hook, cfg.batchSize);
    case EndHookDrain => FlushKeeps(s.hook, cfg.batchSize);
    case _ =>
  }

  /** At every point of every run. */
  lemma {:induction false} RunKeeps(cfg: Config, s: State, steps: seq<Step>)
    requires ConfigOk(cfg) && Invariant(cfg, s) && IsRun(cfg, s, steps)
    ensures Invariant(cfg, End(cfg, s, steps))
    decreases |steps|
  {
    if steps != [] {
      StepKeeps(cfg, s, steps[0]);
      RunKeeps(cfg, After(cfg, s, steps[0]), steps[1..]);
    }
  }

  lemma {:induction false} FatesAddUp(cfg: Config, handled: seq<Handled>)
    requires forall h | h in handled :: h.fate == Unserialised <==> cfg.serialise(h.event).None?
    ensures |handled| == |Events(handled)|
    ensures |handled| == |KeptData(cfg, handled)| + Count(handled, Dropped) + Count(handled, Unserialised)
  {
    if handled != [] {
      assert handled[|handled| - 1] in handled;
      FatesAddUp(cfg, handled[..|handled| - 1]);
    }
  }

  ghost predicate CleanlyClosed(s: State) {
    s.closing == Closed && !s.overdue
  }

  lemma CleanEnd(cfg: Config, s: State)
    requires Invariant(cfg, s) && CleanlyClosed(s)
    ensures s.accepted == Events(s.handled) + s.late && Flatten(s.hook.sent) == KeptData(cfg, s.handled)
  {
    assert Flatten(s.hook.sent) + [] + [] == Flatten(s.hook.sent);
    assert Events(s.handled) + [] + s.late == Events(s.handled) + s.late;
  }

  lemma CleanCounts(cfg: Config, s: State)
    requires Invariant(cfg, s) && CleanlyClosed(s)
    ensures |s.accepted| == |Flatten(s.hook.sent)| + s.hook.drops + Count(s.handled, Unserialised) + |s.late|
  {
    CleanEnd(cfg, s);
    FatesAddUp(cfg, s.handled);
  }

  /**
    * After a shutdown in which no timer fired, the batches together are exactly the data kept, in the order logged;
    * every event accepted is in one batch, dropped, unserialisable, or was logged after the drain loop had ended.
    */
  lemma CleanShutdown(cfg: Config, steps: seq<Step>)
    requires ConfigOk(cfg) && IsRun(cfg, START, steps)
    ensures var s := End(cfg, START, steps);
            CleanlyClosed(s) ==>
              && s.accepted == Events(s.handled) + s.late
              && Flatten(s.hook.sent) == KeptData(cfg, s.handled)
              && |s.accepted| == |Flatten(s.hook.sent)| + s.hook.drops + Count(s.handled, Unserialised) + |s.late|
  {
    StartOk(cfg);
    RunKeeps(cfg, START, steps);
    var s := End(cfg, START, steps);
    if CleanlyClosed(s) {
      CleanEnd(cfg, s);
      CleanCounts(cfg, s);
    }
  }

  /** No event goes unaccounted for exactly when none was accepted after the drain loop had ended. */
  lemma NothingLost(cfg: Config, s: State)
    requires Invariant(cfg, s) && CleanlyClosed(s)
    ensures s.accepted == Events(s.handled) <==> s.late == []
  {
    CleanEnd(cfg, s);
    assert s.late != [] ==> |s.accepted| > |Events(s.handled)|;
  }

  // ----- the shutdown ends

  /** An upper bound on the steps left once `Close` has been called and nothing more is logged. */
  function Remaining(s: State): nat {
    4 * |s.logQueue| + (if s.hand.Some? then 3 else 0) + |s.hook.queue|
    + (match s.logger case Running => 2 case Draining => 1 case Ended => 0)
    + (match s.flusher case Running => 2 case Draining => 1 case Ended => 0)
    + (match s.closing case Open => 3 case AwaitLogger => 2 case AwaitHook => 1 case Closed => 0)
  }

  predicate IsTimer(step: Step) {
    step == LoggerTimer || step == HookTimer
  }

  /** Until it is closed, a pipeline that is closing can always go on without a timer, ... */
  lemma ShutdownNeverStuck(s: State)
    requires s.closing != Open && s.closing != Closed
    ensures exists step: Step :: Enabled(s, step) && !IsTimer(step) && !step.Log? && !step.Tick?
  {
    if s.closing == AwaitLogger {
      if s.hand.Some? {
        assert Enabled(s, Write);
      } else if s.logger == Ended {
        assert Enabled(s, LoggerDone);
      } else if s.logQueue != [] {
        assert Enabled(s, Take);
      } else if s.logger == Running {
        assert Enabled(s, SeeStop);
      } else {
        assert Enabled(s, EndDrain);
      }
    } else if s.flusher == Ended {
      assert Enabled(s, HookDone);
    } else if s.hook.queue != [] {
      assert Enabled(s, Receive);
    } else if s.flusher == Running {
      assert Enabled(s, SeeHookStop);
    } else {
      assert Enabled(s, EndHookDrain);
    }
  }

  /** ... and every step other than logging and ticking brings it nearer to its end. */
  lemma ShutdownAdvances(cfg: Config, s: State, step: Step)
    requires cfg.batchSize > 0 && Enabled(s, step) && !step.Log? && !step.Tick?
    ensures Remaining(After(cfg, s, step)) < Remaining(s)
  {
  }

  // ----- the logger as an object

  class AuditLogger {
    const cfg: Config
    const output: WebhookOutput
    const enabled: bool
    var ch: seq<Event>
    var bufferDrops: nat

    ghost predicate Valid()
      reads this
    {
      output.capacity == cfg.hookCapacity && output.batchSize == cfg.batchSize
    }

    constructor (cfg: Config, enabled: bool, output: WebhookOutput)
      requires output.capacity == cfg.hookCapacity && output.batchSize == cfg.batchSize
      ensures Valid() && this.cfg == cfg && this.output == output && this.enabled == enabled && ch == [] && bufferDrops == 0
    {
      this.cfg, this.enabled, this.output, ch, bufferDrops := cfg, enabled, output, [], 0;
    }

    /** Non-blocking: a full queue drops the event and counts the drop. */
    method Enqueue(event: Event, ghost s: State)
      requires s.logQueue == ch
      modifies this
      ensures ch == if enabled then Logged(cfg, s, event).logQueue else old(ch)
      ensures bufferDrops == old(bufferDrops) + if enabled && event.eventType in cfg.enabledEvents
                                                    && |old(ch)| >= cfg.logCapacity then 1 else 0
    {
      if !enabled {
        return;
      }
      if event.eventType !in cfg.enabledEvents {
        return;
      }
      if |ch| < cfg.logCapacity {
        ch := ch + [event];
      } else {
        bufferDrops := bufferDrops + 1;
      }
    }

    method WriteEvent(event: Event)
      requires Valid()
      modifies output
      ensures output.View() == if cfg.serialise(event).None? then old(output.View())
                               else Written(old(output.View()), cfg.serialise(event).value, cfg.hookCapacity)
    {
      var data := cfg.serialise(event);
      if data.None? {
        return;
      }
      output.Write(data.value);
    }

    /** The inner loop of the drain loop after stop, with no one else at the queues meanwhile. */
    method Drain(ghost s: State) returns (ghost t: State)
      requires Valid() && s.logQueue == ch && s.hand.None? && s.hook == output.View()
      modifies this, output
      ensures ch == [] && t.logQueue == [] && t.hand.None? && t.hook == output.View()
      ensures t == DrainedLog(cfg, s)
    {
      t := s;
      while ch != []
        invariant t.logQueue == ch && t.hand.None? && t.hook == output.View()
        invariant DrainedLog(cfg, t) == DrainedLog(cfg, s)
        decreases |ch|
      {
        var event := ch[0];
        ch := ch[1..];
        WriteEvent(event);
        t := Wrote(cfg, Took(t));
      }
    }
  }

  /** Take and write every queued event. */
  function DrainedLog(cfg: Config, s: State): State
    requires s.hand.None?
    decreases |s.logQueue|
  {
    if s.logQueue == [] then s else DrainedLog(cfg, Wrote(cfg, Took(s)))
  }
}
