/**
  * The audit pipeline seen from its callers: which events are accounted for after a shutdown is decided by whether
  * anything is logged after Close, whatever the goroutines do in between.
  */
module AuditCalls {
  import opened Webhooks
  import opened AuditPipeline

  /** The calls among the steps of a run: what was logged, and when it was closed. */
  function Calls(steps: seq<Step>): seq<Step> {
    if steps == [] then [] else CallIn(steps[0]) + Calls(steps[1..])
  }

  function CallIn(step: Step): seq<Step> {
    if step.Log? || step.Close? then [step] else []
  }

  function Logs(events: seq<Event>): seq<Step> {
    if events == [] then [] else [Log(events[0])] + Logs(events[1..])
  }

  /** Log some events, close, log some more. */
  function CallsOf(before: seq<Event>, after: seq<Event>): seq<Step> {
    Logs(before) + [Close] + Logs(after)
  }

  /** A run from the start that makes exactly these calls and shuts down without a timer. */
  ghost predicate CleanRun(cfg: Config, steps: seq<Step>, before: seq<Event>, after: seq<Event>) {
    IsRun(cfg, START, steps) && Calls(steps) == CallsOf(before, after) && CleanlyClosed(End(cfg, START, steps))
  }

  /** Every event that entered the queue was taken from it: sent in a batch, counted as dropped, or not serialisable. */
  ghost predicate AllAccounted(s: State) {
    s.accepted == Events(s.handled)
  }

  predicate SomeEnabled(cfg: Config, events: seq<Event>) {
    exists e | e in events :: e.eventType in cfg.enabledEvents
  }

  // ----- nothing enabled after Close: nothing is late

  predicate Harmless(cfg: Config, step: Step) {
    step.Log? ==> step.event.eventType !in cfg.enabledEvents
  }

  ghost predicate AllHarmless(cfg: Config, calls: seq<Step>) {
    forall c | c in calls :: Harmless(cfg, c)
  }

  lemma StaysClosed(cfg: Config, s: State, step: Step)
    requires Enabled(s, step) && s.closing != Open && Harmless(cfg, step)
    ensures After(cfg, s, step).closing != Open && After(cfg, s, step).late == s.late
  {
  }

  lemma {:induction false} NothingLate(cfg: Config, s: State, steps: seq<Step>)
    requires IsRun(cfg, s, steps) && s.closing != Open && AllHarmless(cfg, Calls(steps))
    ensures End(cfg, s, steps).late == s.late
    decreases |steps|
  {
    if steps != [] {
      assert steps[0].Log? ==> steps[0] in Calls(steps);
      assert forall c | c in Calls(steps[1..]) :: c in Calls(steps);
      StaysClosed(cfg, s, steps[0]);
      NothingLate(cfg, After(cfg, s, steps[0]), steps[1..]);
    }
  }

  lemma {:induction false} LogsHarmless(cfg: Config, events: seq<Event>)
    ensures AllHarmless(cfg, Logs(events)) <==> !SomeEnabled(cfg, events)
  {
    if events != [] {
      LogsHarmless(cfg, events[1..]);
      assert events == [events[0]] + events[1..];
      assert Logs(events)[0] in Logs(events);
      assert forall c | c in Logs(events[1..]) :: c in Logs(events);
    }
  }

  lemma StaysOpen(cfg: Config, s: State, step: Step)
    requires ConfigOk(cfg) && Invariant(cfg, s) && Enabled(s, step) && s.closing == Open && !step.Close?
    ensures After(cfg, s, step).closing == Open
  {
  }

  lemma OpenIsNotLate(cfg: Config, s: State)
    requires Invariant(cfg, s) && s.closing == Open
    ensures s.late == []
  {
  }

  lemma SomeCallLeft(steps: seq<Step>, before: seq<Event>, after: seq<Event>)
    requires Calls(steps) == CallsOf(before, after)
    ensures steps != []
  {
    CallsHead(before, after);
  }

  lemma FromCloseOn(cfg: Config, s: State, steps: seq<Step>, before: seq<Event>, after: seq<Event>)
    requires steps != [] && IsRun(cfg, s, steps) && Calls(steps) == CallsOf(before, after)
    requires steps[0].Close? && s.late == [] && !SomeEnabled(cfg, after)
    ensures End(cfg, s, steps).late == []
  {
    CallComes(steps, before, after);
    LogsHarmless(cfg, after);
    NothingLate(cfg, After(cfg, s, steps[0]), steps[1..]);
  }

  /** As long as the calls before Close are being made, the pipeline is open and nothing is late. */
  lemma {:induction false} NothingLateUpToClose(cfg: Config, s: State, steps: seq<Step>, before: seq<Event>, after: seq<Event>)
    requires ConfigOk(cfg) && Invariant(cfg, s) && IsRun(cfg, s, steps) && Calls(steps) == CallsOf(before, after)
    requires s.closing == Open && !SomeEnabled(cfg, after)
    ensures End(cfg, s, steps).late == []
    decreases |steps|
  {
    SomeCallLeft(steps, before, after);
    if steps[0].Close? {
      OpenIsNotLate(cfg, s);
      FromCloseOn(cfg, s, steps, before, after);
    } else {
      RestOfCalls(steps, before, after);
      var left := if steps[0].Log? then before[1..] else before;
      StepKeeps(cfg, s, steps[0]);
      StaysOpen(cfg, s, steps[0]);
      NothingLateUpToClose(cfg, After(cfg, s, steps[0]), steps[1..], left, after);
    }
  }

  lemma RestOfCalls(steps: seq<Step>, before: seq<Event>, after: seq<Event>)
    requires steps != [] && Calls(steps) == CallsOf(before, after) && !steps[0].Close?
    ensures steps[0].Log? ==> before != []
    ensures Calls(steps[1..]) == CallsOf(if steps[0].Log? then before[1..] else before, after)
  {
    if steps[0].Log? {
      CallComes(steps, before, after);
    } else {
      assert [] + Calls(steps[1..]) == Calls(steps[1..]);
    }
  }

  function FirstCall(before: seq<Event>): Step {
    if before == [] then Close else Log(before[0])
  }

  function LaterCalls(before: seq<Event>, after: seq<Event>): seq<Step> {
    if before == [] then Logs(after) else CallsOf(before[1..], after)
  }

  lemma CallsHead(before: seq<Event>, after: seq<Event>)
    ensures CallsOf(before, after) == [FirstCall(before)] + LaterCalls(before, after)
  {
    if before == [] {
      assert [] + [Close] == [Close];
    } else {
      assert [Log(before[0])] + Logs(before[1..]) + [Close] + Logs(after) == [Log(before[0])] + (Logs(before[1..]) + [Close] + Logs(after));
    }
  }

  lemma SameHeads(x: Step, a: seq<Step>, y: Step, b: seq<Step>)
    requires [x] + a == [y] + b
    ensures x == y && a == b
  {
    assert ([x] + a)[0] == x && ([y] + b)[0] == y;
    assert ([x] + a)[1..] == a && ([y] + b)[1..] == b;
  }

  /** The next call of a run is the next one of the given calls. */
  lemma CallComes(steps: seq<Step>, before: seq<Event>, after: seq<Event>)
    requires steps != [] && Calls(steps) == CallsOf(before, after) && (steps[0].Close? || steps[0].Log?)
    ensures steps[0] == FirstCall(before) && Calls(steps[1..]) == LaterCalls(before, after)
  {
    CallsHead(before, after);
    SameHeads(steps[0], Calls(steps[1..]), FirstCall(before), LaterCalls(before, after));
  }

  lemma CleanRunAccounts(cfg: Config, steps: seq<Step>, before: seq<Event>, after: seq<Event>)
    requires ConfigOk(cfg) && CleanRun(cfg, steps, before, after) && !SomeEnabled(cfg, after)
    ensures AllAccounted(End(cfg, START, steps))
  {
    StartOk(cfg);
    RunKeeps(cfg, START, steps);
    NothingLateUpToClose(cfg, START, steps, before, after);
    NothingLost(cfg, End(cfg, START, steps));
  }

  // ----- an enabled event after Close: a run that loses it

  ghost predicate Leads(cfg: Config, s: State, steps: seq<Step>, t: State) {
    IsRun(cfg, s, steps) && End(cfg, s, steps) == t
  }

  lemma Associative(x: seq<Step>, y: seq<Step>, z: seq<Step>)
    ensures x + y + z == x + (y + z)
  {
  }

  lemma {:induction false} CallsConcat(a: seq<Step>, b: seq<Step>)
    ensures Calls(a + b) == Calls(a) + Calls(b)
  {
    if a == [] {
      assert a + b == b;
    } else {
      CallsConcat(a[1..], b);
      assert (a + b)[0] == a[0] && (a + b)[1..] == a[1..] + b;
      Associative(CallIn(a[0]), Calls(a[1..]), Calls(b));
    }
  }

  lemma LeadsFirst(cfg: Config, s: State, step: Step, rest: seq<Step>, u: State)
    requires Enabled(s, step) && Leads(cfg, After(cfg, s, step), rest, u)
    ensures Leads(cfg, s, [step] + rest, u)
    ensures Calls([step] + rest) == CallIn(step) + Calls(rest)
  {
    assert ([step] + rest)[1..] == rest;
  }

  lemma {:induction false} RunOn(cfg: Config, s: State, a: seq<Step>, t: State, b: seq<Step>, u: State)
    requires Leads(cfg, s, a, t) && Leads(cfg, t, b, u)
    ensures Leads(cfg, s, a + b, u)
    decreases |a|
  {
    if a == [] {
      assert a + b == b;
    } else {
      var next := After(cfg, s, a[0]);
      RunOn(cfg, next, a[1..], t, b, u);
      LeadsFirst(cfg, s, a[0], a[1..] + b, u);
      assert [a[0]] + (a[1..] + b) == a + b;
    }
  }

  lemma LeadsOn(cfg: Config, s: State, a: seq<Step>, t: State, b: seq<Step>, u: State)
    requires Leads(cfg, s, a, t) && Leads(cfg, t, b, u)
    ensures Leads(cfg, s, a + b, u) && Calls(a + b) == Calls(a) + Calls(b)
  {
    RunOn(cfg, s, a, t, b, u);
    CallsConcat(a, b);
  }

  /** Loops, hand and closing are the same; nothing late is forgotten. */
  predicate OnlyLogged(s: State, t: State) {
    && t.logger == s.logger && t.flusher == s.flusher && t.closing == s.closing && t.hand == s.hand && t.overdue == s.overdue
    && |t.late| >= |s.late|
  }

  lemma {:induction false} LogAll(cfg: Config, s: State, events: seq<Event>) returns (t: State)
    ensures Leads(cfg, s, Logs(events), t) && Calls(Logs(events)) == Logs(events) && OnlyLogged(s, t)
    ensures ConfigOk(cfg) && s.logger == Ended && s.logQueue == [] && SomeEnabled(cfg, events) ==> t.late != []
    decreases |events|
  {
    if events == [] {
      t := s;
    } else {
      var next := Logged(cfg, s, events[0]);
      t := LogAll(cfg, next, events[1..]);
      assert events == [events[0]] + events[1..];
      assert Logs(events)[1..] == Logs(events[1..]);
    }
  }

  /** The drain loop, once it has seen the stop signal, empties the queue and ends. */
  lemma {:induction false} EndLogger(cfg: Config, s: State) returns (steps: seq<Step>, t: State)
    requires s.logger == Draining && s.hand.None?
    ensures Leads(cfg, s, steps, t) && Calls(steps) == []
    ensures t.logger == Ended && t.logQueue == [] && t.flusher == s.flusher && t.closing == s.closing && t.overdue == s.overdue
    decreases |s.logQueue|
  {
    if s.logQueue == [] {
      t := After(cfg, s, EndDrain);
      LeadsFirst(cfg, s, EndDrain, [], t);
      steps := [EndDrain] + [];
    } else {
      var taken := Took(s);
      var rest: seq<Step>;
      rest, t := EndLogger(cfg, Wrote(cfg, taken));
      LeadsFirst(cfg, taken, Write, rest, t);
      LeadsFirst(cfg, s, Take, [Write] + rest, t);
      steps := [Take] + ([Write] + rest);
    }
  }

  /** The flush loop likewise. */
  lemma {:induction false} EndFlusher(cfg: Config, s: State) returns (steps: seq<Step>, t: State)
    requires s.flusher == Draining && s.closing == AwaitHook
    ensures Leads(cfg, s, steps, t) && Calls(steps) == []
    ensures t.closing == Closed && t.overdue == s.overdue && t.late == s.late
    ensures t.accepted == s.accepted && t.handled == s.handled
    decreases |s.hook.queue|
  {
    if s.hook.queue == [] {
      var ended := After(cfg, s, EndHookDrain);
      t := After(cfg, ended, HookDone);
      LeadsFirst(cfg, ended, HookDone, [], t);
      LeadsFirst(cfg, s, EndHookDrain, [HookDone] + [], t);
      steps := [EndHookDrain] + ([HookDone] + []);
    } else {
      var rest: seq<Step>;
      rest, t := EndFlusher(cfg, After(cfg, s, Receive));
      LeadsFirst(cfg, s, Receive, rest, t);
      steps := [Receive] + rest;
    }
  }

  /** Log the first events, close, and let the drain loop end. */
  lemma UpToEndOfLogger(cfg: Config, before: seq<Event>) returns (steps: seq<Step>, t: State)
    ensures Leads(cfg, START, steps, t) && Calls(steps) == Logs(before) + [Close]
    ensures t.logger == Ended && t.logQueue == [] && t.flusher == Running && t.closing == AwaitLogger && !t.overdue
  {
    var s0 := LogAll(cfg, START, before);
    var s1 := After(cfg, s0, Close);
    var rest;
    rest, t := EndLogger(cfg, After(cfg, s1, SeeStop));
    LeadsFirst(cfg, s1, SeeStop, rest, t);
    LeadsFirst(cfg, s0, Close, [SeeStop] + rest, t);
    LeadsOn(cfg, START, Logs(before), s0, [Close] + ([SeeStop] + rest), t);
    steps := Logs(before) + ([Close] + ([SeeStop] + rest));
    assert [Close] + [] == [Close];
  }

  /** After the drain loop has ended, the shutdown completes without looking at the queue again. */
  lemma FromEndOfLogger(cfg: Config, s: State) returns (steps: seq<Step>, t: State)
    requires s.logger == Ended && s.flusher == Running && s.closing == AwaitLogger && !s.overdue
    ensures Leads(cfg, s, steps, t) && Calls(steps) == [] && CleanlyClosed(t) && t.late == s.late
  {
    var s1 := After(cfg, s, LoggerDone);
    var rest;
    rest, t := EndFlusher(cfg, After(cfg, s1, SeeHookStop));
    LeadsFirst(cfg, s1, SeeHookStop, rest, t);
    LeadsFirst(cfg, s, LoggerDone, [SeeHookStop] + rest, t);
    steps := [LoggerDone] + ([SeeHookStop] + rest);
  }

  /** Whatever else is logged: if an enabled event is logged after Close, some clean run loses an accepted event. */
  lemma LateEventIsLost(cfg: Config, before: seq<Event>, after: seq<Event>) returns (steps: seq<Step>)
    requires ConfigOk(cfg) && SomeEnabled(cfg, after)
    ensures CleanRun(cfg, steps, before, after) && !AllAccounted(End(cfg, START, steps))
  {
    var first, s := UpToEndOfLogger(cfg, before);
    var t := LogAll(cfg, s, after);
    var last, u := FromEndOfLogger(cfg, t);
    LeadsOn(cfg, s, Logs(after), t, last, u);
    LeadsOn(cfg, START, first, s, Logs(after) + last, u);
    steps := first + (Logs(after) + last);
    assert Calls(steps) == CallsOf(before, after) by {
      assert Logs(after) + [] == Logs(after);
    }
    StartOk(cfg);
    RunKeeps(cfg, START, steps);
    NothingLost(cfg, u);
  }

  /**
    * For any sequence of calls: in every interleaving with a clean shutdown every accepted event is sent in a batch,
    * counted as dropped or not serialisable, if and only if no enabled event is logged after Close.
    */
  lemma NothingLostExactly(cfg: Config, before: seq<Event>, after: seq<Event>)
    requires ConfigOk(cfg)
    ensures (forall steps | CleanRun(cfg, steps, before, after) :: AllAccounted(End(cfg, START, steps))) <==>
            !SomeEnabled(cfg, after)
  {
    if SomeEnabled(cfg, after) {
      var steps := LateEventIsLost(cfg, before, after);
    } else {
      forall steps | CleanRun(cfg, steps, before, after)
        ensures AllAccounted(End(cfg, START, steps))
      {
        CleanRunAccounts(cfg, steps, before, after);
      }
    }
  }

  /** A shutdown cut short by a timer can lose an event that was logged before Close: it is still in the queue. */
  lemma TimerCutsShort(cfg: Config, e: Event) returns (steps: seq<Step>, t: State)
    requires ConfigOk(cfg) && e.eventType in cfg.enabledEvents
    ensures Leads(cfg, START, steps, t) && Calls(steps) == CallsOf([e], [])
    ensures t.closing == Closed && t.overdue && !AllAccounted(t)
  {
    var s0 := Logged(cfg, START, e);
    var s1 := After(cfg, s0, Close);
    var s2 := After(cfg, s1, LoggerTimer);
    var rest;
    rest, t := EndFlusher(cfg, After(cfg, s2, SeeHookStop));
    LeadsFirst(cfg, s2, SeeHookStop, rest, t);
    LeadsFirst(cfg, s1, LoggerTimer, [SeeHookStop] + rest, t);
    LeadsFirst(cfg, s0, Close, [LoggerTimer] + ([SeeHookStop] + rest), t);
    LeadsFirst(cfg, START, Log(e), [Close] + ([LoggerTimer] + ([SeeHookStop] + rest)), t);
    steps := [Log(e)] + ([Close] + ([LoggerTimer] + ([SeeHookStop] + rest)));
    assert [e][1..] == [] && Logs([e]) == [Log(e)];
    assert [Log(e)] + ([Close] + []) == CallsOf([e], []);
  }

  // ----- within the capacities: everything is sent

  function EventsIn(calls: seq<Step>): seq<Event> {
    if calls == [] then [] else (if calls[0].Log? then [calls[0].event] else []) + EventsIn(calls[1..])
  }

  function EnabledOf(cfg: Config, events: seq<Event>): seq<Event> {
    if events == [] then []
    else EnabledOf(cfg, events[..|events| - 1])
         + if events[|events| - 1].eventType in cfg.enabledEvents then [events[|events| - 1]] else []
  }

  /** The events that can be serialised, serialised, in order. */
  function Serialised(cfg: Config, events: seq<Event>): seq<Data> {
    if events == [] then []
    else Serialised(cfg, events[..|events| - 1])
         + match cfg.serialise(events[|events| - 1]) case Some(data) => [data] case None => []
  }

  lemma EnabledOfLast(cfg: Config, events: seq<Event>, e: Event)
    ensures EnabledOf(cfg, events + [e]) == EnabledOf(cfg, events) + if e.eventType in cfg.enabledEvents then [e] else []
  {
    assert (events + [e])[..|events|] == events;
  }

  lemma {:induction false} EnabledOfPrefix(cfg: Config, a: seq<Event>, b: seq<Event>)
    ensures |EnabledOf(cfg, a)| <= |EnabledOf(cfg, a + b)|
    ensures !SomeEnabled(cfg, b) ==> EnabledOf(cfg, a + b) == EnabledOf(cfg, a)
  {
    if b == [] {
      assert a + b == a;
    } else {
      var init, last := b[..|b| - 1], b[|b| - 1];
      EnabledOfPrefix(cfg, a, init);
      assert a + b == a + init + [last] && b == init + [last];
      EnabledOfLast(cfg, a + init, last);
      assert last in b && forall e | e in init :: e in b;
    }
  }

  /** Exactly the enabled events were accepted, and none was dropped on the way. */
  ghost predicate NoneDropped(cfg: Config, s: State, past: seq<Event>) {
    s.accepted == EnabledOf(cfg, past) && forall h | h in s.handled :: h.fate != Dropped
  }

  ghost predicate Fits(cfg: Config, events: seq<Event>) {
    |EnabledOf(cfg, events)| <= cfg.logCapacity && |EnabledOf(cfg, events)| <= cfg.hookCapacity
  }

  lemma {:induction false} NoneDroppedCounts(cfg: Config, handled: seq<Handled>)
    requires forall h | h in handled :: h.fate != Dropped
    ensures Count(handled, Dropped) == 0
  {
    if handled != [] {
      var init := handled[..|handled| - 1];
      assert handled == init + [handled[|handled| - 1]];
      assert handled[|handled| - 1] in handled;
      NoneDroppedCounts(cfg, init);
    }
  }

  lemma LogFits(cfg: Config, s: State, past: seq<Event>, e: Event)
    requires Invariant(cfg, s) && NoneDropped(cfg, s, past) && Fits(cfg, past + [e])
    ensures NoneDropped(cfg, Logged(cfg, s, e), past + [e])
  {
    EnabledOfLast(cfg, past, e);
    assert |s.logQueue| <= |s.accepted|;
  }

  lemma WriteFits(cfg: Config, s: State, past: seq<Event>)
    requires Invariant(cfg, s) && NoneDropped(cfg, s, past) && Fits(cfg, past) && s.hand.Some?
    ensures NoneDropped(cfg, Wrote(cfg, s), past)
  {
    FatesAddUp(cfg, s.handled);
    assert |s.hook.queue| <= |Contents(s.hook)| == |KeptData(cfg, s.handled)| <= |Events(s.handled)| < |s.accepted|;
  }

  lemma StepFits(cfg: Config, s: State, past: seq<Event>, step: Step)
    requires Invariant(cfg, s) && NoneDropped(cfg, s, past) && Enabled(s, step)
    requires Fits(cfg, past + if step.Log? then [step.event] else [])
    ensures NoneDropped(cfg, After(cfg, s, step), past + if step.Log? then [step.event] else [])
  {
    if step.Log? {
      LogFits(cfg, s, past, step.event);
    } else {
      assert past + [] == past;
      if step.Write? {
        WriteFits(cfg, s, past);
      }
    }
  }

  lemma EventsInFirst(steps: seq<Step>)
    requires steps != []
    ensures EventsIn(Calls(steps)) == (if steps[0].Log? then [steps[0].event] else []) + EventsIn(Calls(steps[1..]))
  {
    assert steps[0].Log? || steps[0].Close? ==> Calls(steps)[1..] == Calls(steps[1..]);
    assert !steps[0].Log? && !steps[0].Close? ==> Calls(steps) == Calls(steps[1..]);
  }

  lemma EventsAssociative(x: seq<Event>, y: seq<Event>, z: seq<Event>)
    ensures x + y + z == x + (y + z)
  {
  }

  lemma {:induction false} RunFits(cfg: Config, s: State, steps: seq<Step>, past: seq<Event>)
    requires ConfigOk(cfg) && Invariant(cfg, s) && IsRun(cfg, s, steps) && NoneDropped(cfg, s, past)
    requires Fits(cfg, past + EventsIn(Calls(steps)))
    ensures NoneDropped(cfg, End(cfg, s, steps), past + EventsIn(Calls(steps)))
    decreases |steps|
  {
    if steps == [] {
      assert past + [] == past;
    } else {
      var step, later := steps[0], EventsIn(Calls(steps[1..]));
      var logged := if step.Log? then [step.event] else [];
      EventsInFirst(steps);
      EventsAssociative(past, logged, later);
      EnabledOfPrefix(cfg, past + logged, later);
      StepFits(cfg, s, past, step);
      StepKeeps(cfg, s, step);
      RunFits(cfg, After(cfg, s, step), steps[1..], past + logged);
    }
  }

  lemma EventsInCons(step: Step, rest: seq<Step>)
    ensures EventsIn([step] + rest) == (if step.Log? then [step.event] else []) + EventsIn(rest)
  {
    assert ([step] + rest)[1..] == rest;
  }

  lemma {:induction false} EventsOfLogs(events: seq<Event>, rest: seq<Step>)
    ensures EventsIn(Logs(events) + rest) == events + EventsIn(rest)
  {
    if events == [] {
      assert [] + rest == rest;
    } else {
      var first, others := [events[0]], events[1..];
      EventsOfLogs(others, rest);
      Associative([Log(events[0])], Logs(others), rest);
      EventsInCons(Log(events[0]), Logs(others) + rest);
      EventsAssociative(first, others, EventsIn(rest));
      assert events == first + others;
    }
  }

  lemma EventsOfCalls(before: seq<Event>, after: seq<Event>)
    ensures EventsIn(CallsOf(before, after)) == before + after
  {
    Associative(Logs(before), [Close], Logs(after));
    EventsOfLogs(before, [Close] + Logs(after));
    assert ([Close] + Logs(after))[1..] == Logs(after);
    EventsOfLogs(after, []);
    assert Logs(after) + [] == Logs(after);
  }

  lemma {:induction false} KeptIsSerialised(cfg: Config, handled: seq<Handled>)
    requires forall h | h in handled :: h.fate != Dropped && (h.fate == Unserialised <==> cfg.serialise(h.event).None?)
    ensures KeptData(cfg, handled) == Serialised(cfg, Events(handled))
  {
    if handled != [] {
      var init, last := handled[..|handled| - 1], handled[|handled| - 1];
      assert handled == init + [last];
      assert last in handled;
      KeptIsSerialised(cfg, init);
    }
  }

  /**
    * If no more enabled events are logged than either queue holds, and none after Close, then after every clean shutdown the
    * batches together are exactly the enabled events, serialised, in the order in which they were logged.
    */
  lemma AllIsSent(cfg: Config, steps: seq<Step>, before: seq<Event>, after: seq<Event>)
    requires ConfigOk(cfg) && CleanRun(cfg, steps, before, after) && Fits(cfg, before) && !SomeEnabled(cfg, after)
    ensures Flatten(End(cfg, START, steps).hook.sent) == Serialised(cfg, EnabledOf(cfg, before))
    ensures End(cfg, START, steps).hook.drops == 0
  {
    var s := End(cfg, START, steps);
    EventsOfCalls(before, after);
    EnabledOfPrefix(cfg, before, after);
    assert [] + (before + after) == before + after;
    StartOk(cfg);
    RunFits(cfg, START, steps, []);
    RunKeeps(cfg, START, steps);
    CleanRunAccounts(cfg, steps, before, after);
    CleanEnd(cfg, s);
    KeptIsSerialised(cfg, s.handled);
    NoneDroppedCounts(cfg, s.handled);
  }

  /** A tick sends the partial batch, if there is one. */
  lemma TickSends(cfg: Config, s: State)
    requires Enabled(s, Tick)
    ensures var h := After(cfg, s, Tick).hook;
            && h.batch == [] && h.queue == s.hook.queue && h.drops == s.hook.drops
            && h.sent == s.hook.sent + if s.hook.batch == [] then [] else [s.hook.batch]
  {
    assert s.hook.sent + [] == s.hook.sent;
  }
}
