/** The reverse proxy's flushing writer: a lock, a timer and a pending flag, as interleaved steps. */
module LatencyWriter {

  /** `t == nil`, a timer that is not running, or one that will expire at `deadline`. */
  datatype Timer = Absent | Idle | Armed(deadline: int)

  /** The writer, the destination it flushes, and the runtime that runs its timer.
      `unflushed` holds, for each byte written since the last flush, the time it was written at;
      `fired` holds the deadlines of callbacks that have started and still wait for the lock. */
  datatype State = State(
    latency: int,
    now: int,
    timer: Timer,
    flushPending: bool,
    fired: seq<int>,
    unflushed: seq<int>,
    flushes: nat,
    stopped: bool)

  datatype Event = Write(n: nat) | Expire | Callback | Tick(d: nat) | Stop

  function Flush(s: State): State { s.(unflushed := [], flushes := s.flushes + 1) }

  function AfterWrite(s: State, n: nat): State {
    var t := s.(unflushed := s.unflushed + seq(n, _ => s.now));
    if s.latency < 0 then Flush(t)
    else if s.flushPending then t
    else t.(timer := Armed(s.now + s.latency), flushPending := true)
  }

  function AfterCallback(s: State): State
    requires s.fired != []
  {
    var t := s.(fired := s.fired[1..]);
    if s.flushPending then Flush(t).(flushPending := false) else t
  }

  function AfterStop(s: State): State {
    s.(flushPending := false, timer := if s.timer.Armed? then Idle else s.timer, stopped := true)
  }

  predicate Enabled(s: State, e: Event) {
    match e
    case Write(_) => !s.stopped        // copyResponse stops the writer only after the copy has returned
    case Expire => s.timer.Armed? && s.timer.deadline <= s.now
    case Callback => s.fired != []
    case Tick(_) => true
    case Stop => !s.stopped
  }

  function Next(s: State, e: Event): State
    requires Enabled(s, e)
  {
    match e
    case Write(n) => AfterWrite(s, n)
    case Expire => s.(timer := Idle, fired := s.fired + [s.timer.deadline])
    case Callback => AfterCallback(s)
    case Tick(d) => s.(now := s.now + d)
    case Stop => AfterStop(s)
  }

  /** How `copyResponse` sets the writer up: already pending, with the timer running. */
  function Started(latency: int, now: int): State {
    State(latency, now, Armed(now + latency), true, [], [], 0, false)
  }

  // ---------------------------------------------------------------------------------------------
  // The object
  // ---------------------------------------------------------------------------------------------

  /** The writer's own fields, with the destination and the runtime's side of the timer beside them.
      Each method runs under the lock from its first statement to its last. */
  class MaxLatencyWriter {
    const latency: int
    var now: int
    var timer: Timer
    var flushPending: bool
    var fired: seq<int>
    var unflushed: seq<int>
    var flushes: nat
    var stopped: bool

    ghost function View(): State
      reads this
    {
      State(latency, now, timer, flushPending, fired, unflushed, flushes, stopped)
    }

    constructor (latency: int, start: int)
      ensures View() == Started(latency, start)
    {
      this.latency, now := latency, start;
      flushPending, timer := true, Armed(start + latency);
      fired, unflushed, flushes, stopped := [], [], 0, false;
    }

    method FlushDestination()
      modifies this
      ensures View() == Flush(old(View()))
    {
      unflushed, flushes := [], flushes + 1;
    }

    method Write(n: nat)
      modifies this
      ensures View() == AfterWrite(old(View()), n)
    {
      var t := now;
      unflushed := unflushed + seq(n, _ => t);
      if latency < 0 {
        FlushDestination();
        return;
      }
      if flushPending {
        return;
      }
      timer := Armed(now + latency);     // a new timer if there was none, the old one reset otherwise
      flushPending := true;
    }

    method DelayedFlush()
      requires fired != []
      modifies this
      ensures View() == AfterCallback(old(View()))
    {
      fired := fired[1..];
      if !flushPending {
        return;
      }
      FlushDestination();
      flushPending := false;
    }

    method StopTimer()
      modifies this
      ensures View() == AfterStop(old(View()))
    {
      flushPending := false;
      if timer.Armed? {
        timer := Idle;
      }
      stopped := true;
    }
  }

  // ---------------------------------------------------------------------------------------------
  // Every interleaving
  // ---------------------------------------------------------------------------------------------

  predicate Feasible(s: State, events: seq<Event>)
    decreases |events|
  {
    events == [] || (Enabled(s, events[0]) && Feasible(Next(s, events[0]), events[1..]))
  }

  function Run(s: State, events: seq<Event>): State
    requires Feasible(s, events)
    decreases |events|
  {
    if events == [] then s else Run(Next(s, events[0]), events[1..])
  }

  /** The number of flushes the writer still owes: a running timer or a callback at the lock. */
  function Owed(s: State): nat { (if s.timer.Armed? then 1 else 0) + |s.fired| }

  ghost predicate Ordered(times: seq<int>) {
    forall i, j :: 0 <= i <= j < |times| ==> times[i] <= times[j]
  }

  /** Before `stop`: a flush is pending exactly when one is owed, bytes wait only while one is
      pending, and the flush that is owed is due within the latency of the oldest waiting byte. */
  ghost predicate Live(s: State) {
    && Owed(s) == (if s.flushPending then 1 else 0)
    && (s.unflushed != [] ==> s.flushPending && 0 <= s.latency)
    && Ordered(s.unflushed)
    && (forall i :: 0 <= i < |s.unflushed| ==> s.unflushed[i] <= s.now)
    && (s.timer.Armed? ==> s.timer.deadline <= s.now + s.latency)
    && (forall i :: 0 <= i < |s.fired| ==> s.fired[i] <= s.now)
    && (s.unflushed != [] ==>
          && (s.timer.Armed? ==> s.timer.deadline <= s.unflushed[0] + s.latency)
          && (forall i :: 0 <= i < |s.fired| ==> s.fired[i] <= s.unflushed[0] + s.latency))
  }

  /** After `stop`: no timer runs, nothing is pending, and at most one late callback is left. */
  ghost predicate Dead(s: State) {
    !s.timer.Armed? && !s.flushPending && |s.fired| <= 1
  }

  ghost predicate Inv(s: State) { if s.stopped then Dead(s) else Live(s) }

  lemma StepKeepsInv(s: State, e: Event)
    requires Inv(s) && Enabled(s, e)
    ensures Inv(Next(s, e))
  {
  }

  lemma {:induction false} RunKeepsInv(s: State, events: seq<Event>)
    requires Inv(s) && Feasible(s, events)
    ensures Inv(Run(s, events))
    decreases |events|
  {
    if events != [] {
      StepKeepsInv(s, events[0]);
      RunKeepsInv(Next(s, events[0]), events[1..]);
    }
  }

  /** In every interleaving, until `stop`: bytes written since the last flush imply a pending flush;
      a flush is pending exactly when the timer is armed or one callback waits for the lock, never
      both and never two; and the flush is due no later than the oldest byte's time plus the latency. */
  lemma FlushIsOwed(latency: int, start: int, events: seq<Event>)
    requires Feasible(Started(latency, start), events)
    ensures var s := Run(Started(latency, start), events);
            !s.stopped ==>
              && (s.unflushed != [] ==> s.flushPending)
              && (s.flushPending <==> (s.timer.Armed? && s.fired == []) || (!s.timer.Armed? && |s.fired| == 1))
              && (!s.flushPending <==> !s.timer.Armed? && s.fired == [])
              && (s.unflushed != [] && s.timer.Armed? ==> s.timer.deadline <= s.unflushed[0] + s.latency)
              && (s.unflushed != [] && s.fired != [] ==> s.fired[0] <= s.unflushed[0] + s.latency)
  {
    RunKeepsInv(Started(latency, start), events);
  }

  // ---------------------------------------------------------------------------------------------
  // No flush too many
  // ---------------------------------------------------------------------------------------------

  /** The steps that flush: a callback while a flush is pending and, with a negative latency, any write. */
  predicate Flushes(s: State, e: Event) { (e.Callback? && s.flushPending) || (e.Write? && s.latency < 0) }

  function FlushSteps(s: State, events: seq<Event>): nat
    requires Feasible(s, events)
    decreases |events|
  {
    if events == [] then 0 else (if Flushes(s, events[0]) then 1 else 0) + FlushSteps(Next(s, events[0]), events[1..])
  }

  /** When each byte of a run was written. */
  function Written(s: State, events: seq<Event>): seq<int>
    requires Feasible(s, events)
    decreases |events|
  {
    if events == [] then []
    else (if events[0].Write? then seq(events[0].n, _ => s.now) else []) + Written(Next(s, events[0]), events[1..])
  }

  /** A step flushes everything that waits, or keeps it all and adds what it writes. */
  lemma StepKeepsBytes(s: State, e: Event)
    requires Enabled(s, e)
    ensures Next(s, e).flushes == s.flushes + if Flushes(s, e) then 1 else 0
    ensures Next(s, e).unflushed ==
            if Flushes(s, e) then [] else s.unflushed + if e.Write? then seq(e.n, _ => s.now) else []
  {
  }

  /** In every run the destination is flushed exactly once for each flushing step; and over a run without
      one, every byte written is kept waiting, in order, behind those that waited before. */
  lemma {:induction false} FlushesExactly(s: State, events: seq<Event>)
    requires Feasible(s, events)
    ensures Run(s, events).flushes == s.flushes + FlushSteps(s, events)
    ensures FlushSteps(s, events) == 0 ==> Run(s, events).unflushed == s.unflushed + Written(s, events)
    decreases |events|
  {
    if events == [] {
      assert s.unflushed + [] == s.unflushed;
    } else {
      var e, t := events[0], Next(s, events[0]);
      StepKeepsBytes(s, e);
      FlushesExactly(t, events[1..]);
      var now := if e.Write? then seq(e.n, _ => s.now) else [];
      assert s.unflushed + (now + Written(t, events[1..])) == (s.unflushed + now) + Written(t, events[1..]);
    }
  }

  /** From `since` on, each flush by a callback comes at least the latency after the one before. */
  predicate Apart(s: State, events: seq<Event>, since: int)
    requires Feasible(s, events)
    decreases |events|
  {
    events == [] ||
    ((Flushes(s, events[0]) ==> since + s.latency <= s.now) &&
     Apart(Next(s, events[0]), events[1..], if Flushes(s, events[0]) then s.now else since))
  }

  /** No flush that is owed is due before the latency has passed. */
  ghost predicate NotEarly(s: State, since: int) {
    && since <= s.now
    && (s.timer.Armed? ==> since + s.latency <= s.timer.deadline)
    && (forall i :: 0 <= i < |s.fired| ==> since + s.latency <= s.fired[i])
  }

  lemma {:induction false} NotEarlyKept(s: State, events: seq<Event>, since: int)
    requires Inv(s) && NotEarly(s, since) && 0 <= s.latency && Feasible(s, events)
    ensures Apart(s, events, since)
    decreases |events|
  {
    if events != [] {
      StepKeepsInv(s, events[0]);
      if Flushes(s, events[0]) {
        assert since + s.latency <= s.fired[0] <= s.now;
      }
      NotEarlyKept(Next(s, events[0]), events[1..], if Flushes(s, events[0]) then s.now else since);
    }
  }

  /** In every interleaving writes are batched: the first flush comes no sooner than the latency after the
      start, and each later one no sooner than the latency after the one before. */
  lemma FlushesApart(latency: int, start: int, events: seq<Event>)
    requires 0 <= latency && Feasible(Started(latency, start), events)
    ensures Apart(Started(latency, start), events, start)
  {
    NotEarlyKept(Started(latency, start), events, start);
  }

  function Count(events: seq<Event>, p: Event -> bool): nat
    decreases |events|
  {
    if events == [] then 0 else (if p(events[0]) then 1 else 0) + Count(events[1..], p)
  }

  /** With a negative latency every write flushes at once, exactly once, and nothing ever waits; the only
      other flush is the one the timer owed from the start. */
  lemma {:induction false} ImmediateFlushes(s: State, events: seq<Event>)
    requires Inv(s) && Feasible(s, events) && s.latency < 0 && s.unflushed == []
    ensures Run(s, events).unflushed == []
    ensures var writes := Count(events, (e: Event) => e.Write?);
            writes <= FlushSteps(s, events) <= writes + if s.flushPending then 1 else 0
    decreases |events|
  {
    if events != [] {
      StepKeepsInv(s, events[0]);
      StepKeepsBytes(s, events[0]);
      ImmediateFlushes(Next(s, events[0]), events[1..]);
    }
  }

  /** Once `stop` has run, whatever callbacks are left over flush nothing. */
  lemma {:induction false} NoFlushAfterStop(s: State, events: seq<Event>)
    requires Inv(s) && s.stopped && Feasible(s, events)
    ensures Run(s, events).stopped && Run(s, events).flushes == s.flushes
    decreases |events|
  {
    if events != [] {
      StepKeepsInv(s, events[0]);
      NoFlushAfterStop(Next(s, events[0]), events[1..]);
    }
  }

  lemma OneStep(s: State, e: Event)
    requires Enabled(s, e)
    ensures Feasible(s, [e]) && Run(s, [e]) == Next(s, e)
  {
    assert [e][1..] == [];
    assert Run(Next(s, e), []) == Next(s, e);
  }

  lemma ThreeSteps(s: State, a: Event, b: Event, c: Event)
    requires Enabled(s, a) && Enabled(Next(s, a), b) && Enabled(Next(Next(s, a), b), c)
    ensures Feasible(s, [a, b, c]) && Run(s, [a, b, c]) == Next(Next(Next(s, a), b), c)
  {
    assert [a, b, c][1..] == [b, c] && [b, c][1..] == [c];
    OneStep(Next(Next(s, a), b), c);
    assert Feasible(Next(s, a), [b, c]) && Run(Next(s, a), [b, c]) == Next(Next(Next(s, a), b), c);
  }

  /** The latency bound is met: from any reachable state with bytes waiting and the timer armed,
      letting time pass to the deadline at most and the callback run delivers every waiting byte,
      no later than the latency after the oldest one was written. */
  lemma WaitingBytesGoOut(latency: int, start: int, events: seq<Event>) returns (more: seq<Event>)
    requires Feasible(Started(latency, start), events)
    requires var s := Run(Started(latency, start), events); !s.stopped && s.unflushed != []
    ensures var s := Run(Started(latency, start), events);
            && Feasible(s, more)
            && (forall i :: 0 <= i < |more| ==> !more[i].Write?)
            && Run(s, more).unflushed == []
            && (s.now <= s.unflushed[0] + latency ==> Run(s, more).now <= s.unflushed[0] + latency)
  {
    var s := Run(Started(latency, start), events);
    RunKeepsInv(Started(latency, start), events);
    RunKeepsLatency(Started(latency, start), events);
    if s.timer.Armed? {
      var d: nat := if s.timer.deadline <= s.now then 0 else s.timer.deadline - s.now;
      more := [Tick(d), Expire, Callback];
      ThreeSteps(s, Tick(d), Expire, Callback);
    } else {
      more := [Callback];
      OneStep(s, Callback);
    }
  }

  /** A prompt runtime: time does not pass an armed deadline, nor while a callback waits for the lock. */
  predicate Prompt(s: State, events: seq<Event>)
    requires Feasible(s, events)
    decreases |events|
  {
    events == [] ||
    ((events[0].Tick? ==> s.fired == [] && (s.timer.Armed? ==> s.now + events[0].d <= s.timer.deadline)) &&
     Prompt(Next(s, events[0]), events[1..]))
  }

  /** What a prompt runtime keeps: no deadline has passed unnoticed. */
  ghost predicate OnTime(s: State) {
    !s.stopped && 0 <= s.latency ==>
      && (s.timer.Armed? ==> s.now <= s.timer.deadline)
      && (forall i :: 0 <= i < |s.fired| ==> s.now <= s.fired[i])
  }

  lemma {:induction false} PromptKeepsOnTime(s: State, events: seq<Event>)
    requires Inv(s) && OnTime(s) && Feasible(s, events) && Prompt(s, events)
    ensures OnTime(Run(s, events))
    decreases |events|
  {
    if events != [] {
      StepKeepsInv(s, events[0]);
      PromptKeepsOnTime(Next(s, events[0]), events[1..]);
    }
  }

  /** In every interleaving under a prompt runtime no byte waits longer than the latency. */
  lemma NoByteWaitsLonger(latency: int, start: int, events: seq<Event>)
    requires Feasible(Started(latency, start), events) && Prompt(Started(latency, start), events)
    ensures var s := Run(Started(latency, start), events);
            !s.stopped ==> forall i :: 0 <= i < |s.unflushed| ==> s.now <= s.unflushed[i] + latency
  {
    RunKeepsInv(Started(latency, start), events);
    RunKeepsLatency(Started(latency, start), events);
    PromptKeepsOnTime(Started(latency, start), events);
    var s := Run(Started(latency, start), events);
    forall i | 0 <= i < |s.unflushed| && !s.stopped ensures s.now <= s.unflushed[i] + latency {
      assert s.unflushed[0] <= s.unflushed[i];
      assert s.timer.Armed? || s.now <= s.fired[0];
    }
  }

  lemma {:induction false} RunKeepsLatency(s: State, events: seq<Event>)
    requires Feasible(s, events)
    ensures Run(s, events).latency == s.latency
    decreases |events|
  {
    if events != [] {
      RunKeepsLatency(Next(s, events[0]), events[1..]);
    }
  }

  /** Why writes must end before `stop`: a write that came later would re-arm the timer beside a
      callback still waiting for the lock, and that callback would then flush. */
  lemma LateWriteOwesTwo(latency: int, start: int)
    requires 0 < latency
    ensures var events := [Tick(latency), Expire, Stop];
            && Feasible(Started(latency, start), events)
            && Owed(AfterWrite(Run(Started(latency, start), events), 1)) == 2
            && AfterCallback(AfterWrite(Run(Started(latency, start), events), 1)).flushes == 1
  {
    ThreeSteps(Started(latency, start), Tick(latency), Expire, Stop);
  }
}
