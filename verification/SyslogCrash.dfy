/** Exactly which datagrams can bring the syslog receiver down. */
module SyslogCrash {
  import opened Seqs
  import opened SyslogMessage
  import opened SyslogLaws
  import opened SyslogPipeline

  /** Some parser has panicked on this datagram. */
  ghost predicate PanickedOn(s: State, d: Datagram) {
    exists i :: 0 <= i < |s.handled| && s.handled[i].verdict.Panicked? && s.handled[i].n < |s.taken| && s.taken[s.handled[i].n] == d
  }

  ghost predicate Reaches(parsers: nat, events: seq<Event>, parse: Parsing, s: State) {
    Feasible(Start(parsers), events, parse) && Run(Start(parsers), events, parse) == s
  }

  /** Some run, with some number of parsers, panics on this datagram. */
  ghost predicate CanPanic(d: Datagram, clock: Clock) {
    exists parsers, events, s :: Reaches(parsers, events, RealParse(clock), s) && PanickedOn(s, d)
  }

  lemma {:induction false} Extend(s: State, events: seq<Event>, e: Event, parse: Parsing)
    requires Feasible(s, events, parse) && Enabled(Run(s, events, parse), e)
    ensures Feasible(s, events + [e], parse) && Run(s, events + [e], parse) == Next(Run(s, events, parse), e, parse)
    decreases |events|
  {
    var more := events + [e];
    if events == [] {
      assert more == [e] && more[1..] == [];
      assert Run(Next(s, e, parse), [], parse) == Next(s, e, parse);
    } else {
      assert more[0] == events[0] && more[1..] == events[1..] + [e];
      Extend(Next(s, events[0], parse), events[1..], e, parse);
    }
  }

  lemma StepOn(events: seq<Event>, s: State, e: Event, parse: Parsing) returns (more: seq<Event>, t: State)
    requires Reaches(1, events, parse, s) && Enabled(s, e)
    ensures t == Next(s, e, parse) && Reaches(1, more, parse, t)
  {
    more, t := events + [e], Next(s, e, parse);
    Extend(Start(1), events, e, parse);
  }

  /** The one parser waits, the channel is free, and the reader holds object 0. */
  ghost predicate Ready(s: State) {
    && !s.crashed && s.capacity == 1 && s.reader == Holding(0) && s.channel == [] && s.parsers == [Waiting]
    && 0 in s.objects && |s.objects[0].buf| == BUFFER
  }

  /** One datagram goes through the pipeline and is parsed in object 0. */
  lemma Pass(events: seq<Event>, s: State, d: Datagram, parse: Parsing) returns (more: seq<Event>, t: State)
    requires Reaches(1, events, parse, s) && Ready(s) && |d.data| <= BUFFER
    ensures Reaches(1, more, parse, t)
    ensures var m := Fill(s.objects[0], d);
            var (v, g) := parse(m);
            && t.handled == s.handled + [Entry(|s.taken|, m, v, g)]
            && |t.taken| == |s.taken| + 1 && t.taken[|s.taken|] == Data(m)
            && t.crashed == v.Panicked?
            && t.objects == s.objects[0 := m.(fields := g)] && t.parsers == [Done(0)]
            && t.reader == Empty && t.channel == [] && t.capacity == 1
  {
    var e1, s1 := StepOn(events, s, Receive(d), parse);
    var e2, s2 := StepOn(e1, s1, Send, parse);
    assert s2.channel == [0];
    var e3, s3 := StepOn(e2, s2, Take(0), parse);
    assert s3.parsers == [Took(0, |s.taken|)] && s3.channel == [];
    more, t := StepOn(e3, s3, ParseIt(0), parse);
  }

  /** And its object comes back to the reader. */
  lemma Recycle(events: seq<Event>, s: State, parse: Parsing) returns (more: seq<Event>, t: State)
    requires Reaches(1, events, parse, s) && !s.crashed && s.capacity == 1 && s.reader == Empty && s.channel == []
    requires s.parsers == [Done(0)] && 0 in s.objects && |s.objects[0].buf| == BUFFER
    ensures Reaches(1, more, parse, t) && Ready(t)
    ensures t.objects[0].buf == s.objects[0].buf && t.handled == s.handled && t.taken == s.taken
  {
    var e1, s1 := StepOn(events, s, ResetIt(0), parse);
    assert s1.parsers == [Wiped(0)];
    var e2, s2 := StepOn(e1, s1, PutBack(0), parse);
    assert s2.parsers == [Waiting];
    more, t := StepOn(e2, s2, GetPooled(0), parse);
  }

  /** Nothing but brackets: refused, and left in the buffer. */
  const BRACKETS: seq<byte> := seq(BUFFER, _ => GT)

  lemma BracketsPass(clock: Clock) returns (events: seq<Event>, s: State)
    ensures Reaches(1, events, RealParse(clock), s) && Ready(s) && s.objects[0].buf == BRACKETS && s.handled != [] && s.taken != []
  {
    var parse := RealParse(clock);
    var s0 := Start(1);
    assert s0.parsers == [Waiting];
    var e1, s1 := StepOn([], s0, GetNew(0), parse);
    var d := Datagram(BRACKETS, 0);
    var e2, s2 := Pass(e1, s1, d, parse);
    var m := Fill(s1.objects[0], d);
    assert m.buf == BRACKETS;
    assert parse(m).0 == Returned(false);
    events, s := Recycle(e2, s2, parse);
  }

  /** A datagram whose priority scan does not end inside it panics after a datagram of brackets. */
  lemma Crash(d: Datagram, clock: Clock) returns (events: seq<Event>, s: State)
    requires |d.data| <= BUFFER && !SelfContained(d.data)
    ensures Reaches(1, events, RealParse(clock), s) && s.crashed && PanickedOn(s, d)
  {
    var parse := RealParse(clock);
    var e1, s1 := BracketsPass(clock);
    events, s := Pass(e1, s1, d, parse);
    var m := Fill(s1.objects[0], d);
    assert m.buf[..m.size] == d.data && m.buf == d.data + BRACKETS[|d.data|..];
    LeftOverBracketPanics(d.data, BRACKETS[|d.data|..], m.fields, clock);
    assert s.handled[|s1.handled|].verdict.Panicked?;
  }

  /** The receiver can be brought down by a datagram if and only if the scan for its priority runs past
      its end. */
  lemma PanicsExactly(d: Datagram, clock: Clock)
    requires |d.data| <= BUFFER
    ensures CanPanic(d, clock) <==> !SelfContained(d.data)
  {
    if !SelfContained(d.data) {
      var events, s := Crash(d, clock);
    }
    if parsers, events, s :| Reaches(parsers, events, RealParse(clock), s) && PanickedOn(s, d) {
      NeverOnSelfContained(parsers, events, clock, d);
    }
  }

  lemma NeverOnSelfContained(parsers: nat, events: seq<Event>, clock: Clock, d: Datagram)
    requires Feasible(Start(parsers), events, RealParse(clock)) && PanickedOn(Run(Start(parsers), events, RealParse(clock)), d)
    ensures !SelfContained(d.data)
  {
    var parse := RealParse(clock);
    StartInv(parsers, parse);
    RunKeepsInv(Start(parsers), events, parse);
    var s := Run(Start(parsers), events, parse);
    var i :| 0 <= i < |s.handled| && s.handled[i].verdict.Panicked? && s.handled[i].n < |s.taken| && s.taken[s.handled[i].n] == d;
    assert Faithful(s, s.handled[i], parse);
    if SelfContained(d.data) {
      EntryAlone(s, s.handled[i], clock);
    }
  }

  /** In every run the receiver is down exactly when a parser has panicked on some datagram it took. */
  lemma DownExactly(parsers: nat, events: seq<Event>, clock: Clock)
    requires Feasible(Start(parsers), events, RealParse(clock))
    ensures var s := Run(Start(parsers), events, RealParse(clock));
            s.crashed <==> exists k :: 0 <= k < |s.taken| && PanickedOn(s, s.taken[k])
  {
    var parse := RealParse(clock);
    StartInv(parsers, parse);
    RunKeepsInv(Start(parsers), events, parse);
    var s := Run(Start(parsers), events, parse);
    if s.crashed {
      var i :| 0 <= i < |s.handled| && s.handled[i].verdict.Panicked?;
      assert Faithful(s, s.handled[i], parse);
      assert PanickedOn(s, s.taken[s.handled[i].n]);
    }
  }
}
