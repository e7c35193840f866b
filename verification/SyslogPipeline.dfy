/** The syslog receiver: a pool of message objects, one reader, a bounded channel and any number of
    parsers, in every interleaving of their steps. */
module SyslogPipeline {
  import opened Seqs
  import opened SyslogMessage
  import opened SyslogLaws

  type Id = nat

  /** A message object: its buffer, the size of the last datagram read into it, its fields. */
  datatype Object = Object(buf: seq<byte>, size: nat, fields: Fields)

  /** A datagram as the kernel delivered it, cut to the buffer, and when it was read. */
  datatype Datagram = Datagram(data: seq<byte>, time: int)

  /** The reader's local variable `msg`, and whether a datagram has been read into it. */
  datatype Reader = Empty | Holding(id: Id) | Loaded(id: Id) | Ended

  /** A parser goroutine: between messages, or at one of the steps of its loop body. `n` numbers the
      messages taken off the channel. */
  datatype Parser = Waiting | Took(id: Id, n: nat) | Done(id: Id) | Wiped(id: Id)

  /** What a parser made of the `n`-th message taken, and the object it made it of. */
  datatype Entry = Entry(n: nat, before: Object, verdict: Verdict, fields: Fields)

  datatype State = State(
    capacity: nat,
    objects: map<Id, Object>,
    pool: set<Id>,
    dropped: set<Id>,
    reader: Reader,
    channel: seq<Id>,
    parsers: seq<Parser>,
    received: seq<Datagram>,
    taken: seq<Datagram>,
    handled: seq<Entry>,
    crashed: bool)

  datatype Event =
    | GetPooled(id: Id)         // the reader takes an object out of the pool
    | GetNew(id: Id)            // or the pool makes one
    | Drop(id: Id)              // the runtime may discard a pooled object
    | Receive(d: Datagram)      // a datagram is read into the reader's object
    | ReadError                 // any read error ends the reader, which gives its object back
    | Send                      // the reader puts its object on the channel
    | Take(p: nat)              // a parser takes the oldest object off the channel
    | ParseIt(p: nat)           // and parses and logs it
    | ResetIt(p: nat)           // and resets it
    | PutBack(p: nat)           // and puts it back into the pool

  function Zeroed(): Object {
    Object(seq(BUFFER, _ => 0), 0, Fields(0, 0, Nil, Nil, Nil, Nil, Nil))
  }

  function Fill(m: Object, d: Datagram): Object
    requires |d.data| <= |m.buf|
  {
    Object(d.data + m.buf[|d.data|..], |d.data|, m.fields.(time := d.time))
  }

  /** What parsing an object yields: a verdict and its fields afterwards. */
  type Parsing = Object -> (Verdict, Fields)

  predicate Sized(m: Object) { |m.buf| == BUFFER && m.size <= BUFFER }

  function Data(m: Object): Datagram
    requires Sized(m)
  {
    Datagram(m.buf[..m.size], m.fields.time)
  }

  function Start(parsers: nat): State {
    var n := if parsers < 1 then 1 else parsers;
    State(n, map[], {}, {}, Empty, [], seq(n, _ => Waiting), [], [], [], false)
  }

  predicate Enabled(s: State, e: Event) {
    && !s.crashed
    && match e
       case GetPooled(id) => s.reader.Empty? && id in s.pool && id in s.objects
       case GetNew(id) => s.reader.Empty? && id !in s.objects
       case Drop(id) => id in s.pool
       case Receive(d) => s.reader.Holding? && s.reader.id in s.objects && |d.data| <= |s.objects[s.reader.id].buf| == BUFFER
       case ReadError => s.reader.Holding?
       case Send => s.reader.Loaded? && |s.channel| < s.capacity
       case Take(p) => p < |s.parsers| && s.parsers[p].Waiting? && s.channel != [] &&
                       s.channel[0] in s.objects && Sized(s.objects[s.channel[0]])
       case ParseIt(p) => p < |s.parsers| && s.parsers[p].Took? &&
                          s.parsers[p].id in s.objects && Sized(s.objects[s.parsers[p].id])
       case ResetIt(p) => p < |s.parsers| && s.parsers[p].Done? && s.parsers[p].id in s.objects
       case PutBack(p) => p < |s.parsers| && s.parsers[p].Wiped?
  }

  function Next(s: State, e: Event, parse: Parsing): State
    requires Enabled(s, e)
  {
    match e
    case GetPooled(id) => s.(pool := s.pool - {id}, reader := Holding(id))
    case GetNew(id) => s.(objects := s.objects[id := Zeroed()], reader := Holding(id))
    case Drop(id) => s.(pool := s.pool - {id}, dropped := s.dropped + {id})
    case Receive(d) =>
      s.(objects := s.objects[s.reader.id := Fill(s.objects[s.reader.id], d)],
         reader := Loaded(s.reader.id), received := s.received + [d])
    case ReadError => s.(reader := Ended, pool := s.pool + {s.reader.id})
    case Send => s.(channel := s.channel + [s.reader.id], reader := Empty)
    case Take(p) =>
      s.(channel := s.channel[1..], parsers := s.parsers[p := Took(s.channel[0], |s.taken|)],
         taken := s.taken + [Data(s.objects[s.channel[0]])])
    case ParseIt(p) =>
      var id := s.parsers[p].id;
      var m := s.objects[id];
      var (verdict, fields) := parse(m);
      s.(objects := s.objects[id := m.(fields := fields)], parsers := s.parsers[p := Done(id)],
         handled := s.handled + [Entry(s.parsers[p].n, m, verdict, fields)], crashed := verdict.Panicked?)
    case ResetIt(p) =>
      var id := s.parsers[p].id;
      s.(objects := s.objects[id := s.objects[id].(fields := Reset(s.objects[id].fields))],
         parsers := s.parsers[p := Wiped(id)])
    case PutBack(p) => s.(pool := s.pool + {s.parsers[p].id}, parsers := s.parsers[p := Waiting])
  }

  predicate Feasible(s: State, events: seq<Event>, parse: Parsing)
    decreases |events|
  {
    events == [] || (Enabled(s, events[0]) && Feasible(Next(s, events[0], parse), events[1..], parse))
  }

  function Run(s: State, events: seq<Event>, parse: Parsing): State
    requires Feasible(s, events, parse)
    decreases |events|
  {
    if events == [] then s else Run(Next(s, events[0], parse), events[1..], parse)
  }

  // ---------------------------------------------------------------------------------------------
  // Where the objects are
  // ---------------------------------------------------------------------------------------------

  function One(b: bool): nat { if b then 1 else 0 }

  predicate Has(p: Parser, id: Id) { !p.Waiting? && p.id == id }

  /** How many parsers have the object. */
  function Held(ps: seq<Parser>, id: Id): nat {
    if ps == [] then 0 else Held(ps[..|ps| - 1], id) + One(Has(ps[|ps| - 1], id))
  }

  predicate AtReader(r: Reader, id: Id) { (r.Holding? || r.Loaded?) && r.id == id }

  /** The number of places an object is in. */
  function Places(s: State, id: Id): nat {
    One(id in s.pool) + One(id in s.dropped) + One(AtReader(s.reader, id)) + multiset(s.channel)[id] + Held(s.parsers, id)
  }

  /** Each object made so far is in exactly one place. */
  ghost predicate OnePlace(s: State) {
    forall id :: Places(s, id) == One(id in s.objects)
  }

  lemma {:induction false} HeldUpdate(ps: seq<Parser>, p: nat, x: Parser, id: Id)
    requires p < |ps|
    ensures Held(ps[p := x], id) + One(Has(ps[p], id)) == Held(ps, id) + One(Has(x, id))
  {
    var k := |ps| - 1;
    if p == k {
      assert ps[p := x][..k] == ps[..k];
    } else {
      HeldUpdate(ps[..k], p, x, id);
      assert ps[p := x][..k] == ps[..k][p := x];
    }
  }

  lemma {:induction false} HeldNone(ps: seq<Parser>, id: Id)
    requires forall k :: 0 <= k < |ps| ==> ps[k].Waiting?
    ensures Held(ps, id) == 0
  {
    if ps != [] { HeldNone(ps[..|ps| - 1], id); }
  }

  lemma HeldHas(ps: seq<Parser>, p: nat, id: Id)
    requires p < |ps| && Has(ps[p], id)
    ensures Held(ps, id) >= 1
  {
    HeldUpdate(ps, p, Waiting, id);
  }

  lemma HeldTwo(ps: seq<Parser>, p: nat, q: nat, id: Id)
    requires p < |ps| && q < |ps| && p != q && Has(ps[p], id) && Has(ps[q], id)
    ensures Held(ps, id) >= 2
  {
    HeldUpdate(ps, p, Waiting, id);
    HeldHas(ps[p := Waiting], q, id);
  }

  /** Every step moves objects without losing or duplicating any. */
  lemma PlacesKept(s: State, e: Event, parse: Parsing, id: Id)
    requires OnePlace(s) && Enabled(s, e)
    ensures Places(Next(s, e, parse), id) == One(id in Next(s, e, parse).objects)
  {
    assert Places(s, id) == One(id in s.objects);
    match e
    case GetPooled(x) => GetPooledKept(s, x, parse, id);
    case GetNew(x) => GetNewKept(s, x, parse, id);
    case Drop(x) => DropKept(s, x, parse, id);
    case Receive(d) => ReceiveKept(s, d, parse, id);
    case ReadError => ReadErrorKept(s, parse, id);
    case Send => SendKept(s, parse, id);
    case Take(p) => TakeKept(s, p, parse, id);
    case ParseIt(p) => ParseItKept(s, p, parse, id);
    case ResetIt(p) => ResetItKept(s, p, parse, id);
    case PutBack(p) => PutBackKept(s, p, id);
  }

  lemma GetPooledKept(s: State, x: Id, parse: Parsing, id: Id)
    requires Enabled(s, GetPooled(x))
    ensures Places(Next(s, GetPooled(x), parse), id) == Places(s, id)
  {
  }

  lemma GetNewKept(s: State, x: Id, parse: Parsing, id: Id)
    requires Enabled(s, GetNew(x))
    ensures Places(Next(s, GetNew(x), parse), id) == Places(s, id) + One(id == x)
  {
  }

  lemma DropKept(s: State, x: Id, parse: Parsing, id: Id)
    requires OnePlace(s) && Enabled(s, Drop(x))
    ensures Places(Next(s, Drop(x), parse), id) == Places(s, id)
  {
    assert Places(s, x) <= 1 && x !in s.dropped;
  }

  lemma ReceiveKept(s: State, d: Datagram, parse: Parsing, id: Id)
    requires Enabled(s, Receive(d))
    ensures Places(Next(s, Receive(d), parse), id) == Places(s, id)
  {
  }

  lemma ReadErrorKept(s: State, parse: Parsing, id: Id)
    requires OnePlace(s) && Enabled(s, ReadError)
    ensures Places(Next(s, ReadError, parse), id) == Places(s, id)
  {
    assert Places(s, s.reader.id) <= 1 && s.reader.id !in s.pool;
  }

  lemma SendKept(s: State, parse: Parsing, id: Id)
    requires Enabled(s, Send)
    ensures Places(Next(s, Send, parse), id) == Places(s, id)
  {
  }

  lemma TakeKept(s: State, p: nat, parse: Parsing, id: Id)
    requires Enabled(s, Take(p))
    ensures Places(Next(s, Take(p), parse), id) == Places(s, id)
  {
    HeldUpdate(s.parsers, p, Took(s.channel[0], |s.taken|), id);
    assert s.channel == [s.channel[0]] + s.channel[1..];
  }

  lemma ParseItKept(s: State, p: nat, parse: Parsing, id: Id)
    requires Enabled(s, ParseIt(p))
    ensures Places(Next(s, ParseIt(p), parse), id) == Places(s, id)
  {
    HeldUpdate(s.parsers, p, Done(s.parsers[p].id), id);
  }

  lemma ResetItKept(s: State, p: nat, parse: Parsing, id: Id)
    requires Enabled(s, ResetIt(p))
    ensures Places(Next(s, ResetIt(p), parse), id) == Places(s, id)
  {
    HeldUpdate(s.parsers, p, Wiped(s.parsers[p].id), id);
  }

  lemma PutBackKept(s: State, p: nat, id: Id)
    requires OnePlace(s) && p < |s.parsers| && s.parsers[p].Wiped?
    ensures var x := s.parsers[p].id;
            Places(s.(pool := s.pool + {x}, parsers := s.parsers[p := Waiting]), id) == Places(s, id)
  {
    var x := s.parsers[p].id;
    HeldUpdate(s.parsers, p, Waiting, id);
    HeldHas(s.parsers, p, x);
    assert Places(s, x) <= 1 && x !in s.pool;
  }

  // ---------------------------------------------------------------------------------------------
  // What the objects hold
  // ---------------------------------------------------------------------------------------------

  /** An object outside the pool's reach of a parse has cleared fields. */
  predicate Clean(s: State, id: Id) { id in s.objects && Sized(s.objects[id]) && Cleared(s.objects[id].fields) }

  ghost predicate AllSized(s: State) { forall id :: id in s.objects ==> Sized(s.objects[id]) }

  ghost predicate PoolClean(s: State) { forall id :: id in s.pool ==> Clean(s, id) }

  ghost predicate ReaderClean(s: State) { s.reader.Holding? || s.reader.Loaded? ==> Clean(s, s.reader.id) }

  ghost predicate ChannelClean(s: State) { forall i :: 0 <= i < |s.channel| ==> Clean(s, s.channel[i]) }

  /** A parser's object is clean before the parse and after the reset, and until it is parsed it
      still holds the very datagram that was taken. */
  ghost predicate ParserOk(s: State, p: Parser) {
    match p
    case Waiting => true
    case Took(id, n) => Clean(s, id) && n < |s.taken| && Data(s.objects[id]) == s.taken[n]
    case Done(id) => id in s.objects && Sized(s.objects[id])
    case Wiped(id) => Clean(s, id)
  }

  ghost predicate ParsersOk(s: State) { forall p :: 0 <= p < |s.parsers| ==> ParserOk(s, s.parsers[p]) }

  /** The datagrams waiting on the channel. */
  ghost function Queued(s: State): (r: seq<Datagram>)
    requires ChannelClean(s)
  {
    seq(|s.channel|, i requires 0 <= i < |s.channel| => Data(s.objects[s.channel[i]]))
  }

  /** The datagram read but not yet sent. */
  ghost function Unsent(s: State): seq<Datagram>
    requires ReaderClean(s)
  {
    if s.reader.Loaded? then [Data(s.objects[s.reader.id])] else []
  }

  /** Datagrams leave the channel in the order in which they were received, unchanged. */
  ghost predicate InOrderOfReceipt(s: State)
    requires ChannelClean(s) && ReaderClean(s)
  {
    s.taken + Queued(s) + Unsent(s) == s.received
  }

  /** The reader's object is nowhere else. */
  lemma ReaderAlone(s: State)
    requires OnePlace(s) && (s.reader.Holding? || s.reader.Loaded?)
    ensures s.reader.id !in s.pool && s.reader.id !in s.channel
    ensures forall p :: 0 <= p < |s.parsers| ==> !Has(s.parsers[p], s.reader.id)
  {
    var id := s.reader.id;
    assert Places(s, id) <= 1;
    forall p | 0 <= p < |s.parsers| ensures !Has(s.parsers[p], id) {
      if Has(s.parsers[p], id) { HeldHas(s.parsers, p, id); }
    }
  }

  /** A parser's object is nowhere else. */
  lemma ParserAlone(s: State, p: nat)
    requires OnePlace(s) && p < |s.parsers| && !s.parsers[p].Waiting?
    ensures var id := s.parsers[p].id; id !in s.pool && id !in s.channel && !AtReader(s.reader, id)
    ensures forall q :: 0 <= q < |s.parsers| && q != p ==> !Has(s.parsers[q], s.parsers[p].id)
  {
    var id := s.parsers[p].id;
    assert Places(s, id) <= 1;
    HeldHas(s.parsers, p, id);
    forall q | 0 <= q < |s.parsers| && q != p ensures !Has(s.parsers[q], id) {
      if Has(s.parsers[q], id) { HeldTwo(s.parsers, p, q, id); }
    }
  }

  /** What holds of the objects in every state of every run. */
  ghost predicate Content(s: State) {
    && AllSized(s) && PoolClean(s) && ReaderClean(s) && ChannelClean(s) && ParsersOk(s)
    && InOrderOfReceipt(s)
  }

  lemma ReaderSteps(s: State, e: Event, parse: Parsing)
    requires Content(s) && Enabled(s, e) && (e.GetPooled? || e.Drop? || e.ReadError?)
    ensures Content(Next(s, e, parse))
  {
    var t := Next(s, e, parse);
    assert Queued(t) == Queued(s) && Unsent(t) == Unsent(s);
  }

  lemma GetNewStep(s: State, id: Id, parse: Parsing)
    requires OnePlace(s) && Content(s) && Enabled(s, GetNew(id))
    ensures Content(Next(s, GetNew(id), parse))
  {
    var t := Next(s, GetNew(id), parse);
    NewIsNowhere(s, id);
    assert Queued(t) == Queued(s) && Unsent(t) == Unsent(s);
  }

  lemma NewIsNowhere(s: State, id: Id)
    requires OnePlace(s) && id !in s.objects
    ensures id !in s.pool && id !in s.channel
  {
    assert Places(s, id) == 0;
  }

  lemma ReceiveStep(s: State, d: Datagram, parse: Parsing)
    requires OnePlace(s) && Content(s) && Enabled(s, Receive(d))
    ensures Content(Next(s, Receive(d), parse))
  {
    var t := Next(s, Receive(d), parse);
    var id := s.reader.id;
    ReaderAlone(s);
    assert t.objects[id].buf[..|d.data|] == d.data;
    assert Queued(t) == Queued(s);
    assert Unsent(s) == [] && Unsent(t) == [d];
    assert s.taken + Queued(s) + [] == s.taken + Queued(s);
    forall p | 0 <= p < |t.parsers| ensures ParserOk(t, t.parsers[p]) {
      assert !Has(s.parsers[p], id) && ParserOk(s, s.parsers[p]);
    }
  }

  lemma SendStep(s: State, parse: Parsing)
    requires Content(s) && Enabled(s, Send)
    ensures Content(Next(s, Send, parse))
  {
    var t := Next(s, Send, parse);
    assert Queued(t) == Queued(s) + Unsent(s) && Unsent(t) == [];
    assert s.taken + (Queued(s) + Unsent(s)) + [] == s.taken + Queued(s) + Unsent(s);
    forall p | 0 <= p < |t.parsers| ensures ParserOk(t, t.parsers[p]) {
      assert ParserOk(s, s.parsers[p]);
    }
  }

  lemma TakeStep(s: State, p: nat, parse: Parsing)
    requires Content(s) && Enabled(s, Take(p))
    ensures Content(Next(s, Take(p), parse))
  {
    var t := Next(s, Take(p), parse);
    var head := Data(s.objects[s.channel[0]]);
    assert Queued(s) == [head] + Queued(t) && Unsent(t) == Unsent(s);
    assert s.taken + ([head] + Queued(t)) + Unsent(s) == (s.taken + [head]) + Queued(t) + Unsent(s);
    forall q | 0 <= q < |t.parsers| ensures ParserOk(t, t.parsers[q]) {
      assert ParserOk(s, s.parsers[q]);
    }
  }

  /** New fields for a parser's own object disturb nobody else. */
  lemma OwnFields(s: State, p: nat, fields: Fields, x: Parser, t: State)
    requires OnePlace(s) && Content(s) && p < |s.parsers| && !s.parsers[p].Waiting? && s.parsers[p].id in s.objects
    requires var id := s.parsers[p].id;
             && t.objects == s.objects[id := s.objects[id].(fields := fields)]
             && t.pool == s.pool && t.reader == s.reader && t.channel == s.channel
             && t.parsers == s.parsers[p := x] && t.taken == s.taken && t.received == s.received
    requires ParserOk(t, x)
    ensures Content(t)
  {
    ParserAlone(s, p);
    assert Queued(t) == Queued(s) && Unsent(t) == Unsent(s);
    forall q | 0 <= q < |t.parsers| ensures ParserOk(t, t.parsers[q]) {
      assert ParserOk(s, s.parsers[q]);
      assert q != p ==> !Has(s.parsers[q], s.parsers[p].id);
    }
  }

  lemma ParseStep(s: State, p: nat, parse: Parsing)
    requires OnePlace(s) && Content(s) && Enabled(s, ParseIt(p))
    ensures Content(Next(s, ParseIt(p), parse))
  {
    var id := s.parsers[p].id;
    OwnFields(s, p, parse(s.objects[id]).1, Done(id), Next(s, ParseIt(p), parse));
  }

  lemma ResetStep(s: State, p: nat, parse: Parsing)
    requires OnePlace(s) && Content(s) && Enabled(s, ResetIt(p))
    ensures Content(Next(s, ResetIt(p), parse))
  {
    var id := s.parsers[p].id;
    assert Sized(s.objects[id]);
    OwnFields(s, p, Reset(s.objects[id].fields), Wiped(id), Next(s, ResetIt(p), parse));
  }

  lemma PutBackStep(s: State, p: nat, parse: Parsing)
    requires Content(s) && Enabled(s, PutBack(p))
    ensures Content(Next(s, PutBack(p), parse))
  {
    var t := Next(s, PutBack(p), parse);
    assert ParserOk(s, s.parsers[p]);
    assert Queued(t) == Queued(s) && Unsent(t) == Unsent(s);
    forall q | 0 <= q < |t.parsers| ensures ParserOk(t, t.parsers[q]) {
      assert ParserOk(s, s.parsers[q]);
    }
  }

  // ---------------------------------------------------------------------------------------------
  // What the parsers have done
  // ---------------------------------------------------------------------------------------------

  ghost predicate Logged(s: State, k: nat) { exists i :: 0 <= i < |s.handled| && s.handled[i].n == k }

  ghost predicate InHand(s: State, k: nat) { exists p :: 0 <= p < |s.parsers| && s.parsers[p].Took? && s.parsers[p].n == k }

  /** The entry is the parse of a clean object that held exactly the datagram taken. */
  ghost predicate Faithful(s: State, e: Entry, parse: Parsing) {
    && e.n < |s.taken| && Sized(e.before) && Cleared(e.before.fields) && Data(e.before) == s.taken[e.n]
    && (e.verdict, e.fields) == parse(e.before)
  }

  /** Each datagram taken is either in the hands of exactly one parser or logged exactly once. */
  ghost predicate Ledger(s: State) {
    && (forall k :: 0 <= k < |s.taken| ==> Logged(s, k) != InHand(s, k))
    && (forall i :: 0 <= i < |s.handled| ==> s.handled[i].n < |s.taken|)
    && (forall i, j :: 0 <= i < j < |s.handled| ==> s.handled[i].n != s.handled[j].n)
    && (forall p :: 0 <= p < |s.parsers| && s.parsers[p].Took? ==> s.parsers[p].n < |s.taken|)
    && (forall p, q :: 0 <= p < q < |s.parsers| && s.parsers[p].Took? && s.parsers[q].Took? ==>
          s.parsers[p].n != s.parsers[q].n)
  }

  ghost predicate AllFaithful(s: State, parse: Parsing) {
    && (forall i :: 0 <= i < |s.handled| ==> Faithful(s, s.handled[i], parse))
    && (s.crashed <==> exists i :: 0 <= i < |s.handled| && s.handled[i].verdict.Panicked?)
  }

  lemma LedgerTake(s: State, p: nat, parse: Parsing)
    requires Ledger(s) && Enabled(s, Take(p))
    ensures Ledger(Next(s, Take(p), parse))
  {
    var t := Next(s, Take(p), parse);
    forall k | 0 <= k < |t.taken| ensures Logged(t, k) != InHand(t, k) {
      if k == |s.taken| {
        assert t.parsers[p].Took? && t.parsers[p].n == k;
      } else {
        assert Logged(s, k) != InHand(s, k);
        if q :| 0 <= q < |s.parsers| && s.parsers[q].Took? && s.parsers[q].n == k {
          assert t.parsers[q].Took? && t.parsers[q].n == k;
        }
      }
    }
  }

  lemma LedgerParse(s: State, p: nat, parse: Parsing)
    requires Ledger(s) && Enabled(s, ParseIt(p))
    ensures Ledger(Next(s, ParseIt(p), parse))
  {
    var t, n := Next(s, ParseIt(p), parse), s.parsers[p].n;
    assert InHand(s, n) && !Logged(s, n);
    assert t.handled[|s.handled|].n == n;
    forall k | 0 <= k < |t.taken| ensures Logged(t, k) != InHand(t, k) {
      assert Logged(s, k) != InHand(s, k);
      if i :| 0 <= i < |s.handled| && s.handled[i].n == k {
        assert t.handled[i].n == k;
      }
      if q :| 0 <= q < |s.parsers| && q != p && s.parsers[q].Took? && s.parsers[q].n == k {
        assert t.parsers[q].Took? && t.parsers[q].n == k;
      }
    }
  }

  lemma LedgerOther(s: State, e: Event, parse: Parsing)
    requires Ledger(s) && Enabled(s, e) && !e.Take? && !e.ParseIt?
    ensures Ledger(Next(s, e, parse))
  {
    var t := Next(s, e, parse);
    assert forall q :: 0 <= q < |s.parsers| ==> (t.parsers[q].Took? <==> s.parsers[q].Took?);
    assert forall q :: 0 <= q < |s.parsers| && s.parsers[q].Took? ==> t.parsers[q] == s.parsers[q];
    forall k | 0 <= k < |t.taken| ensures Logged(t, k) != InHand(t, k) {
      assert Logged(s, k) != InHand(s, k);
    }
  }

  lemma FaithfulKept(s: State, e: Event, parse: Parsing)
    requires Content(s) && AllFaithful(s, parse) && Enabled(s, e)
    ensures AllFaithful(Next(s, e, parse), parse)
  {
    var t := Next(s, e, parse);
    assert s.taken <= t.taken;
    if e.ParseIt? {
      assert ParserOk(s, s.parsers[e.p]);
      var last := t.handled[|s.handled|];
      assert Faithful(t, last, parse);
    }
    forall i | 0 <= i < |t.handled| ensures Faithful(t, t.handled[i], parse) {
      if i < |s.handled| {
        assert t.handled[i] == s.handled[i] && Faithful(s, s.handled[i], parse);
      }
    }
    assert forall i :: 0 <= i < |s.handled| ==> t.handled[i] == s.handled[i];
  }

  // ---------------------------------------------------------------------------------------------
  // Every run
  // ---------------------------------------------------------------------------------------------

  ghost predicate Inv(s: State, parse: Parsing) {
    && OnePlace(s) && |s.channel| <= s.capacity && Content(s) && Ledger(s) && AllFaithful(s, parse)
  }

  lemma StepKeepsInv(s: State, e: Event, parse: Parsing)
    requires Inv(s, parse) && Enabled(s, e)
    ensures Inv(Next(s, e, parse), parse)
  {
    forall id ensures Places(Next(s, e, parse), id) == One(id in Next(s, e, parse).objects) {
      PlacesKept(s, e, parse, id);
    }
    FaithfulKept(s, e, parse);
    match e
    case GetPooled(_) => ReaderSteps(s, e, parse); LedgerOther(s, e, parse);
    case GetNew(id) => GetNewStep(s, id, parse); LedgerOther(s, e, parse);
    case Drop(_) => ReaderSteps(s, e, parse); LedgerOther(s, e, parse);
    case ReadError => ReaderSteps(s, e, parse); LedgerOther(s, e, parse);
    case Receive(d) => ReceiveStep(s, d, parse); LedgerOther(s, e, parse);
    case Send => SendStep(s, parse); LedgerOther(s, e, parse);
    case Take(p) => TakeStep(s, p, parse); LedgerTake(s, p, parse);
    case ParseIt(p) => ParseStep(s, p, parse); LedgerParse(s, p, parse);
    case ResetIt(p) => ResetStep(s, p, parse); LedgerOther(s, e, parse);
    case PutBack(p) => PutBackStep(s, p, parse); LedgerOther(s, e, parse);
  }

  lemma StartInv(parsers: nat, parse: Parsing)
    ensures Inv(Start(parsers), parse)
  {
    var s := Start(parsers);
    forall id ensures Places(s, id) == 0 { HeldNone(s.parsers, id); }
  }

  lemma {:induction false} RunKeepsInv(s: State, events: seq<Event>, parse: Parsing)
    requires Inv(s, parse) && Feasible(s, events, parse)
    ensures Inv(Run(s, events, parse), parse)
    decreases |events|
  {
    if events != [] {
      StepKeepsInv(s, events[0], parse);
      RunKeepsInv(Next(s, events[0], parse), events[1..], parse);
    }
  }

  lemma {:induction false} RunKeepsCapacity(s: State, events: seq<Event>, parse: Parsing)
    requires Feasible(s, events, parse)
    ensures Run(s, events, parse).capacity == s.capacity
    decreases |events|
  {
    if events != [] {
      RunKeepsCapacity(Next(s, events[0], parse), events[1..], parse);
    }
  }

  lemma {:induction false} SomeNewId(used: set<Id>) returns (id: Id)
    ensures forall x :: x in used ==> x < id
    decreases |used|
  {
    if used == {} {
      return 0;
    }
    var x :| x in used;
    var y := SomeNewId(used - {x});
    id := if x < y then y else x + 1;
    forall z | z in used ensures z < id {
      if z != x { assert z in used - {x}; }
    }
  }

  /** Every goroutine can take its next step unless the code itself waits: for a free slot or a message. */
  ghost predicate NobodyStuck(s: State) {
    && (s.reader.Empty? ==> exists id :: Enabled(s, GetNew(id)))
    && (s.reader.Empty? ==> forall id :: id in s.pool ==> Enabled(s, GetPooled(id)))
    && (s.reader.Holding? ==> forall d: Datagram :: |d.data| <= BUFFER ==> Enabled(s, Receive(d)))
    && (s.reader.Loaded? && |s.channel| < s.capacity ==> Enabled(s, Send))
    && forall p :: 0 <= p < |s.parsers| ==> ParserGoesOn(s, p)
  }

  ghost predicate ParserGoesOn(s: State, p: nat)
    requires p < |s.parsers|
  {
    match s.parsers[p]
    case Waiting => s.channel != [] ==> Enabled(s, Take(p))
    case Took(_, _) => Enabled(s, ParseIt(p))
    case Done(_) => Enabled(s, ResetIt(p))
    case Wiped(_) => Enabled(s, PutBack(p))
  }

  lemma InvNobodyStuck(s: State, parse: Parsing)
    requires Inv(s, parse) && !s.crashed
    ensures NobodyStuck(s)
  {
    forall p | 0 <= p < |s.parsers| ensures ParserGoesOn(s, p) {
      assert ParserOk(s, s.parsers[p]);
    }
    if s.reader.Empty? {
      var id := SomeNewId(s.objects.Keys);
      assert Enabled(s, GetNew(id));
    }
  }

  /** In every state of every run no step waits for anything but what the code waits for. */
  lemma NoOtherGuards(parsers: nat, events: seq<Event>, parse: Parsing)
    requires Feasible(Start(parsers), events, parse)
    ensures var s := Run(Start(parsers), events, parse); !s.crashed ==> NobodyStuck(s)
  {
    StartInv(parsers, parse);
    RunKeepsInv(Start(parsers), events, parse);
    var s := Run(Start(parsers), events, parse);
    if !s.crashed {
      InvNobodyStuck(s, parse);
    }
  }

  lemma {:induction false} RunKeepsParsers(s: State, events: seq<Event>, parse: Parsing)
    requires Feasible(s, events, parse)
    ensures |Run(s, events, parse).parsers| == |s.parsers|
    decreases |events|
  {
    if events != [] {
      RunKeepsParsers(Next(s, events[0], parse), events[1..], parse);
    }
  }

  /** In every run, with any number of parsers and whatever the parser does: every object is in
      exactly one place; pooled objects are cleared; the channel keeps to its capacity; datagrams
      leave the channel in the order of receipt, unchanged; and each one taken is in the hands of
      exactly one parser or has been logged exactly once, as it was received. */
  lemma EveryRun(parsers: nat, events: seq<Event>, parse: Parsing)
    requires Feasible(Start(parsers), events, parse)
    ensures var s := Run(Start(parsers), events, parse);
            && (forall id :: Places(s, id) == One(id in s.objects))
            && (forall id :: id in s.pool ==> id in s.objects && Cleared(s.objects[id].fields))
            && |s.channel| <= s.capacity == |s.parsers| == (if parsers < 1 then 1 else parsers)
            && ChannelClean(s) && ReaderClean(s) && s.taken + Queued(s) + Unsent(s) == s.received
            && (forall k :: 0 <= k < |s.taken| ==> Logged(s, k) != InHand(s, k))
            && (forall i, j :: 0 <= i < j < |s.handled| ==> s.handled[i].n != s.handled[j].n)
            && (forall i :: 0 <= i < |s.handled| ==> Faithful(s, s.handled[i], parse))
  {
    StartInv(parsers, parse);
    RunKeepsInv(Start(parsers), events, parse);
    RunKeepsCapacity(Start(parsers), events, parse);
    RunKeepsParsers(Start(parsers), events, parse);
  }

  // ---------------------------------------------------------------------------------------------
  // Draining
  // ---------------------------------------------------------------------------------------------

  /** The steps a parser has yet to take with the message in its hands. */
  function Steps(p: Parser): nat { match p case Waiting => 0 case Took(_, _) => 3 case Done(_) => 2 case Wiped(_) => 1 }

  function AllSteps(ps: seq<Parser>): nat { if ps == [] then 0 else AllSteps(ps[..|ps| - 1]) + Steps(ps[|ps| - 1]) }

  /** The steps left until everything received is logged and every parser waits. */
  function Work(s: State): nat { (if s.reader.Loaded? then 5 else 0) + 4 * |s.channel| + AllSteps(s.parsers) }

  lemma {:induction false} StepsUpdate(ps: seq<Parser>, p: nat, x: Parser)
    requires p < |ps|
    ensures AllSteps(ps[p := x]) + Steps(ps[p]) == AllSteps(ps) + Steps(x)
  {
    var k := |ps| - 1;
    if p == k {
      assert ps[p := x][..k] == ps[..k];
    } else {
      StepsUpdate(ps[..k], p, x);
      assert ps[p := x][..k] == ps[..k][p := x];
    }
  }

  /** Until there is no work left, some step other than receiving does some of it. */
  lemma WorkingStep(s: State, parse: Parsing) returns (e: Event)
    requires Inv(s, parse) && !s.crashed && |s.parsers| >= 1 && s.capacity >= 1
    requires Busy(s)
    ensures Enabled(s, e) && !e.Receive? && Work(Next(s, e, parse)) < Work(s)
    ensures |Next(s, e, parse).parsers| == |s.parsers| && Next(s, e, parse).capacity == s.capacity
  {
    if p :| 0 <= p < |s.parsers| && !s.parsers[p].Waiting? {
      e := ParserStep(s, p, parse);
    } else if s.channel != [] {
      InvNobodyStuck(s, parse);
      assert ParserGoesOn(s, 0);
      e := Take(0);
      StepsUpdate(s.parsers, 0, Took(s.channel[0], |s.taken|));
    } else {
      e := Send;
    }
  }

  lemma ParserStep(s: State, p: nat, parse: Parsing) returns (e: Event)
    requires Inv(s, parse) && !s.crashed && p < |s.parsers| && !s.parsers[p].Waiting?
    ensures Enabled(s, e) && !e.Receive? && Work(Next(s, e, parse)) < Work(s)
  {
    InvNobodyStuck(s, parse);
    assert ParserGoesOn(s, p);
    var id := s.parsers[p].id;
    match s.parsers[p]
    case Took(_, _) => e := ParseIt(p); StepsUpdate(s.parsers, p, Done(id));
    case Done(_) => e := ResetIt(p); StepsUpdate(s.parsers, p, Wiped(id));
    case Wiped(_) => e := PutBack(p); StepsUpdate(s.parsers, p, Waiting);
  }

  /** Everything received has been taken and logged. */
  ghost predicate Drained(s: State) {
    && s.taken == s.received
    && forall k :: 0 <= k < |s.received| ==> Logged(s, k)
  }

  lemma {:induction false} DrainFrom(s: State, parse: Parsing) returns (more: seq<Event>)
    requires Inv(s, parse) && |s.parsers| >= 1 && s.capacity >= 1
    ensures Feasible(s, more, parse) && forall i :: 0 <= i < |more| ==> !more[i].Receive?
    ensures var t := Run(s, more, parse); t.received == s.received && (t.crashed || Drained(t))
    decreases Work(s)
  {
    if s.crashed {
      return [];
    }
    if Busy(s) {
      var e := WorkingStep(s, parse);
      StepKeepsInv(s, e, parse);
      var rest := DrainFrom(Next(s, e, parse), parse);
      more := [e] + rest;
      RunCons(s, e, rest, parse);
    } else {
      more := [];
      NothingLeft(s, parse);
    }
  }

  lemma RunCons(s: State, e: Event, rest: seq<Event>, parse: Parsing)
    requires Enabled(s, e) && Feasible(Next(s, e, parse), rest, parse)
    ensures Feasible(s, [e] + rest, parse) && Run(s, [e] + rest, parse) == Run(Next(s, e, parse), rest, parse)
    ensures !e.Receive? ==> Next(s, e, parse).received == s.received
  {
    assert ([e] + rest)[1..] == rest;
  }

  /** Some message is on its way. */
  ghost predicate Busy(s: State) {
    s.channel != [] || s.reader.Loaded? || exists p :: 0 <= p < |s.parsers| && !s.parsers[p].Waiting?
  }

  lemma NothingLeft(s: State, parse: Parsing)
    requires Inv(s, parse) && !Busy(s)
    ensures Drained(s)
  {
    assert Queued(s) == [] && Unsent(s) == [];
    assert s.taken + [] + [] == s.taken;
  }

  /** From every state of every run, without receiving anything more, the receiver can log every datagram
      received so far, unless a parser panics on the way: no datagram is ever stuck. */
  lemma EverythingGetsLogged(parsers: nat, events: seq<Event>, parse: Parsing) returns (more: seq<Event>)
    requires Feasible(Start(parsers), events, parse)
    ensures var s := Run(Start(parsers), events, parse);
            && Feasible(s, more, parse) && (forall i :: 0 <= i < |more| ==> !more[i].Receive?)
            && var t := Run(s, more, parse); t.received == s.received && (t.crashed || Drained(t))
  {
    StartInv(parsers, parse);
    RunKeepsInv(Start(parsers), events, parse);
    RunKeepsCapacity(Start(parsers), events, parse);
    RunKeepsParsers(Start(parsers), events, parse);
    more := DrainFrom(Run(Start(parsers), events, parse), parse);
  }

  lemma {:induction false} EndedStaysEnded(s: State, events: seq<Event>, parse: Parsing)
    requires s.reader.Ended? && Feasible(s, events, parse)
    ensures Run(s, events, parse).received == s.received && Run(s, events, parse).reader.Ended?
    decreases |events|
  {
    if events != [] {
      EndedStaysEnded(Next(s, events[0], parse), events[1..], parse);
    }
  }

  /** After any read error nothing more is ever received. */
  lemma ReadErrorEndsReading(s: State, events: seq<Event>, parse: Parsing)
    requires Feasible(s, [ReadError] + events, parse)
    ensures Run(s, [ReadError] + events, parse).received == s.received
  {
    assert ([ReadError] + events)[1..] == events;
    EndedStaysEnded(Next(s, ReadError, parse), events, parse);
  }

  // ---------------------------------------------------------------------------------------------
  // One parser
  // ---------------------------------------------------------------------------------------------

  /** With one parser, entries are logged in the order in which messages were taken. */
  ghost predicate Sequential(s: State) {
    && |s.parsers| == 1
    && |s.taken| == |s.handled| + One(s.parsers[0].Took?)
    && (s.parsers[0].Took? ==> s.parsers[0].n == |s.handled|)
    && (forall i :: 0 <= i < |s.handled| ==> s.handled[i].n == i)
  }

  lemma {:induction false} RunSequential(s: State, events: seq<Event>, parse: Parsing)
    requires Sequential(s) && Feasible(s, events, parse)
    ensures Sequential(Run(s, events, parse))
    decreases |events|
  {
    if events != [] {
      RunSequential(Next(s, events[0], parse), events[1..], parse);
    }
  }

  /** What the log entries were made of, in order. */
  ghost function LoggedData(s: State): (r: seq<Datagram>)
    requires forall i :: 0 <= i < |s.handled| ==> Sized(s.handled[i].before)
    ensures |r| == |s.handled| && forall i :: 0 <= i < |r| ==> r[i] == Data(s.handled[i].before)
  {
    seq(|s.handled|, i requires 0 <= i < |s.handled| => Data(s.handled[i].before))
  }

  /** The datagram in the hands of the one parser. */
  ghost function InParser(s: State): seq<Datagram>
    requires ParsersOk(s) && |s.parsers| == 1
  {
    if s.parsers[0].Took?
    then assert ParserOk(s, s.parsers[0]); [Data(s.objects[s.parsers[0].id])]
    else []
  }

  /** With one parser: handled, then in the parser, then on the channel, then read but not sent, is
      everything received, in order. */
  lemma OneParserInOrder(events: seq<Event>, parse: Parsing)
    requires Feasible(Start(1), events, parse)
    ensures var s := Run(Start(1), events, parse);
            && Content(s) && |s.parsers| == 1 && AllFaithful(s, parse)
            && LoggedData(s) + InParser(s) + Queued(s) + Unsent(s) == s.received
  {
    StartInv(1, parse);
    RunKeepsInv(Start(1), events, parse);
    RunSequential(Start(1), events, parse);
    SequentialData(Run(Start(1), events, parse), parse);
  }

  lemma SequentialData(s: State, parse: Parsing)
    requires Content(s) && AllFaithful(s, parse) && Sequential(s)
    ensures LoggedData(s) + InParser(s) == s.taken
  {
    var logged, n := LoggedData(s), |s.handled|;
    forall i | 0 <= i < n ensures logged[i] == s.taken[i] {
      assert Faithful(s, s.handled[i], parse);
    }
    assert ParserOk(s, s.parsers[0]);
    assert InParser(s) == s.taken[n..];
    assert logged == s.taken[..n];
  }

  // ---------------------------------------------------------------------------------------------
  // With the real parser
  // ---------------------------------------------------------------------------------------------

  function RealParse(clock: Clock): Parsing {
    (m: Object) => if Sized(m) then Parse(m.buf, m.size, m.fields, clock) else (Panicked, m.fields)
  }

  /** What the parser says of a datagram read into a new object. */
  function Alone(d: Datagram, clock: Clock): (Verdict, Fields)
    requires |d.data| <= BUFFER
  {
    Parse(d.data + seq(BUFFER - |d.data|, _ => 0), |d.data|, Fields(d.time, 0, Nil, Nil, Nil, Nil, Nil), clock)
  }

  lemma EntryAlone(s: State, e: Entry, clock: Clock)
    requires Faithful(s, e, RealParse(clock)) && SelfContained(s.taken[e.n].data)
    ensures (e.verdict, e.fields) == Alone(s.taken[e.n], clock) && e.verdict != Panicked
  {
    var d, m := s.taken[e.n], e.before;
    var stale := m.buf[m.size..];
    assert m.buf == m.buf[..m.size] + stale && d.data == m.buf[..m.size];
    SelfContainedParse(d.data, stale, seq(BUFFER - |d.data|, _ => 0), m.fields, clock);
  }

  /** Recycled buffers do not leak: whatever was parsed before in the same object, each datagram whose
      priority scan ends inside it is logged as if it were alone, in any run with any parsers; and if
      all datagrams are like that, no parser ever panics. */
  lemma NoLeaks(parsers: nat, events: seq<Event>, clock: Clock)
    requires Feasible(Start(parsers), events, RealParse(clock))
    ensures var s := Run(Start(parsers), events, RealParse(clock));
            && (forall i :: 0 <= i < |s.handled| ==> s.handled[i].n < |s.taken|)
            && (forall k :: 0 <= k < |s.taken| ==> |s.taken[k].data| <= BUFFER)
            && (forall i :: 0 <= i < |s.handled| && SelfContained(s.taken[s.handled[i].n].data) ==>
                  (s.handled[i].verdict, s.handled[i].fields) == Alone(s.taken[s.handled[i].n], clock))
            && ((forall k :: 0 <= k < |s.taken| ==> SelfContained(s.taken[k].data)) ==> !s.crashed)
  {
    var parse := RealParse(clock);
    StartInv(parsers, parse);
    RunKeepsInv(Start(parsers), events, parse);
    var s := Run(Start(parsers), events, parse);
    forall k | 0 <= k < |s.taken| ensures |s.taken[k].data| <= BUFFER {
      TakenFits(s, k, parse);
    }
    forall i | 0 <= i < |s.handled| && SelfContained(s.taken[s.handled[i].n].data)
      ensures (s.handled[i].verdict, s.handled[i].fields) == Alone(s.taken[s.handled[i].n], clock) && s.handled[i].verdict != Panicked
    {
      assert Faithful(s, s.handled[i], parse);
      EntryAlone(s, s.handled[i], clock);
    }
  }

  lemma TakenFits(s: State, k: nat, parse: Parsing)
    requires Inv(s, parse) && k < |s.taken|
    ensures |s.taken[k].data| <= BUFFER
  {
    assert Logged(s, k) != InHand(s, k);
    if Logged(s, k) {
      var i :| 0 <= i < |s.handled| && s.handled[i].n == k;
      assert Faithful(s, s.handled[i], parse);
    } else {
      var p :| 0 <= p < |s.parsers| && s.parsers[p].Took? && s.parsers[p].n == k;
      assert ParserOk(s, s.parsers[p]);
    }
  }
}
