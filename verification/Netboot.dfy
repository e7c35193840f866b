/** The netboot protocol: a server in either mode, and clients that run what they are handed. */
module Netboot {
  import opened Seqs
  import opened Dhcp
  import R = Reservation

  // ---------------------------------------------------------------------------------------------
  // The proxyDHCP handler
  // ---------------------------------------------------------------------------------------------

  datatype ProxyHandler = ProxyHandler(
    backend: seq<byte> -> R.Lookup,
    auto: bool,
    enabled: bool,
    userClass: seq<byte>,
    script: seq<byte> -> Option<Url>,
    httpServer: Option<Url>,
    httpIp: seq<byte>,
    tftp: string,
    tftpIp: seq<byte>,
    named: nat -> bool)

  predicate Allows(h: ProxyHandler, mac: seq<byte>) {
    h.auto || (h.backend(mac).Found? && h.backend(mac).netboot.allow)
  }

  /** The packets the proxy answers. */
  predicate Heard(h: ProxyHandler, p: Packet) {
    p.bootRequest && h.enabled && NetbootClient(p) && BinaryFor(ArchOf(p, h.named)) != "" && Allows(h, p.mac)
  }

  function ProxyNext(h: ProxyHandler, p: Packet): seq<byte> {
    if IsHttp(p) then if h.httpServer.Some? then h.httpIp else [] else h.tftpIp
  }

  function ProxyBoot(h: ProxyHandler, p: Packet): Boot {
    Bootfile(NewInfo(p, ArchOf(p, h.named)), [], h.script(p.mac), h.httpServer, h.tftp)
  }

  /** The proxy's reply: a boot file and the options that go with it, and no address. */
  function ProxyReply(h: ProxyHandler, p: Packet): R.Reply {
    var r := R.Skeleton(p);
    r.(siaddr := ProxyNext(h, p),
       boot := ProxyBoot(h, p),
       vendor := R.WithRpi(p.mac, map[6 := [8]]),
       options := r.options[OPT_MESSAGE_TYPE := if p.kind.Discover? then R.OFFER else R.ACK]
                           [OPT_MACHINE_ID := Opt(p, OPT_MACHINE_ID)]
                           [OPT_CLASS_IDENTIFIER := if IsHttp(p) then HTTP_CLIENT else PXE_CLIENT]
                           [OPT_SERVER_ID := ProxyNext(h, p)])
  }

  /** `Handle`: the reply is built behind a chain of early returns. */
  method ProxyHandle(h: ProxyHandler, p: Packet) returns (sent: Option<R.Reply>)
    ensures sent == if Heard(h, p) then Some(ProxyReply(h, p)) else None
  {
    var reply := R.Skeleton(p);
    if !p.bootRequest {
      return None;
    }
    match p.kind {
      case Discover => reply := reply.(options := reply.options[OPT_MESSAGE_TYPE := R.OFFER]);
      case Request => reply := reply.(options := reply.options[OPT_MESSAGE_TYPE := R.ACK]);
      case _ => return None;
    }
    reply := reply.(options := reply.options[OPT_MACHINE_ID := Opt(p, OPT_MACHINE_ID)]);
    var arch := Arch(p, h.named);
    var i := NewInfo(p, arch);
    if !h.enabled {
      return None;
    }
    var problems := NetbootProblems(p);
    if problems != [] {
      return None;
    }
    if i.binary == "" {
      return None;
    }
    reply := reply.(vendor := R.WithRpi(p.mac, map[6 := [8]]));
    reply := reply.(options := reply.options[OPT_CLASS_IDENTIFIER := if i.http then HTTP_CLIENT else PXE_CLIENT]);
    var ns := ProxyNext(h, p);
    reply := reply.(options := reply.options[OPT_SERVER_ID := ns]);
    reply := reply.(siaddr := ns);
    reply := reply.(boot := Bootfile(i, [], h.script(p.mac), h.httpServer, h.tftp));
    if !h.auto {
      var x := h.backend(p.mac);
      if !x.Found? || !x.netboot.allow {
        return None;
      }
    }
    return Some(reply);
  }

  /** Exactly which packets the proxy answers. */
  lemma ProxyAnswersExactly(h: ProxyHandler, p: Packet)
    ensures Heard(h, p) <==>
              && p.bootRequest && (p.kind.Discover? || p.kind.Request?) && h.enabled
              && 60 in p.options && (PXE_CLIENT <= p.options[60] || HTTP_CLIENT <= p.options[60])
              && 93 in p.options && 94 in p.options
              && (97 in p.options ==> p.options[97] == [] || (|p.options[97]| == 17 && p.options[97][0] == 0))
              && BinaryFor(ArchOf(p, h.named)) != ""
              && (h.auto || (h.backend(p.mac).Found? && h.backend(p.mac).netboot.allow))
  {
  }

  /** What the proxy's reply carries, by option number: the answer to the message type, the machine
      identifier mirrored, the class of client, and the next server twice; and no address. */
  lemma ProxyOptions(h: ProxyHandler, p: Packet)
    requires Heard(h, p)
    ensures var r := ProxyReply(h, p);
            && R.OptionOf(r, 53) == Some(if p.kind.Discover? then [2] else [5])
            && R.OptionOf(r, 97) == Some(if 97 in p.options then p.options[97] else [])
            && R.OptionOf(r, 60) == Some(if HTTP_CLIENT <= p.options[60] then HTTP_CLIENT else PXE_CLIENT)
            && R.OptionOf(r, 54) == Some(r.siaddr)
            && (!IsHttp(p) ==> r.siaddr == h.tftpIp)
            && (IsHttp(p) && h.httpServer.Some? ==> r.siaddr == h.httpIp)
            && r.mac == p.mac && r.xid == p.xid && r.yiaddr == [] && R.OptionOf(r, 51) == None
            && 6 in r.vendor && r.vendor[6] == [8] && 69 !in r.vendor
            && (9 in r.vendor <==> IsRpi(p.mac)) && (10 in r.vendor <==> IsRpi(p.mac))
  {
  }

  // ---------------------------------------------------------------------------------------------
  // A server in either mode
  // ---------------------------------------------------------------------------------------------

  datatype Server = Reserving(h: R.Handler) | Proxying(p: ProxyHandler)

  /** The boot file handed out in answer to a packet, if there is an answer. */
  function Answer(s: Server, p: Packet, trace: R.Trace): Option<Boot> {
    match s
    case Reserving(h) => (match R.Handle(h, p, trace) case Some(r) => Some(r.boot) case None => None)
    case Proxying(h) => if Heard(h, p) then Some(ProxyReply(h, p).boot) else None
  }

  /** The script for a client: in reservation mode the one on its record goes first. */
  function ScriptFor(s: Server, mac: seq<byte>): Option<Url> {
    match s
    case Reserving(h) =>
      if h.backend(mac).Found? && h.backend(mac).netboot.script.Some? then h.backend(mac).netboot.script else h.script(mac)
    case Proxying(h) => h.script(mac)
  }

  function HttpServer(s: Server): Option<Url> {
    match s case Reserving(h) => h.httpServer case Proxying(h) => h.httpServer
  }

  /** The class, beside Tinkerbell, that ends the loop: the proxy never passes its own on. */
  function CustomClass(s: Server): seq<byte> {
    match s case Reserving(h) => h.userClass case Proxying(_) => []
  }

  /** A valid netboot packet of a known architecture from a client that may netboot. */
  predicate Served(s: Server, p: Packet) {
    match s
    case Reserving(h) =>
      && h.enabled && NetbootClient(p) && BinaryFor(ArchOf(p, h.named)) != ""
      && R.Live(h, p.mac) && h.backend(p.mac).netboot.allow
    case Proxying(h) => Heard(h, p)
  }

  predicate Ends(s: Server, class_: seq<byte>) { EndsLoop(CustomClass(s), class_) }

  function NamedArchs(s: Server): nat -> bool {
    match s case Reserving(h) => h.named case Proxying(h) => h.named
  }

  /** What a served packet is answered with: a script once the class ends the loop, a binary before. */
  lemma ServedAnswer(s: Server, p: Packet, trace: R.Trace)
    requires Served(s, p)
    ensures Answer(s, p, trace).Some?
    ensures var b, class_ := Answer(s, p, trace).value, if 77 in p.options then p.options[77] else [];
            && (b.Script? <==> Ends(s, class_) && ScriptFor(s, p.mac).Some?)
            && (IsBinary(b) <==> !Ends(s, class_) && (IsHttp(p) ==> HttpServer(s).Some?))
            && (b.Script? ==> b.url == ScriptFor(s, p.mac).value)
  {
    if s.Reserving? {
      var x := s.h.backend(p.mac);
      assert Answer(s, p, trace) == Some(R.PickBoot(s.h, p, x.netboot, trace));
    }
  }

  /** A binary is one for the client's architecture and comes the way the client can load it: over HTTP
      for an HTTP client, as a full TFTP URL for an iPXE that is not Tinkerbell's, by its name otherwise. */
  lemma ServedBinary(s: Server, p: Packet, trace: R.Trace)
    requires Served(s, p) && Answer(s, p, trace).Some? && IsBinary(Answer(s, p, trace).value)
    ensures var b := Answer(s, p, trace).value;
            && (b.HttpBinary? <==> IsHttp(p))
            && (b.TftpBinary? <==> !IsHttp(p) && Opt(p, OPT_USER_CLASS) == IPXE)
            && (b.HttpBinary? ==> Some(b.server) == HttpServer(s))
            && (b.HttpBinary? || b.TftpBinary? ==> b.mac == p.mac)
            && (b.TftpBinary? ==> b.host == if s.Reserving? then s.h.tftp else s.p.tftp)
            && b.name == (if s.Reserving? && s.h.otel && trace.text != "" then BinaryFor(ArchOf(p, NamedArchs(s))) + "-" + trace.text
                          else BinaryFor(ArchOf(p, NamedArchs(s))))
  {
    if s.Reserving? {
      var x := s.h.backend(p.mac);
      assert Answer(s, p, trace) == Some(R.PickBoot(s.h, p, x.netboot, trace));
    }
  }

  /** Whatever the configuration and the packet, a class that ends the loop is never handed a binary. */
  lemma NoBinaryAfterLoop(s: Server, p: Packet, trace: R.Trace)
    requires Ends(s, Opt(p, OPT_USER_CLASS))
    ensures Answer(s, p, trace).Some? ==> !IsBinary(Answer(s, p, trace).value)
  {
    if s.Reserving? && R.Live(s.h, p.mac) {
      var x := s.h.backend(p.mac);
      R.LeaseReply(s.h, p, x.lease, if p.kind.Discover? then R.OFFER else R.ACK, 0);
    }
  }

  /** In proxy mode a configured user class ends the loop only if it is Tinkerbell. */
  lemma ProxyIgnoresCustomClass(h: ProxyHandler, p: Packet, trace: R.Trace)
    requires Heard(h, p) && h.userClass != [] && Opt(p, OPT_USER_CLASS) == h.userClass
    requires IsHttp(p) ==> h.httpServer.Some?
    ensures IsBinary(Answer(Proxying(h), p, trace).value) <==> h.userClass != TINKERBELL
  {
    ServedAnswer(Proxying(h), p, trace);
  }

  // ---------------------------------------------------------------------------------------------
  // Clients
  // ---------------------------------------------------------------------------------------------

  /** A client: the class it reports, how many files it has loaded, and the script once it runs one. */
  datatype Client = Client(class_: seq<byte>, loads: nat, script: Option<Url>)

  type Clients = map<seq<byte>, Client>

  /** Running a served binary turns the class into Tinkerbell; anything but a script or a binary fails to run. */
  function Load(c: Client, b: Boot): Client {
    var d := c.(loads := c.loads + 1);
    if b.Script? then d.(script := Some(b.url)) else if IsBinary(b) then d.(class_ := TINKERBELL) else d
  }

  /** A client sends a packet and, if it is answered, may load what the answer names. */
  datatype Event = Event(packet: Packet, trace: R.Trace, loads: bool)

  /** The packet on the wire: the client's own class goes into option 77. */
  function Sent(c: Client, e: Event): Packet {
    e.packet.(options := e.packet.options[OPT_USER_CLASS := c.class_])
  }

  function Exchange(s: Server, c: Client, e: Event): Client {
    var a := Answer(s, Sent(c, e), e.trace);
    if e.loads && a.Some? then Load(c, a.value) else c
  }

  function Step(s: Server, w: Clients, e: Event): Clients {
    var m := e.packet.mac;
    if m in w then w[m := Exchange(s, w[m], e)] else w
  }

  function Run(s: Server, w: Clients, events: seq<Event>): Clients
    decreases |events|
  {
    if events == [] then w else Step(s, Run(s, w, events[..|events| - 1]), events[|events| - 1])
  }

  /** The events of one client. */
  function Own(events: seq<Event>, m: seq<byte>): seq<Event>
    decreases |events|
  {
    if events == [] then []
    else
      var rest, e := Own(events[..|events| - 1], m), events[|events| - 1];
      if e.packet.mac == m then rest + [e] else rest
  }

  /** A client fares as if it were alone: other clients' packets make no difference to it. */
  lemma {:induction false} ClientsDoNotInterfere(s: Server, w: Clients, events: seq<Event>, m: seq<byte>)
    requires m in w
    ensures m in Run(s, w, events) && m in Run(s, w, Own(events, m))
    ensures Run(s, w, events)[m] == Run(s, w, Own(events, m))[m]
    decreases |events|
  {
    if events != [] {
      var init, e := events[..|events| - 1], events[|events| - 1];
      ClientsDoNotInterfere(s, w, init, m);
      if e.packet.mac == m {
        var own := Own(init, m);
        assert (own + [e])[..|own|] == own;
      }
    }
  }

  // ---------------------------------------------------------------------------------------------
  // Leaving the loop
  // ---------------------------------------------------------------------------------------------

  predicate IsLoad(e: Event, m: seq<byte>) { e.packet.mac == m && e.loads }

  /** Every file client `m` loads in the run comes in answer to a served packet. */
  ghost predicate AllServed(s: Server, events: seq<Event>, m: seq<byte>) {
    forall i | 0 <= i < |events| && IsLoad(events[i], m) :: Served(s, events[i].packet)
  }

  /** There is a server for the binary this packet asks for. */
  predicate HasBinary(s: Server, e: Event) { IsHttp(e.packet) ==> HttpServer(s).Some? }

  /** Whether a packet is served does not hang on option 77. */
  lemma ServedWhateverClass(s: Server, c: Client, e: Event)
    ensures Served(s, e.packet) == Served(s, Sent(c, e))
    ensures IsHttp(e.packet) == IsHttp(Sent(c, e))
    ensures Opt(Sent(c, e), OPT_USER_CLASS) == c.class_ && Sent(c, e).mac == e.packet.mac
  {
    var p, q := e.packet, Sent(c, e);
    assert forall code | code != OPT_USER_CLASS :: Opt(p, code) == Opt(q, code) && (code in p.options <==> code in q.options);
    assert NetbootClient(p) == NetbootClient(q);
  }

  /** One served exchange: the loop ends on a binary, the script comes once it has ended. */
  lemma ServedExchange(s: Server, c: Client, e: Event)
    requires e.loads && Served(s, e.packet)
    ensures var d := Exchange(s, c, e);
            && d.loads == c.loads + 1
            && (Ends(s, d.class_) <==> Ends(s, c.class_) || HasBinary(s, e))
            && d.script == if Ends(s, c.class_) && ScriptFor(s, e.packet.mac).Some? then ScriptFor(s, e.packet.mac) else c.script
  {
    ServedWhateverClass(s, c, e);
    ServedAnswer(s, Sent(c, e), e.trace);
  }

  ghost predicate BinaryLoaded(s: Server, events: seq<Event>, m: seq<byte>) {
    exists i :: 0 <= i < |events| && IsLoad(events[i], m) && HasBinary(s, events[i])
  }

  /** Some load of the client comes when its class already ends the loop: from the start, or after
      a load for which a binary was there. */
  ghost predicate LoadsPastLoop(s: Server, class_: seq<byte>, events: seq<Event>, m: seq<byte>) {
    exists j :: 0 <= j < |events| && IsLoad(events[j], m) && (Ends(s, class_) || BinaryLoaded(s, events[..j], m))
  }

  lemma BinaryLoadedSnoc(s: Server, events: seq<Event>, m: seq<byte>)
    requires events != []
    ensures var init, e := events[..|events| - 1], events[|events| - 1];
            BinaryLoaded(s, events, m) <==> BinaryLoaded(s, init, m) || (IsLoad(e, m) && HasBinary(s, e))
  {
    var init := events[..|events| - 1];
    if i :| 0 <= i < |init| && IsLoad(init[i], m) && HasBinary(s, init[i]) {
      assert events[i] == init[i];
    }
    if i :| 0 <= i < |events| && IsLoad(events[i], m) && HasBinary(s, events[i]) {
      assert i < |init| ==> init[i] == events[i];
    }
  }

  lemma LoadsPastLoopSnoc(s: Server, class_: seq<byte>, events: seq<Event>, m: seq<byte>)
    requires events != []
    ensures var init, e := events[..|events| - 1], events[|events| - 1];
            LoadsPastLoop(s, class_, events, m) <==>
              LoadsPastLoop(s, class_, init, m) || (IsLoad(e, m) && (Ends(s, class_) || BinaryLoaded(s, init, m)))
  {
    var init := events[..|events| - 1];
    assert forall j | 0 <= j < |init| :: init[j] == events[j] && init[..j] == events[..j];
  }

  /** Exactly when, in any interleaving, a client's class has ended the loop and when it is in the script. */
  lemma {:induction false} LeavesLoopExactly(s: Server, w: Clients, events: seq<Event>, m: seq<byte>)
    requires m in w && w[m].script == None && AllServed(s, events, m)
    ensures m in Run(s, w, events)
    ensures var c := Run(s, w, events)[m];
            && (Ends(s, c.class_) <==> Ends(s, w[m].class_) || BinaryLoaded(s, events, m))
            && c.script == (if LoadsPastLoop(s, w[m].class_, events, m) then ScriptFor(s, m) else None)
    decreases |events|
  {
    if events != [] {
      var init, e := events[..|events| - 1], events[|events| - 1];
      LeavesLoopExactly(s, w, init, m);
      BinaryLoadedSnoc(s, events, m);
      LoadsPastLoopSnoc(s, w[m].class_, events, m);
      if IsLoad(e, m) {
        ServedExchange(s, Run(s, w, init)[m], e);
      }
    }
  }

  function LoadsIn(events: seq<Event>, m: seq<byte>): nat
    decreases |events|
  {
    if events == [] then 0
    else LoadsIn(events[..|events| - 1], m) + if IsLoad(events[|events| - 1], m) then 1 else 0
  }

  lemma {:induction false} SecondLoadIsPastLoop(s: Server, class_: seq<byte>, events: seq<Event>, m: seq<byte>)
    requires HttpServer(s).Some?
    ensures LoadsIn(events, m) >= 1 ==> BinaryLoaded(s, events, m)
    ensures LoadsIn(events, m) >= 2 || (LoadsIn(events, m) == 1 && Ends(s, class_)) ==> LoadsPastLoop(s, class_, events, m)
    decreases |events|
  {
    if events != [] {
      SecondLoadIsPastLoop(s, class_, events[..|events| - 1], m);
      BinaryLoadedSnoc(s, events, m);
      LoadsPastLoopSnoc(s, class_, events, m);
    }
  }

  /** Every served exchange is answered. */
  lemma {:induction false} EveryLoadIsAnswered(s: Server, w: Clients, events: seq<Event>, m: seq<byte>)
    requires m in w && AllServed(s, events, m)
    ensures m in Run(s, w, events)
    ensures Run(s, w, events)[m].loads == w[m].loads + LoadsIn(events, m)
    decreases |events|
  {
    if events != [] {
      var init, e := events[..|events| - 1], events[|events| - 1];
      EveryLoadIsAnswered(s, w, init, m);
      if IsLoad(e, m) {
        ServedExchange(s, Run(s, w, init)[m], e);
      }
    }
  }

  /** With a script and an HTTP server configured, a client is in the script after two answered
      exchanges, whatever class it starts in and however it is interleaved with other clients; after
      one, if its class ends the loop from the start. */
  lemma TwoExchanges(s: Server, w: Clients, events: seq<Event>, m: seq<byte>)
    requires m in w && w[m].script == None && w[m].loads == 0 && AllServed(s, events, m)
    requires ScriptFor(s, m).Some? && HttpServer(s).Some?
    ensures m in Run(s, w, events)
    ensures var c := Run(s, w, events)[m];
            && c.loads == LoadsIn(events, m)
            && (c.loads >= 2 || (c.loads == 1 && Ends(s, w[m].class_)) ==> c.script == ScriptFor(s, m))
  {
    LeavesLoopExactly(s, w, events, m);
    EveryLoadIsAnswered(s, w, events, m);
    SecondLoadIsPastLoop(s, w[m].class_, events, m);
  }

  // ---------------------------------------------------------------------------------------------
  // Staying out of it
  // ---------------------------------------------------------------------------------------------

  lemma ExchangeKeepsEnded(s: Server, c: Client, e: Event)
    requires Ends(s, c.class_)
    ensures Exchange(s, c, e).class_ == c.class_
    ensures Answer(s, Sent(c, e), e.trace).Some? ==> !IsBinary(Answer(s, Sent(c, e), e.trace).value)
  {
    NoBinaryAfterLoop(s, Sent(c, e), e.trace);
  }

  /** Once a client's class ends the loop it keeps that class for the rest of any run, whatever packets
      it sends and whatever the configuration, and no answer hands it a binary again. */
  lemma {:induction false} NeverBinaryAgain(s: Server, w: Clients, events: seq<Event>, m: seq<byte>, next: Event)
    requires m in w && Ends(s, w[m].class_) && next.packet.mac == m
    ensures m in Run(s, w, events)
    ensures Run(s, w, events)[m].class_ == w[m].class_
    ensures var a := Answer(s, Sent(Run(s, w, events)[m], next), next.trace); a.Some? ==> !IsBinary(a.value)
    decreases |events|
  {
    if events != [] {
      var init, e := events[..|events| - 1], events[|events| - 1];
      NeverBinaryAgain(s, w, init, m, next);
      if e.packet.mac == m {
        ExchangeKeepsEnded(s, Run(s, w, init)[m], e);
      }
    }
    ExchangeKeepsEnded(s, Run(s, w, events)[m], next);
  }
}
