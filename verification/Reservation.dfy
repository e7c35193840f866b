/** The reservation handler: a reply is a skeleton and a list of modifiers folded over it. */
module Reservation {
  import opened Seqs
  import opened Dhcp

  const DNS: nat := 6
  const NETMASK: nat := 1
  const ROUTER: nat := 3
  const LOG_SERVER: nat := 7
  const HOST_NAME: nat := 12
  const DOMAIN_NAME: nat := 15
  const BROADCAST: nat := 28
  const NTP: nat := 42
  const LEASE_TIME: nat := 51
  const SEARCH_LIST: nat := 119
  const CLIENT_ID: nat := 61
  const RELAY_INFO: nat := 82

  const ANY_ADDRESS: seq<byte> := [0, 0, 0, 0]

  /** A backend record: DHCP data; addresses are byte strings, and empty means not set. */
  datatype Lease = Lease(
    ip: seq<byte>,
    leaseTime: seq<byte>,
    nameServers: seq<seq<byte>>,
    searchList: seq<seq<byte>>,
    ntpServers: seq<seq<byte>>,
    broadcast: seq<byte>,
    domainName: seq<byte>,
    hostname: seq<byte>,
    netmask: seq<byte>,
    gateway: seq<byte>,
    disabled: bool)

  datatype Netboot = Netboot(allow: bool, script: Option<Url>)

  datatype Lookup = Found(lease: Lease, netboot: Netboot) | NotFound | Failed

  /** The handler's configuration, what the backend answers, and the encodings of the DHCP library. */
  datatype Handler = Handler(
    backend: seq<byte> -> Lookup,
    ip: seq<byte>,
    syslog: seq<byte>,
    enabled: bool,
    userClass: seq<byte>,
    script: seq<byte> -> Option<Url>,      // looks at the client's hardware address only
    httpServer: Option<Url>,
    httpIp: seq<byte>,
    tftp: string,
    tftpIp: seq<byte>,
    otel: bool,
    named: nat -> bool,
    encodeSearch: seq<seq<byte>> -> seq<byte>)

  /** The trace the request is handled under: as text for file names, as bytes for option 43. */
  datatype Trace = Trace(text: string, bytes: seq<byte>)

  datatype Reply = Reply(
    mac: seq<byte>,
    xid: nat,
    giaddr: seq<byte>,
    yiaddr: seq<byte>,
    siaddr: seq<byte>,
    boot: Boot,
    options: map<nat, seq<byte>>,
    vendor: map<nat, seq<byte>>)      // the suboptions of option 43

  datatype Modifier =
    | SetOption(code: nat, value: seq<byte>)
    | SetYourIP(ip: seq<byte>)
    | SetServerIP(ip: seq<byte>)
    | WithNetboot(http: bool, boot: Boot, next: seq<byte>, vendor: map<nat, seq<byte>>)

  function Apply(r: Reply, m: Modifier): Reply {
    match m
    case SetOption(code, value) => r.(options := r.options[code := value])
    case SetYourIP(ip) => r.(yiaddr := ip)
    case SetServerIP(ip) => r.(siaddr := ip)
    case WithNetboot(http, boot, next, vendor) =>
      r.(boot := boot, siaddr := next, vendor := r.vendor + vendor,
         options := if http then r.options[OPT_CLASS_IDENTIFIER := HTTP_CLIENT] else r.options)
  }

  function ApplyAll(r: Reply, mods: seq<Modifier>): Reply
    decreases |mods|
  {
    if mods == [] then r else ApplyAll(Apply(r, mods[0]), mods[1..])
  }

  /** The reply the DHCP library starts from: the request's identity, relay and client options. */
  function Skeleton(p: Packet): Reply {
    Reply(p.mac, p.xid, p.giaddr, [], [], NoFile,
          (map c | c in p.options && (c == CLIENT_ID || c == RELAY_INFO) :: p.options[c]), map[])
  }

  // ---------------------------------------------------------------------------------------------
  // The options of a lease
  // ---------------------------------------------------------------------------------------------

  /** An option that is set when there is something to set it to. */
  datatype Setting = Setting(code: nat, value: Option<seq<byte>>)

  function Given(b: seq<byte>): Option<seq<byte>> { if b == [] then None else Some(b) }

  function GivenList(l: seq<seq<byte>>): Option<seq<byte>> { if l == [] then None else Some(Flatten(l)) }

  function Settings(h: Handler, d: Lease): seq<Setting> {
    [Setting(DNS, GivenList(d.nameServers)),
     Setting(SEARCH_LIST, if d.searchList == [] then None else Some(h.encodeSearch(d.searchList))),
     Setting(NTP, GivenList(d.ntpServers)),
     Setting(BROADCAST, Given(d.broadcast)),
     Setting(DOMAIN_NAME, Given(d.domainName)),
     Setting(HOST_NAME, Given(d.hostname)),
     Setting(NETMASK, Given(d.netmask)),
     Setting(ROUTER, Given(d.gateway)),
     Setting(LOG_SERVER, Given(h.syslog))]
  }

  function ModifiersOf(settings: seq<Setting>): seq<Modifier> {
    if settings == [] then []
    else (if settings[0].value.Some? then [SetOption(settings[0].code, settings[0].value.value)] else [])
         + ModifiersOf(settings[1..])
  }

  /** `setDHCPOpts`. */
  function DhcpModifiers(h: Handler, d: Lease): seq<Modifier> {
    [SetOption(LEASE_TIME, d.leaseTime), SetYourIP(d.ip)] + ModifiersOf(Settings(h, d))
  }

  // ---------------------------------------------------------------------------------------------
  // The netboot part
  // ---------------------------------------------------------------------------------------------

  function NextServer(h: Handler, http: bool): seq<byte> {
    if http then if h.httpServer.Some? then h.httpIp else [] else h.tftpIp
  }

  /** `AddRPIOpt43`: the suboptions a Raspberry Pi needs beside the others. */
  function WithRpi(mac: seq<byte>, vendor: map<nat, seq<byte>>): map<nat, seq<byte>> {
    if IsRpi(mac)
    then vendor[9 := [0x00, 0x00, 0x11, 0x52, 0x61, 0x73, 0x70, 0x62, 0x65, 0x72, 0x72, 0x79, 0x20, 0x50, 0x69,
                      0x20, 0x42, 0x6f, 0x6f, 0x74]][10 := [0x00, 0x50, 0x58, 0x45]]
    else vendor
  }

  /** The boot file the handler picks for a client that may netboot. */
  function PickBoot(h: Handler, p: Packet, n: Netboot, trace: Trace): Boot {
    var i := NewInfo(p, ArchOf(p, h.named));
    var script := if n.script.Some? then n.script else h.script(p.mac);
    var name := if h.otel && trace.text != "" then i.binary + "-" + trace.text else i.binary;
    Bootfile(i.(binary := name), h.userClass, script, h.httpServer, h.tftp)
  }

  /** `setNetworkBootOpts`. */
  function NetbootModifier(h: Handler, p: Packet, n: Netboot, trace: Trace): Modifier {
    if n.allow && BinaryFor(ArchOf(p, h.named)) != "" then
      WithNetboot(IsHttp(p), PickBoot(h, p, n, trace), NextServer(h, IsHttp(p)),
                  WithRpi(p.mac, map[6 := [8], 69 := trace.bytes]))
    else WithNetboot(IsHttp(p), NotAllowed, ANY_ADDRESS, map[])
  }

  // ---------------------------------------------------------------------------------------------
  // The reply
  // ---------------------------------------------------------------------------------------------

  const OFFER: seq<byte> := [2]
  const ACK: seq<byte> := [5]

  function BaseModifiers(h: Handler, d: Lease, kind: seq<byte>): seq<Modifier> {
    [SetOption(OPT_MESSAGE_TYPE, kind), SetOption(OPT_SERVER_ID, h.ip), SetServerIP(h.ip)] + DhcpModifiers(h, d)
  }

  /** `updateMsg`. */
  function UpdateMsg(h: Handler, p: Packet, d: Lease, n: Netboot, kind: seq<byte>, trace: Trace): Reply {
    var leased := ApplyAll(Skeleton(p), BaseModifiers(h, d, kind));
    if h.enabled && NetbootClient(p) then Apply(leased, NetbootModifier(h, p, n, trace)) else leased
  }

  /** `Handle`: the reply sent, if any. */
  function Handle(h: Handler, p: Packet, trace: Trace): Option<Reply> {
    if !p.kind.Discover? && !p.kind.Request? then None
    else match h.backend(p.mac)
      case NotFound => None
      case Failed => None
      case Found(d, n) =>
        if d.disabled then None else Some(UpdateMsg(h, p, d, n, if p.kind.Discover? then OFFER else ACK, trace))
  }

  // ---------------------------------------------------------------------------------------------
  // What the reply carries
  // ---------------------------------------------------------------------------------------------

  predicate DistinctCodes(settings: seq<Setting>) {
    forall i, j :: 0 <= i < j < |settings| ==> settings[i].code != settings[j].code
  }

  /** The value a list of settings gives to an option, if it mentions it. */
  function ValueIn(settings: seq<Setting>, code: nat): Option<seq<byte>> {
    if settings == [] then None
    else if settings[0].code == code then settings[0].value
    else ValueIn(settings[1..], code)
  }

  function OptionOf(r: Reply, code: nat): Option<seq<byte>> { if code in r.options then Some(r.options[code]) else None }

  lemma {:induction false} ApplyAllAppend(r: Reply, a: seq<Modifier>, b: seq<Modifier>)
    ensures ApplyAll(r, a + b) == ApplyAll(ApplyAll(r, a), b)
    decreases |a|
  {
    if a == [] {
      assert a + b == b;
    } else {
      assert (a + b)[1..] == a[1..] + b;
      ApplyAllAppend(Apply(r, a[0]), a[1..], b);
    }
  }

  /** Applying settings sets exactly the options that have a value, and nothing else. */
  lemma {:induction false} SettingsApplied(r: Reply, settings: seq<Setting>, code: nat)
    requires DistinctCodes(settings)
    ensures var out := ApplyAll(r, ModifiersOf(settings));
            && OptionOf(out, code) == (if ValueIn(settings, code).Some? then ValueIn(settings, code) else OptionOf(r, code))
            && out == r.(options := out.options)
    decreases |settings|
  {
    if settings != [] {
      var s, rest := settings[0], settings[1..];
      var head := if s.value.Some? then [SetOption(s.code, s.value.value)] else [];
      ApplyAllAppend(r, head, ModifiersOf(rest));
      var r1 := if s.value.Some? then Apply(r, SetOption(s.code, s.value.value)) else r;
      assert ApplyAll(r, head) == r1;
      SettingsApplied(r1, rest, code);
      if s.code == code {
        NotIn(rest, code);
      }
    }
  }

  lemma {:induction false} NotIn(settings: seq<Setting>, code: nat)
    requires forall i :: 0 <= i < |settings| ==> settings[i].code != code
    ensures ValueIn(settings, code) == None
  {
    if settings != [] { NotIn(settings[1..], code); }
  }

  /** The reply before any netboot part, option by option. */
  lemma LeaseReply(h: Handler, p: Packet, d: Lease, kind: seq<byte>, code: nat)
    ensures var r := ApplyAll(Skeleton(p), BaseModifiers(h, d, kind));
            && r.mac == p.mac && r.xid == p.xid && r.giaddr == p.giaddr
            && r.yiaddr == d.ip && r.siaddr == h.ip && r.boot == NoFile && r.vendor == map[]
            && OptionOf(r, code) ==
                 (if ValueIn(Settings(h, d), code).Some? then ValueIn(Settings(h, d), code)
                  else if code == OPT_MESSAGE_TYPE then Some(kind)
                  else if code == OPT_SERVER_ID then Some(h.ip)
                  else if code == LEASE_TIME then Some(d.leaseTime)
                  else OptionOf(Skeleton(p), code))
  {
    var r0 := Skeleton(p);
    var front := [SetOption(OPT_MESSAGE_TYPE, kind), SetOption(OPT_SERVER_ID, h.ip), SetServerIP(h.ip),
                  SetOption(LEASE_TIME, d.leaseTime), SetYourIP(d.ip)];
    var tail := ModifiersOf(Settings(h, d));
    assert BaseModifiers(h, d, kind) == front + tail;
    ApplyAllAppend(r0, front, tail);
    FiveApplied(r0, kind, h.ip, d);
    SettingsApplied(ApplyAll(r0, front), Settings(h, d), code);
  }

  /** The value from the record if there is one, and otherwise what the client sent. */
  function OrClient(given: Option<seq<byte>>, p: Packet, code: nat): Option<seq<byte>> {
    if given.Some? then given else OptionOf(Skeleton(p), code)
  }

  /** Which part of the record each option carries, by its number in RFC 2132 and RFC 3397. */
  lemma RecordOptions(h: Handler, p: Packet, d: Lease, kind: seq<byte>)
    ensures var r := ApplyAll(Skeleton(p), BaseModifiers(h, d, kind));
            && OptionOf(r, 1) == OrClient(Given(d.netmask), p, 1)
            && OptionOf(r, 3) == OrClient(Given(d.gateway), p, 3)
            && OptionOf(r, 6) == OrClient(GivenList(d.nameServers), p, 6)
            && OptionOf(r, 7) == OrClient(Given(h.syslog), p, 7)
            && OptionOf(r, 12) == OrClient(Given(d.hostname), p, 12)
            && OptionOf(r, 15) == OrClient(Given(d.domainName), p, 15)
            && OptionOf(r, 28) == OrClient(Given(d.broadcast), p, 28)
            && OptionOf(r, 42) == OrClient(GivenList(d.ntpServers), p, 42)
            && OptionOf(r, 51) == Some(d.leaseTime)
            && OptionOf(r, 53) == Some(kind)
            && OptionOf(r, 54) == Some(h.ip)
            && (d.searchList != [] ==> OptionOf(r, 119) == Some(h.encodeSearch(d.searchList)))
  {
    var s := Settings(h, d);
    forall i: nat | i < |s| ensures ValueIn(s, s[i].code) == s[i].value { ValueAt(s, i); }
    forall code: nat | code == 51 || code == 53 || code == 54 ensures ValueIn(s, code) == None { NotIn(s, code); }
    LeaseReplies(h, p, d, kind);
    assert s[0].code == 6 && s[1].code == 119 && s[2].code == 42 && s[3].code == 28 && s[4].code == 15 && s[5].code == 12
        && s[6].code == 1 && s[7].code == 3 && s[8].code == 7;
  }

  lemma LeaseReplies(h: Handler, p: Packet, d: Lease, kind: seq<byte>)
    ensures var r, s := ApplyAll(Skeleton(p), BaseModifiers(h, d, kind)), Settings(h, d);
            forall code: nat :: OptionOf(r, code) ==
              (if ValueIn(s, code).Some? then ValueIn(s, code)
               else if code == OPT_MESSAGE_TYPE then Some(kind)
               else if code == OPT_SERVER_ID then Some(h.ip)
               else if code == LEASE_TIME then Some(d.leaseTime)
               else OptionOf(Skeleton(p), code))
  {
    forall code: nat { LeaseReply(h, p, d, kind, code); }
  }

  lemma {:induction false} ValueAt(settings: seq<Setting>, i: nat)
    requires DistinctCodes(settings) && i < |settings|
    ensures ValueIn(settings, settings[i].code) == settings[i].value
    decreases |settings|
  {
    if i > 0 {
      ValueAt(settings[1..], i - 1);
    }
  }

  lemma FiveApplied(r: Reply, kind: seq<byte>, ip: seq<byte>, d: Lease)
    ensures ApplyAll(r, [SetOption(OPT_MESSAGE_TYPE, kind), SetOption(OPT_SERVER_ID, ip), SetServerIP(ip),
                         SetOption(LEASE_TIME, d.leaseTime), SetYourIP(d.ip)])
         == r.(siaddr := ip, yiaddr := d.ip,
               options := r.options[OPT_MESSAGE_TYPE := kind][OPT_SERVER_ID := ip][LEASE_TIME := d.leaseTime])
  {
    var m1, m2, m3 := SetOption(OPT_MESSAGE_TYPE, kind), SetOption(OPT_SERVER_ID, ip), SetServerIP(ip);
    var m4, m5 := SetOption(LEASE_TIME, d.leaseTime), SetYourIP(d.ip);
    var r1 := Apply(r, m1);
    var r2 := Apply(r1, m2);
    var r3 := Apply(r2, m3);
    var r4 := Apply(r3, m4);
    ApplyCons(r, m1, [m2, m3, m4, m5]);
    ApplyCons(r1, m2, [m3, m4, m5]);
    ApplyCons(r2, m3, [m4, m5]);
    ApplyCons(r3, m4, [m5]);
    ApplyCons(r4, m5, []);
    assert [m1, m2, m3, m4, m5] == [m1] + [m2, m3, m4, m5];
    assert [m2, m3, m4, m5] == [m2] + [m3, m4, m5];
    assert [m3, m4, m5] == [m3] + [m4, m5];
    assert [m4, m5] == [m4] + [m5];
    assert [m5] == [m5] + [];
  }

  lemma ApplyCons(r: Reply, m: Modifier, rest: seq<Modifier>)
    ensures ApplyAll(r, [m] + rest) == ApplyAll(Apply(r, m), rest)
  {
    assert ([m] + rest)[1..] == rest;
  }

  /** What the netboot part may touch: the two boot headers, option 43, and option 60. */
  ghost predicate SameLease(r: Reply, q: Reply) {
    && r == q.(boot := r.boot, siaddr := r.siaddr, vendor := r.vendor, options := r.options)
    && forall code :: code != OPT_CLASS_IDENTIFIER ==> OptionOf(r, code) == OptionOf(q, code)
  }

  /** Every option that comes from the record, the address and the identity of the reply are the same
      with and without the netboot part. */
  lemma NetbootLeavesLease(h: Handler, p: Packet, d: Lease, n: Netboot, kind: seq<byte>, trace: Trace)
    ensures SameLease(UpdateMsg(h, p, d, n, kind, trace), ApplyAll(Skeleton(p), BaseModifiers(h, d, kind)))
    ensures ValueIn(Settings(h, d), OPT_CLASS_IDENTIFIER) == None
    ensures UpdateMsg(h, p, d, n, kind, trace).yiaddr == d.ip
  {
    LeaseReply(h, p, d, kind, 0);
    NotIn(Settings(h, d), OPT_CLASS_IDENTIFIER);
  }

  /** The same, but for the value of option 53. */
  ghost predicate DiffersOnlyInType(r: Reply, q: Reply) {
    && r == q.(options := r.options)
    && forall code :: code != OPT_MESSAGE_TYPE ==> OptionOf(r, code) == OptionOf(q, code)
  }

  lemma SameButType(h: Handler, pd: Packet, pr: Packet, d: Lease)
    requires Skeleton(pd) == Skeleton(pr)
    ensures var a, b := ApplyAll(Skeleton(pd), BaseModifiers(h, d, OFFER)), ApplyAll(Skeleton(pr), BaseModifiers(h, d, ACK));
            && DiffersOnlyInType(a, b)
            && OptionOf(a, OPT_MESSAGE_TYPE) == Some(OFFER) && OptionOf(b, OPT_MESSAGE_TYPE) == Some(ACK)
  {
    var a, b := ApplyAll(Skeleton(pd), BaseModifiers(h, d, OFFER)), ApplyAll(Skeleton(pr), BaseModifiers(h, d, ACK));
    forall code: nat
      ensures code != OPT_MESSAGE_TYPE ==> OptionOf(a, code) == OptionOf(b, code)
    {
      LeaseReply(h, pd, d, OFFER, code);
      LeaseReply(h, pr, d, ACK, code);
    }
    LeaseReply(h, pd, d, OFFER, OPT_MESSAGE_TYPE);
    LeaseReply(h, pr, d, ACK, OPT_MESSAGE_TYPE);
    NotIn(Settings(h, d), OPT_MESSAGE_TYPE);
    assert Skeleton(pd).mac == pd.mac && Skeleton(pr).mac == pr.mac;
  }

  lemma NetbootKeepsType(a: Reply, b: Reply, m: Modifier)
    requires DiffersOnlyInType(a, b) && m.WithNetboot?
    ensures DiffersOnlyInType(Apply(a, m), Apply(b, m))
    ensures OptionOf(Apply(a, m), OPT_MESSAGE_TYPE) == OptionOf(a, OPT_MESSAGE_TYPE)
    ensures OptionOf(Apply(b, m), OPT_MESSAGE_TYPE) == OptionOf(b, OPT_MESSAGE_TYPE)
  {
    var x, y := Apply(a, m), Apply(b, m);
    forall code: nat
      ensures code != OPT_MESSAGE_TYPE ==> OptionOf(x, code) == OptionOf(y, code)
    {
      assert code != OPT_MESSAGE_TYPE ==> OptionOf(a, code) == OptionOf(b, code);
    }
  }

  /** The answers to a Discover and to the Request that follows it, under equal trace contexts, differ
      only in option 53. */
  lemma OfferIsAck(h: Handler, p: Packet, trace: Trace)
    ensures var offer, ack := Handle(h, p.(kind := Discover), trace), Handle(h, p.(kind := Request), trace);
            && offer.Some? == ack.Some?
            && (offer.Some? ==> DiffersOnlyInType(offer.value, ack.value))
            && (offer.Some? ==> OptionOf(offer.value, OPT_MESSAGE_TYPE) == Some(OFFER) && OptionOf(ack.value, OPT_MESSAGE_TYPE) == Some(ACK))
  {
    var x := h.backend(p.mac);
    if x.Found? && !x.lease.disabled {
      var d, n, pd, pr := x.lease, x.netboot, p.(kind := Discover), p.(kind := Request);
      var a, b := ApplyAll(Skeleton(pd), BaseModifiers(h, d, OFFER)), ApplyAll(Skeleton(pr), BaseModifiers(h, d, ACK));
      SameButType(h, pd, pr, d);
      SameNetboot(h, p, n, trace);
      NetbootKeepsType(a, b, NetbootModifier(h, pd, n, trace));
    }
  }

  /** The netboot part does not look at which of the two messages it answers. */
  lemma SameNetboot(h: Handler, p: Packet, n: Netboot, trace: Trace)
    ensures var pd, pr := p.(kind := Discover), p.(kind := Request);
            NetbootClient(pd) == NetbootClient(pr) && NetbootModifier(h, pd, n, trace) == NetbootModifier(h, pr, n, trace)
  {
  }

  // ---------------------------------------------------------------------------------------------
  // The steps the handler takes
  // ---------------------------------------------------------------------------------------------

  /** A reply under construction, updated in place. */
  class Draft {
    var reply: Reply

    constructor (p: Packet)
      ensures reply == Skeleton(p)
    {
      reply := Skeleton(p);
    }

    /** The closure that `setNetworkBootOpts` returns. */
    method SetNetboot(h: Handler, p: Packet, n: Netboot, trace: Trace)
      modifies this
      ensures reply == Apply(old(reply), NetbootModifier(h, p, n, trace))
    {
      if HTTP_CLIENT <= Opt(p, OPT_CLASS_IDENTIFIER) {
        reply := reply.(options := reply.options[OPT_CLASS_IDENTIFIER := HTTP_CLIENT]);
      }
      reply := reply.(boot := NotAllowed);
      reply := reply.(siaddr := ANY_ADDRESS);
      if n.allow {
        var arch := Arch(p, h.named);
        if BinaryFor(arch) == "" {
          assert reply.vendor + map[] == reply.vendor;
          return;
        }
        reply := reply.(boot := PickBoot(h, p, n, trace), siaddr := NextServer(h, IsHttp(p)));
        reply := reply.(vendor := reply.vendor + WithRpi(p.mac, map[6 := [8], 69 := trace.bytes]));
      } else {
        assert reply.vendor + map[] == reply.vendor;
      }
    }

    method Modify(mods: seq<Modifier>)
      modifies this
      ensures reply == ApplyAll(old(reply), mods)
    {
      for i := 0 to |mods|
        invariant ApplyAll(reply, mods[i..]) == ApplyAll(old(reply), mods)
      {
        reply := Apply(reply, mods[i]);
        assert mods[i..][1..] == mods[i + 1..];
      }
    }
  }

  method BuildReply(h: Handler, p: Packet, d: Lease, n: Netboot, kind: seq<byte>, trace: Trace) returns (reply: Reply)
    ensures reply == UpdateMsg(h, p, d, n, kind, trace)
  {
    var mods := [SetOption(OPT_MESSAGE_TYPE, kind), SetOption(OPT_SERVER_ID, h.ip), SetServerIP(h.ip)];
    mods := mods + DhcpModifiers(h, d);
    var draft := new Draft(p);
    draft.Modify(mods);
    var problems := NetbootProblems(p);
    if h.enabled && problems == [] {
      draft.SetNetboot(h, p, n, trace);
    }
    return draft.reply;
  }

  // ---------------------------------------------------------------------------------------------
  // Addresses over a run
  // ---------------------------------------------------------------------------------------------

  datatype Received = Received(packet: Packet, trace: Trace)

  /** The reservations that are answered at all. */
  predicate Live(h: Handler, mac: seq<byte>) { h.backend(mac).Found? && !h.backend(mac).lease.disabled }

  ghost predicate DistinctAddresses(h: Handler) {
    forall a, b | Live(h, a) && Live(h, b) && h.backend(a).lease.ip == h.backend(b).lease.ip :: a == b
  }

  /** Any two replies of a run give the same address exactly when they go to the same client. */
  ghost predicate NoSharing(h: Handler, run: seq<Received>) {
    forall i, j | 0 <= i < |run| && 0 <= j < |run| ::
      var a, b := Handle(h, run[i].packet, run[i].trace), Handle(h, run[j].packet, run[j].trace);
      (a.Some? && b.Some?) ==> (a.value.yiaddr == b.value.yiaddr <==> a.value.mac == b.value.mac)
  }

  /** An answer carries the client's hardware address and the reserved address, and only a Discover or
      a Request of a live reservation gets one. */
  lemma AnswerIsReservation(h: Handler, p: Packet, trace: Trace)
    ensures Handle(h, p, trace).Some? <==>
              (p.kind.Discover? || p.kind.Request?) && h.backend(p.mac).Found? && !h.backend(p.mac).lease.disabled
    ensures Handle(h, p, trace).Some? ==>
              && Handle(h, p, trace).value.mac == p.mac
              && Handle(h, p, trace).value.yiaddr == h.backend(p.mac).lease.ip
  {
    var x := h.backend(p.mac);
    if x.Found? && !x.lease.disabled {
      var kind := if p.kind.Discover? then OFFER else ACK;
      NetbootLeavesLease(h, p, x.lease, x.netboot, kind, trace);
      LeaseReply(h, p, x.lease, kind, 0);
    }
  }

  lemma RunKeepsAddressesApart(h: Handler, run: seq<Received>)
    requires DistinctAddresses(h)
    ensures NoSharing(h, run)
  {
    forall i, j | 0 <= i < |run| && 0 <= j < |run|
      ensures var a, b := Handle(h, run[i].packet, run[i].trace), Handle(h, run[j].packet, run[j].trace);
              (a.Some? && b.Some?) ==> (a.value.yiaddr == b.value.yiaddr <==> a.value.mac == b.value.mac)
    {
      AnswerIsReservation(h, run[i].packet, run[i].trace);
      AnswerIsReservation(h, run[j].packet, run[j].trace);
    }
  }

  /** No run shares an address exactly when live reservations have distinct addresses. */
  lemma NoSharingExactly(h: Handler)
    ensures (forall run :: NoSharing(h, run)) <==> DistinctAddresses(h)
  {
    if DistinctAddresses(h) {
      forall run ensures NoSharing(h, run) { RunKeepsAddressesApart(h, run); }
    }
    if forall run :: NoSharing(h, run) {
      forall a, b | Live(h, a) && Live(h, b) && h.backend(a).lease.ip == h.backend(b).lease.ip
        ensures a == b
      {
        var run := DiscoverBoth(h, a, b);
        assert NoSharing(h, run);
      }
    }
  }

  /** The run in which two clients ask one after the other. */
  lemma DiscoverBoth(h: Handler, a: seq<byte>, b: seq<byte>) returns (run: seq<Received>)
    requires Live(h, a) && Live(h, b) && h.backend(a).lease.ip == h.backend(b).lease.ip
    ensures NoSharing(h, run) ==> a == b
  {
    var t := Trace("", []);
    var p, q := Packet(true, Discover, a, 0, [], [], map[]), Packet(true, Discover, b, 0, [], [], map[]);
    AnswerIsReservation(h, p, t);
    AnswerIsReservation(h, q, t);
    run := [Received(p, t), Received(q, t)];
    assert run[0].packet == p && run[1].packet == q;
  }

  // ---------------------------------------------------------------------------------------------
  // What a client is told to boot
  // ---------------------------------------------------------------------------------------------

  /** Netboot is allowed by the client's record, and there is a binary for its architecture. */
  predicate MayBoot(h: Handler, p: Packet) {
    h.backend(p.mac).Found? && h.backend(p.mac).netboot.allow && BinaryFor(ArchOf(p, h.named)) != ""
  }

  /** The boot file and the next server of every answer. A packet that gets no netboot part is told nothing
      and the server's own address; a netboot client that may not boot is told so, and no address; and any
      other is told the address of the server its kind of client loads from. */
  lemma BootHeaders(h: Handler, p: Packet, trace: Trace)
    requires Handle(h, p, trace).Some?
    ensures var r := Handle(h, p, trace).value;
            if !h.enabled || !NetbootClient(p) then r.boot == NoFile && r.siaddr == h.ip
            else
              && (r.boot == NotAllowed <==> !MayBoot(h, p))
              && (!MayBoot(h, p) ==> r.siaddr == [0, 0, 0, 0])
              && (MayBoot(h, p) && !IsHttp(p) ==> r.siaddr == h.tftpIp)
              && (MayBoot(h, p) && IsHttp(p) && h.httpServer.Some? ==> r.siaddr == h.httpIp)
              && (MayBoot(h, p) && IsHttp(p) && h.httpServer.None? ==> r.siaddr == [])
              && r.boot != NoFile
              && (IsHttp(p) ==> OptionOf(r, 60) == Some(HTTP_CLIENT))
              && (!IsHttp(p) ==> OptionOf(r, 60) == None)
  {
    var x := h.backend(p.mac);
    var kind := if p.kind.Discover? then OFFER else ACK;
    LeaseReply(h, p, x.lease, kind, 60);
    NotIn(Settings(h, x.lease), 60);
  }

  /** The suboptions a Raspberry Pi looks for, and that nobody else gets. */
  lemma PiSuboptions(mac: seq<byte>, vendor: map<nat, seq<byte>>)
    requires vendor.Keys <= {6, 69}
    ensures var v := WithRpi(mac, vendor);
            && (IsRpi(mac) ==> 9 in v && v[9] == [0, 0, 17] + Ascii("Raspberry Pi Boot") && 10 in v && v[10] == [0] + Ascii("PXE"))
            && (!IsRpi(mac) ==> v == vendor)
            && (forall c :: c in vendor ==> c in v && v[c] == vendor[c])
  {
    var boot, pxe := Ascii("Raspberry Pi Boot"), Ascii("PXE");
    assert [0, 0, 17] + boot == [0x00, 0x00, 0x11, 0x52, 0x61, 0x73, 0x70, 0x62, 0x65, 0x72, 0x72, 0x79, 0x20, 0x50, 0x69,
                                 0x20, 0x42, 0x6f, 0x6f, 0x74];
    assert [0] + pxe == [0x00, 0x50, 0x58, 0x45];
  }
}
