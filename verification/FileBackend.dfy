/** The file backend: two lookups over a table whose iteration order is not fixed. */
module FileBackend {
  import opened Seqs
  import opened Text
  import opened Mac

  type Addr = seq<byte>

  // ---------------------------------------------------------------------------------------------
  // Records
  // ---------------------------------------------------------------------------------------------

  /** A record as the file holds it. */
  datatype Raw = Raw(
    ip: string,
    mask: string,
    gateway: string,
    nameServers: seq<string>,
    hostname: string,
    domainName: string,
    broadcast: string,
    ntpServers: seq<string>,
    vlan: string,
    leaseTime: int,
    arch: string,
    searchDomains: seq<string>,
    disabled: bool,
    allowPxe: bool,
    scriptUrl: string,
    script: string,
    console: string,
    facility: string)

  datatype Lease = Lease(
    mac: seq<byte>,
    ip: Addr,
    mask: Addr,
    gateway: Option<Addr>,
    nameServers: seq<Addr>,
    hostname: string,
    domainName: string,
    broadcast: Option<Addr>,
    ntpServers: seq<Addr>,
    vlan: string,
    leaseTime: nat,
    arch: string,
    searchDomains: seq<string>,
    disabled: bool)

  datatype Netboot = Netboot(allow: bool, scriptUrl: Option<string>, script: string, console: string, facility: string)

  datatype Result =
    | Found(lease: Lease, netboot: Netboot)
    | NotFound
    | BadFile
    | BadAddress
    | BadMask
    | BadUrl

  /** Go's address and URL parsers; `mask` gives the four-byte form, which is empty for IPv6. */
  datatype Parsers = Parsers(
    addr: string -> Option<Addr>,
    ip: string -> Option<Addr>,
    mask: string -> Option<Addr>,
    url: string -> Option<string>)

  /** The servers up to the first that does not parse. */
  function ValidPrefix(parse: string -> Option<Addr>, l: seq<string>): seq<Addr> {
    if l == [] || parse(l[0]).None? then [] else [parse(l[0]).value] + ValidPrefix(parse, l[1..])
  }

  const WEEK: nat := 604800

  function LeaseTime(t: int): nat { if 0 <= t < 0x1_0000_0000 then t else WEEK }

  function LeaseOf(p: Parsers, r: Raw, mac: seq<byte>, ip: Addr, mask: Addr): Lease {
    Lease(mac, ip, mask, p.addr(r.gateway), ValidPrefix(p.ip, r.nameServers), r.hostname, r.domainName,
          p.addr(r.broadcast), ValidPrefix(p.ip, r.ntpServers), r.vlan, LeaseTime(r.leaseTime), r.arch,
          r.searchDomains, r.disabled)
  }

  function Translated(p: Parsers, r: Raw, mac: seq<byte>): Result {
    if p.addr(r.ip).None? then BadAddress
    else if p.mask(r.mask).None? then BadMask
    else if r.scriptUrl != "" && p.url(r.scriptUrl).None? then BadUrl
    else Found(LeaseOf(p, r, mac, p.addr(r.ip).value, p.mask(r.mask).value),
               Netboot(r.allowPxe, if r.scriptUrl == "" then None else p.url(r.scriptUrl), r.script, r.console, r.facility))
  }

  /** The longest valid prefix: every server taken parses, in order, and the next one does not. */
  lemma {:induction false} PrefixIsLongest(parse: string -> Option<Addr>, l: seq<string>)
    ensures var v := ValidPrefix(parse, l);
            && |v| <= |l|
            && (forall i :: 0 <= i < |v| ==> parse(l[i]) == Some(v[i]))
            && (|v| < |l| ==> parse(l[|v|]) == None)
  {
    if l != [] && parse(l[0]).Some? {
      PrefixIsLongest(parse, l[1..]);
      var v, w := ValidPrefix(parse, l), ValidPrefix(parse, l[1..]);
      forall i | 0 <= i < |v| ensures parse(l[i]) == Some(v[i]) {
        if i > 0 { assert l[i] == l[1..][i - 1] && v[i] == w[i - 1]; }
      }
    }
  }

  /** The loop over name servers, and over NTP servers. */
  method Servers(parse: string -> Option<Addr>, l: seq<string>) returns (v: seq<Addr>)
    ensures v == ValidPrefix(parse, l)
  {
    v := [];
    for i := 0 to |l|
      invariant v + ValidPrefix(parse, l[i..]) == ValidPrefix(parse, l)
    {
      var ip := parse(l[i]);
      if ip.None? {
        break;
      }
      v := v + [ip.value];
      assert l[i..][1..] == l[i + 1..];
    }
  }

  /** `translate`. */
  method Translate(p: Parsers, r: Raw, mac: seq<byte>) returns (result: Result)
    ensures result == Translated(p, r, mac)
  {
    var ip := p.addr(r.ip);
    if ip.None? {
      return BadAddress;
    }
    var sm := p.mask(r.mask);
    if sm.None? {
      return BadMask;
    }
    var d := Lease(mac, ip.value, sm.value, None, [], "", "", None, [], "", 0, "", [], false);
    var dg := p.addr(r.gateway);
    if dg.Some? {
      d := d.(gateway := dg);
    }
    var ns := Servers(p.ip, r.nameServers);
    d := d.(nameServers := ns, hostname := r.hostname, domainName := r.domainName);
    var ba := p.addr(r.broadcast);
    if ba.Some? {
      d := d.(broadcast := ba);
    }
    var ntp := Servers(p.ip, r.ntpServers);
    d := d.(ntpServers := ntp, vlan := r.vlan, leaseTime := WEEK);
    if 0 <= r.leaseTime < 0x1_0000_0000 {
      d := d.(leaseTime := r.leaseTime);
    }
    d := d.(arch := r.arch, searchDomains := r.searchDomains, disabled := r.disabled);
    var n := Netboot(r.allowPxe, None, "", "", "");
    if r.scriptUrl != "" {
      var u := p.url(r.scriptUrl);
      if u.None? {
        return BadUrl;
      }
      n := n.(scriptUrl := u);
    }
    if r.script != "" {
      n := n.(script := r.script);
    }
    if r.console != "" {
      n := n.(console := r.console);
    }
    if r.facility != "" {
      n := n.(facility := r.facility);
    }
    return Found(d, n);
  }

  // ---------------------------------------------------------------------------------------------
  // Lookups
  // ---------------------------------------------------------------------------------------------

  type Table = map<string, Raw>

  /** An order in which a map may be walked. */
  ghost predicate Order(order: seq<string>, keys: set<string>) {
    && (forall k :: k in order <==> k in keys)
    && (forall i, j :: 0 <= i < j < |order| ==> order[i] != order[j])
  }

  /** The answer for the first key that fits. */
  function Lookup(order: seq<string>, fits: string -> bool, answer: string -> Result): Result {
    if order == [] then NotFound
    else if fits(order[0]) then answer(order[0])
    else Lookup(order[1..], fits, answer)
  }

  function LowerChar(c: char): char { if 'A' <= c <= 'Z' then c + 32 as char else c }

  function Lower(s: string): string { seq(|s|, i requires 0 <= i < |s| => LowerChar(s[i])) }

  /** `strings.EqualFold` against a hardware address, whose text is lower-case ASCII. */
  predicate KeyOf(k: string, mac: seq<byte>) { Lower(k) == MacText(mac, ':') }

  function ByMacAnswer(p: Parsers, t: Table, mac: seq<byte>, k: string): Result {
    if k in t then Translated(p, t[k], mac) else NotFound
  }

  function ByIpAnswer(p: Parsers, t: Table, k: string): Result {
    if k !in t then NotFound
    else match ParseMac(k)
      case None => BadFile
      case Some(mac) => Translated(p, t[k], mac)
  }

  function ByMac(p: Parsers, t: Table, order: seq<string>, mac: seq<byte>): Result {
    Lookup(order, k => KeyOf(k, mac), k => ByMacAnswer(p, t, mac, k))
  }

  function ByIp(p: Parsers, t: Table, order: seq<string>, ip: string): Result {
    Lookup(order, k => k in t && t[k].ip == ip, k => ByIpAnswer(p, t, k))
  }

  /** What the watcher hears of the file: a write, with what reading it then gave, if that worked, and
      whether it decodes; another operation; or an error. */
  datatype FileEvent = Written(read: Option<Option<Table>>) | Touched | WatchError

  function LastRead(data: Option<Table>, events: seq<FileEvent>): Option<Table>
    decreases |events|
  {
    if events == [] then data
    else LastRead(if events[0].Written? && events[0].read.Some? then events[0].read.value else data, events[1..])
  }

  predicate IsRead(e: FileEvent) { e.Written? && e.read.Some? }

  /** Lookups answer from the latest version of the file that could be read: failed reads and other events
      change nothing, and nothing of an earlier version is left. */
  lemma {:induction false} LatestIsServed(data: Option<Table>, events: seq<FileEvent>, k: int)
    requires -1 <= k < |events|
    requires k >= 0 ==> IsRead(events[k])
    requires forall i :: k < i < |events| ==> !IsRead(events[i])
    ensures LastRead(data, events) == if k == -1 then data else events[k].read.value
    decreases |events|
  {
    if events != [] {
      var e, rest := events[0], events[1..];
      assert forall i :: 0 <= i < |rest| ==> rest[i] == events[i + 1];
      LatestIsServed(if IsRead(e) then e.read.value else data, rest, if k <= 0 then -1 else k - 1);
    }
  }

  /** The in-memory copy of the file, replaced as a whole when the file changes; `None` when it does not
      decode. */
  class Watcher {
    var data: Option<Table>

    constructor (data: Option<Table>)
      ensures this.data == data
    {
      this.data := data;
    }

    /** `Start`: what the watcher does with the events it gets, one after the other. */
    method Watch(events: seq<FileEvent>)
      modifies this
      ensures data == LastRead(old(data), events)
    {
      for i := 0 to |events|
        invariant LastRead(data, events[i..]) == LastRead(old(data), events)
      {
        assert events[i..][1..] == events[i + 1..];
        match events[i] {
          case Written(read) =>
            if read.Some? {
              data := read.value;
            }
          case Touched =>
          case WatchError =>
        }
      }
    }

    method GetByMac(p: Parsers, order: seq<string>, mac: seq<byte>) returns (result: Result)
      requires data.Some? ==> Order(order, data.value.Keys)
      ensures result == if data.None? then BadFile else ByMac(p, data.value, order, mac)
    {
      if data.None? {
        return BadFile;
      }
      var r := data.value;
      ghost var fits, answer := k => KeyOf(k, mac), k => ByMacAnswer(p, r, mac, k);
      assert ByMac(p, r, order, mac) == Lookup(order, fits, answer);
      for i := 0 to |order|
        invariant Lookup(order, fits, answer) == Lookup(order[i..], fits, answer)
      {
        var k := order[i];
        assert order[i..][0] == k && order[i..][1..] == order[i + 1..];
        if KeyOf(k, mac) {
          var v := Translate(p, r[k], mac);
          return v;
        }
      }
      return NotFound;
    }

    method GetByIP(p: Parsers, order: seq<string>, ip: string) returns (result: Result)
      requires data.Some? ==> Order(order, data.value.Keys)
      ensures result == if data.None? then BadFile else ByIp(p, data.value, order, ip)
    {
      if data.None? {
        return BadFile;
      }
      var r := data.value;
      ghost var fits, answer := k => k in r && r[k].ip == ip, k => ByIpAnswer(p, r, k);
      assert ByIp(p, r, order, ip) == Lookup(order, fits, answer);
      for i := 0 to |order|
        invariant Lookup(order, fits, answer) == Lookup(order[i..], fits, answer)
      {
        var k := order[i];
        assert order[i..][0] == k && order[i..][1..] == order[i + 1..];
        if r[k].ip == ip {
          var mac := ParseMac(k);
          if mac.None? {
            return BadFile;
          }
          var v := Translate(p, r[k], mac.value);
          return v;
        }
      }
      return NotFound;
    }
  }

  // ---------------------------------------------------------------------------------------------
  // Iteration order
  // ---------------------------------------------------------------------------------------------

  /** A lookup answers for some key that fits, or finds that none does. */
  lemma {:induction false} LookupAnswers(order: seq<string>, fits: string -> bool, answer: string -> Result)
    ensures (exists k :: k in order && fits(k) && Lookup(order, fits, answer) == answer(k))
         || ((forall k | k in order :: !fits(k)) && Lookup(order, fits, answer) == NotFound)
  {
    if order != [] {
      assert order[0] in order;
      if !fits(order[0]) {
        LookupAnswers(order[1..], fits, answer);
        assert forall k | k in order[1..] :: k in order;
        assert forall k | k in order :: k == order[0] || k in order[1..];
      }
    }
  }

  /** Every set of keys has an order. */
  lemma {:induction false} SomeOrder(keys: set<string>) returns (order: seq<string>)
    ensures Order(order, keys)
    decreases |keys|
  {
    if keys == {} {
      return [];
    }
    var k :| k in keys;
    order := SomeOrder(keys - {k});
    order := FirstInOrder(order, keys, k);
  }

  lemma FirstInOrder(rest: seq<string>, keys: set<string>, k: string) returns (order: seq<string>)
    requires k in keys && Order(rest, keys - {k})
    ensures Order(order, keys) && order != [] && order[0] == k
  {
    order := [k] + rest;
    forall i, j | 0 <= i < j < |order| ensures order[i] != order[j] {
      assert order[j] == rest[j - 1] && rest[j - 1] in rest;
      if i > 0 { assert order[i] == rest[i - 1]; }
    }
    forall x ensures x in order <==> x in keys {
      assert x in order <==> x == k || x in rest;
    }
  }

  ghost predicate Agree(keys: set<string>, fits: string -> bool, answer: string -> Result) {
    forall j, k | j in keys && k in keys && fits(j) && fits(k) :: answer(j) == answer(k)
  }

  lemma AgreeingLookups(keys: set<string>, fits: string -> bool, answer: string -> Result, a: seq<string>, b: seq<string>)
    requires Agree(keys, fits, answer) && Order(a, keys) && Order(b, keys)
    ensures Lookup(a, fits, answer) == Lookup(b, fits, answer)
  {
    LookupAnswers(a, fits, answer);
    LookupAnswers(b, fits, answer);
  }

  /** A lookup gives one answer for every iteration order exactly when all keys that fit have the same. */
  lemma OrderIrrelevantExactly(keys: set<string>, fits: string -> bool, answer: string -> Result)
    ensures (forall a, b | Order(a, keys) && Order(b, keys) :: Lookup(a, fits, answer) == Lookup(b, fits, answer))
        <==> Agree(keys, fits, answer)
  {
    if Agree(keys, fits, answer) {
      forall a, b | Order(a, keys) && Order(b, keys) ensures Lookup(a, fits, answer) == Lookup(b, fits, answer) {
        AgreeingLookups(keys, fits, answer, a, b);
      }
    }
    if forall a, b | Order(a, keys) && Order(b, keys) :: Lookup(a, fits, answer) == Lookup(b, fits, answer) {
      forall j, k | j in keys && k in keys && fits(j) && fits(k) ensures answer(j) == answer(k) {
        var x := SomeOrder(keys - {j});
        var a := FirstInOrder(x, keys, j);
        var y := SomeOrder(keys - {k});
        var b := FirstInOrder(y, keys, k);
        assert Lookup(a, fits, answer) == answer(j) && Lookup(b, fits, answer) == answer(k);
      }
    }
  }

  /** No two keys are the same but for case. */
  ghost predicate UniqueKeys(t: Table) { forall j, k | j in t && k in t && Lower(j) == Lower(k) :: j == k }

  ghost predicate UniqueAddresses(t: Table) { forall j, k | j in t && k in t && t[j].ip == t[k].ip :: j == k }

  lemma SameAnswerByMac(p: Parsers, t: Table, a: seq<string>, b: seq<string>, mac: seq<byte>)
    requires UniqueKeys(t) && Order(a, t.Keys) && Order(b, t.Keys)
    ensures ByMac(p, t, a, mac) == ByMac(p, t, b, mac)
  {
    var fits, answer := k => KeyOf(k, mac), k => ByMacAnswer(p, t, mac, k);
    assert ByMac(p, t, a, mac) == Lookup(a, fits, answer) && ByMac(p, t, b, mac) == Lookup(b, fits, answer);
    AgreeingLookups(t.Keys, fits, answer, a, b);
  }

  lemma SameAnswerByIp(p: Parsers, t: Table, a: seq<string>, b: seq<string>, ip: string)
    requires UniqueAddresses(t) && Order(a, t.Keys) && Order(b, t.Keys)
    ensures ByIp(p, t, a, ip) == ByIp(p, t, b, ip)
  {
    var fits, answer := k => k in t && t[k].ip == ip, k => ByIpAnswer(p, t, k);
    assert ByIp(p, t, a, ip) == Lookup(a, fits, answer) && ByIp(p, t, b, ip) == Lookup(b, fits, answer);
    AgreeingLookups(t.Keys, fits, answer, a, b);
  }

  // ---------------------------------------------------------------------------------------------
  // The two lookups agree
  // ---------------------------------------------------------------------------------------------

  lemma LowerDigit(c: char)
    requires IsHexDigit(c)
    ensures LowerChar(c) == Digit(DigitValue(c))
  {
  }

  /** A digit pair in either case is the text of its byte but for case. */
  lemma LowerPair(k: string, i: nat)
    requires HexAt(k, i)
    ensures [LowerChar(k[i]), LowerChar(k[i + 1])] == HexByte(ByteAt(k, i))
  {
    LowerDigit(k[i]);
    LowerDigit(k[i + 1]);
    var x, y := DigitValue(k[i]), DigitValue(k[i + 1]);
    assert (16 * x + y) / 16 == x && (16 * x + y) % 16 == y;
  }

  /** Colon pairs that parse are, but for case, the printed address. */
  lemma PairsAreText(k: string, mac: seq<byte>)
    requires ParsePairs(k, ':') == Some(mac)
    ensures KeyOf(k, mac)
  {
    if k != "" {
      var s := MacText(mac, ':');
      assert |mac| == (|k| + 1) / 3 && |s| == |k|;
      forall i: nat | i < |k| ensures LowerChar(k[i]) == s[i] {
        var j := i / 3;
        assert PairAt(k, ':', j) && mac[j] == ByteAt(k, 3 * j);
        LowerPair(k, 3 * j);
        assert s[i] == MacChar(mac, ':', i);
        assert i == 3 * j + i % 3;
      }
      assert Lower(k) == s;
    }
  }

  /** A key that parses is in colon notation exactly when `GetByMac` takes it for the address it parses to. */
  lemma ColonNotation(k: string, mac: seq<byte>)
    requires ParseMac(k) == Some(mac)
    ensures k[2] == ':' <==> KeyOf(k, mac)
  {
    if k[2] == ':' {
      PairsAreText(k, mac);
    }
    if KeyOf(k, mac) {
      assert Lower(k)[2] == MacChar(mac, ':', 2);
    }
  }

  lemma KeyChar(k: string, mac: seq<byte>, i: nat)
    requires KeyOf(k, mac) && i < 3 * |mac| - 1
    ensures i < |k| && LowerChar(k[i]) == MacText(mac, ':')[i]
    ensures i % 3 == 2 ==> k[i] == ':'
    ensures i % 3 != 2 ==> IsHexDigit(k[i]) && IsHexDigit(MacText(mac, ':')[i]) && DigitValue(k[i]) == DigitValue(MacText(mac, ':')[i])
  {
    assert Lower(k)[i] == MacChar(mac, ':', i);
    if i % 3 != 2 {
      MacCharIsDigit(mac, ':', i);
      RaisedDigit(k[i]);
    }
  }

  lemma KeyPair(k: string, mac: seq<byte>, i: nat)
    requires KeyOf(k, mac) && i < |mac|
    ensures PairAt(k, ':', i) && ByteAt(k, 3 * i) == mac[i]
  {
    assert |k| == |Lower(k)|;
    PairOfText(mac, ':', i);
    KeyChar(k, mac, 3 * i);
    KeyChar(k, mac, 3 * i + 1);
    if 3 * i + 2 < |k| {
      KeyChar(k, mac, 3 * i + 2);
    }
  }

  lemma RaisedDigit(c: char)
    requires IsLowerHex(LowerChar(c))
    ensures IsHexDigit(c) && DigitValue(c) == DigitValue(LowerChar(c))
  {
  }

  /** A key that `GetByMac` takes for an address of a known length parses to that address. */
  lemma KeyParses(k: string, mac: seq<byte>)
    requires KeyOf(k, mac) && Accepted(|mac|)
    ensures ParseMac(k) == Some(mac)
  {
    assert |k| == |Lower(k)| == 3 * |mac| - 1;
    forall i: nat | i < |mac| ensures PairAt(k, ':', i) && ByteAt(k, 3 * i) == mac[i] { KeyPair(k, mac, i); }
    assert PairAt(k, ':', 0) && k[2] == ':';
    assert (|k| + 1) / 3 == |mac|;
    var r := ParsePairs(k, ':');
    assert r.Some? && |r.value| == |mac|;
    forall i: nat | i < |mac| ensures r.value[i] == mac[i] {
      assert PairAt(k, ':', i);
    }
    assert r.value == mac;
  }

  /** `GetByMac` takes a key for an address that can be parsed exactly when the key parses to it and is in
      colon notation. */
  lemma KeyIsColonForm(k: string, mac: seq<byte>)
    requires Accepted(|mac|)
    ensures KeyOf(k, mac) <==> ParseMac(k) == Some(mac) && k[2] == ':'
  {
    if KeyOf(k, mac) {
      KeyParses(k, mac);
    }
    if ParseMac(k) == Some(mac) {
      ColonNotation(k, mac);
    }
  }

  /** What `GetByMac` finds, where keys are unique up to case: the record of the key that is the address. */
  lemma FoundByMac(p: Parsers, t: Table, b: seq<string>, k: string, mac: seq<byte>)
    requires UniqueKeys(t) && Order(b, t.Keys) && k in t && KeyOf(k, mac)
    ensures ByMac(p, t, b, mac) == Translated(p, t[k], mac)
  {
    var fits, answer := k => KeyOf(k, mac), k => ByMacAnswer(p, t, mac, k);
    assert ByMac(p, t, b, mac) == Lookup(b, fits, answer);
    LookupAnswers(b, fits, answer);
  }

  lemma NotFoundByMac(p: Parsers, t: Table, b: seq<string>, mac: seq<byte>)
    requires Order(b, t.Keys) && forall j | j in t :: !KeyOf(j, mac)
    ensures ByMac(p, t, b, mac) == NotFound
  {
    var fits, answer := k => KeyOf(k, mac), k => ByMacAnswer(p, t, mac, k);
    assert ByMac(p, t, b, mac) == Lookup(b, fits, answer);
    LookupAnswers(b, fits, answer);
  }

  /** A record found by address is that of some key with the address. */
  lemma KeyFoundByIp(p: Parsers, t: Table, a: seq<string>, ip: string) returns (k: string)
    requires Order(a, t.Keys) && ByIp(p, t, a, ip).Found?
    ensures k in t && t[k].ip == ip && ByIp(p, t, a, ip) == ByIpAnswer(p, t, k)
  {
    var fits, answer := k => k in t && t[k].ip == ip, k => ByIpAnswer(p, t, k);
    assert ByIp(p, t, a, ip) == Lookup(a, fits, answer);
    LookupAnswers(a, fits, answer);
    k :| k in a && fits(k) && Lookup(a, fits, answer) == answer(k);
  }

  /** Some other key, in colon notation, stands for the address and has a record that reads the same. */
  ghost predicate SpeltTwice(p: Parsers, t: Table, k: string, mac: seq<byte>) {
    k in t && exists j :: j in t && KeyOf(j, mac) && Translated(p, t[j], mac) == Translated(p, t[k], mac)
  }

  /** Whatever the two iteration orders, in a table whose keys are unique up to case: a record found by
      address is found by its hardware address with the same data exactly when its key is in colon notation,
      or the table spells the address a second time, in colon notation and with the same data. */
  lemma LookupsAgree(p: Parsers, t: Table, a: seq<string>, b: seq<string>, ip: string) returns (k: string)
    requires UniqueKeys(t) && Order(a, t.Keys) && Order(b, t.Keys)
    requires ByIp(p, t, a, ip).Found?
    ensures k in t && t[k].ip == ip && ParseMac(k) == Some(ByIp(p, t, a, ip).lease.mac)
    ensures var found := ByIp(p, t, a, ip);
            && (k[2] == ':' ==> ByMac(p, t, b, found.lease.mac) == found)
            && (ByMac(p, t, b, found.lease.mac) == found <==> k[2] == ':' || SpeltTwice(p, t, k, found.lease.mac))
            && (ByMac(p, t, b, found.lease.mac) == NotFound <==> forall j | j in t :: !KeyOf(j, found.lease.mac))
  {
    k := KeyFoundByIp(p, t, a, ip);
    var mac := ParseMac(k).value;
    KeyIsColonForm(k, mac);
    if j :| j in t && KeyOf(j, mac) {
      FoundByMac(p, t, b, j, mac);
      TranslatedIsNoMiss(p, t[j], mac);
      if k[2] == ':' {
        assert Lower(j) == Lower(k);
      }
      if SpeltTwice(p, t, k, mac) {
        SpeltTwiceFound(p, t, b, k, mac);
      }
    } else {
      NotFoundByMac(p, t, b, mac);
    }
  }

  lemma SpeltTwiceFound(p: Parsers, t: Table, b: seq<string>, k: string, mac: seq<byte>)
    requires UniqueKeys(t) && Order(b, t.Keys) && SpeltTwice(p, t, k, mac)
    ensures ByMac(p, t, b, mac) == Translated(p, t[k], mac)
  {
    var j :| j in t && KeyOf(j, mac) && Translated(p, t[j], mac) == Translated(p, t[k], mac);
    FoundByMac(p, t, b, j, mac);
  }

  lemma TranslatedIsNoMiss(p: Parsers, r: Raw, mac: seq<byte>)
    ensures Translated(p, r, mac) != NotFound
  {
  }

  /** In a table all in colon notation with keys unique up to case, the two lookups always agree. */
  lemma ColonTablesAgree(p: Parsers, t: Table, a: seq<string>, b: seq<string>, ip: string)
    requires UniqueKeys(t) && Order(a, t.Keys) && Order(b, t.Keys)
    requires forall k | k in t :: |k| > 2 && k[2] == ':'
    ensures ByIp(p, t, a, ip).Found? ==> ByMac(p, t, b, ByIp(p, t, a, ip).lease.mac) == ByIp(p, t, a, ip)
  {
    if ByIp(p, t, a, ip).Found? {
      var k := LookupsAgree(p, t, a, b, ip);
    }
  }

  /** A key with dashes is served by address and unknown by hardware address. */
  lemma DashNotationIsLost(p: Parsers, r: Raw, mac: seq<byte>)
    requires Accepted(|mac|) && Translated(p, r, mac).Found?
    ensures var k := MacText(mac, '-');
            ByIp(p, map[k := r], [k], r.ip) == Translated(p, r, mac) && ByMac(p, map[k := r], [k], mac) == NotFound
  {
    var k := MacText(mac, '-');
    var t := map[k := r];
    MacRoundTrip(mac, '-');
    assert k[2] == MacChar(mac, '-', 2);
    ColonNotation(k, mac);
    NotFoundByMac(p, t, [k], mac);
  }

  // ---------------------------------------------------------------------------------------------
  // What an answer says
  // ---------------------------------------------------------------------------------------------

  /** `v` are the servers of the longest prefix of `l` in which every one parses. */
  ghost predicate LongestPrefix(parse: string -> Option<Addr>, l: seq<string>, v: seq<Addr>) {
    && |v| <= |l|
    && (forall i :: 0 <= i < |v| ==> parse(l[i]) == Some(v[i]))
    && (|v| < |l| ==> parse(l[|v|]) == None)
  }

  /** The lease, field by field. */
  ghost predicate LeaseSays(p: Parsers, r: Raw, mac: seq<byte>, d: Lease) {
    && d.mac == mac
    && Some(d.ip) == p.addr(r.ip)
    && Some(d.mask) == p.mask(r.mask)
    && d.gateway == p.addr(r.gateway)
    && d.broadcast == p.addr(r.broadcast)
    && LongestPrefix(p.ip, r.nameServers, d.nameServers)
    && LongestPrefix(p.ip, r.ntpServers, d.ntpServers)
    && d.hostname == r.hostname && d.domainName == r.domainName && d.vlan == r.vlan && d.arch == r.arch
    && d.searchDomains == r.searchDomains && d.disabled == r.disabled
    && (0 <= r.leaseTime <= 4294967295 ==> d.leaseTime == r.leaseTime)
    && (r.leaseTime < 0 || r.leaseTime > 4294967295 ==> d.leaseTime == 7 * 24 * 60 * 60)
  }

  ghost predicate NetbootSays(p: Parsers, r: Raw, n: Netboot) {
    && n.allow == r.allowPxe
    && (r.scriptUrl == "" ==> n.scriptUrl == None)
    && (r.scriptUrl != "" ==> n.scriptUrl == p.url(r.scriptUrl) && n.scriptUrl.Some?)
    && n.script == r.script && n.console == r.console && n.facility == r.facility
  }

  /** The answer a record gives: itself in the server's terms if its address, its mask and its script URL, if
      any, parse; otherwise the first of these that does not. */
  ghost predicate Says(p: Parsers, r: Raw, mac: seq<byte>, a: Result) {
    && (a.Found? <==> p.addr(r.ip).Some? && p.mask(r.mask).Some? && (r.scriptUrl == "" || p.url(r.scriptUrl).Some?))
    && (a.BadAddress? <==> p.addr(r.ip).None?)
    && (a.BadMask? <==> p.addr(r.ip).Some? && p.mask(r.mask).None?)
    && (a.BadUrl? <==> p.addr(r.ip).Some? && p.mask(r.mask).Some? && r.scriptUrl != "" && p.url(r.scriptUrl).None?)
    && (a.Found? ==> LeaseSays(p, r, mac, a.lease) && NetbootSays(p, r, a.netboot))
  }

  lemma TranslatedSays(p: Parsers, r: Raw, mac: seq<byte>)
    ensures Says(p, r, mac, Translated(p, r, mac))
  {
    PrefixIsLongest(p.ip, r.nameServers);
    PrefixIsLongest(p.ip, r.ntpServers);
  }

  /** What a record says, it says once: nothing about the answer is left open. */
  lemma SaysOneThing(p: Parsers, r: Raw, mac: seq<byte>, a: Result, b: Result)
    requires Says(p, r, mac, a) && Says(p, r, mac, b)
    ensures a == b
  {
    if a.Found? {
      SamePrefix(p.ip, r.nameServers, a.lease.nameServers, b.lease.nameServers);
      SamePrefix(p.ip, r.ntpServers, a.lease.ntpServers, b.lease.ntpServers);
    }
  }

  lemma SamePrefix(parse: string -> Option<Addr>, l: seq<string>, v: seq<Addr>, w: seq<Addr>)
    requires LongestPrefix(parse, l, v) && LongestPrefix(parse, l, w)
    ensures v == w
  {
    assert |v| == |w|;
    forall i | 0 <= i < |v| ensures v[i] == w[i] { assert parse(l[i]) == Some(v[i]); }
  }

  /** `GetByMac` answers what the record of some key that is the address says, and misses if there is none. */
  lemma ByMacSays(p: Parsers, t: Table, order: seq<string>, mac: seq<byte>)
    requires Order(order, t.Keys)
    ensures (exists k :: k in t && KeyOf(k, mac) && Says(p, t[k], mac, ByMac(p, t, order, mac)))
         || ((forall k | k in t :: !KeyOf(k, mac)) && ByMac(p, t, order, mac) == NotFound)
  {
    var fits, answer := k => KeyOf(k, mac), k => ByMacAnswer(p, t, mac, k);
    assert ByMac(p, t, order, mac) == Lookup(order, fits, answer);
    LookupAnswers(order, fits, answer);
    if k :| k in order && fits(k) && Lookup(order, fits, answer) == answer(k) {
      TranslatedSays(p, t[k], mac);
    }
  }

  /** `GetByIP` answers what some record with the address says, for the hardware address its key stands for. */
  lemma ByIpSays(p: Parsers, t: Table, order: seq<string>, ip: string)
    requires Order(order, t.Keys)
    ensures var a := ByIp(p, t, order, ip);
            || (exists k :: k in t && t[k].ip == ip &&
                  (if ParseMac(k).None? then a == BadFile else Says(p, t[k], ParseMac(k).value, a)))
            || ((forall k | k in t :: t[k].ip != ip) && a == NotFound)
  {
    var fits, answer := k => k in t && t[k].ip == ip, k => ByIpAnswer(p, t, k);
    assert ByIp(p, t, order, ip) == Lookup(order, fits, answer);
    LookupAnswers(order, fits, answer);
    if k :| k in order && fits(k) && Lookup(order, fits, answer) == answer(k) {
      if ParseMac(k).Some? {
        TranslatedSays(p, t[k], ParseMac(k).value);
      }
    }
  }
}
