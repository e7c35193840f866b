/** The client address behind trusted proxies: the X-Forwarded-For header read from the right. */
module Xff {
  import opened Seqs
  import opened Text

  // ---------------------------------------------------------------------------------------------
  // Entries
  // ---------------------------------------------------------------------------------------------

  /** `valid` stands for `net.ParseIP` not failing, `allowed` for the trusted addresses, and `trim` for
      `strings.TrimSpace`. */
  datatype Rules = Rules(valid: string -> bool, allowed: string -> bool, trim: string -> string)

  function Entries(r: Rules, ipList: string): (e: seq<string>)
    ensures |e| == |Split(ipList, ',')|
  {
    var ips := Split(ipList, ',');
    seq(|ips|, i requires 0 <= i < |ips| => r.trim(ips[i]))
  }

  predicate Passes(r: Rules, ip: string) { r.valid(ip) && r.allowed(ip) }

  /** The walk from the right, having come past `lastIP`. */
  function Walk(r: Rules, e: seq<string>, lastIP: string): string {
    if e == [] then lastIP
    else
      var ip := e[|e| - 1];
      if !r.valid(ip) then lastIP
      else if !r.allowed(ip) then ip
      else Walk(r, e[..|e| - 1], ip)
  }

  function Resolve(r: Rules, e: seq<string>): string { Walk(r, e, "") }

  /** The shortcut for a single entry gives what the walk gives. */
  lemma SingleEntry(r: Rules, ip: string)
    ensures Resolve(r, [ip]) == if r.valid(ip) then ip else ""
  {
    var e := [ip];
    assert e[..|e| - 1] == [];
    assert Walk(r, e[..|e| - 1], ip) == ip;
  }

  /** `parse`, with its shortcut for a single entry. */
  method Parse(r: Rules, ipList: string) returns (addr: string)
    ensures addr == Resolve(r, Entries(r, ipList))
  {
    var ips := Split(ipList, ',');
    ghost var e := Entries(r, ipList);
    if |ips| == 1 {
      var ip := r.trim(ips[0]);
      assert e == [ip];
      SingleEntry(r, ip);
      if r.valid(ip) {
        return ip;
      }
      return "";
    }
    var lastIP := "";
    var i := |ips| - 1;
    assert e[..i + 1] == e;
    while i >= 0
      invariant -1 <= i < |ips|
      invariant Walk(r, e[..i + 1], lastIP) == Resolve(r, e)
    {
      var ip := r.trim(ips[i]);
      assert e[..i + 1][..i] == e[..i] && e[..i + 1][i] == ip;
      if !r.valid(ip) {
        return lastIP;
      }
      lastIP := ip;
      if !r.allowed(ip) {
        return lastIP;
      }
      i := i - 1;
    }
    return lastIP;
  }

  // ---------------------------------------------------------------------------------------------
  // What is resolved
  // ---------------------------------------------------------------------------------------------

  /** Entry `k` is the leftmost one reached from the right through valid and allowed entries: it is
      valid, everything to its right passes, and it is first, not allowed, or next to an invalid one. */
  ghost predicate Leftmost(r: Rules, e: seq<string>, k: int) {
    && 0 <= k < |e|
    && r.valid(e[k])
    && (forall j :: k < j < |e| ==> Passes(r, e[j]))
    && (k == 0 || !r.allowed(e[k]) || !r.valid(e[k - 1]))
  }

  lemma {:induction false} WalkFindsLeftmost(r: Rules, e: seq<string>, lastIP: string) returns (k: int)
    ensures if e == [] || !r.valid(e[|e| - 1]) then k == |e| && Walk(r, e, lastIP) == lastIP
            else Leftmost(r, e, k) && Walk(r, e, lastIP) == e[k]
  {
    if e == [] || !r.valid(e[|e| - 1]) {
      return |e|;
    }
    var last := |e| - 1;
    if !r.allowed(e[last]) {
      return last;
    }
    k := WalkFindsLeftmost(r, e[..last], e[last]);
    if k < last {
      forall j | k < j < |e| ensures Passes(r, e[j]) {
        if j < last { assert e[j] == e[..last][j]; }
      }
    }
  }

  lemma LeftmostIsUnique(r: Rules, e: seq<string>, j: int, k: int)
    requires Leftmost(r, e, j) && Leftmost(r, e, k)
    ensures j == k
  {
  }

  /** The resolved address, exactly: none if the last entry is invalid, otherwise the leftmost entry
      reached through valid and allowed ones. */
  lemma ResolvesLeftmost(r: Rules, e: seq<string>, k: int)
    requires e != []
    ensures !r.valid(e[|e| - 1]) ==> Resolve(r, e) == ""
    ensures Leftmost(r, e, k) ==> Resolve(r, e) == e[k]
    ensures r.valid(e[|e| - 1]) ==> exists i :: Leftmost(r, e, i)
  {
    var i := WalkFindsLeftmost(r, e, "");
    if Leftmost(r, e, k) {
      assert k < |e| - 1 ==> Passes(r, e[|e| - 1]);
      LeftmostIsUnique(r, e, i, k);
    }
  }

  /** What a client puts in front cannot move the answer past an entry that does not pass. */
  lemma {:induction false} FrontIsIrrelevant(r: Rules, front: seq<string>, tail: seq<string>, lastIP: string, k: nat)
    requires k < |tail| && !Passes(r, tail[k])
    ensures Walk(r, front + tail, lastIP) == Walk(r, tail, lastIP)
    decreases |tail|
  {
    var e, last := front + tail, |tail| - 1;
    assert e[|e| - 1] == tail[last];
    if Passes(r, tail[last]) {
      assert e[..|e| - 1] == front + tail[..last];
      FrontIsIrrelevant(r, front, tail[..last], tail[last], k);
    }
  }

  // ---------------------------------------------------------------------------------------------
  // The request's address
  // ---------------------------------------------------------------------------------------------

  function Index(s: string, c: char): (i: int)
    ensures -1 <= i < |s|
    ensures i == -1 <==> c !in s
    ensures i >= 0 ==> s[i] == c && forall j :: 0 <= j < i ==> s[j] != c
  {
    if s == "" then -1
    else if s[0] == c then 0
    else
      var i := Index(s[1..], c);
      assert s == [s[0]] + s[1..];
      if i == -1 then -1 else assert s[i + 1] == s[1..][i]; i + 1
  }

  function LastIndex(s: string, c: char): (i: int)
    ensures -1 <= i < |s|
    ensures i == -1 <==> c !in s
    ensures i >= 0 ==> s[i] == c && forall j :: i < j < |s| ==> s[j] != c
  {
    if s == "" then -1
    else if s[|s| - 1] == c then |s| - 1
    else
      var i := LastIndex(s[..|s| - 1], c);
      assert s == s[..|s| - 1] + [s[|s| - 1]];
      if i == -1 then -1 else i
  }

  datatype HostPort = HostPort(host: string, port: string)

  /** `net.SplitHostPort`; every error is the same to the caller. */
  function SplitHostPort(s: string): Option<HostPort> {
    var i := LastIndex(s, ':');
    if i < 0 then None
    else if s[0] == '[' then
      var end := Index(s, ']');
      if end < 0 || end + 1 != i then None
      else if '[' in s[1..] || ']' in s[end + 1..] then None
      else Some(HostPort(s[1..end], s[i + 1..]))
    else if ':' in s[..i] || '[' in s || ']' in s then None
    else Some(HostPort(s[..i], s[i + 1..]))
  }

  /** `net.JoinHostPort`. */
  function JoinHostPort(host: string, port: string): string {
    if ':' in host then "[" + host + "]:" + port else host + ":" + port
  }

  ghost predicate NoBrackets(s: string) { '[' !in s && ']' !in s }

  lemma LastIndexIs(s: string, c: char, n: nat)
    requires n < |s| && s[n] == c && forall j :: n < j < |s| ==> s[j] != c
    ensures LastIndex(s, c) == n
  {
  }

  lemma IndexIs(s: string, c: char, n: nat)
    requires n < |s| && s[n] == c && forall j :: 0 <= j < n ==> s[j] != c
    ensures Index(s, c) == n
  {
  }

  /** Character by character: a part in front, then one character, then the rest. */
  lemma Layout(a: string, c: char, b: string, s: string)
    requires s == a + [c] + b
    ensures |s| == |a| + 1 + |b| && s[|a|] == c && s[..|a|] == a && s[|a| + 1..] == b
    ensures forall j :: 0 <= j < |a| ==> s[j] == a[j]
    ensures forall j :: |a| < j < |s| ==> s[j] == b[j - |a| - 1]
  {
  }

  /** Joined without brackets: the last colon is the one before the port. */
  lemma PlainRoundTrip(host: string, port: string, s: string)
    requires NoBrackets(host) && NoBrackets(port) && ':' !in port && ':' !in host && s == host + ":" + port
    ensures SplitHostPort(s) == Some(HostPort(host, port))
  {
    Layout(host, ':', port, s);
    LastIndexIs(s, ':', |host|);
  }

  lemma BracketRoundTrip(host: string, port: string, s: string)
    requires NoBrackets(host) && NoBrackets(port) && ':' !in port && s == "[" + host + "]:" + port
    ensures SplitHostPort(s) == Some(HostPort(host, port))
  {
    var open, n := "[" + host, |host| + 1;
    var tail, front := ":" + port, open + "]";
    assert s == open + "]" + tail by { Regroup(host, port); }
    assert s == front + ":" + port by { Regroup(host, port); }
    BracketEnds(s, open, tail);
    PortStart(s, front, port);
    BracketHost(s, host);
  }

  lemma Regroup(host: string, port: string)
    ensures "[" + host + "]:" + port == ("[" + host) + "]" + (":" + port)
    ensures "[" + host + "]:" + port == ("[" + host + "]") + ":" + port
  {
  }

  /** The closing bracket. */
  lemma BracketEnds(s: string, open: string, tail: string)
    requires s == open + "]" + tail && ']' !in open && ']' !in tail
    ensures Index(s, ']') == |open| && s[|open| + 1..] == tail
  {
    Layout(open, ']', tail, s);
    IndexIs(s, ']', |open|);
  }

  /** The colon before the port. */
  lemma PortStart(s: string, front: string, port: string)
    requires s == front + ":" + port && ':' !in port
    ensures LastIndex(s, ':') == |front| && s[|front| + 1..] == port
  {
    Layout(front, ':', port, s);
    LastIndexIs(s, ':', |front|);
  }

  lemma BracketHost(s: string, host: string)
    requires "[" + host <= s
    ensures s[0] == '[' && s[1..|host| + 1] == host
  {
    var open := "[" + host;
    assert s[..|open|] == open;
    assert s[1..|open|] == open[1..];
  }

  /** The two parts of a joined address are the parts it was joined from. */
  lemma HostPortRoundTrip(host: string, port: string)
    requires NoBrackets(host) && NoBrackets(port) && ':' !in port
    ensures SplitHostPort(JoinHostPort(host, port)) == Some(HostPort(host, port))
  {
    if ':' in host {
      BracketRoundTrip(host, port, JoinHostPort(host, port));
    } else {
      PlainRoundTrip(host, port, JoinHostPort(host, port));
    }
  }

  /** A split address has no brackets left in it and no colon in its port. */
  lemma SplitParts(s: string)
    requires SplitHostPort(s).Some?
    ensures var hp := SplitHostPort(s).value; NoBrackets(hp.host) && NoBrackets(hp.port) && ':' !in hp.port
  {
    var i := LastIndex(s, ':');
    if s[0] == '[' {
      var end := Index(s, ']');
      forall j | 1 <= j < |s| ensures s[j] != '[' { assert s[1..][j - 1] == s[j]; }
      forall j | end + 1 <= j < |s| ensures s[j] != ']' { assert s[end + 1..][j - end - 1] == s[j]; }
    }
  }

  /** `getRemoteAddrIfAllowed`. */
  function RemoteAddr(r: Rules, header: string, peer: string): string {
    if header == "" then peer
    else match SplitHostPort(peer)
      case None => peer
      case Some(hp) =>
        if hp.host == "" || !r.allowed(hp.host) then peer
        else
          var xip := Resolve(r, Entries(r, header));
          if xip == "" then peer else JoinHostPort(xip, hp.port)
  }

  /** The address changes only for an allowed socket peer, to a valid entry of the header, and keeps the
      peer's port; no text that parses as an address holds a bracket. */
  lemma OnlyTrustedPeersForward(r: Rules, header: string, peer: string)
    requires forall ip | r.valid(ip) :: NoBrackets(ip)
    requires RemoteAddr(r, header, peer) != peer
    ensures SplitHostPort(peer).Some? && r.allowed(SplitHostPort(peer).value.host)
    ensures var now := SplitHostPort(RemoteAddr(r, header, peer));
            && now.Some?
            && now.value.port == SplitHostPort(peer).value.port
            && now.value.host == Resolve(r, Entries(r, header))
            && now.value.host in Entries(r, header) && r.valid(now.value.host)
  {
    var hp, e := SplitHostPort(peer).value, Entries(r, header);
    var xip := Resolve(r, e);
    var k := WalkFindsLeftmost(r, e, "");
    SplitParts(peer);
    HostPortRoundTrip(xip, hp.port);
  }

  /** The socket peer may forward, and the header resolves to something. */
  predicate Forwards(r: Rules, header: string, peer: string) {
    && header != "" && SplitHostPort(peer).Some? && SplitHostPort(peer).value.host != ""
    && r.allowed(SplitHostPort(peer).value.host) && Resolve(r, Entries(r, header)) != ""
  }

  /** Exactly then the request gets the resolved address, with the peer's port; otherwise it keeps its own. */
  lemma ForwardedExactly(r: Rules, header: string, peer: string)
    requires forall ip | r.valid(ip) :: NoBrackets(ip)
    ensures Forwards(r, header, peer) ==>
              SplitHostPort(RemoteAddr(r, header, peer)) == Some(HostPort(Resolve(r, Entries(r, header)), SplitHostPort(peer).value.port))
    ensures !Forwards(r, header, peer) ==> RemoteAddr(r, header, peer) == peer
  {
    if Forwards(r, header, peer) {
      var hp, e := SplitHostPort(peer).value, Entries(r, header);
      var k := WalkFindsLeftmost(r, e, "");
      SplitParts(peer);
      HostPortRoundTrip(Resolve(r, e), hp.port);
    }
  }

  /** The entries of a list that was joined by commas are its trimmed parts, in order. */
  lemma EntriesOfList(r: Rules, parts: seq<string>)
    requires parts != [] && AllFree(parts, ',')
    ensures |Entries(r, Join(parts, ','))| == |parts|
    ensures forall i :: 0 <= i < |parts| ==> Entries(r, Join(parts, ','))[i] == r.trim(parts[i])
  {
    SplitOfJoin(parts, ',');
  }

  // ---------------------------------------------------------------------------------------------
  // Trusted addresses
  // ---------------------------------------------------------------------------------------------

  /** `ipInMasks`. */
  method IpInMasks<Ip, Mask>(ip: Ip, masks: seq<Mask>, contains: (Mask, Ip) -> bool) returns (found: bool)
    ensures found <==> exists i :: 0 <= i < |masks| && contains(masks[i], ip)
  {
    for i := 0 to |masks|
      invariant forall j :: 0 <= j < i ==> !contains(masks[j], ip)
    {
      if contains(masks[i], ip) {
        return true;
      }
    }
    return false;
  }

  /** `allowed`: everything when no subnet is configured, otherwise the addresses that parse and lie in one. */
  method Allowed<Ip, Mask>(allowAll: bool, masks: seq<Mask>, parse: string -> Option<Ip>, contains: (Mask, Ip) -> bool, sip: string)
    returns (ok: bool)
    ensures ok <==> allowAll || (parse(sip).Some? && exists i :: 0 <= i < |masks| && contains(masks[i], parse(sip).value))
  {
    if allowAll {
      return true;
    }
    var ip := parse(sip);
    if ip.None? {
      return false;
    }
    ok := IpInMasks(ip.value, masks, contains);
  }
}
