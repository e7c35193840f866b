/** From the first DHCP packet to the script: the DHCP side and the HTTP side together. */
module ScriptHandOff {
  import opened Seqs
  import opened Dhcp
  import opened Netboot
  import opened Mac
  import S = ScriptUrl

  /** The script every client is configured to get, unless its record names one. */
  function Configured(s: Server): seq<byte> -> Option<Url> {
    match s case Reserving(h) => h.script case Proxying(h) => h.script
  }

  /** The record of the client names a script of its own. */
  predicate HasOwnScript(s: Server, m: seq<byte>) {
    s.Reserving? && s.h.backend(m).Found? && s.h.backend(m).netboot.script.Some?
  }

  /** The server puts each client's hardware address into the configured URL. */
  ghost predicate Injects(s: Server, base: Url) {
    forall m :: Configured(s)(m) == Some(base.(path := S.Injected(base.path, m)))
  }

  /** A client that boots as documented ends, after two answered exchanges and in any interleaving with
      other clients, in a script at the configured host whose path the HTTP side looks up by exactly that
      client's hardware address: 6, 8 or 20 bytes, in either mode. */
  lemma ClientGetsItsOwnScript(s: Server, base: Url, w: Clients, events: seq<Event>, m: seq<byte>)
    requires Injects(s, base) && S.Base(base.path) == S.AUTO && HttpServer(s).Some?
    requires m in w && w[m].script == None && w[m].loads == 0 && AllServed(s, events, m) && !HasOwnScript(s, m)
    requires LoadsIn(events, m) >= 2
    ensures m in Run(s, w, events)
    ensures var script := Run(s, w, events)[m].script;
            && script.Some? && script.value.scheme == base.scheme && script.value.host == base.host
            && (S.RouteOf(script.value.path) == S.ByMac(m) <==> Accepted(|m|))
  {
    assert ScriptFor(s, m) == Configured(s)(m);
    TwoExchanges(s, w, events, m);
    S.ClientIsRecognised(base.path, m);
  }

  /** Two clients in the same run never end in each other's script. */
  lemma ScriptsAreNotShared(s: Server, base: Url, w: Clients, events: seq<Event>, m: seq<byte>, n: seq<byte>)
    requires Injects(s, base) && S.Base(base.path) == S.AUTO && HttpServer(s).Some?
    requires forall c | c == m || c == n ::
               && c in w && w[c].script == None && w[c].loads == 0 && AllServed(s, events, c) && !HasOwnScript(s, c)
               && LoadsIn(events, c) >= 2 && Accepted(|c|)
    ensures m in Run(s, w, events) && n in Run(s, w, events)
    ensures Run(s, w, events)[m].script == Run(s, w, events)[n].script <==> m == n
  {
    ClientGetsItsOwnScript(s, base, w, events, m);
    ClientGetsItsOwnScript(s, base, w, events, n);
  }
}
