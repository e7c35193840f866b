/** Hop-by-hop headers: what the reverse proxy strips from a request, and what it puts back. */
module Headers {
  import opened Text

  type Header = map<string, seq<string>>

  // ---------------------------------------------------------------------------------------------
  // Names
  // ---------------------------------------------------------------------------------------------

  predicate IsToken(c: char) {
    'a' <= c <= 'z' || 'A' <= c <= 'Z' || '0' <= c <= '9' || c == '-' || IsSign(c)
  }

  predicate IsSign(c: char) {
    c == '!' || '#' <= c <= '\'' || c == '*' || c == '+' || c == '.' || '^' <= c <= '`' || c == '|' || c == '~'
  }

  function Upper(c: char): char { if 'a' <= c <= 'z' then c - 32 as char else c }
  function Lower(c: char): char { if 'A' <= c <= 'Z' then c + 32 as char else c }

  /** The canonical form of a header name; a name with any other character stays as it is. */
  function Canon(s: string): string {
    if forall i :: 0 <= i < |s| ==> IsToken(s[i])
    then seq(|s|, i requires 0 <= i < |s| => if i == 0 || s[i - 1] == '-' then Upper(s[i]) else Lower(s[i]))
    else s
  }

  /** How the HTTP library treats names and values: the canonical form of a name, a trimmed list element,
      and whether the values of a header hold a token. */
  datatype Library = Library(
    canon: string -> string,
    trim: string -> string,
    hasToken: (seq<string>, string) -> bool)

  const HOP_HEADERS: seq<string> :=
    ["Connection", "Proxy-Connection", "Keep-Alive", "Proxy-Authenticate", "Proxy-Authorization", "Te", "Trailer",
     "Transfer-Encoding", "Upgrade"]

  ghost predicate AllCanonical(canon: string -> string, names: seq<string>) {
    forall i :: 0 <= i < |names| ==> canon(names[i]) == names[i]
  }

  lemma CanonConnection() ensures Canon("Connection") == "Connection" {}
  lemma CanonProxyConnection() ensures Canon("Proxy-Connection") == "Proxy-Connection" {}
  lemma CanonKeepAlive() ensures Canon("Keep-Alive") == "Keep-Alive" {}
  lemma CanonProxyAuthenticate() ensures Canon("Proxy-Authenticate") == "Proxy-Authenticate" {}
  lemma CanonProxyAuthorization() ensures Canon("Proxy-Authorization") == "Proxy-Authorization" {}
  lemma CanonTe() ensures Canon("Te") == "Te" {}
  lemma CanonTrailer() ensures Canon("Trailer") == "Trailer" {}
  lemma CanonTransferEncoding() ensures Canon("Transfer-Encoding") == "Transfer-Encoding" {}
  lemma CanonUpgrade() ensures Canon("Upgrade") == "Upgrade" {}

  /** The fixed names are written in canonical form. */
  lemma HopHeadersCanonical()
    ensures AllCanonical(Canon, HOP_HEADERS)
  {
    CanonConnection();
    CanonProxyConnection();
    CanonKeepAlive();
    CanonProxyAuthenticate();
    CanonProxyAuthorization();
    CanonTe();
    CanonTrailer();
    CanonTransferEncoding();
    CanonUpgrade();
    NineCanonical(Canon);
  }

  lemma NineCanonical(canon: string -> string)
    requires canon("Connection") == "Connection" && canon("Proxy-Connection") == "Proxy-Connection"
    requires canon("Keep-Alive") == "Keep-Alive" && canon("Proxy-Authenticate") == "Proxy-Authenticate"
    requires canon("Proxy-Authorization") == "Proxy-Authorization" && canon("Te") == "Te" && canon("Trailer") == "Trailer"
    requires canon("Transfer-Encoding") == "Transfer-Encoding" && canon("Upgrade") == "Upgrade"
    ensures AllCanonical(canon, HOP_HEADERS)
  {
  }

  // ---------------------------------------------------------------------------------------------
  // What is stripped
  // ---------------------------------------------------------------------------------------------

  function ValuesOf(h: Header, name: string): seq<string> { if name in h then h[name] else [] }

  /** A name that some value lists between commas, in canonical form. */
  ghost predicate Lists(l: Library, values: seq<string>, name: string) {
    exists v, sf :: v in values && sf in Split(v, ',') && l.trim(sf) != "" && name == l.canon(l.trim(sf))
  }

  /** The names that do not outlive a hop: the fixed ones, and those any Connection value lists. */
  ghost predicate HopByHop(l: Library, h: Header, name: string) { name in HOP_HEADERS || Lists(l, ValuesOf(h, "Connection"), name) }

  /** Everything but the hop-by-hop headers, values unchanged. */
  ghost function Strip(l: Library, h: Header): Header { map name | name in h && !HopByHop(l, h, name) :: h[name] }

  /** Without a Connection header only the fixed names go. */
  lemma StripIsIdempotent(l: Library, h: Header)
    ensures Strip(l, Strip(l, h)) == Strip(l, h)
  {
    var s := Strip(l, h);
    assert HOP_HEADERS[0] == "Connection";
    assert "Connection" !in s;
    assert forall name | name in s :: name !in HOP_HEADERS;
  }

  ghost predicate ListsPart(l: Library, parts: seq<string>, name: string) {
    exists j :: 0 <= j < |parts| && l.trim(parts[j]) != "" && name == l.canon(l.trim(parts[j]))
  }

  lemma ListsSnoc(l: Library, values: seq<string>, v: string, name: string)
    ensures Lists(l, values + [v], name) <==> Lists(l, values, name) || ListsPart(l, Split(v, ','), name)
  {
    var parts := Split(v, ',');
    assert forall x :: x in values + [v] <==> x in values || x == v;
    if ListsPart(l, parts, name) {
      var j :| 0 <= j < |parts| && l.trim(parts[j]) != "" && name == l.canon(l.trim(parts[j]));
      assert v in values + [v] && parts[j] in Split(v, ',');
    }
    if x, sf :| x in values + [v] && sf in Split(x, ',') && l.trim(sf) != "" && name == l.canon(l.trim(sf)) {
      if x !in values {
        var j :| 0 <= j < |parts| && parts[j] == sf;
        assert ListsPart(l, parts, name);
      }
    }
  }

  lemma ListsPartSnoc(l: Library, parts: seq<string>, sf: string, name: string)
    ensures ListsPart(l, parts + [sf], name) <==> ListsPart(l, parts, name) || (l.trim(sf) != "" && name == l.canon(l.trim(sf)))
  {
    var all := parts + [sf];
    assert all[|parts|] == sf;
    if j :| 0 <= j < |parts| && l.trim(parts[j]) != "" && name == l.canon(l.trim(parts[j])) {
      assert all[j] == parts[j];
    }
  }

  // ---------------------------------------------------------------------------------------------
  // The header map, changed in place
  // ---------------------------------------------------------------------------------------------

  /** `now` is `was` without the names in `gone`. */
  ghost predicate Without(was: Header, now: Header, gone: string -> bool) {
    forall name :: (name in now <==> name in was && !gone(name)) && (name in now ==> now[name] == was[name])
  }

  class Headers {
    var h: Header

    constructor (h: Header)
      ensures this.h == h
    {
      this.h := h;
    }

    method Del(l: Library, name: string)
      modifies this
      ensures h == old(h) - {l.canon(name)}
    {
      h := h - {l.canon(name)};
    }

    method Set(l: Library, name: string, value: string)
      modifies this
      ensures h == old(h)[l.canon(name) := [value]]
    {
      h := h[l.canon(name) := [value]];
    }

    /** The names of one Connection value. */
    method DelListed(l: Library, f: string)
      modifies this
      ensures Without(old(h), h, name => ListsPart(l, Split(f, ','), name))
    {
      var parts := Split(f, ',');
      for j := 0 to |parts|
        invariant Without(old(h), h, name => ListsPart(l, parts[..j], name))
      {
        var sf := l.trim(parts[j]);
        if sf != "" {
          Del(l, sf);
        }
        assert parts[..j + 1] == parts[..j] + [parts[j]];
        forall name ensures ListsPart(l, parts[..j + 1], name) <==> ListsPart(l, parts[..j], name) || (sf != "" && name == l.canon(sf)) {
          ListsPartSnoc(l, parts[..j], parts[j], name);
        }
      }
      assert parts[..|parts|] == parts;
    }

    /** The names of every Connection value. */
    method DelAllListed(l: Library, values: seq<string>)
      modifies this
      ensures Without(old(h), h, name => Lists(l, values, name))
    {
      for i := 0 to |values|
        invariant Without(old(h), h, name => Lists(l, values[..i], name))
      {
        DelListed(l, values[i]);
        assert values[..i + 1] == values[..i] + [values[i]];
        forall name ensures Lists(l, values[..i + 1], name) <==> Lists(l, values[..i], name) || ListsPart(l, Split(values[i], ','), name) {
          ListsSnoc(l, values[..i], values[i], name);
        }
      }
      assert values[..|values|] == values;
    }

    method DelNames(l: Library, names: seq<string>)
      requires AllCanonical(l.canon, names)
      modifies this
      ensures Without(old(h), h, name => name in names)
    {
      for i := 0 to |names|
        invariant Without(old(h), h, name => name in names[..i])
      {
        Del(l, names[i]);
        assert names[..i + 1] == names[..i] + [names[i]];
      }
      assert names[..|names|] == names;
    }

    /** `removeHopByHopHeaders`. */
    method RemoveHopByHop(l: Library)
      requires AllCanonical(l.canon, HOP_HEADERS)
      modifies this
      ensures h == Strip(l, old(h))
    {
      DelAllListed(l, ValuesOf(h, "Connection"));
      DelNames(l, HOP_HEADERS);
    }
  }

  // ---------------------------------------------------------------------------------------------
  // The outbound request
  // ---------------------------------------------------------------------------------------------

  predicate IsPrint(s: string) { forall i :: 0 <= i < |s| ==> ' ' <= s[i] <= '~' }

  /** `upgradeType`. */
  function UpgradeType(l: Library, h: Header): string {
    if l.hasToken(ValuesOf(h, "Connection"), "Upgrade") && |ValuesOf(h, "Upgrade")| > 0 then ValuesOf(h, "Upgrade")[0] else ""
  }

  ghost function WithTrailers(h: Header, trailers: bool): Header { if trailers then h["Te" := ["trailers"]] else h }

  ghost function WithUpgrade(h: Header, upgrade: string): Header {
    if upgrade != "" then h["Connection" := ["Upgrade"]]["Upgrade" := [upgrade]] else h
  }

  /** The header part of `ServeHTTP` up to the rewrite hook: `inbound` is the request as received. */
  method PrepareOutbound(l: Library, inbound: Header, out: Headers) returns (ok: bool)
    requires AllCanonical(l.canon, HOP_HEADERS)
    modifies out
    ensures ok <==> IsPrint(UpgradeType(l, old(out.h)))
    ensures !ok ==> out.h == old(out.h)
    ensures ok ==> out.h == WithUpgrade(WithTrailers(Strip(l, old(out.h)), l.hasToken(ValuesOf(inbound, "Te"), "trailers")),
                                        UpgradeType(l, old(out.h)))
  {
    var reqUpType := UpgradeType(l, out.h);
    if !IsPrint(reqUpType) {
      return false;
    }
    out.RemoveHopByHop(l);
    assert HOP_HEADERS[0] == "Connection" && HOP_HEADERS[5] == "Te" && HOP_HEADERS[8] == "Upgrade";
    if l.hasToken(ValuesOf(inbound, "Te"), "trailers") {
      out.Set(l, "Te", "trailers");
    }
    if reqUpType != "" {
      out.Set(l, "Connection", "Upgrade");
      out.Set(l, "Upgrade", reqUpType);
    }
    return true;
  }

  /** After the re-adds the only hop-by-hop names left are Te with the single value "trailers" and a
      Connection and Upgrade pair that match; every other header is there as it was. */
  lemma OnlyReaddsLeft(l: Library, h: Header, trailers: bool, upgrade: string, name: string)
    ensures var out := WithUpgrade(WithTrailers(Strip(l, h), trailers), upgrade);
            && (name in out && HopByHop(l, h, name) ==>
                  || (name == "Te" && trailers && out[name] == ["trailers"])
                  || (name == "Connection" && upgrade != "" && out[name] == ["Upgrade"] && ValuesOf(out, "Upgrade") == [upgrade])
                  || (name == "Upgrade" && upgrade != "" && out[name] == [upgrade] && ValuesOf(out, "Connection") == ["Upgrade"]))
            && (!HopByHop(l, h, name) ==> (name in out <==> name in h) && (name in out ==> out[name] == h[name]))
            && (trailers ==> ValuesOf(out, "Te") == ["trailers"])
            && (upgrade != "" ==> ValuesOf(out, "Connection") == ["Upgrade"] && ValuesOf(out, "Upgrade") == [upgrade])
  {
    assert HOP_HEADERS[0] == "Connection" && HOP_HEADERS[5] == "Te" && HOP_HEADERS[8] == "Upgrade";
    assert "Connection" != "Upgrade" && "Connection" != "Te" && "Te" != "Upgrade" by {
      assert |"Connection"| == 10 && |"Upgrade"| == 7 && |"Te"| == 2;
    }
  }

  /** The same with the real canonical form, which keeps the fixed names as they are: the protocol to switch
      to is the first value of Upgrade, if Connection asks for an upgrade. */
  method ServeHeaders(trim: string -> string, hasToken: (seq<string>, string) -> bool, inbound: Header, out: Headers)
    returns (ok: bool)
    modifies out
    ensures var l, h := Library(Canon, trim, hasToken), old(out.h);
            var asked := hasToken(if "Connection" in h then h["Connection"] else [], "Upgrade") && "Upgrade" in h && h["Upgrade"] != [];
            var upgrade := if asked then h["Upgrade"][0] else "";
            var trailers := hasToken(if "Te" in inbound then inbound["Te"] else [], "trailers");
            && (ok <==> forall i :: 0 <= i < |upgrade| ==> ' ' <= upgrade[i] <= '~')
            && out.h == if ok then WithUpgrade(WithTrailers(Strip(l, h), trailers), upgrade) else h
  {
    HopHeadersCanonical();
    ok := PrepareOutbound(Library(Canon, trim, hasToken), inbound, out);
  }
}
