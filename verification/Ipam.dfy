/** The `ipam=` kernel argument: how it is printed, and exactly when it can be read back. */
module Ipam {
  import opened Seqs
  import opened Text
  import opened Mac

  // ---------------------------------------------------------------------------------------------
  // Addresses
  // ---------------------------------------------------------------------------------------------

  /** An IPv6 address is kept as the text Go prints for it, which always holds a colon. */
  datatype Address = V4(a: byte, b: byte, c: byte, d: byte) | V6(text: string)

  ghost predicate Printable(x: Address) { x.V6? ==> ':' in x.text }

  function DecDigit(n: nat): char
    requires n < 10
  {
    '0' + n as char
  }

  /** A byte in decimal, without leading zeros. */
  function Dec(b: byte): (s: string)
    ensures 1 <= |s| <= 3
  {
    if b < 10 then [DecDigit(b)]
    else if b < 100 then [DecDigit(b / 10), DecDigit(b % 10)]
    else [DecDigit(b / 100), DecDigit(b / 10 % 10), DecDigit(b % 10)]
  }

  predicate IsDec(c: char) { '0' <= c <= '9' }

  function DecValue(s: string): nat
    requires forall i :: 0 <= i < |s| ==> IsDec(s[i])
  {
    if s == "" then 0 else assert IsDec(s[|s| - 1]); 10 * DecValue(s[..|s| - 1]) + (s[|s| - 1] - '0') as int
  }

  /** Up to three digits, without leading zeros, that make a byte. */
  function ParseDec(s: string): Option<byte> {
    if 1 <= |s| <= 3 && (forall i :: 0 <= i < |s| ==> IsDec(s[i])) && (|s| > 1 ==> s[0] != '0') && DecValue(s) < 256
    then Some(DecValue(s))
    else None
  }

  function Quads(x: Address): seq<string>
    requires x.V4?
  {
    [Dec(x.a), Dec(x.b), Dec(x.c), Dec(x.d)]
  }

  function AddressText(x: Address): string { if x.V4? then Join(Quads(x), '.') else x.text }

  function ParseV4(s: string): Option<Address> {
    var q := Split(s, '.');
    if |q| != 4 then None
    else
      var a, b, c, d := ParseDec(q[0]), ParseDec(q[1]), ParseDec(q[2]), ParseDec(q[3]);
      if a.Some? && b.Some? && c.Some? && d.Some? then Some(V4(a.value, b.value, c.value, d.value)) else None
  }

  ghost predicate ReadsAs(s: string, n: nat) {
    n < 256 && ParseDec(s) == Some(n) && forall i :: 0 <= i < |s| ==> IsDec(s[i])
  }

  lemma DecRoundTrip(b: byte)
    ensures ReadsAs(Dec(b), b)
  {
    if b < 10 {
      OneDigit(b);
    } else if b < 100 {
      TwoDigits(b / 10, b % 10);
    } else {
      ThreeDigits(b / 100, b / 10 % 10, b % 10);
      assert b / 10 == b / 100 * 10 + b / 10 % 10;
    }
  }

  lemma OneDigit(x: nat)
    requires x < 10
    ensures DecValue([DecDigit(x)]) == x && ReadsAs([DecDigit(x)], x)
  {
    assert [DecDigit(x)][..0] == "";
  }

  lemma TwoDigits(x: nat, y: nat)
    requires 0 < x < 10 && y < 10
    ensures DecValue([DecDigit(x), DecDigit(y)]) == 10 * x + y && ReadsAs([DecDigit(x), DecDigit(y)], 10 * x + y)
  {
    var s := [DecDigit(x), DecDigit(y)];
    assert s[..1] == [DecDigit(x)];
    OneDigit(x);
  }

  lemma ThreeDigits(x: nat, y: nat, z: nat)
    requires 0 < x < 10 && y < 10 && z < 10 && 100 * x + 10 * y + z < 256
    ensures ReadsAs([DecDigit(x), DecDigit(y), DecDigit(z)], 100 * x + 10 * y + z)
  {
    var s := [DecDigit(x), DecDigit(y), DecDigit(z)];
    assert s[..2] == [DecDigit(x), DecDigit(y)];
    TwoDigits(x, y);
  }

  lemma DecFree(b: byte, c: char)
    requires !IsDec(c)
    ensures c !in Dec(b)
  {
    DecRoundTrip(b);
  }

  lemma AddressRoundTrip(x: Address)
    requires x.V4?
    ensures ParseV4(AddressText(x)) == Some(x)
  {
    forall k | 0 <= k < 4 ensures '.' !in Quads(x)[k] {
      DecFree(x.a, '.'); DecFree(x.b, '.'); DecFree(x.c, '.'); DecFree(x.d, '.');
    }
    SplitOfJoin(Quads(x), '.');
    DecRoundTrip(x.a); DecRoundTrip(x.b); DecRoundTrip(x.c); DecRoundTrip(x.d);
  }

  lemma {:induction false} JoinFree(parts: seq<string>, sep: char, c: char)
    requires c != sep
    ensures c !in Join(parts, sep) <==> AllFree(parts, c)
  {
    if |parts| > 1 {
      var rest := parts[1..];
      JoinFree(rest, sep, c);
      assert AllFree(parts, c) <==> c !in parts[0] && AllFree(rest, c) by {
        assert forall i :: 0 < i < |parts| ==> parts[i] == rest[i - 1];
        assert forall i :: 0 <= i < |rest| ==> rest[i] == parts[i + 1];
      }
    }
  }

  /** Exactly the IPv4 addresses print without a colon, and they print without a comma, too. */
  lemma AddressFree(x: Address)
    requires Printable(x)
    ensures ':' !in AddressText(x) <==> x.V4?
    ensures x.V4? ==> ',' !in AddressText(x) && AddressText(x) != ""
  {
    if x.V4? {
      forall c | c == ':' || c == ',' ensures c !in AddressText(x) {
        DecFree(x.a, c); DecFree(x.b, c); DecFree(x.c, c); DecFree(x.d, c);
        JoinFree(Quads(x), '.', c);
      }
    }
  }

  // ---------------------------------------------------------------------------------------------
  // The line
  // ---------------------------------------------------------------------------------------------

  datatype Record = Record(
    mac: seq<byte>,
    vlan: string,
    ip: Option<Address>,
    mask: Option<Address>,
    gateway: Option<Address>,
    hostname: string,
    nameServers: seq<Address>,
    searchDomains: seq<string>,
    ntpServers: seq<Address>)

  function OptionText(x: Option<Address>): string { if x.Some? then AddressText(x.value) else "" }

  function Texts(l: seq<Address>): seq<string> { seq(|l|, i requires 0 <= i < |l| => AddressText(l[i])) }

  function Fields(d: Record): (f: seq<string>)
    ensures |f| == 9
  {
    [MacText(d.mac, '-'), d.vlan, OptionText(d.ip), OptionText(d.mask), OptionText(d.gateway), d.hostname,
     Join(Texts(d.nameServers), ','), Join(d.searchDomains, ','), Join(Texts(d.ntpServers), ',')]
  }

  const PREFIX: string := "ipam="

  function Line(d: Record): string { PREFIX + Join(Fields(d), ':') }

  method ListText(l: seq<Address>) returns (s: string)
    ensures s == Join(Texts(l), ',')
  {
    var texts: seq<string> := [];
    for i := 0 to |l|
      invariant texts == Texts(l[..i])
    {
      texts := texts + [AddressText(l[i])];
    }
    assert l[..|l|] == l;
    if |texts| > 0 {
      return Join(texts, ',');
    }
    return "";
  }

  /** `parseIPAM`. */
  method ParseIpam(d: Option<Record>) returns (line: string)
    ensures line == if d.None? then "" else Line(d.value)
  {
    if d.None? {
      return "";
    }
    var r := d.value;
    var ipam := seq(9, _ => "");
    MacTextReplaced(r.mac, ':', '-');
    ipam := ipam[0 := ReplaceAll(MacText(r.mac, ':'), ':', '-')];
    ipam := ipam[1 := r.vlan];
    if r.ip.Some? {
      ipam := ipam[2 := AddressText(r.ip.value)];
    }
    if r.mask.Some? {
      ipam := ipam[3 := AddressText(r.mask.value)];
    }
    if r.gateway.Some? {
      ipam := ipam[4 := AddressText(r.gateway.value)];
    }
    ipam := ipam[5 := r.hostname];
    var dns := ListText(r.nameServers);
    ipam := ipam[6 := dns];
    if |r.searchDomains| > 0 {
      ipam := ipam[7 := Join(r.searchDomains, ',')];
    }
    var ntp := ListText(r.ntpServers);
    ipam := ipam[8 := ntp];
    assert ipam == Fields(r);
    return PREFIX + Join(ipam, ':');
  }

  // ---------------------------------------------------------------------------------------------
  // Reading it back
  // ---------------------------------------------------------------------------------------------

  function OptionOfText(s: string): Option<Option<Address>> {
    if s == "" then Some(None)
    else
      var x := ParseV4(s);
      if x.Some? then Some(x) else None
  }

  function ListOfText(s: string): seq<string> { if s == "" then [] else Split(s, ',') }

  function ParseAll(l: seq<string>): Option<seq<Address>> {
    if l == [] then Some([])
    else
      var first, rest := ParseV4(l[0]), ParseAll(l[1..]);
      if first.Some? && rest.Some? then Some([first.value] + rest.value) else None
  }

  /** The reading the documented format calls for: nine fields between colons, lists between commas. */
  function Read(line: string): Option<Record> {
    if !(PREFIX <= line) then None
    else
      var f := Split(line[|PREFIX|..], ':');
      if |f| != 9 then None
      else
        var mac := ParsePairs(f[0], '-');
        var ip, mask, gateway := OptionOfText(f[2]), OptionOfText(f[3]), OptionOfText(f[4]);
        var dns, ntp := ParseAll(ListOfText(f[6])), ParseAll(ListOfText(f[8]));
        if mac.Some? && ip.Some? && mask.Some? && gateway.Some? && dns.Some? && ntp.Some?
        then Some(Record(mac.value, f[1], ip.value, mask.value, gateway.value, f[5], dns.value, ListOfText(f[7]), ntp.value))
        else None
  }

  ghost predicate AllPrintable(d: Record) {
    && (d.ip.Some? ==> Printable(d.ip.value))
    && (d.mask.Some? ==> Printable(d.mask.value))
    && (d.gateway.Some? ==> Printable(d.gateway.value))
    && (forall i :: 0 <= i < |d.nameServers| ==> Printable(d.nameServers[i]))
    && (forall i :: 0 <= i < |d.ntpServers| ==> Printable(d.ntpServers[i]))
  }

  predicate IsV4(x: Option<Address>) { x.Some? ==> x.value.V4? }

  /** IPv4 addresses only, and no colon in the VLAN, the host name or a search domain. */
  ghost predicate ColonFree(d: Record) {
    && IsV4(d.ip) && IsV4(d.mask) && IsV4(d.gateway)
    && (forall i :: 0 <= i < |d.nameServers| ==> d.nameServers[i].V4?)
    && (forall i :: 0 <= i < |d.ntpServers| ==> d.ntpServers[i].V4?)
    && ':' !in d.vlan && ':' !in d.hostname && AllFree(d.searchDomains, ':')
  }

  lemma OptionFree(x: Option<Address>)
    requires x.Some? ==> Printable(x.value)
    ensures ':' !in OptionText(x) <==> IsV4(x)
  {
    if x.Some? { AddressFree(x.value); }
  }

  lemma TextsFree(l: seq<Address>)
    requires forall i :: 0 <= i < |l| ==> Printable(l[i])
    ensures ':' !in Join(Texts(l), ',') <==> forall i :: 0 <= i < |l| ==> l[i].V4?
  {
    JoinFree(Texts(l), ',', ':');
    forall i | 0 <= i < |l| ensures ':' !in Texts(l)[i] <==> l[i].V4? { AddressFree(l[i]); }
  }

  /** The fields are colon-free exactly when the record is. */
  lemma FieldsFree(d: Record)
    requires AllPrintable(d)
    ensures AllFree(Fields(d), ':') <==> ColonFree(d)
  {
    var f := Fields(d);
    MacTextFree(d.mac, '-', ':');
    OptionFree(d.ip);
    OptionFree(d.mask);
    OptionFree(d.gateway);
    TextsFree(d.nameServers);
    TextsFree(d.ntpServers);
    JoinFree(d.searchDomains, ',', ':');
    NineFree(f);
  }

  lemma NineFree(f: seq<string>)
    requires |f| == 9
    ensures AllFree(f, ':') <==>
              && ':' !in f[0] && ':' !in f[1] && ':' !in f[2] && ':' !in f[3] && ':' !in f[4]
              && ':' !in f[5] && ':' !in f[6] && ':' !in f[7] && ':' !in f[8]
  {
  }

  /** The line splits into nine fields exactly when the record is colon-free, and then into its own. */
  lemma NineFields(d: Record)
    requires AllPrintable(d)
    ensures var f := Split(Line(d)[|PREFIX|..], ':');
            && (|f| == 9 <==> ColonFree(d))
            && (f == Fields(d) <==> ColonFree(d))
  {
    assert Line(d)[|PREFIX|..] == Join(Fields(d), ':');
    FieldsFree(d);
    PartsCounted(Fields(d), ':');
    SplitUndoesJoin(Fields(d), ':');
  }

  /** A list is read back exactly when no entry holds a comma and it is not one empty entry. */
  lemma ListReadBack(l: seq<string>)
    ensures ListOfText(Join(l, ',')) == l <==> AllFree(l, ',') && l != [""]
  {
    if l != [] {
      SplitUndoesJoin(l, ',');
      if Join(l, ',') == "" {
        assert Split("", ',') == [""];
      }
    }
  }

  lemma {:induction false} AddressesReadBack(l: seq<Address>)
    requires forall i :: 0 <= i < |l| ==> l[i].V4?
    ensures ParseAll(Texts(l)) == Some(l)
  {
    if l != [] {
      var x, rest := l[0], l[1..];
      AddressesReadBack(rest);
      assert ParseV4(AddressText(x)) == Some(x) by { AddressRoundTrip(x); }
      ParseAllCons(AddressText(x), x, Texts(rest), rest);
      TextsCons(l);
    }
  }

  lemma TextsCons(l: seq<Address>)
    requires l != []
    ensures Texts(l) == [AddressText(l[0])] + Texts(l[1..]) && l == [l[0]] + l[1..]
  {
  }

  lemma ParseAllCons(t: string, x: Address, texts: seq<string>, l: seq<Address>)
    requires ParseV4(t) == Some(x) && ParseAll(texts) == Some(l)
    ensures ParseAll([t] + texts) == Some([x] + l)
  {
    assert ([t] + texts)[1..] == texts;
  }

  lemma AddressListReadBack(l: seq<Address>)
    requires forall i :: 0 <= i < |l| ==> l[i].V4?
    ensures ParseAll(ListOfText(Join(Texts(l), ','))) == Some(l)
  {
    forall i | 0 <= i < |l| ensures ',' !in Texts(l)[i] && Texts(l)[i] != "" { AddressFree(l[i]); }
    ListReadBack(Texts(l));
    AddressesReadBack(l);
  }

  lemma OptionReadBack(x: Option<Address>)
    requires IsV4(x)
    ensures OptionOfText(OptionText(x)) == Some(x)
  {
    if x.Some? {
      AddressFree(x.value);
      AddressRoundTrip(x.value);
    }
  }

  /** The whole record is recovered from its line exactly when it is colon-free and its search domains
      are comma-free and not one empty name. */
  lemma RoundTrip(d: Record)
    requires AllPrintable(d)
    ensures Read(Line(d)) == Some(d) <==> ColonFree(d) && AllFree(d.searchDomains, ',') && d.searchDomains != [""]
  {
    NineFields(d);
    assert PREFIX <= Line(d);
    ListReadBack(d.searchDomains);
    if ColonFree(d) {
      PairsRoundTrip(d.mac, '-');
      OptionReadBack(d.ip);
      OptionReadBack(d.mask);
      OptionReadBack(d.gateway);
      AddressListReadBack(d.nameServers);
      AddressListReadBack(d.ntpServers);
    }
  }
}
