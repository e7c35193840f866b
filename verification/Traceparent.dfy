/** The trace context in option 43: the server's encoder and the booted machine's shell decoder. */
module Traceparent {
  import opened Seqs
  import opened Text
  import opened Dhcp
  import R = Reservation

  const TRACEPARENT: byte := 69
  const END: byte := 255

  // ---------------------------------------------------------------------------------------------
  // Encoding
  // ---------------------------------------------------------------------------------------------

  datatype SpanContext = SpanContext(traceId: seq<byte>, spanId: seq<byte>, sampled: bool)

  ghost predicate Sized(sc: SpanContext) { |sc.traceId| == 16 && |sc.spanId| == 8 }

  function Flags(sc: SpanContext): byte { if sc.sampled then 1 else 0 }

  /** Version, trace id, span id and flags, end to end. */
  function Encoded(sc: SpanContext): seq<byte> { [0] + sc.traceId + sc.spanId + [Flags(sc)] }

  /** `TraceparentFromContext`. */
  method FromContext(sc: SpanContext) returns (tp: seq<byte>)
    ensures tp == Encoded(sc)
  {
    tp := [0];
    tp := tp + sc.traceId;
    tp := tp + sc.spanId;
    if sc.sampled {
      tp := tp + [1];
    } else {
      tp := tp + [0];
    }
  }

  /** One suboption in the layout of section 8.4 of RFC 2132. */
  datatype Suboption = Suboption(code: byte, value: seq<byte>)

  ghost predicate Encodable(o: Suboption) { o.code != END && |o.value| < 256 }

  function EncodeOne(o: Suboption): seq<byte>
    requires |o.value| < 256
  {
    [o.code, |o.value|] + o.value
  }

  function Encode(l: seq<Suboption>): seq<byte>
    requires forall i :: 0 <= i < |l| ==> |l[i].value| < 256
  {
    if l == [] then [] else EncodeOne(l[0]) + Encode(l[1..])
  }

  /** What may follow the last suboption: nothing, or the end mark and any padding. */
  predicate Ending(tail: seq<byte>) { tail == [] || tail[0] == END }

  // ---------------------------------------------------------------------------------------------
  // The shell decoder
  // ---------------------------------------------------------------------------------------------

  /** `cut -c from-to`: counted from one, clipped to the text, nothing for a decreasing range. */
  function Cut(s: string, from: nat, to: nat): string {
    if from < 1 || to < from || |s| < from then "" else s[from - 1 .. if to < |s| then to else |s|]
  }

  /** `printf '%d' "0x…"` of at most two characters: the value of the leading digits. */
  function Number(s: string): nat {
    if |s| == 0 || !IsHexDigit(s[0]) then 0
    else if |s| == 1 || !IsHexDigit(s[1]) then DigitValue(s[0])
    else 16 * DigitValue(s[0]) + DigitValue(s[1])
  }

  function Dashed(ver: string, traceId: string, spanId: string, flags: string): string {
    ver + "-" + traceId + "-" + spanId + "-" + flags
  }

  function W3C(raw: string): string { Dashed(Cut(raw, 1, 2), Cut(raw, 3, 34), Cut(raw, 35, 50), Cut(raw, 51, 53)) }

  /** A suboption as the script reads it: type, length, value text, and whether an end mark follows. */
  datatype Entry = Entry(code: nat, len: nat, value: string, last: bool)

  function Following(offset: nat, len: nat): nat { 4 + offset + len * 2 }

  function EntryAt(hex: string, offset: nat): Entry {
    var len := Number(Cut(hex, offset + 2, offset + 3));
    var bov := offset + 4;
    var next := Following(offset, len);
    Entry(Number(Cut(hex, offset, offset + 1)), len, Cut(hex, bov, next - 1), Cut(hex, next, next + 1) == "ff")
  }

  function Entries(hex: string): nat -> Entry { (offset: nat) => EntryAt(hex, offset) }

  /** The value of the last suboption 69 from `offset` on, given what is read at each offset. */
  function Scan(at: nat -> Entry, strlen: nat, offset: nat, found: Option<string>): Option<string>
    decreases strlen - offset
  {
    if offset >= strlen then found
    else
      var e := at(offset);
      var now := if e.code == 69 then Some(e.value) else found;
      if e.last then now else Scan(at, strlen, Following(offset, e.len), now)
  }

  /** `TRACEPARENT`, which keeps its value when there is no suboption 69. */
  function Exported(found: Option<string>, environment: string): string {
    if found.Some? then W3C(found.value) else environment
  }

  /** The script's loop; it ends on every text. */
  method ScanLoop(at: nat -> Entry, strlen: nat) returns (opt43x69: Option<string>)
    ensures opt43x69 == Scan(at, strlen, 1, None)
  {
    opt43x69 := None;
    var offset := 1;
    while offset < strlen
      invariant Scan(at, strlen, offset, opt43x69) == Scan(at, strlen, 1, None)
      decreases strlen - offset
    {
      var e := at(offset);
      if e.code == 69 {
        opt43x69 := Some(e.value);
      }
      offset := 4 + offset + e.len * 2;
      if e.last {
        break;
      }
    }
  }

  /** `extract_traceparent_from_opt43`. */
  method Extract(hexdata: string, environment: string) returns (traceparent: string)
    ensures traceparent == Exported(Scan(Entries(hexdata), |hexdata|, 1, None), environment)
  {
    traceparent := environment;
    var opt43x69 := ScanLoop(Entries(hexdata), |hexdata|);
    if opt43x69.Some? {
      var ver := Cut(opt43x69.value, 1, 2);
      var traceId := Cut(opt43x69.value, 3, 34);
      var spanId := Cut(opt43x69.value, 35, 50);
      var flags := Cut(opt43x69.value, 51, 53);
      traceparent := Dashed(ver, traceId, spanId, flags);
    }
  }

  // ---------------------------------------------------------------------------------------------
  // The decoder inverts the encoder
  // ---------------------------------------------------------------------------------------------

  lemma CutIsSlice(data: seq<byte>, i: nat, j: nat, from: nat, to: nat)
    requires i <= j <= |data| && from == 2 * i + 1 && to == 2 * j
    ensures Cut(Hex(data), from, to) == Hex(data[i..j])
  {
    HexSlice(data, i, j);
    if i == j {
      assert Hex(data[i..j]) == "";
    }
  }

  lemma NumberOfByte(b: byte)
    ensures Number(HexByte(b)) == b
  {
    HexByteRoundTrip(b);
  }

  lemma CutByte(data: seq<byte>, i: nat, from: nat)
    requires i < |data| && from == 2 * i + 1
    ensures Cut(Hex(data), from, from + 1) == HexByte(data[i])
    ensures Number(Cut(Hex(data), from, from + 1)) == data[i]
  {
    CutIsSlice(data, i, i + 1, from, from + 1);
    assert data[i..i + 1] == [data[i]];
    HexOne(data[i]);
    NumberOfByte(data[i]);
  }

  /** The value of the last suboption 69 in the list. */
  function Last(l: seq<Suboption>, found: Option<string>): Option<string> {
    if l == [] then found else Last(l[1..], if l[0].code == TRACEPARENT then Some(Hex(l[0].value)) else found)
  }

  ghost predicate AllEncodable(l: seq<Suboption>) { forall i :: 0 <= i < |l| ==> Encodable(l[i]) }

  lemma EndMark(data: seq<byte>, n: nat, from: nat)
    requires n <= |data| && from == 2 * n + 1
    ensures Cut(Hex(data), from, from + 1) == "ff" <==> n < |data| && data[n] == END
  {
    if n < |data| {
      CutByte(data, n, from);
      NumberOfByte(END);
      assert HexByte(END) == "ff";
    }
  }

  lemma EntryFrom(hex: string, offset: nat, code: nat, len: nat, value: string, last: bool, next: nat)
    requires Number(Cut(hex, offset, offset + 1)) == code && Number(Cut(hex, offset + 2, offset + 2 + 1)) == len
    requires next == offset + 4 + len * 2 && Cut(hex, offset + 4, next - 1) == value
    requires Cut(hex, next, next + 1) == "ff" <==> last
    ensures EntryAt(hex, offset) == Entry(code, len, value, last)
  {
  }

  /** What is read at the start of a suboption. */
  ghost predicate Faithful(at: nat -> Entry, data: seq<byte>, k: nat) {
    k + 1 < |data| && k + 2 + data[k + 1] <= |data| ==>
      var n := k + 2 + data[k + 1];
      at(2 * k + 1) == Entry(data[k], data[k + 1], Hex(data[k + 2..n]), n < |data| && data[n] == END)
  }

  lemma EntriesFaithful(data: seq<byte>, k: nat)
    ensures Faithful(Entries(Hex(data)), data, k)
  {
    if k + 1 < |data| && k + 2 + data[k + 1] <= |data| {
      EntryIs(data, k, k + 2 + data[k + 1], 2 * k + 1);
    }
  }

  lemma EntryIs(data: seq<byte>, k: nat, n: nat, offset: nat)
    requires k + 1 < |data| && n == k + 2 + data[k + 1] <= |data| && offset == 2 * k + 1
    ensures EntryAt(Hex(data), offset) == Entry(data[k], data[k + 1], Hex(data[k + 2..n]), n < |data| && data[n] == END)
  {
    var next := 2 * n + 1;
    HeadIs(data, k, offset);
    BodyIs(data, k + 2, n, offset + 4, next);
    EntryFrom(Hex(data), offset, data[k], data[k + 1], Hex(data[k + 2..n]), n < |data| && data[n] == END, next);
  }

  lemma HeadIs(data: seq<byte>, k: nat, offset: nat)
    requires k + 1 < |data| && offset == 2 * k + 1
    ensures Number(Cut(Hex(data), offset, offset + 1)) == data[k] && Number(Cut(Hex(data), offset + 2, offset + 2 + 1)) == data[k + 1]
  {
    CutByte(data, k, offset);
    CutByte(data, k + 1, offset + 2);
  }

  lemma BodyIs(data: seq<byte>, i: nat, n: nat, bov: nat, next: nat)
    requires i <= n <= |data| && bov == 2 * i + 1 && next == 2 * n + 1
    ensures Cut(Hex(data), bov, next - 1) == Hex(data[i..n])
    ensures Cut(Hex(data), next, next + 1) == "ff" <==> n < |data| && data[n] == END
  {
    CutIsSlice(data, i, n, bov, next - 1);
    EndMark(data, n, next);
  }

  lemma Parts(data: seq<byte>, k: nat, o: Suboption, rest: seq<byte>)
    requires k <= |data| && |o.value| < 256 && data[k..] == EncodeOne(o) + rest
    ensures k + 2 + |o.value| <= |data| && data[k] == o.code && data[k + 1] == |o.value|
    ensures data[k + 2..k + 2 + |o.value|] == o.value && data[k + 2 + |o.value|..] == rest
  {
    var one := EncodeOne(o);
    assert data[k..][0] == o.code && data[k..][1] == |o.value|;
    assert data[k + 2..k + 2 + |o.value|] == data[k..][2..|one|];
    assert data[k + 2 + |o.value|..] == data[k..][|one|..];
  }

  lemma Assoc(a: seq<byte>, b: seq<byte>, c: seq<byte>)
    ensures (a + b) + c == a + (b + c)
  {
  }

  lemma FirstPart(data: seq<byte>, k: nat, l: seq<Suboption>, tail: seq<byte>)
    requires AllEncodable(l) && l != [] && k <= |data| && data[k..] == Encode(l) + tail
    ensures var n := k + 2 + |l[0].value|;
            && n <= |data| && data[k] == l[0].code && data[k + 1] == |l[0].value|
            && data[k + 2..n] == l[0].value && data[n..] == Encode(l[1..]) + tail
  {
    var one, rest := EncodeOne(l[0]), Encode(l[1..]);
    Assoc(one, rest, tail);
    Parts(data, k, l[0], rest + tail);
  }

  /** The end mark stands exactly after the last suboption, when there is one. */
  lemma EndsAfterLast(data: seq<byte>, n: nat, rest: seq<Suboption>, tail: seq<byte>)
    requires AllEncodable(rest) && Ending(tail)
    requires n <= |data| && data[n..] == Encode(rest) + tail
    ensures n < |data| && data[n] == END <==> rest == [] && tail != []
  {
    if rest != [] {
      FirstPart(data, n, rest, tail);
    } else if tail != [] {
      assert data[n] == data[n..][0];
    }
  }

  lemma {:induction false} ScanReads(data: seq<byte>, k: nat, l: seq<Suboption>, tail: seq<byte>, at: nat -> Entry, found: Option<string>)
    requires AllEncodable(l) && Ending(tail) && (l == [] ==> tail == [])
    requires k <= |data| && data[k..] == Encode(l) + tail && forall i: nat :: Faithful(at, data, i)
    ensures Scan(at, 2 * |data|, 2 * k + 1, found) == Last(l, found)
    decreases |l|
  {
    if l != [] {
      var o, rest := l[0], l[1..];
      FirstPart(data, k, l, tail);
      var n := k + 2 + |o.value|;
      assert Faithful(at, data, k);
      EndsAfterLast(data, n, rest, tail);
      if !at(2 * k + 1).last {
        ScanReads(data, n, rest, tail, at, if o.code == TRACEPARENT then Some(Hex(o.value)) else found);
      }
    }
  }

  /** Exactly one suboption 69, wherever it stands. */
  lemma {:induction false} LastIsOnly(l: seq<Suboption>, i: nat, v: Option<string>)
    requires i < |l| && l[i].code == TRACEPARENT
    requires forall j :: 0 <= j < |l| && j != i ==> l[j].code != TRACEPARENT
    ensures Last(l, v) == Some(Hex(l[i].value))
    decreases |l|
  {
    var w := if l[0].code == TRACEPARENT then Some(Hex(l[0].value)) else v;
    if i == 0 {
      LastUnchanged(l[1..], w);
    } else {
      LastIsOnly(l[1..], i - 1, w);
    }
  }

  lemma {:induction false} LastUnchanged(l: seq<Suboption>, v: Option<string>)
    requires forall j :: 0 <= j < |l| ==> l[j].code != TRACEPARENT
    ensures Last(l, v) == v
  {
    if l != [] { LastUnchanged(l[1..], v); }
  }

  /** What the script finds in option 43 as the DHCP client prints it. */
  function Decoded(data: seq<byte>): Option<string> { Scan(Entries(Hex(data)), 2 * |data|, 1, None) }

  lemma DecodedIsLast(data: seq<byte>, l: seq<Suboption>, tail: seq<byte>)
    requires AllEncodable(l) && Ending(tail) && (l == [] ==> tail == []) && data == Encode(l) + tail
    ensures Decoded(data) == Last(l, None)
  {
    forall i: nat ensures Faithful(Entries(Hex(data)), data, i) { EntriesFaithful(data, i); }
    assert data[0..] == data;
    ScanReads(data, 0, l, tail, Entries(Hex(data)), None);
  }

  /** The W3C form of a trace context: version 00, trace id, span id, flags. */
  function W3CText(sc: SpanContext): string {
    "00-" + Hex(sc.traceId) + "-" + Hex(sc.spanId) + (if sc.sampled then "-01" else "-00")
  }

  lemma TextIsDashed(sc: SpanContext)
    ensures W3CText(sc) == Dashed("00", Hex(sc.traceId), Hex(sc.spanId), if sc.sampled then "01" else "00")
  {
    var front, flags := "00-" + Hex(sc.traceId) + "-" + Hex(sc.spanId), if sc.sampled then "01" else "00";
    assert "00" + "-" == "00-";
    assert front + ("-" + flags) == front + "-" + flags;
    assert "-" + flags == if sc.sampled then "-01" else "-00";
  }

  lemma EncodedToText(sc: SpanContext)
    requires Sized(sc)
    ensures |Encoded(sc)| == 26 && W3C(Hex(Encoded(sc))) == W3CText(sc)
  {
    var d := Encoded(sc);
    CutIsSlice(d, 0, 1, 1, 2);
    CutIsSlice(d, 1, 17, 3, 34);
    CutIsSlice(d, 17, 25, 35, 50);
    CutIsSlice(d, 25, 26, 51, 52);
    assert d[0..1] == [0] && d[1..17] == sc.traceId && d[17..25] == sc.spanId && d[25..26] == [Flags(sc)];
    HexOne(0);
    HexOne(Flags(sc));
    TextIsDashed(sc);
    assert Cut(Hex(d), 51, 53) == Cut(Hex(d), 51, 52);
  }

  /** Whatever other suboptions there are and in whatever order, with or without an end mark, the
      decoder recovers the version, trace id, span id and flags that were encoded. */
  lemma DecoderRecovers(sc: SpanContext, l: seq<Suboption>, i: nat, tail: seq<byte>, environment: string)
    requires Sized(sc) && AllEncodable(l) && Ending(tail)
    requires i < |l| && l[i] == Suboption(TRACEPARENT, Encoded(sc))
    requires forall j :: 0 <= j < |l| && j != i ==> l[j].code != TRACEPARENT
    ensures var found := Decoded(Encode(l) + tail);
            found == Some(Hex(Encoded(sc))) && Exported(found, environment) == W3CText(sc)
  {
    DecodedIsLast(Encode(l) + tail, l, tail);
    LastIsOnly(l, i, None);
    EncodedToText(sc);
  }

  /** Without a suboption 69 the environment keeps the traceparent it had. */
  lemma NoTraceparent(l: seq<Suboption>, tail: seq<byte>, environment: string)
    requires l != [] && AllEncodable(l) && Ending(tail)
    requires forall j :: 0 <= j < |l| ==> l[j].code != TRACEPARENT
    ensures Exported(Decoded(Encode(l) + tail), environment) == environment
  {
    DecodedIsLast(Encode(l) + tail, l, tail);
    LastUnchanged(l, None);
  }

  /** Different trace contexts have different texts. */
  lemma TextDetermines(a: SpanContext, b: SpanContext)
    requires Sized(a) && Sized(b) && W3CText(a) == W3CText(b)
    ensures a == b
  {
    TextIsDashed(a);
    TextIsDashed(b);
    DashedDetermines("00", Hex(a.traceId), Hex(a.spanId), if a.sampled then "01" else "00",
                     "00", Hex(b.traceId), Hex(b.spanId), if b.sampled then "01" else "00");
    HexRoundTrip(a.traceId);
    HexRoundTrip(b.traceId);
    HexRoundTrip(a.spanId);
    HexRoundTrip(b.spanId);
    assert "01"[1] != "00"[1];
  }

  lemma DashedDetermines(v: string, t: string, s: string, f: string, v': string, t': string, s': string, f': string)
    requires |v| == |v'| && |t| == |t'| && |s| == |s'| && Dashed(v, t, s, f) == Dashed(v', t', s', f')
    ensures v == v' && t == t' && s == s' && f == f'
  {
    SameParts(v + "-" + t + "-" + s + "-", f, v' + "-" + t' + "-" + s' + "-", f');
    SameParts(v + "-" + t + "-" + s, "-", v' + "-" + t' + "-" + s', "-");
    SameParts(v + "-" + t + "-", s, v' + "-" + t' + "-", s');
    SameParts(v + "-" + t, "-", v' + "-" + t', "-");
    SameParts(v + "-", t, v' + "-", t');
    SameParts(v, "-", v', "-");
  }

  lemma SameParts(p: string, q: string, p': string, q': string)
    requires |p| == |p'| && p + q == p' + q'
    ensures p == p' && q == q'
  {
    assert (p + q)[..|p|] == p && (p + q)[|p|..] == q;
    assert (p' + q')[..|p'|] == p' && (p' + q')[|p'|..] == q';
  }

  /** `l` lists the suboptions of a map, each once, in some order. */
  ghost predicate Lists(l: seq<Suboption>, vendor: map<nat, seq<byte>>) {
    && (forall i :: 0 <= i < |l| ==> l[i].code in vendor && vendor[l[i].code] == l[i].value)
    && (forall c | c in vendor :: exists i :: 0 <= i < |l| && l[i].code == c)
    && (forall i, j :: 0 <= i < j < |l| ==> l[i].code != l[j].code)
  }

  lemma SuboptionsDecode(sc: SpanContext, mac: seq<byte>, l: seq<Suboption>, tail: seq<byte>, environment: string)
    requires Sized(sc) && Ending(tail)
    requires Lists(l, R.WithRpi(mac, map[6 := [8], 69 := Encoded(sc)]))
    ensures AllEncodable(l)
    ensures Exported(Decoded(Encode(l) + tail), environment) == W3CText(sc)
  {
    var vendor := R.WithRpi(mac, map[6 := [8], 69 := Encoded(sc)]);
    assert vendor.Keys <= {6, 9, 10, 69} && forall c | c in vendor :: |vendor[c]| <= 26;
    assert 69 in vendor && vendor[69] == Encoded(sc);
    var i :| 0 <= i < |l| && l[i].code == 69;
    assert forall j :: 0 <= j < |l| && j != i ==> l[j].code != TRACEPARENT;
    DecoderRecovers(sc, l, i, tail, environment);
  }

  /** The client gets netboot data: it is a valid netboot client of a known architecture, and may netboot. */
  predicate GetsBootData(h: R.Handler, p: Packet) {
    && h.enabled && NetbootClient(p) && R.Live(h, p.mac)
    && h.backend(p.mac).netboot.allow && BinaryFor(ArchOf(p, h.named)) != ""
  }

  /** Laid out as `l` and ended by `tail`, the suboptions decode to `text`. */
  ghost predicate Decodes(vendor: map<nat, seq<byte>>, l: seq<Suboption>, tail: seq<byte>, environment: string, text: string) {
    Lists(l, vendor) && Ending(tail) ==> AllEncodable(l) && Exported(Decoded(Encode(l) + tail), environment) == text
  }

  /** In whatever order they are laid out and whatever ends them, they decode to `text`. */
  ghost predicate DecodesTo(vendor: map<nat, seq<byte>>, text: string) {
    forall l, tail, environment :: Decodes(vendor, l, tail, environment, text)
  }

  lemma VendorOf(h: R.Handler, p: Packet, trace: R.Trace)
    requires R.Handle(h, p, trace).Some?
    ensures R.Handle(h, p, trace).value.vendor ==
            if GetsBootData(h, p) then R.WithRpi(p.mac, map[6 := [8], 69 := trace.bytes]) else map[]
  {
    var x := h.backend(p.mac);
    var kind := if p.kind.Discover? then R.OFFER else R.ACK;
    R.LeaseReply(h, p, x.lease, kind, 0);
    var extra := R.NetbootModifier(h, p, x.netboot, trace).vendor;
    assert map[] + extra == extra;
  }

  /** A reservation reply carries the trace context exactly if its client gets netboot data, a Raspberry Pi
      or not; and then its option 43 decodes to that context, in whatever order its suboptions are laid out. */
  lemma ServedOptionDecodes(h: R.Handler, p: Packet, sc: SpanContext, text: string)
    requires Sized(sc) && R.Handle(h, p, R.Trace(text, Encoded(sc))).Some?
    ensures var vendor := R.Handle(h, p, R.Trace(text, Encoded(sc))).value.vendor;
            && (69 in vendor <==> GetsBootData(h, p))
            && (69 !in vendor ==> vendor == map[])
            && (69 in vendor ==> DecodesTo(vendor, W3CText(sc)))
  {
    var trace := R.Trace(text, Encoded(sc));
    var vendor := R.Handle(h, p, trace).value.vendor;
    VendorOf(h, p, trace);
    if GetsBootData(h, p) {
      VendorDecodes(sc, p.mac, vendor);
    }
  }

  lemma VendorDecodes(sc: SpanContext, mac: seq<byte>, vendor: map<nat, seq<byte>>)
    requires Sized(sc) && vendor == R.WithRpi(mac, map[6 := [8], 69 := Encoded(sc)])
    ensures DecodesTo(vendor, W3CText(sc))
  {
    forall l, tail, environment ensures Decodes(vendor, l, tail, environment, W3CText(sc)) {
      if Lists(l, vendor) && Ending(tail) {
        SuboptionsDecode(sc, mac, l, tail, environment);
      }
    }
  }
}
