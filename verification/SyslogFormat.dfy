/** The wire format: rendering and parsing RFC 5424 messages, and the bytes of a legacy tag. */
module SyslogFormat {
  import opened Seqs
  import opened SyslogMessage
  import opened SyslogLaws

  // ---------------------------------------------------------------------------------------------
  // Lines of space-separated fields
  // ---------------------------------------------------------------------------------------------

  predicate SpaceFree(x: seq<byte>) { forall i :: 0 <= i < |x| ==> x[i] != BLANK }

  predicate AllSpaceFree(xs: seq<seq<byte>>) { forall k :: 0 <= k < |xs| ==> SpaceFree(xs[k]) }

  /** Each field and a space after it, then the rest. */
  function Line(fields: seq<seq<byte>>, rest: seq<byte>): seq<byte> {
    if fields == [] then rest else fields[0] + [BLANK] + Line(fields[1..], rest)
  }

  /** What stands in each of the windows. */
  function Texts(text: seq<byte>, ws: seq<Window>): (r: seq<seq<byte>>)
    requires forall k :: 0 <= k < |ws| ==> ws[k].Window? && ws[k].lo <= ws[k].hi <= |text|
    ensures |r| == |ws| && forall k :: 0 <= k < |r| ==> r[k] == text[ws[k].lo..ws[k].hi]
  {
    seq(|ws|, k requires 0 <= k < |ws| => text[ws[k].lo..ws[k].hi])
  }

  /** Where the text goes on after the first `n` parts. */
  function RestAt(text: seq<byte>, lo: nat, n: nat): (r: nat)
    requires lo <= |text|
    ensures lo <= r <= |text|
    decreases n
  {
    var p := Find(text, lo, BLANK);
    if n == 0 || p == |text| then lo else RestAt(text, p + 1, n - 1)
  }

  lemma {:induction false} FindAt(text: seq<byte>, lo: nat, p: nat)
    requires lo <= p < |text| && SpaceFree(text[lo..p]) && text[p] == BLANK
    ensures Find(text, lo, BLANK) == p
    decreases p - lo
  {
    if lo < p {
      assert text[lo] == text[lo..p][0];
      assert text[lo + 1..p] == text[lo..p][1..];
      FindAt(text, lo + 1, p);
    }
  }

  lemma LineHead(text: seq<byte>, lo: nat, x: seq<byte>, more: seq<byte>)
    requires lo <= |text| && text[lo..] == x + [BLANK] + more
    ensures var p := lo + |x|; p < |text| && text[lo..p] == x && text[p] == BLANK && text[p + 1..] == more
  {
    var p, t := lo + |x|, text[lo..];
    assert text[p] == t[|x|] && text[p + 1..] == t[|x| + 1..] && text[lo..p] == t[..|x|];
  }

  lemma SplitHead(text: seq<byte>, lo: nat, n: nat, p: nat)
    requires lo <= |text| && 0 < n && p == Find(text, lo, BLANK) < |text|
    ensures Texts(text, Split(text, lo, n)) == [text[lo..p]] + Texts(text, Split(text, p + 1, n - 1))
    ensures |Split(text, lo, n)| == 1 + |Split(text, p + 1, n - 1)|
    ensures RestAt(text, lo, n) == RestAt(text, p + 1, n - 1)
  {
  }

  lemma LineStep(text: seq<byte>, lo: nat, p: nat, later: seq<seq<byte>>, rest: seq<byte>)
    requires lo <= p < |text| && SpaceFree(text[lo..p]) && text[p] == BLANK
    requires text[p + 1..] == Line(later, rest) && AllSpaceFree(later)
    ensures text[lo..] == Line([text[lo..p]] + later, rest) && AllSpaceFree([text[lo..p]] + later)
  {
    assert ([text[lo..p]] + later)[1..] == later;
    assert text[lo..] == text[lo..p] + [BLANK] + text[p + 1..];
  }

  lemma LineUnstep(text: seq<byte>, lo: nat, fields: seq<seq<byte>>, rest: seq<byte>) returns (p: nat)
    requires lo <= |text| && fields != [] && text[lo..] == Line(fields, rest) && AllSpaceFree(fields)
    ensures p == Find(text, lo, BLANK) < |text| && text[lo..p] == fields[0] && text[p + 1..] == Line(fields[1..], rest)
  {
    p := lo + |fields[0]|;
    LineHead(text, lo, fields[0], Line(fields[1..], rest));
    FindAt(text, lo, p);
  }

  /** Splitting a line gives back its fields and its rest. */
  lemma {:induction false} SplitOfLine(text: seq<byte>, lo: nat, fields: seq<seq<byte>>, rest: seq<byte>)
    requires lo <= |text| && text[lo..] == Line(fields, rest) && AllSpaceFree(fields)
    ensures Texts(text, Split(text, lo, |fields|)) == fields
    ensures text[RestAt(text, lo, |fields|)..] == rest
    decreases |fields|
  {
    if fields != [] {
      var p := LineUnstep(text, lo, fields, rest);
      var later := fields[1..];
      SplitOfLine(text, p + 1, later, rest);
      SplitHead(text, lo, |later| + 1, p);
      assert [fields[0]] + later == fields;
    }
  }

  /** Every text is the line of its parts. */
  lemma {:induction false} LineOfSplit(text: seq<byte>, lo: nat, n: nat) returns (fields: seq<seq<byte>>, rest: seq<byte>)
    requires lo <= |text|
    ensures fields == Texts(text, Split(text, lo, n)) && rest == text[RestAt(text, lo, n)..]
    ensures AllSpaceFree(fields) && text[lo..] == Line(fields, rest)
    decreases n
  {
    var p := Find(text, lo, BLANK);
    if n == 0 || p == |text| {
      NoSplit(text, lo, n);
      return [], text[lo..];
    }
    assert SpaceFree(text[lo..p]) && text[p] == BLANK by {
      FindIsFirst(text, lo, BLANK);
    }
    var later;
    later, rest := LineOfSplit(text, p + 1, n - 1);
    fields := [text[lo..p]] + later;
    SplitStep(text, lo, n, p, later, rest);
  }

  lemma SplitStep(text: seq<byte>, lo: nat, n: nat, p: nat, later: seq<seq<byte>>, rest: seq<byte>)
    requires lo <= |text| && 0 < n && p == Find(text, lo, BLANK) < |text| && SpaceFree(text[lo..p]) && text[p] == BLANK
    requires later == Texts(text, Split(text, p + 1, n - 1)) && rest == text[RestAt(text, p + 1, n - 1)..]
    requires AllSpaceFree(later) && text[p + 1..] == Line(later, rest)
    ensures [text[lo..p]] + later == Texts(text, Split(text, lo, n)) && rest == text[RestAt(text, lo, n)..]
    ensures AllSpaceFree([text[lo..p]] + later) && text[lo..] == Line([text[lo..p]] + later, rest)
  {
    LineStep(text, lo, p, later, rest);
    SplitHead(text, lo, n, p);
  }

  lemma NoSplit(text: seq<byte>, lo: nat, n: nat)
    requires lo <= |text| && (n == 0 || Find(text, lo, BLANK) == |text|)
    ensures Texts(text, Split(text, lo, n)) == [] && RestAt(text, lo, n) == lo
  {
  }

  lemma {:induction false} RestAfterSplit(text: seq<byte>, lo: nat, n: nat)
    requires lo <= |text| && |Split(text, lo, n)| == n > 0
    ensures RestAt(text, lo, n) == Split(text, lo, n)[n - 1].hi + 1
    decreases n
  {
    var p := Find(text, lo, BLANK);
    if 1 < n {
      RestAfterSplit(text, p + 1, n - 1);
    }
  }

  // ---------------------------------------------------------------------------------------------
  // Rendering
  // ---------------------------------------------------------------------------------------------

  datatype Record = Record(
    facility: nat, severity: nat,
    timestamp: seq<byte>, hostname: seq<byte>, app: seq<byte>, procid: seq<byte>, msgid: seq<byte>,
    msg: seq<byte>)

  function Digits(n: nat): (r: seq<byte>)
    ensures r != [] && (n < 10 ==> |r| == 1) && (n < 100 ==> |r| <= 2) && (n < 1000 ==> |r| <= 3)
  {
    if n < 10 then [ZERO + n] else Digits(n / 10) + [ZERO + n % 10]
  }

  lemma {:induction false} DigitsDecimal(n: nat)
    ensures AllDigits(Digits(n)) && Decimal(Digits(n)) == n
  {
    if n < 10 {
      assert Digits(n)[..0] == [];
    } else {
      DigitsDecimal(n / 10);
      assert Digits(n)[..|Digits(n)| - 1] == Digits(n / 10);
    }
  }

  function HeaderFields(r: Record): seq<seq<byte>> { [r.timestamp, r.hostname, r.app, r.procid, r.msgid] }

  const VERSION: seq<byte> := [GT, ONE, BLANK]
  const NO_DATA: seq<byte> := [DASH, BLANK]

  /** Section 6 of RFC 5424 with nil structured data: PRI, version 1, the header fields, "-", MSG. */
  function Render(r: Record): seq<byte> {
    [LT] + Digits(8 * r.facility + r.severity) + VERSION + Line(HeaderFields(r), NO_DATA + r.msg)
  }

  function Facility(priority: byte): nat { priority / 8 }

  function Severity(priority: byte): nat { priority % 8 }

  predicate Renderable(r: Record) {
    r.facility < 24 && r.severity < 8 && AllSpaceFree(HeaderFields(r)) && |Render(r)| <= BUFFER
  }

  /** What a window of the text holds; nil holds nothing. */
  function Content(text: seq<byte>, w: Window): Option<seq<byte>>
    requires w.Window? ==> w.lo <= w.hi <= |text|
  {
    if w.Nil? then None else Some(text[w.lo..w.hi])
  }

  function AsField(x: seq<byte>): Option<seq<byte>> { if x == [DASH] then None else Some(x) }

  predicate TimestampOk(x: seq<byte>, clock: Clock) {
    x == [DASH] || (|x| <= 32 && clock.rfc3339(x).Some?)
  }

  /** The time a message gets from its timestamp: the time of receipt for "-". */
  function TimeOf(x: seq<byte>, now: int, clock: Clock): int
    requires TimestampOk(x, clock)
  {
    if x == [DASH] then now else clock.rfc3339(x).value
  }

  lemma ValueContent(text: seq<byte>, w: Window)
    requires w.Window? && w.lo <= w.hi <= |text|
    ensures Value(text, w).Window? ==> Value(text, w) == w
    ensures Content(text, Value(text, w)) == AsField(text[w.lo..w.hi])
    ensures Value(text, w) == Nil <==> text[w.lo..w.hi] == [DASH]
  {
    if w.hi == w.lo + 1 {
      assert text[w.lo..w.hi] == [text[w.lo]];
    }
  }

  lemma TimestampIs(text: seq<byte>, w: Window, now: int, clock: Clock)
    requires w.Window? && w.lo <= w.hi <= |text|
    ensures Timestamp(text, w, now, clock) ==
            if TimestampOk(text[w.lo..w.hi], clock) then Some(TimeOf(text[w.lo..w.hi], now, clock)) else None
  {
    ValueContent(text, w);
  }

  predicate Inside(text: seq<byte>, f: Fields) {
    forall k :: 0 <= k < 5 && Windows(f)[k].Window? ==> Windows(f)[k].lo <= Windows(f)[k].hi <= |text|
  }

  /** The parsed fields hold these five header fields (but for the timestamp) and this message. */
  ghost predicate Holds(text: seq<byte>, g: Fields, fields: seq<seq<byte>>, msg: seq<byte>)
    requires |fields| == 5
  {
    && Inside(text, g)
    && Content(text, Windows(g)[0]) == AsField(fields[1])
    && Content(text, Windows(g)[1]) == AsField(fields[2])
    && Content(text, Windows(g)[2]) == AsField(fields[3])
    && Content(text, Windows(g)[3]) == AsField(fields[4])
    && Content(text, Windows(g)[4]) == Some(msg)
  }

  lemma HeaderOfHolds(text: seq<byte>, f: Fields, time: int, parts: seq<Window>)
    requires |parts| == 5
    requires forall k :: 0 <= k < |parts| ==> parts[k].Window? && parts[k].lo <= parts[k].hi < |text|
    ensures Holds(text, HeaderOf(text, f, time, parts), Texts(text, parts), text[parts[4].hi + 1..])
  {
    ValueContent(text, parts[1]);
    ValueContent(text, parts[2]);
    ValueContent(text, parts[3]);
    ValueContent(text, parts[4]);
    assert text[parts[4].hi + 1..|text|] == text[parts[4].hi + 1..];
  }

  lemma NoDataIs(text: seq<byte>, lo: nat)
    requires lo <= |text|
    ensures HasNoData(text, lo) <==> NO_DATA <= text[lo..]
    ensures HasNoData(text, lo) ==> text[lo + 2..|text|] == text[lo..][2..]
  {
  }

  lemma HoldsLater(text: seq<byte>, h: Fields, fields: seq<seq<byte>>, msg: seq<byte>)
    requires |fields| == 5 && Holds(text, h, fields, msg) && h.msg.Window? && h.msg.lo + 2 <= |text|
    ensures Holds(text, h.(msg := Window(h.msg.lo + 2, |text|)), fields, text[h.msg.lo + 2..|text|])
  {
    var ws, later := Windows(h), Windows(h.(msg := Window(h.msg.lo + 2, |text|)));
    assert forall k :: 0 <= k < 4 ==> later[k] == ws[k];
  }

  /** A modern message is accepted exactly when it has five header fields, of which the first is a
      timestamp the clock accepts, and nil structured data; the parsed fields and the message then
      hold what stood there. */
  lemma ModernExactly(text: seq<byte>, f: Fields, lo: nat, clock: Clock) returns (fields: seq<seq<byte>>, rest: seq<byte>)
    requires lo <= |text|
    ensures fields == Texts(text, Split(text, lo, 5)) && rest == text[RestAt(text, lo, 5)..]
    ensures var (ok, g) := Modern(text, f, lo, clock);
            && (ok <==> |fields| == 5 && TimestampOk(fields[0], clock) && NO_DATA <= rest)
            && (ok ==> g.priority == f.priority && g.time == TimeOf(fields[0], f.time, clock) && Holds(text, g, fields, rest[2..]))
  {
    var parts := Split(text, lo, 5);
    fields, rest := Texts(text, parts), text[RestAt(text, lo, 5)..];
    if |parts| == 5 {
      TimestampIs(text, parts[0], f.time, clock);
      var t := Timestamp(text, parts[0], f.time, clock);
      if t.Some? {
        ModernAfterHeader(text, f, lo, clock, parts, t.value);
      }
    }
  }

  lemma ModernAfterHeader(text: seq<byte>, f: Fields, lo: nat, clock: Clock, parts: seq<Window>, time: int)
    requires lo <= |text| && parts == Split(text, lo, 5) && |parts| == 5
    requires Timestamp(text, parts[0], f.time, clock) == Some(time)
    ensures var (ok, g) := Modern(text, f, lo, clock);
            var rest := text[RestAt(text, lo, 5)..];
            && (ok <==> NO_DATA <= rest)
            && (ok ==> g.priority == f.priority && g.time == time && Holds(text, g, Texts(text, parts), rest[2..]))
  {
    assert RestAt(text, lo, 5) == parts[4].hi + 1 by { RestAfterSplit(text, lo, 5); }
    var h := HeaderOf(text, f, time, parts);
    AfterHeader(text, f, time, parts);
    ModernIs(text, f, lo, clock, parts, time);
    if HasNoData(text, h.msg.lo) {
      assert Modern(text, f, lo, clock).1 == h.(msg := Window(h.msg.lo + 2, |text|));
    }
  }

  lemma ModernIs(text: seq<byte>, f: Fields, lo: nat, clock: Clock, parts: seq<Window>, time: int)
    requires lo <= |text| && parts == Split(text, lo, 5) && |parts| == 5
    requires Timestamp(text, parts[0], f.time, clock) == Some(time)
    ensures var h := HeaderOf(text, f, time, parts);
            && h.priority == f.priority && h.time == time && h.msg.lo == parts[4].hi + 1
            && Modern(text, f, lo, clock) ==
                 if HasNoData(text, h.msg.lo) then (true, h.(msg := Window(h.msg.lo + 2, |text|))) else (false, h)
  {
    assert Header(text, f, lo, clock) == Some(HeaderOf(text, f, time, parts));
  }

  lemma AfterHeader(text: seq<byte>, f: Fields, time: int, parts: seq<Window>)
    requires |parts| == 5
    requires forall k :: 0 <= k < |parts| ==> parts[k].Window? && parts[k].lo <= parts[k].hi < |text|
    ensures var h, rest := HeaderOf(text, f, time, parts), text[parts[4].hi + 1..];
            && (HasNoData(text, h.msg.lo) <==> NO_DATA <= rest)
            && (HasNoData(text, h.msg.lo) ==>
                  Holds(text, h.(msg := Window(h.msg.lo + 2, |text|)), Texts(text, parts), rest[2..]))
  {
    var h := HeaderOf(text, f, time, parts);
    HeaderOfHolds(text, f, time, parts);
    NoDataIs(text, h.msg.lo);
    if HasNoData(text, h.msg.lo) {
      HoldsLater(text, h, Texts(text, parts), text[parts[4].hi + 1..]);
    }
  }

  // ---------------------------------------------------------------------------------------------
  // There and back
  // ---------------------------------------------------------------------------------------------

  /** "<", digits, ">1 " and a line of five fields: the priority, the version, and the rest. */
  lemma Opening(buf: seq<byte>, size: nat, ds: seq<byte>, line: seq<byte>)
    requires |buf| == BUFFER && size <= BUFFER && AllDigits(ds) && |ds| <= 3
    requires buf[..size] == [LT] + ds + VERSION + line
    ensures Priority(buf, size) == Pri(Decimal(ds) % 256, |ds| + 2)
    ensures HasVersion(buf[..size], |ds| + 2) && buf[..size][|ds| + 4..] == line
  {
    var text := buf[..size];
    OpeningText(text, ds, line);
    assert forall i :: 0 <= i < size ==> buf[i] == text[i];
    assert buf[1..1 + |ds|] == text[1..1 + |ds|];
    PriorityOf(buf, size, |ds|);
  }

  lemma OpeningText(text: seq<byte>, ds: seq<byte>, line: seq<byte>)
    requires text == [LT] + ds + VERSION + line
    ensures |text| == 4 + |ds| + |line| && text[0] == LT && text[1..1 + |ds|] == ds && text[1 + |ds|] == GT
    ensures HasVersion(text, |ds| + 2) && text[|ds| + 4..] == line
  {
  }

  /** The path of `parse` through a priority and a version. */
  lemma ModernPath(buf: seq<byte>, size: nat, f: Fields, clock: Clock)
    requires |buf| == BUFFER && size <= BUFFER
    requires Priority(buf, size).Pri? && Priority(buf, size).after <= size && HasVersion(buf[..size], Priority(buf, size).after)
    ensures var pri := Priority(buf, size);
            var (ok, g) := Modern(buf[..size], f.(priority := pri.value, msg := Window(pri.after + 2, size)), pri.after + 2, clock);
            Parse(buf, size, f, clock) == (Returned(ok), g)
  {
  }

  lemma ModernOfLine(text: seq<byte>, f: Fields, lo: nat, fields: seq<seq<byte>>, msg: seq<byte>, clock: Clock)
    requires lo <= |text| && |fields| == 5 && AllSpaceFree(fields) && text[lo..] == Line(fields, NO_DATA + msg)
    ensures var (ok, g) := Modern(text, f, lo, clock);
            && ok == TimestampOk(fields[0], clock)
            && (ok ==> g.priority == f.priority && g.time == TimeOf(fields[0], f.time, clock) && Holds(text, g, fields, msg))
  {
    SplitOfLine(text, lo, fields, NO_DATA + msg);
    assert (NO_DATA + msg)[2..] == msg;
    var fs, rest := ModernExactly(text, f, lo, clock);
  }

  /** Parsing a rendered message succeeds exactly when its timestamp is one the clock accepts, and
      gives back facility, severity, time, every header field and every byte of the message. */
  lemma RoundTrip(r: Record, stale: seq<byte>, f: Fields, clock: Clock)
    requires Renderable(r) && |Render(r)| + |stale| == BUFFER
    ensures var (v, g) := Parse(Render(r) + stale, |Render(r)|, f, clock);
            && v == Returned(TimestampOk(r.timestamp, clock))
            && (v == Returned(true) ==>
                  && Facility(g.priority) == r.facility && Severity(g.priority) == r.severity
                  && g.time == TimeOf(r.timestamp, f.time, clock)
                  && Holds(Render(r), g, HeaderFields(r), r.msg))
  {
    var text, buf, pri := Render(r), Render(r) + stale, 8 * r.facility + r.severity;
    DigitsDecimal(pri);
    PriParts(r.facility, r.severity);
    assert buf[..|text|] == text;
    ParseOfLine(buf, |text|, Digits(pri), HeaderFields(r), r.msg, f, clock);
    assert Parse(buf, |text|, f, clock).0 == Returned(true) ==> Parse(buf, |text|, f, clock).1.priority == pri;
  }

  lemma PriParts(facility: nat, severity: nat)
    requires facility < 24 && severity < 8
    ensures var pri := 8 * facility + severity;
            pri < 256 && Facility(pri) == facility && Severity(pri) == severity && Decimal(Digits(pri)) % 256 == pri
  {
    DigitsDecimal(8 * facility + severity);
  }

  lemma ParseOfLine(buf: seq<byte>, size: nat, ds: seq<byte>, fields: seq<seq<byte>>, msg: seq<byte>, f: Fields, clock: Clock)
    requires |buf| == BUFFER && size <= BUFFER && AllDigits(ds) && |ds| <= 3 && |fields| == 5 && AllSpaceFree(fields)
    requires buf[..size] == [LT] + ds + VERSION + Line(fields, NO_DATA + msg)
    ensures var (v, g) := Parse(buf, size, f, clock);
            && v == Returned(TimestampOk(fields[0], clock))
            && (v == Returned(true) ==>
                  g.priority == Decimal(ds) % 256 && g.time == TimeOf(fields[0], f.time, clock) && Holds(buf[..size], g, fields, msg))
  {
    Opening(buf, size, ds, Line(fields, NO_DATA + msg));
    ModernPath(buf, size, f, clock);
    var pri := Priority(buf, size);
    ModernOfLine(buf[..size], f.(priority := pri.value, msg := Window(pri.after + 2, size)), pri.after + 2, fields, msg, clock);
  }

  function Raw(text: seq<byte>, w: Window): seq<byte>
    requires w.Window? ==> w.lo <= w.hi <= |text|
  {
    if w.Nil? then [DASH] else text[w.lo..w.hi]
  }

  /** The header fields and the message, rendered again from their windows. */
  function Rerendered(text: seq<byte>, ts: seq<byte>, g: Fields): seq<byte>
    requires Inside(text, g)
  {
    var ws := Windows(g);
    Line([ts, Raw(text, ws[0]), Raw(text, ws[1]), Raw(text, ws[2]), Raw(text, ws[3])], NO_DATA + Raw(text, ws[4]))
  }

  lemma ModernIsRendered(text: seq<byte>, f: Fields, lo: nat, clock: Clock) returns (ts: seq<byte>)
    requires lo <= |text| && Modern(text, f, lo, clock).0
    ensures var g := Modern(text, f, lo, clock).1;
            g.priority == f.priority && TimestampOk(ts, clock) && Inside(text, g) && text[lo..] == Rerendered(text, ts, g)
  {
    var fields, rest := ModernExactly(text, f, lo, clock);
    var fields', rest' := LineOfSplit(text, lo, 5);
    ts := fields[0];
    RawFields(text, Modern(text, f, lo, clock).1, fields, rest[2..]);
    FiveOf(fields);
    assert rest == NO_DATA + rest[2..];
  }

  lemma FiveOf(s: seq<seq<byte>>)
    requires |s| == 5
    ensures s == [s[0], s[1], s[2], s[3], s[4]]
  {
  }

  /** The other way round: any message accepted on the RFC 5424 path is the rendering of its own
      parsed fields, with some digits for the priority and some accepted timestamp. */
  lemma ParsedIsRendered(buf: seq<byte>, size: nat, f: Fields, clock: Clock) returns (ds: seq<byte>, ts: seq<byte>)
    requires |buf| == BUFFER && size <= BUFFER
    requires Parse(buf, size, f, clock).0 == Returned(true)
    requires HasVersion(buf[..size], Priority(buf, size).after)
    ensures var text, g := buf[..size], Parse(buf, size, f, clock).1;
            && AllDigits(ds) && Decimal(ds) % 256 == g.priority && TimestampOk(ts, clock) && Inside(text, g)
            && text == [LT] + ds + VERSION + Rerendered(text, ts, g)
  {
    var after := Priority(buf, size).after;
    PriorityValue(buf, size);
    ds := buf[1..after - 1];
    PriorityOf(buf, size, after - 2);
    ModernPath(buf, size, f, clock);
    ts := ModernIsRendered(buf[..size], f.(priority := Priority(buf, size).value, msg := Window(after + 2, size)), after + 2, clock);
    OpeningBack(buf, size, after);
  }

  lemma RawFields(text: seq<byte>, g: Fields, fields: seq<seq<byte>>, msg: seq<byte>)
    requires |fields| == 5 && Holds(text, g, fields, msg)
    ensures Raw(text, Windows(g)[0]) == fields[1] && Raw(text, Windows(g)[1]) == fields[2]
    ensures Raw(text, Windows(g)[2]) == fields[3] && Raw(text, Windows(g)[3]) == fields[4]
    ensures Raw(text, Windows(g)[4]) == msg
  {
  }

  lemma OpeningBack(buf: seq<byte>, size: nat, after: nat)
    requires 2 <= after <= size <= |buf| && HasVersion(buf[..size], after) && PriOf(buf, after - 2)
    ensures buf[..size] == [LT] + buf[1..after - 1] + VERSION + buf[..size][after + 2..]
  {
    var text, ds := buf[..size], buf[1..after - 1];
    var whole := [LT] + ds + VERSION + text[after + 2..];
    assert |whole| == |text|;
    forall i | 0 <= i < |text| ensures text[i] == whole[i] {
      if after + 2 <= i { assert whole[i] == text[after + 2..][i - (after + 2)]; }
    }
  }

  lemma RestRequired(text: seq<byte>, f: Fields, lo: nat, fields: seq<seq<byte>>, clock: Clock)
    requires lo <= |text| && |fields| == 5 && AllSpaceFree(fields) && text[lo..] == Line(fields, [DASH])
    ensures !Modern(text, f, lo, clock).0
  {
    SplitOfLine(text, lo, fields, [DASH]);
    var fs, rest := ModernExactly(text, f, lo, clock);
  }

  /** Section 6 of RFC 5424 without a MSG: the message ends after its nil structured data. */
  function RenderWithoutMsg(r: Record): seq<byte> {
    [LT] + Digits(8 * r.facility + r.severity) + VERSION + Line(HeaderFields(r), [DASH])
  }

  /** That form is allowed, and this parser refuses every message in it. */
  lemma MessageRequired(r: Record, stale: seq<byte>, f: Fields, clock: Clock)
    requires r.facility < 24 && r.severity < 8 && AllSpaceFree(HeaderFields(r)) && |RenderWithoutMsg(r)| + |stale| == BUFFER
    ensures Parse(RenderWithoutMsg(r) + stale, |RenderWithoutMsg(r)|, f, clock).0 == Returned(false)
  {
    var text, buf, pri := RenderWithoutMsg(r), RenderWithoutMsg(r) + stale, 8 * r.facility + r.severity;
    DigitsDecimal(pri);
    assert buf[..|text|] == text;
    RefusedLine(buf, |text|, Digits(pri), HeaderFields(r), f, clock);
  }

  lemma RefusedLine(buf: seq<byte>, size: nat, ds: seq<byte>, fields: seq<seq<byte>>, f: Fields, clock: Clock)
    requires |buf| == BUFFER && size <= BUFFER && AllDigits(ds) && |ds| <= 3 && |fields| == 5 && AllSpaceFree(fields)
    requires buf[..size] == [LT] + ds + VERSION + Line(fields, [DASH])
    ensures Parse(buf, size, f, clock).0 == Returned(false)
  {
    Opening(buf, size, ds, Line(fields, [DASH]));
    ModernPath(buf, size, f, clock);
    var pri := Priority(buf, size);
    RestRequired(buf[..size], f.(priority := pri.value, msg := Window(pri.after + 2, size)), pri.after + 2, fields, clock);
  }

  // ---------------------------------------------------------------------------------------------
  // The legacy tag
  // ---------------------------------------------------------------------------------------------

  /** "[procid]" for a process id, nothing for none. */
  function Bracketed(pid: Option<seq<byte>>): seq<byte> {
    if pid.None? then [] else [OPEN] + pid.value + [CLOSE]
  }

  /** `pid`, `colon` and what starts at `r` follow each other from `t` on, with nothing between. */
  ghost predicate Conserved(text: seq<byte>, t: nat, pid: seq<byte>, colon: seq<byte>, r: nat) {
    && t + |pid| + |colon| == r <= |text|
    && text[t..t + |pid|] == pid
    && text[t + |pid|..r] == colon
  }

  /** So the parts, end to end, are the text. */
  lemma ConservedWhole(text: seq<byte>, lo: nat, t: nat, pid: seq<byte>, colon: seq<byte>, r: nat)
    requires lo <= t && Conserved(text, t, pid, colon, r)
    ensures text[lo..] == text[lo..t] + pid + colon + text[r..]
  {
  }

  /** The app name is the longest run of tag bytes, and there is a process id exactly if a bracket opens
      right after it and closes anywhere: up to the first that closes. */
  ghost predicate TagNames(text: seq<byte>, lo: nat, g: Fields) {
    && g.app.Window? && g.app.lo == lo <= g.app.hi < |text|
    && (forall i :: lo <= i < g.app.hi ==> IsTagByte(text[i])) && !IsTagByte(text[g.app.hi])
    && (g.procid.Window? <==> text[g.app.hi] == OPEN && CLOSE in text[g.app.hi + 1..])
    && (g.procid.Window? ==> g.procid.lo <= g.procid.hi <= |text| && CLOSE !in text[g.procid.lo..g.procid.hi])
  }

  /** After the app name come the bracketed process id, an optional ": " and the message, without a gap. */
  ghost predicate TagTail(text: seq<byte>, g: Fields, colon: seq<byte>)
    requires g.app.Window? && (g.procid.Window? ==> g.procid.lo <= g.procid.hi <= |text|)
  {
    && (colon == [] || colon == COLON_BLANK)
    && g.msg.Window? && g.msg.lo <= g.msg.hi == |text|
    && (colon == [] ==> !(COLON_BLANK <= text[g.msg.lo..]))
    && Conserved(text, g.app.hi, Bracketed(Content(text, g.procid)), colon, g.msg.lo)
  }

  ghost predicate TagParts(text: seq<byte>, lo: nat, g: Fields, colon: seq<byte>) {
    TagNames(text, lo, g) && TagTail(text, g, colon)
  }

  /** Tag parsing conserves bytes. Either every byte is a tag byte and nothing is taken, or the parts of
      the tag and the message follow each other without a gap. */
  lemma TagConserves(text: seq<byte>, f: Fields, lo: nat) returns (colon: seq<byte>)
    requires lo <= |text| && f.msg == Window(lo, |text|) && f.procid == Nil
    ensures var g := Tag(text, f, lo);
            if TagEnd(text, lo) == |text| then
              (forall i :: lo <= i < |text| ==> IsTagByte(text[i])) && g == f.(app := Nil, procid := Nil)
            else TagParts(text, lo, g, colon)
  {
    var t := TagEnd(text, lo);
    if t == |text| {
      TagEndIsLongest(text, lo);
      colon := [];
    } else if text[t] == OPEN && Find(text, t + 1, CLOSE) < |text| {
      colon := ClosedTagParts(text, f, lo, t, Find(text, t + 1, CLOSE));
    } else {
      colon := OpenTagParts(text, f, lo, t);
    }
  }

  lemma ClosedTagParts(text: seq<byte>, f: Fields, lo: nat, t: nat, q: nat) returns (colon: seq<byte>)
    requires lo <= |text| && f.msg == Window(lo, |text|)
    requires t == TagEnd(text, lo) < |text| && text[t] == OPEN && q == Find(text, t + 1, CLOSE) < |text|
    ensures TagParts(text, lo, Tag(text, f, lo), colon)
  {
    var g := Tag(text, f, lo);
    assert g.app == Window(lo, t) && g.procid == Window(t + 1, q) && g.msg == Window(Trim(text, q + 1, COLON_BLANK), |text|);
    ClosedNames(text, lo, t, q, g);
    colon := ClosedTail(text, t, q, g);
  }

  lemma ClosedNames(text: seq<byte>, lo: nat, t: nat, q: nat, g: Fields)
    requires lo <= |text| && t == TagEnd(text, lo) < |text| && text[t] == OPEN && q == Find(text, t + 1, CLOSE) < |text|
    requires g.app == Window(lo, t) && g.procid == Window(t + 1, q)
    ensures TagNames(text, lo, g)
  {
    TagEndIsLongest(text, lo);
    FindMember(text, t + 1, CLOSE);
  }

  lemma ClosedTail(text: seq<byte>, t: nat, q: nat, g: Fields) returns (colon: seq<byte>)
    requires t < |text| && text[t] == OPEN && q == Find(text, t + 1, CLOSE) < |text|
    requires g.app.Window? && g.app.hi == t && g.procid == Window(t + 1, q) && g.msg == Window(Trim(text, q + 1, COLON_BLANK), |text|)
    ensures TagTail(text, g, colon)
  {
    var r := Trim(text, q + 1, COLON_BLANK);
    colon := text[q + 1..r];
    assert text[q] == CLOSE by { FindMember(text, t + 1, CLOSE); }
    TrimSplits(text, q + 1);
    ClosedTag(text, t, q, r);
  }

  lemma OpenTagParts(text: seq<byte>, f: Fields, lo: nat, t: nat) returns (colon: seq<byte>)
    requires lo <= |text| && f.msg == Window(lo, |text|) && f.procid == Nil
    requires t == TagEnd(text, lo) < |text| && (text[t] == OPEN ==> Find(text, t + 1, CLOSE) == |text|)
    ensures TagParts(text, lo, Tag(text, f, lo), colon)
  {
    var g := Tag(text, f, lo);
    assert g.app == Window(lo, t) && g.procid == Nil && g.msg == Window(Trim(text, t, COLON_BLANK), |text|);
    TagEndIsLongest(text, lo);
    FindMember(text, t + 1, CLOSE);
    assert TagNames(text, lo, g);
    colon := OpenTail(text, t, g);
  }

  lemma OpenTail(text: seq<byte>, t: nat, g: Fields) returns (colon: seq<byte>)
    requires t < |text| && g.app.Window? && g.app.hi == t && g.procid == Nil && g.msg == Window(Trim(text, t, COLON_BLANK), |text|)
    ensures TagTail(text, g, colon)
  {
    var r := Trim(text, t, COLON_BLANK);
    colon := text[t..r];
    TrimSplits(text, t);
    OpenTag(text, t, r);
  }

  /** What is found is there, and nothing before it is. */
  lemma FindMember(text: seq<byte>, lo: nat, c: byte)
    requires lo <= |text|
    ensures var p := Find(text, lo, c);
            && (p < |text| <==> c in text[lo..]) && c !in text[lo..p] && (p < |text| ==> text[p] == c)
  {
    FindIsFirst(text, lo, c);
    var p := Find(text, lo, c);
    if p < |text| {
      assert text[lo..][p - lo] == c;
    }
  }

  lemma ClosedTag(text: seq<byte>, t: nat, q: nat, r: nat)
    requires t < q < r <= |text| && text[t] == OPEN && text[q] == CLOSE
    ensures Conserved(text, t, Bracketed(Content(text, Window(t + 1, q))), text[q + 1..r], r)
  {
    assert text[t..q + 1] == [OPEN] + text[t + 1..q] + [CLOSE];
  }

  lemma OpenTag(text: seq<byte>, t: nat, r: nat)
    requires t <= r <= |text|
    ensures Conserved(text, t, Bracketed(Content(text, Nil)), text[t..r], r)
  {
  }

  lemma TrimSplits(text: seq<byte>, lo: nat)
    requires lo <= |text|
    ensures var r := Trim(text, lo, COLON_BLANK);
            && (text[lo..r] == [] || text[lo..r] == COLON_BLANK)
            && (text[lo..r] == [] ==> !(COLON_BLANK <= text[r..]))
  {
    if lo + 2 <= |text| {
      assert text[lo..lo + 2] == text[lo..][..2];
    }
  }

  /** After the timestamp, the tag and all trims, the message is a suffix of what was received. */
  lemma LegacySuffix(text: seq<byte>, f: Fields, lo: nat, clock: Clock)
    requires lo <= |text|
    ensures var g := Legacy(text, f, lo, clock);
            && g.msg.Window? && lo <= g.msg.lo <= g.msg.hi == |text| && g.hostname == Nil
            && Content(text, g.msg) == Some(text[lo..][g.msg.lo - lo..])
  {
    var g := Legacy(text, f, lo, clock);
    assert text[g.msg.lo..|text|] == text[lo..][g.msg.lo - lo..];
  }
}
