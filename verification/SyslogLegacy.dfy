/** What a legacy message means, said of byte strings: its stamp, its tag, its message. */
module SyslogLegacy {
  import opened Seqs
  import opened SyslogMessage
  import opened SyslogLaws
  import opened SyslogFormat

  /** The size of the buffer, and the bytes that decide, as characters. */
  lemma Marks(c: byte)
    ensures BUFFER == 2048
    ensures c == LT <==> c as char == '<'
    ensures c == GT <==> c as char == '>'
    ensures c == OPEN <==> c as char == '['
    ensures c == CLOSE <==> c as char == ']'
    ensures c == DASH <==> c as char == '-'
    ensures c == ONE <==> c as char == '1'
    ensures c == CR <==> c as char == '\r'
    ensures IsDigit(c) <==> '0' <= c as char <= '9'
    ensures IsTagByte(c) <==>
              var x := c as char;
              '0' <= x <= '9' || 'a' <= x <= 'z' || 'A' <= x <= 'Z' || x == '-' || x == '_' || x == '/' || x == '.'
  {
  }

  // ---------------------------------------------------------------------------------------------
  // The tag
  // ---------------------------------------------------------------------------------------------

  datatype Tagged = Tagged(app: Option<seq<byte>>, procid: Option<seq<byte>>, msg: seq<byte>)

  ghost predicate AllTagBytes(b: seq<byte>) { forall i :: 0 <= i < |b| ==> IsTagByte(b[i]) }

  /** Text `b` is an app name, the longest run of tag bytes; a bracketed process id, if a bracket opens there
      and closes; an optional ": "; and the message. Text that is all tag bytes is all message. */
  ghost predicate TaggedAs(b: seq<byte>, r: Tagged, colon: seq<byte>) {
    if AllTagBytes(b) then r == Tagged(None, None, b)
    else
      && r.app.Some? && b == r.app.value + Bracketed(r.procid) + colon + r.msg
      && |r.app.value| < |b| && AllTagBytes(r.app.value) && !IsTagByte(b[|r.app.value|])
      && (r.procid.Some? <==> b[|r.app.value|] == OPEN && CLOSE in b[|r.app.value| + 1..])
      && (r.procid.Some? ==> CLOSE !in r.procid.value)
      && (colon == [] || colon == COLON_BLANK)
      && (colon == [] ==> !(COLON_BLANK <= r.msg))
  }

  lemma TagReads(text: seq<byte>, f: Fields, lo: nat) returns (r: Tagged, colon: seq<byte>)
    requires lo <= |text| && f.msg == Window(lo, |text|) && f.procid == Nil
    ensures TaggedAs(text[lo..], r, colon)
    ensures var g := Tag(text, f, lo);
            Shows(text, g.app, r.app) && Shows(text, g.procid, r.procid) && text[g.msg.lo..] == r.msg
  {
    var g, b := Tag(text, f, lo), text[lo..];
    colon := TagConserves(text, f, lo);
    if TagEnd(text, lo) == |text| {
      assert AllTagBytes(b);
      r := Tagged(None, None, b);
    } else {
      r := Tagged(Content(text, g.app), Content(text, g.procid), text[g.msg.lo..]);
      PartsRead(text, lo, g, colon);
    }
  }

  lemma PartsRead(text: seq<byte>, lo: nat, g: Fields, colon: seq<byte>)
    requires lo <= |text| && TagParts(text, lo, g, colon)
    ensures TaggedAs(text[lo..], Tagged(Content(text, g.app), Content(text, g.procid), text[g.msg.lo..]), colon)
  {
    var b, t := text[lo..], g.app.hi;
    ConservedWhole(text, lo, t, Bracketed(Content(text, g.procid)), colon, g.msg.lo);
    assert b[t - lo] == text[t] && b[t - lo + 1..] == text[t + 1..];
    assert !AllTagBytes(b);
    assert AllTagBytes(text[lo..t]);
  }

  // ---------------------------------------------------------------------------------------------
  // The trims
  // ---------------------------------------------------------------------------------------------

  /** `b` without `prefix` at its front, if it stands there. */
  function Without(b: seq<byte>, prefix: seq<byte>): seq<byte> { if prefix <= b then b[|prefix|..] else b }

  lemma TrimIs(text: seq<byte>, lo: nat, prefix: seq<byte>)
    requires lo <= |text|
    ensures text[Trim(text, lo, prefix)..] == Without(text[lo..], prefix)
  {
    if lo + |prefix| <= |text| {
      assert text[lo..lo + |prefix|] == text[lo..][..|prefix|];
    }
  }

  /** The names of the severities of section 6.2.1 of RFC 5424, as the parser prints them. */
  function SeverityName(severity: nat): string {
    if severity == 0 then "EMERG" else if severity == 1 then "ALERT" else if severity == 2 then "CRIT"
    else if severity == 3 then "ERR" else if severity == 4 then "WARNING" else if severity == 5 then "NOTICE"
    else if severity == 6 then "INFO" else "DEBUG"
  }

  predicate Ascii(s: string) { forall i :: 0 <= i < |s| ==> s[i] < 128 as char }

  lemma NameThenColon(severity: nat)
    requires severity < 8
    ensures Ascii(SeverityName(severity)) && Bytes(SeverityName(severity)) + COLON_BLANK == SeverityPrefix(severity)
  {
    var name := SeverityName(severity);
    var all := ["EMERG: ", "ALERT: ", "CRIT: ", "ERR: ", "WARNING: ", "NOTICE: ", "INFO: ", "DEBUG: "][severity];
    assert all == name + ": ";
    assert Bytes(all)[|name|] == COLON && Bytes(all)[|name| + 1] == BLANK;
    assert forall i :: 0 <= i < |name| ==> Bytes(all)[i] == Bytes(name)[i];
  }

  /** A message with severity and ": ", then the time prefix, then a carriage return taken off its front,
      each exactly where it stands there. */
  function Stripped(msg: seq<byte>, severity: nat, time: int, clock: Clock): seq<byte>
    requires severity < 8
  {
    NameThenColon(severity);
    Without(Without(Without(msg, Bytes(SeverityName(severity)) + COLON_BLANK), clock.prefix(time)), [CR])
  }

  lemma TrimmedIs(text: seq<byte>, lo: nat, priority: byte, time: int, clock: Clock)
    requires lo <= |text|
    ensures text[Trimmed(text, lo, priority, time, clock)..] == Stripped(text[lo..], priority % 8, time, clock)
  {
    var severity := SeverityPrefix(priority % 8);
    NameThenColon(priority % 8);
    var a := Trim(text, lo, severity);
    TrimIs(text, lo, severity);
    var b := Trim(text, a, clock.prefix(time));
    TrimIs(text, a, clock.prefix(time));
    TrimIs(text, b, [CR]);
    assert Trimmed(text, lo, priority, time, clock) == Trim(text, b, [CR]) by {
      if b < |text| { assert text[b..b + 1] == [text[b]]; }
    }
  }

  // ---------------------------------------------------------------------------------------------
  // The whole message
  // ---------------------------------------------------------------------------------------------

  /** The fields read `body` as a legacy message of this time. */
  ghost predicate LegacyReads(text: seq<byte>, g: Fields, body: seq<byte>, time: int, clock: Clock, r: Tagged, colon: seq<byte>) {
    && TaggedAs(body, r, colon)
    && g.time == time && g.hostname == Nil && g.msgid == Nil
    && Shows(text, g.app, r.app)
    && Shows(text, g.procid, r.procid)
    && Shows(text, g.msg, Some(Stripped(r.msg, g.priority % 8, time, clock)))
  }

  /** A window of the text, and what it holds. */
  predicate Shows(text: seq<byte>, w: Window, x: Option<seq<byte>>) {
    (w.Window? ==> w.lo <= w.hi <= |text|) && Content(text, w) == x
  }

  /** Text `b` starts with the 15 bytes of a stamp the clock accepts, and a blank. */
  predicate StampedBy(b: seq<byte>, x: seq<byte>, clock: Clock) {
    |x| == 15 && x + [BLANK] <= b && clock.stamp(x).Some?
  }

  /** The fields once the tag has been read and the front of the message trimmed. */
  function AfterTag(text: seq<byte>, f: Fields, start: nat, time: int, clock: Clock): Fields
    requires start <= |text|
  {
    var tagged := Tag(text, f.(time := time, hostname := Nil, msg := Window(start, |text|)), start);
    tagged.(msg := Window(Trimmed(text, tagged.msg.lo, f.priority, time, clock), |text|))
  }

  lemma TaggedReads(text: seq<byte>, f: Fields, start: nat, time: int, clock: Clock) returns (r: Tagged, colon: seq<byte>)
    requires start <= |text| && f.procid == Nil && f.msgid == Nil
    ensures var g := AfterTag(text, f, start, time, clock);
            g.priority == f.priority && LegacyReads(text, g, text[start..], time, clock, r, colon)
  {
    var before := f.(time := time, hostname := Nil, msg := Window(start, |text|));
    var tagged := Tag(text, before, start);
    r, colon := TagReads(text, before, start);
    assert tagged.priority == f.priority && tagged.time == time && tagged.hostname == Nil && tagged.msgid == Nil by {
      TagKeeps(text, before, start);
    }
    assert Shows(text, Window(Trimmed(text, tagged.msg.lo, f.priority, time, clock), |text|),
                 Some(Stripped(r.msg, f.priority % 8, time, clock))) by {
      MessageShows(text, tagged.msg.lo, f.priority, time, clock);
    }
  }

  lemma TagKeeps(text: seq<byte>, f: Fields, lo: nat)
    requires lo <= |text| && f.msg == Window(lo, |text|)
    ensures var g := Tag(text, f, lo);
            g.priority == f.priority && g.time == f.time && g.hostname == f.hostname && g.msgid == f.msgid
  {
  }

  lemma MessageShows(text: seq<byte>, lo: nat, priority: byte, time: int, clock: Clock)
    requires lo <= |text|
    ensures Shows(text, Window(Trimmed(text, lo, priority, time, clock), |text|),
                  Some(Stripped(text[lo..], priority % 8, time, clock)))
  {
    var to := Trimmed(text, lo, priority, time, clock);
    TrimmedIs(text, lo, priority, time, clock);
    assert text[to..|text|] == text[to..];
  }

  /** A stamp that is there: the tag and the message are those of the text after it, and the time is that of
      the stamp, corrected, or that of receipt for a zero stamp. */
  lemma LegacyStamped(text: seq<byte>, f: Fields, lo: nat, clock: Clock, x: seq<byte>) returns (r: Tagged, colon: seq<byte>)
    requires lo <= |text| && f.procid == Nil && f.msgid == Nil && StampedBy(text[lo..], x, clock)
    ensures var t := clock.stamp(x).value;
            var g := Legacy(text, f, lo, clock);
            && g.priority == f.priority
            && LegacyReads(text, g, text[lo..][16..], if clock.isZero(t) then f.time else clock.corrected(f.time, t), clock, r, colon)
  {
    var b, t := text[lo..], clock.stamp(x).value;
    assert b[..16] == x + [BLANK];
    assert b[..15] == x && b[15] == BLANK;
    assert text[lo..lo + 15] == b[..15] && text[lo + 15] == b[15] && text[lo + 16..] == b[16..];
    var time := if clock.isZero(t) then f.time else clock.corrected(f.time, t);
    r, colon := TaggedReads(text, f, lo + 16, time, clock);
    assert LegacyStamp(text, lo, f.time, clock) == (lo + 16, time);
    assert Legacy(text, f, lo, clock) == AfterTag(text, f, lo + 16, time, clock);
  }

  /** No stamp: the tag and the message are those of the text itself, and the time is that of receipt. */
  lemma LegacyUnstamped(text: seq<byte>, f: Fields, lo: nat, clock: Clock) returns (r: Tagged, colon: seq<byte>)
    requires lo <= |text| && f.procid == Nil && f.msgid == Nil && !exists x :: StampedBy(text[lo..], x, clock)
    ensures var g := Legacy(text, f, lo, clock);
            g.priority == f.priority && LegacyReads(text, g, text[lo..], f.time, clock, r, colon)
  {
    var b := text[lo..];
    if |b| > 15 && b[15] == BLANK {
      assert b[..15] + [BLANK] == b[..16];
      assert text[lo..lo + 15] == b[..15];
      assert !StampedBy(b, b[..15], clock);
    }
    r, colon := TaggedReads(text, f, lo, f.time, clock);
    assert LegacyStamp(text, lo, f.time, clock) == (lo, f.time);
    assert Legacy(text, f, lo, clock) == AfterTag(text, f, lo, f.time, clock);
  }

  // ---------------------------------------------------------------------------------------------
  // A whole datagram
  // ---------------------------------------------------------------------------------------------

  /** "<", digits, ">" and a body that does not start with the version: accepted, whatever the body. */
  lemma LegacyPath(ds: seq<byte>, body: seq<byte>, stale: seq<byte>, f: Fields, clock: Clock)
    requires AllDigits(ds) && |ds| <= 3 && |ds| + |body| >= 1 && |ds| + |body| + 2 + |stale| == BUFFER
    requires !([ONE, BLANK] <= body)
    ensures var text := [LT] + ds + [GT] + body;
            && text[|ds| + 2..] == body
            && Parse(text + stale, |text|, f, clock) ==
                 (Returned(true), Legacy(text, f.(priority := Decimal(ds) % 256, msg := Window(|ds| + 2, |text|)), |ds| + 2, clock))
  {
    var text, n := [LT] + ds + [GT] + body, |ds|;
    var buf := text + stale;
    assert buf[..|text|] == text && text[n + 2..] == body && text[1..1 + n] == ds;
    assert buf[1..1 + n] == text[1..1 + n] && buf[0] == text[0] && buf[1 + n] == text[1 + n];
    PriorityOf(buf, |text|, n);
    VersionIs(text, n + 2);
  }

  lemma VersionIs(text: seq<byte>, lo: nat)
    requires lo <= |text|
    ensures HasVersion(text, lo) <==> [ONE, BLANK] <= text[lo..]
  {
  }

  /** Every datagram with a priority and no version is accepted, and read as a legacy message: after its
      stamp, if it starts with one, and as a whole otherwise. */
  lemma LegacyExactly(ds: seq<byte>, body: seq<byte>, stale: seq<byte>, f: Fields, clock: Clock)
      returns (r: Tagged, colon: seq<byte>)
    requires AllDigits(ds) && |ds| <= 3 && |ds| + |body| >= 1 && |ds| + |body| + 2 + |stale| == BUFFER
    requires !([ONE, BLANK] <= body) && Cleared(f)
    ensures var text := [LT] + ds + [GT] + body;
            var (v, g) := Parse(text + stale, |text|, f, clock);
            && v == Returned(true) && g.priority == Decimal(ds) % 256
            && (forall x :: StampedBy(body, x, clock) ==>
                  var t := clock.stamp(x).value;
                  LegacyReads(text, g, body[16..], if clock.isZero(t) then f.time else clock.corrected(f.time, t), clock, r, colon))
            && ((forall x :: !StampedBy(body, x, clock)) ==> LegacyReads(text, g, body, f.time, clock, r, colon))
  {
    var text := [LT] + ds + [GT] + body;
    LegacyPath(ds, body, stale, f, clock);
    var f' := f.(priority := Decimal(ds) % 256, msg := Window(|ds| + 2, |text|));
    if x :| StampedBy(body, x, clock) {
      r, colon := LegacyStamped(text, f', |ds| + 2, clock, x);
      forall y | StampedBy(body, y, clock) ensures y == x { OneStamp(body, x, y, clock); }
    } else {
      r, colon := LegacyUnstamped(text, f', |ds| + 2, clock);
    }
  }

  lemma OneStamp(b: seq<byte>, x: seq<byte>, y: seq<byte>, clock: Clock)
    requires StampedBy(b, x, clock) && StampedBy(b, y, clock)
    ensures x == y
  {
    assert b[..16] == x + [BLANK] && b[..16] == y + [BLANK];
    assert x == b[..16][..15] && y == b[..16][..15];
  }
}
