/** The syslog message: one receive buffer and the windows its parser cuts out of it. */
module SyslogMessage {
  import opened Seqs

  const BUFFER: nat := 2048
  const STAMP_LENGTH: nat := 15      // the length of the layout of time.Stamp
  const RFC3339_LENGTH: nat := 32    // the length of the RFC 5424 timestamp layout

  const LT: byte := 60
  const GT: byte := 62
  const ZERO: byte := 48
  const ONE: byte := 49
  const NINE: byte := 57
  const BLANK: byte := 32
  const DASH: byte := 45
  const COLON: byte := 58
  const OPEN: byte := 91
  const CLOSE: byte := 93
  const CR: byte := 13

  /** A Go slice of the receive buffer: nil, or the window `buf[lo..hi]`. */
  datatype Window = Nil | Window(lo: nat, hi: nat)

  /** What Go's `time` package answers, as functions of what it is asked. */
  datatype Clock = Clock(
    rfc3339: seq<byte> -> Option<int>,
    stamp: seq<byte> -> Option<int>,
    isZero: int -> bool,
    corrected: (int, int) -> int,
    prefix: int -> seq<byte>)

  /** The message time and the parsed fields. */
  datatype Fields = Fields(
    time: int,
    priority: byte,
    hostname: Window,
    app: Window,
    procid: Window,
    msgid: Window,
    msg: Window)

  predicate Cleared(f: Fields) {
    f.priority == 0 && f.hostname == f.app == f.procid == f.msgid == f.msg == Nil
  }

  function Reset(f: Fields): Fields { Fields(f.time, 0, Nil, Nil, Nil, Nil, Nil) }

  predicate IsDigit(c: byte) { ZERO <= c <= NINE }

  predicate IsTagByte(c: byte) {
    IsDigit(c) || 97 <= c <= 122 || 65 <= c <= 90 || c == DASH || c == 95 || c == 47 || c == 46
  }

  // ---------------------------------------------------------------------------------------------
  // Scanning the text received
  // ---------------------------------------------------------------------------------------------

  /** The first position of `c` from `lo` on, or the end. */
  function Find(text: seq<byte>, lo: nat, c: byte): (p: nat)
    requires lo <= |text|
    ensures lo <= p <= |text|
    decreases |text| - lo
  {
    if lo == |text| || text[lo] == c then lo else Find(text, lo + 1, c)
  }

  /** The end of the longest run of tag bytes from `lo`. */
  function TagEnd(text: seq<byte>, lo: nat): (p: nat)
    requires lo <= |text|
    ensures lo <= p <= |text|
    decreases |text| - lo
  {
    if lo == |text| || !IsTagByte(text[lo]) then lo else TagEnd(text, lo + 1)
  }

  lemma {:induction false} FindIsFirst(text: seq<byte>, lo: nat, c: byte)
    requires lo <= |text|
    ensures var p := Find(text, lo, c);
            (forall i :: lo <= i < p ==> text[i] != c) && (p < |text| ==> text[p] == c)
    decreases |text| - lo
  {
    if lo < |text| && text[lo] != c {
      FindIsFirst(text, lo + 1, c);
    }
  }

  lemma {:induction false} TagEndIsLongest(text: seq<byte>, lo: nat)
    requires lo <= |text|
    ensures var p := TagEnd(text, lo);
            (forall i :: lo <= i < p ==> IsTagByte(text[i])) && (p < |text| ==> !IsTagByte(text[p]))
    decreases |text| - lo
  {
    if lo < |text| && IsTagByte(text[lo]) {
      TagEndIsLongest(text, lo + 1);
    }
  }

  /** The parts of `bytes.SplitN` on spaces that end in a space: the first `n`, or as many as there are. */
  function Split(text: seq<byte>, lo: nat, n: nat): (ws: seq<Window>)
    requires lo <= |text|
    ensures |ws| <= n
    ensures forall k :: 0 <= k < |ws| ==> ws[k].Window? && lo <= ws[k].lo <= ws[k].hi < |text|
    decreases n
  {
    var p := Find(text, lo, BLANK);
    if n == 0 || p == |text| then [] else [Window(lo, p)] + Split(text, p + 1, n - 1)
  }

  predicate HasPrefix(text: seq<byte>, lo: nat, prefix: seq<byte>)
    requires lo <= |text|
  {
    lo + |prefix| <= |text| && text[lo..lo + |prefix|] == prefix
  }

  /** The start of the rest once `bytes.TrimPrefix` has run. */
  function Trim(text: seq<byte>, lo: nat, prefix: seq<byte>): (r: nat)
    requires lo <= |text|
    ensures lo <= r <= |text|
  {
    if HasPrefix(text, lo, prefix) then lo + |prefix| else lo
  }

  /** `ignoreNil`: the one-byte window "-" is no value. */
  function Value(text: seq<byte>, w: Window): Window
    requires w.Window? ==> w.lo <= w.hi <= |text|
  {
    if w.Window? && w.hi == w.lo + 1 && text[w.lo] == DASH then Nil else w
  }

  // ---------------------------------------------------------------------------------------------
  // The grammar, step by step
  // ---------------------------------------------------------------------------------------------

  /** What the priority scan finds: no PRI, or its value and the position after its bracket. */
  datatype Pri = NoPri | Pri(value: byte, after: nat)

  /** The scan of `buf[1:5]` from its `i`-th byte on, in byte arithmetic. */
  function ScanPri(buf: seq<byte>, i: nat, pri: byte): (r: Pri)
    requires i <= 4 && 5 <= |buf|
    ensures r.Pri? ==> 2 + i <= r.after <= 5 && buf[r.after - 1] == GT
    decreases 4 - i
  {
    if i == 4 then NoPri
    else if buf[1 + i] == GT then Pri(pri, 2 + i)
    else if !IsDigit(buf[1 + i]) then NoPri
    else ScanPri(buf, i + 1, (pri * 10 + buf[1 + i] - ZERO) % 256)
  }

  /** The scan looks at the whole buffer, whatever the size received. */
  function Priority(buf: seq<byte>, size: nat): (r: Pri)
    requires |buf| == BUFFER
    ensures r.Pri? ==> 2 <= r.after <= 5
  {
    if size < 3 || buf[0] != LT then NoPri else ScanPri(buf, 0, 0)
  }

  predicate HasVersion(text: seq<byte>, lo: nat)
    requires lo <= |text|
  {
    2 <= |text| - lo && text[lo + 1] == BLANK && text[lo] == ONE
  }

  /** The time a header timestamp yields: unchanged for "-", or what the clock reads, if anything. */
  function Timestamp(text: seq<byte>, w: Window, now: int, clock: Clock): Option<int>
    requires w.Window? && w.lo <= w.hi <= |text|
  {
    if Value(text, w) == Nil then Some(now)
    else if w.hi - w.lo > RFC3339_LENGTH then None
    else clock.rfc3339(text[w.lo..w.hi])
  }

  /** TIMESTAMP HOSTNAME APP-NAME PROCID MSGID and the rest. */
  function Header(text: seq<byte>, f: Fields, lo: nat, clock: Clock): (r: Option<Fields>)
    requires lo <= |text|
    ensures r.Some? ==> r.value.msg.Window? && lo <= r.value.msg.lo <= r.value.msg.hi == |text|
  {
    var parts := Split(text, lo, 5);
    if |parts| != 5 || Timestamp(text, parts[0], f.time, clock).None? then None
    else Some(HeaderOf(text, f, Timestamp(text, parts[0], f.time, clock).value, parts))
  }

  function HeaderOf(text: seq<byte>, f: Fields, time: int, parts: seq<Window>): Fields
    requires |parts| == 5
    requires forall k :: 0 <= k < |parts| ==> parts[k].Window? && parts[k].lo <= parts[k].hi < |text|
  {
    Fields(time, f.priority, Value(text, parts[1]), Value(text, parts[2]),
           Value(text, parts[3]), Value(text, parts[4]), Window(parts[4].hi + 1, |text|))
  }

  /** Nil structured data: "- ". */
  predicate HasNoData(text: seq<byte>, lo: nat)
    requires lo <= |text|
  {
    2 <= |text| - lo && text[lo] == DASH && text[lo + 1] == BLANK
  }

  /** The legacy timestamp: where the text after it starts, and the time it sets. */
  function LegacyStamp(text: seq<byte>, lo: nat, now: int, clock: Clock): (r: (nat, int))
    requires lo <= |text|
    ensures lo <= r.0 <= |text|
  {
    if |text| - lo <= STAMP_LENGTH || text[lo + STAMP_LENGTH] != BLANK then (lo, now)
    else
      var t := clock.stamp(text[lo..lo + STAMP_LENGTH]);
      if t == None then (lo, now)
      else (lo + STAMP_LENGTH + 1, if clock.isZero(t.value) then now else clock.corrected(now, t.value))
  }

  const COLON_BLANK: seq<byte> := [COLON, BLANK]

  /** The legacy tag: "app", "app[procid]" and an optional ": ". */
  function Tag(text: seq<byte>, f: Fields, lo: nat): (r: Fields)
    requires lo <= |text| && f.msg == Window(lo, |text|)
    ensures r.msg.Window? && lo <= r.msg.lo <= r.msg.hi == |text|
  {
    var t := TagEnd(text, lo);
    if t == |text| then f.(app := Nil, procid := Nil)
    else if text[t] == OPEN then
      var q := Find(text, t + 1, CLOSE);
      if q < |text| then
        f.(app := Window(lo, t), procid := Window(t + 1, q), msg := Window(Trim(text, q + 1, COLON_BLANK), |text|))
      else
        f.(app := Window(lo, t), procid := Nil, msg := Window(Trim(text, t, COLON_BLANK), |text|))
    else
      f.(app := Window(lo, t), msg := Window(Trim(text, t, COLON_BLANK), |text|))
  }

  function Bytes(s: string): (r: seq<byte>)
    requires forall i :: 0 <= i < |s| ==> s[i] < 256 as char
    ensures |r| == |s|
  {
    seq(|s|, i requires 0 <= i < |s| => s[i] as int)
  }

  /** The name of a severity, then ": ". */
  function SeverityPrefix(severity: nat): seq<byte>
    requires severity < 8
  {
    Bytes(["EMERG: ", "ALERT: ", "CRIT: ", "ERR: ", "WARNING: ", "NOTICE: ", "INFO: ", "DEBUG: "][severity])
  }

  /** Severity, time and carriage return are trimmed off the front, in this order. */
  function Trimmed(text: seq<byte>, lo: nat, priority: byte, time: int, clock: Clock): (r: nat)
    requires lo <= |text|
    ensures lo <= r <= |text|
  {
    var untimed := Trim(text, Trim(text, lo, SeverityPrefix(priority % 8)), clock.prefix(time));
    if untimed < |text| && text[untimed] == CR then untimed + 1 else untimed
  }

  function Legacy(text: seq<byte>, f: Fields, lo: nat, clock: Clock): (r: Fields)
    requires lo <= |text|
  {
    var (start, time) := LegacyStamp(text, lo, f.time, clock);
    var tagged := Tag(text, f.(time := time, hostname := Nil, msg := Window(start, |text|)), start);
    tagged.(msg := Window(Trimmed(text, tagged.msg.lo, f.priority, time, clock), |text|))
  }

  /** What follows "1 ": header, nil structured data, message. */
  function Modern(text: seq<byte>, f: Fields, lo: nat, clock: Clock): (r: (bool, Fields))
    requires lo <= |text|
  {
    var h := Header(text, f, lo, clock);
    if h.None? then (false, f)
    else if !HasNoData(text, h.value.msg.lo) then (false, h.value)
    else (true, h.value.(msg := Window(h.value.msg.lo + 2, |text|)))
  }

  /** What follows the priority: a version and a modern message, or a legacy one. */
  function Body(text: seq<byte>, f: Fields, lo: nat, clock: Clock): (r: (bool, Fields))
    requires lo <= |text|
  {
    if HasVersion(text, lo) then Modern(text, f.(msg := Window(lo + 2, |text|)), lo + 2, clock)
    else (true, Legacy(text, f, lo, clock))
  }

  /** Go either returns a verdict or panics on a slice expression out of range. */
  datatype Verdict = Panicked | Returned(ok: bool)

  function Parse(buf: seq<byte>, size: nat, f: Fields, clock: Clock): (r: (Verdict, Fields))
    requires |buf| == BUFFER && size <= BUFFER
  {
    var pri := Priority(buf, size);
    if pri.NoPri? then (Returned(false), f)
    else if size < pri.after then (Panicked, f.(priority := pri.value))
    else
      var (ok, g) := Body(buf[..size], f.(priority := pri.value, msg := Window(pri.after, size)), pri.after, clock);
      (Returned(ok), g)
  }

  // ---------------------------------------------------------------------------------------------
  // The object and its methods
  // ---------------------------------------------------------------------------------------------

  class Syslog {
    const buf: array<byte>
    var size: nat
    var time: int
    var priority: byte
    var hostname: Window
    var app: Window
    var procid: Window
    var msgid: Window
    var msg: Window

    ghost function View(): Fields
      reads this
    {
      Fields(time, priority, hostname, app, procid, msgid, msg)
    }

    ghost function Text(): seq<byte>
      requires size <= buf.Length
      reads this`size, buf
    {
      buf[..size]
    }

    /** `msg` is the rest of the text received, as it is all through a parse. */
    ghost predicate AtRest()
      reads this
    {
      size <= buf.Length && msg.Window? && msg.lo <= msg.hi == size
    }

    constructor ()
      ensures Cleared(View()) && buf.Length == BUFFER && size == 0
    {
      buf := new byte[BUFFER](_ => 0);
      size, time, priority := 0, 0, 0;
      hostname, app, procid, msgid, msg := Nil, Nil, Nil, Nil, Nil;
    }

    method ResetFields()
      modifies this
      ensures View() == Reset(old(View())) && size == old(size)
    {
      priority := 0;
      hostname, app, procid, msgid, msg := Nil, Nil, Nil, Nil, Nil;
    }

    method IndexByte(lo: nat, c: byte) returns (p: nat)
      requires lo <= size <= buf.Length
      ensures p == Find(Text(), lo, c)
    {
      p := lo;
      while p < size && buf[p] != c
        invariant lo <= p <= size
        invariant Find(Text(), lo, c) == Find(Text(), p, c)
      {
        p := p + 1;
      }
    }

    method SplitAtSpaces(lo: nat, n: nat) returns (parts: seq<Window>)
      requires lo <= size <= buf.Length
      ensures parts == Split(Text(), lo, n)
      decreases n
    {
      if n == 0 {
        return [];
      }
      var p := IndexByte(lo, BLANK);
      if p == size {
        return [];
      }
      var rest := SplitAtSpaces(p + 1, n - 1);
      return [Window(lo, p)] + rest;
    }

    method ParsePriority() returns (v: Verdict)
      requires buf.Length == BUFFER && size <= BUFFER
      modifies this`priority, this`msg
      ensures var pri := Priority(buf[..], size);
              && (pri.NoPri? ==> v == Returned(false) && View() == old(View()))
              && (pri.Pri? && size < pri.after ==> v == Panicked && View() == old(View()).(priority := pri.value))
              && (pri.Pri? && pri.after <= size ==>
                    v == Returned(true) && View() == old(View()).(priority := pri.value, msg := Window(pri.after, size)))
    {
      if size < 3 || buf[0] != LT {
        return Returned(false);
      }
      var pri: byte := 0;
      for i := 0 to 4
        invariant ScanPri(buf[..], 0, 0) == ScanPri(buf[..], i, pri)
        invariant View() == old(View())
      {
        var c := buf[1 + i];
        if c == GT {
          priority := pri;
          if size < 1 + i + 1 {
            return Panicked;
          }
          msg := Window(1 + i + 1, size);
          return Returned(true);
        }
        if !IsDigit(c) {
          return Returned(false);
        }
        pri := (pri * 10 + c - ZERO) % 256;
      }
      return Returned(false);
    }

    method ParseVersion() returns (ok: bool)
      requires AtRest()
      modifies this`msg
      ensures AtRest() && ok == HasVersion(Text(), old(msg.lo))
      ensures View() == if ok then old(View()).(msg := Window(old(msg.lo) + 2, size)) else old(View())
    {
      ok := 2 <= msg.hi - msg.lo && buf[msg.lo + 1] == BLANK && buf[msg.lo] == ONE;
      if ok {
        msg := Window(msg.lo + 2, msg.hi);
      }
    }

    method SetHeader(t: int, parts: seq<Window>)
      requires size <= buf.Length && |parts| == 5
      requires forall k :: 0 <= k < |parts| ==> parts[k].Window? && parts[k].lo <= parts[k].hi < size
      modifies this
      ensures size == old(size) && View() == HeaderOf(Text(), old(View()), t, parts)
    {
      var text := buf[..size];
      time := t;
      hostname, app := Value(text, parts[1]), Value(text, parts[2]);
      procid, msgid := Value(text, parts[3]), Value(text, parts[4]);
      msg := Window(parts[4].hi + 1, size);
    }

    method ParseHeader(clock: Clock) returns (ok: bool)
      requires AtRest()
      modifies this
      ensures size == old(size) && AtRest()
      ensures var h := Header(Text(), old(View()), old(msg.lo), clock);
              ok == h.Some? && View() == if ok then h.value else old(View())
    {
      var parts := SplitAtSpaces(msg.lo, 5);
      if |parts| != 5 {
        return false;
      }
      var t := Timestamp(buf[..size], parts[0], time, clock);
      if t.None? {
        return false;
      }
      SetHeader(t.value, parts);
      return true;
    }

    method ParseStructuredData() returns (ok: bool)
      requires AtRest()
      modifies this`msg
      ensures AtRest() && ok == HasNoData(Text(), old(msg.lo))
      ensures View() == if ok then old(View()).(msg := Window(old(msg.lo) + 2, size)) else old(View())
    {
      ok := 2 <= msg.hi - msg.lo && buf[msg.lo] == DASH && buf[msg.lo + 1] == BLANK;
      if ok {
        msg := Window(msg.lo + 2, msg.hi);
      }
    }

    /** Past the bytes that a tag may hold. */
    method SkipTag(lo: nat) returns (i: nat)
      requires lo <= size <= buf.Length
      ensures i == TagEnd(Text(), lo)
    {
      i := lo;
      while i < size && IsTagByte(buf[i])
        invariant lo <= i <= size
        invariant TagEnd(Text(), lo) == TagEnd(Text(), i)
      {
        i := i + 1;
      }
    }

    method ParseLegacyTag()
      requires AtRest()
      modifies this`app, this`procid, this`msg
      ensures AtRest() && View() == Tag(Text(), old(View()), old(msg.lo))
    {
      var lo := msg.lo;
      var i := SkipTag(lo);
      if i == size {
        app, procid := Nil, Nil;
        return;
      }
      app := Window(lo, i);
      var rest := i;
      if buf[i] == OPEN {
        rest := ParsePid(i);
      }
      msg := Window(Trim(buf[..size], rest, COLON_BLANK), size);
    }

    /** The bracketed process id at `i`, if it is closed; where the text goes on. */
    method ParsePid(i: nat) returns (rest: nat)
      requires i < size <= buf.Length
      modifies this`procid
      ensures var q := Find(Text(), i + 1, CLOSE);
              if q < size then procid == Window(i + 1, q) && rest == q + 1 else procid == Nil && rest == i
    {
      var q := IndexByte(i + 1, CLOSE);
      if q < size {
        procid, rest := Window(i + 1, q), q + 1;
      } else {
        procid, rest := Nil, i;
      }
    }

    method ParseLegacyStamp(clock: Clock)
      requires AtRest()
      modifies this`time, this`msg
      ensures AtRest()
      ensures var (start, t) := LegacyStamp(Text(), old(msg.lo), old(time), clock);
              View() == old(View()).(time := t, msg := Window(start, size))
    {
      var lo := msg.lo;
      if size - lo <= STAMP_LENGTH || buf[lo + STAMP_LENGTH] != BLANK {
        return;
      }
      assert Text()[lo..lo + STAMP_LENGTH] == buf[lo..lo + STAMP_LENGTH];
      var t := clock.stamp(buf[lo..lo + STAMP_LENGTH]);
      if t.Some? {
        if !clock.isZero(t.value) {
          time := clock.corrected(time, t.value);
        }
        msg := Window(lo + STAMP_LENGTH + 1, size);
      }
    }

    /** The three trims of a legacy message: severity, time, carriage return. */
    method TrimMessage(clock: Clock)
      requires AtRest()
      modifies this`msg
      ensures AtRest()
      ensures View() == old(View()).(msg := Window(Trimmed(Text(), old(msg.lo), priority, time, clock), size))
    {
      var text := buf[..size];
      msg := Window(Trim(text, msg.lo, SeverityPrefix(priority % 8)), size);
      msg := Window(Trim(text, msg.lo, clock.prefix(time)), size);
      if msg.lo < size && buf[msg.lo] == CR {
        msg := Window(msg.lo + 1, size);
      }
    }

    method ParseLegacyHeader(clock: Clock)
      requires AtRest()
      modifies this
      ensures size == old(size) && View() == Legacy(Text(), old(View()), old(msg.lo), clock)
    {
      ParseLegacyStamp(clock);
      hostname := Nil;
      ParseLegacyTag();
      TrimMessage(clock);
    }

    method ParseModern(clock: Clock) returns (ok: bool)
      requires AtRest()
      modifies this
      ensures size == old(size) && (ok, View()) == Modern(Text(), old(View()), old(msg.lo), clock)
    {
      ok := ParseHeader(clock);
      if ok {
        ok := ParseStructuredData();
      }
    }

    method ParseVersioned(clock: Clock) returns (ok: bool)
      requires AtRest() && HasVersion(Text(), msg.lo)
      modifies this
      ensures size == old(size) && (ok, View()) == Body(Text(), old(View()), old(msg.lo), clock)
    {
      ghost var text, lo := Text(), msg.lo;
      var versioned := ParseVersion();
      assert Text() == text && msg == Window(lo + 2, size);
      ok := ParseModern(clock);
    }

    method ParseUnversioned(clock: Clock) returns (ok: bool)
      requires AtRest() && !HasVersion(Text(), msg.lo)
      modifies this
      ensures size == old(size) && (ok, View()) == Body(Text(), old(View()), old(msg.lo), clock)
    {
      ParseLegacyHeader(clock);
      ok := true;
    }

    method ParseBody(clock: Clock) returns (ok: bool)
      requires AtRest()
      modifies this
      ensures size == old(size) && (ok, View()) == Body(Text(), old(View()), old(msg.lo), clock)
    {
      if HasVersion(buf[..size], msg.lo) {
        ok := ParseVersioned(clock);
      } else {
        ok := ParseUnversioned(clock);
      }
    }

    method ParseMessage(clock: Clock) returns (v: Verdict)
      requires buf.Length == BUFFER && size <= BUFFER
      modifies this
      ensures size == old(size) && (v, View()) == Parse(buf[..], size, old(View()), clock)
    {
      v := ParsePriority();
      if v == Returned(true) {
        var ok := ParseBody(clock);
        v := Returned(ok);
      }
    }
  }
}
