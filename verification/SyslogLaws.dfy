/** What the syslog parser guarantees about every datagram. */
module SyslogLaws {
  import opened Seqs
  import opened SyslogMessage

  // ---------------------------------------------------------------------------------------------
  // The priority
  // ---------------------------------------------------------------------------------------------

  function Decimal(ds: seq<byte>): int {
    if ds == [] then 0 else Decimal(ds[..|ds| - 1]) * 10 + ds[|ds| - 1] - ZERO
  }

  predicate AllDigits(ds: seq<byte>) { forall i :: 0 <= i < |ds| ==> IsDigit(ds[i]) }

  /** The buffer starts with "<", `n` digits, ">". */
  predicate PriOf(b: seq<byte>, n: nat) {
    n + 2 <= |b| && b[0] == LT && AllDigits(b[1..1 + n]) && b[1 + n] == GT
  }

  lemma ModStep(x: int, y: int)
    ensures ((x % 256) * 10 + y) % 256 == (x * 10 + y) % 256
  {
    assert x == x / 256 * 256 + x % 256;
    assert x * 10 + y == (x / 256 * 10) * 256 + ((x % 256) * 10 + y);
  }

  lemma {:induction false} ScanFinds(b: seq<byte>, n: nat, i: nat, pri: byte)
    requires 5 <= |b| && i <= n <= 3 && PriOf(b, n) && pri == Decimal(b[1..1 + i]) % 256
    ensures ScanPri(b, i, pri) == Pri(Decimal(b[1..1 + n]) % 256, n + 2)
    decreases n - i
  {
    if i < n {
      assert IsDigit(b[1..1 + n][i]);
      assert b[1..1 + (i + 1)][..i] == b[1..1 + i];
      assert Decimal(b[1..1 + (i + 1)]) == Decimal(b[1..1 + i]) * 10 + (b[1 + i] - ZERO);
      ModStep(Decimal(b[1..1 + i]), b[1 + i] - ZERO);
      ScanFinds(b, n, i + 1, (pri * 10 + b[1 + i] - ZERO) % 256);
    }
  }

  lemma {:induction false} ScanFound(b: seq<byte>, i: nat, pri: byte)
    requires 5 <= |b| && i <= 4 && b[0] == LT && AllDigits(b[1..1 + i])
    ensures ScanPri(b, i, pri).Pri? ==> PriOf(b, ScanPri(b, i, pri).after - 2)
    decreases 4 - i
  {
    if i < 4 && IsDigit(b[1 + i]) {
      assert b[1..1 + (i + 1)] == b[1..1 + i] + [b[1 + i]];
      ScanFound(b, i + 1, (pri * 10 + b[1 + i] - ZERO) % 256);
    }
  }

  /** A PRI is accepted exactly when it is at most three digits between its brackets, and the byte
      stored is their decimal value modulo 256. */
  lemma PriorityValue(b: seq<byte>, size: nat)
    requires |b| == BUFFER
    ensures Priority(b, size).Pri? ==> 3 <= size && PriOf(b, Priority(b, size).after - 2)
    ensures forall n :: 0 <= n <= 3 && PriOf(b, n) && 3 <= size ==>
              Priority(b, size) == Pri(Decimal(b[1..1 + n]) % 256, n + 2)
  {
    if 3 <= size && b[0] == LT {
      ScanFound(b, 0, 0);
    }
    forall n | 0 <= n <= 3 && PriOf(b, n) && 3 <= size ensures Priority(b, size) == Pri(Decimal(b[1..1 + n]) % 256, n + 2) {
      PriorityOf(b, size, n);
    }
  }

  lemma PriorityOf(b: seq<byte>, size: nat, n: nat)
    requires |b| == BUFFER && n <= 3 && PriOf(b, n) && 3 <= size
    ensures Priority(b, size) == Pri(Decimal(b[1..1 + n]) % 256, n + 2)
  {
    assert b[1..1] == [];
    ScanFinds(b, n, 0, 0);
  }

  /** The parser panics exactly when the bracket that closes the PRI lies beyond the bytes received. */
  lemma PanicExactly(buf: seq<byte>, size: nat, f: Fields, clock: Clock)
    requires |buf| == BUFFER && size <= BUFFER
    ensures Parse(buf, size, f, clock).0 == Panicked <==>
            3 <= size && exists n :: 0 <= n <= 3 && PriOf(buf, n) && size <= 1 + n
  {
    PriorityValue(buf, size);
  }

  // ---------------------------------------------------------------------------------------------
  // Bytes left over from an earlier datagram
  // ---------------------------------------------------------------------------------------------

  /** The priority scan comes to a decision inside the datagram. */
  predicate SelfContained(data: seq<byte>) {
    |data| < 3 || data[0] != LT || 5 <= |data| || exists i :: 1 <= i < |data| && !IsDigit(data[i])
  }

  lemma {:induction false} ScanInside(b: seq<byte>, c: seq<byte>, size: nat, i: nat, pri: byte)
    requires 5 <= |b| == |c| && size <= |b| && i <= 4
    requires forall k :: 0 <= k < size && k < 5 ==> b[k] == c[k]
    requires 5 <= size || exists k :: 1 + i <= k < size && !IsDigit(b[k])
    ensures ScanPri(b, i, pri) == ScanPri(c, i, pri)
    ensures ScanPri(b, i, pri).Pri? ==> ScanPri(b, i, pri).after <= size
    decreases 4 - i
  {
    if i < 4 {
      assert 1 + i < size && b[1 + i] == c[1 + i];
      if IsDigit(b[1 + i]) {
        ScanInside(b, c, size, i + 1, (pri * 10 + b[1 + i] - ZERO) % 256);
      }
    }
  }

  /** Whatever the buffer held before, a datagram whose priority scan ends inside it is parsed alike
      and without a panic; the scan of any other datagram is at the mercy of the bytes left over. */
  lemma StaleBytes(data: seq<byte>, f: Fields, clock: Clock)
    requires |data| <= BUFFER
    ensures SelfContained(data) <==>
            forall a, b: seq<byte> :: |a| == |b| == BUFFER - |data| ==>
              Parse(data + a, |data|, f, clock) == Parse(data + b, |data|, f, clock)
    ensures SelfContained(data) <==>
            forall a: seq<byte> :: |a| == BUFFER - |data| ==> Parse(data + a, |data|, f, clock).0 != Panicked
  {
    if SelfContained(data) {
      forall a, b: seq<byte> | |a| == |b| == BUFFER - |data|
        ensures Parse(data + a, |data|, f, clock) == Parse(data + b, |data|, f, clock)
        ensures Parse(data + a, |data|, f, clock).0 != Panicked
      {
        SelfContainedParse(data, a, b, f, clock);
      }
    } else {
      LeftOversDecide(data, f, clock);
      LeftOverBracketPanics(data, seq(BUFFER - |data|, _ => GT), f, clock);
    }
  }

  lemma SelfContainedParse(data: seq<byte>, a: seq<byte>, b: seq<byte>, f: Fields, clock: Clock)
    requires |data| <= BUFFER && |a| == |b| == BUFFER - |data| && SelfContained(data)
    ensures Parse(data + a, |data|, f, clock) == Parse(data + b, |data|, f, clock)
    ensures Parse(data + a, |data|, f, clock).0 != Panicked
  {
    assert (data + a)[..|data|] == data == (data + b)[..|data|];
    if 3 <= |data| && data[0] == LT {
      if |data| < 5 {
        var i :| 1 <= i < |data| && !IsDigit(data[i]);
        assert !IsDigit((data + a)[i]);
      }
      ScanInside(data + a, data + b, |data|, 0, 0);
    }
  }

  lemma LeftOversDecide(data: seq<byte>, f: Fields, clock: Clock)
    requires |data| <= BUFFER && !SelfContained(data)
    ensures exists a, b: seq<byte> :: |a| == |b| == BUFFER - |data| &&
              Parse(data + a, |data|, f, clock) != Parse(data + b, |data|, f, clock)
  {
    var a: seq<byte> := seq(BUFFER - |data|, _ => GT);
    var b: seq<byte> := seq(BUFFER - |data|, _ => BLANK);
    LeftOverBracketPanics(data, a, f, clock);
    PriorityValue(data + b, |data|);
    PanicExactly(data + b, |data|, f, clock);
  }

  /** Where the scan runs on into the bytes left over, a bracket there makes the parser panic. */
  lemma LeftOverBracketPanics(data: seq<byte>, a: seq<byte>, f: Fields, clock: Clock)
    requires |data| + |a| == BUFFER && !SelfContained(data) && a[0] == GT
    ensures Parse(data + a, |data|, f, clock).0 == Panicked
  {
    var n := |data| - 1;
    assert PriOf(data + a, n) by {
      assert (data + a)[1..1 + n] == data[1..];
    }
    PanicExactly(data + a, |data|, f, clock);
  }

  // ---------------------------------------------------------------------------------------------
  // Windows
  // ---------------------------------------------------------------------------------------------

  /** The fields in the order in which a header carries them. */
  function Windows(f: Fields): seq<Window> { [f.hostname, f.app, f.procid, f.msgid, f.msg] }

  /** Each window lies in `text[from..]`, and each ends before the next begins. */
  predicate InOrder(ws: seq<Window>, from: nat, size: nat) {
    && (forall i :: 0 <= i < |ws| && ws[i].Window? ==> from <= ws[i].lo <= ws[i].hi <= size)
    && (forall i, j :: 0 <= i < j < |ws| && ws[i].Window? && ws[j].Window? ==> ws[i].hi <= ws[j].lo)
  }

  lemma {:induction false} SplitInOrder(text: seq<byte>, lo: nat, n: nat)
    requires lo <= |text|
    ensures InOrder(Split(text, lo, n), lo, |text|)
    decreases n
  {
    var p := Find(text, lo, BLANK);
    if 0 < n && p < |text| {
      SplitInOrder(text, p + 1, n - 1);
    }
  }

  /** The fields are windows in header order, and the message reaches to the end. */
  predicate FieldsInOrder(g: Fields, from: nat, size: nat) {
    InOrder(Windows(g), from, size) && g.msg.Window? && g.msg.hi == size
  }

  lemma ModernInOrder(text: seq<byte>, f: Fields, lo: nat, clock: Clock)
    requires lo <= |text| && Modern(text, f, lo, clock).0
    ensures FieldsInOrder(Modern(text, f, lo, clock).1, lo, |text|)
  {
    var h := Header(text, f, lo, clock).value;
    HeaderFieldsInOrder(text, f, lo, clock, h);
    MsgLater(h, lo, |text|, Modern(text, f, lo, clock).1);
  }

  lemma HeaderFieldsInOrder(text: seq<byte>, f: Fields, lo: nat, clock: Clock, h: Fields)
    requires lo <= |text| && Header(text, f, lo, clock) == Some(h)
    ensures FieldsInOrder(h, lo, |text|)
  {
    SplitInOrder(text, lo, 5);
    HeaderInOrder(text, f, h.time, lo, Split(text, lo, 5));
  }

  lemma MsgLater(h: Fields, lo: nat, size: nat, g: Fields)
    requires FieldsInOrder(h, lo, size) && h.msg.lo + 2 <= size && g == h.(msg := Window(h.msg.lo + 2, size))
    ensures FieldsInOrder(g, lo, size)
  {
    var ws, later := Windows(h), Windows(g);
    assert ws[4] == h.msg;
    assert forall k :: 0 <= k < 4 ==> later[k] == ws[k];
  }

  lemma HeaderInOrder(text: seq<byte>, f: Fields, time: int, lo: nat, parts: seq<Window>)
    requires |parts| == 5 && InOrder(parts, lo, |text|)
    requires forall k :: 0 <= k < |parts| ==> parts[k].Window? && parts[k].lo <= parts[k].hi < |text|
    ensures InOrder(Windows(HeaderOf(text, f, time, parts)), lo, |text|)
  {
    var ws := [parts[1], parts[2], parts[3], parts[4], Window(parts[4].hi + 1, |text|)];
    assert InOrder(ws, lo, |text|);
    assert forall k :: 0 <= k < 5 ==> Windows(HeaderOf(text, f, time, parts))[k] in {ws[k], Nil};
  }

  lemma LegacyInOrder(text: seq<byte>, f: Fields, lo: nat, clock: Clock)
    requires lo <= |text| && f.procid == Nil && f.msgid == Nil
    ensures FieldsInOrder(Legacy(text, f, lo, clock), lo, |text|)
  {
  }

  /** On success, in an object whose fields were cleared, every field that is not nil is a window of
      the bytes received, the windows are disjoint, they follow each other in header order, and the
      message is the rest: on the RFC 5424 path and on the legacy path. */
  lemma WindowsInOrder(buf: seq<byte>, size: nat, f: Fields, clock: Clock)
    requires |buf| == BUFFER && size <= BUFFER && Cleared(f)
    ensures var (v, g) := Parse(buf, size, f, clock);
            v == Returned(true) ==> FieldsInOrder(g, 2, size)
  {
    var pri := Priority(buf, size);
    if pri.Pri? && pri.after <= size {
      BodyInOrder(buf[..size], f.(priority := pri.value, msg := Window(pri.after, size)), pri.after, clock);
    }
  }

  lemma BodyInOrder(text: seq<byte>, f: Fields, lo: nat, clock: Clock)
    requires lo <= |text| && f.procid == Nil && f.msgid == Nil
    ensures Body(text, f, lo, clock).0 ==>
              FieldsInOrder(Body(text, f, lo, clock).1, lo, |text|)
  {
    if !HasVersion(text, lo) {
      LegacyInOrder(text, f, lo, clock);
    } else if Body(text, f, lo, clock).0 {
      ModernInOrder(text, f.(msg := Window(lo + 2, |text|)), lo + 2, clock);
    }
  }
}
