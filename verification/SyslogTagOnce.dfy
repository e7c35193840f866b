/** A legacy text can be cut into tag and message in one way only. */
module SyslogTagOnce {
  import opened Seqs
  import opened SyslogMessage
  import opened SyslogFormat
  import opened SyslogLegacy

  /** The parts `a`, `p`, `c` and `m` stand in `b` one after the other. */
  ghost predicate InPlace(b: seq<byte>, a: seq<byte>, p: seq<byte>, c: seq<byte>, m: seq<byte>) {
    && |b| == |a| + |p| + |c| + |m|
    && b[..|a|] == a
    && b[|a|..|a| + |p|] == p
    && b[|a| + |p|..|a| + |p| + |c|] == c
    && b[|a| + |p| + |c|..] == m
  }

  lemma PartsInPlace(b: seq<byte>, a: seq<byte>, p: seq<byte>, c: seq<byte>, m: seq<byte>)
    requires b == a + p + c + m
    ensures InPlace(b, a, p, c, m)
  {
  }

  /** Neither run of tag bytes is longer than the other. */
  lemma RunNoLonger(b: seq<byte>, m: nat, n: nat)
    requires m <= |b| && n < |b| && AllTagBytes(b[..m]) && !IsTagByte(b[n])
    ensures m <= n
  {
    forall i | 0 <= i < m ensures IsTagByte(b[i]) { assert b[..m][i] == b[i]; }
  }

  /** Neither of two bracketed ids is longer than the other. */
  lemma IdNoLonger(b: seq<byte>, n: nat, x: seq<byte>, y: seq<byte>)
    requires CLOSE !in x
    requires n + |x| + 2 <= |b| && b[n..n + |x| + 2] == [OPEN] + x + [CLOSE]
    requires n + |y| + 2 <= |b| && b[n..n + |y| + 2] == [OPEN] + y + [CLOSE]
    ensures |x| <= |y|
  {
    var end := n + 1 + |y|;
    assert b[end] == b[n..n + |y| + 2][1 + |y|] == CLOSE;
    forall k | n + 1 <= k < n + 1 + |x| ensures b[k] != CLOSE {
      assert b[k] == b[n..n + |x| + 2][k - n] == x[k - n - 1];
    }
  }

  lemma IdSame(b: seq<byte>, n: nat, x: seq<byte>, y: seq<byte>)
    requires CLOSE !in x && CLOSE !in y
    requires n + |x| + 2 <= |b| && b[n..n + |x| + 2] == [OPEN] + x + [CLOSE]
    requires n + |y| + 2 <= |b| && b[n..n + |y| + 2] == [OPEN] + y + [CLOSE]
    ensures x == y
  {
    IdNoLonger(b, n, x, y);
    IdNoLonger(b, n, y, x);
    assert x == ([OPEN] + x + [CLOSE])[1..|x| + 1] && y == ([OPEN] + y + [CLOSE])[1..|y| + 1];
  }

  lemma ColonSame(b: seq<byte>, n: nat, cx: seq<byte>, mx: seq<byte>, cy: seq<byte>, my: seq<byte>)
    requires n + |cx| <= |b| && n + |cy| <= |b| && b[n..n + |cx|] == cx && b[n..n + |cy|] == cy
    requires b[n + |cx|..] == mx && b[n + |cy|..] == my
    requires (cx == [] || cx == COLON_BLANK) && (cx == [] ==> !(COLON_BLANK <= mx))
    requires (cy == [] || cy == COLON_BLANK) && (cy == [] ==> !(COLON_BLANK <= my))
    ensures mx == my
  {
    assert cx == COLON_BLANK ==> COLON_BLANK <= b[n..];
    assert cy == COLON_BLANK ==> COLON_BLANK <= b[n..];
  }

  /** What the place of its parts says of the app name and the process id. */
  ghost predicate NamesInPlace(b: seq<byte>, app: seq<byte>, procid: Option<seq<byte>>) {
    && |app| < |b| && b[..|app|] == app && AllTagBytes(app) && !IsTagByte(b[|app|])
    && (procid.Some? ==>
          && CLOSE !in procid.value && |app| + |procid.value| + 2 <= |b|
          && b[|app|..|app| + |procid.value| + 2] == [OPEN] + procid.value + [CLOSE])
  }

  lemma NamesOf(b: seq<byte>, x: Tagged, cx: seq<byte>)
    requires !AllTagBytes(b) && TaggedAs(b, x, cx)
    ensures NamesInPlace(b, x.app.value, x.procid)
  {
    PartsInPlace(b, x.app.value, Bracketed(x.procid), cx, x.msg);
  }

  lemma NamesSame(b: seq<byte>, a: seq<byte>, p: Option<seq<byte>>, a': seq<byte>, p': Option<seq<byte>>)
    requires NamesInPlace(b, a, p) && NamesInPlace(b, a', p') && p.Some? == p'.Some?
    ensures a == a' && p == p'
  {
    RunNoLonger(b, |a|, |a'|);
    RunNoLonger(b, |a'|, |a|);
    if p.Some? {
      IdSame(b, |a|, p.value, p'.value);
    }
  }

  /** Whatever two readings there are of a text, they agree on app name, process id and message. */
  lemma TaggedOnce(b: seq<byte>, x: Tagged, cx: seq<byte>, y: Tagged, cy: seq<byte>)
    requires TaggedAs(b, x, cx) && TaggedAs(b, y, cy)
    ensures x == y
  {
    if !AllTagBytes(b) {
      NamesOf(b, x, cx);
      NamesOf(b, y, cy);
      assert |x.app.value| == |y.app.value| by {
        RunNoLonger(b, |x.app.value|, |y.app.value|);
        RunNoLonger(b, |y.app.value|, |x.app.value|);
      }
      NamesSame(b, x.app.value, x.procid, y.app.value, y.procid);
      var a, p := x.app.value, Bracketed(x.procid);
      assert InPlace(b, a, p, cx, x.msg) by { PartsInPlace(b, a, p, cx, x.msg); }
      assert InPlace(b, a, p, cy, y.msg) by { PartsInPlace(b, a, p, cy, y.msg); }
      ColonSame(b, |a| + |p|, cx, x.msg, cy, y.msg);
    }
  }
}
