/** Query strings on their way through the reverse proxy. */
module Query {
  import opened Seqs
  import opened Text

  /** A two-digit escape starts at `i`. */
  predicate EscapeAt(s: string, i: nat) { i + 2 < |s| && IsHexDigit(s[i + 1]) && IsHexDigit(s[i + 2]) }

  predicate GoodAt(s: string, i: nat)
    requires i < |s|
  {
    s[i] != ';' && (s[i] == '%' ==> EscapeAt(s, i))
  }

  /** No semicolon, and every percent sign starts a two-digit escape. */
  predicate WellFormed(s: string) { forall i :: 0 <= i < |s| ==> GoodAt(s, i) }

  // ---------------------------------------------------------------------------------------------
  // Re-encoding
  // ---------------------------------------------------------------------------------------------

  datatype Pair = Pair(key: seq<byte>, value: seq<byte>)

  predicate Unreserved(b: byte) {
    48 <= b <= 57 || 65 <= b <= 90 || 97 <= b <= 122 || b == 45 || b == 46 || b == 95 || b == 126
  }

  function UpperDigit(n: nat): (c: char)
    requires n < 16
    ensures IsHexDigit(c)
  {
    if n < 10 then '0' + n as char else 'A' + (n - 10) as char
  }

  function EscapeByte(b: byte): string {
    if Unreserved(b) then [b as char] else if b == 32 then "+" else ['%', UpperDigit(b / 16), UpperDigit(b % 16)]
  }

  /** `url.QueryEscape`. */
  function Escape(bytes: seq<byte>): string {
    if bytes == [] then "" else EscapeByte(bytes[0]) + Escape(bytes[1..])
  }

  function EncodePair(p: Pair): string { Escape(p.key) + "=" + Escape(p.value) }

  /** `url.Values.Encode`, given the pairs in the order of their keys. */
  function Encode(pairs: seq<Pair>): string {
    if pairs == [] then "" else JoinQuery(EncodePair(pairs[0]), Encode(pairs[1..]))
  }

  // ---------------------------------------------------------------------------------------------
  // Cleaning and joining
  // ---------------------------------------------------------------------------------------------

  /** How the proxy puts the target's query before the request's. */
  function JoinQuery(a: string, b: string): string { if a == "" || b == "" then a + b else a + "&" + b }

  /** `parse` gives what the library can make of a query, whatever it is. */
  function Cleaned(s: string, parse: string -> seq<Pair>): string { if WellFormed(s) then s else Encode(parse(s)) }

  /** `cleanQueryParams`: the scan skips over escapes and gives up at the first fault. */
  method Clean(s: string, parse: string -> seq<Pair>) returns (r: string)
    ensures r == Cleaned(s, parse)
  {
    var i := 0;
    while i < |s|
      invariant 0 <= i <= |s|
      invariant forall j :: 0 <= j < i ==> GoodAt(s, j)
      decreases |s| - i
    {
      if s[i] == ';' {
        assert !GoodAt(s, i);
        return Encode(parse(s));
      } else if s[i] == '%' {
        if i + 2 >= |s| || !IsHexDigit(s[i + 1]) || !IsHexDigit(s[i + 2]) {
          assert !GoodAt(s, i);
          return Encode(parse(s));
        }
        assert GoodAt(s, i) && GoodAt(s, i + 1) && GoodAt(s, i + 2);
        i := i + 3;
      } else {
        assert GoodAt(s, i);
        i := i + 1;
      }
    }
    return s;
  }

  predicate EndsInSlash(s: string) { s != "" && s[|s| - 1] == '/' }
  predicate StartsWithSlash(s: string) { s != "" && s[0] == '/' }

  /** `singleJoiningSlash`. */
  function SingleJoiningSlash(a: string, b: string): string {
    if EndsInSlash(a) && StartsWithSlash(b) then a + b[1..]
    else if !EndsInSlash(a) && !StartsWithSlash(b) then a + "/" + b
    else a + b
  }

  /** The path of a URL: decoded, as given if that differs from the default encoding, and as encoded. */
  datatype Path = Path(path: string, rawPath: string, escaped: string)

  /** An encoded path starts with a slash only if the path itself does. */
  predicate Consistent(p: Path) { StartsWithSlash(p.escaped) ==> StartsWithSlash(p.path) }

  /** `joinURLPath`: the path and the raw path. */
  function JoinPath(a: Path, b: Path): (string, string)
    requires Consistent(b)
  {
    if a.rawPath == "" && b.rawPath == "" then (SingleJoiningSlash(a.path, b.path), "")
    else if EndsInSlash(a.escaped) && StartsWithSlash(b.escaped) then (a.path + b.path[1..], a.escaped + b.escaped[1..])
    else if !EndsInSlash(a.escaped) && !StartsWithSlash(b.escaped) then (a.path + "/" + b.path, a.escaped + "/" + b.escaped)
    else (a.path + b.path, a.escaped + b.escaped)
  }

  datatype Target = Target(scheme: string, host: string, path: Path, rawQuery: string)

  /** The request's URL, updated in place for the target; `escape` stands for `URL.EscapedPath`. */
  class Request {
    var scheme: string
    var host: string
    var path: string
    var rawPath: string
    var rawQuery: string

    constructor (scheme: string, host: string, path: string, rawPath: string, rawQuery: string)
      ensures this.scheme == scheme && this.host == host && this.path == path && this.rawPath == rawPath && this.rawQuery == rawQuery
    {
      this.scheme, this.host, this.path, this.rawPath, this.rawQuery := scheme, host, path, rawPath, rawQuery;
    }

    /** `rewriteRequestURL`. */
    method Rewrite(target: Target, escape: (string, string) -> string)
      requires Consistent(Path(path, rawPath, escape(path, rawPath)))
      modifies this
      ensures scheme == target.scheme && host == target.host
      ensures (path, rawPath) == JoinPath(target.path, Path(old(path), old(rawPath), escape(old(path), old(rawPath))))
      ensures rawQuery == JoinQuery(target.rawQuery, old(rawQuery))
    {
      scheme, host := target.scheme, target.host;
      var joined := JoinPath(target.path, Path(path, rawPath, escape(path, rawPath)));
      path, rawPath := joined.0, joined.1;
      if target.rawQuery == "" || rawQuery == "" {
        rawQuery := target.rawQuery + rawQuery;
      } else {
        rawQuery := target.rawQuery + "&" + rawQuery;
      }
    }
  }

  /** A path without the slash it may end in, and without the one it may start with. */
  function Stem(s: string): string { if EndsInSlash(s) then s[..|s| - 1] else s }
  function Tail(s: string): string { if StartsWithSlash(s) then s[1..] else s }

  /** However the two ends look, the parts are joined by the slashes of exactly one. */
  lemma JoinedByOneSlash(a: string, b: string)
    ensures SingleJoiningSlash(a, b) == Stem(a) + "/" + Tail(b)
  {
    if EndsInSlash(a) {
      assert a == Stem(a) + "/";
    }
    if StartsWithSlash(b) {
      assert b == "/" + Tail(b);
      assert (Stem(a) + "/") + Tail(b) == Stem(a) + ("/" + Tail(b));
    }
  }

  /** What goes on the wire is joined by exactly one slash: the raw path where there is one, and the path
      otherwise; and so is the path beside a raw one, where the two agree on their slashes. */
  lemma PathsJoinedByOneSlash(a: Path, b: Path)
    requires Consistent(b)
    ensures var (path, raw) := JoinPath(a, b);
            if a.rawPath == "" && b.rawPath == "" then path == Stem(a.path) + "/" + Tail(b.path) && raw == ""
            else
              && raw == Stem(a.escaped) + "/" + Tail(b.escaped)
              && (EndsInSlash(a.path) == EndsInSlash(a.escaped) && StartsWithSlash(b.path) == StartsWithSlash(b.escaped) ==>
                    path == Stem(a.path) + "/" + Tail(b.path))
  {
    JoinedByOneSlash(a.path, b.path);
    JoinedByOneSlash(a.escaped, b.escaped);
  }

  // ---------------------------------------------------------------------------------------------
  // Laws
  // ---------------------------------------------------------------------------------------------

  /** Two texts with a character between them that is no fault and no digit are both well-formed exactly
      when the whole is. */
  lemma WellFormedAround(a: string, c: char, b: string, s: string)
    requires c != ';' && c != '%' && !IsHexDigit(c) && s == a + [c] + b
    ensures WellFormed(s) <==> WellFormed(a) && WellFormed(b)
  {
    var n := |a| + 1;
    assert s[|a|] == c && |s| == n + |b|;
    assert forall i :: 0 <= i < |a| ==> s[i] == a[i];
    assert forall i :: 0 <= i < |b| ==> s[n + i] == b[i];
    if WellFormed(s) {
      forall i | 0 <= i < |a| ensures GoodAt(a, i) { assert GoodAt(s, i); }
      forall i | 0 <= i < |b| ensures GoodAt(b, i) { assert GoodAt(s, n + i); }
    }
    if WellFormed(a) && WellFormed(b) {
      forall i | 0 <= i < |s| ensures GoodAt(s, i) {
        if i < |a| {
          assert GoodAt(a, i);
        } else if i >= n {
          assert s[i] == b[i - n] && GoodAt(b, i - n);
          assert i + 2 < |s| ==> s[i + 1] == b[i - n + 1] && s[i + 2] == b[i - n + 2];
        }
      }
    }
  }

  /** A joined query is well-formed exactly when both parts are. */
  lemma JoinWellFormed(a: string, b: string)
    ensures WellFormed(JoinQuery(a, b)) <==> WellFormed(a) && WellFormed(b)
  {
    if a == "" {
      assert a + b == b;
    } else if b == "" {
      assert a + b == a;
    } else {
      WellFormedAround(a, '&', b, a + "&" + b);
    }
  }

  lemma WellFormedAppend(a: string, b: string)
    requires WellFormed(a) && WellFormed(b)
    ensures WellFormed(a + b)
  {
    var s, n := a + b, |a|;
    forall i | 0 <= i < |s| ensures GoodAt(s, i) {
      if i < n {
        assert GoodAt(a, i) && s[i] == a[i];
        assert i + 2 < n ==> s[i + 1] == a[i + 1] && s[i + 2] == a[i + 2];
      } else {
        assert GoodAt(b, i - n) && s[i] == b[i - n];
        assert i + 2 < |s| ==> s[i + 1] == b[i - n + 1] && s[i + 2] == b[i - n + 2];
      }
    }
  }

  lemma {:induction false} EscapeWellFormed(bytes: seq<byte>)
    ensures WellFormed(Escape(bytes))
  {
    if bytes != [] {
      EscapeWellFormed(bytes[1..]);
      ByteWellFormed(bytes[0]);
      WellFormedAppend(EscapeByte(bytes[0]), Escape(bytes[1..]));
    }
  }

  lemma ByteWellFormed(b: byte)
    ensures WellFormed(EscapeByte(b))
  {
    var s := EscapeByte(b);
    if !Unreserved(b) && b != 32 {
      assert GoodAt(s, 0) && GoodAt(s, 1) && GoodAt(s, 2);
    } else {
      assert GoodAt(s, 0);
    }
  }

  /** What the proxy re-encodes is well-formed, whatever it was parsed from. */
  lemma {:induction false} EncodeWellFormed(pairs: seq<Pair>)
    ensures WellFormed(Encode(pairs))
  {
    if pairs != [] {
      var p := pairs[0];
      EscapeWellFormed(p.key);
      EscapeWellFormed(p.value);
      WellFormedAround(Escape(p.key), '=', Escape(p.value), EncodePair(p));
      EncodeWellFormed(pairs[1..]);
      JoinWellFormed(EncodePair(p), Encode(pairs[1..]));
    }
  }

  /** A query comes out unchanged exactly when it is well-formed, and cleaning twice is cleaning once. */
  lemma CleanedExactly(s: string, parse: string -> seq<Pair>)
    ensures Cleaned(s, parse) == s <==> WellFormed(s)
    ensures WellFormed(Cleaned(s, parse))
    ensures Cleaned(Cleaned(s, parse), parse) == Cleaned(s, parse)
  {
    EncodeWellFormed(parse(s));
  }

  /** The query sent to a target is well-formed exactly when the target's own query is. */
  lemma ForwardedQuery(target: string, s: string, parse: string -> seq<Pair>)
    ensures WellFormed(JoinQuery(target, Cleaned(s, parse))) <==> WellFormed(target)
  {
    CleanedExactly(s, parse);
    JoinWellFormed(target, Cleaned(s, parse));
  }

  // ---------------------------------------------------------------------------------------------
  // Decoding
  // ---------------------------------------------------------------------------------------------

  /** A query as a server reads it: pairs between "&", cut at their first "=", unescaped. */
  function Unescape(s: string): Option<seq<byte>> {
    if s == "" then Some([])
    else if s[0] == '%' then
      if !EscapeAt(s, 0) then None
      else
        var rest := Unescape(s[3..]);
        if rest.None? then None else Some([16 * DigitValue(s[1]) + DigitValue(s[2])] + rest.value)
    else if s[0] >= 256 as char then None
    else
      var rest := Unescape(s[1..]);
      if rest.None? then None else Some([if s[0] == '+' then 32 else s[0] as int] + rest.value)
  }

  function DecodePair(s: string): Option<Pair> {
    var parts := Split(s, '=');
    if |parts| != 2 then None
    else
      var key, value := Unescape(parts[0]), Unescape(parts[1]);
      if key.Some? && value.Some? then Some(Pair(key.value, value.value)) else None
  }

  function DecodeAll(parts: seq<string>): Option<seq<Pair>> {
    if parts == [] then Some([])
    else
      var first, rest := DecodePair(parts[0]), DecodeAll(parts[1..]);
      if first.Some? && rest.Some? then Some([first.value] + rest.value) else None
  }

  function Decode(s: string): Option<seq<Pair>> { if s == "" then Some([]) else DecodeAll(Split(s, '&')) }

  lemma UpperDigitValue(n: nat)
    requires n < 16
    ensures DigitValue(UpperDigit(n)) == n
  {
  }

  lemma UnescapeOne(b: byte, rest: string)
    requires Unescape(rest).Some?
    ensures Unescape(EscapeByte(b) + rest) == Some([b] + Unescape(rest).value)
  {
    var s := EscapeByte(b) + rest;
    if Unreserved(b) || b == 32 {
      assert s[1..] == rest;
    } else {
      assert s[0] == '%' && s[1] == UpperDigit(b / 16) && s[2] == UpperDigit(b % 16) && s[3..] == rest;
      UpperDigitValue(b / 16);
      UpperDigitValue(b % 16);
    }
  }

  lemma {:induction false} UnescapeUndoesEscape(bytes: seq<byte>)
    ensures Unescape(Escape(bytes)) == Some(bytes)
  {
    if bytes != [] {
      UnescapeUndoesEscape(bytes[1..]);
      UnescapeOne(bytes[0], Escape(bytes[1..]));
      assert [bytes[0]] + bytes[1..] == bytes;
    }
  }

  lemma {:induction false} EscapeFree(bytes: seq<byte>, c: char)
    requires c == '&' || c == '='
    ensures c !in Escape(bytes)
  {
    if bytes != [] {
      EscapeFree(bytes[1..], c);
      var s := EscapeByte(bytes[0]);
      assert c !in s by { ByteFree(bytes[0], c); }
    }
  }

  lemma ByteFree(b: byte, c: char)
    requires c == '&' || c == '='
    ensures c !in EscapeByte(b)
  {
    if !Unreserved(b) && b != 32 {
      UpperDigitValue(b / 16);
      UpperDigitValue(b % 16);
    }
  }

  lemma PairReadBack(p: Pair)
    ensures DecodePair(EncodePair(p)) == Some(p) && '&' !in EncodePair(p)
  {
    EscapeFree(p.key, '=');
    EscapeFree(p.value, '=');
    EscapeFree(p.key, '&');
    EscapeFree(p.value, '&');
    SplitFirst(Escape(p.key), Escape(p.value), '=');
    SplitFirst(Escape(p.value), "", '=');
    UnescapeUndoesEscape(p.key);
    UnescapeUndoesEscape(p.value);
  }

  function Encoded(pairs: seq<Pair>): seq<string> { seq(|pairs|, i requires 0 <= i < |pairs| => EncodePair(pairs[i])) }

  lemma {:induction false} EncodeIsJoin(pairs: seq<Pair>)
    ensures Encode(pairs) == Join(Encoded(pairs), '&')
    ensures pairs != [] ==> Encode(pairs) != ""
  {
    if pairs != [] {
      EncodeIsJoin(pairs[1..]);
      assert Encoded(pairs)[1..] == Encoded(pairs[1..]);
      assert EncodePair(pairs[0]) != "" by { assert '=' in EncodePair(pairs[0]); }
    }
  }

  lemma {:induction false} DecodeEncoded(pairs: seq<Pair>)
    ensures DecodeAll(Encoded(pairs)) == Some(pairs)
  {
    if pairs != [] {
      PairReadBack(pairs[0]);
      DecodeEncoded(pairs[1..]);
      assert Encoded(pairs)[1..] == Encoded(pairs[1..]);
      assert [pairs[0]] + pairs[1..] == pairs;
    }
  }

  /** Decoding a re-encoded query gives its pairs back, in order. */
  lemma DecodeUndoesEncode(pairs: seq<Pair>)
    ensures Decode(Encode(pairs)) == Some(pairs)
  {
    EncodeIsJoin(pairs);
    DecodeEncoded(pairs);
    if pairs != [] {
      forall i | 0 <= i < |pairs| ensures '&' !in Encoded(pairs)[i] { PairReadBack(pairs[i]); }
      SplitOfJoin(Encoded(pairs), '&');
    }
  }

  lemma {:induction false} EncodeAppend(a: seq<Pair>, b: seq<Pair>)
    ensures Encode(a + b) == JoinQuery(Encode(a), Encode(b))
  {
    if a == [] {
      assert a + b == b && "" + Encode(b) == Encode(b);
    } else {
      assert (a + b)[0] == a[0] && (a + b)[1..] == a[1..] + b;
      EncodeAppend(a[1..], b);
      EncodeIsJoin([a[0]]);
      assert EncodePair(a[0]) != "" by { assert '=' in EncodePair(a[0]); }
      JoinAssoc(EncodePair(a[0]), Encode(a[1..]), Encode(b));
    }
  }

  lemma JoinAssoc(x: string, y: string, z: string)
    ensures JoinQuery(x, JoinQuery(y, z)) == JoinQuery(JoinQuery(x, y), z)
  {
    if x != "" && y != "" && z != "" {
      assert x + "&" + (y + "&" + z) == (x + "&" + y) + "&" + z;
    }
  }

  /** A joined query holds the pairs of the target first, then those of the request. */
  lemma JoinedPairs(a: seq<Pair>, b: seq<Pair>)
    ensures Decode(JoinQuery(Encode(a), Encode(b))) == Some(a + b)
  {
    EncodeAppend(a, b);
    DecodeUndoesEncode(a + b);
  }
}
