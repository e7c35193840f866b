/** Hexadecimal text, and `strings.Split` against `strings.Join`. */
module Text {
  import opened Seqs

  // ---------------------------------------------------------------------------------------------
  // Hexadecimal
  // ---------------------------------------------------------------------------------------------

  predicate IsHexDigit(c: char) { '0' <= c <= '9' || 'a' <= c <= 'f' || 'A' <= c <= 'F' }

  function DigitValue(c: char): (v: nat)
    requires IsHexDigit(c)
    ensures v < 16
  {
    if '0' <= c <= '9' then (c - '0') as int else if 'a' <= c <= 'f' then 10 + (c - 'a') as int else 10 + (c - 'A') as int
  }

  function Digit(n: nat): char
    requires n < 16
  {
    if n < 10 then '0' + n as char else 'a' + (n - 10) as char
  }

  predicate IsLowerHex(c: char) { '0' <= c <= '9' || 'a' <= c <= 'f' }

  lemma DigitRoundTrip(n: nat)
    requires n < 16
    ensures IsLowerHex(Digit(n)) && DigitValue(Digit(n)) == n
  {
  }

  function HexByte(b: byte): (s: string)
    ensures |s| == 2
  {
    [Digit(b / 16), Digit(b % 16)]
  }

  lemma HexByteRoundTrip(b: byte)
    ensures var s := HexByte(b);
            && IsLowerHex(s[0]) && IsLowerHex(s[1])
            && 16 * DigitValue(s[0]) + DigitValue(s[1]) == b
  {
    DigitRoundTrip(b / 16);
    DigitRoundTrip(b % 16);
  }

  /** The digit at position `i` of the text of `bytes`. */
  function HexChar(bytes: seq<byte>, i: nat): char
    requires i < 2 * |bytes|
  {
    HexByte(bytes[i / 2])[i % 2]
  }

  /** Two lower-case digits a byte. */
  function Hex(bytes: seq<byte>): (s: string)
    ensures |s| == 2 * |bytes|
  {
    seq(2 * |bytes|, i requires 0 <= i < 2 * |bytes| => HexChar(bytes, i))
  }

  /** A run of whole bytes is a run of digit pairs. */
  lemma HexSlice(bytes: seq<byte>, i: nat, j: nat)
    requires i <= j <= |bytes|
    ensures Hex(bytes)[2 * i .. 2 * j] == Hex(bytes[i..j])
  {
    var part := bytes[i..j];
    forall k: nat | k < 2 * (j - i)
      ensures Hex(bytes)[2 * i + k] == Hex(part)[k]
    {
      assert (2 * i + k) / 2 == i + k / 2 && (2 * i + k) % 2 == k % 2;
      assert part[k / 2] == bytes[i + k / 2];
    }
  }

  lemma HexOne(b: byte)
    ensures Hex([b]) == HexByte(b)
  {
    assert HexChar([b], 0) == HexByte(b)[0] && HexChar([b], 1) == HexByte(b)[1];
  }

  /** The bytes a string of digit pairs stands for. */
  function Unhex(s: string): Option<seq<byte>> {
    if s == [] then Some([])
    else if |s| < 2 || !IsHexDigit(s[0]) || !IsHexDigit(s[1]) then None
    else
      var rest := Unhex(s[2..]);
      if rest.None? then None else Some([16 * DigitValue(s[0]) + DigitValue(s[1])] + rest.value)
  }

  lemma {:induction false} HexRoundTrip(bytes: seq<byte>)
    ensures Unhex(Hex(bytes)) == Some(bytes)
  {
    if bytes != [] {
      var s := Hex(bytes);
      HexByteRoundTrip(bytes[0]);
      assert s[0] == HexChar(bytes, 0) && s[1] == HexChar(bytes, 1);
      HexSlice(bytes, 1, |bytes|);
      assert s[2..] == s[2..|s|] && bytes[1..] == bytes[1..|bytes|];
      HexRoundTrip(bytes[1..]);
      assert bytes == [bytes[0]] + bytes[1..];
    }
  }

  // ---------------------------------------------------------------------------------------------
  // Splitting and joining on one character
  // ---------------------------------------------------------------------------------------------

  function Split(s: string, c: char): (parts: seq<string>)
    ensures |parts| >= 1
  {
    if s == "" then [""]
    else if s[0] == c then [""] + Split(s[1..], c)
    else
      var rest := Split(s[1..], c);
      [[s[0]] + rest[0]] + rest[1..]
  }

  function Join(parts: seq<string>, c: char): string {
    if parts == [] then "" else if |parts| == 1 then parts[0] else parts[0] + [c] + Join(parts[1..], c)
  }

  ghost predicate AllFree(parts: seq<string>, c: char) { forall i :: 0 <= i < |parts| ==> c !in parts[i] }

  lemma {:induction false} SplitIsFree(s: string, c: char)
    ensures AllFree(Split(s, c), c)
  {
    if s != "" { SplitIsFree(s[1..], c); }
  }

  /** A separator ends the first part. */
  lemma {:induction false} SplitFirst(p: string, s: string, c: char)
    requires c !in p
    ensures Split(p, c) == [p]
    ensures Split(p + [c] + s, c) == [p] + Split(s, c)
  {
    var whole := p + [c] + s;
    if p == "" {
      assert whole[1..] == s;
    } else {
      assert c !in p[1..];
      SplitFirst(p[1..], s, c);
      assert whole[1..] == p[1..] + [c] + s;
      assert [p[0]] + p[1..] == p;
    }
  }

  /** A separator between two texts separates their parts. */
  lemma {:induction false} SplitAppend(a: string, b: string, c: char)
    ensures Split(a + [c] + b, c) == Split(a, c) + Split(b, c)
  {
    var whole := a + [c] + b;
    if a == "" {
      assert whole[1..] == b;
    } else {
      assert whole[1..] == a[1..] + [c] + b;
      SplitAppend(a[1..], b, c);
    }
  }

  lemma {:induction false} SplitOfJoin(parts: seq<string>, c: char)
    requires parts != [] && AllFree(parts, c)
    ensures Split(Join(parts, c), c) == parts
  {
    if |parts| == 1 {
      SplitFirst(parts[0], "", c);
    } else {
      SplitOfJoin(parts[1..], c);
      SplitFirst(parts[0], Join(parts[1..], c), c);
      assert parts == [parts[0]] + parts[1..];
    }
  }

  /** Splitting undoes joining exactly when no part holds the separator. */
  lemma SplitUndoesJoin(parts: seq<string>, c: char)
    requires parts != []
    ensures Split(Join(parts, c), c) == parts <==> AllFree(parts, c)
  {
    if AllFree(parts, c) {
      SplitOfJoin(parts, c);
    }
    SplitIsFree(Join(parts, c), c);
  }

  function Count(s: string, c: char): nat { if s == "" then 0 else (if s[0] == c then 1 else 0) + Count(s[1..], c) }

  lemma {:induction false} SplitLength(s: string, c: char)
    ensures |Split(s, c)| == Count(s, c) + 1
  {
    if s != "" { SplitLength(s[1..], c); }
  }

  lemma {:induction false} CountAppend(a: string, b: string, c: char)
    ensures Count(a + b, c) == Count(a, c) + Count(b, c)
  {
    if a == "" {
      assert a + b == b;
    } else {
      assert (a + b)[1..] == a[1..] + b;
      CountAppend(a[1..], b, c);
    }
  }

  lemma {:induction false} CountPositive(s: string, c: char)
    ensures Count(s, c) > 0 <==> c in s
  {
    if s != "" {
      CountPositive(s[1..], c);
      assert s == [s[0]] + s[1..];
    }
  }

  /** Joined parts split into as many pieces exactly when no part holds the separator. */
  lemma {:induction false} JoinCount(parts: seq<string>, c: char)
    requires parts != []
    ensures Count(Join(parts, c), c) >= |parts| - 1
    ensures Count(Join(parts, c), c) == |parts| - 1 <==> AllFree(parts, c)
  {
    CountPositive(parts[0], c);
    if |parts| > 1 {
      var rest := parts[1..];
      JoinCount(rest, c);
      CountAppend(parts[0] + [c], Join(rest, c), c);
      CountAppend(parts[0], [c], c);
      assert [c][1..] == "" && Count([c], c) == 1;
      assert AllFree(parts, c) <==> c !in parts[0] && AllFree(rest, c) by {
        assert forall i :: 0 < i < |parts| ==> parts[i] == rest[i - 1];
        assert forall i :: 0 <= i < |rest| ==> rest[i] == parts[i + 1];
      }
    }
  }

  /** Joining and splitting keep the number of parts exactly when no part holds the separator. */
  lemma PartsCounted(parts: seq<string>, c: char)
    requires parts != []
    ensures |Split(Join(parts, c), c)| >= |parts|
    ensures |Split(Join(parts, c), c)| == |parts| <==> AllFree(parts, c)
  {
    SplitLength(Join(parts, c), c);
    JoinCount(parts, c);
  }
}
