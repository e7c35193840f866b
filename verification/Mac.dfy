/** Hardware addresses as text: Go's `HardwareAddr.String` and `net.ParseMAC`. */
module Mac {
  import opened Seqs
  import opened Text

  function MacChar(mac: seq<byte>, c: char, i: nat): char
    requires i < 3 * |mac|
  {
    if i % 3 == 2 then c else HexByte(mac[i / 3])[i % 3]
  }

  /** Two lower-case digits a byte, separated by `c`. */
  function MacText(mac: seq<byte>, c: char): (s: string)
    ensures |s| == if mac == [] then 0 else 3 * |mac| - 1
  {
    if mac == [] then "" else seq(3 * |mac| - 1, i requires 0 <= i < 3 * |mac| - 1 => MacChar(mac, c, i))
  }

  /** The text with every `a` turned into `b`. */
  function ReplaceAll(s: string, a: char, b: char): string {
    seq(|s|, i requires 0 <= i < |s| => if s[i] == a then b else s[i])
  }

  lemma MacCharIsDigit(mac: seq<byte>, c: char, i: nat)
    requires i < 3 * |mac| && i % 3 != 2
    ensures IsLowerHex(MacChar(mac, c, i))
  {
    HexByteRoundTrip(mac[i / 3]);
  }

  /** Replacing the separator gives the text with the other separator. */
  lemma MacTextReplaced(mac: seq<byte>, a: char, b: char)
    requires !IsLowerHex(a)
    ensures ReplaceAll(MacText(mac, a), a, b) == MacText(mac, b)
  {
    forall i | 0 <= i < |MacText(mac, a)|
      ensures ReplaceAll(MacText(mac, a), a, b)[i] == MacText(mac, b)[i]
    {
      if i % 3 != 2 { MacCharIsDigit(mac, a, i); }
    }
  }

  /** The text holds digits and separators only. */
  lemma MacTextFree(mac: seq<byte>, c: char, d: char)
    requires !IsLowerHex(d) && c != d
    ensures d !in MacText(mac, c)
  {
    var s := MacText(mac, c);
    forall i | 0 <= i < |s| ensures s[i] != d {
      if i % 3 != 2 { MacCharIsDigit(mac, c, i); }
    }
  }

  // ---------------------------------------------------------------------------------------------
  // Parsing
  // ---------------------------------------------------------------------------------------------

  predicate HexAt(s: string, i: nat) { i + 1 < |s| && IsHexDigit(s[i]) && IsHexDigit(s[i + 1]) }

  function ByteAt(s: string, i: nat): byte
    requires HexAt(s, i)
  {
    16 * DigitValue(s[i]) + DigitValue(s[i + 1])
  }

  /** Pair number `i` of a text of digit pairs separated by `c`. */
  predicate PairAt(s: string, c: char, i: nat) { HexAt(s, 3 * i) && (3 * i + 2 < |s| ==> s[3 * i + 2] == c) }

  /** Any number of digit pairs separated by `c`. */
  function ParsePairs(s: string, c: char): Option<seq<byte>> {
    if s == "" then Some([])
    else if (|s| + 1) % 3 != 0 then None
    else
      var n := (|s| + 1) / 3;
      if forall i: nat | i < n :: PairAt(s, c, i)
      then Some(seq(n, i requires 0 <= i < n && PairAt(s, c, i) => ByteAt(s, 3 * i)))
      else None
  }

  /** Group number `i` of four digits, followed by a dot but at the end. */
  predicate QuadAt(s: string, i: nat) {
    HexAt(s, 5 * i) && HexAt(s, 5 * i + 2) && (5 * i + 4 < |s| ==> s[5 * i + 4] == '.')
  }

  function QuadByte(s: string, i: nat): byte
    requires QuadAt(s, i / 2)
  {
    ByteAt(s, 5 * (i / 2) + 2 * (i % 2))
  }

  predicate Accepted(n: nat) { n == 6 || n == 8 || n == 20 }

  /** `net.ParseMAC`: colon or dash pairs, or dotted groups of four, of 6, 8 or 20 bytes. */
  function ParseMac(s: string): (r: Option<seq<byte>>)
    ensures r.Some? ==> Accepted(|r.value|)
  {
    if |s| < 14 then None
    else if s[2] == ':' || s[2] == '-' then
      if (|s| + 1) % 3 != 0 || !Accepted((|s| + 1) / 3) then None else ParsePairs(s, s[2])
    else if s[4] == '.' then
      if (|s| + 1) % 5 != 0 || !Accepted(2 * (|s| + 1) / 5) then None
      else
        var groups := (|s| + 1) / 5;
        if forall i: nat | i < groups :: QuadAt(s, i)
        then Some(seq(2 * groups, i requires 0 <= i < 2 * groups && QuadAt(s, i / 2) => QuadByte(s, i)))
        else None
    else None
  }

  lemma PairOfText(mac: seq<byte>, c: char, i: nat)
    requires i < |mac|
    ensures var s := MacText(mac, c); PairAt(s, c, i) && ByteAt(s, 3 * i) == mac[i]
  {
    var s := MacText(mac, c);
    HexByteRoundTrip(mac[i]);
    assert s[3 * i] == MacChar(mac, c, 3 * i) && s[3 * i + 1] == MacChar(mac, c, 3 * i + 1);
    assert 3 * i + 2 < |s| ==> s[3 * i + 2] == MacChar(mac, c, 3 * i + 2);
  }

  lemma PairsRoundTrip(mac: seq<byte>, c: char)
    ensures ParsePairs(MacText(mac, c), c) == Some(mac)
  {
    var s := MacText(mac, c);
    if mac != [] {
      forall i: nat | i < |mac| ensures PairAt(s, c, i) && ByteAt(s, 3 * i) == mac[i] { PairOfText(mac, c, i); }
      assert (|s| + 1) / 3 == |mac|;
      var r := ParsePairs(s, c);
      assert r.Some? && |r.value| == |mac|;
      forall i: nat | i < |mac| ensures r.value[i] == mac[i] {
        assert PairAt(s, c, i);
      }
      assert r.value == mac;
    }
  }

  /** A printed address parses back exactly when its length is one that `ParseMAC` knows. */
  lemma MacRoundTrip(mac: seq<byte>, c: char)
    requires c == ':' || c == '-'
    ensures ParseMac(MacText(mac, c)) == Some(mac) <==> Accepted(|mac|)
  {
    if Accepted(|mac|) {
      var s := MacText(mac, c);
      assert s[2] == MacChar(mac, c, 2);
      PairsRoundTrip(mac, c);
    }
  }
}
