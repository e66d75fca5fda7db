/** Etags in HTTP headers: sixteen hexadecimal digits (base 16 of section 8 of RFC 4648), in lower case when printed. */
module EtagCodec {
  import opened Types

  type nibble = x: int | 0 <= x < 16

  function Digit(n: nibble): char {
    if n < 10 then '0' + n as char else 'a' + (n - 10) as char
  }

  function DigitValue(c: char): Option<nibble> {
    if '0' <= c <= '9' then Some((c - '0') as int)
    else if 'a' <= c <= 'f' then Some(10 + (c - 'a') as int)
    else if 'A' <= c <= 'F' then Some(10 + (c - 'A') as int)
    else None
  }

  predicate IsHex(c: char) {
    '0' <= c <= '9' || 'a' <= c <= 'f' || 'A' <= c <= 'F'
  }

  predicate AllHex(s: string) {
    forall c | c in s :: IsHex(c)
  }

  function LowerCase(c: char): char {
    if 'A' <= c <= 'Z' then c - 'A' + 'a' else c
  }

  function Lower(s: string): string {
    seq(|s|, i requires 0 <= i < |s| => LowerCase(s[i]))
  }

  function HexEncode(b: Bytes): string {
    if b == [] then [] else [Digit(b[0] / 16), Digit(b[0] % 16)] + HexEncode(b[1..])
  }

  function HexDecode(s: string): Option<Bytes> {
    if s == [] then Some([])
    else if |s| == 1 then None
    else
      match (DigitValue(s[0]), DigitValue(s[1]), HexDecode(s[2..]))
      case (Some(h), Some(l), Some(rest)) =>
        var first: byte := (h as int) * 16 + (l as int);
        Some([first] + rest)
      case _ => None
  }

  function BigEndian(e: nat, size: nat): Bytes {
    if size == 0 then [] else BigEndian(e / 256, size - 1) + [e % 256]
  }

  function FromBigEndian(b: Bytes): nat {
    if b == [] then 0 else FromBigEndian(b[..|b| - 1]) * 256 + b[|b| - 1]
  }

  function Pow256(n: nat): nat {
    if n == 0 then 1 else 256 * Pow256(n - 1)
  }

  function EtagString(e: u64): string {
    HexEncode(BigEndian(e, 8))
  }

  function EtagFromStr(s: string): Option<u64> {
    match HexDecode(s)
    case None => None
    case Some(b) => if |b| == 8 then FromEight(b); Some(FromBigEndian(b)) else None
  }

  lemma DigitsAgree(c: char)
    ensures DigitValue(c).Some? <==> IsHex(c)
    ensures DigitValue(c).Some? ==> Digit(DigitValue(c).value) == LowerCase(c)
  {
  }

  lemma {:induction false} HexRoundTrip(b: Bytes)
    ensures |HexEncode(b)| == 2 * |b|
    ensures HexDecode(HexEncode(b)) == Some(b)
  {
    if b != [] {
      HexRoundTrip(b[1..]);
      assert HexEncode(b)[2..] == HexEncode(b[1..]);
      assert b == [b[0]] + b[1..];
      assert DigitValue(Digit(b[0] / 16)) == Some(b[0] / 16);
      assert DigitValue(Digit(b[0] % 16)) == Some(b[0] % 16);
    }
  }

  /** Decoding accepts exactly the strings of pairs of hexadecimal digits, and printing again lowers their case. */
  lemma {:induction false} HexDecodeExactly(s: string)
    ensures HexDecode(s).Some? <==> |s| % 2 == 0 && AllHex(s)
    ensures HexDecode(s).Some? ==> 2 * |HexDecode(s).value| == |s| && HexEncode(HexDecode(s).value) == Lower(s)
  {
    if |s| >= 2 {
      HexDecodeExactly(s[2..]);
      HexPair(s);
      HexFront(s);
    }
  }

  lemma HexFront(s: string)
    requires |s| >= 2
    ensures AllHex(s) <==> IsHex(s[0]) && IsHex(s[1]) && AllHex(s[2..])
    ensures Lower(s) == [LowerCase(s[0]), LowerCase(s[1])] + Lower(s[2..])
  {
    assert s == [s[0], s[1]] + s[2..];
  }

  lemma HexPair(s: string)
    requires |s| >= 2
    ensures HexDecode(s).Some? <==> IsHex(s[0]) && IsHex(s[1]) && HexDecode(s[2..]).Some?
    ensures HexDecode(s).Some? ==>
      && |HexDecode(s).value| == 1 + |HexDecode(s[2..]).value|
      && HexEncode(HexDecode(s).value) == [LowerCase(s[0]), LowerCase(s[1])] + HexEncode(HexDecode(s[2..]).value)
  {
    DigitsAgree(s[0]);
    DigitsAgree(s[1]);
    if HexDecode(s).Some? {
      var b := HexDecode(s).value;
      assert b[1..] == HexDecode(s[2..]).value;
      assert b[0] / 16 == DigitValue(s[0]).value && b[0] % 16 == DigitValue(s[1]).value;
    }
  }

  lemma {:induction false} BigEndianRoundTrip(e: nat, size: nat)
    requires e < Pow256(size)
    ensures |BigEndian(e, size)| == size && FromBigEndian(BigEndian(e, size)) == e
  {
    if size > 0 {
      BigEndianRoundTrip(e / 256, size - 1);
      var b := BigEndian(e, size);
      assert b[..|b| - 1] == BigEndian(e / 256, size - 1);
    }
  }

  lemma {:induction false} FromBigEndianExactly(b: Bytes)
    ensures FromBigEndian(b) < Pow256(|b|)
    ensures BigEndian(FromBigEndian(b), |b|) == b
  {
    if b != [] {
      FromBigEndianExactly(b[..|b| - 1]);
      assert b == b[..|b| - 1] + [b[|b| - 1]];
    }
  }

  lemma EightBytes()
    ensures Pow256(8) == TWO_64
  {
    assert Pow256(4) == TWO_32;
  }

  lemma FromEight(b: Bytes)
    requires |b| == 8
    ensures FromBigEndian(b) < TWO_64
  {
    FromBigEndianExactly(b);
    EightBytes();
  }

  /** Printing an etag and reading it back gives it again. */
  lemma EtagRoundTrip(e: u64)
    ensures EtagFromStr(EtagString(e)) == Some(e) && |EtagString(e)| == 16
  {
    EightBytes();
    BigEndianRoundTrip(e, 8);
    HexRoundTrip(BigEndian(e, 8));
  }

  /** A header is accepted exactly when it is sixteen hexadecimal digits; printing its etag gives them in lower case. */
  lemma EtagAcceptsExactly(s: string)
    ensures EtagFromStr(s).Some? <==> |s| == 16 && AllHex(s)
    ensures EtagFromStr(s).Some? ==> EtagString(EtagFromStr(s).value) == Lower(s)
  {
    HexDecodeExactly(s);
    if EtagFromStr(s).Some? {
      FromBigEndianExactly(HexDecode(s).value);
    }
  }

  const HEX := "0123456789abcdef"

  /** `s` is `n` in base 16, most significant digit first, with as many leading zeros as it takes. */
  predicate Denotes(s: string, n: nat) {
    if s == [] then n == 0 else s[|s| - 1] == HEX[n % 16] && Denotes(s[..|s| - 1], n / 16)
  }

  lemma {:induction false} HexEncodeLast(b: Bytes, last: byte)
    ensures HexEncode(b + [last]) == HexEncode(b) + [Digit(last / 16), Digit(last % 16)]
  {
    if b == [] {
      assert [last][1..] == [];
    } else {
      assert (b + [last])[1..] == b[1..] + [last];
      HexEncodeLast(b[1..], last);
    }
  }

  lemma DigitsOfByte(n: nat)
    ensures Digit(n % 256 / 16) == HEX[n / 16 % 16] && Digit(n % 256 % 16) == HEX[n % 16]
    ensures n / 16 / 16 == n / 256
  {
    assert n % 256 / 16 == n / 16 % 16 && n % 256 % 16 == n % 16;
  }

  lemma {:induction false} PrintsNumeral(e: nat, size: nat)
    requires e < Pow256(size)
    ensures Denotes(HexEncode(BigEndian(e, size)), e)
  {
    if size > 0 {
      PrintsNumeral(e / 256, size - 1);
      var front := HexEncode(BigEndian(e / 256, size - 1));
      HexEncodeLast(BigEndian(e / 256, size - 1), e % 256);
      DigitsOfByte(e);
      var s := HexEncode(BigEndian(e, size));
      assert s == front + [HEX[e / 16 % 16], HEX[e % 16]];
      assert s[..|s| - 1] == front + [HEX[e / 16 % 16]] && s[..|s| - 1][..|front|] == front;
    }
  }

  /** An etag in a header is its number in base 16, most significant digit first. */
  lemma EtagIsNumeral(e: u64)
    ensures Denotes(EtagString(e), e) && |EtagString(e)| == 16
  {
    EightBytes();
    PrintsNumeral(e, 8);
    EtagRoundTrip(e);
  }
}
