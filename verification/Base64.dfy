/** Canonical padded base 64 (section 4 of RFC 4648; strict about padding and unused bits, section 3.5). */
module Base64 {
  import opened Types

  type sextet = x: int | 0 <= x < 64

  function Symbol(n: sextet): char {
    if n < 26 then 'A' + n as char
    else if n < 52 then 'a' + (n - 26) as char
    else if n < 62 then '0' + (n - 52) as char
    else if n == 62 then '+' else '/'
  }

  function SymbolValue(c: char): Option<sextet> {
    if 'A' <= c <= 'Z' then Some((c - 'A') as int)
    else if 'a' <= c <= 'z' then Some(26 + (c - 'a') as int)
    else if '0' <= c <= '9' then Some(52 + (c - '0') as int)
    else if c == '+' then Some(62)
    else if c == '/' then Some(63)
    else None
  }

  // Three bytes are four sextets: how each side is cut from the other.

  function First(b: byte): sextet { b / 4 }
  function Second(b: byte, c: byte): sextet { b % 4 * 16 + c / 16 }
  function Third(c: byte, d: byte): sextet { c % 16 * 4 + d / 64 }
  function Fourth(d: byte): sextet { d % 64 }

  function Left(v: sextet, w: sextet): byte { (v as int) * 4 + (w as int) / 16 }
  function Middle(w: sextet, x: sextet): byte { (w as int) % 16 * 16 + (x as int) / 4 }
  function Right(x: sextet, y: sextet): byte { (x as int) % 4 * 64 + y as int }

  lemma CutsAgree(b: byte, c: byte, d: byte)
    ensures Left(First(b), Second(b, c)) == b
    ensures Middle(Second(b, c), Third(c, d)) == c
    ensures Right(Third(c, d), Fourth(d)) == d
    ensures Second(b, 0) % 16 == 0 && Third(c, 0) % 4 == 0
  {
  }

  lemma JoinsAgree(v: sextet, w: sextet, x: sextet, y: sextet)
    ensures First(Left(v, w)) == v
    ensures Second(Left(v, w), Middle(w, x)) == w
    ensures Third(Middle(w, x), Right(x, y)) == x
    ensures Fourth(Right(x, y)) == y
    ensures w % 16 == 0 ==> Second(Left(v, w), 0) == w
    ensures x % 4 == 0 ==> Third(Middle(w, x), 0) == x
  {
  }

  /** The last group, of one or two bytes, is padded to four characters. */
  function EncodeLast(b: Bytes): string
    requires 1 <= |b| <= 2
  {
    if |b| == 1 then [Symbol(First(b[0])), Symbol(Second(b[0], 0)), '=', '=']
    else [Symbol(First(b[0])), Symbol(Second(b[0], b[1])), Symbol(Third(b[1], 0)), '=']
  }

  function EncodeGroup(b: byte, c: byte, d: byte): string {
    [Symbol(First(b)), Symbol(Second(b, c)), Symbol(Third(c, d)), Symbol(Fourth(d))]
  }

  function Encode(b: Bytes): string {
    if b == [] then []
    else if |b| < 3 then EncodeLast(b)
    else EncodeGroup(b[0], b[1], b[2]) + Encode(b[3..])
  }

  /** The bits of a padded group that carry nothing must be zero. */
  function DecodeLast(s: string): Option<Bytes>
    requires |s| == 4
  {
    match (SymbolValue(s[0]), SymbolValue(s[1]), SymbolValue(s[2]))
    case (Some(v), Some(w), None) => if s[2] == '=' && w % 16 == 0 then Some([Left(v, w)]) else None
    case (Some(v), Some(w), Some(x)) => if x % 4 == 0 then Some([Left(v, w), Middle(w, x)]) else None
    case _ => None
  }

  function DecodeGroup(s: string): Option<Bytes>
    requires |s| == 4
  {
    match (SymbolValue(s[0]), SymbolValue(s[1]), SymbolValue(s[2]), SymbolValue(s[3]))
    case (Some(v), Some(w), Some(x), Some(y)) => Some([Left(v, w), Middle(w, x), Right(x, y)])
    case _ => None
  }

  function Decode(s: string): Option<Bytes> {
    if s == [] then Some([])
    else if |s| < 4 then None
    else if |s| == 4 && s[3] == '=' then DecodeLast(s)
    else
      match (DecodeGroup(s[..4]), Decode(s[4..]))
      case (Some(group), Some(rest)) => Some(group + rest)
      case _ => None
  }

  lemma SymbolsAgree(n: sextet)
    ensures SymbolValue(Symbol(n)) == Some(n) && Symbol(n) != '='
  {
  }

  lemma ValuesAgree(c: char)
    ensures SymbolValue(c).Some? ==> Symbol(SymbolValue(c).value) == c
  {
  }

  lemma OneByteSymbols(v: sextet, w: sextet)
    requires w % 16 == 0
    ensures DecodeLast([Symbol(v), Symbol(w), '=', '=']) == Some([Left(v, w)])
  {
    SymbolsAgree(v);
    SymbolsAgree(w);
  }

  lemma LastOneRoundTrip(b: byte)
    ensures DecodeLast(EncodeLast([b])) == Some([b])
  {
    CutsAgree(b, 0, 0);
    OneByteSymbols(First(b), Second(b, 0));
  }

  lemma LastTwoRoundTrip(b: byte, c: byte)
    ensures DecodeLast(EncodeLast([b, c])) == Some([b, c])
  {
    CutsAgree(b, c, 0);
    SymbolsAgree(First(b));
    SymbolsAgree(Second(b, c));
    SymbolsAgree(Third(c, 0));
  }

  lemma GroupRoundTrip(b: byte, c: byte, d: byte)
    ensures DecodeGroup(EncodeGroup(b, c, d)) == Some([b, c, d])
    ensures EncodeGroup(b, c, d)[3] != '='
  {
    CutsAgree(b, c, d);
    SymbolsAgree(First(b));
    SymbolsAgree(Second(b, c));
    SymbolsAgree(Third(c, d));
    SymbolsAgree(Fourth(d));
  }

  lemma DecodeStep(group: string, rest: string, b: Bytes, more: Bytes)
    requires |group| == 4 && group[3] != '='
    requires DecodeGroup(group) == Some(b) && Decode(rest) == Some(more)
    ensures Decode(group + rest) == Some(b + more)
  {
    assert (group + rest)[..4] == group && (group + rest)[4..] == rest;
  }

  lemma {:induction false} EncodeDecode(b: Bytes)
    ensures Decode(Encode(b)) == Some(b)
  {
    if |b| == 1 {
      assert b == [b[0]];
      LastOneRoundTrip(b[0]);
    } else if |b| == 2 {
      assert b == [b[0], b[1]];
      LastTwoRoundTrip(b[0], b[1]);
    } else if b != [] {
      GroupRoundTrip(b[0], b[1], b[2]);
      EncodeDecode(b[3..]);
      DecodeStep(EncodeGroup(b[0], b[1], b[2]), Encode(b[3..]), [b[0], b[1], b[2]], b[3..]);
      assert b == [b[0], b[1], b[2]] + b[3..];
    }
  }

  lemma LastIsCanonical(s: string)
    requires |s| == 4 && s[3] == '='
    ensures DecodeLast(s).Some? ==> 1 <= |DecodeLast(s).value| <= 2 && EncodeLast(DecodeLast(s).value) == s
  {
    if DecodeLast(s).Some? {
      ValuesAgree(s[0]);
      ValuesAgree(s[1]);
      ValuesAgree(s[2]);
      var x := if SymbolValue(s[2]).Some? then SymbolValue(s[2]).value else 0;
      JoinsAgree(SymbolValue(s[0]).value, SymbolValue(s[1]).value, x, 0);
    }
  }

  lemma GroupIsCanonical(s: string)
    requires |s| == 4
    ensures DecodeGroup(s).Some? ==>
      var b := DecodeGroup(s).value;
      |b| == 3 && EncodeGroup(b[0], b[1], b[2]) == s
  {
    if DecodeGroup(s).Some? {
      ValuesAgree(s[0]);
      ValuesAgree(s[1]);
      ValuesAgree(s[2]);
      ValuesAgree(s[3]);
      JoinsAgree(SymbolValue(s[0]).value, SymbolValue(s[1]).value, SymbolValue(s[2]).value, SymbolValue(s[3]).value);
    }
  }

  /** A string is accepted only if it is the encoding of what it decodes to. */
  lemma {:induction false} DecodeEncode(s: string)
    ensures Decode(s).Some? ==> Encode(Decode(s).value) == s
  {
    if |s| == 4 && s[3] == '=' {
      LastIsCanonical(s);
    } else if |s| >= 4 && Decode(s).Some? {
      GroupIsCanonical(s[..4]);
      DecodeEncode(s[4..]);
      assert Decode(s).value[3..] == Decode(s[4..]).value;
      assert s == s[..4] + s[4..];
    }
  }

  /** The alphabet: capital letters, small letters, digits, plus and slash, in this order. */
  lemma SymbolsAreTheAlphabet(n: sextet)
    ensures Symbol(0) == 'A' && Symbol(25) == 'Z' && Symbol(26) == 'a' && Symbol(51) == 'z'
    ensures Symbol(52) == '0' && Symbol(61) == '9' && Symbol(62) == '+' && Symbol(63) == '/'
    ensures n < 25 || 26 <= n < 51 || 52 <= n < 61 ==> Symbol(n + 1) as int == Symbol(n) as int + 1
  {
  }

  function Number(v: sextet, w: sextet, x: sextet, y: sextet): nat {
    ((v as int * 64 + w as int) * 64 + x as int) * 64 + y as int
  }

  /** Three bytes are one number of 24 bits, and their characters its digits in base 64, most significant first. */
  lemma GroupIsNumeral(b: byte, c: byte, d: byte)
    ensures exists v, w, x, y ::
      EncodeGroup(b, c, d) == [Symbol(v), Symbol(w), Symbol(x), Symbol(y)]
      && Number(v, w, x, y) == (b as int * 256 + c as int) * 256 + d as int
  {
    var v, w, x, y := First(b), Second(b, c), Third(c, d), Fourth(d);
    assert b == v as int * 4 + b % 4 && c == c / 16 * 16 + c % 16 && d == d / 64 * 64 + d % 64;
    assert Number(v, w, x, y) == (b as int * 256 + c as int) * 256 + d as int;
    assert EncodeGroup(b, c, d) == [Symbol(v), Symbol(w), Symbol(x), Symbol(y)];
  }

  /** One byte left over, or two, are filled up with zero bytes, and the characters those would take are padding. */
  lemma LastIsNumeral(b: byte, c: byte)
    ensures exists v, w ::
      EncodeLast([b]) == [Symbol(v), Symbol(w), '=', '='] && Number(v, w, 0, 0) == b as int * 65536
    ensures exists v, w, x ::
      EncodeLast([b, c]) == [Symbol(v), Symbol(w), Symbol(x), '=']
      && Number(v, w, x, 0) == (b as int * 256 + c as int) * 256
  {
    var v, w, x := First(b), Second(b, c), Third(c, 0);
    assert b == v as int * 4 + b % 4 && c == c / 16 * 16 + c % 16;
    assert Number(v, Second(b, 0), 0, 0) == b as int * 65536;
    assert EncodeLast([b]) == [Symbol(v), Symbol(Second(b, 0)), '=', '='];
    assert Number(v, w, x, 0) == (b as int * 256 + c as int) * 256;
    assert EncodeLast([b, c]) == [Symbol(v), Symbol(w), Symbol(x), '='];
  }
}
