/** The URL-safe base64 encoding with padding (sections 4 and 5 of RFC 4648). */
module Base64 {
  import opened Wrappers

  type Byte = b: nat | b < 256

  type Sextet = d: nat | d < 64

  const PAD := '='

  function Symbol(d: Sextet): (c: char)
    ensures c != PAD && SextetOf(c) == Some(d)
  {
    if d < 26 then ('A' as int + d) as char
    else if d < 52 then ('a' as int + d - 26) as char
    else if d < 62 then ('0' as int + d - 52) as char
    else if d == 62 then '-'
    else '_'
  }

  function SextetOf(c: char): Option<Sextet> {
    if 'A' <= c <= 'Z' then Some(c as int - 'A' as int)
    else if 'a' <= c <= 'z' then Some(c as int - 'a' as int + 26)
    else if '0' <= c <= '9' then Some(c as int - '0' as int + 52)
    else if c == '-' then Some(62)
    else if c == '_' then Some(63)
    else None
  }

  lemma SymbolOfSextet(c: char)
    requires SextetOf(c).Some?
    ensures Symbol(SextetOf(c).value) == c
  {
  }

  /** The alphabet of table 2 of RFC 4648: the upper-case letters, the lower-case ones, the digits, and two signs. */
  lemma AlphabetRuns(d: Sextet)
    ensures Symbol(0) == 'A' && Symbol(25) == 'Z' && Symbol(26) == 'a' && Symbol(51) == 'z'
    ensures Symbol(52) == '0' && Symbol(61) == '9' && Symbol(62) == '-' && Symbol(63) == '_'
    ensures d < 61 && d != 25 && d != 51 ==> Symbol(d + 1) as int == Symbol(d) as int + 1
  {
  }

  function EncodeOne(a: Byte): (s: string)
    ensures |s| == 4
  {
    [Symbol(a / 4), Symbol(a % 4 * 16), PAD, PAD]
  }

  function EncodeTwo(a: Byte, b: Byte): (s: string)
    ensures |s| == 4
  {
    [Symbol(a / 4), Symbol(a % 4 * 16 + b / 16), Symbol(b % 16 * 4), PAD]
  }

  function EncodeThree(a: Byte, b: Byte, c: Byte): (s: string)
    ensures |s| == 4
  {
    [Symbol(a / 4), Symbol(a % 4 * 16 + b / 16), Symbol(b % 16 * 4 + c / 64), Symbol(c % 64)]
  }

  function Encode(bytes: seq<Byte>): string {
    if bytes == [] then ""
    else if |bytes| == 1 then EncodeOne(bytes[0])
    else if |bytes| == 2 then EncodeTwo(bytes[0], bytes[1])
    else EncodeThree(bytes[0], bytes[1], bytes[2]) + Encode(bytes[3..])
  }

  /** One byte from two symbols; the bits that are left over must be zero. */
  function DecodeOne(d: Option<Sextet>, e: Option<Sextet>): Option<seq<Byte>> {
    if d.None? || e.None? || e.value % 16 != 0 then None
    else Some([d.value * 4 + e.value / 16])
  }

  function DecodeTwo(d: Option<Sextet>, e: Option<Sextet>, f: Option<Sextet>): Option<seq<Byte>> {
    if d.None? || e.None? || f.None? || f.value % 4 != 0 then None
    else Some([d.value * 4 + e.value / 16, e.value % 16 * 16 + f.value / 4])
  }

  function DecodeThree(d: Option<Sextet>, e: Option<Sextet>, f: Option<Sextet>, g: Option<Sextet>): Option<seq<Byte>> {
    if d.None? || e.None? || f.None? || g.None? then None
    else Some([d.value * 4 + e.value / 16, e.value % 16 * 16 + f.value / 4, f.value % 4 * 64 + g.value])
  }

  function Decode(s: string): Option<seq<Byte>> {
    if s == "" then Some([])
    else if |s| < 4 then None
    else if |s| == 4 && s[3] == PAD then
      if s[2] == PAD then DecodeOne(SextetOf(s[0]), SextetOf(s[1]))
      else DecodeTwo(SextetOf(s[0]), SextetOf(s[1]), SextetOf(s[2]))
    else
      match (DecodeThree(SextetOf(s[0]), SextetOf(s[1]), SextetOf(s[2]), SextetOf(s[3])), Decode(s[4..]))
      case (Some(first), Some(rest)) => Some(first + rest)
      case _ => None
  }

  /** Four symbols for every three bytes begun. */
  lemma {:induction false} EncodedLength(bytes: seq<Byte>)
    ensures |Encode(bytes)| == 4 * ((|bytes| + 2) / 3)
  {
    hide EncodeOne, EncodeTwo, EncodeThree;
    if |bytes| > 2 {
      EncodedLength(bytes[3..]);
      OneThirdMore(|bytes| - 3);
    }
  }

  lemma OneThirdMore(n: nat)
    ensures (n + 3 + 2) / 3 == (n + 2) / 3 + 1
  {
  }

  lemma {:induction false} DecodeEncode(bytes: seq<Byte>)
    ensures Decode(Encode(bytes)) == Some(bytes)
  {
    hide Symbol, SextetOf, DecodeOne, DecodeTwo, DecodeThree;
    var s := Encode(bytes);
    if |bytes| > 2 {
      DecodeEncode(bytes[3..]);
      assert s[4..] == Encode(bytes[3..]) && s[..4] == EncodeThree(bytes[0], bytes[1], bytes[2]);
      DecodeEncodeThree(bytes[0], bytes[1], bytes[2]);
      assert bytes == [bytes[0], bytes[1], bytes[2]] + bytes[3..];
    } else if |bytes| == 2 {
      assert bytes == [bytes[0], bytes[1]];
      DecodeEncodeTwo(bytes[0], bytes[1]);
    } else if |bytes| == 1 {
      assert bytes == [bytes[0]];
      DecodeEncodeOne(bytes[0]);
    }
  }

  lemma Digits4(q: nat, r: nat)
    requires r < 4
    ensures (q * 4 + r) / 4 == q && (q * 4 + r) % 4 == r
  {
  }

  lemma Digits16(q: nat, r: nat)
    requires r < 16
    ensures (q * 16 + r) / 16 == q && (q * 16 + r) % 16 == r
  {
  }

  lemma Digits64(q: nat, r: nat)
    requires r < 64
    ensures (q * 64 + r) / 64 == q && (q * 64 + r) % 64 == r
  {
  }

  lemma DecodeEncodeThree(a: Byte, b: Byte, c: Byte)
    ensures var s := EncodeThree(a, b, c);
      DecodeThree(SextetOf(s[0]), SextetOf(s[1]), SextetOf(s[2]), SextetOf(s[3])) == Some([a, b, c])
  {
    hide Symbol, SextetOf;
    Digits16(a % 4, b / 16);
    Digits4(b % 16, c / 64);
  }

  lemma DecodeEncodeTwo(a: Byte, b: Byte)
    ensures var s := EncodeTwo(a, b);
      DecodeTwo(SextetOf(s[0]), SextetOf(s[1]), SextetOf(s[2])) == Some([a, b])
  {
    hide Symbol, SextetOf;
    Digits16(a % 4, b / 16);
    Digits4(b % 16, 0);
  }

  lemma DecodeEncodeOne(a: Byte)
    ensures var s := EncodeOne(a); DecodeOne(SextetOf(s[0]), SextetOf(s[1])) == Some([a])
  {
    hide Symbol, SextetOf;
    Digits16(a % 4, 0);
  }

  lemma EncodeDecodeThree(d: Sextet, e: Sextet, f: Sextet, g: Sextet)
    ensures var bytes := DecodeThree(Some(d), Some(e), Some(f), Some(g)).value;
      EncodeThree(bytes[0], bytes[1], bytes[2]) == [Symbol(d), Symbol(e), Symbol(f), Symbol(g)]
  {
    hide Symbol, SextetOf;
    Digits4(d, e / 16);
    Digits16(e % 16, f / 4);
    Digits64(f % 4, g);
  }

  lemma EncodeDecodeTwo(d: Sextet, e: Sextet, f: Sextet)
    requires f % 4 == 0
    ensures var bytes := DecodeTwo(Some(d), Some(e), Some(f)).value;
      EncodeTwo(bytes[0], bytes[1]) == [Symbol(d), Symbol(e), Symbol(f), PAD]
  {
    hide Symbol, SextetOf;
    Digits4(d, e / 16);
    Digits16(e % 16, f / 4);
  }

  lemma EncodeDecodeOne(d: Sextet, e: Sextet)
    requires e % 16 == 0
    ensures var bytes := DecodeOne(Some(d), Some(e)).value; EncodeOne(bytes[0]) == [Symbol(d), Symbol(e), PAD, PAD]
  {
    hide Symbol, SextetOf;
    Digits4(d, e / 16);
  }

  /** Only canonical text decodes: encoding what was decoded gives the text back. */
  lemma {:induction false} EncodeDecode(s: string)
    requires Decode(s).Some?
    ensures Encode(Decode(s).value) == s
  {
    hide Symbol, SextetOf, EncodeOne, EncodeTwo, EncodeThree;
    if s == "" {
    } else if |s| == 4 && s[3] == PAD {
      SymbolOfSextet(s[0]);
      SymbolOfSextet(s[1]);
      if s[2] == PAD {
        EncodeDecodeOne(SextetOf(s[0]).value, SextetOf(s[1]).value);
      } else {
        SymbolOfSextet(s[2]);
        EncodeDecodeTwo(SextetOf(s[0]).value, SextetOf(s[1]).value, SextetOf(s[2]).value);
      }
    } else {
      EncodeDecode(s[4..]);
      FirstGroup(s);
    }
  }

  lemma FirstGroup(s: string)
    requires |s| >= 4 && Decode(s[4..]).Some? && Encode(Decode(s[4..]).value) == s[4..]
    requires DecodeThree(SextetOf(s[0]), SextetOf(s[1]), SextetOf(s[2]), SextetOf(s[3])).Some?
    ensures var first := DecodeThree(SextetOf(s[0]), SextetOf(s[1]), SextetOf(s[2]), SextetOf(s[3])).value;
      Encode(first + Decode(s[4..]).value) == s
  {
    hide Symbol, SextetOf, EncodeThree, Decode;
    var first := DecodeThree(SextetOf(s[0]), SextetOf(s[1]), SextetOf(s[2]), SextetOf(s[3])).value;
    var rest := Decode(s[4..]).value;
    SymbolOfSextet(s[0]);
    SymbolOfSextet(s[1]);
    SymbolOfSextet(s[2]);
    SymbolOfSextet(s[3]);
    EncodeDecodeThree(SextetOf(s[0]).value, SextetOf(s[1]).value, SextetOf(s[2]).value, SextetOf(s[3]).value);
    assert (first + rest)[3..] == rest;
    assert s == [s[0], s[1], s[2], s[3]] + s[4..];
  }

  /** Three bytes, twenty-four bits, are written as four groups of six bits, the first ones first. */
  lemma GroupsOfSix(a: Byte, b: Byte, c: Byte, d: Sextet, e: Sextet, f: Sextet, g: Sextet)
    requires (a * 256 + b) * 256 + c == ((d * 64 + e) * 64 + f) * 64 + g
    ensures EncodeThree(a, b, c) == [Symbol(d), Symbol(e), Symbol(f), Symbol(g)]
    ensures c == 0 ==> EncodeTwo(a, b) == [Symbol(d), Symbol(e), Symbol(f), '=']
    ensures b == 0 && c == 0 ==> EncodeOne(a) == [Symbol(d), Symbol(e), '=', '=']
  {
    hide Symbol;
    SixBits(a, b, c, d, e, f, g);
  }

  lemma SixBits(a: Byte, b: Byte, c: Byte, d: Sextet, e: Sextet, f: Sextet, g: Sextet)
    requires (a * 256 + b) * 256 + c == ((d * 64 + e) * 64 + f) * 64 + g
    ensures d == a / 4 && e == a % 4 * 16 + b / 16 && f == b % 16 * 4 + c / 64 && g == c % 64
  {
  }

  /** Longer inputs are written three bytes at a time, and one or two left over with their padding. */
  lemma ThreeAtATime(a: Byte, b: Byte, c: Byte, rest: seq<Byte>)
    ensures Encode([a, b, c] + rest) == EncodeThree(a, b, c) + Encode(rest)
    ensures Encode([]) == "" && Encode([a]) == EncodeOne(a) && Encode([a, b]) == EncodeTwo(a, b)
  {
    assert ([a, b, c] + rest)[3..] == rest;
  }
}
