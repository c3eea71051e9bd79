/**
 * The identifier codec: encodeURIComponent and decodeURIComponent of ECMAScript
 * (section 19.2.6 of ECMA-262; the percent-encoding of section 2.1 of RFC 3986).
 *
 * A Dafny `char` is a Unicode scalar value, so a string here is a sequence of code points:
 * encoding writes each reserved code point as the "%XY" escapes of its UTF-8 bytes, and
 * decoding reads such escapes back, failing (URIError in the source) on a malformed escape
 * or on bytes that are not the UTF-8 form of one scalar value.
 */
module UriCodec {
  import opened Wrappers

  /** The characters encodeURIComponent leaves as they are: letters, digits and - _ . ! ~ * ' ( ) */
  predicate IsUnreserved(c: char)
  {
    || ('A' <= c <= 'Z') || ('a' <= c <= 'z') || ('0' <= c <= '9')
    || c == '-' || c == '_' || c == '.' || c == '!' || c == '~' || c == '*'
    || c == '\'' || c == '(' || c == ')'
  }

  /** The upper-case hex digit of a value below 16, as encodeURIComponent writes it. */
  function HexDigit(d: nat): (c: char)
    requires d < 16
    ensures IsUnreserved(c)
  {
    if d < 10 then ('0' as int + d) as char else ('A' as int + d - 10) as char
  }

  /** The value of a hex digit in either case; None for any other character. */
  function HexValue(c: char): (r: Option<nat>)
    ensures r.Some? ==> r.value < 16
  {
    if '0' <= c <= '9' then Some(c as int - '0' as int)
    else if 'A' <= c <= 'F' then Some(c as int - 'A' as int + 10)
    else if 'a' <= c <= 'f' then Some(c as int - 'a' as int + 10)
    else None
  }

  lemma HexValueOfDigit(d: nat)
    requires d < 16
    ensures HexValue(HexDigit(d)) == Some(d)
  {
  }

  /** A byte, kept as a number below 256. */
  type Byte = b: nat | b < 256

  /** The escape "%XY" of one byte. */
  function Escape(b: Byte): (r: string)
    ensures |r| == 3 && r[0] == '%'
  {
    ['%', HexDigit(b / 16), HexDigit(b % 16)]
  }

  /** The escapes of a byte sequence, one after the other. */
  function EscapeAll(bs: seq<Byte>): (r: string)
    ensures |r| == 3 * |bs|
  {
    if bs == [] then "" else Escape(bs[0]) + EscapeAll(bs[1..])
  }

  /** The UTF-8 form of a code point below 0x110000 (section 3.9 of the Unicode standard). */
  function Utf8(cp: nat): (bs: seq<Byte>)
    requires cp < 0x11_0000
    ensures 1 <= |bs| <= 4
  {
    if cp < 0x80 then [cp]
    else if cp < 0x800 then [0xC0 + cp / 64, 0x80 + cp % 64]
    else if cp < 0x1_0000 then [0xE0 + cp / 4096, 0x80 + (cp / 64) % 64, 0x80 + cp % 64]
    else [0xF0 + cp / 262144, 0x80 + (cp / 4096) % 64, 0x80 + (cp / 64) % 64, 0x80 + cp % 64]
  }

  /** encodeURIComponent on one character. */
  function EncodeChar(c: char): (r: string)
    ensures 1 <= |r| <= 12
  {
    if IsUnreserved(c) then [c] else EscapeAll(Utf8(c as int))
  }

  /** encodeURIComponent: every character outside the unreserved set becomes escapes. */
  function Encode(s: string): (r: string)
    ensures |s| <= |r| <= 12 * |s|
  {
    if s == [] then "" else EncodeChar(s[0]) + Encode(s[1..])
  }

  /** Escapes are written with '%' and upper-case hex digits only. */
  lemma {:induction false} EscapeAllAlphabet(bs: seq<Byte>)
    ensures forall i :: 0 <= i < |EscapeAll(bs)| ==> EscapeAll(bs)[i] == '%' || IsUnreserved(EscapeAll(bs)[i])
  {
    if bs != [] {
      EscapeAllAlphabet(bs[1..]);
      var e := Escape(bs[0]);
      var r := EscapeAll(bs);
      assert IsUnreserved(e[1]) && IsUnreserved(e[2]);
      forall i | 0 <= i < |r| ensures r[i] == '%' || IsUnreserved(r[i]) {
        if i >= 3 {
          assert r[i] == EscapeAll(bs[1..])[i - 3];
        } else {
          assert r[i] == e[i];
        }
      }
    }
  }

  /**
   * encodeURIComponent writes only unreserved characters and '%': nothing it produces is
   * mistaken for a separator.
   */
  lemma {:induction false} EncodeAlphabet(s: string)
    ensures forall i :: 0 <= i < |Encode(s)| ==> Encode(s)[i] == '%' || IsUnreserved(Encode(s)[i])
  {
    if s != [] {
      EncodeAlphabet(s[1..]);
      var e := EncodeChar(s[0]);
      if !IsUnreserved(s[0]) {
        EscapeAllAlphabet(Utf8(s[0] as int));
      }
      var r := Encode(s);
      forall i | 0 <= i < |r| ensures r[i] == '%' || IsUnreserved(r[i]) {
        if i >= |e| {
          assert r[i] == Encode(s[1..])[i - |e|];
        } else {
          assert r[i] == e[i];
        }
      }
    }
  }

  /** Reads the escape "%XY" at the start of s. */
  function ReadByte(s: string): (r: Option<Byte>)
    ensures r.Some? ==> |s| >= 3 && s[0] == '%'
  {
    if |s| < 3 || s[0] != '%' then None
    else match (HexValue(s[1]), HexValue(s[2]))
      case (Some(hi), Some(lo)) => Some(hi * 16 + lo)
      case _ => None
  }

  /** Reads `count` escaped continuation bytes (10xxxxxx), shifting six bits of each into acc. */
  function ReadContinuation(s: string, count: nat, acc: nat): (r: Option<nat>)
    ensures r.Some? ==> |s| >= 3 * count
    decreases count
  {
    if count == 0 then Some(acc)
    else match ReadByte(s)
      case None => None
      case Some(b) =>
        if 0x80 <= b < 0xC0 then ReadContinuation(s[3..], count - 1, acc * 64 + (b - 0x80))
        else None
  }

  /**
   * Whether v is a Unicode scalar value whose shortest UTF-8 form has n bytes: an overlong
   * form, a surrogate and a value above 0x10FFFF are not valid UTF-8.
   */
  predicate IsScalarOfLength(v: nat, n: nat)
    requires 2 <= n <= 4
  {
    && (if n == 2 then 0x80 <= v < 0x800 else if n == 3 then 0x800 <= v < 0x1_0000
        else 0x1_0000 <= v < 0x11_0000)
    && !(0xD800 <= v < 0xE000)
  }

  /** The payload bits of an n-byte lead byte: the byte without its length marker. */
  function LeadBits(b: Byte, n: nat): int
  {
    if n == 2 then b - 0xC0 else if n == 3 then b - 0xE0 else b - 0xF0
  }

  /**
   * Decodes the escapes of one character at the start of s: the character and how many
   * characters of s it used, or None where decodeURIComponent throws URIError.
   */
  function DecodeEscape(s: string): (r: Option<(char, nat)>)
    ensures r.Some? ==> 3 <= r.value.1 <= |s|
  {
    match ReadByte(s)
    case None => None
    case Some(b) =>
      if b < 0x80 then Some((b as char, 3))
      else if b < 0xC0 || b >= 0xF8 then None
      else
        var n := if b < 0xE0 then 2 else if b < 0xF0 then 3 else 4;
        match ReadContinuation(s[3..], n - 1, LeadBits(b, n))
        case None => None
        case Some(v) => if IsScalarOfLength(v, n) then Some((v as char, 3 * n)) else None
  }

  /**
   * decodeURIComponent: every escape sequence becomes the character it encodes, every other
   * character is kept; None where the source throws URIError.
   */
  function Decode(s: string): (r: Option<string>)
    ensures r.Some? ==> |r.value| <= |s|
    ensures (forall i :: 0 <= i < |s| ==> s[i] != '%') ==> r == Some(s)
    decreases |s|
  {
    if s == [] then Some("")
    else if s[0] != '%' then
      match Decode(s[1..])
      case None => None
      case Some(t) =>
        assert (forall i :: 0 <= i < |s| ==> s[i] != '%') ==>
          forall i :: 0 <= i < |s[1..]| ==> s[1..][i] != '%';
        assert s == [s[0]] + s[1..];
        Some([s[0]] + t)
    else
      match DecodeEscape(s)
      case None => None
      case Some((c, k)) =>
        match Decode(s[k..])
        case None => None
        case Some(t) => Some([c] + t)
  }

  /** The bits the continuation bytes bs contribute after acc. */
  function Accumulate(acc: nat, bs: seq<Byte>): nat
    requires forall i :: 0 <= i < |bs| ==> 0x80 <= bs[i]
    decreases |bs|
  {
    if bs == [] then acc else Accumulate(acc * 64 + (bs[0] - 0x80), bs[1..])
  }

  lemma ReadByteOfEscape(b: Byte, t: string)
    ensures ReadByte(Escape(b) + t) == Some(b)
  {
    HexValueOfDigit(b / 16);
    HexValueOfDigit(b % 16);
  }

  lemma {:induction false} ReadContinuationOfEscapes(bs: seq<Byte>, t: string, acc: nat)
    requires forall i :: 0 <= i < |bs| ==> 0x80 <= bs[i] < 0xC0
    ensures ReadContinuation(EscapeAll(bs) + t, |bs|, acc) == Some(Accumulate(acc, bs))
    decreases |bs|
  {
    if bs != [] {
      var s := EscapeAll(bs) + t;
      assert s == Escape(bs[0]) + (EscapeAll(bs[1..]) + t);
      ReadByteOfEscape(bs[0], EscapeAll(bs[1..]) + t);
      assert s[3..] == EscapeAll(bs[1..]) + t;
      var acc' := acc * 64 + (bs[0] - 0x80);
      ReadContinuationOfEscapes(bs[1..], t, acc');
      assert ReadContinuation(s, |bs|, acc) == ReadContinuation(s[3..], |bs| - 1, acc');
      assert Accumulate(acc, bs) == Accumulate(acc', bs[1..]);
    }
  }

  /** The two-byte form: lead byte 110xxxxx, then one continuation byte. */
  lemma Utf8Shape2(cp: nat)
    requires 0x80 <= cp < 0x800
    ensures var bs := Utf8(cp);
      && |bs| == 2 && 0xC0 <= bs[0] < 0xE0 && 0x80 <= bs[1] < 0xC0
      && Accumulate(LeadBits(bs[0], 2), bs[1..]) == cp
  {
    var bs := Utf8(cp);
    var q1, r1 := cp / 64, cp % 64;
    assert bs == [0xC0 + q1, 0x80 + r1];
    assert Accumulate(q1, bs[1..]) == Accumulate(q1 * 64 + r1, []);
  }

  /** The three-byte form: lead byte 1110xxxx, then two continuation bytes. */
  lemma Utf8Shape3(cp: nat)
    requires 0x800 <= cp < 0x1_0000
    ensures var bs := Utf8(cp);
      && |bs| == 3 && 0xE0 <= bs[0] < 0xF0 && 0x80 <= bs[1] < 0xC0 && 0x80 <= bs[2] < 0xC0
      && Accumulate(LeadBits(bs[0], 3), bs[1..]) == cp
  {
    var bs := Utf8(cp);
    var q1, r1 := cp / 64, cp % 64;
    var q2, r2 := q1 / 64, q1 % 64;
    assert cp / 4096 == q2;
    assert bs == [0xE0 + q2, 0x80 + r2, 0x80 + r1];
    assert Accumulate(q2, bs[1..]) == Accumulate(q2 * 64 + r2, [bs[2]]);
    assert Accumulate(q2 * 64 + r2, [bs[2]]) == Accumulate(q1 * 64 + r1, []);
  }

  /** The four-byte form: lead byte 11110xxx, then three continuation bytes. */
  lemma Utf8Shape4(cp: nat)
    requires 0x1_0000 <= cp < 0x11_0000
    ensures var bs := Utf8(cp);
      && |bs| == 4 && 0xF0 <= bs[0] < 0xF8
      && 0x80 <= bs[1] < 0xC0 && 0x80 <= bs[2] < 0xC0 && 0x80 <= bs[3] < 0xC0
      && Accumulate(LeadBits(bs[0], 4), bs[1..]) == cp
  {
    var bs := Utf8(cp);
    var q1, r1 := cp / 64, cp % 64;
    var q2, r2 := q1 / 64, q1 % 64;
    var q3, r3 := q2 / 64, q2 % 64;
    assert cp / 4096 == q2;
    assert cp / 262144 == q3;
    assert bs == [0xF0 + q3, 0x80 + r3, 0x80 + r2, 0x80 + r1];
    assert Accumulate(q3, bs[1..]) == Accumulate(q3 * 64 + r3, bs[2..]);
    assert Accumulate(q3 * 64 + r3, bs[2..]) == Accumulate(q2 * 64 + r2, [bs[3]]);
    assert Accumulate(q2 * 64 + r2, [bs[3]]) == Accumulate(q1 * 64 + r1, []);
  }

  /** The UTF-8 form of a scalar value is one ASCII byte, or a lead byte and continuation bytes. */
  lemma {:induction false} Utf8Shape(cp: nat)
    requires cp < 0xD800 || 0xE000 <= cp < 0x11_0000
    ensures var bs := Utf8(cp); var n := |bs|;
      && (n == 1 <==> cp < 0x80)
      && (n == 1 ==> bs[0] == cp)
      && (n == 2 ==> 0xC0 <= bs[0] < 0xE0)
      && (n == 3 ==> 0xE0 <= bs[0] < 0xF0)
      && (n == 4 ==> 0xF0 <= bs[0] < 0xF8)
      && (forall i :: 1 <= i < n ==> 0x80 <= bs[i] < 0xC0)
      && (n >= 2 ==> 0 <= LeadBits(bs[0], n) && IsScalarOfLength(cp, n))
      && (n >= 2 ==> Accumulate(LeadBits(bs[0], n), bs[1..]) == cp)
  {
    if cp < 0x80 {
    } else if cp < 0x800 {
      Utf8Shape2(cp);
    } else if cp < 0x1_0000 {
      Utf8Shape3(cp);
    } else {
      Utf8Shape4(cp);
    }
  }

  /** The escape of a lead byte followed by well-formed continuation escapes decodes to their value. */
  lemma DecodeEscapeOfLead(s: string, b: Byte, n: nat, v: nat)
    requires ReadByte(s) == Some(b) && 0xC0 <= b < 0xF8
    requires n == if b < 0xE0 then 2 else if b < 0xF0 then 3 else 4
    requires ReadContinuation(s[3..], n - 1, LeadBits(b, n)) == Some(v)
    requires IsScalarOfLength(v, n)
    ensures DecodeEscape(s) == Some((v as char, 3 * n))
  {
  }

  /** The escapes of a reserved character decode back to that character. */
  lemma {:induction false} DecodeEscapeOfUtf8(c: char, t: string)
    ensures DecodeEscape(EscapeAll(Utf8(c as int)) + t) == Some((c, 3 * |Utf8(c as int)|))
  {
    var cp := c as int;
    var bs := Utf8(cp);
    var n := |bs|;
    Utf8Shape(cp);
    var s := EscapeAll(bs) + t;
    assert s == Escape(bs[0]) + (EscapeAll(bs[1..]) + t);
    ReadByteOfEscape(bs[0], EscapeAll(bs[1..]) + t);
    assert s[3..] == EscapeAll(bs[1..]) + t;
    assert ReadByte(s) == Some(bs[0]);
    if n >= 2 {
      assert |bs[1..]| == n - 1;
      ReadContinuationOfEscapes(bs[1..], t, LeadBits(bs[0], n));
      DecodeEscapeOfLead(s, bs[0], n, cp);
      assert (cp as char) == c;
    }
  }

  /** Decoding what one character encodes to, followed by anything, yields that character first. */
  lemma DecodeEncodeChar(c: char, t: string)
    ensures Decode(EncodeChar(c) + t) ==
            match Decode(t) case None => None case Some(u) => Some([c] + u)
  {
    var s := EncodeChar(c) + t;
    if IsUnreserved(c) {
      assert s[0] == c && s[1..] == t;
    } else {
      DecodeEscapeOfUtf8(c, t);
      assert s[0] == '%';
      assert s[3 * |Utf8(c as int)|..] == t;
    }
  }

  /** decodeURIComponent inverts encodeURIComponent. */
  lemma {:induction false} DecodeEncode(s: string)
    ensures Decode(Encode(s)) == Some(s)
  {
    if s != [] {
      DecodeEncodeChar(s[0], Encode(s[1..]));
      DecodeEncode(s[1..]);
      assert [s[0]] + s[1..] == s;
    }
  }

  /** No encoded string contains ':', the separator of the stream identifiers. */
  lemma EncodeHasNoColon(s: string)
    ensures forall i :: 0 <= i < |Encode(s)| ==> Encode(s)[i] != ':'
  {
    EncodeAlphabet(s);
  }

  /** Encoding is injective: different payloads never share an identifier. */
  lemma EncodeInjective(s: string, t: string)
    requires Encode(s) == Encode(t)
    ensures s == t
  {
    DecodeEncode(s);
    DecodeEncode(t);
  }
}
