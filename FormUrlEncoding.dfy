/** `URLEncoder.encode(s, "UTF-8")`: the `application/x-www-form-urlencoded`
    encoding of HTML 4.01 section 17.13.4.1. The text is turned into its UTF-8
    bytes; the bytes of `a`-`z`, `A`-`Z`, `0`-`9`, `.`, `-`, `*` and `_` stay as
    they are, the space byte becomes `+`, and every other byte becomes `%XY`
    with two upper-case hexadecimal digits.

    The encoding is proved injective by giving its inverse: a UTF-8 decoder
    and a decoder of the form encoding that accepts exactly the strings the
    encoder produces. */
module FormUrlEncoding {
  import opened Wrappers

  type Byte = b: int | 0 <= b < 0x100

  /** The code points a Dafny `char` (and a well-formed Java string) holds. */
  predicate IsScalarValue(cp: int) {
    0 <= cp < 0xD800 || 0xE000 <= cp < 0x11_0000
  }

  predicate IsContinuation(b: Byte) {
    0x80 <= b < 0xC0
  }

  // ---------------------------------------------------------------------------
  // UTF-8

  /** The UTF-8 bytes of one code point. */
  function Utf8Char(c: char): (bs: seq<Byte>)
    ensures 1 <= |bs| <= 4
    ensures |bs| == 1 <==> c as int < 0x80
    ensures |bs| == 1 ==> bs[0] == c as int
    ensures forall k :: 0 <= k < |bs| && |bs| > 1 ==> bs[k] >= 0x80
  {
    var cp := c as int;
    if cp < 0x80 then
      [cp]
    else if cp < 0x800 then
      [0xC0 + cp / 0x40, 0x80 + cp % 0x40]
    else if cp < 0x1_0000 then
      [0xE0 + cp / 0x1000, 0x80 + cp / 0x40 % 0x40, 0x80 + cp % 0x40]
    else
      [0xF0 + cp / 0x4_0000, 0x80 + cp / 0x1000 % 0x40, 0x80 + cp / 0x40 % 0x40, 0x80 + cp % 0x40]
  }

  /** The UTF-8 bytes of a string, code point by code point. */
  function Utf8(s: string): seq<Byte>
  {
    if s == [] then [] else Utf8Char(s[0]) + Utf8(s[1..])
  }

  /** The code point that a one- to four-byte UTF-8 sequence spells. */
  function Utf8Value(bs: seq<Byte>): int
    requires 1 <= |bs| <= 4
  {
    var b: seq<int> := bs;
    match |b|
    case 1 => b[0]
    case 2 => (b[0] - 0xC0) * 0x40 + (b[1] - 0x80)
    case 3 => (b[0] - 0xE0) * 0x1000 + (b[1] - 0x80) * 0x40 + (b[2] - 0x80)
    case 4 =>
      (b[0] - 0xF0) * 0x4_0000 + (b[1] - 0x80) * 0x1000 + (b[2] - 0x80) * 0x40 + (b[3] - 0x80)
  }

  /** Length of the UTF-8 sequence announced by a lead byte; 0 for a byte that
      cannot start one. */
  function Utf8Length(b: Byte): nat {
    if b < 0x80 then 1
    else if 0xC2 <= b < 0xE0 then 2
    else if 0xE0 <= b < 0xF0 then 3
    else if 0xF0 <= b < 0xF5 then 4
    else 0
  }

  /** UTF-8 decoding; `None` for bytes that are not well-formed UTF-8: a
      byte that cannot lead a sequence, a truncated sequence, or a sequence
      that is not the shortest encoding of a code point (an overlong form, a
      surrogate, a value beyond U+10FFFF). */
  function Utf8Decode(bs: seq<Byte>): Option<string>
    decreases |bs|
  {
    if bs == [] then Some([])
    else
      var n := Utf8Length(bs[0]);
      if n == 0 || |bs| < n then None
      else
        var cp := Utf8Value(bs[..n]);
        if !IsScalarValue(cp) || Utf8Char(cp as char) != bs[..n] then None
        else match Utf8Decode(bs[n..])
          case None => None
          case Some(rest) => Some([cp as char] + rest)
  }

  lemma Utf8CharValue(c: char)
    ensures Utf8Value(Utf8Char(c)) == c as int
    ensures Utf8Length(Utf8Char(c)[0]) == |Utf8Char(c)|
  {
    var cp := c as int;
    if 0x800 <= cp {
      Base64Digits(cp);
    }
  }

  /** A code point written in base 64: the lowest three digits and the rest. */
  lemma Base64Digits(cp: int)
    requires 0 <= cp
    ensures cp / 0x1000 % 0x40 * 0x1000 + cp / 0x40 % 0x40 * 0x40 + cp % 0x40 == cp % 0x4_0000
    ensures cp / 0x4_0000 * 0x4_0000 + cp % 0x4_0000 == cp
    ensures cp / 0x1000 * 0x1000 + cp / 0x40 % 0x40 * 0x40 + cp % 0x40 == cp
  {
    var q1, q2, q3 := cp / 0x40, cp / 0x1000, cp / 0x4_0000;
    assert cp == q1 * 0x40 + cp % 0x40;
    assert q1 == q2 * 0x40 + q1 % 0x40;
    assert q2 == q3 * 0x40 + q2 % 0x40;
  }

  lemma Utf8Cons(c: char, s: string)
    ensures Utf8([c] + s) == Utf8Char(c) + Utf8(s)
  {
    assert ([c] + s)[1..] == s;
  }

  /** Decoding the UTF-8 bytes of a string gives the string back. */
  lemma {:induction false} Utf8RoundTrip(s: string)
    ensures Utf8Decode(Utf8(s)) == Some(s)
  {
    if s != [] {
      var c := s[0];
      var head := Utf8Char(c);
      var bs := Utf8(s);
      assert bs == head + Utf8(s[1..]);
      Utf8CharValue(c);
      assert bs[..|head|] == head;
      assert bs[|head|..] == Utf8(s[1..]);
      Utf8RoundTrip(s[1..]);
      assert s == [c] + s[1..];
    }
  }

  /** One step of an accepted UTF-8 decoding: the encoding of one code
      point, then an accepted rest. */
  lemma Utf8DecodeSplit(bs: seq<Byte>, s: string)
    requires bs != [] && Utf8Decode(bs) == Some(s)
    ensures exists n: nat, c: char, rest: string ::
      && 1 <= n <= |bs| && s == [c] + rest && Utf8Char(c) == bs[..n]
      && Utf8Decode(bs[n..]) == Some(rest)
  {
    var n := Utf8Length(bs[0]);
    var cp := Utf8Value(bs[..n]);
    var rest := Utf8Decode(bs[n..]).value;
    assert s == [cp as char] + rest;
  }

  /** The decoder accepts only well-formed UTF-8: whatever it decodes
      re-encodes to the very bytes it was given. */
  lemma {:induction false} Utf8DecodeCanonical(bs: seq<Byte>, s: string)
    requires Utf8Decode(bs) == Some(s)
    ensures Utf8(s) == bs
    decreases |bs|
  {
    if bs != [] {
      Utf8DecodeSplit(bs, s);
      var n: nat, c: char, rest: string :|
        && 1 <= n <= |bs| && s == [c] + rest && Utf8Char(c) == bs[..n]
        && Utf8Decode(bs[n..]) == Some(rest);
      Utf8DecodeCanonical(bs[n..], rest);
      Utf8Cons(c, rest);
      assert bs == bs[..n] + bs[n..];
    }
  }

  lemma Utf8Injective(s: string, t: string)
    requires Utf8(s) == Utf8(t)
    ensures s == t
  {
    Utf8RoundTrip(s);
    Utf8RoundTrip(t);
  }

  // ---------------------------------------------------------------------------
  // The form encoding of bytes

  /** The bytes that pass through unchanged: ASCII letters, digits and
      `.`, `-`, `*`, `_`. */
  predicate IsUnreserved(b: int) {
    || 'a' as int <= b <= 'z' as int
    || 'A' as int <= b <= 'Z' as int
    || '0' as int <= b <= '9' as int
    || b == '.' as int || b == '-' as int || b == '*' as int || b == '_' as int
  }

  const Space: Byte := 0x20

  /** Upper-case hexadecimal digit. */
  function HexDigit(n: int): (c: char)
    requires 0 <= n < 16
    ensures '0' <= c <= '9' || 'A' <= c <= 'F'
  {
    if n < 10 then ('0' as int + n) as char else ('A' as int + n - 10) as char
  }

  /** Value of an upper-case hexadecimal digit, `None` for any other char. */
  function HexValue(c: char): (r: Option<int>)
    ensures r.Some? ==> 0 <= r.value < 16 && HexDigit(r.value) == c
  {
    if '0' <= c <= '9' then Some(c as int - '0' as int)
    else if 'A' <= c <= 'F' then Some(c as int - 'A' as int + 10)
    else None
  }

  lemma HexRoundTrip(n: int)
    requires 0 <= n < 16
    ensures HexValue(HexDigit(n)) == Some(n)
  {
  }

  function EncodeByte(b: Byte): string
  {
    if IsUnreserved(b) then [b as char]
    else if b == Space then "+"
    else ['%', HexDigit(b / 16), HexDigit(b % 16)]
  }

  function EncodeBytes(bs: seq<Byte>): string
  {
    if bs == [] then [] else EncodeByte(bs[0]) + EncodeBytes(bs[1..])
  }

  /** `URLEncoder.encode(s, "UTF-8")`. */
  function Encode(s: string): string
  {
    EncodeBytes(Utf8(s))
  }

  /** The byte that the start of `t` stands for, and how many characters
      stand for it: an unreserved character stands for itself, `+` for the
      space byte, and `%XY` (upper-case digits) for a byte that is neither. */
  function DecodeStep(t: string): (r: Option<(Byte, nat)>)
    ensures r.Some? ==> 1 <= r.value.1 <= |t|
  {
    if t == [] then None
    else if t[0] == '+' then Some((Space, 1))
    else if t[0] as int < 0x80 && IsUnreserved(t[0] as int) then Some((t[0] as int, 1))
    else if t[0] == '%' && |t| >= 3 && HexValue(t[1]).Some? && HexValue(t[2]).Some? then
      var b := HexValue(t[1]).value * 16 + HexValue(t[2]).value;
      if IsUnreserved(b) || b == Space then None else Some((b, 3))
    else None
  }

  /** Decoder of the form encoding that accepts exactly what `EncodeBytes`
      produces. */
  function DecodeBytes(t: string): Option<seq<Byte>>
    decreases |t|
  {
    if t == [] then Some([])
    else
      var step := DecodeStep(t);
      if step.None? then None
      else
        var rest := DecodeBytes(t[step.value.1..]);
        if rest.None? then None else Some([step.value.0] + rest.value)
  }

  lemma EncodeByteStep(b: Byte, t: string)
    ensures DecodeStep(EncodeByte(b) + t) == Some((b, |EncodeByte(b)|))
  {
    if !IsUnreserved(b) && b != Space {
      assert b == b / 16 * 16 + b % 16;
      HexRoundTrip(b / 16);
      HexRoundTrip(b % 16);
    }
  }

  lemma DecodeStepCanonical(t: string)
    requires DecodeStep(t).Some?
    ensures EncodeByte(DecodeStep(t).value.0) == t[..DecodeStep(t).value.1]
  {
    var (b, n) := DecodeStep(t).value;
    if n == 3 {
      assert b == HexValue(t[1]).value * 16 + HexValue(t[2]).value;
      assert b / 16 == HexValue(t[1]).value && b % 16 == HexValue(t[2]).value;
    }
  }

  lemma EncodeBytesCons(b: Byte, bs: seq<Byte>)
    ensures EncodeBytes([b] + bs) == EncodeByte(b) + EncodeBytes(bs)
  {
    assert ([b] + bs)[1..] == bs;
  }

  /** Decoding the encoding of a byte string gives the bytes back. */
  lemma {:induction false} DecodeEncodeBytes(bs: seq<Byte>)
    ensures DecodeBytes(EncodeBytes(bs)) == Some(bs)
  {
    if bs != [] {
      var b := bs[0];
      var t := EncodeBytes(bs);
      var head := EncodeByte(b);
      assert t == head + EncodeBytes(bs[1..]);
      EncodeByteStep(b, EncodeBytes(bs[1..]));
      assert t[|head|..] == EncodeBytes(bs[1..]);
      DecodeEncodeBytes(bs[1..]);
      assert bs == [b] + bs[1..];
    }
  }

  /** One step of an accepted decoding: a canonical encoding of one byte,
      then an accepted rest. */
  lemma DecodeBytesSplit(t: string, bs: seq<Byte>)
    requires t != [] && DecodeBytes(t) == Some(bs)
    ensures exists n: nat, b: Byte, rest: seq<Byte> ::
      && 1 <= n <= |t| && bs == [b] + rest && EncodeByte(b) == t[..n]
      && DecodeBytes(t[n..]) == Some(rest)
  {
    var step := DecodeStep(t);
    DecodeStepCanonical(t);
    var rest := DecodeBytes(t[step.value.1..]).value;
    assert bs == [step.value.0] + rest;
  }

  /** Whatever the decoder accepts is the encoding of the bytes it yields. */
  lemma {:induction false} DecodeBytesCanonical(t: string, bs: seq<Byte>)
    requires DecodeBytes(t) == Some(bs)
    ensures EncodeBytes(bs) == t
    decreases |t|
  {
    if t != [] {
      DecodeBytesSplit(t, bs);
      var n: nat, b: Byte, rest: seq<Byte> :|
        && 1 <= n <= |t| && bs == [b] + rest && EncodeByte(b) == t[..n]
        && DecodeBytes(t[n..]) == Some(rest);
      DecodeBytesCanonical(t[n..], rest);
      EncodeBytesCons(b, rest);
      assert t == t[..n] + t[n..];
    }
  }

  /** The inverse of `Encode`. */
  function Decode(t: string): Option<string>
  {
    match DecodeBytes(t)
    case None => None
    case Some(bs) => Utf8Decode(bs)
  }

  /** `Decode` undoes `Encode`, and accepts nothing that `Encode` cannot
      produce. */
  lemma DecodeEncode(s: string, t: string)
    ensures Decode(t) == Some(s) <==> Encode(s) == t
  {
    if Encode(s) == t {
      DecodeEncodeBytes(Utf8(s));
      Utf8RoundTrip(s);
    }
    if Decode(t) == Some(s) {
      var bs := DecodeBytes(t).value;
      DecodeBytesCanonical(t, bs);
      Utf8DecodeCanonical(bs, s);
    }
  }

  /** Different names have different encodings. */
  lemma EncodeInjective(s: string, t: string)
    requires Encode(s) == Encode(t)
    ensures s == t
  {
    DecodeEncode(s, Encode(s));
    DecodeEncode(t, Encode(t));
  }

  /** The alphabet of an encoded string: unreserved characters, `+`, `%` and
      upper-case hexadecimal digits; in particular no space. */
  predicate IsEncodedChar(c: char) {
    (c as int < 0x80 && IsUnreserved(c as int)) || c == '+' || c == '%'
  }

  lemma {:induction false} EncodeBytesAlphabet(bs: seq<Byte>)
    ensures forall k :: 0 <= k < |EncodeBytes(bs)| ==> IsEncodedChar(EncodeBytes(bs)[k])
  {
    if bs != [] {
      EncodeBytesAlphabet(bs[1..]);
      var head := EncodeByte(bs[0]);
      var t := EncodeBytes(bs);
      forall k | 0 <= k < |t| ensures IsEncodedChar(t[k]) {
        if k >= |head| {
          assert t[k] == EncodeBytes(bs[1..])[k - |head|];
        }
      }
    }
  }

  lemma EncodeHasNoSpace(s: string)
    ensures ' ' !in Encode(s)
  {
    EncodeBytesAlphabet(Utf8(s));
  }

  /** `t` is what the encoder makes of `c` when `c` is an unreserved ASCII
      character or a space. */
  predicate PlainEncoding(c: char, t: char) {
    if c == ' ' then t == '+' else c as int < 0x80 && IsUnreserved(c as int) && t == c
  }

  /** A name made only of unreserved ASCII characters and spaces is encoded
      character by character: spaces become `+`, everything else is kept. */
  lemma {:induction false} EncodePlainName(s: string, t: string)
    requires |s| == |t|
    requires forall k :: 0 <= k < |s| ==> PlainEncoding(s[k], t[k])
    ensures Encode(s) == t
  {
    if s != [] {
      EncodePlainName(s[1..], t[1..]);
      assert Utf8(s) == [s[0] as int] + Utf8(s[1..]);
      EncodeBytesCons(s[0] as int, Utf8(s[1..]));
      assert t == [t[0]] + t[1..];
    }
  }
}
