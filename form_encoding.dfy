/** `URLEncoder.encode(s, "UTF-8")`, by its documented contract: the string is
    converted to UTF-8 and each byte is then written as itself if it is one of
    `a-z A-Z 0-9 . - * _`, as `+` if it is a space, and as `%XX` (two upper-case
    hexadecimal digits) otherwise. This is the `application/x-www-form-urlencoded`
    scheme of section 17.13.4.1 of HTML 4.01. */
module FormEncoding {
  import opened CodeUnits

  datatype Option<T> = None | Some(value: T)

  // ---------------------------------------------------------------------------
  // UTF-16 to UTF-8

  predicate IsHighSurrogate(c: int) { 0xD800 <= c <= 0xDBFF }
  predicate IsLowSurrogate(c: int) { 0xDC00 <= c <= 0xDFFF }

  /** The UTF-8 bytes of a Java string (RFC 3629). A high surrogate followed by a low
      surrogate is one supplementary code point; a surrogate without its partner cannot
      be encoded and becomes the replacement byte '?', as the JDK's UTF-8 encoder
      writes it. */
  function Utf8(s: seq<CodeUnit>): (b: seq<Byte>)
    ensures |s| <= |b| <= 3 * |s|
    ensures AllAscii(s) ==> b == s
    decreases |s|
  {
    if s == [] then []
    else if s[0] <= 0x7F then
      assert AllAscii(s) ==> AllAscii(s[1..]) && s == [s[0]] + s[1..];
      [s[0]] + Utf8(s[1..])
    else if s[0] <= 0x7FF then [0xC0 + s[0] / 0x40, 0x80 + s[0] % 0x40] + Utf8(s[1..])
    else if IsHighSurrogate(s[0]) && |s| >= 2 && IsLowSurrogate(s[1]) then
      var cp := 0x10000 + (s[0] as int - 0xD800) * 0x400 + (s[1] as int - 0xDC00);
      [0xF0 + cp / 0x40000, 0x80 + cp / 0x1000 % 0x40, 0x80 + cp / 0x40 % 0x40, 0x80 + cp % 0x40]
        + Utf8(s[2..])
    else if IsHighSurrogate(s[0]) || IsLowSurrogate(s[0]) then [QUESTION] + Utf8(s[1..])
    else [0xE0 + s[0] / 0x1000, 0x80 + s[0] / 0x40 % 0x40, 0x80 + s[0] % 0x40] + Utf8(s[1..])
  }

  /** ASCII code units are their own UTF-8 bytes, whatever follows them. */
  lemma {:induction false} Utf8AsciiPrefix(a: seq<CodeUnit>, t: seq<CodeUnit>)
    requires AllAscii(a)
    ensures Utf8(a + t) == a + Utf8(t)
  {
    if a == [] {
      assert a + t == t;
    } else {
      assert a[0] <= 0x7F;
      assert (a + t)[1..] == a[1..] + t;
      Utf8AsciiPrefix(a[1..], t);
      assert [a[0]] + (a[1..] + Utf8(t)) == a + Utf8(t);
    }
  }

  // ---------------------------------------------------------------------------
  // Bytes to form-encoded text

  /** The bytes written as themselves: `a-z A-Z 0-9 . - * _`. */
  predicate IsUnreserved(b: int) {
    0x61 <= b <= 0x7A || 0x41 <= b <= 0x5A || 0x30 <= b <= 0x39
    || b == 0x2E || b == 0x2D || b == 0x2A || b == 0x5F
  }

  /** The form encoding of one byte: an unreserved byte stands for itself, a space is
      written '+', and any other byte is '%' followed by its value in two upper-case
      hexadecimal digits. */
  function EncodeByte(b: Byte): (r: seq<CodeUnit>)
    ensures AllAscii(r)
    ensures IsUnreserved(b) ==> r == [b]
    ensures b == SPACE ==> r == [PLUS]
    ensures !IsUnreserved(b) && b != SPACE ==>
              |r| == 3 && r[0] == PERCENT
              && (0x30 <= r[1] <= 0x39 || 0x41 <= r[1] <= 0x46)
              && (0x30 <= r[2] <= 0x39 || 0x41 <= r[2] <= 0x46)
              && 16 * HexValue(r[1]) + HexValue(r[2]) == b
  {
    if IsUnreserved(b) then [b]
    else if b == SPACE then [PLUS]
    else [PERCENT, HexDigit(b / 16), HexDigit(b % 16)]
  }

  /** The form encoding of a byte sequence: each byte encoded in turn. */
  function FormEncode(bs: seq<Byte>): (r: seq<CodeUnit>)
    ensures AllAscii(r)
    ensures |bs| <= |r| <= 3 * |bs|
    decreases |bs|
  {
    if bs == [] then [] else EncodeByte(bs[0]) + FormEncode(bs[1..])
  }

  // ---------------------------------------------------------------------------
  // Form-encoded text back to bytes: the inverse the encoding is checked against

  function Prepend(b: Byte, r: Option<seq<Byte>>): Option<seq<Byte>> {
    if r.Some? then Some([b] + r.value) else None
  }

  /** The bytes a form-encoded ASCII text stands for: `%XX` is the byte with that
      hexadecimal value, `+` is a space, any other ASCII code unit is itself. A `%`
      without two hexadecimal digits after it, or a code unit above 0x7F, is malformed. */
  function Decode(t: seq<CodeUnit>): Option<seq<Byte>>
    decreases |t|
  {
    if t == [] then Some([])
    else if t[0] == PERCENT then
      if |t| >= 3 && IsHexDigit(t[1]) && IsHexDigit(t[2]) then
        Prepend(16 * HexValue(t[1]) + HexValue(t[2]), Decode(t[3..]))
      else None
    else if t[0] == PLUS then Prepend(SPACE, Decode(t[1..]))
    else if t[0] <= 0x7F then Prepend(t[0], Decode(t[1..]))
    else None
  }

  /** Decoding reads back exactly the byte that was encoded, whatever follows it. */
  lemma DecodeEncodeByte(b: Byte, t: seq<CodeUnit>)
    ensures Decode(EncodeByte(b) + t) == Prepend(b, Decode(t))
  {
    var e := EncodeByte(b);
    assert (e + t)[0] == e[0];
    if |e| == 3 {
      assert (e + t)[1] == HexDigit(b / 16) && (e + t)[2] == HexDigit(b % 16);
      assert (e + t)[3..] == t;
    } else {
      assert (e + t)[1..] == t;
    }
  }

  /** Distinct bytes have distinct encodings. */
  lemma EncodeByteInjective(b: Byte, d: Byte)
    ensures EncodeByte(b) == EncodeByte(d) ==> b == d
  {
    DecodeEncodeByte(b, []);
    DecodeEncodeByte(d, []);
    assert EncodeByte(b) + [] == EncodeByte(b) && EncodeByte(d) + [] == EncodeByte(d);
  }

  /** Form encoding loses nothing: decoding gives back the bytes. */
  lemma {:induction false} DecodeFormEncode(bs: seq<Byte>)
    ensures Decode(FormEncode(bs)) == Some(bs)
  {
    if bs != [] {
      DecodeFormEncode(bs[1..]);
      DecodeEncodeByte(bs[0], FormEncode(bs[1..]));
      assert [bs[0]] + bs[1..] == bs;
    }
  }
}
