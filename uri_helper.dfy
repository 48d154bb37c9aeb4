/** The class `UriHelper`: `checkForExternal` reports whether a string holds a code
    unit outside 7-bit ASCII, and `encodeUrl` form-encodes such a string and then
    turns the escapes of `:`, `/`, `?`, `=` and `&` back into the characters. */
module UriHelper {
  import opened CodeUnits
  import opened LiteralReplace
  import opened FormEncoding

  /** Some code unit of `s` lies above 0x7F. */
  predicate IsExternal(s: seq<CodeUnit>) {
    exists i | 0 <= i < |s| :: s[i] > 0x7F
  }

  /** `checkForExternal`: scans the code units in order and stops at the first one
      above 0x7F. */
  method CheckForExternal(str: seq<CodeUnit>) returns (external: bool)
    ensures external <==> IsExternal(str)
    ensures !external <==> AllAscii(str)
  {
    var length := |str|;
    for i := 0 to length
      invariant forall j | 0 <= j < i :: str[j] <= 0x7F
    {
      if str[i] > 0x7F {
        return true;
      }
    }
    return false;
  }

  // ---------------------------------------------------------------------------
  // The five literal patterns and their replacements

  const Colon: seq<CodeUnit> := [0x25, 0x33, 0x41]      // "%3A"
  const Slash: seq<CodeUnit> := [0x25, 0x32, 0x46]      // "%2F"
  const QuestMark: seq<CodeUnit> := [0x25, 0x33, 0x46]  // "%3F"
  const Equal: seq<CodeUnit> := [0x25, 0x33, 0x44]      // "%3D"
  const Amp: seq<CodeUnit> := [0x25, 0x32, 0x36]        // "%26"

  /** The bytes of ':', '/', '?', '=' and '&', which the unescape step restores. */
  const Delimiters: set<Byte> := {0x3A, 0x2F, 0x3F, 0x3D, 0x26}

  /** The five replacements of `encodeUrl`, in their fixed order. */
  function Unescape(value: seq<CodeUnit>): (r: seq<CodeUnit>)
    ensures |r| <= |value|
    ensures AllAscii(value) ==> AllAscii(r)
  {
    var v1 := ReplaceAll(value, Colon, 0x3A);
    var v2 := ReplaceAll(v1, Slash, 0x2F);
    var v3 := ReplaceAll(v2, QuestMark, 0x3F);
    var v4 := ReplaceAll(v3, Equal, 0x3D);
    ReplaceAll(v4, Amp, 0x26)
  }

  /** `encodeUrl`: a string without external code units is returned as it is; any
      other is form-encoded in UTF-8 and then unescaped. */
  function EncodeUrl(url: seq<CodeUnit>): (r: seq<CodeUnit>)
    ensures AllAscii(r)
    ensures !IsExternal(url) ==> r == url
  {
    if IsExternal(url) then Unescape(FormEncode(Utf8(url))) else url
  }

  /** A second encoding changes nothing: the result is always pure ASCII, so it takes
      the fast path. */
  lemma EncodeUrlIdempotent(url: seq<CodeUnit>)
    ensures EncodeUrl(EncodeUrl(url)) == EncodeUrl(url)
  {
  }

  // ---------------------------------------------------------------------------
  // No escape of a delimiter survives the unescape step

  /** Each pattern is the form encoding of its delimiter. */
  lemma PatternsAreEscapes()
    ensures Colon == EncodeByte(0x3A) && Slash == EncodeByte(0x2F)
    ensures QuestMark == EncodeByte(0x3F) && Equal == EncodeByte(0x3D)
    ensures Amp == EncodeByte(0x26)
  {
  }

  /** The escape `%XX` of a byte cannot overlap itself, as its digits are not `%`. */
  lemma EscapeNoSelfOverlap(d: Byte)
    requires !IsUnreserved(d) && d != SPACE
    ensures |EncodeByte(d)| == 3 && NoSelfOverlap(EncodeByte(d))
  {
    var e := EncodeByte(d);
    forall k | 0 < k < |e| ensures e[k..] != e[..|e| - k] {
      assert e[k..][0] == e[k] != PERCENT == e[..|e| - k][0];
    }
  }

  /** Each replacement of an escape shortens the text by two code units per occurrence
      of the escape: no occurrence is skipped, since escapes cannot overlap. */
  lemma EscapeReplaceLength(value: seq<CodeUnit>, d: Byte)
    requires !IsUnreserved(d) && d != SPACE
    ensures |ReplaceAll(value, EncodeByte(d), d)| == |value| - 2 * Count(value, EncodeByte(d))
  {
    EscapeNoSelfOverlap(d);
    ReplaceAllLength(value, EncodeByte(d), d);
  }

  /** Whatever the input, none of the five patterns occurs after the unescape step:
      each replacement removes its own pattern, and no later replacement creates an
      earlier one, since none of ':', '/', '?', '=', '&' is part of any pattern. */
  lemma UnescapeLeavesNoPattern(value: seq<CodeUnit>)
    ensures !Occurs(Unescape(value), Colon)
    ensures !Occurs(Unescape(value), Slash)
    ensures !Occurs(Unescape(value), QuestMark)
    ensures !Occurs(Unescape(value), Equal)
    ensures !Occurs(Unescape(value), Amp)
  {
    var v1 := ReplaceAll(value, Colon, 0x3A);
    var v2 := ReplaceAll(v1, Slash, 0x2F);
    var v3 := ReplaceAll(v2, QuestMark, 0x3F);
    var v4 := ReplaceAll(v3, Equal, 0x3D);
    ReplaceAllRemovesAll(value, Colon, 0x3A);
    ReplaceAllRemovesAll(v1, Slash, 0x2F);
    ReplaceAllKeepsAbsent(v1, Slash, 0x2F, Colon);
    ReplaceAllRemovesAll(v2, QuestMark, 0x3F);
    ReplaceAllKeepsAbsent(v2, QuestMark, 0x3F, Colon);
    ReplaceAllKeepsAbsent(v2, QuestMark, 0x3F, Slash);
    ReplaceAllRemovesAll(v3, Equal, 0x3D);
    ReplaceAllKeepsAbsent(v3, Equal, 0x3D, Colon);
    ReplaceAllKeepsAbsent(v3, Equal, 0x3D, Slash);
    ReplaceAllKeepsAbsent(v3, Equal, 0x3D, QuestMark);
    ReplaceAllRemovesAll(v4, Amp, 0x26);
    ReplaceAllKeepsAbsent(v4, Amp, 0x26, Colon);
    ReplaceAllKeepsAbsent(v4, Amp, 0x26, Slash);
    ReplaceAllKeepsAbsent(v4, Amp, 0x26, QuestMark);
    ReplaceAllKeepsAbsent(v4, Amp, 0x26, Equal);
  }

  // ---------------------------------------------------------------------------
  // What the unescape step does to form-encoded text

  /** One byte of the form encoding, except that a byte in `keep` stands for itself. */
  function EncodeByteKeeping(b: Byte, keep: set<Byte>): seq<CodeUnit> {
    if b in keep then [b] else EncodeByte(b)
  }

  /** The form encoding of `bs` in which the bytes in `keep` are left unescaped. */
  function EncodeKeeping(bs: seq<Byte>, keep: set<Byte>): seq<CodeUnit>
    decreases |bs|
  {
    if bs == [] then [] else EncodeByteKeeping(bs[0], keep) + EncodeKeeping(bs[1..], keep)
  }

  lemma {:induction false} FormEncodeKeepsNothing(bs: seq<Byte>)
    ensures FormEncode(bs) == EncodeKeeping(bs, {})
  {
    if bs != [] {
      FormEncodeKeepsNothing(bs[1..]);
    }
  }

  /** The replacement of the escape of `d` by `d`, on the encoding of one byte `b`
      followed by any text: `b`'s own encoding is found as the pattern exactly when
      `b` is `d`, and never overlaps the text after it. */
  lemma ReplaceEscapeByte(b: Byte, keep: set<Byte>, d: Byte, t: seq<CodeUnit>)
    requires PERCENT !in keep && !IsUnreserved(d) && d != SPACE && d != PERCENT
    ensures ReplaceAll(EncodeByteKeeping(b, keep) + t, EncodeByte(d), d)
         == EncodeByteKeeping(b, keep + {d}) + ReplaceAll(t, EncodeByte(d), d)
  {
    var p := EncodeByte(d);
    EscapeShape(d);
    var tok := EncodeByteKeeping(b, keep);
    if b in keep {
      assert tok == [b] && EncodeByteKeeping(b, keep + {d}) == tok;
      ReplaceAllPrefix(tok, t, p, d);
    } else if b == d {
      assert tok == p && EncodeByteKeeping(b, keep + {d}) == [d];
      ReplaceAllMatch(p, t, d);
    } else if IsUnreserved(b) || b == SPACE {
      assert tok == EncodeByte(b) && EncodeByteKeeping(b, keep + {d}) == tok;
      assert tok == [b] || tok == [PLUS];
      ReplaceAllPrefix(tok, t, p, d);
    } else {
      EscapeShape(b);
      EncodeByteInjective(b, d);
      assert tok == EncodeByte(b) && EncodeByteKeeping(b, keep + {d}) == tok;
      ReplaceEscapeOther(tok, t, p, d);
    }
  }

  /** The escape of a byte is '%' and two digits, none of them '%'. */
  lemma EscapeShape(d: Byte)
    requires !IsUnreserved(d) && d != SPACE
    ensures |EncodeByte(d)| == 3 && EncodeByte(d)[0] == PERCENT
    ensures PERCENT !in EncodeByte(d)[1..]
  {
  }

  /** An escape other than the pattern is passed over whole. */
  lemma ReplaceEscapeOther(tok: seq<CodeUnit>, t: seq<CodeUnit>, p: seq<CodeUnit>, r: CodeUnit)
    requires |tok| == |p| == 3 && tok[0] == p[0] && p[0] !in tok[1..] && tok != p
    ensures ReplaceAll(tok + t, p, r) == tok + ReplaceAll(t, p, r)
  {
    assert (tok + t)[..|p|] == tok;
    ReplaceAllSkip(tok + t, p, r);
    assert (tok + t)[1..] == tok[1..] + t;
    ReplaceAllPrefix(tok[1..], t, p, r);
    assert tok == [tok[0]] + tok[1..];
  }

  /** Replacing the escape of one more byte `d` by `d` itself acts byte by byte: every
      `%` of the text begins the escape of a whole byte, so the pattern is found
      exactly where `d` was encoded and nowhere else. */
  lemma {:induction false} ReplaceEscape(bs: seq<Byte>, keep: set<Byte>, d: Byte)
    requires PERCENT !in keep && !IsUnreserved(d) && d != SPACE && d != PERCENT
    ensures ReplaceAll(EncodeKeeping(bs, keep), EncodeByte(d), d) == EncodeKeeping(bs, keep + {d})
  {
    if bs != [] {
      ReplaceEscape(bs[1..], keep, d);
      ReplaceEscapeByte(bs[0], keep, d, EncodeKeeping(bs[1..], keep));
    }
  }

  /** The unescape step applied to the form encoding of any bytes gives the form
      encoding in which ':', '/', '?', '=' and '&' are left as they are and every other
      byte, '%' included, keeps its usual encoding. */
  lemma UnescapeFormEncode(bs: seq<Byte>)
    ensures Unescape(FormEncode(bs)) == EncodeKeeping(bs, Delimiters)
  {
    PatternsAreEscapes();
    FormEncodeKeepsNothing(bs);
    var k0: set<Byte> := {};
    var k1 := k0 + {0x3A};
    var k2 := k1 + {0x2F};
    var k3 := k2 + {0x3F};
    var k4 := k3 + {0x3D};
    ReplaceEscape(bs, k0, 0x3A);
    ReplaceEscape(bs, k1, 0x2F);
    ReplaceEscape(bs, k2, 0x3F);
    ReplaceEscape(bs, k3, 0x3D);
    ReplaceEscape(bs, k4, 0x26);
    assert k4 + {0x26} == Delimiters;
  }

  /** `encodeUrl` on a string with external code units: its UTF-8 bytes, form-encoded
      with the five delimiters left literal. */
  lemma EncodeUrlKeepsDelimiters(url: seq<CodeUnit>)
    requires IsExternal(url)
    ensures EncodeUrl(url) == EncodeKeeping(Utf8(url), Delimiters)
  {
    UnescapeFormEncode(Utf8(url));
  }

  /** The encoding works byte by byte, so it distributes over concatenation. */
  lemma {:induction false} EncodeKeepingAppend(a: seq<Byte>, b: seq<Byte>, keep: set<Byte>)
    ensures EncodeKeeping(a + b, keep) == EncodeKeeping(a, keep) + EncodeKeeping(b, keep)
  {
    if a == [] {
      assert a + b == b;
    } else {
      assert (a + b)[0] == a[0] && (a + b)[1..] == a[1..] + b;
      EncodeKeepingAppend(a[1..], b, keep);
    }
  }

  /** Text made only of unreserved and kept bytes is its own encoding. */
  lemma {:induction false} EncodeKeepingPlain(a: seq<Byte>, keep: set<Byte>)
    requires forall i | 0 <= i < |a| :: IsUnreserved(a[i]) || a[i] in keep
    ensures EncodeKeeping(a, keep) == a
  {
    if a != [] {
      EncodeKeepingPlain(a[1..], keep);
      assert [a[0]] + a[1..] == a;
    }
  }

  /** Leaving ASCII bytes other than '%' and '+' literal loses nothing: the text still
      decodes to the bytes it came from. */
  lemma {:induction false} DecodeEncodeKeeping(bs: seq<Byte>, keep: set<Byte>)
    requires forall k | k in keep :: k <= 0x7F && k != PERCENT && k != PLUS
    ensures Decode(EncodeKeeping(bs, keep)) == Some(bs)
  {
    if bs != [] {
      var b, t := bs[0], EncodeKeeping(bs[1..], keep);
      DecodeEncodeKeeping(bs[1..], keep);
      if b in keep {
        assert ([b] + t)[1..] == t;
      } else {
        DecodeEncodeByte(b, t);
      }
      assert [b] + bs[1..] == bs;
    }
  }

  lemma DecodeKeepingDelimiters(bs: seq<Byte>)
    ensures Decode(EncodeKeeping(bs, Delimiters)) == Some(bs)
  {
    assert forall k | k in Delimiters :: k <= 0x7F && k != PERCENT && k != PLUS;
    DecodeEncodeKeeping(bs, Delimiters);
  }

  /** Nothing of the input is lost: the result of `encodeUrl` on a string with
      external code units decodes to that string's UTF-8 bytes. */
  lemma DecodeEncodeUrl(url: seq<CodeUnit>)
    requires IsExternal(url)
    ensures Decode(EncodeUrl(url)) == Some(Utf8(url))
  {
    EncodeUrlKeepsDelimiters(url);
    DecodeKeepingDelimiters(Utf8(url));
  }

  // ---------------------------------------------------------------------------
  // Examples

  /** "café" becomes "caf%C3%A9". */
  lemma ExampleCafe(url: seq<CodeUnit>)
    requires url == [0x63, 0x61, 0x66, 0xE9]
    ensures EncodeUrl(url) == [0x63, 0x61, 0x66, 0x25, 0x43, 0x33, 0x25, 0x41, 0x39]
  {
    assert url[3] > 0x7F;
    EncodeUrlKeepsDelimiters(url);
    Utf8Cafe(url);
    EncodeCafe(Utf8(url));
  }

  lemma Utf8Cafe(url: seq<CodeUnit>)
    requires url == [0x63, 0x61, 0x66, 0xE9]
    ensures Utf8(url) == [0x63, 0x61, 0x66, 0xC3, 0xA9]
  {
    assert url[3..][1..] == [];
    assert Utf8(url[3..]) == [0xC3, 0xA9];
    assert url[2..][1..] == url[3..];
    assert Utf8(url[2..]) == [0x66, 0xC3, 0xA9];
    assert url[1..][1..] == url[2..];
    assert Utf8(url[1..]) == [0x61, 0x66, 0xC3, 0xA9];
  }

  lemma EncodeCafe(bytes: seq<Byte>)
    requires bytes == [0x63, 0x61, 0x66, 0xC3, 0xA9]
    ensures EncodeKeeping(bytes, Delimiters) == [0x63, 0x61, 0x66, 0x25, 0x43, 0x33, 0x25, 0x41, 0x39]
  {
    assert bytes[4..][1..] == [];
    assert EncodeKeeping(bytes[4..], Delimiters) == [0x25, 0x41, 0x39];
    assert bytes[3..][1..] == bytes[4..];
    assert EncodeKeeping(bytes[3..], Delimiters) == [0x25, 0x43, 0x33, 0x25, 0x41, 0x39];
    assert bytes[2..][1..] == bytes[3..];
    assert EncodeKeeping(bytes[2..], Delimiters) == [0x66, 0x25, 0x43, 0x33, 0x25, 0x41, 0x39];
    assert bytes[1..][1..] == bytes[2..];
    assert EncodeKeeping(bytes[1..], Delimiters) == [0x61, 0x66, 0x25, 0x43, 0x33, 0x25, 0x41, 0x39];
  }

  /** "http://example.com/q?a=1&b=2 €" becomes "http://example.com/q?a=1&b=2+%E2%82%AC":
      the delimiters stay, the space becomes '+' and the euro sign its three escapes. */
  lemma ExampleQuery(url: seq<CodeUnit>, query: seq<Byte>)
    requires query == [0x68, 0x74, 0x74, 0x70, 0x3A, 0x2F, 0x2F, 0x65, 0x78, 0x61, 0x6D, 0x70,
                       0x6C, 0x65, 0x2E, 0x63, 0x6F, 0x6D, 0x2F, 0x71, 0x3F, 0x61, 0x3D, 0x31,
                       0x26, 0x62, 0x3D, 0x32]
    requires |url| == 30 && url[..28] == query && url[28] == 0x20 && url[29] == 0x20AC
    ensures EncodeUrl(url) == query + [0x2B, 0x25, 0x45, 0x32, 0x25, 0x38, 0x32, 0x25, 0x41, 0x43]
  {
    assert url[29] > 0x7F;
    EncodeUrlKeepsDelimiters(url);
    QueryIsPlain(query);
    assert url == url[..28] + url[28..];
    Utf8AsciiPrefix(url[..28], url[28..]);
    var tailBytes := Utf8Euro(url[28..]);
    EncodeKeepingAppend(query, tailBytes, Delimiters);
    EncodeKeepingPlain(query, Delimiters);
    EncodeEuro(tailBytes);
  }

  lemma QueryIsPlain(query: seq<Byte>)
    requires query == [0x68, 0x74, 0x74, 0x70, 0x3A, 0x2F, 0x2F, 0x65, 0x78, 0x61, 0x6D, 0x70,
                       0x6C, 0x65, 0x2E, 0x63, 0x6F, 0x6D, 0x2F, 0x71, 0x3F, 0x61, 0x3D, 0x31,
                       0x26, 0x62, 0x3D, 0x32]
    ensures AllAscii(query)
    ensures forall i | 0 <= i < |query| :: IsUnreserved(query[i]) || query[i] in Delimiters
  {
  }

  lemma Utf8Euro(tail: seq<CodeUnit>) returns (bytes: seq<Byte>)
    requires tail == [0x20, 0x20AC]
    ensures bytes == [0x20, 0xE2, 0x82, 0xAC] && Utf8(tail) == bytes
  {
    bytes := [0x20, 0xE2, 0x82, 0xAC];
    assert tail[1..][1..] == [];
    assert Utf8(tail[1..]) == [0xE2, 0x82, 0xAC];
  }

  lemma EncodeEuro(bytes: seq<Byte>)
    requires bytes == [0x20, 0xE2, 0x82, 0xAC]
    ensures EncodeKeeping(bytes, Delimiters) == [0x2B, 0x25, 0x45, 0x32, 0x25, 0x38, 0x32, 0x25, 0x41, 0x43]
  {
    assert bytes[3..][1..] == [];
    assert EncodeKeeping(bytes[3..], Delimiters) == [0x25, 0x41, 0x43];
    assert bytes[2..][1..] == bytes[3..];
    assert EncodeKeeping(bytes[2..], Delimiters) == [0x25, 0x38, 0x32, 0x25, 0x41, 0x43];
    assert bytes[1..][1..] == bytes[2..];
    assert EncodeKeeping(bytes[1..], Delimiters) == [0x25, 0x45, 0x32, 0x25, 0x38, 0x32, 0x25, 0x41, 0x43];
  }

  /** "%3Aé" becomes "%253A%C3%A9": a '%' of the input is escaped as "%25", so the text
      "%3A" it began is not taken for an escaped ':'. */
  lemma ExampleLiteralEscape(url: seq<CodeUnit>)
    requires url == [0x25, 0x33, 0x41, 0xE9]
    ensures EncodeUrl(url) == [0x25, 0x32, 0x35, 0x33, 0x41, 0x25, 0x43, 0x33, 0x25, 0x41, 0x39]
  {
    assert url[3] > 0x7F;
    EncodeUrlKeepsDelimiters(url);
    Utf8LiteralEscape(url);
    EncodeLiteralEscape(Utf8(url));
  }

  lemma Utf8LiteralEscape(url: seq<CodeUnit>)
    requires url == [0x25, 0x33, 0x41, 0xE9]
    ensures Utf8(url) == [0x25, 0x33, 0x41, 0xC3, 0xA9]
  {
    assert url[3..][1..] == [];
    assert Utf8(url[3..]) == [0xC3, 0xA9];
    assert url[2..][1..] == url[3..];
    assert Utf8(url[2..]) == [0x41, 0xC3, 0xA9];
    assert url[1..][1..] == url[2..];
    assert Utf8(url[1..]) == [0x33, 0x41, 0xC3, 0xA9];
  }

  lemma EncodeLiteralEscape(bytes: seq<Byte>)
    requires bytes == [0x25, 0x33, 0x41, 0xC3, 0xA9]
    ensures EncodeKeeping(bytes, Delimiters)
         == [0x25, 0x32, 0x35, 0x33, 0x41, 0x25, 0x43, 0x33, 0x25, 0x41, 0x39]
  {
    assert bytes == bytes[..3] + bytes[3..];
    EncodeKeepingAppend(bytes[..3], bytes[3..], Delimiters);
    assert bytes[3..][1..][1..] == [];
    assert EncodeKeeping(bytes[3..][1..], Delimiters) == [0x25, 0x41, 0x39];
    assert EncodeKeeping(bytes[3..], Delimiters) == [0x25, 0x43, 0x33, 0x25, 0x41, 0x39];
    assert bytes[..3][1..][1..][1..] == [];
    assert EncodeKeeping(bytes[..3][1..][1..], Delimiters) == [0x41];
    assert EncodeKeeping(bytes[..3][1..], Delimiters) == [0x33, 0x41];
    assert EncodeKeeping(bytes[..3], Delimiters) == [0x25, 0x32, 0x35, 0x33, 0x41];
  }
}
