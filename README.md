# UriHelper: percent-encoding of URLs with non-ASCII characters

This project models the class `UriHelper` of the krawl crawler in Dafny and proves
properties of it. The class has two static operations:

- `checkForExternal(str)` tells whether a string holds a UTF-16 code unit above 0x7F
  (an "external" character).
- `encodeUrl(url)` returns a URL with no external characters unchanged. For any other URL it
  1. form-encodes the URL with `URLEncoder.encode(url, "UTF-8")`;
  2. then replaces the escapes `%3A`, `%2F`, `%3F`, `%3D` and `%26` with the literal
     characters `:`, `/`, `?`, `=` and `&`, in that order.

A Java string is modelled as a sequence of UTF-16 code units (`CodeUnits.CodeUnit`),
which is what `String.charAt` and `String.length` work on. The model has three parts:

- `FormEncoding` covers `URLEncoder.encode` by its documented contract:
  - it encodes the string to UTF-8 (RFC 3629);
  - it writes each byte as itself if it is in `a-z A-Z 0-9 . - * _`, as `+` if it is a
    space, and as `%XX` with upper-case hexadecimal digits otherwise;
  - this is the `application/x-www-form-urlencoded` scheme of section 17.13.4.1 of
    HTML 4.01.
- `LiteralReplace` covers `Pattern.compile(p, Pattern.LITERAL).matcher(s).replaceAll(r)`.
  It scans from left to right. Each occurrence found is replaced and the scan resumes
  after it.
- `FormEncoding` also holds `Decode`, which reads form-encoded text back to bytes.
- `UriHelper` holds the class itself and `EncodeKeeping`: the per-byte form encoding with
  `:` `/` `?` `=` `&` left literal. The five replacements are proved equal to it.

The main results:

- `encodeUrl` on a URL with external characters is exactly the form encoding of its
  UTF-8 bytes with the five delimiter bytes left literal. Every other byte keeps its
  usual encoding, and this includes `%` as `%25`. So a `%3A` already present in the
  input is not turned into `:`.
- For such a URL, decoding the result therefore gives back the URL's UTF-8 bytes.
- None of the five patterns survives the replacements, whatever the input.
- The output of `encodeUrl` is always ASCII, so `encodeUrl(encodeUrl(u)) == encodeUrl(u)`
  for every `u` (`UriHelper.EncodeUrlIdempotent`).

## Model

| member | source | states |
|---|---|---|
| UriHelper.CheckForExternal | src/java/UriHelper.java:10-18 | the scan answers true exactly when some code unit is above 0x7F, and false exactly when every code unit is ASCII; the loop invariant is that every unit scanned so far is ASCII |
| UriHelper.EncodeUrl | src/java/UriHelper.java:26-41 | the result is always pure ASCII, and a URL without external characters is returned unchanged (the fast path) |
| UriHelper.EncodeUrlIdempotent | src/java/UriHelper.java:26-41 | encoding an already encoded URL changes nothing, for every input |
| UriHelper.Unescape | src/java/UriHelper.java:30-34 | the five replacements never lengthen the text and keep ASCII text ASCII |
| UriHelper.PatternsAreEscapes | src/java/UriHelper.java:20-24 | each of the five patterns is the form encoding of its delimiter `:`, `/`, `?`, `=`, `&` |
| UriHelper.EscapeNoSelfOverlap | src/java/UriHelper.java:20-24 | the escape of any escaped byte is three units long and cannot overlap itself |
| UriHelper.EscapeReplaceLength | src/java/UriHelper.java:30-34 | replacing a delimiter escape shortens the text by exactly two units per occurrence |
| UriHelper.UnescapeLeavesNoPattern | src/java/UriHelper.java:30-34 | after the five replacements none of the five patterns occurs: each is removed, and no later replacement brings back an earlier one |
| UriHelper.ReplaceEscape | src/java/UriHelper.java:29-34 | on form-encoded text, replacing the escape of one more byte by that byte acts byte by byte: the pattern is found exactly where that byte was encoded |
| UriHelper.ReplaceEscapeByte | src/java/UriHelper.java:29-34 | one encoded byte followed by any text: the pattern matches that byte's encoding exactly when it is the replaced byte, and never straddles into the text after it |
| UriHelper.UnescapeFormEncode | src/java/UriHelper.java:29-34 | the replacements applied to a form encoding give the form encoding with `:`, `/`, `?`, `=`, `&` literal and every other escape, `%25` included, kept |
| UriHelper.EncodeUrlKeepsDelimiters | src/java/UriHelper.java:27-34 | for a URL with external characters, the result is its UTF-8 bytes form-encoded with the five delimiters literal |
| UriHelper.DecodeEncodeKeeping | src/java/UriHelper.java:29-34 | leaving ASCII bytes other than `%` and `+` literal in a form encoding loses nothing: it decodes to the original bytes |
| UriHelper.DecodeEncodeUrl | src/java/UriHelper.java:27-34 | for a URL with external characters, decoding the result gives back exactly the URL's UTF-8 bytes |
| UriHelper.EncodeKeepingAppend | src/java/UriHelper.java:29-34 | the encoding works byte by byte, so it distributes over concatenation |
| UriHelper.EncodeKeepingPlain | src/java/UriHelper.java:29-34 | bytes that are unreserved or kept are their own encoding |
| UriHelper.ExampleCafe | src/java/UriHelper.java:26-41 | "café" is encoded as "caf%C3%A9" |
| UriHelper.ExampleQuery | src/java/UriHelper.java:26-41 | "http://example.com/q?a=1&b=2 €" is encoded as "http://example.com/q?a=1&b=2+%E2%82%AC": delimiters stay, the space becomes `+` |
| UriHelper.ExampleLiteralEscape | src/java/UriHelper.java:26-41 | "%3Aé" is encoded as "%253A%C3%A9": a `%3A` written in the input is not turned into `:` |
| LiteralReplace.ReplaceAll | src/java/UriHelper.java:30-34 | a replacement never lengthens the text, and replacing with an ASCII unit keeps ASCII text ASCII |
| LiteralReplace.ReplaceAllIdentity | src/java/UriHelper.java:30-34 | for a pattern of two or more units, a replacement leaves the text unchanged exactly when the pattern does not occur in it |
| LiteralReplace.ReplaceAllRemovesAll | src/java/UriHelper.java:30-34 | when the replacement unit is not part of the pattern, no occurrence of the pattern remains afterwards |
| LiteralReplace.ReplaceAllKeepsAbsent | src/java/UriHelper.java:30-34 | a pattern absent before a replacement stays absent when the replacement unit is not part of it |
| LiteralReplace.ExpandReplaceAll | src/java/UriHelper.java:30-34 | when the replacement unit was absent from the text, putting the pattern back for it restores the text |
| LiteralReplace.ReplaceAllLength | src/java/UriHelper.java:30-34 | for a three-unit pattern that cannot overlap itself, the result is shorter by exactly two units per occurrence |
| FormEncoding.Utf8 | src/java/UriHelper.java:29 | the UTF-8 encoding has between one and three bytes per code unit, and ASCII text is its own encoding |
| FormEncoding.EncodeByte | src/java/UriHelper.java:29 | a byte in `a-z A-Z 0-9 . - * _` is written as itself, a space as `+`, and any other byte as `%` followed by two upper-case hexadecimal digits whose value is the byte; the output is ASCII |
| FormEncoding.Utf8AsciiPrefix | src/java/UriHelper.java:29 | an ASCII prefix is carried unchanged into the UTF-8 bytes, whatever follows it |
| FormEncoding.FormEncode | src/java/UriHelper.java:29 | the form encoding is pure ASCII and has between one and three units per byte |
| FormEncoding.DecodeEncodeByte | src/java/UriHelper.java:29 | decoding reads back exactly the byte that was encoded, whatever text follows |
| FormEncoding.EncodeByteInjective | src/java/UriHelper.java:29 | distinct bytes have distinct encodings |
| FormEncoding.DecodeFormEncode | src/java/UriHelper.java:29 | the form encoding loses nothing: decoding it gives back the bytes |
| CodeUnits.HexDigit | src/java/UriHelper.java:29 | the digit written for a value below 16 is one of `0-9 A-F` (upper case), reads back as that value, and is never `%` |

## Left out

- The `UnsupportedEncodingException` handler (lines 35-36) is not modelled. UTF-8 is always supported, so it cannot be reached.
- The regular-expression engine behind `Pattern` and `Matcher` is not modelled. The patterns are compiled with `Pattern.LITERAL`, so matching is plain sequence matching.
- The `$` and `\` handling of `Matcher.replaceAll` replacement strings does not arise, because the five replacements are single plain characters.
- The JDK's own UTF-16 to UTF-8 converter is not modelled. `FormEncoding.Utf8` is written from RFC 3629, and it writes an unpaired surrogate as `?`, which is how the JDK encoder replaces it.
- `URLEncoder` scans characters, not bytes. The model encodes per UTF-8 byte. The two agree in both directions. Every character `URLEncoder` leaves unescaped, or writes as `+`, is one ASCII byte. No byte of a character it escapes is unreserved or a space: such a byte is an ASCII byte outside `a-z A-Z 0-9 . - * _` and space, or a byte of 0x80 or more, or the `?` (0x3F) written for an unpaired surrogate, which becomes `%3F`. Each of these is escaped either way.
- Code-point semantics are not modelled. `checkForExternal` and the model compare UTF-16 code units, as `charAt` does.
- Java strings are immutable values, so no aliasing or in-place update is modelled.
- LiteralReplace.ReplaceAllLength: stated only for three-unit patterns (each of the five is three units). This keeps the arithmetic linear.
- FormEncoding.Utf8: bounds the length and fixes ASCII text; it does not state validity of the UTF-8 produced for non-ASCII input. That output is only shown on the examples.
