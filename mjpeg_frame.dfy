/**
 * One part of DoorOpener's `multipart/x-mixed-replace` video stream: a fixed
 * header carrying the payload length in decimal, followed by the JPEG bytes
 * the camera returned, unchanged. The part opens with the delimiter line of
 * section 5.1.1 of RFC 2046 (CRLF, "--", the boundary, CRLF).
 *
 * The reader ParseChunk recovers the payload from a part and accepts nothing
 * else, which shows that the Content-Length field states the payload length
 * and that the payload is carried verbatim.
 */
module MjpegFrame {
  import opened Options
  import opened Decimal

  /** Go's `byte`. */
  type Byte = b: int | 0 <= b < 256

  predicate IsAscii(s: string) {
    forall i :: 0 <= i < |s| ==> s[i] as int < 128
  }

  /** `[]byte(s)` of an ASCII string: one byte per character, with the same code. */
  function AsciiBytes(s: string): (b: seq<Byte>)
    requires IsAscii(s)
    ensures |b| == |s| && forall i :: 0 <= i < |s| ==> b[i] == s[i] as int
  {
    seq(|s|, i requires 0 <= i < |s| => s[i] as int)
  }

  /** The wire bytes read as characters of the same code, as a header parser sees them. */
  function ByteChars(b: seq<Byte>): (s: string)
    ensures |s| == |b| && forall i :: 0 <= i < |b| ==> s[i] as int == b[i]
  {
    seq(|b|, i requires 0 <= i < |b| => b[i] as char)
  }

  lemma ByteCharsInjective(a: seq<Byte>, b: seq<Byte>)
    requires ByteChars(a) == ByteChars(b)
    ensures a == b
  {
    assert forall i :: 0 <= i < |a| ==> a[i] == ByteChars(a)[i] as int;
  }

  lemma ByteCharsOfAscii(s: string)
    requires IsAscii(s)
    ensures ByteChars(AsciiBytes(s)) == s
  {
  }

  lemma ByteCharsAppend(a: seq<Byte>, b: seq<Byte>)
    ensures ByteChars(a + b) == ByteChars(a) + ByteChars(b)
  {
  }

  /** The multipart boundary token of the stream. */
  const Boundary: string := "MJPEGBOUNDARY"

  /** The delimiter line that opens every part (section 5.1.1 of RFC 2046). */
  const Delimiter: string := "\r\n--" + Boundary + "\r\n"

  const ContentType: string := "Content-Type: image/jpeg\r\n"
  const ContentLength: string := "Content-Length: "
  const Timestamp: string := "X-Timestamp: 0.000000\r\n"

  /** Everything in a part's header before the decimal length. */
  const PartHead: string := Delimiter + ContentType + ContentLength

  /** Everything in a part's header after the decimal length, blank line included. */
  const PartTail: string := "\r\n" + Timestamp + "\r\n"

  /** Characters RFC 2046 allows in a boundary (`bcharsnospace`, and the space). */
  predicate IsBoundaryChar(c: char) {
    ('0' <= c <= '9') || ('A' <= c <= 'Z') || ('a' <= c <= 'z') ||
    c in "'()+_,-./:=? "
  }

  /** A boundary as section 5.1.1 of RFC 2046 defines it: 1 to 70 bchars, not ending in a space. */
  predicate ValidBoundary(b: string) {
    1 <= |b| <= 70 &&
    (forall i :: 0 <= i < |b| ==> IsBoundaryChar(b[i])) &&
    b[|b| - 1] != ' '
  }

  lemma BoundaryIsValid()
    ensures ValidBoundary(Boundary)
  {
  }

  lemma AsciiAppend(a: string, b: string)
    requires IsAscii(a) && IsAscii(b)
    ensures IsAscii(a + b)
  {
    assert forall i :: |a| <= i < |a + b| ==> (a + b)[i] == b[i - |a|];
  }

  /** The fixed header text is ASCII. */
  lemma HeaderTextIsAscii()
    ensures IsAscii(PartHead) && IsAscii(PartTail)
  {
    assert IsAscii("\r\n--") && IsAscii(Boundary) && IsAscii("\r\n");
    AsciiAppend("\r\n--", Boundary);
    AsciiAppend("\r\n--" + Boundary, "\r\n");
    assert IsAscii(ContentType) && IsAscii(ContentLength) && IsAscii(Timestamp);
    AsciiAppend(Delimiter, ContentType);
    AsciiAppend(Delimiter + ContentType, ContentLength);
    AsciiAppend("\r\n", Timestamp);
    AsciiAppend("\r\n" + Timestamp, "\r\n");
  }

  /** The header of a part whose payload is `n` bytes long. */
  function Header(n: nat): (h: string)
    ensures IsAscii(h)
  {
    HeaderTextIsAscii();
    AsciiAppend(PartHead, Itoa(n));
    AsciiAppend(PartHead + Itoa(n), PartTail);
    PartHead + Itoa(n) + PartTail
  }

  /** The bytes readVideoStream sends for one camera frame `raw`. */
  function Chunk(raw: seq<Byte>): seq<Byte> {
    AsciiBytes(Header(|raw|)) + raw
  }

  /**
   * A part opens with the delimiter line, ends with the frame bytes
   * unchanged, and is 88 bytes plus the numeral plus the frame long.
   */
  lemma ChunkLayout(raw: seq<Byte>)
    ensures |Chunk(raw)| == 88 + |Itoa(|raw|)| + |raw|
    ensures Chunk(raw)[..|Delimiter|] == AsciiBytes(Delimiter)
    ensures Chunk(raw)[|Chunk(raw)| - |raw|..] == raw
  {
    var h := Header(|raw|);
    assert |PartHead| == 61 && |PartTail| == 27;
    assert h[..|Delimiter|] == Delimiter;
    assert Chunk(raw)[..|Delimiter|] == AsciiBytes(h)[..|Delimiter|];
  }

  /**
   * Reads one part: the fixed header text, a canonical decimal length, the
   * rest of the fixed header, then exactly that many payload bytes.
   */
  function ParseChunk(frame: seq<Byte>): Option<seq<Byte>> {
    var s := ByteChars(frame);
    if |s| < |PartHead| || s[..|PartHead|] != PartHead then None
    else
      var rest := s[|PartHead|..];
      var k := LeadingDigits(rest);
      if !Canonical(rest[..k]) then None
      else
        var after := rest[k..];
        if |after| < |PartTail| || after[..|PartTail|] != PartTail then None
        else
          var start := |PartHead| + k + |PartTail|;
          if |frame| - start == ParseDecimal(rest[..k]) then Some(frame[start..]) else None
  }

  /** The reader on any bytes laid out as header text, numeral, header text, payload. */
  lemma ParseLaidOut(frame: seq<Byte>, d: string, payload: string)
    requires ByteChars(frame) == PartHead + (d + (PartTail + payload))
    requires Canonical(d) && ParseDecimal(d) == |payload|
    ensures ParseChunk(frame) == Some(frame[|PartHead| + |d| + |PartTail|..])
  {
    var s := ByteChars(frame);
    var rest := s[|PartHead|..];
    assert s[..|PartHead|] == PartHead && rest == d + (PartTail + payload);
    assert PartTail[0] == '\r';
    NumeralThenSeparator(d, PartTail + payload);
    assert rest[|d|..][..|PartTail|] == PartTail;
  }

  /** A part, read as characters: the header text, then the payload. */
  lemma ChunkChars(raw: seq<Byte>)
    ensures ByteChars(Chunk(raw)) == Header(|raw|) + ByteChars(raw)
  {
    ByteCharsAppend(AsciiBytes(Header(|raw|)), raw);
    ByteCharsOfAscii(Header(|raw|));
  }

  /** A part is read back as the payload it was built from. */
  lemma ParseChunkOfChunk(raw: seq<Byte>)
    ensures ParseChunk(Chunk(raw)) == Some(raw)
  {
    var frame := Chunk(raw);
    var d := Itoa(|raw|);
    var payload := ByteChars(raw);
    assert ByteChars(frame) == PartHead + (d + (PartTail + payload)) by {
      ChunkChars(raw);
    }
    assert Canonical(d) && ParseDecimal(d) == |payload| by {
      ParseItoa(|raw|);
    }
    ParseLaidOut(frame, d, payload);
    assert frame[|PartHead| + |d| + |PartTail|..] == raw;
  }

  /** What the reader has checked when it accepts a frame: header text, numeral, header text, payload. */
  lemma ParsedLayout(frame: seq<Byte>) returns (d: string)
    requires ParseChunk(frame).Some?
    ensures Canonical(d) && ParseDecimal(d) == |ParseChunk(frame).value|
    ensures ByteChars(frame) == PartHead + d + PartTail + ByteChars(ParseChunk(frame).value)
  {
    var s := ByteChars(frame);
    var rest := s[|PartHead|..];
    var k := LeadingDigits(rest);
    d := rest[..k];
    var start := |PartHead| + k + |PartTail|;
    assert ParseChunk(frame).value == frame[start..];
    assert s == s[..|PartHead|] + d + rest[k..][..|PartTail|] + s[start..];
  }

  /** The reader accepts only parts built by Chunk. */
  lemma ChunkOfParseChunk(frame: seq<Byte>)
    requires ParseChunk(frame).Some?
    ensures Chunk(ParseChunk(frame).value) == frame
  {
    var raw := ParseChunk(frame).value;
    var d := ParsedLayout(frame);
    ItoaParse(d);
    ChunkChars(raw);
    ByteCharsInjective(Chunk(raw), frame);
  }
}
