/** A single-part `multipart/form-data` body: the boundary delimiter and
    close-delimiter lines of section 5.1.1 of RFC 2046 around one part whose
    `Content-Disposition: form-data; name=...; filename=...` header follows
    section 4.2 of RFC 7578. EncodePart writes the body the way the
    controller's upload does; DecodePart is the receiving side, and the two
    are tied by PartRoundTrip. */
module Multipart {
  import opened Wrappers
  import opened Utf8

  const Cr: uint8 := 13
  const Quote: uint8 := 0x22

  /** One file field as the sender describes it. */
  datatype FilePart = FilePart(fieldName: string, filename: string, contentType: string, data: seq<uint8>)

  /** One file field as a receiver reads it back: header values as raw bytes. */
  datatype RawPart = RawPart(fieldName: seq<uint8>, filename: seq<uint8>, contentType: seq<uint8>, data: seq<uint8>)

  /** The header values of a part can be delimited: no '"' inside a quoted
      value and no CR inside the Content-Type value. */
  predicate Delimitable(p: FilePart) {
    '"' !in p.fieldName && '"' !in p.filename && '\r' !in p.contentType
  }

  /** The bytes a receiver is expected to read back for a part. */
  function Received(p: FilePart): RawPart {
    RawPart(Encode(p.fieldName), Encode(p.filename), Encode(p.contentType), p.data)
  }

  /** The body: each line is built as a string and appended as its UTF-8
      bytes, the file bytes are appended unchanged. It opens with the
      dash-boundary line and closes with the data, the delimiter and "--"
      CRLF, the close-delimiter of section 5.1.1 of RFC 2046. */
  function EncodePart(boundary: string, p: FilePart): (r: seq<uint8>)
    ensures var opening := Encode("--" + boundary + "\r\n");
      |opening| <= |r| && r[..|opening|] == opening
    ensures var closing := p.data + Delimiter(boundary) + Encode("--\r\n");
      |closing| <= |r| && r[|r| - |closing|..] == closing
  {
    var opening := Encode("--" + boundary + "\r\n");
    var disposition := Encode("Content-Disposition: form-data; name=\"" + p.fieldName + "\"; filename=\"" + p.filename + "\"\r\n");
    var contentType := Encode("Content-Type: " + p.contentType + "\r\n\r\n");
    var crlf := Encode("\r\n");
    var closeLine := Encode("--" + boundary + "--\r\n");
    ClosingLines(boundary);
    FrameParts(opening, disposition, contentType, p.data, crlf, closeLine, Delimiter(boundary), Encode("--\r\n"));
    opening + disposition + contentType + p.data + crlf + closeLine
  }

  /** Six pieces laid end to end start with the first; when the last two
      regroup as d + e, they end with the data, d and e. */
  lemma FrameParts(opening: seq<uint8>, disposition: seq<uint8>, contentType: seq<uint8>, data: seq<uint8>,
                   a: seq<uint8>, b: seq<uint8>, d: seq<uint8>, e: seq<uint8>)
    requires a + b == d + e
    ensures var r := opening + disposition + contentType + data + a + b;
      && |opening| <= |r| && r[..|opening|] == opening
      && |data + d + e| <= |r| && r[|r| - |data + d + e|..] == data + d + e
  {
    var r := opening + disposition + contentType + data + a + b;
    assert r == (opening + disposition + contentType) + (data + (a + b));
    assert data + (a + b) == data + d + e;
  }

  /** The rest of s after the prefix, if s starts with it. */
  function StripPrefix(prefix: seq<uint8>, s: seq<uint8>): (r: Option<seq<uint8>>)
    ensures r.Some? <==> |prefix| <= |s| && s[..|prefix|] == prefix
    ensures r.Some? ==> s == prefix + r.value
  {
    if |prefix| <= |s| && s[..|prefix|] == prefix then Some(s[|prefix|..]) else None
  }

  /** The bytes before the first occurrence of b and the bytes after it. */
  function SplitAt(s: seq<uint8>, b: uint8): (r: Option<(seq<uint8>, seq<uint8>)>)
    ensures r.Some? <==> b in s
    ensures r.Some? ==> s == r.value.0 + [b] + r.value.1 && b !in r.value.0
  {
    if |s| == 0 then None
    else if s[0] == b then Some(([], s[1..]))
    else match SplitAt(s[1..], b)
      case None => None
      case Some((front, back)) => Some(([s[0]] + front, back))
  }

  /** Reads the Content-Disposition line: the quoted field name and file
      name, and the bytes after the line. */
  function DecodeDisposition(s: seq<uint8>): Option<(seq<uint8>, seq<uint8>, seq<uint8>)> {
    match StripPrefix(Encode("Content-Disposition: form-data; name=\""), s)
    case None => None
    case Some(afterName) =>
      match SplitAt(afterName, Quote)
      case None => None
      case Some((name, rest)) =>
        match StripPrefix(Encode("; filename=\""), rest)
        case None => None
        case Some(afterFilename) =>
          match SplitAt(afterFilename, Quote)
          case None => None
          case Some((filename, rest')) =>
            match StripPrefix(Encode("\r\n"), rest')
            case None => None
            case Some(next) => Some((name, filename, next))
  }

  /** Reads the Content-Type line and the empty line after it: the type
      value, and the bytes after the empty line. */
  function DecodeContentType(s: seq<uint8>): Option<(seq<uint8>, seq<uint8>)> {
    match StripPrefix(Encode("Content-Type: "), s)
    case None => None
    case Some(afterType) =>
      match SplitAt(afterType, Cr)
      case None => None
      case Some((contentType, rest)) =>
        match StripPrefix(Encode("\n\r\n"), rest)
        case None => None
        case Some(payload) => Some((contentType, payload))
  }

  /** The delimiter that ends the part's data: CRLF, two dashes and the
      boundary (section 5.1.1 of RFC 2046). */
  function Delimiter(boundary: string): seq<uint8> {
    Encode("\r\n--" + boundary)
  }

  /** Whether pat occurs in s starting at index i. */
  predicate OccursAt(s: seq<uint8>, pat: seq<uint8>, i: nat) {
    i + |pat| <= |s| && s[i..i + |pat|] == pat
  }

  /** The boundary can delimit the data: it holds no CR, as the boundary
      characters of section 5.1.1 of RFC 2046 exclude it, and its delimiter
      does not occur anywhere in the data. */
  predicate DelimiterFree(boundary: string, data: seq<uint8>) {
    '\r' !in boundary && forall i :: 0 <= i <= |data| ==> !OccursAt(data, Delimiter(boundary), i)
  }

  /** An occurrence past the first byte is an occurrence in the tail. */
  lemma OccursInTail(s: seq<uint8>, pat: seq<uint8>, i: nat)
    requires 1 <= i <= |s|
    ensures OccursAt(s, pat, i) <==> OccursAt(s[1..], pat, i - 1)
  {
    if i + |pat| <= |s| {
      assert s[1..][i - 1..i - 1 + |pat|] == s[i..i + |pat|];
    }
  }

  /** The bytes before the first occurrence of pat and the bytes after it. */
  function FindFirst(s: seq<uint8>, pat: seq<uint8>): (r: Option<(seq<uint8>, seq<uint8>)>)
    ensures r.None? <==> forall i :: 0 <= i <= |s| ==> !OccursAt(s, pat, i)
    ensures r.Some? ==> s == r.value.0 + pat + r.value.1
    ensures r.Some? ==> forall i :: 0 <= i < |r.value.0| ==> !OccursAt(s, pat, i)
    decreases |s|
  {
    if OccursAt(s, pat, 0) then
      assert s == [] + pat + s[|pat|..];
      Some(([], s[|pat|..]))
    else if |s| == 0 then None
    else
      var tail := FindFirst(s[1..], pat);
      if tail.None? then
        NoneInTail(s, pat);
        None
      else
        FirstInTail(s, pat, tail.value.0, tail.value.1);
        Some(([s[0]] + tail.value.0, tail.value.1))
  }

  /** No occurrence at the head nor in the tail means none at all. */
  lemma NoneInTail(s: seq<uint8>, pat: seq<uint8>)
    requires |s| > 0 && !OccursAt(s, pat, 0)
    requires forall i :: 0 <= i <= |s| - 1 ==> !OccursAt(s[1..], pat, i)
    ensures forall i :: 0 <= i <= |s| ==> !OccursAt(s, pat, i)
  {
    forall i | 1 <= i <= |s| ensures !OccursAt(s, pat, i) {
      OccursInTail(s, pat, i);
    }
  }

  /** The first occurrence in the tail, with no occurrence at the head, is
      the first occurrence in the whole, one byte further on. */
  lemma FirstInTail(s: seq<uint8>, pat: seq<uint8>, front: seq<uint8>, back: seq<uint8>)
    requires |s| > 0 && !OccursAt(s, pat, 0)
    requires s[1..] == front + pat + back
    requires forall i :: 0 <= i < |front| ==> !OccursAt(s[1..], pat, i)
    ensures s == [s[0]] + front + pat + back
    ensures OccursAt(s, pat, |front| + 1)
    ensures forall i :: 0 <= i < |front| + 1 ==> !OccursAt(s, pat, i)
  {
    assert s == [s[0]] + s[1..];
    assert s[1..][|front|..|front| + |pat|] == pat;
    OccursInTail(s, pat, |front| + 1);
    forall i | 1 <= i <= |front| ensures !OccursAt(s, pat, i) {
      OccursInTail(s, pat, i);
    }
  }

  /** The receiving side: reads a body written for the given boundary back
      into its header values and file bytes, or None if it does not have the
      shape EncodePart writes. As a receiver following section 5.1.1 of
      RFC 2046 does, it ends the data at the FIRST delimiter, which must be
      the close-delimiter and end the body. */
  function DecodePart(boundary: string, body: seq<uint8>): Option<RawPart> {
    match StripPrefix(Encode("--" + boundary + "\r\n"), body)
    case None => None
    case Some(headers) =>
      match DecodeDisposition(headers)
      case None => None
      case Some((name, filename, typeLine)) =>
        match DecodeContentType(typeLine)
        case None => None
        case Some((contentType, payload)) =>
          match FindFirst(payload, Delimiter(boundary))
          case None => None
          case Some((data, rest)) =>
            if rest == Encode("--\r\n") then Some(RawPart(name, filename, contentType, data)) else None
  }

  lemma Assoc(a: seq<uint8>, b: seq<uint8>, c: seq<uint8>)
    ensures a + b + c == a + (b + c)
  {
  }

  lemma StripPrefixOf(prefix: seq<uint8>, rest: seq<uint8>)
    ensures StripPrefix(prefix, prefix + rest) == Some(rest)
  {
    assert (prefix + rest)[..|prefix|] == prefix;
  }

  lemma {:induction false} SplitAtFirst(front: seq<uint8>, b: uint8, back: seq<uint8>)
    requires b !in front
    ensures SplitAt(front + ([b] + back), b) == Some((front, back))
  {
    var s := front + ([b] + back);
    if |front| == 0 {
      assert s == [b] + back;
    } else {
      assert s[0] == front[0] != b;
      assert s[1..] == front[1..] + ([b] + back);
      SplitAtFirst(front[1..], b, back);
      assert [s[0]] + front[1..] == front;
    }
  }

  /** A string starting with '"' encodes as the quote byte then the rest. */
  lemma QuoteFirst(s: string)
    requires |s| > 0 && s[0] == '"'
    ensures Encode(s) == [Quote] + Encode(s[1..])
  {
    EncodeCons(s);
    EncodeCharDecodes('"');
  }

  /** Regrouping the pieces of the Content-Disposition line to the right. */
  lemma RegroupDisposition(d: seq<uint8>, n: seq<uint8>, m: seq<uint8>, f: seq<uint8>, e: seq<uint8>, rest: seq<uint8>)
    ensures d + n + ([Quote] + m) + f + ([Quote] + e) + rest
      == d + (n + ([Quote] + (m + (f + ([Quote] + (e + rest))))))
  {
    var q := [Quote];
    Assoc(q, e, rest);
    Assoc(d + n + (q + m) + f, q + e, rest);
    Assoc(d + n + (q + m), f, q + (e + rest));
    Assoc(d + n, q + m, f + (q + (e + rest)));
    Assoc(q, m, f + (q + (e + rest)));
    Assoc(d, n, q + (m + (f + (q + (e + rest)))));
  }

  /** The Content-Disposition line cut at its two quoted values. */
  lemma DispositionLine(name: string, filename: string, rest: seq<uint8>)
    ensures Encode("Content-Disposition: form-data; name=\"" + name + "\"; filename=\"" + filename + "\"\r\n") + rest
      == Encode("Content-Disposition: form-data; name=\"") + (Encode(name) + ([Quote] + (Encode("; filename=\"")
         + (Encode(filename) + ([Quote] + (Encode("\r\n") + rest))))))
  {
    var d := "Content-Disposition: form-data; name=\"";
    EncodeAppend(d + name + "\"; filename=\"" + filename, "\"\r\n");
    EncodeAppend(d + name + "\"; filename=\"", filename);
    EncodeAppend(d + name, "\"; filename=\"");
    EncodeAppend(d, name);
    QuoteFirst("\"; filename=\"");
    QuoteFirst("\"\r\n");
    assert "\"; filename=\""[1..] == "; filename=\"";
    assert "\"\r\n"[1..] == "\r\n";
    RegroupDisposition(Encode(d), Encode(name), Encode("; filename=\""), Encode(filename), Encode("\r\n"), rest);
  }

  /** The Content-Type line cut at its value, followed by the empty line. */
  lemma TypeLine(contentType: string, rest: seq<uint8>)
    ensures Encode("Content-Type: " + contentType + "\r\n\r\n") + rest
      == Encode("Content-Type: ") + (Encode(contentType) + ([Cr] + (Encode("\n\r\n") + rest)))
  {
    EncodeAppend("Content-Type: " + contentType, "\r\n\r\n");
    EncodeAppend("Content-Type: ", contentType);
    EncodeCons("\r\n\r\n");
    EncodeCharDecodes('\r');
    assert "\r\n\r\n"[1..] == "\n\r\n";
    var T, C, L := Encode("Content-Type: "), Encode(contentType), Encode("\n\r\n");
    Assoc([Cr], L, rest);
    Assoc(C, [Cr] + L, rest);
    Assoc(T, C, [Cr] + L);
    Assoc(T, C + ([Cr] + L), rest);
  }

  /** The Content-Disposition line of a delimitable part is read back. */
  lemma DispositionRoundTrip(name: string, filename: string, rest: seq<uint8>)
    requires '"' !in name && '"' !in filename
    ensures DecodeDisposition(Encode("Content-Disposition: form-data; name=\"" + name + "\"; filename=\"" + filename + "\"\r\n") + rest)
      == Some((Encode(name), Encode(filename), rest))
  {
    var n, f := Encode(name), Encode(filename);
    var tail2 := Encode("\r\n") + rest;
    var tail1 := Encode("; filename=\"") + (f + ([Quote] + tail2));
    DispositionLine(name, filename, rest);
    EncodeContainsAscii(name, '"');
    EncodeContainsAscii(filename, '"');
    StripPrefixOf(Encode("Content-Disposition: form-data; name=\""), n + ([Quote] + tail1));
    SplitAtFirst(n, Quote, tail1);
    StripPrefixOf(Encode("; filename=\""), f + ([Quote] + tail2));
    SplitAtFirst(f, Quote, tail2);
    StripPrefixOf(Encode("\r\n"), rest);
  }

  /** The Content-Type line of a delimitable part is read back. */
  lemma ContentTypeRoundTrip(contentType: string, rest: seq<uint8>)
    requires '\r' !in contentType
    ensures DecodeContentType(Encode("Content-Type: " + contentType + "\r\n\r\n") + rest)
      == Some((Encode(contentType), rest))
  {
    var c := Encode(contentType);
    TypeLine(contentType, rest);
    EncodeContainsAscii(contentType, '\r');
    StripPrefixOf(Encode("Content-Type: "), c + ([Cr] + (Encode("\n\r\n") + rest)));
    SplitAtFirst(c, Cr, Encode("\n\r\n") + rest);
    StripPrefixOf(Encode("\n\r\n"), rest);
  }

  /** The body as its three header lines followed by the payload. */
  lemma BodyLines(boundary: string, p: FilePart)
    ensures EncodePart(boundary, p)
      == Encode("--" + boundary + "\r\n")
         + (Encode("Content-Disposition: form-data; name=\"" + p.fieldName + "\"; filename=\"" + p.filename + "\"\r\n")
         + (Encode("Content-Type: " + p.contentType + "\r\n\r\n")
         + (p.data + (Encode("\r\n") + Encode("--" + boundary + "--\r\n")))))
  {
    var E1 := Encode("--" + boundary + "\r\n");
    var E2 := Encode("Content-Disposition: form-data; name=\"" + p.fieldName + "\"; filename=\"" + p.filename + "\"\r\n");
    var E3 := Encode("Content-Type: " + p.contentType + "\r\n\r\n");
    var closing := Encode("\r\n") + Encode("--" + boundary + "--\r\n");
    var payload := p.data + closing;
    Assoc(E1 + E2 + E3 + p.data, Encode("\r\n"), Encode("--" + boundary + "--\r\n"));
    Assoc(E1 + E2 + E3, p.data, closing);
    Assoc(E1 + E2, E3, payload);
    Assoc(E1, E2, E3 + payload);
  }

  /** The first occurrence of pat is found where the caller says it is. */
  lemma FindFirstAt(front: seq<uint8>, pat: seq<uint8>, back: seq<uint8>)
    requires forall i :: 0 <= i < |front| ==> !OccursAt(front + pat + back, pat, i)
    ensures FindFirst(front + pat + back, pat) == Some((front, back))
  {
    var s := front + pat + back;
    assert s[|front|..|front| + |pat|] == pat;
    assert OccursAt(s, pat, |front|);
    var r := FindFirst(s, pat);
    var (f, b) := r.value;
    if |f| < |front| {
      assert s[|f|..|f| + |pat|] == pat;
      assert OccursAt(s, pat, |f|);
      assert false;
    } else if |f| > |front| {
      assert false;
    }
    assert f == s[..|front|] == front;
    assert b == s[|front| + |pat|..] == back;
  }

  /** The delimiter is CR LF '-' '-' and then the boundary's bytes. */
  lemma DelimiterBytes(boundary: string)
    ensures Delimiter(boundary) == [Cr, 10, 45, 45] + Encode(boundary)
  {
    EncodeAppend("\r\n--", boundary);
    EncodeAscii("\r\n--");
  }

  /** With no CR in the boundary, the delimiter's only CR is its first byte,
      so in data followed by the delimiter the first occurrence is the
      appended one whenever the data holds none. */
  lemma DelimiterFirstAfter(boundary: string, data: seq<uint8>, rest: seq<uint8>)
    requires DelimiterFree(boundary, data)
    ensures forall i :: 0 <= i < |data| ==> !OccursAt(data + Delimiter(boundary) + rest, Delimiter(boundary), i)
  {
    var d := Delimiter(boundary);
    var s := data + d + rest;
    DelimiterBytes(boundary);
    EncodeContainsAscii(boundary, '\r');
    assert d[0] == Cr;
    forall i | 0 <= i < |data| ensures !OccursAt(s, d, i) {
      if i + |d| <= |data| {
        assert s[i..i + |d|] == data[i..i + |d|];
        assert !OccursAt(data, d, i);
      } else {
        var k := |data| - i;
        assert s[i..i + |d|][k] == Cr;
        assert k < 4 || d[k] == Encode(boundary)[k - 4];
      }
    }
  }

  /** The closing lines of EncodePart are the delimiter and then "--" CRLF. */
  lemma ClosingLines(boundary: string)
    ensures Encode("\r\n") + Encode("--" + boundary + "--\r\n") == Delimiter(boundary) + Encode("--\r\n")
  {
    EncodeAppend("\r\n", "--" + boundary + "--\r\n");
    EncodeAppend("\r\n--" + boundary, "--\r\n");
    assert "\r\n" + ("--" + boundary + "--\r\n") == "\r\n--" + boundary + "--\r\n";
  }

  /** DecodePart succeeds when each of its steps does. */
  lemma DecodePartSteps(boundary: string, body: seq<uint8>, headers: seq<uint8>, name: seq<uint8>,
                        filename: seq<uint8>, typeLine: seq<uint8>, contentType: seq<uint8>,
                        payload: seq<uint8>, data: seq<uint8>)
    ensures && StripPrefix(Encode("--" + boundary + "\r\n"), body) == Some(headers)
            && DecodeDisposition(headers) == Some((name, filename, typeLine))
            && DecodeContentType(typeLine) == Some((contentType, payload))
            && FindFirst(payload, Delimiter(boundary)) == Some((data, Encode("--\r\n")))
            ==> DecodePart(boundary, body) == Some(RawPart(name, filename, contentType, data))
  {
  }

  /** A delimitable part whose data the boundary's delimiter does not occur
      in is read back exactly. */
  lemma PartRoundTrip(boundary: string, p: FilePart)
    requires Delimitable(p) && DelimiterFree(boundary, p.data)
    ensures DecodePart(boundary, EncodePart(boundary, p)) == Some(Received(p))
  {
    var E1 := Encode("--" + boundary + "\r\n");
    var E2 := Encode("Content-Disposition: form-data; name=\"" + p.fieldName + "\"; filename=\"" + p.filename + "\"\r\n");
    var E3 := Encode("Content-Type: " + p.contentType + "\r\n\r\n");
    var closing := Encode("\r\n") + Encode("--" + boundary + "--\r\n");
    var payload := p.data + closing;
    var body := EncodePart(boundary, p);
    BodyLines(boundary, p);
    StripPrefixOf(E1, E2 + (E3 + payload));
    assert StripPrefix(E1, body) == Some(E2 + (E3 + payload));
    DispositionRoundTrip(p.fieldName, p.filename, E3 + payload);
    assert DecodeDisposition(E2 + (E3 + payload)) == Some((Encode(p.fieldName), Encode(p.filename), E3 + payload));
    ContentTypeRoundTrip(p.contentType, payload);
    assert DecodeContentType(E3 + payload) == Some((Encode(p.contentType), payload));
    assert FindFirst(payload, Delimiter(boundary)) == Some((p.data, Encode("--\r\n"))) by {
      ClosingLines(boundary);
      Assoc(p.data, Delimiter(boundary), Encode("--\r\n"));
      DelimiterFirstAfter(boundary, p.data, Encode("--\r\n"));
      FindFirstAt(p.data, Delimiter(boundary), Encode("--\r\n"));
    }
    DecodePartSteps(boundary, body, E2 + (E3 + payload), Encode(p.fieldName), Encode(p.filename),
      E3 + payload, Encode(p.contentType), payload, p.data);
  }
}
