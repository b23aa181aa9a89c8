/** internal/utils/utils.go: the URL, e-mail and role checks, signature
    clean-up of message bodies, and the plain-text extractor for incoming
    bodies. The MIME multipart reader, the quoted-printable decoder and the
    HTML-to-text converter are foreign code and are passed in as functions. */
module Utils {
  import opened Text
  import opened Results

  /** ValidateEndpointURL: the URL must use the http or https scheme,
      spelled in lower case. */
  function ValidateEndpointURL(url: string): (ok: bool)
    ensures ok <==> (HasPrefix(url, "http") &&
      (HasPrefix(url[4..], "://") || HasPrefix(url[4..], "s://")))
  {
    HasPrefixConcat(url, "http", "://");
    HasPrefixConcat(url, "http", "s://");
    HasPrefix(url, "http://") || HasPrefix(url, "https://")
  }

  /** `r` is the lower-cased run of `email` starting at `a`, with nothing
      but white space before and after that run. */
  ghost predicate LoweredMiddle(email: string, r: string, a: int) {
    0 <= a && a + |r| <= |email|
    && AllSpace(email[..a]) && AllSpace(email[a + |r|..])
    && forall i :: 0 <= i < |r| ==> r[i] == LowerChar(email[a + i])
  }

  /** SanitizeEmail: surrounding white space removed, lower-cased. */
  function SanitizeEmail(email: string): (r: string)
    ensures IsTrimmed(r) && IsLower(r)
    ensures |r| <= |email|
    ensures exists a :: LoweredMiddle(email, r, a)
  {
    var t := TrimSpace(email);
    ToLowerProperties(t);
    LoweredTrimIsMiddle(email);
    ToLower(t)
  }

  /** The lower-cased trim of `email` is its lower-cased middle run. */
  lemma LoweredTrimIsMiddle(email: string)
    ensures exists a :: LoweredMiddle(email, ToLower(TrimSpace(email)), a)
  {
    var t := TrimSpace(email);
    TrimSpaceIsMiddle(email);
    var a :| Margins(email, t, a);
    assert LoweredMiddle(email, ToLower(t), a);
  }

  lemma SanitizeEmailIdempotent(email: string)
    ensures SanitizeEmail(SanitizeEmail(email)) == SanitizeEmail(email)
  {
    var r := SanitizeEmail(email);
    TrimSpaceOfTrimmed(r);
    ToLowerOfLower(r);
  }

  /** IsValidRole: the two roles of the system. */
  function IsValidRole(role: string): (ok: bool)
    ensures ok <==> role in {"admin", "user"}
  {
    role == "admin" || role == "user"
  }

  // ---------------------------------------------------------------------
  // cleanMessageContent

  const Crlf: string := "\r\n"
  const SignatureLine: string := "Sent from my iPhone"
  /** The cut set of the final strings.TrimRight: "\r\n \t=". */
  const TrailingJunk: set<char> := {'\r', '\n', ' ', '\t', '='}

  /** Decoding is tried only when the lower-cased content holds a
      quoted-printable soft line break. */
  predicate HasSoftLineBreak(content: string) {
    Contains(ToLower(content), "=\r\n") || Contains(ToLower(content), "=\n")
  }

  /** The content after the optional quoted-printable pass; a decoder
      error (None) keeps the content as it was. */
  function AfterQuotedPrintable(content: string, decodeQP: string -> Option<string>): string {
    if HasSoftLineBreak(content) then decodeQP(content).GetOr(content) else content
  }

  /** The lines that survive the signature filter, in their original order. */
  function DropSignatureLines(lines: seq<string>): (kept: seq<string>)
    ensures forall l :: l in kept <==> l in lines && !Contains(l, SignatureLine)
    ensures |kept| <= |lines|
  {
    if lines == [] then []
    else
      var last := lines[|lines| - 1];
      var init := lines[..|lines| - 1];
      assert lines == init + [last];
      DropSignatureLines(init) + (if Contains(last, SignatureLine) then [] else [last])
  }

  /** Filtering distributes over concatenation: the lines kept from a
      block appear before the lines kept from any later block. */
  lemma {:induction false} DropSignatureLinesAppend(a: seq<string>, b: seq<string>)
    ensures DropSignatureLines(a + b) == DropSignatureLines(a) + DropSignatureLines(b)
    decreases |b|
  {
    if b != [] {
      var init := b[..|b| - 1];
      DropSignatureLinesAppend(a, init);
      assert (a + b)[..|a + b| - 1] == a + init;
    } else {
      assert a + b == a;
    }
  }

  function CleanedContent(content: string, decodeQP: string -> Option<string>): string {
    var lines := Split(AfterQuotedPrintable(content, decodeQP), Crlf);
    TrimRightSet(Join(DropSignatureLines(lines), Crlf), TrailingJunk)
  }

  /** cleanMessageContent. */
  method CleanMessageContent(content: string, decodeQP: string -> Option<string>) returns (r: string)
    ensures r == CleanedContent(content, decodeQP)
  {
    var text := content;
    if Contains(ToLower(content), "=\r\n") || Contains(ToLower(content), "=\n") {
      var decoded := decodeQP(content);
      if decoded.Some? {
        text := decoded.value;
      }
    }
    var lines := Split(text, Crlf);
    var cleanLines: seq<string> := [];
    assert text == AfterQuotedPrintable(content, decodeQP);
    for i := 0 to |lines|
      invariant cleanLines == DropSignatureLines(lines[..i])
    {
      DropSignatureLinesStep(lines, i);
      if Contains(lines[i], SignatureLine) {
        continue;
      }
      cleanLines := cleanLines + [lines[i]];
    }
    assert lines[..|lines|] == lines;
    r := TrimRightSet(Join(cleanLines, Crlf), TrailingJunk);
  }

  /** One step of the filter loop: line i is kept or dropped. */
  lemma DropSignatureLinesStep(lines: seq<string>, i: int)
    requires 0 <= i < |lines|
    ensures DropSignatureLines(lines[..i + 1]) ==
      DropSignatureLines(lines[..i]) + (if Contains(lines[i], SignatureLine) then [] else [lines[i]])
  {
    assert lines[..i + 1][..i] == lines[..i];
  }

  /** The cleaned content contains no "Sent from my iPhone" at all, so no
      CRLF-separated line of it does. */
  lemma SignatureHasNoLineBreak()
    ensures forall i, j :: 0 <= i < |Crlf| && 0 <= j < |SignatureLine| ==> Crlf[i] != SignatureLine[j]
  {
  }

  lemma CleanedHasNoSignature(content: string, decodeQP: string -> Option<string>)
    ensures !Contains(CleanedContent(content, decodeQP), SignatureLine)
  {
    var lines := Split(AfterQuotedPrintable(content, decodeQP), Crlf);
    var kept := DropSignatureLines(lines);
    var joined := Join(kept, Crlf);
    SignatureHasNoLineBreak();
    JoinAvoidsWord(kept, Crlf, SignatureLine);
    PrefixAvoidsWord(joined, |TrimRightSet(joined, TrailingJunk)|, SignatureLine);
  }

  /** The cleaned content is what the kept lines join to, minus only
      trailing '\r', '\n', ' ', '\t' and '='; it never ends in one of them. */
  lemma CleanedTrailer(content: string, decodeQP: string -> Option<string>)
    ensures var joined := Join(DropSignatureLines(Split(AfterQuotedPrintable(content, decodeQP), Crlf)), Crlf);
      var r := CleanedContent(content, decodeQP);
      && r == joined[..|r|]
      && (forall i :: |r| <= i < |joined| ==> joined[i] in TrailingJunk)
      && (r == [] || r[|r| - 1] !in TrailingJunk)
  {
  }

  /** Lower-casing does not create or destroy "=\r\n" or "=\n", so the
      decoder runs exactly when the raw content has a soft line break;
      without one, the decoder has no influence on the result. */
  lemma QuotedPrintableOnlyOnSoftBreaks(content: string, d1: string -> Option<string>, d2: string -> Option<string>)
    ensures HasSoftLineBreak(content) <==> Contains(content, "=\r\n") || Contains(content, "=\n")
    ensures !HasSoftLineBreak(content) ==> CleanedContent(content, d1) == CleanedContent(content, d2)
  {
    LowerKeepsMarker(content, "=\r\n");
    LowerKeepsMarker(content, "=\n");
  }

  lemma LowerKeepsMarker(s: string, marker: string)
    requires forall j :: 0 <= j < |marker| ==> marker[j] in {'=', '\r', '\n'}
    ensures Contains(ToLower(s), marker) <==> Contains(s, marker)
  {
    var low := ToLower(s);
    forall k | 0 <= k && k + |marker| <= |s|
      ensures OccursAt(low, marker, k) <==> OccursAt(s, marker, k)
    {
      if low[k..k + |marker|] == marker {
        forall j | 0 <= j < |marker| ensures s[k + j] == marker[j] {
          assert low[k + j] == marker[j];
        }
        assert s[k..k + |marker|] == marker;
      }
      if s[k..k + |marker|] == marker {
        forall j | 0 <= j < |marker| ensures low[k + j] == marker[j] {
          assert s[k + j] == marker[j];
        }
        assert low[k..k + |marker|] == marker;
      }
    }
    if Contains(low, marker) {
      var k :| OccursAt(low, marker, k);
      assert OccursAt(s, marker, k);
    }
    if Contains(s, marker) {
      var k :| OccursAt(s, marker, k);
      assert OccursAt(low, marker, k);
    }
  }

  // ---------------------------------------------------------------------
  // ExtractPlain

  /** One part of a multipart body: its Content-Type header ("" when the
      header is missing) and its body. */
  datatype Part = Part(contentType: string, body: string)

  /** What mime/multipart's reader yields for a body and a boundary: the
      parts it returns, and whether NextPart then fails with an error other
      than io.EOF. */
  datatype PartStream = PartStream(parts: seq<Part>, failed: bool)

  /** The error of the HTML-to-text converter. */
  datatype ConvertError = ConvertError(reason: string)

  predicate IsPlainPart(p: Part) {
    HasPrefix(p.contentType, "text/plain")
  }

  /** The body of the last part whose Content-Type starts with `kind`. */
  function LastBodyOf(parts: seq<Part>, kind: string): Option<string> {
    if parts == [] then None
    else if HasPrefix(parts[|parts| - 1].contentType, kind) then Some(parts[|parts| - 1].body)
    else LastBodyOf(parts[..|parts| - 1], kind)
  }

  lemma {:induction false} LastBodyOfIsLast(parts: seq<Part>, kind: string, i: int)
    requires 0 <= i < |parts| && HasPrefix(parts[i].contentType, kind)
    requires forall j :: i < j < |parts| ==> !HasPrefix(parts[j].contentType, kind)
    ensures LastBodyOf(parts, kind) == Some(parts[i].body)
    decreases |parts|
  {
    if i < |parts| - 1 {
      LastBodyOfIsLast(parts[..|parts| - 1], kind, i);
    }
  }

  lemma {:induction false} LastBodyOfNone(parts: seq<Part>, kind: string)
    requires forall j :: 0 <= j < |parts| ==> !HasPrefix(parts[j].contentType, kind)
    ensures LastBodyOf(parts, kind) == None
    decreases |parts|
  {
    if parts != [] {
      LastBodyOfNone(parts[..|parts| - 1], kind);
    }
  }

  /** The boundary named by the first line of a body: the line with white
      space trimmed and one leading "--" removed. */
  function BoundaryOf(firstLine: string): string {
    TrimPrefix(TrimSpace(firstLine), "--")
  }

  /** The reader's boundary, prefixed with "--", gives back the trimmed
      first line whenever the body starts with "--". */
  lemma BoundaryRestoresFirstLine(trimmed: string)
    requires IsTrimmed(trimmed) && HasPrefix(trimmed, "--")
    requires IndexOf(trimmed, "\n") >= 0
    ensures "--" + BoundaryOf(trimmed[..IndexOf(trimmed, "\n")]) == TrimSpace(trimmed[..IndexOf(trimmed, "\n")])
  {
    var nl := IndexOf(trimmed, "\n");
    var line := trimmed[..nl];
    assert !OccursAt(trimmed, "\n", 0) && !OccursAt(trimmed, "\n", 1);
    assert trimmed[0] == '-' && trimmed[1] == '-';
    assert nl >= 2;
    assert line[0] == '-' && line[1] == '-';
    TrimSpaceKeepsHead(line, 2);
    var t := TrimSpace(line);
    assert t[..2] == "--";
  }

  /** The value ExtractPlain returns for a body. */
  function PlainOf(data: string, reader: (string, string) -> PartStream,
                   htmlToText: string -> Result<string, ConvertError>): Result<string, ConvertError>
  {
    var trimmed := TrimSpace(data);
    if !HasPrefix(trimmed, "--") then Ok(trimmed)
    else
      var nl := IndexOf(trimmed, "\n");
      if nl < 0 then Ok(trimmed)
      else
        var stream := reader(trimmed, BoundaryOf(trimmed[..nl]));
        if stream.failed then Ok(trimmed)
        else
          var plain := LastBodyOf(stream.parts, "text/plain").GetOr("");
          var html := LastBodyOf(stream.parts, "text/html").GetOr("");
          if plain != "" then Ok(TrimSpace(plain))
          else if html != "" then
            match htmlToText(html)
            case Ok(txt) => Ok(TrimSpace(txt))
            case Err(e) => Err(e)
          else Ok("")
  }

  /** ExtractPlain: the loop asks the reader for one part after another and
      keeps the last text/plain and the last text/html body seen. */
  method ExtractPlain(data: string, reader: (string, string) -> PartStream,
                      htmlToText: string -> Result<string, ConvertError>)
    returns (r: Result<string, ConvertError>)
    ensures r == PlainOf(data, reader, htmlToText)
  {
    var trimmed := TrimSpace(data);
    if !HasPrefix(trimmed, "--") {
      return Ok(trimmed);
    }
    var nl := IndexOf(trimmed, "\n");
    if nl == -1 {
      return Ok(trimmed);
    }
    var boundary := TrimPrefix(TrimSpace(trimmed[..nl]), "--");
    var stream := reader(trimmed, boundary);
    var plain, html := "", "";
    var i := 0;
    while true
      invariant 0 <= i <= |stream.parts|
      invariant plain == LastBodyOf(stream.parts[..i], "text/plain").GetOr("")
      invariant html == LastBodyOf(stream.parts[..i], "text/html").GetOr("")
      decreases |stream.parts| - i
    {
      if i == |stream.parts| {
        if stream.failed {
          return Ok(trimmed);
        }
        break;
      }
      var p := stream.parts[i];
      assert stream.parts[..i + 1][..i] == stream.parts[..i];
      if HasPrefix(p.contentType, "text/plain") {
        assert !HasPrefix(p.contentType, "text/html") by {
          assert p.contentType[5] == 'p';
        }
        plain := p.body;
      } else if HasPrefix(p.contentType, "text/html") {
        html := p.body;
      }
      i := i + 1;
    }
    assert stream.parts[..i] == stream.parts;
    if plain != "" {
      return Ok(TrimSpace(plain));
    }
    if html != "" {
      var converted := htmlToText(html);
      if converted.Err? {
        return Err(converted.error);
      }
      return Ok(TrimSpace(converted.value));
    }
    return Ok("");
  }

  /** A body that does not start with "--" once trimmed, or that is a
      single line, is returned trimmed and without error. */
  lemma PlainOfNonMultipart(data: string, reader: (string, string) -> PartStream,
                            htmlToText: string -> Result<string, ConvertError>)
    requires !HasPrefix(TrimSpace(data), "--") || !Contains(TrimSpace(data), "\n")
    ensures PlainOf(data, reader, htmlToText) == Ok(TrimSpace(data))
  {
  }

  /** When the reader yields parts without error and part i is the last
      text/plain part with a non-empty body, the result is that body,
      trimmed, whatever html parts there are. */
  lemma PlainOfPrefersLastPlainPart(data: string, reader: (string, string) -> PartStream,
                                    htmlToText: string -> Result<string, ConvertError>, i: int)
    requires HasPrefix(TrimSpace(data), "--") && IndexOf(TrimSpace(data), "\n") >= 0
    requires var t := TrimSpace(data);
      var stream := reader(t, BoundaryOf(t[..IndexOf(t, "\n")]));
      && !stream.failed
      && 0 <= i < |stream.parts| && IsPlainPart(stream.parts[i]) && stream.parts[i].body != ""
      && forall j :: i < j < |stream.parts| ==> !IsPlainPart(stream.parts[j])
    ensures var t := TrimSpace(data);
      var stream := reader(t, BoundaryOf(t[..IndexOf(t, "\n")]));
      PlainOf(data, reader, htmlToText) == Ok(TrimSpace(stream.parts[i].body))
  {
    var t := TrimSpace(data);
    var stream := reader(t, BoundaryOf(t[..IndexOf(t, "\n")]));
    LastBodyOfIsLast(stream.parts, "text/plain", i);
  }

  /** With no text/plain part, the last text/html part (when non-empty) is
      converted; with neither, the result is "". */
  lemma PlainOfWithoutPlainPart(data: string, reader: (string, string) -> PartStream,
                                htmlToText: string -> Result<string, ConvertError>)
    requires HasPrefix(TrimSpace(data), "--") && IndexOf(TrimSpace(data), "\n") >= 0
    requires var t := TrimSpace(data);
      var stream := reader(t, BoundaryOf(t[..IndexOf(t, "\n")]));
      && !stream.failed
      && forall j :: 0 <= j < |stream.parts| ==> !IsPlainPart(stream.parts[j])
    ensures var t := TrimSpace(data);
      var stream := reader(t, BoundaryOf(t[..IndexOf(t, "\n")]));
      var html := LastBodyOf(stream.parts, "text/html").GetOr("");
      PlainOf(data, reader, htmlToText) ==
        if html == "" then Ok("")
        else match htmlToText(html)
          case Ok(txt) => Ok(TrimSpace(txt))
          case Err(e) => Err(e)
  {
    var t := TrimSpace(data);
    var stream := reader(t, BoundaryOf(t[..IndexOf(t, "\n")]));
    LastBodyOfNone(stream.parts, "text/plain");
  }

  /** A reader error after the first part makes ExtractPlain fall back to
      the trimmed body, never to an error. */
  lemma PlainOfReaderFailure(data: string, reader: (string, string) -> PartStream,
                             htmlToText: string -> Result<string, ConvertError>)
    requires HasPrefix(TrimSpace(data), "--") && IndexOf(TrimSpace(data), "\n") >= 0
    requires var t := TrimSpace(data); reader(t, BoundaryOf(t[..IndexOf(t, "\n")])).failed
    ensures PlainOf(data, reader, htmlToText) == Ok(TrimSpace(data))
  {
  }

  /** The only error ExtractPlain reports is the converter's. */
  lemma PlainOfErrors(data: string, reader: (string, string) -> PartStream,
                      htmlToText: string -> Result<string, ConvertError>)
    ensures PlainOf(data, reader, htmlToText).Err? ==>
      exists html :: html != "" && htmlToText(html) == Err(PlainOf(data, reader, htmlToText).error)
  {
  }
}
