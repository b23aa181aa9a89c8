/** internal/api/handler.go: the token check of AuthMiddleware and the part
    of HandleEventReceive that turns an incoming message into the event to
    store (tags from the subject, the body to process, and the text kept
    from it). JSON binding, logging and the database call are left out. */
module Api {
  import opened Text
  import opened Results
  import Utils

  // ---------------------------------------------------------------------
  // AuthMiddleware

  datatype AuthOutcome = NoToken | InvalidToken | Authorized

  const BearerPrefix: string := "Bearer "

  /** The token the request presents: the Authorization header, with
      "Bearer " removed only when the header is longer than that prefix. */
  function PresentedToken(header: string): (token: string)
    ensures HasPrefix(header, BearerPrefix) && |header| > 7 ==> BearerPrefix + token == header
    ensures !(HasPrefix(header, BearerPrefix) && |header| > 7) ==> token == header
  {
    if |header| > 7 && header[..7] == BearerPrefix then header[7..] else header
  }

  /** AuthMiddleware's decision for one request. */
  function CheckAuthorization(header: string, validToken: string): (r: AuthOutcome)
    ensures r == NoToken <==> header == ""
    ensures r == Authorized <==> header != "" && PresentedToken(header) == validToken
  {
    if header == "" then NoToken
    else if PresentedToken(header) != validToken then InvalidToken
    else Authorized
  }

  /** "Bearer <token>" is accepted for every non-empty configured token. */
  lemma BearerHeaderAccepted(validToken: string)
    requires validToken != ""
    ensures CheckAuthorization(BearerPrefix + validToken, validToken) == Authorized
  {
    var h := BearerPrefix + validToken;
    assert h[..7] == BearerPrefix && h[7..] == validToken;
  }

  /** The bare token is accepted exactly when it is non-empty and does not
      itself look like a longer "Bearer " header. */
  lemma RawTokenAccepted(validToken: string)
    ensures CheckAuthorization(validToken, validToken) == Authorized <==>
      validToken != "" && !(|validToken| > 7 && HasPrefix(validToken, BearerPrefix))
  {
    if |validToken| > 7 && HasPrefix(validToken, BearerPrefix) {
      assert |validToken[7..]| < |validToken|;
    }
  }

  /** With an empty configured token no request passes: "" is refused
      outright, and a stripped "Bearer " header leaves a non-empty token. */
  lemma EmptyConfiguredTokenRejectsAll(header: string)
    ensures CheckAuthorization(header, "") != Authorized
  {
  }

  // ---------------------------------------------------------------------
  // Tags from the subject line

  const DefaultTag: string := "untagged"

  /** The tags HandleEventReceive stores: the lower-cased fields of the
      subject, or ["untagged"] when the subject has none. */
  function SubjectTags(subject: string): (tags: seq<string>)
    ensures |tags| >= 1
    ensures forall i :: 0 <= i < |tags| ==> IsField(tags[i]) && IsLower(tags[i])
    ensures |tags| == 1 && tags[0] == DefaultTag <== AllSpace(subject)
  {
    if AllSpace(subject) then
      ToLowerOfLower(DefaultTag);
      [DefaultTag]
    else
      LowerFieldsAreFields(Fields(subject));
      LowerAll(Fields(subject))
  }

  /** Lines 127-134 of the handler: split into fields, fall back to
      ["untagged"], then lower-case the slice in place. */
  method ExtractTags(subject: string) returns (tags: seq<string>)
    ensures tags == SubjectTags(subject)
  {
    var fields := Fields(subject);
    if |fields| == 0 {
      fields := [DefaultTag];
      ToLowerOfLower(DefaultTag);
      assert LowerAll(fields) == [DefaultTag];
    }
    assert LowerAll(fields) == SubjectTags(subject);
    var a := new string[|fields|](i requires 0 <= i < |fields| => fields[i]);
    assert a[..] == fields;
    LowerEach(a);
    tags := a[..];
  }

  // ---------------------------------------------------------------------
  // Choosing the body to process

  /** The `body` field, unless it is empty and `plain_body` is not. */
  function SelectBody(data: string, plainBody: string): (content: string)
    ensures content == plainBody <== data == "" && plainBody != ""
    ensures content == data <== !(data == "" && plainBody != "")
    ensures content == "" <==> data == "" && plainBody == ""
  {
    if data == "" && plainBody != "" then plainBody else data
  }

  // ---------------------------------------------------------------------
  // extractSimpleContent

  predicate IsBlank(line: string) {
    TrimSpace(line) == ""
  }

  predicate IsBoundary(line: string) {
    HasPrefix(TrimSpace(line), "--")
  }

  /** The lines extractSimpleContent collects from `lines` when it starts
      in the given state of its `inContent` flag. */
  function CollectContent(lines: seq<string>, inContent: bool): seq<string> {
    if lines == [] then []
    else if IsBlank(lines[0]) && !inContent then CollectContent(lines[1..], true)
    else if inContent && IsBoundary(lines[0]) then []
    else if inContent then [lines[0]] + CollectContent(lines[1..], true)
    else CollectContent(lines[1..], false)
  }

  function SimpleContent(content: string): string {
    var collected := CollectContent(Split(content, "\n"), false);
    if |collected| > 0 then TrimSpace(Join(collected, "\n")) else ""
  }

  /** extractSimpleContent: skip header lines up to the first blank one,
      then collect lines up to the first "--" boundary line. */
  method ExtractSimpleContent(content: string) returns (r: string)
    ensures r == SimpleContent(content)
    ensures IsTrimmed(r)
  {
    var lines := Split(content, "\n");
    var inContent := false;
    var contentLines: seq<string> := [];
    var i := 0;
    while i < |lines|
      invariant 0 <= i <= |lines|
      invariant CollectContent(lines, false) == contentLines + CollectContent(lines[i..], inContent)
    {
      var line := lines[i];
      assert lines[i..][1..] == lines[i + 1..];
      var trimmedLine := TrimSpace(line);
      if trimmedLine == "" && !inContent {
        inContent := true;
        i := i + 1;
        continue;
      }
      if inContent && HasPrefix(trimmedLine, "--") {
        assert CollectContent(lines[i..], inContent) == [];
        break;
      }
      if inContent {
        contentLines := contentLines + [line];
      }
      i := i + 1;
    }
    assert CollectContent(lines, false) == contentLines;
    if |contentLines| > 0 {
      return TrimSpace(Join(contentLines, "\n"));
    }
    return "";
  }

  /** Without a blank line nothing is collected. */
  lemma {:induction false} CollectWithoutBlank(lines: seq<string>)
    requires forall i :: 0 <= i < |lines| ==> !IsBlank(lines[i])
    ensures CollectContent(lines, false) == []
  {
    if lines != [] {
      CollectWithoutBlank(lines[1..]);
    }
  }

  /** Inside the content, lines are collected up to (not including) the
      first boundary line. */
  lemma {:induction false} CollectUpToBoundary(lines: seq<string>, j: int)
    requires 0 <= j <= |lines|
    requires forall i :: 0 <= i < j ==> !IsBoundary(lines[i])
    requires j == |lines| || IsBoundary(lines[j])
    ensures CollectContent(lines, true) == lines[..j]
  {
    if j > 0 {
      CollectUpToBoundary(lines[1..], j - 1);
      assert lines[..j] == [lines[0]] + lines[1..][..j - 1];
    }
  }

  /** Header lines before the first blank line are skipped, and that blank
      line itself is consumed. */
  lemma {:induction false} CollectSkipsHeaders(lines: seq<string>, k: int)
    requires 0 <= k < |lines| && IsBlank(lines[k])
    requires forall i :: 0 <= i < k ==> !IsBlank(lines[i])
    ensures CollectContent(lines, false) == CollectContent(lines[k + 1..], true)
  {
    if k > 0 {
      CollectSkipsHeaders(lines[1..], k - 1);
      assert lines[1..][k..] == lines[k + 1..];
    }
  }

  /** extractSimpleContent returns "" when no line is blank. */
  lemma SimpleContentWithoutBlankLine(content: string)
    requires forall i :: 0 <= i < |Split(content, "\n")| ==> !IsBlank(Split(content, "\n")[i])
    ensures SimpleContent(content) == ""
  {
    CollectWithoutBlank(Split(content, "\n"));
  }

  /** With k the first blank line and j the first boundary line after it,
      the result is the trimmed join of lines k+1 .. j-1: the separator
      line is dropped, later blank lines are kept, nothing from the
      boundary on contributes. */
  lemma SimpleContentWindow(content: string, k: int, j: int)
    requires var lines := Split(content, "\n");
      && 0 <= k < j <= |lines| && IsBlank(lines[k])
      && (forall i :: 0 <= i < k ==> !IsBlank(lines[i]))
      && (forall i :: k < i < j ==> !IsBoundary(lines[i]))
      && (j == |lines| || IsBoundary(lines[j]))
    ensures SimpleContent(content) == TrimSpace(Join(Split(content, "\n")[k + 1..j], "\n"))
  {
    var lines := Split(content, "\n");
    CollectWindow(lines, k, j);
    if j == k + 1 {
      assert Join(lines[k + 1..j], "\n") == "";
    }
  }

  /** The collected lines are those strictly between the first blank line
      and the next boundary line. */
  lemma CollectWindow(lines: seq<string>, k: int, j: int)
    requires 0 <= k < j <= |lines| && IsBlank(lines[k])
    requires forall i :: 0 <= i < k ==> !IsBlank(lines[i])
    requires forall i :: k < i < j ==> !IsBoundary(lines[i])
    requires j == |lines| || IsBoundary(lines[j])
    ensures CollectContent(lines, false) == lines[k + 1..j]
  {
    CollectSkipsHeaders(lines, k);
    CollectUpToBoundary(lines[k + 1..], j - k - 1);
    assert lines[k + 1..][..j - k - 1] == lines[k + 1..j];
  }

  /** What is collected is always one contiguous run of lines. */
  lemma {:induction false} CollectIsRun(lines: seq<string>, inContent: bool)
    ensures exists a, b :: (0 <= a <= b <= |lines| && CollectContent(lines, inContent) == lines[a..b]
                            && (inContent ==> a == 0))
  {
    if lines == [] {
      assert CollectContent(lines, inContent) == lines[0..0];
    } else if IsBlank(lines[0]) && !inContent {
      CollectIsRun(lines[1..], true);
      var a, b :| 0 <= a <= b <= |lines[1..]| && CollectContent(lines[1..], true) == lines[1..][a..b];
      assert lines[1..][a..b] == lines[a + 1..b + 1];
    } else if inContent && IsBoundary(lines[0]) {
      assert CollectContent(lines, inContent) == lines[0..0];
    } else if inContent {
      CollectIsRun(lines[1..], true);
      var a, b :| 0 <= a <= b <= |lines[1..]| && CollectContent(lines[1..], true) == lines[1..][a..b] && a == 0;
      assert [lines[0]] + lines[1..][..b] == lines[0..b + 1];
    } else {
      CollectIsRun(lines[1..], false);
      var a, b :| 0 <= a <= b <= |lines[1..]| && CollectContent(lines[1..], false) == lines[1..][a..b];
      assert lines[1..][a..b] == lines[a + 1..b + 1];
    }
  }

  /** The result has no white space at its ends and is a substring of the
      incoming content. */
  lemma SimpleContentIsTrimmedSubstring(content: string)
    ensures IsTrimmed(SimpleContent(content))
    ensures IsSubstring(SimpleContent(content), content)
  {
    var lines := Split(content, "\n");
    var collected := CollectContent(lines, false);
    if |collected| > 0 {
      CollectIsRun(lines, false);
      var a, b :| 0 <= a <= b <= |lines| && collected == lines[a..b];
      var joined := Join(collected, "\n");
      JoinSliceIsSubstring(lines, "\n", a, b);
      JoinSplit(content, "\n");
      TrimSpaceIsSubstring(joined);
      SubstringTransitive(TrimSpace(joined), joined, content);
    } else {
      assert OccursAt(content, "", 0);
    }
  }

  // ---------------------------------------------------------------------
  // HandleEventReceive

  /** The event handed to the database: tags, data and source. */
  datatype EventRequest = EventRequest(tags: seq<string>, data: string, source: string)

  /** The text stored for a body: the simple extraction when it yields
      something, else ExtractPlain's result, else the body itself. */
  function StoredData(content: string, reader: (string, string) -> Utils.PartStream,
                      htmlToText: string -> Result<string, Utils.ConvertError>): string
  {
    var simple := SimpleContent(content);
    if simple != "" then simple
    else
      match Utils.PlainOf(content, reader, htmlToText)
      case Ok(p) => p
      case Err(_) => content
  }

  /** Lines 126-189 of HandleEventReceive for a request that bound. */
  method ReceiveEvent(subject: string, body: string, plainBody: string, source: string,
                      reader: (string, string) -> Utils.PartStream,
                      htmlToText: string -> Result<string, Utils.ConvertError>)
    returns (event: EventRequest)
    ensures event.tags == SubjectTags(subject) && |event.tags| >= 1
    ensures event.data == StoredData(SelectBody(body, plainBody), reader, htmlToText)
    ensures event.source == source
  {
    var tags := ExtractTags(subject);
    var contentToProcess := SelectBody(body, plainBody);
    var actualContent := ExtractSimpleContent(contentToProcess);
    if actualContent != "" {
      return EventRequest(tags, actualContent, source);
    }
    var plainData := Utils.ExtractPlain(contentToProcess, reader, htmlToText);
    var dataToStore := if plainData.Ok? then plainData.value else contentToProcess;
    return EventRequest(tags, dataToStore, source);
  }

  /** A body with a header block and a non-empty content block is stored
      as that block, whatever the multipart reader would say. */
  lemma StoredDataPrefersSimpleContent(content: string, r1: (string, string) -> Utils.PartStream,
                                       r2: (string, string) -> Utils.PartStream,
                                       h1: string -> Result<string, Utils.ConvertError>,
                                       h2: string -> Result<string, Utils.ConvertError>)
    requires SimpleContent(content) != ""
    ensures StoredData(content, r1, h1) == StoredData(content, r2, h2) == SimpleContent(content)
  {
  }

  /** A body without any blank line is never taken by the simple extraction:
      a plain, single-paragraph body is stored trimmed. */
  lemma StoredDataOfPlainBody(content: string, reader: (string, string) -> Utils.PartStream,
                              htmlToText: string -> Result<string, Utils.ConvertError>)
    requires forall i :: 0 <= i < |Split(content, "\n")| ==> !IsBlank(Split(content, "\n")[i])
    requires !HasPrefix(TrimSpace(content), "--")
    ensures StoredData(content, reader, htmlToText) == TrimSpace(content)
  {
    SimpleContentWithoutBlankLine(content);
    Utils.PlainOfNonMultipart(content, reader, htmlToText);
  }
}
