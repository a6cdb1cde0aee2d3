/** A reader for the serialiser's line framing, used as its independent
    partner: it splits a message into its start line, its header lines and
    its optional body, and splits a start line into its fields.  Like the
    serialiser, and unlike section 7 of RFC 3261, it treats the blank line
    as the opening of a body, so a message without one may end right after
    its last header line.  Reading what the serialiser wrote gives back what it
    was given, as long as every field it wrote as one line is one line. */
module Framing {
  import opened Text
  import opened Decimal
  import opened Messages

  /** A message cut along its line structure. */
  datatype Framed = Framed(startLine: string, headerLines: seq<string>, body: Option<string>)

  datatype RequestLineFields = RequestLineFields(sipMethod: string, uri: string, version: string)

  datatype StatusLineFields = StatusLineFields(version: string, code: nat, reason: string)

  /** Reads CRLF-terminated header lines up to the end of the text (no body)
      or up to an empty line (the rest of the text is the body). A final
      line without its terminator is malformed. */
  function ReadHeaderLines(rest: string): Option<(seq<string>, Option<string>)>
    decreases |rest|
  {
    if |rest| == 0 then Some(([], None))
    else if CrlfAt(rest, 0) then Some(([], Some(rest[2..])))
    else
      match FindCrlf(rest, 0)
      case None => None
      case Some(k) =>
        match ReadHeaderLines(rest[k + 2..])
        case None => None
        case Some(tail) => Some(([rest[..k]] + tail.0, tail.1))
  }

  /** Reads the start line, then the header lines and the body. */
  function SplitMessage(text: string): Option<Framed> {
    match FindCrlf(text, 0)
    case None => None
    case Some(k) =>
      match ReadHeaderLines(text[k + 2..])
      case None => None
      case Some(tail) => Some(Framed(text[..k], tail.0, tail.1))
  }

  /** Splits a Request-Line at its first and its last space: the method and
      the version contain no space, the URI in between is taken whole. */
  function ParseRequestLine(line: string): Option<RequestLineFields> {
    match FindChar(line, SP, 0)
    case None => None
    case Some(i) =>
      match FindLastChar(line, SP)
      case None => None
      case Some(j) =>
        if j <= i then None
        else Some(RequestLineFields(line[..i], line[i + 1..j], line[j + 1..]))
  }

  /** Splits a Status-Line at its first two spaces; the code must be digits
      as `%d` prints them, the reason phrase is the rest of the line. */
  function ParseStatusLine(line: string): Option<StatusLineFields> {
    match FindChar(line, SP, 0)
    case None => None
    case Some(i) =>
      match FindChar(line, SP, i + 1)
      case None => None
      case Some(j) =>
        var code := line[i + 1..j];
        if Canonical(code) then Some(StatusLineFields(line[..i], Parse(code), line[j + 1..]))
        else None
  }

  /** Reading a rendered header section and body gives back the headers'
      renderings, in order, and the body, when each header renders as one
      non-empty line. */
  lemma ReadHeaderSection<H>(hs: seq<H>, body: Option<string>, headerStr: H -> string)
    requires forall i :: 0 <= i < |hs| ==> OneLine(headerStr(hs[i]))
    ensures ReadHeaderLines(Suffix(hs, body, headerStr)) == Some((RenderedHeaders(hs, headerStr), body))
  {
    SectionLines(hs, headerStr);
    ReadLines(RenderedHeaders(hs, headerStr), body);
  }

  /** Reading terminated single lines and a body part gives back the lines,
      in order, and the body. */
  lemma {:induction false} ReadLines(ls: seq<string>, body: Option<string>)
    requires forall i :: 0 <= i < |ls| ==> OneLine(ls[i])
    ensures ReadHeaderLines(Lines(ls) + BodyPart(body)) == Some((ls, body))
  {
    if |ls| == 0 {
      ReadBodyOnly(body);
    } else {
      ReadLines(ls[1..], body);
      ReadLinesStep(ls, body);
    }
  }

  /** The inductive step of `ReadLines`: the first line is read, then the
      rest as before. */
  lemma ReadLinesStep(ls: seq<string>, body: Option<string>)
    requires |ls| > 0 && OneLine(ls[0])
    requires ReadHeaderLines(Lines(ls[1..]) + BodyPart(body)) == Some((ls[1..], body))
    ensures ReadHeaderLines(Lines(ls) + BodyPart(body)) == Some((ls, body))
  {
    LinesCons(ls, body);
    ReadOneLine(ls[0], Lines(ls[1..]) + BodyPart(body), ls[1..], body);
    assert [ls[0]] + ls[1..] == ls;
  }

  lemma LinesCons(ls: seq<string>, body: Option<string>)
    requires |ls| > 0
    ensures Lines(ls) + BodyPart(body) == ls[0] + CRLF + (Lines(ls[1..]) + BodyPart(body))
  {
  }

  /** With no header lines, only the body part is left to read. */
  lemma ReadBodyOnly(body: Option<string>)
    ensures ReadHeaderLines(Lines([]) + BodyPart(body)) == Some(([], body))
  {
    var text := Lines([]) + BodyPart(body);
    assert text == BodyPart(body);
    match body {
      case None =>
      case Some(b) =>
        assert CrlfAt(text, 0) && text[2..] == b;
    }
  }

  /** A single line followed by its terminator is read as one header line,
      and reading continues after the terminator. */
  lemma ReadOneLine(h: string, more: string, lines: seq<string>, body: Option<string>)
    requires OneLine(h)
    requires ReadHeaderLines(more) == Some((lines, body))
    ensures ReadHeaderLines(h + CRLF + more) == Some(([h] + lines, body))
  {
    var text := h + CRLF + more;
    assert !CrlfAt(text, 0) by {
      if |h| >= 2 {
        assert !CrlfAt(h, 0);
      } else {
        assert text[1] == '\r';
      }
    }
    FirstCrlfEndsLine(h, more);
    assert text[..|h|] == h;
    assert text[|h| + 2..] == more;
  }

  /** Round trip of the whole frame: splitting a rendered message gives its
      start line, its headers' renderings in order, and its body exactly,
      absent or present (an empty body is still told apart from none),
      provided the start line and each header render as single lines. */
  lemma SplitRender<U, H>(m: Message<U, H>, uriStr: U -> string, headerStr: H -> string)
    requires NoCrlf(StartLineText(m, uriStr))
    requires forall i :: 0 <= i < |m.headers| ==> OneLine(headerStr(m.headers[i]))
    ensures SplitMessage(Render(m, uriStr, headerStr))
            == Some(Framed(StartLineText(m, uriStr), RenderedHeaders(m.headers, headerStr), m.body))
  {
    var t := StartLineText(m, uriStr);
    var more := Suffix(m.headers, m.body, headerStr);
    var text := Render(m, uriStr, headerStr);
    assert text == t + CRLF + more;
    FirstCrlfEndsLine(t, more);
    assert text[..|t|] == t;
    assert text[|t| + 2..] == more;
    ReadHeaderSection(m.headers, m.body, headerStr);
  }

  /** The serialiser loses nothing a reader needs: two messages whose start
      lines and headers render as single lines and whose wire forms are
      equal have equal start lines, equal header renderings in the same
      order, and equal bodies. */
  lemma RenderInjective<U, H>(m1: Message<U, H>, m2: Message<U, H>, uriStr: U -> string, headerStr: H -> string)
    requires NoCrlf(StartLineText(m1, uriStr)) && NoCrlf(StartLineText(m2, uriStr))
    requires forall i :: 0 <= i < |m1.headers| ==> OneLine(headerStr(m1.headers[i]))
    requires forall i :: 0 <= i < |m2.headers| ==> OneLine(headerStr(m2.headers[i]))
    requires Render(m1, uriStr, headerStr) == Render(m2, uriStr, headerStr)
    ensures StartLineText(m1, uriStr) == StartLineText(m2, uriStr)
    ensures RenderedHeaders(m1.headers, headerStr) == RenderedHeaders(m2.headers, headerStr)
    ensures m1.body == m2.body
  {
    SplitRender(m1, uriStr, headerStr);
    SplitRender(m2, uriStr, headerStr);
  }

  /** Reading back a Request-Line recovers the method, the URI's rendering
      and the version, when the method and version contain no space. */
  lemma ParseRequestLineText(sipMethod: Method, uri: string, version: string)
    requires SP !in sipMethod && SP !in version
    ensures ParseRequestLine(RequestLineText(sipMethod, uri, version))
            == Some(RequestLineFields(sipMethod, uri, version))
  {
    var line := RequestLineText(sipMethod, uri, version);
    var j := |sipMethod| + 1 + |uri|;
    assert line[|sipMethod|] == SP;
    assert line[j] == SP;
    assert forall k :: 0 <= k < |sipMethod| ==> line[k] == sipMethod[k];
    assert forall k :: j < k < |line| ==> line[k] == version[k - j - 1];
    assert line[..|sipMethod|] == sipMethod;
    assert line[|sipMethod| + 1..j] == uri;
    assert line[j + 1..] == version;
  }

  /** Reading back a Status-Line recovers the version, the status code and
      the reason phrase, when the version contains no space. */
  lemma ParseStatusLineText(version: string, code: uint8, reason: string)
    requires SP !in version
    ensures ParseStatusLine(StatusLineText(version, code, reason))
            == Some(StatusLineFields(version, code, reason))
  {
    var line := StatusLineText(version, code, reason);
    var d := Digits(code);
    var i := |version|;
    var j := i + 1 + |d|;
    assert line[i] == SP && line[j] == SP;
    assert forall k :: 0 <= k < i ==> line[k] == version[k];
    assert forall k :: i < k < j ==> line[k] == d[k - i - 1];
    assert forall k :: i < k < j ==> line[k] != SP;
    assert line[..i] == version;
    assert line[i + 1..j] == d;
    assert line[j + 1..] == reason;
    ParseDigits(code);
  }

  /** A rendered Request read back: its frame splits, and its Request-Line
      yields the method, the URI's rendering and the version, when these
      fields hold no line terminator, the method and version no space,
      and each header renders as one line. */
  lemma ReadRequest<U, H>(m: Message<U, H>, uriStr: U -> string, headerStr: H -> string)
    requires m.Request?
    requires SP !in m.sipMethod && SP !in m.sipVersion
    requires NoCrlf(m.sipMethod) && NoCrlf(uriStr(m.uri)) && NoCrlf(m.sipVersion)
    requires forall i :: 0 <= i < |m.headers| ==> OneLine(headerStr(m.headers[i]))
    ensures var f := SplitMessage(Render(m, uriStr, headerStr));
            && f.Some?
            && ParseRequestLine(f.value.startLine)
               == Some(RequestLineFields(m.sipMethod, uriStr(m.uri), m.sipVersion))
            && f.value.headerLines == RenderedHeaders(m.headers, headerStr)
            && f.value.body == m.body
  {
    NoCrlfJoin(m.sipMethod, uriStr(m.uri));
    NoCrlfJoin(m.sipMethod + [SP] + uriStr(m.uri), m.sipVersion);
    SplitRender(m, uriStr, headerStr);
    ParseRequestLineText(m.sipMethod, uriStr(m.uri), m.sipVersion);
  }

  /** A rendered Response read back: its frame splits, and its Status-Line
      yields the version, the status code and the reason phrase, when the
      version and reason hold no line terminator, the version no space,
      and each header renders as one line. */
  lemma ReadResponse<U, H>(m: Message<U, H>, uriStr: U -> string, headerStr: H -> string)
    requires m.Response?
    requires SP !in m.sipVersion
    requires NoCrlf(m.sipVersion) && NoCrlf(m.reason)
    requires forall i :: 0 <= i < |m.headers| ==> OneLine(headerStr(m.headers[i]))
    ensures var f := SplitMessage(Render(m, uriStr, headerStr));
            && f.Some?
            && ParseStatusLine(f.value.startLine)
               == Some(StatusLineFields(m.sipVersion, m.statusCode, m.reason))
            && f.value.headerLines == RenderedHeaders(m.headers, headerStr)
            && f.value.body == m.body
  {
    var d := Digits(m.statusCode);
    assert NoCrlf(d) by {
      forall k | 0 <= k < |d|
        ensures !CrlfAt(d, k)
      {
        assert IsDigit(d[k]);
      }
    }
    NoCrlfJoin(m.sipVersion, d);
    NoCrlfJoin(m.sipVersion + [SP] + d, m.reason);
    SplitRender(m, uriStr, headerStr);
    ParseStatusLineText(m.sipVersion, m.statusCode, m.reason);
  }
}
