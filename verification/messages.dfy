/** The SIP message model and its serialiser (messages.go).

    A message is a Request or a Response; both carry an ordered sequence of
    headers and an optional body, and both render as a start line, one
    CRLF-terminated line per header, and, when a body is present, a blank
    line followed by the body verbatim.  Section 7 of RFC 3261 asks for the
    blank line even without a body; the serialiser, and so this model,
    writes it only before a body.

    The URI and header types are not defined alongside the messages; the
    serialiser only calls their `String` methods.  They are therefore type
    parameters `U` and `H`, and their renderings are the function
    parameters `uriStr` and `headerStr`: every property below holds for
    every deterministic rendering of URIs and headers. */
module Messages {
  import opened Text
  import opened Decimal

  /** Request method: an open string type; the six constants are names for
      common values, not a closed set. */
  type Method = string

  const INVITE: Method := "INVITE"
  const ACK: Method := "ACK"
  const CANCEL: Method := "CANCEL"
  const BYE: Method := "BYE"
  const REGISTER: Method := "REGISTER"
  const OPTIONS: Method := "OPTIONS"

  /** Go's `uint8`, the type of a response's status code. */
  type uint8 = n: int | 0 <= n < 0x100

  datatype Message<U, H> =
    | Request(sipMethod: Method, uri: U, sipVersion: string, headers: seq<H>, body: Option<string>)
    | Response(sipVersion: string, statusCode: uint8, reason: string, headers: seq<H>, body: Option<string>)

  /** Request-Line without its terminator: Method SP Request-URI SP SIP-Version
      (section 7.1 of RFC 3261). */
  function RequestLineText(sipMethod: Method, uri: string, version: string): string {
    sipMethod + [SP] + uri + [SP] + version
  }

  /** Status-Line without its terminator: SIP-Version SP Status-Code SP
      Reason-Phrase (section 7.2 of RFC 3261), the code printed by `%d`. */
  function StatusLineText(version: string, code: uint8, reason: string): string {
    version + [SP] + Digits(code) + [SP] + reason
  }

  function StartLineText<U, H>(m: Message<U, H>, uriStr: U -> string): string {
    match m
    case Request(sipMethod, uri, version, _, _) => RequestLineText(sipMethod, uriStr(uri), version)
    case Response(version, code, reason, _, _) => StatusLineText(version, code, reason)
  }

  /** The start line as written to the buffer, terminator included. */
  function StartLine<U, H>(m: Message<U, H>, uriStr: U -> string): string {
    StartLineText(m, uriStr) + CRLF
  }

  /** Each header's rendering followed by CRLF, in order.  Defined from the
      last header backwards so that it matches the serialiser's loop, which
      appends one header at a time. */
  function HeaderSection<H>(hs: seq<H>, headerStr: H -> string): string {
    if |hs| == 0 then ""
    else HeaderSection(hs[..|hs| - 1], headerStr) + headerStr(hs[|hs| - 1]) + CRLF
  }

  /** A non-empty header section ends with its last line's terminator; a
      convenience weakening of `LastHeaderEndsSection` for callers that only
      need the terminator. */
  lemma SectionEndsWithCrlf<H>(hs: seq<H>, headerStr: H -> string)
    requires |hs| > 0
    ensures EndsWith(HeaderSection(hs, headerStr), CRLF)
  {
  }

  /** What follows the header section: nothing, or a blank line and the body. */
  function BodyPart(body: Option<string>): string {
    match body
    case None => ""
    case Some(b) => CRLF + b
  }

  /** Everything after the start line; the same for both message variants. */
  function Suffix<H>(hs: seq<H>, body: Option<string>, headerStr: H -> string): string {
    HeaderSection(hs, headerStr) + BodyPart(body)
  }

  /** The wire form of a message: `(*Request).String` and `(*Response).String`. */
  function Render<U, H>(m: Message<U, H>, uriStr: U -> string, headerStr: H -> string): string {
    StartLine(m, uriStr) + Suffix(m.headers, m.body, headerStr)
  }

  /** The frame of a rendered message: it opens with the start line; without
      a body it ends with a line terminator (stated on its own for
      convenience; it follows from the next two clauses: the start line's
      when there are no headers, otherwise the last header's); with a body
      it ends with a blank line followed by the body verbatim, nothing after
      it. */
  lemma RenderFraming<U, H>(m: Message<U, H>, uriStr: U -> string, headerStr: H -> string)
    ensures StartsWith(Render(m, uriStr, headerStr), StartLine(m, uriStr))
    ensures m.body.None? ==> EndsWith(Render(m, uriStr, headerStr), CRLF)
    ensures m.body.None? && |m.headers| == 0 ==> Render(m, uriStr, headerStr) == StartLine(m, uriStr)
    ensures m.body.None? && |m.headers| > 0 ==>
              EndsWith(Render(m, uriStr, headerStr), headerStr(m.headers[|m.headers| - 1]) + CRLF)
    ensures m.body.Some? ==> EndsWith(Render(m, uriStr, headerStr), CRLF + CRLF + m.body.value)
  {
    var s := Render(m, uriStr, headerStr);
    var l := StartLine(m, uriStr);
    var section := HeaderSection(m.headers, headerStr);
    var rest := section + BodyPart(m.body);
    assert s == l + rest;
    assert StartsWith(s, l) by {
      StartsWithAppend(l, rest);
    }
    assert EndsWith(l + section, CRLF) by {
      EndsWithAppended(StartLineText(m, uriStr), CRLF);
      if |m.headers| > 0 {
        SectionEndsWithCrlf(m.headers, headerStr);
        EndsWithAppend(l, section, CRLF);
      } else {
        assert l + section == l;
      }
    }
    match m.body {
      case None =>
        assert s == l + section;
        if |m.headers| > 0 {
          LastHeaderEndsSection(m.headers, headerStr);
          EndsWithAppend(l, section, headerStr(m.headers[|m.headers| - 1]) + CRLF);
        }
      case Some(b) =>
        assert s == (l + section) + CRLF + b;
        BlankLineBeforeBody(l + section, b);
    }
  }

  /** A non-empty header section closes with the last header's line. */
  lemma LastHeaderEndsSection<H>(hs: seq<H>, headerStr: H -> string)
    requires |hs| > 0
    ensures EndsWith(HeaderSection(hs, headerStr), headerStr(hs[|hs| - 1]) + CRLF)
  {
    var line := headerStr(hs[|hs| - 1]) + CRLF;
    var front := HeaderSection(hs[..|hs| - 1], headerStr);
    assert HeaderSection(hs, headerStr) == front + line;
    EndsWithAppended(front, line);
  }

  /** The renderings of the headers, in order. */
  function RenderedHeaders<H>(hs: seq<H>, headerStr: H -> string): (ls: seq<string>)
    ensures |ls| == |hs|
    ensures forall i :: 0 <= i < |hs| ==> ls[i] == headerStr(hs[i])
  {
    seq(|hs|, i requires 0 <= i < |hs| => headerStr(hs[i]))
  }

  /** The renderings read from the front: the first header's, then the rest. */
  lemma RenderedHeadersCons<H>(hs: seq<H>, headerStr: H -> string)
    requires |hs| > 0
    ensures RenderedHeaders(hs, headerStr) == [headerStr(hs[0])] + RenderedHeaders(hs[1..], headerStr)
  {
    var r := RenderedHeaders(hs, headerStr);
    var r' := [headerStr(hs[0])] + RenderedHeaders(hs[1..], headerStr);
    forall i | 0 <= i < |hs|
      ensures r[i] == r'[i]
    {
      if i > 0 {
        assert hs[1..][i - 1] == hs[i];
      }
    }
  }

  /** Lines each followed by CRLF, read from the front. */
  function Lines(ls: seq<string>): string {
    if |ls| == 0 then "" else ls[0] + CRLF + Lines(ls[1..])
  }

  /** The header section is the headers' renderings laid out as terminated
      lines, first header first. */
  lemma {:induction false} SectionLines<H>(hs: seq<H>, headerStr: H -> string)
    ensures HeaderSection(hs, headerStr) == Lines(RenderedHeaders(hs, headerStr))
    decreases |hs|
  {
    if |hs| > 0 {
      var ls := RenderedHeaders(hs, headerStr);
      HeaderSectionCons(hs, headerStr);
      RenderedHeadersCons(hs, headerStr);
      SectionLines(hs[1..], headerStr);
      assert ls[1..] == RenderedHeaders(hs[1..], headerStr);
    } else {
      assert RenderedHeaders(hs, headerStr) == [];
    }
  }

  /** The serialiser as the source writes it: a buffer that receives the
      start line, then the header lines, then the blank line and the body
      if there is one. */
  method Serialize<U, H>(m: Message<U, H>, uriStr: U -> string, headerStr: H -> string)
    returns (s: string)
    ensures s == Render(m, uriStr, headerStr)
  {
    var buffer := WriteStartLine(m, uriStr);
    buffer := WriteHeaders(buffer, m.headers, headerStr);
    match m.body {
      case None =>
      case Some(b) =>
        buffer := buffer + ("\r\n" + b);
    }
    s := buffer;
  }

  /** The `Sprintf` of the start line: `"%s %s %s\r\n"` of method, URI and
      version for a Request, of version, `%d` code and reason for a
      Response. */
  method WriteStartLine<U, H>(m: Message<U, H>, uriStr: U -> string) returns (line: string)
    ensures line == StartLineText(m, uriStr) + CRLF
  {
    match m {
      case Request(sipMethod, uri, version, _, _) =>
        line := sipMethod + " " + uriStr(uri) + " " + version + "\r\n";
      case Response(version, code, reason, _, _) =>
        line := version + " " + Digits(code) + " " + reason + "\r\n";
    }
  }

  /** The header loop shared by both variants: for each header its
      rendering and, under the guard `idx < len(Headers)`, a CRLF.  The loop
      invariant can only be kept if the guard holds on every iteration, so
      every header line, the last included, is terminated. */
  method WriteHeaders<H>(buffer: string, hs: seq<H>, headerStr: H -> string)
    returns (out: string)
    ensures out == buffer + HeaderSection(hs, headerStr)
  {
    out := buffer;
    var idx := 0;
    assert hs[..idx] == [];
    while idx < |hs|
      invariant 0 <= idx <= |hs|
      invariant out == buffer + HeaderSection(hs[..idx], headerStr)
    {
      out := out + headerStr(hs[idx]);
      if idx < |hs| {
        out := out + "\r\n";
      }
      SectionStep(hs, headerStr, idx);
      idx := idx + 1;
    }
    assert hs[..idx] == hs;
  }

  /** Extending the headers by one appends that header's line. */
  lemma SectionStep<H>(hs: seq<H>, headerStr: H -> string, i: nat)
    requires i < |hs|
    ensures HeaderSection(hs[..i + 1], headerStr)
            == HeaderSection(hs[..i], headerStr) + headerStr(hs[i]) + CRLF
  {
    var p := hs[..i + 1];
    assert p[..|p| - 1] == hs[..i];
    assert p[|p| - 1] == hs[i];
  }

  /** Concatenating header sequences concatenates their sections. */
  lemma {:induction false} HeaderSectionAppend<H>(a: seq<H>, b: seq<H>, headerStr: H -> string)
    ensures HeaderSection(a + b, headerStr) == HeaderSection(a, headerStr) + HeaderSection(b, headerStr)
    decreases |b|
  {
    if |b| > 0 {
      var b' := b[..|b| - 1];
      assert (a + b)[..|a + b| - 1] == a + b';
      HeaderSectionAppend(a, b', headerStr);
    } else {
      assert a + b == a;
    }
  }

  /** The section read from the front: first header's line, then the rest. */
  lemma HeaderSectionCons<H>(hs: seq<H>, headerStr: H -> string)
    requires |hs| > 0
    ensures HeaderSection(hs, headerStr)
            == headerStr(hs[0]) + CRLF + HeaderSection(hs[1..], headerStr)
  {
    var first := [hs[0]];
    assert first[..0] == [];
    assert HeaderSection(first, headerStr) == headerStr(hs[0]) + CRLF;
    assert hs == first + hs[1..];
    HeaderSectionAppend(first, hs[1..], headerStr);
  }

  /** The section of the first `k` headers is a prefix of the section. */
  lemma SectionPrefix<H>(hs: seq<H>, headerStr: H -> string, k: nat)
    requires k <= |hs|
    ensures StartsWith(HeaderSection(hs, headerStr), HeaderSection(hs[..k], headerStr))
  {
    assert hs == hs[..k] + hs[k..];
    HeaderSectionAppend(hs[..k], hs[k..], headerStr);
    StartsWithAppend(HeaderSection(hs[..k], headerStr), HeaderSection(hs[k..], headerStr));
  }

  /** Where the line of header `i` starts inside the header section. */
  function Offset<H>(hs: seq<H>, headerStr: H -> string, i: nat): nat
    requires i <= |hs|
  {
    |HeaderSection(hs[..i], headerStr)|
  }

  /** Header order is preserved exactly: the section is tiled, from offset 0
      to its end, by |hs| consecutive segments, the i-th of which is the
      i-th header's rendering followed by CRLF.  No header is dropped,
      duplicated or moved, whatever the renderings contain. */
  lemma HeaderSegments<H>(hs: seq<H>, headerStr: H -> string, i: nat)
    requires i < |hs|
    ensures Offset(hs, headerStr, 0) == 0
    ensures Offset(hs, headerStr, |hs|) == |HeaderSection(hs, headerStr)|
    ensures Offset(hs, headerStr, i + 1) == Offset(hs, headerStr, i) + |headerStr(hs[i])| + 2
    ensures var o, h := Offset(hs, headerStr, i), headerStr(hs[i]);
            && o + |h| + 2 <= |HeaderSection(hs, headerStr)|
            && HeaderSection(hs, headerStr)[o..o + |h|] == h
            && HeaderSection(hs, headerStr)[o + |h|..o + |h| + 2] == CRLF
  {
    var h := headerStr(hs[i]);
    var pre := HeaderSection(hs[..i], headerStr);
    var whole := HeaderSection(hs, headerStr);
    assert hs[..|hs|] == hs;
    assert hs[..0] == [];
    SectionStep(hs, headerStr, i);
    SectionPrefix(hs, headerStr, i + 1);
    var p := pre + h + CRLF;
    assert StartsWith(whole, p);
    SliceOfPrefix(whole, p, |pre|, |pre| + |h|);
    SliceOfPrefix(whole, p, |pre| + |h|, |p|);
    InfixOf(pre, h, CRLF);
    assert p[|pre| + |h|..] == CRLF;
  }

  /** Request and Response differ only in the start line: two messages of
      either variant with the same headers and body render the same text
      after their start lines. */
  lemma SameSuffix<U, H>(m1: Message<U, H>, m2: Message<U, H>, uriStr: U -> string, headerStr: H -> string)
    requires m1.headers == m2.headers && m1.body == m2.body
    ensures var s1, s2 := Render(m1, uriStr, headerStr), Render(m2, uriStr, headerStr);
            s1[|StartLine(m1, uriStr)|..] == s2[|StartLine(m2, uriStr)|..]
  {
  }

  /** Without a body, the message ends with the terminator of its last line
      and there is no trailing blank line, provided the start line and each
      header render as single lines. */
  lemma NoTrailingBlankLine<U, H>(m: Message<U, H>, uriStr: U -> string, headerStr: H -> string)
    requires m.body.None?
    requires NoCrlf(StartLineText(m, uriStr))
    requires forall i :: 0 <= i < |m.headers| ==> OneLine(headerStr(m.headers[i]))
    ensures !EndsWith(Render(m, uriStr, headerStr), CRLF + CRLF)
  {
    var s := Render(m, uriStr, headerStr);
    var hs := m.headers;
    var t := StartLineText(m, uriStr);
    if |hs| == 0 {
      assert s == t + CRLF;
      if |s| >= 4 {
        assert !CrlfAt(t, |t| - 2);
        assert s[|s| - 4] == t[|t| - 2] && s[|s| - 3] == t[|t| - 1];
      }
    } else {
      var h := headerStr(hs[|hs| - 1]);
      var p := StartLine(m, uriStr) + HeaderSection(hs[..|hs| - 1], headerStr);
      assert s == p + h + CRLF;
      if |hs| > 1 {
        SectionEndsWithCrlf(hs[..|hs| - 1], headerStr);
      }
      assert p[|p| - 1] == '\n';
      assert OneLine(h);
      if |h| >= 2 {
        assert !CrlfAt(h, |h| - 2);
        assert s[|s| - 4] == h[|h| - 2] && s[|s| - 3] == h[|h| - 1];
      } else {
        assert s[|s| - 4] == p[|p| - 1];
      }
    }
  }
}
