/** Concrete messages and their wire forms, with URIs and headers that render
    as the text they hold. */
module Scenarios {
  import opened Text
  import Decimal
  import opened Messages

  function Verbatim(x: string): string {
    x
  }

  /** A Request with no headers and no body is its Request-Line alone. */
  lemma InviteWithoutHeaders()
    ensures Render(Request(INVITE, "sip:bob@biloxi.com", "SIP/2.0", [], None), Verbatim, Verbatim)
            == "INVITE sip:bob@biloxi.com SIP/2.0\r\n"
  {
    var m: Message<string, string> := Request(INVITE, "sip:bob@biloxi.com", "SIP/2.0", [], None);
    assert StartLineText(m, Verbatim) == "INVITE sip:bob@biloxi.com SIP/2.0";
    assert Suffix(m.headers, m.body, Verbatim) == "";
  }

  /** A 200 Response with one header and no body ends with that header's
      terminator. */
  lemma OkWithContentLength()
    ensures Render(Response("SIP/2.0", 200, "OK", ["Content-Length: 0"], None), Verbatim, Verbatim)
            == "SIP/2.0 200 OK\r\nContent-Length: 0\r\n"
  {
    var hs := ["Content-Length: 0"];
    var m: Message<string, string> := Response("SIP/2.0", 200, "OK", hs, None);
    OkStatusLine();
    assert hs[..0] == [];
    assert Suffix(hs, None, Verbatim) == "Content-Length: 0\r\n";
  }

  lemma OkStatusLine()
    ensures StatusLineText("SIP/2.0", 200, "OK") == "SIP/2.0 200 OK"
  {
    assert Decimal.Digits(2) == "2";
    assert Decimal.Digits(20) == "20";
    assert Decimal.Digits(200) == "200";
  }

  /** A Request with two headers and a body: both header lines, one blank
      line, then the body with nothing after it. */
  lemma InviteWithBody()
    ensures Render(Request(INVITE, "sip:bob@biloxi.com", "SIP/2.0", ["To: Bob", "From: Alice"], Some("v=0")), Verbatim, Verbatim)
            == "INVITE sip:bob@biloxi.com SIP/2.0\r\nTo: Bob\r\nFrom: Alice\r\n\r\nv=0"
  {
    var hs := ["To: Bob", "From: Alice"];
    var m: Message<string, string> := Request(INVITE, "sip:bob@biloxi.com", "SIP/2.0", hs, Some("v=0"));
    InviteLine();
    TwoHeaderSuffix(hs);
    assert Render(m, Verbatim, Verbatim)
           == "INVITE sip:bob@biloxi.com SIP/2.0" + "\r\n" + "To: Bob\r\nFrom: Alice\r\n\r\nv=0";
  }

  lemma InviteLine()
    ensures RequestLineText(INVITE, "sip:bob@biloxi.com", "SIP/2.0") == "INVITE sip:bob@biloxi.com SIP/2.0"
  {
  }

  lemma TwoHeaderSuffix(hs: seq<string>)
    requires hs == ["To: Bob", "From: Alice"]
    ensures Suffix(hs, Some("v=0"), Verbatim) == "To: Bob\r\nFrom: Alice\r\n\r\nv=0"
  {
    TwoHeaderSection(hs);
  }

  lemma TwoHeaderSection(hs: seq<string>)
    requires hs == ["To: Bob", "From: Alice"]
    ensures HeaderSection(hs, Verbatim) == "To: Bob\r\nFrom: Alice\r\n"
  {
    assert hs[..1] == ["To: Bob"] && hs[..1][..0] == [];
    assert HeaderSection(hs[..1], Verbatim) == "To: Bob\r\n";
  }
}
