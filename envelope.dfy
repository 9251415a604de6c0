/** SOAP 1.1 request framing: a fixed envelope header, the payload, a fixed footer
    (SOAP 1.1, W3C Note, section 4, with the Body in section 4.3). */
module Envelope {

  import opened Outcomes

  /** The header literal; it spans two source lines, so a newline follows the XML declaration. */
  const SoapHeader: string :=
    "<?xml version=\"1.0\" encoding=\"UTF-8\"?>\n"
    + "<SOAP-ENV:Envelope xmlns:SOAP-ENV=\"http://schemas.xmlsoap.org/soap/envelope/\""
    + " xmlns:SOAP-ENC=\"http://schemas.xmlsoap.org/soap/encoding/\""
    + " xmlns:xsi=\"http://www.w3.org/2001/XMLSchema-instance\""
    + " xmlns:xsd=\"http://www.w3.org/2001/XMLSchema\""
    + " xmlns:xop=\"http://www.w3.org/2004/08/xop/include\""
    + " xmlns:xmlmime=\"http://www.w3.org/2004/11/xmlmime\""
    + " xmlns:ns=\"urn:zarafa\">"
    + "<SOAP-ENV:Body SOAP-ENV:encodingStyle=\"http://schemas.xmlsoap.org/soap/encoding/\">"

  const SoapFooter: string := "</SOAP-ENV:Body></SOAP-ENV:Envelope>"

  /** The request body: header, then the payload unchanged, then footer. */
  function SoapEnvelope(payload: string): (r: string)
    ensures |r| == |SoapHeader| + |payload| + |SoapFooter|
    ensures r[..|SoapHeader|] == SoapHeader
    ensures r[|SoapHeader|..|r| - |SoapFooter|] == payload
    ensures r[|r| - |SoapFooter|..] == SoapFooter
  {
    SoapHeader + payload + SoapFooter
  }

  /** The inverse of SoapEnvelope: the text between the header prefix and the footer suffix. */
  function StripEnvelope(s: string): (r: Option<string>)
    ensures r.Some? ==> |s| >= |SoapHeader| + |SoapFooter|
  {
    if |s| >= |SoapHeader| + |SoapFooter|
       && s[..|SoapHeader|] == SoapHeader
       && s[|s| - |SoapFooter|..] == SoapFooter
    then Some(s[|SoapHeader|..|s| - |SoapFooter|])
    else None
  }

  /** Removing the header prefix and the footer suffix gives back the payload. */
  lemma StripSoapEnvelope(payload: string)
    ensures StripEnvelope(SoapEnvelope(payload)) == Some(payload)
  {
  }

  /** Every text StripEnvelope accepts is the envelope of what it returns. */
  lemma StripIsInverse(s: string)
    requires StripEnvelope(s).Some?
    ensures SoapEnvelope(StripEnvelope(s).value) == s
  {
    Reframe(SoapHeader, SoapFooter, s);
  }

  /** A text that starts with `h` and ends with `f`, no two overlapping, is `h`, the
      text between, and `f`. */
  lemma Reframe(h: string, f: string, s: string)
    requires |s| >= |h| + |f| && s[..|h|] == h && s[|s| - |f|..] == f
    ensures h + s[|h|..|s| - |f|] + f == s
  {
    assert s == s[..|h|] + s[|h|..|s| - |f|] + s[|s| - |f|..];
  }

  /** Distinct payloads give distinct envelopes. */
  lemma EnvelopeInjective(p: string, q: string)
    requires SoapEnvelope(p) == SoapEnvelope(q)
    ensures p == q
  {
    StripSoapEnvelope(p);
    StripSoapEnvelope(q);
  }
}
