/** Extraction of the SOAP response body from an XML token stream (parseSOAPResponse). */
module SoapXml {

  import opened Outcomes
  import Envelope

  datatype Name = Name(space: string, local: string)
  datatype Attr = Attr(name: Name, value: string)

  /** The tokens the XML decoder yields. */
  datatype Token =
    | StartElement(name: Name, attrs: seq<Attr>)
    | EndElement(name: Name)
    | CharData(text: string)
    | Comment(text: string)
    | ProcInst(target: string, inst: string)
    | Directive(text: string)

  /** One call of the decoder's Token(): a token, or the nil token it gives on end of
      input or on a syntax error (the error value itself is discarded). */
  datatype Read = Tok(token: Token) | Fail

  /** The stream a decoder yields for a token sequence with no error in it. */
  function Reads(ts: seq<Token>): (s: seq<Read>)
    ensures |s| == |ts|
    ensures forall i :: 0 <= i < |ts| ==> s[i] == Tok(ts[i])
  {
    seq(|ts|, i requires 0 <= i < |ts| => Tok(ts[i]))
  }

  /** Index of the first nil token: the reads the scanning loop gets to see. */
  function Live(s: seq<Read>): (n: nat)
    ensures n <= |s|
    ensures forall i :: 0 <= i < n ==> s[i].Tok?
    ensures n < |s| ==> s[n].Fail?
  {
    if s == [] || s[0].Fail? then 0 else 1 + Live(s[1..])
  }

  predicate IsBodyStart(t: Token) {
    t.StartElement? && t.name.local == "Body"
  }

  /** A start element, and one whose local name is Body when `body` holds. */
  predicate Wanted(t: Token, body: bool) {
    t.StartElement? && (body ==> t.name.local == "Body")
  }

  /** The first index in [from, Live(s)) holding a Wanted token. */
  function FirstWanted(s: seq<Read>, from: nat, body: bool): (r: Option<nat>)
    ensures r.Some? ==> from <= r.value < Live(s) && Wanted(s[r.value].token, body)
    ensures r.Some? ==> forall j :: from <= j < r.value ==> !Wanted(s[j].token, body)
    ensures r.None? ==> forall j :: from <= j < Live(s) ==> !Wanted(s[j].token, body)
    decreases |s| - from
  {
    if from >= Live(s) then None
    else if Wanted(s[from].token, body) then Some(from)
    else FirstWanted(s, from + 1, body)
  }

  /** Nesting change of one token. */
  function Delta(t: Token): int {
    match t
    case StartElement(_, _) => 1
    case EndElement(_) => -1
    case _ => 0
  }

  /** Start elements minus end elements in `ts`. */
  function Depth(ts: seq<Token>): int {
    if ts == [] then 0 else Delta(ts[0]) + Depth(ts[1..])
  }

  /** `el` is exactly one element: it opens with a start element, stays open on every
      proper prefix, and is closed at its end. */
  predicate OneElement(el: seq<Token>) {
    && |el| > 0
    && el[0].StartElement?
    && (forall i :: 0 < i < |el| ==> Depth(el[..i]) > 0)
    && Depth(el) == 0
  }

  lemma DepthCons(t: Token, ts: seq<Token>)
    ensures Depth([t] + ts) == Delta(t) + Depth(ts)
  {
    assert ([t] + ts)[1..] == ts;
  }

  lemma PrefixDepthCons(t: Token, ts: seq<Token>, i: nat)
    requires 0 < i <= |ts| + 1
    ensures Depth(([t] + ts)[..i]) == Delta(t) + Depth(ts[..i - 1])
  {
    assert ([t] + ts)[..i] == [t] + ts[..i - 1];
    DepthCons(t, ts[..i - 1]);
  }

  /** The reads the decoder consumes to finish an element that is `depth` levels open:
      up to and including the end element that closes it. A nil token first is a
      decoding error. */
  function Subtree(rest: seq<Read>, depth: nat): (r: Result<seq<Token>>)
    requires depth > 0
    ensures r.Err? ==> r.error == DecodeFailed
    ensures r.Ok? ==> |r.value| <= |rest| && Reads(r.value) == rest[..|r.value|]
    ensures r.Ok? ==> depth + Depth(r.value) == 0
    ensures r.Ok? ==> forall i :: 0 <= i < |r.value| ==> depth + Depth(r.value[..i]) > 0
    decreases |rest|
  {
    if rest == [] || rest[0].Fail? then Err(DecodeFailed)
    else
      var t := rest[0].token;
      if t.EndElement? && depth == 1 then Ok([t])
      else
        match Subtree(rest[1..], depth + Delta(t))
        case Err(e) => Err(e)
        case Ok(ts) =>
          SubtreeCons(t, ts, depth);
          ReadsCons(t, ts, rest);
          Ok([t] + ts)
  }

  /** One token in front of a finished subtree, one level further out: the subtree
      stays open on every proper prefix and closes at its end. */
  lemma SubtreeCons(t: Token, ts: seq<Token>, depth: nat)
    requires depth > 0 && depth + Delta(t) > 0
    requires depth + Delta(t) + Depth(ts) == 0
    requires forall i :: 0 <= i < |ts| ==> depth + Delta(t) + Depth(ts[..i]) > 0
    ensures depth + Depth([t] + ts) == 0
    ensures forall i :: 0 <= i < 1 + |ts| ==> depth + Depth(([t] + ts)[..i]) > 0
  {
    forall i | 0 <= i < 1 + |ts|
      ensures depth + Depth(([t] + ts)[..i]) > 0
    {
      if i > 0 {
        PrefixDepthCons(t, ts, i);
      } else {
        assert ([t] + ts)[..i] == [];
      }
    }
    DepthCons(t, ts);
  }

  lemma ReadsCons(t: Token, ts: seq<Token>, rest: seq<Read>)
    requires rest != [] && rest[0] == Tok(t)
    requires |ts| <= |rest| - 1 && Reads(ts) == rest[1..][..|ts|]
    ensures Reads([t] + ts) == rest[..1 + |ts|]
  {
    assert Reads([t] + ts) == [rest[0]] + Reads(ts);
    assert rest[..1 + |ts|] == [rest[0]] + rest[1..][..|ts|];
  }

  /** decoder.DecodeElement(v, &start): the decoded value is the element's own tokens. */
  function DecodeElement(start: Token, rest: seq<Read>): (r: Result<seq<Token>>)
    requires start.StartElement?
    ensures r.Err? ==> r.error == DecodeFailed
    ensures r.Ok? ==> OneElement(r.value) && r.value[0] == start
    ensures r.Ok? ==> |r.value| - 1 <= |rest| && Reads(r.value[1..]) == rest[..|r.value| - 1]
  {
    match Subtree(rest, 1)
    case Err(e) => Err(e)
    case Ok(ts) =>
      assert ([start] + ts)[1..] == ts;
      DepthCons(start, ts);
      forall i | 0 < i <= |ts| + 1
        ensures Depth(([start] + ts)[..i]) == 1 + Depth(ts[..i - 1])
      {
        PrefixDepthCons(start, ts, i);
      }
      Ok([start] + ts)
  }

  /** What parseSOAPResponse returns for a stream: the decoded first start element that
      follows the first start element whose local name is Body, or the unmarshal error
      when the stream ends (or fails) before either is seen. */
  function ResponseBody(s: seq<Read>): (r: Result<seq<Token>>)
    ensures (forall i :: 0 <= i < Live(s) ==> !IsBodyStart(s[i].token)) ==> r == Err(UnmarshalBody)
    ensures r.Err? ==> r.error == UnmarshalBody || r.error == DecodeFailed
    ensures r == Err(UnmarshalBody) <==> Chosen(s).None?
    ensures r.Ok? ==> OneElement(r.value) && Chosen(s).Some? && r.value[0] == s[Chosen(s).value].token
    ensures r.Ok? ==> Chosen(s).value + |r.value| <= |s|
                      && Reads(r.value) == s[Chosen(s).value..Chosen(s).value + |r.value|]
  {
    match Chosen(s)
    case None => Err(UnmarshalBody)
    case Some(k) =>
      var r := DecodeElement(s[k].token, s[k + 1..]);
      if r.Ok? then
        ReadsFrom(s, k, r.value);
        r
      else r
  }

  /** An element decoded at index k of a stream is the stream's own reads from k on. */
  lemma ReadsFrom(s: seq<Read>, k: nat, el: seq<Token>)
    requires k < |s| && |el| > 0 && s[k] == Tok(el[0])
    requires |el| - 1 <= |s[k + 1..]| && Reads(el[1..]) == s[k + 1..][..|el| - 1]
    ensures k + |el| <= |s| && Reads(el) == s[k..k + |el|]
  {
    var n := |el|;
    forall i | 0 <= i < n
      ensures s[k + i] == Tok(el[i])
    {
      if i > 0 {
        assert s[k + 1..][..n - 1][i - 1] == s[k + i];
        assert Reads(el[1..])[i - 1] == Tok(el[i]);
      }
    }
    assert Reads(el) == s[k..k + n];
  }

  /** A Body start element with no start element after it (before the first nil token)
      gives the unmarshal error: Body itself is never decoded. */
  lemma EmptyBodyUnmarshalError(s: seq<Read>, b: nat)
    requires b < Live(s) && IsBodyStart(s[b].token)
    requires forall j :: 0 <= j < b ==> !IsBodyStart(s[j].token)
    requires forall j :: b < j < Live(s) ==> !s[j].token.StartElement?
    ensures ResponseBody(s) == Err(UnmarshalBody)
  {
    assert FirstWanted(s, 0, true) == Some(b) by {
      var r := FirstWanted(s, 0, true);
      assert r.Some? && !(r.value < b) && !(b < r.value);
    }
    assert FirstWanted(s, b + 1, false).None?;
  }

  /** The index of the element parseSOAPResponse decodes: the first start element after
      the first start element whose local name is Body. */
  function Chosen(s: seq<Read>): (r: Option<nat>)
    ensures r.Some? ==> FirstWanted(s, 0, true).Some? && r == FirstWanted(s, FirstWanted(s, 0, true).value + 1, false)
    ensures r.Some? ==> r.value < Live(s) && s[r.value].token.StartElement?
    ensures FirstWanted(s, 0, true).None? ==> r.None?
  {
    match FirstWanted(s, 0, true)
    case None => None
    case Some(b) => FirstWanted(s, b + 1, false)
  }

  /** The scanning loop of parseSOAPResponse over the decoder's token stream. */
  method ParseSOAPResponse(s: seq<Read>) returns (r: Result<seq<Token>>)
    ensures r == ResponseBody(s)
  {
    var matched := false;
    ghost var body := 0;
    var i := 0;
    while true
      invariant 0 <= i <= |s|
      invariant forall j :: 0 <= j < i ==> s[j].Tok?
      invariant !matched ==> forall j :: 0 <= j < i ==> !IsBodyStart(s[j].token)
      invariant matched ==> FirstWanted(s, 0, true) == Some(body) && body < i
      invariant matched ==> forall j :: body < j < i ==> !s[j].token.StartElement?
      decreases |s| - i
    {
      if i == |s| || s[i].Fail? {
        break;
      }
      var t := s[i].token;
      if t.StartElement? {
        if matched {
          r := DecodeElement(t, s[i + 1..]);
          return;
        }
        if t.name.local == "Body" {
          matched := true;
          body := i;
        }
      }
      i := i + 1;
    }
    r := Err(UnmarshalBody);
  }

  /** Every read before the first nil token is a token. */
  lemma LiveAtLeast(s: seq<Read>, n: nat)
    requires n <= |s|
    requires forall i :: 0 <= i < n ==> s[i].Tok?
    ensures Live(s) >= n
  {
  }

  /** The decoder finishes a well-nested element exactly at its closing tag, whatever follows. */
  lemma {:induction false} SubtreeExact(ts: seq<Token>, depth: nat, rest: seq<Read>)
    requires depth > 0
    requires depth + Depth(ts) == 0
    requires forall i :: 0 <= i < |ts| ==> depth + Depth(ts[..i]) > 0
    ensures Subtree(Reads(ts) + rest, depth) == Ok(ts)
    decreases |ts|
  {
    assert ts != [];
    var s := Reads(ts) + rest;
    var t := ts[0];
    assert s[0] == Tok(t);
    assert ts == [t] + ts[1..];
    if t.EndElement? && depth == 1 {
      TailOpen(t, ts[1..], depth);
      assert ts == [t];
    } else {
      var d := depth + Delta(t);
      TailOpen(t, ts[1..], depth);
      assert s[1..] == Reads(ts[1..]) + rest;
      SubtreeExact(ts[1..], d, rest);
      assert Subtree(s[1..], d) == Ok(ts[1..]);
    }
  }

  /** The converse of SubtreeCons: the tokens after the first of a finished subtree form
      a finished subtree one level further in, unless the first token closes it. */
  lemma TailOpen(t: Token, ts: seq<Token>, depth: nat)
    requires depth > 0
    requires depth + Depth([t] + ts) == 0
    requires forall i :: 0 <= i < 1 + |ts| ==> depth + Depth(([t] + ts)[..i]) > 0
    ensures t.EndElement? && depth == 1 ==> ts == []
    ensures !(t.EndElement? && depth == 1) ==>
      && depth + Delta(t) > 0
      && depth + Delta(t) + Depth(ts) == 0
      && forall i :: 0 <= i < |ts| ==> depth + Delta(t) + Depth(ts[..i]) > 0
  {
    DepthCons(t, ts);
    if |ts| > 0 {
      PrefixDepthCons(t, ts, 1);
      assert depth + Delta(t) > 0;
    }
    forall i | 0 <= i < |ts|
      ensures depth + Delta(t) + Depth(ts[..i]) > 0
    {
      PrefixDepthCons(t, ts, i + 1);
    }
  }

  /** A nil token ends decoding exactly as the end of input does. */
  lemma {:induction false} SubtreeFailIsEnd(x: seq<Read>, rest: seq<Read>, depth: nat)
    requires depth > 0
    ensures Subtree(x + [Fail] + rest, depth) == Subtree(x, depth)
    decreases |x|
  {
    if x != [] && x[0].Tok? {
      var t := x[0].token;
      if !(t.EndElement? && depth == 1) {
        var y := x + [Fail] + rest;
        assert y[1..] == x[1..] + [Fail] + rest;
        SubtreeFailIsEnd(x[1..], rest, depth + Delta(t));
        SubtreeSameTail(y, x, depth);
      }
    }
  }

  /** Two streams with the same first token and the same subtree after it give the same
      subtree. */
  lemma SubtreeSameTail(a: seq<Read>, b: seq<Read>, depth: nat)
    requires depth > 0 && a != [] && b != [] && a[0] == b[0] && a[0].Tok?
    requires !(a[0].token.EndElement? && depth == 1)
    requires Subtree(a[1..], depth + Delta(a[0].token)) == Subtree(b[1..], depth + Delta(a[0].token))
    ensures Subtree(a, depth) == Subtree(b, depth)
  {
  }

  /** A tokenizer error is treated as the end of the stream: whatever follows the first
      nil token never changes the outcome. */
  lemma {:induction false} FailEndsStream(pre: seq<Read>, rest: seq<Read>)
    ensures ResponseBody(pre + [Fail] + rest) == ResponseBody(pre)
  {
    var s := pre + [Fail] + rest;
    ChosenBeforeFail(pre, rest);
    match Chosen(pre) {
      case None =>
      case Some(k) =>
        DecodeBeforeFail(pre, rest, k);
        ResponseBodyAt(s, k);
        ResponseBodyAt(pre, k);
        DecodeSameSubtree(pre[k].token, s[k + 1..], pre[k + 1..]);
    }
  }

  /** Decoding depends only on the subtree the decoder reads. */
  lemma DecodeSameSubtree(start: Token, a: seq<Read>, b: seq<Read>)
    requires start.StartElement? && Subtree(a, 1) == Subtree(b, 1)
    ensures DecodeElement(start, a) == DecodeElement(start, b)
  {
  }

  /** The element chosen for decoding lies before the first nil token. */
  lemma ChosenBeforeFail(pre: seq<Read>, rest: seq<Read>)
    ensures Chosen(pre + [Fail] + rest) == Chosen(pre)
  {
    var s := pre + [Fail] + rest;
    LiveAppendFail(pre, rest);
    FirstWantedAgree(s, pre, 0, true);
    var fb := FirstWanted(pre, 0, true);
    if fb.Some? {
      FirstWantedAgree(s, pre, fb.value + 1, false);
    }
  }

  lemma DecodeBeforeFail(pre: seq<Read>, rest: seq<Read>, k: nat)
    requires k < Live(pre) && pre[k].token.StartElement?
    ensures (pre + [Fail] + rest)[k] == pre[k]
    ensures Subtree((pre + [Fail] + rest)[k + 1..], 1) == Subtree(pre[k + 1..], 1)
  {
    assert (pre + [Fail] + rest)[k + 1..] == pre[k + 1..] + [Fail] + rest;
    SubtreeFailIsEnd(pre[k + 1..], rest, 1);
  }

  lemma {:induction false} LiveAppendFail(pre: seq<Read>, rest: seq<Read>)
    ensures Live(pre + [Fail] + rest) == Live(pre)
    ensures forall j :: 0 <= j < Live(pre) ==> (pre + [Fail] + rest)[j] == pre[j]
  {
    var s := pre + [Fail] + rest;
    LiveAtLeast(s, Live(pre));
    if Live(pre) < |pre| {
      assert s[Live(pre)] == pre[Live(pre)];
    } else {
      assert s[|pre|] == Fail;
    }
  }

  /** The search for a start element sees only the reads before the first nil token. */
  lemma FirstWantedAgree(s: seq<Read>, t: seq<Read>, from: nat, body: bool)
    requires Live(s) == Live(t)
    requires forall j :: 0 <= j < Live(s) ==> s[j] == t[j]
    ensures FirstWanted(s, from, body) == FirstWanted(t, from, body)
  {
    var a, b := FirstWanted(s, from, body), FirstWanted(t, from, body);
    if a.Some? && b.Some? {
      assert !(a.value < b.value) && !(b.value < a.value);
    }
  }

  /** The element decoded is the first start element after the first start element whose
      local name is Body, under any namespace prefix and at any depth; Body itself is never
      decoded, and anything after the decoded element, a nil token included, is ignored. */
  lemma {:induction false} BodyChildDecoded(pre: seq<Token>, space: string, attrs: seq<Attr>,
                                            mid: seq<Token>, el: seq<Token>, rest: seq<Read>)
    requires forall i :: 0 <= i < |pre| ==> !IsBodyStart(pre[i])
    requires forall i :: 0 <= i < |mid| ==> !mid[i].StartElement?
    requires OneElement(el)
    ensures ResponseBody(Reads(pre + [StartElement(Name(space, "Body"), attrs)] + mid + el) + rest) == Ok(el)
  {
    var s := Reads(pre + [StartElement(Name(space, "Body"), attrs)] + mid + el) + rest;
    BodyChildChosen(pre, StartElement(Name(space, "Body"), attrs), mid, el, rest);
    DecodedAt(s, |pre| + 1 + |mid|, el, rest);
  }

  /** When the chosen index starts a complete element, that element is the response body. */
  lemma DecodedAt(s: seq<Read>, k: nat, el: seq<Token>, rest: seq<Read>)
    requires OneElement(el) && Chosen(s) == Some(k)
    requires k < |s| && s[k] == Tok(el[0]) && s[k + 1..] == Reads(el[1..]) + rest
    ensures ResponseBody(s) == Ok(el)
  {
    DecodeWhole(el, rest);
    ResponseBodyAt(s, k);
  }

  /** The response body is the element decoded at the chosen index. */
  lemma ResponseBodyAt(s: seq<Read>, k: nat)
    requires Chosen(s) == Some(k)
    ensures k < |s| && s[k].Tok? && s[k].token.StartElement?
    ensures ResponseBody(s) == DecodeElement(s[k].token, s[k + 1..])
  {
  }

  /** Decoding from the start element of a well-nested element gives the element. */
  lemma DecodeWhole(el: seq<Token>, rest: seq<Read>)
    requires OneElement(el)
    ensures DecodeElement(el[0], Reads(el[1..]) + rest) == Ok(el)
  {
    ElementSubtree(el, rest);
    assert [el[0]] + el[1..] == el;
  }

  /** In such a stream the element chosen is the one after the Body start element and the
      text between, and what follows it is the rest of the element. */
  lemma BodyChildChosen(pre: seq<Token>, body: Token, mid: seq<Token>, el: seq<Token>, rest: seq<Read>)
    requires forall i :: 0 <= i < |pre| ==> !IsBodyStart(pre[i])
    requires IsBodyStart(body)
    requires forall i :: 0 <= i < |mid| ==> !mid[i].StartElement?
    requires OneElement(el)
    ensures var s := Reads(pre + [body] + mid + el) + rest;
      var k := |pre| + 1 + |mid|;
      && Chosen(s) == Some(k)
      && s[k] == Tok(el[0])
      && s[k + 1..] == Reads(el[1..]) + rest
  {
    var ts := pre + [body] + mid + el;
    var s := Reads(ts) + rest;
    var b, k := |pre|, |pre| + 1 + |mid|;
    LiveAtLeast(s, |ts|);
    assert forall j :: 0 <= j < |ts| ==> s[j] == Tok(ts[j]);
    assert forall j :: 0 <= j < b ==> ts[j] == pre[j];
    assert ts[b] == body;
    assert forall j :: b < j < k ==> ts[j] == mid[j - b - 1];
    assert ts[k] == el[0];
    ChosenAt(s, b, k);
    assert ts[k + 1..] == el[1..];
    assert s[k + 1..] == Reads(el[1..]) + rest;
  }

  /** The chosen index is the first start element after the first Body start element. */
  lemma ChosenAt(s: seq<Read>, b: nat, k: nat)
    requires b < k < Live(s)
    requires forall j :: 0 <= j < b ==> !IsBodyStart(s[j].token)
    requires IsBodyStart(s[b].token)
    requires forall j :: b < j < k ==> !s[j].token.StartElement?
    requires s[k].token.StartElement?
    ensures Chosen(s) == Some(k)
  {
    assert FirstWanted(s, 0, true) == Some(b) by {
      var r := FirstWanted(s, 0, true);
      assert r.Some? && !(r.value < b) && !(b < r.value);
    }
    var r := FirstWanted(s, b + 1, false);
    assert r.Some? && !(r.value < k) && !(k < r.value);
  }

  /** Decoding a well-nested element reads exactly its tokens after the start element. */
  lemma ElementSubtree(el: seq<Token>, rest: seq<Read>)
    requires OneElement(el)
    ensures Subtree(Reads(el[1..]) + rest, 1) == Ok(el[1..])
  {
    assert [el[0]] + el[1..] == el;
    forall i | 0 <= i < |el| - 1
      ensures 1 + Depth(el[1..][..i]) > 0
    {
      PrefixDepthCons(el[0], el[1..], i + 1);
    }
    DepthCons(el[0], el[1..]);
    SubtreeExact(el[1..], 1, rest);
  }

  /** The token stream the decoder yields for SoapEnvelope(p), where `payload` is the
      stream it yields for p: declaration, newline, Envelope and Body start elements,
      the payload, and the two closing tags of the footer. */
  const SoapEnvNs := "http://schemas.xmlsoap.org/soap/envelope/"

  function EnvelopeTokens(payload: seq<Token>): (ts: seq<Token>)
    ensures |ts| == |payload| + 6
  {
    [ ProcInst("xml", "version=\"1.0\" encoding=\"UTF-8\""),
      CharData("\n"),
      StartElement(Name(SoapEnvNs, "Envelope"), EnvelopeAttrs()),
      StartElement(Name(SoapEnvNs, "Body"),
                   [Attr(Name(SoapEnvNs, "encodingStyle"), "http://schemas.xmlsoap.org/soap/encoding/")]) ]
    + payload
    + [EndElement(Name(SoapEnvNs, "Body")), EndElement(Name(SoapEnvNs, "Envelope"))]
  }

  function EnvelopeAttrs(): seq<Attr> {
    [ Attr(Name("xmlns", "SOAP-ENV"), SoapEnvNs),
      Attr(Name("xmlns", "SOAP-ENC"), "http://schemas.xmlsoap.org/soap/encoding/"),
      Attr(Name("xmlns", "xsi"), "http://www.w3.org/2001/XMLSchema-instance"),
      Attr(Name("xmlns", "xsd"), "http://www.w3.org/2001/XMLSchema"),
      Attr(Name("xmlns", "xop"), "http://www.w3.org/2004/08/xop/include"),
      Attr(Name("xmlns", "xmlmime"), "http://www.w3.org/2004/11/xmlmime"),
      Attr(Name("xmlns", "ns"), "urn:zarafa") ]
  }

  /** Round trip: unwrapping an enveloped payload whose first element is `el` (after text
      or comments only) gives back `el`, whatever else the payload holds. */
  lemma {:induction false} EnvelopeRoundTrip(lead: seq<Token>, el: seq<Token>, tail: seq<Token>)
    requires forall i :: 0 <= i < |lead| ==> !lead[i].StartElement?
    requires OneElement(el)
    ensures ResponseBody(Reads(EnvelopeTokens(lead + el + tail))) == Ok(el)
  {
    var ts := EnvelopeTokens(lead + el + tail);
    var pre := ts[..3];
    var after := tail + ts[|ts| - 2..];
    assert ts == pre + [ts[3]] + lead + el + after;
    ReadsAppend(pre + [ts[3]] + lead + el, after);
    BodyChildDecoded(pre, SoapEnvNs, ts[3].attrs, lead, el, Reads(after));
  }

  lemma ReadsAppend(a: seq<Token>, b: seq<Token>)
    ensures Reads(a + b) == Reads(a) + Reads(b)
  {
  }
}
