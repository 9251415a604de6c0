# kcc-go SOAP client core, modelled in Dafny

This project models the transport core of kcc-go, the Go client library for Kopano's
SOAP server. The core has two parts.

`fakesoap.go` frames and sends requests:

- `soapEnvelope` wraps an XML payload in a fixed SOAP 1.1 envelope header and footer.
- `parseSOAPResponse` scans the decoder's token stream for the first start element whose
  local name is `Body`, then decodes the first start element after it.
- `NewSOAPClient` picks the transport by URI scheme:
  - `http` or `https` gives an HTTP client;
  - `file` gives a Unix-socket client with a connection pool of initial size 0;
  - any other scheme is an error.
- The HTTP client's `DoRequest` POSTs the envelope and rejects any status other than 200
  before it parses the body.
- The socket client's `DoRequest` is a loop:
  - it takes a connection from the pool, where a timeout is an error;
  - it writes the envelope, and on a failed write it removes the connection and starts again;
  - it reads an HTTP response, and on a failed read it removes the connection and fails;
  - at the end it releases the connection back to the pool when the response's
    `Connection` header is exactly `keep-alive`, and removes it otherwise.

`http.go`'s `init` sets up the defaults:

- It sets the debug flag from `KCC_GO_DEBUG`.
- It overrides each of the seven default HTTP settings from its own `KCC_GO_HTTP_*`
  variable:
  - an integer setting takes a non-empty value that parses as a decimal int64;
  - the dual-stack flag takes one of six words.
- It then builds the dialer, the transport and the client from the final values. The
  durations are int64 nanosecond counts, so they wrap around.

Module layout:

- `outcomes.dfy`: `Option`, `Result` and the errors the client returns.
- `envelope.dfy`: the request envelope and its inverse.
- `soapxml.dfy`: the XML token stream, `DecodeElement` on a token stream, and
  `parseSOAPResponse` as a specification function `ResponseBody` together with the
  scanning loop `ParseSOAPResponse`, which is proved equal to it.
- `connpool.dfy`: the sequential contract of the bounded connection pool, as functions on
  a `PoolState` value and as a `Pool` class whose methods are proved against them.
- `soapclient.dfy`: transport selection, the HTTP `DoRequest`, and the socket client.
  - The socket client is a class whose request loop works on the pool object.
  - The loop is proved equal to the specification function `SocketExchange`.
  - The lemmas state what `SocketExchange` promises: results, retries, connection disposal.
- `httpdefaults.dfy`: decimal parsing, the environment overrides, the derived values, and
  the package variables as a class whose `Init` is proved to produce them.

Effects the model cannot carry out become inputs:

- An `HTTPOutcome` is what the HTTP library does with the request.
- A `SocketScript` is what the socket does: how many writes fail before one succeeds,
  whether dials succeed, and what the read returns.
- The process environment is a `map<string, string>`.
- `defaultURI`, `maxConnections` and `version` stand for `DefaultURI`,
  `DefaultUnixMaxConnections` and `Version`. These are package values defined outside
  the two files modelled.

The envelope header is a Go raw string that spans two source lines. It therefore holds a
newline after the XML declaration, and `SoapHeader` keeps that newline.

## Model

| member | source | states |
|---|---|---|
| Envelope.SoapEnvelope | fakesoap.go:37-48 | the request body is the fixed header, then the payload unchanged, then the fixed footer |
| Envelope.StripSoapEnvelope | fakesoap.go:42-48 | removing the header prefix and footer suffix from an envelope gives back the payload |
| Envelope.StripIsInverse | fakesoap.go:42-48 | every text that starts with the header and ends with the footer is the envelope of the text between them |
| Envelope.EnvelopeInjective | fakesoap.go:42-48 | distinct payloads give distinct request bodies |
| SoapXml.Live | fakesoap.go:71-75 | the loop sees the reads before the first nil token, and all of them are tokens |
| SoapXml.FirstWanted | fakesoap.go:71-86 | the first start element (or Body start element) at or after an index, and none before it |
| SoapXml.Subtree | fakesoap.go:80 | the decoder consumes exactly the reads up to the end element that closes the open element, or fails with a decoding error |
| SoapXml.DecodeElement | fakesoap.go:80 | a decoded element is one well-nested element that begins with the given start element, and the rest of it is exactly the reads that follow; a failure is the decoding error |
| SoapXml.DecodeSameSubtree | fakesoap.go:80 | decoding depends only on the reads the decoder consumes for the element |
| SoapXml.Chosen | fakesoap.go:77-85 | the element decoded is the first start element after the first Body start element, and it lies before the first nil token |
| SoapXml.ResponseBody | fakesoap.go:67-90 | the unmarshal error exactly when no start element follows a Body start element (none at all when there is no Body); otherwise a well-nested element that is exactly the stream's reads from the chosen token on, or the decoding error |
| SoapXml.ReadsFrom | fakesoap.go:79-80 | an element decoded at an index is the stream's own reads from that index on |
| SoapXml.EmptyBodyUnmarshalError | fakesoap.go:83-89 | a Body with no start element after it gives the unmarshal error, because Body itself is never decoded |
| SoapXml.ParseSOAPResponse | fakesoap.go:67-90 | the scanning loop returns exactly ResponseBody of the token stream |
| SoapXml.SubtreeExact | fakesoap.go:80 | decoding stops exactly at the closing tag of a well-nested element, whatever follows |
| SoapXml.SubtreeFailIsEnd | fakesoap.go:72-75 | inside an element, a nil token ends decoding just as the end of the input does |
| SoapXml.FailEndsStream | fakesoap.go:72-75 | nothing after the first nil token (a tokenizer error) changes the result |
| SoapXml.ChosenBeforeFail | fakesoap.go:72-85 | the element chosen is the same whatever follows the first nil token |
| SoapXml.BodyChildDecoded | fakesoap.go:77-85 | the first element after a Body start element of any namespace is decoded, after any non-element tokens, and Body itself is never decoded |
| SoapXml.ChosenAt | fakesoap.go:77-85 | the chosen index is the first start element after the first Body start element |
| SoapXml.ElementSubtree | fakesoap.go:80 | decoding a well-nested element reads exactly its tokens after its start element |
| SoapXml.DecodeWhole | fakesoap.go:80 | decoding from an element's start element gives back the whole element |
| SoapXml.ResponseBodyAt | fakesoap.go:79-80 | the response body is the element decoded from the chosen start element |
| SoapXml.EnvelopeTokens | fakesoap.go:37-39 | the token stream of an enveloped payload is the payload plus six framing tokens |
| SoapXml.EnvelopeRoundTrip | fakesoap.go:67-90 | parsing the response stream of an enveloped payload gives back the payload's first element |
| ConnPool.Inv | fakesoap.go:136 | idle connections are distinct and not checked out, every connection was dialled by the pool, and idle plus checked-out connections never exceed the capacity |
| ConnPool.NewPoolState | fakesoap.go:136 | a new pool with initial size 0 has no connections and the given capacity |
| ConnPool.Acquire | fakesoap.go:187-190 | gives the oldest idle connection, else dials a new one when under capacity, else times out and leaves the pool unchanged; the pool never exceeds its capacity |
| ConnPool.Released | fakesoap.go:217-219 | Close puts the connection back at the end of the idle queue and checks it in |
| ConnPool.Removed | fakesoap.go:202 | Remove drops the connection, which frees one unit of capacity |
| ConnPool.Pool.constructor | fakesoap.go:136 | the pool object starts as NewPoolState |
| ConnPool.Pool.GetWithTimeout | fakesoap.go:187 | the pool object's state follows Acquire and keeps the pool invariant |
| ConnPool.Pool.Release | fakesoap.go:219 | the pool object's state follows Released |
| ConnPool.Pool.Remove | fakesoap.go:202 | the pool object's state follows Removed |
| SoapClient.NewSOAPClient | fakesoap.go:112-146 | http/https give an HTTP client for the URI's string form; file gives a socket client for the path unless the pool constructor fails; any other scheme is the invalid-scheme error; a missing URI with an unparsable default is that parse error |
| SoapClient.ClientForScheme | fakesoap.go:122-145 | http/https give an HTTP client for the URI's string form; file gives a socket client for the path, or the pool constructor's error; the invalid-scheme error exactly for every other scheme |
| SoapClient.NilURIUsesDefault | fakesoap.go:115-120 | without a URI the client is the one the parsed default URI selects |
| SoapClient.SOAPHTTPClient.DoRequest | fakesoap.go:151-176 | the POST request carries the envelope, content type and user agent; a transport error is returned as is; a status other than 200 is an error before the body is read; otherwise the result is the parsed body |
| SoapClient.OnePass | fakesoap.go:187-229 | one pass of the loop keeps the pool invariant, gives back every connection it took, and ends in a failed write exactly when a connection was had and the write failed |
| SoapClient.SocketExchange | fakesoap.go:180-231 | the whole request keeps the pool invariant and capacity, leaves no connection checked out, and writes at most once more than the number of failed writes |
| SoapClient.WritesCarryRequest | fakesoap.go:192-197 | every write carries the same envelope, each time on a connection the pool dialled |
| SoapClient.StaysGone | fakesoap.go:202 | a removed connection is never handed out again |
| SoapClient.ConnectionDisposal | fakesoap.go:214-223 | every connection written to is given back: back to the idle queue exactly when it carried a keep-alive response, removed otherwise |
| SoapClient.SocketResult | fakesoap.go:187-229 | the open error exactly when the pool timed out; after a good write, the read error, the status error, or the parsed body |
| SoapClient.OpenTimeoutTouchesNothing | fakesoap.go:187-190 | a pool timeout returns the open error, writes nothing and leaves the pool unchanged |
| SoapClient.WriteFailureRemovesAndRetries | fakesoap.go:197-204 | a failed write removes its connection and the loop starts again from acquisition |
| SoapClient.ReadFailureRemovesAndFails | fakesoap.go:208-212 | a failed read removes the connection and returns the read error without retrying |
| SoapClient.ResponseReleasesOrRemoves | fakesoap.go:214-229 | after a response the connection is released exactly when the Connection header is keep-alive, whatever the status; the result is the status error or the parsed body |
| SoapClient.RetryAfterOneWriteFailure | fakesoap.go:180-231 | an idle connection whose write fails is replaced by a fresh dial, which serves the request and returns to the pool |
| SoapClient.SOAPSocketClient.constructor | fakesoap.go:131-141 | the socket client has the URI's path and an empty pool of the given capacity |
| SoapClient.SOAPSocketClient.DoRequest | fakesoap.go:180-231 | the result, the writes and the pool afterwards are those of SocketExchange for the payload's envelope |
| SoapClient.SOAPSocketClient.SendEnvelope | fakesoap.go:181-230 | the request loop over the pool object computes SocketExchange |
| SoapClient.SOAPSocketClient.Attempt | fakesoap.go:187-229 | one pass over the pool object computes OnePass and leaves the pool as OnePass says |
| SoapClient.SOAPSocketClient.Respond | fakesoap.go:214-229 | the status error or the parsed body; the deferred cleanup releases a keep-alive connection and removes any other |
| HttpDefaults.Wrap64 | http.go:88 | int64 arithmetic: every result is an int64, and an int64 value is unchanged |
| HttpDefaults.Wrap64Congruent | http.go:88 | wrap-around differs from the exact value by a multiple of 2^64 |
| HttpDefaults.ParseUnsigned | http.go:49 | a string parses as unsigned decimal exactly when it is one or more digits |
| HttpDefaults.LeadingZeroIgnored | http.go:49 | a leading zero does not change the value of a digit string |
| HttpDefaults.ParseInt | http.go:49 | a string parses exactly when it is an optional sign and one or more digits whose signed value is an int64, and the result is that value; everything else is rejected |
| HttpDefaults.FormatInt | http.go:49 | decimal formatting gives an optional minus sign (exactly for negative values) and digits without leading zeros; it is the partner that ParseInt inverts |
| HttpDefaults.ParseFormatted | http.go:49 | every int64 value written in decimal parses back to itself |
| HttpDefaults.OutOfRangeRejected | http.go:49 | a decimal value outside int64 is rejected |
| HttpDefaults.ParseIntExamples | http.go:49 | a bare sign, an underscore and a leading space are rejected; a sign and leading zeros are accepted |
| HttpDefaults.IntOverride | http.go:48-52 | an integer setting takes the parsed value when there is one, and keeps its value otherwise |
| HttpDefaults.DualStackOverride | http.go:78-85 | off/false/no clear the flag, on/true/yes set it, and every other value leaves it unchanged |
| HttpDefaults.VarInjective | http.go:48-78 | the seven settings are read from seven distinct variables |
| HttpDefaults.ConfigureInOrder | http.go:48-85 | applying the seven overrides one at a time in init's order gives the fieldwise result |
| HttpDefaults.Overridden | http.go:48-85 | a variable's value changes its own setting by the rule of the setting's kind and no other setting |
| HttpDefaults.Step | http.go:48-85 | each step of start-up changes no setting but its own, and nothing when its variable is unset or empty |
| HttpDefaults.Configure | http.go:48-85 | after start-up each setting is its start value overridden by its own variable, whatever the other variables hold |
| HttpDefaults.VariablesIndependent | http.go:48-85 | changing one setting's variable changes no other setting |
| HttpDefaults.OtherVariablesIgnored | http.go:45-85 | variables other than the seven have no effect |
| HttpDefaults.UnsetKeepsDefaults | http.go:48-85 | with none of the seven variables set, every setting keeps its start value |
| HttpDefaults.FormattedValueTaken | http.go:48-77 | a variable holding the decimal form of an int64 value gives its setting that value |
| HttpDefaults.UnparsableIgnored | http.go:48-77 | a variable that does not parse leaves its setting unchanged |
| HttpDefaults.DualStackWords | http.go:78-85 | the dual-stack flag after start-up for the off words, the on words and every other value |
| HttpDefaults.Seconds | http.go:88 | a count of seconds scaled to a Duration is an int64 |
| HttpDefaults.SecondsExact | http.go:88 | the scaling is exact within ±9223372036 seconds |
| HttpDefaults.SecondsWraps | http.go:88 | one second more wraps to a negative Duration |
| HttpDefaults.DialerFor | http.go:87-91 | the dialer has the dual-stack flag and, for in-range values, the dial and keep-alive timeouts in seconds |
| HttpDefaults.TransportFor | http.go:93-101 | the transport has the dialer, both idle limits, the idle timeout, and fixed 10 s TLS-handshake and 1 s expect-continue timeouts |
| HttpDefaults.ClientFor | http.go:103-106 | the client has the transport and, for an in-range value, the timeout in seconds |
| HttpDefaults.BuiltInDerived | http.go:29-37 | the built-in values give 10 s, 30 s, 120 s and 90 s durations and limits of 100 idle connections |
| HttpDefaults.Defaults.constructor | http.go:29-43 | the package variables start at the built-in values, with debug off and no transport or client |
| HttpDefaults.Defaults.Init | http.go:45-106 | debug is on exactly when KCC_GO_DEBUG is non-empty; the settings become Configure of the environment; the transport and client are built from the final settings |

## Left out

- Contexts and cancellation, read and write deadlines, and the dialer's timeout
  (`sc.Dialer.Timeout`) are not modelled. They only decide whether an operation fails,
  and the inputs already say that.
- Actual network and socket I/O, HTTP framing and the XML tokenizer are not modelled. Each
  is replaced by its observable outcome: an `HTTPOutcome`, a `SocketScript`, or a token
  stream of `Read`s.
- The internals of the gncp pool library are not part of this model. Its sequential
  contract is modelled: the idle connections form a FIFO queue, new connections are dialled
  up to the capacity, Close returns a connection and Remove drops it.
- SoapClient.SocketScript: one `dialOk` flag stands for every dial of a request. A retry
  whose redial fails after an earlier dial of the same request succeeded (`connect`,
  fakesoap.go:233-235, called again by the pool) cannot be expressed.
- Envelope.SoapEnvelope: the payload is a plain string. The source takes a `*string` and
  panics on a nil pointer; that panic is not modelled.
- SoapClient.SOAPHTTPClient: the HTTP client keeps only its URI. The `Client` field
  (`DefaultHTTPClient`, fakesoap.go:127) is dropped, so the HTTP transport is not tied to
  the client that `init` builds; its effect is folded into the `HTTPOutcome` input.
- Whether `gncp.NewPool` fails is an input. Timeouts under concurrent use are not modelled.
- Concurrency between requests sharing a pool is not modelled.
- SoapClient.SocketExchange: a run in which writes fail forever and the pool keeps
  supplying connections does not terminate in the source. Such a run is not modelled,
  because every script gives a finite number of write failures.
- `newSOAPRequest` (fakesoap.go:50-65) is unused, and its request-building steps are
  those of the HTTP `DoRequest`, so it is not modelled separately.
- `connect` (fakesoap.go:233-235) dials the socket path. It is folded into the script's
  `dialOk`.
- The debug `Printf` output of `init` and `http.ProxyFromEnvironment` are not modelled.
- The dialer's `DialContext` function value is not modelled.
- The `v interface{}` target of XML decoding is not modelled. `DecodeElement` returns the
  element's tokens rather than an unmarshalled Go value.
- DecodeElement: a decoding error only happens when the element is left unfinished. The
  unmarshaller's own type errors are not modelled.
- HttpDefaults.ParseInt: `strconv.ParseInt(s, 10, 0)` for the two idle-connection limits
  is modelled as 64-bit, the size of `int` on the platforms Kopano supports.
- The error text of each failure is not modelled. Each failure has its own `Error`
  constructor instead.
- Keep-alive matching is the exact, case-sensitive comparison of the Connection header
  value with `keep-alive`, as in the source.
- `DefaultURI`, `DefaultUnixMaxConnections` and `Version` are defined outside the two
  modelled files. They are parameters here.
