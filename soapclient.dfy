/** The SOAP client: transport selection by URI scheme, and the request operation of the
    HTTP transport and of the pooled Unix-socket transport. */
module SoapClient {

  import opened Outcomes
  import opened SoapXml
  import opened ConnPool
  import Envelope

  const StatusOK := 200
  const KeepAlive := "keep-alive"
  const SoapUserAgent := "kcc-go-fakesoap"
  const ContentType := "text/xml; charset=utf-8"

  // ---------------------------------------------------------------------------------
  // Transport selection

  /** A parsed URI: its (lower-case) scheme, its path, and its String() form. */
  datatype URL = URL(scheme: string, path: string, text: string)

  /** The client NewSOAPClient builds: an HTTP client for a fixed URI, or a socket client
      for a socket path with a pool of initial size 0 and the given maximum. */
  datatype ClientKind =
    | HTTPKind(uri: string)
    | SocketKind(path: string, maxConnections: nat)

  /** NewSOAPClient. A missing URI falls back to the parse of the default URI
      (`defaultURI`); `newPool` is the error, if any, the pool constructor reports. */
  function NewSOAPClient(uri: Option<URL>, defaultURI: Result<URL>, maxConnections: nat,
                         newPool: Option<string>): (r: Result<ClientKind>)
    ensures uri.None? && defaultURI.Err? ==> r == Err(defaultURI.error)
    ensures uri.Some? ==>
      (r.Ok? && r.value.HTTPKind? <==> uri.value.scheme == "http" || uri.value.scheme == "https")
    ensures uri.Some? && r.Ok? && r.value.HTTPKind? ==> r.value.uri == uri.value.text
    ensures uri.Some? ==>
      (r.Ok? && r.value.SocketKind? <==> uri.value.scheme == "file" && newPool.None?)
    ensures uri.Some? && r.Ok? && r.value.SocketKind? ==>
      r.value == SocketKind(uri.value.path, maxConnections)
    ensures uri.Some? && r.Err? ==>
      (r.error == InvalidScheme(uri.value.scheme) <==> uri.value.scheme !in {"http", "https", "file"})
  {
    match uri
    case None =>
      (match defaultURI
       case Err(e) => Err(e)
       case Ok(u) => ClientForScheme(u, maxConnections, newPool))
    case Some(u) => ClientForScheme(u, maxConnections, newPool)
  }

  /** The scheme switch of NewSOAPClient: http and https (the one falling through to the
      other) give an HTTP client for the URI's string form, file a socket client for its
      path unless making the pool fails, and every other scheme the invalid-scheme error. */
  function ClientForScheme(u: URL, maxConnections: nat, newPool: Option<string>): (r: Result<ClientKind>)
    ensures r.Ok? && r.value.HTTPKind? <==> u.scheme == "http" || u.scheme == "https"
    ensures r.Ok? && r.value.HTTPKind? ==> r.value.uri == u.text
    ensures r.Ok? && r.value.SocketKind? <==> u.scheme == "file" && newPool.None?
    ensures r.Ok? && r.value.SocketKind? ==> r.value == SocketKind(u.path, maxConnections)
    ensures u.scheme == "file" && newPool.Some? ==> r == Err(Passed(newPool.value))
    ensures r == Err(InvalidScheme(u.scheme)) <==> u.scheme !in {"http", "https", "file"}
  {
    match u.scheme
    case "https" => Ok(HTTPKind(u.text))
    case "http" => Ok(HTTPKind(u.text))
    case "file" =>
      (match newPool
       case Some(e) => Err(Passed(e))
       case None => Ok(SocketKind(u.path, maxConnections)))
    case _ => Err(InvalidScheme(u.scheme))
  }

  /** Without a URI the client is the one the default URI selects. */
  lemma NilURIUsesDefault(d: URL, other: Result<URL>, maxConnections: nat, newPool: Option<string>)
    ensures NewSOAPClient(None, Ok(d), maxConnections, newPool)
         == NewSOAPClient(Some(d), other, maxConnections, newPool)
  {
  }

  // ---------------------------------------------------------------------------------
  // HTTP transport

  datatype Request = Request(verb: string, url: string, contentType: string,
                             userAgent: string, body: string)

  /** What the HTTP library does with the request: refuses to build it, fails to carry
      it out (connect, TLS, timeout, cancellation), or returns a status and a body. */
  datatype HTTPOutcome =
    | Unbuildable(message: string)
    | Failed(message: string)
    | Responded(status: int, body: seq<Read>)

  datatype SOAPHTTPClient = SOAPHTTPClient(uri: string)
  {
    /** DoRequest: POST the envelope; any status other than 200 is an error before the
        body is parsed. `version` is the library version in the User-Agent header. */
    method DoRequest(payload: string, version: string, outcome: HTTPOutcome)
      returns (sent: Option<Request>, r: Result<seq<Token>>)
      ensures sent.None? <==> outcome.Unbuildable?
      ensures sent.Some? ==> sent.value == Request("POST", uri, ContentType,
                                                   SoapUserAgent + "/" + version,
                                                   Envelope.SoapEnvelope(payload))
      ensures !outcome.Responded? ==> r == Err(Passed(outcome.message))
      ensures outcome.Responded? && outcome.status != StatusOK ==> r == Err(UnexpectedStatus(outcome.status))
      ensures outcome.Responded? && outcome.status == StatusOK ==> r == ResponseBody(outcome.body)
    {
      var body := Envelope.SoapEnvelope(payload);
      if outcome.Unbuildable? {
        return None, Err(Passed(outcome.message));
      }
      var req := Request("POST", uri, ContentType, SoapUserAgent + "/" + version, body);
      sent := Some(req);
      match outcome {
        case Failed(message) =>
          r := Err(Passed(message));
        case Responded(status, respBody) =>
          if status != StatusOK {
            r := Err(UnexpectedStatus(status));
          } else {
            r := ParseSOAPResponse(respBody);
          }
      }
    }
  }

  // ---------------------------------------------------------------------------------
  // Unix-socket transport

  /** The outcome of reading an HTTP response from the socket: a failure, or a status,
      the value of its Connection header ("" when absent), and the body's token stream. */
  datatype ReadOutcome =
    | ReadFailed
    | Response(status: int, connection: string, body: seq<Read>)

  /** A terminating run of the socket request loop: the first `writeFailures` writes fail,
      the next one succeeds and is followed by `read`; `dialOk` is whether dials succeed. */
  datatype SocketScript = SocketScript(writeFailures: nat, dialOk: bool, read: ReadOutcome)

  /** One write of the request body onto a pooled connection. */
  datatype Write = Write(conn: Conn, data: string)

  /** The result of one request, the pool afterwards, and the writes it made. */
  datatype Exchange = Exchange(result: Result<seq<Token>>, pool: PoolState, writes: seq<Write>)

  /** What one pass of the request loop comes to: no connection could be had; the write
      on `conn` failed and `pool` is the pool with it removed; or the request was written
      on `conn`, `result` is what DoRequest returns and `pool` is the pool after the
      connection was released or removed. */
  datatype Pass =
    | TimedOut
    | WriteFailed(conn: Conn, pool: PoolState)
    | Finished(conn: Conn, result: Result<seq<Token>>, pool: PoolState)

  /** One pass of the request loop, writing `request`: acquire a connection (a timeout
      fails with the open error); a failed write removes the connection so that the loop
      starts again; a failed read removes it and fails with the read error; otherwise the
      result is the status error or the parsed body, and the connection is released to the
      pool when the response said keep-alive and removed otherwise. */
  function OnePass(p: PoolState, request: string, script: SocketScript): (a: Pass)
    requires Inv(p)
    ensures !a.TimedOut? ==> Inv(a.pool) && a.pool.capacity == p.capacity && a.pool.nextId >= p.nextId
    ensures !a.TimedOut? ==> a.pool.inUse == p.inUse && a.conn < a.pool.nextId
    ensures a.WriteFailed? <==> Acquire(p, script.dialOk).0.Some? && script.writeFailures > 0
  {
    match Acquire(p, script.dialOk)
    case (None, _) => TimedOut
    case (Some(c), q) =>
      assert c < q.nextId by {
        if p.idle != [] { assert p.idle[0] < p.nextId; }
      }
      if script.writeFailures > 0 then WriteFailed(c, Removed(q, c))
      else
        match script.read
        case ReadFailed => Finished(c, Err(ReadSocket), Removed(q, c))
        case Response(status, connection, body) =>
          var result := if status != StatusOK then Err(UnexpectedStatus(status)) else ResponseBody(body);
          var after := if connection == KeepAlive then Released(q, c) else Removed(q, c);
          Finished(c, result, after)
  }

  /** The whole socket request: passes until one does not end in a failed write. */
  function SocketExchange(p: PoolState, request: string, script: SocketScript): (x: Exchange)
    requires Inv(p)
    ensures Inv(x.pool) && x.pool.capacity == p.capacity && x.pool.nextId >= p.nextId
    ensures x.pool.inUse == p.inUse
    ensures |x.writes| <= script.writeFailures + 1
    decreases script.writeFailures
  {
    match OnePass(p, request, script)
    case TimedOut => Exchange(Err(OpenSocket), p, [])
    case WriteFailed(c, q) =>
      Then([Write(c, request)], SocketExchange(q, request, script.(writeFailures := script.writeFailures - 1)))
    case Finished(c, result, q) => Exchange(result, q, [Write(c, request)])
  }

  /** Every write carries the request, on a connection the pool dialled. */
  lemma {:induction false} WritesCarryRequest(p: PoolState, request: string, script: SocketScript)
    requires Inv(p)
    ensures WritesCarry(SocketExchange(p, request, script), request)
    decreases script.writeFailures
  {
    match OnePass(p, request, script)
    case TimedOut =>
    case Finished(c, result, q) =>
    case WriteFailed(c, q) =>
      var next := script.(writeFailures := script.writeFailures - 1);
      var y := SocketExchange(q, request, next);
      WritesCarryRequest(q, request, next);
      var x := SocketExchange(p, request, script);
      assert x.writes == [Write(c, request)] + y.writes && x.pool == y.pool;
      forall i | 0 <= i < |x.writes|
        ensures x.writes[i].data == request && x.writes[i].conn < x.pool.nextId
      {
        if i > 0 { assert x.writes[i] == y.writes[i - 1]; }
      }
  }

  /** Every write of the exchange carries the request, on a connection the pool dialled. */
  predicate WritesCarry(x: Exchange, request: string) {
    forall i :: 0 <= i < |x.writes| ==> x.writes[i].data == request && x.writes[i].conn < x.pool.nextId
  }

  /** A connection that is neither idle nor checked out. */
  predicate Gone(p: PoolState, c: Conn) {
    c !in p.idle && c !in p.inUse
  }

  /** A removed connection never comes back: new dials get fresh identities. */
  lemma {:induction false} StaysGone(p: PoolState, request: string, script: SocketScript, c: Conn)
    requires Inv(p) && c < p.nextId && Gone(p, c)
    ensures Gone(SocketExchange(p, request, script).pool, c)
    decreases script.writeFailures
  {
    var (a, q) := Acquire(p, script.dialOk);
    if a.Some? {
      assert c != a.value;
      assert Gone(q, c) by {
        if p.idle != [] { assert q.idle == p.idle[1..]; }
      }
      if script.writeFailures > 0 {
        StaysGone(Removed(q, a.value), request, script.(writeFailures := script.writeFailures - 1), c);
      }
    }
  }

  /** Every connection the request wrote to is given back: none stays checked out; the
      one that carried a keep-alive response returns to the idle queue, and every other
      one (failed write, failed read, any other Connection header) is removed. */
  lemma {:induction false} ConnectionDisposal(p: PoolState, request: string, script: SocketScript, i: nat)
    requires Inv(p) && i < |SocketExchange(p, request, script).writes|
    ensures SocketExchange(p, request, script).writes[i].conn !in SocketExchange(p, request, script).pool.inUse
    ensures SocketExchange(p, request, script).writes[i].conn in SocketExchange(p, request, script).pool.idle
            <==> i == script.writeFailures && script.read.Response? && script.read.connection == KeepAlive
    decreases script.writeFailures
  {
    var x := SocketExchange(p, request, script);
    var (a, q) := Acquire(p, script.dialOk);
    assert a.Some?;
    var c := a.value;
    assert c !in q.idle by {
      if p.idle != [] {
        assert q.idle == p.idle[1..];
        assert forall j :: 0 <= j < |q.idle| ==> q.idle[j] == p.idle[j + 1];
      }
    }
    if script.writeFailures > 0 {
      var next := script.(writeFailures := script.writeFailures - 1);
      var r := Removed(q, c);
      var y := SocketExchange(r, request, next);
      assert x.writes == [Write(c, request)] + y.writes && x.pool == y.pool;
      if i == 0 {
        StaysGone(r, request, next, c);
      } else {
        ConnectionDisposal(r, request, next, i - 1);
        assert x.writes[i] == y.writes[i - 1];
      }
    } else {
      assert x.writes == [Write(c, request)];
    }
  }

  /** The request fails to open a connection exactly when it stopped before its last
      scripted write; once that write succeeds, a read failure gives the read error
      without any retry, and a response gives the status error or the parsed body. */
  lemma {:induction false} SocketResult(p: PoolState, request: string, script: SocketScript)
    requires Inv(p)
    ensures var x := SocketExchange(p, request, script);
      && (x.result == Err(OpenSocket) <==> |x.writes| <= script.writeFailures)
      && (|x.writes| == script.writeFailures + 1 && script.read.ReadFailed? ==> x.result == Err(ReadSocket))
      && (|x.writes| == script.writeFailures + 1 && script.read.Response? && script.read.status != StatusOK
          ==> x.result == Err(UnexpectedStatus(script.read.status)))
      && (|x.writes| == script.writeFailures + 1 && script.read.Response? && script.read.status == StatusOK
          ==> x.result == ResponseBody(script.read.body))
    decreases script.writeFailures
  {
    var (a, q) := Acquire(p, script.dialOk);
    if a.Some? && script.writeFailures > 0 {
      SocketResult(Removed(q, a.value), request, script.(writeFailures := script.writeFailures - 1));
    }
  }

  /** A pool-acquire timeout returns the open error and touches no connection. */
  lemma OpenTimeoutTouchesNothing(p: PoolState, request: string, script: SocketScript)
    requires Inv(p) && Acquire(p, script.dialOk).0.None?
    ensures SocketExchange(p, request, script) == Exchange(Err(OpenSocket), p, [])
  {
  }

  /** A write failure removes the connection it was written to and starts again from
      acquisition. */
  lemma WriteFailureRemovesAndRetries(p: PoolState, request: string, script: SocketScript)
    requires Inv(p) && Acquire(p, script.dialOk).0.Some? && script.writeFailures > 0
    ensures var (c, q) := (Acquire(p, script.dialOk).0.value, Acquire(p, script.dialOk).1);
      SocketExchange(p, request, script)
      == Then([Write(c, request)],
              SocketExchange(Removed(q, c), request, script.(writeFailures := script.writeFailures - 1)))
  {
  }

  /** After a successful write, a read failure removes the connection and fails at once. */
  lemma ReadFailureRemovesAndFails(p: PoolState, request: string, script: SocketScript)
    requires Inv(p) && Acquire(p, script.dialOk).0.Some? && script.writeFailures == 0
    requires script.read.ReadFailed?
    ensures var (c, q) := (Acquire(p, script.dialOk).0.value, Acquire(p, script.dialOk).1);
      SocketExchange(p, request, script) == Exchange(Err(ReadSocket), Removed(q, c), [Write(c, request)])
  {
  }

  /** After a successful read, the connection is released back to the pool if and only if
      the Connection header is exactly keep-alive, and removed otherwise, whatever the
      status and whether or not the body decodes. */
  lemma ResponseReleasesOrRemoves(p: PoolState, request: string, script: SocketScript)
    requires Inv(p) && Acquire(p, script.dialOk).0.Some? && script.writeFailures == 0
    requires script.read.Response?
    ensures var (c, q) := (Acquire(p, script.dialOk).0.value, Acquire(p, script.dialOk).1);
      SocketExchange(p, request, script).pool
      == (if script.read.connection == KeepAlive then Released(q, c) else Removed(q, c))
    ensures SocketExchange(p, request, script).writes == [Write(Acquire(p, script.dialOk).0.value, request)]
    ensures SocketExchange(p, request, script).result
      == if script.read.status != StatusOK then Err(UnexpectedStatus(script.read.status))
         else ResponseBody(script.read.body)
  {
  }

  /** One idle connection whose write fails once: it is removed, a fresh connection is
      dialled, the request succeeds on it, and the keep-alive response returns it to the
      pool, so the pool holds exactly one connection fewer than it dialled. */
  lemma RetryAfterOneWriteFailure(c0: Conn, n: Conn, capacity: nat, request: string, body: seq<Read>)
    requires c0 < n && capacity >= 1
    ensures var x := SocketExchange(PoolState([c0], {}, capacity, n), request,
                                    SocketScript(1, true, Response(StatusOK, KeepAlive, body)));
      && x.result == ResponseBody(body)
      && x.writes == [Write(c0, request), Write(n, request)]
      && x.pool == PoolState([n], {}, capacity, n + 1)
  {
    var script := SocketScript(1, true, Response(StatusOK, KeepAlive, body));
    var p := PoolState([c0], {}, capacity, n);
    var q := PoolState([], {}, capacity, n);
    assert OnePass(p, request, script) == WriteFailed(c0, q);
    var last := OnePass(q, request, script.(writeFailures := 0));
    assert last == Finished(n, ResponseBody(body), PoolState([n], {}, capacity, n + 1));
  }

  /** The socket client: its socket path and its connection pool. */
  class SOAPSocketClient {
    const path: string
    const pool: Pool

    /** The socket client NewSOAPClient makes for a `file` URI, with an empty pool. */
    constructor (path: string, maxConnections: nat)
      ensures this.path == path && fresh(pool)
      ensures pool.Valid() && pool.State() == NewPoolState(maxConnections)
    {
      this.path := path;
      pool := new Pool(maxConnections);
    }

    /** DoRequest: the envelope of the payload, sent by the request loop. */
    method DoRequest(payload: string, script: SocketScript) returns (r: Result<seq<Token>>, writes: seq<Write>)
      requires pool.Valid()
      modifies pool
      ensures pool.Valid()
      ensures Exchange(r, pool.State(), writes) == SocketExchange(old(pool.State()), Envelope.SoapEnvelope(payload), script)
    {
      var request := Envelope.SoapEnvelope(payload);
      r, writes := SendEnvelope(request, script);
    }

    /** The request loop of DoRequest over the pool: passes until one does not end in a
        failed write. Returns the result and the writes made. */
    method SendEnvelope(request: string, script: SocketScript) returns (r: Result<seq<Token>>, writes: seq<Write>)
      requires pool.Valid()
      modifies pool
      ensures pool.Valid()
      ensures Exchange(r, pool.State(), writes) == SocketExchange(old(pool.State()), request, script)
    {
      var failures: nat := script.writeFailures;
      writes := [];
      ghost var goal := SocketExchange(pool.State(), request, script);
      while true
        invariant pool.Valid()
        invariant failures <= script.writeFailures
        invariant goal == Then(writes, SocketExchange(pool.State(), request, script.(writeFailures := failures)))
        decreases failures
      {
        var pass := Attempt(request, script.(writeFailures := failures));
        match pass {
          case TimedOut =>
            return Err(OpenSocket), writes;
          case WriteFailed(conn, _) =>
            // start over on another connection
            var w := Write(conn, request);
            failures := failures - 1;
            ThenThen(writes, [w], SocketExchange(pool.State(), request, script.(writeFailures := failures)));
            writes := writes + [w];
          case Finished(conn, result, _) =>
            return result, writes + [Write(conn, request)];
        }
      }
    }

    /** One pass of the request loop: acquire a connection, write the request on it, and
        on a successful write read and handle the response. */
    method Attempt(request: string, script: SocketScript) returns (pass: Pass)
      requires pool.Valid()
      modifies pool
      ensures pool.Valid()
      ensures pass == OnePass(old(pool.State()), request, script)
      ensures pool.State() == if pass.TimedOut? then old(pool.State()) else pass.pool
    {
      var c := pool.GetWithTimeout(script.dialOk);
      if c.None? {
        return TimedOut;
      }
      var conn := c.value;
      if script.writeFailures > 0 {
        // the write failed: drop the connection
        pool.Remove(conn);
        return WriteFailed(conn, pool.State());
      }
      match script.read {
        case ReadFailed =>
          pool.Remove(conn);
          return Finished(conn, Err(ReadSocket), pool.State());
        case Response(status, connection, respBody) =>
          var r := Respond(conn, status, connection, respBody);
          return Finished(conn, r, pool.State());
      }
    }

    /** The handling of a response read from conn: the status check or the body parse,
        then the deferred cleanup, which releases a keep-alive connection to the pool and
        removes any other, whichever way the result was decided. */
    method Respond(conn: Conn, status: int, connection: string, respBody: seq<Read>) returns (r: Result<seq<Token>>)
      requires pool.Valid() && conn in pool.inUse
      modifies pool
      ensures pool.Valid()
      ensures r == if status != StatusOK then Err(UnexpectedStatus(status)) else ResponseBody(respBody)
      ensures pool.State()
        == if connection == KeepAlive then Released(old(pool.State()), conn) else Removed(old(pool.State()), conn)
    {
      var canReuse := connection == KeepAlive;
      if status != StatusOK {
        r := Err(UnexpectedStatus(status));
      } else {
        r := ParseSOAPResponse(respBody);
      }
      if canReuse {
        pool.Release(conn);
      } else {
        pool.Remove(conn);
      }
    }
  }

  /** An exchange preceded by some earlier writes. */
  function Then(earlier: seq<Write>, x: Exchange): Exchange {
    Exchange(x.result, x.pool, earlier + x.writes)
  }

  lemma ThenThen(a: seq<Write>, b: seq<Write>, x: Exchange)
    ensures Then(a, Then(b, x)) == Then(a + b, x)
  {
    assert a + (b + x.writes) == (a + b) + x.writes;
  }
}
