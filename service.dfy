/** The server's shared state (the register `written`/`written_size` and the
    five counters), the two senders that do the accounting, the handlers, and
    one pass of the worker loop. An `ok` result of false marks the point
    where the process stops on a failed `assert`. */
module Service {
  import opened CText
  import opened Wire
  import opened Router
  import opened Requests
  import opened Accounting
  import opened Transport
  import opened Handoff

  /** The stats body a history of outcomes reports. */
  function Report(t: seq<Outcome>): string
  {
    var c := Totals(t);
    StatsText(c.reqs, c.headBytes, c.bodyBytes, c.errs, c.errBytes)
  }

  /** What a handler puts on the wire when each of its sends goes out whole:
      nothing, a success head and body, or an error literal. */
  datatype Reply = Silent | Success(head: string, body: string) | Failure(error: string)

  function Bytes(r: Reply): string
  {
    match r
    case Silent => []
    case Success(h, b) => h + b
    case Failure(e) => e
  }

  /** The outcome a reply adds to the history. */
  function Entry(r: Reply): seq<Outcome>
  {
    match r
    case Silent => []
    case Success(h, b) => [Responded(|h|, |b|)]
    case Failure(e) => [Rejected(|e|)]
  }

  /** The reply `handle_client_request` gives through the handler of `kind`,
      with the register holding `register` and the counters the account of
      `t`; None where the handler stops on an assertion before sending. */
  function Answer(kind: Kind, req: string, files: map<string, string>, register: string, t: seq<Outcome>): Option<Reply>
  {
    match kind
    case Hangup => Some(Silent)
    case Ping => Some(Success(PingHeader, PingBody))
    case Echo =>
      (match EchoBody(req)
       case None => None
       case Some(b) => Some(Success(OkHead(|b|), b)))
    case Write =>
      (match StoredContent(req)
       case None => None
       case Some(c) => Some(Success(OkHead(|c|), c)))
    case Stats => var b := Report(t); Some(Success(OkHead(|b|), b))
    case Read => Some(Success(OkHead(|register|), register))
    case File =>
      (match RequestPath(req)
       case None => None
       case Some(p) =>
         if p in files then Some(Success(OkHead(|files[p]|), files[p])) else Some(Failure(NotFound)))
    case Invalid => Some(Failure(BadRequest))
  }

  /** Every success reply carries a head that declares its body's length,
      and only a bad request or a missing file gets an error literal. */
  lemma AnswerShape(kind: Kind, req: string, files: map<string, string>, register: string, t: seq<Outcome>)
    ensures var a := Answer(kind, req, files, register, t);
      a.Some? && a.value.Success? ==> a.value.head == OkHead(|a.value.body|)
    ensures var a := Answer(kind, req, files, register, t);
      a.Some? && a.value.Failure? ==>
        (kind == Invalid && a.value.error == BadRequest) || (kind == File && a.value.error == NotFound)
    ensures Answer(kind, req, files, register, t) == Some(Silent) <==> kind == Hangup
  {
    PingHeaderIsOkHead();
  }

  /** A handler that ended with `ok`, wire `w` and history `h`, started from
      wire `w0` and history `h0`, gave the reply `a`: where `a` is None it
      stopped and sent nothing; otherwise it succeeded exactly when the
      reply's bytes went out, and then recorded the reply's outcome. */
  ghost predicate Replied(a: Option<Reply>, ok: bool, w0: string, w: string, h0: seq<Outcome>, h: seq<Outcome>)
  {
    (a.None? ==> !ok && w == w0 && h == h0) &&
    (a.Some? ==> (ok <==> w == w0 + Bytes(a.value))) &&
    (a.Some? && ok ==> h == h0 + Entry(a.value))
  }

  /** A success reply whose head and body went out as the senders promise. */
  lemma RepliedSuccess(head: string, body: string, ok: bool, w0: string, w: string, h0: seq<Outcome>, h: seq<Outcome>)
    requires ok <==> w == w0 + head + body
    requires ok ==> h == h0 + [Responded(|head|, |body|)]
    ensures Replied(Some(Success(head, body)), ok, w0, w, h0, h)
  {
    assert w0 + head + body == w0 + Bytes(Success(head, body));
  }

  /** An error reply whose literal went out as `send_error` promises. */
  lemma RepliedFailure(error: string, ok: bool, w0: string, w: string, h0: seq<Outcome>, h: seq<Outcome>)
    requires ok <==> w == w0 + error
    requires ok ==> h == h0 + [Rejected(|error|)]
    ensures Replied(Some(Failure(error)), ok, w0, w, h0, h)
  {
  }

  class Server {
    /** `written[1024]`. */
    const written: array<char>
    /** `written_size`: how many bytes of `written` the register holds. */
    var writtenSize: nat
    var reqs: nat
    var headBytes: nat
    var bodyBytes: nat
    var errs: nat
    var errBytes: nat
    /** Every completed response and error since start-up, oldest first. */
    ghost var history: seq<Outcome>

    /** The register fits its buffer and the counters are the account of
        the history. */
    ghost predicate Valid()
      reads this
    {
      written.Length == BufferSize && writtenSize <= BufferSize &&
      Counters() == Replay(Zero, history)
    }

    function Counters(): Counts
      reads this
    {
      Counts(reqs, headBytes, bodyBytes, errs, errBytes)
    }

    /** What a read request returns: the first `written_size` bytes of `written`. */
    function Register(): string
      requires writtenSize <= written.Length
      reads this, written
    {
      written[..writtenSize]
    }

    /** The state at start-up: the register holds "<empty>" (size 7) and every
        counter is zero. */
    constructor ()
      ensures Valid() && fresh(written)
      ensures Register() == EmptyRegister && writtenSize == 7
      ensures Counters() == Zero && history == []
    {
      written := new char[BufferSize](i => if 0 <= i < |EmptyRegister| then EmptyRegister[i] else '\0');
      writtenSize := |EmptyRegister|;
      reqs, headBytes, bodyBytes, errs, errBytes := 0, 0, 0, 0, 0;
      history := [];
      new;
      assert written[..writtenSize] == EmptyRegister;
    }

    /** `send_response`: the head in one send, then the body loop until every
        body byte is out; the process stops unless the head went out whole.
        A completed response counts one request and its head and body bytes,
        and no error. */
    method SendResponse(sock: Socket, head: string, body: string) returns (ok: bool)
      requires Valid() && sock.Progressing()
      modifies this, sock
      ensures Valid() && writtenSize == old(writtenSize) && sock.open == old(sock.open)
      ensures ok <==> sock.wire == old(sock.wire) + head + body
      ensures ok ==> history == old(history) + [Responded(|head|, |body|)]
      ensures ok ==> Counters() == Account(old(Counters()), Responded(|head|, |body|))
      ensures !ok ==> history == old(history) && Counters() == old(Counters())
    {
      var headSent := sock.Send(head, 0, |head|);
      // The body loop always ends with every byte sent, so the check on
      // `body_sent` cannot fail.
      var bodySent := sock.SendRest(body, 0);
      assert body[0..] == body;
      if headSent != |head| {
        ok := false;
        return;
      }
      assert head[0..headSent] == head;
      ReplaySnoc(Zero, history, Responded(|head|, |body|));
      reqs := reqs + 1;
      headBytes := headBytes + |head|;
      bodyBytes := bodyBytes + bodySent;
      history := history + [Responded(|head|, |body|)];
      ok := true;
    }

    /** `send_error`: the error literal in one send; the process stops unless
        it went out whole. A sent error counts one error and its bytes, and
        nothing else. */
    method SendError(sock: Socket, error: string) returns (ok: bool)
      requires Valid()
      modifies this, sock
      ensures Valid() && writtenSize == old(writtenSize) && sock.open == old(sock.open)
      ensures ok <==> sock.wire == old(sock.wire) + error
      ensures ok ==> history == old(history) + [Rejected(|error|)]
      ensures ok ==> Counters() == Account(old(Counters()), Rejected(|error|))
      ensures !ok ==> history == old(history) && Counters() == old(Counters())
    {
      var sent := sock.Send(error, 0, |error|);
      if sent != |error| {
        ok := false;
        return;
      }
      assert error[0..sent] == error;
      ReplaySnoc(Zero, history, Rejected(|error|));
      errs := errs + 1;
      errBytes := errBytes + |error|;
      history := history + [Rejected(|error|)];
      ok := true;
    }

    /** `handle_ping`: the fixed head and "pong". */
    method HandlePing(sock: Socket) returns (ok: bool)
      requires Valid() && sock.Progressing()
      modifies this, sock
      ensures Valid() && writtenSize == old(writtenSize) && sock.open == old(sock.open)
      ensures ok <==> sock.wire == old(sock.wire) + PingHeader + PingBody
      ensures ok ==> history == old(history) + [Responded(|PingHeader|, |PingBody|)]
      ensures !ok ==> history == old(history)
    {
      ok := SendResponse(sock, PingHeader, PingBody);
    }

    /** `handle_echo`: the echoed body and a head declaring its length; the
        process stops where the request has no "\r\n". */
    method HandleEcho(sock: Socket, req: string) returns (ok: bool)
      requires Valid() && sock.Progressing()
      modifies this, sock
      ensures Valid() && writtenSize == old(writtenSize) && sock.open == old(sock.open)
      ensures EchoBody(req).None? ==> !ok && sock.wire == old(sock.wire) && history == old(history)
      ensures EchoBody(req).Some? ==>
        var b := EchoBody(req).value;
        (ok <==> sock.wire == old(sock.wire) + OkHead(|b|) + b) &&
        (ok ==> history == old(history) + [Responded(|OkHead(|b|)|, |b|)])
      ensures !ok ==> history == old(history)
    {
      var echoed := EchoBody(req);
      if echoed.None? {
        ok := false;
        return;
      }
      var body := echoed.value;
      ok := SendResponse(sock, OkHead(|body|), body);
    }

    /** `handle_read`: the register's contents and a head declaring their
        length; the register is left as it was. */
    method HandleRead(sock: Socket) returns (ok: bool)
      requires Valid() && sock.Progressing()
      modifies this, sock
      ensures Valid() && writtenSize == old(writtenSize) && sock.open == old(sock.open)
      ensures Register() == old(Register())
      ensures ok <==> sock.wire == old(sock.wire) + OkHead(|old(Register())|) + old(Register())
      ensures ok ==> history == old(history) + [Responded(|OkHead(|old(Register())|)|, |old(Register())|)]
      ensures !ok ==> history == old(history)
    {
      var body := written[..writtenSize];
      ok := SendResponse(sock, OkHead(|body|), body);
    }

    /** `handle_write`: find the payload, scan the header lines for the
        Content-Length, clamp it, replace the register with that many payload
        bytes, and answer with the new contents. The process stops, leaving
        everything as it was, where `StoredContent` has no value. */
    method HandleWrite(sock: Socket, req: string) returns (ok: bool)
      requires Valid() && sock.Progressing()
      modifies this, written, sock
      ensures Valid() && sock.open == old(sock.open)
      ensures StoredContent(req).None? ==>
        !ok && sock.wire == old(sock.wire) && history == old(history) &&
        writtenSize == old(writtenSize) && written[..] == old(written[..])
      ensures StoredContent(req).Some? ==>
        var c := StoredContent(req).value;
        Register() == c && writtenSize == |c| &&
        (ok <==> sock.wire == old(sock.wire) + OkHead(|c|) + c) &&
        (ok ==> history == old(history) + [Responded(|OkHead(|c|)|, |c|)])
      ensures !ok ==> history == old(history)
    {
      var stored := ParseWrite(req);
      if stored.None? {
        ok := false;
        return;
      }
      Store(stored.value);
      // `memcpy(body, written, written_size)`
      var body := written[..writtenSize];
      ok := SendResponse(sock, OkHead(|body|), body);
    }

    /** `written_size = length; memcpy(written, start, written_size)`: the
        register is replaced whole, the counters are not touched. */
    method Store(content: string)
      requires Valid() && |content| <= BufferSize
      modifies this`writtenSize, written
      ensures Valid() && Register() == content && writtenSize == |content|
    {
      for i := 0 to |content|
        invariant forall j :: 0 <= j < i ==> written[j] == content[j]
        modifies written
      {
        written[i] := content[i];
      }
      writtenSize := |content|;
      assert written[..writtenSize] == content;
    }

    /** `handle_stats`: the counters as text, which is the report of the
        history so far, under a head declaring its length. */
    method HandleStats(sock: Socket) returns (ok: bool)
      requires Valid() && sock.Progressing()
      modifies this, sock
      ensures Valid() && writtenSize == old(writtenSize) && sock.open == old(sock.open)
      ensures var b := Report(old(history));
        (ok <==> sock.wire == old(sock.wire) + OkHead(|b|) + b) &&
        (ok ==> history == old(history) + [Responded(|OkHead(|b|)|, |b|)])
      ensures !ok ==> history == old(history)
    {
      ReplayIsTotals(history);
      var body := StatsText(reqs, headBytes, bodyBytes, errs, errBytes);
      ok := SendResponse(sock, OkHead(|body|), body);
    }

    /** `handle_file`: the requested file, or the 404 literal (and a close)
        when it does not exist; the process stops where no path is named or
        the head does not go out whole. The body is streamed in the pieces
        `Chunks` describes; a served file counts one request, the head's
        bytes and the file's bytes. */
    method HandleFile(sock: Socket, req: string, files: map<string, string>)
      returns (ok: bool, ghost chunks: seq<nat>)
      requires Valid() && sock.Progressing()
      modifies this, sock
      ensures Valid() && writtenSize == old(writtenSize)
      ensures RequestPath(req).None? ==>
        !ok && sock.wire == old(sock.wire) && history == old(history) && sock.open == old(sock.open)
      ensures RequestPath(req).Some? && RequestPath(req).value !in files ==>
        !sock.open &&
        (ok <==> sock.wire == old(sock.wire) + NotFound) &&
        (ok ==> history == old(history) + [Rejected(|NotFound|)])
      ensures RequestPath(req).Some? && RequestPath(req).value in files ==>
        var data := files[RequestPath(req).value];
        sock.open == old(sock.open) &&
        (ok <==> sock.wire == old(sock.wire) + OkHead(|data|) + data) &&
        (ok ==> history == old(history) + [Responded(|OkHead(|data|)|, |data|)] && chunks == Chunks(|data|))
      ensures !ok ==> history == old(history)
    {
      chunks := [];
      var path := RequestPath(req);
      if path.None? {
        ok := false;
        return;
      }
      if path.value !in files {
        ok := SendError(sock, NotFound);
        sock.Close();
        return;
      }
      ok, chunks := ServeFile(sock, files[path.value]);
    }

    /** The success path of `handle_file` for a file holding `data`: the head
        declaring its size, then its bytes; the process stops unless the head
        went out whole. */
    method ServeFile(sock: Socket, data: string) returns (ok: bool, ghost chunks: seq<nat>)
      requires Valid() && sock.Progressing()
      modifies this, sock
      ensures Valid() && writtenSize == old(writtenSize) && sock.open == old(sock.open)
      ensures ok <==> sock.wire == old(sock.wire) + OkHead(|data|) + data
      ensures ok ==> history == old(history) + [Responded(|OkHead(|data|)|, |data|)]
      ensures ok ==> chunks == Chunks(|data|)
      ensures !ok ==> history == old(history)
    {
      var head := OkHead(|data|);
      ok, chunks := SendFileReply(sock, head, data);
    }

    /** The sends of `handle_file` once the head is formatted: the head in
        one send, then the chunk loop; the handler counts the head, the body
        and one request itself. */
    method SendFileReply(sock: Socket, head: string, data: string) returns (ok: bool, ghost chunks: seq<nat>)
      requires Valid() && sock.Progressing()
      modifies this, sock
      ensures Valid() && writtenSize == old(writtenSize) && sock.open == old(sock.open)
      ensures ok <==> sock.wire == old(sock.wire) + head + data
      ensures ok ==> history == old(history) + [Responded(|head|, |data|)]
      ensures ok ==> chunks == Chunks(|data|)
      ensures !ok ==> history == old(history)
    {
      chunks := [];
      var sent := sock.Send(head, 0, |head|);
      if sent != |head| {
        ok := false;
        assert |sock.wire| < |old(sock.wire) + head + data|;
        assert Counters() == old(Counters()) && history == old(history);
        return;
      }
      assert head[0..sent] == head;
      ghost var w1 := sock.wire;
      headBytes := headBytes + |head|;
      chunks := StreamBody(sock, data);
      assert sock.wire == old(sock.wire) + head + data by {
        assert w1 == old(sock.wire) + head;
      }
      ReplaySnoc(Zero, history, Responded(|head|, |data|));
      reqs := reqs + 1;
      history := history + [Responded(|head|, |data|)];
      assert Counters() == Account(old(Counters()), Responded(|head|, |data|));
      ok := true;
    }

    /** The chunk loop of `handle_file`: read up to 1024 bytes, send them
        (retrying until the whole piece is out), add them to `body_bytes`,
        until the file's size has been sent. */
    method StreamBody(sock: Socket, data: string) returns (ghost chunks: seq<nat>)
      requires sock.Progressing()
      modifies this`bodyBytes, sock
      ensures sock.wire == old(sock.wire) + data && sock.open == old(sock.open)
      ensures bodyBytes == old(bodyBytes) + |data|
      ensures chunks == Chunks(|data|)
    {
      chunks := [];
      var total := 0;
      ghost var wire0 := sock.wire;
      while total < |data|
        invariant total <= |data|
        invariant sock.wire == wire0 + data[..total] && sock.open == old(sock.open)
        invariant bodyBytes == old(bodyBytes) + total
        invariant Chunks(|data|) == chunks + Chunks(|data| - total)
        decreases |data| - total
      {
        var fileRead := Min(BufferSize, |data| - total);
        var piece := data[total..total + fileRead];
        ChunksStep(|data|, chunks, total);
        var fileSent := sock.SendAll(piece);
        assert data[..total] + piece == data[..total + fileRead];
        total := total + fileSent;
        bodyBytes := bodyBytes + fileSent;
        chunks := chunks + [fileRead];
      }
      assert data[..total] == data && chunks + [] == chunks;
    }

    /** The handler `handle_client_request` runs for a request of this kind:
        its reply is the `Answer` for the register and history at entry. */
    method Dispatch(sock: Socket, req: string, files: map<string, string>, kind: Kind)
      returns (ok: bool)
      requires Valid() && sock.Progressing() && kind == Route(req)
      modifies this, written, sock
      ensures Valid()
      ensures Replied(Answer(kind, req, files, old(Register()), old(history)),
                      ok, old(sock.wire), sock.wire, old(history), history)
      ensures kind == Hangup ==> ok
      ensures !ok ==> history == old(history)
      ensures kind != Write ==> writtenSize == old(writtenSize) && unchanged(written)
      ensures kind == Write && StoredContent(req).Some? ==> Register() == StoredContent(req).value
    {
      ghost var w0 := sock.wire;
      ghost var h0 := history;
      ghost var reg := Register();
      ghost var a := Answer(kind, req, files, reg, history);
      match kind {
        case Hangup =>
          assert a == Some(Silent);
          ok := true;
          assert Replied(a, ok, w0, sock.wire, h0, history);
        case Ping =>
          assert a == Some(Success(PingHeader, PingBody));
          ok := HandlePing(sock);
          RepliedSuccess(PingHeader, PingBody, ok, w0, sock.wire, h0, history);
          assert Replied(a, ok, w0, sock.wire, h0, history);
        case Echo =>
          ok := HandleEcho(sock, req);
          if EchoBody(req).Some? {
            var b := EchoBody(req).value;
            assert a == Some(Success(OkHead(|b|), b));
            RepliedSuccess(OkHead(|b|), b, ok, w0, sock.wire, h0, history);
            assert Replied(a, ok, w0, sock.wire, h0, history);
          } else {
            assert a == None;
            assert Replied(a, ok, w0, sock.wire, h0, history);
          }
        case Write =>
          ok := HandleWrite(sock, req);
          if StoredContent(req).Some? {
            var c := StoredContent(req).value;
            assert a == Some(Success(OkHead(|c|), c));
            RepliedSuccess(OkHead(|c|), c, ok, w0, sock.wire, h0, history);
            assert Replied(a, ok, w0, sock.wire, h0, history);
          } else {
            assert a == None;
            assert Replied(a, ok, w0, sock.wire, h0, history);
          }
        case Stats =>
          var b := Report(history);
          assert a == Some(Success(OkHead(|b|), b));
          ok := HandleStats(sock);
          RepliedSuccess(OkHead(|b|), b, ok, w0, sock.wire, h0, history);
          assert Replied(a, ok, w0, sock.wire, h0, history);
        case Read =>
          assert a == Some(Success(OkHead(|reg|), reg));
          ok := HandleRead(sock);
          RepliedSuccess(OkHead(|reg|), reg, ok, w0, sock.wire, h0, history);
          assert Replied(a, ok, w0, sock.wire, h0, history);
        case File =>
          ghost var chunks;
          ok, chunks := HandleFile(sock, req, files);
          if RequestPath(req).Some? && RequestPath(req).value in files {
            var data := files[RequestPath(req).value];
            assert a == Some(Success(OkHead(|data|), data));
            RepliedSuccess(OkHead(|data|), data, ok, w0, sock.wire, h0, history);
            assert Replied(a, ok, w0, sock.wire, h0, history);
          } else if RequestPath(req).Some? {
            assert a == Some(Failure(NotFound));
            RepliedFailure(NotFound, ok, w0, sock.wire, h0, history);
            assert Replied(a, ok, w0, sock.wire, h0, history);
          } else {
            assert a == None;
            assert Replied(a, ok, w0, sock.wire, h0, history);
          }
        case Invalid =>
          assert a == Some(Failure(BadRequest));
          ok := SendError(sock, BadRequest);
          RepliedFailure(BadRequest, ok, w0, sock.wire, h0, history);
          assert Replied(a, ok, w0, sock.wire, h0, history);
      }
    }

    /** The body of the worker loop once a connection is taken: route the
        request, run its handler, close the connection. The reply is the
        `Answer` for the routed kind; the counters move by exactly its
        outcome and never decrease; only a write changes the register. */
    method HandleRequest(sock: Socket, req: string, files: map<string, string>)
      returns (kind: Kind, ok: bool)
      requires Valid() && sock.Progressing()
      modifies this, written, sock
      ensures Valid() && !sock.open
      ensures kind == Route(req)
      ensures Replied(Answer(kind, req, files, old(Register()), old(history)),
                      ok, old(sock.wire), sock.wire, old(history), history)
      ensures var a := Answer(kind, req, files, old(Register()), old(history));
        a.Some? && ok ==> Counters() == Replay(old(Counters()), Entry(a.value))
      ensures kind == Hangup ==> ok
      ensures !ok ==> history == old(history)
      ensures kind != Write ==> writtenSize == old(writtenSize) && unchanged(written)
      ensures kind == Write && StoredContent(req).Some? ==> Register() == StoredContent(req).value
      ensures Grows(old(Counters()), Counters())
    {
      ghost var before := history;
      kind := Route(req);
      ghost var a := Answer(kind, req, files, Register(), history);
      ok := Dispatch(sock, req, files, kind);
      sock.Close();
      if a.Some? && ok {
        ReplayConcat(Zero, before, Entry(a.value));
        HistoryGrows(before, history);
      } else {
        assert history == before;
      }
    }
  }

  /** One pass of the worker loop: take the oldest pending connection from
      the ring and serve the request received on it. */
  method Work(ring: Ring, srv: Server, sock: Socket, req: string, files: map<string, string>)
    returns (kind: Kind, ok: bool)
    requires ring.Valid() && ring.pending > 0 && ring.Queued()[0] == sock.fd
    requires srv.Valid() && sock.Progressing()
    modifies ring, srv, srv.written, sock
    ensures ring.Valid() && ring.Queued() == old(ring.Queued())[1..]
    ensures srv.Valid() && !sock.open && kind == Route(req)
    ensures Replied(Answer(kind, req, files, old(srv.Register()), old(srv.history)),
                    ok, old(sock.wire), sock.wire, old(srv.history), srv.history)
    ensures Grows(old(srv.Counters()), srv.Counters())
  {
    var fd := ring.Dequeue();
    assert fd == sock.fd;
    kind, ok := srv.HandleRequest(sock, req, files);
  }
}
