/** Request classification by fixed-prefix matching (the dispatch chain of the worker loop). */
module Router {
  import opened CText
  import opened Wire

  /** What the worker does with one received request. `Hangup` is the
      zero-length read: the peer closed, and nothing is sent. */
  datatype Kind = Hangup | Ping | Echo | Write | Stats | Read | File | Invalid

  /** The worker's `if` chain: an empty read hangs up, then the first
      prefix that matches wins, and anything else is a bad request.
      A prefix matches when the received bytes begin with it (`strncmp`
      over the prefix's length). */
  function Route(req: string): Kind
  {
    if |req| == 0 then Hangup
    else if PingRequest <= req then Ping
    else if EchoRequest <= req then Echo
    else if WriteRequest <= req then Write
    else if StatsRequest <= req then Stats
    else if ReadRequest <= req then Read
    else if GetPrefix <= req then File
    else Invalid
  }

  /** The kinds the chain dispatches to a handler on a prefix match. */
  predicate Dispatching(k: Kind) { k != Hangup && k != Invalid }

  /** The text a dispatching kind is recognised by. */
  function Prefix(k: Kind): string
    requires Dispatching(k)
  {
    match k
    case Ping => PingRequest
    case Echo => EchoRequest
    case Write => WriteRequest
    case Stats => StatsRequest
    case Read => ReadRequest
    case File => GetPrefix
  }

  /** The place of a dispatching kind in the chain: lower ranks are tried first. */
  function Rank(k: Kind): nat
    requires Dispatching(k)
  {
    match k
    case Ping => 0
    case Echo => 1
    case Write => 2
    case Stats => 3
    case Read => 4
    case File => 5
  }

  /** Routing, stated without the chain: a non-empty request goes to the
      lowest-ranked kind whose text begins it, and is invalid exactly when no
      kind's text begins it. */
  lemma {:induction false} RouteIsFirstMatch(req: string)
    requires |req| > 0
    ensures Route(req) != Hangup
    ensures Dispatching(Route(req)) ==> Prefix(Route(req)) <= req
    ensures Dispatching(Route(req)) ==>
      forall k :: Dispatching(k) && Rank(k) < Rank(Route(req)) ==> !(Prefix(k) <= req)
    ensures Route(req) == Invalid <==> forall k :: Dispatching(k) ==> !(Prefix(k) <= req)
  {
    var r := Route(req);
    forall k | Dispatching(k) && (r == Invalid || (Dispatching(r) && Rank(k) < Rank(r)))
      ensures !(Prefix(k) <= req)
    {
      match k
      case Ping =>
      case Echo =>
      case Write =>
      case Stats =>
      case Read =>
      case File =>
    }
  }

  /** A text is not a prefix of another when they differ at some shared position. */
  lemma DiffersAt(p: string, s: string, k: nat)
    requires k < |p| && k < |s| && p[k] != s[k]
    ensures !(p <= s)
  {
  }

  /** Each recognised request line, sent on its own, reaches its own handler:
      no earlier prefix in the chain shadows a later one. */
  lemma EachLineReachesItsHandler()
    ensures Route(PingRequest) == Ping && Route(EchoRequest) == Echo
    ensures Route(WriteRequest) == Write && Route(StatsRequest) == Stats
    ensures Route(ReadRequest) == Read
  {
    DiffersAt(PingRequest, EchoRequest, 5);
    DiffersAt(PingRequest, WriteRequest, 0);
    DiffersAt(EchoRequest, WriteRequest, 0);
    DiffersAt(PingRequest, StatsRequest, 5);
    DiffersAt(EchoRequest, StatsRequest, 5);
    DiffersAt(WriteRequest, StatsRequest, 0);
    DiffersAt(PingRequest, ReadRequest, 5);
    DiffersAt(EchoRequest, ReadRequest, 5);
    DiffersAt(WriteRequest, ReadRequest, 0);
    DiffersAt(StatsRequest, ReadRequest, 5);
  }

  /** Ping is matched on the whole request `"GET /ping HTTP/1.1\r\n\r\n"`: a ping
      carrying a header line falls through to file-serve. */
  lemma PingWithHeaderIsFileRequest()
    ensures Route("GET /ping HTTP/1.1\r\nHost: x\r\n\r\n") == File
  {
    var req := "GET /ping HTTP/1.1\r\nHost: x\r\n\r\n";
    DiffersAt(PingRequest, req, 20);
    DiffersAt(EchoRequest, req, 5);
    DiffersAt(WriteRequest, req, 0);
    DiffersAt(StatsRequest, req, 5);
    DiffersAt(ReadRequest, req, 5);
    assert req[..4] == GetPrefix;
  }

  /** File-serve and bad-request outcomes are exactly the GET and non-GET leftovers. */
  lemma LeftoversSplitOnGet(req: string)
    requires Route(req) == File || Route(req) == Invalid
    ensures Route(req) == File <==> GetPrefix <= req
  {
  }
}
