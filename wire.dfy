/** The fixed texts of the wire protocol and the response heads the server formats. */
module Wire {
  import opened CText

  // Request lines the router compares against, in the order it tries them.
  const PingRequest: string := "GET /ping HTTP/1.1\r\n\r\n"
  const EchoRequest: string := "GET /echo HTTP/1.1\r\n"
  const WriteRequest: string := "POST /write HTTP/1.1\r\n"
  const StatsRequest: string := "GET /stats HTTP/1.1\r\n"
  const ReadRequest: string := "GET /read HTTP/1.1\r\n"
  /** Anything else starting with this is a file request. */
  const GetPrefix: string := "GET "
  /** The file request pattern `"GET /%s HTTP/1.1\r\n"` starts with this
      literal; its blank then matches any run of white space, none included,
      and '/' must follow before `%s`. */
  const FileVerb: string := "GET"

  const OkStatus: string := "HTTP/1.1 200 OK"
  /** The literal text of the header pattern `"Content-Length: %d"` before its space directive. */
  const LengthLabel: string := "Content-Length:"
  const NotFound: string := "HTTP/1.1 404 Not Found"
  const BadRequest: string := "HTTP/1.1 400 Bad Request"

  const PingHeader: string := "HTTP/1.1 200 OK\r\nContent-Length: 4\r\n\r\n"
  const PingBody: string := "pong"

  /** Capacity of the head, body and register buffers. */
  const BufferSize: nat := 1024
  /** Capacity of the request buffer a worker receives into. */
  const RequestSize: nat := 2048

  /** The register's contents before any write. */
  const EmptyRegister: string := "<empty>"

  /** The header line `"Content-Length: %d"` formatted for `n`. */
  function LengthHeader(n: nat): string
  {
    LengthLabel + " " + Decimal(n)
  }

  /** The head `"HTTP/1.1 200 OK\r\nContent-Length: %d\r\n\r\n"` formatted for `n` body bytes. */
  function OkHead(n: nat): string
  {
    OkStatus + CrLf + LengthHeader(n) + CrLfCrLf
  }

  /** The stats body `"Requests: %d\nHeader bytes: %d\nBody bytes: %d\nErrors: %d\nError bytes: %d"`. */
  function StatsText(reqs: nat, headBytes: nat, bodyBytes: nat, errs: nat, errBytes: nat): string
  {
    "Requests: " + Decimal(reqs) + "\nHeader bytes: " + Decimal(headBytes) +
    "\nBody bytes: " + Decimal(bodyBytes) + "\nErrors: " + Decimal(errs) +
    "\nError bytes: " + Decimal(errBytes)
  }

  /** The fixed ping head is the generic success head for the four bytes of "pong". */
  lemma PingHeaderIsOkHead()
    ensures PingHeader == OkHead(|PingBody|)
  {
    assert LengthHeader(4) == "Content-Length: 4" by {
      assert Decimal(4) == "4";
    }
    assert OkHead(4) == "HTTP/1.1 200 OK" + "\r\n" + "Content-Length: 4" + "\r\n\r\n";
  }
}
