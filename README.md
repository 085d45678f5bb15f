# threaded-server in Dafny

A model of the request-handling core of `server.c`, a small multi-threaded
HTTP/1.1 server. The accepting thread hands each client socket to a pool
of workers through a ten-slot ring. A worker reads one request and routes
it by fixed-prefix matching to one of these handlers:

- ping, which answers "pong";
- echo, which returns the bytes after the request line;
- write, which stores a Content-Length-sized payload in a shared 1024-byte register;
- read, which returns the register;
- stats, which reports five counters;
- file-serve, which streams a file in 1024-byte pieces.

Anything else gets a 400 literal. Every error goes through `send_error`,
and every success response except a served file goes through
`send_response`. These two senders update the counters `reqs`,
`head_bytes`, `body_bytes`, `errs` and `err_bytes`. The file handler
sends its own head and body pieces and updates `head_bytes`,
`body_bytes` and `reqs` itself.

Modules, in dependency order:

- `CText` (ctext.dfy): the C library behaviour the handlers rely on. It covers:
  - NUL-terminated views (`CStr`);
  - `strstr` (`Find`, with its first-occurrence contract);
  - `strtok_r` with the delimiters "\r\n" (`Tokens`), and header lines each
    ended by CRLF (`Lines`);
  - `isspace`, and the `%s` and `%d` conversions;
  - decimal numerals, printed and read back.
- `Wire` (wire.dfy): the request and response literals, the formatted
  success head `OkHead` and the stats text.
- `Router` (router.dfy): the dispatch chain of the worker loop as a pure
  function, `Route`, and its first-match characterisation.
- `Requests` (requests.dfy): the handlers' byte logic as functions over
  the received request:
  - the echo body;
  - the Content-Length scan, guard and clamp;
  - the payload the write handler stores;
  - the path of a file request.

  Where the code misbehaves, its as-written decision sits beside the
  corrected one (see Findings).
- `Accounting` (accounting.dfy): the five counters as a value, the update
  one outcome makes (`Account`), and a history replayed from zero.
- `Handoff` (handoff.dfy): the ring `clients[10]`, `in` and `out` as a class
  over a 10-slot array. A pending count stands in for the `empty` and
  `work` semaphores.
- `Transport` (transport.dfy): a client socket. It has:
  - the send primitive, which accepts some prefix of what it is offered;
  - the retry loop that completes a partial send;
  - the sizes the file handler's `read` calls return.
- `Service` (service.dfy): the shared state as a class:
  - the register as a 1024-character array with its size;
  - the five counters;
  - a ghost history of completed outcomes.

  Its methods are the senders and handlers, and `Work` is one pass of the
  worker loop. `Answer` is the reference for what the routed handler
  sends.

A handler's `ok` result of false marks the point where the C code's
`assert` would stop the process. The model uses the corrected parsing
functions, so in each handler `ok` is false exactly where the corrected
parse has no value, or where a send came up short.

The file system is a parameter `files: map<string, string>`. An `open`
that fails is a path missing from the map. A read of a regular file returns
min(1024, remaining) bytes. The peer's acceptance of sends is a parameter
too: the function `grant` of the socket.

The 404 literal goes through `send_error` (server.c:178), so it adds to
`errs` and `err_bytes`. The model follows this: `HandleFile` on a missing
path appends `Rejected(|NotFound|)` to the history.

## Model

| member | source | states |
|---|---|---|
| CText.CStr | server.c:103 | the C string of a buffer is its prefix before the first NUL and contains no NUL |
| CText.Find | server.c:91-98 | `strstr`: a found offset is an occurrence with no earlier one; NULL means the pattern occurs nowhere |
| CText.FindPast | server.c:91-98 | an occurrence-free prefix shifts the first occurrence by its length |
| CText.Word | server.c:173 | `%s` reads the longest run of non-space characters |
| CText.Tokens | server.c:137-146 | the `strtok_r` tokens are non-empty and free of CR and LF |
| CText.TokensOfLine | server.c:137-146 | a CR/LF-free line ended by CRLF is the next token, and scanning resumes after it |
| CText.TokensOfLines | server.c:137-146 | CR/LF/NUL-free lines, each ended by CRLF, are the next tokens, one per line |
| CText.FindEndOfLines | server.c:133 | after such lines the first "\r\n\r\n" is the empty line that closes them |
| CText.SkipSpacesPast | server.c:173 | skipping white space passes over a run of it and stops at the first other character |
| CText.WordBefore | server.c:173 | `%s` reads a run of non-space characters up to the white space after it |
| CText.Decimal | server.c:106 | the `%d` numeral of a number is a non-empty digit string |
| CText.ValueOfDecimal | server.c:106 | reading a printed numeral back gives the number printed |
| CText.CStrOfPlain | server.c:103 | a buffer without NUL is its own C string |
| CText.CStrAfterPlain | server.c:133-137 | a NUL-free prefix passes through the C-string view unchanged: the view of the prefix and a rest is the prefix followed by the view of the rest |
| Wire.OkHead | server.c:12 | (definition) the 200 head with "Content-Length: " and the decimal body size |
| Wire.StatsText | server.c:228 | (definition) the stats body: the five counters in decimal under their labels |
| Wire.PingHeaderIsOkHead | server.c:12-20 | the fixed ping head is the generic 200 head for the 4 bytes of "pong" |
| Router.Route | server.c:249-266 | (definition) an empty read hangs up; otherwise ping, echo, write, stats, read and "GET " are tried in that order and the first prefix that begins the request wins; anything else is a bad request |
| Router.RouteIsFirstMatch | server.c:249-266 | a non-empty request goes to the lowest-ranked handler whose prefix begins it; it is a bad request exactly when no prefix does |
| Router.EachLineReachesItsHandler | server.c:252-261 | no earlier prefix in the chain shadows a later request line |
| Router.PingWithHeaderIsFileRequest | server.c:252-263 | ping must match the whole request: a ping carrying a header falls to file-serve |
| Router.LeftoversSplitOnGet | server.c:262-266 | a request no handler prefix matches is a file request exactly when it starts with "GET " |
| Requests.ScanInteger | server.c:143 | `%d` yields EOF exactly on empty input, and a negative value only after '-' |
| Requests.ScanLength | server.c:143 | a successful `Content-Length: %d` conversion implies the line starts with the label |
| Requests.ScanLengthOfHeader | server.c:17 | the header the server formats for n is read back as n |
| Requests.DeclaredLength | server.c:141-147 | (definition) the value of the first header line whose `Content-Length: %d` conversion succeeds, None when none does |
| Requests.LengthAsWritten | server.c:141-147 | (definition) as written: the scan stops at the first line whose `sscanf` result is not 0, and EOF leaves the length at 0 |
| Requests.DeclaredLengthIsFirst | server.c:141-147 | the declared length is that of the first line that converts |
| Requests.DeclaredLengthNone | server.c:141-148 | there is no declared length exactly when no line converts |
| Requests.DeclaredLengthPrefix | server.c:141-147 | lines after the one that declares the length do not change it |
| Requests.ScanHeaderLines | server.c:141-147 | the scan loop returns the declared length, or 0 when none is declared |
| Requests.ScanOfBareLabel | server.c:143 | a line holding only the label runs out of input before `%d`: the conversion reports EOF |
| Requests.ScanNegativeNumeral | server.c:143 | `%d` reads '-' followed by the numeral of n as -n |
| Requests.ScanNumeral | server.c:143 | `%d` reads the numeral of n back as n |
| Requests.EofLineStopsScanAsWritten | server.c:143-148 | as written, a bare "Content-Length:" line before the header for any n stops the scan at 0; the corrected scan finds n |
| Requests.NegativeLengthPassesAsWritten | server.c:143-150 | as written, Content-Length -n for any positive n is scanned as -n and passes the guard as a copy size of -n; the corrected guard rejects it |
| Requests.ClampAsWritten | server.c:148-150 | (definition) as written: 0 aborts, a length above 1024 becomes 1024, any other length, negative included, is kept |
| Requests.ClampLength | server.c:148-150 | a length is accepted exactly when positive; the size is the length, or 1024 when the length is larger |
| Requests.Payload | server.c:133-134 | the bytes after the first "\r\n\r\n" of the C string, None without one; never longer than the request |
| Requests.StoredContent | server.c:133-154 | the stored bytes are a prefix of the bytes after the first "\r\n\r\n", at most 1024 long |
| Requests.ParseWrite | server.c:133-150 | the handler's parse steps in order give exactly `StoredContent` |
| Requests.WritePayloadWith | server.c:133-135 | whatever plain header lines a write request carries, its payload is all that follows the empty line, NUL bytes included, while its C string ends at the payload's first NUL |
| Requests.WriteTokensWith | server.c:137-146 | the tokens of a write request are its request line, its header lines, then the tokens of the payload up to its first NUL |
| Requests.TerminatorCheckAsWritten | server.c:133-135 | (definition) as written: the check runs on the search result already advanced by 4, so a NULL result is seen as address 4 |
| Requests.CopyCountAsWritten | server.c:137-154 | (definition) as written: the `memcpy` count is the as-written scan through the as-written guard and clamp, None where an assertion fires |
| Requests.MissingTerminatorPassesAsWritten | server.c:133-135 | as written, the check on `start` never fires, even without a terminator; the corrected handler stops there |
| Requests.WriteStoresPayload | server.c:133-154 | a write whose CR/LF/NUL-free header lines declare a positive length n stores the first min(n, 1024) bytes after the empty line, whatever bytes they are (NUL included), or all of them when fewer arrived |
| Requests.WriteAfterOtherHeaders | server.c:137-154 | header lines that do not convert may come before the Content-Length line and any plain lines may follow it: the first Content-Length line decides what is stored, for a payload of any bytes |
| Requests.OverReadAsWritten | server.c:150-154 | as written, the copy takes min(n, 1024) bytes even when fewer follow the terminator |
| Requests.EchoAsWritten | server.c:91-103 | (definition) as written: the string is cut at the terminator, or at offset 1024, before its first "\r\n" is searched, and the body is all that follows that "\r\n" |
| Requests.EchoEnd | server.c:91-94 | the echo end point lies within the request |
| Requests.EchoBody | server.c:91-104 | the echoed body exists only when the request has a CRLF, and fits the 1024-byte body buffer |
| Requests.EchoRoundTrip | server.c:91-106 | text of at most 1024 bytes sent after the echo line comes back exactly whenever the terminator appended to it is the first one after the request line (empty text included) |
| Requests.EchoRoundTripPlain | server.c:91-106 | in particular any CR-free text of at most 1024 bytes comes back exactly |
| Requests.EchoOfHeaderLines | server.c:91-106 | for header lines after the echo line, the body is everything up to the empty line: the lines joined by CRLF, when that fits 1024 bytes |
| Requests.EchoWithoutTerminator | server.c:91-96 | for any NUL-free text after the echo line in which no "\r\n\r\n" occurs, header lines without the closing empty line included, the body is that text up to offset 1024 of the request |
| Requests.EchoWithoutTerminatorPlain | server.c:91-96 | in particular CR-free text is echoed up to offset 1024 of the request |
| Requests.EmptyEchoAbortsAsWritten | server.c:91-99 | as written, a terminator right after the echo line trips the assertion; the corrected body is empty |
| Requests.EchoAsWrittenKeepsAll | server.c:96-104 | as written, non-empty CR-free text is echoed whole, whatever its length |
| Requests.EchoOverflowAsWritten | server.c:87-104 | as written, a 1100-byte body fits the 2048-byte request but overflows the 1024-byte body buffer |
| Requests.RequestPath | server.c:172-174 | the converted path is non-empty and free of white space and NULs, the request starts with "GET", and the path occurs in the request at an offset past "GET" and the '/' |
| Requests.SlashPath | server.c:173 | after "GET", the word read past white space, '/' and white space again is non-empty, free of white space, NUL-free when the text is, and occurs in the text past the '/' |
| Requests.PathRoundTrip | server.c:172-174 | after "GET", any run of white space (none included), '/' and any white space again, the run of non-space characters up to the next white space is the path read |
| Requests.WideGapIsFileRequest | server.c:262-263 | a request with two blanks between "GET" and '/' is routed to file-serve |
| Requests.WideGapPath | server.c:172-174 | and its path "a" is read past the two blanks, whatever follows it |
| Accounting.Account | server.c:52-67 | (definition) a response adds 1 to `reqs` and its head and body sizes to `head_bytes` and `body_bytes`; an error adds 1 to `errs` and its length to `err_bytes` |
| Accounting.Replay | server.c:52-67 | (definition) the counters after a history, each outcome accounted for in turn, oldest first |
| Accounting.Totals | server.c:52-67 | (definition) the reference totals: the contributions of the outcomes added up |
| Accounting.ReplayIsTotals | server.c:52-67 | counters starting at zero hold the number of responses and errors, and their head, body and error bytes |
| Accounting.TotalsAppend | server.c:52-67 | one more outcome adds exactly its own contribution to the totals |
| Accounting.ReplaySnoc | server.c:52-67 | appending an outcome to the history is accounting for it |
| Accounting.ReplayGrows | server.c:52-67 | no counter ever decreases over any history |
| Accounting.HistoryGrows | server.c:52-67 | a history that extends another leaves every counter at least as high |
| Accounting.ReplayConcat | server.c:52-67 | replaying two histories in turn equals replaying their concatenation |
| Handoff.RingView | server.c:35-36 | the pending handles are the slots from `out` onwards, wrapping at 10 |
| Handoff.SlotsDistinct | server.c:242 | different offsets below 10 from `out` name different slots |
| Handoff.RingPush | server.c:334-335 | storing at `in` appends the handle and keeps the pending ones |
| Handoff.RingPop | server.c:241-242 | taking at `out` yields the oldest handle and leaves the rest in order |
| Handoff.Ring.constructor | server.c:35-39 | the ring starts with both indices at 0 and nothing pending |
| Handoff.Ring.Enqueue | server.c:332-337 | with a free slot, the handle joins the back of the queue, `in` advances mod 10, and the indices stay below 10 |
| Handoff.Ring.Dequeue | server.c:239-244 | with work pending, the oldest handle is returned and removed, and `out` advances mod 10 |
| Handoff.HandOffInOrder | server.c:332-337 | two handles stored into a fresh ring are taken back in the order they were stored |
| Transport.Socket.Send | server.c:42 | a send delivers a prefix of what it is offered and returns its length |
| Transport.Socket.SendRest | server.c:45-47 | on a progressing connection the retry loop ends with every remaining byte delivered in order |
| Transport.Socket.SendAll | server.c:200-205 | one send of a whole piece followed by the retry loop delivers every byte of the piece, in order |
| Transport.Socket.Close | server.c:267 | closing the connection sends nothing |
| Transport.Chunks | server.c:198-199 | (definition) the sizes `read` returns while bytes remain: min(1024, remaining) each time |
| Transport.SumCons | server.c:207 | the total of the sizes is the first size plus the total of the rest |
| Transport.ChunksCover | server.c:195-212 | a file of n bytes goes out in ceiling(n/1024) non-empty pieces of at most 1024 bytes, all full but the last, adding up to n |
| Service.Server.constructor | server.c:22-29 | the register starts as "<empty>" with size 7 and every counter at 0 |
| Service.Server.SendResponse | server.c:41-57 | head then body are sent; a completed response adds 1 to `reqs` and the head and body sizes to their counters; `errs` and `err_bytes` are unchanged |
| Service.Server.SendError | server.c:59-68 | the literal is sent; a completed error adds 1 to `errs` and its length to `err_bytes`, and nothing else |
| Service.Server.HandlePing | server.c:70-83 | the fixed head `ping_header` and "pong" are sent and counted as a response |
| Service.Server.HandleEcho | server.c:85-109 | the echoed body is sent under a head declaring its length |
| Service.Server.HandleRead | server.c:111-125 | the register is sent under a head declaring its size and is left unchanged |
| Service.Server.HandleWrite | server.c:127-164 | the register becomes exactly the stored content and is sent back under a head declaring its size; without stored content nothing changes |
| Service.Server.Store | server.c:152-155 | the register is replaced whole by the new content |
| Service.Server.HandleStats | server.c:221-233 | the body is the report of the history so far under a head declaring its length |
| Service.Server.HandleFile | server.c:166-219 | a missing file gets the 404 literal through the error path and a close; a present one gets a head with its size, then its bytes |
| Service.Server.ServeFile | server.c:183-218 | a served file adds the head size to `head_bytes`, the file size to `body_bytes` and 1 to `reqs` |
| Service.Server.SendFileReply | server.c:188-216 | the formatted head goes out in one send (the process stops unless it went out whole), then the body; a completed reply counts the head, the body and one request, and the counters stay the account of the history |
| Service.Server.StreamBody | server.c:195-212 | the chunk loop delivers the file in `Chunks` pieces and adds its size to `body_bytes` |
| Service.Report | server.c:227-228 | (definition) the stats text of the totals of the history |
| Service.Answer | server.c:249-266 | (definition) the reply of the routed handler: ping head and "pong", the echo body, the stored content, the report, the register, the file or the 404 literal, the 400 literal, or nothing on a zero-length read; None where the handler stops |
| Service.AnswerShape | server.c:249-266 | every success reply has a head declaring its body's length; only a bad request (400) or a missing file (404) gets an error literal; only a zero-length read sends nothing |
| Service.Server.Dispatch | server.c:249-266 | the bytes sent and the outcome recorded are those of `Answer` for the routed kind: ping head and "pong", the echo body, the stored content, the stats report, the register, the file or 404, the 400 literal, or nothing on a zero-length read; where the handler stops nothing is sent; only a write changes the register |
| Service.Server.HandleRequest | server.c:249-267 | the routed handler's `Answer` is sent and recorded, the counters move by exactly its outcome and never decrease, and the connection is closed; only a write changes the register |
| Service.Work | server.c:239-267 | the oldest pending handle is taken from the ring, and the request is answered with the `Answer` of its routed kind |

## Left out

- Socket creation, bind, listen and `accept` (`prepare_socket`, `create_server_socket`, the `accept` call of `accept_client`) are operating-system I/O. Only the ring hand-off of `accept_client` is modelled.
- Threads, `pthread_detach`, the semaphores and the mutexes are left out. Each operation is modelled as one atomic sequential step. The semaphores' blocking becomes the preconditions `pending < Slots` and `pending > 0`.
- `recv_http_request` is not part of this model. The request is the received bytes, handed in as a parameter; its length is the returned `len`. Bytes past the received ones are not modelled, so the C string of the request ends at the first NUL or at the end of the received bytes. A negative return of the receive is not modelled.
- Transport.Socket.Send: `send_fully` is not part of this model. A send returns min(grant(call number, requested size), requested size) bytes, for a function `grant` of the call number and the requested size; error returns (negative counts) are not modelled.
- The double `close(sockfd)` on the 404 and zero-length paths (server.c:179, 250 and 267) is left out. `Close` is idempotent in the model.
- The static `path[128]` buffer and its overflow by a path longer than 127 bytes are left out.
- The counters and `written_size` are `int` in C, and their 32-bit overflow is not modelled: the counters are unbounded naturals.
- The C `int` width of two parsed or measured sizes is not modelled. `length` is read with `%d` (server.c:141-143), and a value beyond INT_MAX is undefined behaviour; glibc truncates it, so "Content-Length: 4294967297" stores at most 1 byte where the model stores up to 1024. `int file_size = s.st_size` (server.c:185) keeps the file size modulo 2^32. A file of 2 GiB up to 4 GiB gets a negative `Content-Length` and no body. A larger file gets the wrapped size as its `Content-Length`, or a negative one when the wrapped value is 2^31 or more. The body then goes out in 1024-byte reads only until at least the wrapped size has been sent, and not at all when that size is negative, so a part of the file goes out under a `Content-Length` that is not its size. The model declares and sends the whole file.
- `strtok_r` writes NULs into the request buffer. When the scan runs past the headers into the payload, these writes could change the bytes the write handler copies. The model copies the payload as received.
- `open`, `fstat`, `read` and `close` on files are modelled by a map lookup and by reads of min(1024, remaining) bytes. Directories, unreadable files, short reads and files that change while being read are not modelled.
- The local `head[1024]` and `body[1024]` buffers are modelled as sequences. `snprintf` truncation of the head cannot occur for the sizes involved and is not modelled.
- CText.IsSpace: the "C" locale classes only.

## Findings

| source | as written | input that shows it | evidently intended | confidence | as-written member | corrected member |
|---|---|---|---|---|---|---|
| server.c:143 | the scan stops on any `sscanf` result other than 0, so EOF (-1) also stops it | a header line holding only "Content-Length:" before "Content-Length: 5": the length stays 0 and the handler aborts | stop only on a successful conversion (result 1) | not executed; high | Requests.EofLineStopsScanAsWritten | Requests.DeclaredLengthIsFirst |
| server.c:148-150 | only `length != 0` is checked | "Content-Length: -1" gives a copy size of -1, a huge `memcpy` | accept only positive lengths | not executed; high | Requests.NegativeLengthPassesAsWritten | Requests.ClampLength |
| server.c:133-135 | `assert(start != NULL)` comes after `start += 4`, so it never fires | a write request without "\r\n\r\n": `start` is NULL+4 | check the search result before advancing | not executed; high | Requests.MissingTerminatorPassesAsWritten | Requests.StoredContent |
| server.c:150-154 | `memcpy` copies min(length, 1024) bytes whatever arrived after the terminator | "Content-Length: 10" with a 3-byte payload copies 7 bytes that were not received | copy only the received payload bytes | not executed; medium (depends on `recv_http_request`, which is not part of this model) | Requests.OverReadAsWritten | Requests.WriteStoresPayload |
| server.c:96-99 | the string is cut at the terminator before the first "\r\n" is searched | "GET /echo HTTP/1.1\r\n\r\n": no "\r\n" is left and the assertion aborts | an empty echo body | not executed; high | Requests.EmptyEchoAbortsAsWritten | Requests.EchoRoundTrip |
| server.c:103-104 | the echo body is copied into `body[1024]` without a bound | 1100 'a's between the echo line and "\r\n\r\n" overflow `body` | limit the body to the buffer's 1024 bytes | not executed; high | Requests.EchoOverflowAsWritten | Requests.EchoBody |
