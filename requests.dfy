/** The byte logic of the handlers that read the request: the echo body, the
    write handler's Content-Length scan and copy, and the file-serve path.
    Where the code as written misbehaves, the as-written decision is kept
    beside the corrected one (members whose names end in `AsWritten`). */
module Requests {
  import opened CText
  import opened Wire
  import opened Router

  // ---------------------------------------------------------------------------
  // sscanf(tok, "Content-Length: %d", &length)

  /** What `sscanf` returns for one conversion: EOF (-1) when the input ends
      before the conversion, 0 on a matching failure, 1 with the value. */
  datatype Scan = ScanEof | ScanMismatch | ScanInt(value: int)

  /** The `%d` conversion once leading white space is skipped: an optional
      sign then at least one decimal digit. */
  function ScanInteger(s: string): (r: Scan)
    ensures r == ScanEof <==> s == []
    ensures r.ScanInt? ==> (r.value < 0 ==> s[0] == '-')
  {
    if s == [] then ScanEof
    else
      var digits := if s[0] == '-' || s[0] == '+' then s[1..] else s;
      var d := DigitRun(digits);
      if d == [] then ScanMismatch
      else if s[0] == '-' then ScanInt(-(Value(d) as int))
      else ScanInt(Value(d))
  }

  /** A `sscanf` format made of the literal `lit`, a space directive and
      `%d`: the literal is matched character by character (running out of
      input first is EOF), then the space directive and `%d` skip white
      space and the number is read. */
  function ScanPrefixed(lit: string, tok: string): (r: Scan)
    ensures r.ScanInt? ==> lit <= tok
  {
    if lit == [] then ScanInteger(SkipSpaces(tok))
    else if tok == [] then ScanEof
    else if tok[0] != lit[0] then ScanMismatch
    else ScanPrefixed(lit[1..], tok[1..])
  }

  /** `sscanf(tok, "Content-Length: %d", &length)`. */
  function ScanLength(tok: string): (r: Scan)
    ensures r.ScanInt? ==> LengthLabel <= tok
  {
    ScanPrefixed(LengthLabel, tok)
  }

  /** Past the literal, the conversion reads what follows the skipped white space. */
  lemma ScanPastPrefix(lit: string, tok: string)
    requires lit <= tok
    ensures ScanPrefixed(lit, tok) == ScanInteger(SkipSpaces(tok[|lit|..]))
  {
    LiteralMatched(lit, tok);
  }

  /** A literal the input starts with is matched in full, character by
      character, and the rest of the input is left to the directives after it. */
  lemma {:induction false} LiteralMatched(lit: string, tok: string)
    requires lit <= tok
    ensures ScanPrefixed(lit, tok) == ScanPrefixed([], tok[|lit|..])
  {
    if lit == [] {
      assert tok[|lit|..] == tok;
    } else {
      assert ScanPrefixed(lit, tok) == ScanPrefixed(lit[1..], tok[1..]) by {
        assert tok != [] && tok[0] == lit[0];
      }
      assert lit[1..] <= tok[1..];
      assert tok[1..][|lit| - 1..] == tok[|lit|..];
      LiteralMatched(lit[1..], tok[1..]);
    }
  }

  lemma ScanPastLabel(tok: string)
    requires LengthLabel <= tok
    ensures ScanLength(tok) == ScanInteger(SkipSpaces(tok[|LengthLabel|..]))
  {
    ScanPastPrefix(LengthLabel, tok);
  }

  /** `%d` reads a numeral as the number it denotes. */
  lemma ScanNumeral(n: nat)
    ensures ScanInteger(Decimal(n)) == ScanInt(n)
  {
    var d := Decimal(n);
    assert IsDigit(d[0]);
    DigitRunOfDigits(d);
    ValueOfDecimal(n);
  }

  lemma SkipOneSpace(d: string)
    requires d != [] && !IsSpace(d[0])
    ensures SkipSpaces(" " + d) == d
  {
    assert (" " + d)[1..] == d;
  }

  /** The header the server formats is read back as the number it carries. */
  lemma ScanLengthOfHeader(n: nat)
    ensures ScanLength(LengthHeader(n)) == ScanInt(n)
  {
    var d := Decimal(n);
    var tok := LengthHeader(n);
    assert ScanLength(tok) == ScanInteger(SkipSpaces(" " + d)) by {
      assert LengthLabel <= tok && tok[|LengthLabel|..] == " " + d;
      ScanPastLabel(tok);
    }
    assert SkipSpaces(" " + d) == d by {
      assert IsDigit(d[0]);
      SkipOneSpace(d);
    }
    ScanNumeral(n);
  }

  /** The Content-Length the header lines declare: the value of the first line
      whose conversion succeeds (`sscanf` returns 1). */
  function DeclaredLength(lines: seq<string>): Option<int>
  {
    if lines == [] then None
    else match ScanLength(lines[0])
      case ScanInt(v) => Some(v)
      case _ => DeclaredLength(lines[1..])
  }

  /** The declared length is that of the first line that converts... */
  lemma {:induction false} DeclaredLengthIsFirst(lines: seq<string>, i: nat)
    requires i < |lines| && ScanLength(lines[i]).ScanInt?
    requires forall j :: 0 <= j < i ==> !ScanLength(lines[j]).ScanInt?
    ensures DeclaredLength(lines) == Some(ScanLength(lines[i]).value)
  {
    if i > 0 {
      assert !ScanLength(lines[0]).ScanInt?;
      assert forall j :: 0 <= j < i - 1 ==> lines[1..][j] == lines[j + 1];
      DeclaredLengthIsFirst(lines[1..], i - 1);
    }
  }

  /** ... and there is none exactly when no line converts. */
  lemma {:induction false} DeclaredLengthNone(lines: seq<string>)
    ensures DeclaredLength(lines).None? <==> forall i :: 0 <= i < |lines| ==> !ScanLength(lines[i]).ScanInt?
  {
    if lines != [] {
      DeclaredLengthNone(lines[1..]);
      assert forall i :: 1 <= i < |lines| ==> lines[i] == lines[1..][i - 1];
    }
  }

  /** The scan loop of the write handler: walk the header lines and stop at
      the first one carrying a Content-Length. `length` stays 0 when none does. */
  method ScanHeaderLines(lines: seq<string>) returns (length: int)
    ensures DeclaredLength(lines).Some? ==> length == DeclaredLength(lines).value
    ensures DeclaredLength(lines).None? ==> length == 0
  {
    length := 0;
    var i := 0;
    while i < |lines|
      invariant 0 <= i <= |lines|
      invariant DeclaredLength(lines[i..]) == DeclaredLength(lines)
      invariant length == 0
    {
      var scanned := ScanLength(lines[i]);
      if scanned.ScanInt? {
        length := scanned.value;
        return;
      }
      assert lines[i..][1..] == lines[i + 1..];
      i := i + 1;
    }
    assert lines[i..] == [];
  }

  /** As written, the scan stops at the first line for which `sscanf` returns
      anything but 0, and EOF (-1) leaves `length` at 0. */
  function LengthAsWritten(lines: seq<string>): int
  {
    if lines == [] then 0
    else match ScanLength(lines[0])
      case ScanMismatch => LengthAsWritten(lines[1..])
      case ScanEof => 0
      case ScanInt(v) => v
  }

  /** A line holding only the label runs out of input before `%d`: EOF. */
  lemma ScanOfBareLabel()
    ensures ScanLength(LengthLabel) == ScanEof
  {
    ScanPastLabel(LengthLabel);
    assert LengthLabel[|LengthLabel|..] == [];
  }

  /** A header line holding only "Content-Length:" ends the as-written scan
      with length 0 (so the handler aborts), although a valid header for `n`
      follows and is the declared length. */
  lemma EofLineStopsScanAsWritten(n: nat)
    ensures LengthAsWritten([LengthLabel, LengthHeader(n)]) == 0
    ensures DeclaredLength([LengthLabel, LengthHeader(n)]) == Some(n)
  {
    var lines := [LengthLabel, LengthHeader(n)];
    ScanOfBareLabel();
    ScanLengthOfHeader(n);
    assert lines[1..] == [LengthHeader(n)];
  }

  // ---------------------------------------------------------------------------
  // The length guard and clamp

  /** As written: `assert(length != 0)` then `if(length > 1024) length = 1024`.
      None stands for the failed assertion. */
  function ClampAsWritten(length: int): Option<int>
  {
    if length == 0 then None
    else if length > BufferSize then Some(BufferSize)
    else Some(length)
  }

  /** `%d` reads a minus sign and a numeral as the negated number. */
  lemma ScanNegativeNumeral(n: nat)
    ensures ScanInteger("-" + Decimal(n)) == ScanInt(-(n as int))
  {
    var d := Decimal(n);
    assert ("-" + d)[1..] == d;
    DigitRunOfDigits(d);
    ValueOfDecimal(n);
  }

  /** A negative Content-Length passes the as-written guard and becomes a
      negative copy size, while the corrected guard rejects it. */
  lemma NegativeLengthPassesAsWritten(n: nat)
    requires 0 < n
    ensures LengthAsWritten([LengthLabel + (" " + ("-" + Decimal(n)))]) == -(n as int)
    ensures ClampAsWritten(-(n as int)) == Some(-(n as int))
    ensures ClampLength(-(n as int)) == None
  {
    var tok := LengthLabel + (" " + ("-" + Decimal(n)));
    assert ScanLength(tok) == ScanInt(-(n as int)) by {
      assert LengthLabel <= tok;
      ScanPastLabel(tok);
      assert tok[|LengthLabel|..] == " " + ("-" + Decimal(n));
      SkipOneSpace("-" + Decimal(n));
      ScanNegativeNumeral(n);
    }
    assert [tok][1..] == [];
  }

  /** The stored size for a declared length: only a positive length is
      accepted, and it is limited to the register's capacity. */
  function ClampLength(length: int): (r: Option<nat>)
    ensures r.Some? <==> length > 0
    ensures r.Some? ==> 0 < r.value <= BufferSize
    ensures r.Some? ==> (r.value == length || (r.value == BufferSize && length > BufferSize))
  {
    if length <= 0 then None
    else if length > BufferSize then Some(BufferSize)
    else Some(length)
  }

  // ---------------------------------------------------------------------------
  // The write handler's copy

  /** The bytes of the request after its first "\r\n\r\n", None without one. */
  function Payload(req: string): (r: Option<string>)
    ensures r.Some? ==> |r.value| <= |req|
  {
    match Find(CStr(req), CrLfCrLf)
    case None => None
    case Some(p) => Some(req[p + 4..])
  }

  /** The register's new contents after a write request, or None where the
      handler aborts: no header/body terminator, no request line, no
      Content-Length, or one that is not positive. The copy is limited by the
      declared length, the register's capacity and the bytes received. */
  function StoredContent(req: string): (r: Option<string>)
    ensures r.Some? ==> Payload(req).Some? && r.value <= Payload(req).value
    ensures r.Some? ==> |r.value| <= BufferSize
  {
    match Payload(req)
    case None => None
    case Some(body) =>
      var tokens := Tokens(CStr(req));
      if tokens == [] then None
      else match DeclaredLength(tokens[1..])
        case None => None
        case Some(n) =>
          match ClampLength(n)
          case None => None
          case Some(size) => Some(body[..Min(size, |body|)])
  }

  /** The write handler's steps in order: find the terminator, split the
      request into lines, scan the header lines, check and clamp the length,
      take the payload bytes. None where the handler stops. */
  method ParseWrite(req: string) returns (stored: Option<string>)
    ensures stored == StoredContent(req)
  {
    var payload := Payload(req);
    if payload.None? {
      return None;
    }
    var tokens := Tokens(CStr(req));
    if tokens == [] {
      return None;
    }
    var length := ScanHeaderLines(tokens[1..]);
    var size := ClampLength(length);
    if size.None? {
      return None;
    }
    stored := Some(payload.value[..Min(size.value, |payload.value|)]);
  }

  /** A pointer as the C code sees it: NULL, or an address. */
  datatype Pointer = Null | Address(a: nat)

  /** As written: `start = strstr(request, "\r\n\r\n"); start += 4;
      assert(start != NULL);` with the request buffer at address `base`. */
  function TerminatorCheckAsWritten(c: string, base: nat): bool
    requires base > 0
  {
    var found := match Find(c, CrLfCrLf) { case None => Null case Some(p) => Address(base + p) };
    var start := match found { case Null => Address(4) case Address(a) => Address(a + 4) };
    start != Null
  }

  /** The as-written check never fires, even on a request without a
      terminator, where the corrected handler aborts. */
  lemma MissingTerminatorPassesAsWritten(req: string, base: nat)
    requires base > 0 && Find(CStr(req), CrLfCrLf) == None
    ensures TerminatorCheckAsWritten(CStr(req), base)
    ensures StoredContent(req) == None
  {
  }

  /** As written: how many bytes `memcpy(written, start, written_size)` copies,
      or None where an assertion fires. */
  function CopyCountAsWritten(req: string): Option<int>
  {
    var tokens := Tokens(CStr(req));
    if tokens == [] then None
    else ClampAsWritten(LengthAsWritten(tokens[1..]))
  }

  /** The write request line without its CRLF. */
  const WriteLine: string := "POST /write HTTP/1.1"

  /** A write request with header lines `hs`, the empty line, and payload `b`. */
  function WriteRequestWith(hs: seq<string>, b: string): string
  {
    WriteRequest + Lines(hs) + CrLf + b
  }

  /** The write request whose only header is the Content-Length for `n`. */
  function WriteRequestFor(n: nat, b: string): string
  {
    WriteRequestWith([LengthHeader(n)], b)
  }

  lemma DecimalPlain(n: nat)
    ensures '\r' !in Decimal(n) && '\n' !in Decimal(n) && '\0' !in Decimal(n)
  {
    var d := Decimal(n);
    forall i | 0 <= i < |d| ensures d[i] != '\r' && d[i] != '\n' && d[i] != '\0' {
      assert IsDigit(d[i]);
    }
  }

  lemma LengthHeaderPlain(n: nat)
    ensures LengthHeader(n) != [] && LengthHeader(n)[0] == 'C'
    ensures NoDelims(LengthHeader(n)) && '\0' !in LengthHeader(n)
  {
    DecimalPlain(n);
    assert '\r' !in LengthLabel + " " && '\n' !in LengthLabel + " " && '\0' !in LengthLabel + " ";
  }

  /** A write request is its request line and header lines, CRLF-ended,
      then the empty line and the payload. */
  lemma WriteRequestLines(hs: seq<string>, b: string)
    requires PlainLines(hs)
    ensures PlainLines([WriteLine] + hs)
    ensures WriteRequestWith(hs, b) == Lines([WriteLine] + hs) + (CrLf + b)
  {
    LinesAfter(WriteLine, hs);
    assert WriteRequest == WriteLine + CrLf;
  }

  /** Whatever header lines precede it, the payload is what follows the
      empty line, NUL bytes included; the C string of the request stops at
      the payload's first NUL. */
  lemma WritePayloadWith(hs: seq<string>, b: string)
    requires PlainLines(hs)
    ensures CStr(WriteRequestWith(hs, b)) == Lines([WriteLine] + hs) + (CrLf + CStr(b))
    ensures Payload(WriteRequestWith(hs, b)) == Some(b)
  {
    var ls := [WriteLine] + hs;
    var req := WriteRequestWith(hs, b);
    var l := Lines(ls);
    WriteRequestLines(hs, b);
    assert '\0' !in l + CrLf by { LinesPlain(ls); }
    assert CStr(req) == l + (CrLf + CStr(b)) by {
      assert req == (l + CrLf) + b;
      CStrAfterPlain(l + CrLf, b);
    }
    FindEndOfLines(ls, CStr(b));
    assert req[|l| - 2 + 4..] == b;
  }

  /** The tokens of a write request: its request line, its header lines, and
      then whatever the payload's C string splits into. */
  lemma WriteTokensWith(hs: seq<string>, b: string)
    requires PlainLines(hs)
    ensures Tokens(CStr(WriteRequestWith(hs, b))) == [WriteLine] + hs + Tokens(CrLf + CStr(b))
  {
    WritePayloadWith(hs, b);
    WriteRequestLines(hs, b);
    TokensOfLines([WriteLine] + hs, CrLf + CStr(b));
  }

  /** Lines past the one that declares the length do not change it. */
  lemma {:induction false} DeclaredLengthPrefix(hs: seq<string>, more: seq<string>)
    requires DeclaredLength(hs).Some?
    ensures DeclaredLength(hs + more) == DeclaredLength(hs)
  {
    assert (hs + more)[0] == hs[0];
    if !ScanLength(hs[0]).ScanInt? {
      assert (hs + more)[1..] == hs[1..] + more;
      DeclaredLengthPrefix(hs[1..], more);
    }
  }

  /** The scan of a write request's lines finds the length its header lines declare. */
  lemma WriteDeclares(hs: seq<string>, b: string)
    requires PlainLines(hs) && DeclaredLength(hs).Some?
    ensures Tokens(CStr(WriteRequestWith(hs, b))) != []
    ensures DeclaredLength(Tokens(CStr(WriteRequestWith(hs, b)))[1..]) == DeclaredLength(hs)
  {
    WriteTokensWith(hs, b);
    DeclaredAfterLine(Tokens(CStr(WriteRequestWith(hs, b))), WriteLine, hs, Tokens(CrLf + CStr(b)));
  }

  /** Tokens that follow a request line start with the header lines, so
      the length scan finds the length those lines declare. */
  lemma DeclaredAfterLine(tokens: seq<string>, line: string, hs: seq<string>, more: seq<string>)
    requires tokens == [line] + hs + more && DeclaredLength(hs).Some?
    ensures tokens != [] && DeclaredLength(tokens[1..]) == DeclaredLength(hs)
  {
    assert tokens[1..] == hs + more;
    DeclaredLengthPrefix(hs, more);
  }

  /** The stored content given the handler's intermediate results. */
  lemma StoredContentOf(req: string, b: string, n: nat)
    requires Payload(req) == Some(b) && n > 0
    requires Tokens(CStr(req)) != [] && DeclaredLength(Tokens(CStr(req))[1..]) == Some(n as int)
    ensures StoredContent(req) == Some(b[..Min(Min(n, BufferSize), |b|)])
  {
    assert ClampLength(n) == Some(Min(n, BufferSize));
  }

  /** A write request whose header lines declare a positive length `n`
      stores the first min(n, 1024) payload bytes, or all of them when fewer
      arrived; the payload may hold any bytes, NUL included. */
  lemma WriteStoresPayload(hs: seq<string>, n: nat, b: string)
    requires PlainLines(hs) && DeclaredLength(hs) == Some(n as int) && n > 0
    ensures StoredContent(WriteRequestWith(hs, b)) == Some(b[..Min(Min(n, BufferSize), |b|)])
  {
    var req := WriteRequestWith(hs, b);
    WriteDeclares(hs, b);
    WritePayloadWith(hs, b);
    StoredContentOf(req, b, n);
  }

  /** Header lines that do not convert may come first, and any lines may
      follow: the first Content-Length line decides what is stored. */
  lemma WriteAfterOtherHeaders(before: seq<string>, n: nat, after: seq<string>, b: string)
    requires PlainLines(before) && PlainLines(after) && n > 0
    requires forall j :: 0 <= j < |before| ==> !ScanLength(before[j]).ScanInt?
    ensures StoredContent(WriteRequestWith(before + [LengthHeader(n)] + after, b)) ==
            Some(b[..Min(Min(n, BufferSize), |b|)])
  {
    var hs := before + [LengthHeader(n)] + after;
    LengthHeaderPlain(n);
    forall i | 0 <= i < |hs| ensures hs[i] != [] && NoDelims(hs[i]) && '\0' !in hs[i] {
      if i < |before| { assert hs[i] == before[i]; }
      else if i > |before| { assert hs[i] == after[i - |before| - 1]; }
    }
    assert hs[|before|] == LengthHeader(n);
    ScanLengthOfHeader(n);
    forall j | 0 <= j < |before| ensures !ScanLength(hs[j]).ScanInt? {
      assert hs[j] == before[j];
    }
    DeclaredLengthIsFirst(hs, |before|);
    WriteStoresPayload(hs, n, b);
  }

  /** As written, the copy takes min(Content-Length, 1024) bytes even when the
      request carries fewer after its terminator. */
  lemma OverReadAsWritten(n: nat, b: string)
    requires n > 0 && |b| < Min(n, BufferSize)
    ensures CopyCountAsWritten(WriteRequestFor(n, b)) == Some(Min(n, BufferSize))
    ensures Payload(WriteRequestFor(n, b)) == Some(b)
  {
    var hs := [LengthHeader(n)];
    LengthHeaderPlain(n);
    assert PlainLines(hs);
    WritePayloadWith(hs, b);
    WriteTokensWith(hs, b);
    var tokens := Tokens(CStr(WriteRequestFor(n, b)));
    assert tokens[1..][0] == LengthHeader(n);
    ScanLengthOfHeader(n);
  }

  // ---------------------------------------------------------------------------
  // Echo

  /** Where the echoed text ends: at the first "\r\n\r\n", else at offset 1024
      (or the end of the string, when that comes first). */
  function EchoEnd(c: string): (e: nat)
    ensures e <= |c|
  {
    match Find(c, CrLfCrLf)
    case Some(p) => p
    case None => Min(BufferSize, |c|)
  }

  /** As written: the string is cut at the end point, then the body is what
      follows the first "\r\n" of what is left; None stands for the failed
      `assert(start != NULL)`. */
  function EchoAsWritten(req: string): Option<string>
  {
    var c := CStr(req);
    var t := c[..EchoEnd(c)];
    match Find(t, CrLf)
    case None => None
    case Some(s) => Some(t[s + 2..])
  }

  /** The echoed body: the text after the first "\r\n" up to the end point
      (empty when the terminator directly follows the request line), limited
      to the body buffer's capacity. None where no "\r\n" exists at all. */
  function EchoBody(req: string): (r: Option<string>)
    ensures r.Some? ==> |r.value| <= BufferSize
    ensures r.Some? ==> Find(CStr(req), CrLf).Some?
  {
    var c := CStr(req);
    var e := EchoEnd(c);
    match Find(c, CrLf)
    case None => None
    case Some(s) =>
      var b := if s + 2 <= e then c[s + 2..e] else [];
      Some(b[..Min(|b|, BufferSize)])
  }

  /** The echo request line without its CRLF. */
  const EchoLine: string := "GET /echo HTTP/1.1"

  lemma EchoLineParts()
    ensures EchoRequest == EchoLine + CrLf && '\r' !in EchoLine && '\0' !in EchoRequest
  {
  }

  /** The first CRLF after a CR-free line is the one ending it. */
  lemma FindLineEnd(l: string, rest: string)
    requires '\r' !in l
    ensures Find(l + (CrLf + rest), CrLf) == Some(|l|)
  {
    FindPastPlain(l, CrLf + rest, CrLf);
    assert OccursAt(CrLf + rest, CrLf, 0) by { assert (CrLf + rest)[0..2] == CrLf; }
    FindIs(CrLf + rest, CrLf, 0);
  }

  /** After a CR-free line, CR-free text and a terminator, the terminator found
      first is that one, or the line's own CRLF when the text is empty. */
  lemma {:induction false} FindTerminatorAfterLine(l: string, text: string)
    requires '\r' !in l && '\r' !in text
    ensures Find(l + (CrLf + (text + CrLfCrLf)), CrLfCrLf) ==
      Some(if text == [] then |l| else |l| + |CrLf| + |text|)
  {
    var rest := CrLf + (text + CrLfCrLf);
    FindPastPlain(l, rest, CrLfCrLf);
    if text == [] {
      assert rest == CrLfCrLf + CrLf;
      assert OccursAt(rest, CrLfCrLf, 0) by { assert rest[0..4] == CrLfCrLf; }
      FindIs(rest, CrLfCrLf, 0);
    } else {
      assert text[0] != '\r' by { assert text[0] in text; }
      NoTerminatorAtLineEnd(text, CrLfCrLf);
      FindPast(CrLf, text + CrLfCrLf, CrLfCrLf);
      FindPastPlain(text, CrLfCrLf, CrLfCrLf);
      assert OccursAt(CrLfCrLf, CrLfCrLf, 0);
      FindIs(CrLfCrLf, CrLfCrLf, 0);
    }
  }

  /** After a CR-free line, CR-free text holds no terminator. */
  lemma {:induction false} NoTerminatorAfterLine(l: string, text: string)
    requires '\r' !in l && '\r' !in text
    ensures Find(l + (CrLf + text), CrLfCrLf) == None
  {
    FindPastPlain(l, CrLf + text, CrLfCrLf);
    if text != [] {
      assert text[0] != '\r' by { assert text[0] in text; }
      assert CrLf + text == CrLf + (text + []);
      NoTerminatorAtLineEnd(text, []);
      FindPast(CrLf, text, CrLfCrLf);
      FindPastPlain(text, [], CrLfCrLf);
      assert text + [] == text;
    }
  }

  /** The echo request of `text` as the model's searches see it. */
  lemma EchoRequestPlain(text: string, tail: string)
    requires '\0' !in text && '\0' !in tail
    ensures EchoRequest + text + tail == EchoLine + (CrLf + (text + tail))
    ensures CStr(EchoRequest + text + tail) == EchoRequest + text + tail
  {
    EchoLineParts();
    CStrOfPlain(EchoRequest + text + tail);
  }

  /** Echo round trip: text of at most 1024 bytes sent after the request
      line comes back as the body, whenever the terminator appended to it is
      the first one after the request line (empty text included). */
  lemma EchoRoundTrip(text: string)
    requires '\0' !in text && |text| <= BufferSize
    requires text == [] || Find(CrLf + (text + CrLfCrLf), CrLfCrLf) == Some(|CrLf| + |text|)
    ensures EchoBody(EchoRequest + text + CrLfCrLf) == Some(text)
  {
    var req := EchoRequest + text + CrLfCrLf;
    EchoRequestPlain(text, CrLfCrLf);
    EchoLineParts();
    FindLineEnd(EchoLine, text + CrLfCrLf);
    var c := CStr(req);
    assert c == EchoLine + (CrLf + (text + CrLfCrLf));
    assert Find(c, CrLf) == Some(|EchoLine|);
    if text == [] {
      FindTerminatorAfterLine(EchoLine, text);
    } else {
      FindPastPlain(EchoLine, CrLf + (text + CrLfCrLf), CrLfCrLf);
    }
    var e := EchoEnd(c);
    assert e == if text == [] then |EchoLine| else |EchoRequest| + |text|;
    var b := if |EchoRequest| <= e then c[|EchoRequest|..e] else [];
    assert b == text && b[..Min(|b|, BufferSize)] == b;
  }

  /** Text without CR meets the condition of the round trip. */
  lemma EchoRoundTripPlain(text: string)
    requires '\r' !in text && '\0' !in text && |text| <= BufferSize
    ensures EchoBody(EchoRequest + text + CrLfCrLf) == Some(text)
  {
    if text != [] {
      FindTerminatorAfterLine([], text);
      assert [] + (CrLf + (text + CrLfCrLf)) == CrLf + (text + CrLfCrLf);
    }
    EchoRoundTrip(text);
  }

  /** The echo of a request carrying header lines is those lines, each but
      the last followed by its CRLF: everything between the request line and
      the empty line. */
  lemma EchoOfHeaderLines(ls: seq<string>)
    requires ls != [] && PlainLines(ls)
    ensures |Lines(ls)| >= 2
    ensures |Lines(ls)| - 2 <= BufferSize ==>
      EchoBody(EchoRequest + Lines(ls) + CrLf) == Some(Lines(ls)[..|Lines(ls)| - 2])
  {
    var l := Lines(ls);
    EchoLineParts();
    LinesPlain(ls);
    LinesEchoEnd(EchoLine, ls);
    LineBeforeText(EchoLine, l);
    if |l| - 2 <= BufferSize {
      assert EchoRequest + l + CrLf == EchoLine + CrLf + l + CrLf;
      EchoBodyIs(EchoRequest + l + CrLf, l[..|l| - 2]);
    }
  }

  /** A plain request line, CRLF, NUL-free text and CRLF, when the text's
      last two bytes end the headers: the string is whole, its first CRLF
      ends the request line, and the headers run up to the terminator. */
  lemma LineBeforeText(line: string, l: string)
    requires '\r' !in line && '\0' !in line && '\0' !in l && |l| >= 2
    ensures var req := line + CrLf + l + CrLf;
      CStr(req) == req && Find(req, CrLf) == Some(|line|) &&
      req[|line| + 2..|line| + |l|] == l[..|l| - 2]
  {
    var req := line + CrLf + l + CrLf;
    assert CStr(req) == req by {
      assert '\0' !in req;
      CStrOfPlain(req);
    }
    assert Find(req, CrLf) == Some(|line|) by {
      assert req == line + (CrLf + (l + CrLf));
      FindLineEnd(line, l + CrLf);
    }
    assert req[|line| + 2..|line| + |l|] == l[..|l| - 2];
  }

  /** And its first terminator closes the header lines. */
  lemma LinesEchoEnd(line: string, ls: seq<string>)
    requires line != [] && NoDelims(line) && '\0' !in line
    requires ls != [] && PlainLines(ls)
    ensures |Lines(ls)| >= 2
    ensures EchoEnd(line + CrLf + Lines(ls) + CrLf) == |line| + |Lines(ls)|
  {
    var all := [line] + ls;
    FindEndOfLines(ls, []);
    LinesAfter(line, ls);
    assert line + CrLf + Lines(ls) + CrLf == Lines(all) + (CrLf + []);
    FindEndOfLines(all, []);
  }

  /** The echo of a NUL-free request whose request line is the echo line
      and whose first terminator ends `body`. */
  lemma EchoBodyIs(req: string, body: string)
    requires CStr(req) == req && Find(req, CrLf) == Some(|EchoLine|)
    requires EchoEnd(req) == |EchoRequest| + |body| && |body| <= BufferSize
    requires req[|EchoRequest|..|EchoRequest| + |body|] == body
    ensures EchoBody(req) == Some(body)
  {
    assert |EchoRequest| == |EchoLine| + 2 by { EchoLineParts(); }
    var b := req[|EchoLine| + 2..EchoEnd(req)];
    assert b == body;
    assert b[..Min(|b|, BufferSize)] == b;
  }

  /** Without a terminator, the echoed body stops at offset 1024 of the
      request, whatever lines the text carries. */
  lemma EchoWithoutTerminator(text: string)
    requires '\0' !in text && Find(EchoRequest + text, CrLfCrLf) == None
    ensures EchoBody(EchoRequest + text) == Some(text[..Min(|text|, BufferSize - |EchoRequest|)])
  {
    var req := EchoRequest + text;
    EchoLineParts();
    assert CStr(req) == req by {
      assert '\0' !in req;
      CStrOfPlain(req);
    }
    assert Find(req, CrLf) == Some(|EchoLine|) by {
      assert req == EchoLine + (CrLf + text);
      FindLineEnd(EchoLine, text);
    }
    var e := EchoEnd(req);
    assert e == Min(BufferSize, |req|);
    var body := req[|EchoRequest|..e];
    assert body == text[..Min(|text|, BufferSize - |EchoRequest|)];
    assert body[..Min(|body|, BufferSize)] == body;
  }

  /** CR-free text carries no terminator, so its echo stops at offset 1024. */
  lemma EchoWithoutTerminatorPlain(text: string)
    requires '\r' !in text && '\0' !in text
    ensures EchoBody(EchoRequest + text) == Some(text[..Min(|text|, BufferSize - |EchoRequest|)])
  {
    EchoLineParts();
    NoTerminatorAfterLine(EchoLine, text);
    assert EchoRequest + text == EchoLine + (CrLf + text);
    EchoWithoutTerminator(text);
  }

  /** As written, an echo whose terminator directly follows the request line
      fails its assertion; the corrected body is empty. */
  lemma EmptyEchoAbortsAsWritten()
    ensures EchoAsWritten(EchoRequest + CrLfCrLf) == None
    ensures EchoBody(EchoRequest + CrLfCrLf) == Some([])
  {
    var req := EchoRequest + CrLfCrLf;
    assert req == EchoRequest + [] + CrLfCrLf;
    EchoRequestPlain([], CrLfCrLf);
    EchoLineParts();
    FindLineEnd(EchoLine, [] + CrLfCrLf);
    FindTerminatorAfterLine(EchoLine, []);
    var c := CStr(req);
    assert c == EchoLine + (CrLf + ([] + CrLfCrLf));
    assert EchoEnd(c) == |EchoLine|;
    assert c[..|EchoLine|] == EchoLine;
    FindPastPlain(EchoLine, [], CrLf);
    assert EchoLine + [] == EchoLine;
    assert Find(c[..EchoEnd(c)], CrLf) == None;
    assert Find(c, CrLf) == Some(|EchoLine|);
    var b: string := [];
    assert b[..Min(|b|, BufferSize)] == [];
  }

  /** As written, an echo of any non-empty text without CR is returned whole,
      however long it is. */
  lemma EchoAsWrittenKeepsAll(text: string)
    requires text != [] && '\r' !in text && '\0' !in text
    ensures EchoAsWritten(EchoRequest + text + CrLfCrLf) == Some(text)
  {
    var req := EchoRequest + text + CrLfCrLf;
    EchoRequestPlain(text, CrLfCrLf);
    EchoLineParts();
    FindTerminatorAfterLine(EchoLine, text);
    var t := req[..|EchoRequest| + |text|];
    assert t == EchoLine + (CrLf + text);
    FindLineEnd(EchoLine, text);
    assert t[|EchoLine| + 2..] == text;
  }

  /** As written, a 1100-byte echo body fits the 2048-byte request but not the
      1024-byte body buffer it is copied into. */
  lemma EchoOverflowAsWritten()
    ensures var req := EchoRequest + seq(1100, _ => 'a') + CrLfCrLf;
      |req| <= RequestSize && EchoAsWritten(req).Some? && |EchoAsWritten(req).value| > BufferSize
  {
    var text := seq(1100, _ => 'a');
    assert '\r' !in text && '\0' !in text by {
      forall i | 0 <= i < |text| ensures text[i] == 'a' { }
    }
    EchoAsWrittenKeepsAll(text);
  }

  // ---------------------------------------------------------------------------
  // File-serve

  /** `sscanf(request, "GET /%s HTTP/1.1\r\n", path)`: the literal "GET", then
      the format's blank, which skips any run of white space (none included),
      then '/', then `%s`, which skips white space and reads a run of
      non-space characters. None where nothing is converted (`found > 0`
      fails). What follows the path is never compared, since `found` counts
      only the conversion. */
  function RequestPath(req: string): (r: Option<string>)
    ensures r.Some? ==> r.value != [] && '\0' !in r.value
    ensures r.Some? ==> forall i :: 0 <= i < |r.value| ==> !IsSpace(r.value[i])
    ensures r.Some? ==> FileVerb <= req && |FileVerb| + 1 + |r.value| <= |req|
    ensures r.Some? ==> exists i: nat :: |FileVerb| + 1 <= i && OccursAt(req, r.value, i)
  {
    var c := CStr(req);
    if !(FileVerb <= c) then None
    else
      var r := SlashPath(c[|FileVerb|..]);
      NulFreeSuffix(c, |FileVerb|);
      PathShift(req, c, r);
      r
  }

  /** The part of the format after "GET": the blank (any run of white
      space), '/', and `%s` (white space, then a run of non-space
      characters). The word read sits in the text after at least the '/'. */
  function SlashPath(u: string): (r: Option<string>)
    ensures r.Some? ==> r.value != [] && forall i :: 0 <= i < |r.value| ==> !IsSpace(r.value[i])
    ensures r.Some? ==> 1 + |r.value| <= |u| && ('\0' !in u ==> '\0' !in r.value)
    ensures r.Some? ==> exists j: nat :: 1 <= j && OccursAt(u, r.value, j)
  {
    var after := SkipSpaces(u);
    if after == [] || after[0] != '/' then None
    else
      var t := SkipSpaces(after[1..]);
      var w := Word(t);
      WordInTail(u, after, t, w);
      if w == [] then None else Some(w)
  }

  /** A word found in the text after "GET" is found in the request. */
  lemma PathShift(req: string, c: string, r: Option<string>)
    requires c <= req && FileVerb <= c
    requires r.Some? ==> exists j: nat :: 1 <= j && OccursAt(c[|FileVerb|..], r.value, j)
    ensures r.Some? ==> exists i: nat :: |FileVerb| + 1 <= i && OccursAt(req, r.value, i)
  {
    if r.Some? {
      var j: nat :| 1 <= j && OccursAt(c[|FileVerb|..], r.value, j);
      OccursInTail(req, c, |FileVerb|, c[|FileVerb|..], r.value, j);
    }
  }

  /** A file request names its path: after "GET", any white space, '/', and
      any white space again, the run of non-space characters up to the next
      white space comes back unchanged. */
  lemma PathRoundTrip(gap: string, lead: string, path: string, rest: string)
    requires forall i :: 0 <= i < |gap| ==> IsSpace(gap[i])
    requires forall i :: 0 <= i < |lead| ==> IsSpace(lead[i])
    requires path != [] && '\0' !in path && forall i :: 0 <= i < |path| ==> !IsSpace(path[i])
    requires '\0' !in rest && (rest == [] || IsSpace(rest[0]))
    ensures RequestPath(FileVerb + gap + "/" + lead + path + rest) == Some(path)
  {
    var req := FileVerb + gap + "/" + lead + path + rest;
    var tail := lead + (path + rest);
    assert req == FileVerb + (gap + ("/" + tail));
    assert CStr(req) == req by {
      assert '\0' !in gap by { forall i | 0 <= i < |gap| ensures gap[i] != '\0' { assert IsSpace(gap[i]); } }
      assert '\0' !in lead by { forall i | 0 <= i < |lead| ensures lead[i] != '\0' { assert IsSpace(lead[i]); } }
      assert '\0' !in FileVerb + (gap + ("/" + tail));
      CStrOfPlain(req);
    }
    assert FileVerb <= req && req[|FileVerb|..] == gap + ("/" + tail);
    assert SkipSpaces(req[|FileVerb|..]) == "/" + tail by {
      SkipSpacesPast(gap, "/" + tail);
    }
    assert SkipSpaces(tail) == path + rest by {
      assert (path + rest)[0] == path[0];
      SkipSpacesPast(lead, path + rest);
    }
    WordBefore(path, rest);
    RequestPathIs(req, tail, path + rest);
  }

  /** The path read, given the decisions `RequestPath` takes on the way. */
  lemma RequestPathIs(req: string, tail: string, t: string)
    requires CStr(req) == req && FileVerb <= req
    requires SkipSpaces(req[|FileVerb|..]) == "/" + tail
    requires SkipSpaces(tail) == t && Word(t) != []
    ensures RequestPath(req) == Some(Word(t))
  {
    assert ("/" + tail)[1..] == tail;
  }

  /** Two blanks between "GET" and '/' still make a file request ... */
  lemma WideGapIsFileRequest()
    ensures Route("GET  /a HTTP/1.1\r\n\r\n") == File
  {
    var req := "GET  /a HTTP/1.1\r\n\r\n";
    DiffersAt(PingRequest, req, 4);
    DiffersAt(EchoRequest, req, 4);
    DiffersAt(WriteRequest, req, 0);
    DiffersAt(StatsRequest, req, 4);
    DiffersAt(ReadRequest, req, 4);
    assert req[..4] == GetPrefix;
  }

  /** ... whose path is read past the blanks, whatever follows it. */
  lemma WideGapPath(rest: string)
    requires '\0' !in rest && (rest == [] || IsSpace(rest[0]))
    ensures RequestPath("GET  /a" + rest) == Some("a")
  {
    assert FileVerb + "  " + "/" + [] + "a" + rest == "GET  /a" + rest by {
      assert FileVerb + "  " + "/" + [] + "a" == "GET  /a";
    }
    PathRoundTrip("  ", [], "a", rest);
  }
}
