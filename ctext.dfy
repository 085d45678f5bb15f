/** The C library string primitives the server relies on, over `seq<char>`:
    NUL-terminated views, `strstr`, `strtok_r` with the delimiters "\r\n",
    the character classes `sscanf` uses, and decimal digits. */
module CText {

  datatype Option<T> = None | Some(value: T)

  const CrLf: string := "\r\n"
  const CrLfCrLf: string := "\r\n\r\n"

  function Min(a: int, b: int): int { if a <= b then a else b }

  // ---------------------------------------------------------------------------
  // NUL-terminated view of a buffer

  /** The C string stored at the start of buffer `s`: everything before the
      first NUL (all of `s` when it holds none). */
  function CStr(s: string): (r: string)
    ensures r <= s && '\0' !in r
    ensures |r| < |s| ==> s[|r|] == '\0'
  {
    if s == [] || s[0] == '\0' then [] else [s[0]] + CStr(s[1..])
  }

  lemma {:induction false} CStrOfPlain(s: string)
    requires '\0' !in s
    ensures CStr(s) == s
  {
    if s != [] {
      assert s[0] in s;
      assert '\0' !in s[1..] by {
        forall i | 0 <= i < |s[1..]| ensures s[1..][i] != '\0' { assert s[1..][i] == s[i + 1]; }
      }
      CStrOfPlain(s[1..]);
    }
  }

  /** A NUL-free prefix is part of the C string whole; the rest of the C
      string is that of what follows. */
  lemma {:induction false} CStrAfterPlain(a: string, b: string)
    requires '\0' !in a
    ensures CStr(a + b) == a + CStr(b)
  {
    if a != [] {
      assert a[0] in a;
      assert CStr(a + b) == [a[0]] + CStr(a[1..] + b) by {
        assert (a + b)[0] == a[0] && (a + b)[1..] == a[1..] + b;
      }
      NulFreeSuffix(a, 1);
      CStrAfterPlain(a[1..], b);
      assert [a[0]] + (a[1..] + CStr(b)) == a + CStr(b);
    } else {
      assert a + b == b && a + CStr(b) == CStr(b);
    }
  }

  /** A suffix of a suffix of `s` is a suffix of `s`. */
  lemma SuffixOfSuffix(s: string, u: string, v: string)
    requires |u| <= |s| && u == s[|s| - |u|..]
    requires |v| <= |u| && v == u[|u| - |v|..]
    ensures v == s[|s| - |v|..]
  {
  }

  /** A prefix of a suffix of `s` sits in `s` where that suffix starts. */
  lemma PrefixOfSuffix(s: string, u: string, w: string)
    requires |u| <= |s| && u == s[|s| - |u|..] && w <= u
    ensures OccursAt(s, w, |s| - |u|)
  {
    assert s[|s| - |u|..][..|w|] == s[|s| - |u|..|s| - |u| + |w|];
  }

  /** The tail of a prefix of `s` is the matching slice of `s`. */
  lemma TailOfPrefix(s: string, p: string, k: nat)
    requires p <= s && k <= |p|
    ensures p[k..] == s[k..k + |p[k..]|]
  {
  }

  /** What sits in a slice of `s` sits in `s`, shifted by the slice's start. */
  lemma OccursWithin(s: string, k: nat, u: string, w: string, j: nat)
    requires k + |u| <= |s| && u == s[k..k + |u|] && OccursAt(u, w, j)
    ensures OccursAt(s, w, k + j)
  {
    forall i | 0 <= i < |w| ensures s[k + j..k + j + |w|][i] == w[i] {
      assert s[k + j..k + j + |w|][i] == s[k..k + |u|][j + i] == u[j..j + |w|][i];
    }
  }

  /** What sits in the tail of a prefix of `s` sits in `s`. */
  lemma OccursInTail(s: string, p: string, k: nat, u: string, w: string, j: nat)
    requires p <= s && k <= |p| && u == p[k..] && OccursAt(u, w, j)
    ensures OccursAt(s, w, k + j)
  {
    TailOfPrefix(s, p, k);
    OccursWithin(s, k, u, w, j);
  }

  /** A word read from a suffix of the text after `'/'`, itself a suffix of
      `u`, sits in `u` past the `'/'`, and holds no NUL when `u` holds none. */
  lemma WordInTail(u: string, after: string, t: string, w: string)
    requires |after| <= |u| && after == u[|u| - |after|..] && after != []
    requires |t| <= |after[1..]| && t == after[1..][|after[1..]| - |t|..] && w <= t
    ensures 1 + |w| <= |u| && ('\0' !in u ==> '\0' !in w)
    ensures exists j: nat :: 1 <= j && OccursAt(u, w, j)
  {
    assert after[1..] == after[|after| - |after[1..]|..];
    SuffixOfSuffix(u, after, after[1..]);
    SuffixOfSuffix(u, after[1..], t);
    PrefixOfSuffix(u, t, w);
    assert OccursAt(u, w, |u| - |t|);
    if '\0' !in u {
      NulFreeSuffix(u, |u| - |t|);
      NulFreePrefix(t, |w|);
      assert t[..|w|] == w;
    }
  }

  lemma NulFreeSuffix(s: string, k: nat)
    requires '\0' !in s && k <= |s|
    ensures '\0' !in s[k..]
  {
    forall i | 0 <= i < |s| - k ensures s[k..][i] != '\0' { assert s[k..][i] == s[k + i]; }
  }

  lemma NulFreePrefix(s: string, k: nat)
    requires '\0' !in s && k <= |s|
    ensures '\0' !in s[..k]
  {
    forall i | 0 <= i < k ensures s[..k][i] != '\0' { assert s[..k][i] == s[i]; }
  }

  // ---------------------------------------------------------------------------
  // strstr

  /** `pat` occurs in `s` at offset `i`. */
  predicate OccursAt(s: string, pat: string, i: nat)
  {
    i + |pat| <= |s| && s[i..i + |pat|] == pat
  }

  /** `strstr(s, pat)`: the offset of the first occurrence of `pat`, or None
      where `strstr` returns NULL. */
  function Find(s: string, pat: string): (r: Option<nat>)
    ensures r.Some? ==> OccursAt(s, pat, r.value)
    ensures r.Some? ==> forall j: nat :: j < r.value ==> !OccursAt(s, pat, j)
    ensures r.None? ==> forall j: nat :: !OccursAt(s, pat, j)
  {
    FindFrom(s, pat, 0)
  }

  function FindFrom(s: string, pat: string, i: nat): (r: Option<nat>)
    ensures r.Some? ==> i <= r.value && OccursAt(s, pat, r.value)
    ensures r.Some? ==> forall j: nat :: i <= j < r.value ==> !OccursAt(s, pat, j)
    ensures r.None? ==> forall j: nat :: i <= j ==> !OccursAt(s, pat, j)
    decreases |s| - i
  {
    if i + |pat| > |s| then None
    else if s[i..i + |pat|] == pat then Some(i)
    else FindFrom(s, pat, i + 1)
  }

  /** The first occurrence is pinned down by where `pat` occurs. */
  lemma FindIs(s: string, pat: string, k: nat)
    requires OccursAt(s, pat, k)
    requires forall j: nat :: j < k ==> !OccursAt(s, pat, j)
    ensures Find(s, pat) == Some(k)
  {
  }

  function Shift(r: Option<nat>, n: nat): Option<nat>
  {
    match r
    case None => None
    case Some(k) => Some(n + k)
  }

  /** Searching `a + b`, when no occurrence starts inside `a`, is searching `b`. */
  lemma {:induction false} FindPast(a: string, b: string, pat: string)
    requires forall j: nat :: j < |a| ==> !OccursAt(a + b, pat, j)
    ensures Find(a + b, pat) == Shift(Find(b, pat), |a|)
  {
    var s := a + b;
    forall j: nat ensures OccursAt(s, pat, |a| + j) == OccursAt(b, pat, j) {
      if |a| + j + |pat| <= |s| {
        assert s[|a| + j..|a| + j + |pat|] == b[j..j + |pat|];
      }
    }
    match Find(b, pat)
    case None =>
      forall j: nat ensures !OccursAt(s, pat, j) {
        if j >= |a| { assert OccursAt(s, pat, |a| + (j - |a|)) == OccursAt(b, pat, j - |a|); }
      }
    case Some(k) =>
      forall j: nat | j < |a| + k ensures !OccursAt(s, pat, j) {
        if j >= |a| { assert OccursAt(s, pat, |a| + (j - |a|)) == OccursAt(b, pat, j - |a|); }
      }
      FindIs(s, pat, |a| + k);
  }

  /** No occurrence can start inside a stretch that lacks the pattern's first character. */
  lemma NoStartWithout(a: string, b: string, pat: string)
    requires pat != [] && pat[0] !in a
    ensures forall j: nat :: j < |a| ==> !OccursAt(a + b, pat, j)
  {
    forall j: nat | j < |a| ensures !OccursAt(a + b, pat, j) {
      assert (a + b)[j] == a[j];
      assert a[j] in a;
      if j + |pat| <= |a + b| {
        assert (a + b)[j..j + |pat|][0] == (a + b)[j];
      }
    }
  }

  /** `FindPast` for a prefix that does not contain the pattern's first character. */
  lemma FindPastPlain(a: string, b: string, pat: string)
    requires pat != [] && pat[0] !in a
    ensures Find(a + b, pat) == Shift(Find(b, pat), |a|)
  {
    NoStartWithout(a, b, pat);
    FindPast(a, b, pat);
  }

  /** No "\r\n\r\n" starts in a CRLF followed by a character other than CR. */
  lemma NoTerminatorAtLineEnd(h: string, rest: string)
    requires h != [] && h[0] != '\r'
    ensures forall j: nat :: j < |CrLf| ==> !OccursAt(CrLf + (h + rest), CrLfCrLf, j)
  {
    var s := CrLf + (h + rest);
    assert s[2] == h[0];
    assert s[1] == '\n';
    assert !OccursAt(s, CrLfCrLf, 0) by { if |s| >= 4 { assert s[0..4][2] == s[2]; } }
    assert !OccursAt(s, CrLfCrLf, 1) by { if |s| >= 5 { assert s[1..5][0] == s[1]; } }
  }

  // ---------------------------------------------------------------------------
  // Character classes

  /** The characters C's `isspace` accepts in the "C" locale. */
  predicate IsSpace(c: char)
  {
    c == ' ' || c == '\t' || c == '\n' || c == '\U{B}' || c == '\U{C}' || c == '\r'
  }

  predicate IsDigit(c: char) { '0' <= c <= '9' }

  predicate AllDigits(s: string) { forall i :: 0 <= i < |s| ==> IsDigit(s[i]) }

  /** What remains after the leading white space a `sscanf` directive skips. */
  function SkipSpaces(s: string): (r: string)
    ensures |r| <= |s| && r == s[|s| - |r|..]
    ensures forall i :: 0 <= i < |s| - |r| ==> IsSpace(s[i])
    ensures r == [] || !IsSpace(r[0])
  {
    if s != [] && IsSpace(s[0]) then SkipSpaces(s[1..]) else s
  }

  /** Skipping white space passes over a run of it up to the first other character. */
  lemma {:induction false} SkipSpacesPast(gap: string, s: string)
    requires forall i :: 0 <= i < |gap| ==> IsSpace(gap[i])
    requires s == [] || !IsSpace(s[0])
    ensures SkipSpaces(gap + s) == s
  {
    if gap == [] {
      assert gap + s == s;
    } else {
      assert (gap + s)[0] == gap[0];
      assert (gap + s)[1..] == gap[1..] + s;
      assert forall i :: 0 <= i < |gap| - 1 ==> gap[1..][i] == gap[i + 1];
      SkipSpacesPast(gap[1..], s);
    }
  }

  /** The longest prefix of `s` satisfying no `IsSpace`: what `%s` stores. */
  function Word(s: string): (r: string)
    ensures r <= s
    ensures forall i :: 0 <= i < |r| ==> !IsSpace(r[i])
    ensures |r| < |s| ==> IsSpace(s[|r|])
  {
    if s == [] || IsSpace(s[0]) then [] else [s[0]] + Word(s[1..])
  }

  /** `%s` stops at the white space that ends a run of other characters. */
  lemma {:induction false} WordBefore(w: string, rest: string)
    requires forall i :: 0 <= i < |w| ==> !IsSpace(w[i])
    requires rest == [] || IsSpace(rest[0])
    ensures Word(w + rest) == w
  {
    if w == [] {
      assert w + rest == rest;
    } else {
      assert (w + rest)[0] == w[0];
      assert (w + rest)[1..] == w[1..] + rest;
      assert forall i :: 0 <= i < |w| - 1 ==> w[1..][i] == w[i + 1];
      WordBefore(w[1..], rest);
      assert w == [w[0]] + w[1..];
    }
  }

  /** The longest prefix of `s` made of decimal digits: what `%d` consumes. */
  function DigitRun(s: string): (r: string)
    ensures r <= s && AllDigits(r)
    ensures |r| < |s| ==> !IsDigit(s[|r|])
  {
    if s == [] || !IsDigit(s[0]) then [] else [s[0]] + DigitRun(s[1..])
  }

  lemma {:induction false} DigitRunOfDigits(s: string)
    requires AllDigits(s)
    ensures DigitRun(s) == s
  {
    if s != [] {
      assert AllDigits(s[1..]) by {
        forall i | 0 <= i < |s[1..]| ensures IsDigit(s[1..][i]) { assert s[1..][i] == s[i + 1]; }
      }
      DigitRunOfDigits(s[1..]);
    }
  }

  // ---------------------------------------------------------------------------
  // Decimal numerals (the `%d` conversions of snprintf and sscanf)

  function DigitValue(c: char): nat
    requires IsDigit(c)
  {
    (c as int) - ('0' as int)
  }

  function DigitChar(d: nat): (c: char)
    requires d < 10
    ensures IsDigit(c) && DigitValue(c) == d
  {
    (('0' as int) + d) as char
  }

  /** The value of a string of decimal digits. */
  function Value(d: string): nat
    requires AllDigits(d)
  {
    if d == [] then 0 else 10 * Value(d[..|d| - 1]) + DigitValue(d[|d| - 1])
  }

  /** The decimal numeral of `n`, as `%d` prints it. */
  function Decimal(n: nat): (r: string)
    ensures r != [] && AllDigits(r)
  {
    if n < 10 then [DigitChar(n)] else Decimal(n / 10) + [DigitChar(n % 10)]
  }

  /** Reading a numeral back gives the number printed. */
  lemma {:induction false} ValueOfDecimal(n: nat)
    ensures Value(Decimal(n)) == n
  {
    if n >= 10 {
      var d := Decimal(n);
      assert d[..|d| - 1] == Decimal(n / 10);
      ValueOfDecimal(n / 10);
    }
  }

  // ---------------------------------------------------------------------------
  // strtok_r(..., "\r\n", ...)

  predicate IsDelim(c: char) { c == '\r' || c == '\n' }

  predicate NoDelims(t: string) { '\r' !in t && '\n' !in t }

  /** The longest prefix of `s` free of delimiters. */
  function Field(s: string): (r: string)
    ensures r <= s && NoDelims(r)
    ensures |r| < |s| ==> IsDelim(s[|r|])
  {
    if s == [] || IsDelim(s[0]) then [] else [s[0]] + Field(s[1..])
  }

  /** The tokens successive `strtok_r` calls with delimiters "\r\n" return:
      maximal delimiter-free runs, empty runs skipped. */
  function Tokens(s: string): (ts: seq<string>)
    ensures forall i :: 0 <= i < |ts| ==> ts[i] != [] && NoDelims(ts[i])
    decreases |s|
  {
    if s == [] then []
    else if IsDelim(s[0]) then Tokens(s[1..])
    else
      var n := |Field(s)|;
      [s[..n]] + Tokens(s[n..])
  }

  /** The field at the head of a delimiter-free line followed by a delimiter is that line. */
  lemma FieldOfLine(a: string, b: string)
    requires NoDelims(a) && b != [] && IsDelim(b[0])
    ensures Field(a + b) == a
  {
    var s := a + b;
    var f := Field(s);
    assert s[|a|] == b[0];
    assert f == s[..|f|] && a == s[..|a|];
  }

  /** A delimiter-free line ended by CRLF is one token; the scan resumes after it. */
  lemma TokensOfLine(a: string, b: string)
    requires a != [] && NoDelims(a)
    ensures Tokens(a + CrLf + b) == [a] + Tokens(b)
  {
    var s := a + (CrLf + b);
    assert s == a + CrLf + b;
    FieldOfLine(a, CrLf + b);
    assert s[0] == a[0];
    assert s[..|a|] == a;
    assert s[|a|..] == CrLf + b;
    assert Tokens(s) == [a] + Tokens(CrLf + b);
    var t := "\n" + b;
    assert (CrLf + b)[1..] == t;
    assert t[1..] == b;
    assert (CrLf + b)[0] == '\r' && t[0] == '\n';
    assert Tokens(CrLf + b) == Tokens(t);
    assert Tokens(t) == Tokens(b);
  }

  /** Header lines as they travel: each line followed by CRLF. */
  function Lines(ls: seq<string>): string
  {
    if ls == [] then [] else ls[0] + CrLf + Lines(ls[1..])
  }

  /** Lines a request can carry: non-empty, without CR, LF or NUL. */
  predicate PlainLines(ls: seq<string>)
  {
    forall i :: 0 <= i < |ls| ==> ls[i] != [] && NoDelims(ls[i]) && '\0' !in ls[i]
  }

  lemma PlainLinesTail(ls: seq<string>)
    requires ls != [] && PlainLines(ls)
    ensures PlainLines(ls[1..])
  {
    forall i | 0 <= i < |ls| - 1 ensures ls[1..][i] == ls[i + 1] { }
  }

  /** CRLF-ended plain lines hold no NUL, and start with their first line. */
  lemma {:induction false} LinesPlain(ls: seq<string>)
    requires PlainLines(ls)
    ensures '\0' !in Lines(ls)
    ensures ls != [] ==> Lines(ls) != [] && Lines(ls)[0] == ls[0][0]
  {
    if ls != [] {
      PlainLinesTail(ls);
      LinesPlain(ls[1..]);
      assert '\0' !in ls[0] && '\0' !in CrLf;
      assert Lines(ls) == ls[0] + CrLf + Lines(ls[1..]);
    }
  }

  /** The first line of a run of lines, split off. */
  lemma LinesCons(ls: seq<string>, rest: string)
    requires ls != []
    ensures Lines(ls) + rest == ls[0] + CrLf + (Lines(ls[1..]) + rest)
  {
  }

  /** A plain line put in front of plain lines. */
  lemma LinesAfter(l: string, ls: seq<string>)
    requires l != [] && NoDelims(l) && '\0' !in l && PlainLines(ls)
    ensures PlainLines([l] + ls)
    ensures Lines([l] + ls) == l + CrLf + Lines(ls)
  {
    var all := [l] + ls;
    assert all[1..] == ls;
    forall i | 0 <= i < |all| ensures all[i] != [] && NoDelims(all[i]) && '\0' !in all[i] {
      if i > 0 { assert all[i] == ls[i - 1]; }
    }
  }

  /** The tokens after one more plain line at the front. */
  lemma TokensOfLinesCons(l: string, tail: seq<string>, rest: string)
    requires l != [] && NoDelims(l)
    ensures Tokens(Lines([l] + tail) + rest) == [l] + Tokens(Lines(tail) + rest)
  {
    var more := Lines(tail) + rest;
    assert Lines([l] + tail) + rest == l + CrLf + more by {
      assert ([l] + tail)[1..] == tail;
      LinesCons([l] + tail, rest);
    }
    TokensOfLine(l, more);
  }

  /** Plain CRLF-ended lines are the next tokens, one per line. */
  lemma {:induction false} TokensOfLines(ls: seq<string>, rest: string)
    requires PlainLines(ls)
    ensures Tokens(Lines(ls) + rest) == ls + Tokens(rest)
  {
    if ls == [] {
      assert Lines(ls) + rest == rest;
    } else {
      var l, tail := ls[0], ls[1..];
      assert ls == [l] + tail;
      assert l != [] && NoDelims(l);
      TokensOfLinesCons(l, tail, rest);
      PlainLinesTail(ls);
      TokensOfLines(tail, rest);
      assert [l] + (tail + Tokens(rest)) == ls + Tokens(rest);
    }
  }

  /** The first "\r\n\r\n" after plain CRLF-ended lines is the empty line
      that closes them. */
  lemma {:induction false} FindEndOfLines(ls: seq<string>, b: string)
    requires ls != [] && PlainLines(ls)
    ensures |Lines(ls)| >= 2
    ensures Find(Lines(ls) + (CrLf + b), CrLfCrLf) == Some(|Lines(ls)| - 2)
  {
    var l := ls[0];
    var r := Lines(ls[1..]);
    assert '\r' !in l;
    PlainLinesTail(ls);
    assert Lines(ls) + (CrLf + b) == l + (CrLf + (r + (CrLf + b)));
    FindPastPlain(l, CrLf + (r + (CrLf + b)), CrLfCrLf);
    if ls[1..] == [] {
      var rest := CrLf + (r + (CrLf + b));
      assert OccursAt(rest, CrLfCrLf, 0) by { assert rest[0..4] == CrLfCrLf; }
      FindIs(rest, CrLfCrLf, 0);
    } else {
      LinesPlain(ls[1..]);
      assert r[0] != '\r' by { assert ls[1..][0] == ls[1] && NoDelims(ls[1]) && ls[1][0] in ls[1]; }
      NoTerminatorAtLineEnd(r, CrLf + b);
      FindPast(CrLf, r + (CrLf + b), CrLfCrLf);
      FindEndOfLines(ls[1..], b);
    }
  }
}
