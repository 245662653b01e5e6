/**
 * The error value of the dsl package and its caret diagnostic.
 *
 * `String` renders an `Error` as
 *   "\nError Line:" <line> " " <error text> "\n"
 *   <the offending line, verbatim> "\n"
 *   <padding> "^" <dashes> "^\n"
 * where the padding has one character per byte index 1 .. StartPosition-2 of
 * the line (a tab stays a tab, anything else becomes a space) and there is one
 * dash per position StartPosition .. EndPosition-2.
 */
module Dsl {
  import opened Options
  import Decimal
  import Text

  /** The error codes, in declaration order; Go numbers them with iota. */
  datatype ErrorCode =
    | FileNotFound
    | CouldNotCreateFile
    | TokenExpectedNotFound
    | ExpectedTokenNotInTokenset
    | ScannedTokenNotInTokenset
    | RuneExpectedNotFound
    | NodeNotInNodeset

  const AllCodes: seq<ErrorCode> := [
    FileNotFound, CouldNotCreateFile, TokenExpectedNotFound, ExpectedTokenNotInTokenset,
    ScannedTokenNotInTokenset, RuneExpectedNotFound, NodeNotInNodeset]

  /** The integer a code name stands for. */
  function Ordinal(c: ErrorCode): (n: nat)
    ensures n < |AllCodes| && AllCodes[n] == c
  {
    match c
    case FileNotFound => 0
    case CouldNotCreateFile => 1
    case TokenExpectedNotFound => 2
    case ExpectedTokenNotInTokenset => 3
    case ScannedTokenNotInTokenset => 4
    case RuneExpectedNotFound => 5
    case NodeNotInNodeset => 6
  }

  /** The code name an integer stands for, if any: the inverse of Ordinal. */
  function FromOrdinal(n: int): (r: Option<ErrorCode>)
    ensures forall c :: r == Some(c) <==> Ordinal(c) == n
  {
    if 0 <= n < |AllCodes| then Some(AllCodes[n]) else None
  }

  /** The codes are exactly the consecutive integers 0..6, each named once, in declaration order. */
  lemma CodesAreConsecutive()
    ensures |AllCodes| == 7
    ensures forall i :: 0 <= i < |AllCodes| ==> Ordinal(AllCodes[i]) == i
    ensures forall c, d :: Ordinal(c) == Ordinal(d) ==> c == d
    ensures forall c :: FromOrdinal(Ordinal(c)) == Some(c)
  {
  }

  /**
   * An error with its position. `err` is the `error` interface value,
   * None when it is nil; only its text matters here.
   */
  datatype Error = Error(
    code: ErrorCode,
    err: Option<string>,
    lineString: string,
    line: int,
    startPosition: int,
    endPosition: int)

  /** What `%v` prints for the error interface value: its own text, or `<nil>` for a nil error. */
  function ErrorText(err: Option<string>): (t: string)
    ensures err.Some? ==> t == err.value
    ensures err.None? ==> t == "<nil>"
  {
    match err
    case None => "<nil>"
    case Some(text) => text
  }

  function Max0(n: int): nat {
    if n < 0 then 0 else n
  }

  const Label := "Error Line:"
  const HeaderTag := "\n" + Label

  /** The first write: the header, as formatted by Sprintf. */
  function HeaderLine(e: Error): (h: string)
    ensures |HeaderTag| < |h| && h[..|HeaderTag|] == HeaderTag
    ensures h[|h| - 1] == '\n'
  {
    HeaderTag + Decimal.IntDecimal(e.line) + " " + ErrorText(e.err) + "\n"
  }

  /** The padding character written for line byte `c`. */
  function PadChar(c: char): (p: char)
    ensures p == '\t' <==> c == '\t'
    ensures p == '\t' || p == ' '
  {
    if c == '\t' then '\t' else ' '
  }

  /** Byte index `i` of the line is read by the padding loop. */
  predicate Touched(e: Error, i: int) {
    1 <= i < e.startPosition - 1
  }

  /** Every byte the padding loop reads exists; otherwise the Go code panics. */
  predicate Renderable(e: Error) {
    e.startPosition <= 2 || e.startPosition - 2 < |e.lineString|
  }

  /** The padding written for byte indices lo .. hi-1 of `s`. */
  function PadRun(s: string, lo: nat, hi: int): (r: string)
    requires hi <= lo || hi <= |s|
    ensures |r| == Max0(hi - lo)
    decreases hi - lo
  {
    if hi <= lo then [] else PadRun(s, lo, hi - 1) + [PadChar(s[hi - 1])]
  }

  /** The k-th padding character mirrors byte lo+k. */
  lemma {:induction false} PadRunAt(s: string, lo: nat, hi: int, k: nat)
    requires hi <= lo || hi <= |s|
    requires k < Max0(hi - lo)
    ensures lo + k < |s| && PadRun(s, lo, hi)[k] == PadChar(s[lo + k])
    decreases hi - lo
  {
    if k < hi - 1 - lo {
      PadRunAt(s, lo, hi - 1, k);
    }
  }

  /** A run of `n` dashes. */
  function Dashes(n: nat): (r: string)
    ensures |r| == n
  {
    if n == 0 then [] else Dashes(n - 1) + "-"
  }

  lemma {:induction false} DashesAt(n: nat, k: nat)
    requires k < n
    ensures Dashes(n)[k] == '-'
  {
    if k < n - 1 {
      DashesAt(n - 1, k);
    }
  }

  /** Multiset count of a character in a run made only of that character. */
  lemma {:induction false} UniformCount(s: string, c: char)
    requires forall k :: 0 <= k < |s| ==> s[k] == c
    ensures multiset(s)[c] == |s|
    decreases |s|
  {
    if s != [] {
      assert s == s[..|s| - 1] + [s[|s| - 1]];
      UniformCount(s[..|s| - 1], c);
    }
  }

  /**
   * The padding of the underline: StartPosition-2 characters, the k-th
   * mirroring whether byte k+1 of the line is a tab. Byte 0 is never read.
   */
  function Padding(e: Error): (r: string)
    requires Renderable(e)
    ensures |r| == Max0(e.startPosition - 2)
  {
    PadRun(e.lineString, 1, 1 + Max0(e.startPosition - 2))
  }

  lemma PaddingAt(e: Error, k: nat)
    requires Renderable(e)
    requires k < Max0(e.startPosition - 2)
    ensures Touched(e, k + 1) && k + 1 < |e.lineString|
    ensures Padding(e)[k] == '\t' <==> e.lineString[k + 1] == '\t'
    ensures Padding(e)[k] == '\t' || Padding(e)[k] == ' '
  {
    PadRunAt(e.lineString, 1, 1 + Max0(e.startPosition - 2), k);
  }

  /** The third line: padding, a caret, the dashes, a caret and the newline. */
  function Underline(e: Error): (u: string)
    requires Renderable(e)
    ensures |u| == Max0(e.startPosition - 2) + Max0(e.endPosition - 1 - e.startPosition) + 3
  {
    Padding(e) + "^" + Dashes(Max0(e.endPosition - 1 - e.startPosition)) + "^\n"
  }

  /** The whole diagnostic `String` returns. */
  function Rendered(e: Error): (r: string)
    requires Renderable(e)
    ensures |r| == |HeaderLine(e)| + |e.lineString| + 1 + |Underline(e)|
    ensures r[..|HeaderTag|] == HeaderTag
  {
    HeaderLine(e) + e.lineString + "\n" + Underline(e)
  }

  /** (*Error).String: writes the header and the echoed line, then the underline. */
  method String(e: Error) returns (s: string)
    requires Renderable(e)
    ensures s == Rendered(e)
  {
    var buf: string := [];
    buf := buf + HeaderLine(e);
    buf := buf + (e.lineString + "\n");
    s := WriteUnderline(e, buf);
    Regroup(HeaderLine(e), e.lineString, Underline(e), buf, s);
  }

  /**
   * The two loops of (*Error).String: appends the padding, a caret, the
   * dashes and the closing caret to the buffer `buf`.
   */
  method WriteUnderline(e: Error, buf: string) returns (out: string)
    requires Renderable(e)
    ensures out == buf + Underline(e)
  {
    out := buf;
    var i := 1;
    while i < e.startPosition - 1
      invariant 1 <= i
      invariant i == 1 || i <= e.startPosition - 1
      invariant out == buf + PadRun(e.lineString, 1, i)
    {
      if e.lineString[i] == '\t' {
        out := out + "\t";
      } else {
        out := out + " ";
      }
      i := i + 1;
    }
    assert i == 1 + Max0(e.startPosition - 2);
    out := out + "^";
    ghost var caret := out;
    i := e.startPosition;
    while i < e.endPosition - 1
      invariant e.startPosition <= i
      invariant i == e.startPosition || i <= e.endPosition - 1
      invariant out == caret + Dashes(i - e.startPosition)
    {
      out := out + "-";
      i := i + 1;
    }
    assert i - e.startPosition == Max0(e.endPosition - 1 - e.startPosition);
    out := out + "^\n";
    UnderlineRegroup(buf, Padding(e), Dashes(i - e.startPosition), out);
  }

  lemma UnderlineRegroup(buf: string, p: string, d: string, out: string)
    requires out == buf + p + "^" + d + "^\n"
    ensures out == buf + (p + "^" + d + "^\n")
  {
  }

  /** Regrouping of the buffer's writes into the three parts. */
  lemma Regroup(h: string, l: string, u: string, echoed: string, s: string)
    requires echoed == [] + h + (l + "\n")
    requires s == echoed + u
    ensures s == h + l + "\n" + u
  {
  }

  /** Renderable is exactly the condition that every byte index the padding loop reads is in range. */
  lemma RenderableExact(e: Error)
    ensures Renderable(e) <==> forall i :: Touched(e, i) ==> 0 <= i < |e.lineString|
  {
    if e.startPosition > 2 && !Renderable(e) {
      assert Touched(e, e.startPosition - 2);
    }
  }

  /** The padding depends only on the bytes the loop reads, never on byte 0 or the bytes after it. */
  lemma PaddingReadsOnlyTouched(e: Error, f: Error)
    requires Renderable(e) && Renderable(f)
    requires e.startPosition == f.startPosition
    requires forall i :: Touched(e, i) ==> e.lineString[i] == f.lineString[i]
    ensures Padding(e) == Padding(f)
  {
    var p, q := Padding(e), Padding(f);
    forall k | 0 <= k < |p|
      ensures p[k] == q[k]
    {
      PaddingAt(e, k);
      PaddingAt(f, k);
    }
  }

  /**
   * The underline holds exactly two carets and one dash per position
   * StartPosition .. EndPosition-2, whatever the span.
   */
  lemma UnderlineCounts(e: Error)
    requires Renderable(e)
    ensures multiset(Underline(e))['^'] == 2
    ensures multiset(Underline(e))['-'] == Max0(e.endPosition - 1 - e.startPosition)
  {
    var pad, dash := Padding(e), Dashes(Max0(e.endPosition - 1 - e.startPosition));
    forall k | 0 <= k < |pad|
      ensures pad[k] != '^' && pad[k] != '-'
    {
      PaddingAt(e, k);
    }
    forall k | 0 <= k < |dash|
      ensures dash[k] == '-'
    {
      DashesAt(Max0(e.endPosition - 1 - e.startPosition), k);
    }
    assert '^' !in multiset(pad) && '-' !in multiset(pad);
    assert '^' !in multiset(dash);
    UniformCount(dash, '-');
    assert multiset(Underline(e)) == multiset(pad) + multiset("^") + multiset(dash) + multiset("^\n");
  }

  /**
   * The underline is padding + 1 + dashes + 1 characters plus the newline: a
   * caret right after the padding, the dashes, a caret, then "\n". For a span
   * with 2 <= StartPosition < EndPosition the carets stand at byte columns
   * StartPosition-2 and EndPosition-2.
   */
  lemma UnderlineCarets(e: Error)
    requires Renderable(e)
    ensures var u, p, d := Underline(e), Max0(e.startPosition - 2), Max0(e.endPosition - 1 - e.startPosition);
      && |u| == p + 1 + d + 1 + 1
      && u[p] == '^' && u[p + 1 + d] == '^' && u[p + 1 + d + 1] == '\n'
      && (forall k :: p < k < p + 1 + d ==> u[k] == '-')
      && (2 <= e.startPosition < e.endPosition ==> u[e.startPosition - 2] == '^' && u[e.endPosition - 2] == '^')
  {
    var p, d := Max0(e.startPosition - 2), Max0(e.endPosition - 1 - e.startPosition);
    var u := Underline(e);
    forall k | p < k < p + 1 + d
      ensures u[k] == '-'
    {
      DashesAt(d, k - p - 1);
    }
  }

  predicate NoNewline(s: string) {
    forall i :: 0 <= i < |s| ==> s[i] != '\n'
  }

  /**
   * The output is a newline, then three newline-terminated parts: the header
   * ("Error Line:", the line number, a space, the error text), the offending
   * line verbatim, and the underline. Neither the number nor the underline
   * holds a newline of its own.
   */
  lemma Layout(e: Error)
    requires Renderable(e)
    ensures var digits, mark := Decimal.IntDecimal(e.line), Padding(e) + "^" + Dashes(Max0(e.endPosition - 1 - e.startPosition)) + "^";
      && Rendered(e) == "\n" + (Label + digits + " " + ErrorText(e.err)) + "\n" + e.lineString + "\n" + mark + "\n"
      && NoNewline(digits)
      && NoNewline(mark)
  {
    var digits := Decimal.IntDecimal(e.line);
    var pad, dash := Padding(e), Dashes(Max0(e.endPosition - 1 - e.startPosition));
    var mark := pad + "^" + dash + "^";
    forall k | 0 <= k < |pad|
      ensures pad[k] != '\n'
    {
      PaddingAt(e, k);
    }
    forall k | 0 <= k < |dash|
      ensures dash[k] != '\n'
    {
      DashesAt(Max0(e.endPosition - 1 - e.startPosition), k);
    }
    RegroupLines(Label, digits, ErrorText(e.err), e.lineString, pad, dash);
  }

  lemma RegroupLines(tag: string, digits: string, text: string, l: string, p: string, d: string)
    ensures "\n" + tag + digits + " " + text + "\n" + l + "\n" + (p + "^" + d + "^\n")
         == "\n" + (tag + digits + " " + text) + "\n" + l + "\n" + (p + "^" + d + "^") + "\n"
  {
  }

  /** Reads the line number back out of a rendered diagnostic. */
  function ReadLineNumber(out: string): Option<int> {
    if |out| >= |HeaderTag| && out[..|HeaderTag|] == HeaderTag then
      Decimal.ParseInt(Text.UpTo(out[|HeaderTag|..], ' '))
    else None
  }

  /** The line number printed in the header is recovered exactly, whatever the error text. */
  lemma LineNumberRecoverable(e: Error)
    requires Renderable(e)
    ensures ReadLineNumber(Rendered(e)) == Some(e.line)
  {
    var r, digits := Rendered(e), Decimal.IntDecimal(e.line);
    var rest := ErrorText(e.err) + "\n" + e.lineString + "\n" + Underline(e);
    assert r == HeaderTag + (digits + [' '] + rest);
    assert r[|HeaderTag|..] == digits + [' '] + rest;
    Text.CutAt(digits, ' ', rest);
    Decimal.IntDecimalRoundTrip(e.line);
  }

  /** Reads the error text back out of a rendered diagnostic: what follows the number's space, up to the next newline. */
  function ReadErrorText(out: string): Option<string> {
    if |out| >= |HeaderTag| && out[..|HeaderTag|] == HeaderTag then
      var rest := out[|HeaderTag|..];
      var number := Text.UpTo(rest, ' ');
      if |number| < |rest| then Some(Text.UpTo(rest[|number| + 1..], '\n')) else None
    else None
  }

  /** An error text without a newline of its own is recovered exactly from the header. */
  lemma ErrorTextRecoverable(e: Error)
    requires Renderable(e)
    requires NoNewline(ErrorText(e.err))
    ensures ReadErrorText(Rendered(e)) == Some(ErrorText(e.err))
  {
    var r, digits, text := Rendered(e), Decimal.IntDecimal(e.line), ErrorText(e.err);
    var tail := e.lineString + "\n" + Underline(e);
    var rest := text + ['\n'] + tail;
    assert r == HeaderTag + (digits + [' '] + rest);
    assert r[|HeaderTag|..] == digits + [' '] + rest;
    Text.CutAt(digits, ' ', rest);
    assert (digits + [' '] + rest)[|digits| + 1..] == rest;
    Text.CutAt(text, '\n', tail);
  }

  /** A span of StartPosition 2 and EndPosition 4 gets no padding: the underline is "^-^\n". */
  lemma NarrowSpanExample()
    ensures Underline(Error(TokenExpectedNotFound, Some("x"), "abc", 1, 2, 4)) == "^-^\n"
    ensures Rendered(Error(TokenExpectedNotFound, Some("x"), "abc", 1, 2, 4)) == "\nError Line:1 x\nabc\n^-^\n"
  {
    var e := Error(TokenExpectedNotFound, Some("x"), "abc", 1, 2, 4);
    assert Decimal.IntDecimal(1) == "1";
    assert Padding(e) == [] && Dashes(1) == "-";
  }

  /** Tabs in bytes 1 .. StartPosition-2 are kept; a nil error prints as <nil>; an empty span still has two carets. */
  lemma TabAndEmptySpanExample()
    ensures Underline(Error(RuneExpectedNotFound, None, "a\tbc", 7, 4, 3)) == "\t ^^\n"
    ensures HeaderLine(Error(RuneExpectedNotFound, None, "a\tbc", 7, 4, 3)) == "\nError Line:7 <nil>\n"
  {
  }
}
