# Caret diagnostics of go-dsl, in Dafny

This project models `error.go` of the `dsl` package (a rule-driven lexical
scanner library for Go): the `ErrorCode` enumeration, the `Error` record that a
failed scanning step produces, and `(*Error).String()`, which renders an error
as a caret diagnostic:

```
\nError Line:<Line> <error text>\n
<LineString>\n
<padding>^<dashes>^\n
```

`String` appends to a byte buffer step by step. The model keeps that shape:
`Dsl.String` writes the header and the echoed line into a `seq<char>`
accumulator, and `Dsl.WriteUnderline` runs the two counted loops of the Go
function (the padding loop `for i := 1; i < StartPosition-1` and the dash loop
`for i := StartPosition; i < EndPosition-1`). Both are proved equal to the pure
specification `Dsl.Rendered`, and the properties of the format are lemmas about
that specification.

Files:

- `options.dfy` — `Option`, used for parse results and for the nil-able
  `error` interface value.
- `decimal.dfy` — module `Decimal`: what `%v` prints for an `int`, and a
  parser that undoes it.
- `text.dfy` — module `Text`: the prefix of a string before a separator.
- `error.dfy` — module `Dsl`: `ErrorCode`, `Error`, the rendering functions,
  the `String` method and the lemmas.

Points where the code is followed exactly:

- The header starts with a newline, so the diagnostic's first line is empty.
- The padding has `StartPosition-2` characters (none when `StartPosition <= 2`).
  Padding character `k` mirrors byte `k+1` of the line: a tab stays a tab,
  anything else becomes a space. Byte 0 is never read.
- Both carets are always written, with `max(0, EndPosition-1-StartPosition)`
  dashes between them, so an empty or reversed span still prints `^^`.
- For `StartPosition 2`, `EndPosition 4` the code writes `"^-^"`, with no
  padding (`Dsl.NarrowSpanExample`).
- A nil `error` value is printed by `%v` as `<nil>`; the model's `err` field is
  `None` in that case.
- Indexing `LineString[i]` past its end panics in Go. The model makes this the
  precondition `Renderable`, and `Dsl.RenderableExact` shows that it is exactly
  "every byte the padding loop reads exists".

## Model

| member | source | states |
|---|---|---|
| `Dsl.Ordinal` | error.go:14-22 | each code's `iota` value is its position in the declaration order (`AllCodes`), a number in 0..6 |
| `Dsl.FromOrdinal` | error.go:12-22 | the inverse of `Ordinal`: `FromOrdinal(n)` is `Some(c)` exactly for the code `c` whose `iota` value is `n`, and `None` for every integer no code stands for |
| `Dsl.CodesAreConsecutive` | error.go:14-22 | there are seven codes, numbered 0..6 in declaration order, distinct codes have distinct numbers, and `FromOrdinal` maps each code's number back to it |
| `Dsl.HeaderLine` | error.go:37 | the first write starts with `"\nError Line:"` and ends with a newline; `Layout` and `LineNumberRecoverable` pin down the number, the space and the error text in between |
| `Dsl.Underline` | error.go:39-50 | the underline written by the two loops and the two caret writes has `max(0, StartPosition-2) + max(0, EndPosition-1-StartPosition) + 3` characters; `UnderlineCounts` and `UnderlineCarets` give its contents |
| `Dsl.Rendered` | error.go:35-52 | the whole diagnostic is as long as the header, the line, its newline and the underline together, and starts with `"\nError Line:"`; `String` is proved equal to it and `Layout` gives its full structure |
| `Decimal.NatDigits` | error.go:37 | `%v` of a non-negative integer is a non-empty run of decimal digits with no leading zero (except `"0"` itself) |
| `Decimal.NatDigitsRoundTrip` | error.go:37 | reading the printed digits back gives the number |
| `Decimal.IntDecimal` | error.go:37 | `%v` of an `int` begins with `'-'` exactly when the number is negative, every other character is a digit, and the digits have no leading zero except for `"0"` itself (so `-7` prints as `"-7"`, never `"-07"`) |
| `Decimal.IntDecimalRoundTrip` | error.go:37 | `ParseInt` inverts `%v` of an `int`, so distinct line numbers print distinctly |
| `Dsl.PadChar` | error.go:40-44 | the padding character is a tab exactly when the line byte is a tab, and a space otherwise |
| `Dsl.PadRun` | error.go:39-45 | the padding for indices `lo..hi-1` has `max(0, hi-lo)` characters |
| `Dsl.PadRunAt` | error.go:39-45 | the `k`-th padding character is the padding character of byte `lo+k`, which exists |
| `Dsl.Padding` | error.go:39 | the padding run has exactly `max(0, StartPosition-2)` characters |
| `Dsl.PaddingAt` | error.go:39-45 | padding character `k` is read from byte `k+1` (in range, inside the loop's index range) and is a tab exactly when that byte is a tab, else a space |
| `Dsl.Dashes` | error.go:47-49 | a dash run of `n` has length `n` |
| `Dsl.DashesAt` | error.go:47-49 | every character of a dash run is `'-'` |
| `Dsl.WriteUnderline` | error.go:39-50 | the two loops append exactly the underline (padding, caret, dashes, caret, newline) to the buffer |
| `Dsl.String` | error.go:35-52 | the buffer built by `String` is exactly the specified diagnostic `Rendered(e)` |
| `Dsl.RenderableExact` | error.go:39-40 | the precondition holds exactly when every byte index the padding loop reads is inside `LineString` |
| `Dsl.PaddingReadsOnlyTouched` | error.go:39-45 | the padding depends only on bytes `1..StartPosition-2`; byte 0 and later bytes never matter |
| `Dsl.UnderlineCounts` | error.go:46-50 | the underline holds exactly two carets and exactly `max(0, EndPosition-1-StartPosition)` dashes, also for an empty or reversed span |
| `Dsl.UnderlineCarets` | error.go:46-51 | the underline is padding + 1 + dashes + 1 characters plus the newline: a caret right after the padding, only dashes up to the closing caret, then `"\n"`; for `2 <= StartPosition < EndPosition` the carets are at byte columns `StartPosition-2` and `EndPosition-2` |
| `Dsl.Layout` | error.go:37-51 | the output is a newline, then the header `"Error Line:" + line + " " + error text`, then `LineString` verbatim, then the underline, each ended by a newline; neither the number nor the underline contains a newline |
| `Dsl.ErrorTextRecoverable` | error.go:37 | an error text without a newline of its own is read back exactly from the header, between the space after the number and the next newline |
| `Dsl.LineNumberRecoverable` | error.go:37 | the line number can be read back exactly from a rendered diagnostic, whatever the error text |
| `Dsl.NarrowSpanExample` | error.go:39-50 | `StartPosition 2, EndPosition 4` over `"abc"` gives the underline `"^-^\n"` with no padding |
| `Dsl.TabAndEmptySpanExample` | error.go:37-50 | a tab at byte 1 is kept in the padding, a span with `EndPosition < StartPosition` still prints both carets, and a nil error prints as `<nil>` |

## Left out

- `examples/json/scanner.go` and the scanning engine it calls (`DSLScanner`, `Expect`, `Match`, `SkipRune`, `Exit`): the engine is not part of this model, and the JSON scanner is only a table of calls into it.
- Dsl.ErrorText: `%v` of the `error` field is a call into Go's `fmt` package and is assumed, not proved: a non-nil error prints its own `Error()` text, which the model takes as an opaque string, and a nil error prints `<nil>`. The rest of `fmt.Sprintf` on error.go:37 is written out as concatenation, with `%v` of the `int` line number modelled by `Decimal.IntDecimal`.
- `bytes.Buffer`: replaced by a `seq<char>` accumulator; `WriteString` is sequence concatenation.
- The runtime panic on an out-of-range byte index: stated as the precondition `Renderable` rather than modelled as behaviour.
- Bytes versus runes: `LineString` is a sequence of characters standing for its bytes; UTF-8 decoding is not modelled.
- Dsl.String: positions and the line number are unbounded integers; the 64-bit wrap-around of `StartPosition - 1` and `EndPosition - 1` when a position is the smallest `int` is not modelled.
- `ErrorCode` is an open `int` type in Go, so an `Error` could carry a value outside 0..6; the model's `code` field holds only the seven named codes. `String` never reads the code.
