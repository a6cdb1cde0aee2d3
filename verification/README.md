# SIP message serialiser, modelled in Dafny

This project models the serialiser for the two SIP message kinds in
`messages.go`. A `Request` renders as a Request-Line,
`Method SP Request-URI SP SIP-Version CRLF` (section 7.1 of RFC 3261). A
`Response` renders as a Status-Line,
`SIP-Version SP Status-Code SP Reason-Phrase CRLF` (section 7.2 of RFC 3261).
In both kinds the start line is followed by one CRLF-terminated rendering
per header, in input order. When a body is present, an empty line
and then the body verbatim come last. Section 7 of RFC 3261 requires that
empty line even when there is no body
(`start-line *message-header CRLF [ message-body ]`). The code writes it only
before a body (`messages.go:49-51`), and the model follows the code:
`NoTrailingBlankLine` proves that a message without a body, whose start
line and headers each render as one non-empty line without CRLF, has no
empty line at its end. A header that renders as empty text does leave one,
as the code writes its CRLF regardless. The comments at
`messages.go:33` and `messages.go:66` cite "RFC 2361", but the start lines
they describe are those of RFC 3261.

## Files

- `text.dfy` (module `Text`): `Option`, `CRLF`, `SP`, the predicates
  `CrlfAt`, `NoCrlf` and `OneLine`, and searches for a terminator or a
  character, each with a contract.
- `decimal.dfy` (module `Decimal`): `Digits`, the `%d` rendering of a
  natural number, and `Parse`, its inverse.
- `messages.dfy` (module `Messages`):
  - the message model: `Method` (an open string type with the six named
    constants), `uint8` and `Message<U, H> = Request | Response`;
  - the functional serialiser: `StartLine`, `HeaderSection`, `Suffix`,
    `Render`;
  - the imperative serialiser `Serialize` / `WriteHeaders`, which follows
    the Go buffer code step by step;
  - the lemmas about header layout and framing, including `SectionLines`,
    which lays the header section out as the list `Lines` of header
    renderings that the reader works on.
- `framing.dfy` (module `Framing`): a reader for SIP's line framing and for
  both start lines, with round-trip lemmas against the serialiser.
- `scenarios.dfy` (module `Scenarios`): three concrete messages and their
  exact wire forms.

`SipUri` and `SipHeader` are not defined in `messages.go`, which only calls
their `String()` methods. The model makes them type parameters `U` and `H`.
Their `String()` methods become the function parameters `uriStr: U -> string`
and `headerStr: H -> string`. So every property holds for every
deterministic rendering of URIs and headers, and nothing is assumed about
what a rendering contains unless a lemma says so in its `requires`.

Rendering is read-only and deterministic by construction:
- `Render` is a Dafny function of immutable values, so equal messages render
  to equal text.
- `Serialize` takes its message by value and has no `modifies` clause.

The header loop's guard `idx < len(Headers)` is always true inside its
`range` loop. The code as written therefore terminates every header line,
the last one included. `WriteHeaders` keeps that guard literally. Its loop
invariant, that the buffer equals the start line followed by the section
of the headers seen so far, cannot be maintained unless the guard holds on
every iteration.

## Model

| member | source | states |
|---|---|---|
| `Messages.Serialize` | messages.go:30-87 | The text the Go buffer code builds equals `Render`, for both variants. That is: start line, then header lines, then CRLF and the body when one is present. |
| `Messages.WriteHeaders` | messages.go:40-46 | The header loop appends exactly the header section to the buffer: every rendering in order, each followed by CRLF. The guard `idx < len(Headers)` never fails. |
| `Messages.SectionLines` | messages.go:40-46 | The header section is the list of header renderings laid out as lines, first header first, each line ending in CRLF. |
| `Messages.RenderFraming` | messages.go:30-54 | A rendered message begins with its start line. With no body and no headers it is exactly the start line. With no body and at least one header it ends with the last header's rendering followed by CRLF. With a body it ends with CRLF CRLF and then the body verbatim, with nothing after it. |
| `Messages.HeaderSegments` | messages.go:40-46 | For any header renderings, the section is tiled from offset 0 to its end by exactly one segment per header, in input order. Segment i is header i's rendering followed by CRLF, so headers are never reordered, dropped or duplicated. |
| `Messages.HeaderSectionAppend` | messages.go:73-79 | The header loop is compositional: the section of `a + b` is the section of `a` followed by the section of `b`. |
| `Messages.SameSuffix` | messages.go:72-86 | Request and Response differ only in the start line: with equal headers and body, the text after the start line is identical. |
| `Messages.NoTrailingBlankLine` | messages.go:49-53 | With no body, and a start line and headers that each render as one line, the output does not end in a blank line. |
| `Framing.ReadHeaderSection` | messages.go:40-51 | If every header renders as one non-empty line, reading the header section and body back yields the header renderings in order and the body exactly, present or absent. |
| `Framing.SplitRender` | messages.go:30-54 | If the start line and headers are single lines, splitting the rendered message recovers the start line, the header renderings in order, and the body. |
| `Framing.RenderInjective` | messages.go:30-87 | Under the same single-line conditions, two messages with equal wire forms have equal start lines, header renderings and bodies. |
| `Framing.ParseRequestLineText` | messages.go:34-37 | If the method and version contain no space, splitting a Request-Line at its first and last space gives back the method, the URI rendering and the version. |
| `Framing.ParseStatusLineText` | messages.go:67-70 | If the version contains no space, splitting a Status-Line gives back the version, the `uint8` status code and the reason phrase. |
| `Framing.ReadRequest` | messages.go:30-54 | A rendered Request with single-line fields, and no space in its method or version, reads back to its method, URI rendering, version, header renderings and body. |
| `Framing.ReadResponse` | messages.go:63-87 | A rendered Response with single-line fields, and no space in its version, reads back to its version, status code, reason, header renderings and body. |
| `Decimal.Digits` | messages.go:67-69 | `%d` prints a natural number as a non-empty run of digits. Its first digit is `0` exactly when the number is 0, and it is a single digit exactly when the number is below 10. |
| `Decimal.ParseDigits` | messages.go:67-69 | Reading back the digits `%d` prints gives the number printed. |
| `Decimal.DigitsParse` | messages.go:67-69 | Every canonical digit string is what `%d` prints for its value, so the status code's rendering is a bijection. |
| `Decimal.ByteWidth` | messages.go:58 | A `uint8` status code prints as one to three digits. |
| `Scenarios.InviteWithoutHeaders` | messages.go:30-54 | An INVITE with no headers and no body renders as `INVITE sip:bob@biloxi.com SIP/2.0\r\n`. |
| `Scenarios.OkWithContentLength` | messages.go:63-87 | A 200 OK with one `Content-Length: 0` header and no body renders as `SIP/2.0 200 OK\r\nContent-Length: 0\r\n`. |
| `Scenarios.InviteWithBody` | messages.go:30-54 | An INVITE with two headers and body `v=0` renders as the start line, both header lines, one blank line, then `v=0` with nothing after it. |

## Left out

- `bytes.Buffer` and `fmt.Sprintf` are modelled as string concatenation, plus `Digits` for the `%d` of a `uint8`. Go's formatting library is not modelled.
- The concrete `SipUri` and `SipHeader` types are not part of this model. Their `String()` methods are function parameters, so a rendering that fails or panics is outside the model.
- The `SipMessage` interface is modelled as the two constructors of one `Message` datatype, both rendered by the same `Render`.
- A nil `*Request` or `*Response` receiver, which would make `String()` panic, has no counterpart: messages are values.
- Go strings are byte sequences, and the model uses `seq<char>`. No encoding is applied, matching the code, which copies fields and body unchanged.
- `uint8` cannot hold most real status codes (100–699, e.g. 404). The model keeps the field at 0..255 as declared. Narrowing a larger code to `uint8` happens before the serialiser is called, so it is not modelled.
- The code validates nothing: method names, versions, reasons and header renderings may be any text. The single-line and no-space conditions are preconditions of lemmas only, never of the serialiser.
- The empty line that section 7 of RFC 3261 requires after the headers of a message without a body is not written, because the code does not write it (`messages.go:49-51`). Nothing in the model adds it. The reader `ReadHeaderLines` accepts a message that ends after its last header line.
- Parsing, transport, transactions, dialogs and timers do not exist in `messages.go`.
