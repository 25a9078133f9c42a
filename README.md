# GIPS.NET notification core in Dafny

GIPS.NET is a Visual Studio extension. It forwards debugger events to an Ukagaka desktop
companion as SSTP/1.1 `NOTIFY` requests. SSTP (Sakura Script Transfer Protocol) is a
CRLF-delimited text protocol, and the companion listens on `127.0.0.1:9801`. This project
models two parts of the extension:

- **`UkagakaSSTPConnection`** (modules `SstpRequest` and `SstpConnection`): the class and
  its defaults (sender, host `127.0.0.1`, port 9801, charset `Shift-JIS`).
  - `SendNotify1_1` frames the request in an indexed loop. Its loop invariant ties the
    partly built text to the specification `Request` after the first `i` references.
  - `Send` always answers `""` once the transport step completes.
  - `Request` is a pure specification function; the lemmas beside it prove the request's
    shape. A test-only parser (`SplitLines`, `ParseRequest`) recovers every field when no
    value holds a CRLF.
- **`GIPSPackage`** (module `GipsPackage`): the decision rules of the debugger hook.
  - `ShowMode` maps a mode to a message after clearing the Edit-and-Continue bits.
  - The trigger condition of `OnModeChange` decides when a notification is sent.
  - `lineAt` is cut from the first stack-trace line with `LastIndexOf` and `Substring`.
  - `OnModeChange` composes these rules with the encoder.

Module `Text` gives the .NET string primitives the source relies on: decimal formatting of
a non-negative `int`, `String.LastIndexOf(char)`, and `String.Substring(int, int)` with its
range exception. Module `Wrappers` holds `Option` and `Result`.

The network step of `Send` is a parameter of type `Transport`. It stands for encoding the
text, connecting, writing, flushing, reading one reply line and closing. Given the host,
port, charset and text, it either reports a reply (possibly absent) or raises a
`TransportError`. `SendNotify1_1` also returns the request text it hands to that step,
because that text is what the program puts on the wire.

Where the design intent and the code disagree, the model follows the code:

- Transport failures propagate out of `SendNotify1_1` and `OnModeChange`. The `try`/`catch`
  around `Send` is commented out, so nothing swallows them.
- The charset is always `Shift-JIS`. No constructor argument or setter changes it.
- The port is not range-checked by the class.

The `DBGMODE` values are those of the Visual Studio shell interop enumeration: Design 0,
Break 1, Run 2, Enc `0x10000000`, EncMask `0xF0000000`. The enumeration is not part of this
model.

## Model

| member | source | states |
|---|---|---|
| `SstpConnection.UkagakaSSTPConnection.constructor` | GIPS.NET/UkagakaSSTPConnection.cs:13-26 | A connection keeps the given sender; host and port default to `127.0.0.1` and 9801; the charset is `Shift-JIS`; all four fields are constants, so no later call can change them |
| `SstpConnection.UkagakaSSTPConnection.SendNotify1_1` | GIPS.NET/UkagakaSSTPConnection.cs:28-56 | The text handed to the transport is exactly `Request(sender, eventName, reference, charset)`; the loop invariant says the buffer is the header plus the first `i` Reference lines; every request of every connection ends with `Charset: Shift-JIS\r\n\r\n`; the result is `""` whenever the transport completes, and a transport failure propagates |
| `SstpConnection.UkagakaSSTPConnection.Send` | GIPS.NET/UkagakaSSTPConnection.cs:58-78 | Sends to this connection's host, port and charset; answers `""` whatever reply line was read, and raises what the transport raises |
| `SstpRequest.RequestStartsWithHeader` | GIPS.NET/UkagakaSSTPConnection.cs:30 | Every request starts with `NOTIFY SSTP/1.1\r\nSender: <sender>\r\nEvent: <event>\r\n`, values copied verbatim |
| `SstpRequest.RequestLinesAt` | GIPS.NET/UkagakaSSTPConnection.cs:30-43 | The request has 5 + n lines: version, Sender, Event, `Reference<i>: <reference[i]>` for i = 0..n-1 in argument order, Charset, empty |
| `SstpRequest.RequestLineStructure` | GIPS.NET/UkagakaSSTPConnection.cs:34-41 | The first 4 + n lines are non-empty and the last is empty; Reference line i uses the unpadded decimal of i; a line starts with `Reference` exactly when it is one of the n lines at positions 3..3+n-1 |
| `SstpRequest.ReferenceLinesSnoc` | GIPS.NET/UkagakaSSTPConnection.cs:34-41 | One more loop iteration adds exactly the Reference line for index i after those for 0..i-1 |
| `SstpRequest.RequestEndsWithCharset` | GIPS.NET/UkagakaSSTPConnection.cs:43 | Every request ends with `Charset: <charset>\r\n\r\n`, placed right after the last Reference line |
| `SstpRequest.RequestWithoutReferences` | GIPS.NET/UkagakaSSTPConnection.cs:30-43 | With no references the Charset line follows the Event line directly |
| `SstpRequest.StartRequestExample` | GIPS.NET/UkagakaSSTPConnection.cs:30-43 | An example request: sender `GIPS.NET`, event `OnGIPSStart` and references `0.1`, `0` frame to exactly seven lines, from `NOTIFY SSTP/1.1` to `Charset: Shift-JIS` and the empty line |
| `SstpRequest.JoinLinesAppend` | GIPS.NET/UkagakaSSTPConnection.cs:32-43 | Appending line blocks to the builder one after the other gives the CRLF-terminated join of all their lines |
| `SstpRequest.FirstLine` | GIPS.NET/UkagakaSSTPConnection.cs:30-43 | Splitting at the first CRLF gives a CRLF-free line and the rest that rebuild the input; no split only when the input has no CRLF |
| `SstpRequest.SplitLines` | GIPS.NET/UkagakaSSTPConnection.cs:30-43 | Lines recovered by the reference splitter are CRLF-free and rejoin to the input |
| `SstpRequest.SplitJoinLines` | GIPS.NET/UkagakaSSTPConnection.cs:30-43 | Splitting CRLF-terminated CRLF-free lines on CRLF gives back the same lines |
| `SstpRequest.ReferenceLineFreeOfCrLf` | GIPS.NET/UkagakaSSTPConnection.cs:36-40 | A Reference line is CRLF-free when its value is, since the index is all digits |
| `SstpRequest.ParseReferenceLines` | GIPS.NET/UkagakaSSTPConnection.cs:34-41 | Reading Reference headers in order from index `from` gives back the references in argument order |
| `SstpRequest.RequestFieldsParse` | GIPS.NET/UkagakaSSTPConnection.cs:30-43 | Each header line of a request reads back as the sender, event, references in order and charset it was built from |
| `SstpRequest.ParseRequestRoundTrip` | GIPS.NET/UkagakaSSTPConnection.cs:30-43 | When no value holds a CRLF, splitting the request on CRLF yields exactly its 5 + n lines, and parsing recovers sender, event, references (in order) and charset |
| `SstpRequest.RequestInjective` | GIPS.NET/UkagakaSSTPConnection.cs:30-43 | For CRLF-free values, two notifications frame to the same request exactly when they are equal |
| `Text.DecimalString` | GIPS.NET/UkagakaSSTPConnection.cs:37 | The index is written as at least one decimal digit with no leading zero (only `0` itself starts with `0`) |
| `Text.ParseDecimalOfDecimalString` | GIPS.NET/UkagakaSSTPConnection.cs:37 | Reading the decimal index back gives the index |
| `Text.DecimalStringInjective` | GIPS.NET/UkagakaSSTPConnection.cs:37 | Distinct indices get distinct header names |
| `Text.LastIndexOf` | GIPS.NET/GIPSPackage.cs:99-100 | -1 exactly when the character is absent; otherwise the position holds that character and no later position does |
| `Text.Substring` | GIPS.NET/GIPSPackage.cs:101 | Defined exactly when start and length are non-negative and the range fits; the result is the `length` characters from `start` |
| `GipsPackage.ClearEnc` | GIPS.NET/GIPSPackage.cs:124 | Clears every EncMask bit and keeps every other bit of the mode |
| `GipsPackage.ShowMode` | GIPS.NET/GIPSPackage.cs:119-144 | With EncMask cleared, Design, Break and Run give `Entered mode: Design`, `Break` and `Run`, each if and only if; any other mode gives `""` |
| `GipsPackage.ModeMessageIgnoresEnc` | GIPS.NET/GIPSPackage.cs:121-143 | Setting any EncMask bits leaves the message unchanged; clearing twice equals clearing once |
| `GipsPackage.EncBreakShowsBreakWithoutNotifying` | GIPS.NET/GIPSPackage.cs:85-90 | Break with the Enc flag shows `Break` but forwards nothing, because the trigger compares the unmasked mode; every forwarding mode change shows `Break` |
| `GipsPackage.LineAt` | GIPS.NET/GIPSPackage.cs:99-101 | Defined exactly when the last quote is not before one past the last space; it is then the text between them, contains no space, and is undefined when there is no quote |
| `GipsPackage.LineAtOfQuotedFrame` | GIPS.NET/GIPSPackage.cs:93-101 | For every line ending in a space, a text with no space or quote, and a quote, `lineAt` is that text; on a quoted frame line this is the line number |
| `GipsPackage.ExceptionRequestShape` | GIPS.NET/GIPSPackage.cs:112-113 | The exception request has six lines and exactly one Reference header, `Reference0: <exception type>` |
| `GipsPackage.OnModeChange` | GIPS.NET/GIPSPackage.cs:83-117 | Shows the mode message. It sends a notification iff the unmasked mode is Break, the reason is ExceptionNotHandled and `lineAt` is defined. The request has sender `test`, event `OnExceptionOccured` and the exception type as its only reference, and goes to the default endpoint. It returns 0 on every path that does not raise; it raises when `Substring` fails or the transport fails |

## Left out

- The TCP connect, write, flush, read and close in `Send` are network I/O. They are the `Transport` parameter, and the reply line it reports is discarded as in the source.
- The transport step is assumed to return. A `Transport` is a total function, so a blocking connect or `ReadLine` that stalls the debugger callback is not modelled. Neither call has a timeout. The model also gives the same outcome for the same inputs on every call.
- `Send` calls `Close` only after a successful write and read. When the write, flush or `ReadLine` raises, the `TcpClient` stays open; the single `Transport` step does not capture this leak.
- Shift-JIS byte encoding through `Encoding.GetEncoding` and `GetBytes`/`GetChars` is a foreign codec. The model stays at the string level; a missing encoder is one of the transport's errors.
- The model has no null strings. In C#, a null `sender`, `eventName` or reference is written as the empty string, and a null `reference` array raises. Model strings are never null.
- Package registration, `InitializeAsync`, the service lookup, `AdviseDebuggerEvents` and the `dte`/`cookie` fields are IDE plumbing. `OnModeChange` is a module-level method with the debugger's answers as inputs.
- Debugger expression evaluation (`GetExpression2`, `LastBreakReason`, `CurrentStackFrame.Language`, the exception value) is host-side. Its results are the fields of `DebuggerState`. The language and the exception value are only logged.
- Break reasons other than "exception not handled" are not named one by one. Only that distinction affects the behaviour.
- All `Debug.WriteLine` logging is left out. `ShowMode` returns the line it would log, and `lineAt` matters only because `Substring` may raise before the notification is sent.
- Determinism of the encoding is not stated as a lemma: every Dafny function is deterministic by construction.
