# clangd-wasm stdout/stderr framing, in Dafny

clangd-wasm runs the clangd language server as a WebAssembly module in the
browser. The server writes Language Server Protocol messages to its standard
output one byte at a time, and `ClangdModule` turns that byte stream back
into messages. Each message has the LSP base-protocol framing:

    Content-Length: <decimal byte count>\r\n
    \r\n
    <body of exactly that many bytes>

This project models the part of `ClangdModule` that does this work:

- the `stdout` callback installed by `preRun`. It pushes each byte onto
  `outputMessageBuf` and decodes the buffer with a `TextDecoder`. While
  `outputMessageLength` is `null` it waits for the decoded text to end with
  `\r\n\r\n`. It then records `parseInt(text.split(":")[1].trim())` and
  empties the buffer. Once a length is recorded, it calls `onMessageHook`
  with the decoded body when the buffer's byte count equals that length,
  and goes back to `null`;
- the `stderr` callback. When `options.debug` is set, it accumulates bytes
  in `stderrBuf` and hands every line that ends in `\n` to `console.warn`;
- `locateFile`, which maps the module's file requests to object URLs or to
  URLs under `options.baseURL`.

Layout:

- `wrappers.dfy`: `Option`.
- `js_string.dfy` (module `JsString`): the JavaScript built-ins the decoder
  calls, as ECMAScript defines them. These are `endsWith`, `split(sep)[1]`,
  `trim` (with ECMAScript's full white-space set) and `parseInt` with no
  radix (optional sign, `0x` prefix for hexadecimal, longest digit run,
  NaN).
- `text_decoding.dfy` (module `TextDecoding`): `byte`, the value a callback
  pushes. The text decoder is a function
  value `Decoder = seq<byte> -> Option<string>`. `None` stands for the
  exception the source's `catch` blocks expect. The facts the framing uses
  are stated as laws:
  - `AsciiFaithful`: ASCII bytes decode to the same characters.
  - `TerminatorsFaithful`: decoded text ends with `\n` or `\r\n\r\n` exactly
    when the bytes end with 10 or 13,10,13,10.
  - `NonFatal`: the default `TextDecoder` never throws.

  A byte-wise decoder shows that the three laws can all hold at once.
- `framing.dfy` (module `Framing`): the two callbacks as functions of their
  state. `Step` handles one stdout byte, and `StdoutCallback(decode)` is
  that step as a function value. `Run(step, s, input)` feeds a sequence of
  bytes to a callback. `StderrStep`, `StderrCallback(debug, decode)` and
  `StderrRun` do the same for stderr. `Frame` is the framing a server
  writes, used to state round trips. The repository has no encoder of its
  own.
- `framing_lemmas.dfy` (module `FramingLemmas`): what the decoders promise.
- `clangd_module.dfy` (module `Clangd`): class `ClangdModule` with the
  source's fields. `Stdout` and `Stderr` are imperative methods proved equal
  to `Step` and `StderrStep`. `Stdout` leaves its header branch to
  `ReceiveHeader`, which is proved equal to `HeaderStep`. `LocateFile` is a
  function. The `onMessageHook`
  calls and the `console.warn` calls are recorded in the ghost logs
  `hookCalls` and `warnings`.

Where the code differs from what the LSP framing leads one to expect, the
model follows the code:

- The length is read from the text between the header's first and second
  colon: the first field's value, then the following lines up to the next
  colon. The first field's name does not matter; the decoder never looks
  for `Content-Length`. A header that puts `Content-Type: ...` first (which the
  protocol allows) therefore declares NaN, and the decoder stalls
  (`NonNumericFirstField`, `Stall`). Extra lines after a leading
  `Content-Length` line are harmless (`CanonicalDeclaredLength`).
- A message with an empty body (`Content-Length: 0`) is never delivered.
  The length test runs only after a byte has been pushed, so the decoder
  stalls (`ZeroLengthFrameStalls`).
- The code expects decoding to fail in the middle of a multi-byte
  character. A default `TextDecoder` does not fail; it substitutes U+FFFD.
  The model keeps the failing branch (a `Decoder` may return `None`). The
  lemmas that need a decoder that never throws say so with `NonFatal`.
- A header with no colon makes `.trim()` throw a TypeError. `Stdout`
  reports this as `threw`. The buffer keeps the pushed byte, and later
  bytes are processed from that state.

## Model

| member | source | states |
|---|---|---|
| `Clangd.ClangdModule.constructor` | src/index.ts:36-50 | a new module has empty buffers, a `null` length, and has made no hook or `console.warn` calls |
| `Clangd.ClangdModule.Stdout` | src/index.ts:57-84 | after one byte, the buffer, the length and the hook calls are exactly those of `Framing.Step`; it reports the TypeError of a header without a colon |
| `Clangd.ClangdModule.ReceiveHeader` | src/index.ts:70-75 | in the header phase, the buffer and the length after a decoded text are exactly those of `Framing.HeaderStep`; it reports the TypeError of a header without a colon |
| `Clangd.ClangdModule.Stderr` | src/index.ts:86-104 | after one byte, `stderrBuf` and the `console.warn` calls are exactly those of `Framing.StderrStep` |
| `Clangd.ClangdModule.LocateFile` | src/index.ts:113-121 | paths ending in `.worker.js` map to the worker URL; other `.js` paths map to the main URL; every other path maps to `baseURL + "/" + path` |
| `Clangd.WorkerScriptIsScript` | src/index.ts:114-116 | every `.worker.js` path also ends in `.js`, so the worker test must come first |
| `JsString.IndexOfFirst` | src/index.ts:73 | the search finds the first position of the character, and finds nothing exactly when the character is absent |
| `JsString.UpToStops` | src/index.ts:73 | the text before the first separator holds no separator and stops at the end or at a separator |
| `JsString.SplitSecondUndefined` | src/index.ts:73 | `split(sep)[1]` is undefined exactly when there is no separator; otherwise it holds no separator |
| `JsString.TrimStart` | src/index.ts:73 | the result is a suffix of the input and does not start with white space |
| `JsString.TrimStartRemovesWhiteSpace` | src/index.ts:73 | everything `trimStart` removes is white space |
| `JsString.TrimEnd` | src/index.ts:73 | the result is a prefix of the input and does not end with white space |
| `JsString.TrimEndRemovesWhiteSpace` | src/index.ts:73 | everything `trimEnd` removes is white space |
| `JsString.LeadingDigitsMaximal` | src/index.ts:73 | the digit run `parseInt` reads is made only of digits of the radix and stops at the end or at a non-digit |
| `JsString.ParseIntOfDecimal` | src/index.ts:73 | `parseInt` reads back the decimal numeral of n, whatever non-alphanumeric text follows it |
| `JsString.ParseIntNaN` | src/index.ts:73 | `parseInt` gives NaN for text that starts with neither a sign nor a digit |
| `TextDecoding.ByteWiseDecoderIsLawful` | src/index.ts:64 | some decoder satisfies the ASCII, terminator and never-throws laws together |
| `FramingLemmas.DeclaredLengthUndefined` | src/index.ts:73 | reading the length throws exactly when the header text has no colon |
| `FramingLemmas.FirstHeaderFieldIsRead` | src/index.ts:73 | the declared length is `parseInt` of the trimmed text between the header's first and second colon, whatever the first field's name |
| `FramingLemmas.CanonicalDeclaredLength` | src/index.ts:73 | a header starting with `Content-Length: n` declares n, whatever lines follow |
| `FramingLemmas.NonNumericFirstField` | src/index.ts:73 | a first field whose value starts with a letter (such as a leading Content-Type) declares NaN |
| `FramingLemmas.HeaderByte` | src/index.ts:70-75 | in the header phase a byte never emits; the phase ends exactly when the decoded buffer ends with `\r\n\r\n` and contains a colon, and then the buffer is emptied and the declared length recorded; without a colon it throws; otherwise the byte is appended |
| `FramingLemmas.HeaderEndsOnBytes` | src/index.ts:72 | with a decoder that keeps terminators, once the pushed buffer decodes, the header ends (or throws) exactly on the byte that completes 13,10,13,10 |
| `FramingLemmas.BodyByte` | src/index.ts:76-83 | in the body phase the hook is called exactly when the pushed buffer's byte count equals the declared length (and it decodes); the hook gets the decoded buffer and the state resets; otherwise the byte is only appended |
| `FramingLemmas.StepKeepsWithinDeclared` | src/index.ts:77-82 | with a never-throwing decoder, one byte keeps the body buffer shorter than a positive declared length |
| `FramingLemmas.RunKeepsWithinDeclared` | src/index.ts:77-82 | with a never-throwing decoder, the body buffer stays shorter than a positive declared length over any input |
| `FramingLemmas.RunAppend` | src/index.ts:57-84 | feeding x and then y is the same as feeding x + y: how the bytes are chunked does not matter |
| `FramingLemmas.HeaderRun` | src/index.ts:70-75 | a whole `Content-Length: n` header from the initial state records n, empties the buffer and emits nothing |
| `FramingLemmas.BodyRun` | src/index.ts:76-83 | n body bytes after a declared n give one hook call with their text and return to the initial state |
| `FramingLemmas.RoundTrip` | src/index.ts:57-84 | a framed body of n >= 1 bytes gives exactly one hook call, with its decoded text, and ends in the initial state |
| `FramingLemmas.EmptyObjectExample` | src/index.ts:57-84 | `Content-Length: 2\r\n\r\n{}` gives one hook call with `{}` |
| `FramingLemmas.BackToBack` | src/index.ts:80-81 | two framed messages in a row give two hook calls, in order |
| `FramingLemmas.FramesInSequence` | src/index.ts:57-84 | any sequence of framed messages gives one hook call per message, in order |
| `FramingLemmas.Stall` | src/index.ts:77 | once the declared length is NaN or no larger than the buffer, no byte ever calls the hook, and the buffer keeps every byte |
| `FramingLemmas.ZeroLengthFrameStalls` | src/index.ts:73-77 | after a `Content-Length: 0` header the decoder is stalled for good |
| `FramingLemmas.StderrDisabled` | src/index.ts:87-88 | with `options.debug` off, stderr bytes change nothing and log nothing |
| `FramingLemmas.StderrByte` | src/index.ts:90-103 | with debug on, a byte is appended; exactly when it is a line feed, the whole decoded buffer is logged once and the buffer is emptied |
| `FramingLemmas.StderrLineFeed` | src/index.ts:100-103 | the line feed that ends a buffered line logs the whole line and empties the buffer |
| `FramingLemmas.StderrRunAppend` | src/index.ts:86-104 | feeding stderr x and then y is the same as feeding x + y |
| `FramingLemmas.StderrLine` | src/index.ts:86-104 | a line without an inner line feed, followed by one, is logged exactly once as a whole, and the buffer ends empty |

## Left out

- `toBlobURL` and `start` are not modelled. They fetch the scripts and create object URLs (network and browser APIs). The constructor takes the two object URLs instead, as `start` leaves them; before `start` they are `undefined`, which is not modelled.
- `FS.init` and the `compile_commands.json` write in `preRun` are not modelled. They are calls into the WebAssembly module.
- The `stdin` stub (which always returns `null`) and `messageBuf` are not modelled.
- `ClangdStdioTransport` is not part of this model. It holds option defaults and `connect`/`sendData`/`close`. It is glue over `@open-rpc/client-js`, whose code is not available, and its Promises are asynchronous. It also covers what the hook does with a message (`JSON.parse`, `resolveResponse`).
- The UTF-8 algorithm of `TextDecoder` is not modelled. The decoder is a parameter with stated laws.
- `console.warn` and `onMessageHook` are not modelled; the model appends their arguments to ghost logs.
- `Stdout` assumes that `onMessageHook` returns. The repository's own hook calls `JSON.parse` when `debug` is on, which throws on a malformed body. If it throws, the reset at src/index.ts:80-81 is skipped and the state stays at the buffer with its own length declared. That state is `Stalled`: by `Stall`, no later byte calls the hook again. The model does not capture this path.
- What Emscripten does with an exception thrown by the callback is not modelled. `Stdout` reports it, and the model goes on from the state the exception left.
- `parseInt`: JavaScript numbers lose precision above 2^53 and become Infinity for huge numerals; the model uses exact integers. `-0` is modelled as 0. Neither matters for a comparison with a buffer length.
- Bytes: the callbacks receive numbers. The model's byte is the value `new Uint8Array` stores (the number mod 256). Pushing that value instead of the number changes neither the decoded text nor the buffer length.
- `options.debug` is read on each call; the model fixes it when the module is built, because no code changes it afterwards.
- JavaScript strings are UTF-16 code units while Dafny's are Unicode scalar values. The model compares text by suffix and by leading characters, searches it for `:` and trims white space. `:` and every white-space character are single UTF-16 code units that are never surrogate halves, so the search and `trim` find the same positions in either encoding.
