/**
 * The stdout and stderr byte decoders of `ClangdModule.preRun` as functions
 * of their state: what one byte does, and what a run of bytes does.
 * The Language Server Protocol base framing they decode is
 *   Content-Length: <decimal byte count>\r\n
 *   \r\n
 *   <body of exactly that many bytes>
 */
module Framing {
  import opened Wrappers
  import opened JsString
  import opened TextDecoding

  /**
   * The stdout decoder's state: `outputMessageBuf` and
   * `outputMessageLength`, where None is `null` (reading a header) and
   * Some(n) means reading a body of n bytes (n may be NaN).
   */
  datatype Framer = Framer(buf: seq<byte>, length: Option<ParsedInt>)

  /** The state a fresh module starts in, and the one each message returns to. */
  const Initial: Framer := Framer([], None)

  /** What one byte does besides changing the state: nothing, a hook call, or a thrown TypeError. */
  datatype Event = Quiet | Emit(message: string) | Threw

  datatype StepResult = StepResult(next: Framer, event: Event)

  const HeaderTerminator: string := "\r\n\r\n"

  /**
   * `parseInt(header.split(":")[1].trim())`; None is the TypeError thrown
   * by `.trim()` on `undefined` when the header holds no colon.
   */
  function DeclaredLength(header: string): Option<ParsedInt> {
    match SplitSecond(header, ':')
    case None => None
    case Some(field) => Some(ParseInt(Trim(field)))
  }

  /** The `stdout` callback on one byte. */
  function Step(decode: Decoder, s: Framer, b: byte): StepResult {
    var buf := s.buf + [b];
    var decoded := decode(buf);
    if decoded.None? then StepResult(Framer(buf, s.length), Quiet)
    else if s.length.None? then HeaderStep(buf, decoded.value)
    else BodyStep(buf, decoded.value, s.length.value)
  }

  /** The header branch of `stdout`, once the pushed buffer has decoded to `text`. */
  function HeaderStep(buf: seq<byte>, text: string): StepResult {
    if !EndsWith(text, HeaderTerminator) then StepResult(Framer(buf, None), Quiet)
    else
      match DeclaredLength(text)
      case None => StepResult(Framer(buf, None), Threw)
      case Some(n) => StepResult(Framer([], Some(n)), Quiet)
  }

  /** The body branch of `stdout`, once the pushed buffer has decoded to `text`. */
  function BodyStep(buf: seq<byte>, text: string, n: ParsedInt): StepResult {
    if n == Int(|buf|) then StepResult(Initial, Emit(text))
    else StepResult(Framer(buf, Some(n)), Quiet)
  }

  /** The hook calls an event stands for. */
  function Emitted(e: Event): seq<string> {
    if e.Emit? then [e.message] else []
  }

  /** The end state, the hook calls in order, and the number of thrown TypeErrors. */
  datatype Trace = Trace(state: Framer, messages: seq<string>, errors: nat)

  /** A callback on stdout bytes, as a function of the closure's state and one byte. */
  type Stepper = (Framer, byte) -> StepResult

  /** The `stdout` callback installed by `preRun`, over the given decoder. */
  function StdoutCallback(decode: Decoder): Stepper {
    (s: Framer, b: byte) => Step(decode, s, b)
  }

  /**
   * The callback `step` on each byte of `input` in turn. A thrown
   * TypeError fails that write; the state it leaves behind goes on.
   */
  function Run(step: Stepper, s: Framer, input: seq<byte>): Trace
    decreases |input|
  {
    if input == [] then Trace(s, [], 0)
    else
      var r := step(s, input[0]);
      var t := Run(step, r.next, input[1..]);
      Trace(t.state, Emitted(r.event) + t.messages, (if r.event.Threw? then 1 else 0) + t.errors)
  }

  /** `stderrBuf` after one byte, and the line passed to `console.warn`, if any. */
  datatype LineStep = LineStep(buf: seq<byte>, line: Option<string>)

  /** The `stderr` callback on one byte; `debug` is `options.debug`. */
  function StderrStep(debug: bool, decode: Decoder, buf: seq<byte>, b: byte): LineStep {
    if !debug then LineStep(buf, None)
    else
      var grown := buf + [b];
      match decode(grown)
      case None => LineStep(grown, None)
      case Some(text) =>
        if EndsWith(text, "\n") then LineStep([], Some(text)) else LineStep(grown, None)
  }

  /** The `console.warn` calls a step stands for. */
  function Logged(line: Option<string>): seq<string> {
    if line.Some? then [line.value] else []
  }

  datatype LineTrace = LineTrace(buf: seq<byte>, lines: seq<string>)

  /** A callback on stderr bytes, as a function of the line buffer and one byte. */
  type LineStepper = (seq<byte>, byte) -> LineStep

  /** The `stderr` callback installed by `preRun`; `debug` is `options.debug`. */
  function StderrCallback(debug: bool, decode: Decoder): LineStepper {
    (buf: seq<byte>, b: byte) => StderrStep(debug, decode, buf, b)
  }

  /** The callback `step` on each byte of `input` in turn. */
  function StderrRun(step: LineStepper, buf: seq<byte>, input: seq<byte>): LineTrace
    decreases |input|
  {
    if input == [] then LineTrace(buf, [])
    else
      var r := step(buf, input[0]);
      var t := StderrRun(step, r.buf, input[1..]);
      LineTrace(t.buf, Logged(r.line) + t.lines)
  }

  /**
   * The header a language server writes before a body of n bytes. The
   * repository has no encoder; this states what the decoder must accept.
   */
  function HeaderText(n: nat): (t: string)
    ensures IsAsciiText(t)
    ensures EndsWith(t, HeaderTerminator)
  {
    "Content-Length: " + DecimalText(n) + HeaderTerminator
  }

  /** A framed message: its header, then its body. */
  function Frame(body: seq<byte>): seq<byte> {
    AsciiBytes(HeaderText(|body|)) + body
  }

  /** Framed messages, one after another. */
  function Frames(bodies: seq<seq<byte>>): seq<byte> {
    if bodies == [] then [] else Frame(bodies[0]) + Frames(bodies[1..])
  }

  /**
   * A body-phase state that can never emit: the declared length is NaN or
   * already no larger than the buffer, and the buffer only grows.
   */
  predicate Stalled(s: Framer) {
    s.length.Some? && (s.length.value.NaN? || s.length.value.value <= |s.buf|)
  }

  /**
   * The accounting invariant: while a positive length is declared, the body
   * buffer holds fewer bytes than declared.
   */
  predicate WithinDeclared(s: Framer) {
    s.length.Some? && s.length.value.Int? && s.length.value.value > 0 ==> |s.buf| < s.length.value.value
  }
}
