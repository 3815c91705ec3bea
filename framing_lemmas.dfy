/** What the stdout and stderr decoders promise, proved about the functions of module Framing. */
module FramingLemmas {
  import opened Wrappers
  import opened JsString
  import opened TextDecoding
  import opened Framing

  // ---------------------------------------------------------------------
  // The declared length: `parseInt(text.split(":")[1].trim())`
  // ---------------------------------------------------------------------

  /** The header's value is undefined, and `.trim()` throws a TypeError, exactly when it has no colon. */
  lemma DeclaredLengthUndefined(header: string)
    ensures DeclaredLength(header).None? <==> ':' !in header
  {
    SplitSecondUndefined(header, ':');
  }

  /** UpTo is determined by its three properties. */
  lemma UpToUnique(s: string, c: char, r: string)
    requires |r| <= |s| && r == s[..|r|] && c !in r
    requires |r| == |s| || s[|r|] == c
    ensures UpTo(s, c) == r
  {
    var u := UpTo(s, c);
    UpToStops(s, c);
  }

  lemma UpToAppend(p: string, q: string, c: char)
    requires c !in p
    ensures UpTo(p + q, c) == p + UpTo(q, c)
  {
    UpToStops(q, c);
    var r := p + UpTo(q, c);
    assert r == (p + q)[..|r|];
    if |r| < |p + q| {
      assert (p + q)[|r|] == q[|UpTo(q, c)|];
    }
    UpToUnique(p + q, c, r);
  }

  /** `split(":")[1]` of `name:tail` is the part of `tail` before its first colon. */
  lemma SplitAfterName(name: string, tail: string)
    requires ':' !in name
    ensures SplitSecond(name + ":" + tail, ':') == Some(UpTo(tail, ':'))
  {
    var s := name + ":" + tail;
    assert s[|name|] == ':';
    IndexOfFirst(s, ':');
    var i := IndexOf(s, ':').value;
    assert s[..|name|] == name;
    assert i == |name|;
    assert s[i + 1..] == tail;
  }

  /**
   * Whatever the header's first field is called, its value (up to the next
   * colon) is what gets parsed: the decoder never looks for the name
   * `Content-Length`.
   */
  lemma FirstHeaderFieldIsRead(name: string, tail: string)
    requires ':' !in name
    ensures DeclaredLength(name + ":" + tail) == Some(ParseInt(Trim(UpTo(tail, ':'))))
  {
    SplitAfterName(name, tail);
  }

  /**
   * A header that starts with `Content-Length: n` declares n, whatever
   * header lines follow the first one.
   */
  lemma CanonicalDeclaredLength(n: nat, more: string)
    ensures DeclaredLength("Content-Length: " + DecimalText(n) + "\r\n" + more) == Some(Int(n))
  {
    assert "Content-Length: " == "Content-Length" + ": ";
    NumericFirstField("Content-Length", n, more);
  }

  /** A first header field whose value is a numeral declares that number. */
  lemma NumericFirstField(name: string, n: nat, more: string)
    requires ':' !in name
    ensures DeclaredLength(name + ": " + DecimalText(n) + "\r\n" + more) == Some(Int(n))
  {
    var d := DecimalText(n);
    var tail := " " + d + "\r\n" + more;
    Regroup(name, ": ", d, "\r\n" + more);
    Regroup(" ", d, "\r\n", more);
    assert ": " == ":" + " ";
    Regroup(name, ":", " ", d + ("\r\n" + more));
    assert name + ": " + d + "\r\n" + more == name + ":" + tail;
    FirstHeaderFieldIsRead(name, tail);
    NumeralFieldValue(n, more);
  }

  lemma NumeralFieldValue(n: nat, more: string)
    ensures ParseInt(Trim(UpTo(" " + DecimalText(n) + "\r\n" + more, ':'))) == Int(n)
  {
    var d := DecimalText(n);
    NumeralLeadHasNoColon(d);
    UpToAppend(" " + d + "\r\n", more, ':');
    Regroup(" ", d, "\r\n", UpTo(more, ':'));
    NumeralParse(n, "\r\n" + UpTo(more, ':'));
  }

  lemma NumeralParse(n: nat, x: string)
    requires x != [] && x[0] == '\r'
    ensures ParseInt(Trim(" " + (DecimalText(n) + x))) == Int(n)
  {
    TrimNumeral(DecimalText(n), x);
    var rest := TrimEnd(x);
    assert !IsDigitIn('\r', 36);
    assert rest == [] || rest[0] == x[0];
    ParseIntOfDecimal(n, rest);
  }

  lemma Regroup<T>(a: seq<T>, b: seq<T>, c: seq<T>, e: seq<T>)
    ensures a + b + c + e == a + (b + (c + e))
  {
  }

  lemma NumeralLeadHasNoColon(d: string)
    requires forall i :: 0 <= i < |d| ==> IsDecimalDigit(d[i])
    ensures ':' !in " " + d + "\r\n"
  {
    var lead := " " + d + "\r\n";
    forall i | 0 <= i < |lead| ensures lead[i] != ':' {
      if 1 <= i < 1 + |d| { assert lead[i] == d[i - 1]; }
    }
  }

  /** Trimming ` <digits><rest>` keeps the digits and trims only the end of the rest. */
  lemma TrimNumeral(d: string, x: string)
    requires d != [] && forall i :: 0 <= i < |d| ==> IsDecimalDigit(d[i])
    ensures Trim(" " + (d + x)) == d + TrimEnd(x)
  {
    TrimStartSpace(d + x);
    assert (d + x)[0] == d[0];
    TrimStartVisible(d + x);
    TrimEndAppend(d, x);
  }

  lemma TrimStartSpace(w: string)
    ensures TrimStart(" " + w) == TrimStart(w)
  {
    assert (" " + w)[1..] == w;
  }

  lemma TrimStartVisible(w: string)
    requires w != [] && !IsWhiteSpace(w[0])
    ensures TrimStart(w) == w
  {
  }

  /**
   * A first header field whose value starts with a letter declares NaN,
   * whatever header lines follow.
   */
  lemma NonNumericFirstField(name: string, value: string, rest: string)
    requires ':' !in name && ':' !in value
    requires rest == [] || rest[0] == ':'
    requires TrimStart(value) != [] && IsDigitIn(TrimStart(value)[0], 36) && !IsDecimalDigit(TrimStart(value)[0])
    ensures DeclaredLength(name + ":" + value + rest) == Some(NaN)
  {
    FirstFieldValue(name, value, rest);
    LetterValueIsNaN(value);
  }

  /** The value of the first field is the text between the first two colons. */
  lemma FirstFieldValue(name: string, value: string, rest: string)
    requires ':' !in name && ':' !in value
    requires rest == [] || rest[0] == ':'
    ensures DeclaredLength(name + ":" + value + rest) == Some(ParseInt(Trim(value)))
  {
    assert name + ":" + value + rest == name + ":" + (value + rest);
    FirstHeaderFieldIsRead(name, value + rest);
    UpToUnique(value + rest, ':', value);
  }

  /** A value that, once trimmed, starts with a letter parses to NaN. */
  lemma LetterValueIsNaN(value: string)
    requires TrimStart(value) != [] && IsDigitIn(TrimStart(value)[0], 36) && !IsDecimalDigit(TrimStart(value)[0])
    ensures ParseInt(Trim(value)) == NaN
  {
    var t := TrimStart(value);
    var v := Trim(value);
    TrimEndRemovesWhiteSpace(t);
    assert v != [] && v[0] == t[0];
    assert TrimStart(v) == v;
    assert v[0] != '-' && v[0] != '+' by {
      assert DigitValue('-') == 36 && DigitValue('+') == 36;
    }
    ParseIntNaN(v);
  }

  // ---------------------------------------------------------------------
  // One byte on stdout
  // ---------------------------------------------------------------------

  /**
   * While reading a header, a byte is appended and nothing is emitted; the
   * header ends exactly when the decoded buffer ends with `\r\n\r\n`, and
   * then the buffer is emptied and the declared length recorded, or, with
   * no colon in the header, a TypeError is thrown and the state kept.
   */
  lemma HeaderByte(decode: Decoder, s: Framer, b: byte)
    requires s.length.None?
    ensures var buf := s.buf + [b]; var r := Step(decode, s, b);
      && !r.event.Emit?
      && (r.next.length.Some? <==>
            decode(buf).Some? && EndsWith(decode(buf).value, HeaderTerminator) && ':' in decode(buf).value)
      && (r.event.Threw? <==>
            decode(buf).Some? && EndsWith(decode(buf).value, HeaderTerminator) && ':' !in decode(buf).value)
      && (r.next.length.Some? ==> r.next.buf == [] && r.next.length == DeclaredLength(decode(buf).value))
      && (r.next.length.None? ==> r.next.buf == buf)
  {
    var buf := s.buf + [b];
    match decode(buf)
    case None =>
    case Some(text) =>
      if EndsWith(text, HeaderTerminator) {
        DeclaredLengthUndefined(text);
      }
  }

  /**
   * With a decoder that keeps terminators, once the pushed buffer decodes (it
   * always does when the decoder never throws), the header ends on the byte
   * that completes 13, 10, 13, 10.
   */
  lemma HeaderEndsOnBytes(decode: Decoder, s: Framer, b: byte)
    requires TerminatorsFaithful(decode)
    requires s.length.None?
    ensures decode(s.buf + [b]) != None ==>
      var r := Step(decode, s, b);
      (r.next.length.Some? || r.event.Threw? <==> EndsWith(s.buf + [b], CrLfCrLfBytes))
  {
    var buf := s.buf + [b];
    if decode(buf) != None {
      var text := decode(buf).value;
      assert EndsWith(text, HeaderTerminator) <==> EndsWith(buf, CrLfCrLfBytes);
      assert Step(decode, s, b) == HeaderStep(buf, text);
    }
  }

  /**
   * While reading a body, the hook is called exactly when the buffer has
   * just reached the declared length (and decodes); it gets the decoded
   * buffer and the decoder returns to its initial state. Otherwise the byte
   * is only appended.
   */
  lemma BodyByte(decode: Decoder, s: Framer, b: byte)
    requires s.length.Some?
    ensures var buf := s.buf + [b]; var r := Step(decode, s, b);
      && !r.event.Threw?
      && (r.event.Emit? <==> decode(buf).Some? && s.length.value == Int(|buf|))
      && (r.event.Emit? ==> r.event.message == decode(buf).value && r.next == Initial)
      && (!r.event.Emit? ==> r.next == Framer(buf, s.length) && r.event == Quiet)
  {
  }

  /** The buffer never outgrows a positive declared length, with a decoder that never throws. */
  lemma StepKeepsWithinDeclared(decode: Decoder, s: Framer, b: byte)
    requires NonFatal(decode) && WithinDeclared(s)
    ensures WithinDeclared(Step(decode, s, b).next)
  {
    assert decode(s.buf + [b]).Some?;
  }

  // ---------------------------------------------------------------------
  // One-byte behaviours that runs are built from
  // ---------------------------------------------------------------------

  /** In the body phase, a byte that does not bring the buffer to the declared length is only appended. */
  ghost predicate BodyQuiet(step: Stepper) {
    forall s: Framer, b: byte ::
      s.length.Some? && s.length.value != Int(|s.buf| + 1) ==>
        step(s, b) == StepResult(Framer(s.buf + [b], s.length), Quiet)
  }

  /** Header bytes, read as ASCII, that do not yet end with `\r\n\r\n`. */
  ghost predicate HeaderOpen(buf: seq<byte>) {
    IsAscii(buf) && !EndsWith(AsciiText(buf), HeaderTerminator)
  }

  /** In the header phase, a byte that leaves the header open is only appended. */
  ghost predicate HeaderQuiet(step: Stepper) {
    forall s: Framer, b: byte ::
      s.length.None? && HeaderOpen(s.buf + [b]) ==> step(s, b) == StepResult(Framer(s.buf + [b], None), Quiet)
  }

  /** A step that keeps the accounting invariant. */
  ghost predicate KeepsWithinDeclared(step: Stepper) {
    forall s: Framer, b: byte :: WithinDeclared(s) ==> WithinDeclared(step(s, b).next)
  }

  lemma StdoutBodyQuiet(decode: Decoder)
    ensures BodyQuiet(StdoutCallback(decode))
  {
    forall s: Framer, b: byte | s.length.Some? && s.length.value != Int(|s.buf| + 1)
      ensures StdoutCallback(decode)(s, b) == StepResult(Framer(s.buf + [b], s.length), Quiet)
    {
      BodyByte(decode, s, b);
    }
  }

  lemma StdoutHeaderQuiet(decode: Decoder)
    requires AsciiFaithful(decode)
    ensures HeaderQuiet(StdoutCallback(decode))
  {
    forall s: Framer, b: byte | s.length.None? && HeaderOpen(s.buf + [b])
      ensures StdoutCallback(decode)(s, b) == StepResult(Framer(s.buf + [b], None), Quiet)
    {
      assert decode(s.buf + [b]) == Some(AsciiText(s.buf + [b]));
      HeaderByte(decode, s, b);
    }
  }

  lemma StdoutKeepsWithinDeclared(decode: Decoder)
    requires NonFatal(decode)
    ensures KeepsWithinDeclared(StdoutCallback(decode))
  {
    forall s: Framer, b: byte | WithinDeclared(s) ensures WithinDeclared(StdoutCallback(decode)(s, b).next) {
      StepKeepsWithinDeclared(decode, s, b);
    }
  }

  // ---------------------------------------------------------------------
  // Runs of any stdout callback
  // ---------------------------------------------------------------------

  /** Feeding x then y is feeding x + y: delivery granularity does not matter. */
  lemma {:induction false} RunAppend(step: Stepper, s: Framer, x: seq<byte>, y: seq<byte>)
    ensures var t1 := Run(step, s, x); var t2 := Run(step, t1.state, y);
      Run(step, s, x + y) == Trace(t2.state, t1.messages + t2.messages, t1.errors + t2.errors)
    decreases |x|
  {
    if x == [] {
      assert x + y == y;
    } else {
      var r := step(s, x[0]);
      assert (x + y)[0] == x[0];
      assert (x + y)[1..] == x[1..] + y;
      RunAppend(step, r.next, x[1..], y);
      var u1 := Run(step, r.next, x[1..]);
      var u2 := Run(step, u1.state, y);
      RunCons(step, s, x, r, u1);
      RunCons(step, s, x + y, r, Run(step, r.next, x[1..] + y));
      assert Emitted(r.event) + (u1.messages + u2.messages) == (Emitted(r.event) + u1.messages) + u2.messages;
    }
  }

  /** One unfolding of `Run`, with the step and the rest of the run named. */
  lemma RunCons(step: Stepper, s: Framer, x: seq<byte>, r: StepResult, u: Trace)
    requires x != [] && r == step(s, x[0]) && u == Run(step, r.next, x[1..])
    ensures Run(step, s, x) == Trace(u.state, Emitted(r.event) + u.messages, (if r.event.Threw? then 1 else 0) + u.errors)
  {
  }

  /** A run whose first step is quiet continues from that step's state. */
  lemma RunQuiet(step: Stepper, s: Framer, x: seq<byte>, next: Framer)
    requires x != [] && step(s, x[0]) == StepResult(next, Quiet)
    ensures Run(step, s, x) == Run(step, next, x[1..])
  {
    var u := Run(step, next, x[1..]);
    RunCons(step, s, x, StepResult(next, Quiet), u);
    assert [] + u.messages == u.messages;
  }

  /** A run of a single byte is that byte's step. */
  lemma RunOne(step: Stepper, s: Framer, b: byte)
    ensures var r := step(s, b);
      Run(step, s, [b]) == Trace(r.next, Emitted(r.event), if r.event.Threw? then 1 else 0)
  {
    var r := step(s, b);
    assert [b][1..] == [];
    RunCons(step, s, [b], r, Trace(r.next, [], 0));
    assert Emitted(r.event) + [] == Emitted(r.event);
  }

  lemma {:induction false} RunWithinDeclared(step: Stepper, s: Framer, input: seq<byte>)
    requires KeepsWithinDeclared(step) && WithinDeclared(s)
    ensures WithinDeclared(Run(step, s, input).state)
    decreases |input|
  {
    if input != [] {
      RunWithinDeclared(step, step(s, input[0]).next, input[1..]);
    }
  }

  /** Header bytes w[j..] that never complete `\r\n\r\n` only pile up in the buffer. */
  lemma {:induction false} AccumulateHeader(step: Stepper, w: seq<byte>, j: nat)
    requires HeaderQuiet(step) && j <= |w|
    requires forall k :: j < k <= |w| ==> HeaderOpen(w[..k])
    ensures Run(step, Framer(w[..j], None), w[j..]) == Trace(Framer(w, None), [], 0)
    decreases |w| - j
  {
    if j == |w| {
      assert w[..j] == w;
    } else {
      var q := w[..j + 1];
      assert q == w[..j] + [w[j]];
      assert HeaderOpen(q);
      assert step(Framer(w[..j], None), w[j]) == StepResult(Framer(q, None), Quiet);
      assert w[j..][1..] == w[j + 1..];
      RunQuiet(step, Framer(w[..j], None), w[j..], Framer(q, None));
      AccumulateHeader(step, w, j + 1);
    }
  }

  /**
   * Body bytes w[j..] only pile up while none of them can bring the buffer to
   * the declared length: it is NaN, already reached, or beyond |w|.
   */
  lemma {:induction false} AccumulateBody(step: Stepper, w: seq<byte>, j: nat, n: ParsedInt)
    requires BodyQuiet(step) && j <= |w|
    requires n.NaN? || n.value <= j || |w| < n.value
    ensures Run(step, Framer(w[..j], Some(n)), w[j..]) == Trace(Framer(w, Some(n)), [], 0)
    decreases |w| - j
  {
    if j == |w| {
      assert w[..j] == w;
    } else {
      var q := w[..j + 1];
      assert q == w[..j] + [w[j]];
      assert n != Int(j + 1);
      assert step(Framer(w[..j], Some(n)), w[j]) == StepResult(Framer(q, Some(n)), Quiet);
      assert w[j..][1..] == w[j + 1..];
      RunQuiet(step, Framer(w[..j], Some(n)), w[j..], Framer(q, Some(n)));
      AccumulateBody(step, w, j + 1, n);
    }
  }

  // ---------------------------------------------------------------------
  // Runs of the stdout callback
  // ---------------------------------------------------------------------

  /** With a decoder that never throws, no body buffer outgrows a positive declared length. */
  lemma RunKeepsWithinDeclared(decode: Decoder, s: Framer, input: seq<byte>)
    requires NonFatal(decode) && WithinDeclared(s)
    ensures WithinDeclared(Run(StdoutCallback(decode), s, input).state)
  {
    StdoutKeepsWithinDeclared(decode);
    RunWithinDeclared(StdoutCallback(decode), s, input);
  }

  /** No proper prefix of a header ends with `\r\n\r\n`. */
  lemma HeaderPrefixesOpen(n: nat, k: nat)
    requires k < |HeaderText(n)|
    ensures !EndsWith(HeaderText(n)[..k], HeaderTerminator)
  {
    var t := HeaderText(n);
    var d := DecimalText(n);
    var p := "Content-Length: " + d;
    assert t == p + HeaderTerminator;
    HeaderLeadHasNoCarriageReturn(d);
    if k >= 4 {
      assert t[..k][k - 4] == p[k - 4] != '\r';
    }
  }

  /** Everything before the terminator is free of `\r`. */
  lemma HeaderLeadHasNoCarriageReturn(d: string)
    requires forall i :: 0 <= i < |d| ==> IsDecimalDigit(d[i])
    ensures '\r' !in "Content-Length: " + d
  {
    assert '\r' !in "Content-Length: ";
    assert '\r' !in d;
  }

  lemma AsciiTextPrefix(b: seq<byte>, k: nat)
    requires IsAscii(b) && k <= |b|
    ensures IsAscii(b[..k]) && AsciiText(b[..k]) == AsciiText(b)[..k]
  {
  }

  /** A whole header from the initial state: no hook call, buffer emptied, length n recorded. */
  lemma HeaderRun(decode: Decoder, n: nat)
    requires AsciiFaithful(decode)
    ensures Run(StdoutCallback(decode), Initial, AsciiBytes(HeaderText(n))) == Trace(Framer([], Some(Int(n))), [], 0)
  {
    var step := StdoutCallback(decode);
    var h := AsciiBytes(HeaderText(n));
    var m := |h| - 1;
    var x := h[..m];
    HeaderBodyOpen(decode, n);
    HeaderLastByte(decode, n);
    RunOne(step, Framer(x, None), h[m]);
    assert x + [h[m]] == h;
    RunAppend(step, Initial, x, [h[m]]);
  }

  /** All header bytes but the last only pile up. */
  lemma HeaderBodyOpen(decode: Decoder, n: nat)
    requires AsciiFaithful(decode)
    ensures var h := AsciiBytes(HeaderText(n));
      Run(StdoutCallback(decode), Initial, h[..|h| - 1]) == Trace(Framer(h[..|h| - 1], None), [], 0)
  {
    var h := AsciiBytes(HeaderText(n));
    var x := h[..|h| - 1];
    forall k | 0 < k <= |x| ensures HeaderOpen(x[..k]) {
      assert x[..k] == h[..k];
      AsciiTextPrefix(h, k);
      HeaderPrefixesOpen(n, k);
    }
    StdoutHeaderQuiet(decode);
    AccumulateHeader(StdoutCallback(decode), x, 0);
    assert x[..0] == [] && x[0..] == x;
  }

  /** The last header byte records the declared length and empties the buffer. */
  lemma HeaderLastByte(decode: Decoder, n: nat)
    requires AsciiFaithful(decode)
    ensures var h := AsciiBytes(HeaderText(n));
      Step(decode, Framer(h[..|h| - 1], None), h[|h| - 1]) == StepResult(Framer([], Some(Int(n))), Quiet)
  {
    var t := HeaderText(n);
    var h := AsciiBytes(t);
    var m := |h| - 1;
    assert h[..m] + [h[m]] == h;
    assert decode(h) == Some(t);
    assert EndsWith(t, HeaderTerminator);
    assert t == "Content-Length: " + DecimalText(n) + "\r\n" + "\r\n";
    CanonicalDeclaredLength(n, "\r\n");
    assert DeclaredLength(t) == Some(Int(n));
  }

  /** A whole body: one hook call with its text, and back to the initial state. */
  lemma BodyRun(decode: Decoder, body: seq<byte>, m: string)
    requires |body| > 0 && decode(body) == Some(m)
    ensures Run(StdoutCallback(decode), Framer([], Some(Int(|body|))), body) == Trace(Initial, [m], 0)
  {
    var step := StdoutCallback(decode);
    var n := |body|;
    var x, b := body[..n - 1], body[n - 1];
    assert x + [b] == body;
    StdoutBodyQuiet(decode);
    AccumulateBody(step, x, 0, Int(n));
    assert x[..0] == [] && x[0..] == x;
    BodyLastByte(decode, x, b, m);
    RunAppend(step, Framer([], Some(Int(n))), x, [b]);
    assert [] + [m] == [m];
  }

  /** The byte that completes the declared length emits the body's text. */
  lemma BodyLastByte(decode: Decoder, x: seq<byte>, b: byte, m: string)
    requires decode(x + [b]) == Some(m)
    ensures Run(StdoutCallback(decode), Framer(x, Some(Int(|x| + 1))), [b]) == Trace(Initial, [m], 0)
  {
    BodyByte(decode, Framer(x, Some(Int(|x| + 1))), b);
    RunOne(StdoutCallback(decode), Framer(x, Some(Int(|x| + 1))), b);
  }

  /**
   * Round trip: from the initial state, a framed body of n >= 1 bytes yields
   * exactly one hook call, with the body's text, and leaves the decoder in
   * its initial state.
   */
  lemma RoundTrip(decode: Decoder, body: seq<byte>, m: string)
    requires AsciiFaithful(decode)
    requires |body| > 0 && decode(body) == Some(m)
    ensures Run(StdoutCallback(decode), Initial, Frame(body)) == Trace(Initial, [m], 0)
  {
    HeaderRun(decode, |body|);
    BodyRun(decode, body, m);
    RunAppend(StdoutCallback(decode), Initial, AsciiBytes(HeaderText(|body|)), body);
  }

  /** Two framed messages back to back: two hook calls, in order. */
  lemma BackToBack(decode: Decoder, body1: seq<byte>, m1: string, body2: seq<byte>, m2: string)
    requires AsciiFaithful(decode)
    requires |body1| > 0 && decode(body1) == Some(m1)
    requires |body2| > 0 && decode(body2) == Some(m2)
    ensures Run(StdoutCallback(decode), Initial, Frame(body1) + Frame(body2)) == Trace(Initial, [m1, m2], 0)
  {
    RoundTrip(decode, body1, m1);
    RoundTrip(decode, body2, m2);
    RunAppend(StdoutCallback(decode), Initial, Frame(body1), Frame(body2));
  }

  /** The smallest JSON message: `Content-Length: 2\r\n\r\n{}` yields one hook call with `{}`. */
  lemma EmptyObjectExample(decode: Decoder)
    requires AsciiFaithful(decode)
    ensures Run(StdoutCallback(decode), Initial, AsciiBytes("Content-Length: 2\r\n\r\n{}")) == Trace(Initial, ["{}"], 0)
  {
    var body: seq<byte> := [123, 125];
    EmptyObjectFrame();
    RoundTrip(decode, body, "{}");
  }

  lemma EmptyObjectFrame()
    ensures IsAscii([123, 125]) && AsciiText([123, 125]) == "{}"
    ensures Frame([123, 125]) == AsciiBytes("Content-Length: 2\r\n\r\n{}")
  {
    assert DecimalText(2) == "2";
    assert HeaderText(2) + "{}" == "Content-Length: 2\r\n\r\n{}";
  }

  /** Any number of framed messages: one hook call each, in order. */
  lemma {:induction false} FramesInSequence(decode: Decoder, bodies: seq<seq<byte>>, ms: seq<string>)
    requires AsciiFaithful(decode)
    requires |bodies| == |ms|
    requires forall i :: 0 <= i < |bodies| ==> |bodies[i]| > 0 && decode(bodies[i]) == Some(ms[i])
    ensures Run(StdoutCallback(decode), Initial, Frames(bodies)) == Trace(Initial, ms, 0)
    decreases |bodies|
  {
    if bodies != [] {
      RoundTrip(decode, bodies[0], ms[0]);
      FramesInSequence(decode, bodies[1..], ms[1..]);
      RunAppend(StdoutCallback(decode), Initial, Frame(bodies[0]), Frames(bodies[1..]));
      assert [ms[0]] + ms[1..] == ms;
    }
  }

  /**
   * Stall: once the declared length is NaN or no larger than the buffer,
   * no byte ever calls the hook; the buffer just keeps everything.
   */
  lemma Stall(decode: Decoder, s: Framer, input: seq<byte>)
    requires Stalled(s)
    ensures Run(StdoutCallback(decode), s, input) == Trace(Framer(s.buf + input, s.length), [], 0)
  {
    var w := s.buf + input;
    StdoutBodyQuiet(decode);
    AccumulateBody(StdoutCallback(decode), w, |s.buf|, s.length.value);
    assert w[..|s.buf|] == s.buf && w[|s.buf|..] == input;
  }

  /**
   * A header declaring 0 (or a negative or NaN length) leaves a stalled
   * decoder: an empty body can never be delivered.
   */
  lemma ZeroLengthFrameStalls(decode: Decoder, rest: seq<byte>)
    requires AsciiFaithful(decode)
    ensures Run(StdoutCallback(decode), Initial, Frame([]) + rest) == Trace(Framer(rest, Some(Int(0))), [], 0)
  {
    assert Frame([]) == AsciiBytes(HeaderText(0));
    HeaderRun(decode, 0);
    Stall(decode, Framer([], Some(Int(0))), rest);
    assert [] + rest == rest;
    RunAppend(StdoutCallback(decode), Initial, Frame([]), rest);
  }

  // ---------------------------------------------------------------------
  // stderr
  // ---------------------------------------------------------------------

  /** With `options.debug` off, a byte changes nothing and logs nothing. */
  lemma {:induction false} StderrDisabled(decode: Decoder, buf: seq<byte>, input: seq<byte>)
    ensures StderrRun(StderrCallback(false, decode), buf, input) == LineTrace(buf, [])
    decreases |input|
  {
    if input != [] {
      StderrDisabled(decode, buf, input[1..]);
    }
  }

  /**
   * With `options.debug` on and a lawful decoder, a byte is appended, and the
   * whole accumulated text is logged and the buffer emptied exactly when the
   * byte is a line feed.
   */
  lemma StderrByte(decode: Decoder, buf: seq<byte>, b: byte)
    requires NonFatal(decode) && TerminatorsFaithful(decode)
    ensures var r := StderrStep(true, decode, buf, b);
      && (r.line.Some? <==> b == 10)
      && (r.line.Some? ==> r.line.value == decode(buf + [b]).value && r.buf == [])
      && (r.line.None? ==> r.buf == buf + [b])
  {
    var grown := buf + [b];
    assert decode(grown).Some?;
    assert EndsWith(grown, LineFeedBytes) <==> grown[|grown| - 1] == 10;
  }

  /** A byte other than a line feed is only appended. */
  ghost predicate LineQuiet(step: LineStepper) {
    forall buf: seq<byte>, b: byte :: b != 10 ==> step(buf, b) == LineStep(buf + [b], None)
  }

  lemma StderrQuiet(decode: Decoder)
    requires TerminatorsFaithful(decode)
    ensures LineQuiet(StderrCallback(true, decode))
  {
    forall buf: seq<byte>, b: byte | b != 10
      ensures StderrCallback(true, decode)(buf, b) == LineStep(buf + [b], None)
    {
      var q := buf + [b];
      assert !EndsWith(q, LineFeedBytes) by {
        assert q[|q| - 1] == b;
      }
    }
  }

  /** Bytes with no line feed only pile up in the stderr buffer. */
  lemma {:induction false} StderrAccumulate(step: LineStepper, p: seq<byte>, x: seq<byte>)
    requires LineQuiet(step)
    requires 10 !in x
    ensures StderrRun(step, p, x) == LineTrace(p + x, [])
    decreases |x|
  {
    if x == [] {
      assert p + x == p;
    } else {
      var q := p + [x[0]];
      assert step(p, x[0]) == LineStep(q, None);
      assert q + x[1..] == p + x;
      assert 10 !in x[1..] by {
        forall i | 0 <= i < |x[1..]| ensures x[1..][i] != 10 { assert x[1..][i] == x[i + 1]; }
      }
      StderrAccumulate(step, q, x[1..]);
    }
  }

  /** One line from an empty buffer: logged once, as a whole, and the buffer is empty again. */
  lemma StderrLine(decode: Decoder, line: seq<byte>, text: string)
    requires TerminatorsFaithful(decode)
    requires 10 !in line
    requires decode(line + [10]) == Some(text)
    ensures StderrRun(StderrCallback(true, decode), [], line + [10]) == LineTrace([], [text])
  {
    var step := StderrCallback(true, decode);
    StderrQuiet(decode);
    StderrAccumulate(step, [], line);
    assert [] + line == line;
    StderrLineFeed(decode, line, text);
    StderrRunAppend(step, [], line, [10]);
  }

  /** The line feed that ends a buffered line logs it and empties the buffer. */
  lemma StderrLineFeed(decode: Decoder, line: seq<byte>, text: string)
    requires TerminatorsFaithful(decode)
    requires decode(line + [10]) == Some(text)
    ensures StderrRun(StderrCallback(true, decode), line, [10]) == LineTrace([], [text])
  {
    assert EndsWith(line + [10], LineFeedBytes);
    assert StderrStep(true, decode, line, 10) == LineStep([], Some(text));
    assert [10][1..] == [];
  }

  lemma {:induction false} StderrRunAppend(step: LineStepper, buf: seq<byte>, x: seq<byte>, y: seq<byte>)
    ensures var t1 := StderrRun(step, buf, x); var t2 := StderrRun(step, t1.buf, y);
      StderrRun(step, buf, x + y) == LineTrace(t2.buf, t1.lines + t2.lines)
    decreases |x|
  {
    if x == [] {
      assert x + y == y;
    } else {
      assert (x + y)[0] == x[0];
      assert (x + y)[1..] == x[1..] + y;
      var r := step(buf, x[0]);
      StderrRunAppend(step, r.buf, x[1..], y);
      assert StderrRun(step, buf, x + y).lines == Logged(r.line) + StderrRun(step, r.buf, x[1..] + y).lines;
    }
  }
}
