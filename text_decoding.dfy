/**
 * `new TextDecoder().decode(new Uint8Array(bytes))`, as the decoder sees it.
 * The UTF-8 algorithm itself is not modelled: the decoder is a function
 * value handed to the model, and the few facts the framing relies on are
 * stated as laws about it.
 */
module TextDecoding {
  import opened Wrappers
  import opened JsString

  /**
   * A byte pushed by the `stdout` and `stderr` callbacks: the value
   * `new Uint8Array` stores for the number they receive (that number mod 256).
   */
  type byte = x: int | 0 <= x < 256

  /** Decoding a whole buffer; None is the exception the source's `catch` blocks expect. */
  type Decoder = seq<byte> -> Option<string>

  predicate IsAscii(b: seq<byte>) {
    forall i :: 0 <= i < |b| ==> b[i] < 128
  }

  predicate IsAsciiText(s: string) {
    forall i :: 0 <= i < |s| ==> s[i] as int < 128
  }

  /** The text of ASCII bytes, one character per byte. */
  function AsciiText(b: seq<byte>): (s: string)
    requires IsAscii(b)
    ensures |s| == |b|
    ensures forall i :: 0 <= i < |b| ==> s[i] as int == b[i]
  {
    seq(|b|, i requires 0 <= i < |b| => b[i] as char)
  }

  /** The bytes of ASCII text, one byte per character. */
  function AsciiBytes(s: string): (b: seq<byte>)
    requires IsAsciiText(s)
    ensures IsAscii(b) && AsciiText(b) == s
  {
    seq(|s|, i requires 0 <= i < |s| => s[i] as int)
  }

  /** ASCII bytes decode, without error, to the characters with the same codes. */
  ghost predicate AsciiFaithful(decode: Decoder) {
    forall b: seq<byte> :: IsAscii(b) ==> decode(b) == Some(AsciiText(b))
  }

  /** The bytes of `\n` and of `\r\n\r\n`. */
  const LineFeedBytes: seq<byte> := [10]
  const CrLfCrLfBytes: seq<byte> := [13, 10, 13, 10]

  /**
   * In UTF-8, bytes 0x0A and 0x0D only ever encode line feed and carriage
   * return, and a replacement character is neither: so decoded text ends in
   * `\n` (or `\r\n\r\n`) exactly when the bytes do.
   */
  ghost predicate TerminatorsFaithful(decode: Decoder) {
    forall b: seq<byte> :: decode(b).Some? ==>
      (EndsWith(decode(b).value, "\n") <==> EndsWith(b, LineFeedBytes)) &&
      (EndsWith(decode(b).value, "\r\n\r\n") <==> EndsWith(b, CrLfCrLfBytes))
  }

  /** The decoder never throws: a default `TextDecoder` substitutes U+FFFD for malformed input. */
  ghost predicate NonFatal(decode: Decoder) {
    forall b: seq<byte> :: decode(b) != None
  }

  /** A decoder that reads every byte as the character with the same code. */
  function ByteWiseDecoder(b: seq<byte>): (r: Option<string>)
    ensures r.Some? && |r.value| == |b|
    ensures forall i :: 0 <= i < |b| ==> r.value[i] as int == b[i]
  {
    Some(seq(|b|, i requires 0 <= i < |b| => b[i] as char))
  }

  /** The laws are consistent: the byte-wise decoder satisfies all three. */
  lemma ByteWiseDecoderIsLawful()
    ensures AsciiFaithful(ByteWiseDecoder)
    ensures TerminatorsFaithful(ByteWiseDecoder)
    ensures NonFatal(ByteWiseDecoder)
  {
    forall b: seq<byte> | IsAscii(b) ensures ByteWiseDecoder(b) == Some(AsciiText(b)) {
      assert ByteWiseDecoder(b).value == AsciiText(b);
    }
    forall b: seq<byte>
      ensures EndsWith(ByteWiseDecoder(b).value, "\n") <==> EndsWith(b, LineFeedBytes)
      ensures EndsWith(ByteWiseDecoder(b).value, "\r\n\r\n") <==> EndsWith(b, CrLfCrLfBytes)
    {
      ByteWiseTerminators(b);
    }
  }

  lemma ByteWiseTerminators(b: seq<byte>)
    ensures EndsWith(ByteWiseDecoder(b).value, "\n") <==> EndsWith(b, LineFeedBytes)
    ensures EndsWith(ByteWiseDecoder(b).value, "\r\n\r\n") <==> EndsWith(b, CrLfCrLfBytes)
  {
    var t := ByteWiseDecoder(b).value;
    var n := |b|;
    EndsWithOne(t, '\n');
    EndsWithOne(b, 10);
    if n >= 1 {
      assert t[n - 1] as int == b[n - 1];
    }
    EndsWithFour(t, '\r', '\n', '\r', '\n');
    EndsWithFour(b, 13, 10, 13, 10);
    if n >= 4 {
      assert t[n - 4] as int == b[n - 4] && t[n - 3] as int == b[n - 3];
      assert t[n - 2] as int == b[n - 2] && t[n - 1] as int == b[n - 1];
    }
  }

  lemma EndsWithOne<T>(s: seq<T>, x: T)
    ensures EndsWith(s, [x]) <==> |s| >= 1 && s[|s| - 1] == x
  {
    if |s| >= 1 && s[|s| - 1] == x {
      assert s[|s| - 1..] == [x];
    }
  }

  lemma EndsWithFour<T>(s: seq<T>, a: T, b: T, c: T, d: T)
    ensures EndsWith(s, [a, b, c, d]) <==>
      |s| >= 4 && s[|s| - 4] == a && s[|s| - 3] == b && s[|s| - 2] == c && s[|s| - 1] == d
  {
    var n := |s|;
    if n >= 4 && s[n - 4] == a && s[n - 3] == b && s[n - 2] == c && s[n - 1] == d {
      assert s[n - 4..] == [a, b, c, d];
    }
    if EndsWith(s, [a, b, c, d]) {
      assert s[n - 4..][0] == s[n - 4];
      assert s[n - 4..][3] == s[n - 1];
    }
  }
}
