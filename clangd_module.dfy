/**
 * `ClangdModule`: the object Emscripten drives. Its `stdout` and `stderr`
 * callbacks (installed by `preRun`) update the buffers below one byte at a
 * time; `locateFile` maps the module's file requests to URLs.
 */
module Clangd {
  import opened Wrappers
  import opened JsString
  import opened TextDecoding
  import opened Framing

  class ClangdModule {
    var outputMessageBuf: seq<byte>
    /** None is `null`: reading a header. */
    var outputMessageLength: Option<ParsedInt>
    var stderrBuf: seq<byte>

    /** `options.debug`. */
    const debug: bool
    /** `options.baseURL`. */
    const baseURL: string
    var mainJSObjectURL: string
    var workerJSObjectURL: string

    /** `new TextDecoder().decode`. */
    const decode: Decoder

    /** The texts passed to `onMessageHook`, oldest first. */
    ghost var hookCalls: seq<string>
    /** The texts passed to `console.warn`, oldest first. */
    ghost var warnings: seq<string>

    /** The stdout decoder's state. */
    function Output(): Framer
      reads this
    {
      Framer(outputMessageBuf, outputMessageLength)
    }

    /** A module with empty buffers; the object URLs are the ones `start` creates before loading. */
    constructor (debug: bool, baseURL: string, mainJSObjectURL: string, workerJSObjectURL: string, decode: Decoder)
      ensures Output() == Initial && stderrBuf == []
      ensures hookCalls == [] && warnings == []
      ensures this.debug == debug && this.baseURL == baseURL && this.decode == decode
      ensures this.mainJSObjectURL == mainJSObjectURL && this.workerJSObjectURL == workerJSObjectURL
    {
      this.debug := debug;
      this.baseURL := baseURL;
      this.mainJSObjectURL := mainJSObjectURL;
      this.workerJSObjectURL := workerJSObjectURL;
      this.decode := decode;
      outputMessageBuf := [];
      outputMessageLength := None;
      stderrBuf := [];
      hookCalls := [];
      warnings := [];
    }

    /**
     * The `stdout` callback on one byte. `threw` reports the TypeError that
     * a header without a colon raises; the state is then as the push left it.
     */
    method Stdout(inByte: byte) returns (threw: bool)
      modifies this`outputMessageBuf, this`outputMessageLength, this`hookCalls
      ensures var r := Step(decode, old(Output()), inByte);
        && Output() == r.next
        && hookCalls == old(hookCalls) + Emitted(r.event)
        && threw == r.event.Threw?
    {
      threw := false;
      outputMessageBuf := outputMessageBuf + [inByte];

      var decoded := decode(outputMessageBuf);
      if decoded.None? {
        // in the middle of a multi-byte character
        return;
      }
      var outputMessageString := decoded.value;

      if outputMessageLength.None? {
        threw := ReceiveHeader(outputMessageString);
      } else {
        if outputMessageLength.value == Int(|outputMessageBuf|) {
          hookCalls := hookCalls + [outputMessageString];
          outputMessageBuf := [];
          outputMessageLength := None;
        }
      }
    }

    /**
     * The header branch of `stdout`, once the pushed buffer has decoded to
     * `text`: at `\r\n\r\n` the declared length is recorded and the buffer
     * emptied, or, with no colon in the header, a TypeError is thrown.
     */
    method ReceiveHeader(text: string) returns (threw: bool)
      requires outputMessageLength.None?
      modifies this`outputMessageBuf, this`outputMessageLength
      ensures var r := HeaderStep(old(outputMessageBuf), text);
        Output() == r.next && threw == r.event.Threw?
    {
      threw := false;
      if EndsWith(text, HeaderTerminator) {
        var declared := DeclaredLength(text);
        if declared.None? {
          threw := true;
          return;
        }
        outputMessageLength := declared;
        outputMessageBuf := [];
      }
    }

    /** The `stderr` callback on one byte. */
    method Stderr(outByte: byte)
      modifies this`stderrBuf, this`warnings
      ensures var r := StderrStep(debug, decode, old(stderrBuf), outByte);
        stderrBuf == r.buf && warnings == old(warnings) + Logged(r.line)
    {
      if !debug {
        return;
      }
      stderrBuf := stderrBuf + [outByte];

      var decoded := decode(stderrBuf);
      if decoded.None? {
        return;
      }
      var stderrString := decoded.value;

      if EndsWith(stderrString, "\n") {
        warnings := warnings + [stderrString];
        stderrBuf := [];
      }
    }

    /**
     * `locateFile`: worker scripts to the worker's object URL, other scripts
     * to the main object URL, anything else under `options.baseURL`.
     */
    function LocateFile(path: string, prefix: string): (url: string)
      reads this
      ensures EndsWith(path, ".js") ==>
        url == (if EndsWith(path, ".worker.js") then workerJSObjectURL else mainJSObjectURL)
      ensures !EndsWith(path, ".js") ==> url == baseURL + "/" + path
    {
      if EndsWith(path, ".worker.js") then
        WorkerScriptIsScript(path);
        workerJSObjectURL
      else if EndsWith(path, ".js") then mainJSObjectURL
      else baseURL + "/" + path
    }
  }

  /**
   * Every worker script name also ends in `.js`, so the `.worker.js` test
   * has to come first for the worker URL to be reachable at all.
   */
  lemma WorkerScriptIsScript(path: string)
    ensures EndsWith(path, ".worker.js") ==> EndsWith(path, ".js")
  {
    if EndsWith(path, ".worker.js") {
      var n := |path|;
      assert path[n - 3..] == path[n - 10..][7..];
    }
  }
}
