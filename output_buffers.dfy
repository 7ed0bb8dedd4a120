/**
 * PHP's output layer as the exception handler uses it: the text already
 * sent to the client, the stack of active output buffers opened by
 * `ob_start` (innermost last), and the `header()` calls made so far.
 */
module OutputBuffers {
  import opened PhpStrings

  /** `sent` has left the process; `stack[|stack| - 1]` is the buffer `echo` writes to. */
  datatype Buffers = Buffers(sent: string, stack: seq<string>)
  {
    /** `ob_get_level()`. */
    function Level(): nat {
      |stack|
    }

    /** Everything produced and not discarded, in order: sent text, then each buffer outwards in. */
    function Produced(): string {
      sent + Concat(stack)
    }

    /** `ob_start()`: a new, empty innermost buffer, on top of the others; nothing produced changes. */
    function Start(): (r: Buffers)
      ensures r.Level() == Level() + 1 && r.Top() == Some("")
      ensures r.Produced() == Produced()
      ensures r.stack[..Level()] == stack
    {
      var r := Buffers(sent, stack + [""]);
      assert r.stack[..|stack|] == stack;
      ConcatPrefix(r.stack, |stack|);
      r
    }

    /** `echo $s`: append to the innermost buffer, or send when no buffer is active. */
    function Write(s: string): (r: Buffers)
      ensures r.Level() == Level()
      ensures r.Produced() == Produced() + s
      ensures stack == [] ==> r.sent == sent + s
      ensures stack != [] ==> r.sent == sent && r.Top() == Some(Top().value + s)
      ensures stack != [] ==> r.stack[..|stack| - 1] == stack[..|stack| - 1]
    {
      if stack == [] then Buffers(sent + s, [])
      else
        var n := |stack|;
        var r := Buffers(sent, stack[..n - 1] + [stack[n - 1] + s]);
        assert r.stack[..n - 1] == stack[..n - 1];
        ConcatPrefix(r.stack, n - 1);
        ConcatPrefix(stack, n - 1);
        assert stack[..n] == stack && r.stack[..n] == r.stack;
        r
    }

    /** `ob_get_contents()`: the innermost buffer, the last text produced, or `false` (None) when there is none. */
    function Top(): (t: Option<string>)
      ensures t.Some? <==> Level() > 0
      ensures t.Some? ==> EndsWith(Produced(), t.value)
      ensures t.Some? ==> t.value == stack[|stack| - 1]
    {
      if stack == [] then None
      else
        var n := |stack|;
        ConcatPrefix(stack, n - 1);
        assert stack[..n] == stack;
        ConcatEnds(sent + Concat(stack[..n - 1]), stack[n - 1]);
        Some(stack[n - 1])
    }

    /**
     * `ob_end_flush()`: hand the innermost buffer to the next level out and
     * close it, losing and reordering nothing.
     */
    function EndFlush(): (r: Buffers)
      ensures r.Produced() == Produced()
      ensures r.Level() == if stack == [] then 0 else Level() - 1
      ensures stack == [] ==> r == this
      ensures |stack| == 1 ==> r == Buffers(sent + stack[0], [])
      ensures |stack| >= 2 ==>
                r.sent == sent &&
                r.stack == stack[..|stack| - 2] + [stack[|stack| - 2] + stack[|stack| - 1]]
    {
      if stack == [] then this
      else
        var n := |stack|;
        ConcatPrefix(stack, n - 1);
        assert stack[..n] == stack;
        Buffers(sent, stack[..n - 1]).Write(stack[n - 1])
    }

    /** `ob_end_clean()`: discard the innermost buffer, and only it, and close it. */
    function EndClean(): (r: Buffers)
      ensures r.Level() == if stack == [] then 0 else Level() - 1
      ensures stack != [] ==> r.Produced() + Top().value == Produced()
      ensures stack == [] ==> r == this
      ensures stack != [] ==> r.sent == sent && r.stack == stack[..|stack| - 1]
    {
      if stack == [] then this
      else
        var n := |stack|;
        ConcatPrefix(stack, n - 1);
        assert stack[..n] == stack;
        Buffers(sent, stack[..n - 1])
    }
  }

  /** `ob_start`; write; `ob_get_contents` reads back exactly what was written, and `ob_end_clean` restores the state. */
  lemma CaptureRestores(b: Buffers, s: string)
    ensures b.Start().Write(s).Top() == Some(s)
    ensures b.Start().Write(s).EndClean() == b
  {
    var n := |b.stack|;
    assert (b.stack + [""])[..n] == b.stack;
    assert (b.stack + [""])[n] + s == s;
    assert (b.stack + [s])[..n] == b.stack;
  }

  /**
   * Lines 95-98 of the handler: at most one level is flushed, and only when
   * the nesting exceeds the level recorded at construction by more than one;
   * no output is lost.
   */
  function FlushExcess(b: Buffers, obLevel: nat): (r: Buffers)
    ensures r.Produced() == b.Produced()
    ensures r.Level() == if b.Level() > obLevel + 1 then b.Level() - 1 else b.Level()
    ensures b.Level() <= obLevel + 1 ==> r == b
    ensures b.Level() > obLevel + 1 ==> r == b.EndFlush()
  {
    if b.Level() > obLevel + 1 then b.EndFlush() else b
  }

  /**
   * The whole buffer discipline of lines 95-104 on a page `page`: what the
   * program produced grows by exactly that page, once, and the nesting ends
   * where the flush left it.
   */
  lemma PageWrittenOnce(b: Buffers, obLevel: nat, page: string)
    ensures var f := FlushExcess(b, obLevel);
            var captured := f.Start().Write(page);
            var after := captured.EndClean().Write(page);
            captured.Top() == Some(page) &&
            after.Produced() == b.Produced() + page &&
            after.Level() == f.Level()
  {
    CaptureRestores(FlushExcess(b, obLevel), page);
  }

  /** A `header()` call: the header line, its `replace` flag and the forced response code. */
  datatype Header = Header(line: string, replace: bool, code: int)

  /** The PHP runtime's output state, changed in place by the `ob_*` functions, `echo` and `header`. */
  class Output {
    var buffers: Buffers
    var headers: seq<Header>

    constructor (initial: Buffers)
      ensures buffers == initial && headers == []
    {
      buffers := initial;
      headers := [];
    }

    method GetLevel() returns (n: nat)
      ensures n == buffers.Level()
    {
      n := |buffers.stack|;
    }

    method Start()
      modifies this`buffers
      ensures buffers == old(buffers).Start()
    {
      buffers := buffers.Start();
    }

    method Echo(s: string)
      modifies this`buffers
      ensures buffers == old(buffers).Write(s)
    {
      buffers := buffers.Write(s);
    }

    method GetContents() returns (c: Option<string>)
      ensures c == buffers.Top()
    {
      c := buffers.Top();
    }

    /** `ob_end_flush()`; false (and nothing changes) when no buffer is active. */
    method EndFlush() returns (ok: bool)
      modifies this`buffers
      ensures ok == (old(buffers).stack != [])
      ensures buffers == old(buffers).EndFlush()
    {
      ok := buffers.stack != [];
      buffers := buffers.EndFlush();
    }

    /** `ob_end_clean()`; false (and nothing changes) when no buffer is active. */
    method EndClean() returns (ok: bool)
      modifies this`buffers
      ensures ok == (old(buffers).stack != [])
      ensures buffers == old(buffers).EndClean()
    {
      ok := buffers.stack != [];
      buffers := buffers.EndClean();
    }

    method SendHeader(line: string, replace: bool, code: int)
      modifies this`headers
      ensures headers == old(headers) + [Header(line, replace, code)]
    {
      headers := headers + [Header(line, replace, code)];
    }
  }
}
