/** src/brotli: no latch; the library works on the caller's own counters, as zlib does. */
module BrotliAdapter {
  import opened Codes
  import opened Words
  import opened UnizipStream
  import Latched

  datatype DecoderResult = NeedsMoreInput | NeedsMoreOutput | Success | Error

  /** What the library does in one call, as far as input and room allow. ok is the encoder's return
      value; moreOutput, result and finished are what it answers afterwards. */
  datatype Choice = Choice(consume: nat, produce: nat, ok: bool, moreOutput: bool, result: DecoderResult, finished: bool)

  /** struct brotli_ctx: the library's private state is the encoder's output count and the last
      decoder result; everything else is copied from the caller in every call. */
  datatype State = State(encoded: u64, result: DecoderResult, strm: Snapshot)

  /** BROTLI_OPERATION_PROCESS, BROTLI_OPERATION_FINISH, or a flush argument brotli_deflate refuses. */
  predicate Supported(flush: int) {
    flush == Z_FINISH || flush == Z_NO_FLUSH
  }

  /** deflateCB_brotli. The encoder stores its own count of output bytes in total_out. */
  function Deflate(s: State, flush: int, c: Choice): (State, int) {
    var io := s.strm;
    if !Supported(flush) then (s, UNIZIP_ERRNO)
    else
      var took, put := Min(c.consume, io.availIn), Min(c.produce, io.availOut);
      var encoded := Add64(s.encoded, put);
      var io' := Snapshot(io.nextIn + took, io.availIn - took, Add64(io.totalIn, took),
                          io.nextOut + put, io.availOut - put, encoded);
      var ret :=
        if flush == Z_FINISH && !c.moreOutput && io'.availIn == 0 then UNIZIP_STREAM_END
        else if c.ok then UNIZIP_OK else UNIZIP_ERRNO;
      (s.(encoded := encoded, strm := io'), ret)
  }

  /** inflateCB_brotli. */
  function Inflate(s: State, c: Choice): (State, int) {
    var io := s.strm;
    match s.result
    case Success => (s, if c.finished then UNIZIP_STREAM_END else UNIZIP_OK)
    case Error => (s, UNIZIP_ERRNO)
    case _ =>
      var took, put := Min(c.consume, io.availIn), Min(c.produce, io.availOut);
      var io' := Snapshot(io.nextIn + took, io.availIn - took, Add64(io.totalIn, took),
                          io.nextOut + put, io.availOut - put, Add64(io.totalOut, put));
      (s.(result := c.result, strm := io'), UNIZIP_OK)
  }

  class BrotliCtx {
    var io: Strm
    var encoded: u64
    var ret: DecoderResult

    /** brotli_allocate with brotli_deflateInit or brotli_inflateInit. */
    constructor ()
      ensures encoded == 0 && ret == NeedsMoreInput && fresh(io)
    {
      io := new Strm();
      encoded, ret := 0, NeedsMoreInput;
    }

    /** The library call on the context's own counters. */
    method Code(c: Choice) returns (took: nat, put: nat)
      modifies io
      ensures took == Min(c.consume, old(io.availIn)) && put == Min(c.produce, old(io.availOut))
      ensures io.Now() == old(io.Now()).(
                availIn := old(io.availIn) - took, availOut := old(io.availOut) - put, nextOut := old(io.nextOut) + put)
    {
      took, put := Min(c.consume, io.availIn), Min(c.produce, io.availOut);
      io.availIn, io.availOut, io.nextOut := io.availIn - took, io.availOut - put, io.nextOut + put;
    }

    /** brotli_deflate. */
    method BrotliDeflate(flush: int, c: Choice) returns (code: int)
      modifies this`encoded, io
      ensures var (s, r) := Deflate(State(old(encoded), ret, old(io.Now())), flush, c);
              encoded == s.encoded && io.Now() == s.strm && code == r
    {
      if flush != Z_FINISH && flush != Z_NO_FLUSH {
        return UNIZIP_ERRNO;
      }
      var before := io.availIn;
      var took, put := Code(c);
      encoded := Add64(encoded, put);
      io.totalOut := encoded;
      io.nextIn := io.nextIn + (before - io.availIn);
      io.totalIn := Add64(io.totalIn, before - io.availIn);
      if flush == Z_FINISH && !c.moreOutput && io.availIn == 0 {
        return UNIZIP_STREAM_END;
      }
      code := if c.ok then UNIZIP_OK else UNIZIP_ERRNO;
    }

    /** brotli_inflate. */
    method BrotliInflate(c: Choice) returns (code: int)
      modifies this`ret, io
      ensures var (s, r) := Inflate(State(encoded, old(ret), old(io.Now())), c);
              ret == s.result && io.Now() == s.strm && code == r
    {
      var beforeIn, beforeOut := io.availIn, io.availOut;
      if ret == Success {
        if c.finished {
          return UNIZIP_STREAM_END;
        }
      } else if ret == NeedsMoreInput || ret == NeedsMoreOutput {
        var took, put := Code(c);
        ret := c.result;
        io.totalIn := Add64(io.totalIn, beforeIn - io.availIn);
        io.nextIn := io.nextIn + (beforeIn - io.availIn);
        io.totalOut := Add64(io.totalOut, beforeOut - io.availOut);
        return UNIZIP_OK;
      } else {
        return UNIZIP_ERRNO;
      }
      return UNIZIP_OK;
    }

    /** deflateCB_brotli: copy the stream in, run the adapter, copy it out. */
    method DeflateCB(strm: Strm, flush: int, c: Choice) returns (code: int)
      requires strm != io
      modifies this`encoded, io, strm
      ensures var (s, r) := Deflate(State(old(encoded), ret, old(strm.Now())), flush, c);
              encoded == s.encoded && strm.Now() == s.strm && code == r
    {
      io.Set(strm.Now());
      code := BrotliDeflate(flush, c);
      strm.Set(io.Now());
    }

    /** inflateCB_brotli. */
    method InflateCB(strm: Strm, c: Choice) returns (code: int)
      requires strm != io
      modifies this`ret, io, strm
      ensures var (s, r) := Inflate(State(encoded, old(ret), old(strm.Now())), c);
              ret == s.result && strm.Now() == s.strm && code == r
    {
      io.Set(strm.Now());
      code := BrotliInflate(c);
      strm.Set(io.Now());
    }
  }

  // ----- Runs: the caller may reset avail_in and avail_out before each call -----

  datatype Call = Call(availIn: u32, availOut: u32, flush: int, choice: Choice)

  function Offered(s: State, call: Call): State {
    s.(strm := s.strm.(availIn := call.availIn, availOut := call.availOut))
  }

  function Answer(mode: Latched.Mode, s: State, call: Call): (State, int) {
    if mode == Latched.Compressing then Deflate(Offered(s, call), call.flush, call.choice) else Inflate(Offered(s, call), call.choice)
  }

  function Step(mode: Latched.Mode, s: State, call: Call): State {
    Answer(mode, s, call).0
  }

  function Run(mode: Latched.Mode, s: State, calls: seq<Call>): State
    decreases |calls|
  {
    if calls == [] then s else Run(mode, Step(mode, s, calls[0]), calls[1..])
  }

  /** The return codes of a run, in order. */
  function Answers(mode: Latched.Mode, s: State, calls: seq<Call>): (r: seq<int>)
    ensures |r| == |calls|
    decreases |calls|
  {
    if calls == [] then [] else [Answer(mode, s, calls[0]).1] + Answers(mode, Step(mode, s, calls[0]), calls[1..])
  }

  /** What the caller offered beyond what was left of the offer before, summed over a run. */
  function AddedIn(mode: Latched.Mode, s: State, calls: seq<Call>): int
    decreases |calls|
  {
    if calls == [] then 0 else calls[0].availIn - s.strm.availIn + AddedIn(mode, Step(mode, s, calls[0]), calls[1..])
  }

  function AddedOut(mode: Latched.Mode, s: State, calls: seq<Call>): int
    decreases |calls|
  {
    if calls == [] then 0 else calls[0].availOut - s.strm.availOut + AddedOut(mode, Step(mode, s, calls[0]), calls[1..])
  }

  /** The encoder's own output count and the caller's total_out are one number. */
  predicate Coupled(mode: Latched.Mode, s: State) {
    mode == Latched.Compressing ==> s.strm.totalOut == s.encoded
  }

  lemma StepConserves(mode: Latched.Mode, s: State, call: Call)
    requires Coupled(mode, s)
    ensures var i, o := Offered(s, call).strm, Step(mode, s, call).strm;
            && Coupled(mode, Step(mode, s, call))
            && o.nextIn >= i.nextIn && o.availIn + (o.nextIn - i.nextIn) == i.availIn
            && o.nextOut >= i.nextOut && o.availOut + (o.nextOut - i.nextOut) == i.availOut
            && (i.totalIn < TWO_TO_THE_64 ==> o.totalIn == Add64(i.totalIn, o.nextIn - i.nextIn))
            && (i.totalOut < TWO_TO_THE_64 ==> o.totalOut == Add64(i.totalOut, o.nextOut - i.nextOut))
  {
  }

  /** zlib's conservation over any run: avail_in + next_in, and so avail_in + total_in, change only by
      what the caller adds to avail_in, and likewise for output. */
  lemma {:induction false} RunConserves(mode: Latched.Mode, s: State, calls: seq<Call>)
    requires Coupled(mode, s) && s.strm.totalIn < TWO_TO_THE_64 && s.strm.totalOut < TWO_TO_THE_64
    ensures var e := Run(mode, s, calls);
            && Coupled(mode, e)
            && e.strm.availIn + e.strm.nextIn == s.strm.availIn + s.strm.nextIn + AddedIn(mode, s, calls)
            && e.strm.availOut + e.strm.nextOut == s.strm.availOut + s.strm.nextOut + AddedOut(mode, s, calls)
            && e.strm.totalIn == Add64(s.strm.totalIn, e.strm.nextIn - s.strm.nextIn)
            && e.strm.totalOut == Add64(s.strm.totalOut, e.strm.nextOut - s.strm.nextOut)
    decreases |calls|
  {
    if calls != [] {
      var n, e := Step(mode, s, calls[0]), Run(mode, s, calls);
      StepConserves(mode, s, calls[0]);
      RunConserves(mode, n, calls[1..]);
      hide Deflate, Inflate, Add64, Step;
      Add64Sum(s.strm.totalIn, n.strm.nextIn - s.strm.nextIn, e.strm.nextIn - n.strm.nextIn);
      Add64Sum(s.strm.totalOut, n.strm.nextOut - s.strm.nextOut, e.strm.nextOut - n.strm.nextOut);
    }
  }

  predicate Decided(r: DecoderResult) {
    r == Success || r == Error
  }

  /** Once the decoder has reported success or an error, no later inflate moves a pointer or a total,
      whatever the caller offers. */
  lemma {:induction false} DecidedIsFinal(s: State, calls: seq<Call>)
    requires Decided(s.result)
    ensures var e := Run(Latched.Decompressing, s, calls);
            && e.result == s.result && e.strm.nextIn == s.strm.nextIn && e.strm.nextOut == s.strm.nextOut
            && e.strm.totalIn == s.strm.totalIn && e.strm.totalOut == s.strm.totalOut
            && (calls != [] ==> e.strm.availIn == calls[|calls| - 1].availIn && e.strm.availOut == calls[|calls| - 1].availOut)
    decreases |calls|
  {
    if calls != [] {
      DecidedIsFinal(Step(Latched.Decompressing, s, calls[0]), calls[1..]);
    }
  }

  // ----- What the caller is told, over runs -----

  /** A call that reaches the library moves what the library consumed and produced, and nothing else
      moves anything: a refused flush argument leaves the encoder's caller as he is. */
  lemma LibraryMoves(mode: Latched.Mode, s: State, call: Call)
    ensures var e := Step(mode, s, call).strm;
            if (if mode == Latched.Compressing then call.flush == Z_FINISH || call.flush == Z_NO_FLUSH
                else s.result == NeedsMoreInput || s.result == NeedsMoreOutput) then
              && e.nextIn - s.strm.nextIn == Min(call.choice.consume, call.availIn)
              && e.nextOut - s.strm.nextOut == Min(call.choice.produce, call.availOut)
            else
              e == s.strm.(availIn := call.availIn, availOut := call.availOut)
  {
  }

  lemma {:induction false} AnswerAt(mode: Latched.Mode, s: State, calls: seq<Call>, i: nat)
    requires i < |calls|
    ensures Answers(mode, s, calls)[i] == Answer(mode, Run(mode, s, calls[..i]), calls[i]).1
    ensures Run(mode, s, calls[..i + 1]) == Step(mode, Run(mode, s, calls[..i]), calls[i])
    decreases |calls|
  {
    hide Answer, Step;
    if i > 0 {
      AnswerAt(mode, Step(mode, s, calls[0]), calls[1..], i - 1);
      assert calls[..i][1..] == calls[1..][..i - 1] && calls[..i + 1][1..] == calls[1..][..i];
    } else {
      assert calls[..1][1..] == [];
    }
  }

  /** A compression reports its end in exactly those calls that ask for it, leave no input, and after
      which the encoder holds no output; it refuses any flush argument but the two it knows, and
      otherwise says whether the encoder was content. */
  lemma EncoderEndsExactly(s: State, calls: seq<Call>, i: nat)
    requires i < |calls|
    ensures var code, call := Answers(Latched.Compressing, s, calls)[i], calls[i];
            && (code == UNIZIP_STREAM_END <==>
                  && call.flush == Z_FINISH && !call.choice.moreOutput
                  && Run(Latched.Compressing, s, calls[..i + 1]).strm.availIn == 0)
            && (call.flush != Z_FINISH && call.flush != Z_NO_FLUSH ==> code == UNIZIP_ERRNO)
            && (call.flush == Z_FINISH || call.flush == Z_NO_FLUSH ==>
                  code == UNIZIP_STREAM_END || code == if call.choice.ok then UNIZIP_OK else UNIZIP_ERRNO)
  {
    AnswerAt(Latched.Compressing, s, calls, i);
    hide Add64;
  }

  predicate NeedsMore(r: DecoderResult) {
    r == NeedsMoreInput || r == NeedsMoreOutput
  }

  /** While the decoder has not decided, every call is answered with OK and its answer is remembered. */
  lemma {:induction false} UndecidedRun(s: State, calls: seq<Call>)
    requires NeedsMore(s.result) && forall c :: c in calls ==> NeedsMore(c.choice.result)
    ensures NeedsMore(Run(Latched.Decompressing, s, calls).result)
    ensures forall i :: 0 <= i < |calls| ==> Answers(Latched.Decompressing, s, calls)[i] == UNIZIP_OK
    decreases |calls|
  {
    if calls != [] {
      var n := Step(Latched.Decompressing, s, calls[0]);
      assert n.result == calls[0].choice.result && calls[0] in calls;
      assert calls == [calls[0]] + calls[1..];
      UndecidedRun(n, calls[1..]);
    }
  }

  /** After the decision the answer follows the decision, whatever the caller offers. */
  lemma {:induction false} DecidedAnswers(s: State, calls: seq<Call>)
    requires s.result == Success || s.result == Error
    ensures forall i :: 0 <= i < |calls| ==>
              Answers(Latched.Decompressing, s, calls)[i]
              == if s.result == Error then UNIZIP_ERRNO else if calls[i].choice.finished then UNIZIP_STREAM_END else UNIZIP_OK
    decreases |calls|
  {
    if calls != [] {
      DecidedAnswers(Step(Latched.Decompressing, s, calls[0]), calls[1..]);
    }
  }

  lemma {:induction false} RunSplit(mode: Latched.Mode, s: State, a: seq<Call>, b: seq<Call>)
    ensures Run(mode, s, a + b) == Run(mode, Run(mode, s, a), b)
    ensures Answers(mode, s, a + b) == Answers(mode, s, a) + Answers(mode, Run(mode, s, a), b)
    decreases |a|
  {
    hide Step, Answer;
    if a == [] {
      assert a + b == b;
    } else {
      assert (a + b)[1..] == a[1..] + b;
      RunSplit(mode, Step(mode, s, a[0]), a[1..], b);
    }
  }

  /** A decompression from init in which the decoder decides in the call `last`: every call up to that
      one is answered with OK; after it no call moves a pointer or a total, and each is answered by the
      decision: an error always, a success with the stream end once the decoder has finished. */
  lemma DecoderDecidesOnce(s: State, before: seq<Call>, last: Call, after: seq<Call>)
    requires s.result == NeedsMoreInput && forall c :: c in before ==> NeedsMore(c.choice.result)
    requires last.choice.result == Success || last.choice.result == Error
    ensures var codes := Answers(Latched.Decompressing, s, before + [last] + after);
            && |codes| == |before| + 1 + |after|
            && (forall i :: 0 <= i <= |before| ==> codes[i] == UNIZIP_OK)
            && (forall j :: 0 <= j < |after| ==>
                  codes[|before| + 1 + j]
                  == if last.choice.result == Error then UNIZIP_ERRNO
                     else if after[j].choice.finished then UNIZIP_STREAM_END else UNIZIP_OK)
    ensures var d, e := Run(Latched.Decompressing, s, before + [last]).strm, Run(Latched.Decompressing, s, before + [last] + after).strm;
            d.nextIn == e.nextIn && d.nextOut == e.nextOut && d.totalIn == e.totalIn && d.totalOut == e.totalOut
  {
    hide Step, Answer, Run, Answers;
    var mode := Latched.Decompressing;
    UndecidedRun(s, before);
    var u := Run(mode, s, before);
    DecidingCall(u, last);
    RunSplit(mode, s, before, [last]);
    RunSplit(mode, s, before + [last], after);
    var d := Run(mode, u, [last]);
    DecidedAnswers(d, after);
    DecidedIsFinal(d, after);
  }

  lemma DecidingCall(u: State, last: Call)
    requires NeedsMore(u.result)
    ensures Answers(Latched.Decompressing, u, [last]) == [UNIZIP_OK]
    ensures Run(Latched.Decompressing, u, [last]).result == last.choice.result
  {
    assert [last][1..] == [];
  }
}
