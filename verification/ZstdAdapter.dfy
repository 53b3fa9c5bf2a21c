/** src/zstd: the latch as a fixed base with a growing cursor; what is held is size - pos. */
module ZstdAdapter {
  import opened Codes
  import opened Words
  import opened UnizipStream
  import opened Latched

  /** ZSTD_inBuffer and ZSTD_outBuffer; the base pointer is set from next_in or next_out in every call. */
  datatype Buffer = Buffer(base: int, size: nat, pos: nat) {
    function Left(): nat {
      if pos <= size then size - pos else 0
    }
  }

  const FRESH := Buffer(0, 0, 0)

  datatype State = State(input: Buffer, output: Buffer, strm: Snapshot)

  /** zstd_deflate and zstd_inflate around one library call. ZSTD_endStream is not given the input.
      A compressing call ends only if it was a FINISH; a failing one leaves the caller's stream alone. */
  function Core(mode: Mode, s: State, flush: int, c: Choice): Outcome<State> {
    var io := s.strm;
    var action := mode == Compressing && flush == Z_FINISH;
    var open := !action || (s.output.size == 0 && s.input.size == 0 && s.output.pos == 0 && s.input.pos == 0);
    var in1 := s.input.(base := io.nextIn,
                        size := if s.input.size <= s.input.pos && open then s.input.size + io.availIn else s.input.size);
    var out1 := s.output.(base := io.nextOut,
                          size := if s.output.size <= s.output.pos then s.output.size + io.availOut else s.output.size);
    var seen := if action then 0 else in1.Left();
    var took, put := Min(c.consume, seen), Min(c.produce, out1.Left());
    var in2, out2 := in1.(pos := in1.pos + took), out1.(pos := out1.pos + put);
    var ended := c.ret.End? && (mode == Decompressing || action);
    Outcome(
      State(in2, out2, if c.ret.Fail? then io else Accounted(io, in2, out2, took, put, ended)),
      BufferAccess(in1, out1, action, seen, c),
      if c.ret.Fail? then c.ret.code else if ended then UNIZIP_STREAM_END else UNIZIP_OK)
  }

  /** What a library call on the two buffers sees when it is shown `seen` bytes of input. */
  function BufferAccess(input: Buffer, output: Buffer, finish: bool, seen: nat, c: Choice): Access {
    Access(finish, input.base + input.pos, seen, Min(c.consume, seen),
           output.base + output.pos, output.Left(), Min(c.produce, output.Left()))
  }

  function Accounted(io: Snapshot, input: Buffer, output: Buffer, took: nat, put: nat, ended: bool): Snapshot {
    io.(totalIn := Add64(io.totalIn, took), totalOut := Add64(io.totalOut, put),
        nextIn := if ended then io.nextIn + input.pos else io.nextIn,
        nextOut := if ended then io.nextOut + output.pos else io.nextOut)
  }

  function Step(mode: Mode, s: State, call: Call): Outcome<State> {
    Core(mode, s.(strm := s.strm.(availIn := call.availIn, availOut := call.availOut)), call.flush, call.choice)
  }

  /** struct zstd_ctx; io stands for the fields it copies from the caller's stream. */
  class ZstdCtx {
    var input: Buffer
    var output: Buffer
    var io: Strm

    /** zstd_allocate with zstd_deflateInit or zstd_inflateInit. */
    constructor ()
      ensures input == FRESH && output == FRESH && fresh(io)
    {
      input, output := FRESH, FRESH;
      io := new Strm();
    }

    /** zstd_deflate. */
    method ZstdDeflate(flush: int, c: Choice) returns (ret: int, ghost access: Access)
      modifies this`input, this`output, io
      ensures var o := Core(Compressing, State(old(input), old(output), old(io.Now())), flush, c);
              input == o.state.input && output == o.state.output && io.Now() == o.state.strm && ret == o.ret && access == o.access
    {
      hide Add64;
      var action := if flush == Z_FINISH then 1 else 0;
      input, output := input.(base := io.nextIn), output.(base := io.nextOut);
      if input.size <= input.pos
         && (action != 1
             || (action == 1 && output.size == 0 && input.size == 0 && output.pos == 0 && input.pos == 0)) {
        input := input.(size := input.size + io.availIn);
      }
      if output.size <= output.pos {
        output := output.(size := output.size + io.availOut);
      }
      var preIn, preOut := input.pos, output.pos;
      // ZSTD_endStream gets the output buffer only.
      access := BufferAccess(input, output, action == 1, if action == 1 then 0 else input.Left(), c);
      output := output.(pos := output.pos + Min(c.produce, output.Left()));
      if action == 0 {
        input := input.(pos := input.pos + Min(c.consume, input.Left()));
      }
      if c.ret.Fail? {
        return c.ret.code, access;
      }
      io.totalIn := Add64(io.totalIn, input.pos - preIn);
      io.totalOut := Add64(io.totalOut, output.pos - preOut);
      if c.ret.End? && action == 1 {
        io.nextIn := io.nextIn + input.pos;
        io.nextOut := io.nextOut + output.pos;
        return UNIZIP_STREAM_END, access;
      }
      ret := UNIZIP_OK;
    }

    /** zstd_inflate, which has no flush argument. */
    method ZstdInflate(c: Choice) returns (ret: int, ghost access: Access)
      modifies this`input, this`output, io
      ensures var o := Core(Decompressing, State(old(input), old(output), old(io.Now())), Z_NO_FLUSH, c);
              input == o.state.input && output == o.state.output && io.Now() == o.state.strm && ret == o.ret && access == o.access
    {
      hide Add64;
      input, output := input.(base := io.nextIn), output.(base := io.nextOut);
      if input.size <= input.pos {
        input := input.(size := input.size + io.availIn);
      }
      if output.size <= output.pos {
        output := output.(size := output.size + io.availOut);
      }
      var preIn, preOut := input.pos, output.pos;
      access := BufferAccess(input, output, false, input.Left(), c);
      output := output.(pos := output.pos + Min(c.produce, output.Left()));
      input := input.(pos := input.pos + Min(c.consume, input.Left()));
      if c.ret.Fail? {
        return c.ret.code, access;
      }
      io.totalIn := Add64(io.totalIn, input.pos - preIn);
      io.totalOut := Add64(io.totalOut, output.pos - preOut);
      if c.ret.End? {
        io.nextIn := io.nextIn + input.pos;
        io.nextOut := io.nextOut + output.pos;
        return UNIZIP_STREAM_END, access;
      }
      ret := UNIZIP_OK;
    }

    /** deflateCB_zstd. */
    method DeflateCB(strm: Strm, flush: int, c: Choice) returns (ret: int, ghost access: Access)
      requires strm != io
      modifies this`input, this`output, io, strm
      ensures var o := Core(Compressing, State(old(input), old(output), old(strm.Now())), flush, c);
              input == o.state.input && output == o.state.output && strm.Now() == o.state.strm && ret == o.ret && access == o.access
    {
      io.Set(strm.Now());
      ret, access := ZstdDeflate(flush, c);
      strm.Set(io.Now());
    }

    /** inflateCB_zstd. */
    method InflateCB(strm: Strm, flush: int, c: Choice) returns (ret: int, ghost access: Access)
      requires strm != io
      modifies this`input, this`output, io, strm
      ensures var o := Core(Decompressing, State(old(input), old(output), old(strm.Now())), flush, c);
              input == o.state.input && output == o.state.output && strm.Now() == o.state.strm && ret == o.ret && access == o.access
    {
      io.Set(strm.Now());
      ret, access := ZstdInflate(c);
      strm.Set(io.Now());
    }
  }

  // ----- Refinement of the latched stream -----

  /** While the stream runs: the caller's pointers are still the bases, the cursors run ahead of them. */
  predicate Refines(s: State, m: Machine) {
    && s.strm.nextIn + s.input.pos == m.nextIn && s.strm.nextOut + s.output.pos == m.nextOut
    && s.strm.totalIn == m.totalIn == s.input.pos % TWO_TO_THE_64 && s.strm.totalOut == m.totalOut
    && s.input.pos <= s.input.size && s.input.size - s.input.pos == m.heldIn
    && s.output.pos <= s.output.size && s.output.size - s.output.pos == m.heldOut
  }

  /** After the stream end the caller's pointers have caught up. */
  predicate Finished(s: State, m: Machine) {
    && s.strm.nextIn == m.nextIn && s.strm.nextOut == m.nextOut
    && s.strm.totalIn == m.totalIn && s.strm.totalOut == m.totalOut
    && s.input.pos <= s.input.size && s.input.size - s.input.pos == m.heldIn
    && s.output.pos <= s.output.size && s.output.size - s.output.pos == m.heldOut
  }

  /** The calls on which zstd is the machine: not a FINISH with input to hand over, which
      ZSTD_endStream would never see, and no stream end outside FINISH. */
  predicate Faithful(mode: Mode, m: Machine, call: Call) {
    mode == Decompressing
    || ((call.flush == Z_FINISH ==> Latch(m, mode, call).heldIn == 0) && (call.choice.ret.End? ==> call.flush == Z_FINISH))
  }

  /** zstd makes the machine's library call and returns its code exactly on the faithful calls; on all
      others it hides input that the other two adapters hand over, or withholds a stream end. */
  lemma AgreesExactly(mode: Mode, s: State, m: Machine, call: Call)
    requires Refines(s, m) && !call.choice.ret.Fail?
    ensures var o, a := Step(mode, s, call), Latched.Step(m, mode, call);
            o.access == a.access && o.ret == a.ret <==> Faithful(mode, m, call)
  {
  }

  lemma Add64Cursor(pos: nat, took: nat)
    ensures Add64(pos % TWO_TO_THE_64, took) == (pos + took) % TWO_TO_THE_64
  {
    var low := pos % TWO_TO_THE_64;
    assert pos == pos / TWO_TO_THE_64 * TWO_TO_THE_64 + low;
    assert pos + took == pos / TWO_TO_THE_64 * TWO_TO_THE_64 + (low + took);
  }

  lemma StepRefines(mode: Mode, s: State, m: Machine, call: Call)
    requires Refines(s, m) && !call.choice.ret.Fail? && Faithful(mode, m, call)
    ensures var o, a := Step(mode, s, call), Latched.Step(m, mode, call);
            && o.access == a.access && o.ret == a.ret
            && (if call.choice.ret.End? then Finished(o.state, a.state) else Refines(o.state, a.state))
  {
    AgreesExactly(mode, s, m, call);
    Add64Cursor(s.input.pos, Step(mode, s, call).access.took);
  }

  function Stepper(mode: Mode): (State, Call) -> Outcome<State> {
    (s, call) => Step(mode, s, call)
  }

  /** Over a whole compression zstd makes the machine's library calls, and returns its codes, exactly
      if FINISH never finds input held. */
  lemma {:induction false} RunAgreesExactly(s: State, m: Machine, calls: seq<Call>)
    requires Refines(s, m) && ErrorFree(Compressing, calls)
    ensures TraceWith(Stepper(Compressing), s, calls) == Trace(m, Compressing, calls) <==> FinishFindsNothing(m, calls)
    decreases |calls|
  {
    if calls != [] {
      var o, a := Step(Compressing, s, calls[0]), Latched.Step(m, Compressing, calls[0]);
      AgreesExactly(Compressing, s, m, calls[0]);
      TraceHead(m, Compressing, calls);
      ZstdTraceHead(s, calls);
      if Faithful(Compressing, m, calls[0]) {
        StepRefines(Compressing, s, m, calls[0]);
        hide Core, Step, Latched.Step, Refines, Finished;
        if |calls| > 1 {
          RunAgreesExactly(o.state, a.state, calls[1..]);
          SplitHead(TraceWith(Stepper(Compressing), s, calls), Trace(m, Compressing, calls));
        } else {
          RunOfOne(Stepper(Compressing), s, calls);
          RunOfOne(Latched.Stepper(Compressing), m, calls);
        }
      }
    }
  }

  lemma ZstdTraceHead(s: State, calls: seq<Call>)
    requires calls != []
    ensures var o := Step(Compressing, s, calls[0]);
            && TraceWith(Stepper(Compressing), s, calls) != []
            && TraceWith(Stepper(Compressing), s, calls)[0] == (o.access, o.ret)
            && TraceWith(Stepper(Compressing), s, calls)[1..] == TraceWith(Stepper(Compressing), o.state, calls[1..])
  {
    hide Step;
  }

  lemma SplitHead<T>(a: seq<T>, b: seq<T>)
    requires a != [] && b != [] && a[0] == b[0]
    ensures a == b <==> a[1..] == b[1..]
  {
    if a[1..] == b[1..] {
      assert a == [a[0]] + a[1..] && b == [b[0]] + b[1..];
    }
  }

  predicate EndsStream(calls: seq<Call>) {
    calls != [] && calls[|calls| - 1].choice.ret.End?
  }

  lemma {:induction false} RunRefines(mode: Mode, s: State, m: Machine, calls: seq<Call>)
    requires Refines(s, m) && ErrorFree(mode, calls)
    requires mode == Compressing ==> FinishFindsNothing(m, calls)
    ensures TraceWith(Stepper(mode), s, calls) == Trace(m, mode, calls)
    ensures var e, f := RunWith(Stepper(mode), s, calls), Run(m, mode, calls);
            if EndsStream(calls) then Finished(e, f) else Refines(e, f)
    decreases |calls|
  {
    if calls != [] {
      StepRefines(mode, s, m, calls[0]);
      hide Core, Step, Latched.Step, Refines, Finished;
      if |calls| == 1 {
        RunOfOne(Stepper(mode), s, calls);
        RunOfOne(Latched.Stepper(mode), m, calls);
      } else {
        RunRefines(mode, Step(mode, s, calls[0]).state, Latched.Step(m, mode, calls[0]).state, calls[1..]);
      }
    }
  }
}
