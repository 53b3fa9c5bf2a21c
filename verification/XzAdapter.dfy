/** src/xz: the latch as an advancing pointer with a 64-bit total. */
module XzAdapter {
  import opened Codes
  import opened Words
  import opened UnizipStream
  import opened Latched

  /** The fields of lzma_stream the adapter and liblzma share. */
  datatype LzmaStream = LzmaStream(nextIn: int, availIn: u64, totalIn: u64, nextOut: int, availOut: u64, totalOut: u64)

  /** After lzma_stream_encoder or lzma_stream_decoder. */
  const FRESH := LzmaStream(0, 0, 0, 0, 0, 0)

  /** lzma_code, by what it chooses to do. */
  function LzmaCode(s: LzmaStream, c: Choice): LzmaStream {
    var took, put := Min(c.consume, s.availIn), Min(c.produce, s.availOut);
    LzmaStream(s.nextIn + took, s.availIn - took, Add64(s.totalIn, took), s.nextOut + put, s.availOut - put, Add64(s.totalOut, put))
  }

  function LzmaAccess(s: LzmaStream, finish: bool, c: Choice): Access {
    Access(finish, s.nextIn, s.availIn, Min(c.consume, s.availIn), s.nextOut, s.availOut, Min(c.produce, s.availOut))
  }

  datatype State = State(lz: LzmaStream, strm: Snapshot)

  /** One deflateCB_xz or inflateCB_xz as a function of the private stream and the caller's one. */
  function Core(mode: Mode, s: State, flush: int, c: Choice): Outcome<State> {
    var io := s.strm;
    var lz1 := s.lz.(nextIn := io.nextIn, nextOut := io.nextOut,
                     availIn := if s.lz.availIn == 0 && (mode == Decompressing || flush != Z_FINISH || io.totalIn == 0)
                                then io.availIn else s.lz.availIn,
                     availOut := if s.lz.availOut == 0 then io.availOut else s.lz.availOut);
    var lz2 := LzmaCode(lz1, c);
    Outcome(
      State(lz2, io.(nextIn := io.nextIn + Sub64(lz2.totalIn, io.totalIn), nextOut := io.nextOut + Sub64(lz2.totalOut, io.totalOut),
                     totalIn := lz2.totalIn, totalOut := lz2.totalOut)),
      LzmaAccess(lz1, mode == Compressing && flush == Z_FINISH, c),
      UnizipCode(c.ret))
  }

  function Step(mode: Mode, s: State, call: Call): Outcome<State> {
    Core(mode, s.(strm := s.strm.(availIn := call.availIn, availOut := call.availOut)), call.flush, call.choice)
  }

  /** struct xz_ctx. */
  class XzCtx {
    var xzstr: LzmaStream
    var io: Strm

    /** xz_allocate with xz_deflateInit or xz_inflateInit. */
    constructor ()
      ensures xzstr == FRESH && fresh(io)
    {
      xzstr := FRESH;
      io := new Strm();
    }

    /** xz_deflate. */
    method XzDeflate(flush: int, c: Choice) returns (ret: int, ghost access: Access)
      modifies this`xzstr, io
      ensures var o := Core(Compressing, State(old(xzstr), old(io.Now())), flush, c);
              xzstr == o.state.lz && io.Now() == o.state.strm && ret == o.ret && access == o.access
    {
      xzstr := xzstr.(nextIn := io.nextIn, nextOut := io.nextOut);
      var finish := flush == Z_FINISH;
      if xzstr.availIn == 0 && (!finish || (finish && io.totalIn == 0)) {
        xzstr := xzstr.(availIn := io.availIn);
      }
      if xzstr.availOut == 0 {
        xzstr := xzstr.(availOut := io.availOut);
      }
      access := LzmaAccess(xzstr, finish, c);
      xzstr := LzmaCode(xzstr, c);
      Account();
      ret := UnizipCode(c.ret);
    }

    /** xz_inflate. */
    method XzInflate(flush: int, c: Choice) returns (ret: int, ghost access: Access)
      modifies this`xzstr, io
      ensures var o := Core(Decompressing, State(old(xzstr), old(io.Now())), flush, c);
              xzstr == o.state.lz && io.Now() == o.state.strm && ret == o.ret && access == o.access
    {
      xzstr := xzstr.(nextIn := io.nextIn, nextOut := io.nextOut);
      if xzstr.availIn == 0 {
        xzstr := xzstr.(availIn := io.availIn);
      }
      if xzstr.availOut == 0 {
        xzstr := xzstr.(availOut := io.availOut);
      }
      access := LzmaAccess(xzstr, false, c);
      xzstr := LzmaCode(xzstr, c);
      Account();
      ret := UnizipCode(c.ret);
    }

    /** The lines both adapters end with. */
    method Account()
      modifies io
      ensures io.Now() == old(io.Now()).(
                nextIn := old(io.nextIn) + Sub64(xzstr.totalIn, old(io.totalIn)),
                nextOut := old(io.nextOut) + Sub64(xzstr.totalOut, old(io.totalOut)),
                totalIn := xzstr.totalIn, totalOut := xzstr.totalOut)
    {
      io.nextIn := io.nextIn + Sub64(xzstr.totalIn, io.totalIn);
      io.nextOut := io.nextOut + Sub64(xzstr.totalOut, io.totalOut);
      io.totalIn := xzstr.totalIn;
      io.totalOut := xzstr.totalOut;
    }

    /** deflateCB_xz: copy the stream in, run the adapter, copy it out. */
    method DeflateCB(strm: Strm, flush: int, c: Choice) returns (ret: int, ghost access: Access)
      requires strm != io
      modifies this`xzstr, io, strm
      ensures var o := Core(Compressing, State(old(xzstr), old(strm.Now())), flush, c);
              xzstr == o.state.lz && strm.Now() == o.state.strm && ret == o.ret && access == o.access
    {
      io.Set(strm.Now());
      ret, access := XzDeflate(flush, c);
      strm.Set(io.Now());
    }

    /** inflateCB_xz. */
    method InflateCB(strm: Strm, flush: int, c: Choice) returns (ret: int, ghost access: Access)
      requires strm != io
      modifies this`xzstr, io, strm
      ensures var o := Core(Decompressing, State(old(xzstr), old(strm.Now())), flush, c);
              xzstr == o.state.lz && strm.Now() == o.state.strm && ret == o.ret && access == o.access
    {
      io.Set(strm.Now());
      ret, access := XzInflate(flush, c);
      strm.Set(io.Now());
    }
  }

  // ----- Refinement of the latched stream -----

  predicate Refines(s: State, m: Machine) {
    && s.strm.nextIn == m.nextIn && s.strm.nextOut == m.nextOut
    && s.strm.totalIn == s.lz.totalIn == m.totalIn && s.strm.totalOut == s.lz.totalOut == m.totalOut
    && s.lz.availIn == m.heldIn && s.lz.availOut == m.heldOut
  }

  /** Every call, a failing one included, is the machine's call. */
  lemma StepRefines(mode: Mode, s: State, m: Machine, call: Call)
    requires Refines(s, m)
    ensures var o, a := Step(mode, s, call), Latched.Step(m, mode, call);
            Refines(o.state, a.state) && o.access == a.access && o.ret == a.ret
  {
    var l := Latch(m, mode, call);
    Add64Back(m.totalIn, Min(call.choice.consume, l.heldIn));
    Add64Back(m.totalOut, Min(call.choice.produce, l.heldOut));
  }

  function Stepper(mode: Mode): (State, Call) -> Outcome<State> {
    (s, call) => Step(mode, s, call)
  }

  lemma {:induction false} RunRefines(mode: Mode, s: State, m: Machine, calls: seq<Call>)
    requires Refines(s, m)
    ensures Refines(RunWith(Stepper(mode), s, calls), Run(m, mode, calls))
    ensures TraceWith(Stepper(mode), s, calls) == Trace(m, mode, calls)
    decreases |calls|
  {
    if calls != [] {
      StepRefines(mode, s, m, calls[0]);
      RunRefines(mode, Step(mode, s, calls[0]).state, Latched.Step(m, mode, calls[0]).state, calls[1..]);
    }
  }
}
