/** src/bzip2: the latch as an advancing pointer with totals split into 32-bit halves. */
module Bzip2Adapter {
  import opened Codes
  import opened Words
  import opened UnizipStream
  import opened Latched

  /** The fields of bz_stream the adapter and libbz2 share. */
  datatype BzStream = BzStream(
    nextIn: int, availIn: u32, totalInLo: u32, totalInHi: u32,
    nextOut: int, availOut: u32, totalOutLo: u32, totalOutHi: u32)

  /** After BZ2_bzCompressInit or BZ2_bzDecompressInit. */
  const FRESH := BzStream(0, 0, 0, 0, 0, 0, 0, 0)

  /** bzip2_totalsize. */
  function TotalSize(hi: u32, lo: u32): u64 {
    hi * TWO_TO_THE_32 + lo
  }

  /** libbz2 counts bytes in the low half and carries into the high half. */
  function AddLo(lo: u32, n: nat): u32 {
    (lo + n) % TWO_TO_THE_32
  }

  function AddHi(hi: u32, lo: u32, n: nat): u32 {
    (hi + (lo + n) / TWO_TO_THE_32) % TWO_TO_THE_32
  }

  lemma SplitTotalsAdd(hi: u32, lo: u32, n: nat)
    ensures TotalSize(AddHi(hi, lo, n), AddLo(lo, n)) == Add64(TotalSize(hi, lo), n)
  {
    var sum := hi * TWO_TO_THE_32 + lo + n;
    var carried := hi + (lo + n) / TWO_TO_THE_32;
    assert sum == carried * TWO_TO_THE_32 + (lo + n) % TWO_TO_THE_32;
    assert carried == carried / TWO_TO_THE_32 * TWO_TO_THE_32 + carried % TWO_TO_THE_32;
  }

  /** BZ2_bzCompress and BZ2_bzDecompress, by what they choose to do. */
  function BzCode(s: BzStream, c: Choice): BzStream {
    var took, put := Min(c.consume, s.availIn), Min(c.produce, s.availOut);
    BzStream(s.nextIn + took, s.availIn - took, AddLo(s.totalInLo, took), AddHi(s.totalInHi, s.totalInLo, took),
             s.nextOut + put, s.availOut - put, AddLo(s.totalOutLo, put), AddHi(s.totalOutHi, s.totalOutLo, put))
  }

  function BzAccess(s: BzStream, finish: bool, c: Choice): Access {
    Access(finish, s.nextIn, s.availIn, Min(c.consume, s.availIn), s.nextOut, s.availOut, Min(c.produce, s.availOut))
  }

  datatype State = State(bz: BzStream, strm: Snapshot)

  /** What the caller's stream becomes when the library has not failed. */
  function Accounted(bz: BzStream, io: Snapshot): Snapshot {
    var tin, tout := TotalSize(bz.totalInHi, bz.totalInLo), TotalSize(bz.totalOutHi, bz.totalOutLo);
    io.(nextIn := io.nextIn + Sub64(tin, io.totalIn), nextOut := io.nextOut + Sub64(tout, io.totalOut),
        totalIn := tin, totalOut := tout)
  }

  /** One deflateCB_bzip2 or inflateCB_bzip2; a failing call leaves the caller's stream alone. */
  function Core(mode: Mode, s: State, flush: int, c: Choice): Outcome<State> {
    var io := s.strm;
    var open := mode == Decompressing || flush != Z_FINISH || (s.bz.totalInHi == 0 && s.bz.totalInLo == 0);
    var bz1 := s.bz.(nextIn := io.nextIn, nextOut := io.nextOut,
                     availIn := if s.bz.availIn == 0 && open then io.availIn else s.bz.availIn,
                     availOut := if s.bz.availOut == 0 then io.availOut else s.bz.availOut);
    var bz2 := BzCode(bz1, c);
    Outcome(State(bz2, if c.ret.Fail? then io else Accounted(bz2, io)), BzAccess(bz1, mode == Compressing && flush == Z_FINISH, c), UnizipCode(c.ret))
  }

  function Step(mode: Mode, s: State, call: Call): Outcome<State> {
    Core(mode, s.(strm := s.strm.(availIn := call.availIn, availOut := call.availOut)), call.flush, call.choice)
  }

  /** struct bzip2_ctx; io stands for the fields it copies from the caller's stream. */
  class Bzip2Ctx {
    var bzstr: BzStream
    var io: Strm

    /** bzip2_allocate with bzip2_deflateInit or bzip2_inflateInit. */
    constructor ()
      ensures bzstr == FRESH && fresh(io)
    {
      bzstr := FRESH;
      io := new Strm();
    }

    /** bzip2_deflate. */
    method Bzip2Deflate(flush: int, c: Choice) returns (ret: int, ghost access: Access)
      modifies this`bzstr, io
      ensures var o := Core(Compressing, State(old(bzstr), old(io.Now())), flush, c);
              bzstr == o.state.bz && io.Now() == o.state.strm && ret == o.ret && access == o.access
    {
      bzstr := bzstr.(nextIn := io.nextIn, nextOut := io.nextOut);
      var finish := flush == Z_FINISH;
      if bzstr.availIn == 0
         && (!finish || (finish && bzstr.totalInHi == 0 && bzstr.totalInLo == 0)) {
        bzstr := bzstr.(availIn := io.availIn);
      }
      if bzstr.availOut == 0 {
        bzstr := bzstr.(availOut := io.availOut);
      }
      access := BzAccess(bzstr, finish, c);
      bzstr := BzCode(bzstr, c);
      ret := UnizipCode(c.ret);
      if !c.ret.Fail? {
        Account();
      }
    }

    /** bzip2_inflate, which has no flush argument. */
    method Bzip2Inflate(c: Choice) returns (ret: int, ghost access: Access)
      modifies this`bzstr, io
      ensures var o := Core(Decompressing, State(old(bzstr), old(io.Now())), Z_NO_FLUSH, c);
              bzstr == o.state.bz && io.Now() == o.state.strm && ret == o.ret && access == o.access
    {
      bzstr := bzstr.(nextIn := io.nextIn, nextOut := io.nextOut);
      if bzstr.availIn == 0 {
        bzstr := bzstr.(availIn := io.availIn);
      }
      if bzstr.availOut == 0 {
        bzstr := bzstr.(availOut := io.availOut);
      }
      access := BzAccess(bzstr, false, c);
      bzstr := BzCode(bzstr, c);
      ret := UnizipCode(c.ret);
      if !c.ret.Fail? {
        Account();
      }
    }

    /** The lines both adapters end with. */
    method Account()
      modifies io
      ensures io.Now() == Accounted(bzstr, old(io.Now()))
    {
      io.nextIn := io.nextIn + Sub64(TotalSize(bzstr.totalInHi, bzstr.totalInLo), io.totalIn);
      io.nextOut := io.nextOut + Sub64(TotalSize(bzstr.totalOutHi, bzstr.totalOutLo), io.totalOut);
      io.totalIn := TotalSize(bzstr.totalInHi, bzstr.totalInLo);
      io.totalOut := TotalSize(bzstr.totalOutHi, bzstr.totalOutLo);
    }

    /** deflateCB_bzip2. */
    method DeflateCB(strm: Strm, flush: int, c: Choice) returns (ret: int, ghost access: Access)
      requires strm != io
      modifies this`bzstr, io, strm
      ensures var o := Core(Compressing, State(old(bzstr), old(strm.Now())), flush, c);
              bzstr == o.state.bz && strm.Now() == o.state.strm && ret == o.ret && access == o.access
    {
      io.Set(strm.Now());
      ret, access := Bzip2Deflate(flush, c);
      strm.Set(io.Now());
    }

    /** inflateCB_bzip2. */
    method InflateCB(strm: Strm, flush: int, c: Choice) returns (ret: int, ghost access: Access)
      requires strm != io
      modifies this`bzstr, io, strm
      ensures var o := Core(Decompressing, State(old(bzstr), old(strm.Now())), flush, c);
              bzstr == o.state.bz && strm.Now() == o.state.strm && ret == o.ret && access == o.access
    {
      io.Set(strm.Now());
      ret, access := Bzip2Inflate(c);
      strm.Set(io.Now());
    }
  }

  // ----- Refinement of the latched stream -----

  predicate Refines(s: State, m: Machine) {
    && s.strm.nextIn == m.nextIn && s.strm.nextOut == m.nextOut
    && s.strm.totalIn == TotalSize(s.bz.totalInHi, s.bz.totalInLo) == m.totalIn
    && s.strm.totalOut == TotalSize(s.bz.totalOutHi, s.bz.totalOutLo) == m.totalOut
    && s.bz.availIn == m.heldIn && s.bz.availOut == m.heldOut
  }

  /** Every call that does not fail is the machine's call. */
  lemma StepRefines(mode: Mode, s: State, m: Machine, call: Call)
    requires Refines(s, m) && !call.choice.ret.Fail?
    ensures var o, a := Step(mode, s, call), Latched.Step(m, mode, call);
            Refines(o.state, a.state) && o.access == a.access && o.ret == a.ret
  {
    var l := Latch(m, mode, call);
    var took, put := Min(call.choice.consume, l.heldIn), Min(call.choice.produce, l.heldOut);
    SplitTotalsAdd(s.bz.totalInHi, s.bz.totalInLo, took);
    SplitTotalsAdd(s.bz.totalOutHi, s.bz.totalOutLo, put);
    Add64Back(m.totalIn, took);
    Add64Back(m.totalOut, put);
    hide AddHi, AddLo, Add64, Sub64;
  }

  function Stepper(mode: Mode): (State, Call) -> Outcome<State> {
    (s, call) => Step(mode, s, call)
  }

  lemma {:induction false} RunRefines(mode: Mode, s: State, m: Machine, calls: seq<Call>)
    requires Refines(s, m) && ErrorFree(mode, calls)
    ensures Refines(RunWith(Stepper(mode), s, calls), Run(m, mode, calls))
    ensures TraceWith(Stepper(mode), s, calls) == Trace(m, mode, calls)
    decreases |calls|
  {
    if calls != [] {
      StepRefines(mode, s, m, calls[0]);
      RunRefines(mode, Step(mode, s, calls[0]).state, Latched.Step(m, mode, calls[0]).state, calls[1..]);
    }
  }
}
