/** The three latched adapters side by side, over whole runs from a fresh stream. */
module AdapterRuns {
  import opened Codes
  import opened Words
  import opened UnizipStream
  import opened Latched
  import Xz = XzAdapter
  import Bz = Bzip2Adapter
  import Zstd = ZstdAdapter

  /** After the init and reset functions the caller sets the two pointers. */
  predicate FreshStrm(strm: Snapshot) {
    strm.totalIn == 0 && strm.totalOut == 0
  }

  function FreshMachine(strm: Snapshot): Machine {
    Machine(strm.nextIn, strm.nextOut, 0, 0, 0, 0)
  }

  function XzRun(mode: Mode, strm: Snapshot, calls: seq<Call>): Xz.State {
    RunWith(Xz.Stepper(mode), Xz.State(Xz.FRESH, strm), calls)
  }

  function BzRun(mode: Mode, strm: Snapshot, calls: seq<Call>): Bz.State {
    RunWith(Bz.Stepper(mode), Bz.State(Bz.FRESH, strm), calls)
  }

  function ZstdRun(mode: Mode, strm: Snapshot, calls: seq<Call>): Zstd.State {
    RunWith(Zstd.Stepper(mode), Zstd.State(Zstd.FRESH, Zstd.FRESH, strm), calls)
  }

  function XzTrace(mode: Mode, strm: Snapshot, calls: seq<Call>): seq<(Access, int)> {
    TraceWith(Xz.Stepper(mode), Xz.State(Xz.FRESH, strm), calls)
  }

  function BzTrace(mode: Mode, strm: Snapshot, calls: seq<Call>): seq<(Access, int)> {
    TraceWith(Bz.Stepper(mode), Bz.State(Bz.FRESH, strm), calls)
  }

  function ZstdTrace(mode: Mode, strm: Snapshot, calls: seq<Call>): seq<(Access, int)> {
    TraceWith(Zstd.Stepper(mode), Zstd.State(Zstd.FRESH, Zstd.FRESH, strm), calls)
  }

  /** The caller sees the same totals and pointers. */
  predicate SameView(a: Snapshot, b: Snapshot) {
    a.nextIn == b.nextIn && a.nextOut == b.nextOut && a.totalIn == b.totalIn && a.totalOut == b.totalOut
  }

  /** For the same library choices the three adapters make the same library calls, return the same
      codes, hold the same remainders and count the same totals over any run without failures in which
      FINISH finds nothing held; their pointers agree too, zstd's once the stream has ended. */
  lemma AllAgree(mode: Mode, strm: Snapshot, calls: seq<Call>)
    requires FreshStrm(strm) && ErrorFree(mode, calls)
    requires mode == Compressing ==> FinishFindsNothing(FreshMachine(strm), calls)
    ensures XzTrace(mode, strm, calls) == BzTrace(mode, strm, calls) == ZstdTrace(mode, strm, calls)
    ensures var x, b, z := XzRun(mode, strm, calls), BzRun(mode, strm, calls), ZstdRun(mode, strm, calls);
            && SameView(x.strm, b.strm)
            && x.strm.totalIn == z.strm.totalIn && x.strm.totalOut == z.strm.totalOut
            && x.lz.availIn == b.bz.availIn == z.input.Left() && x.lz.availOut == b.bz.availOut == z.output.Left()
            && x.strm.nextIn == z.strm.nextIn + (if Zstd.EndsStream(calls) then 0 else z.input.pos)
            && x.strm.nextOut == z.strm.nextOut + (if Zstd.EndsStream(calls) then 0 else z.output.pos)
  {
    var m := FreshMachine(strm);
    Xz.RunRefines(mode, Xz.State(Xz.FRESH, strm), m, calls);
    Bz.RunRefines(mode, Bz.State(Bz.FRESH, strm), m, calls);
    Zstd.RunRefines(mode, Zstd.State(Zstd.FRESH, Zstd.FRESH, strm), m, calls);
  }

  /** Over a whole compression the three adapters make the same library calls and return the same codes
      exactly if FINISH never finds input held; xz and bzip2 agree in any case. */
  lemma AgreeExactly(strm: Snapshot, calls: seq<Call>)
    requires FreshStrm(strm) && ErrorFree(Compressing, calls)
    ensures XzTrace(Compressing, strm, calls) == BzTrace(Compressing, strm, calls)
    ensures XzTrace(Compressing, strm, calls) == ZstdTrace(Compressing, strm, calls)
            <==> FinishFindsNothing(FreshMachine(strm), calls)
  {
    var m := FreshMachine(strm);
    Xz.RunRefines(Compressing, Xz.State(Xz.FRESH, strm), m, calls);
    Bz.RunRefines(Compressing, Bz.State(Bz.FRESH, strm), m, calls);
    Zstd.RunAgreesExactly(Zstd.State(Zstd.FRESH, Zstd.FRESH, strm), m, calls);
  }

  /** The caller of the tests: k bytes at a time, k dividing len, while total_in is short of len; then
      FINISH until the stream end. Nothing is assumed of the library but that it does not fail. */
  lemma TestCallerCompletes(strm: Snapshot, feed: seq<Call>, fin: seq<Call>, k: u32, len: u64)
    requires FreshStrm(strm) && len > 0 && k > 0 && len % k == 0
    requires ErrorFree(Compressing, feed + fin) && Zstd.EndsStream(feed + fin) && AllFinish(fin)
    requires LoopFeeds(FreshMachine(strm), feed, k, len)
    requires Run(FreshMachine(strm), Compressing, feed).totalIn >= len
    ensures var x, b, z := XzRun(Compressing, strm, feed + fin), BzRun(Compressing, strm, feed + fin), ZstdRun(Compressing, strm, feed + fin);
            && SameView(x.strm, b.strm) && SameView(x.strm, z.strm)
            && x.strm.totalIn == len && x.strm.nextIn == strm.nextIn + len
            && x.lz.availIn == b.bz.availIn == z.input.Left() == 0
    ensures Taken(XzTrace(Compressing, strm, feed + fin)) == Range(strm.nextIn, len)
    ensures Taken(BzTrace(Compressing, strm, feed + fin)) == Range(strm.nextIn, len)
    ensures Taken(ZstdTrace(Compressing, strm, feed + fin)) == Range(strm.nextIn, len)
  {
    LoopEndsAtLength(FreshMachine(strm), feed, strm.nextIn, k, len);
    CompletionForAll(strm, feed, fin, len);
  }

  /** The flush argument 4, zlib's FINISH, is what tells the library to finish; no other argument differs
      from 0, zlib's NO_FLUSH, in any adapter. */
  lemma OnlyFinishMatters(mode: Mode, x: Xz.State, b: Bz.State, z: Zstd.State, call: Call)
    ensures var finish := mode == Compressing && call.flush == 4;
            && Xz.Step(mode, x, call).access.finish == finish
            && Bz.Step(mode, b, call).access.finish == finish
            && Zstd.Step(mode, z, call).access.finish == finish
    ensures call.flush != 4 ==>
              var plain := call.(flush := 0);
              && Xz.Step(mode, x, call) == Xz.Step(mode, x, plain)
              && Bz.Step(mode, b, call) == Bz.Step(mode, b, plain)
              && Zstd.Step(mode, z, call) == Zstd.Step(mode, z, plain)
  {
    hide Add64, Sub64;
  }

  /** What the caller is told, in any state: a failure by its code; a stream end as one, by zstd's
      encoder only on FINISH; and otherwise that all is well. A failure leaves the caller's stream
      alone with bzip2 and zstd. */
  lemma LibraryIsReported(mode: Mode, x: Xz.State, b: Bz.State, z: Zstd.State, call: Call)
    ensures var rx, rb, rz := Xz.Step(mode, x, call).ret, Bz.Step(mode, b, call).ret, Zstd.Step(mode, z, call).ret;
            match call.choice.ret
            case Ok => rx == rb == rz == UNIZIP_OK
            case End => && rx == rb == UNIZIP_STREAM_END
                        && rz == if mode == Compressing && call.flush != Z_FINISH then UNIZIP_OK else UNIZIP_STREAM_END
            case Fail(code) => rx == rb == rz == code
    ensures call.choice.ret.Fail? ==>
              && Bz.Step(mode, b, call).state.strm == b.strm.(availIn := call.availIn, availOut := call.availOut)
              && Zstd.Step(mode, z, call).state.strm == z.strm.(availIn := call.availIn, availOut := call.availOut)
  {
    hide Add64, Sub64;
  }

  /** A segmented compression of len bytes, offered from inside its buffer: whichever adapter runs it,
      the library takes exactly the bytes at base .. base + len in order, nothing is left held, and
      total_in and next_in say so. */
  lemma CompletionForAll(strm: Snapshot, feed: seq<Call>, fin: seq<Call>, len: u64)
    requires FreshStrm(strm) && len > 0
    requires ErrorFree(Compressing, feed + fin) && Zstd.EndsStream(feed + fin)
    requires NoneFinish(feed) && AllFinish(fin)
    requires OffersInside(FreshMachine(strm), Compressing, feed, len)
    requires Run(FreshMachine(strm), Compressing, feed).totalIn == len
    ensures var x, b, z := XzRun(Compressing, strm, feed + fin), BzRun(Compressing, strm, feed + fin), ZstdRun(Compressing, strm, feed + fin);
            && SameView(x.strm, b.strm) && SameView(x.strm, z.strm)
            && x.strm.totalIn == len && x.strm.nextIn == strm.nextIn + len
            && x.lz.availIn == b.bz.availIn == z.input.Left() == 0
    ensures Taken(XzTrace(Compressing, strm, feed + fin)) == Range(strm.nextIn, len)
    ensures Taken(BzTrace(Compressing, strm, feed + fin)) == Range(strm.nextIn, len)
    ensures Taken(ZstdTrace(Compressing, strm, feed + fin)) == Range(strm.nextIn, len)
  {
    var m, calls := FreshMachine(strm), feed + fin;
    Completion(m, feed, fin, strm.nextIn, len);
    CompletionFinishFindsNothing(m, feed, fin, strm.nextIn, len);
    AllAgree(Compressing, strm, calls);
    Xz.RunRefines(Compressing, Xz.State(Xz.FRESH, strm), m, calls);
  }

  /** What goes wrong outside that discipline: a zstd stream that starts with FINISH ends without ever
      showing the library its input, where xz and bzip2 hand all of it over. */
  lemma FinishFirstLosesInput(strm: Snapshot, call: Call)
    requires FreshStrm(strm) && call.flush == Z_FINISH && call.availIn > 0 && call.choice.ret == End
    ensures var z := Zstd.Step(Compressing, Zstd.State(Zstd.FRESH, Zstd.FRESH, strm), call);
            z.access.inLen == 0 && z.ret == UNIZIP_STREAM_END && z.state.strm.totalIn == 0
            && z.state.strm.nextIn == strm.nextIn && z.state.input.Left() == call.availIn
    ensures Xz.Step(Compressing, Xz.State(Xz.FRESH, strm), call).access.inLen == call.availIn
    ensures Bz.Step(Compressing, Bz.State(Bz.FRESH, strm), call).access.inLen == call.availIn
  {
  }
}
