/** The latched stream: what xz, bzip2 and zstd have in common. The library keeps its own remainder of
    an earlier offer; the caller's avail_in and avail_out are looked at only when that is used up. */
module Latched {
  import opened Codes
  import opened Words

  datatype Mode = Compressing | Decompressing

  datatype Ret = Ok | End | Fail(code: int)

  /** What the compression library does in one call, as far as input and room allow. */
  datatype Choice = Choice(consume: nat, produce: nat, ret: Ret)

  /** One call of the caller, who sets avail_in and avail_out before it. */
  datatype Call = Call(availIn: u32, availOut: u32, flush: int, choice: Choice)

  /** The memory one library call gets: it may read inLen bytes at inAt and takes the first `took`,
      and may write outLen bytes at outAt and puts the first `put`. An encoder is told whether to
      finish the stream. */
  datatype Access = Access(finish: bool, inAt: int, inLen: nat, took: nat, outAt: int, outLen: nat, put: nat)

  datatype Outcome<S> = Outcome(state: S, access: Access, ret: int)

  function UnizipCode(r: Ret): int {
    match r
    case Ok => UNIZIP_OK
    case End => UNIZIP_STREAM_END
    case Fail(code) => code
  }

  datatype Machine = Machine(nextIn: int, nextOut: int, totalIn: u64, totalOut: u64, heldIn: u64, heldOut: u64)

  /** Input is not taken on with FINISH once a byte has been consumed; inflate has no such gate. */
  predicate TakesInput(m: Machine, mode: Mode, flush: int) {
    m.heldIn == 0 && (mode == Decompressing || flush != Z_FINISH || m.totalIn == 0)
  }

  function Latch(m: Machine, mode: Mode, call: Call): Machine {
    m.(heldIn := if TakesInput(m, mode, call.flush) then call.availIn else m.heldIn,
       heldOut := if m.heldOut == 0 then call.availOut else m.heldOut)
  }

  function Step(m: Machine, mode: Mode, call: Call): Outcome<Machine> {
    var l := Latch(m, mode, call);
    var took, put := Min(call.choice.consume, l.heldIn), Min(call.choice.produce, l.heldOut);
    Outcome(
      Machine(l.nextIn + took, l.nextOut + put, Add64(l.totalIn, took), Add64(l.totalOut, put), l.heldIn - took, l.heldOut - put),
      Access(mode == Compressing && call.flush == Z_FINISH, l.nextIn, l.heldIn, took, l.nextOut, l.heldOut, put),
      UnizipCode(call.choice.ret))
  }

  // ----- Runs of any machine -----

  function RunWith<S>(step: (S, Call) -> Outcome<S>, s: S, calls: seq<Call>): S {
    if calls == [] then s else RunWith(step, step(s, calls[0]).state, calls[1..])
  }

  /** The accesses and return codes of a run, in order. */
  function TraceWith<S>(step: (S, Call) -> Outcome<S>, s: S, calls: seq<Call>): seq<(Access, int)> {
    if calls == [] then []
    else [(step(s, calls[0]).access, step(s, calls[0]).ret)] + TraceWith(step, step(s, calls[0]).state, calls[1..])
  }

  lemma RunOfOne<S>(step: (S, Call) -> Outcome<S>, s: S, calls: seq<Call>)
    requires |calls| == 1
    ensures RunWith(step, s, calls) == step(s, calls[0]).state
    ensures TraceWith(step, s, calls) == [(step(s, calls[0]).access, step(s, calls[0]).ret)]
  {
    assert calls[1..] == [];
  }

  function Stepper(mode: Mode): (Machine, Call) -> Outcome<Machine> {
    (m, call) => Step(m, mode, call)
  }

  function Run(m: Machine, mode: Mode, calls: seq<Call>): Machine {
    RunWith(Stepper(mode), m, calls)
  }

  function Trace(m: Machine, mode: Mode, calls: seq<Call>): seq<(Access, int)> {
    TraceWith(Stepper(mode), m, calls)
  }

  /** No call fails, an encoder ends only on FINISH, and the stream end is the last call. */
  predicate ErrorFree(mode: Mode, calls: seq<Call>) {
    calls == [] || (
      && !calls[0].choice.ret.Fail?
      && (calls[0].choice.ret.End? ==> |calls| == 1 && (mode == Compressing ==> calls[0].flush == Z_FINISH))
      && ErrorFree(mode, calls[1..]))
  }

  lemma {:induction false} RunSplit(m: Machine, mode: Mode, a: seq<Call>, b: seq<Call>)
    ensures Run(m, mode, a + b) == Run(Run(m, mode, a), mode, b)
    ensures Trace(m, mode, a + b) == Trace(m, mode, a) + Trace(Run(m, mode, a), mode, b)
    decreases |a|
  {
    if a == [] {
      assert a + b == b;
    } else {
      assert (a + b)[1..] == a[1..] + b;
      RunSplit(Step(m, mode, a[0]).state, mode, a[1..], b);
    }
  }

  // ----- Safety of whole runs -----

  function Range(at: int, n: nat): seq<int> {
    seq(n, i requires 0 <= i < n => at + i)
  }

  /** The addresses of the input bytes taken, in order. */
  function Taken(trace: seq<(Access, int)>): seq<int> {
    if trace == [] then [] else Range(trace[0].0.inAt, trace[0].0.took) + Taken(trace[1..])
  }

  /** The addresses of the output bytes put, in order. */
  function Put(trace: seq<(Access, int)>): seq<int> {
    if trace == [] then [] else Range(trace[0].0.outAt, trace[0].0.put) + Put(trace[1..])
  }

  /** The offers the machine latched, added up. */
  function LatchedIn(m: Machine, mode: Mode, calls: seq<Call>): nat
    decreases |calls|
  {
    if calls == [] then 0
    else (if TakesInput(m, mode, calls[0].flush) then calls[0].availIn else 0)
         + LatchedIn(Step(m, mode, calls[0]).state, mode, calls[1..])
  }

  function LatchedOut(m: Machine, mode: Mode, calls: seq<Call>): nat
    decreases |calls|
  {
    if calls == [] then 0
    else (if m.heldOut == 0 then calls[0].availOut else 0)
         + LatchedOut(Step(m, mode, calls[0]).state, mode, calls[1..])
  }

  lemma RangeSplit(at: int, n: nat, k: nat)
    ensures Range(at, n) + Range(at + n, k) == Range(at, n + k)
  {
  }

  lemma RangeOfNone(at: int)
    ensures Range(at, 0) == []
  {
  }

  lemma TraceHead(m: Machine, mode: Mode, calls: seq<Call>)
    requires calls != []
    ensures var o := Step(m, mode, calls[0]);
            Trace(m, mode, calls)[0] == (o.access, o.ret)
            && Trace(m, mode, calls)[1..] == Trace(o.state, mode, calls[1..])
  {
  }

  /** Each latched byte is either still held or was moved, and the totals count what was moved. */
  lemma {:induction false} RunConserves(m: Machine, mode: Mode, calls: seq<Call>)
    ensures var e := Run(m, mode, calls);
            && e.nextIn >= m.nextIn && e.nextOut >= m.nextOut
            && e.nextIn - m.nextIn + e.heldIn == m.heldIn + LatchedIn(m, mode, calls)
            && e.nextOut - m.nextOut + e.heldOut == m.heldOut + LatchedOut(m, mode, calls)
            && e.totalIn == Add64(m.totalIn, e.nextIn - m.nextIn)
            && e.totalOut == Add64(m.totalOut, e.nextOut - m.nextOut)
    decreases |calls|
  {
    hide Add64;
    if calls == [] {
      Add64Zero(m.totalIn);
      Add64Zero(m.totalOut);
    } else {
      var o, e := Step(m, mode, calls[0]), Run(m, mode, calls);
      RunConserves(o.state, mode, calls[1..]);
      Add64Sum(m.totalIn, o.access.took, e.nextIn - o.state.nextIn);
      Add64Sum(m.totalOut, o.access.put, e.nextOut - o.state.nextOut);
    }
  }

  lemma Add64Zero(t: u64)
    ensures Add64(t, 0) == t
  {
  }

  /** Input is taken without gap or repeat from next_in on, and output put the same way from next_out
      on. No assumption on the caller is needed. */
  lemma {:induction false} RunIsContiguous(m: Machine, mode: Mode, calls: seq<Call>)
    ensures var e := Run(m, mode, calls);
            && e.nextIn >= m.nextIn && e.nextOut >= m.nextOut
            && Taken(Trace(m, mode, calls)) == Range(m.nextIn, e.nextIn - m.nextIn)
            && Put(Trace(m, mode, calls)) == Range(m.nextOut, e.nextOut - m.nextOut)
    decreases |calls|
  {
    hide Add64, Range, LatchedIn, LatchedOut;
    RunConserves(m, mode, calls);
    if calls != [] {
      var o, e := Step(m, mode, calls[0]), Run(m, mode, calls);
      RunIsContiguous(o.state, mode, calls[1..]);
      TraceHead(m, mode, calls);
      RangeSplit(m.nextIn, o.access.took, e.nextIn - o.state.nextIn);
      RangeSplit(m.nextOut, o.access.put, e.nextOut - o.state.nextOut);
    } else {
      RangeOfNone(m.nextIn);
      RangeOfNone(m.nextOut);
    }
  }

  /** Whenever input is latched, the offer lies inside the caller's buffer of len bytes. */
  predicate OffersInside(m: Machine, mode: Mode, calls: seq<Call>, len: nat)
    decreases |calls|
  {
    calls == [] || (
      && (TakesInput(m, mode, calls[0].flush) ==> m.totalIn + calls[0].availIn <= len)
      && OffersInside(Step(m, mode, calls[0]).state, mode, calls[1..], len))
  }

  /** Every library call may only read inside the caller's buffer [base, base + len). */
  lemma {:induction false} ReadsStayInside(m: Machine, mode: Mode, calls: seq<Call>, base: int, len: u64)
    requires m.nextIn == base + m.totalIn && m.totalIn + m.heldIn <= len
    requires OffersInside(m, mode, calls, len)
    ensures forall a :: a in Trace(m, mode, calls) ==> base <= a.0.inAt && a.0.inAt + a.0.inLen <= base + len
    ensures var e := Run(m, mode, calls);
            e.nextIn == base + e.totalIn && e.totalIn + e.heldIn <= len
    decreases |calls|
  {
    if calls != [] {
      var o := Step(m, mode, calls[0]);
      ReadsStayInside(o.state, mode, calls[1..], base, len);
      TraceHead(m, mode, calls);
    }
  }

  // ----- The caller of a segmented compression -----

  predicate NoneFinish(calls: seq<Call>) {
    forall c :: c in calls ==> c.flush != Z_FINISH
  }

  predicate AllFinish(calls: seq<Call>) {
    forall c :: c in calls ==> c.flush == Z_FINISH
  }

  /** After a byte was consumed, FINISH takes on nothing and, with nothing held, reads nothing. */
  lemma {:induction false} FinishAddsNothing(m: Machine, calls: seq<Call>)
    requires AllFinish(calls) && m.heldIn == 0 && m.totalIn != 0
    ensures var e := Run(m, Compressing, calls);
            e.nextIn == m.nextIn && e.totalIn == m.totalIn && e.heldIn == 0
    ensures forall a :: a in Trace(m, Compressing, calls) ==> a.0.inLen == 0
    decreases |calls|
  {
    if calls != [] {
      TraceHead(m, Compressing, calls);
      FinishAddsNothing(Step(m, Compressing, calls[0]).state, calls[1..]);
    }
  }

  /** NO_FLUSH until total_in is the length, then FINISH with any offers: nothing is held when FINISH
      starts, the whole buffer is taken exactly once, and next_in ends at its end. */
  lemma Completion(m: Machine, feed: seq<Call>, fin: seq<Call>, base: int, len: u64)
    requires m.nextIn == base && m.totalIn == 0 && m.heldIn == 0 && len > 0
    requires NoneFinish(feed) && AllFinish(fin)
    requires OffersInside(m, Compressing, feed, len)
    requires Run(m, Compressing, feed).totalIn == len
    ensures Run(m, Compressing, feed).heldIn == 0
    ensures var e := Run(m, Compressing, feed + fin);
            e.nextIn == base + len && e.totalIn == len && e.heldIn == 0
    ensures Taken(Trace(m, Compressing, feed + fin)) == Range(base, len)
  {
    ReadsStayInside(m, Compressing, feed, base, len);
    RunSplit(m, Compressing, feed, fin);
    FinishAddsNothing(Run(m, Compressing, feed), fin);
    RunIsContiguous(m, Compressing, feed + fin);
  }

  /** The feeding loop of a segmented compression: while total_in is short of len, offer k bytes. */
  predicate LoopFeeds(m: Machine, calls: seq<Call>, k: u32, len: u64)
    decreases |calls|
  {
    calls == [] || (
      && m.totalIn < len && calls[0].availIn == k && calls[0].flush != Z_FINISH
      && LoopFeeds(Step(m, Compressing, calls[0]).state, calls[1..], k, len))
  }

  lemma {:induction false} LoopHasNoFinish(m: Machine, calls: seq<Call>, k: u32, len: u64)
    requires LoopFeeds(m, calls, k, len)
    ensures NoneFinish(calls)
    decreases |calls|
  {
    if calls != [] {
      LoopHasNoFinish(Step(m, Compressing, calls[0]).state, calls[1..], k, len);
      assert calls == [calls[0]] + calls[1..];
    }
  }

  /** A call moves bytes from the remainder to the total. */
  lemma StepKeepsSum(m: Machine, call: Call, len: u64)
    requires m.totalIn + Latch(m, Compressing, call).heldIn <= len
    ensures var next := Step(m, Compressing, call).state;
            next.totalIn + next.heldIn == m.totalIn + Latch(m, Compressing, call).heldIn
  {
  }

  /** Offers that divide the length never reach beyond the buffer, whatever the library does: i of the
      j portions have been offered so far. */
  lemma {:induction false} LoopStaysInside(m: Machine, calls: seq<Call>, i: nat, j: nat, k: u32, len: u64)
    requires i <= j && m.totalIn + m.heldIn == i * k && len == j * k
    requires LoopFeeds(m, calls, k, len)
    ensures OffersInside(m, Compressing, calls, len)
    decreases |calls|
  {
    if calls != [] {
      hide Step;
      var offered := if m.heldIn == 0 then i + 1 else i;
      MulMonotone(j, i, k);
      assert i < j || m.heldIn != 0;
      MulMonotone(offered, j, k);
      assert (i + 1) * k == i * k + k;
      StepKeepsSum(m, calls[0], len);
      LoopStaysInside(Step(m, Compressing, calls[0]).state, calls[1..], offered, j, k, len);
    }
  }

  /** A library that takes every offer whole runs past a length that is not a multiple of k. */
  lemma {:induction false} GreedyRunsOver(m: Machine, n: nat, k: u32, len: u64) returns (calls: seq<Call>)
    requires k > 0 && n > 0 && m.heldIn == 0 && m.totalIn + (n - 1) * k < len < m.totalIn + n * k
    ensures LoopFeeds(m, calls, k, len) && !OffersInside(m, Compressing, calls, len)
    decreases n
  {
    var call := Call(k, 0, Z_NO_FLUSH, Choice(k, 0, Ok));
    calls := [call];
    if n > 1 {
      assert (n - 1) * k == (n - 2) * k + k && n * k == (n - 1) * k + k;
      assert (n - 2) * k >= 0;
      var later := GreedyRunsOver(Step(m, Compressing, call).state, n - 1, k, len);
      calls := [call] + later;
    }
  }

  /** The feeding loop keeps inside its buffer, for every library, exactly if its offers divide the length. */
  lemma LoopOffersExactly(m: Machine, k: u32, len: u64)
    requires m.totalIn == 0 && m.heldIn == 0 && k > 0
    ensures (forall calls :: LoopFeeds(m, calls, k, len) ==> OffersInside(m, Compressing, calls, len)) <==> len % k == 0
  {
    hide LoopFeeds, OffersInside;
    var q := len / k;
    assert len == q * k + len % k;
    if len % k == 0 {
      forall calls | LoopFeeds(m, calls, k, len)
        ensures OffersInside(m, Compressing, calls, len)
      {
        LoopStaysInside(m, calls, 0, q, k, len);
      }
    } else {
      assert (q + 1) * k == q * k + k;
      var calls := GreedyRunsOver(m, q + 1, k, len);
    }
  }

  /** Once the feeding loop has come to its end, total_in is the length. */
  lemma LoopEndsAtLength(m: Machine, calls: seq<Call>, base: int, k: u32, len: u64)
    requires m.nextIn == base && m.totalIn == 0 && m.heldIn == 0
    requires k > 0 && len % k == 0 && LoopFeeds(m, calls, k, len)
    requires Run(m, Compressing, calls).totalIn >= len
    ensures OffersInside(m, Compressing, calls, len) && NoneFinish(calls)
    ensures Run(m, Compressing, calls).totalIn == len
  {
    hide *;
    LoopOffersExactly(m, k, len);
    LoopHasNoFinish(m, calls, k, len);
    ReadsStayInside(m, Compressing, calls, base, len);
  }

  /** Whenever FINISH comes, the library holds no input. */
  predicate FinishFindsNothing(m: Machine, calls: seq<Call>)
    decreases |calls|
  {
    calls == [] || (
      && (calls[0].flush == Z_FINISH ==> Latch(m, Compressing, calls[0]).heldIn == 0)
      && FinishFindsNothing(Step(m, Compressing, calls[0]).state, calls[1..]))
  }

  lemma {:induction false} FeedHasNoFinish(m: Machine, feed: seq<Call>, fin: seq<Call>)
    requires NoneFinish(feed) && FinishFindsNothing(Run(m, Compressing, feed), fin)
    ensures FinishFindsNothing(m, feed + fin)
    decreases |feed|
  {
    if feed == [] {
      assert feed + fin == fin;
    } else {
      assert (feed + fin)[1..] == feed[1..] + fin;
      FeedHasNoFinish(Step(m, Compressing, feed[0]).state, feed[1..], fin);
    }
  }

  lemma {:induction false} FinFindsNothing(m: Machine, fin: seq<Call>)
    requires AllFinish(fin) && m.heldIn == 0 && m.totalIn != 0
    ensures FinishFindsNothing(m, fin)
    decreases |fin|
  {
    if fin != [] {
      FinFindsNothing(Step(m, Compressing, fin[0]).state, fin[1..]);
    }
  }

  /** The caller of Completion never finishes with input held. */
  lemma CompletionFinishFindsNothing(m: Machine, feed: seq<Call>, fin: seq<Call>, base: int, len: u64)
    requires m.nextIn == base && m.totalIn == 0 && m.heldIn == 0 && len > 0
    requires NoneFinish(feed) && AllFinish(fin)
    requires OffersInside(m, Compressing, feed, len)
    requires Run(m, Compressing, feed).totalIn == len
    ensures FinishFindsNothing(m, feed + fin)
  {
    ReadsStayInside(m, Compressing, feed, base, len);
    FinFindsNothing(Run(m, Compressing, feed), fin);
    FeedHasNoFinish(m, feed, fin);
  }
}
