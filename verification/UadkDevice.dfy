/** The accelerator behind wcrypto_do_comp, known only through the exchanges it has with its driver.
    A behaviour answers every request as an arbitrary function of everything exchanged so far,
    so a statement about all behaviours is a statement about all consume/produce schedules. */
module UadkDevice {
  import opened Codes
  import opened Words

  /** The wrapper formats; any other alg_type value is Unknown. */
  datatype Alg = Zlib | Gzip | Unknown

  datatype Direction = Deflate | Inflate

  /** Device flush modes; flush arguments without a translation are passed on unchanged. */
  datatype Flush = NoFlush | SyncFlush | Finish | Untranslated(code: int)

  datatype Status = Fine | VerifyErr | InEpara | DecompEnd | DecompEndNoSpace

  /** What the device sees of one call: the bytes at opdata->in, the room at opdata->out, the mode. */
  datatype Request = Request(window: seq<byte>, room: nat, flush: Flush)

  /** What the device does in one call, and the registers it reports. */
  datatype Reply = Reply(code: int, consumed: nat, produced: seq<byte>, status: Status, checksum: bv32, isize: bv32)

  datatype Exchange = Exchange(req: Request, reply: Reply)

  /** The exchanges so far, latest last. */
  datatype Log = Empty | Snoc(prev: Log, last: Exchange)

  /** pending bounds the output calls the device may still spend without consuming input. */
  datatype Behaviour = Behaviour(answer: (Log, Request) -> Reply, pending: Log -> nat)

  // ----- The contract of a device -----

  /** A call that does not fail stays within the input and the room it was given. */
  ghost predicate Sound(b: Behaviour) {
    forall log: Log, req: Request ::
      var r := b.answer(log, req);
      r.code >= 0 ==> r.consumed <= |req.window| && |r.produced| <= req.room
  }

  /** The log after one more call. */
  function Called(b: Behaviour, log: Log, req: Request): Log {
    Snoc(log, Exchange(req, b.answer(log, req)))
  }

  /** A call with input and room consumes something or drains something. */
  ghost predicate Progressive(b: Behaviour) {
    forall log: Log, req: Request {:trigger b.pending(Called(b, log, req))} ::
      var r := b.answer(log, req);
      r.code >= 0 && req.window != [] && req.room > 0 ==>
        r.consumed > 0 || b.pending(Called(b, log, req)) < b.pending(log)
  }

  // ----- Logs of exchanges -----

  /** Every reply in the log is the one the behaviour gives. */
  predicate IsRun(b: Behaviour, log: Log) {
    log == Empty || (log == Called(b, log.prev, log.last.req) && IsRun(b, log.prev))
  }

  function Took(ex: Exchange): seq<byte> {
    if ex.reply.consumed <= |ex.req.window| then ex.req.window[..ex.reply.consumed] else []
  }

  /** Everything the device has consumed, in order. */
  function Fed(log: Log): seq<byte> {
    if log == Empty then [] else Fed(log.prev) + Took(log.last)
  }

  /** Everything the device has produced, in order. */
  function Emitted(log: Log): seq<byte> {
    if log == Empty then [] else Emitted(log.prev) + log.last.reply.produced
  }

  /** Status codes hw_send_and_recv returns; the two negated wd.h constants are kept symbolic. */
  datatype SendCode = Plain(n: int) | MinusVerifyErr | MinusInEpara

  /** The code of one device call as hw_send_and_recv classifies it. */
  function Verdict(ex: Exchange): SendCode {
    var code, status := ex.reply.code, ex.reply.status;
    if code < 0 then Plain(code)
    else if code == 3 || (code == 0 && ex.req.flush == Finish) then Plain(UNIZIP_STREAM_END)
    else if code != 0 then Plain(code)
    else match status
      case VerifyErr => MinusVerifyErr
      case InEpara => MinusInEpara
      case DecompEndNoSpace => Plain(UNIZIP_STREAM_END)
      case DecompEnd => Plain(UNIZIP_STREAM_END)
      case Fine => Plain(UNIZIP_OK)
  }

  /** What hw_deflate and hw_inflate make of it. */
  function Unified(c: SendCode): (ret: int)
    ensures ret >= 0 || ret == UNIZIP_STREAM_ERROR
  {
    match c
    case Plain(n) => if n < 0 then UNIZIP_STREAM_ERROR else n
    case MinusVerifyErr => UNIZIP_STREAM_ERROR
    case MinusInEpara => UNIZIP_STREAM_ERROR
  }

  predicate Faulty(ex: Exchange) {
    Unified(Verdict(ex)) < 0
  }

  predicate Ends(ex: Exchange) {
    Unified(Verdict(ex)) == UNIZIP_STREAM_END
  }

  predicate Clean(log: Log) {
    log == Empty || (!Faulty(log.last) && Clean(log.prev))
  }

  /** The exchanges of a log, in order. */
  function Calls(log: Log): (s: seq<Exchange>)
    ensures |s| == Size(log)
  {
    if log == Empty then [] else Calls(log.prev) + [log.last]
  }

  /** What a reply means, read off its code, its status and the flush mode it answers. A FINISH that
      comes back with code 0 is a stream end whatever the status says. */
  lemma VerdictExactly(ex: Exchange)
    ensures var r, finish := ex.reply, ex.req.flush == Finish;
            && (Faulty(ex) <==> r.code < 0 || (r.code == 0 && !finish && (r.status == VerifyErr || r.status == InEpara)))
            && (Ends(ex) <==>
                  || r.code == 1 || r.code == 3
                  || (r.code == 0 && (finish || r.status == DecompEnd || r.status == DecompEndNoSpace)))
            && (Faulty(ex) ==> Unified(Verdict(ex)) == UNIZIP_STREAM_ERROR)
            && (!Faulty(ex) && !Ends(ex) ==> Unified(Verdict(ex)) == r.code)
  {
  }

  /** A log is clean if and only if none of its replies is a failure by code or by status. */
  lemma {:induction false} CleanExactly(log: Log)
    ensures Clean(log) <==>
              forall ex :: ex in Calls(log) ==>
                && ex.reply.code >= 0
                && (ex.reply.code == 0 && ex.req.flush != Finish ==> ex.reply.status != VerifyErr && ex.reply.status != InEpara)
  {
    hide Faulty;
    if log.Snoc? {
      CleanExactly(log.prev);
      VerdictExactly(log.last);
      assert log.last in Calls(log);
      forall ex | ex in Calls(log)
        ensures ex in Calls(log.prev) || ex == log.last
      {
      }
    }
  }

  /** In a run of a sound device no call that does not fail goes beyond its window or its room. */
  lemma {:induction false} RunStaysInside(b: Behaviour, log: Log)
    requires Sound(b) && IsRun(b, log)
    ensures forall ex :: ex in Calls(log) && ex.reply.code >= 0 ==>
              ex.reply.consumed <= |ex.req.window| && |ex.reply.produced| <= ex.req.room
  {
    if log.Snoc? {
      RunStaysInside(b, log.prev);
      assert log.last.reply == b.answer(log.prev, log.last.req);
    }
  }

  lemma SnocTotals(log: Log, ex: Exchange)
    ensures Fed(Snoc(log, ex)) == Fed(log) + Took(ex)
    ensures Emitted(Snoc(log, ex)) == Emitted(log) + ex.reply.produced
  {
  }

  lemma Assoc(a: seq<byte>, b: seq<byte>, c: seq<byte>)
    ensures a + b + c == a + (b + c)
  {
  }

  lemma CodeOfGoodCall(ex: Exchange)
    requires Unified(Verdict(ex)) >= 0
    ensures ex.reply.code >= 0
  {
  }

  function Size(log: Log): nat {
    if log == Empty then 0 else 1 + Size(log.prev)
  }

  // ----- The call interface -----

  /** struct wcrypto_comp_op_data. */
  class OpData {
    const src: array<byte>
    const out: array<byte>
    const algType: Alg
    var inPos: nat           // opdata->in, relative to the start of its block
    var inLen: nat
    var availOut: nat
    var consumed: nat
    var produced: nat
    var flush: Flush
    var streamNew: bool      // stream_pos is WCRYPTO_COMP_STREAM_NEW
    var status: Status
    var checksum: bv32
    var isize: bv32

    constructor (src: array<byte>, out: array<byte>, algType: Alg)
      ensures this.src == src && this.out == out && this.algType == algType
      ensures inPos == 0 && streamNew && checksum == 0 && isize == 0
    {
      this.src, this.out, this.algType := src, out, algType;
      inPos, inLen, availOut, consumed, produced := 0, 0, 0, 0, 0;
      flush, streamNew, status, checksum, isize := NoFlush, true, Fine, 0, 0;
    }
  }

  class Device {
    const behaviour: Behaviour
    var log: Log

    constructor (behaviour: Behaviour)
      ensures this.behaviour == behaviour && log == Empty
    {
      this.behaviour, log := behaviour, Empty;
    }

    ghost predicate Valid()
      reads this
    {
      Sound(behaviour) && Progressive(behaviour) && IsRun(behaviour, log)
    }

    lemma Progress(earlier: Log, later: Log)
      requires Valid() && later.Snoc? && later == Called(behaviour, earlier, later.last.req)
      requires Unified(Verdict(later.last)) >= 0 && later.last.req.window != [] && later.last.req.room > 0
      ensures later.last.reply.consumed > 0 || behaviour.pending(later) < behaviour.pending(earlier)
    {
      CodeOfGoodCall(later.last);
    }

    /** wcrypto_do_comp: reads the window at op.inPos, writes op.out, reports through op. */
    method DoComp(op: OpData) returns (ret: int, ghost ex: Exchange)
      requires Valid()
      requires op.inPos + op.inLen <= op.src.Length && op.availOut <= op.out.Length
      requires op.src != op.out
      modifies `log, op`consumed, op`produced, op`status, op`checksum, op`isize, op.out
      ensures Valid()
      ensures ex.req == Request(old(op.src[..])[op.inPos..op.inPos + op.inLen], op.availOut, op.flush)
      ensures log == Snoc(old(log), ex) && log == Called(behaviour, old(log), ex.req)
      ensures ret == ex.reply.code
      ensures op.consumed == ex.reply.consumed && op.produced == |ex.reply.produced|
      ensures op.status == ex.reply.status && op.checksum == ex.reply.checksum && op.isize == ex.reply.isize
      ensures ret >= 0 ==> op.consumed <= op.inLen && op.produced <= op.availOut
      ensures ret >= 0 ==> op.out[..op.produced] == ex.reply.produced
    {
      var req := Request(op.src[..][op.inPos..op.inPos + op.inLen], op.availOut, op.flush);
      var r := behaviour.answer(log, req);
      ex := Exchange(req, r);
      log := Snoc(log, Exchange(req, r));
      ret := r.code;
      op.consumed, op.produced := r.consumed, |r.produced|;
      op.status, op.checksum, op.isize := r.status, r.checksum, r.isize;
      if ret >= 0 {
        forall i | 0 <= i < |r.produced| {
          op.out[i] := r.produced[i];
        }
      }
    }
  }
}
