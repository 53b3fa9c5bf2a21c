/** The streaming core of src/uadk/unizip_algorithm_uadk.c: a zip_stream with its zip_ctl, staging
    blocks and device context. */
module UadkStream {
  import opened Codes
  import opened Words
  import opened UadkDevice
  import opened UadkPlatform

  const DMEMSIZE := 1024 * 1024

  /** The final empty stored block of section 3.2.4 of RFC 1951: BFINAL = 1, BTYPE = 00, LEN = 0, NLEN = ffff. */
  const EMPTY_STORED_BLOCK: seq<byte> := [0x01, 0x00, 0x00, 0xff, 0xff]

  /** What FINISH adds: the ADLER32 of section 2.2 of RFC 1950, or CRC32 and ISIZE of section 2.3.1 of RFC 1952. */
  function Trailer(alg: Alg, checksum: bv32, isize: bv32): (t: seq<byte>)
    ensures |t| <= 8
  {
    match alg
    case Zlib => StoreLE(Swab32(checksum))
    case Gzip => StoreLE(BitReverse(!checksum)) + StoreLE(isize)
    case Unknown => []
  }

  /** The bytes append_store_block writes. */
  function Tail(alg: Alg, flush: Flush, checksum: bv32, isize: bv32): (t: seq<byte>)
    ensures 5 <= |t| <= 13
  {
    EMPTY_STORED_BLOCK + if flush == Finish then Trailer(alg, checksum, isize) else []
  }

  /** The tails a stream gets that is closed before its first device call. */
  lemma FreshTail()
    ensures Tail(Zlib, Finish, 0, 0) == [0x01, 0x00, 0x00, 0xff, 0xff, 0x00, 0x00, 0x00, 0x00]
    ensures Tail(Gzip, Finish, 0, 0)
            == [0x01, 0x00, 0x00, 0xff, 0xff, 0xff, 0xff, 0xff, 0xff, 0x00, 0x00, 0x00, 0x00]
  {
    assert Swab32(0) == 0 && BitReverse(!0) == 0xffffffff;
    assert Low8(0xffffffff) == 0xff && StoreLE(0) == [0, 0, 0, 0];
    assert StoreLE(0xffffffff) == [0xff, 0xff, 0xff, 0xff];
  }

  /** total_in and total_out of a zip_stream. */
  datatype Totals = Totals(i: nat, o: nat)

  /** The first device call restarts the totals. */
  function Restarted(log: Log, t: Totals): Totals {
    if log == Empty then Totals(0, 0) else t
  }

  function Advanced(t: Totals, i: nat, o: nat): Totals {
    Totals(t.i + i, t.o + o)
  }

  /** Data put before the device in one loop: the log and the totals at its start, and the room and
      the mode of every call. */
  datatype Feed = Feed(start: Log, data: seq<byte>, room: nat, flush: Flush, t0: Totals)

  /** One round of an inner loop: the window offered and the rest of it, the code, the bytes left at
      next_out, the totals before and after, what append_store_block would write, and avail_out. */
  datatype Turn = Turn(
    window: seq<byte>, room: nat, flush: Flush, ret: int, have: seq<byte>, rest: seq<byte>,
    t0: Totals, t: Totals, tail: seq<byte>, availOut: nat)

  /** The device is asked with exactly the staged bytes it has not consumed yet; base is what it
      had consumed before they were staged. */
  predicate Asks(req: Request, fed: nat, base: nat, staged: seq<byte>, room: nat, flush: Flush) {
    && base <= fed <= base + |staged|
    && (fed < base + |staged| || staged == [])
    && req == Request(staged[fed - base..], room, flush)
  }

  /** Every call of the loop was asked so; in particular log extends its start. */
  predicate Offered(log: Log, f: Feed) {
    log == f.start || (
      && log.Snoc?
      && Asks(log.last.req, |Fed(log.prev)|, |Fed(f.start)|, f.data, f.room, f.flush)
      && Offered(log.prev, f))
  }

  /** The calls of a loop, the failing last one included, and what they produced up to `upTo`. */
  ghost predicate Pumped(log: Log, f: Feed, upTo: Log, out: seq<byte>) {
    && log != f.start && log.Snoc?
    && Offered(log, f) && Clean(log.prev)
    && Emitted(upTo) == Emitted(f.start) + out
  }

  /** What one round comes to: from a window to what is left of it. */
  ghost predicate RoundResult(b: Behaviour, before: Log, after: Log, r: Turn) {
    && (r.ret >= 0 ==> |r.have| <= DMEMSIZE && r.availOut == Sub64(r.room, |r.have|))
    && if r.window == [] && r.flush == Finish then
         r.ret == UNIZIP_STREAM_END && after == before && r.rest == [] && r.have == r.tail && r.t == Advanced(r.t0, 0, |r.have|)
       else
         && after == Called(b, before, Request(r.window, r.room, r.flush))
         && r.ret == Unified(Verdict(after.last))
         && (r.ret >= 0 ==> CallMoves(b, before, after, r))
  }

  /** A call that does not fail moves bytes and counts them. */
  ghost predicate CallMoves(b: Behaviour, before: Log, after: Log, r: Turn)
    requires after.Snoc?
  {
    && after.last.reply.consumed <= |r.window| && r.have == after.last.reply.produced
    && r.rest == r.window[after.last.reply.consumed..]
    && r.t == Advanced(Restarted(before, r.t0), after.last.reply.consumed, |r.have|)
    && (r.window != [] ==> after.last.reply.consumed > 0 || b.pending(after) < b.pending(before))
  }

  lemma RoundOfTail(b: Behaviour, before: Log, r: Turn)
    requires r.window == [] && r.flush == Finish && r.ret == UNIZIP_STREAM_END && r.rest == []
    requires r.have == r.tail && |r.tail| <= DMEMSIZE && r.availOut == Sub64(r.room, |r.tail|)
    requires r.t.i == r.t0.i && r.t.o == r.t0.o + |r.tail|
    ensures RoundResult(b, before, before, r)
  {
    hide Sub64;
  }

  lemma RoundOfCall(b: Behaviour, before: Log, after: Log, r: Turn)
    requires r.window != [] || r.flush != Finish
    requires after.Snoc? && after == Called(b, before, after.last.req) && after.last.req == Request(r.window, r.room, r.flush)
    requires r.ret == Unified(Verdict(after.last))
    requires r.ret >= 0 ==> CallMoves(b, before, after, r) && |r.have| <= DMEMSIZE && r.availOut == Sub64(r.room, |r.have|)
    ensures RoundResult(b, before, after, r)
  {
    hide Sub64, Unified, Verdict, CallMoves;
  }

  /** What a whole inner loop comes to; tail is what append_store_block writes. */
  ghost predicate PumpResult(f: Feed, log: Log, err: int, out: seq<byte>, tail: seq<byte>, availOut: nat, t: Totals) {
    if f.data == [] && f.flush == Finish then
      && err == UNIZIP_STREAM_END && log == f.start && out == tail
      && t == Advanced(f.t0, 0, |out|) && availOut == Sub64(f.room, |out|)
    else
      && log.Snoc? && err == Unified(Verdict(log.last))
      && Pumped(log, f, if err >= 0 then log else log.prev, out)
      && (err >= 0 ==>
            && Fed(log) == Fed(f.start) + f.data
            && t == Advanced(Restarted(f.start, f.t0), |f.data|, |out|)
            && availOut == Sub64(f.room, |log.last.reply.produced|))
  }

  /** The inner loop between two rounds, with `left` staged bytes unread; the totals are t. */
  ghost predicate Pumping(log: Log, f: Feed, left: nat, out: seq<byte>, t: Totals) {
    && left <= |f.data| && Clean(log) && Offered(log, f)
    && Fed(log) == Fed(f.start) + f.data[..|f.data| - left]
    && Emitted(log) == Emitted(f.start) + out
    && if log == f.start then left == |f.data| && out == [] && t == f.t0
       else 0 < left && log.Snoc? && t == Advanced(Restarted(f.start, f.t0), |f.data| - left, |out|)
  }

  lemma PumpStarts(f: Feed)
    requires Clean(f.start)
    ensures Pumping(f.start, f, |f.data|, [], f.t0)
  {
  }

  /** With nothing left the loop has not begun, and a FINISH round is all there is. */
  lemma PumpNothing(log: Log, f: Feed, out: seq<byte>, t: Totals, have: seq<byte>, availOut: nat)
    requires Pumping(log, f, 0, out, t) && f.flush == Finish
    requires availOut == Sub64(f.room, |have|)
    ensures PumpResult(f, log, UNIZIP_STREAM_END, out + have, have, availOut, Advanced(t, 0, |have|))
  {
    hide Sub64;
    assert [] + have == have;
  }

  lemma {:induction false} OfferedExtends(log: Log, f: Feed)
    requires Offered(log, f)
    ensures Size(f.start) <= Size(log)
    decreases log
  {
    if log != f.start {
      OfferedExtends(log.prev, f);
    }
  }

  lemma NextIsNew(log: Log, next: Log, f: Feed)
    requires Offered(log, f) && next.Snoc? && next.prev == log
    ensures next != f.start
  {
    OfferedExtends(log, f);
    assert Size(next) == Size(log) + 1;
  }

  lemma PumpAdvances(
      log: Log, next: Log, f: Feed, left: nat, out: seq<byte>, t: Totals, t1: Totals,
      err: int, have: seq<byte>, tail: seq<byte>, availOut: nat)
    requires Pumping(log, f, left, out, t) && !(left == 0 && f.flush == Finish)
    requires next.Snoc? && next.prev == log && next.last.req == Request(f.data[|f.data| - left..], f.room, f.flush)
    requires err == Unified(Verdict(next.last))
    requires err >= 0 ==>
               && next.last.reply.consumed <= left && have == next.last.reply.produced
               && t1 == Advanced(Restarted(log, t), next.last.reply.consumed, |have|)
               && availOut == Sub64(f.room, |have|)
    ensures err < 0 ==> PumpResult(f, next, err, out, tail, availOut, t1)
    ensures err >= 0 && next.last.reply.consumed == left ==> PumpResult(f, next, err, out + have, tail, availOut, t1)
    ensures err >= 0 ==>
              next.last.req.window[next.last.reply.consumed..] == f.data[|f.data| - (left - next.last.reply.consumed)..]
    ensures err >= 0 && next.last.reply.consumed < left ==>
              Pumping(next, f, left - next.last.reply.consumed, out + have, t1)
  {
    hide Verdict, Unified, Sub64, Fed, Emitted, Took, Asks, Size;
    var ex := next.last;
    NextIsNew(log, next, f);
    PumpAsks(log, ex, f, left, out, t);
    if err >= 0 {
      PumpMoves(log, ex, f, left, out, t);
      assert f.data[..|f.data|] == f.data;
      SliceTail(f.data, |f.data| - left, left, ex.reply.consumed);
    }
  }

  /** A round inside the loop: over with its result, or going on with progress made. */
  lemma PumpTakesRound(b: Behaviour, log: Log, next: Log, f: Feed, left: nat, copied: seq<byte>, r: Turn)
    requires Pumping(log, f, left, copied, r.t0)
    requires r.window == f.data[|f.data| - left..] && r.room == f.room && r.flush == f.flush
    requires RoundResult(b, log, next, r)
    requires r.ret < 0 ==> r.rest == []
    ensures r.rest == [] ==>
              PumpResult(f, next, r.ret, if r.ret < 0 then copied else copied + r.have, r.tail, r.availOut, r.t)
    ensures r.rest != [] ==>
              && |r.rest| <= left && r.rest == f.data[|f.data| - |r.rest|..]
              && Pumping(next, f, |r.rest|, copied + r.have, r.t)
              && (|r.rest| < left || b.pending(next) < b.pending(log))
  {
    if left == 0 && f.flush == Finish {
      assert r.window == [];
      hide *;
      PumpNothingRound(b, log, next, f, copied, r);
    } else {
      assert |r.window| == left;
      hide PumpResult, Pumping, Advanced, Restarted, Sub64, Verdict, Unified;
      PumpAdvances(log, next, f, left, copied, r.t0, r.t, r.ret, r.have, r.tail, r.availOut);
    }
  }

  lemma PumpNothingRound(b: Behaviour, log: Log, next: Log, f: Feed, copied: seq<byte>, r: Turn)
    requires Pumping(log, f, 0, copied, r.t0) && f.flush == Finish
    requires r.window == [] && r.room == f.room && r.flush == Finish
    requires RoundResult(b, log, next, r)
    ensures r.rest == [] && PumpResult(f, next, r.ret, copied + r.have, r.tail, r.availOut, r.t) && r.ret >= 0
  {
    PumpNothing(log, f, copied, r.t0, r.have, r.availOut);
  }

  lemma PumpAsks(log: Log, ex: Exchange, f: Feed, left: nat, out: seq<byte>, t: Totals)
    requires Pumping(log, f, left, out, t)
    requires ex.req == Request(f.data[|f.data| - left..], f.room, f.flush)
    ensures Asks(ex.req, |Fed(log)|, |Fed(f.start)|, f.data, f.room, f.flush)
  {
    hide Clean, Offered, Emitted;
    assert |Fed(log)| == |Fed(f.start)| + (|f.data| - left);
  }

  lemma PumpMoves(log: Log, ex: Exchange, f: Feed, left: nat, out: seq<byte>, t: Totals)
    requires Pumping(log, f, left, out, t)
    requires ex.req == Request(f.data[|f.data| - left..], f.room, f.flush)
    requires ex.reply.consumed <= left
    ensures Fed(Snoc(log, ex)) == Fed(f.start) + f.data[..|f.data| - left + ex.reply.consumed]
    ensures Emitted(Snoc(log, ex)) == Emitted(f.start) + (out + ex.reply.produced)
  {
    hide Clean, Offered, Fed, Emitted;
    var at := |f.data| - left;
    SnocTotals(log, ex);
    assert Took(ex) == f.data[at..at + ex.reply.consumed];
    assert f.data[..at] + f.data[at..at + ex.reply.consumed] == f.data[..at + ex.reply.consumed];
    Assoc(Fed(f.start), f.data[..at], Took(ex));
    Assoc(Emitted(f.start), out, ex.reply.produced);
  }

  lemma SliceTail(s: seq<byte>, at: nat, n: nat, c: nat)
    requires c <= n && at + n <= |s|
    ensures s[at..at + n][c..] == s[at + c..at + n]
  {
  }

  lemma CleanSnoc(log: Log, ex: Exchange)
    requires Clean(log) && !Faulty(ex)
    ensures Clean(Snoc(log, ex))
  {
  }

  class ZipStream {
    var availIn: nat
    var totalIn: nat
    var availOut: u64
    var totalOut: nat
    const op: OpData
    const dev: Device
    const handles: Handles

    /** The counters of a zip_stream start with whatever memory held. */
    constructor (handles: Handles, alg: Alg, behaviour: Behaviour)
      requires Sound(behaviour) && Progressive(behaviour)
      ensures Valid() && Idle() && ErrorFree() && fresh(Repr())
      ensures dev.log == Empty && dev.behaviour == behaviour && op.algType == alg && this.handles == handles
    {
      this.handles := handles;
      availIn, totalIn, availOut, totalOut := *, *, *, *;
      var src := new byte[DMEMSIZE];
      var out := new byte[DMEMSIZE];
      op := new OpData(src, out, alg);
      dev := new Device(behaviour);
    }

    ghost function Repr(): set<object> {
      {this, op, dev, op.src, op.out}
    }

    ghost predicate Valid()
      reads this, op, dev
    {
      && op.src.Length == DMEMSIZE && op.out.Length == DMEMSIZE && op.src != op.out
      && dev.Valid()
      && op.checksum == (if dev.log == Empty then 0 else dev.log.last.reply.checksum)
      && op.isize == (if dev.log == Empty then 0 else dev.log.last.reply.isize)
    }

    /** No device call has failed so far. */
    ghost predicate ErrorFree()
      reads op, dev
    {
      Clean(dev.log) && op.streamNew == (dev.log == Empty)
    }

    /** Nothing is staged: the input pointer is back at the start of its block. */
    ghost predicate Idle()
      reads op
    {
      op.inPos == 0
    }

    /** The staging invariant: the unread bytes lie inside the block, and at its start once all are read. */
    ghost predicate Staged()
      reads this, op
    {
      op.inPos + availIn <= op.src.Length && (availIn == 0 ==> op.inPos == 0)
    }

    /** The room a call may be given: at least one byte and no more than the block holds, unless the
        call appends a tail, which counts avail_out down whatever it is. */
    predicate Fits(flush: Flush, room: nat)
      reads this
    {
      (availIn == 0 && flush == Finish) || 1 <= room <= DMEMSIZE
    }

    ghost function Window(): seq<byte>
      requires Staged()
      reads this, op, op.src
    {
      op.src[..][op.inPos..op.inPos + availIn]
    }

    /** memcpy of a chunk to next_in, the start of the input block. */
    method Load(chunk: seq<byte>)
      requires Valid() && Idle() && |chunk| <= DMEMSIZE
      modifies `availIn, op.src
      ensures Valid() && Staged() && Window() == chunk
    {
      forall i | 0 <= i < |chunk| {
        op.src[i] := chunk[i];
      }
      availIn := |chunk|;
    }

    method AppendStoreBlock(flush: Flush) returns (c: SendCode)
      requires Valid()
      modifies `availOut, `totalOut, op.out
      ensures Valid() && c == Plain(UNIZIP_STREAM_END)
      ensures var tail := Tail(op.algType, flush, op.checksum, op.isize);
              && op.out[..|tail|] == tail
              && totalOut == old(totalOut) + |tail|
              && availOut == Sub64(old(availOut), |tail|)
    {
      hide Trailer;
      ghost var room := availOut;
      CopyOut(0, EMPTY_STORED_BLOCK);
      totalOut := totalOut + 5;
      availOut := Sub64(availOut, 5);
      c := Plain(UNIZIP_STREAM_END);
      if flush != Finish {
        return;
      }
      AppendTrailer();
      Sub64Twice(room, 5, |Trailer(op.algType, op.checksum, op.isize)|);
    }

    /** The FINISH part of append_store_block, written behind the five bytes of the stored block. */
    method AppendTrailer()
      requires op.out.Length == DMEMSIZE
      modifies `availOut, `totalOut, op.out
      ensures var trailer := Trailer(op.algType, op.checksum, op.isize);
              && op.out[..5 + |trailer|] == old(op.out[..5]) + trailer
              && totalOut == old(totalOut) + |trailer|
              && availOut == Sub64(old(availOut), |trailer|)
    {
      var checksum := op.checksum;
      if op.algType == Zlib {
        checksum := Swab32(checksum);
        CopyOut(5, StoreLE(checksum));
        totalOut := totalOut + 4;
        availOut := Sub64(availOut, 4);
      } else if op.algType == Gzip {
        checksum := !checksum;
        checksum := BitReverse(checksum);
        assert Trailer(op.algType, op.checksum, op.isize) == StoreLE(checksum) + StoreLE(op.isize);
        CopyOut(5, StoreLE(checksum));
        CopyOut(9, StoreLE(op.isize));
        totalOut := totalOut + 8;
        availOut := Sub64(availOut, 8);
      }
    }

    /** memcpy to next_out + at. */
    method CopyOut(at: nat, bytes: seq<byte>)
      requires at + |bytes| <= op.out.Length
      modifies op.out
      ensures op.out[..at] == old(op.out[..at]) && op.out[at..at + |bytes|] == bytes
      ensures op.out[..at + |bytes|] == old(op.out[..at]) + bytes
    {
      forall i | 0 <= i < |bytes| {
        op.out[at + i] := bytes[i];
      }
    }

    /** Books what a device call consumed and produced; the first call restarts the totals. */
    method Account()
      requires op.consumed <= op.inLen
      modifies this, op`inPos, op`streamNew
      ensures !op.streamNew
      ensures availIn == op.inLen - op.consumed && availOut == Sub64(old(availOut), op.produced)
      ensures totalIn == (if old(op.streamNew) then 0 else old(totalIn)) + op.consumed
      ensures totalOut == (if old(op.streamNew) then 0 else old(totalOut)) + op.produced
      ensures op.inPos == if availIn > 0 then old(op.inPos) + op.consumed else 0
    {
      if op.streamNew {
        op.streamNew := false;
        totalOut := 0;
        totalIn := 0;
      }
      availIn := op.inLen - op.consumed;
      availOut := Sub64(availOut, op.produced);
      totalOut := totalOut + op.produced;
      totalIn := totalIn + op.consumed;
      if availIn > 0 {
        op.inPos := op.inPos + op.consumed;
      }
      if availIn == 0 {
        op.inPos := 0;
      }
    }

    /** The device call inside hw_send_and_recv. */
    method CallDevice(flush: Flush) returns (ret: int, ghost ex: Exchange)
      requires Valid() && Staged() && availOut <= DMEMSIZE
      modifies this, op, dev, op.out
      ensures Valid()
      ensures dev.log == Called(dev.behaviour, old(dev.log), ex.req) && ex == dev.log.last
      ensures ex.req == Request(old(Window()), old(availOut), flush)
      ensures ret == ex.reply.code && op.status == ex.reply.status
      ensures ret >= 0 ==>
                && ex.reply.consumed <= old(availIn)
                && Staged() && !op.streamNew
                && Window() == old(Window())[ex.reply.consumed..]
                && totalIn == (if old(op.streamNew) then 0 else old(totalIn)) + ex.reply.consumed
                && totalOut == (if old(op.streamNew) then 0 else old(totalOut)) + |ex.reply.produced|
                && availOut == Sub64(old(availOut), |ex.reply.produced|) && |ex.reply.produced| <= old(availOut)
                && op.out[..|ex.reply.produced|] == ex.reply.produced
    {
      hide Device.Valid;
      op.flush := flush;
      op.inLen := availIn;
      op.availOut := availOut;
      ghost var block, at, n := op.src[..], op.inPos, availIn;
      ret, ex := dev.DoComp(op);
      if ret >= 0 {
        Account();
        assert op.src[..] == block;
        SliceTail(block, at, n, op.consumed);
      }
    }

    /** hw_send_and_recv: one device call, or the stream tail when FINISH finds nothing staged. */
    method SendAndRecv(flush: Flush) returns (c: SendCode)
      requires Valid() && Staged() && ((availIn == 0 && flush == Finish) || availOut <= DMEMSIZE)
      modifies this, op, dev, op.out
      ensures Valid()
      ensures Unified(c) >= 0 ==> Staged()
      ensures old(availIn) == 0 && flush == Finish ==>
                var tail := Tail(op.algType, flush, op.checksum, op.isize);
                && c == Plain(UNIZIP_STREAM_END)
                && dev.log == old(dev.log) && op.streamNew == old(op.streamNew)
                && availIn == 0 && totalIn == old(totalIn)
                && op.out[..|tail|] == tail
                && totalOut == old(totalOut) + |tail| && availOut == Sub64(old(availOut), |tail|)
      ensures !(old(availIn) == 0 && flush == Finish) ==>
                && dev.log.Snoc?
                && var ex := dev.log.last;
                && dev.log == Called(dev.behaviour, old(dev.log), ex.req)
                && ex.req == Request(old(Window()), old(availOut), flush)
                && c == Verdict(ex)
                && (ex.reply.code >= 0 ==>
                      && ex.reply.consumed <= old(availIn)
                      && Staged() && !op.streamNew
                      && Window() == old(Window())[ex.reply.consumed..]
                      && totalIn == (if old(op.streamNew) then 0 else old(totalIn)) + ex.reply.consumed
                      && totalOut == (if old(op.streamNew) then 0 else old(totalOut)) + |ex.reply.produced|
                      && availOut == Sub64(old(availOut), |ex.reply.produced|) && |ex.reply.produced| <= old(availOut)
                      && op.out[..|ex.reply.produced|] == ex.reply.produced)
    {
      if availIn == 0 && flush == Finish {
        c := AppendStoreBlock(flush);
        return;
      }
      var ret, ex := CallDevice(flush);
      if ret < 0 {
        c := Plain(ret);
        return;
      }
      if ret == 3 || (ret == 0 && flush == Finish) {
        c := Plain(UNIZIP_STREAM_END);
      } else if ret == 0 && op.status == VerifyErr {
        c := MinusVerifyErr;
      } else if ret == 0 && op.status == InEpara {
        c := MinusInEpara;
      } else if ret == 0 && op.status == DecompEndNoSpace {
        c := Plain(UNIZIP_STREAM_END);
      } else if ret == 0 && op.status == DecompEnd {
        c := Plain(UNIZIP_STREAM_END);
      } else {
        c := Plain(ret);
      }
    }

    /** hw_deflate and hw_inflate, whose bodies are the same. */
    method Step(flush: Flush) returns (ret: int)
      requires Valid() && Staged() && ((availIn == 0 && flush == Finish) || availOut <= DMEMSIZE)
      modifies this, op, dev, op.out
      ensures Valid()
      ensures ret >= 0 ==> Staged()
      ensures old(availIn) == 0 && flush == Finish ==>
                var tail := Tail(op.algType, flush, op.checksum, op.isize);
                && ret == UNIZIP_STREAM_END
                && dev.log == old(dev.log) && op.streamNew == old(op.streamNew)
                && availIn == 0 && totalIn == old(totalIn)
                && op.out[..|tail|] == tail
                && totalOut == old(totalOut) + |tail| && availOut == Sub64(old(availOut), |tail|)
      ensures !(old(availIn) == 0 && flush == Finish) ==>
                && dev.log.Snoc?
                && var ex := dev.log.last;
                && dev.log == Called(dev.behaviour, old(dev.log), ex.req)
                && ex.req == Request(old(Window()), old(availOut), flush)
                && ret == Unified(Verdict(ex))
                && (ret >= 0 ==>
                      && ex.reply.code >= 0
                      && ex.reply.consumed <= old(availIn)
                      && Staged() && !op.streamNew
                      && Window() == old(Window())[ex.reply.consumed..]
                      && totalIn == (if old(op.streamNew) then 0 else old(totalIn)) + ex.reply.consumed
                      && totalOut == (if old(op.streamNew) then 0 else old(totalOut)) + |ex.reply.produced|
                      && availOut == Sub64(old(availOut), |ex.reply.produced|) && |ex.reply.produced| <= old(availOut)
                      && op.out[..|ex.reply.produced|] == ex.reply.produced)
    {
      var c := SendAndRecv(flush);
      ret := Unified(c);
    }

    /** The turn from a window and totals to the present state. */
    ghost function TurnFrom(window: seq<byte>, room: nat, flush: Flush, t0: Totals, ret: int, have: seq<byte>): Turn
      requires Valid() && (ret >= 0 ==> Staged())
      reads this, op, op.src, dev
    {
      Turn(window, room, flush, ret, have, if ret >= 0 then Window() else [], t0, Totals(totalIn, totalOut),
           Tail(op.algType, flush, op.checksum, op.isize), availOut)
    }

    /** One round of the inner loop: fresh room, a device call, and the copy of what it left at next_out. */
    method Round(flush: Flush, room: u64) returns (ret: int, have: seq<byte>)
      requires Valid() && Staged() && ErrorFree() && Fits(flush, room)
      modifies this, op, dev, op.out
      ensures Valid()
      ensures ret >= 0 ==> Staged() && ErrorFree()
      ensures RoundResult(dev.behaviour, old(dev.log), dev.log,
                          TurnFrom(old(Window()), room, flush, Totals(old(totalIn), old(totalOut)), ret, have))
    {
      hide RoundResult, Trailer, Tail, Verdict, Unified, Valid, Device.Valid, Sub64, Clean;
      ghost var log, window, t0 := dev.log, Window(), Totals(totalIn, totalOut);
      assert |window| == availIn;
      OfferRoom(flush, room);
      ret := Step(flush);
      have := [];
      if ret >= 0 {
        have := Have(room, if window == [] && flush == Finish then |Tail(op.algType, flush, op.checksum, op.isize)|
                           else |dev.log.last.reply.produced|);
      }
      RoundIsTurn(log, window, room, flush, t0, ret, have);
    }

    /** The turn, from what one call of hw_deflate or hw_inflate promises. */
    lemma RoundIsTurn(log: Log, window: seq<byte>, room: u64, flush: Flush, t0: Totals, ret: int, have: seq<byte>)
      requires Valid() && Clean(log) && (ret >= 0 ==> Staged())
      requires window == [] && flush == Finish ==>
                 var tail := Tail(op.algType, flush, op.checksum, op.isize);
                 && ret == UNIZIP_STREAM_END && dev.log == log && op.streamNew == (log == Empty)
                 && availIn == 0 && have == tail
                 && totalIn == t0.i && totalOut == t0.o + |tail| && availOut == Sub64(room, |tail|)
      requires window != [] || flush != Finish ==>
                 && dev.log.Snoc? && dev.log == Called(dev.behaviour, log, dev.log.last.req)
                 && dev.log.last.req == Request(window, room, flush) && ret == Unified(Verdict(dev.log.last))
                 && (window != [] ==> room > 0)
                 && (ret >= 0 ==>
                       && !op.streamNew && |have| <= DMEMSIZE && availOut == Sub64(room, |have|)
                       && dev.log.last.reply.consumed <= |window| && have == dev.log.last.reply.produced
                       && Window() == window[dev.log.last.reply.consumed..]
                       && totalIn == (if log == Empty then 0 else t0.i) + dev.log.last.reply.consumed
                       && totalOut == (if log == Empty then 0 else t0.o) + |have|)
      ensures RoundResult(dev.behaviour, log, dev.log, TurnFrom(window, room, flush, t0, ret, have))
      ensures ret >= 0 ==> ErrorFree()
    {
      hide RoundResult, Trailer, Tail, Verdict, Unified, Valid, Device.Valid, Sub64, Clean;
      var r := TurnFrom(window, room, flush, t0, ret, have);
      if window != [] || flush != Finish {
        if ret >= 0 {
          CleanSnoc(log, dev.log.last);
          RoundProgress(log);
        }
        RoundOfCall(dev.behaviour, log, dev.log, r);
      } else {
        RoundOfTail(dev.behaviour, log, r);
      }
    }

    method OfferRoom(flush: Flush, room: u64)
      requires Valid() && Staged() && Fits(flush, room)
      modifies `availOut
      ensures Valid() && Staged() && availOut == room && Fits(flush, room)
    {
      availOut := room;
    }

    lemma RoundProgress(earlier: Log)
      requires Valid() && dev.log.Snoc? && dev.log == Called(dev.behaviour, earlier, dev.log.last.req)
      requires Unified(Verdict(dev.log.last)) >= 0 && (dev.log.last.req.window != [] ==> dev.log.last.req.room > 0)
      ensures dev.log.last.req.window != [] ==>
                dev.log.last.reply.consumed > 0 || dev.behaviour.pending(dev.log) < dev.behaviour.pending(earlier)
    {
      if dev.log.last.req.window != [] {
        dev.Progress(earlier, dev.log);
      }
    }

    /** The bytes at next_out that the room and avail_out say were written. */
    method Have(room: u64, ghost n: nat) returns (have: seq<byte>)
      requires Valid() && n <= DMEMSIZE && availOut == Sub64(room, n)
      ensures n <= op.out.Length && have == op.out[..n]
    {
      Sub64Back(room, n);
      have := op.out[..Sub64(room, availOut)];
    }

    /** The loop invariant of Pump. */
    ghost predicate InPump(f: Feed, out: seq<byte>)
      reads this, op, dev, op.src
    {
      && Valid() && Staged() && ErrorFree()
      && availIn <= |f.data| && Window() == f.data[|f.data| - availIn..]
      && Pumping(dev.log, f, availIn, out, Totals(totalIn, totalOut))
    }

    /** One round of Pump: either the loop is over, with its result, or it goes on with progress made. */
    method PumpRound(flush: Flush, room: u64, ghost f: Feed, copied: seq<byte>) returns (err: int, out: seq<byte>)
      requires InPump(f, copied) && Fits(flush, room) && f.room == room && f.flush == flush
      modifies this, op, dev, op.out
      ensures Valid() && (err >= 0 ==> Staged() && ErrorFree())
      ensures err < 0 || availIn == 0 ==>
                PumpResult(f, dev.log, err, out, Tail(op.algType, flush, op.checksum, op.isize), availOut, Totals(totalIn, totalOut))
      ensures err >= 0 && availIn > 0 ==>
                && InPump(f, out) && Fits(flush, room)
                && (availIn < old(availIn)
                    || (availIn == old(availIn)
                        && dev.behaviour.pending(dev.log) < old(dev.behaviour.pending(dev.log))))
    {
      hide PumpResult, RoundResult, Pumping, Tail, Valid, ErrorFree;
      ghost var log, left, window, t := dev.log, availIn, Window(), Totals(totalIn, totalOut);
      var have;
      err, have := Round(flush, room);
      PumpTakesRound(dev.behaviour, log, dev.log, f, left, copied, TurnFrom(window, room, flush, t, err, have));
      out := if err < 0 then copied else copied + have;
    }

    /** The inner do-while loop of hw_stream_compress, deflateCB_uadk and inflateCB_uadk: calls the
        device with `room` bytes of output space until nothing staged is left. out is everything
        the caller copies from next_out to its dst. */
    method Pump(flush: Flush, room: u64) returns (err: int, out: seq<byte>)
      requires Valid() && Staged() && Idle() && ErrorFree() && Fits(flush, room)
      modifies this, op, dev, op.out
      ensures Valid()
      ensures err >= 0 ==> ErrorFree() && Idle() && availIn == 0
      ensures PumpResult(Feed(old(dev.log), old(Window()), room, flush, Totals(old(totalIn), old(totalOut))),
                         dev.log, err, out, Tail(op.algType, flush, op.checksum, op.isize), availOut, Totals(totalIn, totalOut))
    {
      ghost var f := Feed(dev.log, Window(), room, flush, Totals(totalIn, totalOut));
      out := [];
      PumpStarts(f);
      hide PumpResult, Pumping, Tail, Valid, ErrorFree;
      while true
        invariant InPump(f, out) && Fits(flush, room)
        decreases availIn, dev.behaviour.pending(dev.log)
      {
        err, out := PumpRound(flush, room, f, out);
        if err < 0 {
          return;
        }
        if availIn == 0 {
          break;
        }
      }
    }
  }

  lemma Sub64Back(room: int, n: int)
    requires 0 <= n < TWO_TO_THE_64 && 0 <= room < TWO_TO_THE_64
    ensures Sub64(room, Sub64(room, n)) == n
    ensures n <= room ==> Sub64(room, n) == room - n
  {
  }
}
