/** deflateCB_uadk and inflateCB_uadk: the zlib-style stream interface on top of the driver. */
module UadkCallback {
  import opened Codes
  import opened Words
  import opened UnizipStream
  import opened UadkDevice
  import opened UadkStream
  import opened UadkOneShot

  const MAX_STREAM_CHUNK := 1024 * 1024
  const DEFLATE_MIN_CHUNK := 256
  const INFLATE_MIN_CHUNK := 32

  /** The device library's own numbers for its modes, which the flush argument may equal by accident;
      nothing is assumed of them. */
  const WCRYPTO_NO_FLUSH: int
  const WCRYPTO_SYNC_FLUSH: int
  const WCRYPTO_FINISH: int

  /** Two flush arguments are translated; any other one reaches the device as it is. */
  function DeviceFlush(flush: int): Flush {
    if flush == Z_FINISH then Finish
    else if flush == Z_NO_FLUSH then NoFlush
    else if flush == WCRYPTO_FINISH then Finish
    else if flush == WCRYPTO_SYNC_FLUSH then SyncFlush
    else if flush == WCRYPTO_NO_FLUSH then NoFlush
    else Untranslated(flush)
  }

  /** NO_FLUSH and FINISH reach the device as such; a FINISH reaches it otherwise only by its own number. */
  lemma DeviceFlushExactly(flush: int)
    ensures flush == Z_NO_FLUSH ==> DeviceFlush(flush) == NoFlush
    ensures DeviceFlush(flush) == Finish <==> flush == Z_FINISH || (flush != Z_NO_FLUSH && flush == WCRYPTO_FINISH)
    ensures flush != Z_NO_FLUSH && flush != Z_FINISH
            && flush != WCRYPTO_NO_FLUSH && flush != WCRYPTO_SYNC_FLUSH && flush != WCRYPTO_FINISH ==>
              DeviceFlush(flush) == Untranslated(flush)
  {
  }

  /** out_stream_chunk: the offered output room, raised to a minimum and cut to one block. */
  function OutChunk(availOut: nat, minimum: nat): (c: nat)
    requires minimum <= MAX_STREAM_CHUNK
    ensures minimum <= c <= MAX_STREAM_CHUNK
  {
    var c := if availOut < minimum then minimum else availOut;
    if c > MAX_STREAM_CHUNK then MAX_STREAM_CHUNK else c
  }

  /** base is what the device had consumed before this call of the callback; it is offered the rest
      of the 1 MB chunk it is in. */
  predicate CallbackAsks(req: Request, fed: nat, base: nat, input: seq<byte>, room: nat, flush: Flush) {
    && base <= fed && (fed - base < |input| || (input == [] && fed == base))
    && var e := ChunkEnd(fed - base, MAX_STREAM_CHUNK, |input|);
    && fed - base <= e
    && req == Request(input[fed - base..e], room, flush)
  }

  predicate CallbackTrace(log: Log, f: Feed) {
    log == f.start || (
      && log.Snoc?
      && CallbackAsks(log.last.req, |Fed(log.prev)|, |Fed(f.start)|, f.data, f.room, f.flush)
      && CallbackTrace(log.prev, f))
  }

  /** A chunk of a callback's input; an empty input has one empty chunk. */
  predicate InputChunk(c: Chunk) {
    (c.Valid() && c.size == MAX_STREAM_CHUNK) || c == Chunk([], MAX_STREAM_CHUNK, 0, 0, 0)
  }

  lemma AskedInInputChunk(req: Request, fed: nat, base: nat, c: Chunk, room: nat, flush: Flush)
    requires InputChunk(c) && Asks(req, fed, base + c.pos, c.src[c.pos..c.end], room, flush)
    ensures CallbackAsks(req, fed, base, c.src, room, flush)
  {
    hide ChunkEnd;
    var off := fed - base;
    if c.src == [] {
      ChunkEndIs(0, 0, MAX_STREAM_CHUNK, 0);
    } else {
      ChunkEndIs(off, c.k, MAX_STREAM_CHUNK, |c.src|);
      assert c.src[c.pos..c.end][off - c.pos..] == c.src[off..c.end];
    }
  }

  lemma {:induction false} ChunkContinuesCallback(log: Log, f: Feed, c: Chunk, piece: Feed)
    requires InputChunk(c) && c.src == f.data && piece.data == c.src[c.pos..c.end]
    requires piece.room == f.room && piece.flush == f.flush
    requires CallbackTrace(piece.start, f) && |Fed(piece.start)| == |Fed(f.start)| + c.pos
    requires Offered(log, piece)
    ensures CallbackTrace(log, f)
    decreases log
  {
    hide Fed, Asks, CallbackAsks;
    if log != piece.start {
      ChunkContinuesCallback(log.prev, f, c, piece);
      AskedInInputChunk(log.last.req, |Fed(log.prev)|, |Fed(f.start)|, c, f.room, f.flush);
    }
  }

  /** The exchanges of a log from `start` on. */
  function CallsSince(log: Log, start: Log): seq<Exchange> {
    if Size(start) <= Size(log) then Calls(log)[Size(start)..] else []
  }

  lemma {:induction false} CallbackRequests(log: Log, f: Feed)
    requires CallbackTrace(log, f)
    ensures Size(f.start) <= Size(log)
    ensures forall ex :: ex in CallsSince(log, f.start) ==> ex.req.room == f.room && ex.req.flush == f.flush
    decreases log
  {
    hide CallbackAsks;
    if log != f.start {
      CallbackRequests(log.prev, f);
      assert log.last.req.room == f.room && log.last.req.flush == f.flush by {
        AsksWithRoom(log.last.req, |Fed(log.prev)|, |Fed(f.start)|, f);
      }
      assert CallsSince(log, f.start) == CallsSince(log.prev, f.start) + [log.last];
    }
  }

  lemma AsksWithRoom(req: Request, fed: nat, base: nat, f: Feed)
    requires CallbackAsks(req, fed, base, f.data, f.room, f.flush)
    ensures req.room == f.room && req.flush == f.flush
  {
  }

  /** Where the chunk loop of a callback stands: `pos` of the input bytes handed over, `out` copied,
      the totals at t. */
  ghost predicate Feeding(log: Log, f: Feed, pos: nat, out: seq<byte>, t: Totals) {
    && pos <= |f.data| && Clean(log) && CallbackTrace(log, f)
    && Fed(log) == Fed(f.start) + f.data[..pos]
    && Emitted(log) == Emitted(f.start) + out
    && if log == f.start then pos == 0 && out == [] && t == f.t0
       else log.Snoc? && Size(f.start) < Size(log) && t == Advanced(Restarted(f.start, f.t0), pos, |out|)
  }

  lemma FeedingStarts(f: Feed)
    requires Clean(f.start)
    ensures Feeding(f.start, f, 0, [], f.t0)
  {
  }

  lemma FeedingAdvances(log: Log, f: Feed, c: Chunk, out: seq<byte>, piece: Feed, got: seq<byte>, t: Totals)
    requires InputChunk(c) && c.src == f.data && piece.data == c.src[c.pos..c.end]
    requires piece.room == f.room && piece.flush == f.flush
    requires Feeding(piece.start, f, c.pos, out, piece.t0) && Clean(log)
    requires Pumped(log, piece, log, got)
    requires Fed(log) == Fed(piece.start) + piece.data && t == Advanced(Restarted(piece.start, piece.t0), |piece.data|, |got|)
    ensures log != f.start && Feeding(log, f, c.end, out + got, t)
  {
    hide Fed, Emitted, Clean, Offered, CallbackTrace;
    assert |Fed(piece.start)| == |Fed(f.start)| + c.pos;
    PumpedIsLonger(log, piece, log, got);
    ChunkContinuesCallback(log, f, c, piece);
    Assoc(Fed(f.start), f.data[..c.pos], piece.data);
    assert f.data[..c.pos] + piece.data == f.data[..c.end];
    Assoc(Emitted(f.start), out, got);
  }

  /** A chunk in which a call fails continues the trace as well. */
  lemma TraceAdvances(log: Log, f: Feed, c: Chunk, out: seq<byte>, piece: Feed, upTo: Log, got: seq<byte>)
    requires InputChunk(c) && c.src == f.data && piece.data == c.src[c.pos..c.end]
    requires piece.room == f.room && piece.flush == f.flush
    requires Feeding(piece.start, f, c.pos, out, piece.t0)
    requires Pumped(log, piece, upTo, got)
    ensures CallbackTrace(log, f)
  {
    hide Fed, Emitted, Clean, Offered, CallbackTrace;
    assert |Fed(piece.start)| == |Fed(f.start)| + c.pos;
    ChunkContinuesCallback(log, f, c, piece);
  }

  lemma PumpedIsLonger(log: Log, f: Feed, upTo: Log, out: seq<byte>)
    requires Pumped(log, f, upTo, out)
    ensures log != f.start && log.Snoc? && Size(f.start) < Size(log)
  {
    OfferedExtends(log.prev, f);
  }

  lemma FeedingTrace(log: Log, f: Feed, pos: nat, out: seq<byte>, t: Totals)
    requires Feeding(log, f, pos, out, t)
    ensures CallbackTrace(log, f)
  {
  }

  /** Everything of the input consumed in order, everything produced copied in order, all of it counted. */
  lemma FeedingTotals(log: Log, f: Feed, out: seq<byte>, t: Totals)
    requires log != f.start && Feeding(log, f, |f.data|, out, t)
    ensures Fed(log) == Fed(f.start) + f.data && Emitted(log) == Emitted(f.start) + out && log.Snoc?
    ensures t == Advanced(Restarted(f.start, f.t0), |f.data|, |out|)
  {
  }

  /** Between calls of a callback: no device call has failed and nothing is staged. */
  ghost predicate Ready(z: ZipStream)
    reads z, z.op, z.dev
  {
    z.Valid() && z.Idle() && z.ErrorFree()
  }

  lemma SplitRest(s: seq<byte>, pos: nat, n: nat)
    requires pos + n <= |s|
    ensures s[pos..][..n] == s[pos..pos + n] && s[pos..][n..] == s[pos + n..]
  {
  }

  /** The chunk loop of deflateCB_uadk, and of inflateCB_uadk on a non-empty input. */
  method FeedChunks(z: ZipStream, input: seq<byte>, flush: Flush, room: nat) returns (err: int, out: seq<byte>)
    requires Ready(z) && 1 <= room <= MAX_STREAM_CHUNK
    requires input != [] || flush != Finish
    modifies z, z.op, z.dev, z.op.src, z.op.out
    ensures z.Valid()
    ensures err >= 0 ==>
              && Ready(z) && z.availIn == 0 && z.dev.log.Snoc? && z.dev.log != old(z.dev.log)
              && Feeding(z.dev.log, Feed(old(z.dev.log), input, room, flush, Totals(old(z.totalIn), old(z.totalOut))),
                         |input|, out, Totals(z.totalIn, z.totalOut))
              && z.availOut == Sub64(room, |z.dev.log.last.reply.produced|)
    ensures z.dev.log.Snoc? && err == Unified(Verdict(z.dev.log.last))
    ensures CallbackTrace(z.dev.log, Feed(old(z.dev.log), input, room, flush, Totals(old(z.totalIn), old(z.totalOut))))
  {
    hide Feeding, Tail, Trailer, Verdict, Unified, Fed, Emitted, Offered, IsRun, Clean, Pumped, ZipStream.Valid, CallbackTrace, Advanced, Restarted, Sub64;
    out := [];
    var rest := input;
    ghost var k, pos, f := 0, 0, Feed(z.dev.log, input, room, flush, Totals(z.totalIn, z.totalOut));
    FeedingStarts(f);
    while true
      invariant Ready(z)
      invariant pos == k * MAX_STREAM_CHUNK && 0 <= pos <= |input| && rest == input[pos..]
      invariant rest != [] || (pos == 0 && input == [])
      invariant Feeding(z.dev.log, f, pos, out, Totals(z.totalIn, z.totalOut))
      decreases |rest|
    {
      ghost var c := Chunk(input, MAX_STREAM_CHUNK, k, pos, if |rest| > MAX_STREAM_CHUNK then pos + MAX_STREAM_CHUNK else |input|);
      ghost var piece := Feed(z.dev.log, input[pos..c.end], room, flush, Totals(z.totalIn, z.totalOut));
      if |rest| > MAX_STREAM_CHUNK {
        SplitRest(input, pos, MAX_STREAM_CHUNK);
        z.Load(rest[..MAX_STREAM_CHUNK]);
        rest := rest[MAX_STREAM_CHUNK..];
      } else {
        z.Load(rest);
        rest := [];
      }
      assert z.Window() == piece.data && rest == input[c.end..];
      var got;
      err, got := z.Pump(flush, room);
      if err < 0 {
        TraceAdvances(z.dev.log, f, c, out, piece, z.dev.log.prev, got);
        return;
      }
      FeedingAdvances(z.dev.log, f, c, out, piece, got, Totals(z.totalIn, z.totalOut));
      out := out + got;
      if |rest| == 0 {
        FeedingTrace(z.dev.log, f, c.end, out, Totals(z.totalIn, z.totalOut));
        break;
      }
      k, pos := k + 1, c.end;
    }
  }

  /** The clamp leaves room for the longest tail whatever the caller's avail_out, so counting it down
      does not wrap around. */
  lemma RoomLeft(availOut: u32, alg: Alg, flush: Flush, checksum: bv32, isize: bv32)
    ensures var room, n := OutChunk(availOut, DEFLATE_MIN_CHUNK), |Tail(alg, flush, checksum, isize)|;
            && n <= room && Trunc32(Sub64(room, n)) == room - n
            && room == if availOut < 256 then 256 else if availOut > 1048576 then 1048576 else availOut
  {
    hide Tail;
  }

  /** The chunk loop of deflateCB_uadk on FINISH without input: nothing is loaded, both loops run once,
      and no device call happens. */
  method CloseStream(z: ZipStream, room: u64) returns (err: int, out: seq<byte>)
    requires Ready(z)
    modifies z, z.op, z.dev, z.op.src, z.op.out
    ensures Ready(z) && z.dev.log == old(z.dev.log)
    ensures err == UNIZIP_STREAM_END && out == Tail(z.op.algType, Finish, z.op.checksum, z.op.isize)
    ensures z.availIn == 0 && z.totalIn == old(z.totalIn) && z.totalOut == old(z.totalOut) + |out|
    ensures z.availOut == Sub64(room, |out|)
  {
    hide Tail, Trailer, Sub64, Device.Valid, Clean, Verdict, Unified, Fed, Emitted, Pumped;
    z.Load([]);
    err, out := z.Pump(Finish, room);
  }

  /** The write-back at the end of both callbacks. */
  function CopyOut(strm: Snapshot, z: ZipStream, input: seq<byte>, out: seq<byte>): Snapshot
    reads z
  {
    Snapshot(strm.nextIn + |input|, Trunc32(z.availIn), z.totalIn, strm.nextOut + |out|, Trunc32(z.availOut), z.totalOut)
  }

  /** What a callback puts before the device. */
  function Offer(start: Log, input: seq<byte>, minimum: nat, flush: int, was: Snapshot): Feed
    requires minimum <= MAX_STREAM_CHUNK
  {
    Feed(start, input, OutChunk(was.availOut, minimum), DeviceFlush(flush), Totals(was.totalIn, was.totalOut))
  }

  /** The outcome of a callback that reached the device and did not fail: the input was consumed in
      order, out is what the device produced, and the counters moved by exactly these amounts. */
  ghost predicate Transferred(log: Log, f: Feed, out: seq<byte>, now: Snapshot, ret: int) {
    && log.Snoc? && log != f.start && ret == Unified(Verdict(log.last))
    && Feeding(log, f, |f.data|, out, Totals(now.totalIn, now.totalOut))
    && now.availOut == Trunc32(Sub64(f.room, |log.last.reply.produced|))
  }

  lemma TransferredIf(log: Log, f: Feed, out: seq<byte>, now: Snapshot, ret: int, availOut: nat)
    requires log.Snoc? && log != f.start && ret == Unified(Verdict(log.last))
    requires Feeding(log, f, |f.data|, out, Totals(now.totalIn, now.totalOut))
    requires availOut == Sub64(f.room, |log.last.reply.produced|) && now.availOut == Trunc32(availOut)
    ensures Transferred(log, f, out, now, ret)
  {
  }

  /** The totals of a callback that reached the device advance by what was moved exactly if the device
      had been called before or the totals stood at zero. */
  lemma TotalsAdvanceExactly(log: Log, f: Feed, out: seq<byte>, now: Snapshot, ret: int)
    requires Transferred(log, f, out, now, ret)
    ensures Totals(now.totalIn, now.totalOut) == Advanced(f.t0, |f.data|, |out|)
            <==> f.start != Empty || f.t0 == Totals(0, 0)
  {
    hide Clean, CallbackTrace, Fed, Emitted, Verdict, Unified;
  }

  // ----- The same in plain terms: requests, room and return codes -----

  /** The room of every device call is the caller's avail_out where that lies between the minimum and
      1 MB, and the nearer of the two bounds otherwise; no call writes more. The flush mode is his too. */
  predicate Requested(calls: seq<Exchange>, availOut: u32, minimum: nat, flush: int) {
    forall ex :: ex in calls ==>
      && (minimum <= availOut <= 1048576 ==> ex.req.room == availOut)
      && (availOut < minimum ==> ex.req.room == minimum)
      && (availOut > 1048576 ==> ex.req.room == 1048576)
      && (flush == Z_NO_FLUSH ==> ex.req.flush == NoFlush)
      && (flush == Z_FINISH ==> ex.req.flush == Finish)
      && (ex.reply.code >= 0 ==>
            |ex.reply.produced| <= (if availOut < minimum then minimum else availOut) && |ex.reply.produced| <= 1048576)
  }

  /** What the last device call makes a callback return: an error exactly on a failure by code or by
      status, the stream end exactly when code, status or a FINISH answered with 0 say so, and
      otherwise the device's own code. */
  predicate Answered(ret: int, last: Exchange) {
    var r, finish := last.reply, last.req.flush == Finish;
    && (ret < 0 <==> r.code < 0 || (r.code == 0 && !finish && (r.status == VerifyErr || r.status == InEpara)))
    && (ret < 0 ==> ret == UNIZIP_STREAM_ERROR)
    && (ret == UNIZIP_STREAM_END <==>
          || r.code == 1 || r.code == 3
          || (r.code == 0 && (finish || r.status == DecompEnd || r.status == DecompEndNoSpace)))
    && (ret >= 0 && ret != UNIZIP_STREAM_END ==> ret == r.code)
  }

  lemma PlainAnswer(ret: int, last: Exchange)
    requires ret == Unified(Verdict(last))
    ensures Answered(ret, last)
  {
    VerdictExactly(last);
  }

  lemma PlainRequests(z: ZipStream, start: Log, input: seq<byte>, minimum: nat, flush: int, was: Snapshot)
    requires z.Valid() && minimum <= MAX_STREAM_CHUNK && CallbackTrace(z.dev.log, Offer(start, input, minimum, flush, was))
    ensures Requested(CallsSince(z.dev.log, start), was.availOut, minimum, flush)
  {
    hide CallbackTrace, IsRun, Calls, Progressive;
    CallbackRequests(z.dev.log, Offer(start, input, minimum, flush, was));
    RunStaysInside(z.dev.behaviour, z.dev.log);
    forall ex | ex in CallsSince(z.dev.log, start)
      ensures ex in Calls(z.dev.log)
    {
    }
  }

  /** Requests, return code and avail_out of a callback that reached the device: avail_out is the room
      less what the last device call wrote. */
  lemma PlainCall(
      z: ZipStream, start: Log, input: seq<byte>, minimum: nat, flush: int, was: Snapshot, out: seq<byte>, now: Snapshot, ret: int)
    requires z.Valid() && minimum <= MAX_STREAM_CHUNK && CallbackTrace(z.dev.log, Offer(start, input, minimum, flush, was))
    requires z.dev.log.Snoc? && ret == Unified(Verdict(z.dev.log.last))
    requires ret >= 0 ==> Transferred(z.dev.log, Offer(start, input, minimum, flush, was), out, now, ret)
    ensures Requested(CallsSince(z.dev.log, start), was.availOut, minimum, flush)
    ensures Answered(ret, z.dev.log.last)
    ensures ret >= 0 ==> now.availOut == z.dev.log.last.req.room - |z.dev.log.last.reply.produced|
  {
    hide CallbackTrace, IsRun, Progressive, Verdict, Unified, Fed, Emitted, Clean, OutChunk, DeviceFlush;
    PlainAnswer(ret, z.dev.log.last);
    PlainRequests(z, start, input, minimum, flush, was);
    if ret >= 0 {
      CallbackRequests(z.dev.log, Offer(start, input, minimum, flush, was));
      assert z.dev.log.last == CallsSince(z.dev.log, start)[Size(z.dev.log) - 1 - Size(start)];
    }
  }

  lemma NoCalls(log: Log, availOut: u32, minimum: nat, flush: int)
    ensures Requested(CallsSince(log, log), availOut, minimum, flush)
  {
  }

  /** deflateCB_uadk; input is the memory at next_in[..avail_in], out what is copied to next_out. */
  method DeflateCB(strm: Strm, z: ZipStream, flush: int, input: seq<byte>) returns (ret: int, out: seq<byte>)
    requires Ready(z) && |input| == strm.availIn
    modifies strm, z, z.op, z.dev, z.op.src, z.op.out
    ensures z.Valid()
    ensures ret >= 0 ==>
              && Ready(z)
              && strm.nextIn == old(strm.nextIn) + |input| && strm.availIn == 0
              && strm.nextOut == old(strm.nextOut) + |out|
    ensures ret >= 0 && !(input == [] && DeviceFlush(flush) == Finish) ==>
              Transferred(z.dev.log, Offer(old(z.dev.log), input, DEFLATE_MIN_CHUNK, flush, old(strm.Now())), out, strm.Now(), ret)
    ensures input == [] && DeviceFlush(flush) == Finish ==>
              && ret == UNIZIP_STREAM_END && z.dev.log == old(z.dev.log)
              && out == Tail(z.op.algType, Finish, z.op.checksum, z.op.isize)
              && strm.totalIn == old(strm.totalIn) && strm.totalOut == old(strm.totalOut) + |out|
              && strm.availOut == (if old(strm.availOut) < 256 then 256
                                   else if old(strm.availOut) > 1048576 then 1048576 else old(strm.availOut)) - |out|
    ensures Requested(CallsSince(z.dev.log, old(z.dev.log)), old(strm.availOut), 256, flush)
    ensures !(input == [] && DeviceFlush(flush) == Finish) ==>
              && z.dev.log.Snoc? && Answered(ret, z.dev.log.last)
              && (ret >= 0 ==> strm.availOut == z.dev.log.last.req.room - |z.dev.log.last.reply.produced|)
    ensures ret < 0 ==> strm.Now() == old(strm.Now()) && z.dev.log.Snoc? && Faulty(z.dev.log.last)
  {
    hide Requested, Answered, CallsSince, Transferred, Feeding, Device.Valid, OutChunk, Trunc32, Sub64, Tail, Trailer, Verdict, Unified, Fed, Emitted, Offered, IsRun, Clean, Pumped, CallbackTrace;
    var room := OutChunk(strm.availOut, DEFLATE_MIN_CHUNK);
    z.totalIn := strm.totalIn;
    z.totalOut := strm.totalOut;
    if input == [] && DeviceFlush(flush) == Finish {
      ret, out := CloseStream(z, room);
      RoomLeft(strm.availOut, z.op.algType, Finish, z.op.checksum, z.op.isize);
      NoCalls(z.dev.log, strm.availOut, DEFLATE_MIN_CHUNK, flush);
    } else {
      ghost var start, was := z.dev.log, strm.Now();
      ret, out := FeedChunks(z, input, DeviceFlush(flush), room);
      ghost var now := CopyOut(was, z, input, out);
      if ret >= 0 {
        TransferredIf(z.dev.log, Offer(start, input, DEFLATE_MIN_CHUNK, flush, was), out, now, ret, z.availOut);
      }
      PlainCall(z, start, input, DEFLATE_MIN_CHUNK, flush, was, out, now, ret);
      if ret < 0 {
        return;
      }
    }
    strm.Set(CopyOut(strm.Now(), z, input, out));
  }

  /** inflateCB_uadk. */
  method InflateCB(strm: Strm, z: ZipStream, flush: int, input: seq<byte>) returns (ret: int, out: seq<byte>)
    requires Ready(z) && |input| == strm.availIn
    modifies strm, z, z.op, z.dev, z.op.src, z.op.out
    ensures z.Valid()
    ensures ret >= 0 ==>
              && Ready(z)
              && strm.nextIn == old(strm.nextIn) + |input| && strm.availIn == 0
              && strm.nextOut == old(strm.nextOut) + |out|
    ensures ret >= 0 && input != [] ==>
              Transferred(z.dev.log, Offer(old(z.dev.log), input, INFLATE_MIN_CHUNK, flush, old(strm.Now())), out, strm.Now(), ret)
    ensures input == [] ==>
              && ret == UNIZIP_STREAM_END && z.dev.log == old(z.dev.log) && out == []
              && strm.totalIn == old(strm.totalIn) && strm.totalOut == old(strm.totalOut)
              && strm.availOut == Trunc32(old(z.availOut))   // left over from the call before
    ensures Requested(CallsSince(z.dev.log, old(z.dev.log)), old(strm.availOut), 32, flush)
    ensures input != [] ==>
              && z.dev.log.Snoc? && Answered(ret, z.dev.log.last)
              && (ret >= 0 ==> strm.availOut == z.dev.log.last.req.room - |z.dev.log.last.reply.produced|)
    ensures ret < 0 ==> strm.Now() == old(strm.Now()) && z.dev.log.Snoc? && Faulty(z.dev.log.last)
  {
    hide Requested, Answered, CallsSince, Transferred, Feeding, Device.Valid, OutChunk, Trunc32, Sub64, Tail, Trailer, Verdict, Unified, Fed, Emitted, Offered, IsRun, Clean, Pumped, CallbackTrace;
    var room := OutChunk(strm.availOut, INFLATE_MIN_CHUNK);
    z.totalIn := strm.totalIn;
    z.totalOut := strm.totalOut;
    if input == [] {
      z.Load([]);
      ret, out := UNIZIP_STREAM_END, [];
      NoCalls(z.dev.log, strm.availOut, INFLATE_MIN_CHUNK, flush);
    } else {
      ghost var start, was := z.dev.log, strm.Now();
      ret, out := FeedChunks(z, input, DeviceFlush(flush), room);
      ghost var now := CopyOut(was, z, input, out);
      if ret >= 0 {
        TransferredIf(z.dev.log, Offer(start, input, INFLATE_MIN_CHUNK, flush, was), out, now, ret, z.availOut);
      }
      PlainCall(z, start, input, INFLATE_MIN_CHUNK, flush, was, out, now, ret);
      if ret < 0 {
        return;
      }
    }
    strm.Set(CopyOut(strm.Now(), z, input, out));
  }

  /** Every device call since start had input. */
  predicate InputSince(log: Log, start: Log) {
    log == start || (log.Snoc? && log.last.req.window != [] && InputSince(log.prev, start))
  }

  /** On a non-empty input no call of a callback, inflating or deflating, can append a tail. */
  lemma {:induction false} NonEmptyInputNeverAppends(log: Log, f: Feed)
    requires f.data != [] && CallbackTrace(log, f)
    ensures InputSince(log, f.start)
    decreases log
  {
    if log != f.start {
      NonEmptyInputNeverAppends(log.prev, f);
      var off := |Fed(log.prev)| - |Fed(f.start)|;
      assert off < ChunkEnd(off, MAX_STREAM_CHUNK, |f.data|);
    }
  }
}
