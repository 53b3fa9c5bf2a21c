/** hw_stream_compress and hw_stream_decompress. */
module UadkOneShot {
  import opened Codes
  import opened Words
  import opened UadkDevice
  import opened UadkPlatform
  import opened UadkStream
  import opened UadkLifecycle

  // ----- What the device is asked, call by call -----

  /** The end of the chunk that offset `off` of a source of n bytes lies in. */
  function ChunkEnd(off: nat, chunk: nat, n: nat): nat
    requires chunk > 0
  {
    var e := (off / chunk + 1) * chunk;
    if e < n then e else n
  }

  /** The device is offered the rest of the chunk it is in; FINISH marks the last chunk and no other. */
  predicate CompressAsks(req: Request, fed: nat, src: seq<byte>, chunk: nat)
    requires chunk > 0
  {
    && fed < |src|
    && var e := ChunkEnd(fed, chunk, |src|);
    && fed <= e
    && req == Request(src[fed..e], chunk, if e == |src| then Finish else SyncFlush)
  }

  /** Every call of a compression run; the offsets are what the device had consumed by then. */
  predicate CompressTrace(log: Log, src: seq<byte>, chunk: nat)
    requires chunk > 0
  {
    log == Empty || (CompressAsks(log.last.req, |Fed(log.prev)|, src, chunk) && CompressTrace(log.prev, src, chunk))
  }

  lemma DivisionBounds(a: nat, c: nat)
    requires c > 0
    ensures a / c * c <= a < a / c * c + c && (a / c + 1) * c == a / c * c + c
  {
    assert a == a / c * c + a % c;
  }

  lemma ChunkOf(off: nat, k: nat, chunk: nat)
    requires chunk > 0 && k * chunk <= off < k * chunk + chunk
    ensures off / chunk == k && (off / chunk + 1) * chunk == k * chunk + chunk
  {
    var q := off / chunk;
    DivisionBounds(off, chunk);
    assert (k + 1) * chunk == k * chunk + chunk;
    MulMonotone(k + 1, q, chunk);
    MulMonotone(q + 1, k, chunk);
  }

  /** Offsets inside chunk k end their chunk where chunk k ends. */
  lemma ChunkEndIs(off: nat, k: nat, chunk: nat, n: nat)
    requires chunk > 0 && k * chunk <= off < k * chunk + chunk
    ensures ChunkEnd(off, chunk, n) == if k * chunk + chunk < n then k * chunk + chunk else n
  {
    ChunkOf(off, k, chunk);
  }

  /** Chunk k of a source that is staged `size` bytes at a time. */
  datatype Chunk = Chunk(src: seq<byte>, size: nat, k: nat, pos: nat, end: nat) {
    predicate Valid() {
      && size > 0 && pos == k * size && pos < end <= |src|
      && end == if pos + size < |src| then pos + size else |src|
    }

    function Bytes(): seq<byte>
      requires Valid()
    {
      src[pos..end]
    }

    function CompressFlush(): Flush {
      if end == |src| then Finish else SyncFlush
    }
  }

  lemma AskedInChunk(req: Request, fed: nat, c: Chunk)
    requires c.Valid() && Asks(req, fed, c.pos, c.Bytes(), c.size, c.CompressFlush())
    ensures CompressAsks(req, fed, c.src, c.size)
  {
    hide ChunkEnd;
    ChunkEndIs(fed, c.k, c.size, |c.src|);
    assert c.Bytes()[fed - c.pos..] == c.src[fed..c.end];
  }

  /** The calls of one inner loop, seen from the whole source. */
  lemma {:induction false} ChunkContinuesTrace(log: Log, c: Chunk, f: Feed)
    requires c.Valid() && f.data == c.Bytes() && f.room == c.size && f.flush == c.CompressFlush()
    requires CompressTrace(f.start, c.src, c.size) && |Fed(f.start)| == c.pos
    requires Offered(log, f)
    ensures CompressTrace(log, c.src, c.size)
    decreases log
  {
    hide Fed, Asks, CompressAsks;
    if log != f.start {
      ChunkContinuesTrace(log.prev, c, f);
      AskedInChunk(log.last.req, |Fed(log.prev)|, c);
    }
  }

  /** src and srclen are one sequence; dst is what the routine writes at dst, and |dst| is *dstlen. Only
      an empty source is compressed whatever the chunk size: no chunk is staged for it. */
  method StreamCompress(p: Platform, alg: Alg, blksize: int, src: seq<byte>)
    returns (ret: int, dst: seq<byte>, ghost log: Log)
    requires p.Valid() && blksize < 0x8000_0000
    requires src != [] && blksize >= 0 ==> 1 <= blksize <= DMEMSIZE
    modifies p
    ensures p.Valid() && p.live == old(p.live)
    ensures blksize < 0 ==> ret == UNIZIP_DATA_ERROR && dst == [] && log == Empty
    ensures blksize >= 0 && !AllGranted(p.grants, old(p.clock)) ==>
              ret in {UNIZIP_DATA_ERROR, UNIZIP_MEM_ERROR} && dst == [] && log == Empty
    ensures blksize >= 0 && AllGranted(p.grants, old(p.clock)) ==> p.clock == old(p.clock) + 8
    ensures blksize >= 0 && AllGranted(p.grants, old(p.clock)) && src == [] ==>
              && ret == UNIZIP_OK && log == Empty
              && dst == if alg == Zlib then [0x01, 0x00, 0x00, 0xff, 0xff, 0x00, 0x00, 0x00, 0x00]
                        else [0x01, 0x00, 0x00, 0xff, 0xff, 0xff, 0xff, 0xff, 0xff, 0x00, 0x00, 0x00, 0x00]
    ensures blksize > 0 && AllGranted(p.grants, old(p.clock)) && src != [] ==>
              CompressOutcome(p.codec(if alg == Zlib then Zlib else Gzip, Deflate), blksize, src, ret, dst, log)
    ensures blksize > 0 && AllGranted(p.grants, old(p.clock)) && src != [] ==>
              var last := log.last;
              && (ret == UNIZIP_STREAM_ERROR <==>
                    || last.reply.code < 0
                    || (last.reply.code == 0 && last.req.flush != Finish
                        && (last.reply.status == VerifyErr || last.reply.status == InEpara)))
              && (ret != UNIZIP_STREAM_ERROR ==> ret == UNIZIP_OK)
  {
    hide CompressOutcome, ZipStream.Valid, ZipStream.ErrorFree, Tail;
    dst, log := [], Empty;
    if blksize < 0 {
      return UNIZIP_DATA_ERROR, dst, log;
    }
    var z;
    if alg == Zlib {
      ret, z := HwInit(p, DeflateWrapper(15), Deflate);
    } else {
      ret, z := HwInit(p, DeflateWrapper(31), Deflate);
    }
    if ret != UNIZIP_OK {
      return;
    }
    ret, dst := CompressChunks(z, blksize, src);
    log := z.dev.log;
    FreshTail();
    if src != [] {
      CompressAnswer(z.dev.behaviour, blksize, src, ret, dst, log);
    }
    HwEnd(p, z);
  }

  /** What a compression run with all resources granted comes to, for a non-empty source. */
  ghost predicate CompressOutcome(b: Behaviour, chunk: nat, src: seq<byte>, ret: int, dst: seq<byte>, log: Log)
    requires chunk > 0
  {
    && log.Snoc? && IsRun(b, log) && CompressTrace(log, src, chunk) && Clean(log.prev)
    && (ret == UNIZIP_OK <==> !Faulty(log.last))
    && (ret == UNIZIP_OK ==> Fed(log) == src && Emitted(log) == dst)
    && (ret != UNIZIP_OK ==> ret == UNIZIP_STREAM_ERROR && Emitted(log.prev) == dst)
  }

  /** The result code, read off the replies: an error exactly if the last one is a failure by code or by
      status, and no earlier one is. */
  lemma CompressAnswer(b: Behaviour, chunk: nat, src: seq<byte>, ret: int, dst: seq<byte>, log: Log)
    requires chunk > 0 && CompressOutcome(b, chunk, src, ret, dst, log)
    ensures var last := log.last;
            && (ret == UNIZIP_STREAM_ERROR <==>
                  || last.reply.code < 0
                  || (last.reply.code == 0 && last.req.flush != Finish
                      && (last.reply.status == VerifyErr || last.reply.status == InEpara)))
            && (ret != UNIZIP_STREAM_ERROR ==> ret == UNIZIP_OK)
    ensures forall ex :: ex in Calls(if ret == UNIZIP_OK then log else log.prev) ==>
              && ex.reply.code >= 0
              && (ex.reply.code == 0 && ex.req.flush != Finish ==> ex.reply.status != VerifyErr && ex.reply.status != InEpara)
  {
    hide Faulty, CompressTrace, IsRun, Fed, Emitted;
    VerdictExactly(log.last);
    CleanExactly(log);
    CleanExactly(log.prev);
  }

  /** The nested loops of hw_stream_compress. */
  method CompressChunks(z: ZipStream, chunk: nat, src: seq<byte>) returns (ret: int, dst: seq<byte>)
    requires z.Valid() && z.Idle() && z.ErrorFree() && z.dev.log == Empty && chunk < 0x8000_0000
    requires src != [] ==> 1 <= chunk <= DMEMSIZE
    modifies z, z.op, z.dev, z.op.src, z.op.out
    ensures z.Valid()
    ensures src == [] ==> ret == UNIZIP_OK && z.dev.log == Empty && dst == Tail(z.op.algType, Finish, 0, 0)
    ensures src != [] ==> CompressOutcome(z.dev.behaviour, chunk, src, ret, dst, z.dev.log)
  {
    hide CompressTrace, Offered, Tail, Trailer, Verdict, Unified, Fed, Emitted, IsRun, Clean, Pumped;
    dst := [];
    var rest := src;
    ghost var k, pos := 0, 0;
    TraceStarts(src, chunk);
    while true
      invariant z.Valid() && z.Idle() && z.ErrorFree()
      invariant pos == k * chunk && pos <= |src| && rest == src[pos..]
      invariant rest != [] || (pos == 0 && src == [])
      invariant src != [] ==> CompressTrace(z.dev.log, src, chunk)
      invariant Fed(z.dev.log) == src[..pos] && Emitted(z.dev.log) == dst
      invariant pos == 0 ==> z.dev.log == Empty && dst == []
      decreases |rest|
    {
      ghost var start, c := z.dev.log, Chunk(src, chunk, k, pos, if |rest| > chunk then pos + chunk else |src|);
      ghost var t0 := Totals(z.totalIn, z.totalOut);
      if |rest| > chunk {
        z.Load(rest[..chunk]);
        rest := rest[chunk..];
      } else {
        z.Load(rest);
        rest := [];
      }
      ghost var staged := z.Window();
      assert staged == src[pos..c.end] && rest == src[c.end..];
      var flush := if |rest| != 0 then SyncFlush else Finish;
      var out;
      ret, out := z.Pump(flush, chunk);
      dst := dst + out;
      if src != [] {
        ChunkDone(z.dev.log, c, Feed(start, staged, chunk, flush, t0), if ret >= 0 then z.dev.log else z.dev.log.prev, out);
      }
      if ret < 0 {
        RunOf(z);
        return;
      }
      assert src[..pos] + src[pos..c.end] == src[..c.end];
      if flush == Finish {
        assert src[..c.end] == src;
        break;
      }
      NextChunk(k, chunk);
      k, pos := k + 1, c.end;
    }
    RunOf(z);
    ret := UNIZIP_OK;
  }

  lemma RunOf(z: ZipStream)
    requires z.Valid()
    ensures IsRun(z.dev.behaviour, z.dev.log)
  {
  }

  lemma ChunkDone(log: Log, c: Chunk, f: Feed, upTo: Log, out: seq<byte>)
    requires c.Valid() && f.data == c.Bytes() && f.room == c.size && f.flush == c.CompressFlush()
    requires CompressTrace(f.start, c.src, c.size) && Fed(f.start) == c.src[..c.pos]
    requires Pumped(log, f, upTo, out)
    ensures CompressTrace(log, c.src, c.size) && Clean(log.prev) && log.Snoc?
    ensures Emitted(upTo) == Emitted(f.start) + out
  {
    hide CompressTrace, Offered, Fed, Emitted, Clean;
    ChunkContinuesTrace(log, c, f);
  }

  lemma NextChunk(k: nat, chunk: nat)
    ensures k * chunk + chunk == (k + 1) * chunk
  {
  }

  lemma TraceStarts(src: seq<byte>, chunk: nat)
    ensures chunk > 0 ==> CompressTrace(Empty, src, chunk)
    ensures Fed(Empty) == [] && Emitted(Empty) == []
  {
  }

  // ----- Flush flags of a compression run -----

  lemma ChunkEndMonotone(a: nat, b: nat, chunk: nat, n: nat)
    requires chunk > 0 && a <= b
    ensures ChunkEnd(a, chunk, n) <= ChunkEnd(b, chunk, n) <= n
  {
    DivisionBounds(a, chunk);
    DivisionBounds(b, chunk);
    MulMonotone(b / chunk + 1, a / chunk, chunk);
    MulMonotone(a / chunk, b / chunk, chunk);
  }

  /** Once a call carries FINISH, every later call does. */
  predicate FinishStays(log: Log) {
    log == Empty || log.prev == Empty
    || ((log.prev.last.req.flush == Finish ==> log.last.req.flush == Finish) && FinishStays(log.prev))
  }

  /** The flags of a run form SYNC* FINISH+, with FINISH from the first call of the last chunk on. */
  lemma {:induction false} FlushPattern(log: Log, src: seq<byte>, chunk: nat)
    requires chunk > 0 && CompressTrace(log, src, chunk)
    ensures FinishStays(log)
    ensures log.Snoc? && Fed(log) == src ==> log.last.req.flush == Finish
  {
    if log.Snoc? {
      FlushPattern(log.prev, src, chunk);
      var fed := |Fed(log.prev)|;
      if log.prev.Snoc? {
        ChunkEndMonotone(|Fed(log.prev.prev)|, fed, chunk, |src|);
        ChunkEndMonotone(fed, fed, chunk, |src|);
      }
      if Fed(log) == src {
        assert |src| <= fed + |log.last.req.window|;
        ChunkEndMonotone(fed, fed, chunk, |src|);
      }
    }
  }

  // ----- Decompression -----

  predicate DecompressAsks(req: Request, fed: nat, src: seq<byte>, chunk: nat)
    requires chunk > 0
  {
    && fed < |src|
    && var e := ChunkEnd(fed, chunk, |src|);
    && fed <= e
    && req == Request(src[fed..e], chunk, SyncFlush)
  }

  /** The call after which hw_stream_decompress looks no further: stream end with nothing staged left. */
  predicate Stopping(ex: Exchange) {
    Ends(ex) && ex.reply.consumed == |ex.req.window|
  }

  predicate DecompressTrace(log: Log, src: seq<byte>, chunk: nat)
    requires chunk > 0
  {
    log == Empty || (
      && DecompressAsks(log.last.req, |Fed(log.prev)|, src, chunk)
      && (log.prev.Snoc? ==> !Stopping(log.prev.last))
      && DecompressTrace(log.prev, src, chunk))
  }

  /** The memory at dst before a run and now, the caller's *dstlen, and how many bytes count as written. */
  datatype Sink = Sink(before: seq<byte>, now: seq<byte>, dstlen: nat, size: nat) {
    /** The memory holds `bytes`, all that count as written, within the capacity. */
    predicate Holds(bytes: seq<byte>) {
      |bytes| == size <= dstlen && Wrote(before, now, bytes)
    }
  }

  /** What a decompression run with all resources granted comes to, for a non-empty source; s.size is
      the *dstlen the caller gets back. */
  ghost predicate DecompressOutcome(b: Behaviour, chunk: nat, src: seq<byte>, s: Sink, ret: int, log: Log)
    requires chunk > 0
  {
    && log.Snoc? && IsRun(b, log) && DecompressTrace(log, src, chunk) && Clean(log.prev)
    && (ret == UNIZIP_OK || ret == UNIZIP_STREAM_ERROR || ret == UNIZIP_MEM_ERROR)
    && (ret == UNIZIP_STREAM_ERROR <==> Faulty(log.last))
    && (ret == UNIZIP_MEM_ERROR <==> !Faulty(log.last) && |Emitted(log)| > s.dstlen)
    && (ret == UNIZIP_OK ==>
          && Fed(log) <= src && (Fed(log) == src || Stopping(log.last))
          && s.Holds(Emitted(log)))
    && (ret != UNIZIP_OK ==>
          && s.size == s.dstlen
          && |Emitted(log.prev)| <= s.dstlen && Wrote(s.before, s.now, Emitted(log.prev)))
  }

  /** Which calls are followed by another one: those that leave input staged or whose reply is not a
      stream end, by code or by status. */
  lemma {:induction false} NoStopBefore(log: Log, src: seq<byte>, chunk: nat)
    requires chunk > 0 && DecompressTrace(log, src, chunk)
    ensures forall i :: 0 <= i < Size(log) ==> Calls(log)[i].req.flush == SyncFlush
    ensures forall i :: 0 <= i < Size(log) - 1 ==>
              var ex := Calls(log)[i];
              ex.reply.consumed == |ex.req.window| ==>
                && ex.reply.code != 1 && ex.reply.code != 3
                && (ex.reply.code == 0 ==> ex.reply.status != DecompEnd && ex.reply.status != DecompEndNoSpace)
  {
    if log.Snoc? {
      NoStopBefore(log.prev, src, chunk);
      hide Ends, ChunkEnd;
      if log.prev.Snoc? {
        VerdictExactly(log.prev.last);
        assert Calls(log)[Size(log) - 2] == log.prev.last;
      }
    }
  }

  /** The result code, read off the replies. It is an error exactly if the last reply is a failure by
      code or by status; no earlier reply is one. The run stops before the source is used up exactly
      when a reply that used up its window is a stream end by code or by status. */
  lemma DecompressAnswer(b: Behaviour, chunk: nat, src: seq<byte>, s: Sink, ret: int, log: Log)
    requires chunk > 0 && DecompressOutcome(b, chunk, src, s, ret, log)
    ensures var last := log.last;
            && (ret == UNIZIP_STREAM_ERROR <==>
                  || last.reply.code < 0
                  || (last.reply.code == 0 && (last.reply.status == VerifyErr || last.reply.status == InEpara)))
            && (ret == UNIZIP_OK && Fed(log) != src ==>
                  && last.reply.consumed == |last.req.window|
                  && (|| last.reply.code == 1 || last.reply.code == 3
                      || (last.reply.code == 0 && (last.reply.status == DecompEnd || last.reply.status == DecompEndNoSpace))))
    ensures forall ex :: ex in Calls(if ret == UNIZIP_STREAM_ERROR then log.prev else log) ==>
              ex.reply.code >= 0 && (ex.reply.code == 0 ==> ex.reply.status != VerifyErr && ex.reply.status != InEpara)
    ensures forall i :: 0 <= i < Size(log) - 1 ==>
              var ex := Calls(log)[i];
              ex.reply.consumed == |ex.req.window| ==>
                && ex.reply.code != 1 && ex.reply.code != 3
                && (ex.reply.code == 0 ==> ex.reply.status != DecompEnd && ex.reply.status != DecompEndNoSpace)
  {
    hide Faulty, Ends, IsRun, Fed, Emitted, DecompressAsks, Wrote;
    VerdictExactly(log.last);
    CleanExactly(log);
    CleanExactly(log.prev);
    NoStopBefore(log, src, chunk);
    assert log.last == Calls(log)[Size(log) - 1];
    forall ex | ex in Calls(log)
      ensures ex.req.flush == SyncFlush
    {
      var i :| 0 <= i < |Calls(log)| && Calls(log)[i] == ex;
    }
    forall ex | ex in Calls(log.prev)
      ensures ex in Calls(log)
    {
    }
  }

  /** The memory at dst holds `bytes` and, behind them, what it held before. */
  predicate Wrote(before: seq<byte>, after: seq<byte>, bytes: seq<byte>) {
    |bytes| <= |before| && after == bytes + before[|bytes|..]
  }

  method StreamDecompress(p: Platform, alg: Alg, blksize: int, dst: array<byte>, dstlen: nat, src: seq<byte>)
    returns (ret: int, newlen: nat, ghost log: Log)
    requires p.Valid() && dstlen <= dst.Length
    requires src != [] ==> blksize <= DMEMSIZE
    modifies p, dst
    ensures p.Valid() && p.live == old(p.live)
    ensures blksize < 0 ==> ret == UNIZIP_DATA_ERROR && newlen == dstlen && log == Empty && dst[..] == old(dst[..])
    ensures blksize >= 0 && !AllGranted(p.grants, old(p.clock)) ==>
              ret in {UNIZIP_DATA_ERROR, UNIZIP_MEM_ERROR} && newlen == dstlen && log == Empty && dst[..] == old(dst[..])
    ensures blksize >= 0 && AllGranted(p.grants, old(p.clock)) && (src == [] || blksize == 0) ==>
              ret == UNIZIP_OK && newlen == 0 && log == Empty && dst[..] == old(dst[..])
    ensures blksize > 0 && AllGranted(p.grants, old(p.clock)) && src != [] ==>
              DecompressOutcome(p.codec(if alg == Zlib then Zlib else Gzip, Inflate), blksize, src, Sink(old(dst[..]), dst[..], dstlen, newlen), ret, log)
    ensures blksize > 0 && AllGranted(p.grants, old(p.clock)) && src != [] ==>
              var last := log.last;
              && (ret == UNIZIP_STREAM_ERROR <==>
                    || last.reply.code < 0
                    || (last.reply.code == 0 && (last.reply.status == VerifyErr || last.reply.status == InEpara)))
              && (ret == UNIZIP_OK && Fed(log) != src ==>
                    || last.reply.code == 1 || last.reply.code == 3
                    || (last.reply.code == 0 && (last.reply.status == DecompEnd || last.reply.status == DecompEndNoSpace)))
  {
    hide DecompressOutcome, ZipStream.Valid, ZipStream.ErrorFree;
    newlen, log := dstlen, Empty;
    if blksize < 0 {
      return UNIZIP_DATA_ERROR, newlen, log;
    }
    var z;
    if alg == Zlib {
      ret, z := HwInit(p, InflateWrapper(15).alg, Inflate);
    } else {
      ret, z := HwInit(p, InflateWrapper(31).alg, Inflate);
    }
    if ret != UNIZIP_OK {
      return;
    }
    ret, newlen := DecompressChunks(z, blksize, dst, dstlen, src);
    log := z.dev.log;
    if src != [] && blksize > 0 {
      DecompressAnswer(z.dev.behaviour, blksize, src, Sink(old(dst[..]), dst[..], dstlen, newlen), ret, log);
    }
    HwEnd(p, z);
  }

  /** The state between two calls: `fed` bytes of src consumed, all that was emitted written to dst. */
  ghost predicate Unpacking(log: Log, src: seq<byte>, chunk: nat, fed: nat, s: Sink) {
    && fed <= |src| && Fed(log) == src[..fed] && Clean(log)
    && s.Holds(Emitted(log))
    && (if chunk == 0 then log == Empty else DecompressTrace(log, src, chunk))
    && (log.Snoc? ==> !Stopping(log.last))
  }

  lemma UnpackStarts(src: seq<byte>, chunk: nat, before: seq<byte>, dstlen: nat)
    ensures Unpacking(Empty, src, chunk, 0, Sink(before, before, dstlen, 0))
  {
  }

  /** One call offered the rest of its chunk. */
  lemma UnpackCall(log: Log, ex: Exchange, c: Chunk, fed: nat, s: Sink)
    requires c.Valid() && Unpacking(log, c.src, c.size, fed, s) && c.pos <= fed < c.end
    requires ex.req == Request(c.src[fed..c.end], c.size, SyncFlush)
    requires !Faulty(ex) ==> ex.reply.consumed <= c.end - fed
    ensures DecompressTrace(Snoc(log, ex), c.src, c.size) && Clean(log)
    ensures s.Holds(Emitted(log))
    ensures Emitted(Snoc(log, ex)) == Emitted(log) + ex.reply.produced
    ensures !Faulty(ex) ==> Clean(Snoc(log, ex)) && Fed(Snoc(log, ex)) == c.src[..fed + ex.reply.consumed]
  {
    hide Verdict, Unified, Wrote, ChunkEnd, Fed, Emitted, Stopping;
    ChunkEndIs(fed, c.k, c.size, |c.src|);
    SnocTotals(log, ex);
    assert |Fed(log)| == fed;
    assert DecompressAsks(ex.req, |Fed(log)|, c.src, c.size);
    if !Faulty(ex) {
      assert Took(ex) == c.src[fed..fed + ex.reply.consumed];
      assert c.src[..fed] + c.src[fed..fed + ex.reply.consumed] == c.src[..fed + ex.reply.consumed];
    }
  }

  /** The turn was one of the decompression loop, offered the chunk from `fed` on. */
  predicate UnpackTurn(r: Turn, c: Chunk, fed: nat) {
    && c.Valid() && c.pos <= fed < c.end
    && r.window == c.src[fed..c.end] && r.room == c.size && r.flush == SyncFlush
  }

  /** A round of the decompression loop. */
  lemma UnpackRound(b: Behaviour, log: Log, next: Log, c: Chunk, fed: nat, s: Sink, r: Turn)
    requires UnpackTurn(r, c, fed) && Unpacking(log, c.src, c.size, fed, s)
    requires RoundResult(b, log, next, r)
    requires log != Empty ==> r.t0.o == s.size
    ensures next.Snoc? && next.prev == log && DecompressTrace(next, c.src, c.size) && Clean(log)
    ensures s.Holds(Emitted(log))
    ensures r.ret == Unified(Verdict(next.last)) && |next.last.req.window| == c.end - fed
    ensures r.ret >= 0 ==>
              && Emitted(next) == Emitted(log) + r.have && r.t.o == s.size + |r.have|
              && |r.rest| <= c.end - fed && r.rest == c.src[c.end - |r.rest|..c.end] && Fed(next) == c.src[..c.end - |r.rest|]
              && next.last.reply.consumed == c.end - fed - |r.rest| && Clean(next)
              && (|r.rest| < c.end - fed || b.pending(next) < b.pending(log))
  {
    hide Verdict, Unified, Sub64, DecompressTrace, Wrote, Stopping;
    var ex := next.last;
    assert |r.window| == c.end - fed;
    UnpackCall(log, ex, c, fed, s);
    if r.ret >= 0 {
      SliceTail(c.src, fed, c.end - fed, ex.reply.consumed);
      NothingEmitted(log);
    }
  }

  lemma NothingEmitted(log: Log)
    ensures log == Empty ==> Emitted(log) == []
  {
  }

  lemma WroteMore(before: seq<byte>, now: seq<byte>, later: seq<byte>, bytes: seq<byte>, more: seq<byte>)
    requires Wrote(before, now, bytes) && |bytes| + |more| <= |before|
    requires |now| == |before| && later == now[..|bytes|] + more + now[|bytes| + |more|..]
    ensures Wrote(before, later, bytes + more)
  {
    assert later == bytes + more + before[|bytes| + |more|..];
  }

  /** The nested loops of hw_stream_decompress. */
  method DecompressChunks(z: ZipStream, chunk: nat, dst: array<byte>, dstlen: nat, src: seq<byte>)
    returns (ret: int, newlen: nat)
    requires z.Valid() && z.Idle() && z.ErrorFree() && z.dev.log == Empty
    requires (src != [] ==> chunk <= DMEMSIZE) && dstlen <= dst.Length && dst != z.op.src && dst != z.op.out
    modifies z, z.op, z.dev, z.op.src, z.op.out, dst
    ensures z.Valid()
    ensures src == [] || chunk == 0 ==> ret == UNIZIP_OK && newlen == 0 && z.dev.log == Empty && dst[..] == old(dst[..])
    ensures src != [] && chunk > 0 ==>
              DecompressOutcome(z.dev.behaviour, chunk, src, Sink(old(dst[..]), dst[..], dstlen, newlen), ret, z.dev.log)
  {
    hide Unpacking, DecompressTrace, Offered, Tail, Trailer, Verdict, Unified, Fed, Emitted, IsRun, Clean, Wrote;
    newlen := dstlen;
    var rest, outSize := src, 0;
    ghost var k, pos := 0, 0;
    ghost var before := dst[..];
    UnpackStarts(src, chunk, before, dstlen);
    while true
      invariant z.Valid() && z.Idle() && z.ErrorFree() && newlen == dstlen
      invariant pos == k * chunk || rest == []
      invariant 0 <= pos <= |src| && rest == src[pos..]
      invariant if z.dev.log == Empty then pos == 0 && outSize == 0 && dst[..] == before else 0 < pos && 0 < chunk
      invariant Unpacking(z.dev.log, src, chunk, pos, Sink(before, dst[..], dstlen, outSize))
      invariant z.totalOut == outSize || z.dev.log == Empty
      decreases |rest|
    {
      ghost var c := Chunk(src, chunk, k, pos, if |rest| > chunk then pos + chunk else |src|);
      if |rest| > chunk {
        z.Load(rest[..chunk]);
        rest := rest[chunk..];
      } else {
        z.Load(rest);
        rest := [];
      }
      assert z.Window() == src[pos..c.end] && rest == src[c.end..];
      if z.availIn == 0 {
        if z.dev.log != Empty {
          RunOf(z);
          SourceExhausted(z.dev.behaviour, z.dev.log, src, chunk, pos, Sink(before, dst[..], dstlen, outSize));
        }
        ret := UNIZIP_STREAM_END;
        break;
      }
      ret, outSize := DecompressOneChunk(z, chunk, dst, dstlen, outSize, before, c);
      RunOf(z);
      if ret < 0 {
        return;
      }
      if ret == UNIZIP_STREAM_END {
        break;
      }
      UnpackGoesOn(z.dev.log, src, chunk, c.end, Sink(before, dst[..], dstlen, outSize));
      NextChunk(k, chunk);
      k, pos := k + 1, c.end;
    }
    newlen := outSize;
    ret := UNIZIP_OK;
  }

  /** memcpy to dst + at. */
  method CopyTo(dst: array<byte>, at: nat, bytes: seq<byte>)
    requires at + |bytes| <= dst.Length
    modifies dst
    ensures dst[..] == old(dst[..at]) + bytes + old(dst[at + |bytes|..])
  {
    forall i | 0 <= i < |bytes| {
      dst[at + i] := bytes[i];
    }
  }

  /** What one call of the decompression loop comes to: `left` staged bytes before it, rest after it. */
  ghost predicate CallResult(
      b: Behaviour, log: Log, next: Log, c: Chunk, left: nat, rest: seq<byte>, s: Sink, ret: int, totalOut: nat)
    requires c.size > 0
  {
    && next.Snoc? && DecompressTrace(next, c.src, c.size) && Clean(next.prev)
    && (ret >= 0 ==>
          && ret == Unified(Verdict(next.last)) && Clean(next) && totalOut == s.size
          && |rest| <= left && |rest| <= c.end <= |c.src| && rest == c.src[c.end - |rest|..c.end]
          && (|rest| < left || b.pending(next) < b.pending(log))
          && |next.last.req.window| == left && next.last.reply.consumed == left - |rest|
          && Fed(next) == c.src[..c.end - |rest|] && s.Holds(Emitted(next)))
    && (ret < 0 ==> Stopped(next, s, ret))
  }

  /** A call failed, or what it produced does not fit any more; what came before it is written. */
  ghost predicate Stopped(next: Log, s: Sink, ret: int)
    requires next.Snoc?
  {
    && (Faulty(next.last) ==> ret == UNIZIP_STREAM_ERROR)
    && (!Faulty(next.last) ==> ret == UNIZIP_MEM_ERROR && |Emitted(next)| > s.dstlen)
    && |Emitted(next.prev)| <= s.dstlen && Wrote(s.before, s.now, Emitted(next.prev))
  }

  lemma RoundTotal(b: Behaviour, log: Log, next: Log, r: Turn, size: nat)
    requires RoundResult(b, log, next, r) && r.flush == SyncFlush
    requires if log == Empty then size == 0 else r.t0.o == size
    ensures r.ret >= 0 ==> r.t.o == size + |r.have|
  {
    hide Verdict, Unified;
  }

  lemma CallOf(b: Behaviour, log: Log, next: Log, c: Chunk, fed: nat, s: Sink, r: Turn, after: seq<byte>)
    requires UnpackTurn(r, c, fed) && Unpacking(log, c.src, c.size, fed, s)
    requires s.dstlen <= |s.before| == |s.now|
    requires RoundResult(b, log, next, r)
    requires log != Empty ==> r.t0.o == s.size
    requires r.ret >= 0 ==> r.t.o == s.size + |r.have|
    requires if r.ret < 0 || r.t.o > s.dstlen then after == s.now
             else after == s.now[..s.size] + r.have + s.now[s.size + |r.have|..]
    ensures var over := r.ret >= 0 && r.t.o > s.dstlen;
            var size := if r.ret < 0 || over then s.size else s.size + |r.have|;
            CallResult(b, log, next, c, c.end - fed, if over then [] else r.rest, Sink(s.before, after, s.dstlen, size),
                       if over then UNIZIP_MEM_ERROR else r.ret, r.t.o)
  {
    hide RoundResult, Unpacking, DecompressTrace, Verdict, Unified, Fed, Emitted, Clean, Wrote;
    UnpackRound(b, log, next, c, fed, s, r);
    if r.ret < 0 {
      assert after == s.now;
    } else if r.t.o > s.dstlen {
      assert after == s.now && |Emitted(next)| > s.dstlen;
    } else {
      WroteMore(s.before, s.now, after, Emitted(log), r.have);
    }
  }

  /** One call of hw_stream_decompress: the call, the capacity check, the copy to dst. */
  method DecompressCall(
      z: ZipStream, chunk: nat, dst: array<byte>, dstlen: nat, written: nat, ghost before: seq<byte>, ghost c: Chunk)
    returns (ret: int, outSize: nat)
    requires z.Valid() && z.Staged() && z.ErrorFree()
    requires 1 <= chunk <= DMEMSIZE && dstlen <= dst.Length && dst != z.op.src && dst != z.op.out
    requires c.Valid() && c.size == chunk && |before| == dst.Length
    requires 0 < z.availIn <= c.end - c.pos && z.Window() == c.src[c.end - z.availIn..c.end]
    requires Unpacking(z.dev.log, c.src, chunk, c.end - z.availIn, Sink(before, dst[..], dstlen, written))
    requires if z.dev.log == Empty then written == 0 else z.totalOut == written
    modifies z, z.op, z.dev, z.op.out, dst
    ensures z.Valid() && (ret >= 0 ==> z.Staged() && z.ErrorFree())
    ensures CallResult(z.dev.behaviour, old(z.dev.log), z.dev.log, c, old(z.availIn), if ret >= 0 then z.Window() else [],
                       Sink(before, dst[..], dstlen, outSize), ret, z.totalOut)
  {
    hide Unpacking, RoundResult, CallResult, DecompressTrace, Tail, ZipStream.Valid, ZipStream.ErrorFree;
    ghost var log, fed, s, t0 := z.dev.log, c.end - z.availIn, Sink(before, dst[..], dstlen, written), Totals(z.totalIn, z.totalOut);
    outSize := written;
    var have;
    ret, have := z.Round(SyncFlush, chunk);
    ghost var r := z.TurnFrom(c.src[fed..c.end], chunk, SyncFlush, t0, ret, have);
    RoundTotal(z.dev.behaviour, log, z.dev.log, r, written);
    if ret < 0 || z.totalOut > dstlen {
      ret := if ret < 0 then ret else UNIZIP_MEM_ERROR;
    } else {
      CopyTo(dst, outSize, have);
      outSize := outSize + |have|;
    }
    CallOf(z.dev.behaviour, log, z.dev.log, c, fed, s, r, dst[..]);
  }

  /** The inner loop of hw_stream_decompress; a negative result ends the routine. */
  method DecompressOneChunk(
      z: ZipStream, chunk: nat, dst: array<byte>, dstlen: nat, written: nat, ghost before: seq<byte>, ghost c: Chunk)
    returns (ret: int, outSize: nat)
    requires z.Valid() && z.Staged() && z.Idle() && z.ErrorFree()
    requires 1 <= chunk <= DMEMSIZE && dstlen <= dst.Length && dst != z.op.src && dst != z.op.out
    requires c.Valid() && c.size == chunk && z.Window() == c.Bytes() && |before| == dst.Length
    requires Unpacking(z.dev.log, c.src, chunk, c.pos, Sink(before, dst[..], dstlen, written))
    requires if z.dev.log == Empty then written == 0 else z.totalOut == written
    modifies z, z.op, z.dev, z.op.out, dst
    ensures z.Valid() && z.dev.log.Snoc? && DecompressTrace(z.dev.log, c.src, chunk) && Clean(z.dev.log.prev)
    ensures ret >= 0 ==>
              && z.Idle() && z.ErrorFree() && z.totalOut == outSize
              && ret == Unified(Verdict(z.dev.log.last)) && !Faulty(z.dev.log.last)
              && Fed(z.dev.log) == c.src[..c.end] && Sink(before, dst[..], dstlen, outSize).Holds(Emitted(z.dev.log))
              && z.dev.log.last.reply.consumed == |z.dev.log.last.req.window|
    ensures ret < 0 ==> Stopped(z.dev.log, Sink(before, dst[..], dstlen, outSize), ret)
  {
    hide Unpacking, DecompressTrace, Offered, Tail, Trailer, Verdict, Unified, Fed, Emitted, IsRun, Clean, Wrote, ZipStream.Valid;
    outSize := written;
    while true
      invariant z.Valid() && z.Staged() && z.ErrorFree()
      invariant 0 < z.availIn <= c.end - c.pos && z.Window() == c.src[c.end - z.availIn..c.end]
      invariant Unpacking(z.dev.log, c.src, chunk, c.end - z.availIn, Sink(before, dst[..], dstlen, outSize))
      invariant if z.dev.log == Empty then outSize == 0 else z.totalOut == outSize
      decreases z.availIn, z.dev.behaviour.pending(z.dev.log)
    {
      ret, outSize := DecompressCall(z, chunk, dst, dstlen, outSize, before, c);
      if ret < 0 {
        return;
      }
      if z.availIn == 0 {
        break;
      }
      UnpackGoesOn(z.dev.log, c.src, chunk, c.end - z.availIn, Sink(before, dst[..], dstlen, outSize));
    }
  }

  lemma SourceExhausted(b: Behaviour, log: Log, src: seq<byte>, chunk: nat, fed: nat, s: Sink)
    requires chunk > 0 && log.Snoc? && IsRun(b, log) && fed == |src|
    requires Unpacking(log, src, chunk, fed, s)
    ensures DecompressOutcome(b, chunk, src, s, UNIZIP_OK, log)
  {
  }

  lemma UnpackGoesOn(log: Log, src: seq<byte>, chunk: nat, fed: nat, s: Sink)
    requires chunk > 0 && log.Snoc? && fed <= |src| && Fed(log) == src[..fed] && Clean(log)
    requires s.Holds(Emitted(log))
    requires DecompressTrace(log, src, chunk) && !Stopping(log.last)
    ensures Unpacking(log, src, chunk, fed, s)
  {
  }
}
