/** Decompressing what hw_stream_compress wrote gives the source back, whatever the chunk sizes and
    the schedules of the two devices. */
module UadkRoundTrip {
  import opened Codes
  import opened Words
  import opened UadkDevice
  import opened UadkPlatform
  import opened UadkStream
  import opened UadkLifecycle
  import opened UadkOneShot

  /** Every window offered so far continued the stream z where the device stood. */
  predicate OnStream(log: Log, z: seq<byte>) {
    log == Empty || (
      && |Fed(log.prev)| + |log.last.req.window| <= |z|
      && log.last.req.window == z[|Fed(log.prev)|..|Fed(log.prev)| + |log.last.req.window|]
      && OnStream(log.prev, z))
  }

  /** A good reply of an inflating device to a window of z, when z stands for x. */
  ghost predicate DecodesWell(log: Log, ex: Exchange, z: seq<byte>, x: seq<byte>) {
    && !Faulty(ex)
    && Emitted(Snoc(log, ex)) <= x
    && (ex.reply.consumed == |ex.req.window| && (Fed(log) + ex.req.window == z || Ends(ex)) ==>
          Emitted(Snoc(log, ex)) == x)
  }

  /** The inflating device turns z into x under every offering of z: it never fails, never emits
      anything but the next bytes of x, and owes nothing once it has taken the last byte of z or
      has reported the end with nothing of its window left. */
  ghost predicate Decodes(b: Behaviour, z: seq<byte>, x: seq<byte>) {
    forall log: Log, req: Request {:trigger b.answer(log, req)} ::
      && IsRun(b, log) && Clean(log)
      && req.window != [] && req.room > 0 && req.flush == SyncFlush
      && OnStream(Called(b, log, req), z)
      ==> DecodesWell(log, Called(b, log, req).last, z, x)
  }

  /** A drained pair: once a driver run has fed it all of a source, the deflating device has emitted
      a complete stream for that source, that is, one which the inflating device turns back. */
  ghost predicate DrainedPair(deflater: Behaviour, inflater: Behaviour) {
    forall src: seq<byte>, chunk: nat, log: Log {:trigger CompressTrace(log, src, chunk)} ::
      src != [] && 1 <= chunk <= DMEMSIZE
      && IsRun(deflater, log) && Clean(log) && CompressTrace(log, src, chunk) && Fed(log) == src
      ==> Emitted(log) != [] && Decodes(inflater, Emitted(log), src)
  }

  lemma {:induction false} TraceIsOnStream(log: Log, z: seq<byte>, chunk: nat)
    requires chunk > 0 && DecompressTrace(log, z, chunk)
    ensures OnStream(log, z)
  {
    if log.Snoc? {
      TraceIsOnStream(log.prev, z, chunk);
      ChunkEndMonotone(|Fed(log.prev)|, |Fed(log.prev)|, chunk, |z|);
    }
  }

  lemma {:induction false} FedFollowsStream(log: Log, z: seq<byte>)
    requires OnStream(log, z)
    ensures Fed(log) <= z
  {
    if log.Snoc? {
      FedFollowsStream(log.prev, z);
      var fed := |Fed(log.prev)|;
      assert Fed(log.prev) == z[..fed];
      assert Took(log.last) <= z[fed..];
    }
  }

  lemma {:induction false} OnLongerStream(log: Log, part: seq<byte>, z: seq<byte>)
    requires part <= z && OnStream(log, part)
    ensures OnStream(log, z)
  {
    if log.Snoc? {
      OnLongerStream(log.prev, part, z);
      var fed, n := |Fed(log.prev)|, |log.last.req.window|;
      assert part[fed..fed + n] == z[fed..fed + n];
    }
  }

  /** The last call of a decompression run over a decodable stream, or over the first part of one. */
  lemma DecodingStep(b: Behaviour, log: Log, part: seq<byte>, z: seq<byte>, x: seq<byte>, chunk: nat)
    requires chunk > 0 && part <= z && Decodes(b, z, x)
    requires log.Snoc? && IsRun(b, log) && DecompressTrace(log, part, chunk) && Clean(log.prev)
    ensures DecodesWell(log.prev, log.last, z, x)
  {
    TraceIsOnStream(log, part, chunk);
    OnLongerStream(log, part, z);
    ChunkIsNonEmpty(|Fed(log.prev)|, chunk, |part|);
    assert log == Called(b, log.prev, log.last.req);
  }

  lemma ChunkIsNonEmpty(off: nat, chunk: nat, n: nat)
    requires chunk > 0 && off < n
    ensures off < ChunkEnd(off, chunk, n)
  {
    DivisionBounds(off, chunk);
  }

  /** Fed everything, the device has at the last call consumed its window. */
  lemma ExhaustedWindow(log: Log, z: seq<byte>)
    requires log.Snoc? && OnStream(log, z) && Fed(log) == z
    ensures Fed(log.prev) + log.last.req.window == z
    ensures log.last.reply.consumed == |log.last.req.window| || log.last.req.window == []
  {
    FedFollowsStream(log.prev, z);
    var fed, w := |Fed(log.prev)|, log.last.req.window;
    assert |z| == fed + |Took(log.last)| && |Took(log.last)| <= |w|;
    assert Fed(log.prev) == z[..fed] && w == z[fed..];
  }

  /** A stream cut off anywhere is not noticed: whatever part of it is there, decompression into enough
      memory returns OK, with some first part of the plain text. */
  lemma TruncationIsAccepted(
      b: Behaviour, part: seq<byte>, z: seq<byte>, x: seq<byte>, chunk: nat, s: Sink, ret: int, log: Log)
    requires chunk > 0 && part <= z && Decodes(b, z, x)
    requires DecompressOutcome(b, chunk, part, s, ret, log)
    ensures ret != UNIZIP_STREAM_ERROR && Emitted(log) <= x
    ensures |x| <= s.dstlen ==> ret == UNIZIP_OK
    ensures ret == UNIZIP_OK ==> s.size <= |x| && s.size <= |s.before| && s.now == x[..s.size] + s.before[s.size..]
  {
    DecodingStep(b, log, part, z, x, chunk);
    assert log == Snoc(log.prev, log.last);
    assert Emitted(log) == x[..|Emitted(log)|];
  }

  /** All of a decodable stream gives all of the plain text, unless it does not fit. */
  lemma WholeStreamOutcome(b: Behaviour, z: seq<byte>, x: seq<byte>, chunk: nat, s: Sink, ret: int, log: Log)
    requires chunk > 0 && Decodes(b, z, x)
    requires DecompressOutcome(b, chunk, z, s, ret, log)
    ensures ret == UNIZIP_OK <==> |x| <= s.dstlen
    ensures ret == UNIZIP_OK ==> s.size == |x| && s.Holds(x)
    ensures ret != UNIZIP_OK ==> ret == UNIZIP_MEM_ERROR && s.size == s.dstlen
  {
    hide Wrote;
    TruncationIsAccepted(b, z, z, x, chunk, s, ret, log);
    if ret == UNIZIP_OK {
      DecodingStep(b, log, z, z, x, chunk);
      TraceIsOnStream(log, z, chunk);
      if Fed(log) == z {
        ExhaustedWindow(log, z);
        ChunkIsNonEmpty(|Fed(log.prev)|, chunk, |z|);
      }
      assert Emitted(log) == x;
    }
  }

  /** The round trip on outcomes: for every pair of chunk sizes, schedules and capacities. It succeeds
      exactly if the capacity suffices, and then gives the original bytes and the exact length. */
  lemma RoundTripOutcome(
      deflater: Behaviour, inflater: Behaviour, src: seq<byte>, chunk1: nat, z: seq<byte>, log1: Log,
      chunk2: nat, s: Sink, ret: int, log2: Log)
    requires src != [] && 1 <= chunk1 <= DMEMSIZE && chunk2 > 0
    requires DrainedPair(deflater, inflater)
    requires CompressOutcome(deflater, chunk1, src, UNIZIP_OK, z, log1)
    requires DecompressOutcome(inflater, chunk2, z, s, ret, log2)
    ensures ret == UNIZIP_OK <==> |src| <= s.dstlen
    ensures ret == UNIZIP_OK ==> s.size == |src| && s.Holds(src)
    ensures ret != UNIZIP_OK ==> ret == UNIZIP_MEM_ERROR && s.size == s.dstlen
  {
    hide DecompressOutcome;
    assert Clean(log1);
    assert Decodes(inflater, z, src);
    WholeStreamOutcome(inflater, z, src, chunk2, s, ret, log2);
  }

  /** The caller's round trip: compress, then decompress into dst. */
  method RoundTrip(p: Platform, alg: Alg, chunk1: nat, chunk2: nat, src: seq<byte>, dst: array<byte>, dstlen: nat)
    returns (cret: int, dret: int, newlen: nat, ghost log: Log)
    requires p.Valid() && 1 <= chunk1 <= DMEMSIZE && 1 <= chunk2 <= DMEMSIZE
    requires src != [] && dstlen <= dst.Length
    requires var a := if alg == Zlib then Zlib else Gzip; DrainedPair(p.codec(a, Deflate), p.codec(a, Inflate))
    modifies p, dst
    ensures p.Valid() && p.live == old(p.live)
    ensures cret == UNIZIP_OK <==> AllGranted(p.grants, old(p.clock)) && log.Snoc? && !Faulty(log.last)
    ensures AllGranted(p.grants, old(p.clock)) ==>
              log.Snoc? && IsRun(p.codec(if alg == Zlib then Zlib else Gzip, Deflate), log) && CompressTrace(log, src, chunk1)
    ensures cret == UNIZIP_OK && AllGranted(p.grants, old(p.clock) + 8) ==>
              && (dret == UNIZIP_OK <==> |src| <= dstlen)
              && (dret == UNIZIP_OK ==> newlen == |src| && Sink(old(dst[..]), dst[..], dstlen, newlen).Holds(src))
              && (dret != UNIZIP_OK ==> dret == UNIZIP_MEM_ERROR && newlen == dstlen)
  {
    var z;
    ghost var log2;
    newlen, dret := dstlen, UNIZIP_OK;
    cret, z, log := StreamCompress(p, alg, chunk1, src);
    if cret == UNIZIP_OK {
      ghost var a := if alg == Zlib then Zlib else Gzip;
      ghost var deflater, inflater := p.codec(a, Deflate), p.codec(a, Inflate);
      assert z != [];
      ghost var before := dst[..];
      dret, newlen, log2 := StreamDecompress(p, alg, chunk2, dst, dstlen, z);
      if AllGranted(p.grants, old(p.clock) + 8) {
        RoundTripOutcome(deflater, inflater, src, chunk1, z, log, chunk2, Sink(before, dst[..], dstlen, newlen), dret, log2);
      }
    }
  }

  /** No call of the log could have been the one that appends a tail. */
  predicate AlwaysInput(log: Log) {
    log == Empty || (log.last.req.window != [] && log.last.req.flush != Finish && AlwaysInput(log.prev))
  }

  /** One-shot decompression always has input for the device and never asks it to finish, so
      append_store_block is out of its reach. */
  lemma {:induction false} DecompressionNeverFinishes(log: Log, src: seq<byte>, chunk: nat)
    requires chunk > 0 && DecompressTrace(log, src, chunk)
    ensures AlwaysInput(log)
  {
    if log.Snoc? {
      DecompressionNeverFinishes(log.prev, src, chunk);
      ChunkIsNonEmpty(|Fed(log.prev)|, chunk, |src|);
    }
  }
}
