/** One device pair that keeps every contract: an encoder that writes each byte as a stored DEFLATE
    block of length one, and the matching decoder. An arbitrary pace decides how much the encoder
    writes and how far it reads ahead of what it writes, and how much the decoder reads; the decoder
    gives out each data byte with the block byte that carries it. */
module StoredCodec {
  import opened Codes
  import opened Words
  import opened Crc32
  import opened UadkDevice
  import opened UadkPlatform
  import opened UadkStream
  import opened UadkOneShot
  import opened UadkRoundTrip
  import opened UadkTrailer

  /** Byte j of the stored block of b: BFINAL = 0, BTYPE = 00, LEN = 1, NLEN = fffe, data. */
  function BlockByte(j: nat, b: byte): byte {
    if j == 0 then 0x00 else if j == 1 then 0x01 else if j == 2 then 0x00
    else if j == 3 then 0xfe else if j == 4 then 0xff else b
  }

  /** Six such bytes are a stored block (section 3.2.4 of RFC 1951) that is not the last one and
      carries just b. */
  lemma BlockIsStored(b: byte)
    ensures BlockByte(0, b) & 1 == 0 && (BlockByte(0, b) >> 1) & 3 == 0
    ensures Load16(BlockByte(1, b), BlockByte(2, b)) == 1
    ensures Load16(BlockByte(3, b), BlockByte(4, b)) == !Load16(BlockByte(1, b), BlockByte(2, b))
    ensures BlockByte(5, b) == b
  {
  }

  function Blocks(w: seq<byte>): (s: seq<byte>)
    ensures |s| == 6 * |w|
  {
    seq(6 * |w|, i requires 0 <= i < 6 * |w| => BlockByte(i % 6, w[i / 6]))
  }

  /** The whole stream for x. */
  function Encoded(x: seq<byte>): (s: seq<byte>)
    ensures |s| == 6 * |x| + 5
  {
    Blocks(x) + EMPTY_STORED_BLOCK
  }

  /** The data bytes of the blocks completed in s. */
  function Payload(s: seq<byte>): (x: seq<byte>)
    ensures |x| == |s| / 6
  {
    seq(|s| / 6, i requires 0 <= i < |s| / 6 => s[6 * i + 5])
  }

  lemma BlocksOfPrefix(x: seq<byte>, e: nat)
    requires e <= |x|
    ensures Blocks(x)[..6 * e] == Blocks(x[..e])
  {
  }

  lemma PayloadOfEncoded(x: seq<byte>)
    ensures Payload(Encoded(x)) == x
  {
  }

  lemma PayloadOfPrefix(s: seq<byte>, f: nat)
    requires f <= |s|
    ensures Payload(s[..f]) <= Payload(s)
  {
  }

  // ----- The encoder -----

  /** How many bytes a call writes at most, and how many input bytes it reads ahead of them. */
  datatype Pace = Pace(write: Log -> nat, read: Log -> nat)

  /** Everything to have been written once the window is consumed: the blocks of all input so far, and
      the final block on FINISH. */
  function Goal(log: Log, req: Request): (s: seq<byte>)
    ensures |s| == 6 * (|Fed(log)| + |req.window|) + if req.flush == Finish then 5 else 0
  {
    Blocks(Fed(log) + req.window) + if req.flush == Finish then EMPTY_STORED_BLOCK else []
  }

  /** How far the encoder has written beyond the blocks of what it has consumed; negative if it has
      read ahead. */
  function Begun(log: Log): int {
    |Emitted(log)| - 6 * |Fed(log)|
  }

  /** A call that reads ahead need not write anything. */
  function ReadsAhead(log: Log, req: Request, pace: Pace): (n: nat)
    requires req.window != []
    ensures n < |req.window|
  {
    Min(pace.read(log), |req.window| - 1)
  }

  /** The length of the output at which a call stops. */
  function EncoderStop(log: Log, req: Request, pace: Pace): (n: nat)
    requires req.window != [] && |Emitted(log)| < |Goal(log, req)|
    ensures |Emitted(log)| <= n <= |Goal(log, req)| && n - |Emitted(log)| <= req.room
    ensures req.room > 0 && ReadsAhead(log, req, pace) == 0 ==> |Emitted(log)| < n
  {
    var most := pace.write(log) + if ReadsAhead(log, req, pace) > 0 then 0 else 1;
    |Emitted(log)| + Min(Min(req.room, |Goal(log, req)| - |Emitted(log)|), most)
  }

  /** The last input byte is consumed with the last output byte and not before. */
  function EncoderTakes(log: Log, req: Request, pace: Pace): (c: nat)
    requires req.window != [] && |Emitted(log)| < |Goal(log, req)|
    ensures c <= |req.window|
    ensures c == |req.window| <==> EncoderStop(log, req, pace) == |Goal(log, req)|
    ensures ReadsAhead(log, req, pace) > 0 ==> c > 0
    ensures c == 0 ==> EncoderStop(log, req, pace) - 6 * |Fed(log)| <= 10
  {
    var n := EncoderStop(log, req, pace);
    if n == |Goal(log, req)| then |req.window|
    else
      Min(ReadsAhead(log, req, pace) + (if n > 6 * |Fed(log)| then (n - 6 * |Fed(log)|) / 6 else 0), |req.window| - 1)
  }

  function EncoderAnswer(log: Log, req: Request, pace: Pace): Reply {
    if req.window == [] then Reply(0, 0, [], Fine, Register(Fed(log)), Isize(Fed(log)))
    else if |Emitted(log)| >= |Goal(log, req)| then Reply(-1, 0, [], Fine, 0, 0)
    else
      var c := EncoderTakes(log, req, pace);
      var now := Fed(log) + req.window[..c];
      Reply(0, c, Goal(log, req)[|Emitted(log)|..EncoderStop(log, req, pace)], Fine, Register(now), Isize(now))
  }

  function Encoder(pace: Pace): Behaviour {
    Behaviour((log, req) => EncoderAnswer(log, req, pace), log => if Begun(log) <= 11 then 11 - Begun(log) else 0)
  }

  lemma EncoderKeepsContract(pace: Pace)
    ensures Sound(Encoder(pace)) && Progressive(Encoder(pace))
  {
    hide Register, Isize, Blocks, EncoderStop, EncoderTakes, Goal, ReadsAhead;
    var b := Encoder(pace);
    forall log: Log, req: Request | b.answer(log, req).code >= 0 && req.window != [] && req.room > 0
      ensures b.answer(log, req).consumed > 0 || b.pending(Called(b, log, req)) < b.pending(log)
    {
      var r := b.answer(log, req);
      SnocTotals(log, Exchange(req, r));
    }
  }

  lemma EncoderReportsCrc(pace: Pace)
    ensures ReportsCrc(Encoder(pace))
  {
    hide Register, Isize, Blocks, EncoderStop, EncoderTakes, Goal;
    var b := Encoder(pace);
    forall log: Log | log.Snoc? && IsRun(b, log) && Clean(log)
      ensures log.last.reply.checksum == Register(Fed(log)) && log.last.reply.isize == Isize(Fed(log))
    {
      CodeOfGoodCall(log.last);
      SnocTotals(log.prev, log.last);
      assert Fed(log.prev) + [] == Fed(log.prev);
    }
  }

  /** The output length that a run over n bytes reaches only when it has consumed up to e. */
  function Limit(e: nat, n: nat): nat {
    if e == n then 6 * n + 5 else 6 * e
  }

  /** A run over src has consumed and written prefixes, and owes something while its chunk lasts. */
  ghost predicate OnCourse(log: Log, src: seq<byte>, chunk: nat)
    requires chunk > 0
  {
    var f, n := |Fed(log)|, |Emitted(log)|;
    && Fed(log) <= src
    && n <= |Encoded(src)| && Emitted(log) == Encoded(src)[..n]
    && (f == |src| ==> n == |Encoded(src)|)
    && (f < |src| ==> n < Limit(ChunkEnd(f, chunk, |src|), |src|))
  }

  lemma ChunkEndAfter(f: nat, c: nat, chunk: nat, n: nat)
    requires chunk > 0 && f < n && f + c < ChunkEnd(f, chunk, n)
    ensures ChunkEnd(f + c, chunk, n) == ChunkEnd(f, chunk, n)
  {
    var k := f / chunk;
    DivisionBounds(f, chunk);
    hide ChunkEnd;
    ChunkEndIs(f, k, chunk, n);
    ChunkEndIs(f + c, k, chunk, n);
  }

  lemma GoalIsEncoding(log: Log, req: Request, src: seq<byte>, chunk: nat)
    requires chunk > 0 && Fed(log) <= src && CompressAsks(req, |Fed(log)|, src, chunk)
    ensures var e := ChunkEnd(|Fed(log)|, chunk, |src|);
            && |Fed(log)| < e <= |src| && req.window == src[|Fed(log)|..e]
            && Limit(e, |src|) <= |Encoded(src)| && Goal(log, req) == Encoded(src)[..Limit(e, |src|)]
  {
    hide Blocks, ChunkEnd, Fed;
    var f, e := |Fed(log)|, ChunkEnd(|Fed(log)|, chunk, |src|);
    ChunkIsNonEmpty(f, chunk, |src|);
    ChunkEndMonotone(f, f, chunk, |src|);
    assert Fed(log) + req.window == src[..e];
    BlocksOfPrefix(src, e);
    if e == |src| {
      assert src[..e] == src;
      assert Encoded(src)[..Limit(e, |src|)] == Encoded(src);
    } else {
      assert Encoded(src)[..6 * e] == Blocks(src)[..6 * e];
    }
  }

  /** Inside its course the encoder never refuses. */
  lemma EncoderReplies(log: Log, ex: Exchange, src: seq<byte>, chunk: nat, pace: Pace)
    requires chunk > 0 && OnCourse(log, src, chunk)
    requires CompressAsks(ex.req, |Fed(log)|, src, chunk) && ex.reply == EncoderAnswer(log, ex.req, pace)
    ensures ex.req.window != [] && |Emitted(log)| < |Goal(log, ex.req)|
    ensures ex.reply.produced == Goal(log, ex.req)[|Emitted(log)|..EncoderStop(log, ex.req, pace)]
    ensures ex.reply.consumed == EncoderTakes(log, ex.req, pace)
    ensures !Faulty(ex)
  {
    hide Register, Isize, Blocks, Fed, Emitted, EncoderStop, EncoderTakes, ChunkEnd, Goal, Encoded;
    GoalIsEncoding(log, ex.req, src, chunk);
  }

  lemma JoinSlices(z: seq<byte>, i: nat, j: nat, k: nat)
    requires i <= j <= k <= |z|
    ensures z[..i] + z[..k][i..j] == z[..j]
  {
  }

  lemma {:induction false} EncoderStep(log: Log, ex: Exchange, src: seq<byte>, chunk: nat, pace: Pace)
    requires chunk > 0 && OnCourse(log, src, chunk)
    requires CompressAsks(ex.req, |Fed(log)|, src, chunk) && ex.reply == EncoderAnswer(log, ex.req, pace)
    ensures OnCourse(Snoc(log, ex), src, chunk)
  {
    hide Register, Isize, Blocks, Fed, Emitted, EncoderStop, EncoderTakes, EncoderAnswer, ChunkEnd, Goal, Encoded, Faulty;
    var f, n, z := |Fed(log)|, |Emitted(log)|, Encoded(src);
    var e := ChunkEnd(f, chunk, |src|);
    GoalIsEncoding(log, ex.req, src, chunk);
    EncoderReplies(log, ex, src, chunk, pace);
    var t, c := EncoderStop(log, ex.req, pace), EncoderTakes(log, ex.req, pace);
    SnocTotals(log, ex);
    JoinSlices(z, n, t, Limit(e, |src|));
    assert Took(ex) == src[f..f + c];
    assert src[..f] + src[f..f + c] == src[..f + c];
    NextEnd(f, c, chunk, |src|);
  }

  lemma NextEnd(f: nat, c: nat, chunk: nat, n: nat)
    requires chunk > 0 && f < n && f + c <= ChunkEnd(f, chunk, n)
    ensures ChunkEnd(f + c, chunk, n) <= n
    ensures f + c < ChunkEnd(f, chunk, n) ==> ChunkEnd(f + c, chunk, n) == ChunkEnd(f, chunk, n)
    ensures f + c == ChunkEnd(f, chunk, n) && f + c < n ==> f + c < ChunkEnd(f + c, chunk, n)
  {
    hide ChunkEnd;
    ChunkEndMonotone(f + c, f + c, chunk, n);
    if f + c < ChunkEnd(f, chunk, n) {
      ChunkEndAfter(f, c, chunk, n);
    } else if f + c < n {
      ChunkIsNonEmpty(f + c, chunk, n);
    }
  }

  lemma {:induction false} EncoderRun(log: Log, src: seq<byte>, chunk: nat, pace: Pace)
    requires src != [] && chunk > 0 && IsRun(Encoder(pace), log) && CompressTrace(log, src, chunk)
    ensures OnCourse(log, src, chunk)
  {
    if log.Snoc? {
      EncoderRun(log.prev, src, chunk, pace);
      EncoderStep(log.prev, log.last, src, chunk, pace);
    } else {
      ChunkIsNonEmpty(0, chunk, |src|);
    }
  }

  /** Compression with this encoder never fails and writes the encoding of the source, at every pace
      and chunk size. */
  lemma EncoderCompletes(pace: Pace, src: seq<byte>, chunk: nat, ret: int, dst: seq<byte>, log: Log)
    requires src != [] && chunk > 0 && CompressOutcome(Encoder(pace), chunk, src, ret, dst, log)
    ensures ret == UNIZIP_OK && dst == Encoded(src)
  {
    hide OnCourse, EncoderAnswer, Faulty, Encoded;
    EncoderRun(log.prev, src, chunk, pace);
    EncoderReplies(log.prev, log.last, src, chunk, pace);
    EncoderRun(log, src, chunk, pace);
    CourseDone(log, src, chunk);
  }

  lemma CourseDone(log: Log, src: seq<byte>, chunk: nat)
    requires chunk > 0 && OnCourse(log, src, chunk) && Fed(log) == src
    ensures Emitted(log) == Encoded(src)
  {
    assert Encoded(src)[..|Encoded(src)|] == Encoded(src);
  }

  /** What closes a gzip stream of this encoder is right exactly if the encoder was called. */
  lemma EncoderTailExactly(pace: Pace, log: Log)
    requires IsRun(Encoder(pace), log) && Clean(log)
    ensures Tail(Gzip, Finish, ChecksumRegister(log), IsizeRegister(log))
            == EMPTY_STORED_BLOCK + (StoreLE(Rfc1952Crc(Fed(log))) + StoreLE(Isize(Fed(log))))
            <==> log.Snoc?
  {
    EncoderReportsCrc(pace);
    hide *;
    GzipTailExactly(Encoder(pace), log);
  }

  // ----- The decoder -----

  /** The final block has come to its end. */
  predicate AtEnd(s: seq<byte>) {
    |s| % 6 == 5 && s[|s| - 5] == 0x01
  }

  function DecoderAnswer(log: Log, req: Request, pace: Log -> nat): Reply {
    var k := Min(Min(|req.window|, req.room), 1 + pace(log));
    var now := Fed(log) + req.window[..k];
    Reply(0, k, Payload(now)[|Payload(Fed(log))|..], if AtEnd(now) then DecompEnd else Fine, 0, 0)
  }

  function Decoder(pace: Log -> nat): Behaviour {
    Behaviour((log, req) => DecoderAnswer(log, req, pace), log => 0)
  }

  lemma DecoderKeepsContract(pace: Log -> nat)
    ensures Sound(Decoder(pace)) && Progressive(Decoder(pace))
  {
  }

  lemma {:induction false} DecoderEmitsPayload(log: Log, pace: Log -> nat)
    requires IsRun(Decoder(pace), log)
    ensures Emitted(log) == Payload(Fed(log))
  {
    if log.Snoc? {
      DecoderEmitsPayload(log.prev, pace);
      PayloadOfPrefix(Fed(log), |Fed(log.prev)|);
      assert Fed(log)[..|Fed(log.prev)|] == Fed(log.prev);
    }
  }

  /** The first byte of a block tells whether it is the final one. */
  lemma TypeByte(x: seq<byte>, i: nat)
    requires i % 6 == 0 && i < |Encoded(x)|
    ensures Encoded(x)[i] == if i < 6 * |x| then 0x00 else 0x01
  {
  }

  lemma OnlyTheFinalBlockEnds(x: seq<byte>, f: nat)
    requires f <= |Encoded(x)| && AtEnd(Encoded(x)[..f])
    ensures f == |Encoded(x)|
  {
    hide Encoded, Blocks;
    TypeByte(x, f - 5);
  }

  lemma DecoderDecodes(x: seq<byte>, pace: Log -> nat)
    ensures Decodes(Decoder(pace), Encoded(x), x)
  {
    var b, z := Decoder(pace), Encoded(x);
    forall log: Log, req: Request |
      && IsRun(b, log) && Clean(log)
      && req.window != [] && req.room > 0 && req.flush == SyncFlush
      && OnStream(Called(b, log, req), z)
      ensures DecodesWell(log, Called(b, log, req).last, z, x)
    {
      DecoderCall(log, Called(b, log, req), x, pace);
    }
  }

  lemma DecoderCall(log: Log, next: Log, x: seq<byte>, pace: Log -> nat)
    requires next.Snoc? && next == Called(Decoder(pace), log, next.last.req) && IsRun(Decoder(pace), log)
    requires next.last.req.flush == SyncFlush && OnStream(next, Encoded(x))
    ensures DecodesWell(log, next.last, Encoded(x), x)
  {
    hide Blocks, Encoded, Payload, AtEnd;
    var z, ex := Encoded(x), next.last;
    assert IsRun(Decoder(pace), next);
    DecoderEmitsPayload(next, pace);
    FedFollowsStream(next, z);
    PayloadOfPrefix(z, |Fed(next)|);
    PayloadOfEncoded(x);
    assert Fed(next) == z[..|Fed(next)|];
    if ex.reply.consumed == |ex.req.window| && (Fed(log) + ex.req.window == z || Ends(ex)) {
      assert Fed(next) == Fed(log) + ex.req.window;
      if Fed(next) != z {
        assert AtEnd(Fed(next));
        OnlyTheFinalBlockEnds(x, |Fed(next)|);
      }
      assert Fed(next) == z;
    }
  }

  lemma {:induction false} DecoderNeverFails(log: Log, pace: Log -> nat)
    requires IsRun(Decoder(pace), log)
    ensures Clean(log)
  {
    if log.Snoc? {
      DecoderNeverFails(log.prev, pace);
    }
  }

  /** Cut off after n bytes, the stream still decompresses with OK, to the bytes whose blocks are
      complete: all of x comes back exactly if all of its blocks are there. */
  lemma TruncatedOutcome(pace: Log -> nat, x: seq<byte>, n: nat, chunk: nat, s: Sink, ret: int, log: Log)
    requires chunk > 0 && n <= |Encoded(x)|
    requires DecompressOutcome(Decoder(pace), chunk, Encoded(x)[..n], s, ret, log)
    ensures ret == UNIZIP_OK <==> n / 6 <= s.dstlen
    ensures ret == UNIZIP_OK ==> s.size == n / 6 <= |x| && s.Holds(x[..n / 6])
    ensures ret == UNIZIP_OK ==> (s.Holds(x) <==> n >= 6 * |x|)
    ensures ret != UNIZIP_OK ==> ret == UNIZIP_MEM_ERROR
  {
    hide Blocks, Encoded, Payload, AtEnd, Wrote, DecompressTrace;
    var z := Encoded(x);
    DecoderEmitsPayload(log, pace);
    DecoderNeverFails(log, pace);
    TraceIsOnStream(log, z[..n], chunk);
    FedFollowsStream(log, z[..n]);
    var f := |Fed(log)|;
    assert Fed(log) == z[..f];
    if ret == UNIZIP_OK && Fed(log) != z[..n] {
      DecompressionNeverFinishes(log, z[..n], chunk);
      StoppedAtEnd(log, pace);
      OnlyTheFinalBlockEnds(x, f);
    }
    PayloadOfPrefix(z, f);
    PayloadOfEncoded(x);
    assert Emitted(log) == x[..f / 6];
    if s.Holds(x) {
      assert |x| == s.size;
    } else if n >= 6 * |x| {
      assert x[..n / 6] == x;
    }
  }

  lemma StoppedAtEnd(log: Log, pace: Log -> nat)
    requires log.Snoc? && IsRun(Decoder(pace), log) && Ends(log.last) && log.last.req.flush != Finish
    ensures AtEnd(Fed(log))
  {
    hide AtEnd, Payload;
  }

  /** The contracts of the round trip are satisfiable, at every pace of both devices. */
  lemma StoredPairIsDrained(pace1: Pace, pace2: Log -> nat)
    ensures DrainedPair(Encoder(pace1), Decoder(pace2))
  {
    forall src: seq<byte>, chunk: nat, log: Log |
      && src != [] && 1 <= chunk <= DMEMSIZE
      && IsRun(Encoder(pace1), log) && Clean(log) && CompressTrace(log, src, chunk) && Fed(log) == src
      ensures Emitted(log) != [] && Decodes(Decoder(pace2), Emitted(log), src)
    {
      EncoderRun(log, src, chunk, pace1);
      CourseDone(log, src, chunk);
      DecoderDecodes(src, pace2);
    }
  }

  /** Both directions with this pair, on a system that grants everything. */
  function StoredDevices(pace1: Pace, pace2: Log -> nat): (Alg, Direction) -> Behaviour {
    (alg, dir) => if dir == Deflate then Encoder(pace1) else Decoder(pace2)
  }

  /** The round trip without any assumption about devices: compression and decompression both return
      OK, with the original bytes and the exact length, at every pace of both devices. */
  method StoredRoundTrip(
      alg: Alg, pace1: Pace, pace2: Log -> nat, chunk1: nat, chunk2: nat, src: seq<byte>, dst: array<byte>, dstlen: nat)
    returns (cret: int, dret: int, newlen: nat)
    requires src != [] && |src| <= dstlen <= dst.Length
    requires 1 <= chunk1 <= DMEMSIZE && 1 <= chunk2 <= DMEMSIZE
    modifies dst
    ensures cret == UNIZIP_OK && dret == UNIZIP_OK && newlen == |src|
    ensures dst[..] == src + old(dst[|src|..])
  {
    hide Encoder, Decoder, DecompressOutcome, CompressTrace, IsRun, Clean;
    EncoderKeepsContract(pace1);
    DecoderKeepsContract(pace2);
    StoredPairIsDrained(pace1, pace2);
    var p := new Platform(k => true, k => 1, StoredDevices(pace1, pace2));
    var z;
    ghost var log1, log2;
    cret, z, log1 := StreamCompress(p, alg, chunk1, src);
    EncoderCompletes(pace1, src, chunk1, cret, z, log1);
    ghost var before := dst[..];
    dret, newlen, log2 := StreamDecompress(p, alg, chunk2, dst, dstlen, z);
    RoundTripOutcome(Encoder(pace1), Decoder(pace2), src, chunk1, z, log1, chunk2, Sink(before, dst[..], dstlen, newlen), dret, log2);
  }
}
