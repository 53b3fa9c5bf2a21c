/** What the appended tail means to a reader of the stream, and a whole deflate session. */
module UadkTrailer {
  import opened Codes
  import opened Words
  import opened Crc32
  import opened UnizipStream
  import opened UadkDevice
  import opened UadkStream
  import opened UadkCallback
  import opened UadkOneShot

  // ----- Checksums by their standards -----

  /** The two sums of section 8.2 of RFC 1950. */
  function AdlerSums(data: seq<byte>): (s: (nat, nat))
    ensures s.0 < 65521 && s.1 < 65521
  {
    if data == [] then (1, 0)
    else
      var (s1, s2) := AdlerSums(data[..|data| - 1]);
      var t1 := (s1 + data[|data| - 1] as nat) % 65521;
      (t1, (s2 + t1) % 65521)
  }

  function Adler32(data: seq<byte>): bv32 {
    var (s1, s2) := AdlerSums(data);
    (s2 * 65536 + s1) as bv32
  }

  /** The sums of section 8.2 of RFC 1950 before they are reduced: all bytes, and all sums so far. */
  function ByteSum(data: seq<byte>): nat {
    if data == [] then 0 else ByteSum(data[..|data| - 1]) + data[|data| - 1] as nat
  }

  function SumOfSums(data: seq<byte>): nat {
    if data == [] then 0 else SumOfSums(data[..|data| - 1]) + (1 + ByteSum(data))
  }

  lemma ReducedStep(s1: nat, s2: nat, b: nat, sum: nat, sums: nat)
    requires s1 == sum % 65521 && s2 == sums % 65521
    ensures (s1 + b) % 65521 == (sum + b) % 65521
    ensures (s2 + (s1 + b) % 65521) % 65521 == (sums + (sum + b)) % 65521
  {
  }

  /** Reducing at every byte, as a device does, gives the sums of RFC 1950 reduced once at the end. */
  lemma {:induction false} AdlerSumsAreReduced(data: seq<byte>)
    ensures AdlerSums(data).0 == (1 + ByteSum(data)) % 65521
    ensures AdlerSums(data).1 == SumOfSums(data) % 65521
  {
    if data != [] {
      var before, b := data[..|data| - 1], data[|data| - 1] as nat;
      AdlerSumsAreReduced(before);
      var (s1, s2) := AdlerSums(before);
      ReducedStep(s1, s2, b, 1 + ByteSum(before), SumOfSums(before));
    }
  }

  /** ISIZE of section 2.3.1 of RFC 1952: the length modulo 2^32. */
  function Isize(data: seq<byte>): bv32 {
    (|data| % 0x1_0000_0000) as bv32
  }

  // ----- The shape of the tail -----

  function Load16(lo: byte, hi: byte): bv16 {
    (hi as bv16 << 8) | lo as bv16
  }

  /** The tail opens with a stored block (section 3.2.4 of RFC 1951) that is the last one, carries
      nothing, and has NLEN the complement of LEN; the trailer of the format and nothing else follows. */
  lemma TailShape(alg: Alg, flush: Flush, checksum: bv32, isize: bv32)
    ensures var t := Tail(alg, flush, checksum, isize);
            && t[0] & 1 == 1 && (t[0] >> 1) & 3 == 0
            && Load16(t[1], t[2]) == 0 && Load16(t[3], t[4]) == !Load16(t[1], t[2])
            && |t| == 5 + (if flush != Finish || alg == Unknown then 0 else if alg == Zlib then 4 else 8)
  {
    hide StoreLE, BitReverse, Swab32;
  }

  /** The first bytes a zlib stream (section 2.2 of RFC 1950) or a gzip member (2.3 of RFC 1952) must have. */
  predicate HasHeader(alg: Alg, s: seq<byte>) {
    |s| >= 2 && if alg == Zlib then s[0] & 0x0f == 8 else s[0] == 0x1f && s[1] == 0x8b
  }

  /** hw_stream_compress on the empty source writes a bare tail: no stream of its format. */
  lemma EmptySourceHasNoHeader(alg: Alg)
    requires alg == Zlib || alg == Gzip
    ensures !HasHeader(alg, Tail(alg, Finish, 0, 0))
  {
    FreshTail();
  }

  // ----- The device's registers -----

  /** The values a driver holds after a log: calloc's zeros before the first call. */
  function ChecksumRegister(log: Log): bv32 {
    if log == Empty then 0 else log.last.reply.checksum
  }

  function IsizeRegister(log: Log): bv32 {
    if log == Empty then 0 else log.last.reply.isize
  }

  /** A gzip device reports the unreflected CRC register over all it consumed, and its length. */
  ghost predicate ReportsCrc(b: Behaviour) {
    forall log: Log {:trigger IsRun(b, log)} :: log.Snoc? && IsRun(b, log) && Clean(log) ==>
      log.last.reply.checksum == Register(Fed(log)) && log.last.reply.isize == Isize(Fed(log))
  }

  /** A zlib device reports the Adler-32 of all it consumed. */
  ghost predicate ReportsAdler(b: Behaviour) {
    forall log: Log {:trigger IsRun(b, log)} :: log.Snoc? && IsRun(b, log) && Clean(log) ==>
      log.last.reply.checksum == Adler32(Fed(log))
  }

  /** The gzip trailer is the one section 2.3.1 of RFC 1952 asks for exactly if the device was called
      at all: otherwise complementing and reversing the calloc'ed zero gives ffffffff. */
  lemma GzipTrailerExactly(b: Behaviour, log: Log)
    requires ReportsCrc(b) && IsRun(b, log) && Clean(log)
    ensures Trailer(Gzip, ChecksumRegister(log), IsizeRegister(log))
            == StoreLE(Rfc1952Crc(Fed(log))) + StoreLE(Isize(Fed(log)))
            <==> log.Snoc?
  {
    hide Rfc1952Crc, Register, StoreLE, BitReverse, Isize, Trailer, Faulty, Verdict;
    if log.Snoc? {
      ConvertedTrailer(Fed(log));
    } else {
      assert Fed(log) == [];
      FreshGzipTrailer();
    }
  }

  /** The last four bytes of that trailer, least significant first, count the consumed bytes modulo 2^32. */
  lemma GzipTrailerCountsInput(b: Behaviour, log: Log)
    requires ReportsCrc(b) && IsRun(b, log) && Clean(log)
    ensures |Trailer(Gzip, ChecksumRegister(log), IsizeRegister(log))| == 8
    ensures LoadLE(Trailer(Gzip, ChecksumRegister(log), IsizeRegister(log))[4..]) == (|Fed(log)| % 0x1_0000_0000) as bv32
  {
    hide *;
    IsizeCounts(b, log);
    SwappedStoreIsBigEndian(IsizeRegister(log));
    LastFourBytes(ChecksumRegister(log), IsizeRegister(log));
  }

  lemma IsizeCounts(b: Behaviour, log: Log)
    requires ReportsCrc(b) && IsRun(b, log) && Clean(log)
    ensures IsizeRegister(log) == (|Fed(log)| % 0x1_0000_0000) as bv32
  {
    hide Register, Clean, IsRun;
    if log == Empty {
      assert Fed(log) == [];
    }
  }

  lemma LastFourBytes(checksum: bv32, isize: bv32)
    ensures |Trailer(Gzip, checksum, isize)| == 8 && Trailer(Gzip, checksum, isize)[4..] == StoreLE(isize)
  {
    hide StoreLE, BitReverse;
  }

  lemma ConvertedTrailer(data: seq<byte>)
    ensures Trailer(Gzip, Register(data), Isize(data)) == StoreLE(Rfc1952Crc(data)) + StoreLE(Isize(data))
  {
    hide *;
    ConvertedRegisterIsCrc(data);
    GzipTrailerOf(Register(data), Isize(data), Rfc1952Crc(data));
  }

  lemma GzipTrailerOf(checksum: bv32, isize: bv32, crc: bv32)
    requires BitReverse(!checksum) == crc
    ensures Trailer(Gzip, checksum, isize) == StoreLE(crc) + StoreLE(isize)
  {
    hide StoreLE, BitReverse;
  }

  lemma FreshGzipTrailer()
    ensures Trailer(Gzip, 0, 0) != StoreLE(Rfc1952Crc([])) + StoreLE(Isize([]))
  {
    assert BitReverse(0xffffffff) == 0xffffffff;
    assert Rfc1952Crc([]) == 0;
    assert Low8(0xffffffff) != Low8(0);
    assert StoreLE(0xffffffff)[0] != StoreLE(0)[0];
    assert Trailer(Gzip, 0, 0)[0] == StoreLE(0xffffffff)[0];
    assert (StoreLE(Rfc1952Crc([])) + StoreLE(Isize([])))[0] == StoreLE(0)[0];
  }

  /** The zlib trailer holds the Adler-32 most significant byte first, as section 2.2 of RFC 1950 asks,
      exactly if the device was called at all. */
  lemma ZlibTrailerExactly(b: Behaviour, log: Log)
    requires ReportsAdler(b) && IsRun(b, log) && Clean(log)
    ensures |Trailer(Zlib, ChecksumRegister(log), IsizeRegister(log))| == 4
    ensures LoadBE(Trailer(Zlib, ChecksumRegister(log), IsizeRegister(log))) == Adler32(Fed(log)) <==> log.Snoc?
  {
    hide Adler32, LoadBE, Swab32, StoreLE;
    SwappedStoreIsBigEndian(ChecksumRegister(log));
    if log == Empty {
      assert Fed(log) == [];
      AdlerOfNothing();
    }
  }

  lemma AdlerOfNothing()
    ensures Adler32([]) == 1
  {
    assert AdlerSums([]) == (1, 0);
  }

  /** The driver's registers are the log's. */
  lemma RegistersOf(z: ZipStream)
    requires z.Valid()
    ensures z.op.checksum == ChecksumRegister(z.dev.log) && z.op.isize == IsizeRegister(z.dev.log)
    ensures IsRun(z.dev.behaviour, z.dev.log)
  {
  }

  /** The whole tail of a gzip stream closed by an empty FINISH: the final block, CRC32 and ISIZE of the
      data, exactly if the device was called at all. */
  lemma GzipTailExactly(b: Behaviour, log: Log)
    requires ReportsCrc(b) && IsRun(b, log) && Clean(log)
    ensures Tail(Gzip, Finish, ChecksumRegister(log), IsizeRegister(log))
            == EMPTY_STORED_BLOCK + (StoreLE(Rfc1952Crc(Fed(log))) + StoreLE(Isize(Fed(log))))
            <==> log.Snoc?
  {
    hide Rfc1952Crc, StoreLE, Isize, Trailer, Clean, IsRun, ReportsCrc;
    GzipTrailerExactly(b, log);
    var got, want := Trailer(Gzip, ChecksumRegister(log), IsizeRegister(log)), StoreLE(Rfc1952Crc(Fed(log))) + StoreLE(Isize(Fed(log)));
    assert (EMPTY_STORED_BLOCK + got)[5..] == got;
    assert (EMPTY_STORED_BLOCK + want)[5..] == want;
  }

  // ----- Sessions: many calls of a callback, from init on -----

  function Concat(pieces: seq<seq<byte>>): seq<byte> {
    if pieces == [] then [] else Concat(pieces[..|pieces| - 1]) + pieces[|pieces| - 1]
  }

  /** Pointers moved and totals rose, from zero, by these amounts. */
  predicate Counted(was: Snapshot, now: Snapshot, consumed: nat, written: nat) {
    && now.totalIn == consumed && now.nextIn == was.nextIn + consumed
    && now.totalOut == written && now.nextOut == was.nextOut + written
  }

  /** A FINISH without input: the call that appends a tail. */
  predicate Closes(piece: seq<byte>, flush: int) {
    piece == [] && DeviceFlush(flush) == Finish
  }

  /** A deflating session with any pieces, flush arguments and rooms, up to the first failure or the
      first tail. `done` calls went well, and upTo is the device's log after them: the device consumed
      their input in order, out is all it produced and then the tail if one was appended, and the
      totals and pointers count exactly these bytes. */
  method DeflateCalls(strm: Strm, z: ZipStream, pieces: seq<seq<byte>>, flushes: nat -> int, rooms: nat -> u32)
    returns (ret: int, out: seq<byte>, done: nat, ghost upTo: Log, ghost tail: seq<byte>)
    requires forall i :: 0 <= i < |pieces| ==> |pieces[i]| < TWO_TO_THE_32
    requires Ready(z) && z.dev.log == Empty && strm.totalIn == 0 && strm.totalOut == 0
    modifies strm, z, z.op, z.dev, z.op.src, z.op.out
    ensures z.Valid() && done <= |pieces|
    ensures Fed(upTo) == Concat(pieces[..done]) && out == Emitted(upTo) + tail
    ensures Counted(old(strm.Now()), strm.Now(), |Concat(pieces[..done])|, |out|)
    ensures forall i :: 0 <= i < done - 1 ==> !Closes(pieces[i], flushes(i))
    ensures tail == if done > 0 && Closes(pieces[done - 1], flushes(done - 1))
                    then Tail(z.op.algType, Finish, ChecksumRegister(upTo), IsizeRegister(upTo)) else []
    ensures upTo.Snoc? <==> done > if tail != [] then 1 else 0
    ensures ret >= 0 ==>
              && Ready(z) && upTo == z.dev.log && IsRun(z.dev.behaviour, upTo) && Clean(upTo)
              && (done < |pieces| ==> tail != []) && (tail != [] ==> ret == UNIZIP_STREAM_END)
    ensures ret < 0 ==> done < |pieces| && tail == [] && z.dev.log.Snoc? && Faulty(z.dev.log.last)
  {
    hide Requested, Answered, CallsSince, Calls, Feeding, Device.Valid, Tail, Trailer, Verdict, Unified, Fed, Emitted, Offered, IsRun, Clean, Pumped, CallbackTrace, Concat, DeviceFlush;
    ret, out, done, upTo, tail := UNIZIP_OK, [], 0, z.dev.log, [];
    NothingYet();
    RegistersOf(z);
    while done < |pieces|
      invariant done <= |pieces| && tail == [] && ret >= 0
      invariant Ready(z) && upTo == z.dev.log && IsRun(z.dev.behaviour, upTo)
      invariant upTo.Snoc? <==> done > 0
      invariant Fed(upTo) == Concat(pieces[..done]) && Emitted(upTo) == out
      invariant Counted(old(strm.Now()), strm.Now(), |Concat(pieces[..done])|, |out|)
      invariant forall i :: 0 <= i < done ==> !Closes(pieces[i], flushes(i))
    {
      var piece := pieces[done];
      strm.availIn, strm.availOut := |piece|, rooms(done);
      ghost var was := strm.Now();
      RegistersOf(z);
      var got;
      ret, got := DeflateCB(strm, z, flushes(done), piece);
      if ret < 0 {
        return;
      }
      RegistersOf(z);
      ConcatSnoc(pieces, done);
      out, done := out + got, done + 1;
      if Closes(piece, flushes(done - 1)) {
        tail := got;
        return;
      }
      FeedingTotals(z.dev.log, Offer(upTo, piece, DEFLATE_MIN_CHUNK, flushes(done - 1), was), got, Totals(strm.totalIn, strm.totalOut));
      upTo := z.dev.log;
    }
  }

  /** The caller loop of a segmented compression: the pieces with NO_FLUSH, then FINISH once. On a
      non-negative result everything was consumed in order, the output is all the device produced and
      then one tail over its registers, and the totals and pointers count exactly these bytes. */
  method DeflateSession(strm: Strm, z: ZipStream, pieces: seq<seq<byte>>, rooms: nat -> u32) returns (ret: int, out: seq<byte>)
    requires forall i :: 0 <= i < |pieces| ==> |pieces[i]| < TWO_TO_THE_32
    requires Ready(z) && z.dev.log == Empty && strm.totalIn == 0 && strm.totalOut == 0
    modifies strm, z, z.op, z.dev, z.op.src, z.op.out
    ensures ret >= 0 ==>
              && ret == UNIZIP_STREAM_END
              && IsRun(z.dev.behaviour, z.dev.log) && Clean(z.dev.log) && (z.dev.log.Snoc? <==> pieces != [])
              && Fed(z.dev.log) == Concat(pieces)
              && out == Emitted(z.dev.log)
                        + Tail(z.op.algType, Finish, ChecksumRegister(z.dev.log), IsizeRegister(z.dev.log))
              && Counted(old(strm.Now()), strm.Now(), |Concat(pieces)|, |out|)
    ensures ret < 0 ==> z.dev.log.Snoc? && Faulty(z.dev.log.last)
  {
    hide Tail, Fed, Emitted, IsRun, Clean, Concat, Verdict, Unified;
    var calls, flushes := pieces + [[]], (i: nat) => if i < |pieces| then Z_NO_FLUSH else Z_FINISH;
    var done;
    ghost var upTo, tail;
    ret, out, done, upTo, tail := DeflateCalls(strm, z, calls, flushes, rooms);
    if ret >= 0 {
      assert done == |calls|;
      ConcatSnoc(calls, |pieces|);
      assert calls[..|pieces|] == pieces && calls[..done] == calls;
    }
  }

  /** An inflating session with any pieces, flush arguments and rooms, up to the first failure: the
      same, and no tail is ever written. */
  method InflateSession(strm: Strm, z: ZipStream, pieces: seq<seq<byte>>, flushes: nat -> int, rooms: nat -> u32)
    returns (ret: int, out: seq<byte>, done: nat, ghost upTo: Log)
    requires forall i :: 0 <= i < |pieces| ==> |pieces[i]| < TWO_TO_THE_32
    requires Ready(z) && z.dev.log == Empty && strm.totalIn == 0 && strm.totalOut == 0
    modifies strm, z, z.op, z.dev, z.op.src, z.op.out
    ensures z.Valid() && done <= |pieces|
    ensures Fed(upTo) == Concat(pieces[..done]) && out == Emitted(upTo)
    ensures Counted(old(strm.Now()), strm.Now(), |Concat(pieces[..done])|, |out|)
    ensures ret >= 0 ==>
              Ready(z) && done == |pieces| && upTo == z.dev.log && IsRun(z.dev.behaviour, upTo) && Clean(upTo)
    ensures ret < 0 ==> done < |pieces| && z.dev.log.Snoc? && Faulty(z.dev.log.last)
  {
    hide Requested, Answered, CallsSince, Calls, Feeding, Device.Valid, Tail, Trailer, Verdict, Unified, Fed, Emitted, Offered, IsRun, Clean, Pumped, CallbackTrace, Concat, DeviceFlush;
    ret, out, done, upTo := UNIZIP_OK, [], 0, z.dev.log;
    NothingYet();
    RegistersOf(z);
    while done < |pieces|
      invariant done <= |pieces| && ret >= 0
      invariant Ready(z) && upTo == z.dev.log && IsRun(z.dev.behaviour, upTo)
      invariant upTo == Empty ==> strm.totalIn == 0 && strm.totalOut == 0
      invariant Fed(upTo) == Concat(pieces[..done]) && Emitted(upTo) == out
      invariant Counted(old(strm.Now()), strm.Now(), |Concat(pieces[..done])|, |out|)
    {
      var piece := pieces[done];
      strm.availIn, strm.availOut := |piece|, rooms(done);
      ghost var was := strm.Now();
      var got;
      ret, got := InflateCB(strm, z, flushes(done), piece);
      if ret < 0 {
        return;
      }
      RegistersOf(z);
      ConcatSnoc(pieces, done);
      if piece != [] {
        FeedingTotals(z.dev.log, Offer(upTo, piece, INFLATE_MIN_CHUNK, flushes(done), was), got, Totals(strm.totalIn, strm.totalOut));
      }
      out, done, upTo := out + got, done + 1, z.dev.log;
    }
  }

  /** Where the totals go wrong: a stream that is closed before it has begun and then continued. The
      tail stays in the output, and the first device call drops it from total_out. */
  method CloseThenContinue(strm: Strm, z: ZipStream, piece: seq<byte>, room1: u32, room2: u32) returns (ret: int, out: seq<byte>)
    requires 0 < |piece| < TWO_TO_THE_32
    requires Ready(z) && z.dev.log == Empty && strm.totalIn == 0 && strm.totalOut == 0
    modifies strm, z, z.op, z.dev, z.op.src, z.op.out
    ensures ret >= 0 ==>
              && Fed(z.dev.log) == piece && strm.totalIn == |piece|
              && out == Tail(z.op.algType, Finish, 0, 0) + Emitted(z.dev.log)
              && strm.nextOut == old(strm.nextOut) + |out|
              && strm.totalOut == |Emitted(z.dev.log)| < |out|
  {
    hide Requested, Answered, CallsSince, Calls, Feeding, Device.Valid, Tail, Trailer, Verdict, Unified, Fed, Emitted, Offered, IsRun, Clean, Pumped, CallbackTrace;
    NothingYet();
    RegistersOf(z);
    strm.availIn, strm.availOut := 0, room1;
    ret, out := DeflateCB(strm, z, Z_FINISH, []);
    strm.availIn, strm.availOut := |piece|, room2;
    ghost var was := strm.Now();
    var got;
    ret, got := DeflateCB(strm, z, Z_NO_FLUSH, piece);
    if ret >= 0 {
      FeedingTotals(z.dev.log, Offer(Empty, piece, DEFLATE_MIN_CHUNK, Z_NO_FLUSH, was), got, Totals(strm.totalIn, strm.totalOut));
      assert [] + piece == piece && [] + got == got;
    }
    out := out + got;
  }

  lemma NothingYet()
    ensures Fed(Empty) == [] && Emitted(Empty) == [] && Concat([]) == []
  {
  }

  lemma ConcatSnoc(pieces: seq<seq<byte>>, i: nat)
    requires i < |pieces|
    ensures Concat(pieces[..i + 1]) == Concat(pieces[..i]) + pieces[i]
  {
    assert pieces[..i + 1][..i] == pieces[..i];
  }
}
