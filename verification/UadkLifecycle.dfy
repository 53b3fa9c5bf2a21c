/** hw_init and hw_end: staged acquisition with cleanup on every refusal, and the choice of wrapper
    by the two init2 routines. */
module UadkLifecycle {
  import opened Codes
  import opened UadkDevice
  import opened UadkPlatform
  import opened UadkStream

  // ----- windowBits to wrapper -----

  /** hw_deflateInit2_. */
  function DeflateWrapper(windowBits: int): Alg {
    if windowBits > 15 then Gzip else Zlib
  }

  datatype Wrapper = Unassigned | Assigned(alg: Alg)

  /** hw_inflateInit2_: wrap is 0 for negative windowBits and (windowBits >> 4) + 5 otherwise;
      bit 0 selects zlib, bit 1 then overrides with gzip, and neither leaves alg_type unassigned. */
  function InflateWrapper(windowBits: int): Wrapper {
    var wrap := if windowBits < 0 then 0 else windowBits / 16 + 5;
    if wrap / 2 % 2 == 1 then Assigned(Gzip) else if wrap % 2 == 1 then Assigned(Zlib) else Unassigned
  }

  /** The exact windowBits on which what the deflater wraps is what the inflater expects. */
  lemma WrappersAgreeExactly(windowBits: int)
    ensures InflateWrapper(windowBits) == Assigned(DeflateWrapper(windowBits))
            <==> 0 <= windowBits && (windowBits < 16 || windowBits / 16 % 4 == 1 || windowBits / 16 % 4 == 2)
  {
    var q := windowBits / 16;
    assert q == 4 * (q / 4) + q % 4;
    if windowBits >= 16 {
      var m := q % 4;
      assert m == 0 || m == 1 || m == 2 || m == 3;
      assert (q + 5) / 2 == 2 * (q / 4) + (m + 5) / 2;
    }
  }

  /** Which windowBits ask for which wrapper: 16 and above for gzip when deflating; when inflating, by
      the remainder of windowBits / 16, and a quarter of the values ask for nothing. */
  lemma WrapperOf(windowBits: int)
    ensures DeflateWrapper(windowBits) == if windowBits >= 16 then Gzip else Zlib
    ensures InflateWrapper(windowBits)
            == if windowBits < 0 || windowBits / 16 % 4 == 3 then Unassigned
               else if windowBits / 16 % 4 == 0 then Assigned(Zlib) else Assigned(Gzip)
  {
    if windowBits >= 0 {
      var q := windowBits / 16;
      var m := q % 4;
      assert q == 4 * (q / 4) + m && (m == 0 || m == 1 || m == 2 || m == 3);
      assert (q + 5) / 2 == 2 * (q / 4) + (m + 5) / 2;
    }
  }

  // ----- Acquisition and release -----

  /** hw_init's error code once the cleanup has run. */
  function InitError(ret: int): int {
    if ret == UNIZIP_DATA_ERROR then UNIZIP_DATA_ERROR else UNIZIP_MEM_ERROR
  }

  predicate Distinct(h: Handles) {
    h.q < h.session < h.pool < h.src < h.out < h.ctx < h.opdata < h.ctl
  }

  lemma GrantedInTurn(grants: nat -> bool, clock: nat)
    ensures AllGranted(grants, clock) <==>
              grants(clock) && grants(clock + 1) && forall k: nat :: clock + 2 <= k < clock + 8 ==> grants(k)
  {
  }

  method HwInit(p: Platform, alg: Alg, dir: Direction) returns (ret: int, z: ZipStream?)
    requires p.Valid()
    modifies p
    ensures p.Valid()
    ensures ret == UNIZIP_OK <==> z != null
    ensures ret == UNIZIP_OK <==> alg != Unknown && AllGranted(p.grants, old(p.clock))
    ensures ret in {UNIZIP_OK, UNIZIP_DATA_ERROR, UNIZIP_MEM_ERROR}
    ensures ret == UNIZIP_DATA_ERROR <==>
              && p.grants(old(p.clock))
              && (alg == Unknown || (!p.grants(old(p.clock) + 1) && p.queueError(old(p.clock) + 1) == UNIZIP_DATA_ERROR))
    ensures z == null ==> p.live == old(p.live)
    ensures z != null ==>
              && fresh(z) && fresh(z.Repr()) && z.Valid() && z.Idle() && z.ErrorFree()
              && z.dev.log == Empty && z.dev.behaviour == p.codec(alg, dir) && z.op.algType == alg
              && Distinct(z.handles) && z.handles.All() !! old(p.live)
              && p.live == old(p.live) + z.handles.All() && p.clock == old(p.clock) + 8
  {
    hide AllGranted, ZipStream.Valid, ZipStream.ErrorFree;
    GrantedInTurn(p.grants, p.clock);
    var ok, q := p.Acquire();
    if !ok {
      return UNIZIP_MEM_ERROR, null;
    }
    if alg == Unknown {
      p.Release(q);
      return InitError(UNIZIP_DATA_ERROR), null;
    }
    var session;
    ok, session := p.Acquire();
    ret := if ok then 0 else p.queueError(session);
    if ret != 0 {
      p.Release(q);
      return InitError(ret), null;
    }
    var h;
    ok, h := AcquireBehindQueue(p, q, session);
    if !ok {
      return InitError(ret), null;
    }
    z := new ZipStream(h, alg, p.codec(alg, dir));
    ret := UNIZIP_OK;
  }

  /** The part of hw_init after the queue is up: pool, blocks, context, opdata and ctl. */
  method AcquireBehindQueue(p: Platform, q: nat, session: nat) returns (ok: bool, h: Handles)
    requires p.Valid() && q < session < p.clock && {q, session} <= p.live
    modifies p
    ensures p.Valid()
    ensures ok <==> forall k: nat :: old(p.clock) <= k < old(p.clock) + 6 ==> p.grants(k)
    ensures !ok ==> p.live == old(p.live) - {q, session}
    ensures ok ==> p.clock == old(p.clock) + 6
    ensures ok ==> h.q == q && h.session == session && Distinct(h)
                   && h.pool >= old(p.clock) && p.live == old(p.live) + h.All()
  {
    h := Handles(q, session, 0, 0, 0, 0, 0, 0);
    var pool;
    ok, pool := p.Acquire();
    if !ok {
      p.Release(session);
      p.Release(q);
      return;
    }
    var okSrc, src := p.Acquire();
    var okOut, out := p.Acquire();
    if !okSrc || !okOut {
      ReleaseBlocks(p, q, session, pool, okSrc, src, okOut, out);
      ok := false;
      return;
    }
    var ctx, opdata, ctl;
    ok, ctx, opdata, ctl := AcquireControl(p);
    if !ok {
      ReleaseBlocks(p, q, session, pool, okSrc, src, okOut, out);
      return;
    }
    h := Handles(q, session, pool, src, out, ctx, opdata, ctl);
  }

  /** The last three acquisitions, with the labels comp_opdata_free and comp_ctx_free. */
  method AcquireControl(p: Platform) returns (ok: bool, ctx: nat, opdata: nat, ctl: nat)
    requires p.Valid()
    modifies p
    ensures p.Valid()
    ensures ok <==> forall k: nat :: old(p.clock) <= k < old(p.clock) + 3 ==> p.grants(k)
    ensures !ok ==> p.live == old(p.live)
    ensures ok ==> p.clock == old(p.clock) + 3
    ensures ok ==> old(p.clock) == ctx < opdata < ctl && p.live == old(p.live) + {ctx, opdata, ctl}
  {
    opdata, ctl := 0, 0;
    ok, ctx := p.Acquire();
    if !ok {
      return;
    }
    ok, opdata := p.Acquire();
    if !ok {
      p.Release(ctx);
      return;
    }
    ok, ctl := p.Acquire();
    if !ok {
      p.Release(opdata);
      p.Release(ctx);
    }
  }

  /** The cleanup labels buf_free, release_q and hw_q_free, falling through in this order. */
  method ReleaseBlocks(p: Platform, q: nat, session: nat, pool: nat, okSrc: bool, src: nat, okOut: bool, out: nat)
    requires p.Valid()
    requires q < session < pool < src < out
    requires {q, session, pool} <= p.live && (okSrc ==> src in p.live) && (okOut ==> out in p.live)
    modifies p`live
    ensures p.Valid()
    ensures p.live == old(p.live) - {q, session, pool}
                      - (if okSrc then {src} else {}) - (if okOut then {out} else {})
  {
    if okSrc {
      p.Release(src);
    }
    if okOut {
      p.Release(out);
    }
    p.Release(pool);
    p.Release(session);
    p.Release(q);
  }

  method HwEnd(p: Platform, z: ZipStream)
    requires p.Valid() && Distinct(z.handles) && z.handles.All() <= p.live
    modifies p`live
    ensures p.Valid() && p.live == old(p.live) - z.handles.All()
  {
    p.Release(z.handles.src);
    p.Release(z.handles.out);
    p.Release(z.handles.ctx);
    p.Release(z.handles.session);
    p.Release(z.handles.q);
    p.Release(z.handles.pool);
    p.Release(z.handles.opdata);
    p.Release(z.handles.ctl);
  }
}
