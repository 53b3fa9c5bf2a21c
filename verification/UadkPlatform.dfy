/** Acquisition and release of what a stream needs, under every pattern of refusals. */
module UadkPlatform {
  import opened Codes
  import opened UadkDevice

  /** The system the driver runs on. The k-th acquisition is granted or refused by an arbitrary
      oracle; live holds the handles acquired and not yet released. */
  class Platform {
    const grants: nat -> bool
    const queueError: nat -> int   // what a refused wd_request_queue returns
    const codec: (Alg, Direction) -> Behaviour
    var clock: nat
    var live: set<nat>

    constructor (grants: nat -> bool, queueError: nat -> int, codec: (Alg, Direction) -> Behaviour)
      ensures this.grants == grants && this.queueError == queueError && this.codec == codec
      ensures clock == 0 && live == {}
    {
      this.grants, this.queueError, this.codec := grants, queueError, codec;
      clock, live := 0, {};
    }

    ghost predicate Valid()
      reads this
    {
      && (forall h :: h in live ==> h < clock)
      && (forall k: nat :: queueError(k) != 0)
      && (forall alg, dir :: Sound(codec(alg, dir)) && Progressive(codec(alg, dir)))
    }

    method Acquire() returns (ok: bool, h: nat)
      requires Valid()
      modifies this
      ensures Valid() && clock == old(clock) + 1 && h == old(clock)
      ensures ok == grants(h)
      ensures live == if ok then old(live) + {h} else old(live)
    {
      h := clock;
      ok := grants(h);
      clock := clock + 1;
      if ok {
        live := live + {h};
      }
    }

    /** Releasing a handle twice, or one never acquired, violates the precondition. */
    method Release(h: nat)
      requires Valid() && h in live
      modifies `live
      ensures Valid() && live == old(live) - {h}
    {
      live := live - {h};
    }
  }

  /** What a successful hw_init leaves in zip_ctl: one handle for each acquired resource. */
  datatype Handles = Handles(q: nat, session: nat, pool: nat, src: nat, out: nat, ctx: nat, opdata: nat, ctl: nat) {
    function All(): set<nat> {
      {q, session, pool, src, out, ctx, opdata, ctl}
    }
  }

  /** The acquisitions of one hw_init, which happen at eight consecutive clock ticks. */
  ghost predicate AllGranted(grants: nat -> bool, clock: nat) {
    forall k: nat :: clock <= k < clock + 8 ==> grants(k)
  }
}
