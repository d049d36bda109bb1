/** The ring of host buffers behind the receiver, and the pool behind the packer: pick a buffer nobody uses. */
module BufferRing {
  import opened Arithmetic
  import opened VideoFormat
  import opened RxQueue

  const PACK_POOL := 10

  class HostRing {
    var ring: seq<array<Byte>>
    var idx: nat
    const octets: nat

    predicate Valid()
      reads this
    {
      (ring == [] && idx == 0) || idx < |ring|
    }

    /** No two slots are the same buffer, so a use count speaks of one slot. */
    ghost predicate Distinct()
      reads this
    {
      forall i, j :: 0 <= i < j < |ring| ==> ring[i] != ring[j]
    }

    constructor (octets: nat)
      ensures Valid() && Distinct() && this.octets == octets && ring == []
    {
      this.octets, ring, idx := octets, [], 0;
    }

    /** `n` new buffers in place of whatever the ring had; the index stays where it was. */
    method Assign(n: nat)
      modifies this`ring
      ensures |ring| == n && Distinct()
      ensures forall i :: 0 <= i < n ==> fresh(ring[i]) && ring[i].Length == octets
      ensures n > 0 ==> (Valid() <==> idx < n)
    {
      ring := [];
      while |ring| < n
        invariant |ring| <= n && Distinct()
        invariant forall i :: 0 <= i < |ring| ==> fresh(ring[i]) && ring[i].Length == octets
      {
        var b := new Byte[octets](_ => 0);
        ring := ring + [b];
      }
    }

    /**
     A buffer to fill. `busy[k]` is what the `k`-th look finds: that the slot has users besides the ring. The
     first slot that does not is taken, going round from the index; if there is none the ring grows.
     */
    method NextBuffer(busy: seq<bool>) returns (b: array<Byte>, ghost looks: nat)
      requires Valid() && Distinct() && |busy| >= |ring| && |busy| >= FIRST_RING
      modifies this
      ensures Valid() && Distinct() && b in ring
      ensures old(ring) != [] ==> old(ring) <= ring
      ensures var n := if old(ring) == [] then 8 else |old(ring)|;
              && looks <= n && (forall j :: 0 <= j < looks ==> busy[j])
              && (looks < n ==> !busy[looks] && |ring| == n && b == ring[ScanSlot(old(idx), n, looks)]
                                && idx == ScanSlot(old(idx), n, looks + 1))
              && (looks == n ==> |ring| == n + 1 && b == ring[n] && fresh(b) && idx == old(idx))
    {
      if ring == [] { Assign(FIRST_RING); }
      ghost var ring0 := ring;
      looks := 0;
      for k := 0 to |ring|
        invariant ring == ring0 && looks == k && idx == ScanSlot(old(idx), |ring|, k)
        invariant forall j :: 0 <= j < k ==> busy[j]
      {
        b := ring[idx];
        idx := NextIdx(idx, |ring|);
        if !busy[k] { return; }
        looks := k + 1;
      }
      b := new Byte[octets](_ => 0);
      ring := ring + [b];
    }
  }

  /** Every look is at another slot, so when all looks find users every slot had some. */
  lemma {:induction false} ScanVisitsAll(first: nat, n: nat, slot: nat)
    requires first < n && slot < n
    ensures exists j :: 0 <= j < n && ScanSlot(first, n, j) == slot
  {
    var j := if slot >= first then slot - first else slot + n - first;
    assert ScanSlot(first, n, j) == slot;
  }

  /**
   The packer replaces its pool when the frame size changes and keeps its index. The next pick is inside the
   new pool exactly when the index had not passed its size, which a pool that had grown allows.
   */
  method Resize(pool: HostRing)
    modifies pool`ring
    ensures |pool.ring| == 10 && pool.Distinct()
    ensures pool.Valid() <==> old(pool.idx) < 10
  {
    pool.Assign(PACK_POOL);
  }

  /**
   A pool can come to that: it grows to eleven while every buffer is in flight, ten picks find free ones, and
   the frame size changes. The index is then past the end of the new pool.
   */
  method ResizeAfterGrowth(octets: nat) returns (pool: HostRing)
    ensures |pool.ring| == 10 && pool.idx == 10 && !pool.Valid()
  {
    pool := new HostRing(octets);
    pool.Assign(PACK_POOL);
    var free := seq(PACK_POOL + 1, _ => false);
    assert !free[0];
    var b, looks := pool.NextBuffer(seq(PACK_POOL, _ => true));
    for i := 0 to PACK_POOL
      invariant pool.Valid() && pool.Distinct() && |pool.ring| == PACK_POOL + 1 && pool.idx == i
      invariant fresh(pool)
    {
      b, looks := pool.NextBuffer(free);
    }
    Resize(pool);
  }
}
