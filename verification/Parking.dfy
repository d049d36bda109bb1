/** Received buffers parked behind a completion event while the GPU still reads them. */
module Parking {

  datatype Parked = Parked(event: nat, buf: nat)

  function Events(ps: seq<Parked>): (es: seq<nat>)
    ensures |es| == |ps| && forall i :: 0 <= i < |ps| ==> es[i] == ps[i].event
  {
    seq(|ps|, i requires 0 <= i < |ps| => ps[i].event)
  }

  /** The numbers below `n`, each of them once. */
  ghost predicate Once(all: seq<nat>, n: nat) {
    && |all| == n
    && (forall i :: 0 <= i < |all| ==> all[i] < n)
    && (forall i, j :: 0 <= i < j < |all| ==> all[i] != all[j])
  }

  /** An event taken from the end of the pool, or a new one, moves in front of the pool. */
  lemma {:induction false} Rotated(a: seq<nat>, x: nat, b: seq<nat>, was: seq<nat>, n: nat)
    requires (was == a + b + [x] && Once(was, n)) || (was == a + b && n > 0 && Once(was, n - 1) && x == n - 1)
    ensures Once(a + [x] + b, n) && x !in a
  {
    var all := a + [x] + b;
    forall i | 0 <= i < |all|
      ensures all[i] == if i == |a| then x else was[if i < |a| then i else i - 1]
    {
    }
    forall i | 0 <= i < |a| + |b|
      ensures was[i] < n && was[i] != x
    {
      if |was| == n {
        assert was[i] != was[n - 1] == x;
      }
    }
    assert x < n by {
      if |was| == n {
        assert was[n - 1] == x;
      }
    }
    forall i, j | 0 <= i < j < |all|
      ensures all[i] != all[j]
    {
      if i != |a| && j != |a| {
        assert was[if i < |a| then i else i - 1] != was[if j < |a| then j else j - 1];
      }
    }
    forall i | 0 <= i < |a|
      ensures a[i] != x
    {
      assert a[i] == was[i];
    }
  }

  class InFlight {
    var parked: seq<Parked>
    var pool: seq<nat>
    var created: nat

    /** Every event is in flight or in the pool, and in one place only. */
    ghost predicate Valid()
      reads this
    {
      Once(Events(parked) + pool, created)
    }

    constructor ()
      ensures Valid() && parked == [] && pool == []
    {
      parked, pool, created := [], [], 0;
    }

    /** Park a buffer behind an event that guards no other buffer. */
    method Park(buf: nat)
      requires Valid()
      modifies this
      ensures Valid()
      ensures |parked| > 0 && parked[..|parked| - 1] == old(parked) && parked[|parked| - 1].buf == buf
      ensures parked[|parked| - 1].event !in Events(old(parked))
    {
      ghost var all := Events(parked) + pool;
      var event;
      if pool != [] {
        event := pool[|pool| - 1];
        assert event == all[|all| - 1];
        pool := pool[..|pool| - 1];
      } else {
        event, created := created, created + 1;
      }
      parked := parked + [Parked(event, buf)];
      assert Events(parked) == Events(old(parked)) + [event];
      Rotated(Events(old(parked)), event, pool, all, created);
    }

    /**
     Let go of the buffers whose reads are over, in order, up to the first that is not; `done[i]` is what the
     event of the `i`-th tells when it is asked. To stop, wait for every one of them.
     */
    method Drain(done: seq<bool>, wait: bool) returns (n: nat)
      requires Valid() && |done| >= |parked|
      modifies this
      ensures Valid() && created == old(created) && n <= |old(parked)|
      ensures parked == old(parked)[n..] && pool == old(pool) + Events(old(parked)[..n])
      ensures forall i :: 0 <= i < n ==> wait || done[i]
      ensures n < |old(parked)| ==> !wait && !done[n]
    {
      n := 0;
      while parked != []
        invariant n <= |old(parked)| && parked == old(parked)[n..] && created == old(created)
        invariant pool == old(pool) + Events(old(parked)[..n])
        invariant Valid()
        invariant forall i :: 0 <= i < n ==> wait || done[i]
      {
        if !wait && !done[n] { return; }
        MoveToPool();
        assert old(parked)[..n + 1] == old(parked)[..n] + [old(parked)[n]];
        assert Events(old(parked)[..n + 1]) == Events(old(parked)[..n]) + [old(parked)[n].event];
        n := n + 1;
      }
    }

    method MoveToPool()
      requires Valid() && parked != []
      modifies this
      ensures Valid() && created == old(created)
      ensures parked == old(parked)[1..] && pool == old(pool) + [old(parked)[0].event]
    {
      ghost var all := Events(parked) + pool;
      pool := pool + [parked[0].event];
      parked := parked[1..];
      ghost var now := Events(parked) + pool;
      assert forall i :: 0 <= i < |now| - 1 ==> now[i] == all[i + 1];
      assert now[|now| - 1] == all[0];
    }
  }
}
