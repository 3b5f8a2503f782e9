/** The entity ID pool (`EntityManager`): a list of free IDs kept in
    ascending order, from which the smallest is checked out. */
module EntityManager {
  import opened Base

  /** `_maxEntities`: the pool starts as 0 .. MaxEntities - 1, and the
      component table has one column per ID. */
  const MaxEntities: nat := 1000

  /** An ID the pool can hand out, hence a column of the component table. */
  type EntityId = x: nat | x < MaxEntities

  /** Strictly ascending, hence also duplicate-free. */
  predicate Ascending(s: seq<nat>) {
    forall i, j :: 0 <= i < j < |s| ==> s[i] < s[j]
  }

  /** `[x for x in range(_maxEntities)]`. */
  function InitialPool(): seq<nat> {
    seq(MaxEntities, i => i)
  }

  /** The pool after an absent `id` is appended and the list sorted. */
  function Insert(pool: seq<nat>, id: nat): (r: seq<nat>)
    requires Ascending(pool) && id !in pool
    ensures Ascending(r) && |r| == |pool| + 1
    ensures forall x :: x in r <==> x in pool || x == id
  {
    if pool == [] || id < pool[0] then
      assert forall j :: 0 <= j < |pool| ==> id < pool[j] by {
        forall j | 0 <= j < |pool| ensures id < pool[j] {
          assert pool[0] <= pool[j];
        }
      }
      [id] + pool
    else
      var rest := Insert(pool[1..], id);
      assert forall j :: 0 <= j < |rest| ==> pool[0] < rest[j] by {
        forall j | 0 <= j < |rest| ensures pool[0] < rest[j] {
          assert rest[j] in rest;
          if rest[j] != id {
            var k :| 0 <= k < |pool| - 1 && pool[1..][k] == rest[j];
            assert pool[k + 1] == rest[j];
          }
        }
      }
      assert pool == [pool[0]] + pool[1..];
      [pool[0]] + rest
  }

  /** `checkoutID` on the abstract pool: the returned ID and the new pool. */
  function Checkout(pool: seq<nat>): (Option<nat>, seq<nat>) {
    if |pool| > 0 then (Some(pool[0]), pool[1..]) else (None, pool)
  }

  /** `checkinID` on the abstract pool. */
  function Checkin(pool: seq<nat>, id: nat): seq<nat>
    requires Ascending(pool)
  {
    if id !in pool then Insert(pool, id) else pool
  }

  /** A sequence of `checkinID` calls, in the given order. */
  function CheckinAll(pool: seq<nat>, ids: seq<nat>): (r: seq<nat>)
    requires Ascending(pool)
    ensures Ascending(r)
    ensures forall x :: x in r <==> x in pool || x in ids
    decreases |ids|
  {
    if ids == [] then pool
    else
      var r := CheckinAll(Checkin(pool, ids[0]), ids[1..]);
      assert ids == [ids[0]] + ids[1..];
      r
  }

  /** The initial pool holds every ID below MaxEntities, in ascending order. */
  lemma InitialPoolSpec()
    ensures Ascending(InitialPool()) && |InitialPool()| == MaxEntities
    ensures forall x: nat :: x in InitialPool() <==> x < MaxEntities
  {
    var p := InitialPool();
    forall x: nat | x < MaxEntities ensures x in p {
      assert p[x] == x;
    }
  }

  /** An ascending list is determined by its elements: this is why sorting
      after every append makes the pool independent of the order of returns. */
  lemma {:induction false} AscendingUnique(a: seq<nat>, b: seq<nat>)
    requires Ascending(a) && Ascending(b)
    requires forall x :: x in a <==> x in b
    ensures a == b
  {
    assert a != [] ==> a[0] in b;
    assert b != [] ==> b[0] in a;
    if a != [] && b != [] {
      assert a[0] == b[0] by {
        var k :| 0 <= k < |b| && b[k] == a[0];
        var m :| 0 <= m < |a| && a[m] == b[0];
        assert b[0] <= b[k] && a[0] <= a[m];
      }
      forall x ensures x in a[1..] <==> x in b[1..] {
        if x in a[1..] {
          assert x > a[0] && x in b;
          var k :| 0 <= k < |b| && b[k] == x;
          assert k != 0;
          assert b[1..][k - 1] == x;
        }
        if x in b[1..] {
          assert x > b[0] && x in a;
          var k :| 0 <= k < |a| && a[k] == x;
          assert k != 0;
          assert a[1..][k - 1] == x;
        }
      }
      AscendingUnique(a[1..], b[1..]);
    }
  }

  /** `checkoutID` on a non-empty pool yields the smallest free ID and
      removes exactly that ID; on an empty pool it yields None and changes
      nothing. */
  lemma CheckoutSpec(pool: seq<nat>)
    requires Ascending(pool)
    ensures var (r, pool') := Checkout(pool);
      && (r.None? <==> pool == [])
      && (r.None? ==> pool' == pool)
      && (r.Some? ==> r.value in pool && (forall x :: x in pool ==> r.value <= x)
                      && Ascending(pool')
                      && forall x :: x in pool' <==> x in pool && x != r.value)
  {
    if pool != [] {
      forall x | x in pool ensures pool[0] <= x {
        var k :| 0 <= k < |pool| && pool[k] == x;
      }
      forall x ensures x in pool[1..] <==> x in pool && x != pool[0] {
        if x in pool && x != pool[0] {
          var k :| 0 <= k < |pool| && pool[k] == x;
          assert pool[1..][k - 1] == x;
        }
      }
    }
  }

  /** `checkinID` keeps the pool ascending and adds exactly the given ID. */
  lemma CheckinSpec(pool: seq<nat>, id: nat)
    requires Ascending(pool)
    ensures Ascending(Checkin(pool, id))
    ensures forall x :: x in Checkin(pool, id) <==> x in pool || x == id
  {
  }

  /** Returning an ID that is already free changes nothing, so `checkinID`
      is idempotent. */
  lemma CheckinIdempotent(pool: seq<nat>, id: nat)
    requires Ascending(pool)
    ensures Checkin(Checkin(pool, id), id) == Checkin(pool, id)
  {
  }

  /** Checking out an ID and returning it restores the pool. */
  lemma CheckoutCheckinRoundTrip(pool: seq<nat>)
    requires Ascending(pool) && pool != []
    ensures Ascending(Checkout(pool).1)
    ensures Checkin(Checkout(pool).1, Checkout(pool).0.value) == pool
  {
    CheckoutSpec(pool);
    var (r, pool') := Checkout(pool);
    AscendingUnique(Checkin(pool', r.value), pool);
  }

  /** Returning the same IDs in any two orders gives the same pool. */
  lemma CheckinOrderIrrelevant(pool: seq<nat>, a: seq<nat>, b: seq<nat>)
    requires Ascending(pool)
    requires forall x :: x in a <==> x in b
    ensures CheckinAll(pool, a) == CheckinAll(pool, b)
  {
    AscendingUnique(CheckinAll(pool, a), CheckinAll(pool, b));
  }

  /** After any IDs are returned, in any order, the next `checkoutID`
      yields the smallest ID that is free. */
  lemma NextCheckoutIsSmallestFree(pool: seq<nat>, returned: seq<nat>)
    requires Ascending(pool) && (pool != [] || returned != [])
    ensures var r := Checkout(CheckinAll(pool, returned)).0;
      && r.Some?
      && (r.value in pool || r.value in returned)
      && (forall x :: x in pool || x in returned ==> r.value <= x)
  {
    var p := CheckinAll(pool, returned);
    assert p != [] by {
      if pool != [] { assert pool[0] in p; } else { assert returned[0] in p; }
    }
    CheckoutSpec(p);
  }

  /** Where the loop of `CheckinID` stops is where `Insert` puts the ID. */
  lemma InsertAt(ids: seq<nat>, id: nat, i: nat)
    requires Ascending(ids) && id !in ids && i <= |ids|
    requires i == 0 || ids[i - 1] < id
    requires forall k :: i <= k < |ids| ==> ids[k] > id
    ensures ids[..i] + [id] + ids[i..] == Insert(ids, id)
  {
    var s := ids[..i] + [id] + ids[i..];
    InsertAtAscending(ids, id, i);
    assert forall x :: x in s <==> x in ids || x == id by {
      assert ids == ids[..i] + ids[i..];
    }
    AscendingUnique(s, Insert(ids, id));
  }

  lemma InsertAtAscending(ids: seq<nat>, id: nat, i: nat)
    requires Ascending(ids) && i <= |ids|
    requires i == 0 || ids[i - 1] < id
    requires forall k :: i <= k < |ids| ==> ids[k] > id
    ensures Ascending(ids[..i] + [id] + ids[i..])
  {
    var s := ids[..i] + [id] + ids[i..];
    forall a, b | 0 <= a < b < |s| ensures s[a] < s[b] {
      if b < i {
        assert s[a] == ids[a] && s[b] == ids[b];
      } else if a < i && b == i {
        assert s[a] <= ids[i - 1];
      } else if a < i {
        assert s[a] == ids[a] && s[b] == ids[b - 1];
      } else if a > i {
        assert s[a] == ids[a - 1] && s[b] == ids[b - 1];
      }
    }
  }

  /** The free-ID pool. Its only state is `IDPool`, kept ascending. */
  class EntityPool {
    var ids: seq<nat>

    ghost predicate Valid()
      reads this
    {
      Ascending(ids)
    }

    constructor ()
      ensures Valid() && ids == InitialPool()
    {
      ids := InitialPool();
    }

    /** `checkoutID`: `pop(0)` on a non-empty pool, else None. */
    method CheckoutID() returns (r: Option<nat>)
      requires Valid()
      modifies this
      ensures Valid()
      ensures (r, ids) == Checkout(old(ids))
    {
      if |ids| > 0 {
        r := Some(ids[0]);
        ids := ids[1..];
      } else {
        r := None;
      }
    }

    /** `checkinID`: if the ID is absent, append it and sort. On a pool that
        is already ascending, the sort moves the appended ID left past every
        larger ID; the loop finds where it comes to rest. */
    method CheckinID(id: nat)
      requires Valid()
      modifies this
      ensures Valid()
      ensures ids == Checkin(old(ids), id)
    {
      if id !in ids {
        var i := |ids|;
        while i > 0 && ids[i - 1] > id
          invariant 0 <= i <= |ids|
          invariant forall k :: i <= k < |ids| ==> ids[k] > id
        {
          i := i - 1;
        }
        var s := ids[..i] + [id] + ids[i..];
        InsertAt(ids, id, i);
        ids := s;
      }
    }
  }
}
