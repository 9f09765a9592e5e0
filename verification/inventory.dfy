/**
 * The carton table as the allocation and cancellation code sees it: the
 * pool of available cartons of one size, the cartons linked to one
 * reservation, and the two bulk updates that move cartons between them.
 */
module Inventory {
  import opened Wrappers
  import opened Domain

  type Cartons = map<CartonId, Carton>

  /**
   * The cartons of size `z` in status INSTOCK, whichever merchant owns them:
   * the rows the allocation query filters on (size and status only).
   */
  function Available(cs: Cartons, z: CartonSize): set<CartonId>
  {
    set id | id in cs && cs[id].size == z && cs[id].status == CartonStatus.INSTOCK
  }

  /** The cartons of size `z` whose reservation link names `rid`. */
  function Linked(cs: Cartons, rid: ReservationId, z: CartonSize): set<CartonId>
  {
    set id | id in cs && cs[id].reservationId == Some(rid) && cs[id].size == z
  }

  /** Every carton whose reservation link names `rid` (the reservation's `cartons` relation). */
  function LinkedTo(cs: Cartons, rid: ReservationId): set<CartonId>
  {
    set id | id in cs && cs[id].reservationId == Some(rid)
  }

  /** The total quantity of size `z` asked for by a list of lines. */
  function Demand(es: seq<Entry>, z: CartonSize): nat
  {
    if |es| == 0 then 0
    else (if es[0].size == z then es[0].quantity else 0) + Demand(es[1..], z)
  }

  /** The total quantity asked for by a list of lines, all sizes together. */
  function TotalQuantity(es: seq<Entry>): nat
  {
    if |es| == 0 then 0 else es[0].quantity + TotalQuantity(es[1..])
  }

  /** The demand of a list is the sum of its demands per size. */
  lemma {:induction false} TotalIsSumOfDemands(es: seq<Entry>)
    ensures TotalQuantity(es)
            == Demand(es, XS) + Demand(es, S) + Demand(es, M) + Demand(es, L) + Demand(es, XL) + Demand(es, XXL)
  {
    if |es| > 0 {
      TotalIsSumOfDemands(es[1..]);
    }
  }

  /** Demand distributes over concatenation of request lists. */
  lemma {:induction false} DemandAppend(a: seq<Entry>, b: seq<Entry>, z: CartonSize)
    ensures Demand(a + b, z) == Demand(a, z) + Demand(b, z)
    decreases |a|
  {
    if |a| == 0 {
      assert a + b == b;
    } else {
      assert (a + b)[1..] == a[1..] + b;
      DemandAppend(a[1..], b, z);
    }
  }

  /** The carton after allocation has claimed it for reservation `rid`. */
  function ClaimOne(c: Carton, rid: ReservationId): Carton
  {
    c.(status := CartonStatus.RESERVED, reservationId := Some(rid))
  }

  /** The carton after cancellation has released it. */
  function ReleaseOne(c: Carton): Carton
  {
    c.(status := CartonStatus.INSTOCK, reservationId := None)
  }

  /**
   * Marks the `picked` cartons RESERVED and links them to `rid`; every
   * other carton keeps its row.
   */
  function Claim(cs: Cartons, picked: set<CartonId>, rid: ReservationId): (r: Cartons)
    ensures r.Keys == cs.Keys
    ensures forall id :: id in cs && id !in picked ==> r[id] == cs[id]
    ensures forall id :: id in cs && id in picked ==> r[id] == ClaimOne(cs[id], rid)
  {
    map id | id in cs :: if id in picked then ClaimOne(cs[id], rid) else cs[id]
  }

  /**
   * Puts every carton linked to `rid` back in stock with a null link,
   * whatever its status was; every other carton keeps its row.
   */
  function Release(cs: Cartons, rid: ReservationId): (r: Cartons)
    ensures r.Keys == cs.Keys
    ensures forall id :: id in cs && cs[id].reservationId != Some(rid) ==> r[id] == cs[id]
    ensures forall id :: id in cs && cs[id].reservationId == Some(rid) ==> r[id] == ReleaseOne(cs[id])
    ensures LinkedTo(r, rid) == {}
  {
    map id | id in cs :: if cs[id].reservationId == Some(rid) then ReleaseOne(cs[id]) else cs[id]
  }

  /** Releasing a reservation twice is the same as releasing it once. */
  lemma ReleaseIdempotent(cs: Cartons, rid: ReservationId)
    ensures Release(Release(cs, rid), rid) == Release(cs, rid)
  {
  }

  lemma SubsetCardinality<T>(a: set<T>, b: set<T>)
    requires a <= b
    ensures |a| <= |b|
  {
    assert b == a + (b - a);
  }

  function Min(a: nat, b: nat): nat
  {
    if a <= b then a else b
  }

  /**
   * The allocation query: at most `limit` INSTOCK cartons of size `z`,
   * in no particular order. It returns `limit` of them when that many
   * exist and all of them otherwise.
   */
  method QueryAvailable(cs: Cartons, z: CartonSize, limit: nat) returns (found: set<CartonId>)
    ensures found <= Available(cs, z)
    ensures |found| == Min(limit, |Available(cs, z)|)
  {
    var pool := Available(cs, z);
    found := {};
    while |found| < limit && pool != {}
      invariant found !! pool
      invariant found + pool == Available(cs, z)
      invariant |found| <= limit
      decreases |pool|
    {
      var id :| id in pool;
      found := found + {id};
      pool := pool - {id};
    }
    assert |found + pool| == |found| + |pool|;
  }

  /** Claiming removes exactly the claimed cartons from the pool of every size. */
  lemma ClaimPoolSet(cs: Cartons, picked: set<CartonId>, rid: ReservationId, z: CartonSize)
    ensures Available(Claim(cs, picked, rid), z) == Available(cs, z) - picked
  {
    var cl := Claim(cs, picked, rid);
    forall id | id in Available(cs, z) - picked ensures id in Available(cl, z) {
      assert cl[id] == cs[id];
    }
    forall id | id in Available(cl, z) ensures id in Available(cs, z) - picked {
      assert id !in picked;
      assert cl[id] == cs[id];
    }
  }

  /**
   * Claiming a subset of the size-`zp` pool removes exactly that subset
   * from the pool of every size; only the pool of size `zp` shrinks.
   */
  lemma ClaimShrinksPool(cs: Cartons, picked: set<CartonId>, rid: ReservationId, zp: CartonSize, z: CartonSize)
    requires picked <= Available(cs, zp)
    ensures Available(Claim(cs, picked, rid), z) == Available(cs, z) - picked
    ensures |Available(Claim(cs, picked, rid), z)|
            == |Available(cs, z)| - (if z == zp then |picked| else 0)
  {
    ClaimPoolSet(cs, picked, rid, z);
    var before := Available(cs, z);
    var after := before - picked;
    if z == zp {
      assert before == after + picked;
    } else {
      assert before * picked == {};
      assert after == before;
    }
  }

  /** Claiming a subset of the size-`zp` pool for `rid` adds it to `rid`'s cartons of size `zp`. */
  lemma ClaimLinkedSet(cs: Cartons, picked: set<CartonId>, rid: ReservationId, zp: CartonSize, z: CartonSize)
    requires picked <= Available(cs, zp)
    ensures Linked(Claim(cs, picked, rid), rid, z) == Linked(cs, rid, z) + (if z == zp then picked else {})
  {
    var cl := Claim(cs, picked, rid);
    forall id | id in Linked(cl, rid, z) && id !in picked ensures id in Linked(cs, rid, z) {
      assert cl[id] == cs[id];
    }
    forall id | id in Linked(cs, rid, z) && id !in picked ensures id in Linked(cl, rid, z) {
      assert cl[id] == cs[id];
    }
    forall id | id in picked ensures (id in Linked(cl, rid, z) <==> z == zp) {
      assert cs[id].size == zp;
    }
  }

  /**
   * Claiming a subset of the size-`zp` pool for `rid` adds exactly that
   * subset to the cartons of size `zp` linked to `rid`, provided every
   * carton already linked to `rid` is RESERVED (hence not in the pool).
   */
  lemma ClaimGrowsLinked(cs: Cartons, picked: set<CartonId>, rid: ReservationId, zp: CartonSize, z: CartonSize)
    requires picked <= Available(cs, zp)
    requires forall id :: id in LinkedTo(cs, rid) ==> cs[id].status == CartonStatus.RESERVED
    ensures Linked(Claim(cs, picked, rid), rid, z) == Linked(cs, rid, z) + (if z == zp then picked else {})
    ensures |Linked(Claim(cs, picked, rid), rid, z)|
            == |Linked(cs, rid, z)| + (if z == zp then |picked| else 0)
  {
    ClaimLinkedSet(cs, picked, rid, zp, z);
    assert Linked(cs, rid, z) !! picked by {
      forall id | id in Linked(cs, rid, z) ensures id !in picked {
        assert id in LinkedTo(cs, rid);
      }
    }
  }

  /** Releasing `rid` adds its cartons of size `z` to the pool of that size. */
  lemma ReleasePoolSet(cs: Cartons, rid: ReservationId, z: CartonSize)
    ensures Available(Release(cs, rid), z) == Available(cs, z) + Linked(cs, rid, z)
  {
    var after := Release(cs, rid);
    forall id | id in Available(cs, z) + Linked(cs, rid, z) ensures id in Available(after, z) {
      if cs[id].reservationId != Some(rid) {
        assert after[id] == cs[id];
      }
    }
    forall id | id in Available(after, z) ensures id in Available(cs, z) + Linked(cs, rid, z) {
      if cs[id].reservationId != Some(rid) {
        assert after[id] == cs[id];
      }
    }
  }
}
