/**
 * Allocation: a customer's reservation request. One RESERVED reservation is
 * created; then each `(size, quantity)` line, in request order, claims
 * `quantity` INSTOCK cartons of that size; a line that finds too few aborts
 * the whole request and nothing is written.
 *
 * The allocation query has a limit but no ordering, so which cartons a line
 * claims is not determined by the store. The choice is therefore a
 * parameter, `picks`, one set of carton ids per line, and `PicksOk` says
 * what the query may return. Every property below holds for every choice
 * `PicksOk` admits; the method `Allocate` shows a choice always exists.
 */
module Allocation {
  import opened Wrappers
  import opened Domain
  import opened Inventory
  import opened Validators

  /** A carton row after allocation is unchanged, or was in stock and is now claimed for `rid`. */
  predicate Kept(before: Carton, after: Carton, rid: ReservationId)
  {
    after == before || (before.status == CartonStatus.INSTOCK && after == ClaimOne(before, rid))
  }

  /**
   * `picks` is a possible answer of the allocation query for every line the
   * walk reaches: exactly `quantity` ids from the current pool of that size,
   * the pool having shrunk by the claims of the earlier lines. Lines after a
   * short line are never queried, so their picks are unconstrained.
   */
  predicate PicksOk(cs: Cartons, rid: ReservationId, es: seq<Entry>, picks: seq<set<CartonId>>)
    decreases |es|
  {
    && |picks| == |es|
    && (|es| > 0 && es[0].quantity <= |Available(cs, es[0].size)| ==>
          && picks[0] <= Available(cs, es[0].size)
          && |picks[0]| == es[0].quantity
          && PicksOk(Claim(cs, picks[0], rid), rid, es[1..], picks[1..]))
  }

  /**
   * The loop over the request lines, on the carton table only: the final
   * table, or the size of the first line that came up short.
   */
  function Walk(cs: Cartons, rid: ReservationId, es: seq<Entry>, picks: seq<set<CartonId>>): (r: Result<Cartons, CartonSize>)
    requires PicksOk(cs, rid, es, picks)
    ensures r.Success? ==> r.value.Keys == cs.Keys
    ensures r.Success? ==> forall id :: id in cs ==> Kept(cs[id], r.value[id], rid)
    ensures r.Failure? ==> exists i :: 0 <= i < |es| && es[i].size == r.error
    decreases |es|
  {
    if |es| == 0 then Success(cs)
    else if |Available(cs, es[0].size)| < es[0].quantity then Failure(es[0].size)
    else
      var r := Walk(Claim(cs, picks[0], rid), rid, es[1..], picks[1..]);
      assert r.Failure? ==> exists i :: 1 <= i < |es| && es[i].size == r.error by {
        if r.Failure? {
          var i :| 0 <= i < |es[1..]| && es[1..][i].size == r.error;
          assert es[i + 1] == es[1..][i];
        }
      }
      r
  }

  /** Line `i` is the one that comes up short: with the lines before it, its size is asked for more than stocked. */
  predicate ShortAt(cs: Cartons, es: seq<Entry>, i: int)
  {
    0 <= i < |es| && Demand(es[..i + 1], es[i].size) > |Available(cs, es[i].size)|
  }

  /** The reservation every successful request creates. */
  function NewReservation(p: Principal): Reservation
  {
    Reservation(ReservationStatus.RESERVED, Some(p.id))
  }

  /** The choice of cartons is admissible whenever the request reaches the allocation loop. */
  predicate AddPicksOk(s: Store, p: Principal, body: RawBody, picks: seq<set<CartonId>>)
  {
    p.kind == CUSTOMER && ReservationValidator(body).Success? ==>
      PicksOk(s.cartons, s.nextReservation, ReservationValidator(body).value, picks)
  }

  /**
   * The reservation request. The role check comes before body validation;
   * on any error the store is left as it was.
   */
  function AddReservation(s: Store, p: Principal, body: RawBody, picks: seq<set<CartonId>>): (r: Result<Store, Error>)
    requires AddPicksOk(s, p, body, picks)
    ensures p.kind != CUSTOMER ==> r == Failure(Forbidden)
    ensures p.kind == CUSTOMER && !BodyAccepted(body, MaxReservationQuantity) ==> r == Failure(Invalid)
    ensures r.Success? ==>
              && r.value.users == s.users
              && r.value.reservations == s.reservations[s.nextReservation := NewReservation(p)]
              && r.value.nextReservation == s.nextReservation + 1
              && r.value.nextCarton == s.nextCarton
              && r.value.cartons.Keys == s.cartons.Keys
              && forall id :: id in s.cartons ==> Kept(s.cartons[id], r.value.cartons[id], s.nextReservation)
  {
    if p.kind != CUSTOMER then Failure(Forbidden)
    else
      match ReservationValidator(body)
      case Failure(e) => Failure(e)
      case Success(es) =>
        var rid := s.nextReservation;
        match Walk(s.cartons, rid, es, picks)
        case Failure(z) => Failure(CartonNotAvailable(z))
        case Success(cs) => Success(Store(s.users, cs, s.reservations[rid := NewReservation(p)], s.nextCarton, rid + 1))
  }

  /** One step of the walk, seen from the choice sequence. */
  lemma PicksOkStep(cs: Cartons, rid: ReservationId, es: seq<Entry>, p: set<CartonId>, rest: seq<set<CartonId>>)
    requires |es| > 0 && es[0].quantity <= |Available(cs, es[0].size)|
    requires p <= Available(cs, es[0].size) && |p| == es[0].quantity
    ensures PicksOk(cs, rid, es, [p] + rest) <==> PicksOk(Claim(cs, p, rid), rid, es[1..], rest)
    ensures PicksOk(Claim(cs, p, rid), rid, es[1..], rest) ==>
              Walk(cs, rid, es, [p] + rest) == Walk(Claim(cs, p, rid), rid, es[1..], rest)
  {
    assert ([p] + rest)[0] == p;
    assert ([p] + rest)[1..] == rest;
  }

  /**
   * The invariant of the allocation loop: the choices made so far for the
   * lines before `i`, followed by any admissible choices for the remaining
   * lines from the current table, are admissible from the initial table and
   * give the same walk.
   */
  ghost predicate LoopInv(cs0: Cartons, cs: Cartons, rid: ReservationId, es: seq<Entry>, i: nat, done: seq<set<CartonId>>)
    requires i <= |es|
  {
    forall rest :: PicksOk(cs, rid, es[i..], rest) ==>
      && PicksOk(cs0, rid, es, done + rest)
      && Walk(cs0, rid, es, done + rest) == Walk(cs, rid, es[i..], rest)
  }

  /** Claiming the query's answer for line `i` re-establishes the loop invariant at `i + 1`. */
  lemma LoopStep(cs0: Cartons, cs: Cartons, rid: ReservationId, es: seq<Entry>, i: nat, done: seq<set<CartonId>>, found: set<CartonId>)
    requires i < |es| && LoopInv(cs0, cs, rid, es, i, done)
    requires found <= Available(cs, es[i].size) && |found| == es[i].quantity
    ensures LoopInv(cs0, Claim(cs, found, rid), rid, es, i + 1, done + [found])
  {
    SubsetCardinality(found, Available(cs, es[i].size));
    forall rest | PicksOk(Claim(cs, found, rid), rid, es[i + 1..], rest)
      ensures && PicksOk(cs0, rid, es, done + [found] + rest)
              && Walk(cs0, rid, es, done + [found] + rest) == Walk(Claim(cs, found, rid), rid, es[i + 1..], rest)
    {
      assert es[i..][1..] == es[i + 1..];
      PicksOkStep(cs, rid, es[i..], found, rest);
      assert done + [found] + rest == done + ([found] + rest);
    }
  }

  /**
   * The allocation loop: runs the query for each line in order, stops at
   * the first short line, and otherwise claims what the query returned.
   * It returns the choices it made, and its outcome is the walk over them.
   */
  method ClaimLines(cs0: Cartons, rid: ReservationId, es: seq<Entry>) returns (res: Result<Cartons, CartonSize>, picks: seq<set<CartonId>>)
    ensures PicksOk(cs0, rid, es, picks)
    ensures res == Walk(cs0, rid, es, picks)
  {
    picks := [];
    var cs := cs0;
    var i := 0;
    forall rest | PicksOk(cs0, rid, es[0..], rest)
      ensures PicksOk(cs0, rid, es, picks + rest) && Walk(cs0, rid, es, picks + rest) == Walk(cs0, rid, es[0..], rest)
    {
      assert es[0..] == es;
      assert picks + rest == rest;
    }
    while i < |es|
      invariant 0 <= i <= |es|
      invariant |picks| == i
      invariant LoopInv(cs0, cs, rid, es, i, picks)
    {
      var e := es[i];
      var found := QueryAvailable(cs, e.size, e.quantity);
      if |found| < e.quantity {
        var rest: seq<set<CartonId>> := seq(|es| - i, _ => {});
        assert PicksOk(cs, rid, es[i..], rest);
        picks := picks + rest;
        res := Failure(e.size);
        return;
      }
      LoopStep(cs0, cs, rid, es, i, picks, found);
      picks := picks + [found];
      cs := Claim(cs, found, rid);
      i := i + 1;
    }
    assert PicksOk(cs, rid, es[|es|..], []);
    assert picks + [] == picks;
    res := Success(cs);
  }

  /**
   * The reservation controller action: role check, body validation, then
   * the allocation loop. Its outcome is the one `AddReservation` prescribes
   * for the choices the queries made.
   */
  method Allocate(s: Store, p: Principal, body: RawBody) returns (r: Result<Store, Error>, picks: seq<set<CartonId>>)
    ensures AddPicksOk(s, p, body, picks)
    ensures r == AddReservation(s, p, body, picks)
  {
    picks := [];
    if p.kind != CUSTOMER {
      r := Failure(Forbidden);
      return;
    }
    var v := ReservationValidator(body);
    if v.Failure? {
      r := Failure(v.error);
      return;
    }
    var rid := s.nextReservation;
    var res;
    res, picks := ClaimLines(s.cartons, rid, v.value);
    match res {
      case Failure(z) =>
        r := Failure(CartonNotAvailable(z));
      case Success(cs) =>
        r := Success(Store(s.users, cs, s.reservations[rid := NewReservation(p)], s.nextCarton, rid + 1));
    }
  }

  /**
   * The walk succeeds exactly when, for every size, the request asks for no
   * more cartons than the store holds in stock: a size that appears on
   * several lines draws from one shrinking pool.
   */
  lemma {:induction false} WalkSucceedsIff(cs: Cartons, rid: ReservationId, es: seq<Entry>, picks: seq<set<CartonId>>)
    requires PicksOk(cs, rid, es, picks)
    ensures Walk(cs, rid, es, picks).Success? <==> forall z :: Demand(es, z) <= |Available(cs, z)|
    decreases |es|
  {
    if |es| > 0 {
      var e := es[0];
      if |Available(cs, e.size)| < e.quantity {
        assert Demand(es, e.size) > |Available(cs, e.size)|;
      } else {
        var next := Claim(cs, picks[0], rid);
        WalkSucceedsIff(next, rid, es[1..], picks[1..]);
        forall z ensures Demand(es[1..], z) <= |Available(next, z)| <==> Demand(es, z) <= |Available(cs, z)| {
          ClaimShrinksPool(cs, picks[0], rid, e.size, z);
        }
      }
    }
  }

  /** Shortness of a later line is unchanged by claiming the first line's cartons. */
  lemma ShortAtShift(cs: Cartons, rid: ReservationId, es: seq<Entry>, p: set<CartonId>, i: int)
    requires |es| > 0 && es[0].quantity <= |Available(cs, es[0].size)|
    requires p <= Available(cs, es[0].size) && |p| == es[0].quantity
    requires 1 <= i < |es|
    ensures ShortAt(cs, es, i) <==> ShortAt(Claim(cs, p, rid), es[1..], i - 1)
  {
    var z := es[i].size;
    assert es[1..][i - 1] == es[i];
    assert es[..i + 1] == [es[0]] + es[1..][..i];
    DemandAppend([es[0]], es[1..][..i], z);
    assert Demand([es[0]], z) == if es[0].size == z then es[0].quantity else 0 by {
      assert [es[0]][1..] == [];
    }
    ClaimShrinksPool(cs, p, rid, es[0].size, z);
  }

  /**
   * The walk fails exactly when some line comes up short, and then it
   * reports the size of the first such line in request order.
   */
  lemma {:induction false} WalkFailsAtFirstShortLine(cs: Cartons, rid: ReservationId, es: seq<Entry>, picks: seq<set<CartonId>>)
    requires PicksOk(cs, rid, es, picks)
    ensures Walk(cs, rid, es, picks).Failure? <==> exists i :: ShortAt(cs, es, i)
    ensures Walk(cs, rid, es, picks).Failure? ==>
              exists i :: && ShortAt(cs, es, i)
                          && (forall j :: 0 <= j < i ==> !ShortAt(cs, es, j))
                          && Walk(cs, rid, es, picks).error == es[i].size
    decreases |es|
  {
    if |es| > 0 {
      var e := es[0];
      assert es[..1] == [e];
      assert Demand([e], e.size) == e.quantity by {
        assert [e][1..] == [];
      }
      if |Available(cs, e.size)| < e.quantity {
        assert ShortAt(cs, es, 0);
      } else {
        assert !ShortAt(cs, es, 0);
        var next := Claim(cs, picks[0], rid);
        WalkFailsAtFirstShortLine(next, rid, es[1..], picks[1..]);
        forall i | 1 <= i < |es| ensures ShortAt(cs, es, i) <==> ShortAt(next, es[1..], i - 1) {
          ShortAtShift(cs, rid, es, picks[0], i);
        }
        if exists i :: ShortAt(cs, es, i) {
          var i :| ShortAt(cs, es, i);
          assert ShortAt(next, es[1..], i - 1);
        }
        if Walk(cs, rid, es, picks).Failure? {
          var k :| && ShortAt(next, es[1..], k)
                   && (forall j :: 0 <= j < k ==> !ShortAt(next, es[1..], j))
                   && Walk(next, rid, es[1..], picks[1..]).error == es[1..][k].size;
          assert ShortAt(cs, es, k + 1);
          forall j | 0 <= j < k + 1 ensures !ShortAt(cs, es, j) {
            if j > 0 {
              assert !ShortAt(next, es[1..], j - 1);
            }
          }
        }
      }
    }
  }

  /** Every carton linked to `rid` is RESERVED. */
  predicate LinkedAreReserved(cs: Cartons, rid: ReservationId)
  {
    forall id :: id in LinkedTo(cs, rid) ==> cs[id].status == CartonStatus.RESERVED
  }

  /**
   * A successful walk links, for every size, exactly the requested number
   * of further cartons to `rid`, and the stock of that size shrinks by the
   * same number.
   */
  lemma {:induction false} WalkLinksDemand(cs: Cartons, rid: ReservationId, es: seq<Entry>, picks: seq<set<CartonId>>, z: CartonSize)
    requires PicksOk(cs, rid, es, picks)
    requires LinkedAreReserved(cs, rid)
    requires Walk(cs, rid, es, picks).Success?
    ensures |Linked(Walk(cs, rid, es, picks).value, rid, z)| == |Linked(cs, rid, z)| + Demand(es, z)
    ensures |Available(Walk(cs, rid, es, picks).value, z)| == |Available(cs, z)| - Demand(es, z)
    decreases |es|
  {
    if |es| > 0 {
      var e := es[0];
      var next := Claim(cs, picks[0], rid);
      forall id | id in LinkedTo(next, rid) ensures next[id].status == CartonStatus.RESERVED {
        if id !in picks[0] {
          assert id in LinkedTo(cs, rid);
        }
      }
      WalkLinksDemand(next, rid, es[1..], picks[1..], z);
      ClaimGrowsLinked(cs, picks[0], rid, e.size, z);
      ClaimShrinksPool(cs, picks[0], rid, e.size, z);
    }
  }

  /** Under referential integrity no carton is linked to the id the next reservation gets. */
  lemma FreshIdHasNoCartons(s: Store)
    requires Integrity(s)
    ensures LinkedTo(s.cartons, s.nextReservation) == {}
    ensures forall z :: Linked(s.cartons, s.nextReservation, z) == {}
    ensures s.nextReservation !in s.reservations
  {
    forall id | id in s.cartons ensures s.cartons[id].reservationId != Some(s.nextReservation) {
      if s.cartons[id].reservationId.Some? {
        assert s.cartons[id].reservationId.value in s.reservations;
      }
    }
  }

  /**
   * All or nothing: a valid request from a customer succeeds exactly when
   * every size is in stock in the requested total, and otherwise fails
   * naming the size of the first line, in request order, that runs short.
   */
  lemma AllocationAllOrNothing(s: Store, p: Principal, body: RawBody, picks: seq<set<CartonId>>)
    requires AddPicksOk(s, p, body, picks)
    requires p.kind == CUSTOMER && BodyAccepted(body, MaxReservationQuantity)
    ensures var es := ReservationValidator(body).value;
            AddReservation(s, p, body, picks).Success? <==> forall z :: Demand(es, z) <= |Available(s.cartons, z)|
    ensures var es := ReservationValidator(body).value;
            AddReservation(s, p, body, picks).Failure? ==>
              exists i :: && ShortAt(s.cartons, es, i)
                          && (forall j :: 0 <= j < i ==> !ShortAt(s.cartons, es, j))
                          && AddReservation(s, p, body, picks).error == CartonNotAvailable(es[i].size)
  {
    var es := ReservationValidator(body).value;
    WalkSucceedsIff(s.cartons, s.nextReservation, es, picks);
    WalkFailsAtFirstShortLine(s.cartons, s.nextReservation, es, picks);
  }

  /**
   * When nothing was linked to `rid` before, the rows linked to it after are
   * exactly the claimed ones, and every other row is unchanged.
   */
  lemma KeptRows(cs0: Cartons, cs1: Cartons, rid: ReservationId)
    requires cs1.Keys == cs0.Keys
    requires forall id :: id in cs0 ==> Kept(cs0[id], cs1[id], rid)
    requires LinkedTo(cs0, rid) == {}
    ensures forall id :: id in LinkedTo(cs1, rid) ==>
              cs0[id].status == CartonStatus.INSTOCK && cs1[id] == ClaimOne(cs0[id], rid)
    ensures forall id :: id in cs0 && id !in LinkedTo(cs1, rid) ==> cs1[id] == cs0[id]
  {
    forall id | id in LinkedTo(cs1, rid)
      ensures cs0[id].status == CartonStatus.INSTOCK && cs1[id] == ClaimOne(cs0[id], rid)
    {
      assert Kept(cs0[id], cs1[id], rid);
      assert id !in LinkedTo(cs0, rid);
    }
  }

  /**
   * A successful request creates exactly one reservation, RESERVED and
   * owned by the caller, links to it exactly the requested number of
   * cartons of each size, each of them taken from stock, and changes no
   * other carton.
   */
  lemma AllocationEffect(s: Store, p: Principal, body: RawBody, picks: seq<set<CartonId>>)
    requires Integrity(s)
    requires AddPicksOk(s, p, body, picks)
    requires AddReservation(s, p, body, picks).Success?
    ensures s.nextReservation !in s.reservations
    ensures AddReservation(s, p, body, picks).value.reservations.Keys == s.reservations.Keys + {s.nextReservation}
    ensures AddReservation(s, p, body, picks).value.reservations[s.nextReservation]
            == Reservation(ReservationStatus.RESERVED, Some(p.id))
    ensures forall z :: |Linked(AddReservation(s, p, body, picks).value.cartons, s.nextReservation, z)|
                        == Demand(ReservationValidator(body).value, z)
    ensures forall z :: |Available(AddReservation(s, p, body, picks).value.cartons, z)|
                        == |Available(s.cartons, z)| - Demand(ReservationValidator(body).value, z)
    ensures var cs' := AddReservation(s, p, body, picks).value.cartons;
            forall id :: id in LinkedTo(cs', s.nextReservation) ==>
              && s.cartons[id].status == CartonStatus.INSTOCK
              && cs'[id] == ClaimOne(s.cartons[id], s.nextReservation)
    ensures var cs' := AddReservation(s, p, body, picks).value.cartons;
            forall id :: id in s.cartons && id !in LinkedTo(cs', s.nextReservation) ==> cs'[id] == s.cartons[id]
  {
    FreshIdHasNoCartons(s);
    SuccessIsWalk(s, p, body, picks);
    WalkEffect(s.cartons, s.nextReservation, ReservationValidator(body).value, picks);
  }

  /** A successful request is a customer's valid body whose line walk succeeded. */
  lemma SuccessIsWalk(s: Store, p: Principal, body: RawBody, picks: seq<set<CartonId>>)
    requires AddPicksOk(s, p, body, picks)
    requires AddReservation(s, p, body, picks).Success?
    ensures p.kind == CUSTOMER && ReservationValidator(body).Success?
    ensures PicksOk(s.cartons, s.nextReservation, ReservationValidator(body).value, picks)
    ensures Walk(s.cartons, s.nextReservation, ReservationValidator(body).value, picks)
            == Success(AddReservation(s, p, body, picks).value.cartons)
  {
  }

  /** The carton side of a successful request, for a reservation id nothing is linked to yet. */
  lemma WalkEffect(cs: Cartons, rid: ReservationId, es: seq<Entry>, picks: seq<set<CartonId>>)
    requires PicksOk(cs, rid, es, picks)
    requires Walk(cs, rid, es, picks).Success?
    requires LinkedTo(cs, rid) == {}
    ensures forall z :: |Linked(Walk(cs, rid, es, picks).value, rid, z)| == Demand(es, z)
    ensures forall z :: |Available(Walk(cs, rid, es, picks).value, z)| == |Available(cs, z)| - Demand(es, z)
    ensures var cs' := Walk(cs, rid, es, picks).value;
            forall id :: id in LinkedTo(cs', rid) ==> cs[id].status == CartonStatus.INSTOCK && cs'[id] == ClaimOne(cs[id], rid)
    ensures var cs' := Walk(cs, rid, es, picks).value;
            forall id :: id in cs && id !in LinkedTo(cs', rid) ==> cs'[id] == cs[id]
  {
    var cs' := Walk(cs, rid, es, picks).value;
    forall z ensures |Linked(cs', rid, z)| == Demand(es, z) && |Available(cs', z)| == |Available(cs, z)| - Demand(es, z) {
      assert Linked(cs, rid, z) <= LinkedTo(cs, rid);
      WalkLinksDemand(cs, rid, es, picks, z);
    }
    KeptRows(cs, cs', rid);
  }

  /** A successful request keeps referential integrity and the carton link invariant. */
  lemma AllocationPreservesInvariants(s: Store, p: Principal, body: RawBody, picks: seq<set<CartonId>>)
    requires Integrity(s) && LinkInv(s)
    requires AddPicksOk(s, p, body, picks)
    requires AddReservation(s, p, body, picks).Success?
    ensures Integrity(AddReservation(s, p, body, picks).value)
    ensures LinkInv(AddReservation(s, p, body, picks).value)
  {
    var s' := AddReservation(s, p, body, picks).value;
    forall id | id in s'.cartons
      ensures s'.cartons[id].reservationId.Some? ==> s'.cartons[id].reservationId.value in s'.reservations
      ensures s'.cartons[id].reservationId.Some? <==> s'.cartons[id].status == CartonStatus.RESERVED
    {
      assert Kept(s.cartons[id], s'.cartons[id], s.nextReservation);
    }
  }

  /**
   * The rollback scenario of the functional tests: with no stock, a request
   * for 3 L and 2 M fails on its first line, naming size L, and writes nothing.
   */
  lemma EmptyStockRequestFails(s: Store, p: Principal, picks: seq<set<CartonId>>)
    requires p.kind == CUSTOMER && s.cartons == map[] && |picks| == 2
    ensures var body := RawBody(Some([RawEntry("L", 3), RawEntry("M", 2)]));
            && AddPicksOk(s, p, body, picks)
            && AddReservation(s, p, body, picks) == Failure(CartonNotAvailable(L))
  {
    var body := RawBody(Some([RawEntry("L", 3), RawEntry("M", 2)]));
    assert EntryAccepted(RawEntry("L", 3), MaxReservationQuantity);
    assert EntryAccepted(RawEntry("M", 2), MaxReservationQuantity);
    var es := ReservationValidator(body).value;
    assert es[0] == Entry(L, 3);
    assert Available(s.cartons, L) == {};
  }

  /** Two carton tables that differ only in owners have the same pools. */
  lemma PoolsIgnoreOwners(cs: Cartons, cs2: Cartons)
    requires cs2.Keys == cs.Keys
    requires forall id :: id in cs ==> cs2[id] == cs[id].(merchantId := cs2[id].merchantId)
    ensures forall z :: Available(cs, z) == Available(cs2, z)
  {
    forall z ensures Available(cs, z) == Available(cs2, z) {
      forall id | id in cs ensures cs2[id].size == cs[id].size && cs2[id].status == cs[id].status {
        assert cs2[id] == cs[id].(merchantId := cs2[id].merchantId);
      }
    }
  }

  /** There is only one first short line. */
  lemma FirstShortIsUnique(cs: Cartons, es: seq<Entry>, i: int, j: int)
    requires ShortAt(cs, es, i) && forall k :: 0 <= k < i ==> !ShortAt(cs, es, k)
    requires ShortAt(cs, es, j) && forall k :: 0 <= k < j ==> !ShortAt(cs, es, k)
    ensures i == j
  {
  }

  /**
   * The allocation query filters on size and status only: two stores whose
   * cartons differ only in their merchants give a request the same outcome,
   * so a request draws on every merchant's stock.
   */
  lemma AllocationIgnoresOwners(s: Store, s2: Store, p: Principal, body: RawBody,
                                picks: seq<set<CartonId>>, picks2: seq<set<CartonId>>)
    requires AddPicksOk(s, p, body, picks) && AddPicksOk(s2, p, body, picks2)
    requires s2.cartons.Keys == s.cartons.Keys
    requires forall id :: id in s.cartons ==> s2.cartons[id] == s.cartons[id].(merchantId := s2.cartons[id].merchantId)
    ensures AddReservation(s, p, body, picks).Success? <==> AddReservation(s2, p, body, picks2).Success?
    ensures AddReservation(s, p, body, picks).Failure? ==>
              AddReservation(s, p, body, picks) == AddReservation(s2, p, body, picks2)
  {
    if p.kind == CUSTOMER && BodyAccepted(body, MaxReservationQuantity) {
      var es := ReservationValidator(body).value;
      PoolsIgnoreOwners(s.cartons, s2.cartons);
      AllocationAllOrNothing(s, p, body, picks);
      AllocationAllOrNothing(s2, p, body, picks2);
      if AddReservation(s, p, body, picks).Failure? {
        var i :| ShortAt(s.cartons, es, i) && (forall j :: 0 <= j < i ==> !ShortAt(s.cartons, es, j))
                 && AddReservation(s, p, body, picks).error == CartonNotAvailable(es[i].size);
        var i2 :| ShortAt(s2.cartons, es, i2) && (forall j :: 0 <= j < i2 ==> !ShortAt(s2.cartons, es, j))
                  && AddReservation(s2, p, body, picks2).error == CartonNotAvailable(es[i2].size);
        assert forall j :: ShortAt(s.cartons, es, j) == ShortAt(s2.cartons, es, j);
        FirstShortIsUnique(s.cartons, es, i, i2);
      }
    }
  }
}
