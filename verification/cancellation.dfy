/**
 * Cancellation: the owner of a reservation cancels it. The ownership check
 * compares ids only, whatever the caller's role; the reservation becomes
 * CANCELED and every carton linked to it goes back in stock with a null
 * link, whatever its status was. The current status of the reservation is
 * not checked.
 */
module Cancellation {
  import opened Wrappers
  import opened Domain
  import opened Inventory
  import opened Validators
  import opened Allocation

  function Cancel(s: Store, p: Principal, rid: ReservationId): (r: Result<Store, Error>)
    ensures r.Success? <==> rid in s.reservations && s.reservations[rid].customerId == Some(p.id)
    ensures rid !in s.reservations ==> r == Failure(NotFound)
    ensures rid in s.reservations && s.reservations[rid].customerId != Some(p.id) ==> r == Failure(Forbidden)
    ensures r.Success? ==>
              && rid in s.reservations && s.reservations[rid].customerId == Some(p.id)
              && r.value.users == s.users
              && r.value.nextCarton == s.nextCarton && r.value.nextReservation == s.nextReservation
              && r.value.reservations.Keys == s.reservations.Keys
              && r.value.reservations[rid] == s.reservations[rid].(status := ReservationStatus.CANCELED)
              && (forall other :: other in s.reservations && other != rid ==>
                    r.value.reservations[other] == s.reservations[other])
              && r.value.cartons.Keys == s.cartons.Keys
              && (forall id :: id in LinkedTo(s.cartons, rid) ==> r.value.cartons[id] == ReleaseOne(s.cartons[id]))
              && (forall id :: id in s.cartons && id !in LinkedTo(s.cartons, rid) ==> r.value.cartons[id] == s.cartons[id])
              && LinkedTo(r.value.cartons, rid) == {}
    ensures r.Failure? ==> r.error == NotFound || r.error == Forbidden
  {
    if rid !in s.reservations then Failure(NotFound)
    else
      var res := s.reservations[rid];
      if res.customerId != Some(p.id) then Failure(Forbidden)
      else
        Success(s.(reservations := s.reservations[rid := res.(status := ReservationStatus.CANCELED)],
                   cartons := Release(s.cartons, rid)))
  }

  /** The check is by id: two callers with the same id get the same answer, whatever their roles. */
  lemma CancelIgnoresRole(s: Store, id: UserId, k1: UserType, k2: UserType, rid: ReservationId)
    ensures Cancel(s, Principal(id, k1), rid) == Cancel(s, Principal(id, k2), rid)
  {
  }

  /** A reservation whose customer column is NULL cannot be cancelled by anyone. */
  lemma NullCustomerCannotCancel(s: Store, p: Principal, rid: ReservationId)
    requires rid in s.reservations && s.reservations[rid].customerId.None?
    ensures Cancel(s, p, rid) == Failure(Forbidden)
  {
  }

  /** Cancelling twice leaves the store as cancelling once. */
  lemma CancelIsIdempotent(s: Store, p: Principal, rid: ReservationId)
    requires Cancel(s, p, rid).Success?
    ensures Cancel(Cancel(s, p, rid).value, p, rid) == Cancel(s, p, rid)
  {
    var s1 := Cancel(s, p, rid).value;
    ReleaseIdempotent(s.cartons, rid);
    assert s1.reservations[rid := s1.reservations[rid].(status := ReservationStatus.CANCELED)] == s1.reservations;
  }

  /**
   * Cancelling puts every carton of the reservation back in stock: the pool
   * of each size becomes the old pool plus the released cartons of that size.
   * Under the link invariant these were all RESERVED, so the pool grows by
   * exactly their number.
   */
  lemma CancelRestocks(s: Store, p: Principal, rid: ReservationId, z: CartonSize)
    requires Cancel(s, p, rid).Success?
    ensures Available(Cancel(s, p, rid).value.cartons, z) == Available(s.cartons, z) + Linked(s.cartons, rid, z)
    ensures LinkInv(s) ==>
              |Available(Cancel(s, p, rid).value.cartons, z)| == |Available(s.cartons, z)| + |Linked(s.cartons, rid, z)|
  {
    ReleasePoolSet(s.cartons, rid, z);
    if LinkInv(s) {
      assert Available(s.cartons, z) !! Linked(s.cartons, rid, z);
    }
  }

  /** Cancelling keeps referential integrity and the carton link invariant. */
  lemma CancelPreservesInvariants(s: Store, p: Principal, rid: ReservationId)
    requires Integrity(s) && LinkInv(s)
    requires Cancel(s, p, rid).Success?
    ensures Integrity(Cancel(s, p, rid).value)
    ensures LinkInv(Cancel(s, p, rid).value)
  {
    var s' := Cancel(s, p, rid).value;
    forall id | id in s'.cartons
      ensures s'.cartons[id].reservationId.Some? ==> s'.cartons[id].reservationId.value in s'.reservations
      ensures s'.cartons[id].reservationId.Some? <==> s'.cartons[id].status == CartonStatus.RESERVED
    {
      if id !in LinkedTo(s.cartons, rid) {
        assert s'.cartons[id] == s.cartons[id];
      }
    }
  }

  /**
   * Releasing `rid` restores a carton table in which only stock cartons
   * without a link were claimed for `rid`, and nothing was linked to it before.
   */
  lemma ReleaseUndoesClaims(cs0: Cartons, cs1: Cartons, rid: ReservationId)
    requires cs1.Keys == cs0.Keys
    requires forall id :: id in cs0 ==> Kept(cs0[id], cs1[id], rid)
    requires LinkedTo(cs0, rid) == {}
    requires forall id :: id in cs0 && cs0[id].status == CartonStatus.INSTOCK ==> cs0[id].reservationId.None?
    ensures Release(cs1, rid) == cs0
  {
    forall id | id in cs0 ensures Release(cs1, rid)[id] == cs0[id] {
      assert Kept(cs0[id], cs1[id], rid);
      assert id !in LinkedTo(cs0, rid);
    }
  }

  /**
   * Cancellation undoes allocation: when a customer cancels the reservation
   * a request of theirs has just created, every carton row is back to what
   * it was, and the only trace left is the CANCELED reservation.
   */
  lemma CancelUndoesAllocation(s: Store, p: Principal, body: RawBody, picks: seq<set<CartonId>>)
    requires Integrity(s) && LinkInv(s)
    requires AddPicksOk(s, p, body, picks)
    requires AddReservation(s, p, body, picks).Success?
    ensures var s1 := AddReservation(s, p, body, picks).value;
            && Cancel(s1, p, s.nextReservation).Success?
            && Cancel(s1, p, s.nextReservation).value.cartons == s.cartons
            && Cancel(s1, p, s.nextReservation).value.reservations
               == s.reservations[s.nextReservation := Reservation(ReservationStatus.CANCELED, Some(p.id))]
  {
    var rid := s.nextReservation;
    var s1 := AddReservation(s, p, body, picks).value;
    FreshIdHasNoCartons(s);
    assert s1.reservations == s.reservations[rid := NewReservation(p)];
    CancelRestoresCartons(s.cartons, s1, p, rid);
  }

  /** Cancelling `rid` for its customer, once only stock cartons were claimed for it. */
  lemma CancelRestoresCartons(cs0: Cartons, s1: Store, p: Principal, rid: ReservationId)
    requires rid in s1.reservations && s1.reservations[rid].customerId == Some(p.id)
    requires s1.cartons.Keys == cs0.Keys
    requires forall id :: id in cs0 ==> Kept(cs0[id], s1.cartons[id], rid)
    requires LinkedTo(cs0, rid) == {}
    requires forall id :: id in cs0 && cs0[id].status == CartonStatus.INSTOCK ==> cs0[id].reservationId.None?
    ensures Cancel(s1, p, rid).Success?
    ensures Cancel(s1, p, rid).value.cartons == cs0
    ensures Cancel(s1, p, rid).value.reservations == s1.reservations[rid := s1.reservations[rid].(status := ReservationStatus.CANCELED)]
  {
    ReleaseUndoesClaims(cs0, s1.cartons, rid);
  }
}
