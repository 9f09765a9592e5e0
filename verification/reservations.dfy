/**
 * Reading reservations: the lookup of one reservation, the listing of a
 * customer's reservations, and the model relations between the three
 * tables (a carton's reservation, a reservation's cartons and customer).
 */
module Reservations {
  import opened Wrappers
  import opened Domain
  import opened Inventory
  import opened Validators
  import opened Allocation
  import opened Cancellation

  /** The lookup of one reservation. */
  function ViewReservation(s: Store, rid: ReservationId): (r: Result<Reservation, Error>)
    ensures r.Success? <==> rid in s.reservations
    ensures r.Success? ==> r.value == s.reservations[rid]
    ensures r.Failure? ==> r.error == NotFound
  {
    if rid in s.reservations then Success(s.reservations[rid]) else Failure(NotFound)
  }

  /**
   * The reservations of a customer: an unknown user is NotFound, a user who
   * is not a customer is Forbidden; the caller's own role is not checked.
   */
  function ListReservations(s: Store, target: UserId): (r: Result<map<ReservationId, Reservation>, Error>)
    ensures target !in s.users ==> r == Failure(NotFound)
    ensures r.Success? <==> target in s.users && s.users[target].kind == CUSTOMER
    ensures target in s.users && s.users[target].kind != CUSTOMER ==> r == Failure(Forbidden)
    ensures r.Success? ==> forall rid :: rid in r.value <==> rid in s.reservations && s.reservations[rid].customerId == Some(target)
    ensures r.Success? ==> forall rid :: rid in r.value ==> r.value[rid] == s.reservations[rid]
  {
    if target !in s.users then Failure(NotFound)
    else if s.users[target].kind != CUSTOMER then Failure(Forbidden)
    else Success(map rid | rid in s.reservations && s.reservations[rid].customerId == Some(target) :: s.reservations[rid])
  }

  /** A carton's reservation: the one whose id its link names, if any. */
  function ReservationOf(s: Store, cid: CartonId): Option<Reservation>
  {
    if cid in s.cartons && s.cartons[cid].reservationId.Some? && s.cartons[cid].reservationId.value in s.reservations
    then Some(s.reservations[s.cartons[cid].reservationId.value])
    else None
  }

  /** A reservation's customer: the user whose id its customer column names, if any. */
  function CustomerOf(s: Store, rid: ReservationId): Option<User>
  {
    if rid in s.reservations && s.reservations[rid].customerId.Some? && s.reservations[rid].customerId.value in s.users
    then Some(s.users[s.reservations[rid].customerId.value])
    else None
  }

  /**
   * The two directions of the carton/reservation relation agree: under
   * referential integrity a carton belongs to reservation `rid` exactly when
   * it is among `rid`'s cartons, and then its reservation is `rid`'s row.
   */
  lemma RelationsAgree(s: Store, cid: CartonId, rid: ReservationId)
    requires Integrity(s)
    requires rid in s.reservations
    ensures cid in LinkedTo(s.cartons, rid) <==> cid in s.cartons && s.cartons[cid].reservationId == Some(rid)
    ensures cid in LinkedTo(s.cartons, rid) ==> ReservationOf(s, cid) == Some(s.reservations[rid])
    ensures cid in s.cartons && s.cartons[cid].reservationId.Some? ==> ReservationOf(s, cid).Some?
  {
  }

  /** Every reservation listed for a customer has that customer. */
  lemma ListedHaveTheirCustomer(s: Store, target: UserId, rid: ReservationId)
    requires ListReservations(s, target).Success?
    requires rid in ListReservations(s, target).value
    ensures CustomerOf(s, rid) == Some(s.users[target])
    ensures s.users[target].kind == CUSTOMER
  {
  }

  /**
   * After a successful request, the customer's listing is the old listing
   * plus the new reservation, RESERVED.
   */
  lemma ListingAfterAllocation(s: Store, p: Principal, body: RawBody, picks: seq<set<CartonId>>)
    requires Integrity(s)
    requires p.id in s.users && s.users[p.id].kind == CUSTOMER
    requires AddPicksOk(s, p, body, picks)
    requires AddReservation(s, p, body, picks).Success?
    ensures ListReservations(AddReservation(s, p, body, picks).value, p.id)
            == Success(ListReservations(s, p.id).value[s.nextReservation := Reservation(ReservationStatus.RESERVED, Some(p.id))])
  {
    FreshIdHasNoCartons(s);
    var s' := AddReservation(s, p, body, picks).value;
    var before := ListReservations(s, p.id).value;
    var after := ListReservations(s', p.id).value;
    assert after == before[s.nextReservation := NewReservation(p)];
  }

  /** After a successful cancel, the reservation reads back CANCELED with no cartons. */
  lemma ViewAfterCancel(s: Store, p: Principal, rid: ReservationId)
    requires Cancel(s, p, rid).Success?
    ensures ViewReservation(Cancel(s, p, rid).value, rid).Success?
    ensures ViewReservation(Cancel(s, p, rid).value, rid).value.status == ReservationStatus.CANCELED
    ensures ViewReservation(Cancel(s, p, rid).value, rid).value.customerId == Some(p.id)
    ensures LinkedTo(Cancel(s, p, rid).value.cartons, rid) == {}
  {
  }
}
