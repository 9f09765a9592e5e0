/**
 * The referential actions of the schema when a user row is deleted: the
 * user's cartons go (merchant foreign key, ON DELETE CASCADE), the user's
 * reservations go (customer foreign key, ON DELETE CASCADE), and every
 * carton linked to one of those reservations has its link set to NULL
 * (reservation foreign key, ON DELETE SET NULL). The database changes no
 * carton status, so a RESERVED carton can be left with no reservation.
 */
module Cascades {
  import opened Wrappers
  import opened Domain
  import opened Inventory

  /** The reservations a user's deletion takes with it. */
  function ReservationsOf(s: Store, u: UserId): set<ReservationId>
  {
    set rid | rid in s.reservations && s.reservations[rid].customerId == Some(u)
  }

  /** True when the carton's link names one of the `gone` reservations. */
  predicate LinkedToAny(c: Carton, gone: set<ReservationId>)
  {
    c.reservationId.Some? && c.reservationId.value in gone
  }

  /**
   * ON DELETE SET NULL: every carton linked to a `gone` reservation loses
   * its link and keeps its status; every other carton keeps its row.
   */
  function Detach(cs: Cartons, gone: set<ReservationId>): (r: Cartons)
    ensures r.Keys == cs.Keys
    ensures forall id :: id in cs && LinkedToAny(cs[id], gone) ==>
              r[id].reservationId.None? && r[id].status == cs[id].status
              && r[id].size == cs[id].size && r[id].merchantId == cs[id].merchantId
    ensures forall id :: id in cs && !LinkedToAny(cs[id], gone) ==> r[id] == cs[id]
  {
    map id | id in cs :: if LinkedToAny(cs[id], gone) then cs[id].(reservationId := None) else cs[id]
  }

  /** The rows left once the cartons owned by `u` are gone. */
  function Unowned(cs: Cartons, u: UserId): (r: Cartons)
    ensures forall id :: id in r <==> id in cs && cs[id].merchantId != u
    ensures forall id :: id in r ==> r[id] == cs[id]
  {
    map id | id in cs && cs[id].merchantId != u :: cs[id]
  }

  /** Deleting user `u` as the schema's referential actions do it. */
  function DeleteUser(s: Store, u: UserId): (r: Store)
    ensures r.users.Keys == s.users.Keys - {u}
    ensures forall rid :: rid in r.reservations <==> rid in s.reservations && s.reservations[rid].customerId != Some(u)
    ensures forall id :: id in r.cartons <==> id in s.cartons && s.cartons[id].merchantId != u
    ensures forall id :: id in r.cartons ==> r.cartons[id].status == s.cartons[id].status
    ensures forall k :: k in r.users ==> r.users[k] == s.users[k]
    ensures forall rid :: rid in r.reservations ==> r.reservations[rid] == s.reservations[rid]
    ensures forall id :: id in r.cartons ==>
              r.cartons[id] == (if LinkedToAny(s.cartons[id], ReservationsOf(s, u)) then s.cartons[id].(reservationId := None) else s.cartons[id])
    ensures r.nextCarton == s.nextCarton && r.nextReservation == s.nextReservation
  {
    var gone := ReservationsOf(s, u);
    Store(s.users - {u},
          Detach(Unowned(s.cartons, u), gone),
          map rid | rid in s.reservations && rid !in gone :: s.reservations[rid],
          s.nextCarton, s.nextReservation)
  }

  /** The cascade keeps referential integrity: no link is left dangling. */
  lemma DeleteUserKeepsIntegrity(s: Store, u: UserId)
    requires Integrity(s)
    ensures Integrity(DeleteUser(s, u))
  {
    var r := DeleteUser(s, u);
    var gone := ReservationsOf(s, u);
    var kept := Unowned(s.cartons, u);
    forall id | id in r.cartons && r.cartons[id].reservationId.Some?
      ensures r.cartons[id].reservationId.value in r.reservations
    {
      assert !LinkedToAny(kept[id], gone);
    }
  }

  /**
   * The cascade breaks the link invariant: a carton of another merchant
   * that was RESERVED for one of `u`'s reservations survives RESERVED with
   * a NULL link, so no reservation holds it and no request can claim it.
   */
  lemma DeleteUserStrandsCartons(s: Store, u: UserId, cid: CartonId)
    requires LinkInv(s)
    requires cid in s.cartons && s.cartons[cid].merchantId != u
    requires s.cartons[cid].reservationId.Some? && s.cartons[cid].reservationId.value in ReservationsOf(s, u)
    ensures cid in DeleteUser(s, u).cartons
    ensures DeleteUser(s, u).cartons[cid].status == CartonStatus.RESERVED
    ensures DeleteUser(s, u).cartons[cid].reservationId.None?
    ensures !LinkInv(DeleteUser(s, u))
    ensures forall z :: cid !in Available(DeleteUser(s, u).cartons, z)
  {
    var r := DeleteUser(s, u);
    assert LinkedToAny(Unowned(s.cartons, u)[cid], ReservationsOf(s, u));
    assert r.cartons[cid].reservationId.None?;
  }

  /** A one-carton store on which the cascade strands a reserved carton. */
  lemma StrandedCartonExample()
    ensures var s := Store(map[0 := User(CUSTOMER, "c@x.fr"), 1 := User(MERCHANT, "m@x.fr")],
                           map[0 := Carton(M, CartonStatus.RESERVED, 1, Some(0))],
                           map[0 := Reservation(ReservationStatus.RESERVED, Some(0))],
                           1, 1);
            && Integrity(s) && LinkInv(s)
            && DeleteUser(s, 0).cartons == map[0 := Carton(M, CartonStatus.RESERVED, 1, None)]
            && !LinkInv(DeleteUser(s, 0))
  {
    var s := Store(map[0 := User(CUSTOMER, "c@x.fr"), 1 := User(MERCHANT, "m@x.fr")],
                   map[0 := Carton(M, CartonStatus.RESERVED, 1, Some(0))],
                   map[0 := Reservation(ReservationStatus.RESERVED, Some(0))],
                   1, 1);
    assert ReservationsOf(s, 0) == {0};
    DeleteUserStrandsCartons(s, 0, 0);
    assert DeleteUser(s, 0).cartons.Keys == {0};
  }

  /**
   * The deletion the rest of the model assumes: as the cascade, except that
   * a carton that loses its reservation also goes back in stock, as a
   * cancellation would put it.
   */
  function Restock(cs: Cartons, gone: set<ReservationId>): (r: Cartons)
    ensures r.Keys == cs.Keys
    ensures forall id :: id in cs && LinkedToAny(cs[id], gone) ==> r[id] == ReleaseOne(cs[id])
    ensures forall id :: id in cs && !LinkedToAny(cs[id], gone) ==> r[id] == cs[id]
  {
    map id | id in cs :: if LinkedToAny(cs[id], gone) then ReleaseOne(cs[id]) else cs[id]
  }

  function DeleteUserReleasing(s: Store, u: UserId): (r: Store)
    ensures r.users.Keys == s.users.Keys - {u}
    ensures forall rid :: rid in r.reservations <==> rid in s.reservations && s.reservations[rid].customerId != Some(u)
    ensures forall id :: id in r.cartons <==> id in s.cartons && s.cartons[id].merchantId != u
    ensures forall k :: k in r.users ==> r.users[k] == s.users[k]
    ensures forall rid :: rid in r.reservations ==> r.reservations[rid] == s.reservations[rid]
    ensures forall id :: id in r.cartons ==>
              r.cartons[id] == (if LinkedToAny(s.cartons[id], ReservationsOf(s, u)) then ReleaseOne(s.cartons[id]) else s.cartons[id])
    ensures r.nextCarton == s.nextCarton && r.nextReservation == s.nextReservation
  {
    var gone := ReservationsOf(s, u);
    Store(s.users - {u},
          Restock(Unowned(s.cartons, u), gone),
          map rid | rid in s.reservations && rid !in gone :: s.reservations[rid],
          s.nextCarton, s.nextReservation)
  }

  /**
   * The corrected deletion keeps both invariants, and differs from the
   * cascade only in the status of the cartons it unlinks.
   */
  lemma DeleteUserReleasingKeepsInvariants(s: Store, u: UserId)
    requires Integrity(s) && LinkInv(s)
    ensures Integrity(DeleteUserReleasing(s, u))
    ensures LinkInv(DeleteUserReleasing(s, u))
    ensures DeleteUserReleasing(s, u).users == DeleteUser(s, u).users
    ensures DeleteUserReleasing(s, u).reservations == DeleteUser(s, u).reservations
    ensures DeleteUserReleasing(s, u).cartons.Keys == DeleteUser(s, u).cartons.Keys
    ensures forall id :: id in DeleteUser(s, u).cartons ==>
              DeleteUserReleasing(s, u).cartons[id]
              == DeleteUser(s, u).cartons[id].(status := DeleteUserReleasing(s, u).cartons[id].status)
    ensures forall id :: id in DeleteUser(s, u).cartons && !LinkedToAny(s.cartons[id], ReservationsOf(s, u)) ==>
              DeleteUserReleasing(s, u).cartons[id].status == DeleteUser(s, u).cartons[id].status
  {
    var r := DeleteUserReleasing(s, u);
    var d := DeleteUser(s, u);
    var gone := ReservationsOf(s, u);
    forall id | id in r.cartons
      ensures r.cartons[id].reservationId.Some? ==> r.cartons[id].reservationId.value in r.reservations
      ensures r.cartons[id].reservationId.Some? <==> r.cartons[id].status == CartonStatus.RESERVED
      ensures r.cartons[id] == d.cartons[id].(status := r.cartons[id].status)
    {
      if !LinkedToAny(s.cartons[id], gone) {
        assert r.cartons[id] == s.cartons[id];
      }
    }
  }
}
