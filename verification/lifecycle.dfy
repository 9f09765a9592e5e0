/**
 * Sequences of controller actions. Each action either succeeds and
 * replaces the store or fails and leaves it as it was; the invariants
 * below hold after any sequence of them.
 */
module Lifecycle {
  import opened Wrappers
  import opened Domain
  import opened Inventory
  import opened Validators
  import opened Allocation
  import opened Cancellation
  import opened Cartons

  /** The state-changing controller actions, with the caller and the request. */
  datatype Action =
    | Reserve(p: Principal, body: RawBody, picks: seq<set<CartonId>>)
    | CancelReservation(p: Principal, rid: ReservationId)
    | Intake(p: Principal, body: RawBody)
    | RemoveCarton(p: Principal, cid: CartonId)

  /** The allocation choices of a reservation request are ones the query can return. */
  predicate Admissible(s: Store, a: Action)
  {
    a.Reserve? ==> AddPicksOk(s, a.p, a.body, a.picks)
  }

  function Step(s: Store, a: Action): Result<Store, Error>
    requires Admissible(s, a)
  {
    match a
    case Reserve(p, body, picks) => AddReservation(s, p, body, picks)
    case CancelReservation(p, rid) => Cancel(s, p, rid)
    case Intake(p, body) => AddCartons(s, p, body)
    case RemoveCarton(p, cid) => DeleteCarton(s, p, cid)
  }

  /** The store after an action: the new store on success, the old one on any error. */
  function Apply(s: Store, a: Action): Store
    requires Admissible(s, a)
  {
    if Step(s, a).Success? then Step(s, a).value else s
  }

  predicate RunOk(s: Store, acts: seq<Action>)
    decreases |acts|
  {
    |acts| == 0 || (Admissible(s, acts[0]) && RunOk(Apply(s, acts[0]), acts[1..]))
  }

  function Run(s: Store, acts: seq<Action>): Store
    requires RunOk(s, acts)
    decreases |acts|
  {
    if |acts| == 0 then s else Run(Apply(s, acts[0]), acts[1..])
  }

  /** No carton is held by a CANCELED reservation. */
  predicate NoCartonOnCanceled(s: Store)
  {
    forall id :: id in s.cartons && s.cartons[id].reservationId.Some? && s.cartons[id].reservationId.value in s.reservations ==>
      s.reservations[s.cartons[id].reservationId.value].status != ReservationStatus.CANCELED
  }

  /** Only the statuses the controllers write occur: MODIFIED and COMPLETED do not. */
  predicate WrittenStatuses(s: Store)
  {
    forall rid :: rid in s.reservations ==>
      s.reservations[rid].status == ReservationStatus.RESERVED || s.reservations[rid].status == ReservationStatus.CANCELED
  }

  predicate Consistent(s: Store)
  {
    Integrity(s) && LinkInv(s) && NoCartonOnCanceled(s) && WrittenStatuses(s)
  }

  /** An empty store is consistent. */
  lemma EmptyIsConsistent(users: map<UserId, User>)
    ensures Consistent(Store(users, map[], map[], 0, 0))
  {
  }

  lemma ReserveKeepsConsistent(s: Store, p: Principal, body: RawBody, picks: seq<set<CartonId>>)
    requires Consistent(s)
    requires AddPicksOk(s, p, body, picks)
    requires AddReservation(s, p, body, picks).Success?
    ensures Consistent(AddReservation(s, p, body, picks).value)
  {
    var s' := AddReservation(s, p, body, picks).value;
    var rid := s.nextReservation;
    AllocationPreservesInvariants(s, p, body, picks);
    FreshIdHasNoCartons(s);
    forall id | id in s'.cartons && s'.cartons[id].reservationId.Some? && s'.cartons[id].reservationId.value in s'.reservations
      ensures s'.reservations[s'.cartons[id].reservationId.value].status != ReservationStatus.CANCELED
    {
      assert Kept(s.cartons[id], s'.cartons[id], rid);
      if s'.cartons[id] == s.cartons[id] {
        assert s.cartons[id].reservationId.value in s.reservations;
      }
    }
  }

  lemma CancelKeepsConsistent(s: Store, p: Principal, rid: ReservationId)
    requires Consistent(s)
    requires Cancel(s, p, rid).Success?
    ensures Consistent(Cancel(s, p, rid).value)
  {
    var s' := Cancel(s, p, rid).value;
    CancelPreservesInvariants(s, p, rid);
    forall id | id in s'.cartons && s'.cartons[id].reservationId.Some? && s'.cartons[id].reservationId.value in s'.reservations
      ensures s'.reservations[s'.cartons[id].reservationId.value].status != ReservationStatus.CANCELED
    {
      assert id !in LinkedTo(s'.cartons, rid);
      assert id !in LinkedTo(s.cartons, rid);
      assert s'.cartons[id] == s.cartons[id];
    }
  }

  /**
   * Every controller action keeps the store consistent, and writes no
   * reservation status other than RESERVED or CANCELED.
   */
  lemma StepKeepsConsistent(s: Store, a: Action)
    requires Consistent(s) && Admissible(s, a)
    ensures Consistent(Apply(s, a))
  {
    if Step(s, a).Success? {
      match a
      case Reserve(p, body, picks) => ReserveKeepsConsistent(s, p, body, picks);
      case CancelReservation(p, rid) => CancelKeepsConsistent(s, p, rid);
      case Intake(p, body) => IntakePreservesInvariants(s, p, body);
      case RemoveCarton(p, cid) => DeletePreservesInvariants(s, p, cid);
    }
  }

  /** Any run of controller actions from a consistent store ends in a consistent store. */
  lemma {:induction false} RunKeepsConsistent(s: Store, acts: seq<Action>)
    requires Consistent(s) && RunOk(s, acts)
    ensures Consistent(Run(s, acts))
    decreases |acts|
  {
    if |acts| > 0 {
      StepKeepsConsistent(s, acts[0]);
      RunKeepsConsistent(Apply(s, acts[0]), acts[1..]);
    }
  }

  /** The id sequences never go back along a run. */
  lemma {:induction false} RunSequencesGrow(s: Store, acts: seq<Action>)
    requires RunOk(s, acts)
    ensures Run(s, acts).nextCarton >= s.nextCarton
    ensures Run(s, acts).nextReservation >= s.nextReservation
    decreases |acts|
  {
    if |acts| > 0 {
      RunSequencesGrow(Apply(s, acts[0]), acts[1..]);
    }
  }
}
