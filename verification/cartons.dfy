/**
 * The carton controller: intake of new stock by a merchant, deletion of a
 * carton by its owner, the listing of a merchant's cartons, and the
 * lookup of one carton.
 */
module Cartons {
  import opened Wrappers
  import opened Domain
  import opened Inventory
  import opened Validators

  /** The row intake creates for one carton of size `z` owned by `m`. */
  function NewCarton(z: CartonSize, m: UserId): Carton
  {
    Carton(z, CartonStatus.INSTOCK, m, None)
  }

  function Repeat(c: Carton, n: nat): (r: seq<Carton>)
    ensures |r| == n
    ensures forall k :: 0 <= k < n ==> r[k] == c
  {
    if n == 0 then [] else [c] + Repeat(c, n - 1)
  }

  /** The number of cartons of size `z` in a list of rows. */
  function CountSize(cs: seq<Carton>, z: CartonSize): nat
  {
    if |cs| == 0 then 0 else (if cs[0].size == z then 1 else 0) + CountSize(cs[1..], z)
  }

  /**
   * The rows an intake request creates: `quantity` fresh cartons per line,
   * lines in request order. All are in stock, owned by `m` and unlinked.
   */
  function Expand(es: seq<Entry>, m: UserId): (r: seq<Carton>)
    ensures |r| == TotalQuantity(es)
    ensures forall k :: 0 <= k < |r| ==>
              && r[k].status == CartonStatus.INSTOCK
              && r[k].merchantId == m
              && r[k].reservationId == None
    ensures forall k :: 0 <= k < |r| ==> exists i :: 0 <= i < |es| && es[i].size == r[k].size
    decreases |es|
  {
    if |es| == 0 then []
    else
      var head := Repeat(NewCarton(es[0].size, m), es[0].quantity);
      var tail := Expand(es[1..], m);
      assert forall k :: 0 <= k < |tail| ==> exists i :: 1 <= i < |es| && es[i].size == tail[k].size by {
        forall k | 0 <= k < |tail| ensures exists i :: 1 <= i < |es| && es[i].size == tail[k].size {
          var i :| 0 <= i < |es[1..]| && es[1..][i].size == tail[k].size;
          assert es[i + 1] == es[1..][i];
        }
      }
      head + tail
  }

  lemma {:induction false} CountSizeAppend(a: seq<Carton>, b: seq<Carton>, z: CartonSize)
    ensures CountSize(a + b, z) == CountSize(a, z) + CountSize(b, z)
    decreases |a|
  {
    if |a| == 0 {
      assert a + b == b;
    } else {
      assert (a + b)[1..] == a[1..] + b;
      CountSizeAppend(a[1..], b, z);
    }
  }

  lemma {:induction false} CountSizeRepeat(c: Carton, n: nat, z: CartonSize)
    ensures CountSize(Repeat(c, n), z) == if c.size == z then n else 0
  {
    if n > 0 {
      assert Repeat(c, n)[1..] == Repeat(c, n - 1);
      CountSizeRepeat(c, n - 1, z);
    }
  }

  /** Intake creates, for every size, exactly the quantity the request asks for. */
  lemma {:induction false} ExpandCountsDemand(es: seq<Entry>, m: UserId, z: CartonSize)
    ensures CountSize(Expand(es, m), z) == Demand(es, z)
    decreases |es|
  {
    if |es| > 0 {
      var head := Repeat(NewCarton(es[0].size, m), es[0].quantity);
      CountSizeAppend(head, Expand(es[1..], m), z);
      CountSizeRepeat(NewCarton(es[0].size, m), es[0].quantity, z);
      ExpandCountsDemand(es[1..], m, z);
    }
  }

  lemma {:induction false} ExpandSnoc(a: seq<Entry>, e: Entry, m: UserId)
    ensures Expand(a + [e], m) == Expand(a, m) + Repeat(NewCarton(e.size, m), e.quantity)
    decreases |a|
  {
    if |a| == 0 {
      assert a + [e] == [e];
      assert [e][1..] == [];
    } else {
      assert (a + [e])[0] == a[0];
      assert (a + [e])[1..] == a[1..] + [e];
      ExpandSnoc(a[1..], e, m);
    }
  }

  /** Appending a row to `n` copies of it gives `n + 1` copies. */
  lemma {:induction false} RepeatSnoc(c: Carton, n: nat)
    ensures Repeat(c, n) + [c] == Repeat(c, n + 1)
  {
    if n > 0 {
      RepeatSnoc(c, n - 1);
      assert Repeat(c, n) + [c] == [c] + (Repeat(c, n - 1) + [c]);
    }
  }

  /** The inner intake loop: push `n` copies of one row. */
  method PushCopies(acc: seq<Carton>, c: Carton, n: nat) returns (r: seq<Carton>)
    ensures r == acc + Repeat(c, n)
  {
    r := acc;
    var i := 0;
    while i < n
      invariant 0 <= i <= n
      invariant r == acc + Repeat(c, i)
    {
      RepeatSnoc(c, i);
      r := r + [c];
      i := i + 1;
    }
  }

  /**
   * The intake loop: for each line, push `quantity` copies of the new row,
   * in request order.
   */
  method ExpandCartons(es: seq<Entry>, m: UserId) returns (toCreate: seq<Carton>)
    ensures toCreate == Expand(es, m)
  {
    toCreate := [];
    var k := 0;
    assert es[..0] == [];
    while k < |es|
      invariant 0 <= k <= |es|
      invariant toCreate == Expand(es[..k], m)
    {
      var e := es[k];
      toCreate := PushCopies(toCreate, NewCarton(e.size, m), e.quantity);
      assert es[..k + 1] == es[..k] + [e];
      ExpandSnoc(es[..k], e, m);
      k := k + 1;
    }
    assert es[..|es|] == es;
  }

  /**
   * `k` is one of the `n` consecutive ids starting at `lo`. The comprehensions
   * below spell the bound out as well, since that is what makes them finite;
   * this predicate is the term their quantifiers are triggered on.
   */
  predicate InRange(k: int, lo: int, n: nat)
  {
    lo <= k < lo + n
  }

  /** The ids `next .. next + n - 1`. */
  function IdRange(next: CartonId, n: nat): set<CartonId>
  {
    set k: CartonId | next <= k < next + n && InRange(k, next, n)
  }

  /** The new rows, keyed by consecutive ids from the carton sequence. */
  function Fresh(next: CartonId, news: seq<Carton>): (r: Cartons)
    ensures r.Keys == IdRange(next, |news|)
    ensures forall i :: 0 <= i < |news| ==> next + i in r && r[next + i] == news[i]
  {
    map k: CartonId | next <= k < next + |news| && InRange(k, next, |news|) :: news[k - next]
  }

  lemma {:induction false} IdRangeSize(next: CartonId, n: nat)
    ensures |IdRange(next, n)| == n
    decreases n
  {
    if n > 0 {
      IdRangeSize(next, n - 1);
      assert IdRange(next, n) == IdRange(next, n - 1) + {next + n - 1};
    }
  }

  /**
   * The intake request: only a merchant may add stock; the role check comes
   * before body validation.
   */
  function AddCartons(s: Store, p: Principal, body: RawBody): (r: Result<Store, Error>)
    ensures r.Success? <==> p.kind == MERCHANT && BodyAccepted(body, MaxIntakeQuantity)
    ensures p.kind != MERCHANT ==> r == Failure(Forbidden)
    ensures p.kind == MERCHANT && !BodyAccepted(body, MaxIntakeQuantity) ==> r == Failure(Invalid)
    ensures r.Success? ==>
              && r.value.users == s.users
              && r.value.reservations == s.reservations
              && r.value.nextReservation == s.nextReservation
              && r.value.nextCarton == s.nextCarton + TotalQuantity(CartonValidator(body).value)
  {
    if p.kind != MERCHANT then Failure(Forbidden)
    else
      match CartonValidator(body)
      case Failure(e) => Failure(e)
      case Success(es) =>
        var news := Expand(es, p.id);
        Success(s.(cartons := s.cartons + Fresh(s.nextCarton, news), nextCarton := s.nextCarton + |news|))
  }

  /** The cartons present after a change that were not present before, of size `z`. */
  function NewOfSize(before: Cartons, after: Cartons, z: CartonSize): set<CartonId>
  {
    set id | id in after && id !in before && after[id].size == z
  }

  /** The ids of the new rows of size `z`. */
  function FreshIdsOfSize(next: CartonId, news: seq<Carton>, z: CartonSize): set<CartonId>
  {
    set k: CartonId | next <= k < next + |news| && InRange(k, next, |news|) && news[k - next].size == z
  }

  /** The ids of the new rows of size `z` are the first id, if its row has size `z`, and those of the rest. */
  lemma FreshIdsSplit(next: CartonId, news: seq<Carton>, z: CartonSize)
    requires |news| > 0
    ensures FreshIdsOfSize(next, news, z)
            == (if news[0].size == z then {next} else {}) + FreshIdsOfSize(next + 1, news[1..], z)
    ensures next !in FreshIdsOfSize(next + 1, news[1..], z)
  {
    var whole := FreshIdsOfSize(next, news, z);
    var rest := FreshIdsOfSize(next + 1, news[1..], z);
    forall k | k in whole && k != next ensures k in rest {
      assert news[1..][k - (next + 1)] == news[k - next];
    }
    forall k | k in rest ensures k in whole {
      assert news[1..][k - (next + 1)] == news[k - next];
    }
  }

  lemma {:induction false} FreshIdsOfSizeCount(next: CartonId, news: seq<Carton>, z: CartonSize)
    ensures |FreshIdsOfSize(next, news, z)| == CountSize(news, z)
    decreases |news|
  {
    if |news| == 0 {
      assert FreshIdsOfSize(next, news, z) == {};
    } else {
      FreshIdsOfSizeCount(next + 1, news[1..], z);
      FreshIdsSplit(next, news, z);
    }
  }

  /**
   * A successful intake keeps every existing row and adds rows under the
   * `TotalQuantity` ids that follow the carton sequence.
   */
  lemma IntakeKeys(s: Store, p: Principal, body: RawBody)
    requires Integrity(s)
    requires AddCartons(s, p, body).Success?
    ensures var s' := AddCartons(s, p, body).value;
            var es := CartonValidator(body).value;
            && (forall id :: id in s.cartons ==> id in s'.cartons && s'.cartons[id] == s.cartons[id])
            && s'.cartons.Keys == s.cartons.Keys + IdRange(s.nextCarton, TotalQuantity(es))
            && s.cartons.Keys !! IdRange(s.nextCarton, TotalQuantity(es))
            && |s'.cartons| == |s.cartons| + TotalQuantity(es)
            && (forall id :: id in s'.cartons && id !in s.cartons ==> s'.cartons[id] == NewCarton(s'.cartons[id].size, p.id))
  {
    var s' := AddCartons(s, p, body).value;
    var es := CartonValidator(body).value;
    var news := Expand(es, p.id);
    var range := IdRange(s.nextCarton, |news|);
    assert s.cartons.Keys !! range;
    IdRangeSize(s.nextCarton, |news|);
    assert s'.cartons.Keys == s.cartons.Keys + range;
    assert |s'.cartons.Keys| == |s.cartons.Keys| + |range|;
  }

  /**
   * A successful intake by merchant `p` creates, for every size, exactly the
   * requested number of new cartons of that size.
   */
  lemma IntakeCounts(s: Store, p: Principal, body: RawBody, z: CartonSize)
    requires Integrity(s)
    requires AddCartons(s, p, body).Success?
    ensures |NewOfSize(s.cartons, AddCartons(s, p, body).value.cartons, z)| == Demand(CartonValidator(body).value, z)
  {
    var s' := AddCartons(s, p, body).value;
    var es := CartonValidator(body).value;
    var news := Expand(es, p.id);
    FreshIdsOfSizeCount(s.nextCarton, news, z);
    ExpandCountsDemand(es, p.id, z);
    forall id | id in NewOfSize(s.cartons, s'.cartons, z) ensures id in FreshIdsOfSize(s.nextCarton, news, z) {
      assert id !in s.cartons;
      assert InRange(id, s.nextCarton, |news|);
    }
    forall id | id in FreshIdsOfSize(s.nextCarton, news, z) ensures id in NewOfSize(s.cartons, s'.cartons, z) {
      assert id !in s.cartons;
    }
    assert NewOfSize(s.cartons, s'.cartons, z) == FreshIdsOfSize(s.nextCarton, news, z);
  }

  /** Intake keeps referential integrity and the carton link invariant. */
  lemma IntakePreservesInvariants(s: Store, p: Principal, body: RawBody)
    requires Integrity(s) && LinkInv(s)
    requires AddCartons(s, p, body).Success?
    ensures Integrity(AddCartons(s, p, body).value)
    ensures LinkInv(AddCartons(s, p, body).value)
  {
    var s' := AddCartons(s, p, body).value;
    IntakeKeys(s, p, body);
    forall id | id in s'.cartons
      ensures s'.cartons[id].reservationId.Some? ==> s'.cartons[id].reservationId.value in s'.reservations
      ensures s'.cartons[id].reservationId.Some? <==> s'.cartons[id].status == CartonStatus.RESERVED
    {
      if id !in s.cartons {
        assert s'.cartons[id] == NewCarton(s'.cartons[id].size, p.id);
      }
    }
  }

  /**
   * Deletion of one carton by its owner. The check compares ids only and
   * ignores the carton's status, so a RESERVED carton can be deleted.
   */
  function DeleteCarton(s: Store, p: Principal, cid: CartonId): (r: Result<Store, Error>)
    ensures r.Success? <==> cid in s.cartons && s.cartons[cid].merchantId == p.id
    ensures cid !in s.cartons ==> r == Failure(NotFound)
    ensures cid in s.cartons && s.cartons[cid].merchantId != p.id ==> r == Failure(Forbidden)
    ensures r.Success? ==>
              && r.value.cartons.Keys == s.cartons.Keys - {cid}
              && (forall id :: id in r.value.cartons ==> r.value.cartons[id] == s.cartons[id])
              && r.value.users == s.users
              && r.value.reservations == s.reservations
  {
    if cid !in s.cartons then Failure(NotFound)
    else if s.cartons[cid].merchantId != p.id then Failure(Forbidden)
    else Success(s.(cartons := s.cartons - {cid}))
  }

  /**
   * Deleting a carton linked to a reservation takes it out of that
   * reservation: the reservation is left with one carton fewer.
   */
  lemma DeleteLinkedCartonShrinksReservation(s: Store, p: Principal, cid: CartonId, rid: ReservationId)
    requires DeleteCarton(s, p, cid).Success?
    requires s.cartons[cid].reservationId == Some(rid)
    ensures |LinkedTo(DeleteCarton(s, p, cid).value.cartons, rid)| == |LinkedTo(s.cartons, rid)| - 1
  {
    var after := DeleteCarton(s, p, cid).value.cartons;
    assert LinkedTo(after, rid) == LinkedTo(s.cartons, rid) - {cid};
  }

  /** Deleting a carton keeps referential integrity and the carton link invariant. */
  lemma DeletePreservesInvariants(s: Store, p: Principal, cid: CartonId)
    requires Integrity(s) && LinkInv(s)
    requires DeleteCarton(s, p, cid).Success?
    ensures Integrity(DeleteCarton(s, p, cid).value)
    ensures LinkInv(DeleteCarton(s, p, cid).value)
  {
  }

  /** The lookup of one carton. */
  function ViewCarton(s: Store, cid: CartonId): (r: Result<Carton, Error>)
    ensures r.Success? <==> cid in s.cartons
    ensures r.Success? ==> r.value == s.cartons[cid]
    ensures r.Failure? ==> r.error == NotFound
  {
    if cid in s.cartons then Success(s.cartons[cid]) else Failure(NotFound)
  }

  /** Once deleted, a carton can no longer be looked up. */
  lemma DeletedCartonIsGone(s: Store, p: Principal, cid: CartonId)
    requires DeleteCarton(s, p, cid).Success?
    ensures ViewCarton(DeleteCarton(s, p, cid).value, cid) == Failure(NotFound)
  {
  }

  /** The cartons whose merchant is `m`. */
  function OwnedBy(cs: Cartons, m: UserId): set<CartonId>
  {
    set id | id in cs && cs[id].merchantId == m
  }

  /**
   * The cartons of a merchant: an unknown user is NotFound, a user who is
   * not a merchant is Forbidden; the caller's own role is not checked.
   */
  function ListCartons(s: Store, target: UserId): (r: Result<Cartons, Error>)
    ensures target !in s.users ==> r == Failure(NotFound)
    ensures r.Success? <==> target in s.users && s.users[target].kind == MERCHANT
    ensures target in s.users && s.users[target].kind != MERCHANT ==> r == Failure(Forbidden)
    ensures r.Success? ==> forall id :: id in r.value <==> id in s.cartons && s.cartons[id].merchantId == target
    ensures r.Success? ==> forall id :: id in r.value ==> r.value[id] == s.cartons[id]
  {
    if target !in s.users then Failure(NotFound)
    else if s.users[target].kind != MERCHANT then Failure(Forbidden)
    else Success(map id | id in s.cartons && s.cartons[id].merchantId == target :: s.cartons[id])
  }

  /** Adding rows owned by `m` under new keys grows `m`'s cartons by exactly those keys. */
  lemma OwnedGrows(cs: Cartons, cs': Cartons, added: set<CartonId>, m: UserId)
    requires cs'.Keys == cs.Keys + added && cs.Keys !! added
    requires forall id :: id in cs ==> cs'[id] == cs[id]
    requires forall id :: id in added ==> cs'[id].merchantId == m
    ensures OwnedBy(cs', m) == OwnedBy(cs, m) + added
    ensures |OwnedBy(cs', m)| == |OwnedBy(cs, m)| + |added|
  {
    assert OwnedBy(cs', m) == OwnedBy(cs, m) + added;
    assert OwnedBy(cs, m) !! added;
  }

  /** After an intake, the merchant's listing has grown by exactly the quantity added. */
  lemma ListingGrowsByIntake(s: Store, p: Principal, body: RawBody)
    requires Integrity(s)
    requires p.id in s.users && s.users[p.id].kind == MERCHANT
    requires AddCartons(s, p, body).Success?
    ensures ListCartons(AddCartons(s, p, body).value, p.id).Success?
    ensures |ListCartons(AddCartons(s, p, body).value, p.id).value|
            == |ListCartons(s, p.id).value| + TotalQuantity(CartonValidator(body).value)
  {
    var s' := AddCartons(s, p, body).value;
    var n := TotalQuantity(CartonValidator(body).value);
    var range := IdRange(s.nextCarton, n);
    IntakeKeys(s, p, body);
    IdRangeSize(s.nextCarton, n);
    OwnedGrows(s.cartons, s'.cartons, range, p.id);
    assert ListCartons(s, p.id).value.Keys == OwnedBy(s.cartons, p.id);
    assert ListCartons(s', p.id).value.Keys == OwnedBy(s'.cartons, p.id);
  }
}
