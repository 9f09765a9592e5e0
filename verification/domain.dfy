/**
 * The records of the carton store: users, cartons and reservations, the
 * closed enumerations their columns range over, and the two consistency
 * properties the store is expected to keep (referential integrity and the
 * carton link invariant).
 */
module Domain {
  import opened Wrappers

  /** Primary keys are auto-increment integer columns. */
  type UserId = nat
  type CartonId = nat
  type ReservationId = nat

  datatype UserType = CUSTOMER | MERCHANT

  datatype CartonSize = XS | S | M | L | XL | XXL

  datatype CartonStatus = INSTOCK | RESERVED | DELIVERED | NOTAVAILABLE

  datatype ReservationStatus = RESERVED | MODIFIED | COMPLETED | CANCELED

  /** The wire / column spelling of each enumeration value. */
  function SizeName(z: CartonSize): string
  {
    match z
    case XS => "XS"
    case S => "S"
    case M => "M"
    case L => "L"
    case XL => "XL"
    case XXL => "XXL"
  }

  function CartonStatusName(t: CartonStatus): string
  {
    match t
    case INSTOCK => "INSTOCK"
    case RESERVED => "RESERVED"
    case DELIVERED => "DELIVERED"
    case NOTAVAILABLE => "NOTAVAILABLE"
  }

  function ReservationStatusName(t: ReservationStatus): string
  {
    match t
    case RESERVED => "RESERVED"
    case MODIFIED => "MODIFIED"
    case COMPLETED => "COMPLETED"
    case CANCELED => "CANCELED"
  }

  function UserTypeName(t: UserType): string
  {
    match t
    case CUSTOMER => "CUSTOMER"
    case MERCHANT => "MERCHANT"
  }

  /**
   * The size enum check: a string is accepted exactly when it is the
   * spelling of one of the six sizes, and then it denotes that size.
   */
  function ParseSize(s: string): (r: Option<CartonSize>)
    ensures r.Some? ==> SizeName(r.value) == s
    ensures forall z :: SizeName(z) == s ==> r == Some(z)
  {
    if s == "XS" then Some(XS)
    else if s == "S" then Some(S)
    else if s == "M" then Some(M)
    else if s == "L" then Some(L)
    else if s == "XL" then Some(XL)
    else if s == "XXL" then Some(XXL)
    else None
  }

  /** The carton status column accepts exactly the four status spellings. */
  function ParseCartonStatus(s: string): (r: Option<CartonStatus>)
    ensures r.Some? ==> CartonStatusName(r.value) == s
    ensures forall t :: CartonStatusName(t) == s ==> r == Some(t)
  {
    if s == "INSTOCK" then Some(CartonStatus.INSTOCK)
    else if s == "RESERVED" then Some(CartonStatus.RESERVED)
    else if s == "DELIVERED" then Some(CartonStatus.DELIVERED)
    else if s == "NOTAVAILABLE" then Some(CartonStatus.NOTAVAILABLE)
    else None
  }

  /** The reservation status column accepts exactly the four status spellings. */
  function ParseReservationStatus(s: string): (r: Option<ReservationStatus>)
    ensures r.Some? ==> ReservationStatusName(r.value) == s
    ensures forall t :: ReservationStatusName(t) == s ==> r == Some(t)
  {
    if s == "RESERVED" then Some(ReservationStatus.RESERVED)
    else if s == "MODIFIED" then Some(ReservationStatus.MODIFIED)
    else if s == "COMPLETED" then Some(ReservationStatus.COMPLETED)
    else if s == "CANCELED" then Some(ReservationStatus.CANCELED)
    else None
  }

  /** The user type column accepts exactly the two role spellings. */
  function ParseUserType(s: string): (r: Option<UserType>)
    ensures r.Some? ==> UserTypeName(r.value) == s
    ensures forall t :: UserTypeName(t) == s ==> r == Some(t)
  {
    if s == "CUSTOMER" then Some(CUSTOMER)
    else if s == "MERCHANT" then Some(MERCHANT)
    else None
  }

  /**
   * Distinct enumeration values have distinct spellings: a corollary of the
   * parsers' round trips, which the proof below applies.
   */
  lemma NamesAreInjective()
    ensures forall a, b :: SizeName(a) == SizeName(b) ==> a == b
    ensures forall a, b :: CartonStatusName(a) == CartonStatusName(b) ==> a == b
    ensures forall a, b :: ReservationStatusName(a) == ReservationStatusName(b) ==> a == b
    ensures forall a, b :: UserTypeName(a) == UserTypeName(b) ==> a == b
  {
    forall a, b | SizeName(a) == SizeName(b) ensures a == b {
      assert ParseSize(SizeName(a)) == Some(a);
    }
    forall a, b | CartonStatusName(a) == CartonStatusName(b) ensures a == b {
      assert ParseCartonStatus(CartonStatusName(a)) == Some(a);
    }
    forall a, b | ReservationStatusName(a) == ReservationStatusName(b) ensures a == b {
      assert ParseReservationStatus(ReservationStatusName(a)) == Some(a);
    }
    forall a, b | UserTypeName(a) == UserTypeName(b) ensures a == b {
      assert ParseUserType(UserTypeName(a)) == Some(a);
    }
  }

  /** A user row, reduced to the columns the core reads. */
  datatype User = User(kind: UserType, email: string)

  /** A carton row: the merchant link is mandatory, the reservation link nullable. */
  datatype Carton = Carton(
    size: CartonSize,
    status: CartonStatus,
    merchantId: UserId,
    reservationId: Option<ReservationId>)

  /** A reservation row: the customer column is nullable in the schema. */
  datatype Reservation = Reservation(status: ReservationStatus, customerId: Option<UserId>)

  /**
   * The whole database: one table per entity plus the next value of each
   * auto-increment sequence.
   */
  datatype Store = Store(
    users: map<UserId, User>,
    cartons: map<CartonId, Carton>,
    reservations: map<ReservationId, Reservation>,
    nextCarton: CartonId,
    nextReservation: ReservationId)

  /** The authenticated caller, as handed over by the authentication layer. */
  datatype Principal = Principal(id: UserId, kind: UserType)

  /** One validated `(size, quantity)` line of a request body. */
  datatype Entry = Entry(size: CartonSize, quantity: nat)

  /** The error kinds the controllers answer with. */
  datatype Error = Forbidden | NotFound | CartonNotAvailable(size: CartonSize) | Invalid

  /**
   * The sequence bounds and the reservation link: keys lie below their
   * sequence, and a non-null `reservation_id` names an existing reservation.
   */
  predicate Integrity(s: Store)
  {
    && (forall id :: id in s.cartons ==> id < s.nextCarton)
    && (forall id :: id in s.reservations ==> id < s.nextReservation)
    && (forall id :: id in s.cartons && s.cartons[id].reservationId.Some? ==>
          s.cartons[id].reservationId.value in s.reservations)
  }

  /** A carton's reservation link is set exactly when its status is RESERVED. */
  predicate LinkInv(s: Store)
  {
    forall id :: id in s.cartons ==>
      (s.cartons[id].reservationId.Some? <==> s.cartons[id].status == CartonStatus.RESERVED)
  }
}
