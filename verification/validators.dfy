/**
 * The request validators: the carton-list bodies of reservation and intake
 * requests, and the registration and login bodies. Each validator either
 * rejects the body (`Invalid`) or returns it in typed form.
 */
module Validators {
  import opened Wrappers
  import opened Domain

  const MinQuantity: int := 1
  /** Upper quantity bound of one line of a reservation request. */
  const MaxReservationQuantity: int := 15
  /** Upper quantity bound of one line of an intake request. */
  const MaxIntakeQuantity: int := 100

  /** One line of a request body before validation. */
  datatype RawEntry = RawEntry(size: string, quantity: int)

  /** A request body whose `cartons` field may be missing. */
  datatype RawBody = RawBody(cartons: Option<seq<RawEntry>>)

  /** One line is acceptable: a known size and a quantity in `MinQuantity..maxQ`. */
  predicate EntryAccepted(e: RawEntry, maxQ: int)
  {
    ParseSize(e.size).Some? && MinQuantity <= e.quantity <= maxQ
  }

  /**
   * Validates every line of a carton list. The list has no length bound;
   * a single bad line rejects the whole list.
   */
  function ValidateEntries(raw: seq<RawEntry>, maxQ: int): (r: Result<seq<Entry>, Error>)
    ensures r.Success? <==> forall i :: 0 <= i < |raw| ==> EntryAccepted(raw[i], maxQ)
    ensures r.Failure? ==> r.error == Invalid
    ensures r.Success? ==> |r.value| == |raw|
    ensures r.Success? ==> forall i :: 0 <= i < |raw| ==>
              && SizeName(r.value[i].size) == raw[i].size
              && r.value[i].quantity == raw[i].quantity
              && MinQuantity <= r.value[i].quantity <= maxQ
    decreases |raw|
  {
    if |raw| == 0 then Success([])
    else if !EntryAccepted(raw[0], maxQ) then Failure(Invalid)
    else
      match ValidateEntries(raw[1..], maxQ)
      case Failure(e) => Failure(e)
      case Success(rest) =>
        assert forall i :: 1 <= i < |raw| ==> raw[i] == raw[1..][i - 1];
        Success([Entry(ParseSize(raw[0].size).value, raw[0].quantity)] + rest)
  }

  /** A body passes when its `cartons` field is present and every line passes. */
  predicate BodyAccepted(body: RawBody, maxQ: int)
  {
    body.cartons.Some? && forall i :: 0 <= i < |body.cartons.value| ==> EntryAccepted(body.cartons.value[i], maxQ)
  }

  function ValidateBody(body: RawBody, maxQ: int): (r: Result<seq<Entry>, Error>)
    ensures r.Success? <==> BodyAccepted(body, maxQ)
    ensures r.Failure? ==> r.error == Invalid
    ensures r.Success? ==> |r.value| == |body.cartons.value|
    ensures r.Success? ==> forall i :: 0 <= i < |r.value| ==>
              && SizeName(r.value[i].size) == body.cartons.value[i].size
              && r.value[i].quantity == body.cartons.value[i].quantity
              && MinQuantity <= r.value[i].quantity <= maxQ
  {
    match body.cartons
    case None => Failure(Invalid)
    case Some(raw) => ValidateEntries(raw, maxQ)
  }

  /** The reservation request validator: quantities 1..15. */
  function ReservationValidator(body: RawBody): (r: Result<seq<Entry>, Error>)
    ensures r.Success? <==> BodyAccepted(body, MaxReservationQuantity)
    ensures r.Success? ==> forall i :: 0 <= i < |r.value| ==> 1 <= r.value[i].quantity <= 15
  {
    ValidateBody(body, MaxReservationQuantity)
  }

  /** The intake request validator: quantities 1..100. */
  function CartonValidator(body: RawBody): (r: Result<seq<Entry>, Error>)
    ensures r.Success? <==> BodyAccepted(body, MaxIntakeQuantity)
    ensures r.Success? ==> forall i :: 0 <= i < |r.value| ==> 1 <= r.value[i].quantity <= 100
  {
    ValidateBody(body, MaxIntakeQuantity)
  }

  /**
   * The two validators differ only in the quantity bound: every acceptable
   * reservation body is an acceptable intake body with the same lines.
   */
  lemma {:induction false} ReservationBodyIsIntakeBody(body: RawBody)
    requires ReservationValidator(body).Success?
    ensures CartonValidator(body) == ReservationValidator(body)
  {
    EntriesUnderTighterBound(body.cartons.value, MaxReservationQuantity, MaxIntakeQuantity);
  }

  lemma {:induction false} EntriesUnderTighterBound(raw: seq<RawEntry>, lo: int, hi: int)
    requires lo <= hi
    requires ValidateEntries(raw, lo).Success?
    ensures ValidateEntries(raw, hi) == ValidateEntries(raw, lo)
    decreases |raw|
  {
    if |raw| > 0 {
      assert EntryAccepted(raw[0], lo);
      assert ValidateEntries(raw[1..], lo).Success?;
      EntriesUnderTighterBound(raw[1..], lo, hi);
    }
  }

  /** The reservation request bodies the functional tests send, and the verdicts they expect. */
  lemma ReservationBodyExamples()
    ensures ReservationValidator(RawBody(Some([RawEntry("L", 10), RawEntry("M", 2)]))).Success?
    ensures ReservationValidator(RawBody(Some([RawEntry("L", 100), RawEntry("M", 2)]))).Failure?
    ensures ReservationValidator(RawBody(Some([RawEntry("L", 0), RawEntry("M", 2)]))).Failure?
    ensures ReservationValidator(RawBody(Some([]))) == Success([])
  {
    assert !EntryAccepted(RawEntry("L", 100), MaxReservationQuantity);
    assert !EntryAccepted(RawEntry("L", 0), MaxReservationQuantity);
    assert EntryAccepted(RawEntry("L", 10), MaxReservationQuantity);
    assert EntryAccepted(RawEntry("M", 2), MaxReservationQuantity);
  }

  /** The intake request bodies the functional tests send, and the verdicts they expect. */
  lemma CartonBodyExamples()
    ensures CartonValidator(RawBody(Some([RawEntry("L", 3), RawEntry("M", 2)]))).Success?
    ensures CartonValidator(RawBody(Some([RawEntry("L", 102), RawEntry("M", 2)]))).Failure?
    ensures CartonValidator(RawBody(Some([RawEntry("Z", 102), RawEntry("M", 0)]))).Failure?
    ensures CartonValidator(RawBody(None)).Failure?
  {
    assert !EntryAccepted(RawEntry("L", 102), MaxIntakeQuantity);
    assert !EntryAccepted(RawEntry("Z", 102), MaxIntakeQuantity);
    assert EntryAccepted(RawEntry("L", 3), MaxIntakeQuantity);
    assert EntryAccepted(RawEntry("M", 2), MaxIntakeQuantity);
  }

  /** The account kinds the registration form offers. */
  datatype AccountKind = Client | Shopkeeper

  function AccountKindName(k: AccountKind): string
  {
    match k
    case Client => "client"
    case Shopkeeper => "shopkeeper"
  }

  function ParseAccountKind(s: string): (r: Option<AccountKind>)
    ensures r.Some? ==> AccountKindName(r.value) == s
    ensures forall k :: AccountKindName(k) == s ==> r == Some(k)
  {
    if s == "client" then Some(Client)
    else if s == "shopkeeper" then Some(Shopkeeper)
    else None
  }

  /** A registration body; the address field is spelt `adress` on the wire. */
  datatype RegisterBody = RegisterBody(
    name: string, adress: string, city: string, zipCode: string,
    kind: string, email: string, password: string)

  datatype Registration = Registration(
    name: string, adress: string, city: string, zipCode: string,
    kind: AccountKind, email: string, password: string)

  datatype LoginBody = LoginBody(email: string, password: string)

  /** A character outside the Basic Multilingual Plane, which UTF-16 writes as a surrogate pair. */
  predicate Astral(c: char)
  {
    c as int > 0xFFFF
  }

  /**
   * The length of `s` in UTF-16 code units, which is what a JavaScript
   * string's `length` counts: one per character, two per astral character.
   */
  function Utf16Length(s: string): (r: nat)
    ensures |s| <= r <= 2 * |s|
    decreases |s|
  {
    if |s| == 0 then 0 else (if Astral(s[0]) then 2 else 1) + Utf16Length(s[1..])
  }

  /**
   * A string is as long in code units as in characters exactly when it has
   * no astral character, and twice as long exactly when every one is astral.
   */
  lemma {:induction false} Utf16LengthCounts(s: string)
    ensures Utf16Length(s) == |s| <==> forall i :: 0 <= i < |s| ==> !Astral(s[i])
    ensures Utf16Length(s) == 2 * |s| <==> forall i :: 0 <= i < |s| ==> Astral(s[i])
    decreases |s|
  {
    if |s| > 0 {
      Utf16LengthCounts(s[1..]);
      assert forall i :: 1 <= i < |s| ==> s[i] == s[1..][i - 1];
    }
  }

  /** UTF-16 lengths add up over concatenation. */
  lemma {:induction false} Utf16LengthAppend(s: string, t: string)
    ensures Utf16Length(s + t) == Utf16Length(s) + Utf16Length(t)
    decreases |s|
  {
    if |s| == 0 {
      assert s + t == t;
    } else {
      assert (s + t)[0] == s[0];
      assert (s + t)[1..] == s[1..] + t;
      Utf16LengthAppend(s[1..], t);
    }
  }

  /** The length rules of the validators, counted in UTF-16 code units. */
  predicate LengthIn(s: string, lo: nat, hi: nat)
  {
    lo <= Utf16Length(s) <= hi
  }

  /** The e-mail addresses already held by some user. */
  function TakenEmails(s: Store): (r: set<string>)
    ensures forall u :: u in s.users ==> s.users[u].email in r
    ensures forall e :: e in r ==> exists u :: u in s.users && s.users[u].email == e
  {
    set u | u in s.users :: s.users[u].email
  }

  /** The registration validator; the e-mail syntax check is not modelled. */
  function RegisterValidator(b: RegisterBody, taken: set<string>): (r: Result<Registration, Error>)
    ensures r.Success? <==>
              && LengthIn(b.name, 3, 64)
              && LengthIn(b.adress, 5, 255)
              && LengthIn(b.city, 2, 64)
              && Utf16Length(b.zipCode) == 5
              && (b.kind == "client" || b.kind == "shopkeeper")
              && b.email !in taken
              && LengthIn(b.password, 8, 32)
    ensures r.Success? ==>
              && r.value.name == b.name && r.value.adress == b.adress && r.value.city == b.city
              && r.value.zipCode == b.zipCode && AccountKindName(r.value.kind) == b.kind
              && r.value.email == b.email && r.value.password == b.password
    ensures r.Failure? ==> r.error == Invalid
  {
    if && LengthIn(b.name, 3, 64)
       && LengthIn(b.adress, 5, 255)
       && LengthIn(b.city, 2, 64)
       && LengthIn(b.zipCode, 5, 5)
       && ParseAccountKind(b.kind).Some?
       && b.email !in taken
       && LengthIn(b.password, 8, 32)
    then Success(Registration(b.name, b.adress, b.city, b.zipCode, ParseAccountKind(b.kind).value, b.email, b.password))
    else Failure(Invalid)
  }

  /** The login validator checks only the password length (8..32). */
  function LoginValidator(b: LoginBody): (r: Result<LoginBody, Error>)
    ensures r.Success? <==> 8 <= Utf16Length(b.password) <= 32
    ensures r.Success? ==> r.value == b
  {
    if LengthIn(b.password, 8, 32) then Success(b) else Failure(Invalid)
  }

  /** The two validators agree on passwords: a registered password passes the login validator. */
  lemma RegisteredPasswordPassesLogin(b: RegisterBody, taken: set<string>)
    requires RegisterValidator(b, taken).Success?
    ensures LoginValidator(LoginBody(b.email, b.password)) == Success(LoginBody(b.email, b.password))
  {
  }

  /** Registering with the e-mail of an existing user is always rejected. */
  lemma ExistingEmailRejected(s: Store, u: UserId, b: RegisterBody)
    requires u in s.users && b.email == s.users[u].email
    ensures RegisterValidator(b, TakenEmails(s)) == Failure(Invalid)
  {
  }

  /**
   * The registration form's account kinds are not values of the users
   * table's type column: an accepted registration never carries a
   * spelling that the role enum accepts.
   */
  lemma RegisteredKindIsNoUserType(b: RegisterBody, taken: set<string>)
    requires RegisterValidator(b, taken).Success?
    ensures ParseUserType(b.kind) == None
  {
  }

  /**
   * Length is counted in code units, not characters: a two-emoji name is
   * four units long and passes the three-unit minimum, and a seventeen-emoji
   * password is thirty-four units long and fails the thirty-two-unit maximum.
   */
  lemma AstralLengthExamples()
    ensures Utf16Length("\U{1F600}\U{1F600}") == 4
    ensures LengthIn("\U{1F600}\U{1F600}", 3, 64)
    ensures Utf16Length(Emojis(17)) == 34
    ensures |Emojis(17)| == 17 && !LengthIn(Emojis(17), 8, 32)
    ensures LoginValidator(LoginBody("toto@exemple.com", Emojis(17))) == Failure(Invalid)
  {
    assert "\U{1F600}\U{1F600}"[1..] == "\U{1F600}";
    EmojisLength(17);
  }

  /** `n` copies of one astral character. */
  function Emojis(n: nat): (r: string)
    ensures |r| == n && forall i :: 0 <= i < n ==> r[i] == '\U{1F600}'
  {
    seq(n, _ => '\U{1F600}')
  }

  lemma EmojisLength(n: nat)
    ensures Utf16Length(Emojis(n)) == 2 * n
  {
    Utf16LengthCounts(Emojis(n));
  }

  /** The registration bodies the functional tests send, and the expected verdicts. */
  lemma RegisterBodyExamples(taken: set<string>)
    requires "toto@exemple.com" !in taken
    ensures RegisterValidator(RegisterBody("toto", "4 rue du moulin", "Bagnolet", "93170", "client", "toto@exemple.com", "totototo"), taken).Success?
    ensures RegisterValidator(RegisterBody("toto", "4 rue du moulin", "Bagnolet", "93170", "client", "toto@exemple.com", "totototo"), taken + {"toto@exemple.com"}).Failure?
    ensures RegisterValidator(RegisterBody("toto", "4 rue du moulin", "Bagnolet", "93170", "client", "totoexemple.com", "toto"), taken).Failure?
    ensures RegisterValidator(RegisterBody("to", "4 rue du moulin", "Bagnolet", "93170", "client", "toto@exemple.com", "tototototo"), taken).Failure?
  {
    WellFormedExample(taken);
    WellFormedExample(taken + {"toto@exemple.com"});
    ShortPasswordExample(taken);
    ShortNameExample(taken);
  }

  /** The well-formed body passes exactly when its e-mail is not taken. */
  lemma WellFormedExample(taken: set<string>)
    ensures RegisterValidator(RegisterBody("toto", "4 rue du moulin", "Bagnolet", "93170", "client", "toto@exemple.com", "totototo"), taken).Success? <==> "toto@exemple.com" !in taken
  {
    TotoLength();
    AdressLength();
    CityLength();
    ZipCodeLength();
    PasswordLength();
  }

  /** A four-character password is rejected. */
  lemma ShortPasswordExample(taken: set<string>)
    ensures RegisterValidator(RegisterBody("toto", "4 rue du moulin", "Bagnolet", "93170", "client", "totoexemple.com", "toto"), taken).Failure?
  {
    TotoLength();
  }

  /** A two-character name is rejected. */
  lemma ShortNameExample(taken: set<string>)
    ensures RegisterValidator(RegisterBody("to", "4 rue du moulin", "Bagnolet", "93170", "client", "toto@exemple.com", "tototototo"), taken).Failure?
  {
    ToLength();
  }

  // The code-unit lengths of the strings the examples use, one literal per
  // lemma: a proof that unfolds the length of several literals at once is slow.
  lemma TotoLength()
    ensures Utf16Length("toto") == 4
  {
    AsciiLength("toto");
  }

  lemma ToLength()
    ensures Utf16Length("to") == 2
  {
    AsciiLength("to");
  }

  lemma AdressLength()
    ensures Utf16Length("4 rue du moulin") == 15
  {
    AsciiLength("4 rue du moulin");
  }

  lemma CityLength()
    ensures Utf16Length("Bagnolet") == 8
  {
    AsciiLength("Bagnolet");
  }

  lemma ZipCodeLength()
    ensures Utf16Length("93170") == 5
  {
    AsciiLength("93170");
  }

  lemma PasswordLength()
    ensures Utf16Length("totototo") == 8
  {
    AsciiLength("totototo");
  }

  /** An ASCII string is as long in code units as in characters. */
  lemma AsciiLength(s: string)
    requires forall i :: 0 <= i < |s| ==> s[i] as int < 128
    ensures Utf16Length(s) == |s|
  {
    Utf16LengthCounts(s);
  }
}
