/** The two form validators of script.js. Each returns a verdict: `Valid` for
    `true`, or `Invalid(message)` carrying the text that the source hands to
    `showMessage(..., "error")` just before it returns `false`. */
module Validation {
  import opened JsValues
  import opened RegExp

  datatype Verdict = Valid | Invalid(message: string)

  const MsgRequired := "Please fill in all required fields"
  const MsgAge := "Age must be between 18 and 65"
  const MsgPhone := "Please enter a valid 10-digit phone number"
  const MsgEmail := "Please enter a valid email address"
  const MsgSelectBoth := "Please select both district and blood group"

  /** The donor object assembled by the registration handler; a field whose
      form value is missing is `None`. The registration timestamp is left out. */
  datatype DonorData = DonorData(
    fullName: Option<string>,
    age: Option<string>,
    gender: Option<string>,
    bloodType: Option<string>,
    phone: Option<string>,
    email: Option<string>,
    district: Option<string>,
    address: Option<string>,
    lastDonated: Option<string>,
    availability: Option<string>)

  /** The blood-request object; the request timestamp is left out. */
  datatype RequestData = RequestData(district: Option<string>, bloodGroup: Option<string>)

  // ---------------------------------------------------------------------------
  // JavaScript coercions applied to a field by the checks

  /** ToNumber on a string-or-null: `null` becomes +0, a string is handed to
      the string-to-number conversion, which is a parameter of the model. */
  function NumberOf(v: Option<string>, toNumber: string -> JsNumber): JsNumber {
    match v
    case None => Finite(0.0)
    case Some(s) => toNumber(s)
  }

  /** ToString on a string-or-null, as `RegExp.prototype.test` applies it.
      The validator only tests fields it has already found truthy, so the
      `null` case never reaches a pattern. */
  function StringOf(v: Option<string>): string {
    match v
    case None => "null"
    case Some(s) => s
  }

  // ---------------------------------------------------------------------------
  // The checks as the source writes them

  /** `data.age < 18 || data.age > 65` once the age has been coerced. */
  predicate AgeOutOfRange(n: JsNumber) {
    LessThan(n, Finite(18.0)) || LessThan(Finite(65.0), n)
  }

  /** `/^\d{10}$/` */
  const PhonePattern: Regex := Repeat(Class(Digit), 10)

  /** `[^\s@]` */
  const NotSpaceOrAt: CharClass := NoneOf(WhitespaceChars + {'@'})

  /** `/^[^\s@]+@[^\s@]+\.[^\s@]+$/` */
  const EmailPattern: Regex :=
    Concat(Plus(Class(NotSpaceOrAt)),
      Concat(Char('@'),
        Concat(Plus(Class(NotSpaceOrAt)),
          Concat(Char('.'), Plus(Class(NotSpaceOrAt))))))

  const DonorMessages: set<string> := {MsgRequired, MsgAge, MsgPhone, MsgEmail}

  /** validateDonorData: required fields, then age, then phone, then email;
      the first check that fails decides the message. */
  function ValidateDonor(d: DonorData, toNumber: string -> JsNumber): (r: Verdict)
    ensures r.Invalid? ==> r.message in DonorMessages
  {
    if !Truthy(d.fullName) || !Truthy(d.age) || !Truthy(d.gender) || !Truthy(d.bloodType)
      || !Truthy(d.phone) || !Truthy(d.district) || !Truthy(d.address) || !Truthy(d.availability)
    then Invalid(MsgRequired)
    else if AgeOutOfRange(NumberOf(d.age, toNumber)) then Invalid(MsgAge)
    else if !Matches(PhonePattern, d.phone.value) then Invalid(MsgPhone)
    else if Truthy(d.email) && !Matches(EmailPattern, d.email.value) then Invalid(MsgEmail)
    else Valid
  }

  /** validateRequestData: both selections must be made. */
  function ValidateRequest(q: RequestData): (r: Verdict)
    ensures r == Valid <==> Truthy(q.district) && Truthy(q.bloodGroup)
    ensures r.Invalid? ==> r.message == MsgSelectBoth
  {
    if !Truthy(q.district) || !Truthy(q.bloodGroup) then Invalid(MsgSelectBoth)
    else Valid
  }

  // ---------------------------------------------------------------------------
  // Independent descriptions of what each check accepts

  /** The fields of the registration form. */
  datatype DonorField =
    | FullName | Age | Gender | BloodType | Phone | Email | District | Address | LastDonated | Availability

  /** The name under which the form submits a field. */
  function FieldName(f: DonorField): string {
    match f
    case FullName => "fullName"
    case Age => "age"
    case Gender => "gender"
    case BloodType => "bloodType"
    case Phone => "phone"
    case Email => "email"
    case District => "district"
    case Address => "address"
    case LastDonated => "lastDonated"
    case Availability => "availability"
  }

  /** A field of a donor record. */
  function FieldOf(d: DonorData, f: DonorField): Option<string> {
    match f
    case FullName => d.fullName
    case Age => d.age
    case Gender => d.gender
    case BloodType => d.bloodType
    case Phone => d.phone
    case Email => d.email
    case District => d.district
    case Address => d.address
    case LastDonated => d.lastDonated
    case Availability => d.availability
  }

  /** The fields a donor must fill in. */
  const RequiredFields: set<DonorField> :=
    {FullName, Age, Gender, BloodType, Phone, District, Address, Availability}

  predicate AllRequiredFilled(d: DonorData) {
    forall f :: f in RequiredFields ==> Truthy(FieldOf(d, f))
  }

  /** Exactly ten ASCII digits. */
  predicate PhoneShape(s: string) {
    |s| == 10 && forall k :: 0 <= k < |s| ==> IsAsciiDigit(s[k])
  }

  predicate NoWhitespace(s: string) {
    forall k :: 0 <= k < |s| ==> !IsWhitespace(s[k])
  }

  /** `@` occurs in `s` at index `at` and nowhere else. */
  predicate AtSignOnlyAt(s: string, at: int) {
    forall k :: 0 <= k < |s| ==> (s[k] == '@' <==> k == at)
  }

  /** `d` contains a `.` that is neither its first nor its last character. */
  ghost predicate HasInnerDot(d: string) {
    exists q :: 0 < q < |d| - 1 && d[q] == '.'
  }

  /** local@domain: exactly one `@`, no whitespace, a non-empty local part,
      and a domain with an inner dot. */
  ghost predicate EmailShape(s: string) {
    NoWhitespace(s) &&
    exists at :: 0 < at < |s| && AtSignOnlyAt(s, at) && HasInnerDot(s[at + 1..])
  }

  // ---------------------------------------------------------------------------
  // The patterns accept exactly those shapes

  lemma PhonePatternShape(s: string)
    ensures Matches(PhonePattern, s) <==> PhoneShape(s)
  {
    RepeatOfClass(Digit, 10, s);
  }

  /** A string the email pattern accepts splits as local@host.top with three
      non-empty parts free of whitespace and `@`. */
  lemma EmailPatternParts(s: string) returns (local: string, host: string, top: string)
    requires Matches(EmailPattern, s)
    ensures s == local + ['@'] + host + ['.'] + top
    ensures |local| > 0 && AllIn(NotSpaceOrAt, local)
    ensures |host| > 0 && AllIn(NotSpaceOrAt, host)
    ensures |top| > 0 && AllIn(NotSpaceOrAt, top)
  {
    var p := Plus(Class(NotSpaceOrAt));
    var r3 := Concat(Char('.'), p);
    var r2 := Concat(p, r3);
    var i1 := ClassPlusThen(NotSpaceOrAt, Concat(Char('@'), r2), s);
    local := s[..i1];
    var afterLocal := s[i1..];
    CharThen('@', r2, afterLocal);
    var domain := afterLocal[1..];
    var i3 := ClassPlusThen(NotSpaceOrAt, r3, domain);
    host := domain[..i3];
    var afterHost := domain[i3..];
    CharThen('.', p, afterHost);
    top := afterHost[1..];
    PlusOfClass(NotSpaceOrAt, top);
    JoinParts(s, local, afterLocal, domain, host, afterHost, top);
  }

  /** Four cuts of a string, put back together. */
  lemma JoinParts(s: string, local: string, afterLocal: string, domain: string, host: string, afterHost: string, top: string)
    requires s == local + afterLocal && afterLocal == ['@'] + domain
    requires domain == host + afterHost && afterHost == ['.'] + top
    ensures s == local + ['@'] + host + ['.'] + top
  {
  }

  /** local@host.top with clean non-empty parts has the email shape. */
  lemma EmailPartsHaveShape(local: string, host: string, top: string)
    requires |local| > 0 && AllIn(NotSpaceOrAt, local)
    requires |host| > 0 && AllIn(NotSpaceOrAt, host)
    requires |top| > 0 && AllIn(NotSpaceOrAt, top)
    ensures EmailShape(local + ['@'] + host + ['.'] + top)
  {
    var s := local + ['@'] + host + ['.'] + top;
    var at := |local|;
    forall k | 0 <= k < |s|
      ensures !IsWhitespace(s[k]) && (s[k] == '@' <==> k == at)
    {
      if k < at {
        assert s[k] == local[k] && InClass(NotSpaceOrAt, local[k]);
      } else if k == at {
      } else if k < at + 1 + |host| {
        assert s[k] == host[k - at - 1] && InClass(NotSpaceOrAt, host[k - at - 1]);
      } else if k == at + 1 + |host| {
      } else {
        assert s[k] == top[k - at - 2 - |host|] && InClass(NotSpaceOrAt, top[k - at - 2 - |host|]);
      }
    }
    var domain := s[at + 1..];
    assert domain == host + ['.'] + top;
    assert domain[|host|] == '.';
    assert AtSignOnlyAt(s, at) && HasInnerDot(domain);
  }

  lemma EmailPatternMatchHasShape(s: string)
    requires Matches(EmailPattern, s)
    ensures EmailShape(s)
  {
    var local, host, top := EmailPatternParts(s);
    EmailPartsHaveShape(local, host, top);
  }

  lemma EmailShapeMatchesPattern(s: string)
    requires EmailShape(s)
    ensures Matches(EmailPattern, s)
  {
    var p := Plus(Class(NotSpaceOrAt));
    var r3 := Concat(Char('.'), p);
    var r2 := Concat(p, r3);
    var r1 := Concat(Char('@'), r2);
    var at :| 0 < at < |s| && AtSignOnlyAt(s, at) && HasInnerDot(s[at + 1..]);
    var domain := s[at + 1..];
    var q :| 0 < q < |domain| - 1 && domain[q] == '.';
    var local, host, top := s[..at], domain[..q], domain[q + 1..];
    assert AllIn(NotSpaceOrAt, local) by {
      forall k | 0 <= k < |local| ensures InClass(NotSpaceOrAt, local[k]) {
        assert local[k] == s[k];
      }
    }
    assert AllIn(NotSpaceOrAt, host) by {
      forall k | 0 <= k < |host| ensures InClass(NotSpaceOrAt, host[k]) {
        assert host[k] == s[at + 1 + k];
      }
    }
    assert AllIn(NotSpaceOrAt, top) by {
      forall k | 0 <= k < |top| ensures InClass(NotSpaceOrAt, top[k]) {
        assert top[k] == s[at + 2 + q + k];
      }
    }
    PlusOfClass(NotSpaceOrAt, local);
    PlusOfClass(NotSpaceOrAt, host);
    PlusOfClass(NotSpaceOrAt, top);
    var t3 := domain[q..];
    assert Matches(r3, t3) by {
      assert t3[..1] == ['.'] && t3[1..] == top;
    }
    assert Matches(r2, domain) by {
      assert domain[..q] == host;
    }
    var t1 := s[at..];
    assert Matches(r1, t1) by {
      assert t1[..1] == ['@'] && t1[1..] == domain;
    }
    assert Matches(EmailPattern, s) by {
      assert s[..at] == local;
    }
  }

  lemma EmailPatternShape(s: string)
    ensures Matches(EmailPattern, s) <==> EmailShape(s)
  {
    if Matches(EmailPattern, s) {
      EmailPatternMatchHasShape(s);
    }
    if EmailShape(s) {
      EmailShapeMatchesPattern(s);
    }
  }

  // ---------------------------------------------------------------------------
  // What the donor validator accepts and which message it gives

  /** The eight required fields are exactly the ones the
      validator's first check tests. */
  lemma RequiredFieldsAsWritten(d: DonorData)
    ensures AllRequiredFilled(d) <==>
      Truthy(d.fullName) && Truthy(d.age) && Truthy(d.gender) && Truthy(d.bloodType) &&
      Truthy(d.phone) && Truthy(d.district) && Truthy(d.address) && Truthy(d.availability)
  {
    if AllRequiredFilled(d) {
      assert Truthy(FieldOf(d, FullName)) && Truthy(FieldOf(d, Age));
      assert Truthy(FieldOf(d, Gender)) && Truthy(FieldOf(d, BloodType));
      assert Truthy(FieldOf(d, Phone)) && Truthy(FieldOf(d, District));
      assert Truthy(FieldOf(d, Address)) && Truthy(FieldOf(d, Availability));
    }
  }

  /** The required-fields message appears exactly when one of the eight
      required fields is missing or empty; whatever the email and the last
      donation date hold, they never bring that message on or take it away. */
  lemma RequiredFieldsMessage(d: DonorData, toNumber: string -> JsNumber, e: Option<string>, l: Option<string>)
    ensures ValidateDonor(d, toNumber) == Invalid(MsgRequired) <==> !AllRequiredFilled(d)
    ensures ValidateDonor(d.(email := e, lastDonated := l), toNumber) == Invalid(MsgRequired)
      <==> ValidateDonor(d, toNumber) == Invalid(MsgRequired)
    ensures Email !in RequiredFields && LastDonated !in RequiredFields
  {
    RequiredFieldsAsWritten(d);
    RequiredFieldsAsWritten(d.(email := e, lastDonated := l));
  }

  /** The age comparison rejects a finite age exactly when it lies outside
      18..65 (both bounds accepted), rejects both infinities, and never
      rejects NaN. */
  lemma AgeRange(n: JsNumber)
    ensures AgeOutOfRange(n) <==>
      (n.Finite? && (n.value < 18.0 || n.value > 65.0)) || n.PosInfinity? || n.NegInfinity?
    ensures n == NaN ==> !AgeOutOfRange(n)
    ensures !AgeOutOfRange(Finite(18.0)) && !AgeOutOfRange(Finite(65.0))
  {
  }

  /** The checks run in the order required, age, phone, email; the first one
      that fails decides the single message, and the verdict is `Valid`
      exactly when every check passes. */
  lemma DonorVerdict(d: DonorData, toNumber: string -> JsNumber)
    ensures !AllRequiredFilled(d) ==> ValidateDonor(d, toNumber) == Invalid(MsgRequired)
    ensures AllRequiredFilled(d) && AgeOutOfRange(NumberOf(d.age, toNumber))
      ==> ValidateDonor(d, toNumber) == Invalid(MsgAge)
    ensures AllRequiredFilled(d) && !AgeOutOfRange(NumberOf(d.age, toNumber))
      && !PhoneShape(StringOf(d.phone))
      ==> ValidateDonor(d, toNumber) == Invalid(MsgPhone)
    ensures AllRequiredFilled(d) && !AgeOutOfRange(NumberOf(d.age, toNumber))
      && PhoneShape(StringOf(d.phone)) && Truthy(d.email) && !EmailShape(StringOf(d.email))
      ==> ValidateDonor(d, toNumber) == Invalid(MsgEmail)
    ensures ValidateDonor(d, toNumber) == Valid <==>
      AllRequiredFilled(d) && !AgeOutOfRange(NumberOf(d.age, toNumber)) &&
      PhoneShape(StringOf(d.phone)) && (Truthy(d.email) ==> EmailShape(StringOf(d.email)))
  {
    RequiredFieldsAsWritten(d);
    PhonePatternShape(StringOf(d.phone));
    EmailPatternShape(StringOf(d.email));
  }

  /** An absent or empty email never causes a rejection: the verdict is the
      one for no email at all, and it is never the email message. */
  lemma EmailOptional(d: DonorData, toNumber: string -> JsNumber)
    requires !Truthy(d.email)
    ensures ValidateDonor(d, toNumber) == ValidateDonor(d.(email := None), toNumber)
    ensures ValidateDonor(d, toNumber) != Invalid(MsgEmail)
  {
  }

  /** The last donation date is never looked at. */
  lemma LastDonatedIgnored(d: DonorData, toNumber: string -> JsNumber, last: Option<string>)
    ensures ValidateDonor(d.(lastDonated := last), toNumber) == ValidateDonor(d, toNumber)
  {
  }
}
