/** Concrete inputs for the donor form and its two patterns. */
module Scenarios {
  import opened JsValues
  import opened RegExp
  import opened Validation
  import opened FormHandlers

  /** The phone number of the sample donors on the request page. */
  lemma PhoneAccepted()
    ensures Matches(PhonePattern, "1234567890")
  {
    PhonePatternShape("1234567890");
  }

  lemma PhoneRejected()
    ensures !Matches(PhonePattern, "987654321")
    ensures !Matches(PhonePattern, "98765 43210")
    ensures !Matches(PhonePattern, "+919876543210")
  {
    PhonePatternShape("987654321");
    PhonePatternShape("98765 43210");
    assert "98765 43210"[5] == ' ';
    PhonePatternShape("+919876543210");
  }

  /** Ten characters are not enough when one of them is not a digit. */
  lemma PhoneWithNonDigitRejected()
    ensures !Matches(PhonePattern, "12345 6789")
  {
    PhonePatternShape("12345 6789");
    assert "12345 6789"[5] == ' ';
  }

  lemma EmailAccepted()
    ensures Matches(EmailPattern, "donor@mail.org")
  {
    EmailPartsHaveShape("donor", "mail", "org");
    assert "donor" + ['@'] + "mail" + ['.'] + "org" == "donor@mail.org";
    EmailPatternShape("donor@mail.org");
  }

  lemma EmailWithoutInnerDot()
    ensures !Matches(EmailPattern, "donor@mail")
    ensures !Matches(EmailPattern, "donor@mail.")
  {
    var noDot := "donor@mail";
    assert forall k | 0 <= k < |noDot| :: noDot[k] != '.';
    EmailPatternShape(noDot);
    var lastDot := "donor@mail.";
    assert forall k | 0 <= k < |lastDot| - 1 :: lastDot[k] != '.';
    EmailPatternShape(lastDot);
  }

  lemma EmailWithoutLocalPart()
    ensures !Matches(EmailPattern, "@mail.org")
  {
    var noLocal := "@mail.org";
    assert noLocal[0] == '@';
    EmailPatternShape(noLocal);
  }

  lemma EmailWithSpaceOrSecondAt()
    ensures !Matches(EmailPattern, "do nor@mail.org")
    ensures !Matches(EmailPattern, "a@b@mail.org")
  {
    var space := "do nor@mail.org";
    assert IsWhitespace(space[2]);
    EmailPatternShape(space);
    var twoAts := "a@b@mail.org";
    assert twoAts[1] == '@' && twoAts[3] == '@';
    EmailPatternShape(twoAts);
  }

  /** A registration form filled in like the sample donors of the request
      page, with an email left blank. */
  function SampleForm(age: string, phone: string): Form {
    map["fullName" := "John Doe", "age" := age, "gender" := "male", "bloodType" := "O+",
        "phone" := phone, "email" := "", "district" := "Pune", "address" := "1 Main Road",
        "availability" := "yes"]
  }

  /** The record the handler reads off the sample form. */
  lemma SampleDonor(age: string, phone: string)
    ensures ExtractDonor(SampleForm(age, phone)) ==
      DonorData(Some("John Doe"), Some(age), Some("male"), Some("O+"), Some(phone), None,
                Some("Pune"), Some("1 Main Road"), None, Some("yes"))
  {
    var form := SampleForm(age, phone);
    assert FormGet(form, "fullName") == Some("John Doe");
    assert FormGet(form, "age") == Some(age);
    assert FormGet(form, "gender") == Some("male");
    assert FormGet(form, "bloodType") == Some("O+");
    assert FormGet(form, "phone") == Some(phone);
    assert FormGet(form, "email") == Some("");
    assert FormGet(form, "district") == Some("Pune");
    assert FormGet(form, "address") == Some("1 Main Road");
    assert FormGet(form, "lastDonated") == None;
    assert FormGet(form, "availability") == Some("yes");
  }

  /** With an age the coercion reads as 30 and any ten-digit phone number the
      sample passes the donor validator. */
  lemma SampleValid(toNumber: string -> JsNumber, phone: string)
    requires toNumber("30") == Finite(30.0)
    requires PhoneShape(phone)
    ensures ValidateDonor(ExtractDonor(SampleForm("30", phone)), toNumber) == Valid
  {
    SampleDonor("30", phone);
    PhonePatternShape(phone);
    var d := ExtractDonor(SampleForm("30", phone));
    assert !AgeOutOfRange(NumberOf(d.age, toNumber));
    assert Matches(PhonePattern, d.phone.value) && !Truthy(d.email);
    assert Truthy(d.fullName) && Truthy(d.age) && Truthy(d.gender) && Truthy(d.bloodType);
    assert Truthy(d.phone) && Truthy(d.district) && Truthy(d.address) && Truthy(d.availability);
    assert ValidateDonor(d, toNumber) == Valid;
  }

  /** The same sample is then registered, its blank email turned into `null`. */
  lemma SampleRegistered(toNumber: string -> JsNumber, phone: string)
    requires toNumber("30") == Finite(30.0)
    requires PhoneShape(phone)
    ensures HandleRegisterSubmit(SampleForm("30", phone), toNumber).Submitted?
    ensures HandleRegisterSubmit(SampleForm("30", phone), toNumber).payload.email == None
  {
    SampleValid(toNumber, phone);
    SampleDonor("30", phone);
  }

  /** With an age the coercion reads as 17 the sample is stopped by the age
      check, whatever the (non-empty) phone number. */
  lemma SampleTooYoung(toNumber: string -> JsNumber, phone: string)
    requires toNumber("17") == Finite(17.0)
    requires phone != ""
    ensures HandleRegisterSubmit(SampleForm("17", phone), toNumber) == Rejected(MsgAge)
  {
    SampleDonor("17", phone);
    var d := ExtractDonor(SampleForm("17", phone));
    assert Truthy(d.fullName) && Truthy(d.age) && Truthy(d.gender) && Truthy(d.bloodType);
    assert Truthy(d.phone) && Truthy(d.district) && Truthy(d.address) && Truthy(d.availability);
    assert AgeOutOfRange(NumberOf(d.age, toNumber));
    assert ValidateDonor(d, toNumber) == Invalid(MsgAge);
  }
}
