/** The two submit handlers of script.js, reduced to what they decide: the
    record they read off the form, and whether that record is handed on for
    submission or the handler stops with the validator's message. The DOM,
    `preventDefault`, the simulated server round trip and the timestamps are
    not part of this model. */
module FormHandlers {
  import opened JsValues
  import opened Validation

  /** The submitted form: each field name that carries a value, with that value. */
  type Form = map<string, string>

  /** `formData.get(name)`: the value, or `null` when the form has no such field. */
  function FormGet(form: Form, name: string): Option<string> {
    if name in form then Some(form[name]) else None
  }

  /** What the handler decided: pass the record on, or stop with a message. */
  datatype Submission<T> = Submitted(payload: T) | Rejected(message: string)

  /** The donor record built in handleRegisterSubmit: every field read as it
      is, except that an empty email or last donation date becomes `null`. */
  function ExtractDonor(form: Form): (d: DonorData)
    ensures forall f :: f != Email && f != LastDonated ==> FieldOf(d, f) == FormGet(form, FieldName(f))
    ensures Truthy(d.email) == Truthy(FormGet(form, "email")) && d.email != Some("")
    ensures Truthy(d.email) ==> d.email == FormGet(form, "email")
    ensures Truthy(d.lastDonated) == Truthy(FormGet(form, "lastDonated")) && d.lastDonated != Some("")
    ensures Truthy(d.lastDonated) ==> d.lastDonated == FormGet(form, "lastDonated")
  {
    DonorData(
      fullName := FormGet(form, "fullName"),
      age := FormGet(form, "age"),
      gender := FormGet(form, "gender"),
      bloodType := FormGet(form, "bloodType"),
      phone := FormGet(form, "phone"),
      email := OrNull(FormGet(form, "email")),
      district := FormGet(form, "district"),
      address := FormGet(form, "address"),
      lastDonated := OrNull(FormGet(form, "lastDonated")),
      availability := FormGet(form, "availability"))
  }

  /** handleRegisterSubmit: the donor is registered only when validation
      passes; otherwise the handler returns after showing the message. */
  function HandleRegisterSubmit(form: Form, toNumber: string -> JsNumber): (out: Submission<DonorData>)
    ensures out.Submitted? <==> ValidateDonor(ExtractDonor(form), toNumber) == Valid
    ensures out.Submitted? ==> out.payload == ExtractDonor(form)
    ensures out.Rejected? ==> ValidateDonor(ExtractDonor(form), toNumber) == Invalid(out.message)
  {
    var donor := ExtractDonor(form);
    match ValidateDonor(donor, toNumber)
    case Invalid(message) => Rejected(message)
    case Valid => Submitted(donor)
  }

  /** Whatever reaches registerDonor came from a form whose required fields
      were all filled in, with an age inside the range (or not a number), a
      ten-digit phone number, and either no email or a well-shaped one. */
  lemma RegisteredDonorWellFormed(form: Form, toNumber: string -> JsNumber, d: DonorData)
    requires HandleRegisterSubmit(form, toNumber) == Submitted(d)
    ensures forall f :: f in RequiredFields ==> Truthy(FormGet(form, FieldName(f)))
    ensures !AgeOutOfRange(NumberOf(d.age, toNumber))
    ensures d.phone.Some? && PhoneShape(d.phone.value)
    ensures d.email.Some? <==> Truthy(FormGet(form, "email"))
    ensures d.email.Some? ==> EmailShape(d.email.value)
  {
    DonorVerdict(d, toNumber);
  }

  /** The request record built in handleRequestSubmit. */
  function ExtractRequest(form: Form): (q: RequestData)
    ensures q.district == FormGet(form, "district") && q.bloodGroup == FormGet(form, "bloodGroup")
  {
    RequestData(FormGet(form, "district"), FormGet(form, "bloodGroup"))
  }

  /** handleRequestSubmit: blood is requested only when both selections are
      made; otherwise the handler returns after showing the message. */
  function HandleRequestSubmit(form: Form): (out: Submission<RequestData>)
    ensures out.Submitted? <==>
      Truthy(FormGet(form, "district")) && Truthy(FormGet(form, "bloodGroup"))
    ensures out.Submitted? ==> out.payload == ExtractRequest(form)
    ensures out.Rejected? ==> out.message == MsgSelectBoth
  {
    var request := ExtractRequest(form);
    match ValidateRequest(request)
    case Invalid(message) => Rejected(message)
    case Valid => Submitted(request)
  }
}
