# Blood-donor form validation, modelled in Dafny

The client script of the blood-donor web application (`script.js`) accepts two
forms: a donor registration and a blood request. Before either is sent on,
a validator decides whether the data may go through:

- `validateDonorData` runs four checks in a fixed order. The eight required
  fields must be filled in. The age must lie between 18 and 65. The phone
  number must be exactly ten digits. An email, when one is given, must have
  the shape `local@domain.tld`. The first check that fails shows its error
  message, and the function returns `false`.
- `validateRequestData` demands both a district and a blood group.

The submit handlers read the form into a record, call the validator, and
pass the record on only when the validator returns `true`.

This project models that layer as pure functions:

- `js_values.dfy` (module `JsValues`) holds the JavaScript semantics the
  checks depend on: strings that may be `null`, truthiness, `x || null`, the
  Numbers a string can coerce to, the comparison `<` (where NaN compares
  false), and the characters `\s` matches.
- `regexp.dfy` (module `RegExp`) holds the regular-expression constructs the
  two patterns use. An anchored `test` is read as whole-string membership in
  the pattern's language. It also holds the lemmas that `[c]+` and `c{n}`
  accept exactly the expected strings.
- `validation.dfy` (module `Validation`) holds the two validators, written
  check by check as in the source. It also gives independent descriptions of
  what each check accepts: the required fields by name, a ten-digit string,
  and a structural `local@domain` shape. The lemmas prove the validators
  agree with those descriptions, including which message wins.
- `form_handlers.dfy` (module `FormHandlers`) holds the two submit handlers.
  A handler either submits the record it read or stops with the message.
- `scenarios.dfy` (module `Scenarios`) holds concrete inputs: phone numbers,
  emails, and a sample registration form.

A verdict is `Valid` (the source's `true`) or `Invalid(message)`. The message
is the text that the source passes to `showMessage(..., "error")` before it
returns `false`.

The age check compares the field with 18 and 65. JavaScript first converts
the string to a Number. The model does not fix that conversion: the donor
validator `ValidateDonor` and the registration handler `HandleRegisterSubmit`
take it as a parameter `toNumber: string -> JsNumber`. A
`JsNumber` is a finite value, one of the two infinities, or NaN.

## Model

| member | source | states |
|---|---|---|
| JsValues.OrNull | script.js:28 | defaulting a form value to null: a truthy value is kept, `null` and `""` become `null`, so the result is never the empty string |
| RegExp.PlusOfClass | script.js:96 | a one-character class followed by `+` accepts exactly the non-empty strings whose characters are all in the class |
| RegExp.RepeatOfClass | script.js:90 | a one-character class followed by `{n}` accepts exactly the strings of length n whose characters are all in the class |
| Validation.ValidateDonor | script.js:67-102 | when the donor validator rejects, its one message is one of the four donor-form messages |
| Validation.ValidateRequest | script.js:105-113 | the request validator accepts exactly when both district and blood group are non-null and non-empty; otherwise it gives "Please select both district and blood group" |
| Validation.PhonePatternShape | script.js:90 | `/^\d{10}$/` accepts a string exactly when it has ten characters, each an ASCII digit 0-9 |
| Validation.EmailPatternParts | script.js:96 | every string the email pattern accepts splits as local `@` host `.` top, with three non-empty parts that contain neither whitespace nor `@` |
| Validation.EmailPartsHaveShape | script.js:96 | local `@` host `.` top, built from such parts, has the email shape |
| Validation.EmailPatternMatchHasShape | script.js:96 | every string the email pattern accepts has the email shape |
| Validation.EmailShapeMatchesPattern | script.js:96 | every string with the email shape is accepted by the email pattern |
| Validation.EmailPatternShape | script.js:96 | `/^[^\s@]+@[^\s@]+\.[^\s@]+$/` accepts a string exactly when it has one `@` and no whitespace, the part before the `@` is non-empty, and the part after it has a `.` that is neither its first nor its last character |
| Validation.RequiredFieldsAsWritten | script.js:69-78 | the chain of eight negated field tests is the same as "every field in the required set is truthy" |
| Validation.RequiredFieldsMessage | script.js:69-81 | the required-fields message appears exactly when one of fullName, age, gender, bloodType, phone, district, address or availability is null or empty; whatever email and lastDonated hold, they never bring that message on or take it away |
| Validation.AgeRange | script.js:84-87 | after coercion the age check rejects a finite age exactly when it is below 18 or above 65, so 18 and 65 pass; it rejects both infinities and never rejects NaN |
| Validation.DonorVerdict | script.js:67-102 | the checks run in the order required, age, phone, email, and the first failing check decides the message; the verdict is Valid exactly when all four checks pass, each stated through the independent descriptions |
| Validation.EmailOptional | script.js:96 | a null or empty email gives the same verdict as no email at all, and never the email message |
| Validation.LastDonatedIgnored | script.js:67-102 | changing the last donation date never changes the donor verdict |
| FormHandlers.ExtractDonor | script.js:21-34 | every field except email and lastDonated is read from the form unchanged; email and lastDonated keep their truthiness, are never the empty string, and keep their value when truthy |
| FormHandlers.HandleRegisterSubmit | script.js:17-43 | the donor record is submitted exactly when the donor validator accepts it, and the submitted record is the one read from the form; otherwise the handler stops with the validator's message |
| FormHandlers.RegisteredDonorWellFormed | script.js:36-42 | a submitted donor came from a form with all eight required fields filled in; its age was not rejected, its phone is ten ASCII digits, and its email is null exactly when the form's email was blank, and otherwise has the email shape |
| FormHandlers.ExtractRequest | script.js:50-55 | the request record holds the form's district and blood group as read |
| FormHandlers.HandleRequestSubmit | script.js:46-64 | the request is submitted exactly when the form names both a district and a blood group, and then it is the record read from the form; otherwise the handler stops with "Please select both district and blood group" |
| Scenarios.PhoneAccepted | script.js:90 | "1234567890", the phone of the sample donors at script.js:167, passes the phone pattern |
| Scenarios.PhoneRejected | script.js:90 | a nine-digit number, an eleven-character number with a space and a number with a `+91` prefix fail the phone pattern on their length |
| Scenarios.PhoneWithNonDigitRejected | script.js:90 | "12345 6789", ten characters with a space among them, fails the phone pattern because not every character is a digit |
| Scenarios.EmailAccepted | script.js:96 | "donor@mail.org" passes the email pattern |
| Scenarios.EmailWithoutInnerDot | script.js:96 | "donor@mail" and "donor@mail." fail the email pattern |
| Scenarios.EmailWithoutLocalPart | script.js:96 | "@mail.org" fails the email pattern |
| Scenarios.EmailWithSpaceOrSecondAt | script.js:96 | "do nor@mail.org" and "a@b@mail.org" fail the email pattern |
| Scenarios.SampleDonor | script.js:21-34 | a sample form with a blank email and no last donation date is read with both of those as null |
| Scenarios.SampleValid | script.js:67-102 | when the age reads as 30 and the phone is ten digits, the sample form passes the donor validator |
| Scenarios.SampleRegistered | script.js:36-42 | when the age reads as 30 and the phone is ten digits, the sample form is submitted with a null email |
| Scenarios.SampleTooYoung | script.js:84-87 | when the age reads as 17, the sample form is stopped with the age message whatever its non-empty phone |

## Left out

- Event wiring is not modelled. This covers the `DOMContentLoaded` listener (script.js:2-14), `preventDefault` (script.js:18, 47), and how `FormData` is read off the DOM (script.js:21, 50). The form is a map from field name to value, one value per name; file-valued fields and repeated names are not modelled.
- `showMessage` is not modelled beyond its text (script.js:266-328). Its styling, close button and five-second removal are UI. The rejected verdict carries the message, and the "error" type is implied.
- The bodies of `registerDonor` and `requestBlood` are not modelled (script.js:116-202). They cover the console log, the simulated one-second delay, the hard-coded sample donors and the commented-out `fetch` calls. The model stops at the decision to call them.
- `showDonors` is not modelled (script.js:205-263). It is DOM rendering only.
- `server.js` is not modelled. It only configures middleware and has no routes or logic.
- The repository contains no donor matching, eligibility, blood-type compatibility or reservation logic. None is modelled.
- The timestamps `registrationDate` and `requestDate` are clock reads, so the model's records leave them out.
- The string-to-number conversion used by the age comparison is a parameter, not a definition. Its trimming, hexadecimal and decimal-fraction rules belong to JavaScript. Finite Numbers are exact reals, so binary64 rounding and the sign of zero are not modelled.
- `\s` is the fixed list of ECMAScript whitespace and line-terminator characters, using the space separators of the current Unicode version.
- Strings are sequences of Unicode scalar values, while JavaScript strings are UTF-16 code units and neither pattern has the `u` flag. For these two patterns the readings agree: form values hold no lone surrogates, and a character outside the Basic Multilingual Plane is neither a digit, nor `\s`, nor `@`, nor `.`.
- Matching is whole-string membership in the pattern's language, not a backtracking search. The two patterns have no alternation, back-references, look-around or empty loops, so the two readings agree.
