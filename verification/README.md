# Registration-form validator, modelled in Dafny

The conference-registration page (`app/page.tsx`) has one piece of real
logic. It is a fixed rule table over the eleven form fields. Each field has
a `required` flag, an optional regular expression, and a message key. Three
consumers read that table:

- the single-field check `validateField`;
- the whole-form check `validate`, run on submit;
- the keystroke handler `handleChange`.

Around them sit two more pure pieces: the mapping of the form to the
registration request, and the reset after a successful registration.

This project models all of that. React state is a value of type
`FormState.State`: a form record, an error map, a touched set and the
`submitted` flag. Each `setState` call is read as producing a new record,
and queued functional updates are composed in the order they were queued.
The three regular expressions are written as character predicates, so no
regex engine is needed. The translation function `t` is the identity on
message keys.

Modules, one per concern:

- `Text` (text.dfy): the whitespace class shared by the regex `\s` and
  `String.prototype.trim`, and `Trim` itself.
- `Patterns` (patterns.dfy): the three regexes. The email regex is given
  twice: once as its language (the string splits into three atoms around
  `@` and `.`), and once in the form the validator evaluates. The two are
  proved equal.
- `Rules` (rules.dfy): the rule table, `validateField`, and one
  if-and-only-if lemma per kind of field.
- `FormState` (form.dfy): the form record, `validate`, `handleChange`, and
  the state invariant `Consistent`. The invariant says that each error entry
  is its field's current verdict and belongs to a touched field, and that
  every touched failing field has an entry.
- `Submit` (submit.dfy): the request mapping with its inverse, the failure
  message, and `handleSubmit` with the registration outcome as a parameter.
- `Wrappers` (wrappers.dfy): `Option`.

Reading notes:

- A field is keyed by the `Field` enumeration. `Rules.Name` gives the
  field's key string and `Rules.Lookup` maps a key string back to its field.
  `ValidateField` takes the name as a string, as the source does.
- JavaScript strings are sequences of UTF-16 code units; Dafny strings are
  sequences of Unicode scalar values. For these rules the two readings agree:
  - The name and phone classes contain only characters of the basic plane,
    so a character outside that plane fails them under either reading.
  - The email rule depends only on where `@`, `.` and whitespace occur.
  - A JavaScript string holding an unpaired surrogate has no counterpart
    among Dafny strings, so such strings are outside the model. `[^@\s]`
    would accept such a code unit in an email.
- An error entry set to `undefined` is modelled as an absent key. The
  source reads the error map only through truthiness, so this loses nothing.

## Model

| member | source | states |
|---|---|---|
| Text.TrimStartShape | app/page.tsx:107 | the result is a suffix of the input, everything dropped is whitespace, and the result does not start with whitespace |
| Text.TrimEndShape | app/page.tsx:107 | the result is a prefix of the input, everything dropped is whitespace, and the result does not end with whitespace |
| Text.TrimShape | app/page.tsx:107 | `trim` leaves a contiguous piece of the value that neither starts nor ends with whitespace, and everything it removed is whitespace |
| Text.TrimEmptyIffAllWhitespace | app/page.tsx:107 | `!value.trim()` holds exactly when the value is empty or all whitespace |
| Patterns.EmailMatchesIffRegex | app/page.tsx:78 | the evaluated email test accepts exactly the language of `^[^@\s]+@[^@\s]+\.[^@\s]+$`; both directions are proved |
| Rules.Name | app/page.tsx:35-47 | each field's key resolves back to that field, so no two fields share a key |
| Rules.LookupIffFieldName | app/page.tsx:103-105 | a name has a rule exactly when it is one of the eleven field keys |
| Rules.RuleOrderCoversFields | app/page.tsx:55-92 | the keys that whole-form validation visits include every field |
| Rules.RuleTableShape | app/page.tsx:55-92 | exactly middleName and sponsor are optional; every required rule has a non-empty message; every patterned field is required |
| Rules.ValidateField | app/page.tsx:102-112 | a name without a rule yields `""`; otherwise the result is `""` or that rule's message key |
| Rules.FieldVerdict | app/page.tsx:107-111 | a field passes exactly when (if required) its value is not blank and (if it has a pattern and the value is non-empty) the value matches |
| Rules.UnknownFieldValid | app/page.tsx:103-105 | any name that is not a field key is valid for every value |
| Rules.OptionalFieldsAlwaysValid | app/page.tsx:90-91 | middleName and sponsor are valid for every value |
| Rules.RequiredBlankFails | app/page.tsx:107 | a required field whose value is empty or all whitespace fails with its non-empty message |
| Rules.PlainRequiredFieldIff | app/page.tsx:55-92 | a required field without a pattern passes exactly when its value is not blank |
| Rules.NameFieldIff | app/page.tsx:61-70 | firstName and lastName pass exactly when the value is not blank and is 2 to 50 characters, each an ASCII letter or whitespace |
| Rules.EmailFieldShape | app/page.tsx:76-80 | the email passes exactly when it has no whitespace and exactly one `@` with text before it, and the part after the `@` contains a `.` that is neither its first nor its last character |
| Rules.EmailFieldIff | app/page.tsx:76-80 | the email passes exactly when it belongs to the language of its regex |
| Rules.PhoneFieldIff | app/page.tsx:81-85 | the phone passes exactly when it is not blank and is 10 to 15 characters, each a digit, `+`, `-`, `(`, `)` or whitespace; no digit is needed |
| Rules.NameExamples | app/page.tsx:61-70 | `"a "` passes, `"  "` fails, and `"José"` fails |
| Rules.PhoneExamples | app/page.tsx:81-85 | ten dashes pass, ten spaces fail, and nine digits fail |
| Rules.EmailAcceptExample | app/page.tsx:76-80 | `"a@b.c"` passes |
| Rules.EmailTrailingDotRejected | app/page.tsx:76-80 | `"a@b."` fails: a dot at the very end of the domain part does not count |
| Rules.EmailLeadingDotRejected | app/page.tsx:76-80 | `"a@.b"` fails: a dot directly after the `@` does not count |
| Rules.EmailTwoAtsRejected | app/page.tsx:76-80 | `"a@b@c.d"` fails: a second `@` is refused |
| FormState.Form.Set | app/page.tsx:206 | the updated form has the new value in the given field and every other field unchanged |
| FormState.FormErrors | app/page.tsx:125-133 | the error map holds exactly the failing fields, each mapped to its rule's non-empty message |
| FormState.CollectErrors | app/page.tsx:125-133 | the loop over the rule keys collects exactly the failing fields with their verdicts, and records whether any failed |
| FormState.CollectedErrorsAreFormErrors | app/page.tsx:125-137 | the errors collected over the whole table are the specified error map, which is empty exactly when every field passes |
| FormState.Validate | app/page.tsx:114-138 | returns true exactly when every field passes, which is exactly when the error map is empty; the error map is the failing fields with their messages; every field is marked touched; the form is unchanged |
| FormState.HandleChange | app/page.tsx:205-215 | stores the value and leaves every other field unchanged; only the field's own error entry can change: it is recomputed if the field was touched, and otherwise it is not displayed and is cleared only if it was truthy |
| FormState.ConsistentDisplaysExactlyFailures | app/page.tsx:359-366 | in a consistent state, the category guard `errors.f && touched.f` holds for a field exactly when it is touched and its current value fails its rule |
| FormState.ShownIffDisplayed | app/page.tsx:396-401 | in a consistent state the guard `errors.f` used by eight fields agrees with the category guard `errors.f && touched.f` |
| FormState.RenderedIffFailure | app/page.tsx:359-559 | in a consistent state an error is rendered under a field, by that field's own guard, exactly when the field is touched and its current value fails its rule; middleName and sponsor render none and never fail |
| FormState.InitialStateConsistent | app/page.tsx:96-98 | the first render is consistent and shows no error |
| FormState.HandleChangeConsistent | app/page.tsx:205-215 | `handleChange` keeps the state consistent |
| FormState.ValidatedStateConsistent | app/page.tsx:114-138 | after `validate` the state is consistent, and exactly the failing fields satisfy their render guard |
| Submit.ToRequest | app/page.tsx:152-167 | every form field is copied to its request field, so the form reads back unchanged and distinct forms give distinct requests; the option equals the category; the gala dinner is true and the type is "Doctor" |
| Submit.SubmitErrorMessage | app/page.tsx:181-182 | the failure message is the server's message when it is non-empty, and the generic key otherwise; it is never empty |
| Submit.HandleSubmit | app/page.tsx:140-203 | a request is sent exactly when every field passes, and it is built from the submitted form; an invalid form keeps the validation state; success resets form, errors and touched and sets `submitted`; failure leaves only the `submit` error; the resulting state is consistent |
| Submit.SubmittedStateShape | app/page.tsx:176-179 | after a reset the state is consistent and shows no error, and the emptied form fails every required field |

## Left out

- Rendering: JSX, the fee table, animations, images, and the mount guard of
  `Home` (app/page.tsx:217-662). This is presentation only. The one part of
  it that is modelled is when an error message is rendered under a field,
  as `FormState.Rendered`. The category field is guarded by
  `errors.category && touched.category` (app/page.tsx:359-376; this guard
  alone is `FormState.Displayed`). Nationality, doctorate, firstName,
  lastName, dob, institution, email and phone are guarded by `errors.f`
  alone (app/page.tsx:396-559). middleName and sponsor render no error.
- Toasts, `document.querySelector`/`scrollIntoView`, `new URL(...)` and the
  `window.location.href` redirect. These are browser effects. A `new URL`
  that throws is covered by the `Rejected("")` outcome.
- The registration request over HTTP (app/api/checkout.ts, app/api/axios.ts)
  and the `isSubmitting` flag. The flag is set before the call and cleared
  in `finally`, so its net effect is nil. The call's outcome is the
  `RegisterOutcome` parameter of `Submit.HandleSubmit`.
- Edits made while the registration call is pending. The model treats
  submission as one step.
- app/i18n.ts: translation dictionaries. `t` is the identity on message keys.
- components/navbar.tsx: the language toggle. It is a UI flag.
- The date picker (app/page.tsx:490-497). The date of birth is validated
  only as non-blank.
- `FormState.HandleChange` takes a `Field` rather than any string. The page
  calls it only with the eleven field keys.
- `Rules.Lookup` sees only the table's own keys. In JavaScript a name such
  as `"toString"` reaches an inherited property of the table. That property
  has no `required` flag and no `pattern`, so `validateField` still returns
  `""` for it, the same result as the model gives.
