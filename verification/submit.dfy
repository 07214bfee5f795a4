/** The submit path of the registration form (`handleSubmit`): validation,
    the mapping of the form to the registration request, and the state the
    form is left in. The registration call itself is network I/O; its
    outcome is a parameter. */
module Submit {
  import opened Wrappers
  import opened Rules
  import opened FormState

  /** The registration request body; each field carries the wire key in its
      doc comment. */
  datatype RegistrationRequest = RegistrationRequest(
    /** registration_category */ registrationCategory: string,
    /** registration_option */ registrationOption: string,
    /** nationality */ nationality: string,
    /** doctorate_degree */ doctorateDegree: string,
    /** first_name */ firstName: string,
    /** middle_name */ middleName: string,
    /** last_name */ lastName: string,
    /** date_of_birth */ dateOfBirth: string,
    /** institution */ institution: string,
    /** email */ email: string,
    /** phone_number */ phoneNumber: string,
    /** sponsor */ sponsor: string,
    /** attend_gala_dinner */ attendGalaDinner: bool,
    /** registration_type */ registrationType: string)

  /** Reads the form back out of a request: the inverse of `ToRequest`. */
  function FormOfRequest(r: RegistrationRequest): Form {
    Form(r.registrationCategory, r.nationality, r.doctorateDegree,
         r.firstName, r.middleName, r.lastName,
         r.dateOfBirth, r.institution, r.email, r.phoneNumber, r.sponsor)
  }

  /** `registrationData`: every form field is copied to its request field,
      so the form can be read back unchanged; the category is sent both as
      the category and as the option; gala-dinner attendance is always
      requested and the registration type is always "Doctor". */
  function ToRequest(form: Form): (r: RegistrationRequest)
    ensures FormOfRequest(r) == form
    ensures r.registrationOption == r.registrationCategory
    ensures r.attendGalaDinner && r.registrationType == "Doctor"
  {
    RegistrationRequest(
      form.category, form.category, form.nationality, form.doctorate,
      form.firstName, form.middleName, form.lastName,
      form.dob, form.institution, form.email, form.phone, form.sponsor,
      true, "Doctor")
  }

  /** How the registration call ended: it returned (with or without a
      payment link), or it threw, carrying the server's message or `""`
      when there was none. */
  datatype RegisterOutcome = Registered | Rejected(serverMessage: string)

  /** The key of the generic failure message. */
  const FallbackMessage: string := "registration.form.error"

  /** `error.response?.data?.message || t("registration.form.error")`: the
      server's message when it has one, the generic key otherwise; never
      empty, so the failure is always shown. */
  function SubmitErrorMessage(serverMessage: string): (m: string)
    ensures m != ""
    ensures serverMessage != "" ==> m == serverMessage
    ensures serverMessage == "" ==> m == FallbackMessage
  {
    if serverMessage != "" then serverMessage else FallbackMessage
  }

  /** The state after a successful registration: the form is back to
      `initialState`, errors and touched are emptied, and the form is
      marked submitted. */
  const SubmittedState: State := State(InitialForm, map[], {}, true)

  /** `handleSubmit`: validates; an invalid form sends nothing and keeps the
      validation state; a valid form sends the request built from it, and
      then either resets (success) or records the failure under `submit`. */
  method HandleSubmit(s: State, outcome: RegisterOutcome) returns (s': State, sent: Option<RegistrationRequest>)
    ensures sent.Some? <==> forall f :: Verdict(s.form, f) == ""
    ensures sent.Some? ==> sent.value == ToRequest(s.form)
    ensures sent.None? ==>
      && s'.form == s.form && s'.errors == FormErrors(s.form)
      && s'.touched == AllFields && s'.submitted == s.submitted
    ensures sent.Some? && outcome.Registered? ==> s' == SubmittedState
    ensures sent.Some? && outcome.Rejected? ==>
      && s'.form == s.form && s'.touched == AllFields && s'.submitted == s.submitted
      && s'.errors == map[SubmitKey := SubmitErrorMessage(outcome.serverMessage)]
    ensures Consistent(s')
  {
    var valid, validated := Validate(s);
    ValidatedStateConsistent(validated);
    if !valid {
      s', sent := validated, None;
      return;
    }
    var registrationData := ToRequest(s.form);
    sent := Some(registrationData);
    match outcome
    case Registered =>
      s' := SubmittedState;
    case Rejected(serverMessage) =>
      s' := validated.(errors := validated.errors[SubmitKey := SubmitErrorMessage(serverMessage)]);
  }

  /** After a successful registration nothing is displayed as an error, the
      state is consistent, and the emptied form would fail every required
      field if submitted again unchanged. */
  lemma SubmittedStateShape()
    ensures Consistent(SubmittedState)
    ensures forall f :: !Displayed(SubmittedState, f)
    ensures forall f :: RuleFor(f).required ==> Verdict(SubmittedState.form, f) == RuleFor(f).message != ""
  {
    forall f | RuleFor(f).required
      ensures Verdict(SubmittedState.form, f) == RuleFor(f).message != ""
    {
      assert InitialForm.Get(f) == "";
      RequiredBlankFails(f, "");
    }
  }
}
