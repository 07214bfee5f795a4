/** The registration form's state and its two validating transitions:
    whole-form validation on submit (`validate`) and the per-keystroke update
    (`handleChange`). React's `setState` is read as producing a new record;
    consecutive functional updates are composed in the order they are queued. */
module FormState {
  import opened Rules

  /** The form record, one string per field; `initialState` has them all empty. */
  datatype Form = Form(
    category: string, nationality: string, doctorate: string,
    firstName: string, middleName: string, lastName: string,
    dob: string, institution: string, email: string, phone: string,
    sponsor: string)
  {
    /** `form[field]`. */
    function Get(f: Field): string {
      match f
      case Category => category
      case Nationality => nationality
      case Doctorate => doctorate
      case FirstName => firstName
      case MiddleName => middleName
      case LastName => lastName
      case Dob => dob
      case Institution => institution
      case Email => email
      case Phone => phone
      case Sponsor => sponsor
    }

    /** `{ ...form, [field]: value }`: the one field takes the new value and
        every other field keeps its old one. */
    function Set(f: Field, v: string): (r: Form)
      ensures r.Get(f) == v
      ensures forall g :: g != f ==> r.Get(g) == Get(g)
    {
      match f
      case Category => this.(category := v)
      case Nationality => this.(nationality := v)
      case Doctorate => this.(doctorate := v)
      case FirstName => this.(firstName := v)
      case MiddleName => this.(middleName := v)
      case LastName => this.(lastName := v)
      case Dob => this.(dob := v)
      case Institution => this.(institution := v)
      case Email => this.(email := v)
      case Phone => this.(phone := v)
      case Sponsor => this.(sponsor := v)
    }
  }

  /** `initialState`: every field empty. */
  const InitialForm: Form := Form("", "", "", "", "", "", "", "", "", "", "")

  /** A key of the error map: a field's own entry, or the `submit` entry set
      when registration fails. */
  datatype ErrorKey = FieldKey(field: Field) | SubmitKey

  /** Everything the form keeps between renders that the validator reads or
      writes. An error entry whose value is `undefined` is represented by the
      key being absent; the `touched` map only ever holds `true`, so it is a
      set. */
  datatype State = State(
    form: Form,
    errors: map<ErrorKey, string>,
    touched: set<Field>,
    submitted: bool)

  /** The component's state on first render. */
  const InitialState: State := State(InitialForm, map[], {}, false)

  /** Every field, which is what `Object.keys(form)` enumerates. */
  const AllFields: set<Field> := set f | f in RuleOrder

  /** The validator's verdict on field `f` of `form`. */
  function Verdict(form: Form, f: Field): string {
    ValidateField(Name(f), form.Get(f))
  }

  /** JavaScript truthiness of `errors[k]`: present and not the empty string. */
  predicate Shown(errors: map<ErrorKey, string>, k: ErrorKey) {
    k in errors && errors[k] != ""
  }

  /** The guard `errors.f && touched.f`, which the page uses for the
      category field. */
  predicate Displayed(s: State, f: Field) {
    Shown(s.errors, FieldKey(f)) && f in s.touched
  }

  /** Whether the page renders an error message under field `f`. Category
      is guarded by `errors.category && touched.category`; the eight other
      validated fields by `errors.f` alone; middle name and sponsor render no
      error at all. */
  predicate Rendered(s: State, f: Field) {
    match f
    case Category => Displayed(s, f)
    case MiddleName => false
    case Sponsor => false
    case _ => Shown(s.errors, FieldKey(f))
  }

  /** The error map the whole-form validation builds: exactly the failing
      fields, each mapped to its rule's message. */
  function FormErrors(form: Form): (errs: map<ErrorKey, string>)
    ensures forall k :: k in errs <==> k.FieldKey? && Verdict(form, k.field) != ""
    ensures forall k :: k in errs ==> errs[k] == RuleFor(k.field).message != ""
  {
    RuleOrderCoversFields();
    var keys := set f | f in RuleOrder :: FieldKey(f);
    map k | k in keys && Verdict(form, k.field) != "" :: Verdict(form, k.field)
  }

  /** The `forEach` of `validate` over the rule keys `order`: collects the
      failing fields with their messages and records whether any failed. */
  method CollectErrors(form: Form, order: seq<Field>) returns (newErrors: map<ErrorKey, string>, hasErrors: bool)
    ensures forall k :: k in newErrors <==> k.FieldKey? && k.field in order && Verdict(form, k.field) != ""
    ensures forall k :: k in newErrors ==> newErrors[k] == Verdict(form, k.field)
    ensures hasErrors <==> exists f :: f in order && Verdict(form, f) != ""
  {
    newErrors := map[];
    hasErrors := false;
    var i := 0;
    while i < |order|
      invariant 0 <= i <= |order|
      invariant forall k :: k in newErrors <==>
        k.FieldKey? && k.field in order[..i] && Verdict(form, k.field) != ""
      invariant forall k :: k in newErrors ==> newErrors[k] == Verdict(form, k.field)
      invariant hasErrors <==> exists f :: f in order[..i] && Verdict(form, f) != ""
    {
      var field := order[i];
      var error := ValidateField(Name(field), form.Get(field));
      if error != "" {
        newErrors := newErrors[FieldKey(field) := error];
        hasErrors := true;
      }
      assert order[..i + 1] == order[..i] + [field];
      i := i + 1;
    }
    assert order[..i] == order;
  }

  /** The errors collected over the whole rule table are the specified map,
      and that map is empty exactly when every field passes. */
  lemma CollectedErrorsAreFormErrors(form: Form, errs: map<ErrorKey, string>)
    requires forall k :: k in errs <==> k.FieldKey? && k.field in RuleOrder && Verdict(form, k.field) != ""
    requires forall k :: k in errs ==> errs[k] == Verdict(form, k.field)
    ensures errs == FormErrors(form)
    ensures errs == map[] <==> forall f :: Verdict(form, f) == ""
  {
    RuleOrderCoversFields();
    var expected := FormErrors(form);
    assert forall k :: k in errs <==> k in expected;
    if errs == map[] {
      forall f ensures Verdict(form, f) == "" {
        assert FieldKey(f) !in errs;
      }
    }
  }

  /** `validate`: marks every field touched, runs every rule in table order,
      collects the failures and reports whether there were none. */
  method Validate(s: State) returns (valid: bool, s': State)
    ensures valid <==> forall f :: Verdict(s.form, f) == ""
    ensures valid <==> s'.errors == map[]
    ensures s'.errors == FormErrors(s.form)
    ensures s'.touched == AllFields
    ensures s'.form == s.form && s'.submitted == s.submitted
  {
    var newErrors, hasErrors := CollectErrors(s.form, RuleOrder);
    CollectedErrorsAreFormErrors(s.form, newErrors);
    assert hasErrors <==> newErrors != map[] by {
      if hasErrors {
        var f :| f in RuleOrder && Verdict(s.form, f) != "";
        assert FieldKey(f) in newErrors;
      }
    }
    s' := s.(errors := newErrors, touched := AllFields);
    valid := !hasErrors;
  }

  /** `handleChange(field, value)`: stores the value; a stale truthy error on
      the field is cleared; if the field was already touched its error is
      recomputed for the new value. Nothing else changes. */
  function HandleChange(s: State, f: Field, v: string): (s': State)
    ensures s'.form.Get(f) == v
    ensures forall g :: g != f ==> s'.form.Get(g) == s.form.Get(g)
    ensures s'.touched == s.touched && s'.submitted == s.submitted
    ensures forall k :: k != FieldKey(f) ==>
      (k in s'.errors <==> k in s.errors) && (k in s.errors ==> s'.errors[k] == s.errors[k])
    ensures f in s.touched ==> FieldKey(f) in s'.errors && s'.errors[FieldKey(f)] == Verdict(s'.form, f)
    ensures f !in s.touched ==> !Shown(s'.errors, FieldKey(f))
    ensures f !in s.touched && !Shown(s.errors, FieldKey(f)) ==> s'.errors == s.errors
  {
    var form := s.form.Set(f, v);
    var cleared := if Shown(s.errors, FieldKey(f)) then s.errors - {FieldKey(f)} else s.errors;
    var errors := if f in s.touched then cleared[FieldKey(f) := ValidateField(Name(f), v)] else cleared;
    s.(form := form, errors := errors)
  }

  /** The state invariant every reachable state keeps: each field's entry in
      the error map is that field's current verdict and belongs to a touched
      field, and every touched field that fails has an entry. */
  ghost predicate Consistent(s: State) {
    && (forall k :: k in s.errors && k.FieldKey? ==>
          k.field in s.touched && s.errors[k] == Verdict(s.form, k.field))
    && (forall f :: f in s.touched && Verdict(s.form, f) != "" ==> FieldKey(f) in s.errors)
  }

  /** What the invariant means on screen: a field shows an error exactly
      when it has been touched and its current value fails its rule. */
  lemma ConsistentDisplaysExactlyFailures(s: State, f: Field)
    requires Consistent(s)
    ensures Displayed(s, f) <==> f in s.touched && Verdict(s.form, f) != ""
  {
  }

  /** In a consistent state an error entry exists only for a touched field,
      so the guards `errors.f` and `errors.f && touched.f` agree. */
  lemma ShownIffDisplayed(s: State, f: Field)
    requires Consistent(s)
    ensures Shown(s.errors, FieldKey(f)) <==> Displayed(s, f)
  {
  }

  /** What the invariant means on screen, field by field: the page renders
      an error under a field exactly when the field has been touched and its
      current value fails its rule (the two optional fields never fail, and
      render none). */
  lemma RenderedIffFailure(s: State, f: Field)
    requires Consistent(s)
    ensures Rendered(s, f) <==> f in s.touched && Verdict(s.form, f) != ""
  {
    ShownIffDisplayed(s, f);
    OptionalFieldsAlwaysValid(s.form.Get(f));
  }

  /** The first render is consistent, and shows no error. */
  lemma InitialStateConsistent()
    ensures Consistent(InitialState)
    ensures forall f :: !Displayed(InitialState, f)
  {
  }

  /** `handleChange` keeps the invariant. */
  lemma HandleChangeConsistent(s: State, f: Field, v: string)
    requires Consistent(s)
    ensures Consistent(HandleChange(s, f, v))
  {
    var s' := HandleChange(s, f, v);
    forall k | k in s'.errors && k.FieldKey?
      ensures k.field in s'.touched && s'.errors[k] == Verdict(s'.form, k.field)
    {
      if k.field != f {
        assert k in s.errors && s'.form.Get(k.field) == s.form.Get(k.field);
      }
    }
    forall g | g in s'.touched && Verdict(s'.form, g) != ""
      ensures FieldKey(g) in s'.errors
    {
      if g != f {
        assert s'.form.Get(g) == s.form.Get(g);
      }
    }
  }

  /** The state whole-form validation leaves is consistent, and in it every
      failing field, and no other, is displayed. */
  lemma ValidatedStateConsistent(s: State)
    requires s.errors == FormErrors(s.form) && s.touched == AllFields
    ensures Consistent(s)
    ensures forall f :: Displayed(s, f) <==> Verdict(s.form, f) != ""
    ensures forall f :: Rendered(s, f) <==> Verdict(s.form, f) != ""
  {
    RuleOrderCoversFields();
    assert forall f :: f in s.touched;
    forall f ensures Rendered(s, f) <==> Verdict(s.form, f) != "" {
      RenderedIffFailure(s, f);
    }
  }
}
