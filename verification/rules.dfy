/** The registration form's rule table and the per-field validator
    (`validationRules` and `validateField` in app/page.tsx). Message keys are
    returned untranslated: the translation call is taken to be the identity
    on keys. */
module Rules {
  import opened Text
  import opened Patterns
  import opened Wrappers

  /** The eleven fields of the registration form, as keyed in `initialState`. */
  datatype Field =
    | Category | Nationality | Doctorate | FirstName | MiddleName | LastName
    | Dob | Institution | Email | Phone | Sponsor

  /** Resolves a field name to its field; `None` for a name with no rule. */
  function Lookup(name: string): Option<Field> {
    if name == "category" then Some(Category)
    else if name == "nationality" then Some(Nationality)
    else if name == "doctorate" then Some(Doctorate)
    else if name == "firstName" then Some(FirstName)
    else if name == "middleName" then Some(MiddleName)
    else if name == "lastName" then Some(LastName)
    else if name == "dob" then Some(Dob)
    else if name == "institution" then Some(Institution)
    else if name == "email" then Some(Email)
    else if name == "phone" then Some(Phone)
    else if name == "sponsor" then Some(Sponsor)
    else None
  }

  /** The key a field has in the form object; distinct fields have distinct
      keys, and looking a key up gives its field back. */
  function Name(f: Field): (n: string)
    ensures Lookup(n) == Some(f)
  {
    match f
    case Category => "category"
    case Nationality => "nationality"
    case Doctorate => "doctorate"
    case FirstName => "firstName"
    case MiddleName => "middleName"
    case LastName => "lastName"
    case Dob => "dob"
    case Institution => "institution"
    case Email => "email"
    case Phone => "phone"
    case Sponsor => "sponsor"
  }

  /** The optional regex of a rule. */
  datatype Pattern = NoPattern | NamePattern | EmailPattern | PhonePattern

  /** One entry of the rule table: whether the field is required, the
      message key reported when it fails, and its pattern. */
  datatype Rule = Rule(required: bool, message: string, pattern: Pattern)

  /** The rule table: every field has a rule. */
  function RuleFor(f: Field): Rule {
    match f
    case Category => Rule(true, "registration.validation.category", NoPattern)
    case Doctorate => Rule(true, "registration.validation.doctorate", NoPattern)
    case FirstName => Rule(true, "registration.validation.firstName", NamePattern)
    case LastName => Rule(true, "registration.validation.lastName", NamePattern)
    case Dob => Rule(true, "registration.validation.dob", NoPattern)
    case Institution => Rule(true, "registration.validation.institution", NoPattern)
    case Email => Rule(true, "registration.validation.email", EmailPattern)
    case Phone => Rule(true, "registration.validation.phone", PhonePattern)
    case Nationality => Rule(true, "registration.validation.nationality", NoPattern)
    case MiddleName => Rule(false, "", NoPattern)
    case Sponsor => Rule(false, "", NoPattern)
  }

  /** The keys of the rule table in declaration order, which is the order in
      which the whole-form validation visits them. */
  const RuleOrder: seq<Field> := [
    Category, Doctorate, FirstName, LastName, Dob, Institution,
    Email, Phone, Nationality, MiddleName, Sponsor
  ]

  /** `pattern.test(value)` for each of the table's patterns. */
  predicate Matches(p: Pattern, s: string) {
    match p
    case NoPattern => true
    case NamePattern => NameMatches(s)
    case EmailPattern => EmailMatches(s)
    case PhonePattern => PhoneMatches(s)
  }

  /** Checks one value against its field's rule. The result is `""` when the
      value passes (or the name has no rule) and otherwise the rule's
      message key. */
  function ValidateField(name: string, value: string): (msg: string)
    ensures Lookup(name) == None ==> msg == ""
    ensures msg == "" || (Lookup(name).Some? && msg == RuleFor(Lookup(name).value).message)
  {
    match Lookup(name)
    case None => ""
    case Some(f) =>
      var rule := RuleFor(f);
      if rule.required && Trim(value) == [] then rule.message
      else if rule.pattern != NoPattern && value != [] && !Matches(rule.pattern, value) then rule.message
      else ""
  }

  /** A name has a rule exactly when it is the key of one of the eleven fields. */
  lemma LookupIffFieldName(name: string)
    ensures Lookup(name).Some? <==> exists f :: Name(f) == name
    ensures Lookup(name).Some? ==> Name(Lookup(name).value) == name
  {
    if Lookup(name).Some? {
      assert Name(Lookup(name).value) == name;
    }
  }

  /** The visiting order lists every field. */
  lemma RuleOrderCoversFields()
    ensures forall f: Field :: f in RuleOrder
  {
    forall f: Field ensures f in RuleOrder {
      match f
      case Category => assert RuleOrder[0] == f;
      case Doctorate => assert RuleOrder[1] == f;
      case FirstName => assert RuleOrder[2] == f;
      case LastName => assert RuleOrder[3] == f;
      case Dob => assert RuleOrder[4] == f;
      case Institution => assert RuleOrder[5] == f;
      case Email => assert RuleOrder[6] == f;
      case Phone => assert RuleOrder[7] == f;
      case Nationality => assert RuleOrder[8] == f;
      case MiddleName => assert RuleOrder[9] == f;
      case Sponsor => assert RuleOrder[10] == f;
    }
  }

  /** Exactly middle name and sponsor are optional, every required rule has
      a non-empty message (so a failing required field is always reported),
      and every field with a pattern is required. */
  lemma RuleTableShape()
    ensures forall f :: RuleFor(f).required ==> RuleFor(f).message != ""
    ensures forall f :: !RuleFor(f).required <==> f == MiddleName || f == Sponsor
    ensures forall f :: RuleFor(f).pattern != NoPattern ==> RuleFor(f).required
  {
  }

  /** The verdict of the validator for a field, in terms of its rule: the
      value passes exactly when it is not blank (if the field is required)
      and, when it is non-empty, matches the pattern (if there is one). */
  lemma FieldVerdict(f: Field, v: string)
    ensures ValidateField(Name(f), v) == "" <==>
      && (RuleFor(f).required ==> !AllWhitespace(v))
      && (RuleFor(f).pattern != NoPattern && v != [] ==> Matches(RuleFor(f).pattern, v))
  {
    TrimEmptyIffAllWhitespace(v);
  }

  /** A name with no rule is valid whatever its value. */
  lemma UnknownFieldValid(name: string, v: string)
    requires forall f :: Name(f) != name
    ensures ValidateField(name, v) == ""
  {
    LookupIffFieldName(name);
  }

  /** The two optional fields are valid whatever their value. */
  lemma OptionalFieldsAlwaysValid(v: string)
    ensures ValidateField(Name(MiddleName), v) == ""
    ensures ValidateField(Name(Sponsor), v) == ""
  {
  }

  /** A required field whose value is empty or all whitespace fails with its
      rule's (non-empty) message, whatever its pattern. */
  lemma RequiredBlankFails(f: Field, v: string)
    requires RuleFor(f).required
    requires AllWhitespace(v)
    ensures ValidateField(Name(f), v) == RuleFor(f).message != ""
  {
    TrimEmptyIffAllWhitespace(v);
  }

  /** A required field without a pattern (category, doctorate, date of
      birth, institution, nationality) passes exactly when its value is not
      blank. */
  lemma PlainRequiredFieldIff(f: Field, v: string)
    requires RuleFor(f).required && RuleFor(f).pattern == NoPattern
    ensures ValidateField(Name(f), v) == "" <==> !AllWhitespace(v)
  {
    FieldVerdict(f, v);
  }

  /** First and last name pass exactly when the value is not blank and is 2
      to 50 characters, each an ASCII letter or whitespace. */
  lemma NameFieldIff(f: Field, v: string)
    requires f == FirstName || f == LastName
    ensures ValidateField(Name(f), v) == "" <==> !AllWhitespace(v) && NameMatches(v)
  {
    FieldVerdict(f, v);
  }

  /** The email passes exactly when it has no whitespace, exactly one `@`
      with something before it, and after the `@` a `.` that is neither the
      first nor the last character of the domain part. */
  lemma EmailFieldShape(v: string)
    ensures ValidateField(Name(Email), v) == "" <==> EmailMatches(v)
  {
    FieldVerdict(Email, v);
    if EmailMatches(v) {
      var i :| 0 < i < |v| && v[i] == '@' && OnlyAtAt(v, i) && HasInnerDot(v[i + 1..]);
      assert !IsWhitespace(v[0]);
    }
  }

  /** The email passes exactly when the value is in the language of
      `^[^@\s]+@[^@\s]+\.[^@\s]+$`. */
  lemma EmailFieldIff(v: string)
    ensures ValidateField(Name(Email), v) == "" <==> EmailRegex(v)
  {
    EmailFieldShape(v);
    EmailMatchesIffRegex(v);
  }

  /** The phone passes exactly when the value is not blank and is 10 to 15
      characters, each a digit, `+`, `-`, `(`, `)` or whitespace; no digit
      is demanded. */
  lemma PhoneFieldIff(v: string)
    ensures ValidateField(Name(Phone), v) == "" <==> !AllWhitespace(v) && PhoneMatches(v)
  {
    FieldVerdict(Phone, v);
  }

  /** Boundary cases of the name rule: a trailing space is accepted, a blank
      value is not, and neither is a letter outside `A-Za-z`. */
  lemma NameExamples()
    ensures ValidateField(Name(FirstName), "a ") == ""
    ensures ValidateField(Name(FirstName), "  ") == "registration.validation.firstName"
    ensures ValidateField(Name(LastName), "Jos\U{00E9}") == "registration.validation.lastName"
  {
    var ok, blank, accented := "a ", "  ", "Jos\U{00E9}";
    NameFieldIff(FirstName, ok);
    assert !IsWhitespace(ok[0]);
    assert NameMatches(ok);
    RequiredBlankFails(FirstName, blank);
    NameFieldIff(LastName, accented);
    assert !IsNameChar(accented[3]);
  }

  /** Boundary cases of the phone rule: ten dashes are accepted, ten spaces
      are not (blank), and nine digits are too short. */
  lemma PhoneExamples()
    ensures ValidateField(Name(Phone), "----------") == ""
    ensures ValidateField(Name(Phone), "          ") == "registration.validation.phone"
    ensures ValidateField(Name(Phone), "123456789") == "registration.validation.phone"
  {
    var dashes, spaces, short := "----------", "          ", "123456789";
    PhoneFieldIff(dashes);
    assert !IsWhitespace(dashes[0]);
    assert PhoneMatches(dashes);
    RequiredBlankFails(Phone, spaces);
    PhoneFieldIff(short);
    assert |short| == 9;
  }

  /** A minimal address is accepted. */
  lemma EmailAcceptExample()
    ensures ValidateField(Name(Email), "a@b.c") == ""
  {
    var ok := "a@b.c";
    EmailFieldShape(ok);
    assert ok[1] == '@' && ok[2..][1] == '.';
    assert OnlyAtAt(ok, 1);
    assert EmailMatches(ok);
  }

  /** A dot at the very end of the domain part does not count. */
  lemma EmailTrailingDotRejected()
    ensures ValidateField(Name(Email), "a@b.") == "registration.validation.email"
  {
    var v := "a@b.";
    EmailFieldShape(v);
    forall i | 0 < i < |v| && v[i] == '@' ensures !HasInnerDot(v[i + 1..]) {
      assert i == 1 && v[2..] == "b.";
    }
  }

  /** A dot directly after the `@` does not count. */
  lemma EmailLeadingDotRejected()
    ensures ValidateField(Name(Email), "a@.b") == "registration.validation.email"
  {
    var v := "a@.b";
    EmailFieldShape(v);
    forall i | 0 < i < |v| && v[i] == '@' ensures !HasInnerDot(v[i + 1..]) {
      assert i == 1 && v[2..] == ".b";
    }
  }

  /** A second `@` is refused. */
  lemma EmailTwoAtsRejected()
    ensures ValidateField(Name(Email), "a@b@c.d") == "registration.validation.email"
  {
    var v := "a@b@c.d";
    EmailFieldShape(v);
    assert v[1] == '@' && v[3] == '@';
    forall i | 0 < i < |v| && v[i] == '@' ensures !OnlyAtAt(v, i) {
      if i == 1 { assert v[3] == '@'; } else { assert v[1] == '@'; }
    }
  }
}
