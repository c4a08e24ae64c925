/** The edit modal: a record is flattened into ten form fields, the fields are
    validated, and on save merged back into a nested record that keeps the
    original's id and like state. The email-format rule of the form library
    is a parameter `validEmail`. */
module EditUserModal {
  import opened Wrappers
  import opened UserRecord

  /** The ten form fields; a field the form holds no value for is "". */
  datatype FormValues = FormValues(
    name: string,
    username: string,
    email: string,
    phone: string,
    website: string,
    street: string,
    suite: string,
    city: string,
    zipcode: string,
    company: string)

  /** The form after `resetFields()`: no field holds a value. */
  function BlankForm(): (f: FormValues)
    ensures !AllPresent(f)
  {
    var f := FormValues("", "", "", "", "", "", "", "", "", "");
    assert Value(f, Name) == "";
    f
  }

  /** `form.setFieldsValue(...)`: the record flattened into the form. */
  function FromUser(u: User): (v: FormValues)
    ensures AllPresent(v) <==>
      u.name != "" && u.username != "" && u.email != "" && u.phone != "" && u.website != "" &&
      u.address.street != "" && u.address.suite != "" && u.address.city != "" &&
      u.address.zipcode != "" && u.company.name != ""
  {
    AllPresentByField(FormValues(u.name, u.username, u.email, u.phone, u.website,
               u.address.street, u.address.suite, u.address.city, u.address.zipcode,
               u.company.name));
    FormValues(u.name, u.username, u.email, u.phone, u.website,
               u.address.street, u.address.suite, u.address.city, u.address.zipcode,
               u.company.name)
  }

  /** The populate effect: the form is filled from the record only when there
      is a record and the modal is visible; otherwise it is left as it was. */
  function Populate(form: FormValues, user: Option<User>, visible: bool): (r: FormValues)
    ensures user.Some? && visible ==> r == FromUser(user.value)
    ensures user.None? || !visible ==> r == form
  {
    if user.Some? && visible then FromUser(user.value) else form
  }

  /** The `updatedUser` literal: `...user` with the ten fields written over it
      and `address`/`company` rebuilt from the listed keys only. */
  function Merge(u: User, v: FormValues): (r: User)
    ensures r.id == u.id && r.liked == u.liked && r.likeCount == u.likeCount
    ensures FromUser(r) == v
    ensures r.address.geo.None? && r.company.catchPhrase.None? && r.company.bs.None?
  {
    u.(name := v.name,
       username := v.username,
       email := v.email,
       phone := v.phone,
       website := v.website,
       address := Address(v.street, v.suite, v.city, v.zipcode, None),
       company := Company(v.company, None, None))
  }

  /** The merged record depends on the original only through its id and like
      state: nothing else of the original survives the save. */
  lemma MergeKeepsOnlyIdAndLikes(u: User, u': User, v: FormValues)
    requires u.id == u'.id && u.liked == u'.liked && u.likeCount == u'.likeCount
    ensures Merge(u, v) == Merge(u', v)
  {
  }

  /** Whether the record carries nested keys the form does not show. */
  predicate HasHiddenNestedKeys(u: User) {
    u.address.geo.Some? || u.company.catchPhrase.Some? || u.company.bs.Some?
  }

  /** Saving an unedited form gives back the same record exactly when it has
      no hidden nested keys; its ten edited fields come back in every case. */
  lemma UneditedRoundTrip(u: User)
    ensures FromUser(Merge(u, FromUser(u))) == FromUser(u)
    ensures Merge(u, FromUser(u)) == u <==> !HasHiddenNestedKeys(u)
  {
  }

  /** The field order the form lists its errors in. */
  datatype Field = Name | Username | Email | Phone | Website | Street | Suite | City | Zipcode | CompanyName

  function Value(v: FormValues, f: Field): string
  {
    match f
    case Name => v.name
    case Username => v.username
    case Email => v.email
    case Phone => v.phone
    case Website => v.website
    case Street => v.street
    case Suite => v.suite
    case City => v.city
    case Zipcode => v.zipcode
    case CompanyName => v.company
  }

  /** Every one of the ten required fields holds a value. */
  predicate AllPresent(v: FormValues) {
    forall f: Field :: Value(v, f) != ""
  }

  /** `AllPresent` spelled out field by field. */
  lemma AllPresentByField(v: FormValues)
    ensures AllPresent(v) <==>
      v.name != "" && v.username != "" && v.email != "" && v.phone != "" && v.website != "" &&
      v.street != "" && v.suite != "" && v.city != "" && v.zipcode != "" && v.company != ""
  {
    assert Value(v, Name) == v.name && Value(v, Username) == v.username && Value(v, Email) == v.email;
    assert Value(v, Phone) == v.phone && Value(v, Website) == v.website && Value(v, Street) == v.street;
    assert Value(v, Suite) == v.suite && Value(v, City) == v.city && Value(v, Zipcode) == v.zipcode;
    assert Value(v, CompanyName) == v.company;
  }

  /** The inline message of each field's `required` rule. */
  function RequiredMessage(f: Field): (m: string)
    ensures |m| > 13 && m[..13] == "Please enter "
    ensures m != InvalidEmailMessage
  {
    match f
    case Name => "Please enter full name"
    case Username => "Please enter username"
    case Email => "Please enter email"
    case Phone => "Please enter phone number"
    case Website => "Please enter website"
    case Street => "Please enter street"
    case Suite => "Please enter suite"
    case City => "Please enter city"
    case Zipcode => "Please enter ZIP code"
    case CompanyName => "Please enter company name"
  }

  const InvalidEmailMessage: string := "Please enter a valid email"
  const SaveRejectedMessage: string := "Please fill in all required fields"

  const FieldOrder: seq<Field> :=
    [Name, Username, Email, Phone, Website, Street, Suite, City, Zipcode, CompanyName]

  /** The errors of one field: the `required` message when empty; for the
      email field, the format message when non-empty and malformed. */
  function FieldErrors(v: FormValues, f: Field, validEmail: string -> bool): (errors: seq<string>)
    ensures |errors| <= 1
    ensures |errors| == 0 <==> Value(v, f) != "" && (f == Email ==> validEmail(v.email))
    ensures Value(v, f) == "" ==> errors == [RequiredMessage(f)]
    ensures f != Email ==> InvalidEmailMessage !in errors
  {
    if Value(v, f) == "" then [RequiredMessage(f)]
    else if f == Email && !validEmail(v.email) then [InvalidEmailMessage]
    else []
  }

  function ErrorsOf(v: FormValues, fields: seq<Field>, validEmail: string -> bool): seq<string>
  {
    if |fields| == 0 then [] else FieldErrors(v, fields[0], validEmail) + ErrorsOf(v, fields[1..], validEmail)
  }

  /** `form.validateFields()`: the inline errors of all fields in form order. */
  function Validate(v: FormValues, validEmail: string -> bool): (errors: seq<string>)
    ensures |errors| == 0 <==> AllPresent(v) && validEmail(v.email)
    ensures forall f: Field :: Value(v, f) == "" ==> RequiredMessage(f) in errors
    ensures v.email != "" && !validEmail(v.email) ==> InvalidEmailMessage in errors
  {
    ErrorsOfEmpty(v, FieldOrder, validEmail);
    NoFieldErrorsIff(v, validEmail);
    ReportsEveryField(v, validEmail);
    ErrorsOf(v, FieldOrder, validEmail)
  }

  /** Every empty field's required message, and the format message of a
      malformed email, appear among the form's errors. */
  lemma ReportsEveryField(v: FormValues, validEmail: string -> bool)
    ensures forall f: Field :: Value(v, f) == "" ==> RequiredMessage(f) in ErrorsOf(v, FieldOrder, validEmail)
    ensures v.email != "" && !validEmail(v.email) ==> InvalidEmailMessage in ErrorsOf(v, FieldOrder, validEmail)
  {
    EveryFieldListed();
    forall f: Field | Value(v, f) == "" ensures RequiredMessage(f) in ErrorsOf(v, FieldOrder, validEmail) {
      assert f in FieldOrder;
      var k :| 0 <= k < |FieldOrder| && FieldOrder[k] == f;
      ErrorsOfContains(v, FieldOrder, k, validEmail);
      assert RequiredMessage(f) in FieldErrors(v, f, validEmail);
    }
    if v.email != "" && !validEmail(v.email) {
      assert FieldOrder[2] == Email;
      ErrorsOfContains(v, FieldOrder, 2, validEmail);
      assert InvalidEmailMessage in FieldErrors(v, Email, validEmail);
    }
  }

  lemma {:induction false} ErrorsOfEmpty(v: FormValues, fields: seq<Field>, validEmail: string -> bool)
    ensures |ErrorsOf(v, fields, validEmail)| == 0 <==>
      forall i | 0 <= i < |fields| :: |FieldErrors(v, fields[i], validEmail)| == 0
  {
    if |fields| > 0 {
      ErrorsOfEmpty(v, fields[1..], validEmail);
      assert forall i | 1 <= i < |fields| :: fields[i] == fields[1..][i - 1];
    }
  }

  lemma {:induction false} ErrorsOfContains(v: FormValues, fields: seq<Field>, k: nat, validEmail: string -> bool)
    requires k < |fields|
    ensures forall m | m in FieldErrors(v, fields[k], validEmail) :: m in ErrorsOf(v, fields, validEmail)
  {
    if k > 0 {
      ErrorsOfContains(v, fields[1..], k - 1, validEmail);
    }
  }

  lemma NoFieldErrorsIff(v: FormValues, validEmail: string -> bool)
    ensures (forall i | 0 <= i < |FieldOrder| :: |FieldErrors(v, FieldOrder[i], validEmail)| == 0)
            <==> AllPresent(v) && validEmail(v.email)
  {
    EveryFieldListed();
    if forall i | 0 <= i < |FieldOrder| :: |FieldErrors(v, FieldOrder[i], validEmail)| == 0 {
      forall f: Field ensures Value(v, f) != "" {
        assert f in FieldOrder;
        var i :| 0 <= i < |FieldOrder| && FieldOrder[i] == f;
        assert |FieldErrors(v, FieldOrder[i], validEmail)| == 0;
      }
      assert |FieldErrors(v, FieldOrder[2], validEmail)| == 0;
    }
  }

  lemma EveryFieldListed()
    ensures forall f: Field :: f in FieldOrder
  {
    forall f: Field ensures f in FieldOrder {
      match f
      case Name => assert FieldOrder[0] == f;
      case Username => assert FieldOrder[1] == f;
      case Email => assert FieldOrder[2] == f;
      case Phone => assert FieldOrder[3] == f;
      case Website => assert FieldOrder[4] == f;
      case Street => assert FieldOrder[5] == f;
      case Suite => assert FieldOrder[6] == f;
      case City => assert FieldOrder[7] == f;
      case Zipcode => assert FieldOrder[8] == f;
      case CompanyName => assert FieldOrder[9] == f;
    }
  }

  /** What pressing Save leads to: the record handed to `onSave`, the
      validation failure toast, or nothing when there is no record. */
  datatype SaveOutcome = Saved(user: User) | Rejected(message: string) | NoRecord

  /** `handleSave`: validation first, then the null check, then the merge. */
  function HandleSave(user: Option<User>, form: FormValues, validEmail: string -> bool): (r: SaveOutcome)
    ensures r.Saved? <==> user.Some? && AllPresent(form) && validEmail(form.email)
    ensures r.Saved? ==> r.user == Merge(user.value, form)
    ensures r.Rejected? <==> !(AllPresent(form) && validEmail(form.email))
    ensures r.Rejected? ==> r.message == SaveRejectedMessage
  {
    if |Validate(form, validEmail)| > 0 then Rejected(SaveRejectedMessage)
    else if user.None? then NoRecord
    else Saved(Merge(user.value, form))
  }

  /** Saving the form as it was populated hands back the record with its ten
      fields unchanged, provided those fields pass validation. */
  lemma SaveUnedited(u: User, validEmail: string -> bool)
    requires AllPresent(FromUser(u)) && validEmail(u.email)
    ensures HandleSave(Some(u), Populate(BlankForm(), Some(u), true), validEmail).Saved?
    ensures var s := HandleSave(Some(u), Populate(BlankForm(), Some(u), true), validEmail).user;
      FromUser(s) == FromUser(u) && s.id == u.id && s.liked == u.liked && s.likeCount == u.likeCount
  {
  }
}
