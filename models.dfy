/** The user schema of app/models.py: the field constraints that `UserBase`
    declares, shared unchanged by `UserCreate` and `UserUpdate`, and the stored
    `User` record, which adds an integer id. Request bodies are checked against
    these constraints before any handler runs. */
module Models {

  datatype Option<T> = None | Some(value: T)

  datatype Result<T, E> = Ok(value: T) | Err(error: E)

  /** Length bounds of `name` and `email`, counted in characters. */
  const MinLength: nat := 1
  const MaxLength: nat := 100

  /** Bounds of `age` when it is present. */
  const MinAge: int := 0
  const MaxAge: int := 150

  /** A request body as it arrives: a required field may be missing, and an
      absent `age` (omitted or null) is `None`. */
  datatype UserBody = UserBody(name: Option<string>, email: Option<string>, age: Option<int>)

  /** The fields of `UserBase` once a body has been accepted. */
  datatype UserFields = UserFields(name: string, email: string, age: Option<int>)

  /** `User`: the fields of `UserBase` plus the id the store assigned. */
  datatype User = User(id: int, name: string, email: string, age: Option<int>)

  datatype Field = Name | Email | Age

  /** Why a field was rejected. */
  datatype Violation = Missing | StringTooShort | StringTooLong | LessThanMin | GreaterThanMax

  datatype FieldError = FieldError(field: Field, violation: Violation)

  predicate TextOk(s: string) {
    MinLength <= |s| <= MaxLength
  }

  predicate AgeOk(age: Option<int>) {
    age.Some? ==> MinAge <= age.value <= MaxAge
  }

  /** The constraint `UserBase` puts on one field of a body. */
  predicate Accepts(b: UserBody, f: Field) {
    match f
    case Name => b.name.Some? && TextOk(b.name.value)
    case Email => b.email.Some? && TextOk(b.email.value)
    case Age => AgeOk(b.age)
  }

  /** Every field of an accepted record satisfies its constraint. */
  predicate ValidFields(u: UserFields) {
    TextOk(u.name) && TextOk(u.email) && AgeOk(u.age)
  }

  predicate ValidUser(u: User) {
    ValidFields(Fields(u))
  }

  /** `model_dump()` of a `User` without its id. */
  function Fields(u: User): (f: UserFields) {
    UserFields(u.name, u.email, u.age)
  }

  /** `User(id=..., **fields.model_dump())`: the record keeps every field of
      `f` and takes `id`; nothing else goes into it. */
  function ToUser(id: int, f: UserFields): (u: User)
    ensures u.id == id && Fields(u) == f
    ensures ValidFields(f) ==> ValidUser(u)
  {
    User(id, f.name, f.email, f.age)
  }

  /** The check of a required string field with length bounds. */
  function CheckText(f: Field, v: Option<string>): (e: Option<FieldError>)
    ensures e.None? <==> v.Some? && TextOk(v.value)
    ensures e.Some? ==> e.value.field == f
    ensures e.Some? ==> (e.value.violation == Missing <==> v.None?)
    ensures e.Some? && v.Some? ==> (e.value.violation == StringTooShort <==> |v.value| < MinLength)
    ensures e.Some? && v.Some? ==> (e.value.violation == StringTooLong <==> |v.value| > MaxLength)
  {
    match v
    case None => Some(FieldError(f, Missing))
    case Some(s) =>
      if |s| < MinLength then Some(FieldError(f, StringTooShort))
      else if |s| > MaxLength then Some(FieldError(f, StringTooLong))
      else None
  }

  /** The check of the optional, bounded `age` field; absent is accepted. */
  function CheckAge(v: Option<int>): (e: Option<FieldError>)
    ensures e.None? <==> AgeOk(v)
    ensures e.Some? ==> e.value.field == Age && v.Some?
    ensures e.Some? ==> (e.value.violation == LessThanMin <==> v.value < MinAge)
    ensures e.Some? ==> (e.value.violation == GreaterThanMax <==> v.value > MaxAge)
  {
    match v
    case None => None
    case Some(n) =>
      if n < MinAge then Some(FieldError(Age, LessThanMin))
      else if n > MaxAge then Some(FieldError(Age, GreaterThanMax))
      else None
  }

  function ErrorList(e: Option<FieldError>): (errors: seq<FieldError>) {
    match e
    case None => []
    case Some(x) => [x]
  }

  /** The validation of a `UserCreate` or `UserUpdate` body. Every field is
      checked and every failing field is reported, in declaration order; an
      accepted body is passed on field for field. */
  function Validate(b: UserBody): (r: Result<UserFields, seq<FieldError>>)
    ensures r.Ok? <==> forall f :: Accepts(b, f)
    ensures r.Ok? ==> ValidFields(r.value)
    ensures r.Ok? ==> Some(r.value.name) == b.name && Some(r.value.email) == b.email && r.value.age == b.age
    ensures r.Err? ==> 1 <= |r.error| <= 3
    ensures r.Err? ==> forall e :: e in r.error ==> !Accepts(b, e.field)
    ensures r.Err? ==> forall f :: !Accepts(b, f) ==> exists e :: e in r.error && e.field == f
    ensures r.Err? ==> forall i, j :: 0 <= i < j < |r.error| ==> r.error[i].field != r.error[j].field
  {
    var nameError, emailError, ageError := CheckText(Name, b.name), CheckText(Email, b.email), CheckAge(b.age);
    var errors := ErrorList(nameError) + ErrorList(emailError) + ErrorList(ageError);
    if errors == [] then
      Ok(UserFields(b.name.value, b.email.value, b.age))
    else
      var failing := if nameError.Some? then Name else if emailError.Some? then Email else Age;
      assert !Accepts(b, failing);
      Err(errors)
  }
}
