/**
 * The helmet collection: the stored helmet status codes and the validation
 * and defaults the schema applies when a helmet is created.
 */
module HelmetModel {
  import opened Wrappers
  import opened Schema

  datatype HelmetStatus = Ready | InUse | Broken | Lost | Disabled

  function StatusCode(s: HelmetStatus): (c: int)
    ensures 0 <= c <= 4
  {
    match s
    case Ready => 0
    case InUse => 1
    case Broken => 2
    case Lost => 3
    case Disabled => 4
  }

  /** The enum constraint on `status`: only the five codes are accepted. */
  function StatusOf(c: int): (r: Option<HelmetStatus>)
    ensures r.Some? <==> 0 <= c <= 4
    ensures r.Some? ==> StatusCode(r.value) == c
  {
    if c == 0 then Some(Ready)
    else if c == 1 then Some(InUse)
    else if c == 2 then Some(Broken)
    else if c == 3 then Some(Lost)
    else if c == 4 then Some(Disabled)
    else None
  }

  lemma StatusCodec(s: HelmetStatus, t: HelmetStatus)
    ensures StatusOf(StatusCode(s)) == Some(s)
    ensures StatusCode(s) == StatusCode(t) ==> s == t
    ensures StatusCode(Ready) == 0 && StatusCode(InUse) == 1 && StatusCode(Broken) == 2
    ensures StatusCode(Lost) == 3 && StatusCode(Disabled) == 4
  {
  }

  /** A helmet document as handed to `create`. */
  datatype HelmetInput = HelmetInput(
    version: Field<int>,
    password: Field<string>,
    encryptKey: Field<string>,
    macAddress: Field<string>,
    battery: Field<int>,
    status: Field<int>,
    createdAt: Field<int>)

  /** A stored helmet. Times are milliseconds since the epoch. */
  datatype Helmet = Helmet(
    version: int,
    password: string,
    encryptKey: string,
    macAddress: string,
    battery: int,
    status: HelmetStatus,
    createdAt: int,
    updatedAt: int)

  /** The status after its default: absent means DISABLED. */
  function StatusField(input: HelmetInput): Field<int>
  {
    WithDefault(input.status, Given(StatusCode(Disabled)))
  }

  /** `createdAt` after its default `Date.now`. */
  function CreatedAtField(input: HelmetInput, now: int): Field<int>
  {
    WithDefault(input.createdAt, Given(now))
  }

  function Violations(input: HelmetInput, now: int): seq<Violation>
  {
    var status := StatusField(input);
    CheckRequired(RequiredNumber(input.version), "version")
    + CheckRequired(RequiredString(input.password), "password")
    + CheckRequired(RequiredString(input.encryptKey), "encryptKey")
    + CheckRequired(RequiredString(input.macAddress), "macAddress")
    + CheckRequired(RequiredNumber(input.battery), "battery")
    + CheckRequired(RequiredNumber(status), "status")
    + (if status.Given? && !(0 <= status.value <= 4) then [NotInEnum("status")] else [])
    + CheckRequired(RequiredNumber(CreatedAtField(input, now)), "createdAt")
  }

  /** What validation accepts, stated field by field. */
  predicate Acceptable(input: HelmetInput)
  {
    && input.version.Given?
    && RequiredString(input.password)
    && RequiredString(input.encryptKey)
    && RequiredString(input.macAddress)
    && input.battery.Given?
    && (input.status.Absent? || (input.status.Given? && 0 <= input.status.value <= 4))
    && !input.createdAt.Null?
  }

  /** Applies the defaults and builds a document; `now` is the creation time. */
  function Create(input: HelmetInput, now: int): (r: Result<Helmet, SchemaError>)
    ensures r.Success? <==> Acceptable(input)
    ensures r.Failure? ==> r.error.ValidationFailed? && r.error.violations != []
    ensures r.Success? ==> r.value.updatedAt == now
  {
    var vs := Violations(input, now);
    if vs != [] then Failure(ValidationFailed(vs))
    else
      var status := StatusOf(StatusField(input).value);
      Success(Helmet(
        input.version.value, input.password.value, input.encryptKey.value,
        input.macAddress.value, input.battery.value, status.value,
        CreatedAtField(input, now).value, now))
  }

  /** Defaults: status DISABLED and `createdAt` the creation time when left out. */
  lemma CreateDefaults(input: HelmetInput, now: int)
    requires Acceptable(input)
    ensures Create(input, now).Success?
    ensures input.status.Absent? ==> Create(input, now).value.status == Disabled
    ensures input.status.Given? ==> StatusCode(Create(input, now).value.status) == input.status.value
    ensures input.createdAt.Absent? ==> Create(input, now).value.createdAt == now
    ensures input.createdAt.Given? ==> Create(input, now).value.createdAt == input.createdAt.value
  {
  }

  /** Each missing required field is named among the violations. */
  lemma CreateNamesMissing(input: HelmetInput, now: int)
    ensures !input.version.Given? ==> Create(input, now).Failure? && Required("version") in Create(input, now).error.violations
    ensures !RequiredString(input.password) ==> Create(input, now).Failure? && Required("password") in Create(input, now).error.violations
    ensures !RequiredString(input.encryptKey) ==> Create(input, now).Failure? && Required("encryptKey") in Create(input, now).error.violations
    ensures !RequiredString(input.macAddress) ==> Create(input, now).Failure? && Required("macAddress") in Create(input, now).error.violations
    ensures !input.battery.Given? ==> Create(input, now).Failure? && Required("battery") in Create(input, now).error.violations
  {
  }
}
