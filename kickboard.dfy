/**
 * The kickboard collection: the stored codes of a kickboard's mode, its lost
 * level and its collect reason, the validation and defaults the schema applies
 * when a kickboard is created, the unique index on `kickboardCode`, and the
 * `findOne({ kickboardCode })` lookup used by the idle-ride pass.
 */
module KickboardModel {
  import opened Wrappers
  import opened Schema

  datatype KickboardMode = Ready | InUse | Broken | Collected | Unregistered | Disabled

  datatype KickboardLost = Final | Third | Second | First

  datatype KickboardCollect = Battery | Location | BrokenDevice | Other

  function ModeCode(m: KickboardMode): (c: int)
    ensures 0 <= c <= 5
  {
    match m
    case Ready => 0
    case InUse => 1
    case Broken => 2
    case Collected => 3
    case Unregistered => 4
    case Disabled => 5
  }

  /** The enum constraint on `mode`: only the six codes are accepted. */
  function ModeOf(c: int): (r: Option<KickboardMode>)
    ensures r.Some? <==> 0 <= c <= 5
    ensures r.Some? ==> ModeCode(r.value) == c
  {
    if c == 0 then Some(Ready)
    else if c == 1 then Some(InUse)
    else if c == 2 then Some(Broken)
    else if c == 3 then Some(Collected)
    else if c == 4 then Some(Unregistered)
    else if c == 5 then Some(Disabled)
    else None
  }

  function LostCode(l: KickboardLost): (c: int)
    ensures 0 <= c <= 3
  {
    match l
    case Final => 0
    case Third => 1
    case Second => 2
    case First => 3
  }

  function LostOf(c: int): (r: Option<KickboardLost>)
    ensures r.Some? <==> 0 <= c <= 3
    ensures r.Some? ==> LostCode(r.value) == c
  {
    if c == 0 then Some(Final)
    else if c == 1 then Some(Third)
    else if c == 2 then Some(Second)
    else if c == 3 then Some(First)
    else None
  }

  function CollectCode(k: KickboardCollect): (c: int)
    ensures 0 <= c <= 3
  {
    match k
    case Battery => 0
    case Location => 1
    case BrokenDevice => 2
    case Other => 3
  }

  function CollectOf(c: int): (r: Option<KickboardCollect>)
    ensures r.Some? <==> 0 <= c <= 3
    ensures r.Some? ==> CollectCode(r.value) == c
  {
    if c == 0 then Some(Battery)
    else if c == 1 then Some(Location)
    else if c == 2 then Some(BrokenDevice)
    else if c == 3 then Some(Other)
    else None
  }

  lemma ModeCodec(m: KickboardMode, n: KickboardMode)
    ensures ModeOf(ModeCode(m)) == Some(m)
    ensures ModeCode(m) == ModeCode(n) ==> m == n
    ensures ModeCode(Ready) == 0 && ModeCode(InUse) == 1 && ModeCode(Broken) == 2
    ensures ModeCode(Collected) == 3 && ModeCode(Unregistered) == 4 && ModeCode(Disabled) == 5
  {
  }

  lemma LostCodec(l: KickboardLost, k: KickboardLost)
    ensures LostOf(LostCode(l)) == Some(l)
    ensures LostCode(l) == LostCode(k) ==> l == k
    ensures LostCode(Final) == 0 && LostCode(Third) == 1 && LostCode(Second) == 2 && LostCode(First) == 3
  {
  }

  lemma CollectCodec(c: KickboardCollect, d: KickboardCollect)
    ensures CollectOf(CollectCode(c)) == Some(c)
    ensures CollectCode(c) == CollectCode(d) ==> c == d
    ensures CollectCode(Battery) == 0 && CollectCode(Location) == 1
    ensures CollectCode(BrokenDevice) == 2 && CollectCode(Other) == 3
  {
  }

  /** A kickboard document as handed to `create`, before defaults and validation. */
  datatype KickboardInput = KickboardInput(
    kickboardId: Field<string>,
    kickboardCode: Field<string>,
    franchiseId: Field<string>,
    regionId: Field<string>,
    maxSpeed: Field<int>,
    photo: Field<string>,
    mode: Field<int>,
    lost: Field<int>,
    collect: Field<int>,
    status: Field<string>,
    helmetId: Field<string>,
    disconnectedAt: Field<int>)

  /** A stored kickboard. Times are milliseconds since the epoch. */
  datatype Kickboard = Kickboard(
    kickboardId: string,
    kickboardCode: string,
    franchiseId: string,
    regionId: string,
    maxSpeed: Option<int>,
    photo: Option<string>,
    mode: KickboardMode,
    lost: Option<KickboardLost>,
    collect: Option<KickboardCollect>,
    status: Option<string>,
    helmetId: Option<string>,
    disconnectedAt: Option<int>,
    createdAt: int,
    updatedAt: int)

  /** The enum validator: it skips null and a left-out field. */
  predicate InEnum(f: Field<int>, lo: int, hi: int)
  {
    f.Given? ==> lo <= f.value <= hi
  }

  function CheckEnum(f: Field<int>, lo: int, hi: int, path: string): (r: seq<Violation>)
    ensures r == [] <==> InEnum(f, lo, hi)
  {
    if InEnum(f, lo, hi) then [] else [NotInEnum(path)]
  }

  /** The mode after its default: absent means UNREGISTERED. */
  function ModeField(input: KickboardInput): Field<int>
  {
    WithDefault(input.mode, Given(ModeCode(Unregistered)))
  }

  /** Every validator of the schema, in the order of its paths. */
  function Violations(input: KickboardInput): seq<Violation>
  {
    var mode := ModeField(input);
    CheckRequired(RequiredString(input.kickboardId), "kickboardId")
    + CheckRequired(RequiredString(input.kickboardCode), "kickboardCode")
    + CheckRequired(RequiredString(input.franchiseId), "franchiseId")
    + CheckRequired(RequiredString(input.regionId), "regionId")
    + CheckRequired(RequiredNumber(mode), "mode")
    + CheckEnum(mode, 0, 5, "mode")
    + CheckEnum(input.lost, 0, 3, "lost")
    + CheckEnum(input.collect, 0, 3, "collect")
  }

  /** What validation accepts, stated field by field. */
  predicate Acceptable(input: KickboardInput)
  {
    && RequiredString(input.kickboardId)
    && RequiredString(input.kickboardCode)
    && RequiredString(input.franchiseId)
    && RequiredString(input.regionId)
    && (input.mode.Absent? || (input.mode.Given? && 0 <= input.mode.value <= 5))
    && InEnum(input.lost, 0, 3)
    && InEnum(input.collect, 0, 3)
  }

  /** Applies the defaults and builds a document; `now` sets both timestamps. */
  function Create(input: KickboardInput, now: int): (r: Result<Kickboard, SchemaError>)
    ensures r.Success? <==> Acceptable(input)
    ensures r.Failure? ==> r.error.ValidationFailed? && r.error.violations != []
    ensures r.Success? ==> r.value.createdAt == now && r.value.updatedAt == now
  {
    var vs := Violations(input);
    if vs != [] then Failure(ValidationFailed(vs))
    else
      var mode := ModeOf(ModeField(input).value);
      var lost := if input.lost.Given? then LostOf(input.lost.value) else None;
      var collect := if input.collect.Given? then CollectOf(input.collect.value) else None;
      Success(Kickboard(
        input.kickboardId.value, input.kickboardCode.value,
        input.franchiseId.value, input.regionId.value,
        ToOption(input.maxSpeed), ToOption(input.photo),
        mode.value, lost, collect,
        ToOption(input.status), ToOption(input.helmetId), ToOption(input.disconnectedAt),
        now, now))
  }

  /** Defaults: a left-out mode is UNREGISTERED; lost, collect, maxSpeed and photo default to null. */
  lemma CreateDefaults(input: KickboardInput, now: int)
    requires Acceptable(input)
    ensures Create(input, now).Success?
    ensures input.mode.Absent? ==> Create(input, now).value.mode == Unregistered
    ensures input.mode.Given? ==> ModeCode(Create(input, now).value.mode) == input.mode.value
    ensures !input.lost.Given? ==> Create(input, now).value.lost == None
    ensures input.lost.Given? ==> Create(input, now).value.lost == LostOf(input.lost.value)
    ensures !input.collect.Given? ==> Create(input, now).value.collect == None
    ensures input.collect.Given? ==> Create(input, now).value.collect == CollectOf(input.collect.value)
    ensures !input.maxSpeed.Given? ==> Create(input, now).value.maxSpeed == None
    ensures !input.photo.Given? ==> Create(input, now).value.photo == None
  {
  }

  /** The required string fields are kept exactly as given. */
  lemma CreateKeepsIdentity(input: KickboardInput, now: int)
    requires Create(input, now).Success?
    ensures Create(input, now).value.kickboardId == input.kickboardId.value
    ensures Create(input, now).value.kickboardCode == input.kickboardCode.value
    ensures Create(input, now).value.franchiseId == input.franchiseId.value
    ensures Create(input, now).value.regionId == input.regionId.value
  {
  }

  /** An explicit null mode is rejected by `required`; an out-of-range code by the enum. */
  lemma CreateRejectsBadMode(input: KickboardInput, now: int)
    requires input.mode.Null? || (input.mode.Given? && !(0 <= input.mode.value <= 5))
    ensures Create(input, now).Failure?
    ensures input.mode.Null? ==> Required("mode") in Create(input, now).error.violations
    ensures input.mode.Given? ==> NotInEnum("mode") in Create(input, now).error.violations
  {
  }

  predicate CodesUnique(rows: seq<Kickboard>)
  {
    forall i, j :: 0 <= i < j < |rows| ==> rows[i].kickboardCode != rows[j].kickboardCode
  }

  predicate HasCode(rows: seq<Kickboard>, code: string)
  {
    exists i :: 0 <= i < |rows| && rows[i].kickboardCode == code
  }

  /** `findOne({ kickboardCode })`: the first stored kickboard with that code. */
  function FindByCode(rows: seq<Kickboard>, code: string): (r: Option<Kickboard>)
    ensures r.Some? ==> r.value in rows && r.value.kickboardCode == code
  {
    if rows == [] then None
    else if rows[0].kickboardCode == code then Some(rows[0])
    else FindByCode(rows[1..], code)
  }

  /** The lookup misses exactly when no row has the code; with unique codes it finds that row. */
  lemma {:induction false} FindByCodeSpec(rows: seq<Kickboard>, code: string)
    ensures FindByCode(rows, code).None? <==> !HasCode(rows, code)
    ensures CodesUnique(rows) ==>
      forall i :: 0 <= i < |rows| && rows[i].kickboardCode == code ==> FindByCode(rows, code) == Some(rows[i])
  {
    if rows != [] {
      FindByCodeSpec(rows[1..], code);
      if rows[0].kickboardCode != code {
        if HasCode(rows, code) {
          var i :| 0 <= i < |rows| && rows[i].kickboardCode == code;
          assert rows[1..][i - 1].kickboardCode == code;
        }
        if HasCode(rows[1..], code) {
          var i :| 0 <= i < |rows[1..]| && rows[1..][i].kickboardCode == code;
          assert rows[i + 1].kickboardCode == code;
        }
      }
      if CodesUnique(rows) {
        assert CodesUnique(rows[1..]) by {
          forall i, j | 0 <= i < j < |rows[1..]|
            ensures rows[1..][i].kickboardCode != rows[1..][j].kickboardCode
          {
            assert rows[1..][i] == rows[i + 1] && rows[1..][j] == rows[j + 1];
          }
        }
        forall i | 0 <= i < |rows| && rows[i].kickboardCode == code
          ensures FindByCode(rows, code) == Some(rows[i])
        {
          if i > 0 {
            assert rows[1..][i - 1] == rows[i];
          }
        }
      }
    }
  }

  /** The kickboard collection with its unique index on `kickboardCode`. */
  class KickboardCollection {
    var rows: seq<Kickboard>

    ghost predicate Valid()
      reads this
    {
      CodesUnique(rows)
    }

    constructor ()
      ensures Valid() && rows == []
    {
      rows := [];
    }

    /** `findOne({ kickboardCode })` on the stored rows. */
    function FindOne(code: string): (r: Option<Kickboard>)
      reads this
      requires Valid()
      ensures r.None? <==> !HasCode(rows, code)
      ensures r.Some? ==> r.value in rows && r.value.kickboardCode == code
      ensures forall i :: 0 <= i < |rows| && rows[i].kickboardCode == code ==> r == Some(rows[i])
    {
      FindByCodeSpec(rows, code);
      FindByCode(rows, code)
    }

    /**
     * `create`: validation first, then the unique index; a rejected document
     * leaves the collection as it was.
     */
    method Insert(input: KickboardInput, now: int) returns (r: Result<Kickboard, SchemaError>)
      requires Valid()
      modifies this
      ensures Valid()
      ensures !Acceptable(input) ==> r == Create(input, now)
      ensures Acceptable(input) && HasCode(old(rows), input.kickboardCode.value) ==>
        r == Failure(DuplicateKey("kickboardCode"))
      ensures Acceptable(input) && !HasCode(old(rows), input.kickboardCode.value) ==>
        r == Create(input, now)
      ensures rows == if r.Success? then old(rows) + [r.value] else old(rows)
    {
      var created := Create(input, now);
      if created.Failure? {
        r := created;
        return;
      }
      var k := created.value;
      FindByCodeSpec(rows, k.kickboardCode);
      if FindByCode(rows, k.kickboardCode).Some? {
        r := Failure(DuplicateKey("kickboardCode"));
        return;
      }
      rows := rows + [k];
      r := created;
    }
  }
}
