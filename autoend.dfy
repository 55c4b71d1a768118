/**
 * The idle-ride pass: the threshold from `MAX_MINUTE`, the cutoff shared by the
 * ride query and the movement window, and the loop that terminates, as UNUSED,
 * every fetched ride whose kickboard did not move.
 */
module AutoEnd {
  import opened Wrappers
  import opened JsNumber
  import Movement
  import KickboardModel

  const DefaultMaxMinute: int := 15

  const MinuteMillis: int := 60 * 1000

  /** `Number(value)`, where a variable that is not set is `undefined`, hence NaN. */
  function EnvNumber(env: Option<string>): NumValue
  {
    if env.None? then NaN else ToNumber(env.value)
  }

  /** `Number(process.env.MAX_MINUTE) || 15`: 0 and NaN fall back to 15. */
  function MaxMinute(env: Option<string>): (m: int)
    ensures m != 0
    ensures EnvNumber(env).NaN? || EnvNumber(env) == Num(0) ==> m == DefaultMaxMinute
    ensures EnvNumber(env).Num? && EnvNumber(env).n != 0 ==> m == EnvNumber(env).n
  {
    var v := EnvNumber(env);
    if v.NaN? || v.n == 0 then DefaultMaxMinute else v.n
  }

  /** Unset, blank and zero give 15; any other decimal value, negative included, is kept. */
  lemma MaxMinuteOfEnv(n: nat, blank: string)
    ensures MaxMinute(None) == DefaultMaxMinute
    ensures JsNumber.Blank(blank) ==> MaxMinute(Some(blank)) == DefaultMaxMinute
    ensures MaxMinute(Some(Decimal(0))) == DefaultMaxMinute
    ensures n != 0 ==> MaxMinute(Some(Decimal(n))) == n
    ensures n != 0 ==> MaxMinute(Some("-" + Decimal(n))) == -(n as int)
  {
    if JsNumber.Blank(blank) {
      ToNumberOfBlank(blank);
    }
    ToNumberOfDecimal(0, '-');
    ToNumberOfDecimal(n, '-');
    assert "-" + Decimal(n) == ['-'] + Decimal(n);
  }

  /** `dayjs().subtract(maxMinute, 'minutes')` in milliseconds. */
  function Cutoff(now: int, maxMinute: int): int
  {
    now - maxMinute * MinuteMillis
  }

  /** A positive threshold looks back into the past; a negative one reaches into the future. */
  lemma CutoffDirection(now: int, maxMinute: int)
    ensures maxMinute > 0 ==> Cutoff(now, maxMinute) <= now - MinuteMillis
    ensures maxMinute < 0 ==> Cutoff(now, maxMinute) >= now + MinuteMillis
  {
  }

  /**
   * With a negative threshold the window starts after `now`, so unless a
   * report is dated later than `now` no ride is ever idle.
   */
  lemma NegativeThresholdNeverIdle(
    kickboards: seq<KickboardModel.Kickboard>, statuses: seq<Movement.Status>, code: string,
    now: int, maxMinute: int, pick: nat)
    requires maxMinute < 0
    requires forall s :: s in statuses ==> s.createdAt <= now
    ensures !Movement.HasNoMovement(kickboards, statuses, code, Cutoff(now, maxMinute), pick)
  {
    CutoffDirection(now, maxMinute);
    Movement.NotIdleWithoutData(kickboards, statuses, code, Cutoff(now, maxMinute), pick);
  }

  /** The query parameters of `getRiding`. */
  datatype RidesQuery = RidesQuery(take: int, showTerminated: bool, endedAt: int)

  function RidesQueryAt(now: int, maxMinute: int): (q: RidesQuery)
    ensures q.take == 100 && !q.showTerminated
    ensures q.endedAt == Cutoff(now, maxMinute)
  {
    RidesQuery(100, false, Cutoff(now, maxMinute))
  }

  /** The fields of a fetched ride that the pass reads. */
  datatype Ride = Ride(rideId: string, kickboardCode: string, realname: string, phone: string)

  /** The `terminatedType` parameter of the request; this pass only sends `'UNUSED'`. */
  datatype TerminatedType = Unused

  /** One `DELETE rides/<rideId>` request with its `terminatedType`. */
  datatype Termination = Termination(rideId: string, terminatedType: TerminatedType)

  /**
   * What the pass reads besides the rides: the kickboard and status
   * collections, the clock (read `clock(0)` by the ride query and
   * `clock(i + 1)` by the movement check of the i-th ride) and the bucket
   * each aggregation happens to return first (`pick(i)`).
   */
  datatype World = World(
    kickboards: seq<KickboardModel.Kickboard>,
    statuses: seq<Movement.Status>,
    clock: nat -> int,
    pick: nat -> nat)

  /** `hasNoMovement(kickboardCode)` as evaluated for the i-th ride. */
  predicate IdleAt(w: World, maxMinute: int, rides: seq<Ride>, i: nat)
    requires i < |rides|
  {
    Movement.HasNoMovement(w.kickboards, w.statuses, rides[i].kickboardCode,
      Cutoff(w.clock(i + 1), maxMinute), w.pick(i))
  }

  /** The verdict of the movement check for every fetched ride, in order. */
  function Verdicts(w: World, maxMinute: int, rides: seq<Ride>): (v: seq<bool>)
    ensures |v| == |rides|
    ensures forall i :: 0 <= i < |rides| ==> v[i] == IdleAt(w, maxMinute, rides, i)
  {
    seq(|rides|, i requires 0 <= i < |rides| => IdleAt(w, maxMinute, rides, i))
  }

  /** The terminations issued for the first n rides, given each ride's verdict. */
  function Terminations(rides: seq<Ride>, verdicts: seq<bool>, n: nat): (ts: seq<Termination>)
    requires n <= |rides| == |verdicts|
    ensures |ts| <= n
    ensures forall k :: 0 <= k < |ts| ==> ts[k].terminatedType == Unused
  {
    if n == 0 then []
    else
      Terminations(rides, verdicts, n - 1)
      + (if verdicts[n - 1] then [Termination(rides[n - 1].rideId, Unused)] else [])
  }

  /** `main`: fetch the open rides, then terminate each idle one in the order fetched. */
  method Run(env: Option<string>, w: World, fetch: RidesQuery -> seq<Ride>)
    returns (query: RidesQuery, events: seq<Termination>)
    ensures query == RidesQueryAt(w.clock(0), MaxMinute(env))
    ensures var rides := fetch(query);
      events == Terminations(rides, Verdicts(w, MaxMinute(env), rides), |rides|)
  {
    var maxMinute := MaxMinute(env);
    query := RidesQueryAt(w.clock(0), maxMinute);
    var rides := fetch(query);
    ghost var verdicts := Verdicts(w, maxMinute, rides);
    events := [];
    for i := 0 to |rides|
      invariant events == Terminations(rides, verdicts, i)
    {
      var kickboardCode := rides[i].kickboardCode;
      var readyToTerminate := Movement.HasNoMovement(
        w.kickboards, w.statuses, kickboardCode, Cutoff(w.clock(i + 1), maxMinute), w.pick(i));
      if !readyToTerminate {
        continue;
      }
      events := events + [Termination(rides[i].rideId, Unused)];
    }
  }

  /** The positions of the rides with a true verdict among the first n, in increasing order. */
  function IdleIndices(verdicts: seq<bool>, n: nat): seq<nat>
    requires n <= |verdicts|
  {
    if n == 0 then [] else IdleIndices(verdicts, n - 1) + (if verdicts[n - 1] then [n - 1] else [])
  }

  /**
   * The terminations are the in-order filter of the rides by their verdicts:
   * the k-th termination is for the k-th idle ride, and a ride is among them
   * exactly when its verdict holds.
   */
  lemma {:induction false} TerminationsAreIdleFilter(rides: seq<Ride>, verdicts: seq<bool>, n: nat)
    requires n <= |rides| == |verdicts|
    ensures var ts := Terminations(rides, verdicts, n);
      var idx := IdleIndices(verdicts, n);
      && |idx| == |ts|
      && (forall k :: 0 <= k < |idx| ==> idx[k] < n && ts[k].rideId == rides[idx[k]].rideId)
      && (forall k, l :: 0 <= k < l < |idx| ==> idx[k] < idx[l])
      && (forall i :: 0 <= i < n ==> (i in idx <==> verdicts[i]))
  {
    if n > 0 {
      TerminationsAreIdleFilter(rides, verdicts, n - 1);
    }
  }

  function CountId(ts: seq<Termination>, rideId: string): nat
  {
    if ts == [] then 0
    else CountId(ts[..|ts| - 1], rideId) + (if ts[|ts| - 1].rideId == rideId then 1 else 0)
  }

  predicate DistinctIds(rides: seq<Ride>)
  {
    forall i, j :: 0 <= i < j < |rides| ==> rides[i].rideId != rides[j].rideId
  }

  /** With distinct ride ids, each idle ride is terminated once and no other ride at all. */
  lemma {:induction false} TerminatedOnce(rides: seq<Ride>, verdicts: seq<bool>, n: nat, i: nat)
    requires n <= |rides| == |verdicts| && i < |rides|
    requires DistinctIds(rides)
    ensures CountId(Terminations(rides, verdicts, n), rides[i].rideId) == if i < n && verdicts[i] then 1 else 0
  {
    if n > 0 {
      TerminatedOnce(rides, verdicts, n - 1, i);
      var prev := Terminations(rides, verdicts, n - 1);
      var ts := Terminations(rides, verdicts, n);
      if verdicts[n - 1] {
        assert ts[..|ts| - 1] == prev;
      } else {
        assert ts == prev;
      }
    }
  }

  /** One pass: a ride of the fetched list is terminated, once, exactly when it is idle. */
  lemma RunTerminatesIdleRides(env: Option<string>, w: World, rides: seq<Ride>, i: nat)
    requires i < |rides| && DistinctIds(rides)
    ensures var ts := Terminations(rides, Verdicts(w, MaxMinute(env), rides), |rides|);
      CountId(ts, rides[i].rideId) == if IdleAt(w, MaxMinute(env), rides, i) then 1 else 0
  {
    TerminatedOnce(rides, Verdicts(w, MaxMinute(env), rides), |rides|, i);
  }
}
