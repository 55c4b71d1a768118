/**
 * The movement check of the idle-ride pass: the status reports of a kickboard
 * newer than a cutoff are grouped into 15-minute buckets, each bucket is
 * summarised by the fraction of reports with the kickboard disabled and by its
 * average speed, and one bucket decides whether the kickboard stood still.
 */
module Movement {
  import opened Wrappers
  import KickboardModel

  /** The width of a bucket: 15 minutes in milliseconds. */
  const BucketMillis: int := 1000 * 60 * 15

  /** Position of a report; coordinates are kept as integers here. */
  datatype Gps = Gps(latitude: int, longitude: int)

  /** One status report of a kickboard, with the fields the check reads. */
  datatype Status = Status(
    kickboardId: string,
    createdAt: int,
    isEnabled: Option<bool>,
    speed: Option<int>,
    gps: Option<Gps>)

  // ---------------------------------------------------------------- $match

  predicate InWindow(s: Status, kickboardId: string, cutoff: int)
  {
    s.kickboardId == kickboardId && s.createdAt > cutoff
  }

  /** The reports of one kickboard strictly newer than the cutoff, in stored order. */
  function Window(statuses: seq<Status>, kickboardId: string, cutoff: int): (r: seq<Status>)
    ensures |r| <= |statuses|
    ensures forall s :: s in r <==> s in statuses && InWindow(s, kickboardId, cutoff)
  {
    if statuses == [] then []
    else
      var last := statuses[|statuses| - 1];
      Window(statuses[..|statuses| - 1], kickboardId, cutoff)
      + (if InWindow(last, kickboardId, cutoff) then [last] else [])
  }

  lemma {:induction false} WindowAppend(xs: seq<Status>, ys: seq<Status>, kickboardId: string, cutoff: int)
    ensures Window(xs + ys, kickboardId, cutoff) == Window(xs, kickboardId, cutoff) + Window(ys, kickboardId, cutoff)
  {
    if ys == [] {
      assert xs + ys == xs;
    } else {
      var ys' := ys[..|ys| - 1];
      assert (xs + ys)[..|xs + ys| - 1] == xs + ys';
      assert (xs + ys)[|xs + ys| - 1] == ys[|ys| - 1];
      WindowAppend(xs, ys', kickboardId, cutoff);
    }
  }

  /**
   * A report of another kickboard, or one not newer than the cutoff, can be
   * inserted anywhere without changing the window.
   */
  lemma WindowIgnoresOthers(xs: seq<Status>, s: Status, ys: seq<Status>, kickboardId: string, cutoff: int)
    requires !InWindow(s, kickboardId, cutoff)
    ensures Window(xs + [s] + ys, kickboardId, cutoff) == Window(xs + ys, kickboardId, cutoff)
  {
    var wx, wy := Window(xs, kickboardId, cutoff), Window(ys, kickboardId, cutoff);
    assert Window([s], kickboardId, cutoff) == [] by {
      assert [s][..0] == [];
    }
    WindowAppend(xs, [s], kickboardId, cutoff);
    assert Window(xs + [s], kickboardId, cutoff) == wx;
    WindowAppend(xs + [s], ys, kickboardId, cutoff);
    WindowAppend(xs, ys, kickboardId, cutoff);
  }

  // ---------------------------------------------------------------- bucket keys

  /** MongoDB's `$mod`: the remainder takes the sign of the dividend. */
  function TruncRem(a: int): (r: int)
    ensures -BucketMillis < r < BucketMillis
  {
    if a >= 0 then a % BucketMillis else -((-a) % BucketMillis)
  }

  /** The quotient that goes with `TruncRem`: division rounding toward zero. */
  function TruncDiv(a: int): int
  {
    if a >= 0 then a / BucketMillis else -((-a) / BucketMillis)
  }

  /** The `_id` of the bucket of a report created at `t`: `t - t mod 15 minutes`. */
  function BucketKey(t: int): int
  {
    t - TruncRem(t)
  }

  lemma BucketKeyIsQuotient(t: int)
    ensures BucketKey(t) == TruncDiv(t) * BucketMillis
    ensures t == TruncDiv(t) * BucketMillis + TruncRem(t)
  {
  }

  /** Two reports share a bucket exactly when their quotients by 15 minutes agree. */
  lemma SameBucket(a: int, b: int)
    ensures BucketKey(a) == BucketKey(b) <==> TruncDiv(a) == TruncDiv(b)
  {
    BucketKeyIsQuotient(a);
    BucketKeyIsQuotient(b);
  }

  /** For times after the epoch the bucket is the floor to 15 minutes. */
  lemma BucketBounds(t: int)
    requires t >= 0
    ensures BucketKey(t) <= t < BucketKey(t) + BucketMillis
    ensures BucketKey(t) % BucketMillis == 0
    ensures BucketKey(t) == (t / BucketMillis) * BucketMillis
  {
  }

  /** Before the epoch the remainder is negative, so times either side of 0 share bucket 0. */
  lemma BucketAroundEpoch()
    ensures BucketKey(-1) == 0 && BucketKey(1) == 0
    ensures BucketKey(-BucketMillis - 1) == -BucketMillis
  {
  }

  // ---------------------------------------------------------------- $group

  /** The keys of the buckets present, once each, in order of first appearance. */
  function Keys(recs: seq<Status>): (ks: seq<int>)
    ensures forall i, j :: 0 <= i < j < |ks| ==> ks[i] != ks[j]
    ensures forall k :: k in ks <==> exists s :: s in recs && BucketKey(s.createdAt) == k
  {
    if recs == [] then []
    else
      var last := recs[|recs| - 1];
      var ks := Keys(recs[..|recs| - 1]);
      assert forall s :: s in recs <==> s in recs[..|recs| - 1] || s == last;
      var k := BucketKey(last.createdAt);
      if k in ks then ks else ks + [k]
  }

  /** The reports of one bucket. */
  function Members(recs: seq<Status>, key: int): (ms: seq<Status>)
    ensures forall s :: s in ms <==> s in recs && BucketKey(s.createdAt) == key
  {
    if recs == [] then []
    else
      var last := recs[|recs| - 1];
      Members(recs[..|recs| - 1], key) + (if BucketKey(last.createdAt) == key then [last] else [])
  }

  /** `$cond: ['$isEnabled', 0, 1]` summed: a false or missing flag counts as disabled. */
  function DisabledCount(ms: seq<Status>): nat
  {
    if ms == [] then 0
    else DisabledCount(ms[1..]) + (if ms[0].isEnabled == Some(true) then 0 else 1)
  }

  /** The speeds that `$avg` takes into account: the present ones. */
  function SpeedCount(ms: seq<Status>): nat
  {
    if ms == [] then 0 else SpeedCount(ms[1..]) + (if ms[0].speed.Some? then 1 else 0)
  }

  function SpeedSum(ms: seq<Status>): int
  {
    if ms == [] then 0 else SpeedSum(ms[1..]) + (if ms[0].speed.Some? then ms[0].speed.value else 0)
  }

  /**
   * One output document of the `$group` stage. Its averages are held as sums
   * and counts: `isEnabled` is `disabled / count`, `speed` is
   * `speedSum / speedCount`, or null when `speedCount` is 0.
   */
  datatype Group = Group(key: int, count: nat, disabled: nat, speedSum: int, speedCount: nat)

  function Summarize(recs: seq<Status>, key: int): Group
  {
    var ms := Members(recs, key);
    Group(key, |ms|, DisabledCount(ms), SpeedSum(ms), SpeedCount(ms))
  }

  function Aggregate(recs: seq<Status>): (gs: seq<Group>)
    ensures |gs| == |Keys(recs)|
    ensures forall i :: 0 <= i < |gs| ==> gs[i] == Summarize(recs, Keys(recs)[i])
  {
    var ks := Keys(recs);
    seq(|ks|, i requires 0 <= i < |ks| => Summarize(recs, ks[i]))
  }

  // ---------------------------------------------------------------- decision

  /** `isEnabled === 0`: no report of the bucket had the kickboard disabled. */
  predicate DisabledFractionZero(g: Group)
  {
    g.disabled == 0
  }

  /** `speed === 0`: an average exists and is zero; a null average is not 0. */
  predicate SpeedAverageZero(g: Group)
  {
    g.speedCount > 0 && g.speedSum == 0
  }

  predicate Qualifies(g: Group)
  {
    DisabledFractionZero(g) && SpeedAverageZero(g)
  }

  /**
   * `$sort` on a field the groups do not have, then `$limit: 1`: which group
   * comes first is not determined, so `pick` chooses it.
   */
  function Picked(groups: seq<Group>, pick: nat): (r: Option<Group>)
    ensures r.None? <==> groups == []
    ensures r.Some? ==> r.value in groups
  {
    if groups == [] then None else Some(groups[pick % |groups|])
  }

  predicate Decide(groups: seq<Group>, pick: nat)
  {
    var g := Picked(groups, pick);
    g.Some? && Qualifies(g.value)
  }

  /** `hasNoMovement`: the kickboard by code, its window, its buckets, the picked bucket's verdict. */
  predicate HasNoMovement(
    kickboards: seq<KickboardModel.Kickboard>, statuses: seq<Status>, code: string, cutoff: int, pick: nat)
  {
    match KickboardModel.FindByCode(kickboards, code)
    case None => false
    case Some(k) => Decide(Aggregate(Window(statuses, k.kickboardId, cutoff)), pick)
  }

  // ---------------------------------------------------------------- what a bucket's verdict means

  /** The bucket's disabled fraction is 0 exactly when every report in it says enabled. */
  lemma {:induction false} DisabledZeroIff(ms: seq<Status>)
    ensures DisabledCount(ms) == 0 <==> forall i :: 0 <= i < |ms| ==> ms[i].isEnabled == Some(true)
  {
    if ms != [] {
      DisabledZeroIff(ms[1..]);
      assert forall i :: 1 <= i < |ms| ==> ms[i] == ms[1..][i - 1];
    }
  }

  /** The speed average exists exactly when some report of the bucket has a speed. */
  lemma {:induction false} SpeedCountPositiveIff(ms: seq<Status>)
    ensures SpeedCount(ms) > 0 <==> exists i :: 0 <= i < |ms| && ms[i].speed.Some?
  {
    if ms != [] {
      SpeedCountPositiveIff(ms[1..]);
      if SpeedCount(ms[1..]) > 0 {
        var i :| 0 <= i < |ms[1..]| && ms[1..][i].speed.Some?;
        assert ms[i + 1].speed.Some?;
      }
      if exists i :: 0 <= i < |ms| && ms[i].speed.Some? {
        var i :| 0 <= i < |ms| && ms[i].speed.Some?;
        if i > 0 {
          assert ms[1..][i - 1].speed.Some?;
        }
      }
    }
  }

  /** With no negative speeds the speeds sum to 0 exactly when every present speed is 0. */
  lemma {:induction false} SpeedSumZeroIff(ms: seq<Status>)
    requires forall i :: 0 <= i < |ms| && ms[i].speed.Some? ==> ms[i].speed.value >= 0
    ensures SpeedSum(ms) >= 0
    ensures SpeedSum(ms) == 0 <==> forall i :: 0 <= i < |ms| && ms[i].speed.Some? ==> ms[i].speed.value == 0
  {
    if ms != [] {
      assert forall i :: 1 <= i < |ms| ==> ms[i] == ms[1..][i - 1];
      SpeedSumZeroIff(ms[1..]);
    }
  }

  predicate NonNegativeSpeeds(recs: seq<Status>)
  {
    forall s :: s in recs && s.speed.Some? ==> s.speed.value >= 0
  }

  /**
   * A bucket in which the kickboard stood still: every report says enabled,
   * every reported speed is 0, and at least one report has a speed.
   */
  predicate BucketStill(recs: seq<Status>, key: int)
  {
    && (forall s :: s in recs && BucketKey(s.createdAt) == key ==>
          s.isEnabled == Some(true) && (s.speed.Some? ==> s.speed.value == 0))
    && (exists s :: s in recs && BucketKey(s.createdAt) == key && s.speed.Some?)
  }

  /** A bucket's summary qualifies exactly when the kickboard stood still in it. */
  lemma QualifiesIffStill(recs: seq<Status>, key: int)
    requires NonNegativeSpeeds(recs)
    ensures Qualifies(Summarize(recs, key)) <==> BucketStill(recs, key)
  {
    var ms := Members(recs, key);
    assert forall i :: 0 <= i < |ms| ==> ms[i] in ms;
    DisabledZeroIff(ms);
    SpeedCountPositiveIff(ms);
    SpeedSumZeroIff(ms);
    if BucketStill(recs, key) {
      var s :| s in recs && BucketKey(s.createdAt) == key && s.speed.Some?;
      assert s in ms;
    }
    if Qualifies(Summarize(recs, key)) {
      forall s | s in recs && BucketKey(s.createdAt) == key
        ensures s.isEnabled == Some(true) && (s.speed.Some? ==> s.speed.value == 0)
      {
        assert s in ms;
      }
    }
  }

  /** Whatever bucket is picked, it qualifies when all do and fails when none does. */
  lemma {:induction false} PickedBucketDecides(recs: seq<Status>, pick: nat)
    requires NonNegativeSpeeds(recs)
    ensures recs != [] && (forall s :: s in recs ==> BucketStill(recs, BucketKey(s.createdAt)))
      ==> Decide(Aggregate(recs), pick)
    ensures (forall s :: s in recs ==> !BucketStill(recs, BucketKey(s.createdAt)))
      ==> !Decide(Aggregate(recs), pick)
    ensures Decide(Aggregate(recs), pick) ==> exists s :: s in recs && BucketStill(recs, BucketKey(s.createdAt))
  {
    var ks := Keys(recs);
    var gs := Aggregate(recs);
    if recs != [] {
      assert recs[0] in recs;
      assert BucketKey(recs[0].createdAt) in ks;
      var i := pick % |gs|;
      assert gs[i] == Summarize(recs, ks[i]);
      QualifiesIffStill(recs, ks[i]);
      assert ks[i] in ks;
      var s :| s in recs && BucketKey(s.createdAt) == ks[i];
    }
  }

  /**
   * For any speeds, negative ones included: whatever bucket is picked, the
   * verdict holds when every bucket's summary qualifies, fails when none
   * does, and holds only if some bucket's summary qualifies.
   */
  lemma PickedSummaryDecides(recs: seq<Status>, pick: nat)
    ensures recs != [] && (forall s :: s in recs ==> Qualifies(Summarize(recs, BucketKey(s.createdAt))))
      ==> Decide(Aggregate(recs), pick)
    ensures (forall s :: s in recs ==> !Qualifies(Summarize(recs, BucketKey(s.createdAt))))
      ==> !Decide(Aggregate(recs), pick)
    ensures Decide(Aggregate(recs), pick) ==> exists s :: s in recs && Qualifies(Summarize(recs, BucketKey(s.createdAt)))
  {
    var ks := Keys(recs);
    var gs := Aggregate(recs);
    if recs != [] {
      assert recs[0] in recs;
      assert BucketKey(recs[0].createdAt) in ks;
      var i := pick % |gs|;
      assert gs[i] == Summarize(recs, ks[i]);
      assert ks[i] in ks;
      var s :| s in recs && BucketKey(s.createdAt) == ks[i];
    }
  }

  /** Every bucket is the one decided for some choice of the unspecified order. */
  lemma EveryBucketCanDecide(groups: seq<Group>, j: nat)
    requires j < |groups|
    ensures Picked(groups, j) == Some(groups[j])
  {
  }

  /** An unknown kickboard code, or no report in the window, never counts as idle. */
  lemma NotIdleWithoutData(
    kickboards: seq<KickboardModel.Kickboard>, statuses: seq<Status>, code: string, cutoff: int, pick: nat)
    ensures !KickboardModel.HasCode(kickboards, code) ==> !HasNoMovement(kickboards, statuses, code, cutoff, pick)
    ensures (forall s :: s in statuses ==> s.createdAt <= cutoff) ==> !HasNoMovement(kickboards, statuses, code, cutoff, pick)
  {
    KickboardModel.FindByCodeSpec(kickboards, code);
    var found := KickboardModel.FindByCode(kickboards, code);
    if found.Some? && (forall s :: s in statuses ==> s.createdAt <= cutoff) {
      var w := Window(statuses, found.value.kickboardId, cutoff);
      if w != [] {
        assert w[0] in w;
      }
    }
  }

  /**
   * The idle verdict on the reports of the kickboard with the code: every
   * bucket still means idle, no bucket still means not idle, and idle means
   * some bucket was still.
   */
  lemma IdleVerdict(
    kickboards: seq<KickboardModel.Kickboard>, statuses: seq<Status>, code: string, cutoff: int, pick: nat,
    k: KickboardModel.Kickboard)
    requires KickboardModel.FindByCode(kickboards, code) == Some(k)
    requires NonNegativeSpeeds(Window(statuses, k.kickboardId, cutoff))
    ensures var w := Window(statuses, k.kickboardId, cutoff);
      w != [] && (forall s :: s in w ==> BucketStill(w, BucketKey(s.createdAt)))
      ==> HasNoMovement(kickboards, statuses, code, cutoff, pick)
    ensures var w := Window(statuses, k.kickboardId, cutoff);
      (forall s :: s in w ==> !BucketStill(w, BucketKey(s.createdAt)))
      ==> !HasNoMovement(kickboards, statuses, code, cutoff, pick)
    ensures var w := Window(statuses, k.kickboardId, cutoff);
      HasNoMovement(kickboards, statuses, code, cutoff, pick)
      ==> exists s :: s in w && BucketStill(w, BucketKey(s.createdAt))
  {
    PickedBucketDecides(Window(statuses, k.kickboardId, cutoff), pick);
  }

  // ---------------------------------------------------------------- positions are not read

  /** Two reports that differ at most in their position. */
  predicate SameButPosition(a: Status, b: Status)
  {
    a.(gps := None) == b.(gps := None)
  }

  predicate AgreeButPositions(a: seq<Status>, b: seq<Status>)
  {
    |a| == |b| && forall i :: 0 <= i < |a| ==> SameButPosition(a[i], b[i])
  }

  lemma AgreePrefix(a: seq<Status>, b: seq<Status>)
    requires AgreeButPositions(a, b) && a != []
    ensures AgreeButPositions(a[..|a| - 1], b[..|b| - 1])
    ensures SameButPosition(a[|a| - 1], b[|b| - 1])
  {
    assert forall i :: 0 <= i < |a| - 1 ==> a[..|a| - 1][i] == a[i] && b[..|b| - 1][i] == b[i];
  }

  lemma AgreeTail(a: seq<Status>, b: seq<Status>)
    requires AgreeButPositions(a, b) && a != []
    ensures AgreeButPositions(a[1..], b[1..])
  {
    assert forall i :: 0 <= i < |a| - 1 ==> a[1..][i] == a[i + 1] && b[1..][i] == b[i + 1];
  }

  lemma {:induction false} AgreeWindow(a: seq<Status>, b: seq<Status>, kickboardId: string, cutoff: int)
    requires AgreeButPositions(a, b)
    ensures AgreeButPositions(Window(a, kickboardId, cutoff), Window(b, kickboardId, cutoff))
  {
    if a != [] {
      AgreePrefix(a, b);
      AgreeWindow(a[..|a| - 1], b[..|b| - 1], kickboardId, cutoff);
    }
  }

  lemma {:induction false} AgreeKeys(a: seq<Status>, b: seq<Status>)
    requires AgreeButPositions(a, b)
    ensures Keys(a) == Keys(b)
  {
    if a != [] {
      AgreePrefix(a, b);
      AgreeKeys(a[..|a| - 1], b[..|b| - 1]);
    }
  }

  lemma {:induction false} AgreeMembers(a: seq<Status>, b: seq<Status>, key: int)
    requires AgreeButPositions(a, b)
    ensures AgreeButPositions(Members(a, key), Members(b, key))
  {
    if a != [] {
      AgreePrefix(a, b);
      AgreeMembers(a[..|a| - 1], b[..|b| - 1], key);
    }
  }

  lemma {:induction false} AgreeCounts(a: seq<Status>, b: seq<Status>)
    requires AgreeButPositions(a, b)
    ensures DisabledCount(a) == DisabledCount(b)
    ensures SpeedCount(a) == SpeedCount(b) && SpeedSum(a) == SpeedSum(b)
  {
    if a != [] {
      AgreeTail(a, b);
      AgreeCounts(a[1..], b[1..]);
    }
  }

  /** Latitude and longitude never affect the verdict. */
  lemma PositionsIrrelevant(
    kickboards: seq<KickboardModel.Kickboard>, a: seq<Status>, b: seq<Status>, code: string, cutoff: int, pick: nat)
    requires AgreeButPositions(a, b)
    ensures HasNoMovement(kickboards, a, code, cutoff, pick) == HasNoMovement(kickboards, b, code, cutoff, pick)
  {
    var found := KickboardModel.FindByCode(kickboards, code);
    if found.Some? {
      var wa := Window(a, found.value.kickboardId, cutoff);
      var wb := Window(b, found.value.kickboardId, cutoff);
      AgreeWindow(a, b, found.value.kickboardId, cutoff);
      AgreeKeys(wa, wb);
      forall key ensures Summarize(wa, key) == Summarize(wb, key) {
        AgreeMembers(wa, wb, key);
        AgreeCounts(Members(wa, key), Members(wb, key));
      }
      assert Aggregate(wa) == Aggregate(wb);
    }
  }

  /** A report of a kickboard standing still, and one of it moving a quarter hour later. */
  const StillReport: Status := Status("K1", BucketMillis, Some(true), Some(0), None)
  const MovingReport: Status := Status("K1", 2 * BucketMillis, Some(true), Some(5), None)

  lemma ExampleMembers()
    ensures Members([StillReport, MovingReport], BucketMillis) == [StillReport]
    ensures Members([StillReport, MovingReport], 2 * BucketMillis) == [MovingReport]
  {
    var recs := [StillReport, MovingReport];
    assert BucketKey(StillReport.createdAt) == BucketMillis;
    assert BucketKey(MovingReport.createdAt) == 2 * BucketMillis;
    assert recs[..1] == [StillReport];
    assert [StillReport][..0] == [];
    assert Members([StillReport], BucketMillis) == [StillReport];
    assert Members([StillReport], 2 * BucketMillis) == [];
  }

  lemma ExampleGroups()
    ensures Keys([StillReport, MovingReport]) == [BucketMillis, 2 * BucketMillis]
    ensures Summarize([StillReport, MovingReport], BucketMillis) == Group(BucketMillis, 1, 0, 0, 1)
    ensures Summarize([StillReport, MovingReport], 2 * BucketMillis) == Group(2 * BucketMillis, 1, 0, 5, 1)
  {
    var recs := [StillReport, MovingReport];
    assert BucketKey(StillReport.createdAt) == BucketMillis;
    assert BucketKey(MovingReport.createdAt) == 2 * BucketMillis;
    assert recs[..1] == [StillReport];
    assert [StillReport][..0] == [];
    assert Keys([StillReport]) == [BucketMillis];
    ExampleMembers();
    assert [StillReport][1..] == [] && [MovingReport][1..] == [];
    assert DisabledCount([StillReport]) == 0 && SpeedCount([StillReport]) == 1 && SpeedSum([StillReport]) == 0;
    assert DisabledCount([MovingReport]) == 0 && SpeedCount([MovingReport]) == 1 && SpeedSum([MovingReport]) == 5;
  }

  /** Two enabled reports in one bucket whose speeds cancel out. */
  const ForwardReport: Status := Status("K1", BucketMillis, Some(true), Some(3), None)
  const BackwardReport: Status := Status("K1", BucketMillis + 1, Some(true), Some(-3), None)

  /**
   * With a negative speed a bucket can qualify although the kickboard moved
   * in it: `$avg` of 3 and -3 is 0.
   */
  lemma OpposedSpeedsQualify()
    ensures Qualifies(Summarize([ForwardReport, BackwardReport], BucketMillis))
    ensures !BucketStill([ForwardReport, BackwardReport], BucketMillis)
  {
    var recs := [ForwardReport, BackwardReport];
    assert BucketKey(ForwardReport.createdAt) == BucketMillis;
    assert BucketKey(BackwardReport.createdAt) == BucketMillis;
    assert recs[..1] == [ForwardReport];
    assert [ForwardReport][..0] == [];
    assert Members([ForwardReport], BucketMillis) == [ForwardReport];
    assert Members(recs, BucketMillis) == [ForwardReport] + [BackwardReport] == recs;
    assert recs[1..] == [BackwardReport] && [BackwardReport][1..] == [];
    assert DisabledCount([BackwardReport]) == 0 && SpeedCount([BackwardReport]) == 1;
    assert SpeedSum([BackwardReport]) == -3;
    assert DisabledCount(recs) == 0 && SpeedCount(recs) == 2 && SpeedSum(recs) == 0;
    assert ForwardReport in recs;
  }

  lemma VerdictDependsOnOrder()
    ensures Decide(Aggregate([StillReport, MovingReport]), 0)
    ensures !Decide(Aggregate([StillReport, MovingReport]), 1)
  {
    ExampleGroups();
    var gs := Aggregate([StillReport, MovingReport]);
    assert gs[0] == Group(BucketMillis, 1, 0, 0, 1);
    assert gs[1] == Group(2 * BucketMillis, 1, 0, 5, 1);
  }
}
