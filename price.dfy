/**
 * The branch fare: a branch's cost table (start cost, free minutes, cost per
 * minute) looked up with the Seoul table as a fallback, and the fare for a
 * ride of a given number of minutes, capped at 50000.
 */
module Price {
  import opened Wrappers

  /** The document of the `cost` collection for one branch. */
  datatype CostTable = CostTable(startCost: int, freeTime: int, addedCost: int)

  /**
   * `BranchUnavailable`: neither the branch nor Seoul is stored.
   * `InvalidDocumentPath`: `doc(branch)` throws before anything is read.
   */
  datatype PriceError = BranchUnavailable | InvalidDocumentPath

  /** The branch whose table is used when the requested one is not stored. */
  const Seoul: string := "서울"

  const MaxPrice: int := 50000

  function Min(a: int, b: int): int
  {
    if a <= b then a else b
  }

  /**
   * The names an object literal such as the `costs` cache answers through
   * `Object.prototype`; each of them reads as a truthy value (a function, or
   * `Object.prototype` itself for `__proto__`).
   */
  const PrototypeNames: set<string> := {
    "constructor", "__proto__", "toString", "toLocaleString", "valueOf",
    "hasOwnProperty", "isPrototypeOf", "propertyIsEnumerable",
    "__defineGetter__", "__defineSetter__", "__lookupGetter__", "__lookupSetter__"
  }

  /** What `getBranch` resolves to: a cost table, or an inherited member of the cache. */
  datatype Branch = Table(cost: CostTable) | PrototypeMember(name: string)

  /** The number of non-empty `/`-separated segments of a path. */
  function SegmentCount(path: string): nat
  {
    if path == [] then 0
    else
      var starts := path[|path| - 1] != '/' && (|path| == 1 || path[|path| - 2] == '/');
      SegmentCount(path[..|path| - 1]) + (if starts then 1 else 0)
  }

  predicate HasDoubleSlash(path: string)
  {
    exists i :: 0 <= i < |path| - 1 && path[i] == '/' && path[i + 1] == '/'
  }

  /**
   * `collection('cost').doc(path)` accepts a non-empty path without `//`
   * whose segments, after `cost`, name a document: an odd number of them.
   */
  predicate DocumentPathAccepted(path: string)
  {
    path != [] && !HasDoubleSlash(path) && SegmentCount(path) % 2 == 1
  }

  /** A name without `/` is a single segment. */
  lemma {:induction false} PlainNameOneSegment(name: string)
    requires name != [] && forall i :: 0 <= i < |name| ==> name[i] != '/'
    ensures SegmentCount(name) == 1
  {
    var n := name[..|name| - 1];
    if n != [] {
      assert forall i :: 0 <= i < |n| ==> n[i] == name[i];
      PlainNameOneSegment(n);
    }
  }

  /** A name without `/`, Seoul's among them, is a document of `cost`. */
  lemma PlainNameAccepted(name: string)
    requires name != [] && forall i :: 0 <= i < |name| ==> name[i] != '/'
    ensures DocumentPathAccepted(name)
    ensures DocumentPathAccepted(Seoul)
  {
    PlainNameOneSegment(name);
    PlainNameOneSegment(Seoul);
  }

  /**
   * `getBranch`: the in-memory `costs` cache first (its own entries, then the
   * members it inherits); then `doc(branch)`, which throws on a path that is
   * not a document's; then the store entry of the branch, then the store entry
   * of Seoul; with neither stored, an error.
   */
  function GetBranch(costs: map<string, CostTable>, store: map<string, CostTable>, branch: string)
    : (r: Result<Branch, PriceError>)
    ensures branch in costs ==> r == Success(Table(costs[branch]))
    ensures branch !in costs && branch in PrototypeNames ==> r == Success(PrototypeMember(branch))
    ensures branch !in costs && branch !in PrototypeNames && !DocumentPathAccepted(branch) ==>
      r == Failure(InvalidDocumentPath)
    ensures r.Failure? <==> (branch !in costs && branch !in PrototypeNames &&
      (!DocumentPathAccepted(branch) || (branch !in store && Seoul !in store)))
    ensures r.Success? && branch !in costs && branch !in PrototypeNames ==>
      r.value == Table(if branch in store then store[branch] else store[Seoul])
  {
    if branch in costs then Success(Table(costs[branch]))
    else if branch in PrototypeNames then Success(PrototypeMember(branch))
    else if !DocumentPathAccepted(branch) then Failure(InvalidDocumentPath)
    else
      var cost := if branch in store then Some(store[branch]) else None;
      if cost.Some? then Success(Table(cost.value))
      else
        var fallback := if Seoul in store then Some(store[Seoul]) else None;
        if fallback.Some? then Success(Table(fallback.value))
        else Failure(BranchUnavailable)
  }

  /**
   * The cache is never written, so every call sees it without own entries:
   * an inherited name resolves to that member whatever the store holds, a
   * path `doc` rejects fails whatever the store holds, and any other name
   * depends on the store alone, through the three outcomes of the lookup.
   */
  lemma BranchOutcomes(store: map<string, CostTable>, other: map<string, CostTable>, branch: string)
    ensures branch in PrototypeNames ==> GetBranch(map[], store, branch) == Success(PrototypeMember(branch))
    ensures branch !in PrototypeNames && !DocumentPathAccepted(branch) ==>
      GetBranch(map[], store, branch) == Failure(InvalidDocumentPath)
    ensures branch !in PrototypeNames && DocumentPathAccepted(branch) && branch in store ==>
      GetBranch(map[], store, branch) == Success(Table(store[branch]))
    ensures branch !in PrototypeNames && DocumentPathAccepted(branch) && branch !in store && Seoul in store ==>
      GetBranch(map[], store, branch) == Success(Table(store[Seoul]))
    ensures branch !in PrototypeNames && DocumentPathAccepted(branch) && branch !in store && Seoul !in store ==>
      GetBranch(map[], store, branch) == Failure(BranchUnavailable)
    ensures (branch in store <==> branch in other) && (Seoul in store <==> Seoul in other)
      && (branch in store ==> store[branch] == other[branch])
      && (Seoul in store ==> store[Seoul] == other[Seoul])
      ==> GetBranch(map[], store, branch) == GetBranch(map[], other, branch)
  {
  }

  /** The empty name and a name with one `/` are rejected even when Seoul is stored. */
  lemma InvalidPathsRejected(t: CostTable)
    ensures GetBranch(map[], map[Seoul := t], "") == Failure(InvalidDocumentPath)
    ensures GetBranch(map[], map[Seoul := t], "a/b") == Failure(InvalidDocumentPath)
  {
    assert SegmentCount("a/b") == 2 by {
      assert "a/b"[..2] == "a/" && "a/"[..1] == "a" && "a"[..0] == "";
    }
    assert "a/b" !in PrototypeNames;
  }

  /** The fare of one ride under one cost table, as `getPrice` computes it step by step. */
  function Fare(cost: CostTable, minutes: int): (price: int)
    ensures minutes - cost.freeTime <= 0 ==> price == cost.startCost
    ensures minutes - cost.freeTime > 0 ==>
      price == Min(cost.startCost + cost.addedCost * (minutes - cost.freeTime), MaxPrice)
  {
    var price := cost.startCost;
    var removedMinutes := minutes - cost.freeTime;
    if removedMinutes <= 0 then price
    else
      var price' := price + cost.addedCost * removedMinutes;
      if price' >= MaxPrice then MaxPrice else price'
  }

  /**
   * Within the free time the start cost is charged as it is, even above the cap;
   * beyond it the fare never exceeds 50000 and reaches it once the uncapped sum does.
   */
  lemma FareBounds(cost: CostTable, minutes: int)
    ensures minutes == cost.freeTime ==> Fare(cost, minutes) == cost.startCost
    ensures minutes > cost.freeTime ==> Fare(cost, minutes) <= MaxPrice
    ensures minutes > cost.freeTime ==>
      (Fare(cost, minutes) == MaxPrice <==> cost.startCost + cost.addedCost * (minutes - cost.freeTime) >= MaxPrice)
  {
  }

  lemma MulMonotone(a: int, x: int, y: int)
    requires a >= 0 && x <= y
    ensures a * x <= a * y
  {
    var d := y - x;
    assert a * y == a * x + a * d;
  }

  /**
   * With a non-negative rate the fare grows with the minutes beyond the free time.
   * At the edge of the free time it can drop: a start cost above the cap is
   * charged in full at `freeTime` minutes and capped one minute later.
   */
  lemma {:induction false} FareMonotone(cost: CostTable, m1: int, m2: int)
    requires cost.addedCost >= 0
    requires cost.freeTime < m1 <= m2
    ensures Fare(cost, m1) <= Fare(cost, m2)
  {
    MulMonotone(cost.addedCost, m1 - cost.freeTime, m2 - cost.freeTime);
  }

  lemma FareDropsAtFreeTimeEdge()
    ensures Fare(CostTable(60000, 10, 100), 10) == 60000
    ensures Fare(CostTable(60000, 10, 100), 11) == MaxPrice
  {
  }

  /**
   * A price as JavaScript computes it: a number, or NaN once `startCost` and
   * `freeTime` are read from an inherited member, where they are undefined.
   */
  datatype Amount = Amount(value: int) | NotANumber

  /**
   * `getPrice`: the branch's table, then the fare; a lookup error propagates,
   * and an inherited member gives NaN (`minutes - undefined` is NaN, neither
   * comparison holds, and `undefined + undefined * NaN` is returned).
   */
  function GetPrice(costs: map<string, CostTable>, store: map<string, CostTable>, branch: string, minutes: int)
    : (r: Result<Amount, PriceError>)
    ensures r.Failure? <==> GetBranch(costs, store, branch).Failure?
    ensures r.Success? && GetBranch(costs, store, branch).value.Table? ==>
      r.value == Amount(Fare(GetBranch(costs, store, branch).value.cost, minutes))
    ensures r.Success? && GetBranch(costs, store, branch).value.PrototypeMember? ==> r.value == NotANumber
  {
    var found :- GetBranch(costs, store, branch);
    match found
    case Table(cost) => Success(Amount(Fare(cost, minutes)))
    case PrototypeMember(_) => Success(NotANumber)
  }

  /** With the cache as it always is, an inherited name is priced NaN for any store and any ride. */
  lemma PrototypeNamePrice(store: map<string, CostTable>, branch: string, minutes: int)
    requires branch in PrototypeNames
    ensures GetPrice(map[], store, branch, minutes) == Success(NotANumber)
  {
  }
}
