/**
 Judging a series of benchmark attempts: the first valid ones are selected, and each metric's
 individual values and median are held against the thresholds.
 */
module BatterySelection {
  import opened Wrappers
  import opened SortedLists

  /** A number as JSON files and doubles hold it. Every comparison with NaN is false. */
  datatype Float = Fin(number: real) | PosInf | NegInf | NaN

  predicate Less(a: Float, b: Float) {
    match (a, b)
    case (Fin(x), Fin(y)) => x < y
    case (NegInf, Fin(_)) => true
    case (NegInf, PosInf) => true
    case (Fin(_), PosInf) => true
    case _ => false
  }

  datatype Metric = Numeric(value: Float) | NotNumeric

  datatype Subject = Subject(id: int, pinId: Option<string>)

  datatype Attempt = Attempt(createdAt: string, number: Option<int>, baselines: Option<string>, subject: Subject,
                             profile: Option<string>, raw: Option<string>, valid: bool, invalidation: Option<string>,
                             completed: bool, metrics: map<string, Metric>)

  datatype Limits = Limits(metric: string, individualFloor: real, medianFloor: real)

  /** The baselines file: how many attempts, how many must be valid, and the limits by profile. */
  datatype Policy = Policy(maximum: nat, required: nat, hash: string, profiles: map<string, seq<Limits>>)

  const INVALIDATIONS := {"idle-preflight", "foreign-traffic", "unexpected-api-connection", "runtime-health-failure",
                          "gpu-clock-cap-changed", "client-failure-before-acceptance"}

  datatype Outcome =
    | Error
    | Incomplete(validCount: nat, rawHashes: seq<string>)
    | Complete(selected: seq<int>, rawHashes: seq<string>, medians: seq<(string, Float)>)

  // ------------------------------------------------------------ order

  function Number(a: Attempt): int { if a.number.Some? then a.number.value else 0 }

  /** Orders by creation time, then by number; no letter is zero after the shift, so a time comes
      before its extensions. */
  function TimeKey(a: Attempt): seq<int> {
    seq(|a.createdAt|, i requires 0 <= i < |a.createdAt| => a.createdAt[i] as int + 1) + [0, Number(a)]
  }

  function InOrder(attempts: seq<Attempt>): seq<Attempt> { Sort(TimeKey, attempts) }

  /** Numbered one, two, three and so on. */
  predicate Numbered(ordered: seq<Attempt>) {
    forall i :: 0 <= i < |ordered| ==> ordered[i].number == Some(i + 1)
  }

  /** Attempts with different numbers have different keys. */
  lemma NumbersSeparate(a: Attempt, b: Attempt)
    requires Number(a) != Number(b)
    ensures TimeKey(a) != TimeKey(b)
  {
    assert TimeKey(a)[|TimeKey(a)| - 1] == Number(a);
    assert TimeKey(b)[|TimeKey(b)| - 1] == Number(b);
  }

  lemma NumberedDistinct(s: seq<Attempt>)
    requires Numbered(s)
    ensures DistinctBy(TimeKey, s)
  {
    forall i, j | 0 <= i < j < |s| ensures TimeKey(s[i]) != TimeKey(s[j]) {
      NumbersSeparate(s[i], s[j]);
    }
  }

  /** Each attempt with its number: in a numbered list it sits at that place. */
  lemma ByNumber(s: seq<Attempt>, a: Attempt)
    requires Numbered(s) && a in s
    ensures 1 <= Number(a) <= |s| && s[Number(a) - 1] == a
  {
    var i :| 0 <= i < |s| && s[i] == a;
  }

  /** A numbered order begins with every numbered order of some of the same attempts. */
  lemma OrdersNest(short: seq<Attempt>, long: seq<Attempt>)
    requires Numbered(short) && Numbered(long) && forall a :: a in short ==> a in long
    ensures short <= long
  {
    forall i | 0 <= i < |short| ensures i < |long| && long[i] == short[i] {
      assert short[i] in short;
      ByNumber(long, short[i]);
    }
    if short != [] {
      assert short[|short| - 1] in short;
      ByNumber(long, short[|short| - 1]);
    }
  }

  // ------------------------------------------------------------ the structure of a series

  /** What every attempt must carry, valid or not. */
  predicate ItemFits(a: Attempt) {
    && a.raw.Some? && |a.raw.value| == 64
    && (if a.valid then a.invalidation.None? && a.completed
        else a.invalidation.Some? && a.invalidation.value in INVALIDATIONS)
  }

  /** Complete, chronological, against these baselines, of one subject and one profile. */
  predicate Fits(p: Policy, attempts: seq<Attempt>) {
    && 0 < |attempts| <= p.maximum
    && var ordered := InOrder(attempts);
    && |ordered| == |attempts|
    && Numbered(ordered)
    && (forall i :: 0 <= i < |ordered| ==> ordered[i].baselines == Some(p.hash))
    && (forall i :: 0 <= i < |ordered| ==> ordered[i].subject == ordered[0].subject)
    && (forall i :: 0 <= i < |ordered| ==> ordered[i].profile == ordered[0].profile)
    && (ordered[0].profile == Some("fast-320k") ==>
          ordered[0].subject.pinId.Some? && ordered[0].subject.pinId.value != "")
    && (forall i :: 0 <= i < |ordered| ==> ItemFits(ordered[i]))
  }

  function ValidOnes(s: seq<Attempt>): seq<Attempt> {
    if s == [] then [] else (if s[0].valid then [s[0]] else []) + ValidOnes(s[1..])
  }

  function RawHashes(s: seq<Attempt>): seq<string> {
    if s == [] then [] else [if s[0].raw.Some? then s[0].raw.value else ""] + RawHashes(s[1..])
  }

  function Selected(p: Policy, ordered: seq<Attempt>): seq<Attempt> {
    var valid := ValidOnes(ordered);
    if |valid| < p.required then valid else valid[..p.required]
  }

  function Numbers(s: seq<Attempt>): seq<int> {
    if s == [] then [] else [Number(s[0])] + Numbers(s[1..])
  }

  // ------------------------------------------------------------ thresholds

  /** The values of a metric, or `None` if one is missing or below its floor. */
  function Values(selected: seq<Attempt>, l: Limits): Option<seq<Float>> {
    if selected == [] then Some([])
    else
      var metrics := selected[0].metrics;
      if l.metric !in metrics || metrics[l.metric].NotNumeric? || Less(metrics[l.metric].value, Fin(l.individualFloor)) then None
      else
        var rest := Values(selected[1..], l);
        if rest.None? then None else Some([metrics[l.metric].value] + rest.value)
  }

  /** How the runtime sorts numbers: in order, except that NaN leaves the order open. */
  type Sorting = seq<Float> -> seq<Float>

  predicate Ascending(s: seq<Float>) { forall i, j :: 0 <= i < j < |s| ==> !Less(s[j], s[i]) }

  ghost predicate IsSorting(sort: Sorting) {
    forall s :: |sort(s)| == |s| && multiset(sort(s)) == multiset(s) && (NaN !in s ==> Ascending(sort(s)))
  }

  /** The mean of two numbers. */
  function Mean(a: Float, b: Float): Float {
    match (a, b)
    case (Fin(x), Fin(y)) => Fin((x + y) / 2.0)
    case (NaN, _) => NaN
    case (_, NaN) => NaN
    case (PosInf, NegInf) => NaN
    case (NegInf, PosInf) => NaN
    case (PosInf, _) => PosInf
    case (_, PosInf) => PosInf
    case _ => NegInf
  }

  function Middle(s: seq<Float>): Float
    requires s != []
  {
    if |s| % 2 == 1 then s[|s| / 2] else Mean(s[|s| / 2 - 1], s[|s| / 2])
  }

  function Median(sort: Sorting, values: seq<Float>): Float {
    if sort(values) == [] then NaN else Middle(sort(values))
  }

  /** The medians of all metrics, or `None` if a threshold fails. */
  function Medians(sort: Sorting, selected: seq<Attempt>, limits: seq<Limits>): Option<seq<(string, Float)>> {
    if limits == [] then Some([])
    else
      var values := Values(selected, limits[0]);
      if values.None? || values.value == [] || Less(Median(sort, values.value), Fin(limits[0].medianFloor)) then None
      else
        var rest := Medians(sort, selected, limits[1..]);
        if rest.None? then None else Some([(limits[0].metric, Median(sort, values.value))] + rest.value)
  }

  // ------------------------------------------------------------ the verdict

  function Judge(sort: Sorting, p: Policy, ordered: seq<Attempt>): Outcome
    requires ordered != []
  {
    var selected := Selected(p, ordered);
    if |selected| < p.required then
      if |ordered| == p.maximum then Error else Incomplete(|selected|, RawHashes(ordered))
    else if ordered[0].profile.None? || ordered[0].profile.value !in p.profiles then Error
    else
      var medians := Medians(sort, selected, p.profiles[ordered[0].profile.value]);
      if medians.None? then Error else Complete(Numbers(selected), RawHashes(ordered), medians.value)
  }

  function Evaluate(sort: Sorting, p: Policy, attempts: seq<Attempt>): Outcome {
    if Fits(p, attempts) then Judge(sort, p, InOrder(attempts)) else Error
  }

  // ------------------------------------------------------------ order does not matter

  lemma SortedKeepsElements(attempts: seq<Attempt>)
    ensures forall a :: a in InOrder(attempts) <==> a in attempts
  {
    SortedElements(TimeKey, attempts);
    assert forall a :: a in InOrder(attempts) <==> a in Elements(InOrder(attempts));
    assert forall a :: a in attempts <==> a in Elements(attempts);
  }

  /** A numbering of the sorted list separates the keys of the unsorted one. */
  lemma NumberedOriginal(attempts: seq<Attempt>)
    requires Numbered(InOrder(attempts))
    ensures DistinctBy(TimeKey, attempts)
  {
    NumberedDistinct(InOrder(attempts));
    SortedDistinct(TimeKey, attempts);
  }

  /** The order of a numbered series depends on the attempts alone. */
  lemma SameOrder(a: seq<Attempt>, b: seq<Attempt>)
    requires multiset(a) == multiset(b) && Numbered(InOrder(a))
    ensures InOrder(a) == InOrder(b)
  {
    NumberedOriginal(a);
    DistinctPermutes(a, b);
    SortIncreasing(TimeKey, a);
    SortIncreasing(TimeKey, b);
    SortedElements(TimeKey, a);
    SortedElements(TimeKey, b);
    assert Elements(a) == Elements(b) by {
      assert forall x :: x in a <==> x in multiset(a);
      assert forall x :: x in b <==> x in multiset(b);
    }
    IncreasingUnique(TimeKey, InOrder(a), InOrder(b));
  }

  lemma DistinctPermutes(a: seq<Attempt>, b: seq<Attempt>)
    requires multiset(a) == multiset(b) && DistinctBy(TimeKey, a)
    ensures DistinctBy(TimeKey, b)
  {
    forall i, j | 0 <= i < j < |b| ensures TimeKey(b[i]) != TimeKey(b[j]) {
      if b[i] == b[j] {
        TwiceInB(b, i, j);
        OnceInA(a, b[i]);
      } else {
        assert b[i] in multiset(a) && b[j] in multiset(a);
      }
    }
  }

  lemma TwiceInB(b: seq<Attempt>, i: nat, j: nat)
    requires i < j < |b| && b[i] == b[j]
    ensures multiset(b)[b[i]] >= 2
  {
    assert b == b[..j] + [b[j]] + b[j + 1..];
    assert b[i] in b[..j];
  }

  lemma {:induction false} OnceInA(a: seq<Attempt>, x: Attempt)
    requires DistinctBy(TimeKey, a)
    ensures multiset(a)[x] <= 1
  {
    if a != [] {
      OnceInA(a[1..], x);
      assert a == [a[0]] + a[1..];
      assert a[0] !in a[1..];
    }
  }

  /** The verdict is the same for every order the attempts are given in. */
  lemma OrderFree(sort: Sorting, p: Policy, a: seq<Attempt>, b: seq<Attempt>)
    requires multiset(a) == multiset(b)
    ensures Evaluate(sort, p, a) == Evaluate(sort, p, b)
  {
    assert |a| == |multiset(a)| && |b| == |multiset(b)|;
    if Numbered(InOrder(a)) {
      SameOrder(a, b);
    } else if Numbered(InOrder(b)) {
      SameOrder(b, a);
    }
  }

  // ------------------------------------------------------------ later attempts do not matter

  lemma {:induction false} ValidOnesOfPrefix(s: seq<Attempt>, t: seq<Attempt>)
    requires s <= t
    ensures ValidOnes(s) <= ValidOnes(t)
  {
    if s != [] {
      ValidOnesOfPrefix(s[1..], t[1..]);
      assert s[0] == t[0];
    }
  }

  /** Once enough attempts are valid, no later attempts change the selection, the medians or whether
      the thresholds are met. */
  lemma LaterAttemptsChangeNothing(sort: Sorting, p: Policy, a: seq<Attempt>, later: seq<Attempt>)
    requires Fits(p, a) && Fits(p, a + later) && |ValidOnes(InOrder(a))| >= p.required
    ensures var before, after := Evaluate(sort, p, a), Evaluate(sort, p, a + later);
            && (before.Complete? <==> after.Complete?)
            && (before.Complete? ==> after.selected == before.selected && after.medians == before.medians)
            && (before.Error? <==> after.Error?)
  {
    var short, long := InOrder(a), InOrder(a + later);
    SortedKeepsElements(a);
    SortedKeepsElements(a + later);
    OrdersNest(short, long);
    ValidOnesOfPrefix(short, long);
    assert ValidOnes(short)[..p.required] == ValidOnes(long)[..p.required];
    assert long[0] == short[0];
  }

  // ------------------------------------------------------------ what acceptance means

  /** Valid attempts of the series in order: nothing is left out and nothing moved. */
  lemma {:induction false} ValidOnesMeans(s: seq<Attempt>, base: int)
    requires forall i :: 0 <= i < |s| ==> Number(s[i]) == base + i
    ensures forall a :: a in ValidOnes(s) <==> a in s && a.valid
    ensures forall i, j :: 0 <= i < j < |ValidOnes(s)| ==> Number(ValidOnes(s)[i]) < Number(ValidOnes(s)[j])
  {
    if s != [] {
      ValidOnesMeans(s[1..], base + 1);
      var rest := ValidOnes(s[1..]);
      assert s == [s[0]] + s[1..];
      forall j | 0 <= j < |rest| ensures Number(rest[j]) > base {
        assert rest[j] in rest;
        var k :| 0 <= k < |s[1..]| && s[1..][k] == rest[j];
      }
    }
  }

  lemma {:induction false} ValuesMeans(s: seq<Attempt>, l: Limits)
    requires Values(s, l).Some?
    ensures |Values(s, l).value| == |s|
    ensures forall i :: 0 <= i < |s| ==>
              && l.metric in s[i].metrics && s[i].metrics[l.metric] == Numeric(Values(s, l).value[i])
              && !Less(Values(s, l).value[i], Fin(l.individualFloor))
  {
    if s != [] {
      ValuesMeans(s[1..], l);
      assert forall i :: 0 < i < |s| ==> s[i] == s[1..][i - 1];
    }
  }

  /** Every metric of the policy, in order: the median of the selected values is what is reported, and
      it is not below the median floor. */
  lemma {:induction false} MediansMean(sort: Sorting, selected: seq<Attempt>, limits: seq<Limits>, i: nat)
    requires Medians(sort, selected, limits).Some? && i < |limits|
    ensures |Medians(sort, selected, limits).value| == |limits|
    ensures var l, values := limits[i], Values(selected, limits[i]);
            && values.Some? && values.value != []
            && Medians(sort, selected, limits).value[i] == (l.metric, Median(sort, values.value))
            && !Less(Median(sort, values.value), Fin(l.medianFloor))
  {
    if i > 0 {
      MediansMean(sort, selected, limits[1..], i - 1);
    } else if |limits| > 1 {
      MediansMean(sort, selected, limits[1..], 0);
    } else {
      assert Medians(sort, selected, limits[1..]) == Some([]);
    }
  }

  /** A complete verdict selects exactly the required number of attempts: valid ones of the series, in
      increasing order, and no valid attempt is passed over for a later one. */
  lemma CompleteSelectsFirst(sort: Sorting, p: Policy, attempts: seq<Attempt>)
    requires Evaluate(sort, p, attempts).Complete?
    ensures var chosen := Selected(p, InOrder(attempts));
            && |chosen| == |Evaluate(sort, p, attempts).selected| == p.required
            && (forall i :: 0 <= i < |chosen| ==> Evaluate(sort, p, attempts).selected[i] == Number(chosen[i]))
            && (forall a :: a in chosen ==> a in attempts && a.valid)
            && (forall i, j :: 0 <= i < j < |chosen| ==> Number(chosen[i]) < Number(chosen[j]))
            && (forall a, b :: a in attempts && a.valid && b in chosen && Number(a) < Number(b) ==> a in chosen)
  {
    var ordered := InOrder(attempts);
    SortedKeepsElements(attempts);
    ValidOnesMeans(ordered, 1);
    FirstOnes(ValidOnes(ordered), p.required);
    NumbersAre(Selected(p, ordered));
  }

  lemma {:induction false} NumbersAre(s: seq<Attempt>)
    ensures |Numbers(s)| == |s| && forall i :: 0 <= i < |s| ==> Numbers(s)[i] == Number(s[i])
  {
    if s != [] {
      NumbersAre(s[1..]);
      assert forall i :: 0 < i < |s| ==> s[i] == s[1..][i - 1];
    }
  }

  lemma FirstOnes(valid: seq<Attempt>, k: nat)
    requires k <= |valid| && forall i, j :: 0 <= i < j < |valid| ==> Number(valid[i]) < Number(valid[j])
    ensures forall a, b :: a in valid && b in valid[..k] && Number(a) < Number(b) ==> a in valid[..k]
  {
    forall a, b | a in valid && b in valid[..k] && Number(a) < Number(b) ensures a in valid[..k] {
      var i :| 0 <= i < |valid| && valid[i] == a;
      var j :| 0 <= j < k && valid[..k][j] == b;
      assert valid[j] == b;
      assert i < j;
      assert valid[..k][i] == a;
    }
  }

  // ------------------------------------------------------------ thresholds and NaN

  /** At or above a floor. */
  predicate AtFloor(v: Float, floor: real) { v.PosInf? || (v.Fin? && v.number >= floor) }

  /** The value of a metric an attempt carries. */
  predicate Carries(a: Attempt, metric: string, v: Float) { metric in a.metrics && a.metrics[metric] == Numeric(v) }

  /** Some selected attempt carries NaN for a metric of the policy. */
  ghost predicate HasNaN(selected: seq<Attempt>, limits: seq<Limits>) {
    exists i, j :: 0 <= i < |limits| && 0 <= j < |selected| && Carries(selected[j], limits[i].metric, NaN)
  }

  /** Every selected value at its individual floor and every median at its median floor. */
  ghost predicate MeetsFloors(selected: seq<Attempt>, limits: seq<Limits>, medians: seq<(string, Float)>) {
    && |medians| == |limits|
    && (forall i, j :: 0 <= i < |limits| && 0 <= j < |selected| ==> ValueAtFloor(selected[j], limits[i]))
    && (forall i :: 0 <= i < |limits| ==> AtFloor(medians[i].1, limits[i].medianFloor))
  }

  predicate ValueAtFloor(a: Attempt, l: Limits) {
    l.metric in a.metrics && a.metrics[l.metric].Numeric? && AtFloor(a.metrics[l.metric].value, l.individualFloor)
  }

  /** Not below a floor and not NaN is at the floor. */
  lemma NotBelow(v: Float, floor: real)
    requires !Less(v, Fin(floor))
    ensures AtFloor(v, floor) <==> v != NaN
  {
  }

  /** A median of numbers at their floors is a number. */
  lemma MedianIsNumber(sort: Sorting, values: seq<Float>, floor: real)
    requires IsSorting(sort) && values != [] && forall i :: 0 <= i < |values| ==> AtFloor(values[i], floor)
    ensures Median(sort, values).Fin? || Median(sort, values).PosInf?
  {
    var s := sort(values);
    forall i | 0 <= i < |s| ensures AtFloor(s[i], floor) {
      assert s[i] in multiset(s);
      assert s[i] in multiset(values);
    }
  }

  lemma {:induction false} NumbersMeetFloors(sort: Sorting, selected: seq<Attempt>, limits: seq<Limits>, i: nat)
    requires IsSorting(sort) && Medians(sort, selected, limits).Some? && i < |limits| && !HasNaN(selected, limits)
    ensures |Medians(sort, selected, limits).value| == |limits|
    ensures forall j :: 0 <= j < |selected| ==> ValueAtFloor(selected[j], limits[i])
    ensures AtFloor(Medians(sort, selected, limits).value[i].1, limits[i].medianFloor)
  {
    MediansMean(sort, selected, limits, i);
    ValuesMeans(selected, limits[i]);
    var values := Values(selected, limits[i]).value;
    forall j | 0 <= j < |selected| ensures AtFloor(values[j], limits[i].individualFloor) {
      assert Carries(selected[j], limits[i].metric, values[j]);
      NotBelow(values[j], limits[i].individualFloor);
    }
    MedianIsNumber(sort, values, limits[i].individualFloor);
    NotBelow(Median(sort, values), limits[i].medianFloor);
  }

  /** Exactly when a complete verdict means what it says: all selected values and all medians are at
      their floors if and only if no selected metric is NaN. */
  lemma CompleteMeetsFloorsExactly(sort: Sorting, p: Policy, attempts: seq<Attempt>)
    requires IsSorting(sort) && Evaluate(sort, p, attempts).Complete?
    ensures var ordered := InOrder(attempts);
            && ordered != [] && ordered[0].profile.Some? && ordered[0].profile.value in p.profiles
            && var limits := p.profiles[ordered[0].profile.value];
               MeetsFloors(Selected(p, ordered), limits, Evaluate(sort, p, attempts).medians)
               <==> !HasNaN(Selected(p, ordered), limits)
  {
    var ordered := InOrder(attempts);
    FloorsExactly(sort, Selected(p, ordered), p.profiles[ordered[0].profile.value]);
  }

  lemma {:induction false} FloorsExactly(sort: Sorting, selected: seq<Attempt>, limits: seq<Limits>)
    requires IsSorting(sort) && Medians(sort, selected, limits).Some?
    ensures MeetsFloors(selected, limits, Medians(sort, selected, limits).value) <==> !HasNaN(selected, limits)
  {
    var medians := Medians(sort, selected, limits).value;
    if !HasNaN(selected, limits) {
      forall i | 0 <= i < |limits|
        ensures |medians| == |limits| && AtFloor(medians[i].1, limits[i].medianFloor)
        ensures forall j :: 0 <= j < |selected| ==> ValueAtFloor(selected[j], limits[i])
      {
        NumbersMeetFloors(sort, selected, limits, i);
      }
    } else {
      var i, j :| 0 <= i < |limits| && 0 <= j < |selected| && Carries(selected[j], limits[i].metric, NaN);
      assert !ValueAtFloor(selected[j], limits[i]);
    }
  }

  /** And NaN does get through: a metric that is NaN in every selected attempt passes whatever its
      floors are. */
  lemma {:induction false} NaNPasses(selected: seq<Attempt>, l: Limits)
    requires forall j :: 0 <= j < |selected| ==> Carries(selected[j], l.metric, NaN)
    ensures Values(selected, l) == Some(seq(|selected|, _ => NaN))
  {
    if selected != [] {
      NaNPasses(selected[1..], l);
      assert [NaN] + seq(|selected| - 1, _ => NaN) == seq(|selected|, _ => NaN);
    } else {
      assert seq(|selected|, _ => NaN) == [];
    }
  }

  lemma NaNVerdict(sort: Sorting, p: Policy, attempts: seq<Attempt>, l: Limits)
    requires IsSorting(sort) && Fits(p, attempts)
    requires |ValidOnes(InOrder(attempts))| >= p.required > 0
    requires InOrder(attempts)[0].profile.Some? && InOrder(attempts)[0].profile.value in p.profiles
    requires p.profiles[InOrder(attempts)[0].profile.value] == [l]
    requires forall a :: a in Selected(p, InOrder(attempts)) ==> Carries(a, l.metric, NaN)
    ensures Evaluate(sort, p, attempts).Complete?
    ensures forall a :: a in Selected(p, InOrder(attempts)) ==> !ValueAtFloor(a, l)
  {
    var chosen := Selected(p, InOrder(attempts));
    assert forall j :: 0 <= j < |chosen| ==> chosen[j] in chosen;
    NaNPasses(chosen, l);
    var values: seq<Float> := seq(|chosen|, _ => NaN);
    AllNaN(sort, values);
    assert [l][1..] == [];
    assert Medians(sort, chosen, [l]).Some?;
  }

  lemma AllNaN(sort: Sorting, values: seq<Float>)
    requires IsSorting(sort) && values != [] && forall i :: 0 <= i < |values| ==> values[i] == NaN
    ensures Median(sort, values) == NaN
  {
    var s := sort(values);
    forall i | 0 <= i < |s| ensures s[i] == NaN {
      assert s[i] in multiset(s);
      assert s[i] in multiset(values);
    }
  }

  // ------------------------------------------------------------ medians

  function AtMost(s: seq<Float>, m: Float): nat {
    if s == [] then 0 else (if !Less(m, s[0]) then 1 else 0) + AtMost(s[1..], m)
  }

  function AtLeast(s: seq<Float>, m: Float): nat {
    if s == [] then 0 else (if !Less(s[0], m) then 1 else 0) + AtLeast(s[1..], m)
  }

  lemma {:induction false} CountsOfConcat(a: seq<Float>, b: seq<Float>, m: Float)
    ensures AtMost(a + b, m) == AtMost(a, m) + AtMost(b, m) && AtLeast(a + b, m) == AtLeast(a, m) + AtLeast(b, m)
  {
    if a == [] {
      assert a + b == b;
    } else {
      CountsOfConcat(a[1..], b, m);
      assert (a + b)[1..] == a[1..] + b;
    }
  }

  lemma {:induction false} CountsPermute(a: seq<Float>, b: seq<Float>, m: Float)
    requires multiset(a) == multiset(b)
    ensures AtMost(a, m) == AtMost(b, m) && AtLeast(a, m) == AtLeast(b, m)
    decreases |a|
  {
    assert |a| == |multiset(a)| && |b| == |multiset(b)|;
    if a != [] {
      assert a[0] in multiset(b);
      var j :| 0 <= j < |b| && b[j] == a[0];
      WithoutOne(a, 0);
      WithoutOne(b, j);
      CountsPermute(Without(a, 0), Without(b, j), m);
      CountsWithout(a, 0, m);
      CountsWithout(b, j, m);
    }
  }

  /** A list without one of its elements. */
  function Without(s: seq<Float>, j: nat): seq<Float>
    requires j < |s|
  {
    s[..j] + s[j + 1..]
  }

  lemma WithoutOne(s: seq<Float>, j: nat)
    requires j < |s|
    ensures multiset(Without(s, j)) == multiset(s) - multiset{s[j]}
  {
    assert s == s[..j] + [s[j]] + s[j + 1..];
    assert multiset(s) == multiset(s[..j]) + multiset{s[j]} + multiset(s[j + 1..]);
  }

  lemma {:induction false} CountsWithout(s: seq<Float>, j: nat, m: Float)
    requires j < |s|
    ensures AtMost(s, m) == AtMost(Without(s, j), m) + AtMost([s[j]], m)
    ensures AtLeast(s, m) == AtLeast(Without(s, j), m) + AtLeast([s[j]], m)
  {
    assert s == s[..j] + ([s[j]] + s[j + 1..]);
    CountsOfConcat(s[..j], [s[j]] + s[j + 1..], m);
    CountsOfConcat([s[j]], s[j + 1..], m);
    CountsOfConcat(s[..j], s[j + 1..], m);
  }

  lemma {:induction false} AscendingCounts(s: seq<Float>, k: nat, m: Float)
    requires Ascending(s) && NaN !in s && m != NaN && k < |s|
    ensures !Less(m, s[k]) ==> AtMost(s, m) >= k + 1
    ensures !Less(s[k], m) ==> AtLeast(s, m) >= |s| - k
  {
    assert forall i :: 0 <= i < |s| ==> s[i] != NaN;
    if k > 0 {
      AscendingCounts(s[1..], k - 1, m);
    } else if |s| > 1 {
      AscendingCounts(s[1..], 0, m);
    }
  }

  /** At least half of the values are no larger than the median and at least half no smaller. */
  lemma {:induction false} MedianIsMiddle(sort: Sorting, values: seq<Float>)
    requires IsSorting(sort) && values != [] && NaN !in values && Median(sort, values) != NaN
    ensures var m := Median(sort, values); 2 * AtMost(values, m) >= |values| && 2 * AtLeast(values, m) >= |values|
  {
    var s, m := sort(values), Median(sort, values);
    CountsPermute(s, values, m);
    forall i | 0 <= i < |s| ensures s[i] != NaN {
      assert s[i] in multiset(s);
      assert s[i] in multiset(values);
    }
    MiddleOfSorted(s);
  }

  /** Numbers have one ascending order. */
  lemma {:induction false} AscendingUnique(s: seq<Float>, t: seq<Float>)
    requires Ascending(s) && Ascending(t) && multiset(s) == multiset(t) && NaN !in s
    ensures s == t
    decreases |s|
  {
    if s == [] {
      assert |t| == |multiset(s)|;
    } else {
      SameTails(s, t);
      AscendingUnique(s[1..], t[1..]);
      assert s == [s[0]] + s[1..] && t == [t[0]] + t[1..];
    }
  }

  lemma SameTails(s: seq<Float>, t: seq<Float>)
    requires Ascending(s) && Ascending(t) && multiset(s) == multiset(t) && NaN !in s && s != []
    ensures t != [] && s[0] == t[0] && multiset(s[1..]) == multiset(t[1..])
  {
    assert |s| == |multiset(s)| && |t| == |multiset(s)|;
    FirstAgrees(s, t);
    WithoutOne(s, 0);
    WithoutOne(t, 0);
    assert Without(s, 0) == s[1..] && Without(t, 0) == t[1..];
  }

  lemma FirstAgrees(s: seq<Float>, t: seq<Float>)
    requires Ascending(s) && Ascending(t) && multiset(s) == multiset(t) && NaN !in s && s != [] && t != []
    ensures s[0] == t[0]
  {
    assert t[0] in multiset(t) && s[0] in multiset(s);
    NoneBelowFirst(s, t[0]);
    NoneBelowFirst(t, s[0]);
  }

  lemma NoneBelowFirst(s: seq<Float>, x: Float)
    requires Ascending(s) && s != [] && x in multiset(s)
    ensures x in s && !Less(x, s[0])
  {
    var i :| 0 <= i < |s| && s[i] == x;
  }

  /** The median of numbers: where they are listed in ascending order, it is the middle one, or half the sum of
      the middle two; it is no number only where those are the two infinities. */
  lemma {:induction false} MedianExact(sort: Sorting, values: seq<Float>, s: seq<Float>)
    requires IsSorting(sort) && values != [] && NaN !in values
    requires Ascending(s) && multiset(s) == multiset(values)
    ensures |s| == |values|
    ensures |s| % 2 == 1 ==> Median(sort, values) == s[|s| / 2]
    ensures |s| % 2 == 0 ==>
              var m, low, high := Median(sort, values), s[|s| / 2 - 1], s[|s| / 2];
              && (m == NaN <==> low == NegInf && high == PosInf)
              && (m == NegInf <==> low == NegInf && high != PosInf)
              && (m == PosInf <==> low != NegInf && high == PosInf)
              && (m.Fin? ==> low.Fin? && high.Fin? && 2.0 * m.number == low.number + high.number)
  {
    assert |s| == |multiset(s)| && |values| == |multiset(values)|;
    forall i | 0 <= i < |s| ensures s[i] != NaN {
      assert s[i] in multiset(s);
      assert s[i] in multiset(values);
    }
    AscendingUnique(s, sort(values));
    if |s| % 2 == 0 {
      assert !Less(s[|s| / 2], s[|s| / 2 - 1]);
    }
  }

  lemma MeanBetween(a: Float, b: Float)
    requires !Less(b, a) && Mean(a, b) != NaN
    ensures !Less(Mean(a, b), a) && !Less(b, Mean(a, b))
  {
  }

  lemma {:induction false} MiddleOfSorted(s: seq<Float>)
    requires s != [] && Ascending(s) && NaN !in s && Middle(s) != NaN
    ensures 2 * AtMost(s, Middle(s)) >= |s| && 2 * AtLeast(s, Middle(s)) >= |s|
  {
    var m, low, high := Middle(s), (|s| - 1) / 2, |s| / 2;
    if |s| % 2 == 0 {
      MeanBetween(s[low], s[high]);
    }
    AscendingCounts(s, low, m);
    AscendingCounts(s, high, m);
  }

  /** There is such a sorting: insertion before the first number that is not smaller. */
  function InsertFloat(x: Float, s: seq<Float>): (r: seq<Float>)
    ensures |r| == |s| + 1
  {
    if s == [] || !Less(s[0], x) then [x] + s else [s[0]] + InsertFloat(x, s[1..])
  }

  function SortFloats(s: seq<Float>): (r: seq<Float>)
    ensures |r| == |s|
  {
    if s == [] then [] else InsertFloat(s[0], SortFloats(s[1..]))
  }

  lemma {:induction false} InsertPermutes(x: Float, s: seq<Float>)
    ensures multiset(InsertFloat(x, s)) == multiset(s) + multiset{x}
  {
    if s != [] && Less(s[0], x) {
      InsertPermutes(x, s[1..]);
      assert s == [s[0]] + s[1..];
    }
  }

  lemma {:induction false} InsertKeepsBound(x: Float, s: seq<Float>, low: Float)
    requires !Less(x, low) && forall i :: 0 <= i < |s| ==> !Less(s[i], low)
    ensures forall i :: 0 <= i < |InsertFloat(x, s)| ==> !Less(InsertFloat(x, s)[i], low)
  {
    if s != [] && Less(s[0], x) {
      InsertKeepsBound(x, s[1..], low);
    }
  }

  lemma {:induction false} InsertAscends(x: Float, s: seq<Float>)
    requires Ascending(s) && x != NaN && forall i :: 0 <= i < |s| ==> s[i] != NaN
    ensures Ascending(InsertFloat(x, s))
  {
    if s != [] && Less(s[0], x) {
      InsertAscends(x, s[1..]);
      InsertKeepsBound(x, s[1..], s[0]);
    }
  }

  lemma {:induction false} SortFloatsPermutes(s: seq<Float>)
    ensures multiset(SortFloats(s)) == multiset(s)
  {
    if s != [] {
      SortFloatsPermutes(s[1..]);
      InsertPermutes(s[0], SortFloats(s[1..]));
      FirstAndRest(s);
    }
  }

  lemma FirstAndRest(s: seq<Float>)
    requires s != []
    ensures multiset(s) == multiset(s[1..]) + multiset{s[0]}
  {
    assert s == [s[0]] + s[1..];
  }

  lemma {:induction false} SortFloatsAscends(s: seq<Float>)
    requires forall i :: 0 <= i < |s| ==> s[i] != NaN
    ensures Ascending(SortFloats(s))
  {
    if s != [] {
      var rest := SortFloats(s[1..]);
      SortFloatsAscends(s[1..]);
      SortFloatsPermutes(s[1..]);
      forall i | 0 <= i < |rest| ensures rest[i] != NaN {
        assert rest[i] in multiset(rest);
        assert rest[i] in multiset(s[1..]);
      }
      InsertAscends(s[0], rest);
    }
  }

  lemma SortingExists()
    ensures IsSorting(SortFloats)
  {
    forall s: seq<Float> ensures multiset(SortFloats(s)) == multiset(s) && (NaN !in s ==> Ascending(SortFloats(s))) {
      SortFloatsPermutes(s);
      if NaN !in s {
        SortFloatsAscends(s);
      }
    }
  }

  // ------------------------------------------------------------ the loops

  lemma {:induction false} ValidOnesAppend(s: seq<Attempt>, a: Attempt)
    ensures ValidOnes(s + [a]) == ValidOnes(s) + ValidOnes([a])
  {
    if s == [] {
      assert s + [a] == [a];
    } else {
      ValidOnesAppend(s[1..], a);
      assert (s + [a])[1..] == s[1..] + [a];
    }
  }

  lemma {:induction false} RawHashesAppend(s: seq<Attempt>, a: Attempt)
    ensures RawHashes(s + [a]) == RawHashes(s) + RawHashes([a])
  {
    if s == [] {
      assert s + [a] == [a];
    } else {
      RawHashesAppend(s[1..], a);
      assert (s + [a])[1..] == s[1..] + [a];
    }
  }

  /** The pass over the attempts: hashes and valid attempts collected until one does not fit. */
  method Collect(ordered: seq<Attempt>) returns (fits: bool, valid: seq<Attempt>, rawHashes: seq<string>)
    ensures fits <==> forall i :: 0 <= i < |ordered| ==> ItemFits(ordered[i])
    ensures fits ==> valid == ValidOnes(ordered) && rawHashes == RawHashes(ordered)
  {
    valid, rawHashes := [], [];
    for i := 0 to |ordered|
      invariant forall j :: 0 <= j < i ==> ItemFits(ordered[j])
      invariant valid == ValidOnes(ordered[..i]) && rawHashes == RawHashes(ordered[..i])
    {
      var a := ordered[i];
      assert ordered[..i + 1] == ordered[..i] + [a];
      ValidOnesAppend(ordered[..i], a);
      RawHashesAppend(ordered[..i], a);
      assert [a][1..] == [];
      if a.raw.None? || |a.raw.value| != 64 {
        return false, valid, rawHashes;
      }
      rawHashes := rawHashes + [a.raw.value];
      if a.valid {
        if a.invalidation.Some? || !a.completed {
          return false, valid, rawHashes;
        }
        valid := valid + [a];
      } else if a.invalidation.None? || a.invalidation.value !in INVALIDATIONS {
        return false, valid, rawHashes;
      }
    }
    assert ordered[..|ordered|] == ordered;
    return true, valid, rawHashes;
  }

  lemma {:induction false} ValuesAppend(s: seq<Attempt>, a: Attempt, l: Limits)
    ensures Values(s + [a], l) ==
            (if Values(s, l).None? || Values([a], l).None? then None else Some(Values(s, l).value + Values([a], l).value))
  {
    if s == [] {
      assert s + [a] == [a];
      assert Values([a], l).Some? ==> [] + Values([a], l).value == Values([a], l).value;
    } else {
      ValuesAppend(s[1..], a, l);
      assert (s + [a])[1..] == s[1..] + [a];
      if Values(s, l).Some? && Values([a], l).Some? {
        assert [s[0].metrics[l.metric].value] + (Values(s[1..], l).value + Values([a], l).value)
            == Values(s, l).value + Values([a], l).value;
      }
    }
  }

  lemma {:induction false} ValuesOfPrefix(s: seq<Attempt>, k: nat, l: Limits)
    requires k <= |s| && Values(s[..k], l).None?
    ensures Values(s, l).None?
    decreases |s| - k
  {
    if k == |s| {
      assert s[..k] == s;
    } else {
      assert s[..k + 1] == s[..k] + [s[k]];
      ValuesAppend(s[..k], s[k], l);
      ValuesOfPrefix(s, k + 1, l);
    }
  }

  /** The inner loop: one metric over the selected attempts. */
  method Measure(selected: seq<Attempt>, l: Limits) returns (values: Option<seq<Float>>)
    ensures values == Values(selected, l)
  {
    var collected: seq<Float> := [];
    for i := 0 to |selected|
      invariant Values(selected[..i], l) == Some(collected)
    {
      var a := selected[i];
      assert selected[..i + 1] == selected[..i] + [a];
      ValuesAppend(selected[..i], a, l);
      assert [a][1..] == [];
      if l.metric !in a.metrics || a.metrics[l.metric].NotNumeric? || Less(a.metrics[l.metric].value, Fin(l.individualFloor)) {
        ValuesOfPrefix(selected, i + 1, l);
        return None;
      }
      assert Values([a], l) == Some([a.metrics[l.metric].value]) by {
        assert Values([a][1..], l) == Some([]);
        assert [a.metrics[l.metric].value] + [] == [a.metrics[l.metric].value];
      }
      collected := collected + [a.metrics[l.metric].value];
    }
    assert selected[..|selected|] == selected;
    return Some(collected);
  }

  /** The outer loop: medians metric by metric until a threshold fails. */
  method MeasureAll(sort: Sorting, selected: seq<Attempt>, limits: seq<Limits>) returns (medians: Option<seq<(string, Float)>>)
    ensures medians == Medians(sort, selected, limits)
  {
    var collected: seq<(string, Float)> := [];
    var i := 0;
    assert limits[0..] == limits;
    assert Medians(sort, selected, limits).Some? ==> [] + Medians(sort, selected, limits).value == Medians(sort, selected, limits).value;
    while i < |limits|
      invariant 0 <= i <= |limits|
      invariant Medians(sort, selected, limits) ==
                (var rest := Medians(sort, selected, limits[i..]); if rest.None? then None else Some(collected + rest.value))
    {
      ghost var left := limits[i..];
      assert left[1..] == limits[i + 1..];
      var values := Measure(selected, limits[i]);
      if values.None? || values.value == [] {
        return None;
      }
      var median := Median(sort, values.value);
      if Less(median, Fin(limits[i].medianFloor)) {
        return None;
      }
      ghost var rest := Medians(sort, selected, limits[i + 1..]);
      assert rest.Some? ==> collected + ([(limits[i].metric, median)] + rest.value) == collected + [(limits[i].metric, median)] + rest.value;
      collected := collected + [(limits[i].metric, median)];
      i := i + 1;
    }
    assert limits[i..] == [] && collected + [] == collected;
    return Some(collected);
  }

  /** The evaluation as a whole. */
  method EvaluateAttempts(sort: Sorting, p: Policy, attempts: seq<Attempt>) returns (o: Outcome)
    ensures o == Evaluate(sort, p, attempts)
  {
    if attempts == [] || |attempts| > p.maximum {
      return Error;
    }
    var ordered := InOrder(attempts);
    if !Numbered(ordered) || exists i :: 0 <= i < |ordered| && ordered[i].baselines != Some(p.hash) {
      return Error;
    }
    if exists i :: 0 <= i < |ordered| && (ordered[i].subject != ordered[0].subject || ordered[i].profile != ordered[0].profile) {
      return Error;
    }
    var pin := ordered[0].subject.pinId;
    if ordered[0].profile == Some("fast-320k") && (pin.None? || pin.value == "") {
      return Error;
    }
    var fits, valid, rawHashes := Collect(ordered);
    if !fits {
      return Error;
    }
    assert Fits(p, attempts);
    var selected := if |valid| < p.required then valid else valid[..p.required];
    if |selected| < p.required {
      return if |ordered| == p.maximum then Error else Incomplete(|selected|, rawHashes);
    }
    if ordered[0].profile.None? || ordered[0].profile.value !in p.profiles {
      return Error;
    }
    var medians := MeasureAll(sort, selected, p.profiles[ordered[0].profile.value]);
    return if medians.None? then Error else Complete(Numbers(selected), rawHashes, medians.value);
  }
}
