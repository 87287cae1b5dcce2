/**
 The battery verdict in terms of the attempts alone: which series are well formed, and exactly when a
 well-formed one is incomplete, complete or refused.
 */
module BatteryVerdict {
  import opened Wrappers
  import opened SortedLists
  import opened BatterySelection

  // ------------------------------------------------------------ chronological order

  /** Created earlier, or at the same time with the smaller number. */
  predicate Precedes(a: Attempt, b: Attempt) {
    Before(Codes(a.createdAt), Codes(b.createdAt)) || (a.createdAt == b.createdAt && Number(a) < Number(b))
  }

  function Shifted(s: string, n: int): seq<int> {
    seq(|s|, i requires 0 <= i < |s| => s[i] as int + 1) + [0, n]
  }

  lemma {:induction false} ShiftedExact(s: string, n: int, t: string, m: int)
    ensures Before(Shifted(s, n), Shifted(t, m)) <==> Before(Codes(s), Codes(t)) || (s == t && n < m)
    decreases |s|
  {
    var a, b := Shifted(s, n), Shifted(t, m);
    if s == "" || t == "" {
      ShiftedEnds(s, n, t, m);
    } else {
      assert a[1..] == Shifted(s[1..], n) && b[1..] == Shifted(t[1..], m);
      assert Codes(s)[1..] == Codes(s[1..]) && Codes(t)[1..] == Codes(t[1..]);
      ShiftedExact(s[1..], n, t[1..], m);
      assert s == [s[0]] + s[1..] && t == [t[0]] + t[1..];
    }
  }

  lemma {:induction false} ShiftedEnds(s: string, n: int, t: string, m: int)
    requires s == "" || t == ""
    ensures Before(Shifted(s, n), Shifted(t, m)) <==> Before(Codes(s), Codes(t)) || (s == t && n < m)
  {
    var a, b := Shifted(s, n), Shifted(t, m);
    if s == "" && t == "" {
      assert a[1..] == [n] && b[1..] == [m] && [n][1..] == [] && [m][1..] == [];
    }
  }

  /** The sort key orders attempts by time, then by number. */
  lemma KeyPrecedes(a: Attempt, b: Attempt)
    ensures Before(TimeKey(a), TimeKey(b)) <==> Precedes(a, b)
  {
    assert TimeKey(a) == Shifted(a.createdAt, Number(a)) && TimeKey(b) == Shifted(b.createdAt, Number(b));
    ShiftedExact(a.createdAt, Number(a), b.createdAt, Number(b));
  }

  /** Numbered from one to their count, each number once, and created in that order. */
  ghost predicate InSeries(attempts: seq<Attempt>) {
    && (forall i :: 0 <= i < |attempts| ==> attempts[i].number.Some? && 1 <= Number(attempts[i]) <= |attempts|)
    && (forall i, j :: 0 <= i < j < |attempts| ==> Number(attempts[i]) != Number(attempts[j]))
    && (forall a, b :: a in attempts && b in attempts && Number(a) < Number(b) ==> Precedes(a, b))
  }

  lemma NumberedInSeries(attempts: seq<Attempt>)
    requires Numbered(InOrder(attempts))
    ensures InSeries(attempts)
  {
    var ordered := InOrder(attempts);
    SortedKeepsElements(attempts);
    NumberedOriginal(attempts);
    SortIncreasing(TimeKey, attempts);
    forall i | 0 <= i < |attempts| ensures attempts[i].number.Some? && 1 <= Number(attempts[i]) <= |attempts| {
      assert attempts[i] in attempts;
      ByNumber(ordered, attempts[i]);
    }
    forall i, j | 0 <= i < j < |attempts| ensures Number(attempts[i]) != Number(attempts[j]) {
      assert attempts[i] in attempts && attempts[j] in attempts;
      ByNumber(ordered, attempts[i]);
      ByNumber(ordered, attempts[j]);
    }
    forall a, b | a in attempts && b in attempts && Number(a) < Number(b) ensures Precedes(a, b) {
      ByNumber(ordered, a);
      ByNumber(ordered, b);
      IncreasingBetween(ordered, Number(a) - 1, Number(b) - 1);
      KeyPrecedes(a, b);
    }
  }

  lemma {:induction false} IncreasingBetween(s: seq<Attempt>, i: nat, j: nat)
    requires Increasing(TimeKey, s) && i < j < |s|
    ensures Before(TimeKey(s[i]), TimeKey(s[j]))
  {
    if i == 0 {
      FirstIsBefore(TimeKey, s, j);
    } else {
      IncreasingBetween(s[1..], i - 1, j - 1);
    }
  }

  /** Whole numbers that rise from at least `low` to at most `low` plus their count leave none out. */
  lemma {:induction false} RisingFill(s: seq<Attempt>, low: int)
    requires forall i, j :: 0 <= i < j < |s| ==> Number(s[i]) < Number(s[j])
    requires forall i :: 0 <= i < |s| ==> low <= Number(s[i]) < low + |s|
    ensures forall i :: 0 <= i < |s| ==> Number(s[i]) == low + i
  {
    if s != [] {
      RisingAtLeast(s, |s| - 1, low);
      var front := s[..|s| - 1];
      assert forall i :: 0 <= i < |front| ==> front[i] == s[i];
      RisingFill(front, low);
    }
  }

  lemma {:induction false} RisingAtLeast(s: seq<Attempt>, i: nat, low: int)
    requires forall i, j :: 0 <= i < j < |s| ==> Number(s[i]) < Number(s[j])
    requires i < |s| && Number(s[0]) >= low
    ensures Number(s[i]) >= low + i
  {
    if i > 0 {
      RisingAtLeast(s, i - 1, low);
    }
  }

  lemma SeriesNumbered(attempts: seq<Attempt>)
    requires InSeries(attempts)
    ensures Numbered(InOrder(attempts))
  {
    var ordered := InOrder(attempts);
    forall i, j | 0 <= i < j < |attempts| ensures TimeKey(attempts[i]) != TimeKey(attempts[j]) {
      NumbersSeparate(attempts[i], attempts[j]);
    }
    SortedKeepsElements(attempts);
    SortIncreasing(TimeKey, attempts);
    assert forall i :: 0 <= i < |ordered| ==> ordered[i] in attempts;
    forall i, j | 0 <= i < j < |ordered| ensures Number(ordered[i]) < Number(ordered[j]) {
      SeriesRises(attempts, ordered, i, j);
    }
    RisingFill(ordered, 1);
  }

  lemma {:induction false} SeriesRises(attempts: seq<Attempt>, ordered: seq<Attempt>, i: nat, j: nat)
    requires InSeries(attempts) && Increasing(TimeKey, ordered) && i < j < |ordered|
    requires ordered[i] in attempts && ordered[j] in attempts
    ensures Number(ordered[i]) < Number(ordered[j])
  {
    var a, b := ordered[i], ordered[j];
    IncreasingBetween(ordered, i, j);
    NeverBothBefore(TimeKey(a), TimeKey(b));
    KeyPrecedes(b, a);
    OneOfANumber(attempts, a, b);
    BeforeIrreflexive(TimeKey(a));
  }

  lemma OneOfANumber(attempts: seq<Attempt>, a: Attempt, b: Attempt)
    requires InSeries(attempts) && a in attempts && b in attempts
    ensures Number(a) == Number(b) ==> a == b
  {
    var m :| 0 <= m < |attempts| && attempts[m] == a;
    var n :| 0 <= n < |attempts| && attempts[n] == b;
    assert m == n || m < n || n < m;
  }

  // ------------------------------------------------------------ well-formed series

  /** A hash of 64 characters; a valid attempt finished and has no excuse, any other has a known one. */
  predicate Accounted(a: Attempt) {
    && a.raw.Some? && |a.raw.value| == 64
    && (a.valid ==> a.completed && a.invalidation == None)
    && (!a.valid ==> a.invalidation in {
          Some("idle-preflight"), Some("foreign-traffic"), Some("unexpected-api-connection"), Some("runtime-health-failure"),
          Some("gpu-clock-cap-changed"), Some("client-failure-before-acceptance")})
  }

  lemma AccountedExact(a: Attempt)
    ensures Accounted(a) <==> ItemFits(a)
  {
  }

  /** One to `maximum` attempts in series, each against these baselines and accounted for, all of one subject
      and one profile, with a pin where the profile needs one. */
  ghost predicate WellFormedSeries(p: Policy, attempts: seq<Attempt>) {
    && 1 <= |attempts| <= p.maximum && InSeries(attempts)
    && (forall a :: a in attempts ==> a.baselines == Some(p.hash) && Accounted(a))
    && (forall a, b :: a in attempts && b in attempts ==> a.subject == b.subject && a.profile == b.profile)
    && (forall a :: a in attempts && a.profile == Some("fast-320k") ==> a.subject.pinId.Some? && a.subject.pinId.value != "")
  }

  lemma FitsExact(p: Policy, attempts: seq<Attempt>)
    ensures Fits(p, attempts) <==> WellFormedSeries(p, attempts)
  {
    var ordered := InOrder(attempts);
    SortedKeepsElements(attempts);
    forall a ensures Accounted(a) <==> ItemFits(a) {
      AccountedExact(a);
    }
    assert forall i :: 0 <= i < |ordered| ==> ordered[i] in attempts;
    if WellFormedSeries(p, attempts) {
      SeriesNumbered(attempts);
    }
    if Fits(p, attempts) {
      NumberedInSeries(attempts);
      forall a | a in attempts
        ensures a.baselines == Some(p.hash) && Accounted(a) && a.subject == ordered[0].subject && a.profile == ordered[0].profile
      {
        assert a in ordered;
      }
    }
  }

  // ------------------------------------------------------------ thresholds

  /** The attempt has a number for this metric, not below its floor. */
  predicate Measured(a: Attempt, l: Limits) {
    l.metric in a.metrics && a.metrics[l.metric].Numeric? && !Less(a.metrics[l.metric].value, Fin(l.individualFloor))
  }

  function Reading(a: Attempt, l: Limits): Float
    requires Measured(a, l)
  {
    a.metrics[l.metric].value
  }

  lemma {:induction false} ValuesExact(s: seq<Attempt>, l: Limits)
    ensures Values(s, l).Some? <==> forall i :: 0 <= i < |s| ==> Measured(s[i], l)
    ensures Values(s, l).Some? ==>
              |Values(s, l).value| == |s| && forall i :: 0 <= i < |s| ==> Values(s, l).value[i] == Reading(s[i], l)
  {
    if s != [] {
      ValuesExact(s[1..], l);
      assert forall i :: 0 < i < |s| ==> s[i] == s[1..][i - 1];
    }
  }

  /** Every metric of the policy measured in every selected attempt, and its median not below the median
      floor. */
  ghost predicate MeetsLimits(sort: Sorting, selected: seq<Attempt>, limits: seq<Limits>) {
    forall i :: 0 <= i < |limits| ==> MeetsLimit(sort, selected, limits[i])
  }

  predicate MeetsLimit(sort: Sorting, selected: seq<Attempt>, l: Limits) {
    && selected != [] && (forall j :: 0 <= j < |selected| ==> Measured(selected[j], l))
    && !Less(Median(sort, seq(|selected|, j requires 0 <= j < |selected| => Reading(selected[j], l))), Fin(l.medianFloor))
  }

  lemma {:induction false} LimitExact(sort: Sorting, selected: seq<Attempt>, l: Limits)
    ensures MeetsLimit(sort, selected, l) <==>
              && Values(selected, l).Some? && Values(selected, l).value != []
              && !Less(Median(sort, Values(selected, l).value), Fin(l.medianFloor))
  {
    ValuesExact(selected, l);
    if Values(selected, l).Some? {
      assert Values(selected, l).value == seq(|selected|, j requires 0 <= j < |selected| => Reading(selected[j], l));
    }
  }

  lemma {:induction false} MediansExact(sort: Sorting, selected: seq<Attempt>, limits: seq<Limits>)
    ensures Medians(sort, selected, limits).Some? <==> MeetsLimits(sort, selected, limits)
  {
    if limits != [] {
      LimitExact(sort, selected, limits[0]);
      MediansExact(sort, selected, limits[1..]);
      assert forall i :: 0 < i < |limits| ==> limits[i] == limits[1..][i - 1];
    }
  }

  // ------------------------------------------------------------ the verdict

  /** The valid attempts of a series. */
  ghost function ValidSet(attempts: seq<Attempt>): set<Attempt> { set a | a in attempts && a.valid }

  /** The hashes of the attempts, in the order of their numbers. */
  ghost predicate HashesOf(attempts: seq<Attempt>, hashes: seq<string>) {
    |hashes| == |attempts| && forall a :: a in attempts ==> 1 <= Number(a) <= |hashes| && a.raw == Some(hashes[Number(a) - 1])
  }

  lemma {:induction false} HashesAt(s: seq<Attempt>, i: nat)
    requires i < |s| && s[i].raw.Some?
    ensures |RawHashes(s)| == |s| && RawHashes(s)[i] == s[i].raw.value
  {
    if i > 0 {
      HashesAt(s[1..], i - 1);
    } else if |s| > 1 {
      HashesLength(s[1..]);
    }
  }

  lemma {:induction false} HashesLength(s: seq<Attempt>)
    ensures |RawHashes(s)| == |s|
  {
    if s != [] {
      HashesLength(s[1..]);
    }
  }

  lemma HashesExact(p: Policy, attempts: seq<Attempt>)
    requires Fits(p, attempts)
    ensures HashesOf(attempts, RawHashes(InOrder(attempts)))
  {
    var ordered := InOrder(attempts);
    SortedKeepsElements(attempts);
    HashesLength(ordered);
    forall a | a in attempts
      ensures 1 <= Number(a) <= |ordered| && a.raw == Some(RawHashes(ordered)[Number(a) - 1])
    {
      ByNumber(ordered, a);
      HashesAt(ordered, Number(a) - 1);
    }
  }

  /** Rising numbers mean as many attempts as places. */
  lemma {:induction false} RisingSize(s: seq<Attempt>)
    requires forall i, j :: 0 <= i < j < |s| ==> Number(s[i]) < Number(s[j])
    ensures |Elements(s)| == |s|
  {
    if s != [] {
      RisingSize(s[1..]);
      ElementsCons(s[0], s[1..]);
      assert s == [s[0]] + s[1..];
      assert s[0] !in s[1..];
    }
  }

  lemma ValidCount(p: Policy, attempts: seq<Attempt>)
    requires Fits(p, attempts)
    ensures |ValidOnes(InOrder(attempts))| == |ValidSet(attempts)|
  {
    var ordered := InOrder(attempts);
    SortedKeepsElements(attempts);
    ValidOnesMeans(ordered, 1);
    RisingSize(ValidOnes(ordered));
    assert Elements(ValidOnes(ordered)) == ValidSet(attempts);
  }

  /** The profile the series was run for, as its first attempt names it. */
  predicate HasPolicy(p: Policy, attempts: seq<Attempt>) {
    exists a :: a in attempts && a.profile.Some? && a.profile.value in p.profiles
  }

  /** The verdict by the attempts alone: incomplete exactly when the series is well formed, too few of its
      attempts are valid and there may be more; complete exactly when it is well formed, enough are valid,
      the profile has limits and the first valid ones meet them; otherwise an error. */
  lemma VerdictExact(sort: Sorting, p: Policy, attempts: seq<Attempt>)
    ensures var o, valid := Evaluate(sort, p, attempts), |ValidSet(attempts)|;
            && (o.Incomplete? <==> WellFormedSeries(p, attempts) && valid < p.required && |attempts| < p.maximum)
            && (o.Incomplete? ==> o.validCount == valid && HashesOf(attempts, o.rawHashes))
            && (o.Complete? <==> && WellFormedSeries(p, attempts) && valid >= p.required && HasPolicy(p, attempts)
                                 && MeetsLimits(sort, Selected(p, InOrder(attempts)), LimitsFor(p, attempts)))
            && (o.Complete? ==> HashesOf(attempts, o.rawHashes))
  {
    FitsExact(p, attempts);
    if Fits(p, attempts) {
      var ordered := InOrder(attempts);
      HashesExact(p, attempts);
      ValidCount(p, attempts);
      SortedKeepsElements(attempts);
      OneProfile(p, attempts);
      MediansExact(sort, Selected(p, ordered), LimitsFor(p, attempts));
    }
  }

  /** The limits of the series' profile. */
  ghost function LimitsFor(p: Policy, attempts: seq<Attempt>): seq<Limits> {
    if a :| a in attempts && a.profile.Some? && a.profile.value in p.profiles then p.profiles[a.profile.value] else []
  }

  lemma OneProfile(p: Policy, attempts: seq<Attempt>)
    requires Fits(p, attempts)
    ensures var profile := InOrder(attempts)[0].profile;
            && (HasPolicy(p, attempts) <==> profile.Some? && profile.value in p.profiles)
            && (HasPolicy(p, attempts) ==> LimitsFor(p, attempts) == p.profiles[profile.value])
  {
    var ordered := InOrder(attempts);
    SortedKeepsElements(attempts);
    assert ordered[0] in attempts;
    forall a | a in attempts ensures a.profile == ordered[0].profile {
      assert a in ordered;
    }
  }
}
