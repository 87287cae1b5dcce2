/**
 The allocator ceiling of a unified-memory machine: checked integer arithmetic that yields a byte
 ceiling, and its conversion to the double-precision fraction the allocator accepts.
 */
module MemoryCeiling {
  import opened Wrappers
  import opened Doubles

  datatype Result<+T> = Ok(value: T) | BudgetError

  const INT64_MAX: int := 0x7FFF_FFFF_FFFF_FFFF
  const PHASES := ["load", "profile", "kv", "graphs", "auto"]

  datatype Inputs = Inputs(phase: string, totalCuda: int, totalHost: int, available: int, reserve: int,
                           inUse: int, reserved: int, budget: Option<int>)

  datatype Receipt = Receipt(poolTotal: int, reserve: int, baseline: int, budget: int, requested: int)

  function Min(a: int, b: int): int { if a <= b then a else b }
  function Max(a: int, b: int): int { if a <= b then b else a }

  predicate InRange(n: int) {
    0 <= n <= INT64_MAX
  }

  function Compute(x: Inputs): Result<Receipt> {
    if x.phase !in PHASES then BudgetError
    else if !InRange(x.totalCuda) || !InRange(x.totalHost) || !InRange(x.available)
            || !InRange(x.reserve) || !InRange(x.inUse) || !InRange(x.reserved) then BudgetError
    else
      var poolTotal := Min(x.totalCuda, x.totalHost);
      if poolTotal == 0 || !(0 < x.reserve < poolTotal) || x.available <= x.reserve then BudgetError
      else
        var baseline := Max(x.inUse, x.reserved);
        if x.inUse > baseline || x.reserved > baseline then BudgetError
        else
          var incremental := Max(0, x.available - x.reserve);
          var poolCeiling := poolTotal - x.reserve;
          if poolCeiling <= 0 || (x.budget.Some? && !InRange(x.budget.value)) then BudgetError
          else
            var budget := if x.budget.None? then poolCeiling else x.budget.value;
            var requested := if x.budget.None? then Min(Min(poolCeiling, baseline + incremental), budget)
                             else Min(poolCeiling, Max(baseline + incremental, budget));
            if baseline > poolCeiling || requested < baseline then BudgetError
            else if x.budget.None? && (requested > budget || requested - baseline > incremental) then BudgetError
            else Ok(Receipt(poolTotal, x.reserve, baseline, budget, requested))
  }

  /** What a caller can check beforehand: the inputs are in range, the reserve fits the pool, there is
      something available beyond it, and what is already allocated fits below it. */
  predicate Admissible(x: Inputs) {
    && x.phase in PHASES
    && InRange(x.totalCuda) && InRange(x.totalHost) && InRange(x.available)
    && InRange(x.reserve) && InRange(x.inUse) && InRange(x.reserved)
    && (x.budget.Some? ==> InRange(x.budget.value))
    && 0 < x.reserve < Min(x.totalCuda, x.totalHost)
    && x.reserve < x.available
    && Max(x.inUse, x.reserved) <= Min(x.totalCuda, x.totalHost) - x.reserve
  }

  /** The later consistency checks never fire: a ceiling is refused exactly for inadmissible inputs. */
  lemma ComputeExact(x: Inputs)
    ensures Compute(x).Ok? <==> Admissible(x)
  {
  }

  /** An explicit budget is a floor: it can raise the ceiling above what is available, never lower it,
      more budget never means less, and total minus reserve stays the hard cap. */
  lemma BudgetIsFloor(x: Inputs, low: int, high: int)
    requires Admissible(x) && 0 <= low <= high <= INT64_MAX
    ensures var unset := Compute(x.(budget := None));
            var a, b := Compute(x.(budget := Some(low))), Compute(x.(budget := Some(high)));
            && unset.Ok? && a.Ok? && b.Ok?
            && unset.value.requested <= a.value.requested <= b.value.requested <= a.value.poolTotal - x.reserve
            && Min(low, a.value.poolTotal - x.reserve) <= a.value.requested
            && (a.value.requested == unset.value.requested
                || a.value.requested == Min(low, a.value.poolTotal - x.reserve))
  {
  }

  /** The formula of the docstring, min(P, C + I, B), in which a budget is a cap. */
  function Documented(x: Inputs): int {
    var poolCeiling := Min(x.totalCuda, x.totalHost) - x.reserve;
    var allowance := Max(x.inUse, x.reserved) + Max(0, x.available - x.reserve);
    Min(Min(poolCeiling, allowance), if x.budget.None? then poolCeiling else x.budget.value)
  }

  /** The code follows that formula without a budget, and with one only when the budget equals the
      allowance or both reach the hard cap. */
  lemma DocumentedExactly(x: Inputs)
    requires Admissible(x)
    ensures var poolCeiling := Min(x.totalCuda, x.totalHost) - x.reserve;
            var allowance := Max(x.inUse, x.reserved) + x.available - x.reserve;
            Compute(x).value.requested == Documented(x) <==>
              || x.budget.None?
              || x.budget.value == allowance
              || (poolCeiling <= x.budget.value && poolCeiling <= allowance)
  {
  }

  /** The ceiling leaves room to grow unless the process already fills everything but the reserve. */
  lemma FullOnlyAtPoolCeiling(x: Inputs)
    requires Compute(x).Ok?
    ensures var r := Compute(x).value;
            && 0 <= r.baseline <= r.requested <= r.poolTotal - r.reserve && 1 <= r.requested < r.poolTotal
            && (r.baseline == r.requested <==> r.baseline == r.poolTotal - r.reserve)
  {
  }

  // ------------------------------------------------------------------ phases

  /** Host bytes available and bytes the process holds reserved. */
  datatype Host = Host(available: int, reserved: int)

  /** One phase: the process takes up to `growth` more bytes below the ceiling it was given;
      that costs the host `cost` bytes. */
  datatype Phase = Phase(inUse: int, growth: nat, cost: nat)

  function InputsOf(x: Inputs, h: Host, p: Phase): Inputs {
    x.(available := h.available, inUse := p.inUse, reserved := h.reserved)
  }

  /** `applied` is the ceiling the allocator enforces, at most the requested one. */
  function Grow(x: Inputs, h: Host, p: Phase, applied: int): Host {
    match Compute(InputsOf(x, h, p))
    case BudgetError => h
    case Ok(r) =>
      var room := Max(0, Min(applied, r.requested) - h.reserved);
      var growth := Min(p.growth, room);
      Host(h.available - Min(p.cost, growth), h.reserved + growth)
  }

  function Phases(x: Inputs, h: Host, ps: seq<(Phase, int)>): Host {
    if ps == [] then h else
      var last := ps[|ps| - 1];
      Grow(x, Phases(x, h, ps[..|ps| - 1]), last.0, last.1)
  }

  /** Before each phase what is in use is part of what is reserved by then. */
  predicate InUseFits(x: Inputs, h: Host, ps: seq<(Phase, int)>) {
    ps == [] ||
    (InUseFits(x, h, ps[..|ps| - 1]) && 0 <= ps[|ps| - 1].0.inUse <= Phases(x, h, ps[..|ps| - 1]).reserved)
  }

  /** With no budget set, no sequence of phases lets the process grow into the protected reserve. */
  lemma {:induction false} GrowthKeepsReserve(x: Inputs, h: Host, ps: seq<(Phase, int)>)
    requires x.budget.None? && x.reserve <= h.available && 0 < x.reserve
    requires 0 <= h.reserved <= Min(x.totalCuda, x.totalHost) - x.reserve
    requires InUseFits(x, h, ps)
    ensures var after := Phases(x, h, ps);
            && x.reserve <= after.available
            && h.reserved <= after.reserved <= Min(x.totalCuda, x.totalHost) - x.reserve
            && h.available - after.available <= after.reserved - h.reserved
  {
    if ps != [] {
      GrowthKeepsReserve(x, h, ps[..|ps| - 1]);
    }
  }

  /** The ceiling a host state allows without touching the reserve is no lower than what is asked for: no
      budget, a budget within the allowance, or an allowance that reaches the hard cap. */
  predicate WithinAllowance(x: Inputs, h: Host) {
    var allowance := h.reserved + h.available - x.reserve;
    || x.budget.None?
    || x.budget.value <= allowance
    || Min(x.totalCuda, x.totalHost) - x.reserve <= allowance
  }

  /** Where the first phase may start: its ceiling is computed without error. */
  predicate CanStart(x: Inputs, h: Host) { Admissible(InputsOf(x, h, Phase(0, 0, 0))) }

  /** A phase within the allowance leaves the reserve alone and stays within the allowance. */
  lemma PhaseKeepsReserve(x: Inputs, h: Host, p: Phase, applied: int)
    requires WithinAllowance(x, h) && 0 < x.reserve <= h.available && 0 <= p.inUse <= h.reserved
    ensures var after := Grow(x, h, p, applied);
            WithinAllowance(x, after) && x.reserve <= after.available && h.reserved <= after.reserved
  {
    ComputeExact(InputsOf(x, h, p));
  }

  lemma {:induction false} AllowanceKeepsReserve(x: Inputs, h: Host, ps: seq<(Phase, int)>)
    requires WithinAllowance(x, h) && 0 < x.reserve <= h.available && InUseFits(x, h, ps)
    ensures var after := Phases(x, h, ps); WithinAllowance(x, after) && x.reserve <= after.available
  {
    if ps != [] {
      var front, last := ps[..|ps| - 1], ps[|ps| - 1];
      AllowanceKeepsReserve(x, h, front);
      PhaseKeepsReserve(x, Phases(x, h, front), last.0, last.1);
    }
  }

  /** Beyond the allowance one phase that fills its ceiling, each byte costing a byte, takes from the
      reserve. */
  lemma BeyondAllowanceSpends(x: Inputs, h: Host) returns (p: Phase, applied: int)
    requires CanStart(x, h) && !WithinAllowance(x, h)
    ensures 0 <= p.inUse <= h.reserved && Grow(x, h, p, applied).available < x.reserve
  {
    var start := InputsOf(x, h, Phase(0, 0, 0));
    ComputeExact(start);
    var room := Compute(start).value.requested - h.reserved;
    p, applied := Phase(0, room, room), Compute(start).value.requested;
    assert InputsOf(x, h, p) == start;
  }

  /** Exactly which budgets protect the reserve: from a state whose ceiling can be computed, every
      sequence of phases leaves at least the reserve available if and only if the budget is unset,
      lies within the allowance, or the allowance already reaches total minus reserve. */
  lemma BudgetExact(x: Inputs, h: Host)
    requires CanStart(x, h)
    ensures (forall ps :: ReserveLeft(x, h, ps)) <==> WithinAllowance(x, h)
  {
    if WithinAllowance(x, h) {
      forall ps ensures ReserveLeft(x, h, ps) {
        if InUseFits(x, h, ps) {
          AllowanceKeepsReserve(x, h, ps);
        }
      }
    } else {
      var p, applied := BeyondAllowanceSpends(x, h);
      OnePhase(x, h, p, applied);
      assert !ReserveLeft(x, h, [(p, applied)]);
    }
  }

  /** These phases, if they can happen, leave at least the reserve available. */
  predicate ReserveLeft(x: Inputs, h: Host, ps: seq<(Phase, int)>) {
    InUseFits(x, h, ps) ==> x.reserve <= Phases(x, h, ps).available
  }

  lemma {:induction false} OnePhase(x: Inputs, h: Host, p: Phase, applied: int)
    requires 0 <= p.inUse <= h.reserved
    ensures InUseFits(x, h, [(p, applied)]) && Phases(x, h, [(p, applied)]) == Grow(x, h, p, applied)
  {
    var ps := [(p, applied)];
    assert ps[..|ps| - 1] == [];
    assert Phases(x, h, []) == h && InUseFits(x, h, []);
  }

  /** A budget beyond the allowance, in numbers. */
  lemma BudgetCanSpendReserve()
    ensures exists x: Inputs, h: Host, p: Phase ::
              && x.budget.Some? && Compute(InputsOf(x, h, p)).Ok?
              && Grow(x, h, p, 90).available < x.reserve < h.available
  {
    var x := Inputs("auto", 100, 100, 0, 10, 0, 0, Some(90));
    var h, p := Host(50, 0), Phase(0, 90, 90);
    assert x.phase in PHASES by {
      assert PHASES[4] == "auto";
    }
    assert Grow(x, h, p, 90).available == -40;
  }

  // ---------------------------------------------------- conversion to doubles

  function Times(a: real, b: real): real {
    a * b
  }

  /** Correct rounding, and the next double towards zero. */
  ghost predicate IsArithmetic(fl: real -> real, down: real -> real) {
    && (forall x {:trigger IsRounded(x, fl(x))} :: IsRounded(x, fl(x)))
    && (forall f {:trigger StepsDown(f, down(f))} :: IsDouble(f) && f > 0.0 ==> StepsDown(f, down(f)))
  }

  ghost predicate StepsDown(f: real, below: real) {
    IsDouble(below) && 0.0 <= below < f
  }

  predicate Sensible(r: Receipt) {
    0 <= r.baseline <= r.requested < r.poolTotal && 1 <= r.requested
  }

  /** The bytes the allocator makes of a fraction. */
  function Applied(fl: real -> real, fraction: real, poolTotal: int): int {
    fl(Times(fraction, fl(poolTotal as real))).Floor
  }

  /** The quotient is large enough to be a normal double and less than one. */
  lemma FractionRange(e: int, t: int, x: real)
    requires 1 <= e < t <= TWO_52 && x * t as real == e as real
    ensures 0.0 < x < 1.0 && TWO_52 as real <= x * Pow2(104)
  {
    if x <= 0.0 {
      PositiveProduct(-x, t as real);
      Distribute(0.0, x, t as real);
    }
    if x >= 1.0 {
      PositiveProduct(x - 1.0, t as real);
      Distribute(x, 1.0, t as real);
    }
    PositiveProduct(x, TWO_52 as real - t as real);
    Distribute(TWO_52 as real, t as real, x);
    assert x * TWO_52 as real >= 1.0;
    PowConstants();
    PowAdd(52, 52);
    assert Pow2(104) == TWO_52 as real * TWO_52 as real;
    assert x * Pow2(104) == (x * TWO_52 as real) * TWO_52 as real;
  }

  /** The rounded quotient times the pool misses the requested ceiling by less than half a byte. */
  lemma FractionError(e: int, t: int, x: real, f: real)
    requires 1 <= e < t <= TWO_52 && x * t as real == e as real && IsRounded(x, f)
    ensures Distance(f * t as real, e as real) * TWO_53 as real <= e as real
  {
    var n := FractionScale(e, t, x);
    RelativeError(x, f, n);
    ScaleError(f, x, t as real, e as real);
  }

  /** How far a fraction of the pool must be scaled to show 53 bits. */
  lemma FractionScale(e: int, t: int, x: real) returns (n: nat)
    requires 1 <= e < t <= TWO_52 && x * t as real == e as real
    ensures 0.0 < x < TWO_53 as real && n <= 1074 && TWO_52 as real <= x * Pow2(n)
  {
    FractionRange(e, t, x);
    n := 104;
  }

  lemma ScaleBound(u: real, x: real, t: real, e: real)
    requires t >= 0.0 && x * t == e && u * TWO_53 as real <= x
    ensures (u * t) * TWO_53 as real <= e
  {
    PositiveProduct(x - u * TWO_53 as real, t);
    Distribute(x, u * TWO_53 as real, t);
  }

  lemma ScaleError(f: real, x: real, t: real, e: real)
    requires t >= 1.0 && x * t == e && Distance(f, x) * TWO_53 as real <= x
    ensures Distance(f * t, e) * TWO_53 as real <= e
  {
    Distribute(f, x, t);
    Distribute(x, f, t);
    ScaleBound(f - x, x, t, e);
    ScaleBound(x - f, x, t, e);
  }

  /** What the allocator makes of the correctly rounded fraction: the requested ceiling or one byte less. */
  lemma AppliedBytes(e: int, t: int, x: real, f: real, p: real)
    requires 1 <= e < t <= TWO_52 && Times(x, t as real) == e as real
    requires IsRounded(x, f) && IsRounded(Times(f, t as real), p)
    ensures p.Floor == e || p.Floor == e - 1
  {
    FractionError(e, t, x, f);
    IntIsDouble(e);
    NearInteger(e, Times(f, t as real), p);
  }

  lemma NearInteger(e: int, y: real, p: real)
    requires 1 <= e < TWO_52 && IsDouble(e as real)
    requires Distance(y, e as real) * TWO_53 as real <= e as real && IsRounded(y, p)
    ensures p.Floor == e || p.Floor == e - 1
  {
    assert Distance(p, y) <= Distance(e as real, y);
    assert TWO_53 as real == 2.0 * TWO_52 as real;
    assert e as real <= TWO_52 as real;
    assert Distance(y, e as real) <= 0.5;
    assert Distance(e as real, y) == Distance(y, e as real);
    assert (e - 1) as real < p < (e + 1) as real;
  }

  lemma ShareTimes(r: Receipt)
    requires Sensible(r)
    ensures Times(Share(r), r.poolTotal as real) == r.requested as real
  {
    Quotient(r.requested as real, r.poolTotal as real);
  }

  /** The same with the quotient and the product the program computes. */
  lemma AppliedExact(r: Receipt, fl: real -> real, down: real -> real)
    requires Sensible(r) && r.poolTotal <= TWO_52 && IsArithmetic(fl, down)
    ensures var applied := Applied(fl, fl(Share(r)), r.poolTotal);
            applied == r.requested || applied == r.requested - 1
  {
    var t := r.poolTotal as real;
    assert IsRounded(t, fl(t));
    ExactIntStays(r.poolTotal, fl(t));
    ShareTimes(r);
    AppliedAt(r.requested, r.poolTotal, Share(r), fl, down);
  }

  lemma AppliedAt(e: int, t: int, x: real, fl: real -> real, down: real -> real)
    requires 1 <= e < t <= TWO_52 && Times(x, t as real) == e as real
    requires IsArithmetic(fl, down) && fl(t as real) == t as real
    ensures Applied(fl, fl(x), t) == e || Applied(fl, fl(x), t) == e - 1
  {
    var f := fl(x);
    var y := Times(f, t as real);
    assert IsRounded(x, f) && IsRounded(y, fl(y));
    AppliedBytes(e, t, x, f, fl(y));
  }

  /** The exact quotient of request and pool. */
  function Share(r: Receipt): real
    requires Sensible(r)
  {
    r.requested as real / r.poolTotal as real
  }

  /** torch's per-process memory fraction. */
  class Allocator {
    var fraction: real

    constructor ()
      ensures fraction == 1.0
    {
      fraction := 1.0;
    }
  }

  /** Lowers a fraction double by double until the allocator cannot exceed the request. */
  method RoundDown(start: real, requested: int, poolTotal: int, fl: real -> real, down: real -> real)
    returns (fraction: real)
    requires IsArithmetic(fl, down) && IsDouble(start) && 0 <= requested && 1 <= poolTotal
    ensures IsDouble(fraction) && Applied(fl, fraction, poolTotal) <= requested
    ensures Applied(fl, start, poolTotal) <= requested ==> fraction == start
  {
    fraction := start;
    ghost var p := DoublesHaveGrid();
    while Applied(fl, fraction, poolTotal) > requested
      invariant IsDouble(fraction)
      invariant Applied(fl, start, poolTotal) <= requested ==> fraction == start
      decreases Rank(fraction, p)
    {
      PositiveFraction(fl, fraction, poolTotal, down);
      assert StepsDown(fraction, down(fraction));
      StepDown(down(fraction), fraction, p);
      fraction := down(fraction);
    }
  }

  /** Applies the ceiling. Whatever the pool size the rounding ends and the applied bytes never exceed
      the request; for pools up to 2^52 bytes nothing is rounded down, at most one byte is lost, and
      the call can fail only if the process already fills the requested ceiling. */
  method Apply(r: Receipt, allocator: Allocator, fl: real -> real, down: real -> real)
    returns (result: Result<(real, int)>)
    requires Sensible(r) && IsArithmetic(fl, down)
    modifies allocator
    ensures result.Ok? ==>
              && allocator.fraction == result.value.0 && IsDouble(result.value.0)
              && result.value.1 == Applied(fl, result.value.0, r.poolTotal)
              && r.baseline <= result.value.1 <= r.requested
    ensures result.BudgetError? ==> allocator.fraction == old(allocator.fraction)
    ensures r.poolTotal <= TWO_52 ==>
              && (result.Ok? ==> result.value.0 == fl(Share(r)) && r.requested - 1 <= result.value.1)
              && (result.BudgetError? ==> r.baseline == r.requested)
  {
    var share := Share(r);
    var start := fl(share);
    assert IsRounded(share, start);
    var fraction := RoundDown(start, r.requested, r.poolTotal, fl, down);
    if r.poolTotal <= TWO_52 {
      AppliedExact(r, fl, down);
    }
    var applied := Applied(fl, fraction, r.poolTotal);
    if applied < r.baseline {
      return BudgetError;
    }
    allocator.fraction := fraction;
    result := Ok((fraction, applied));
  }

  lemma PositiveFraction(fl: real -> real, f: real, t: int, down: real -> real)
    requires 1 <= t && Applied(fl, f, t) > 0 && IsArithmetic(fl, down)
    ensures f > 0.0
  {
    var total := fl(t as real);
    var y := Times(f, total);
    assert IsRounded(t as real, total) && IsRounded(y, fl(y));
    assert Applied(fl, f, t) == fl(y).Floor;
    if f <= 0.0 {
      NonPositiveProduct(f, t, total, y, fl(y));
    }
  }

  /** A fraction of zero or less never asks for a positive number of bytes. */
  lemma NonPositiveProduct(f: real, t: int, total: real, y: real, p: real)
    requires f <= 0.0 && 1 <= t && IsRounded(t as real, total) && y == Times(f, total) && IsRounded(y, p)
    ensures p.Floor <= 0
  {
    NotBelowZero(t as real, total);
    NonPositiveTimes(f, total);
    NotAboveZero(y, p);
  }

  lemma NotBelowZero(x: real, p: real)
    requires x >= 0.0 && IsRounded(x, p)
    ensures p >= 0.0
  {
    IntIsDouble(0);
    assert Distance(p, x) <= Distance(0 as real, x);
  }

  lemma NotAboveZero(x: real, p: real)
    requires x <= 0.0 && IsRounded(x, p)
    ensures p <= 0.0
  {
    IntIsDouble(0);
    assert Distance(p, x) <= Distance(0 as real, x);
  }

  lemma NonPositiveTimes(a: real, b: real)
    requires a <= 0.0 && b >= 0.0
    ensures Times(a, b) <= 0.0
  {
  }

  /** Every double is a multiple of 1/p. */
  ghost predicate IsGrid(p: real) {
    p >= 1.0 && forall z :: IsDouble(z) ==> OnMultiple(z, p)
  }

  predicate OnMultiple(z: real, p: real) { Times(z, p) == Rank(z, p) as real }

  /** The position of a double among these multiples. */
  function Rank(z: real, p: real): int { Times(z, p).Floor }

  lemma DoublesHaveGrid() returns (p: real)
    ensures IsGrid(p)
  {
    p := Pow2(FinestScale());
    forall z | IsDouble(z) ensures OnMultiple(z, p) {
      var i := FinestGrid(z);
      WholeIsMultiple(z, p, i);
    }
  }

  lemma WholeIsMultiple(z: real, p: real, i: int)
    requires z * p == i as real
    ensures OnMultiple(z, p)
  {
  }

  /** Each step down crosses at least one multiple. */
  lemma StepDown(low: real, high: real, p: real)
    requires IsGrid(p) && IsDouble(low) && IsDouble(high) && 0.0 <= low < high
    ensures 0 <= Rank(low, p) < Rank(high, p)
  {
    assert OnMultiple(low, p) && OnMultiple(high, p);
    RankStep(low, high, p, Rank(low, p), Rank(high, p));
  }

  lemma RankStep(low: real, high: real, p: real, i: int, j: int)
    requires p >= 1.0 && 0.0 <= low < high && low * p == i as real && high * p == j as real
    ensures 0 <= i < j
  {
    PositiveProduct(low, p);
    Distribute(high, low, p);
    AtLeastItself(high - low, p);
  }

  lemma AtLeastItself(a: real, p: real)
    requires a > 0.0 && p >= 1.0
    ensures a * p >= a
  {
    PositiveProduct(a, p - 1.0);
    assert a * p == a * (p - 1.0) + a;
  }

  /** From the inputs of the computation to the allocator: a ceiling computed for a pool of at most 2^52
      bytes fails to apply only if the process already holds all of total minus reserve. */
  lemma ApplyFailsOnlyWhenFull(x: Inputs, fl: real -> real, down: real -> real)
    requires Compute(x).Ok? && Compute(x).value.poolTotal <= TWO_52 && IsArithmetic(fl, down)
    ensures var r := Compute(x).value;
            && Sensible(r)
            && var applied := Applied(fl, fl(Share(r)), r.poolTotal);
               && (applied == r.requested || applied == r.requested - 1)
               && (applied < r.baseline ==> r.baseline == r.poolTotal - r.reserve)
  {
    FullOnlyAtPoolCeiling(x);
    AppliedExact(Compute(x).value, fl, down);
  }

  const TWO_58: int := 0x400_0000_0000_0000
  /** The whole part of 2^58 / 49. */
  const SHARE_49: int := 5882252574524729

  lemma Pow58()
    ensures Pow2(58) == TWO_58 as real
  {
    PowConstants();
    PowAdd(53, 5);
    PowAdd(1, 1);
    PowAdd(2, 2);
    PowAdd(4, 1);
  }

  lemma ScaleDistance(a: real, b: real, p: real)
    requires p >= 1.0
    ensures Distance(a, b) * p == Distance(a * p, b * p)
  {
    Distribute(a, b, p);
    Distribute(b, a, p);
    PositiveProduct(Distance(a, b), p);
  }

  lemma CloserScaled(a: real, b: real, x: real, p: real)
    requires p >= 1.0 && Distance(a, x) <= Distance(b, x)
    ensures Distance(a * p, x * p) <= Distance(b * p, x * p)
  {
    ScaleDistance(a, x, p);
    ScaleDistance(b, x, p);
    PositiveProduct(Distance(b, x) - Distance(a, x), p);
    Distribute(Distance(b, x), Distance(a, x), p);
  }

  /** The double nearest to 1/49 is 5882252574524729 / 2^58. */
  lemma RoundedShare(x: real, f: real)
    requires x * 49.0 == 1.0 && IsRounded(x, f)
    ensures f * Pow2(58) == SHARE_49 as real
  {
    var p := Pow2(58);
    Pow58();
    var d := SHARE_49 as real / p;
    ScaledIsDouble(SHARE_49, 58);
    Quotient(SHARE_49 as real, p);
    CloserScaled(f, d, x, p);
    assert 49.0 * (x * p) == p;
    assert SHARE_49 as real <= f * p < (SHARE_49 + 1) as real;
    var i := OnGrid(f, 58);
  }

  /** Multiplied by 49 it rounds to a double below one. */
  lemma RoundedProduct(f: real, y: real, p: real)
    requires f * Pow2(58) == SHARE_49 as real && y == f * 49.0 && IsRounded(y, p)
    ensures p < 1.0
  {
    var q := Pow2(58);
    Pow58();
    PowConstants();
    var d := (TWO_53 - 1) as real / Pow2(53);
    ScaledIsDouble(TWO_53 - 1, 53);
    Quotient((TWO_53 - 1) as real, Pow2(53));
    assert q == 32.0 * Pow2(53);
    assert d * q == 32.0 * (d * Pow2(53));
    assert y * q == 49.0 * (f * q);
    CloserScaled(p, d, y, q);
    assert p * q < q;
    if p >= 1.0 {
      PositiveProduct(p - 1.0, q);
      Distribute(p, 1.0, q);
    }
  }

  /** The failure is real: a process holding the one byte that a 49-byte pool leaves above its reserve
      gets a valid receipt, and every correctly rounding machine then refuses to apply it. */
  lemma FullPoolFails(fl: real -> real, down: real -> real)
    requires IsArithmetic(fl, down)
    ensures var x := Inputs("auto", 49, 49, 49, 48, 1, 1, None);
            && Compute(x).Ok? && Sensible(Compute(x).value)
            && Applied(fl, fl(Share(Compute(x).value)), 49) < Compute(x).value.baseline
  {
    var x := Inputs("auto", 49, 49, 49, 48, 1, 1, None);
    assert x.phase in PHASES by {
      assert PHASES[4] == "auto";
    }
    var r := Compute(x).value;
    var share := Share(r);
    ShareTimes(r);
    var f, total := fl(share), fl(49 as real);
    assert IsRounded(share, f) && IsRounded(49 as real, total);
    ExactIntStays(49, total);
    RoundedShare(share, f);
    var y := Times(f, total);
    assert IsRounded(y, fl(y));
    RoundedProduct(f, y, fl(y));
  }
}
