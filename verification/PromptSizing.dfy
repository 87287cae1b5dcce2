/**
 Building a prompt of an exact token count from a server's tokenizer: repeat a unit, then search for
 the number of fillers that makes the count come out.
 */
module PromptSizing {
  import opened Wrappers

  /** The server's count of a prompt; `None` where the request fails or has no count. */
  type Tokenizer = string -> Option<nat>

  /** The fixed text around the search. */
  datatype Frame = Frame(marker: string, unit: string, filler: string, suffix: string)

  datatype Sized = Exact(prompt: string) | Estimated(prompt: string) | ProbeError

  function Repeat(s: string, n: nat): string {
    if n == 0 then "" else Repeat(s, n - 1) + s
  }

  function Body(f: Frame, repetitions: nat): string { f.marker + " " + Repeat(f.unit, repetitions) }

  /** A body with some fillers, and the suffix that ends every prompt. */
  function Candidate(f: Frame, body: string, padding: nat): string { body + Repeat(f.filler, padding) + f.suffix }

  function Base(f: Frame, repetitions: nat): string { Body(f, repetitions) + f.suffix }

  lemma NoFillerIsBase(f: Frame, repetitions: nat)
    ensures Candidate(f, Body(f, repetitions), 0) == Base(f, repetitions)
  {
    assert Body(f, repetitions) + "" == Body(f, repetitions);
  }

  /** A repeated text, copy by copy. */
  lemma {:induction false} RepeatExact(s: string, n: nat, i: nat)
    requires i < n
    ensures |Repeat(s, n)| == n * |s| && 0 <= i * |s| <= (i + 1) * |s| <= n * |s|
    ensures Repeat(s, n)[i * |s|..(i + 1) * |s|] == s
  {
    RepeatLength(s, n - 1);
    Scaled(i, n - 1, |s|);
    if i < n - 1 {
      RepeatExact(s, n - 1, i);
      Scaled(i + 1, n - 1, |s|);
      assert Repeat(s, n)[i * |s|..(i + 1) * |s|] == Repeat(s, n - 1)[i * |s|..(i + 1) * |s|];
    }
  }

  lemma {:induction false} RepeatLength(s: string, n: nat)
    ensures |Repeat(s, n)| == n * |s|
  {
    if n > 0 {
      RepeatLength(s, n - 1);
    }
  }

  lemma Scaled(i: nat, j: nat, k: nat)
    requires i <= j
    ensures 0 <= i * k <= j * k && (i + 1) * k == i * k + k
  {
    assert j * k == i * k + (j - i) * k;
  }

  /** The marker, units, fillers, and the suffix. */
  ghost predicate IsPrompt(f: Frame, prompt: string) {
    exists r: nat, p: nat :: prompt == f.marker + " " + Repeat(f.unit, r) + Repeat(f.filler, p) + f.suffix
  }

  lemma CandidateIsPrompt(f: Frame, r: nat, p: nat)
    ensures IsPrompt(f, Candidate(f, Body(f, r), p)) && IsPrompt(f, Base(f, r))
  {
    NoFillerIsBase(f, r);
    assert Repeat(f.filler, 0) == "";
    assert Base(f, r) == f.marker + " " + Repeat(f.unit, r) + Repeat(f.filler, 0) + f.suffix;
  }

  // ------------------------------------------------------------ the tokenizers the search is built for

  /** Each filler adds no token or one, and counting never fails. */
  ghost predicate UnitSteps(count: Tokenizer, f: Frame, body: string) {
    && (forall p: nat :: count(Candidate(f, body, p)).Some?)
    && (forall p: nat :: var here, next := count(Candidate(f, body, p)).value, count(Candidate(f, body, p + 1)).value;
          here <= next <= here + 1)
  }

  predicate CountIs(count: Tokenizer, prompt: string, n: nat) { count(prompt) == Some(n) }

  predicate CountBelow(count: Tokenizer, prompt: string, n: nat) { count(prompt).Some? && count(prompt).value < n }

  predicate CountAbove(count: Tokenizer, prompt: string, n: nat) { count(prompt).Some? && count(prompt).value > n }

  /** Each filler adds exactly one token. */
  ghost predicate ExactSteps(count: Tokenizer, f: Frame, body: string) {
    && (forall p: nat :: count(Candidate(f, body, p)).Some?)
    && (forall p: nat :: count(Candidate(f, body, p + 1)).value == count(Candidate(f, body, p)).value + 1)
  }

  lemma {:induction false} ExactStepsAdd(count: Tokenizer, f: Frame, body: string, p: nat)
    requires ExactSteps(count, f, body)
    ensures count(Candidate(f, body, p)).value == count(Candidate(f, body, 0)).value + p
  {
    if p > 0 {
      ExactStepsAdd(count, f, body, p - 1);
      assert count(Candidate(f, body, (p - 1) + 1)).value == count(Candidate(f, body, p - 1)).value + 1;
    }
  }

  // ------------------------------------------------------------ the search, as functions

  /** `Failed` is a count the server would not give. */
  datatype Found = Found(padding: nat) | NotFound | Failed

  /** The repetitions left when the base is shortened until it is not too long; `None` if a count fails. */
  function ShrinkFrom(count: Tokenizer, f: Frame, n: nat, target: nat): Option<nat> {
    if n == 0 then Some(0)
    else
      match count(Base(f, n))
      case None => None
      case Some(tokens) => if tokens <= target then Some(n) else ShrinkFrom(count, f, n - 1, target)
  }

  function Limit(target: nat): nat { target * 4 + 1024 }

  /** The first of `high`, twice `high` and so on at which the prompt is long enough. */
  function Reach(count: Tokenizer, f: Frame, body: string, high: nat, target: nat): Found
    requires high > 0
    decreases Limit(target) - high
  {
    match count(Candidate(f, body, high))
    case None => Failed
    case Some(tokens) =>
      if tokens >= target then Found(high)
      else if high * 2 > Limit(target) then NotFound
      else Reach(count, f, body, high * 2, target)
  }

  /** How a binary search ends: at an exact size, with bounds that have crossed, or at a failed count. */
  datatype End = Hit(padding: nat) | Miss(low: nat, high: int) | Lost

  function Bisect(count: Tokenizer, f: Frame, body: string, low: nat, high: int, target: nat): End
    requires high >= -1
    decreases high - low
  {
    if low > high then Miss(low, high)
    else
      var middle := (low + high) / 2;
      match count(Candidate(f, body, middle))
      case None => Lost
      case Some(tokens) =>
        if tokens == target then Hit(middle)
        else if tokens < target then Bisect(count, f, body, middle + 1, high, target)
        else Bisect(count, f, body, low, middle - 1, target)
  }

  /** The first exact size in a window. */
  function FirstIn(count: Tokenizer, f: Frame, body: string, from: nat, to: nat, target: nat): Found
    decreases if from < to then to - from else 0
  {
    if from >= to then NotFound
    else
      match count(Candidate(f, body, from))
      case None => Failed
      case Some(tokens) => if tokens == target then Found(from) else FirstIn(count, f, body, from + 1, to, target)
  }

  function StartPadding(base: nat, target: nat): nat {
    if (target - base) * 2 + 16 > 32 then (target - base) * 2 + 16 else 32
  }

  /** From a body whose base is not yet exact. */
  function PadOut(count: Tokenizer, f: Frame, body: string, base: nat, target: nat): Sized {
    match Reach(count, f, body, StartPadding(base, target), target)
    case Found(top) =>
      (match Bisect(count, f, body, 0, top, target)
       case Hit(padding) => Exact(Candidate(f, body, padding))
       case Lost => ProbeError
       case Miss(low, high) =>
         var found := FirstIn(count, f, body, if high > 64 then high - 64 else 0, low + 65, target);
         if found.Found? then Exact(Candidate(f, body, found.padding)) else ProbeError)
    case _ => ProbeError
  }

  /** The repetitions to start from: what fits at the price of one unit; `None` if the envelope does not fit
      or the unit adds nothing. */
  function Fitting(count: Tokenizer, f: Frame, target: nat): Option<nat> {
    var seed, longer := count(f.marker + f.suffix), count(f.marker + f.suffix + " " + f.unit);
    if seed.None? || seed.value > target || longer.None? || longer.value <= seed.value then None
    else Some((target - seed.value) / (longer.value - seed.value))
  }

  function Sizing(count: Tokenizer, f: Frame, target: nat): Sized {
    match Fitting(count, f, target)
    case None => ProbeError
    case Some(n) =>
      match ShrinkFrom(count, f, n, target)
      case None => ProbeError
      case Some(repetitions) =>
        match count(Base(f, repetitions))
        case None => ProbeError
        case Some(base) =>
          if base == target then Exact(Base(f, repetitions)) else PadOut(count, f, Body(f, repetitions), base, target)
  }

  // ------------------------------------------------------------ what it finds

  /** The most repetitions up to `n` whose base is not too long, or none. */
  ghost predicate IsLargest(count: Tokenizer, f: Frame, n: nat, target: nat, r: nat) {
    && r <= n
    && (r > 0 ==> count(Base(f, r)).Some? && !CountAbove(count, Base(f, r), target))
    && forall s :: r < s <= n ==> CountAbove(count, Base(f, s), target)
  }

  lemma {:induction false} ShrinkExact(count: Tokenizer, f: Frame, n: nat, target: nat, r: nat)
    ensures ShrinkFrom(count, f, n, target) == Some(r) <==> IsLargest(count, f, n, target, r)
  {
    if n > 0 {
      ShrinkExact(count, f, n - 1, target, r);
    }
  }

  function Doubled(start: nat, i: nat): nat { if i == 0 then start else 2 * Doubled(start, i - 1) }

  lemma {:induction false} DoubledShift(start: nat, i: nat)
    ensures Doubled(start * 2, i) == Doubled(start, i + 1)
  {
    if i > 0 {
      DoubledShift(start, i - 1);
    }
  }

  /** `high` is the first doubling of the start that is long enough, and within the limit unless it is the
      start itself. */
  ghost predicate IsBracket(count: Tokenizer, f: Frame, body: string, start: nat, target: nat, high: nat, i: nat) {
    && high == Doubled(start, i) && (i > 0 ==> high <= Limit(target))
    && count(Candidate(f, body, high)).Some? && !CountBelow(count, Candidate(f, body, high), target)
    && forall j: nat :: j < i ==> CountBelow(count, Candidate(f, body, Doubled(start, j)), target)
  }

  /** Doubling ends with a bracket exactly when there is one. */
  lemma {:induction false} ReachExact(count: Tokenizer, f: Frame, body: string, start: nat, target: nat, high: nat)
    requires start > 0
    ensures Reach(count, f, body, start, target) == Found(high) <==>
              exists i: nat :: IsBracket(count, f, body, start, target, high, i)
    decreases Limit(target) - start
  {
    var here := Candidate(f, body, start);
    assert Doubled(start, 0) == start;
    if CountBelow(count, here, target) && start * 2 <= Limit(target) {
      ReachExact(count, f, body, start * 2, target, high);
      BracketShift(count, f, body, start, target, high);
    } else if CountBelow(count, here, target) {
      forall i: nat ensures !IsBracket(count, f, body, start, target, high, i) {
        DoubledGrows(start, i);
      }
    } else if count(here).Some? {
      assert IsBracket(count, f, body, start, target, start, 0);
      forall i: nat | IsBracket(count, f, body, start, target, high, i) ensures high == start {
        FirstIsBracket(count, f, body, start, target, high, i);
      }
    } else {
      forall i: nat ensures !IsBracket(count, f, body, start, target, high, i) {
        if i > 0 && IsBracket(count, f, body, start, target, high, i) {
          FirstIsBracket(count, f, body, start, target, high, i);
        }
      }
    }
  }

  lemma {:induction false} DoubledGrows(start: nat, i: nat)
    requires start > 0
    ensures Doubled(start, i) >= start && (i > 0 ==> Doubled(start, i) >= start * 2)
  {
    if i > 0 {
      DoubledGrows(start, i - 1);
    }
  }

  lemma FirstIsBracket(count: Tokenizer, f: Frame, body: string, start: nat, target: nat, high: nat, i: nat)
    requires IsBracket(count, f, body, start, target, high, i) && !CountBelow(count, Candidate(f, body, start), target)
    ensures i == 0 && high == start
  {
    assert Doubled(start, 0) == start;
    assert !CountBelow(count, Candidate(f, body, Doubled(start, 0)), target);
  }

  /** A bracket of a start that is too short is a bracket of its double. */
  lemma BracketShift(count: Tokenizer, f: Frame, body: string, start: nat, target: nat, high: nat)
    requires start > 0 && CountBelow(count, Candidate(f, body, start), target) && start * 2 <= Limit(target)
    ensures (exists i: nat :: IsBracket(count, f, body, start, target, high, i)) <==>
            exists i: nat :: IsBracket(count, f, body, start * 2, target, high, i)
  {
    if i: nat :| IsBracket(count, f, body, start, target, high, i) {
      assert Doubled(start, 0) == start;
      assert i > 0;
      forall j: nat | j <= i - 1 ensures Doubled(start * 2, j) == Doubled(start, j + 1) {
        DoubledShift(start, j);
      }
      assert IsBracket(count, f, body, start * 2, target, high, i - 1);
    }
    if i: nat :| IsBracket(count, f, body, start * 2, target, high, i) {
      forall j: nat | j <= i ensures Doubled(start * 2, j) == Doubled(start, j + 1) {
        DoubledShift(start, j);
      }
      assert Doubled(start * 2, 0) == start * 2;
      forall j: nat | j < i + 1 ensures CountBelow(count, Candidate(f, body, Doubled(start, j)), target) {
        if j > 0 {
          assert Doubled(start * 2, j - 1) == Doubled(start, j);
        }
      }
      assert IsBracket(count, f, body, start, target, high, i + 1);
    }
  }

  /** With unit steps counts never fall. */
  lemma {:induction false} CountsRise(count: Tokenizer, f: Frame, body: string, p: nat, q: nat)
    requires UnitSteps(count, f, body) && p <= q
    ensures count(Candidate(f, body, p)).value <= count(Candidate(f, body, q)).value
  {
    if p < q {
      CountsRise(count, f, body, p, q - 1);
      assert count(Candidate(f, body, (q - 1) + 1)).value >= count(Candidate(f, body, q - 1)).value;
    }
  }

  /** And between a prompt too short and one long enough there is an exact one. */
  lemma {:induction false} ExactBetween(count: Tokenizer, f: Frame, body: string, top: nat, target: nat) returns (e: nat)
    requires UnitSteps(count, f, body) && CountBelow(count, Candidate(f, body, 0), target)
    requires !CountBelow(count, Candidate(f, body, top), target)
    ensures e <= top && CountIs(count, Candidate(f, body, e), target)
  {
    assert count(Candidate(f, body, top)).Some? && top > 0;
    if CountBelow(count, Candidate(f, body, top - 1), target) {
      assert count(Candidate(f, body, (top - 1) + 1)).value <= count(Candidate(f, body, top - 1)).value + 1;
      e := top;
    } else {
      e := ExactBetween(count, f, body, top - 1, target);
    }
  }

  /** A search around an exact size ends at one. */
  lemma {:induction false} BisectHits(count: Tokenizer, f: Frame, body: string, low: nat, high: int, target: nat, e: nat)
    requires UnitSteps(count, f, body) && low <= e <= high && CountIs(count, Candidate(f, body, e), target)
    ensures Bisect(count, f, body, low, high, target).Hit?
    decreases high - low
  {
    var middle := (low + high) / 2;
    var tokens := count(Candidate(f, body, middle)).value;
    if tokens < target {
      if e <= middle {
        CountsRise(count, f, body, e, middle);
      }
      BisectHits(count, f, body, middle + 1, high, target, e);
    } else if tokens > target {
      if middle <= e {
        CountsRise(count, f, body, middle, e);
      }
      BisectHits(count, f, body, low, middle - 1, target, e);
    }
  }

  lemma {:induction false} BisectSound(count: Tokenizer, f: Frame, body: string, low: nat, high: int, target: nat)
    requires -1 <= high
    ensures var e := Bisect(count, f, body, low, high, target);
            e.Hit? ==> low <= e.padding <= high && CountIs(count, Candidate(f, body, e.padding), target)
    decreases high - low
  {
    if low <= high {
      var middle := (low + high) / 2;
      BisectSound(count, f, body, middle + 1, high, target);
      BisectSound(count, f, body, low, middle - 1, target);
    }
  }

  /** The scan finds the first exact size of its window, if the window has one and no count fails before. */
  lemma {:induction false} FirstInExact(count: Tokenizer, f: Frame, body: string, from: nat, to: nat, target: nat, p: nat)
    ensures FirstIn(count, f, body, from, to, target) == Found(p) <==>
              && from <= p < to && CountIs(count, Candidate(f, body, p), target)
              && (forall q :: from <= q < p ==> count(Candidate(f, body, q)).Some? && !CountIs(count, Candidate(f, body, q), target))
    decreases if from < to then to - from else 0
  {
    if from < to {
      FirstInExact(count, f, body, from + 1, to, target, p);
    }
  }

  lemma {:induction false} FirstInFinds(count: Tokenizer, f: Frame, body: string, from: nat, to: nat, target: nat)
    requires forall q :: from <= q < to ==> count(Candidate(f, body, q)).Some?
    ensures FirstIn(count, f, body, from, to, target).Found? <==>
              (exists p :: from <= p < to && CountIs(count, Candidate(f, body, p), target))
    decreases if from < to then to - from else 0
  {
    if from < to {
      FirstInFinds(count, f, body, from + 1, to, target);
    }
  }

  // ------------------------------------------------------------ the whole, in terms of the tokenizer

  /** The envelope and one unit have counts, the envelope fits, the unit adds tokens, and `r` is the most
      repetitions that fit at that price without making the base too long. */
  ghost predicate StartsAt(count: Tokenizer, f: Frame, target: nat, r: nat) {
    var seed, longer := count(f.marker + f.suffix), count(f.marker + f.suffix + " " + f.unit);
    && seed.Some? && seed.value <= target && longer.Some? && seed.value < longer.value
    && IsLargest(count, f, (target - seed.value) / (longer.value - seed.value), target, r)
  }

  /** Every reported prompt has exactly the target count, whatever the tokenizer. */
  lemma SizingSound(count: Tokenizer, f: Frame, target: nat)
    ensures var r := Sizing(count, f, target); (r.Exact? ==> CountIs(count, r.prompt, target) && IsPrompt(f, r.prompt)) && !r.Estimated?
  {
    forall r: nat, p: nat ensures IsPrompt(f, Candidate(f, Body(f, r), p)) && IsPrompt(f, Base(f, r)) {
      CandidateIsPrompt(f, r, p);
    }
    forall body, top: nat, p | Bisect(count, f, body, 0, top, target) == Hit(p)
      ensures CountIs(count, Candidate(f, body, p), target)
    {
      BisectSound(count, f, body, 0, top, target);
    }
    forall body, from: nat, to: nat, p | FirstIn(count, f, body, from, to, target) == Found(p)
      ensures CountIs(count, Candidate(f, body, p), target)
    {
      FirstInExact(count, f, body, from, to, target, p);
    }
  }

  /** Without such a start nothing is reported; with one whose base is exact, the base is. */
  lemma {:induction false} StartDecides(count: Tokenizer, f: Frame, target: nat)
    ensures (forall r: nat :: !StartsAt(count, f, target, r)) ==> Sizing(count, f, target) == ProbeError
    ensures forall r: nat :: StartsAt(count, f, target, r) && CountIs(count, Base(f, r), target) ==>
              Sizing(count, f, target) == Exact(Base(f, r))
    ensures forall r: nat :: StartsAt(count, f, target, r) && count(Base(f, r)).Some? && !CountIs(count, Base(f, r), target) ==>
              Sizing(count, f, target) == PadOut(count, f, Body(f, r), count(Base(f, r)).value, target)
  {
    var n := Fitting(count, f, target);
    if n.Some? {
      forall r: nat ensures ShrinkFrom(count, f, n.value, target) == Some(r) <==> StartsAt(count, f, target, r) {
        ShrinkExact(count, f, n.value, target, r);
      }
    }
  }

  /** With one token to a filler and a base too short, the exact prompt is found: as many fillers as tokens
      are missing. */
  lemma ExactStepsSuffice(count: Tokenizer, f: Frame, target: nat, r: nat)
    requires StartsAt(count, f, target, r) && CountBelow(count, Base(f, r), target) && ExactSteps(count, f, Body(f, r))
    ensures Sizing(count, f, target) == Exact(Candidate(f, Body(f, r), target - count(Base(f, r)).value))
  {
    var body, base := Body(f, r), count(Base(f, r)).value;
    NoFillerIsBase(f, r);
    StartDecides(count, f, target);
    assert ExactCount(count, f, body, base) by {
      forall p: nat ensures count(Candidate(f, body, p)) == Some(base + p) {
        ExactStepsAdd(count, f, body, p);
      }
    }
    PadOutExactSteps(count, f, body, base, target);
  }

  lemma PadOutExactSteps(count: Tokenizer, f: Frame, body: string, base: nat, target: nat)
    requires ExactCount(count, f, body, base) && base < target
    ensures PadOut(count, f, body, base, target) == Exact(Candidate(f, body, target - base))
  {
    var start := StartPadding(base, target);
    assert count(Candidate(f, body, start)) == Some(base + start);
    BisectExactSteps(count, f, body, base, 0, start, target);
  }

  ghost predicate ExactCount(count: Tokenizer, f: Frame, body: string, base: nat) {
    forall p: nat :: count(Candidate(f, body, p)) == Some(base + p)
  }

  lemma {:induction false} BisectExactSteps(count: Tokenizer, f: Frame, body: string, base: nat, low: nat, high: int, target: nat)
    requires ExactCount(count, f, body, base) && low <= target - base <= high
    ensures Bisect(count, f, body, low, high, target) == Hit(target - base)
    decreases high - low
  {
    var middle := (low + high) / 2;
    assert count(Candidate(f, body, middle)) == Some(base + middle);
    if middle < target - base {
      BisectExactSteps(count, f, body, base, middle + 1, high, target);
    } else if middle > target - base {
      BisectExactSteps(count, f, body, base, low, middle - 1, target);
    }
  }

  /** With no or one token to a filler and a base too short, an exact prompt is found whenever some doubling
      of the first guess within the limit is long enough. */
  lemma {:induction false} UnitStepsSuffice(count: Tokenizer, f: Frame, target: nat, r: nat, i: nat)
    requires StartsAt(count, f, target, r) && CountBelow(count, Base(f, r), target) && UnitSteps(count, f, Body(f, r))
    requires var high := Doubled(StartPadding(count(Base(f, r)).value, target), i);
             (i > 0 ==> high <= Limit(target)) && !CountBelow(count, Candidate(f, Body(f, r), high), target)
    ensures Sizing(count, f, target).Exact?
  {
    var body, base := Body(f, r), count(Base(f, r)).value;
    var start := StartPadding(base, target);
    NoFillerIsBase(f, r);
    StartDecides(count, f, target);
    var k := FirstLongEnough(count, f, body, start, target, i);
    ReachExact(count, f, body, start, target, Doubled(start, k));
    TopHits(count, f, body, Doubled(start, k), target);
  }

  lemma {:induction false} FirstLongEnough(count: Tokenizer, f: Frame, body: string, start: nat, target: nat, i: nat) returns (k: nat)
    requires start > 0 && UnitSteps(count, f, body) && (i > 0 ==> Doubled(start, i) <= Limit(target))
    requires !CountBelow(count, Candidate(f, body, Doubled(start, i)), target)
    ensures k <= i && IsBracket(count, f, body, start, target, Doubled(start, k), k)
  {
    if j: nat :| j < i && !CountBelow(count, Candidate(f, body, Doubled(start, j)), target) {
      DoubledMonotone(start, j, i);
      k := FirstLongEnough(count, f, body, start, target, j);
    } else {
      k := i;
    }
  }

  lemma {:induction false} DoubledMonotone(start: nat, j: nat, i: nat)
    requires j <= i
    ensures Doubled(start, j) <= Doubled(start, i)
  {
    if j < i {
      DoubledMonotone(start, j, i - 1);
    }
  }

  lemma {:induction false} TopHits(count: Tokenizer, f: Frame, body: string, top: nat, target: nat)
    requires UnitSteps(count, f, body) && CountBelow(count, Candidate(f, body, 0), target)
    requires !CountBelow(count, Candidate(f, body, top), target)
    ensures Bisect(count, f, body, 0, top, target).Hit?
  {
    var e := ExactBetween(count, f, body, top, target);
    BisectHits(count, f, body, 0, top, target, e);
  }

  /** Where the search ends without an exact size, every size around its end is tried: a prompt is reported
      exactly when one of them is exact. */
  lemma {:induction false} ScanDecides(count: Tokenizer, f: Frame, target: nat, r: nat, top: nat, low: nat, high: int)
    requires StartsAt(count, f, target, r) && count(Base(f, r)).Some? && !CountIs(count, Base(f, r), target)
    requires Reach(count, f, Body(f, r), StartPadding(count(Base(f, r)).value, target), target) == Found(top)
    requires Bisect(count, f, Body(f, r), 0, top, target) == Miss(low, high)
    requires forall p: nat :: count(Candidate(f, Body(f, r), p)).Some?
    ensures Sizing(count, f, target).Exact? <==>
              exists p: nat :: high - 64 <= p <= low + 64 && CountIs(count, Candidate(f, Body(f, r), p), target)
  {
    StartDecides(count, f, target);
    FirstInFinds(count, f, Body(f, r), if high > 64 then high - 64 else 0, low + 65, target);
  }

  // ------------------------------------------------------------ the loops

  /** Fewer repetitions while the base is too long. */
  method Shrink(count: Tokenizer, f: Frame, start: nat, target: nat) returns (repetitions: Option<nat>)
    ensures repetitions == ShrinkFrom(count, f, start, target)
  {
    var left := start;
    while left > 0
      invariant ShrinkFrom(count, f, start, target) == ShrinkFrom(count, f, left, target)
    {
      var n := count(Base(f, left));
      if n.None? {
        return None;
      }
      if n.value <= target {
        break;
      }
      left := left - 1;
    }
    return Some(left);
  }

  /** Doubles the number of fillers until the prompt is long enough, up to a limit. */
  method Bracket(count: Tokenizer, f: Frame, body: string, start: nat, target: nat) returns (r: Found)
    requires start > 0
    ensures r == Reach(count, f, body, start, target)
  {
    var high := start;
    while true
      invariant high > 0 && Reach(count, f, body, start, target) == Reach(count, f, body, high, target)
      decreases Limit(target) - high
    {
      var n := count(Candidate(f, body, high));
      if n.None? {
        return Failed;
      }
      if n.value >= target {
        return Found(high);
      }
      high := high * 2;
      if high > target * 4 + 1024 {
        return NotFound;
      }
    }
  }

  /** Binary search over the number of fillers. */
  method Search(count: Tokenizer, f: Frame, body: string, top: nat, target: nat) returns (r: End)
    ensures r == Bisect(count, f, body, 0, top, target)
  {
    var low: nat, high: int := 0, top;
    while low <= high
      invariant -1 <= high && Bisect(count, f, body, 0, top, target) == Bisect(count, f, body, low, high, target)
      decreases high - low
    {
      var middle := (low + high) / 2;
      var n := count(Candidate(f, body, middle));
      if n.None? {
        return Lost;
      }
      if n.value == target {
        return Hit(middle);
      }
      if n.value < target {
        low := middle + 1;
      } else {
        high := middle - 1;
      }
    }
    return Miss(low, high);
  }

  /** The scan around the end of the search. */
  method Scan(count: Tokenizer, f: Frame, body: string, from: nat, to: nat, target: nat) returns (r: Found)
    ensures r == FirstIn(count, f, body, from, to, target)
  {
    var padding := from;
    while padding < to
      invariant FirstIn(count, f, body, from, to, target) == FirstIn(count, f, body, padding, to, target)
    {
      var n := count(Candidate(f, body, padding));
      if n.None? {
        return Failed;
      }
      if n.value == target {
        return Found(padding);
      }
      padding := padding + 1;
    }
    return NotFound;
  }

  /** The sizing proper, without the estimate. */
  method SizeExactly(count: Tokenizer, f: Frame, target: nat) returns (r: Sized)
    ensures r == Sizing(count, f, target)
  {
    var seedTokens := count(f.marker + f.suffix);
    if seedTokens.None? || seedTokens.value > target {
      return ProbeError;
    }
    var withUnit := count(f.marker + f.suffix + " " + f.unit);
    if withUnit.None? || withUnit.value <= seedTokens.value {
      return ProbeError;
    }
    var repetitions := Shrink(count, f, (target - seedTokens.value) / (withUnit.value - seedTokens.value), target);
    if repetitions.None? {
      return ProbeError;
    }
    var body := Body(f, repetitions.value);
    var base := count(Base(f, repetitions.value));
    if base.None? {
      return ProbeError;
    }
    if base.value == target {
      return Exact(Base(f, repetitions.value));
    }
    var wanted := (target - base.value) * 2 + 16;
    var top := Bracket(count, f, body, if wanted > 32 then wanted else 32, target);
    if !top.Found? {
      return ProbeError;
    }
    var end := Search(count, f, body, top.padding, target);
    if end.Lost? {
      return ProbeError;
    }
    if end.Hit? {
      return Exact(Candidate(f, body, end.padding));
    }
    var found := Scan(count, f, body, if end.high > 64 then end.high - 64 else 0, end.low + 65, target);
    return if found.Found? then Exact(Candidate(f, body, found.padding)) else ProbeError;
  }

  function Estimate(f: Frame, target: nat): string {
    var text := Body(f, target + 1);
    (if target * 4 < |text| then text[..target * 4] else text) + f.suffix
  }

  /** The estimate: four characters to a token of a long enough body, then the suffix. */
  lemma {:induction false} EstimateExact(f: Frame, target: nat)
    requires |f.unit| >= 4
    ensures exists body ::
              && Estimate(f, target) == body + f.suffix && |body| == 4 * target
              && body <= f.marker + " " + Repeat(f.unit, target + 1)
  {
    RepeatLength(f.unit, target + 1);
    assert (target + 1) * |f.unit| >= (target + 1) * 4 by {
      assert (target + 1) * |f.unit| == (target + 1) * 4 + (target + 1) * (|f.unit| - 4);
    }
    var text := Body(f, target + 1);
    assert text[..target * 4] <= text;
    assert Estimate(f, target) == text[..target * 4] + f.suffix;
  }

  /** The whole: an exact prompt, or an estimate where that is allowed. */
  method SizePrompt(count: Tokenizer, f: Frame, target: int, allowEstimated: bool) returns (r: Sized)
    ensures target <= 0 ==> r == ProbeError
    ensures target > 0 ==>
              r == if Sizing(count, f, target).Exact? then Sizing(count, f, target)
                   else if allowEstimated then Estimated(Estimate(f, target)) else ProbeError
    ensures r.Exact? ==> target > 0 && CountIs(count, r.prompt, target) && IsPrompt(f, r.prompt)
  {
    if target <= 0 {
      return ProbeError;
    }
    SizingSound(count, f, target);
    r := SizeExactly(count, f, target);
    if r.ProbeError? && allowEstimated {
      r := Estimated(Estimate(f, target));
    }
  }
}
