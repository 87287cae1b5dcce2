/**
 The guard that forbids kernel compilation while CUDA graphs are captured: a context
 manager around code that compiles, raises, and opens further guards.
 */
module FreezeGuard {
  import opened Wrappers
  import opened OrderedTable
  import opened CompileCache

  /** The code a guard can surround. `Attempt` swallows whatever its body raises. */
  datatype Body =
    | Pass
    | Raise
    | CompileKernel(r: Request)
    | Both(first: Body, second: Body)
    | Attempt(tried: Body)
    | Guarded(guarded: Body)

  /** A compile as it was observed: how many guards were open, whether resolution was frozen when it
      began and when it ended, whether the backend was called, and what came of it. */
  datatype Event = Event(r: Request, depth: nat, frozenBefore: bool, frozenAfter: bool, backend: bool, outcome: Outcome)

  /** What the guard promises about everything that happens inside it. */
  predicate Respects(enabled: bool, e: Event) {
    && (enabled && e.depth > 0 ==> e.frozenBefore && e.frozenAfter)
    && (e.frozenBefore ==> !e.backend)
  }

  datatype Trace = Trace(caches: Caches, raised: bool, events: seq<Event>)

  /** What running a body means, given the depth of open guards. `enabled` is the prewarm switch
      together with the runtime-control functions being importable. */
  function Meaning(w: Setup, enabled: bool, b: Body, depth: nat, c: Caches): Trace {
    match b
    case Pass => Trace(c, false, [])
    case Raise => Trace(c, true, [])
    case CompileKernel(r) =>
      var e := CompileStep(w, c, r);
      Trace(e.caches, !e.outcome.Returned?, [Event(r, depth, c.frozen, e.caches.frozen, e.backendCalled, e.outcome)])
    case Both(first, second) =>
      var t1 := Meaning(w, enabled, first, depth, c);
      if t1.raised then t1
      else
        var t2 := Meaning(w, enabled, second, depth, t1.caches);
        Trace(t2.caches, t2.raised, t1.events + t2.events)
    case Attempt(tried) => Meaning(w, enabled, tried, depth, c).(raised := false)
    case Guarded(guarded) =>
      if !enabled || c.frozen then Meaning(w, enabled, guarded, depth + 1, c)
      else
        var t := Meaning(w, enabled, guarded, depth + 1, c.(frozen := true));
        t.(caches := t.caches.(frozen := false))
  }

  /** Over every tree of guards, however it is left: the frozen flag on exit is the flag on entry,
      every compile under an enabled guard is frozen throughout and reaches no backend, and under a
      frozen entry the disk store does not change. */
  lemma {:induction false} GuardsHold(w: Setup, enabled: bool, b: Body, depth: nat, c: Caches)
    requires enabled && depth > 0 ==> c.frozen
    ensures var t := Meaning(w, enabled, b, depth, c);
            && t.caches.frozen == c.frozen
            && (forall e :: e in t.events ==> Respects(enabled, e))
            && (c.frozen ==> t.caches.disk == c.disk && forall e :: e in t.events ==> !e.backend)
  {
    match b
    case Pass =>
    case Raise =>
    case CompileKernel(r) =>
    case Both(first, second) =>
      GuardsHold(w, enabled, first, depth, c);
      GuardsHold(w, enabled, second, depth, Meaning(w, enabled, first, depth, c).caches);
    case Attempt(tried) => GuardsHold(w, enabled, tried, depth, c);
    case Guarded(guarded) =>
      GuardsHold(w, enabled, guarded, depth + 1, if enabled then c.(frozen := true) else c);
  }

  /** Under an enabled guard the backend plays no part: with any other backend everything that happens,
      every outcome and everything left in the caches is the same. */
  lemma {:induction false} GuardIgnoresBackend(w: Setup, v: Setup, enabled: bool, b: Body, depth: nat, c: Caches)
    requires v == w.(backend := v.backend) && enabled && (c.frozen || b.Guarded?)
    ensures Meaning(w, enabled, b, depth, c) == Meaning(v, enabled, b, depth, c)
    decreases b
  {
    match b
    case Pass =>
    case Raise =>
    case CompileKernel(r) => FrozenIgnoresBackend(w, v, c, r);
    case Both(first, second) =>
      GuardIgnoresBackend(w, v, enabled, first, depth, c);
      GuardsHold(w, enabled, first, depth, c);
      GuardIgnoresBackend(w, v, enabled, second, depth, Meaning(w, enabled, first, depth, c).caches);
    case Attempt(tried) => GuardIgnoresBackend(w, v, enabled, tried, depth, c);
    case Guarded(guarded) => GuardIgnoresBackend(w, v, enabled, guarded, depth + 1, c.(frozen := true));
  }
  /** Raises only if it is told to, or if a compile under it has no program to return. */
  predicate MayRaise(b: Body) {
    match b
    case Pass => false
    case Raise => true
    case CompileKernel(_) => false
    case Both(first, second) => MayRaise(first) || MayRaise(second)
    case Attempt(_) => false
    case Guarded(guarded) => MayRaise(guarded)
  }

  predicate OnlyCompiles(b: Body, known: set<Request>) {
    match b
    case Pass => true
    case Raise => true
    case CompileKernel(r) => r in known
    case Both(first, second) => OnlyCompiles(first, known) && OnlyCompiles(second, known)
    case Attempt(tried) => OnlyCompiles(tried, known)
    case Guarded(guarded) => OnlyCompiles(guarded, known)
  }

  /** On disk in a form that loads back. */
  predicate Prewarmed(w: Setup, c: Caches, known: set<Request>) {
    w.diskOn && forall r :: r in known ==> DiskKeyOf(r) in c.disk && w.keeps(c.disk[DiskKeyOf(r)])
  }

  /** Prewarming suffices: a guarded body that only compiles kernels already on disk never fails for
      being frozen, whatever memory has evicted in the meantime. */
  lemma {:induction false} PrewarmedBodiesRun(w: Setup, enabled: bool, b: Body, depth: nat, c: Caches, known: set<Request>)
    requires Prewarmed(w, c, known) && OnlyCompiles(b, known) && !MayRaise(b)
    ensures var t := Meaning(w, enabled, b, depth, c);
            && !t.raised && Prewarmed(w, t.caches, known) && t.caches.disk == c.disk
            && forall e :: e in t.events ==> !e.backend
  {
    match b
    case Pass =>
    case CompileKernel(r) =>
    case Both(first, second) =>
      PrewarmedBodiesRun(w, enabled, first, depth, c, known);
      PrewarmedBodiesRun(w, enabled, second, depth, Meaning(w, enabled, first, depth, c).caches, known);
    case Attempt(tried) =>
      PrewarmedAttempt(w, enabled, tried, depth, c, known);
    case Guarded(guarded) =>
      PrewarmedBodiesRun(w, enabled, guarded, depth + 1,
                         if !enabled || c.frozen then c else c.(frozen := true), known);
  }

  /** The same for a body that may raise: it still reaches no backend and loses nothing on disk. */
  lemma {:induction false} PrewarmedAttempt(w: Setup, enabled: bool, b: Body, depth: nat, c: Caches, known: set<Request>)
    requires Prewarmed(w, c, known) && OnlyCompiles(b, known)
    ensures var t := Meaning(w, enabled, b, depth, c);
            Prewarmed(w, t.caches, known) && t.caches.disk == c.disk && forall e :: e in t.events ==> !e.backend
  {
    match b
    case Pass =>
    case Raise =>
    case CompileKernel(r) =>
    case Both(first, second) =>
      PrewarmedAttempt(w, enabled, first, depth, c, known);
      PrewarmedAttempt(w, enabled, second, depth, Meaning(w, enabled, first, depth, c).caches, known);
    case Attempt(tried) => PrewarmedAttempt(w, enabled, tried, depth, c, known);
    case Guarded(guarded) =>
      PrewarmedAttempt(w, enabled, guarded, depth + 1,
                       if !enabled || c.frozen then c else c.(frozen := true), known);
  }

  /** What a body compiles, in order, and whether it ends by raising, when every compile succeeds: guards
      play no part. */
  function Course(b: Body): (seq<Request>, bool) {
    match b
    case Pass => ([], false)
    case Raise => ([], true)
    case CompileKernel(r) => ([r], false)
    case Both(first, second) =>
      var (before, raised) := Course(first);
      if raised then (before, true) else (before + Course(second).0, Course(second).1)
    case Attempt(tried) => (Course(tried).0, false)
    case Guarded(guarded) => Course(guarded)
  }

  predicate Follows(t: Trace, course: (seq<Request>, bool)) {
    && t.raised == course.1 && |t.events| == |course.0|
    && forall i :: 0 <= i < |t.events| ==> t.events[i].r == course.0[i] && t.events[i].outcome.Returned?
  }

  /** Guards are invisible to a prewarmed body: it compiles what it would compile anyway, in that order,
      each compile returns a program, and it raises exactly when it is told to. */
  lemma {:induction false} PrewarmedCourse(w: Setup, enabled: bool, b: Body, depth: nat, c: Caches, known: set<Request>)
    requires Prewarmed(w, c, known) && OnlyCompiles(b, known)
    ensures Follows(Meaning(w, enabled, b, depth, c), Course(b))
    decreases b
  {
    match b
    case Pass =>
    case Raise =>
    case CompileKernel(r) =>
    case Both(first, second) =>
      PrewarmedCourse(w, enabled, first, depth, c, known);
      PrewarmedAttempt(w, enabled, first, depth, c, known);
      PrewarmedCourse(w, enabled, second, depth, Meaning(w, enabled, first, depth, c).caches, known);
    case Attempt(tried) => PrewarmedCourse(w, enabled, tried, depth, c, known);
    case Guarded(guarded) =>
      PrewarmedCourse(w, enabled, guarded, depth + 1, if !enabled || c.frozen then c else c.(frozen := true), known);
  }

  /** Runs a body on a compiler, guards opening and closing around it even when it raises. */
  method Execute(k: KernelCompiler, enabled: bool, b: Body, ghost depth: nat)
    returns (raised: bool, ghost events: seq<Event>)
    requires k.Valid()
    modifies k, k.memory
    ensures k.Valid()
    ensures Trace(k.View(), raised, events) == Meaning(k.setup, enabled, b, depth, old(k.View()))
    decreases b
  {
    raised, events := false, [];
    match b
    case Pass =>
    case Raise => raised := true;
    case CompileKernel(r) =>
      ghost var before, calls := k.frozen, |k.backendCalls|;
      var o := k.Compile(r);
      raised := !o.Returned?;
      events := [Event(r, depth, before, k.frozen, |k.backendCalls| > calls, o)];
    case Both(first, second) =>
      raised, events := Execute(k, enabled, first, depth);
      if !raised {
        ghost var more;
        raised, more := Execute(k, enabled, second, depth);
        events := events + more;
      }
    case Attempt(tried) =>
      raised, events := Execute(k, enabled, tried, depth);
      raised := false;
    case Guarded(guarded) =>
      if !enabled || k.frozen {
        raised, events := Execute(k, enabled, guarded, depth + 1);
      } else {
        k.frozen := true;
        raised, events := Execute(k, enabled, guarded, depth + 1);
        k.frozen := false;                     // `finally`: also when the body raised
      }
  }

  // ------------------------------------------------------------ several threads

  /** An open guard of a thread: it found the flag clear and is about to set it, it set it, or it found
      it set. The flag belongs to the process. */
  datatype Guard = Pending | Owner | Guest

  /** The caches with the flag, and the guards each thread has open, innermost last. */
  datatype Crew = Crew(caches: Caches, open: map<nat, seq<Guard>>)

  /** Testing the flag and setting it are two steps; threads interleave between them. */
  datatype Move =
    | Enter(t: nat)
    | Freeze(t: nat)
    | CompileIn(t: nat, r: Request)
    | Leave(t: nat)

  function OpenBy(s: Crew, t: nat): seq<Guard> { if t in s.open then s.open[t] else [] }

  /** The innermost guard of a thread. */
  function Innermost(s: Crew, t: nat): Option<Guard> {
    var g := OpenBy(s, t);
    if g == [] then None else Some(g[|g| - 1])
  }

  /** Any move may be scheduled at any time; one that does not apply changes nothing. */
  function Moved(w: Setup, s: Crew, m: Move): Crew {
    var g, top := OpenBy(s, m.t), Innermost(s, m.t);
    match m
    case Enter(t) =>
      if top == Some(Pending) then s
      else s.(open := s.open[t := g + [if s.caches.frozen then Guest else Pending]])
    case Freeze(t) =>
      if top != Some(Pending) then s
      else Crew(s.caches.(frozen := true), s.open[t := g[..|g| - 1] + [Owner]])
    case CompileIn(t, r) =>
      if top == Some(Pending) then s else s.(caches := CompileStep(w, s.caches, r).caches)
    case Leave(t) =>
      if top.None? || top == Some(Pending) then s
      else Crew(if top == Some(Owner) then s.caches.(frozen := false) else s.caches, s.open[t := g[..|g| - 1]])
  }

  function CrewRun(w: Setup, c: Caches, moves: seq<Move>): Crew {
    if moves == [] then Crew(c, map[])
    else Moved(w, CrewRun(w, c, moves[..|moves| - 1]), moves[|moves| - 1])
  }

  /** The thread runs the body of a guard. */
  predicate Inside(s: Crew, t: nat) {
    exists i :: 0 <= i < |OpenBy(s, t)| && OpenBy(s, t)[i] != Pending
  }

  ghost predicate NobodyInside(s: Crew) {
    forall t: nat :: !Inside(s, t)
  }

  /** Whoever runs the body of a guard finds resolution frozen. */
  ghost predicate BodiesFrozen(s: Crew) {
    NobodyInside(s) || s.caches.frozen
  }

  ghost predicate AlwaysFrozen(w: Setup, c: Caches, moves: seq<Move>) {
    BodiesFrozen(CrewRun(w, c, moves)) && (moves == [] || AlwaysFrozen(w, c, moves[..|moves| - 1]))
  }

  predicate OwnerLeaves(s: Crew, m: Move) { m.Leave? && Innermost(s, m.t) == Some(Owner) }

  /** A guard that set the flag closes only when no other guard is open: the rule for the callers. */
  ghost predicate OwnersOutlive(w: Setup, c: Caches, moves: seq<Move>) {
    moves == [] ||
    (&& OwnersOutlive(w, c, moves[..|moves| - 1])
     && (OwnerLeaves(CrewRun(w, c, moves[..|moves| - 1]), moves[|moves| - 1]) ==> NobodyInside(CrewRun(w, c, moves))))
  }

  /** A move that closes no owner keeps a set flag, and opens bodies only under it. */
  lemma MoveKeepsBodies(w: Setup, s: Crew, m: Move)
    requires BodiesFrozen(s) && !OwnerLeaves(s, m)
    ensures BodiesFrozen(Moved(w, s, m))
  {
    var s' := Moved(w, s, m);
    if !s'.caches.frozen {
      assert !s.caches.frozen;
      forall t: nat ensures !Inside(s', t) {
        assert !Inside(s, t);
        var g, g' := OpenBy(s, t), OpenBy(s', t);
        forall i | 0 <= i < |g'| ensures g'[i] == Pending {
          assert i < |g| ==> g[i] == Pending;
        }
      }
    }
  }

  /** Over every interleaving of guards on any number of threads: every guarded body is frozen to its
      end if and only if the guard that set the flag always outlives the other open guards. */
  lemma {:induction false} OverlapExact(w: Setup, c: Caches, moves: seq<Move>)
    ensures AlwaysFrozen(w, c, moves) <==> OwnersOutlive(w, c, moves)
  {
    if moves != [] {
      var front, m := moves[..|moves| - 1], moves[|moves| - 1];
      OverlapExact(w, c, front);
      var s := CrewRun(w, c, front);
      if BodiesFrozen(s) && !OwnerLeaves(s, m) {
        MoveKeepsBodies(w, s, m);
      }
      if AlwaysFrozen(w, c, front) {
        assert BodiesFrozen(s);
      }
    }
  }

  /** The body of one guard, from any moment at which the flag is set: it stays set through the following
      moves if and only if no guard that set it closes among them. */
  lemma {:induction false} BodyFrozenExact(w: Setup, s: Crew, moves: seq<Move>)
    requires s.caches.frozen
    ensures StaysFrozen(w, s, moves) <==> NoOwnerLeaves(w, s, moves)
    decreases |moves|
  {
    if moves != [] && Moved(w, s, moves[0]).caches.frozen {
      BodyFrozenExact(w, Moved(w, s, moves[0]), moves[1..]);
    }
  }

  predicate StaysFrozen(w: Setup, s: Crew, moves: seq<Move>)
    decreases |moves|
  {
    s.caches.frozen && (moves == [] || StaysFrozen(w, Moved(w, s, moves[0]), moves[1..]))
  }

  predicate NoOwnerLeaves(w: Setup, s: Crew, moves: seq<Move>)
    decreases |moves|
  {
    moves == [] || (!OwnerLeaves(s, moves[0]) && NoOwnerLeaves(w, Moved(w, s, moves[0]), moves[1..]))
  }

  /** So where the rule is kept no guarded compile reaches the backend or depends on it, and the caches
      alone decide what it returns. */
  lemma {:induction false} GuardedCompilesReachNoBackend(w: Setup, c: Caches, moves: seq<Move>, t: nat, r: Request)
    requires OwnersOutlive(w, c, moves) && Inside(CrewRun(w, c, moves), t)
    requires 1 <= w.limit && Distinct(c.memory)
    ensures var now := CrewRun(w, c, moves).caches;
            && now.frozen && !CompileStep(w, now, r).backendCalled
            && (forall p :: CompileStep(w, now, r).outcome == Returned(p) <==> Answers(w, now, r, p))
            && (CompileStep(w, now, r).outcome == FrozenError <==> !InMemory(w, now, r) && !OnDisk(w, now, r))
  {
    OverlapExact(w, c, moves);
    assert BodiesFrozen(CrewRun(w, c, moves));
    RunDistinct(w, c, moves);
    FrozenExact(w, CrewRun(w, c, moves).caches, r);
  }

  lemma {:induction false} RunDistinct(w: Setup, c: Caches, moves: seq<Move>)
    requires 1 <= w.limit && Distinct(c.memory)
    ensures Distinct(CrewRun(w, c, moves).caches.memory)
  {
    if moves != [] {
      RunDistinct(w, c, moves[..|moves| - 1]);
      var m := moves[|moves| - 1];
      if m.CompileIn? {
        StepDistinct(w, CrewRun(w, c, moves[..|moves| - 1]).caches, m.r);
      }
    }
  }

  /** What the crew does from here on. */
  function Onward(w: Setup, s: Crew, moves: seq<Move>): Crew
    decreases |moves|
  {
    if moves == [] then s else Onward(w, Moved(w, s, moves[0]), moves[1..])
  }

  /** From any moment at which the flag is set, until a guard that set it closes, the whole crew would do
      the same with any other backend. */
  lemma {:induction false} BodiesIgnoreBackend(w: Setup, v: Setup, s: Crew, moves: seq<Move>)
    requires v == w.(backend := v.backend) && s.caches.frozen && NoOwnerLeaves(w, s, moves)
    ensures Onward(w, s, moves) == Onward(v, s, moves) && Onward(w, s, moves).caches.frozen
    decreases |moves|
  {
    if moves != [] {
      if moves[0].CompileIn? {
        FrozenIgnoresBackend(w, v, s.caches, moves[0].r);
      }
      BodiesIgnoreBackend(w, v, Moved(w, s, moves[0]), moves[1..]);
    }
  }

  /** The guards of a single thread: at most the outermost one set the flag. */
  predicate Nested(g: seq<Guard>) {
    forall i :: 1 <= i < |g| ==> g[i] == Guest
  }

  /** One thread alone keeps the rule, however its guards nest. */
  lemma {:induction false} OneThreadOutlives(w: Setup, c: Caches, moves: seq<Move>, t: nat)
    requires forall i :: 0 <= i < |moves| ==> moves[i].t == t
    ensures OwnersOutlive(w, c, moves)
    ensures Nested(OpenBy(CrewRun(w, c, moves), t)) && forall u: nat :: u != t ==> OpenBy(CrewRun(w, c, moves), u) == []
  {
    if moves != [] {
      var front := moves[..|moves| - 1];
      OneThreadOutlives(w, c, front, t);
      OverlapExact(w, c, front);
      assert BodiesFrozen(CrewRun(w, c, front));
      OneThreadStep(w, CrewRun(w, c, front), moves[|moves| - 1]);
    }
  }

  lemma OneThreadStep(w: Setup, s: Crew, m: Move)
    requires BodiesFrozen(s) && Nested(OpenBy(s, m.t)) && forall u: nat :: u != m.t ==> OpenBy(s, u) == []
    ensures Nested(OpenBy(Moved(w, s, m), m.t)) && forall u: nat :: u != m.t ==> OpenBy(Moved(w, s, m), u) == []
    ensures OwnerLeaves(s, m) ==> NobodyInside(Moved(w, s, m))
  {
    var g := OpenBy(s, m.t);
    if |g| > 1 {
      assert g[1] != Pending && Inside(s, m.t);
    } else if |g| == 1 && g[0] != Pending {
      assert Inside(s, m.t);
    }
    forall u: nat | u != m.t ensures OpenBy(Moved(w, s, m), u) == [] {
      assert OpenBy(s, u) == [];
    }
  }

  // ------------------------------------------------------------ one thread of the crew

  /** A body that neither raises nor swallows. */
  predicate Straight(b: Body) {
    match b
    case Pass => true
    case Raise => false
    case CompileKernel(_) => true
    case Both(first, second) => Straight(first) && Straight(second)
    case Attempt(_) => false
    case Guarded(guarded) => Straight(guarded)
  }

  /** The moves by which thread `t` runs such a body. */
  function MovesOf(t: nat, b: Body): seq<Move> {
    match b
    case Pass => []
    case Raise => []
    case CompileKernel(r) => [CompileIn(t, r)]
    case Both(first, second) => MovesOf(t, first) + MovesOf(t, second)
    case Attempt(tried) => MovesOf(t, tried)
    case Guarded(guarded) => [Enter(t), Freeze(t)] + MovesOf(t, guarded) + [Leave(t)]
  }

  lemma {:induction false} OnwardBoth(w: Setup, s: Crew, a: seq<Move>, b: seq<Move>)
    ensures Onward(w, s, a + b) == Onward(w, Onward(w, s, a), b)
    decreases |a|
  {
    if a == [] {
      assert a + b == b;
    } else {
      assert (a + b)[0] == a[0] && (a + b)[1..] == a[1..] + b;
      OnwardBoth(w, Moved(w, s, a[0]), a[1..], b);
    }
  }

  lemma {:induction false} OnwardOne(w: Setup, s: Crew, m: Move)
    ensures Onward(w, s, [m]) == Moved(w, s, m)
  {
    assert [m][1..] == [];
  }

  /** A thread of a crew that runs a body alone does what the body means: the same caches are left, and its
      guards are closed again. */
  lemma {:induction false} ThreadRunsBody(w: Setup, b: Body, depth: nat, s: Crew, t: nat)
    requires Straight(b) && !Meaning(w, true, b, depth, s.caches).raised && Innermost(s, t) != Some(Pending)
    ensures var after := Onward(w, s, MovesOf(t, b));
            && after.caches == Meaning(w, true, b, depth, s.caches).caches
            && OpenBy(after, t) == OpenBy(s, t)
    decreases b
  {
    match b
    case Pass =>
    case CompileKernel(r) => OnwardOne(w, s, CompileIn(t, r));
    case Both(first, second) =>
      ThreadRunsBody(w, first, depth, s, t);
      var middle := Onward(w, s, MovesOf(t, first));
      ThreadRunsBody(w, second, depth, middle, t);
      OnwardBoth(w, s, MovesOf(t, first), MovesOf(t, second));
    case Guarded(guarded) =>
      var inside := Entered(w, s, t);
      ThreadRunsBody(w, guarded, depth + 1, inside, t);
      Leaves(w, s, Onward(w, inside, MovesOf(t, guarded)), t);
      GuardMoves(w, s, t, MovesOf(t, guarded));
  }

  function Entered(w: Setup, s: Crew, t: nat): Crew { Moved(w, Moved(w, s, Enter(t)), Freeze(t)) }

  lemma {:induction false} GuardMoves(w: Setup, s: Crew, t: nat, moves: seq<Move>)
    ensures Onward(w, s, [Enter(t), Freeze(t)] + moves + [Leave(t)]) == Moved(w, Onward(w, Entered(w, s, t), moves), Leave(t))
  {
    var both := [Enter(t), Freeze(t)];
    assert both == [Enter(t)] + [Freeze(t)];
    OnwardBoth(w, s, [Enter(t)], [Freeze(t)]);
    OnwardOne(w, s, Enter(t));
    OnwardOne(w, Moved(w, s, Enter(t)), Freeze(t));
    OnwardBoth(w, s, both, moves);
    OnwardBoth(w, s, both + moves, [Leave(t)]);
    OnwardOne(w, Onward(w, s, both + moves), Leave(t));
  }

  /** Entering sets the flag, as owner or as guest, and leaving restores it. */
  lemma Leaves(w: Setup, s: Crew, after: Crew, t: nat)
    requires Innermost(s, t) != Some(Pending)
    requires OpenBy(after, t) == OpenBy(Entered(w, s, t), t)
    ensures Entered(w, s, t).caches == s.caches.(frozen := true) && Innermost(Entered(w, s, t), t) != Some(Pending)
    ensures OpenBy(Moved(w, after, Leave(t)), t) == OpenBy(s, t)
    ensures Moved(w, after, Leave(t)).caches == if s.caches.frozen then after.caches else after.caches.(frozen := false)
  {
    var g := OpenBy(s, t);
    var entered := OpenBy(Entered(w, s, t), t);
    assert entered == g + [if s.caches.frozen then Guest else Owner];
    assert entered[..|entered| - 1] == g;
  }

  /** Two overlapping guards that break it: the second thread runs its guarded body with the flag
      clear. */
  lemma {:induction false} OverlapThaws(w: Setup, c: Caches)
    requires !c.frozen
    ensures var s := CrewRun(w, c, [Enter(0), Freeze(0), Enter(1), Leave(0)]);
            Inside(s, 1) && !s.caches.frozen
  {
    RunStep(w, c, [], [Enter(0)]);
    RunStep(w, c, [Enter(0)], [Enter(0), Freeze(0)]);
    RunStep(w, c, [Enter(0), Freeze(0)], [Enter(0), Freeze(0), Enter(1)]);
    RunStep(w, c, [Enter(0), Freeze(0), Enter(1)], [Enter(0), Freeze(0), Enter(1), Leave(0)]);
    OverlapSteps(w, Crew(c, map[]));
  }

  lemma {:induction false} RunStep(w: Setup, c: Caches, front: seq<Move>, moves: seq<Move>)
    requires moves != [] && front == moves[..|moves| - 1]
    ensures CrewRun(w, c, moves) == Moved(w, CrewRun(w, c, front), moves[|moves| - 1])
  {
  }

  lemma OverlapSteps(w: Setup, s: Crew)
    requires !s.caches.frozen && s.open == map[]
    ensures var thawed := Moved(w, Moved(w, Moved(w, Moved(w, s, Enter(0)), Freeze(0)), Enter(1)), Leave(0));
            Inside(thawed, 1) && !thawed.caches.frozen
  {
    var s1 := Moved(w, s, Enter(0));
    assert OpenBy(s1, 0) == [Pending];
    var s2 := Moved(w, s1, Freeze(0));
    assert OpenBy(s2, 0) == [Owner] && OpenBy(s2, 1) == [];
    var s3 := Moved(w, s2, Enter(1));
    assert OpenBy(s3, 0) == [Owner] && OpenBy(s3, 1) == [Guest];
    assert OpenBy(Moved(w, s3, Leave(0)), 1)[0] != Pending;
  }
}
