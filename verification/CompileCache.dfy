/**
 The kernel compile cache as one thread sees it: a bounded memory table in front of a
 disk store in front of the backend compiler, and the frozen state in which nothing may
 be compiled. Keys are canonical texts; hashing is taken to be collision-free, so a
 hashed payload is represented by the payload.
 */
module CompileCache {
  import opened Wrappers
  import opened OrderedTable

  /** A call of `compile`. `code` fingerprints the target function and `state` the object it is
      bound to; `kwargs` and `args` are their canonical key texts. */
  datatype Request = Request(code: string, state: string, args: string, kwargs: string,
                             spec: Option<string>, options: string)

  /** The in-memory key of an explicit spec leaves the target function out. */
  datatype MemoryKey =
    | ExplicitEntry(spec: string, kwargs: string)
    | StructuralEntry(code: string, state: string, args: string, kwargs: string, options: string)

  datatype DiskKey =
    | ExplicitObject(code: string, spec: string, kwargs: string, options: string)
    | StructuralObject(code: string, state: string, args: string, kwargs: string, options: string)

  datatype Program = Program(image: string)

  /** The fixed environment: cache switches and size, and what the backend does. `keeps` tells
      whether a program survives a dump to disk and a load back. */
  datatype Setup = Setup(memoryOn: bool, diskOn: bool, limit: nat,
                         backend: Request -> Option<Program>, keeps: Program -> bool)

  function MemoryKeyOf(r: Request): MemoryKey {
    match r.spec
    case Some(spec) => ExplicitEntry(spec, r.kwargs)
    case None => StructuralEntry(r.code, r.state, r.args, r.kwargs, r.options)
  }

  function DiskKeyOf(r: Request): DiskKey {
    match r.spec
    case Some(spec) => ExplicitObject(r.code, spec, r.kwargs, r.options)
    case None => StructuralObject(r.code, r.state, r.args, r.kwargs, r.options)
  }

  datatype Outcome = Returned(program: Program) | BackendFailed | FrozenError

  datatype Caches = Caches(memory: Table<MemoryKey, Program>, disk: map<DiskKey, Program>, frozen: bool)

  datatype Effect = Effect(caches: Caches, outcome: Outcome, backendCalled: bool)

  function Remember(w: Setup, memory: Table<MemoryKey, Program>, r: Request, p: Program): Table<MemoryKey, Program> {
    if w.memoryOn then Put(memory, MemoryKeyOf(r), p, w.limit) else memory
  }

  /** One call of `compile`. The disk path looks into memory a second time once it holds the key
      lock; with a single thread that second look finds what the first one found. */
  function CompileStep(w: Setup, c: Caches, r: Request): Effect {
    var hit := if w.memoryOn then Find(c.memory, MemoryKeyOf(r)) else None;
    if hit.Some? then
      Effect(c.(memory := Touch(c.memory, MemoryKeyOf(r))), Returned(hit.value), false)
    else if w.diskOn && DiskKeyOf(r) in c.disk && w.keeps(c.disk[DiskKeyOf(r)]) then
      var p := c.disk[DiskKeyOf(r)];
      Effect(c.(memory := Remember(w, c.memory, r, p)), Returned(p), false)
    else ResolveStep(w, c, r)
  }

  /** Nothing cached: refuse while frozen, otherwise ask the backend and keep what it gives. */
  function ResolveStep(w: Setup, c: Caches, r: Request): Effect {
    if c.frozen then Effect(c, FrozenError, false)
    else
      match w.backend(r)
      case None => Effect(c, BackendFailed, true)
      case Some(p) =>
        var disk := if w.diskOn && w.keeps(p) then c.disk[DiskKeyOf(r) := p] else c.disk;
        Effect(Caches(Remember(w, c.memory, r, p), disk, c.frozen), Returned(p), true)
  }

  // ------------------------------------------------- one call, exactly

  /** Requests share a memory slot exactly so: an explicit spec forgets the target function and the options. */
  lemma MemorySlotsExact(r1: Request, r2: Request)
    ensures MemoryKeyOf(r1) == MemoryKeyOf(r2) <==>
              if r1.spec.Some? then r1.spec == r2.spec && r1.kwargs == r2.kwargs
              else r2.spec.None? && (r1.code, r1.state, r1.args, r1.kwargs, r1.options) == (r2.code, r2.state, r2.args, r2.kwargs, r2.options)
  {
  }

  /** And an object file so: always the target function, and without a spec everything. */
  lemma ObjectFilesExact(r1: Request, r2: Request)
    ensures DiskKeyOf(r1) == DiskKeyOf(r2) <==>
              && r1.spec == r2.spec && r1.code == r2.code && r1.kwargs == r2.kwargs && r1.options == r2.options
              && (r1.spec.None? ==> r1.state == r2.state && r1.args == r2.args)
  {
  }

  predicate InMemory(w: Setup, c: Caches, r: Request) {
    w.memoryOn && exists e :: e in c.memory && e.0 == MemoryKeyOf(r)
  }

  predicate OnDisk(w: Setup, c: Caches, r: Request) {
    w.diskOn && DiskKeyOf(r) in c.disk && w.keeps(c.disk[DiskKeyOf(r)])
  }

  /** What the caches alone answer a request with: the memory entry, or without one the object on disk
      if it loads. */
  predicate Answers(w: Setup, c: Caches, r: Request, p: Program) {
    if InMemory(w, c, r) then (MemoryKeyOf(r), p) in c.memory
    else OnDisk(w, c, r) && c.disk[DiskKeyOf(r)] == p
  }

  lemma FindsTheEntry(w: Setup, c: Caches, r: Request)
    requires Distinct(c.memory) && w.memoryOn
    ensures Find(c.memory, MemoryKeyOf(r)).Some? <==> InMemory(w, c, r)
    ensures forall p :: Find(c.memory, MemoryKeyOf(r)) == Some(p) <==> (MemoryKeyOf(r), p) in c.memory
  {
    forall p | (MemoryKeyOf(r), p) in c.memory ensures Find(c.memory, MemoryKeyOf(r)) == Some(p) {
      FindMember(c.memory, MemoryKeyOf(r), p);
    }
  }

  /** A call the caches can answer: their program, no backend call, nothing lost. */
  lemma AnsweredExact(w: Setup, c: Caches, r: Request, p: Program)
    requires 1 <= w.limit && Distinct(c.memory) && Answers(w, c, r, p)
    ensures var e := CompileStep(w, c, r);
            && e.outcome == Returned(p) && !e.backendCalled
            && e.caches.disk == c.disk && e.caches.frozen == c.frozen
            && (if w.memoryOn then (MemoryKeyOf(r), p) in e.caches.memory else e.caches.memory == c.memory)
  {
    if w.memoryOn {
      FindsTheEntry(w, c, r);
      PutContract(c.memory, MemoryKeyOf(r), p, w.limit);
      TouchContract(c.memory, MemoryKeyOf(r));
    }
  }

  /** A call they cannot answer: refused while frozen, with nothing changed; otherwise the backend decides,
      and what it compiles is remembered in memory and on disk. */
  lemma UnansweredExact(w: Setup, c: Caches, r: Request)
    requires 1 <= w.limit && Distinct(c.memory) && !InMemory(w, c, r) && !OnDisk(w, c, r)
    ensures var e := CompileStep(w, c, r);
            && (c.frozen ==> e == Effect(c, FrozenError, false))
            && (!c.frozen ==> e.backendCalled && !e.caches.frozen)
            && (!c.frozen && w.backend(r).None? ==> e.outcome == BackendFailed && e.caches == c)
            && (!c.frozen && w.backend(r).Some? ==>
                  var p := w.backend(r).value;
                  && e.outcome == Returned(p)
                  && e.caches.disk == (if w.diskOn && w.keeps(p) then c.disk[DiskKeyOf(r) := p] else c.disk)
                  && (if w.memoryOn then (MemoryKeyOf(r), p) in e.caches.memory else e.caches.memory == c.memory))
  {
    if w.memoryOn {
      FindsTheEntry(w, c, r);
      if w.backend(r).Some? {
        PutContract(c.memory, MemoryKeyOf(r), w.backend(r).value, w.limit);
      }
    }
  }

  /** While frozen the caches alone decide: a call returns `p` exactly when they answer with `p`, and is
      refused exactly when they answer nothing. */
  lemma FrozenExact(w: Setup, c: Caches, r: Request)
    requires 1 <= w.limit && Distinct(c.memory) && c.frozen
    ensures forall p :: CompileStep(w, c, r).outcome == Returned(p) <==> Answers(w, c, r, p)
    ensures CompileStep(w, c, r).outcome == FrozenError <==> !InMemory(w, c, r) && !OnDisk(w, c, r)
    ensures !CompileStep(w, c, r).backendCalled && CompileStep(w, c, r).caches.disk == c.disk
  {
    if InMemory(w, c, r) {
      var e :| e in c.memory && e.0 == MemoryKeyOf(r);
      FindMember(c.memory, e.0, e.1);
      AnsweredExact(w, c, r, e.1);
      FindsTheEntry(w, c, r);
    } else if OnDisk(w, c, r) {
      AnsweredExact(w, c, r, c.disk[DiskKeyOf(r)]);
    } else {
      UnansweredExact(w, c, r);
    }
  }

  lemma StepDistinct(w: Setup, c: Caches, r: Request)
    requires 1 <= w.limit && Distinct(c.memory)
    ensures Distinct(CompileStep(w, c, r).caches.memory)
  {
    TouchContract(c.memory, MemoryKeyOf(r));
    forall p ensures Distinct(Put(c.memory, MemoryKeyOf(r), p, w.limit)) {
      PutContract(c.memory, MemoryKeyOf(r), p, w.limit);
    }
  }

  /** So the backend cannot be told from any other while frozen. */
  lemma FrozenIgnoresBackend(w: Setup, v: Setup, c: Caches, r: Request)
    requires v == w.(backend := v.backend) && c.frozen
    ensures CompileStep(w, c, r) == CompileStep(v, c, r)
  {
  }

  // ------------------------------------------------------------------- runs

  datatype Op = Compile(r: Request) | Clear | SetFrozen(on: bool)

  function Next(w: Setup, c: Caches, op: Op): Caches {
    match op
    case Compile(r) => CompileStep(w, c, r).caches
    case Clear => c.(memory := [])
    case SetFrozen(on) => c.(frozen := on)
  }

  function Run(w: Setup, c: Caches, ops: seq<Op>): Caches {
    if ops == [] then c else Next(w, Run(w, c, ops[..|ops| - 1]), ops[|ops| - 1])
  }

  const Empty := Caches([], map[], false)

  /** The outcome a call has when nothing is cached: what the backend says. */
  predicate IsDirect(w: Setup, c: Caches, r: Request, o: Outcome) {
    match o
    case Returned(p) => w.backend(r) == Some(p)
    case BackendFailed => w.backend(r) == None
    case FrozenError => c.frozen
  }

  ghost predicate EveryRunIsDirect(w: Setup) {
    forall ops: seq<Op>, r ::
      IsDirect(w, Run(w, Empty, ops), r, CompileStep(w, Run(w, Empty, ops), r).outcome)
  }

  predicate Shared(w: Setup, r1: Request, r2: Request) {
    || (w.memoryOn && MemoryKeyOf(r1) == MemoryKeyOf(r2))
    || (w.diskOn && DiskKeyOf(r1) == DiskKeyOf(r2) && w.backend(r1).Some? && w.keeps(w.backend(r1).value))
  }

  /** The explicit-spec contract a caller must keep: requests that share a cache slot are
      compiled to the same program. */
  ghost predicate KeysDetermineProgram(w: Setup) {
    forall r1, r2 :: Shared(w, r1, r2) && w.backend(r1).Some? ==> w.backend(r2) == w.backend(r1)
  }

  /** Every cached program is one the backend gives for some request with that key. */
  ghost predicate Faithful(w: Setup, c: Caches) {
    && Distinct(c.memory)
    && (w.memoryOn ==> |c.memory| <= w.limit)
    && (w.memoryOn ==> forall e :: e in c.memory ==>
          exists r :: MemoryKeyOf(r) == e.0 && w.backend(r) == Some(e.1))
    && (w.diskOn ==> forall k :: k in c.disk ==>
          exists r :: DiskKeyOf(r) == k && w.backend(r) == Some(c.disk[k]))
  }

  lemma RememberFaithful(w: Setup, c: Caches, r: Request, p: Program)
    requires 1 <= w.limit && Faithful(w, c) && w.backend(r) == Some(p)
    ensures Faithful(w, c.(memory := Remember(w, c.memory, r, p)))
    ensures w.memoryOn ==> Find(Remember(w, c.memory, r, p), MemoryKeyOf(r)) == Some(p)
  {
    if w.memoryOn {
      PutContract(c.memory, MemoryKeyOf(r), p, w.limit);
    }
  }

  /** What memory answers is what the backend answers. */
  lemma HitFaithful(w: Setup, c: Caches, r: Request)
    requires KeysDetermineProgram(w) && Faithful(w, c) && w.memoryOn && Find(c.memory, MemoryKeyOf(r)).Some?
    ensures w.backend(r) == Find(c.memory, MemoryKeyOf(r))
    ensures Faithful(w, c.(memory := Touch(c.memory, MemoryKeyOf(r))))
  {
    var key := MemoryKeyOf(r);
    var p := Find(c.memory, key).value;
    assert (key, p) in c.memory;
    var r0 :| MemoryKeyOf(r0) == key && w.backend(r0) == Some(p);
    assert Shared(w, r0, r);
    TouchContract(c.memory, key);
  }

  /** And so is what the disk answers. */
  lemma DiskHitDirect(w: Setup, c: Caches, r: Request)
    requires KeysDetermineProgram(w) && Faithful(w, c) && w.diskOn
    requires DiskKeyOf(r) in c.disk && w.keeps(c.disk[DiskKeyOf(r)])
    ensures w.backend(r) == Some(c.disk[DiskKeyOf(r)])
  {
    var r0 :| DiskKeyOf(r0) == DiskKeyOf(r) && w.backend(r0) == Some(c.disk[DiskKeyOf(r)]);
    assert Shared(w, r0, r);
  }

  lemma CompileStepFaithful(w: Setup, c: Caches, r: Request)
    requires 1 <= w.limit && KeysDetermineProgram(w) && Faithful(w, c)
    ensures Faithful(w, CompileStep(w, c, r).caches)
    ensures IsDirect(w, c, r, CompileStep(w, c, r).outcome)
    ensures c.frozen ==> !CompileStep(w, c, r).backendCalled && CompileStep(w, c, r).caches.disk == c.disk
  {
    var hit := if w.memoryOn then Find(c.memory, MemoryKeyOf(r)) else None;
    if hit.Some? {
      HitFaithful(w, c, r);
    } else if w.diskOn && DiskKeyOf(r) in c.disk && w.keeps(c.disk[DiskKeyOf(r)]) {
      DiskHitDirect(w, c, r);
      RememberFaithful(w, c, r, c.disk[DiskKeyOf(r)]);
    } else {
      ResolveFaithful(w, c, r);
    }
  }

  lemma ResolveFaithful(w: Setup, c: Caches, r: Request)
    requires 1 <= w.limit && Faithful(w, c)
    ensures Faithful(w, ResolveStep(w, c, r).caches) && IsDirect(w, c, r, ResolveStep(w, c, r).outcome)
    ensures c.frozen ==> !ResolveStep(w, c, r).backendCalled && ResolveStep(w, c, r).caches.disk == c.disk
  {
    if !c.frozen && w.backend(r).Some? {
      RememberFaithful(w, c, r, w.backend(r).value);
    }
  }

  lemma {:induction false} RunFaithful(w: Setup, ops: seq<Op>)
    requires 1 <= w.limit && KeysDetermineProgram(w)
    ensures Faithful(w, Run(w, Empty, ops))
  {
    if ops != [] {
      var front, op := ops[..|ops| - 1], ops[|ops| - 1];
      RunFaithful(w, front);
      if op.Compile? {
        CompileStepFaithful(w, Run(w, Empty, front), op.r);
      }
    }
  }

  /** The last freeze or thaw of a run, if there is one. */
  function LastSet(ops: seq<Op>): Option<bool> {
    if ops == [] then None
    else if ops[|ops| - 1].SetFrozen? then Some(ops[|ops| - 1].on)
    else LastSet(ops[..|ops| - 1])
  }

  /** Only freezing and thawing decide whether a run is frozen. */
  lemma {:induction false} FrozenAfterRun(w: Setup, c: Caches, ops: seq<Op>)
    ensures Run(w, c, ops).frozen == if LastSet(ops).Some? then LastSet(ops).value else c.frozen
  {
    if ops != [] {
      FrozenAfterRun(w, c, ops[..|ops| - 1]);
    }
  }

  /** And they change nothing in the caches. */
  lemma {:induction false} FreezingKeepsCaches(w: Setup, c: Caches, ops: seq<Op>)
    requires forall i :: 0 <= i < |ops| ==> ops[i].SetFrozen?
    ensures Run(w, c, ops).memory == c.memory && Run(w, c, ops).disk == c.disk
  {
    if ops != [] {
      FreezingKeepsCaches(w, c, ops[..|ops| - 1]);
    }
  }

  /** Cached compile equals direct compile: over every sequence of compiles, evictions, disk hits,
      clears and freezes each call gives what a fresh backend compile gives, exactly when the
      cache keys determine the program. */
  lemma CachedEqualsDirect(w: Setup)
    requires 1 <= w.limit
    ensures EveryRunIsDirect(w) <==> KeysDetermineProgram(w)
  {
    if KeysDetermineProgram(w) {
      forall ops: seq<Op>, r
        ensures IsDirect(w, Run(w, Empty, ops), r, CompileStep(w, Run(w, Empty, ops), r).outcome)
      {
        RunFaithful(w, ops);
        CompileStepFaithful(w, Run(w, Empty, ops), r);
      }
    }
    if EveryRunIsDirect(w) {
      forall r1, r2 | Shared(w, r1, r2) && w.backend(r1).Some?
        ensures w.backend(r2) == w.backend(r1)
      {
        SecondCallSeesFirst(w, r1, r2);
        var ops := [Compile(r1)];
        assert IsDirect(w, Run(w, Empty, ops), r2, CompileStep(w, Run(w, Empty, ops), r2).outcome);
      }
    }
  }

  /** The second of two requests that share a slot is answered with the first one's program. */
  lemma {:induction false} SecondCallSeesFirst(w: Setup, r1: Request, r2: Request)
    requires 1 <= w.limit && Shared(w, r1, r2) && w.backend(r1).Some?
    ensures CompileStep(w, Run(w, Empty, [Compile(r1)]), r2).outcome == Returned(w.backend(r1).value)
  {
    var p := w.backend(r1).value;
    assert [Compile(r1)][..0] == [];
    assert Run(w, Empty, []) == Empty;
    var c := Run(w, Empty, [Compile(r1)]);
    assert c == CompileStep(w, Empty, r1).caches;
    if w.memoryOn {
      PutContract([], MemoryKeyOf(r1), p, w.limit);
      var e := Find(c.memory, MemoryKeyOf(r2));
      assert e.Some? ==> (MemoryKeyOf(r2), e.value) in c.memory;
    }
  }

  /** The contract can fail: two kernels registered under one spec share a memory slot, so the
      second caller is handed the first kernel. */
  lemma OneSpecTwoKernels()
    ensures exists w: Setup ::
              1 <= w.limit && !KeysDetermineProgram(w) && !EveryRunIsDirect(w)
  {
    var w := Setup(true, true, 1024, (r: Request) => Some(Program(r.code)), p => true);
    var r1 := Request("a", "", "", "", Some("spec"), "");
    var r2 := Request("b", "", "", "", Some("spec"), "");
    assert w.backend(r1).value.image == "a" && w.backend(r2).value.image == "b";
    assert "a"[0] != "b"[0];
    SharedSlotMisleads(w, r1, r2);
  }

  /** Two requests in one slot with different programs: some run answers one with the other. */
  lemma SharedSlotMisleads(w: Setup, r1: Request, r2: Request)
    requires 1 <= w.limit && Shared(w, r1, r2) && w.backend(r1).Some? && w.backend(r2) != w.backend(r1)
    ensures !KeysDetermineProgram(w) && !EveryRunIsDirect(w)
  {
    CachedEqualsDirect(w);
  }

  /** The module globals of the compiler, updated in place. */
  class KernelCompiler {
    const setup: Setup
    const memory: LruTable<MemoryKey, Program>
    var disk: map<DiskKey, Program>
    var frozen: bool
    var diskHits: nat
    var compileMisses: nat
    /** One entry per call that reached the backend. */
    ghost var backendCalls: seq<Request>

    ghost predicate Valid()
      reads this, memory
    {
      1 <= setup.limit && memory.Valid() && memory.limit == setup.limit
    }

    ghost function View(): Caches
      reads this, memory
    {
      Caches(memory.entries, disk, frozen)
    }

    constructor (setup: Setup)
      requires 1 <= setup.limit
      ensures Valid() && this.setup == setup && View() == Empty && backendCalls == [] && fresh(memory)
    {
      this.setup := setup;
      var table := new LruTable(setup.limit);
      memory := table;
      disk, frozen, diskHits, compileMisses, backendCalls := map[], false, 0, 0, [];
    }

    method Lookup(r: Request) returns (hit: Option<Program>)
      requires Valid()
      modifies memory
      ensures Valid()
      ensures hit == if setup.memoryOn then Find(old(memory.entries), MemoryKeyOf(r)) else None
      ensures memory.entries ==
              if hit.Some? then Touch(old(memory.entries), MemoryKeyOf(r)) else old(memory.entries)
    {
      if !setup.memoryOn {
        return None;
      }
      hit := memory.Get(MemoryKeyOf(r));
    }

    method StoreInMemory(r: Request, p: Program)
      requires Valid()
      modifies memory
      ensures Valid()
      ensures memory.entries == Remember(setup, old(memory.entries), r, p)
    {
      if setup.memoryOn {
        memory.Store(MemoryKeyOf(r), p);
      }
    }

    method Resolve(r: Request) returns (o: Outcome)
      requires Valid()
      modifies this, memory
      ensures Valid() && frozen == old(frozen)
      ensures var e := ResolveStep(setup, old(View()), r);
              && View() == e.caches && o == e.outcome
              && backendCalls == old(backendCalls) + (if e.backendCalled then [r] else [])
      ensures diskHits == old(diskHits) && compileMisses == old(compileMisses) + 1
    {
      compileMisses := compileMisses + 1;
      if frozen {
        return FrozenError;
      }
      backendCalls := backendCalls + [r];
      var compiled := setup.backend(r);
      if compiled.None? {
        return BackendFailed;
      }
      if setup.diskOn && setup.keeps(compiled.value) {
        disk := disk[DiskKeyOf(r) := compiled.value];
      }
      StoreInMemory(r, compiled.value);
      o := Returned(compiled.value);
    }

    method Compile(r: Request) returns (o: Outcome)
      requires Valid()
      modifies this, memory
      ensures Valid() && frozen == old(frozen)
      ensures var e := CompileStep(setup, old(View()), r);
              && View() == e.caches && o == e.outcome
              && backendCalls == old(backendCalls) + (if e.backendCalled then [r] else [])
      ensures var c := old(View());
              && diskHits == old(diskHits) + (if !InMemory(setup, c, r) && OnDisk(setup, c, r) then 1 else 0)
              && compileMisses == old(compileMisses) + (if !InMemory(setup, c, r) && !OnDisk(setup, c, r) then 1 else 0)
    {
      if setup.memoryOn {
        FindsTheEntry(setup, View(), r);
      }
      var hit := Lookup(r);
      if hit.Some? {
        return Returned(hit.value);
      }
      if setup.diskOn {
        var key := DiskKeyOf(r);
        if key in disk && setup.keeps(disk[key]) {
          diskHits := diskHits + 1;
          var found := disk[key];
          StoreInMemory(r, found);
          return Returned(found);
        }
        hit := Lookup(r);                      // the second look, under the key lock
        assert hit.None?;                      // finds nothing new when no other thread runs
      }
      o := Resolve(r);
    }

    method ClearCache()
      requires Valid()
      modifies this, memory
      ensures Valid() && View() == Next(setup, old(View()), Clear)
      ensures diskHits == compileMisses == 0 && backendCalls == old(backendCalls)
    {
      memory.Clear();
      diskHits, compileMisses := 0, 0;
    }
  }
}
