/**
 The compile cache as many processes and threads use it at once: shared object files, `.tmp` files
 and per-key file locks, one memory table per process. Every file-system call, cache lookup and
 backend call is a step of its own; threads interleave freely and may die at any step.
 */
module CacheProtocol {
  import opened Wrappers
  import opened OrderedTable
  import opened CompileCache

  type Bytes = seq<int>

  /** What the protocol takes from outside: whether and how much is kept in memory, the backend, the dump
      of a program to an object file (None when the program cannot be dumped) and the reader of object
      files. */
  datatype World = World(memoryOn: bool, limit: nat, backend: Request -> Option<Program>,
                         dump: (DiskKey, Program) -> Option<Bytes>,
                         load: (DiskKey, Bytes) -> Option<Program>)

  /** The explicit-spec contract, and: a complete object either loads as what was dumped or not at all. */
  ghost predicate Sound(w: World) {
    && 1 <= w.limit
    && (w.memoryOn ==>
          forall r1, r2 :: MemoryKeyOf(r1) == MemoryKeyOf(r2) && w.backend(r1).Some? ==> w.backend(r2) == w.backend(r1))
    && (forall r1, r2 :: DiskKeyOf(r1) == DiskKeyOf(r2) && w.backend(r1).Some? ==> w.backend(r2) == w.backend(r1))
    && (forall k, p :: w.dump(k, p).Some? ==>
          w.load(k, w.dump(k, p).value) == None || w.load(k, w.dump(k, p).value) == Some(p))
  }

  /** Where a thread stands inside `compile`. The states from `LookAgain` to `Unlock` hold the key lock. */
  datatype Phase =
    | Idle
    | Lookup(r: Request)
    | Probe(r: Request)
    | Read(r: Request)
    | Await(r: Request)
    | LookAgain(r: Request)
    | ProbeAgain(r: Request)
    | ReadAgain(r: Request)
    | CheckFrozen(r: Request)
    | Compiling(r: Request)
    | OpenTmp(r: Request, p: Program)
    | WriteTmp(r: Request, p: Program, bytes: Bytes, written: nat)
    | Replace(r: Request, p: Program)
    | Keep(r: Request, p: Program, locked: bool)
    | Unlock(r: Request, o: Outcome)
    | Done(r: Request, o: Outcome)
    | Dead

  predicate Locked(ph: Phase) {
    ph.LookAgain? || ph.ProbeAgain? || ph.ReadAgain? || ph.CheckFrozen? || ph.Compiling?
    || ph.OpenTmp? || ph.WriteTmp? || ph.Replace? || (ph.Keep? && ph.locked) || ph.Unlock?
  }

  /** A backend result that is not yet published on disk. */
  predicate Storing(ph: Phase) {
    ph.OpenTmp? || ph.WriteTmp? || ph.Replace?
  }

  /** Committed to compile: the disk was found without a usable object. */
  predicate Committed(ph: Phase) {
    ph.CheckFrozen? || ph.Compiling? || Storing(ph)
  }

  /** Everything shared about one cache key. `compiled` counts successful backend compiles,
      `published` object files put in place, `lost` compiled programs that were never published
      (their writer died, or the store failed) and `unreadable` loads that failed although the
      object was there. */
  datatype Cell = Cell(file: Option<Bytes>, tmp: Option<Bytes>, holder: Option<nat>,
                       compiled: nat, published: nat, lost: nat, unreadable: nat)

  const FreshCell := Cell(None, None, None, 0, 0, 0, 0)

  /** What one step of one thread can see and change. */
  datatype Local = Local(phase: Phase, cell: Cell, memory: Table<MemoryKey, Program>)

  /** The scheduler's and the operating system's choices in one step. */
  datatype Choice = Choice(fail: bool, count: nat)

  /** Memory is neither asked nor filled while it is switched off. */
  function Recall(w: World, mem: Table<MemoryKey, Program>, r: Request): Option<Program> {
    if w.memoryOn then Find(mem, MemoryKeyOf(r)) else None
  }

  function Retain(w: World, mem: Table<MemoryKey, Program>, r: Request, p: Program): Table<MemoryKey, Program> {
    if w.memoryOn then Put(mem, MemoryKeyOf(r), p, w.limit) else mem
  }

  /** Before the lock: memory, then the disk without a lock, then wait for the lock. */
  function SearchStep(w: World, t: nat, l: Local, c: Choice): Local {
    var Local(ph, cell, mem) := l;
    match ph
    case Lookup(r) =>
      (match Recall(w, mem, r)
       case Some(p) => Local(Done(r, Returned(p)), cell, Touch(mem, MemoryKeyOf(r)))
       case None => l.(phase := Probe(r)))
    case Probe(r) => l.(phase := if cell.file.Some? then Read(r) else Await(r))
    case Read(r) =>
      var got := LoadObject(w, r, cell, c);
      l.(phase := if got.Some? then Keep(r, got.value, false) else Await(r))
    case Await(r) =>
      if cell.holder.None? then Local(LookAgain(r), cell.(holder := Some(t)), mem) else l
    case Keep(r, p, _) => Local(Done(r, Returned(p)), cell, Retain(w, mem, r, p))
    case _ => l
  }

  /** Under the lock: look again, and compile if there is still nothing. */
  function ResolveStep(w: World, l: Local, frozen: bool, c: Choice): Local {
    var Local(ph, cell, mem) := l;
    match ph
    case LookAgain(r) =>
      (match Recall(w, mem, r)
       case Some(p) => Local(Unlock(r, Returned(p)), cell, Touch(mem, MemoryKeyOf(r)))
       case None => l.(phase := ProbeAgain(r)))
    case ProbeAgain(r) => l.(phase := if cell.file.Some? then ReadAgain(r) else CheckFrozen(r))
    case ReadAgain(r) =>
      var got := LoadObject(w, r, cell, c);
      if got.Some? then l.(phase := Keep(r, got.value, true))
      else Local(CheckFrozen(r), cell.(unreadable := cell.unreadable + 1), mem)
    case CheckFrozen(r) => l.(phase := if frozen then Unlock(r, FrozenError) else Compiling(r))
    case Compiling(r) =>
      (match w.backend(r)
       case None => l.(phase := Unlock(r, BackendFailed))
       case Some(p) => Local(OpenTmp(r, p), cell.(compiled := cell.compiled + 1), mem))
    case _ => l
  }

  /** Under the lock: write the temporary file piece by piece, move it into place, remember the
      program, give the lock back. */
  function PublishStep(w: World, l: Local, c: Choice): Local {
    var Local(ph, cell, mem) := l;
    match ph
    case OpenTmp(r, p) =>
      var image := w.dump(DiskKeyOf(r), p);
      if c.fail || image.None? then StoreFailed(l, r, p)
      else Local(WriteTmp(r, p, image.value, 0), cell.(tmp := Some([])), mem)
    case WriteTmp(r, p, bytes, n) =>
      if c.fail then StoreFailed(l, r, p)
      else if n < |bytes| then
        var n' := if n + c.count < |bytes| then n + c.count else |bytes|;
        Local(WriteTmp(r, p, bytes, n'), cell.(tmp := Some(bytes[..n'])), mem)
      else l.(phase := Replace(r, p))
    case Replace(r, p) =>
      if c.fail || cell.tmp.None? then StoreFailed(l, r, p)
      else Local(Keep(r, p, true),
                 cell.(file := cell.tmp, tmp := None, published := cell.published + 1), mem)
    case Keep(r, p, _) => Local(Unlock(r, Returned(p)), cell, Retain(w, mem, r, p))
    case Unlock(r, o) => Local(Done(r, o), cell.(holder := None), mem)
    case _ => l
  }

  function Step(w: World, t: nat, l: Local, frozen: bool, c: Choice): Local {
    if !Locked(l.phase) then SearchStep(w, t, l, c)
    else if Storing(l.phase) || l.phase.Keep? || l.phase.Unlock? then PublishStep(w, l, c)
    else ResolveStep(w, l, frozen, c)
  }

  function LoadObject(w: World, r: Request, cell: Cell, c: Choice): Option<Program> {
    if c.fail || cell.file.None? then None else w.load(DiskKeyOf(r), cell.file.value)
  }

  /** A failed store is suppressed: the program is still returned, but it is not on disk. */
  function StoreFailed(l: Local, r: Request, p: Program): Local {
    Local(Keep(r, p, true), l.cell.(lost := l.cell.lost + 1), l.memory)
  }

  /** A thread that dies loses its file lock; whatever it wrote to `.tmp` stays. */
  function Die(l: Local): Local {
    var cell := if Storing(l.phase) then l.cell.(lost := l.cell.lost + 1) else l.cell;
    Local(Dead, if Locked(l.phase) then cell.(holder := None) else cell, l.memory)
  }

  // ------------------------------------------------- what one step preserves

  /** A complete dump for `k` of the program the backend gives for it. */
  ghost predicate Complete(w: World, k: DiskKey, bytes: Bytes) {
    exists r, p :: DiskKeyOf(r) == k && w.backend(r) == Some(p) && w.dump(k, p) == Some(bytes)
  }

  /** What is true of a thread on its own: the program it carries is the backend's answer. */
  predicate Correct(w: World, r: Request, o: Outcome) {
    match o
    case Returned(p) => w.backend(r) == Some(p)
    case BackendFailed => w.backend(r) == None
    case FrozenError => true
  }

  predicate PhaseOk(w: World, ph: Phase) {
    match ph
    case OpenTmp(r, p) => w.backend(r) == Some(p)
    case WriteTmp(r, p, bytes, n) =>
      w.backend(r) == Some(p) && w.dump(DiskKeyOf(r), p) == Some(bytes) && n <= |bytes|
    case Replace(r, p) => w.backend(r) == Some(p) && w.dump(DiskKeyOf(r), p).Some?
    case Keep(r, p, _) => w.backend(r) == Some(p)
    case Unlock(r, o) => Correct(w, r, o)
    case Done(r, o) => Correct(w, r, o)
    case _ => true
  }

  /** What is true of a key, given the phase of the thread that holds its lock (Dead if none does). */
  ghost predicate CellOk(w: World, k: DiskKey, cell: Cell, ph: Phase) {
    && (cell.file.Some? ==> Complete(w, k, cell.file.value))
    && (cell.file.None? ==> cell.published == 0)
    && (cell.published <= cell.unreadable + 1)
    && (Committed(ph) ==> cell.published <= cell.unreadable)
    && (cell.compiled == cell.published + cell.lost + if Storing(ph) then 1 else 0)
    && (ph.WriteTmp? ==> cell.tmp == Some(ph.bytes[..if ph.written <= |ph.bytes| then ph.written else 0]))
    && (ph.Replace? ==> cell.tmp == w.dump(k, ph.p))
  }

  ghost predicate MemoryOk(w: World, mem: Table<MemoryKey, Program>) {
    && Distinct(mem) && |mem| <= w.limit
    && forall e :: e in mem ==> exists r :: MemoryKeyOf(r) == e.0 && w.backend(r) == Some(e.1)
  }

  predicate Busy(ph: Phase) {
    !ph.Idle? && !ph.Dead?
  }

  function HolderPhase(ph: Phase): Phase {
    if Locked(ph) then ph else Dead
  }

  lemma {:induction false} MemoryHit(w: World, mem: Table<MemoryKey, Program>, r: Request, p: Program)
    requires Sound(w) && MemoryOk(w, mem) && Recall(w, mem, r) == Some(p)
    ensures w.backend(r) == Some(p) && MemoryOk(w, Touch(mem, MemoryKeyOf(r)))
  {
    assert (MemoryKeyOf(r), p) in mem;
    var r0 :| MemoryKeyOf(r0) == MemoryKeyOf(r) && w.backend(r0) == Some(p);
    TouchContract(mem, MemoryKeyOf(r));
  }

  lemma RetainOk(w: World, mem: Table<MemoryKey, Program>, r: Request, p: Program)
    requires 1 <= w.limit && MemoryOk(w, mem) && w.backend(r) == Some(p)
    ensures MemoryOk(w, Retain(w, mem, r, p))
  {
    PutContract(mem, MemoryKeyOf(r), p, w.limit);
  }

  lemma LoadHit(w: World, r: Request, cell: Cell, c: Choice)
    requires Sound(w) && LoadObject(w, r, cell, c).Some?
    requires cell.file.Some? ==> Complete(w, DiskKeyOf(r), cell.file.value)
    ensures w.backend(r) == LoadObject(w, r, cell, c)
  {
    var k := DiskKeyOf(r);
    var r0, p0 :| DiskKeyOf(r0) == k && w.backend(r0) == Some(p0) && w.dump(k, p0) == Some(cell.file.value);
    assert w.dump(k, p0).Some?;
  }

  /** What a step outside the lock may do: leave the cell alone, or take the free lock. */
  ghost predicate KeepsOut(w: World, t: nat, l: Local, l': Local)
    requires Busy(l.phase)
  {
    && PhaseOk(w, l'.phase) && MemoryOk(w, l'.memory) && Busy(l'.phase) && l'.phase.r == l.phase.r
    && (if Locked(l'.phase) then
          l'.phase.LookAgain? && l.cell.holder.None? && l'.cell == l.cell.(holder := Some(t))
        else l'.cell == l.cell)
  }

  lemma LookupOk(w: World, t: nat, l: Local, c: Choice)
    requires Sound(w) && l.phase.Lookup? && MemoryOk(w, l.memory)
    ensures KeepsOut(w, t, l, SearchStep(w, t, l, c))
  {
    if Recall(w, l.memory, l.phase.r).Some? {
      MemoryHit(w, l.memory, l.phase.r, Recall(w, l.memory, l.phase.r).value);
    }
  }

  lemma ReadOk(w: World, t: nat, l: Local, c: Choice)
    requires Sound(w) && l.phase.Read? && MemoryOk(w, l.memory)
    requires l.cell.file.Some? ==> Complete(w, DiskKeyOf(l.phase.r), l.cell.file.value)
    ensures KeepsOut(w, t, l, SearchStep(w, t, l, c))
  {
    if LoadObject(w, l.phase.r, l.cell, c).Some? {
      LoadHit(w, l.phase.r, l.cell, c);
    }
  }

  lemma KeepFoundOk(w: World, t: nat, l: Local, c: Choice)
    requires 1 <= w.limit && l.phase.Keep? && !l.phase.locked && PhaseOk(w, l.phase) && MemoryOk(w, l.memory)
    ensures KeepsOut(w, t, l, SearchStep(w, t, l, c))
  {
    RetainOk(w, l.memory, l.phase.r, l.phase.p);
  }

  /** Steps outside the lock leave the cell alone, except that `Await` may take the free lock. */
  lemma SearchStepOk(w: World, t: nat, l: Local, c: Choice)
    requires Sound(w) && Busy(l.phase) && !Locked(l.phase)
    requires PhaseOk(w, l.phase) && MemoryOk(w, l.memory)
    requires l.cell.file.Some? ==> Complete(w, DiskKeyOf(l.phase.r), l.cell.file.value)
    ensures KeepsOut(w, t, l, SearchStep(w, t, l, c))
  {
    if l.phase.Lookup? {
      LookupOk(w, t, l, c);
    } else if l.phase.Read? {
      ReadOk(w, t, l, c);
    } else if l.phase.Keep? {
      KeepFoundOk(w, t, l, c);
    }
  }

  /** What a step under the lock must establish: its key's invariant, and the lock until `Done`. */
  ghost predicate KeepsKey(w: World, t: nat, r: Request, l': Local) {
    && PhaseOk(w, l'.phase) && MemoryOk(w, l'.memory) && Busy(l'.phase) && l'.phase.r == r
    && CellOk(w, DiskKeyOf(r), l'.cell, HolderPhase(l'.phase))
    && l'.cell.holder == if Locked(l'.phase) then Some(t) else None
  }

  /** Looking into memory again under the lock. */
  lemma LookAgainOk(w: World, t: nat, l: Local, frozen: bool, c: Choice)
    requires Sound(w) && l.phase.LookAgain? && KeepsKey(w, t, l.phase.r, l)
    ensures KeepsKey(w, t, l.phase.r, ResolveStep(w, l, frozen, c))
  {
    if Recall(w, l.memory, l.phase.r).Some? {
      MemoryHit(w, l.memory, l.phase.r, Recall(w, l.memory, l.phase.r).value);
    }
    CalmPhases(w, DiskKeyOf(l.phase.r), l.cell, l.phase, ResolveStep(w, l, frozen, c).phase);
  }

  /** Only a thread committed to compile changes what is true of its key. */
  lemma CalmPhases(w: World, k: DiskKey, cell: Cell, ph: Phase, ph': Phase)
    requires CellOk(w, k, cell, ph) && !Committed(ph) && !Committed(ph')
    ensures CellOk(w, k, cell, ph')
  {
  }

  /** Looking for the file again. */
  lemma ProbeAgainOk(w: World, t: nat, l: Local, frozen: bool, c: Choice)
    requires l.phase.ProbeAgain? && KeepsKey(w, t, l.phase.r, l)
    ensures KeepsKey(w, t, l.phase.r, ResolveStep(w, l, frozen, c))
  {
  }

  /** Loading again: a program of that key, or one more unreadable object. */
  lemma ReadAgainOk(w: World, t: nat, l: Local, frozen: bool, c: Choice)
    requires Sound(w) && l.phase.ReadAgain? && KeepsKey(w, t, l.phase.r, l)
    ensures KeepsKey(w, t, l.phase.r, ResolveStep(w, l, frozen, c))
  {
    if LoadObject(w, l.phase.r, l.cell, c).Some? {
      LoadHit(w, l.phase.r, l.cell, c);
    }
  }

  /** The freeze check and the backend call. */
  lemma CompileOk(w: World, t: nat, l: Local, frozen: bool, c: Choice)
    requires Sound(w) && (l.phase.CheckFrozen? || l.phase.Compiling?) && KeepsKey(w, t, l.phase.r, l)
    ensures KeepsKey(w, t, l.phase.r, ResolveStep(w, l, frozen, c))
  {
  }

  lemma ResolveStepOk(w: World, t: nat, l: Local, frozen: bool, c: Choice)
    requires Sound(w) && Locked(l.phase) && KeepsKey(w, t, l.phase.r, l)
    requires !Storing(l.phase) && !l.phase.Keep? && !l.phase.Unlock?
    ensures KeepsKey(w, t, l.phase.r, ResolveStep(w, l, frozen, c))
  {
    if l.phase.LookAgain? {
      LookAgainOk(w, t, l, frozen, c);
    } else if l.phase.ProbeAgain? {
      ProbeAgainOk(w, t, l, frozen, c);
    } else if l.phase.ReadAgain? {
      ReadAgainOk(w, t, l, frozen, c);
    } else {
      CompileOk(w, t, l, frozen, c);
    }
  }

  lemma WriteStepOk(w: World, t: nat, l: Local, c: Choice)
    requires (l.phase.OpenTmp? || l.phase.WriteTmp?) && KeepsKey(w, t, l.phase.r, l)
    ensures KeepsKey(w, t, l.phase.r, PublishStep(w, l, c))
  {
    if l.phase.WriteTmp? {
      assert l.phase.bytes[..|l.phase.bytes|] == l.phase.bytes;
    }
  }

  lemma ReplaceOk(w: World, t: nat, l: Local, c: Choice)
    requires l.phase.Replace? && KeepsKey(w, t, l.phase.r, l)
    ensures KeepsKey(w, t, l.phase.r, PublishStep(w, l, c))
  {
    assert Complete(w, DiskKeyOf(l.phase.r), w.dump(DiskKeyOf(l.phase.r), l.phase.p).value);
  }

  lemma KeepOk(w: World, t: nat, l: Local, c: Choice)
    requires l.phase.Keep? && l.phase.locked && 1 <= w.limit && KeepsKey(w, t, l.phase.r, l)
    ensures KeepsKey(w, t, l.phase.r, PublishStep(w, l, c))
  {
    RetainOk(w, l.memory, l.phase.r, l.phase.p);
  }

  lemma UnlockOk(w: World, t: nat, l: Local, c: Choice)
    requires l.phase.Unlock? && KeepsKey(w, t, l.phase.r, l)
    ensures KeepsKey(w, t, l.phase.r, PublishStep(w, l, c))
  {
  }

  lemma FinishStepOk(w: World, t: nat, l: Local, c: Choice)
    requires l.phase.Replace? || (l.phase.Keep? && l.phase.locked) || l.phase.Unlock?
    requires 1 <= w.limit && KeepsKey(w, t, l.phase.r, l)
    ensures KeepsKey(w, t, l.phase.r, PublishStep(w, l, c))
  {
    if l.phase.Replace? {
      ReplaceOk(w, t, l, c);
    } else if l.phase.Keep? {
      KeepOk(w, t, l, c);
    } else {
      UnlockOk(w, t, l, c);
    }
  }

  // ------------------------------------------------------------- all threads

  datatype Thread = Thread(process: nat, phase: Phase)

  /** The whole system. Keys and processes that were never used have fresh cells and empty memory. */
  datatype System = System(threads: map<nat, Thread>, cells: map<DiskKey, Cell>,
                           memories: map<nat, Table<MemoryKey, Program>>, frozen: set<nat>)

  function CellOf(s: System, k: DiskKey): Cell {
    if k in s.cells then s.cells[k] else FreshCell
  }

  function MemoryOf(s: System, process: nat): Table<MemoryKey, Program> {
    if process in s.memories then s.memories[process] else []
  }

  function LocalOf(s: System, t: nat): Local
    requires t in s.threads && Busy(s.threads[t].phase)
  {
    var th := s.threads[t];
    Local(th.phase, CellOf(s, DiskKeyOf(th.phase.r)), MemoryOf(s, th.process))
  }

  function WithLocal(s: System, t: nat, l: Local): System
    requires t in s.threads && Busy(s.threads[t].phase)
  {
    var th := s.threads[t];
    s.(threads := s.threads[t := th.(phase := l.phase)],
       cells := s.cells[DiskKeyOf(th.phase.r) := l.cell],
       memories := s.memories[th.process := l.memory])
  }

  datatype Action =
    | Spawn(t: nat, process: nat)
    | Call(t: nat, r: Request)
    | Take(t: nat, c: Choice)
    | Kill(t: nat)
    | ClearMemory(process: nat)
    | SetFreeze(process: nat, on: bool)

  /** Any action may be scheduled at any time; one that does not apply changes nothing. */
  function Act(w: World, s: System, a: Action): System {
    match a
    case Spawn(t, process) =>
      if t in s.threads then s else s.(threads := s.threads[t := Thread(process, Idle)])
    case Call(t, r) =>
      if t in s.threads && (s.threads[t].phase.Idle? || s.threads[t].phase.Done?) then
        s.(threads := s.threads[t := s.threads[t].(phase := Lookup(r))])
      else s
    case Take(t, c) =>
      if t in s.threads && Busy(s.threads[t].phase) then
        WithLocal(s, t, Step(w, t, LocalOf(s, t), s.threads[t].process in s.frozen, c))
      else s
    case Kill(t) =>
      if t in s.threads && Busy(s.threads[t].phase) then WithLocal(s, t, Die(LocalOf(s, t)))
      else s
    case ClearMemory(process) => s.(memories := s.memories[process := []])
    case SetFreeze(process, on) =>
      s.(frozen := if on then s.frozen + {process} else s.frozen - {process})
  }

  const Start := System(map[], map[], map[], {})

  function Execute(w: World, actions: seq<Action>): System {
    if actions == [] then Start
    else Act(w, Execute(w, actions[..|actions| - 1]), actions[|actions| - 1])
  }

  /** The phase of the thread holding the lock of `k`. */
  function HolderOf(s: System, k: DiskKey): Phase {
    var h := CellOf(s, k).holder;
    if h.Some? && h.value in s.threads then s.threads[h.value].phase else Dead
  }

  ghost predicate LocksAgree(s: System) {
    && (forall t :: t in s.threads && Locked(s.threads[t].phase) ==>
          CellOf(s, DiskKeyOf(s.threads[t].phase.r)).holder == Some(t))
    && (forall k :: CellOf(s, k).holder.Some? ==>
          && CellOf(s, k).holder.value in s.threads
          && Locked(s.threads[CellOf(s, k).holder.value].phase)
          && DiskKeyOf(s.threads[CellOf(s, k).holder.value].phase.r) == k)
  }

  ghost predicate Inv(w: World, s: System) {
    && LocksAgree(s)
    && (forall k :: CellOk(w, k, CellOf(s, k), HolderOf(s, k)))
    && (forall t :: t in s.threads ==> PhaseOk(w, s.threads[t].phase))
    && (forall p :: p in s.memories ==> MemoryOk(w, s.memories[p]))
  }

  /** The thread-local view of a system that satisfies the invariant satisfies it too. */
  lemma LocalInv(w: World, s: System, t: nat)
    requires Inv(w, s) && t in s.threads && Busy(s.threads[t].phase)
    ensures var l := LocalOf(s, t);
            && PhaseOk(w, l.phase) && MemoryOk(w, l.memory)
            && (l.cell.file.Some? ==> Complete(w, DiskKeyOf(l.phase.r), l.cell.file.value))
            && (Locked(l.phase) ==> KeepsKey(w, t, l.phase.r, l))
  {
    var l := LocalOf(s, t);
    assert CellOk(w, DiskKeyOf(l.phase.r), l.cell, HolderOf(s, DiskKeyOf(l.phase.r)));
    assert s.threads[t].process in s.memories ==> MemoryOk(w, s.memories[s.threads[t].process]);
  }

  /** How a step may change its own thread, key and memory so that everyone's invariant survives. */
  ghost predicate GoodStep(w: World, t: nat, l: Local, l': Local)
    requires Busy(l.phase)
  {
    && PhaseOk(w, l'.phase) && MemoryOk(w, l'.memory)
    && (l'.phase.Dead? || (Busy(l'.phase) && l'.phase.r == l.phase.r))
    && if Locked(l.phase) then
         && CellOk(w, DiskKeyOf(l.phase.r), l'.cell, HolderPhase(l'.phase))
         && l'.cell.holder == (if Locked(l'.phase) then Some(t) else None)
       else if Locked(l'.phase) then
         l'.phase.LookAgain? && l.cell.holder.None? && l'.cell == l.cell.(holder := Some(t))
       else l'.cell == l.cell
  }

  lemma TakeIsGood(w: World, s: System, t: nat, c: Choice)
    requires Sound(w) && Inv(w, s) && t in s.threads && Busy(s.threads[t].phase)
    ensures GoodStep(w, t, LocalOf(s, t), Step(w, t, LocalOf(s, t), s.threads[t].process in s.frozen, c))
  {
    var l, frozen := LocalOf(s, t), s.threads[t].process in s.frozen;
    LocalInv(w, s, t);
    if !Locked(l.phase) {
      SearchStepOk(w, t, l, c);
    } else if l.phase.OpenTmp? || l.phase.WriteTmp? {
      WriteStepOk(w, t, l, c);
    } else if l.phase.Replace? || l.phase.Keep? || l.phase.Unlock? {
      FinishStepOk(w, t, l, c);
    } else {
      ResolveStepOk(w, t, l, frozen, c);
    }
  }

  lemma KillIsGood(w: World, s: System, t: nat)
    requires Sound(w) && Inv(w, s) && t in s.threads && Busy(s.threads[t].phase)
    ensures GoodStep(w, t, LocalOf(s, t), Die(LocalOf(s, t)))
  {
    LocalInv(w, s, t);
  }

  lemma GoodStepLocks(w: World, s: System, t: nat, l': Local)
    requires LocksAgree(s) && t in s.threads && Busy(s.threads[t].phase)
    requires GoodStep(w, t, LocalOf(s, t), l')
    ensures LocksAgree(WithLocal(s, t, l'))
  {
    var s' := WithLocal(s, t, l');
    forall u | u in s'.threads && Locked(s'.threads[u].phase)
      ensures CellOf(s', DiskKeyOf(s'.threads[u].phase.r)).holder == Some(u)
    {
      if u != t {
        assert CellOf(s, DiskKeyOf(s.threads[u].phase.r)).holder == Some(u);
      }
    }
    forall j | CellOf(s', j).holder.Some?
      ensures var h := CellOf(s', j).holder.value;
              h in s'.threads && Locked(s'.threads[h].phase) && DiskKeyOf(s'.threads[h].phase.r) == j
    {
      GoodStepHolds(w, s, t, l', j);
    }
  }

  /** A lock that is held after a step is held by a thread at work on its key. */
  lemma GoodStepHolds(w: World, s: System, t: nat, l': Local, j: DiskKey)
    requires LocksAgree(s) && t in s.threads && Busy(s.threads[t].phase)
    requires GoodStep(w, t, LocalOf(s, t), l') && CellOf(WithLocal(s, t, l'), j).holder.Some?
    ensures var s' := WithLocal(s, t, l');
            var h := CellOf(s', j).holder.value;
            h in s'.threads && Locked(s'.threads[h].phase) && DiskKeyOf(s'.threads[h].phase.r) == j
  {
    if j != DiskKeyOf(s.threads[t].phase.r) {
      assert CellOf(WithLocal(s, t, l'), j) == CellOf(s, j);
    }
  }

  /** Whom a step leaves holding a lock. */
  lemma GoodStepHolder(w: World, s: System, t: nat, l': Local, j: DiskKey)
    requires LocksAgree(s) && t in s.threads && Busy(s.threads[t].phase)
    requires GoodStep(w, t, LocalOf(s, t), l')
    ensures var l, s' := LocalOf(s, t), WithLocal(s, t, l');
            if j == DiskKeyOf(l.phase.r) && (Locked(l.phase) || Locked(l'.phase)) then
              CellOf(s', j) == l'.cell && HolderOf(s', j) == HolderPhase(l'.phase)
              && (Locked(l.phase) || HolderOf(s, j) == Dead)
            else CellOf(s', j) == CellOf(s, j) && HolderOf(s', j) == HolderOf(s, j)
  {
    var h := CellOf(s, j).holder;
    if h.Some? && h.value == t {
      assert Locked(s.threads[t].phase) && DiskKeyOf(s.threads[t].phase.r) == j;
    }
  }

  /** A step that keeps its own key's invariant keeps every key's. */
  lemma GoodStepCells(w: World, s: System, t: nat, l': Local, j: DiskKey)
    requires Inv(w, s) && t in s.threads && Busy(s.threads[t].phase)
    requires GoodStep(w, t, LocalOf(s, t), l')
    ensures CellOk(w, j, CellOf(WithLocal(s, t, l'), j), HolderOf(WithLocal(s, t, l'), j))
  {
    assert CellOk(w, j, CellOf(s, j), HolderOf(s, j));
    GoodStepHolder(w, s, t, l', j);
  }

  lemma GoodStepKeepsInv(w: World, s: System, t: nat, l': Local)
    requires Inv(w, s) && t in s.threads && Busy(s.threads[t].phase)
    requires GoodStep(w, t, LocalOf(s, t), l')
    ensures Inv(w, WithLocal(s, t, l'))
  {
    GoodStepLocks(w, s, t, l');
    forall j
      ensures CellOk(w, j, CellOf(WithLocal(s, t, l'), j), HolderOf(WithLocal(s, t, l'), j))
    {
      GoodStepCells(w, s, t, l', j);
    }
  }

  /** Starting threads and calls, clearing a memory and freezing touch no key and no lock. */
  lemma QuietKeepsInv(w: World, s: System, s': System)
    requires Inv(w, s) && s'.cells == s.cells
    requires forall t :: t in s.threads ==> t in s'.threads
    requires forall t :: t in s'.threads ==>
               if t in s.threads && s'.threads[t] == s.threads[t] then true
               else (t in s.threads ==> !Locked(s.threads[t].phase))
                    && (s'.threads[t].phase.Idle? || s'.threads[t].phase.Lookup?)
    requires forall p :: p in s'.memories ==> MemoryOk(w, s'.memories[p])
    ensures Inv(w, s')
  {
    assert forall k :: CellOf(s', k) == CellOf(s, k);
    forall k
      ensures CellOk(w, k, CellOf(s', k), HolderOf(s', k))
    {
      assert CellOk(w, k, CellOf(s, k), HolderOf(s, k));
      assert HolderOf(s', k) == HolderOf(s, k);
    }
  }

  lemma ActKeepsInv(w: World, s: System, a: Action)
    requires Sound(w) && Inv(w, s)
    ensures Inv(w, Act(w, s, a))
  {
    if (a.Take? || a.Kill?) && a.t in s.threads && Busy(s.threads[a.t].phase) {
      if a.Take? {
        TakeIsGood(w, s, a.t, a.c);
        GoodStepKeepsInv(w, s, a.t, Step(w, a.t, LocalOf(s, a.t), s.threads[a.t].process in s.frozen, a.c));
      } else {
        KillIsGood(w, s, a.t);
        GoodStepKeepsInv(w, s, a.t, Die(LocalOf(s, a.t)));
      }
    } else {
      QuietKeepsInv(w, s, Act(w, s, a));
    }
  }

  lemma {:induction false} ReachableInv(w: World, actions: seq<Action>)
    requires Sound(w)
    ensures Inv(w, Execute(w, actions))
  {
    if actions == [] {
      assert forall k :: CellOf(Start, k) == FreshCell;
    } else {
      ReachableInv(w, actions[..|actions| - 1]);
      ActKeepsInv(w, Execute(w, actions[..|actions| - 1]), actions[|actions| - 1]);
    }
  }

  // ----------------------------------------------------------- main theorems

  /** In every interleaving, however threads die and stores fail: the successful backend compiles
      of a key are at most one, plus one for each compiled program that was lost before it was
      published and one for each existing object that could not be read. */
  lemma {:induction false} AtMostOneCompile(w: World, actions: seq<Action>, k: DiskKey)
    requires Sound(w)
    ensures var cell := CellOf(Execute(w, actions), k);
            && cell.compiled <= 1 + cell.lost + cell.unreadable
            && (cell.lost == 0 && cell.unreadable == 0 ==> cell.compiled <= 1)
  {
    ReachableInv(w, actions);
    var s := Execute(w, actions);
    assert CellOk(w, k, CellOf(s, k), HolderOf(s, k));
  }

  /** In every interleaving, every finished call returns what a direct backend call returns. */
  lemma {:induction false} EveryResultIsDirect(w: World, actions: seq<Action>, t: nat)
    requires Sound(w)
    requires t in Execute(w, actions).threads && Execute(w, actions).threads[t].phase.Done?
    ensures var done := Execute(w, actions).threads[t].phase; Correct(w, done.r, done.o)
  {
    ReachableInv(w, actions);
    assert PhaseOk(w, Execute(w, actions).threads[t].phase);
  }

  /** Object files are only ever complete dumps, even when a writer dies midway, and no memory
      table outgrows its bound. */
  lemma {:induction false} FilesComplete(w: World, actions: seq<Action>, k: DiskKey, process: nat)
    requires Sound(w)
    ensures var s := Execute(w, actions);
            && (CellOf(s, k).file.Some? ==> Complete(w, k, CellOf(s, k).file.value))
            && |MemoryOf(s, process)| <= w.limit
  {
    ReachableInv(w, actions);
    var s := Execute(w, actions);
    assert CellOk(w, k, CellOf(s, k), HolderOf(s, k));
    assert process in s.memories ==> MemoryOk(w, s.memories[process]);
  }

  /** A step outside the lock, and a dying thread, write no file. */
  lemma OnlyLockedWrite(w: World, t: nat, l: Local, frozen: bool, c: Choice)
    ensures Die(l).cell.tmp == l.cell.tmp && Die(l).cell.file == l.cell.file
    ensures !Locked(l.phase) ==>
              Step(w, t, l, frozen, c).cell.tmp == l.cell.tmp && Step(w, t, l, frozen, c).cell.file == l.cell.file
  {
  }

  /** Only the thread that holds the lock of a key changes its `.tmp` or object file, and no other
      thread holds it. */
  lemma {:induction false} OnlyHolderWrites(w: World, actions: seq<Action>, a: Action, k: DiskKey)
    requires Sound(w)
    ensures var s, s' := Execute(w, actions), Act(w, Execute(w, actions), a);
            CellOf(s', k).tmp != CellOf(s, k).tmp || CellOf(s', k).file != CellOf(s, k).file ==>
              && a.Take? && CellOf(s, k).holder == Some(a.t)
              && forall t :: t in s.threads && Locked(s.threads[t].phase) && DiskKeyOf(s.threads[t].phase.r) == k
                             ==> t == a.t
  {
    ReachableInv(w, actions);
    var s := Execute(w, actions);
    if (a.Take? || a.Kill?) && a.t in s.threads && Busy(s.threads[a.t].phase) {
      WriterHoldsLock(w, s, a, k);
    } else {
      assert Act(w, s, a).cells == s.cells;
    }
    if a.Take? && CellOf(s, k).holder == Some(a.t) {
      OneHolder(s, k, a.t);
    }
  }

  /** A thread's step or death changes files only of its own key and only under the lock. */
  lemma WriterHoldsLock(w: World, s: System, a: Action, k: DiskKey)
    requires LocksAgree(s) && (a.Take? || a.Kill?) && a.t in s.threads && Busy(s.threads[a.t].phase)
    ensures var s' := Act(w, s, a);
            CellOf(s', k).tmp != CellOf(s, k).tmp || CellOf(s', k).file != CellOf(s, k).file ==>
              a.Take? && CellOf(s, k).holder == Some(a.t)
  {
    var th := s.threads[a.t];
    OnlyLockedWrite(w, a.t, LocalOf(s, a.t), th.process in s.frozen, if a.Take? then a.c else Choice(false, 0));
    assert DiskKeyOf(th.phase.r) != k ==> CellOf(Act(w, s, a), k) == CellOf(s, k);
  }

  lemma OneHolder(s: System, k: DiskKey, t: nat)
    requires LocksAgree(s) && CellOf(s, k).holder == Some(t)
    ensures forall u :: u in s.threads && Locked(s.threads[u].phase) && DiskKeyOf(s.threads[u].phase.r) == k ==> u == t
  {
  }
}
