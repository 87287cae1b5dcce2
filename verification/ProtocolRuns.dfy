/**
 What the cache protocol does, beyond what it keeps: a thread left alone finishes and answers as the
 sequential cache does, and a frozen process compiles nothing.
 */
module ProtocolRuns {
  import opened Wrappers
  import opened OrderedTable
  import opened CompileCache
  import opened CacheProtocol

  // ------------------------------------------------------------ a thread left alone

  /** `n` steps of one thread while no other runs. */
  function Alone(w: World, t: nat, l: Local, frozen: bool, c: Choice, n: nat): Local
    decreases n
  {
    if n == 0 then l else Alone(w, t, CacheProtocol.Step(w, t, l, frozen, c), frozen, c, n - 1)
  }

  lemma {:induction false} AloneAdd(w: World, t: nat, l: Local, frozen: bool, c: Choice, n: nat, m: nat)
    ensures Alone(w, t, l, frozen, c, n + m) == Alone(w, t, Alone(w, t, l, frozen, c, n), frozen, c, m)
    decreases n
  {
    if n > 0 {
      AloneAdd(w, t, CacheProtocol.Step(w, t, l, frozen, c), frozen, c, n - 1, m);
    }
  }

  /** Not kept out by another thread's lock. */
  predicate Free(t: nat, l: Local) {
    Busy(l.phase) && l.cell.holder == (if Locked(l.phase) then Some(t) else None)
  }

  /** How far a call is from its end. */
  function Stage(ph: Phase): nat {
    match ph
    case Lookup(_) => 14
    case Probe(_) => 13
    case Read(_) => 12
    case Await(_) => 11
    case LookAgain(_) => 10
    case ProbeAgain(_) => 9
    case ReadAgain(_) => 8
    case CheckFrozen(_) => 7
    case Compiling(_) => 6
    case OpenTmp(_, _) => 5
    case WriteTmp(_, _, _, _) => 4
    case Replace(_, _) => 3
    case Keep(_, _, _) => 2
    case Unlock(_, _) => 1
    case _ => 0
  }

  function Unwritten(ph: Phase): nat {
    if ph.WriteTmp? && ph.written < |ph.bytes| then |ph.bytes| - ph.written else 0
  }

  predicate Nearer(t: nat, l: Local, l': Local)
    requires Busy(l.phase)
  {
    && Free(t, l') && l'.phase.r == l.phase.r
    && (Stage(l'.phase) < Stage(l.phase) || (Stage(l'.phase) == Stage(l.phase) && Unwritten(l'.phase) < Unwritten(l.phase)))
  }

  lemma SearchIsNearer(w: World, t: nat, l: Local, c: Choice)
    requires Free(t, l) && !Locked(l.phase) && !l.phase.Done? && !c.fail
    ensures Nearer(t, l, SearchStep(w, t, l, c))
  {
  }

  lemma ResolveIsNearer(w: World, t: nat, l: Local, frozen: bool, c: Choice)
    requires Free(t, l) && Locked(l.phase) && !Storing(l.phase) && !l.phase.Keep? && !l.phase.Unlock?
    ensures Nearer(t, l, CacheProtocol.ResolveStep(w, l, frozen, c))
  {
  }

  lemma PublishIsNearer(w: World, t: nat, l: Local, c: Choice)
    requires Free(t, l) && Locked(l.phase) && (Storing(l.phase) || l.phase.Keep? || l.phase.Unlock?) && !c.fail && c.count >= 1
    ensures Nearer(t, l, PublishStep(w, l, c))
  {
  }

  lemma StepIsNearer(w: World, t: nat, l: Local, frozen: bool, c: Choice)
    requires Free(t, l) && !l.phase.Done? && !c.fail && c.count >= 1
    ensures Nearer(t, l, CacheProtocol.Step(w, t, l, frozen, c))
  {
    if !Locked(l.phase) {
      SearchIsNearer(w, t, l, c);
    } else if Storing(l.phase) || l.phase.Keep? || l.phase.Unlock? {
      PublishIsNearer(w, t, l, c);
    } else {
      ResolveIsNearer(w, t, l, frozen, c);
    }
  }

  /** Wherever it stands, a thread that nothing fails and no other thread keeps out finishes its call. */
  lemma {:induction false} Finishes(w: World, t: nat, l: Local, frozen: bool, c: Choice) returns (n: nat)
    requires Free(t, l) && !c.fail && c.count >= 1
    ensures var done := Alone(w, t, l, frozen, c, n); done.phase.Done? && done.phase.r == l.phase.r && done.cell.holder.None?
    decreases Stage(l.phase), Unwritten(l.phase)
  {
    if l.phase.Done? {
      n := 0;
    } else {
      StepIsNearer(w, t, l, frozen, c);
      n := Finishes(w, t, CacheProtocol.Step(w, t, l, frozen, c), frozen, c);
      n := n + 1;
    }
  }

  // ------------------------------------------------------------ its answer

  /** What the object file of a request loads as. */
  function Loads(w: World, r: Request, cell: Cell): Option<Program> {
    if cell.file.None? then None else w.load(DiskKeyOf(r), cell.file.value)
  }

  /** What is left where a program was compiled: the file is its dump, if it has one. */
  function Published(w: World, r: Request, p: Program, cell: Cell): Cell {
    match w.dump(DiskKeyOf(r), p)
    case None => cell.(compiled := cell.compiled + 1, lost := cell.lost + 1)
    case Some(bytes) => cell.(file := Some(bytes), tmp := None, compiled := cell.compiled + 1, published := cell.published + 1)
  }

  function Unread(cell: Cell): Cell { if cell.file.Some? then cell.(unreadable := cell.unreadable + 1) else cell }

  /** The end of a call that starts alone, without failures: memory, else the file if it loads, else the
      refusal of a frozen process, else the backend, whose program is published. */
  function Answer(w: World, r: Request, cell: Cell, mem: Table<MemoryKey, Program>, frozen: bool): Local {
    var hit, loaded := Recall(w, mem, r), Loads(w, r, cell);
    if hit.Some? then Local(Done(r, Returned(hit.value)), cell, Touch(mem, MemoryKeyOf(r)))
    else if loaded.Some? then Local(Done(r, Returned(loaded.value)), cell, Retain(w, mem, r, loaded.value))
    else if frozen then Local(Done(r, FrozenError), Unread(cell), mem)
    else
      match w.backend(r)
      case None => Local(Done(r, BackendFailed), Unread(cell), mem)
      case Some(p) => Local(Done(r, Returned(p)), Published(w, r, p, Unread(cell)), Retain(w, mem, r, p))
  }

  /** A writer cut short leaves exactly the pieces it got to: after `n` steps without trouble, the first
      `n * count` bytes of the dump, or all of it. */
  lemma {:induction false} WritesPiecewise(w: World, t: nat, l: Local, frozen: bool, c: Choice, n: nat)
    requires l.phase.WriteTmp? && l.phase.written == 0 && !c.fail && c.count >= 1
    requires l.cell.tmp == Some([]) && (n - 1) * c.count < |l.phase.bytes|
    ensures var bytes := l.phase.bytes;
            var written := if n * c.count < |bytes| then n * c.count else |bytes|;
            Alone(w, t, l, frozen, c, n) ==
            Local(WriteTmp(l.phase.r, l.phase.p, bytes, written), l.cell.(tmp := Some(bytes[..written])), l.memory)
  {
    if n > 0 {
      WritesPiecewise(w, t, l, frozen, c, n - 1);
      AloneAdd(w, t, l, frozen, c, n - 1, 1);
      var last := Alone(w, t, l, frozen, c, n - 1);
      assert Alone(w, t, last, frozen, c, 1) == Alone(w, t, CacheProtocol.Step(w, t, last, frozen, c), frozen, c, 0);
    } else {
      assert l.phase.bytes[..0] == [];
    }
  }

  /** Writing piece by piece ends with the whole dump in the temporary file. */
  lemma {:induction false} WritesAll(w: World, t: nat, l: Local, frozen: bool, c: Choice) returns (n: nat)
    requires l.phase.WriteTmp? && l.phase.written <= |l.phase.bytes| && !c.fail && c.count >= 1
    requires l.cell.tmp == Some(l.phase.bytes[..l.phase.written])
    ensures Alone(w, t, l, frozen, c, n) == Local(Replace(l.phase.r, l.phase.p), l.cell.(tmp := Some(l.phase.bytes)), l.memory)
    decreases |l.phase.bytes| - l.phase.written
  {
    var next := CacheProtocol.Step(w, t, l, frozen, c);
    if l.phase.written < |l.phase.bytes| {
      n := WritesAll(w, t, next, frozen, c);
      n := n + 1;
    } else {
      assert l.phase.bytes[..l.phase.written] == l.phase.bytes;
      assert Alone(w, t, next, frozen, c, 0) == next;
      n := 1;
    }
  }

  /** From a compiled program to the end of the call. */
  lemma {:induction false} Publishes(w: World, t: nat, l: Local, frozen: bool, c: Choice) returns (n: nat)
    requires l.phase.OpenTmp? && l.cell.holder == Some(t) && l.cell.compiled > 0 && !c.fail && c.count >= 1
    ensures var r, p, cell := l.phase.r, l.phase.p, l.cell.(compiled := l.cell.compiled - 1);
            Alone(w, t, l, frozen, c, n) ==
            Local(Done(r, Returned(p)), Published(w, r, p, cell).(holder := None), Retain(w, l.memory, r, p))
  {
    var begun := CacheProtocol.Step(w, t, l, frozen, c);
    assert Alone(w, t, l, frozen, c, 1) == Alone(w, t, begun, frozen, c, 0);
    var before: nat, kept := 1, begun;
    if begun.phase.WriteTmp? {
      var writing := WritesAll(w, t, begun, frozen, c);
      AloneAdd(w, t, l, frozen, c, 1, writing);
      var whole := Alone(w, t, begun, frozen, c, writing);
      kept := CacheProtocol.Step(w, t, whole, frozen, c);
      assert Alone(w, t, whole, frozen, c, 1) == Alone(w, t, kept, frozen, c, 0);
      AloneAdd(w, t, l, frozen, c, 1 + writing, 1);
      before := 1 + writing + 1;
    }
    assert Alone(w, t, l, frozen, c, before) == kept && kept.phase == Keep(l.phase.r, l.phase.p, true);
    KeepsAndUnlocks(w, t, kept, frozen, c);
    AloneAdd(w, t, l, frozen, c, before, 2);
    n := before + 2;
  }

  lemma {:induction false} KeepsAndUnlocks(w: World, t: nat, l: Local, frozen: bool, c: Choice)
    requires l.phase.Keep? && l.phase.locked
    ensures Alone(w, t, l, frozen, c, 2) ==
            Local(Done(l.phase.r, Returned(l.phase.p)), l.cell.(holder := None), Retain(w, l.memory, l.phase.r, l.phase.p))
  {
    var next := CacheProtocol.Step(w, t, l, frozen, c);
    assert Alone(w, t, l, frozen, c, 2) == Alone(w, t, next, frozen, c, 1);
    assert Alone(w, t, next, frozen, c, 1) == Alone(w, t, CacheProtocol.Step(w, t, next, frozen, c), frozen, c, 0);
  }

  /** Steps that only look. */
  lemma {:induction false} OneMore(w: World, t: nat, l: Local, frozen: bool, c: Choice, next: Local, n: nat)
    requires CacheProtocol.Step(w, t, l, frozen, c) == next
    ensures Alone(w, t, l, frozen, c, n + 1) == Alone(w, t, next, frozen, c, n)
  {
  }

  /** The end of a call that reaches the freeze check. */
  function Settled(w: World, r: Request, cell: Cell, mem: Table<MemoryKey, Program>, frozen: bool): Local {
    if frozen then Local(Done(r, FrozenError), cell.(holder := None), mem)
    else
      match w.backend(r)
      case None => Local(Done(r, BackendFailed), cell.(holder := None), mem)
      case Some(p) => Local(Done(r, Returned(p)), Published(w, r, p, cell).(holder := None), Retain(w, mem, r, p))
  }

  /** From the freeze check to the end, with the lock held. */
  lemma {:induction false} Resolves(w: World, t: nat, r: Request, cell: Cell, mem: Table<MemoryKey, Program>, frozen: bool, c: Choice)
    returns (n: nat)
    requires cell.holder == Some(t) && !c.fail && c.count >= 1
    ensures Alone(w, t, Local(CheckFrozen(r), cell, mem), frozen, c, n) == Settled(w, r, cell, mem, frozen)
  {
    var l := Local(CheckFrozen(r), cell, mem);
    if frozen {
      OneMore(w, t, l, frozen, c, l.(phase := Unlock(r, FrozenError)), 1);
      n := Unlocks(w, t, l.(phase := Unlock(r, FrozenError)), frozen, c);
      n := n + 1;
    } else {
      var compiling := l.(phase := Compiling(r));
      if w.backend(r).None? {
        OneMore(w, t, l, frozen, c, compiling, 2);
        OneMore(w, t, compiling, frozen, c, l.(phase := Unlock(r, BackendFailed)), 1);
        n := Unlocks(w, t, l.(phase := Unlock(r, BackendFailed)), frozen, c);
        n := n + 2;
      } else {
        var compiled := Local(OpenTmp(r, w.backend(r).value), cell.(compiled := cell.compiled + 1), mem);
        n := Publishes(w, t, compiled, frozen, c);
        OneMore(w, t, compiling, frozen, c, compiled, n);
        OneMore(w, t, l, frozen, c, compiling, n + 1);
        n := n + 2;
      }
    }
  }

  lemma {:induction false} Unlocks(w: World, t: nat, l: Local, frozen: bool, c: Choice) returns (n: nat)
    requires l.phase.Unlock?
    ensures n == 1 && Alone(w, t, l, frozen, c, n) == Local(Done(l.phase.r, l.phase.o), l.cell.(holder := None), l.memory)
  {
    n := 1;
    OneMore(w, t, l, frozen, c, Local(Done(l.phase.r, l.phase.o), l.cell.(holder := None), l.memory), 0);
  }

  /** From the second look for the file, which does not load, to the end. */
  lemma {:induction false} ProbesAgain(w: World, t: nat, r: Request, held: Cell, mem: Table<MemoryKey, Program>, frozen: bool, c: Choice)
    returns (n: nat)
    requires held.holder == Some(t) && !c.fail && c.count >= 1 && Loads(w, r, held).None?
    ensures Alone(w, t, Local(ProbeAgain(r), held, mem), frozen, c, n) == Settled(w, r, Unread(held), mem, frozen)
  {
    n := Resolves(w, t, r, Unread(held), mem, frozen, c);
    if held.file.Some? {
      OneMore(w, t, Local(ReadAgain(r), held, mem), frozen, c, Local(CheckFrozen(r), Unread(held), mem), n);
      OneMore(w, t, Local(ProbeAgain(r), held, mem), frozen, c, Local(ReadAgain(r), held, mem), n + 1);
      n := n + 2;
    } else {
      OneMore(w, t, Local(ProbeAgain(r), held, mem), frozen, c, Local(CheckFrozen(r), held, mem), n);
      n := n + 1;
    }
  }

  /** From the wait for the free lock to the end, where memory holds nothing and the file does not load. */
  lemma {:induction false} LooksAgain(w: World, t: nat, r: Request, cell: Cell, mem: Table<MemoryKey, Program>, frozen: bool, c: Choice)
    returns (n: nat)
    requires cell.holder.None? && !c.fail && c.count >= 1
    requires Recall(w, mem, r).None? && Loads(w, r, cell).None?
    ensures Alone(w, t, Local(Await(r), cell, mem), frozen, c, n) == Answer(w, r, cell, mem, frozen)
  {
    var held := cell.(holder := Some(t));
    n := ProbesAgain(w, t, r, held, mem, frozen, c);
    SettledIsAnswer(w, t, r, cell, mem, frozen);
    OneMore(w, t, Local(LookAgain(r), held, mem), frozen, c, Local(ProbeAgain(r), held, mem), n);
    OneMore(w, t, Local(Await(r), cell, mem), frozen, c, Local(LookAgain(r), held, mem), n + 1);
    n := n + 2;
  }

  lemma SettledIsAnswer(w: World, t: nat, r: Request, cell: Cell, mem: Table<MemoryKey, Program>, frozen: bool)
    requires cell.holder.None? && Recall(w, mem, r).None? && Loads(w, r, cell).None?
    ensures Settled(w, r, Unread(cell.(holder := Some(t))), mem, frozen) == Answer(w, r, cell, mem, frozen)
  {
  }

  /** A call that runs alone from its start answers so. */
  lemma {:induction false} AnswersAlone(w: World, t: nat, r: Request, cell: Cell, mem: Table<MemoryKey, Program>, frozen: bool, c: Choice)
    returns (n: nat)
    requires cell.holder.None? && !c.fail && c.count >= 1
    ensures Alone(w, t, Local(Lookup(r), cell, mem), frozen, c, n) == Answer(w, r, cell, mem, frozen)
  {
    var start, probe, await := Local(Lookup(r), cell, mem), Local(Probe(r), cell, mem), Local(Await(r), cell, mem);
    if Recall(w, mem, r).Some? {
      n := 1;
      OneMore(w, t, start, frozen, c, Answer(w, r, cell, mem, frozen), 0);
    } else if Loads(w, r, cell).Some? {
      var found := Local(Keep(r, Loads(w, r, cell).value, false), cell, mem);
      OneMore(w, t, found, frozen, c, Answer(w, r, cell, mem, frozen), 0);
      OneMore(w, t, Local(Read(r), cell, mem), frozen, c, found, 1);
      OneMore(w, t, probe, frozen, c, Local(Read(r), cell, mem), 2);
      OneMore(w, t, start, frozen, c, probe, 3);
      n := 4;
    } else {
      n := LooksAgain(w, t, r, cell, mem, frozen, c);
      if cell.file.Some? {
        OneMore(w, t, Local(Read(r), cell, mem), frozen, c, await, n);
        OneMore(w, t, probe, frozen, c, Local(Read(r), cell, mem), n + 1);
        OneMore(w, t, start, frozen, c, probe, n + 2);
        n := n + 3;
      } else {
        OneMore(w, t, probe, frozen, c, await, n);
        OneMore(w, t, start, frozen, c, probe, n + 1);
        n := n + 2;
      }
    }
  }

  /** The sequential cache sees of a key what its file loads as. */
  predicate SameView(w: World, v: Setup, r: Request, cell: Cell, mem: Table<MemoryKey, Program>, frozen: bool, s: Caches) {
    && v.memoryOn == w.memoryOn && v.diskOn && v.limit == w.limit && v.backend(r) == w.backend(r)
    && s.memory == mem && s.frozen == frozen
    && (OnDisk(v, s, r) <==> Loads(w, r, cell).Some?)
    && (Loads(w, r, cell).Some? ==> s.disk[DiskKeyOf(r)] == Loads(w, r, cell).value)
  }

  /** The protocol refines the sequential cache: a call that runs alone ends with the outcome and the memory
      of one sequential call, and with an object file where that call finds or leaves one on disk. */
  lemma {:induction false} AloneIsSequential(w: World, v: Setup, t: nat, r: Request, cell: Cell, mem: Table<MemoryKey, Program>,
                                             frozen: bool, c: Choice, s: Caches)
    returns (n: nat)
    requires cell.holder.None? && !c.fail && c.count >= 1 && SameView(w, v, r, cell, mem, frozen, s)
    ensures var done, e := Alone(w, t, Local(Lookup(r), cell, mem), frozen, c, n), CompileStep(v, s, r);
            && done.phase == Done(r, e.outcome) && done.memory == e.caches.memory
            && (done.cell.compiled > cell.compiled <==> e.backendCalled && e.outcome.Returned?)
            && (done.cell.compiled > cell.compiled && w.dump(DiskKeyOf(r), e.outcome.program).Some? ==>
                  done.cell.file == w.dump(DiskKeyOf(r), e.outcome.program))
            && (done.cell.compiled == cell.compiled ==> done.cell.file == cell.file)
  {
    n := AnswersAlone(w, t, r, cell, mem, frozen, c);
  }

  // ------------------------------------------------------------ the same in the whole system

  /** `n` turns of one thread. */
  function Turns(t: nat, c: Choice, n: nat): seq<Action> { seq(n, _ => Take(t, c)) }

  lemma {:induction false} ExecuteAppend(w: World, actions: seq<Action>, a: Action)
    ensures Execute(w, actions + [a]) == Act(w, Execute(w, actions), a)
  {
    assert (actions + [a])[..|actions|] == actions;
  }

  function TakeTurns(w: World, s: System, t: nat, c: Choice, n: nat): System
    decreases n
  {
    if n == 0 then s else Act(w, TakeTurns(w, s, t, c, n - 1), Take(t, c))
  }

  lemma OneTurnMore(actions: seq<Action>, t: nat, c: Choice, n: nat)
    requires n > 0
    ensures actions + Turns(t, c, n) == (actions + Turns(t, c, n - 1)) + [Take(t, c)]
  {
  }

  lemma {:induction false} ExecuteTurns(w: World, actions: seq<Action>, t: nat, c: Choice, n: nat)
    ensures Execute(w, actions + Turns(t, c, n)) == TakeTurns(w, Execute(w, actions), t, c, n)
    decreases n
  {
    if n == 0 {
      NoTurns(actions, t, c);
    } else {
      ExecuteTurns(w, actions, t, c, n - 1);
      OneTurnMore(actions, t, c, n);
      ExecuteTurn(w, actions + Turns(t, c, n - 1), Execute(w, actions), t, c, n - 1);
    }
  }

  lemma {:induction false} ExecuteTurn(w: World, longer: seq<Action>, s: System, t: nat, c: Choice, n: nat)
    requires Execute(w, longer) == TakeTurns(w, s, t, c, n)
    ensures Execute(w, longer + [Take(t, c)]) == TakeTurns(w, s, t, c, n + 1)
  {
    ExecuteAppend(w, longer, Take(t, c));
    TakesOneMore(w, s, t, c, n);
  }

  lemma NoTurns(actions: seq<Action>, t: nat, c: Choice)
    ensures actions + Turns(t, c, 0) == actions
  {
  }

  lemma {:induction false} AloneNext(w: World, t: nat, l: Local, frozen: bool, c: Choice, n: nat)
    ensures Alone(w, t, l, frozen, c, n + 1) == CacheProtocol.Step(w, t, Alone(w, t, l, frozen, c, n), frozen, c)
  {
    AloneAdd(w, t, l, frozen, c, n, 1);
    var m := Alone(w, t, l, frozen, c, n);
    assert Alone(w, t, m, frozen, c, 1) == Alone(w, t, CacheProtocol.Step(w, t, m, frozen, c), frozen, c, 0);
  }

  /** The system after turns of one thread: that thread, its key and its memory as if it ran alone, everything
      else as it was. */
  ghost predicate RanAlone(w: World, s: System, t: nat, c: Choice, n: nat, l: Local)
    requires t in s.threads && Busy(s.threads[t].phase)
  {
    && l == Alone(w, t, LocalOf(s, t), s.threads[t].process in s.frozen, c, n)
    && Free(t, l) && l.phase.r == s.threads[t].phase.r
    && TakeTurns(w, s, t, c, n) == (if n == 0 then s else WithLocal(s, t, l))
  }

  lemma {:induction false} TurnsAreAlone(w: World, s: System, t: nat, c: Choice, n: nat) returns (l: Local)
    requires t in s.threads && Busy(s.threads[t].phase) && Free(t, LocalOf(s, t)) && !c.fail && c.count >= 1
    ensures RanAlone(w, s, t, c, n, l)
    decreases n
  {
    if n == 0 {
      l := LocalOf(s, t);
    } else {
      l := TurnsAreAlone(w, s, t, c, n - 1);
      l := NextTurn(w, s, t, c, n - 1, l);
    }
  }

  lemma {:induction false} NextTurn(w: World, s: System, t: nat, c: Choice, n: nat, l: Local) returns (next: Local)
    requires t in s.threads && Busy(s.threads[t].phase) && !c.fail && c.count >= 1 && RanAlone(w, s, t, c, n, l)
    ensures RanAlone(w, s, t, c, n + 1, next)
  {
    var frozen := s.threads[t].process in s.frozen;
    next := CacheProtocol.Step(w, t, l, frozen, c);
    AloneNext(w, t, LocalOf(s, t), frozen, c, n);
    TurnAgain(w, s, t, l, frozen, c, n);
    TakesOneMore(w, s, t, c, n);
  }

  lemma {:induction false} TakesOneMore(w: World, s: System, t: nat, c: Choice, n: nat)
    ensures TakeTurns(w, s, t, c, n + 1) == Act(w, TakeTurns(w, s, t, c, n), Take(t, c))
  {
  }

  lemma {:induction false} TurnAgain(w: World, s: System, t: nat, l: Local, frozen: bool, c: Choice, n: nat)
    requires t in s.threads && Busy(s.threads[t].phase) && frozen == (s.threads[t].process in s.frozen)
    requires Free(t, l) && l.phase.r == s.threads[t].phase.r && !c.fail && c.count >= 1
    requires n == 0 ==> l == LocalOf(s, t)
    ensures var before, next := if n == 0 then s else WithLocal(s, t, l), CacheProtocol.Step(w, t, l, frozen, c);
            Free(t, next) && next.phase.r == l.phase.r && Act(w, before, Take(t, c)) == WithLocal(s, t, next)
  {
    if !l.phase.Done? {
      StepIsNearer(w, t, l, frozen, c);
    }
    if n > 0 {
      SeesItself(s, t, l);
      UpdatesOnce(s, t, l, CacheProtocol.Step(w, t, l, frozen, c));
    }
  }

  /** A thread sees what it left. */
  lemma SeesItself(s: System, t: nat, l: Local)
    requires t in s.threads && Busy(s.threads[t].phase) && Busy(l.phase) && l.phase.r == s.threads[t].phase.r
    ensures LocalOf(WithLocal(s, t, l), t) == l && WithLocal(s, t, l).frozen == s.frozen
  {
  }

  lemma UpdatesOnce(s: System, t: nat, l: Local, next: Local)
    requires t in s.threads && Busy(s.threads[t].phase) && Busy(l.phase) && l.phase.r == s.threads[t].phase.r
    ensures WithLocal(WithLocal(s, t, l), t, next) == WithLocal(s, t, next)
  {
    var a, b := WithLocal(WithLocal(s, t, l), t, next), WithLocal(s, t, next);
    assert a.threads == b.threads && a.cells == b.cells && a.memories == b.memories;
  }

  /** From every reachable state, a call of a thread that is not busy finishes if that thread gets its turns
      and no other holds the lock of its key, and it ends exactly as it would alone. */
  lemma {:induction false} CallsFinish(w: World, actions: seq<Action>, t: nat, r: Request) returns (turns: seq<Action>)
    requires var s := Execute(w, actions);
             && t in s.threads && (s.threads[t].phase.Idle? || s.threads[t].phase.Done?)
             && CellOf(s, DiskKeyOf(r)).holder.None?
    ensures var s := Execute(w, actions);
            var process := s.threads[t].process;
            var answer := Answer(w, r, CellOf(s, DiskKeyOf(r)), MemoryOf(s, process), process in s.frozen);
            var after := Execute(w, actions + [Call(t, r)] + turns);
            && answer.phase.Done? && t in after.threads && after.threads[t] == Thread(process, answer.phase)
            && CellOf(after, DiskKeyOf(r)) == answer.cell && MemoryOf(after, process) == answer.memory
  {
    var s := Execute(w, actions);
    var process, c := s.threads[t].process, Choice(false, 1);
    ExecuteAppend(w, actions, Call(t, r));
    var called := Execute(w, actions + [Call(t, r)]);
    var l := LocalOf(called, t);
    assert l == Local(Lookup(r), CellOf(s, DiskKeyOf(r)), MemoryOf(s, process));
    var n := AnswersAlone(w, t, r, l.cell, l.memory, process in s.frozen, c);
    var done := TurnsAreAlone(w, called, t, c, n);
    ExecuteTurns(w, actions + [Call(t, r)], t, c, n);
    turns := Turns(t, c, n);
  }

  /** So does the call of a thread that is yet to be started, in any process. */
  lemma {:induction false} FreshCallsFinish(w: World, actions: seq<Action>, t: nat, process: nat, r: Request) returns (turns: seq<Action>)
    requires var s := Execute(w, actions); t !in s.threads && CellOf(s, DiskKeyOf(r)).holder.None?
    ensures var s := Execute(w, actions);
            var answer := Answer(w, r, CellOf(s, DiskKeyOf(r)), MemoryOf(s, process), process in s.frozen);
            var after := Execute(w, actions + [Spawn(t, process)] + [Call(t, r)] + turns);
            && answer.phase.Done? && t in after.threads && after.threads[t] == Thread(process, answer.phase)
  {
    ExecuteAppend(w, actions, Spawn(t, process));
    turns := CallsFinish(w, actions + [Spawn(t, process)], t, r);
  }

  /** What the other actions do: a dead thread stays dead and frees its lock, a cleared memory is empty. */
  lemma KilledAndCleared(w: World, s: System, t: nat, process: nat)
    requires LocksAgree(s)
    ensures t in s.threads && Busy(s.threads[t].phase) ==>
              var after := Act(w, s, Kill(t));
              && after.threads[t].phase.Dead? && (forall a: Action :: a.Take? && a.t == t ==> Act(w, after, a) == after)
              && CellOf(after, DiskKeyOf(s.threads[t].phase.r)).holder != Some(t)
    ensures MemoryOf(Act(w, s, ClearMemory(process)), process) == []
    ensures forall other: nat :: other != process ==> MemoryOf(Act(w, s, ClearMemory(process)), other) == MemoryOf(s, other)
  {
  }

  /** The last freeze or thaw of a process in a run. */
  function LastFreeze(actions: seq<Action>, process: nat): bool {
    if actions == [] then false
    else
      var a := actions[|actions| - 1];
      if a.SetFreeze? && a.process == process then a.on else LastFreeze(actions[..|actions| - 1], process)
  }

  /** A process is frozen exactly when its last freeze or thaw was a freeze. */
  lemma {:induction false} FrozenByLast(w: World, actions: seq<Action>, process: nat)
    ensures process in Execute(w, actions).frozen <==> LastFreeze(actions, process)
  {
    if actions != [] {
      FrozenByLast(w, actions[..|actions| - 1], process);
    }
  }

  // ------------------------------------------------------------ frozen processes

  /** A compile is counted only by a step out of `Compiling`, which is entered only by the freeze check of a
      process that is not frozen; a refusal comes only from that check in one that is. */
  lemma StepAndFreeze(w: World, t: nat, l: Local, frozen: bool, c: Choice)
    requires Busy(l.phase)
    ensures var l' := CacheProtocol.Step(w, t, l, frozen, c);
            && (l'.cell.compiled > l.cell.compiled <==> l.phase.Compiling? && w.backend(l.phase.r).Some?)
            && l'.cell.compiled >= l.cell.compiled
            && (l'.phase.Compiling? <==> l.phase.CheckFrozen? && !frozen)
            && (Refuses(l'.phase) && !Refuses(l.phase) <==> l.phase.CheckFrozen? && frozen)
  {
  }

  predicate Refuses(ph: Phase) {
    (ph.Unlock? && ph.o == FrozenError) || (ph.Done? && ph.o == FrozenError)
  }

  /** A thread of this process is past the freeze check, about to compile what the backend can compile. */
  predicate Committing(w: World, s: System, process: nat) {
    exists t :: t in s.threads && s.threads[t].process == process
                && s.threads[t].phase.Compiling? && w.backend(s.threads[t].phase.r).Some?
  }

  predicate Unfreezes(a: Action, process: nat) { a == SetFreeze(process, false) }

  /** The action is a step of a thread of this process. */
  predicate StepOf(s: System, a: Action, process: nat) {
    a.Take? && a.t in s.threads && s.threads[a.t].process == process
  }

  /** The action counts a compile of some key. */
  ghost predicate Counts(w: World, s: System, a: Action) {
    exists k :: CellOf(Act(w, s, a), k).compiled > CellOf(s, k).compiled
  }

  lemma CountsExact(w: World, s: System, a: Action)
    ensures Counts(w, s, a) <==>
              && a.Take? && a.t in s.threads && s.threads[a.t].phase.Compiling? && w.backend(s.threads[a.t].phase.r).Some?
  {
    if a.Take? && a.t in s.threads && Busy(s.threads[a.t].phase) {
      var l, k := LocalOf(s, a.t), DiskKeyOf(s.threads[a.t].phase.r);
      StepAndFreeze(w, a.t, l, s.threads[a.t].process in s.frozen, a.c);
      assert CellOf(Act(w, s, a), k) == CacheProtocol.Step(w, a.t, l, s.threads[a.t].process in s.frozen, a.c).cell;
      assert forall j :: j != k ==> CellOf(Act(w, s, a), j) == CellOf(s, j);
    } else if a.Kill? && a.t in s.threads && Busy(s.threads[a.t].phase) {
      var k := DiskKeyOf(s.threads[a.t].phase.r);
      assert CellOf(Act(w, s, a), k) == Die(LocalOf(s, a.t)).cell;
      assert forall j :: j != k ==> CellOf(Act(w, s, a), j) == CellOf(s, j);
    } else {
      assert forall j :: CellOf(Act(w, s, a), j) == CellOf(s, j);
    }
  }

  /** No step of this process counts a compile. */
  ghost predicate CompilesNothing(w: World, s: System, actions: seq<Action>, process: nat)
    decreases |actions|
  {
    actions == [] ||
    (!(StepOf(s, actions[0], process) && Counts(w, s, actions[0])) && CompilesNothing(w, Act(w, s, actions[0]), actions[1..], process))
  }

  lemma ActKeepsFrozen(w: World, s: System, a: Action, process: nat)
    requires process in s.frozen && !Committing(w, s, process) && !Unfreezes(a, process)
    ensures process in Act(w, s, a).frozen && !Committing(w, Act(w, s, a), process)
  {
    var s' := Act(w, s, a);
    forall t | t in s'.threads && s'.threads[t].process == process && s'.threads[t].phase.Compiling?
      ensures w.backend(s'.threads[t].phase.r).None?
    {
      if a.Take? && a.t == t && Busy(s.threads[t].phase) {
        StepAndFreeze(w, t, LocalOf(s, t), true, a.c);
      }
    }
  }

  lemma {:induction false} FrozenCompilesNothing(w: World, s: System, actions: seq<Action>, process: nat)
    requires process in s.frozen && !Committing(w, s, process)
    requires forall i :: 0 <= i < |actions| ==> !Unfreezes(actions[i], process)
    ensures CompilesNothing(w, s, actions, process)
    decreases |actions|
  {
    if actions != [] {
      CountsExact(w, s, actions[0]);
      ActKeepsFrozen(w, s, actions[0], process);
      FrozenCompilesNothing(w, Act(w, s, actions[0]), actions[1..], process);
    }
  }

  /** From the moment a process is frozen it compiles nothing, whatever is scheduled, until it is unfrozen:
      if and only if none of its threads is then past the freeze check with something to compile. */
  lemma {:induction false} FreezeExact(w: World, s: System, process: nat)
    requires process in s.frozen
    ensures (forall actions :: NoThaw(actions, process) ==> CompilesNothing(w, s, actions, process)) <==> !Committing(w, s, process)
  {
    if !Committing(w, s, process) {
      forall actions | NoThaw(actions, process) ensures CompilesNothing(w, s, actions, process) {
        FrozenCompilesNothing(w, s, actions, process);
      }
    } else {
      var t :| t in s.threads && s.threads[t].process == process
               && s.threads[t].phase.Compiling? && w.backend(s.threads[t].phase.r).Some?;
      var actions := [Take(t, Choice(false, 1))];
      CountsExact(w, s, actions[0]);
      assert NoThaw(actions, process) && !CompilesNothing(w, s, actions, process);
    }
  }

  predicate NoThaw(actions: seq<Action>, process: nat) {
    forall i :: 0 <= i < |actions| ==> !Unfreezes(actions[i], process)
  }

  /** The process was frozen at some moment of the run. */
  predicate WasFrozen(w: World, actions: seq<Action>, process: nat) {
    exists i :: 0 <= i <= |actions| && process in Execute(w, actions[..i]).frozen
  }

  /** A call is refused for being frozen only in a process that was. */
  lemma {:induction false} RefusedWasFrozen(w: World, actions: seq<Action>, t: nat)
    requires t in Execute(w, actions).threads && Refuses(Execute(w, actions).threads[t].phase)
    ensures WasFrozen(w, actions, Execute(w, actions).threads[t].process)
  {
    if actions != [] {
      var last := |actions| - 1;
      var front, a := actions[..last], actions[last];
      var s := Execute(w, front);
      var process := Execute(w, actions).threads[t].process;
      if t in s.threads && Refuses(s.threads[t].phase) && s.threads[t].process == process {
        RefusedWasFrozen(w, front, t);
        var i :| 0 <= i <= |front| && process in Execute(w, front[..i]).frozen;
        assert actions[..i] == front[..i];
      } else {
        NewlyRefused(w, s, a, t);
        assert process in Execute(w, actions[..last]).frozen;
      }
    }
  }

  lemma NewlyRefused(w: World, s: System, a: Action, t: nat)
    requires t in Act(w, s, a).threads && Refuses(Act(w, s, a).threads[t].phase)
    requires !(t in s.threads && Refuses(s.threads[t].phase) && s.threads[t].process == Act(w, s, a).threads[t].process)
    ensures Act(w, s, a).threads[t].process in s.frozen
  {
    if a.Take? && a.t == t && t in s.threads && Busy(s.threads[t].phase) {
      StepAndFreeze(w, t, LocalOf(s, t), s.threads[t].process in s.frozen, a.c);
    }
  }
}
