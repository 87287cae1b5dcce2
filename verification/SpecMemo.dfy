/**
 The memoised spec constructors: a bounded table in front of the canonical JSON key, keyed by the
 printed representation of the arguments.
 */
module SpecMemo {
  import opened Wrappers
  import opened OrderedTable
  import opened JsonText
  import opened CompileSpecs
  import opened FactMeaning
  import opened ReprText

  const SPEC_MEMO_MAX := 8192

  /** A call of one of the three constructors. */
  datatype Ask =
    | FromFacts(kernel: Text, version: int, facts: seq<Fact>)
    | FromFields(kernel: Text, version: int, fields: seq<FieldArg>)
    | FromKey(kernel: Text, version: int, key: seq<Fact>, labels: Option<seq<Text>>)

  /** A field is given as a key field or as a (name, value) pair. */
  datatype FieldArg = FieldArg(asKeyField: bool, name: Text, value: Fact)

  datatype Spec =
    | Spec(kernel: Text, version: int, jsonKey: string, hashKey: string)
    | LegacySpec(kernel: Text, version: int, fields: seq<(Text, Fact)>)

  datatype Built = Built(spec: Spec) | TypeError | ValueError

  datatype Kind = FactsKind | FieldsKind | KeyKind

  datatype MemoKey = MemoKey(kind: Kind, kernel: Text, version: int, payload: string, labels: Option<seq<Text>>)

  type Memo = Table<MemoKey, Spec>

  /** How the runtime prints values, the hash of a key, and the switch of the memo. */
  datatype Setup = Setup(printing: Printing, hash: string -> string, enabled: bool)

  // ------------------------------------------------------------ without the memo

  function ArgOf(f: FieldArg): Fact {
    if f.asKeyField then FField(f.name, f.value) else FTuple([FStr(f.name), f.value])
  }

  function Named(name: Text, value: Fact): Fact { FTuple([FStr(name), value]) }

  /** The argument tuple the memo key prints. */
  function Payload(a: Ask): Fact {
    match a
    case FromFacts(_, _, facts) => FTuple(facts)
    case FromFields(_, _, fields) => FTuple(seq(|fields|, i requires 0 <= i < |fields| => ArgOf(fields[i])))
    case FromKey(_, _, key, _) => FTuple(key)
  }

  predicate LabelsFit(a: Ask) {
    a.FromKey? && a.labels.Some? ==> |a.labels.value| == |a.key|
  }

  /** Whether the fields or the key are plain data. */
  predicate Accepts(a: Ask) {
    match a
    case FromFacts(_, _, facts) => IsJsonPod(FTuple(facts))
    case FromFields(_, _, fields) => forall i :: 0 <= i < |fields| ==> IsJsonPod(fields[i].value)
    case FromKey(_, _, key, _) => IsJsonPod(FTuple(key))
  }

  /** The facts behind the call: named pairs where names or labels are given. */
  function HandedOn(a: Ask): seq<Fact>
    requires LabelsFit(a)
  {
    match a
    case FromFacts(_, _, facts) => facts
    case FromFields(_, _, fields) => seq(|fields|, i requires 0 <= i < |fields| => Named(fields[i].name, fields[i].value))
    case FromKey(_, _, key, labels) =>
      if labels.None? then key
      else seq(|key|, i requires 0 <= i < |key| => Named(labels.value[i], key[i]))
  }

  function DecimalText(i: nat): Text { Ascii(Digits(i)) }

  /** The fields a spec keeps when it is not plain data. */
  function LegacyFields(a: Ask): seq<(Text, Fact)>
    requires LabelsFit(a)
  {
    match a
    case FromFacts(_, _, _) => []
    case FromFields(_, _, fields) => seq(|fields|, i requires 0 <= i < |fields| => (fields[i].name, fields[i].value))
    case FromKey(_, _, key, labels) =>
      seq(|key|, i requires 0 <= i < |key| => (if labels.Some? then labels.value[i] else Ascii("arg") + DecimalText(i), key[i]))
  }

  function FromText(w: Setup, kernel: Text, version: int, text: Option<string>): Built {
    if text.None? then TypeError else Built(Spec(kernel, version, text.value, w.hash(text.value)))
  }

  /** What the constructor returns without any memo. */
  function Direct(w: Setup, a: Ask): Built {
    if !LabelsFit(a) then ValueError
    else if a.FromFacts? || Accepts(a) then FromText(w, a.kernel, a.version, SpecText(a.kernel, a.version, HandedOn(a)))
    else Built(LegacySpec(a.kernel, a.version, LegacyFields(a)))
  }

  /** The facts a call stands for: as they are given, or each with its name or label. */
  predicate StandsFor(a: Ask, facts: seq<Fact>) {
    match a
    case FromFacts(_, _, given) => facts == given
    case FromFields(_, _, fields) =>
      |facts| == |fields| && forall i :: 0 <= i < |fields| ==> facts[i] == FTuple([FStr(fields[i].name), fields[i].value])
    case FromKey(_, _, key, labels) =>
      && |facts| == |key|
      && forall i :: 0 <= i < |key| && (labels.None? || i < |labels.value|) ==>
           facts[i] == if labels.Some? then FTuple([FStr(labels.value[i]), key[i]]) else key[i]
  }

  /** What a spec that is not plain data keeps: every field with its name, its label or its place. */
  predicate KeepsFields(a: Ask, fields: seq<(Text, Fact)>) {
    match a
    case FromFacts(_, _, _) => false
    case FromFields(_, _, given) =>
      |fields| == |given| && forall i :: 0 <= i < |given| ==> fields[i] == (given[i].name, given[i].value)
    case FromKey(_, _, key, labels) =>
      && |fields| == |key|
      && forall i :: 0 <= i < |key| && (labels.None? || i < |labels.value|) ==>
           fields[i] == (if labels.Some? then labels.value[i] else Ascii("arg") + DecimalText(i), key[i])
  }

  /** How a constructor ends without a memo: labels that do not fit are refused, facts that are not plain data
      too; plain data makes a spec of its kernel and version whose key is that of the facts it stands for;
      other fields and keys are kept as they are. */
  lemma DirectExact(w: Setup, a: Ask)
    ensures Direct(w, a) == ValueError <==> a.FromKey? && a.labels.Some? && |a.labels.value| != |a.key|
    ensures Direct(w, a) == TypeError <==> a.FromFacts? && !IsJsonPod(FTuple(a.facts))
    ensures LabelsFit(a) && Accepts(a) ==>
              && Direct(w, a).Built? && Direct(w, a).spec.Spec?
              && var s := Direct(w, a).spec;
                 && s.kernel == a.kernel && s.version == a.version && s.hashKey == w.hash(s.jsonKey)
                 && StandsFor(a, HandedOn(a)) && IsJsonPod(FTuple(HandedOn(a)))
                 && SpecText(a.kernel, a.version, HandedOn(a)) == Some(s.jsonKey)
    ensures LabelsFit(a) && !Accepts(a) && !a.FromFacts? ==>
              && Direct(w, a).Built? && Direct(w, a).spec.LegacySpec?
              && var s := Direct(w, a).spec; s.kernel == a.kernel && s.version == a.version && KeepsFields(a, s.fields)
  {
    if a.FromFacts? {
      ItemsExactlyWhenAccepted(a.facts);
    }
    if LabelsFit(a) && Accepts(a) {
      HandedOnBuildsSame(w, a);
    }
  }

  lemma OneStandsFor(a: Ask, facts: seq<Fact>)
    requires LabelsFit(a) && StandsFor(a, facts)
    ensures facts == HandedOn(a)
  {
  }

  /** Two plain-data calls of any kind get one key exactly when their versions agree and their kernels and the
      facts they stand for are spelled alike. */
  lemma {:induction false} CallsShareKeyExactly(w: Setup, a: Ask, b: Ask, facts: seq<Fact>, others: seq<Fact>)
    requires LabelsFit(a) && LabelsFit(b) && Accepts(a) && Accepts(b)
    requires StandsFor(a, facts) && StandsFor(b, others) && WellFormed(FTuple(facts)) && WellFormed(FTuple(others))
    ensures Direct(w, a).Built? && Direct(w, b).Built? && Direct(w, a).spec.Spec? && Direct(w, b).spec.Spec?
    ensures Direct(w, a).spec.jsonKey == Direct(w, b).spec.jsonKey <==>
              SameText(a.kernel, b.kernel) && a.version == b.version && Alike(FTuple(facts), FTuple(others))
  {
    DirectExact(w, a);
    DirectExact(w, b);
    OneStandsFor(a, facts);
    OneStandsFor(b, others);
    SpecKeysMean(a.kernel, a.version, facts, b.kernel, b.version, others);
  }

  // ------------------------------------------------------------ with the memo

  function MemoKeyOf(w: Setup, a: Ask): MemoKey {
    MemoKey(if a.FromFacts? then FactsKind else if a.FromFields? then FieldsKind else KeyKind, a.kernel, a.version, Repr(w.printing, Payload(a)),
            if a.FromKey? then a.labels else None)
  }

  /** A lookup moves its entry; a fresh spec is stored, evicting beyond the bound. */
  function FactsStep(w: Setup, memo: Memo, a: Ask): (Built, Memo)
    requires a.FromFacts?
  {
    var found := Find(memo, MemoKeyOf(w, a));
    if found.Some? then (Built(found.value), Touch(memo, MemoKeyOf(w, a)))
    else
      var b := FromText(w, a.kernel, a.version, SpecText(a.kernel, a.version, a.facts));
      (b, if b.Built? then Put(memo, MemoKeyOf(w, a), b.spec, SPEC_MEMO_MAX) else memo)
  }

  /** Fields and keys go through the facts constructor, which has its own entry in the memo. */
  function MemoStep(w: Setup, memo: Memo, a: Ask): (Built, Memo) {
    if !LabelsFit(a) then (ValueError, memo)
    else if !w.enabled then (Direct(w, a), memo)
    else if a.FromFacts? then FactsStep(w, memo, a)
    else
      var found := Find(memo, MemoKeyOf(w, a));
      if found.Some? then (Built(found.value), Touch(memo, MemoKeyOf(w, a)))
      else if !Accepts(a) then (Built(LegacySpec(a.kernel, a.version, LegacyFields(a))), memo)
      else
        var (b, m) := FactsStep(w, memo, FromFacts(a.kernel, a.version, HandedOn(a)));
        (b, if b.Built? then Put(m, MemoKeyOf(w, a), b.spec, SPEC_MEMO_MAX) else m)
  }

  /** Every stored spec is what some plain-data call with that key would have built. */
  ghost predicate Stored(w: Setup, key: MemoKey, spec: Spec) {
    exists a :: Accepts(a) && MemoKeyOf(w, a) == key && Direct(w, a) == Built(spec)
  }

  ghost predicate MemoValid(w: Setup, memo: Memo) {
    && Distinct(memo)
    && |memo| <= SPEC_MEMO_MAX
    && forall e :: e in memo ==> Stored(w, e.0, e.1)
  }

  /** On plain data the memo key is the call: kind, kernel, version, arguments and labels. */
  lemma MemoKeysExact(w: Setup, a: Ask, b: Ask)
    requires Accepts(a) && Accepts(b)
    ensures MemoKeyOf(w, a) == MemoKeyOf(w, b) <==> a == b
  {
    if MemoKeyOf(w, a) == MemoKeyOf(w, b) {
      PayloadIsPod(a);
      PayloadIsPod(b);
      ReprFaithful(w.printing, Payload(a), Payload(b));
      if a.FromFields? {
        SameFields(a, b);
      }
    }
  }

  /** So calls that share a memo key share their result. */
  lemma SameKeySameResult(w: Setup, a: Ask, b: Ask)
    requires Accepts(a) && Accepts(b) && MemoKeyOf(w, a) == MemoKeyOf(w, b)
    ensures Direct(w, a) == Direct(w, b)
  {
    MemoKeysExact(w, a, b);
  }

  lemma PayloadIsPod(a: Ask)
    requires Accepts(a)
    ensures IsJsonPod(Payload(a))
  {
    if a.FromFields? {
      forall i | 0 <= i < |a.fields| ensures IsJsonPod(ArgOf(a.fields[i])) {
        assert IsJsonPod(a.fields[i].value);
        if !a.fields[i].asKeyField {
          PairIsPod(a.fields[i].name, a.fields[i].value);
        }
      }
    }
  }

  lemma {:induction false} PairIsPod(name: Text, value: Fact)
    ensures IsJsonPod(Named(name, value)) <==> IsJsonPod(value)
  {
    var items := [FStr(name), value];
    assert items[1] == value;
  }

  lemma SameFields(a: Ask, b: Ask)
    requires a.FromFields? && b.FromFields? && Payload(a) == Payload(b)
    ensures a.fields == b.fields
  {
    var pa, pb := Payload(a).items, Payload(b).items;
    assert |pa| == |a.fields| && |pb| == |b.fields|;
    forall i | 0 <= i < |a.fields| ensures a.fields[i] == b.fields[i] {
      assert pa[i] == ArgOf(a.fields[i]) && pb[i] == ArgOf(b.fields[i]);
      SameArg(a.fields[i], b.fields[i]);
    }
  }

  lemma SameArg(f: FieldArg, g: FieldArg)
    requires ArgOf(f) == ArgOf(g)
    ensures f == g
  {
    if !f.asKeyField {
      var x, y := [FStr(f.name), f.value], [FStr(g.name), g.value];
      assert x == y;
      assert x[0] == y[0] && x[1] == y[1];
    }
  }

  /** The call that a fields or key call hands on builds the same spec. */
  lemma HandedOnBuildsSame(w: Setup, a: Ask)
    requires LabelsFit(a) && Accepts(a)
    ensures Accepts(FromFacts(a.kernel, a.version, HandedOn(a)))
    ensures Direct(w, FromFacts(a.kernel, a.version, HandedOn(a))) == Direct(w, a) && Direct(w, a).Built?
  {
    var facts := HandedOn(a);
    forall i | 0 <= i < |facts| ensures IsJsonPod(facts[i]) {
      if a.FromFields? {
        PairIsPod(a.fields[i].name, a.fields[i].value);
      } else if a.FromKey? && a.labels.Some? {
        PairIsPod(a.labels.value[i], a.key[i]);
      }
    }
    ItemsExactlyWhenAccepted(facts);
  }

  lemma {:induction false} FoundIsDirect(w: Setup, memo: Memo, a: Ask)
    requires MemoValid(w, memo) && Accepts(a) && Find(memo, MemoKeyOf(w, a)).Some?
    ensures Direct(w, a) == Built(Find(memo, MemoKeyOf(w, a)).value)
  {
    var spec := Find(memo, MemoKeyOf(w, a)).value;
    assert (MemoKeyOf(w, a), spec) in memo;
    var b :| Accepts(b) && MemoKeyOf(w, b) == MemoKeyOf(w, a) && Direct(w, b) == Built(spec);
    SameKeySameResult(w, a, b);
  }

  lemma TouchKeepsValid(w: Setup, memo: Memo, key: MemoKey)
    requires MemoValid(w, memo)
    ensures MemoValid(w, Touch(memo, key))
  {
    TouchContract(memo, key);
  }

  lemma {:induction false} PutKeepsValid(w: Setup, memo: Memo, key: MemoKey, spec: Spec)
    requires MemoValid(w, memo) && Stored(w, key, spec)
    ensures MemoValid(w, Put(memo, key, spec, SPEC_MEMO_MAX)) && Find(Put(memo, key, spec, SPEC_MEMO_MAX), key) == Some(spec)
  {
    PutContract(memo, key, spec, SPEC_MEMO_MAX);
  }

  lemma FactsStepValid(w: Setup, memo: Memo, a: Ask)
    requires a.FromFacts? && MemoValid(w, memo)
    ensures MemoValid(w, FactsStep(w, memo, a).1)
    ensures Accepts(a) ==> FactsStep(w, memo, a).0 == Direct(w, a)
  {
    var key := MemoKeyOf(w, a);
    if Find(memo, key).Some? {
      TouchKeepsValid(w, memo, key);
      if Accepts(a) {
        FoundIsDirect(w, memo, a);
      }
    } else if Direct(w, a).Built? {
      ItemsExactlyWhenAccepted(a.facts);
      assert Accepts(a);
      assert Stored(w, key, Direct(w, a).spec);
      PutKeepsValid(w, memo, key, Direct(w, a).spec);
    }
  }

  /** One call: the memo stays valid and, on plain data, the result is the unmemoised one. */
  lemma MemoStepFaithful(w: Setup, memo: Memo, a: Ask)
    requires MemoValid(w, memo)
    ensures MemoValid(w, MemoStep(w, memo, a).1)
    ensures Accepts(a) || !LabelsFit(a) || !w.enabled ==> MemoStep(w, memo, a).0 == Direct(w, a)
  {
    if LabelsFit(a) && w.enabled {
      var key := MemoKeyOf(w, a);
      if a.FromFacts? {
        FactsStepValid(w, memo, a);
      } else if Find(memo, key).Some? {
        TouchKeepsValid(w, memo, key);
        if Accepts(a) {
          FoundIsDirect(w, memo, a);
        }
      } else if Accepts(a) {
        HandedOnBuildsSame(w, a);
        var inner := FromFacts(a.kernel, a.version, HandedOn(a));
        FactsStepValid(w, memo, inner);
        var m := FactsStep(w, memo, inner).1;
        assert Stored(w, key, Direct(w, a).spec);
        PutKeepsValid(w, m, key, Direct(w, a).spec);
      }
    }
  }

  // ------------------------------------------------------------ over whole runs

  function MemoRun(w: Setup, memo: Memo, asks: seq<Ask>): (seq<Built>, Memo)
    decreases |asks|
  {
    if asks == [] then ([], memo)
    else
      var (b, m) := MemoStep(w, memo, asks[0]);
      var (rest, end) := MemoRun(w, m, asks[1..]);
      ([b] + rest, end)
  }

  /** Every plain-data call returned what the constructor returns without a memo. */
  ghost predicate AllDirect(w: Setup, asks: seq<Ask>, built: seq<Built>) {
    |built| == |asks| && forall i :: 0 <= i < |asks| ==> DirectOnPlain(w, asks[i], built[i])
  }

  predicate DirectOnPlain(w: Setup, a: Ask, b: Built) { Accepts(a) ==> b == Direct(w, a) }

  lemma AllDirectCons(w: Setup, asks: seq<Ask>, b: Built, rest: seq<Built>)
    requires asks != [] && AllDirect(w, asks[1..], rest) && DirectOnPlain(w, asks[0], b)
    ensures AllDirect(w, asks, [b] + rest)
  {
    var built := [b] + rest;
    forall i | 0 <= i < |asks| ensures DirectOnPlain(w, asks[i], built[i]) {
      if i > 0 {
        assert DirectOnPlain(w, asks[1..][i - 1], rest[i - 1]);
      }
    }
  }

  /** Over every sequence of calls, through evictions: every plain-data call returns what the
      constructor returns without a memo, and the table keeps its bound. */
  lemma {:induction false} MemoisedEqualsDirect(w: Setup, memo: Memo, asks: seq<Ask>)
    requires MemoValid(w, memo)
    ensures AllDirect(w, asks, MemoRun(w, memo, asks).0) && MemoValid(w, MemoRun(w, memo, asks).1)
    decreases |asks|
  {
    if asks != [] {
      var (b, m) := MemoStep(w, memo, asks[0]);
      MemoStepFaithful(w, memo, asks[0]);
      MemoisedEqualsDirect(w, m, asks[1..]);
      AllDirectCons(w, asks, b, MemoRun(w, m, asks[1..]).0);
    }
  }

  /** A value that is not plain data but prints like one is not refused once the plain one is in the
      memo: it gets the other's spec, where the unmemoised constructor raises. */
  lemma {:induction false} LookAlikeIsNotRefused(w: Setup, kernel: Text, version: int, plain: seq<Fact>, other: seq<Fact>)
    requires w.enabled && IsJsonPod(FTuple(plain)) && !IsJsonPod(FTuple(other))
    requires Repr(w.printing, FTuple(plain)) == Repr(w.printing, FTuple(other))
    ensures var a, b := FromFacts(kernel, version, plain), FromFacts(kernel, version, other);
            && Direct(w, b) == TypeError
            && MemoRun(w, [], [a, b]).0 == [Direct(w, a), Direct(w, a)]
  {
    var a, b := FromFacts(kernel, version, plain), FromFacts(kernel, version, other);
    ItemsExactlyWhenAccepted(plain);
    ItemsExactlyWhenAccepted(other);
    var m := MemoStep(w, [], a).1;
    var empty: Memo := [];
    PutContract(empty, MemoKeyOf(w, a), Direct(w, a).spec, SPEC_MEMO_MAX);
    assert MemoStep(w, m, b).0 == Direct(w, a);
    MemoRunTwo(w, [], a, b);
  }

  lemma {:induction false} MemoRunTwo(w: Setup, memo: Memo, a: Ask, b: Ask)
    ensures MemoRun(w, memo, [a, b]).0 == [MemoStep(w, memo, a).0, MemoStep(w, MemoStep(w, memo, a).1, b).0]
  {
    var m := MemoStep(w, memo, a).1;
    assert [a, b][1..] == [b] && [b][1..] == [];
    assert MemoRun(w, MemoStep(w, m, b).1, []).0 == [];
    assert MemoRun(w, m, [b]).0 == [MemoStep(w, m, b).0];
  }

  /** What is stored is never a legacy spec. */
  lemma StoredIsPlain(w: Setup, key: MemoKey, spec: Spec)
    requires Stored(w, key, spec)
    ensures spec.Spec?
  {
  }

  /** Without plain data the constructor raises or falls back to a legacy spec. */
  lemma OtherDataDirect(w: Setup, a: Ask)
    requires LabelsFit(a) && !Accepts(a)
    ensures Direct(w, a) == (if a.FromFacts? then TypeError else Built(LegacySpec(a.kernel, a.version, LegacyFields(a))))
  {
    if a.FromFacts? {
      ItemsExactlyWhenAccepted(a.facts);
    }
  }

  /** Exactly when: a call whose arguments are not plain data is answered as without the memo if and
      only if its key is not in the memo. */
  lemma {:induction false} OtherDataExact(w: Setup, memo: Memo, a: Ask)
    requires MemoValid(w, memo) && w.enabled && LabelsFit(a) && !Accepts(a)
    ensures MemoStep(w, memo, a).0 == Direct(w, a) <==> Find(memo, MemoKeyOf(w, a)).None?
  {
    OtherDataDirect(w, a);
    var found := Find(memo, MemoKeyOf(w, a));
    if found.Some? {
      assert (MemoKeyOf(w, a), found.value) in memo;
      StoredIsPlain(w, MemoKeyOf(w, a), found.value);
    }
  }

  // ------------------------------------------------------------ the constructors

  class SpecFactory {
    const w: Setup
    const memo: LruTable<MemoKey, Spec>

    ghost predicate Valid()
      reads this, memo
    {
      memo.Valid() && memo.limit == SPEC_MEMO_MAX && MemoValid(w, memo.entries)
    }

    constructor (w: Setup)
      ensures Valid() && this.w == w && memo.entries == [] && fresh(memo)
    {
      this.w := w;
      memo := new LruTable<MemoKey, Spec>(SPEC_MEMO_MAX);
    }

    method FromFactsMemo(a: Ask) returns (b: Built)
      requires memo.Valid() && memo.limit == SPEC_MEMO_MAX && a.FromFacts?
      modifies memo
      ensures memo.Valid()
      ensures (b, memo.entries) == FactsStep(w, old(memo.entries), a)
    {
      var found := memo.Get(MemoKeyOf(w, a));
      if found.Some? {
        b := Built(found.value);
      } else {
        b := FromText(w, a.kernel, a.version, SpecText(a.kernel, a.version, a.facts));
        if b.Built? {
          memo.Store(MemoKeyOf(w, a), b.spec);
        }
      }
    }

    /** Part of clearing the compile cache: entries and counters go. */
    method Clear()
      requires Valid()
      modifies memo
      ensures Valid() && memo.entries == [] && memo.hits == memo.misses == 0
    {
      memo.Clear();
    }

    /** Any of the constructors. */
    method Construct(a: Ask) returns (b: Built)
      requires Valid()
      modifies memo
      ensures Valid()
      ensures (b, memo.entries) == MemoStep(w, old(memo.entries), a)
      ensures Accepts(a) ==> b == Direct(w, a)
    {
      MemoStepFaithful(w, memo.entries, a);
      if !LabelsFit(a) {
        return ValueError;
      }
      if !w.enabled {
        return Direct(w, a);
      }
      if a.FromFacts? {
        b := FromFactsMemo(a);
        return;
      }
      var found := memo.Get(MemoKeyOf(w, a));
      if found.Some? {
        b := Built(found.value);
      } else if Accepts(a) {
        b := FromFactsMemo(FromFacts(a.kernel, a.version, HandedOn(a)));
        if b.Built? {
          memo.Store(MemoKeyOf(w, a), b.spec);
        }
      } else {
        b := Built(LegacySpec(a.kernel, a.version, LegacyFields(a)));
      }
    }
  }
}
