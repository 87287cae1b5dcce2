/**
 Compile specs: the plain-data values they may hold and the canonical JSON key they get.
 */
module CompileSpecs {
  import opened Wrappers
  import opened JsonText
  import opened SortedLists

  // ------------------------------------------------------------ facts

  datatype DictKey = TextKey(text: Text) | OtherKey(id: int)

  /** A compile fact as the caller passes it. `Legacy` is a tensor key or another compile spec,
      `Opaque` any other Python object. */
  datatype Fact =
    | FNone
    | FBool(b: bool)
    | FInt(n: int)
    | FStr(text: Text)
    | FFloat(token: FloatText)
    | FNonFinite(special: Special)
    | FDim(kind: Text, value: Fact)
    | FField(name: Text, value: Fact)
    | FLegacy
    | FTuple(items: seq<Fact>)
    | FList(items: seq<Fact>)
    | FDict(pairs: seq<Pair>)
    | FOpaque(id: int)

  datatype Special = Nan | Inf | NegInf

  datatype Pair = Pair(key: DictKey, value: Fact)

  function Ascii(s: string): (t: Text)
    ensures |t| == |s|
  {
    seq(|s|, i requires 0 <= i < |s| => if s[i] as int < 128 then s[i] as int else 0)
  }

  /** The checking predicate. */
  predicate IsJsonPod(v: Fact)
    decreases v
  {
    match v
    case FNone => true
    case FBool(_) => true
    case FInt(_) => true
    case FStr(_) => true
    case FFloat(_) => true
    case FNonFinite(_) => false
    case FDim(_, value) => IsJsonPod(value)
    case FField(_, value) => IsJsonPod(value)
    case FLegacy => false
    case FTuple(items) => forall i :: 0 <= i < |items| ==> IsJsonPod(items[i])
    case FList(items) => forall i :: 0 <= i < |items| ==> IsJsonPod(items[i])
    case FDict(pairs) => forall i :: 0 <= i < |pairs| ==> pairs[i].key.TextKey? && IsJsonPod(pairs[i].value)
    case FOpaque(_) => false
  }

  /** The normaliser; `None` where it raises TypeError. */
  function JsonPod(v: Fact): Option<Pod>
    decreases v
  {
    match v
    case FNone => Some(Null)
    case FBool(b) => Some(Bool(b))
    case FInt(n) => Some(Num(n))
    case FStr(text) => Some(Str(text))
    case FFloat(token) => Some(Float(token))
    case FNonFinite(_) => None
    case FDim(kind, value) => Tagged("dim", kind, JsonPod(value))
    case FField(name, value) => Tagged("field", name, JsonPod(value))
    case FLegacy => None
    case FTuple(items) => var r := JsonItems(items); if r.None? then None else Some(Arr(r.value))
    case FList(items) => var r := JsonItems(items); if r.None? then None else Some(Arr(r.value))
    case FDict(pairs) => var r := JsonPairs(pairs); if r.None? then None else Some(Obj(r.value))
    case FOpaque(_) => None
  }

  function Tagged(tag: string, name: Text, value: Option<Pod>): Option<Pod> {
    if value.None? then None else Some(Arr([Str(Ascii(tag)), Str(name), value.value]))
  }

  function JsonItems(items: seq<Fact>): (r: Option<seq<Pod>>)
    ensures r.Some? ==> |r.value| == |items|
    decreases items
  {
    if items == [] then Some([])
    else
      var first, others := JsonPod(items[0]), JsonItems(items[1..]);
      if first.None? || others.None? then None else Some([first.value] + others.value)
  }

  function JsonValue(pair: Pair): Option<Pod>
    decreases pair
  {
    JsonPod(pair.value)
  }

  function JsonPairs(pairs: seq<Pair>): (r: Option<seq<Member<Text>>>)
    ensures r.Some? ==> |r.value| == |pairs|
    ensures r.Some? ==> forall i :: 0 <= i < |pairs| ==> pairs[i].key.TextKey? && r.value[i].key == pairs[i].key.text
    decreases pairs
  {
    if pairs == [] then Some([])
    else if !pairs[0].key.TextKey? then None
    else
      var first, others := JsonValue(pairs[0]), JsonPairs(pairs[1..]);
      if first.None? || others.None? then None
      else Some([Member(pairs[0].key.text, first.value)] + others.value)
  }

  /** The check accepts exactly what the normaliser does not reject. */
  lemma {:induction false} PodExactlyWhenAccepted(v: Fact)
    ensures IsJsonPod(v) <==> JsonPod(v).Some?
    decreases v, 0
  {
    match v
    case FDim(_, value) => PodExactlyWhenAccepted(value);
    case FField(_, value) => PodExactlyWhenAccepted(value);
    case FTuple(items) => ItemsExactlyWhenAccepted(items);
    case FList(items) => ItemsExactlyWhenAccepted(items);
    case FDict(pairs) => PairsExactlyWhenAccepted(pairs);
    case _ =>
  }

  lemma {:induction false} ItemsExactlyWhenAccepted(items: seq<Fact>)
    ensures (forall i :: 0 <= i < |items| ==> IsJsonPod(items[i])) <==> JsonItems(items).Some?
    decreases items, 1
  {
    if items != [] {
      PodExactlyWhenAccepted(items[0]);
      ItemsExactlyWhenAccepted(items[1..]);
      assert forall i :: 0 < i < |items| ==> items[i] == items[1..][i - 1];
    }
  }

  lemma {:induction false} ValueExactlyWhenAccepted(pair: Pair)
    ensures IsJsonPod(pair.value) <==> JsonValue(pair).Some?
    decreases pair, 0
  {
    PodExactlyWhenAccepted(pair.value);
  }

  lemma {:induction false} PairsExactlyWhenAccepted(pairs: seq<Pair>)
    ensures (forall i :: 0 <= i < |pairs| ==> pairs[i].key.TextKey? && IsJsonPod(pairs[i].value))
            <==> JsonPairs(pairs).Some?
    decreases pairs, 1
  {
    if pairs != [] {
      ValueExactlyWhenAccepted(pairs[0]);
      PairsExactlyWhenAccepted(pairs[1..]);
      assert forall i :: 0 < i < |pairs| ==> pairs[i] == pairs[1..][i - 1];
    }
  }

  // ------------------------------------------------------------ sorting the keys

  type Members = seq<Member<Text>>

  function KeyOf(e: Member<Text>): seq<int> { e.key }

  function SortMembers(es: Members): (r: Members)
    ensures |r| == |es|
  {
    Sort(KeyOf, es)
  }

  predicate DistinctKeys(es: Members) { DistinctBy(KeyOf, es) }

  ghost function MembersOf(es: Members): set<Member<Text>> { Elements(es) }

  // ------------------------------------------------------------ the canonical form

  /** What `sort_keys` makes of a value, at every level. */
  function Canon(p: Pod): Pod
    decreases p
  {
    match p
    case Arr(items) => Arr(CanonItems(items))
    case Obj(entries) => Obj(SortMembers(CanonMembers(entries)))
    case _ => p
  }

  function CanonItems(items: seq<Pod>): (r: seq<Pod>)
    ensures |r| == |items|
    ensures forall i :: 0 <= i < |items| ==> r[i] == Canon(items[i])
    decreases items
  {
    if items == [] then [] else [Canon(items[0])] + CanonItems(items[1..])
  }

  function CanonMember(e: Member<Text>): Member<Text>
    decreases e
  {
    Member(e.key, Canon(e.value))
  }

  function CanonMembers(es: Members): (r: Members)
    ensures |r| == |es|
    ensures forall i :: 0 <= i < |es| ==> r[i] == CanonMember(es[i])
    decreases es
  {
    if es == [] then [] else [CanonMember(es[0])] + CanonMembers(es[1..])
  }

  /** Equality of JSON values: lists item by item, dictionaries as mappings, in whatever order their
      keys were put in. */
  ghost predicate SameValue(p: Pod, q: Pod)
    decreases p
  {
    if p.Arr? && q.Arr? then
      |p.items| == |q.items| && forall i :: 0 <= i < |p.items| ==> SameValue(p.items[i], q.items[i])
    else if p.Obj? && q.Obj? then
      && (forall i :: 0 <= i < |p.entries| ==> Matched(p.entries[i], q.entries))
      && Covers(p.entries, q.entries)
    else p == q
  }

  ghost predicate Matched(e: Member<Text>, es: Members)
    decreases e
  {
    exists j :: 0 <= j < |es| && es[j].key == e.key && SameValue(e.value, es[j].value)
  }

  /** Dictionaries hold each key once, at every level. */
  ghost predicate WellKeyed(p: Pod)
    decreases p
  {
    match p
    case Arr(items) => forall i :: 0 <= i < |items| ==> WellKeyed(items[i])
    case Obj(entries) => DistinctKeys(entries) && forall i :: 0 <= i < |entries| ==> WellKeyed(entries[i].value)
    case _ => true
  }

  /** Two values have one canonical form exactly when they are equal. */
  lemma {:induction false} CanonExact(p: Pod, q: Pod)
    requires WellKeyed(p) && WellKeyed(q)
    ensures Canon(p) == Canon(q) <==> SameValue(p, q)
    decreases p, 2
  {
    if p.Arr? && q.Arr? {
      ItemsExact(p.items, q.items);
    } else if p.Obj? && q.Obj? {
      MembersExact(p.entries, q.entries);
    }
  }

  lemma {:induction false} ItemsExact(a: seq<Pod>, b: seq<Pod>)
    requires WellKeyed(Arr(a)) && WellKeyed(Arr(b))
    ensures CanonItems(a) == CanonItems(b) <==> SameValue(Arr(a), Arr(b))
    decreases a, 1
  {
    if |a| == |b| {
      forall i | 0 <= i < |a| ensures Canon(a[i]) == Canon(b[i]) <==> SameValue(a[i], b[i]) {
        CanonExact(a[i], b[i]);
      }
      assert CanonItems(a) == CanonItems(b) <==> forall i :: 0 <= i < |a| ==> CanonItems(a)[i] == CanonItems(b)[i];
    }
  }

  lemma {:induction false} CanonKeepsKeys(es: Members)
    requires DistinctKeys(es)
    ensures DistinctKeys(CanonMembers(es)) && Increasing(KeyOf, SortMembers(CanonMembers(es)))
    ensures MembersOf(SortMembers(CanonMembers(es))) == MembersOf(CanonMembers(es))
  {
    SortIncreasing(KeyOf, CanonMembers(es));
    SortedElements(KeyOf, CanonMembers(es));
  }

  /** An entry's canonical form is among another dictionary's exactly when it is matched there. */
  lemma {:induction false} MatchedExact(e: Member<Text>, es: Members)
    requires WellKeyed(e.value) && WellKeyed(Obj(es))
    ensures CanonMember(e) in MembersOf(CanonMembers(es)) <==> Matched(e, es)
    decreases e, 3
  {
    forall j | 0 <= j < |es| ensures Canon(e.value) == Canon(es[j].value) <==> SameValue(e.value, es[j].value) {
      CanonExact(e.value, es[j].value);
    }
    var c := CanonMember(e);
    var canon := CanonMembers(es);
    if Matched(e, es) {
      var j :| 0 <= j < |es| && es[j].key == e.key && SameValue(e.value, es[j].value);
      assert canon[j] == c;
    }
    if c in MembersOf(canon) {
      var j :| 0 <= j < |canon| && canon[j] == c;
      assert es[j].key == e.key && SameValue(e.value, es[j].value);
    }
  }

  lemma {:induction false} MembersExact(a: Members, b: Members)
    requires WellKeyed(Obj(a)) && WellKeyed(Obj(b))
    ensures SortMembers(CanonMembers(a)) == SortMembers(CanonMembers(b)) <==> SameValue(Obj(a), Obj(b))
    decreases a, 4
  {
    var ca, cb := CanonMembers(a), CanonMembers(b);
    CanonKeepsKeys(a);
    CanonKeepsKeys(b);
    forall i | 0 <= i < |a| ensures ca[i] in MembersOf(cb) <==> Matched(a[i], b) {
      MatchedExact(a[i], b);
    }
    CanonCovers(a, b);
    SameMembers(ca, cb);
    if SameValue(Obj(a), Obj(b)) {
      IncreasingUnique(KeyOf, SortMembers(ca), SortMembers(cb));
    }
  }

  ghost predicate HasKey(a: Members, key: Text) {
    exists i :: 0 <= i < |a| && a[i].key == key
  }

  /** Every key of `b` is a key of `a`. */
  ghost predicate Covers(a: Members, b: Members) {
    forall j :: 0 <= j < |b| ==> HasKey(a, b[j].key)
  }

  lemma {:induction false} CanonCovers(a: Members, b: Members)
    ensures Covers(CanonMembers(a), CanonMembers(b)) <==> Covers(a, b)
  {
    var ca, cb := CanonMembers(a), CanonMembers(b);
    if Covers(a, b) {
      forall j | 0 <= j < |cb| ensures HasKey(ca, cb[j].key) {
        assert HasKey(a, b[j].key);
        var i :| 0 <= i < |a| && a[i].key == b[j].key;
        assert ca[i].key == cb[j].key;
      }
    }
    if Covers(ca, cb) {
      forall j | 0 <= j < |b| ensures HasKey(a, b[j].key) {
        assert HasKey(ca, cb[j].key);
        var i :| 0 <= i < |ca| && ca[i].key == cb[j].key;
        assert a[i].key == b[j].key;
      }
    }
  }

  lemma SameMembers(a: Members, b: Members)
    requires DistinctKeys(b)
    ensures MembersOf(a) == MembersOf(b) <==> (forall i :: 0 <= i < |a| ==> a[i] in MembersOf(b)) && Covers(a, b)
  {
    if MembersOf(a) == MembersOf(b) {
      forall i | 0 <= i < |a| ensures a[i] in MembersOf(b) {
        assert a[i] in MembersOf(a);
      }
      MembersCover(a, b);
    } else if (forall i :: 0 <= i < |a| ==> a[i] in MembersOf(b)) && Covers(a, b) {
      CoveredMembers(a, b);
    }
  }

  lemma MembersCover(a: Members, b: Members)
    requires MembersOf(b) <= MembersOf(a)
    ensures Covers(a, b)
  {
    forall j | 0 <= j < |b| ensures HasKey(a, b[j].key) {
      assert b[j] in MembersOf(b);
      var i :| 0 <= i < |a| && a[i] == b[j];
    }
  }

  lemma CoveredMembers(a: Members, b: Members)
    requires DistinctKeys(b) && Covers(a, b) && forall i :: 0 <= i < |a| ==> a[i] in MembersOf(b)
    ensures MembersOf(a) == MembersOf(b)
  {
    SubsetByIndex(a, b);
    forall j | 0 <= j < |b| ensures b[j] in MembersOf(a) {
      assert HasKey(a, b[j].key);
      var i :| 0 <= i < |a| && a[i].key == b[j].key;
      KeyDecides(b, a[i], j);
    }
    SubsetByIndex(b, a);
  }

  lemma SubsetByIndex(a: Members, b: Members)
    requires forall i :: 0 <= i < |a| ==> a[i] in MembersOf(b)
    ensures MembersOf(a) <= MembersOf(b)
  {
  }

  lemma KeyDecides(es: Members, e: Member<Text>, j: nat)
    requires DistinctKeys(es) && e in MembersOf(es) && j < |es| && es[j].key == e.key
    ensures es[j] == e
  {
    var k :| 0 <= k < |es| && es[k] == e;
  }

  // ------------------------------------------------------------ escapes

  function Encode(p: Pod): Wire
    decreases p
  {
    match p
    case Null => Null
    case Bool(b) => Bool(b)
    case Num(n) => Num(n)
    case Float(token) => Float(token)
    case Str(text) => Str(Utf16(text))
    case Arr(items) => Arr(EncodeItems(items))
    case Obj(entries) => Obj(EncodeMembers(entries))
  }

  function EncodeItems(items: seq<Pod>): (r: seq<Wire>)
    ensures |r| == |items| && forall i :: 0 <= i < |items| ==> r[i] == Encode(items[i])
    decreases items
  {
    if items == [] then [] else [Encode(items[0])] + EncodeItems(items[1..])
  }

  function EncodeMember(e: Member<Text>): Member<Units>
    decreases e
  {
    Member(Utf16(e.key), Encode(e.value))
  }

  function EncodeMembers(es: Members): (r: seq<Member<Units>>)
    ensures |r| == |es| && forall i :: 0 <= i < |es| ==> r[i] == EncodeMember(es[i])
    decreases es
  {
    if es == [] then [] else [EncodeMember(es[0])] + EncodeMembers(es[1..])
  }

  /** No string anywhere spells a surrogate pair in two pieces. */
  ghost predicate PlainThroughout(p: Pod)
    decreases p
  {
    match p
    case Str(text) => Plain(text)
    case Arr(items) => forall i :: 0 <= i < |items| ==> PlainThroughout(items[i])
    case Obj(entries) => forall i :: 0 <= i < |entries| ==> Plain(entries[i].key) && PlainThroughout(entries[i].value)
    case _ => true
  }

  lemma {:induction false} Utf16Injective(a: Text, b: Text)
    requires Plain(a) && Plain(b) && Utf16(a) == Utf16(b)
    ensures a == b
  {
    Utf16Exact(a);
    Utf16Exact(b);
  }

  lemma {:induction false} EncodeInjective(p: Pod, q: Pod)
    requires PlainThroughout(p) && PlainThroughout(q) && Encode(p) == Encode(q)
    ensures p == q
    decreases p
  {
    if p.Str? {
      Utf16Injective(p.text, q.text);
    } else if p.Arr? {
      var ep, eq := EncodeItems(p.items), EncodeItems(q.items);
      forall i | 0 <= i < |p.items| ensures p.items[i] == q.items[i] {
        assert ep[i] == eq[i];
        EncodeInjective(p.items[i], q.items[i]);
      }
    } else if p.Obj? {
      var ep, eq := EncodeMembers(p.entries), EncodeMembers(q.entries);
      forall i | 0 <= i < |p.entries| ensures p.entries[i] == q.entries[i] {
        assert ep[i] == eq[i];
        Utf16Injective(p.entries[i].key, q.entries[i].key);
        EncodeInjective(p.entries[i].value, q.entries[i].value);
      }
    }
  }

  /** A property of keys and values that holds of every entry holds of every sorted entry. */
  lemma SortedEntryComesFrom(es: Members, i: nat) returns (j: nat)
    requires i < |es|
    ensures j < |es| && SortMembers(CanonMembers(es))[i] == CanonMember(es[j])
  {
    var canon := CanonMembers(es);
    SortedElements(KeyOf, canon);
    assert SortMembers(canon)[i] in MembersOf(SortMembers(canon));
    j :| 0 <= j < |canon| && canon[j] == SortMembers(canon)[i];
  }

  /** Sorting the keys changes neither what strings hold nor how floats are written. */
  lemma {:induction false} CanonKeepsContents(p: Pod)
    ensures PlainThroughout(p) ==> PlainThroughout(Canon(p))
    ensures WellWritten(p) ==> WellWritten(Encode(Canon(p)))
    decreases p
  {
    if p.Arr? {
      forall i | 0 <= i < |p.items|
        ensures PlainThroughout(p.items[i]) ==> PlainThroughout(CanonItems(p.items)[i])
        ensures WellWritten(p.items[i]) ==> WellWritten(EncodeItems(CanonItems(p.items))[i])
      {
        CanonKeepsContents(p.items[i]);
      }
    } else if p.Obj? {
      var es := SortMembers(CanonMembers(p.entries));
      forall i | 0 <= i < |es|
        ensures PlainThroughout(p) ==> Plain(es[i].key) && PlainThroughout(es[i].value)
        ensures WellWritten(p) ==> WellWritten(EncodeMembers(es)[i].value)
      {
        var j := SortedEntryComesFrom(p.entries, i);
        CanonKeepsContents(p.entries[j].value);
      }
    }
  }

  // ------------------------------------------------------------ the spec key

  /** The value a spec's key is printed from. */
  function SpecValue(kernel: Text, version: int, facts: seq<Pod>): Pod {
    Three(Ascii("facts"), Ascii("kernel"), Ascii("version"), Arr(facts), Str(kernel), Num(version))
  }

  function Three(a: Text, b: Text, c: Text, x: Pod, y: Pod, z: Pod): Pod {
    Obj([Member(a, x), Member(b, y), Member(c, z)])
  }

  function TextOf(p: Pod): string { Print(Encode(Canon(p))) }

  /** The JSON key of a spec; `None` where building it raises TypeError. */
  function SpecText(kernel: Text, version: int, facts: seq<Fact>): Option<string> {
    var pods := JsonItems(facts);
    if pods.None? then None else Some(TextOf(SpecValue(kernel, version, pods.value)))
  }

  /** A parser undoes the printer, so two values share their text exactly when their sorted, escaped
      forms agree. */
  lemma {:induction false} TextExact(p: Pod, q: Pod)
    requires WellWritten(p) && WellWritten(q)
    ensures Parse(TextOf(p)) == Some((Encode(Canon(p)), ""))
    ensures TextOf(p) == TextOf(q) <==> Encode(Canon(p)) == Encode(Canon(q))
  {
    CanonKeepsContents(p);
    CanonKeepsContents(q);
    RoundTrip(Encode(Canon(p)), "");
    assert TextOf(p) + "" == TextOf(p);
    if TextOf(p) == TextOf(q) {
      PrintInjective(Encode(Canon(p)), Encode(Canon(q)));
    }
  }

  /** Where no string splits a surrogate pair, two values share their text exactly when they are
      equal. */
  lemma {:induction false} TextCanonical(p: Pod, q: Pod)
    requires WellWritten(p) && WellWritten(q) && WellKeyed(p) && WellKeyed(q)
    requires PlainThroughout(p) && PlainThroughout(q)
    ensures TextOf(p) == TextOf(q) <==> SameValue(p, q)
  {
    TextExact(p, q);
    CanonKeepsContents(p);
    CanonKeepsContents(q);
    CanonExact(p, q);
    if Encode(Canon(p)) == Encode(Canon(q)) {
      EncodeInjective(Canon(p), Canon(q));
    }
  }

  /** Without that condition the key is not canonical: two different strings share their text. */
  lemma SplitPairsShareText()
    ensures var joined: Pod := Str([0x1F600]); var split: Pod := Str([0xD83D, 0xDE00]);
            !SameValue(joined, split) && TextOf(joined) == TextOf(split) && !PlainThroughout(split)
  {
    SurrogatesCollide();
  }

  // ------------------------------------------------------------ values that share a key

  /** A value with the surrogate pairs of its strings joined; dictionary keys are left alone. */
  function Twin(p: Pod): Pod
    decreases p
  {
    match p
    case Str(text) => Str(Joined(text))
    case Arr(items) => Arr(TwinItems(items))
    case Obj(entries) => Obj(TwinMembers(entries))
    case _ => p
  }

  function TwinItems(items: seq<Pod>): (r: seq<Pod>)
    ensures |r| == |items| && forall i :: 0 <= i < |items| ==> r[i] == Twin(items[i])
    decreases items
  {
    if items == [] then [] else [Twin(items[0])] + TwinItems(items[1..])
  }

  function TwinMember(e: Member<Text>): Member<Text>
    decreases e
  {
    Member(e.key, Twin(e.value))
  }

  function TwinMembers(es: Members): (r: Members)
    ensures |r| == |es| && forall i :: 0 <= i < |es| ==> r[i] == TwinMember(es[i])
    decreases es
  {
    if es == [] then [] else [TwinMember(es[0])] + TwinMembers(es[1..])
  }

  ghost predicate StringsPlain(p: Pod)
    decreases p
  {
    match p
    case Str(text) => Plain(text)
    case Arr(items) => forall i :: 0 <= i < |items| ==> StringsPlain(items[i])
    case Obj(entries) => forall i :: 0 <= i < |entries| ==> StringsPlain(entries[i].value)
    case _ => true
  }

  ghost predicate KeysPlain(p: Pod)
    decreases p
  {
    match p
    case Arr(items) => forall i :: 0 <= i < |items| ==> KeysPlain(items[i])
    case Obj(entries) => forall i :: 0 <= i < |entries| ==> Plain(entries[i].key) && KeysPlain(entries[i].value)
    case _ => true
  }

  lemma {:induction false} TwinEncodes(p: Pod)
    ensures Encode(Twin(p)) == Encode(p)
    decreases p
  {
    if p.Str? {
      JoinedExact(p.text);
    } else if p.Arr? {
      forall i | 0 <= i < |p.items| ensures EncodeItems(TwinItems(p.items))[i] == EncodeItems(p.items)[i] {
        TwinEncodes(p.items[i]);
      }
      assert EncodeItems(TwinItems(p.items)) == EncodeItems(p.items);
    } else if p.Obj? {
      forall i | 0 <= i < |p.entries| ensures EncodeMembers(TwinMembers(p.entries))[i] == EncodeMembers(p.entries)[i] {
        TwinEncodes(p.entries[i].value);
      }
      assert EncodeMembers(TwinMembers(p.entries)) == EncodeMembers(p.entries);
    }
  }

  lemma {:induction false} TwinMembersCons(e: Member<Text>, es: Members)
    ensures TwinMembers([e] + es) == [TwinMember(e)] + TwinMembers(es)
  {
    assert ([e] + es)[1..] == es;
  }

  lemma {:induction false} InsertTwin(e: Member<Text>, es: Members)
    ensures Insert(KeyOf, TwinMember(e), TwinMembers(es)) == TwinMembers(Insert(KeyOf, e, es))
  {
    if es == [] || !Before(KeyOf(es[0]), KeyOf(e)) {
      TwinMembersCons(e, es);
    } else {
      InsertTwin(e, es[1..]);
      TwinMembersCons(es[0], Insert(KeyOf, e, es[1..]));
      assert TwinMembers(es)[1..] == TwinMembers(es[1..]);
    }
  }

  lemma {:induction false} SortTwin(es: Members)
    ensures SortMembers(TwinMembers(es)) == TwinMembers(SortMembers(es))
  {
    if es != [] {
      SortTwin(es[1..]);
      InsertTwin(es[0], SortMembers(es[1..]));
      assert TwinMembers(es)[1..] == TwinMembers(es[1..]);
    }
  }

  lemma {:induction false} CanonTwin(p: Pod)
    ensures Canon(Twin(p)) == Twin(Canon(p))
    decreases p
  {
    if p.Arr? {
      forall i | 0 <= i < |p.items| ensures CanonItems(TwinItems(p.items))[i] == TwinItems(CanonItems(p.items))[i] {
        CanonTwin(p.items[i]);
      }
      assert CanonItems(TwinItems(p.items)) == TwinItems(CanonItems(p.items));
    } else if p.Obj? {
      var a, b := CanonMembers(TwinMembers(p.entries)), TwinMembers(CanonMembers(p.entries));
      forall i | 0 <= i < |p.entries| ensures a[i] == b[i] {
        CanonTwin(p.entries[i].value);
      }
      assert a == b;
      SortTwin(CanonMembers(p.entries));
    }
  }

  /** A value and its twin share their text. */
  lemma {:induction false} TwinSharesText(p: Pod)
    ensures TextOf(Twin(p)) == TextOf(p)
  {
    CanonTwin(p);
    TwinEncodes(Canon(p));
  }

  lemma {:induction false} TwinKeeps(p: Pod)
    ensures WellKeyed(p) ==> WellKeyed(Twin(p))
    ensures WellWritten(p) ==> WellWritten(Twin(p))
    ensures KeysPlain(p) ==> PlainThroughout(Twin(p))
    decreases p
  {
    if p.Str? {
      JoinedExact(p.text);
    } else if p.Arr? {
      forall i | 0 <= i < |p.items| {
        TwinKeeps(p.items[i]);
      }
    } else if p.Obj? {
      forall i | 0 <= i < |p.entries| {
        TwinKeeps(p.entries[i].value);
      }
      assert forall i :: 0 <= i < |p.entries| ==> KeyOf(TwinMembers(p.entries)[i]) == KeyOf(p.entries[i]);
    }
  }

  /** They are equal exactly when every string is plain. */
  lemma {:induction false} TwinExact(p: Pod)
    requires WellKeyed(p)
    ensures SameValue(p, Twin(p)) <==> StringsPlain(p)
    decreases p
  {
    if p.Str? {
      JoinedExact(p.text);
    } else if p.Arr? {
      forall i | 0 <= i < |p.items| ensures SameValue(p.items[i], TwinItems(p.items)[i]) <==> StringsPlain(p.items[i]) {
        TwinExact(p.items[i]);
      }
    } else if p.Obj? {
      TwinKeeps(p);
      var es, ts := p.entries, TwinMembers(p.entries);
      forall i | 0 <= i < |es| ensures SameValue(es[i].value, ts[i].value) <==> StringsPlain(es[i].value) {
        TwinExact(es[i].value);
      }
      SameKeysSameValue(es, ts);
    }
  }

  /** Two values share their text exactly when their twins are equal, if only their dictionary keys
      are plain: the exact condition for any strings. */
  lemma {:induction false} TextExactByTwins(p: Pod, q: Pod)
    requires WellWritten(p) && WellWritten(q) && WellKeyed(p) && WellKeyed(q) && KeysPlain(p) && KeysPlain(q)
    ensures TextOf(p) == TextOf(q) <==> SameValue(Twin(p), Twin(q))
  {
    TwinSharesText(p);
    TwinSharesText(q);
    TwinKeeps(p);
    TwinKeeps(q);
    TextCanonical(Twin(p), Twin(q));
  }

  /** A value with the surrogate pairs of all its strings joined, dictionary keys too, and nothing
      moved. */
  function JoinAll(p: Pod): Pod
    decreases p
  {
    match p
    case Str(text) => Str(Joined(text))
    case Arr(items) => Arr(JoinItems(items))
    case Obj(entries) => Obj(JoinMembers(entries))
    case _ => p
  }

  function JoinItems(items: seq<Pod>): (r: seq<Pod>)
    ensures |r| == |items| && forall i :: 0 <= i < |items| ==> r[i] == JoinAll(items[i])
    decreases items
  {
    if items == [] then [] else [JoinAll(items[0])] + JoinItems(items[1..])
  }

  function JoinMember(e: Member<Text>): Member<Text>
    decreases e
  {
    Member(Joined(e.key), JoinAll(e.value))
  }

  function JoinMembers(es: Members): (r: Members)
    ensures |r| == |es| && forall i :: 0 <= i < |es| ==> r[i] == JoinMember(es[i])
    decreases es
  {
    if es == [] then [] else [JoinMember(es[0])] + JoinMembers(es[1..])
  }

  lemma {:induction false} JoinAllEncodes(p: Pod)
    ensures Encode(JoinAll(p)) == Encode(p)
    decreases p
  {
    if p.Str? {
      JoinedExact(p.text);
    } else if p.Arr? {
      forall i | 0 <= i < |p.items| ensures EncodeItems(JoinItems(p.items))[i] == EncodeItems(p.items)[i] {
        JoinAllEncodes(p.items[i]);
      }
      assert EncodeItems(JoinItems(p.items)) == EncodeItems(p.items);
    } else if p.Obj? {
      forall i | 0 <= i < |p.entries| ensures EncodeMembers(JoinMembers(p.entries))[i] == EncodeMembers(p.entries)[i] {
        JoinedExact(p.entries[i].key);
        JoinAllEncodes(p.entries[i].value);
      }
      assert EncodeMembers(JoinMembers(p.entries)) == EncodeMembers(p.entries);
    }
  }

  lemma {:induction false} JoinAllPlain(p: Pod)
    ensures PlainThroughout(JoinAll(p))
    decreases p
  {
    if p.Str? {
      JoinedExact(p.text);
    } else if p.Arr? {
      forall i | 0 <= i < |p.items| ensures PlainThroughout(JoinItems(p.items)[i]) {
        JoinAllPlain(p.items[i]);
      }
    } else if p.Obj? {
      var es := JoinMembers(p.entries);
      forall i | 0 <= i < |es| ensures Plain(es[i].key) && PlainThroughout(es[i].value) {
        JoinedExact(p.entries[i].key);
        JoinAllPlain(p.entries[i].value);
      }
    }
  }

  /** The exact condition for any strings and any dictionary keys: two values share their text exactly
      when, keys sorted and then all surrogate pairs joined, they are the same. Between plain dictionary
      keys that is equality of the joined values, dictionaries as mappings. */
  lemma {:induction false} TextExactByJoining(p: Pod, q: Pod)
    requires WellWritten(p) && WellWritten(q)
    ensures TextOf(p) == TextOf(q) <==> JoinAll(Canon(p)) == JoinAll(Canon(q))
    ensures WellKeyed(p) && WellKeyed(q) && KeysPlain(p) && KeysPlain(q) ==>
              (TextOf(p) == TextOf(q) <==> SameValue(Twin(p), Twin(q)))
  {
    TextExactByJoins(p, q);
    if WellKeyed(p) && WellKeyed(q) && KeysPlain(p) && KeysPlain(q) {
      TextExactByTwins(p, q);
    }
  }

  lemma {:induction false} TextExactByJoins(p: Pod, q: Pod)
    requires WellWritten(p) && WellWritten(q)
    ensures TextOf(p) == TextOf(q) <==> JoinAll(Canon(p)) == JoinAll(Canon(q))
  {
    TextExact(p, q);
    JoinAllEncodes(Canon(p));
    JoinAllEncodes(Canon(q));
    JoinAllPlain(Canon(p));
    JoinAllPlain(Canon(q));
    if Encode(Canon(p)) == Encode(Canon(q)) {
      EncodeInjective(JoinAll(Canon(p)), JoinAll(Canon(q)));
    }
  }

  /** Every value with a string that is not plain shares its text with a different value. */
  lemma {:induction false} NotPlainCollides(p: Pod)
    requires WellKeyed(p) && !StringsPlain(p)
    ensures exists q :: WellKeyed(q) && TextOf(q) == TextOf(p) && !SameValue(p, q)
  {
    TwinSharesText(p);
    TwinKeeps(p);
    TwinExact(p);
    assert WellKeyed(Twin(p)) && TextOf(Twin(p)) == TextOf(p) && !SameValue(p, Twin(p));
  }

  /** A dimension and a named field never share a normal form, and two of either do only with the same
      name and equal values. */
  lemma {:induction false} TagsSeparate(k: Text, v: Fact, n: Text, u: Fact)
    requires JsonPod(v).Some? && JsonPod(u).Some?
    ensures !SameValue(JsonPod(FDim(k, v)).value, JsonPod(FField(n, u)).value)
    ensures SameValue(JsonPod(FDim(k, v)).value, JsonPod(FDim(n, u)).value) <==> k == n && SameValue(JsonPod(v).value, JsonPod(u).value)
    ensures SameValue(JsonPod(FField(k, v)).value, JsonPod(FField(n, u)).value) <==> k == n && SameValue(JsonPod(v).value, JsonPod(u).value)
  {
    var x, y := JsonPod(v).value, JsonPod(u).value;
    assert Ascii("dim")[0] != Ascii("field")[0];
    TaggedSame("dim", k, x, "field", n, y);
    TaggedSame("dim", k, x, "dim", n, y);
    TaggedSame("field", k, x, "field", n, y);
  }

  lemma {:induction false} TaggedSame(s: string, k: Text, x: Pod, t: string, n: Text, y: Pod)
    ensures SameValue(Tagged(s, k, Some(x)).value, Tagged(t, n, Some(y)).value) <==>
              Ascii(s) == Ascii(t) && k == n && SameValue(x, y)
  {
    ThreeItems(Str(Ascii(s)), Str(k), x, Str(Ascii(t)), Str(n), y);
  }

  lemma {:induction false} ThreeItems(a: Pod, b: Pod, c: Pod, d: Pod, e: Pod, f: Pod)
    ensures SameValue(Arr([a, b, c]), Arr([d, e, f])) <==> SameValue(a, d) && SameValue(b, e) && SameValue(c, f)
  {
    var p, q := [a, b, c], [d, e, f];
    assert p[0] == a && p[1] == b && p[2] == c && q[0] == d && q[1] == e && q[2] == f;
  }

  /** Facts as Python can hold them: dictionary keys distinct. */
  ghost predicate WellFormed(v: Fact)
    decreases v
  {
    match v
    case FDim(_, value) => WellFormed(value)
    case FField(_, value) => WellFormed(value)
    case FTuple(items) => forall i :: 0 <= i < |items| ==> WellFormed(items[i])
    case FList(items) => forall i :: 0 <= i < |items| ==> WellFormed(items[i])
    case FDict(pairs) =>
      && (forall i :: 0 <= i < |pairs| ==> WellFormed(pairs[i].value))
      && forall i, j :: 0 <= i < j < |pairs| ==> pairs[i].key != pairs[j].key
    case _ => true
  }

  lemma {:induction false} PodsAreWellKeyed(v: Fact)
    requires WellFormed(v) && JsonPod(v).Some?
    ensures WellKeyed(JsonPod(v).value) && WellWritten(JsonPod(v).value)
    decreases v, 0
  {
    match v
    case FDim(_, value) => PodsAreWellKeyed(value);
    case FField(_, value) => PodsAreWellKeyed(value);
    case FTuple(items) => ItemsAreWellKeyed(items);
    case FList(items) => ItemsAreWellKeyed(items);
    case FDict(pairs) => PairsAreWellKeyed(pairs);
    case _ =>
  }

  lemma {:induction false} ItemsAreWellKeyed(items: seq<Fact>)
    requires (forall i :: 0 <= i < |items| ==> WellFormed(items[i])) && JsonItems(items).Some?
    ensures WellKeyed(Arr(JsonItems(items).value)) && WellWritten(Arr(JsonItems(items).value))
    decreases items, 1
  {
    if items != [] {
      PodsAreWellKeyed(items[0]);
      ItemsAreWellKeyed(items[1..]);
      var r := JsonItems(items).value;
      assert forall i :: 0 < i < |r| ==> r[i] == JsonItems(items[1..]).value[i - 1];
    }
  }

  lemma {:induction false} ValueIsWellKeyed(pair: Pair)
    requires WellFormed(pair.value) && JsonValue(pair).Some?
    ensures WellKeyed(JsonValue(pair).value) && WellWritten(JsonValue(pair).value)
    decreases pair, 0
  {
    PodsAreWellKeyed(pair.value);
  }

  lemma {:induction false} ValuesAreWellKeyed(pairs: seq<Pair>)
    requires (forall i :: 0 <= i < |pairs| ==> WellFormed(pairs[i].value)) && JsonPairs(pairs).Some?
    ensures forall i :: 0 <= i < |pairs| ==>
              WellKeyed(JsonPairs(pairs).value[i].value) && WellWritten(JsonPairs(pairs).value[i].value)
    decreases pairs, 1
  {
    if pairs != [] {
      ValueIsWellKeyed(pairs[0]);
      ValuesAreWellKeyed(pairs[1..]);
      var r := JsonPairs(pairs).value;
      assert forall i :: 0 < i < |r| ==> r[i] == JsonPairs(pairs[1..]).value[i - 1];
    }
  }

  lemma {:induction false} PairsAreWellKeyed(pairs: seq<Pair>)
    requires (forall i :: 0 <= i < |pairs| ==> WellFormed(pairs[i].value)) && JsonPairs(pairs).Some?
    requires forall i, j :: 0 <= i < j < |pairs| ==> pairs[i].key != pairs[j].key
    ensures WellKeyed(Obj(JsonPairs(pairs).value)) && WellWritten(Obj(JsonPairs(pairs).value))
    decreases pairs, 2
  {
    ValuesAreWellKeyed(pairs);
  }

  /** Dictionaries with the same keys in the same places are equal when their values are. */
  lemma SameKeysSameValue(a: Members, b: Members)
    requires |a| == |b| && DistinctKeys(b) && forall i :: 0 <= i < |a| ==> a[i].key == b[i].key
    ensures SameValue(Obj(a), Obj(b)) <==> forall i :: 0 <= i < |a| ==> SameValue(a[i].value, b[i].value)
  {
    if SameValue(Obj(a), Obj(b)) {
      forall i | 0 <= i < |a| ensures SameValue(a[i].value, b[i].value) {
        assert Matched(a[i], b);
      }
    }
    if forall i :: 0 <= i < |a| ==> SameValue(a[i].value, b[i].value) {
      forall i | 0 <= i < |a| ensures Matched(a[i], b) {
        assert b[i].key == a[i].key;
      }
    }
  }

  lemma SpecKeysDistinct(kernel: Text, version: int, facts: seq<Pod>)
    ensures DistinctKeys(SpecValue(kernel, version, facts).entries)
  {
    assert Ascii("facts")[0] == 102 && Ascii("kernel")[0] == 107 && Ascii("version")[0] == 118;
  }

  lemma SpecValuesCanonical(k1: Text, v1: int, p1: seq<Pod>, k2: Text, v2: int, p2: seq<Pod>)
    requires WellKeyed(Arr(p1)) && WellKeyed(Arr(p2)) && WellWritten(Arr(p1)) && WellWritten(Arr(p2))
    requires PlainThroughout(SpecValue(k1, v1, p1)) && PlainThroughout(SpecValue(k2, v2, p2))
    ensures TextOf(SpecValue(k1, v1, p1)) == TextOf(SpecValue(k2, v2, p2)) <==>
              k1 == k2 && v1 == v2 && SameValue(Arr(p1), Arr(p2))
  {
    var s1, s2 := SpecValue(k1, v1, p1), SpecValue(k2, v2, p2);
    SpecValueWellKeyed(k1, v1, p1);
    SpecValueWellKeyed(k2, v2, p2);
    TextCanonical(s1, s2);
    SameSpecValue(k1, v1, p1, k2, v2, p2);
  }

  lemma SpecValueWellKeyed(kernel: Text, version: int, facts: seq<Pod>)
    requires WellKeyed(Arr(facts)) && WellWritten(Arr(facts))
    ensures WellKeyed(SpecValue(kernel, version, facts)) && WellWritten(SpecValue(kernel, version, facts))
  {
    SpecKeysDistinct(kernel, version, facts);
  }

  lemma SameSpecValue(k1: Text, v1: int, p1: seq<Pod>, k2: Text, v2: int, p2: seq<Pod>)
    ensures SameValue(SpecValue(k1, v1, p1), SpecValue(k2, v2, p2)) <==> k1 == k2 && v1 == v2 && SameValue(Arr(p1), Arr(p2))
  {
    assert Ascii("facts")[0] == 102 && Ascii("kernel")[0] == 107 && Ascii("version")[0] == 118;
    ThreeEntries(Ascii("facts"), Ascii("kernel"), Ascii("version"), Arr(p1), Str(k1), Num(v1), Arr(p2), Str(k2), Num(v2));
  }

  lemma {:induction false} ThreeEntries(a: Text, b: Text, c: Text, x: Pod, y: Pod, z: Pod, x': Pod, y': Pod, z': Pod)
    requires a != b && a != c && b != c
    ensures SameValue(Three(a, b, c, x, y, z), Three(a, b, c, x', y', z')) <==>
              SameValue(x, x') && SameValue(y, y') && SameValue(z, z')
  {
    var p, q := [Member(a, x), Member(b, y), Member(c, z)], [Member(a, x'), Member(b, y'), Member(c, z')];
    SameKeysSameValue(p, q);
    assert p[0].value == x && p[1].value == y && p[2].value == z;
    assert q[0].value == x' && q[1].value == y' && q[2].value == z';
  }

  // ------------------------------------------------------------ specs that share a key

  /** Two specs get one JSON key exactly when versions agree, kernel names agree after joining surrogate
      pairs, and so do facts after sorting and joining, whatever strings and dictionary keys hold. */
  lemma {:induction false} SpecKeysExact(k1: Text, v1: int, facts1: seq<Fact>, k2: Text, v2: int, facts2: seq<Fact>)
    requires WellFormed(FTuple(facts1)) && WellFormed(FTuple(facts2))
    requires JsonItems(facts1).Some? && JsonItems(facts2).Some?
    ensures SpecText(k1, v1, facts1) == SpecText(k2, v2, facts2) <==>
              && Joined(k1) == Joined(k2) && v1 == v2
              && JoinItems(CanonItems(JsonItems(facts1).value)) == JoinItems(CanonItems(JsonItems(facts2).value))
    ensures KeysPlain(Arr(JsonItems(facts1).value)) && KeysPlain(Arr(JsonItems(facts2).value)) ==>
              (SpecText(k1, v1, facts1) == SpecText(k2, v2, facts2) <==>
                 && Joined(k1) == Joined(k2) && v1 == v2
                 && SameValue(Twin(Arr(JsonItems(facts1).value)), Twin(Arr(JsonItems(facts2).value))))
  {
    var p1, p2 := JsonItems(facts1).value, JsonItems(facts2).value;
    if KeysPlain(Arr(p1)) && KeysPlain(Arr(p2)) {
      SpecKeysByTwins(k1, v1, facts1, k2, v2, facts2);
    }
    ItemsAreWellKeyed(facts1);
    ItemsAreWellKeyed(facts2);
    SpecValuesByJoins(k1, v1, p1, k2, v2, p2);
  }

  lemma {:induction false} SpecValuesByJoins(k1: Text, v1: int, p1: seq<Pod>, k2: Text, v2: int, p2: seq<Pod>)
    requires WellKeyed(Arr(p1)) && WellKeyed(Arr(p2)) && WellWritten(Arr(p1)) && WellWritten(Arr(p2))
    ensures TextOf(SpecValue(k1, v1, p1)) == TextOf(SpecValue(k2, v2, p2)) <==>
              Joined(k1) == Joined(k2) && v1 == v2 && JoinItems(CanonItems(p1)) == JoinItems(CanonItems(p2))
  {
    SpecValueWellKeyed(k1, v1, p1);
    SpecValueWellKeyed(k2, v2, p2);
    TextExactByJoins(SpecValue(k1, v1, p1), SpecValue(k2, v2, p2));
    SpelledSpec(k1, v1, p1);
    SpelledSpec(k2, v2, p2);
    SpecValueInjective(Joined(k1), v1, JoinItems(CanonItems(p1)), Joined(k2), v2, JoinItems(CanonItems(p2)));
  }

  lemma SpecValueInjective(k1: Text, v1: int, p1: seq<Pod>, k2: Text, v2: int, p2: seq<Pod>)
    ensures SpecValue(k1, v1, p1) == SpecValue(k2, v2, p2) <==> k1 == k2 && v1 == v2 && p1 == p2
  {
    var s, t := SpecValue(k1, v1, p1).entries, SpecValue(k2, v2, p2).entries;
    assert s[0].value == Arr(p1) && s[1].value == Str(k1) && s[2].value == Num(v1);
    assert t[0].value == Arr(p2) && t[1].value == Str(k2) && t[2].value == Num(v2);
  }

  /** How a spec's value is spelled: its keys are already sorted and plain. */
  lemma {:induction false} SpelledSpec(kernel: Text, version: int, facts: seq<Pod>)
    ensures JoinAll(Canon(SpecValue(kernel, version, facts))) ==
            SpecValue(Joined(kernel), version, JoinItems(CanonItems(facts)))
  {
    var a, b, c := Ascii("facts"), Ascii("kernel"), Ascii("version");
    SpecKeysInOrder();
    CanonOfThree(a, b, c, Arr(facts), Str(kernel), Num(version));
    JoinOfThree(a, b, c, Canon(Arr(facts)), Str(kernel), Num(version));
  }

  lemma {:induction false} SpecKeysInOrder()
    ensures var a, b, c := Ascii("facts"), Ascii("kernel"), Ascii("version");
            && Before(a, b) && Before(b, c)
            && Joined(a) == a && Joined(b) == b && Joined(c) == c
  {
    var a, b, c := Ascii("facts"), Ascii("kernel"), Ascii("version");
    assert a[0] == 102 && b[0] == 107 && c[0] == 118;
    SpecKeysPlain();
    JoinedExact(a);
    JoinedExact(b);
    JoinedExact(c);
  }

  lemma {:induction false} CanonOfThree(a: Text, b: Text, c: Text, x: Pod, y: Pod, z: Pod)
    requires Before(a, b) && Before(b, c)
    ensures Canon(Three(a, b, c, x, y, z)) == Three(a, b, c, Canon(x), Canon(y), Canon(z))
  {
    var es := [Member(a, x), Member(b, y), Member(c, z)];
    var cs := CanonMembers(es);
    assert cs[0] == CanonMember(es[0]) && cs[1] == CanonMember(es[1]) && cs[2] == CanonMember(es[2]);
    assert cs == [Member(a, Canon(x)), Member(b, Canon(y)), Member(c, Canon(z))];
    BeforeTransitive(a, b, c);
    SortedStays(KeyOf, cs);
  }

  lemma {:induction false} JoinOfThree(a: Text, b: Text, c: Text, x: Pod, y: Pod, z: Pod)
    ensures JoinAll(Three(a, b, c, x, y, z)) ==
            Three(Joined(a), Joined(b), Joined(c), JoinAll(x), JoinAll(y), JoinAll(z))
  {
    var es := [Member(a, x), Member(b, y), Member(c, z)];
    var js := JoinMembers(es);
    assert js[0] == JoinMember(es[0]) && js[1] == JoinMember(es[1]) && js[2] == JoinMember(es[2]);
    assert js == [Member(Joined(a), JoinAll(x)), Member(Joined(b), JoinAll(y)), Member(Joined(c), JoinAll(z))];
  }

  /** With plain dictionary keys that is equality of the joined values as JSON values. */
  lemma {:induction false} SpecKeysByTwins(k1: Text, v1: int, facts1: seq<Fact>, k2: Text, v2: int, facts2: seq<Fact>)
    requires WellFormed(FTuple(facts1)) && WellFormed(FTuple(facts2))
    requires JsonItems(facts1).Some? && JsonItems(facts2).Some?
    requires KeysPlain(Arr(JsonItems(facts1).value)) && KeysPlain(Arr(JsonItems(facts2).value))
    ensures SpecText(k1, v1, facts1) == SpecText(k2, v2, facts2) <==>
              && Joined(k1) == Joined(k2) && v1 == v2
              && SameValue(Twin(Arr(JsonItems(facts1).value)), Twin(Arr(JsonItems(facts2).value)))
  {
    var p1, p2 := JsonItems(facts1).value, JsonItems(facts2).value;
    ItemsAreWellKeyed(facts1);
    ItemsAreWellKeyed(facts2);
    SpecTwin(k1, v1, p1);
    SpecTwin(k2, v2, p2);
    SpecValuesCanonical(Joined(k1), v1, TwinItems(p1), Joined(k2), v2, TwinItems(p2));
  }

  /** The twin of a spec's value: its own kernel name and facts joined. */
  lemma {:induction false} SpecTwin(kernel: Text, version: int, facts: seq<Pod>)
    requires WellKeyed(Arr(facts)) && WellWritten(Arr(facts))
    ensures TextOf(SpecValue(Joined(kernel), version, TwinItems(facts))) == TextOf(SpecValue(kernel, version, facts))
    ensures WellKeyed(Arr(TwinItems(facts))) && WellWritten(Arr(TwinItems(facts)))
    ensures KeysPlain(Arr(facts)) ==> PlainThroughout(SpecValue(Joined(kernel), version, TwinItems(facts)))
  {
    TwinSharesText(SpecValue(kernel, version, facts));
    SpecTwinValue(kernel, version, facts);
    TwinKeeps(Arr(facts));
    if KeysPlain(Arr(facts)) {
      JoinedExact(kernel);
      SpecValuePlain(Joined(kernel), version, TwinItems(facts));
    }
  }

  lemma {:induction false} SpecTwinValue(kernel: Text, version: int, facts: seq<Pod>)
    ensures Twin(SpecValue(kernel, version, facts)) == SpecValue(Joined(kernel), version, TwinItems(facts))
  {
    TwinOfThree(Ascii("facts"), Ascii("kernel"), Ascii("version"), Arr(facts), Str(kernel), Num(version));
  }

  lemma {:induction false} TwinOfThree(a: Text, b: Text, c: Text, x: Pod, y: Pod, z: Pod)
    ensures Twin(Three(a, b, c, x, y, z)) == Three(a, b, c, Twin(x), Twin(y), Twin(z))
  {
    var es := [Member(a, x), Member(b, y), Member(c, z)];
    var ts := TwinMembers(es);
    assert ts[0] == TwinMember(es[0]) && ts[1] == TwinMember(es[1]) && ts[2] == TwinMember(es[2]);
    assert ts == [Member(a, Twin(x)), Member(b, Twin(y)), Member(c, Twin(z))];
  }

  lemma {:induction false} SpecValuePlain(kernel: Text, version: int, facts: seq<Pod>)
    requires Plain(kernel) && PlainThroughout(Arr(facts))
    ensures PlainThroughout(SpecValue(kernel, version, facts))
  {
    SpecKeysPlain();
    PlainThree(Ascii("facts"), Ascii("kernel"), Ascii("version"), Arr(facts), Str(kernel), Num(version));
  }

  lemma {:induction false} PlainThree(a: Text, b: Text, c: Text, x: Pod, y: Pod, z: Pod)
    requires Plain(a) && Plain(b) && Plain(c) && PlainThroughout(x) && PlainThroughout(y) && PlainThroughout(z)
    ensures PlainThroughout(Three(a, b, c, x, y, z))
  {
  }

  lemma SpecKeysPlain()
    ensures Plain(Ascii("facts")) && Plain(Ascii("kernel")) && Plain(Ascii("version"))
  {
    AsciiPlain(Ascii("facts"));
    AsciiPlain(Ascii("kernel"));
    AsciiPlain(Ascii("version"));
  }

  lemma {:induction false} AsciiPlain(t: Text)
    requires forall i :: 0 <= i < |t| ==> t[i] < 128
    ensures Plain(t)
  {
    if |t| >= 2 {
      AsciiPlain(t[1..]);
    }
  }

  /** A fact with a given normal form. */
  function FactOf(p: Pod): Fact
    requires WellWritten(p)
    decreases p
  {
    match p
    case Null => FNone
    case Bool(b) => FBool(b)
    case Num(n) => FInt(n)
    case Float(token) => FFloat(token)
    case Str(text) => FStr(text)
    case Arr(items) => FTuple(FactsOf(items))
    case Obj(entries) => FDict(PairsOf(entries))
  }

  function FactsOf(items: seq<Pod>): seq<Fact>
    requires forall i :: 0 <= i < |items| ==> WellWritten(items[i])
    decreases items
  {
    if items == [] then [] else [FactOf(items[0])] + FactsOf(items[1..])
  }

  function PairOf(e: Member<Text>): Pair
    requires WellWritten(e.value)
    decreases e
  {
    Pair(TextKey(e.key), FactOf(e.value))
  }

  function PairsOf(es: Members): seq<Pair>
    requires forall i :: 0 <= i < |es| ==> WellWritten(es[i].value)
    decreases es
  {
    if es == [] then [] else [PairOf(es[0])] + PairsOf(es[1..])
  }

  lemma {:induction false} JsonItemsCons(v: Fact, vs: seq<Fact>, p: Pod, ps: seq<Pod>)
    requires JsonPod(v) == Some(p) && JsonItems(vs) == Some(ps)
    ensures JsonItems([v] + vs) == Some([p] + ps)
  {
    assert ([v] + vs)[1..] == vs;
  }

  lemma {:induction false} JsonPairsCons(pair: Pair, pairs: seq<Pair>, p: Pod, es: Members)
    requires pair.key.TextKey? && JsonValue(pair) == Some(p) && JsonPairs(pairs) == Some(es)
    ensures JsonPairs([pair] + pairs) == Some([Member(pair.key.text, p)] + es)
  {
    assert ([pair] + pairs)[1..] == pairs;
  }

  lemma {:induction false} FactOfNormal(p: Pod)
    requires WellWritten(p)
    ensures JsonPod(FactOf(p)) == Some(p)
    decreases p, 0
  {
    if p.Arr? {
      FactsOfNormal(p.items);
    } else if p.Obj? {
      PairsOfNormal(p.entries);
    }
  }

  lemma {:induction false} FactsOfNormal(items: seq<Pod>)
    requires forall i :: 0 <= i < |items| ==> WellWritten(items[i])
    ensures JsonItems(FactsOf(items)) == Some(items)
    decreases items, 1
  {
    if items != [] {
      FactOfNormal(items[0]);
      FactsOfNormal(items[1..]);
      JsonItemsCons(FactOf(items[0]), FactsOf(items[1..]), items[0], items[1..]);
      assert items == [items[0]] + items[1..];
    }
  }

  lemma {:induction false} PairOfNormal(e: Member<Text>)
    requires WellWritten(e.value)
    ensures JsonValue(PairOf(e)) == Some(e.value)
    decreases e, 0
  {
    FactOfNormal(e.value);
  }

  lemma {:induction false} PairsOfNormal(es: Members)
    requires forall i :: 0 <= i < |es| ==> WellWritten(es[i].value)
    ensures JsonPairs(PairsOf(es)) == Some(es)
    decreases es, 1
  {
    if es != [] {
      PairOfNormal(es[0]);
      PairsOfNormal(es[1..]);
      JsonPairsCons(PairOf(es[0]), PairsOf(es[1..]), es[0].value, es[1..]);
      assert es == [es[0]] + es[1..];
    }
  }

  /** A kernel name or a string fact that is not plain always collides: another spec, of a different
      kernel or different facts, gets the very same JSON key. */
  lemma {:induction false} SplitSpecCollides(kernel: Text, version: int, facts: seq<Fact>)
    requires WellFormed(FTuple(facts)) && JsonItems(facts).Some?
    requires !Plain(kernel) || !StringsPlain(Arr(JsonItems(facts).value))
    ensures exists other, others :: DifferentSpecSameKey(kernel, version, facts, other, others)
  {
    var pods := JsonItems(facts).value;
    ItemsAreWellKeyed(facts);
    TwinDiffers(kernel, pods);
    TwinSpecSharesKey(kernel, version, facts);
    assert DifferentSpecSameKey(kernel, version, facts, Joined(kernel), FactsOf(TwinItems(pods)));
  }

  lemma {:induction false} TwinSpecSharesKey(kernel: Text, version: int, facts: seq<Fact>)
    requires WellFormed(FTuple(facts)) && JsonItems(facts).Some?
    ensures WellWritten(Arr(TwinItems(JsonItems(facts).value)))
    ensures var others := FactsOf(TwinItems(JsonItems(facts).value));
            && JsonItems(others) == Some(TwinItems(JsonItems(facts).value))
            && SpecText(Joined(kernel), version, others) == SpecText(kernel, version, facts)
  {
    var pods := JsonItems(facts).value;
    ItemsAreWellKeyed(facts);
    SpecTwin(kernel, version, pods);
    FactsOfNormal(TwinItems(pods));
  }

  lemma {:induction false} TwinDiffers(kernel: Text, pods: seq<Pod>)
    requires WellKeyed(Arr(pods)) && (!Plain(kernel) || !StringsPlain(Arr(pods)))
    ensures !(Joined(kernel) == kernel && SameValue(Arr(pods), Arr(TwinItems(pods))))
  {
    JoinedExact(kernel);
    TwinExact(Arr(pods));
  }

  ghost predicate DifferentSpecSameKey(kernel: Text, version: int, facts: seq<Fact>, other: Text, others: seq<Fact>) {
    && JsonItems(facts).Some? && JsonItems(others).Some?
    && SpecText(other, version, others) == SpecText(kernel, version, facts)
    && !(other == kernel && SameValue(Arr(JsonItems(facts).value), Arr(JsonItems(others).value)))
  }
}
