/**
 When two compile specs get one key, said of the facts the callers pass: tuples and lists item by item,
 dictionaries as mappings, dimensions and fields as the triples they are tagged with.
 */
module FactMeaning {
  import opened Wrappers
  import opened JsonText
  import opened SortedLists
  import opened CompileSpecs

  // ------------------------------------------------------------ facts as what they list

  /** How deeply facts nest. */
  function Depth(v: Fact): nat
    decreases v
  {
    match v
    case FDim(_, value) => 1 + Depth(value)
    case FField(_, value) => 1 + Depth(value)
    case FTuple(items) => 1 + DepthOfItems(items)
    case FList(items) => 1 + DepthOfItems(items)
    case FDict(pairs) => 1 + DepthOfPairs(pairs)
    case _ => 0
  }

  function DepthOfItems(items: seq<Fact>): (d: nat)
    ensures forall i :: 0 <= i < |items| ==> Depth(items[i]) <= d
    decreases items
  {
    if items == [] then 0
    else
      var first, rest := Depth(items[0]), DepthOfItems(items[1..]);
      if first > rest then first else rest
  }

  function DepthOfPair(pair: Pair): nat
    decreases pair
  {
    Depth(pair.value)
  }

  function DepthOfPairs(pairs: seq<Pair>): (d: nat)
    ensures forall i :: 0 <= i < |pairs| ==> DepthOfPair(pairs[i]) <= d
    decreases pairs
  {
    if pairs == [] then 0
    else
      var first, rest := DepthOfPair(pairs[0]), DepthOfPairs(pairs[1..]);
      if first > rest then first else rest
  }

  /** What a tuple, a list or a tagged value lists, in order. */
  function Parts(v: Fact): (parts: Option<seq<Fact>>)
    ensures parts.Some? ==> forall i :: 0 <= i < |parts.value| ==> Depth(parts.value[i]) < Depth(v)
  {
    match v
    case FTuple(items) => Some(items)
    case FList(items) => Some(items)
    case FDim(kind, value) => Some([FStr(Ascii("dim")), FStr(kind), value])
    case FField(name, value) => Some([FStr(Ascii("field")), FStr(name), value])
    case _ => None
  }

  /** Equal facts: what they list is equal place by place, dictionaries are equal as mappings, everything
      else is the same. */
  ghost predicate Same(v: Fact, u: Fact)
    decreases Depth(v), 0
  {
    var a, b := Parts(v), Parts(u);
    if a.Some? && b.Some? then
      |a.value| == |b.value| && forall i :: 0 <= i < |a.value| ==> Same(a.value[i], b.value[i])
    else if v.FDict? && u.FDict? then
      && (forall i :: 0 <= i < |v.pairs| ==> DepthOfPair(v.pairs[i]) < Depth(v) && FoundIn(v.pairs[i], u.pairs))
      && (forall j :: 0 <= j < |u.pairs| ==> KeyIn(u.pairs[j].key, v.pairs))
    else a.None? && b.None? && v == u
  }

  ghost predicate FoundIn(p: Pair, qs: seq<Pair>)
    decreases DepthOfPair(p), 1
  {
    exists j :: 0 <= j < |qs| && qs[j].key == p.key && Same(p.value, qs[j].value)
  }

  predicate KeyIn(key: DictKey, ps: seq<Pair>) { exists i :: 0 <= i < |ps| && ps[i].key == key }

  function PairKey(p: Pair): seq<int> { if p.key.TextKey? then p.key.text else [] }

  function SortPairs(pairs: seq<Pair>): (r: seq<Pair>)
    ensures |r| == |pairs| && forall i :: 0 <= i < |r| ==> r[i] in pairs
  {
    SortedPairsAreThere(pairs);
    Sort(PairKey, pairs)
  }

  lemma {:induction false} SortedPairsAreThere(pairs: seq<Pair>)
    ensures forall i :: 0 <= i < |pairs| ==> Sort(PairKey, pairs)[i] in pairs
  {
    var r := Sort(PairKey, pairs);
    SortedElements(PairKey, pairs);
    forall i | 0 <= i < |r| ensures r[i] in pairs {
      assert r[i] in Elements(r);
    }
  }

  predicate SameText(t: Text, u: Text) { Joined(t) == Joined(u) }

  /** Facts that are spelled alike: the same, except that a surrogate pair in two pieces counts as its
      character; dictionary keys are put in order before they are compared. */
  ghost predicate Alike(v: Fact, u: Fact)
    decreases Depth(v)
  {
    var a, b := Parts(v), Parts(u);
    if a.Some? && b.Some? then
      |a.value| == |b.value| && forall i :: 0 <= i < |a.value| ==> Alike(a.value[i], b.value[i])
    else if v.FDict? && u.FDict? then
      var ps, qs := SortPairs(v.pairs), SortPairs(u.pairs);
      && |ps| == |qs|
      && forall i :: 0 <= i < |ps| ==>
           SameText(PairKey(ps[i]), PairKey(qs[i])) && DepthOfPair(ps[i]) < Depth(v) && Alike(ps[i].value, qs[i].value)
    else if v.FStr? && u.FStr? then SameText(v.text, u.text)
    else a.None? && b.None? && v == u
  }

  // ------------------------------------------------------------ their normal forms

  function PodOf(v: Fact): Pod { if JsonPod(v).Some? then JsonPod(v).value else Null }

  lemma {:induction false} ItemPods(items: seq<Fact>)
    requires JsonItems(items).Some?
    ensures forall i :: 0 <= i < |items| ==> JsonPod(items[i]).Some? && JsonItems(items).value[i] == PodOf(items[i])
  {
    if items != [] {
      ItemPods(items[1..]);
      assert forall i :: 0 < i < |items| ==> items[i] == items[1..][i - 1];
    }
  }

  lemma {:induction false} PairPods(pairs: seq<Pair>)
    requires JsonPairs(pairs).Some?
    ensures forall i :: 0 <= i < |pairs| ==>
              && pairs[i].key.TextKey? && JsonPod(pairs[i].value).Some?
              && JsonPairs(pairs).value[i] == Member(pairs[i].key.text, PodOf(pairs[i].value))
  {
    if pairs != [] {
      PairPods(pairs[1..]);
      assert forall i :: 0 < i < |pairs| ==> pairs[i] == pairs[1..][i - 1];
    }
  }

  /** A tagged value and the list of its parts have one normal form. */
  lemma {:induction false} PartsPod(v: Fact)
    requires JsonPod(v).Some? && Parts(v).Some?
    ensures JsonItems(Parts(v).value).Some? && JsonPod(v).value == Arr(JsonItems(Parts(v).value).value)
  {
    match v
    case FDim(kind, value) => ThreeParts(FStr(Ascii("dim")), FStr(kind), value);
    case FField(name, value) => ThreeParts(FStr(Ascii("field")), FStr(name), value);
    case _ =>
  }

  lemma {:induction false} ThreeParts(a: Fact, b: Fact, c: Fact)
    requires JsonPod(a).Some? && JsonPod(b).Some? && JsonPod(c).Some?
    ensures JsonItems([a, b, c]) == Some([PodOf(a), PodOf(b), PodOf(c)])
  {
    var p, q, r := PodOf(a), PodOf(b), PodOf(c);
    JsonItemsCons(c, [], r, []);
    assert [c] + [] == [c] && [r] + [] == [r];
    JsonItemsCons(b, [c], q, [r]);
    assert [b] + [c] == [b, c] && [q] + [r] == [q, r];
    JsonItemsCons(a, [b, c], p, [q, r]);
    assert [a] + [b, c] == [a, b, c] && [p] + [q, r] == [p, q, r];
  }

  lemma {:induction false} ScalarPod(v: Fact)
    requires JsonPod(v).Some? && Parts(v).None?
    ensures !PodOf(v).Arr? && (v.FDict? <==> PodOf(v).Obj?) && (v.FStr? <==> PodOf(v).Str?)
    ensures v.FStr? ==> PodOf(v) == Str(v.text)
  {
  }

  lemma {:induction false} ScalarsSame(v: Fact, u: Fact)
    requires JsonPod(v).Some? && JsonPod(u).Some? && Parts(v).None? && Parts(u).None? && !v.FDict?
    ensures v == u <==> PodOf(v) == PodOf(u)
  {
  }

  /** Facts are equal exactly when their normal forms are equal JSON values. */
  lemma {:induction false} SameExact(v: Fact, u: Fact)
    requires JsonPod(v).Some? && JsonPod(u).Some?
    ensures Same(v, u) <==> SameValue(PodOf(v), PodOf(u))
    decreases Depth(v), 1
  {
    KindOfPod(v);
    KindOfPod(u);
    if Parts(v).Some? && Parts(u).Some? {
      SameParts(v, u);
    } else if v.FDict? && u.FDict? {
      SameDicts(v, u);
    } else if Parts(v).None? && Parts(u).None? && !v.FDict? {
      ScalarsSame(v, u);
    }
  }

  lemma {:induction false} KindOfPod(v: Fact)
    requires JsonPod(v).Some?
    ensures (Parts(v).Some? <==> PodOf(v).Arr?) && (v.FDict? <==> PodOf(v).Obj?)
  {
    if Parts(v).Some? {
      PartsPod(v);
    } else {
      ScalarPod(v);
    }
  }

  lemma {:induction false} SameParts(v: Fact, u: Fact)
    requires JsonPod(v).Some? && JsonPod(u).Some? && Parts(v).Some? && Parts(u).Some?
    ensures Same(v, u) <==> SameValue(PodOf(v), PodOf(u))
    decreases Depth(v), 0
  {
    PartsPod(v);
    PartsPod(u);
    var a, b := Parts(v).value, Parts(u).value;
    ItemPods(a);
    ItemPods(b);
    forall i | 0 <= i < |a| && i < |b| ensures Same(a[i], b[i]) <==> SameValue(PodOf(a[i]), PodOf(b[i])) {
      SameExact(a[i], b[i]);
    }
    ListsMatch(a, b, JsonItems(a).value, JsonItems(b).value);
  }

  lemma {:induction false} ListsMatch(a: seq<Fact>, b: seq<Fact>, p: seq<Pod>, q: seq<Pod>)
    requires |a| == |p| && |b| == |q|
    requires forall i :: 0 <= i < |a| && i < |b| ==> (Same(a[i], b[i]) <==> SameValue(p[i], q[i]))
    ensures (|a| == |b| && forall i :: 0 <= i < |a| ==> Same(a[i], b[i])) <==> SameValue(Arr(p), Arr(q))
  {
  }

  lemma {:induction false} SameDicts(v: Fact, u: Fact)
    requires JsonPod(v).Some? && JsonPod(u).Some? && v.FDict? && u.FDict?
    ensures Same(v, u) <==> SameValue(PodOf(v), PodOf(u))
    decreases Depth(v), 0
  {
    var ps, qs := v.pairs, u.pairs;
    var a, b := JsonPairs(ps).value, JsonPairs(qs).value;
    PairPods(ps);
    PairPods(qs);
    forall i, j | 0 <= i < |ps| && 0 <= j < |qs|
      ensures Same(ps[i].value, qs[j].value) <==> SameValue(a[i].value, b[j].value)
    {
      assert DepthOfPair(ps[i]) < Depth(v);
      SameExact(ps[i].value, qs[j].value);
    }
    DictsMatch(ps, qs, a, b);
  }

  /** An entry is matched among facts as among their normal forms. */
  lemma {:induction false} EntryMatches(p: Pair, e: Member<Text>, qs: seq<Pair>, b: Members)
    requires p.key == TextKey(e.key) && |qs| == |b|
    requires forall j :: 0 <= j < |qs| ==> qs[j].key == TextKey(b[j].key)
    requires forall j :: 0 <= j < |qs| ==> (Same(p.value, qs[j].value) <==> SameValue(e.value, b[j].value))
    ensures Matched(e, b) <==> FoundIn(p, qs)
  {
    if Matched(e, b) {
      var j :| 0 <= j < |b| && b[j].key == e.key && SameValue(e.value, b[j].value);
      assert qs[j].key == p.key && Same(p.value, qs[j].value);
    }
    if FoundIn(p, qs) {
      var j :| 0 <= j < |qs| && qs[j].key == p.key && Same(p.value, qs[j].value);
      assert b[j].key == e.key && SameValue(e.value, b[j].value);
    }
  }

  lemma {:induction false} KeyCovered(ps: seq<Pair>, a: Members, key: Text)
    requires |ps| == |a| && forall i :: 0 <= i < |ps| ==> ps[i].key == TextKey(a[i].key)
    ensures HasKey(a, key) <==> KeyIn(TextKey(key), ps)
  {
    if HasKey(a, key) {
      var i :| 0 <= i < |a| && a[i].key == key;
      assert ps[i].key == TextKey(key);
    }
    if KeyIn(TextKey(key), ps) {
      var i :| 0 <= i < |ps| && ps[i].key == TextKey(key);
      assert a[i].key == key;
    }
  }

  /** Two dictionaries and their normal forms match alike. */
  lemma {:induction false} DictsMatch(ps: seq<Pair>, qs: seq<Pair>, a: Members, b: Members)
    requires |ps| == |a| && |qs| == |b|
    requires forall i :: 0 <= i < |ps| ==> ps[i].key == TextKey(a[i].key)
    requires forall j :: 0 <= j < |qs| ==> qs[j].key == TextKey(b[j].key)
    requires forall i, j :: 0 <= i < |ps| && 0 <= j < |qs| ==> (Same(ps[i].value, qs[j].value) <==> SameValue(a[i].value, b[j].value))
    ensures Same(FDict(ps), FDict(qs)) <==> SameValue(Obj(a), Obj(b))
  {
    forall i | 0 <= i < |ps| ensures Matched(a[i], b) <==> FoundIn(ps[i], qs) {
      EntryMatches(ps[i], a[i], qs, b);
    }
    forall j | 0 <= j < |qs| ensures HasKey(a, b[j].key) <==> KeyIn(qs[j].key, ps) {
      KeyCovered(ps, a, b[j].key);
    }
    MatchesDecide(ps, qs, a, b);
  }

  lemma {:induction false} MatchesDecide(ps: seq<Pair>, qs: seq<Pair>, a: Members, b: Members)
    requires |ps| == |a| && |qs| == |b|
    requires forall i :: 0 <= i < |ps| ==> (Matched(a[i], b) <==> FoundIn(ps[i], qs))
    requires forall j :: 0 <= j < |qs| ==> (HasKey(a, b[j].key) <==> KeyIn(qs[j].key, ps))
    ensures Same(FDict(ps), FDict(qs)) <==> SameValue(Obj(a), Obj(b))
  {
    SameDictsMean(ps, qs);
    SameObjectsMean(a, b);
    assert AllFound(ps, qs) <==> forall i :: 0 <= i < |a| ==> Matched(a[i], b);
    assert AllKeysIn(ps, qs) <==> Covers(a, b);
  }

  ghost predicate AllFound(ps: seq<Pair>, qs: seq<Pair>) { forall i :: 0 <= i < |ps| ==> FoundIn(ps[i], qs) }

  predicate AllKeysIn(ps: seq<Pair>, qs: seq<Pair>) { forall j :: 0 <= j < |qs| ==> KeyIn(qs[j].key, ps) }

  lemma {:induction false} SameDictsMean(ps: seq<Pair>, qs: seq<Pair>)
    ensures Same(FDict(ps), FDict(qs)) <==> AllFound(ps, qs) && AllKeysIn(ps, qs)
  {
    var v := FDict(ps);
    assert forall i :: 0 <= i < |ps| ==> DepthOfPair(v.pairs[i]) < Depth(v);
  }

  lemma {:induction false} SameObjectsMean(a: Members, b: Members)
    ensures SameValue(Obj(a), Obj(b)) <==> (forall i :: 0 <= i < |a| ==> Matched(a[i], b)) && Covers(a, b)
  {
  }

  // ------------------------------------------------------------ how they are spelled

  /** The value a key is printed from, with all surrogate pairs joined. */
  function Spelled(v: Fact): Pod { JoinAll(Canon(PodOf(v))) }

  function EntryOf(p: Pair): Member<Text> { Member(PairKey(p), Canon(PodOf(p.value))) }

  /** A dictionary's sorted normal form holds its pairs in the order of their keys. */
  lemma {:induction false} SortedEntries(pairs: seq<Pair>)
    requires JsonPairs(pairs).Some?
    ensures SortMembers(CanonMembers(JsonPairs(pairs).value)) == Mapped(EntryOf, SortPairs(pairs))
  {
    PairPods(pairs);
    var es := CanonMembers(JsonPairs(pairs).value);
    forall i | 0 <= i < |pairs| ensures es[i] == EntryOf(pairs[i]) {
      assert es[i] == CanonMember(JsonPairs(pairs).value[i]);
    }
    assert es == Mapped(EntryOf, pairs);
    SortMapped(EntryOf, PairKey, KeyOf, pairs);
  }

  function SpelledPair(p: Pair): Member<Text> { Member(Joined(PairKey(p)), Spelled(p.value)) }

  lemma {:induction false} EntrySpelled(p: Pair)
    ensures JoinMember(EntryOf(p)) == SpelledPair(p)
  {
  }

  lemma {:induction false} SpelledDict(pairs: seq<Pair>)
    requires JsonPairs(pairs).Some?
    ensures Spelled(FDict(pairs)) == Obj(Mapped(SpelledPair, SortPairs(pairs)))
  {
    SortedEntries(pairs);
    var ps := SortPairs(pairs);
    var es := SortMembers(CanonMembers(JsonPairs(pairs).value));
    assert Spelled(FDict(pairs)) == Obj(JoinMembers(es));
    EntriesSpelled(ps);
  }

  lemma {:induction false} EntriesSpelled(ps: seq<Pair>)
    ensures JoinMembers(Mapped(EntryOf, ps)) == Mapped(SpelledPair, ps)
  {
    var es := Mapped(EntryOf, ps);
    forall i | 0 <= i < |ps| ensures JoinMembers(es)[i] == SpelledPair(ps[i]) {
      assert JoinMembers(es)[i] == JoinMember(es[i]);
      EntrySpelled(ps[i]);
    }
    assert JoinMembers(es) == Mapped(SpelledPair, ps);
  }

  lemma {:induction false} SpelledParts(v: Fact)
    requires JsonPod(v).Some? && Parts(v).Some?
    ensures Spelled(v).Arr? && |Spelled(v).items| == |Parts(v).value|
    ensures forall i :: 0 <= i < |Parts(v).value| ==>
              JsonPod(Parts(v).value[i]).Some? && Spelled(v).items[i] == Spelled(Parts(v).value[i])
  {
    PartsPod(v);
    ItemPods(Parts(v).value);
  }

  lemma {:induction false} SpelledScalar(v: Fact)
    requires JsonPod(v).Some? && Parts(v).None? && !v.FDict?
    ensures Spelled(v) == (if v.FStr? then Str(Joined(v.text)) else PodOf(v))
    ensures !PodOf(v).Arr? && !PodOf(v).Obj? && (v.FStr? <==> PodOf(v).Str?)
  {
  }

  /** Facts are spelled alike exactly when their sorted, joined normal forms are the same. */
  lemma {:induction false} AlikeExact(v: Fact, u: Fact)
    requires JsonPod(v).Some? && JsonPod(u).Some?
    ensures Alike(v, u) <==> Spelled(v) == Spelled(u)
    decreases Depth(v), 1
  {
    SpelledKind(v);
    SpelledKind(u);
    if Parts(v).Some? && Parts(u).Some? {
      AlikeParts(v, u);
    } else if v.FDict? && u.FDict? {
      AlikeDicts(v, u);
    } else if Parts(v).None? && Parts(u).None? && !v.FDict? && !u.FDict? {
      SpelledScalar(v);
      SpelledScalar(u);
      ScalarsSame(v, u);
    }
  }

  lemma {:induction false} SpelledKind(v: Fact)
    requires JsonPod(v).Some?
    ensures (Parts(v).Some? <==> Spelled(v).Arr?) && (v.FDict? <==> Spelled(v).Obj?)
  {
    KindOfPod(v);
  }

  lemma {:induction false} AlikeParts(v: Fact, u: Fact)
    requires JsonPod(v).Some? && JsonPod(u).Some? && Parts(v).Some? && Parts(u).Some?
    ensures Alike(v, u) <==> Spelled(v) == Spelled(u)
    decreases Depth(v), 0
  {
    SpelledParts(v);
    SpelledParts(u);
    var a, b := Parts(v).value, Parts(u).value;
    forall i | 0 <= i < |a| && i < |b| ensures Alike(a[i], b[i]) <==> Spelled(v).items[i] == Spelled(u).items[i] {
      AlikeExact(a[i], b[i]);
    }
  }

  lemma {:induction false} AlikeDicts(v: Fact, u: Fact)
    requires JsonPod(v).Some? && JsonPod(u).Some? && v.FDict? && u.FDict?
    ensures Alike(v, u) <==> Spelled(v) == Spelled(u)
    decreases Depth(v), 0
  {
    SpelledDict(v.pairs);
    SpelledDict(u.pairs);
    PairPods(v.pairs);
    PairPods(u.pairs);
    var ps, qs := SortPairs(v.pairs), SortPairs(u.pairs);
    forall i | 0 <= i < |ps| && i < |qs|
      ensures DepthOfPair(ps[i]) < Depth(v)
      ensures Alike(ps[i].value, qs[i].value) <==> Spelled(ps[i].value) == Spelled(qs[i].value)
    {
      PairInDict(v.pairs, ps[i]);
      PairInDict(u.pairs, qs[i]);
      AlikeExact(ps[i].value, qs[i].value);
    }
    EntriesAlike(v, u);
  }

  lemma {:induction false} PairInDict(pairs: seq<Pair>, p: Pair)
    requires JsonPairs(pairs).Some? && p in pairs
    ensures DepthOfPair(p) < Depth(FDict(pairs)) && JsonPod(p.value).Some? && p.key.TextKey?
  {
    PairPods(pairs);
    var i :| 0 <= i < |pairs| && pairs[i] == p;
  }

  /** Two lists of pairs whose values are spelled alike place by place. */
  ghost predicate PairsAlike(ps: seq<Pair>, qs: seq<Pair>)
  {
    |ps| == |qs| && forall i :: 0 <= i < |ps| ==> SameText(PairKey(ps[i]), PairKey(qs[i])) && Alike(ps[i].value, qs[i].value)
  }

  lemma {:induction false} EntriesAlike(v: Fact, u: Fact)
    requires v.FDict? && u.FDict? && JsonPairs(v.pairs).Some? && JsonPairs(u.pairs).Some?
    requires var ps, qs := SortPairs(v.pairs), SortPairs(u.pairs);
             forall i :: 0 <= i < |ps| && i < |qs| ==>
               && DepthOfPair(ps[i]) < Depth(v)
               && (Alike(ps[i].value, qs[i].value) <==> Spelled(ps[i].value) == Spelled(qs[i].value))
    ensures Alike(v, u) <==> Spelled(v) == Spelled(u)
  {
    SpelledDict(v.pairs);
    SpelledDict(u.pairs);
    var ps, qs := SortPairs(v.pairs), SortPairs(u.pairs);
    assert Alike(v, u) <==> PairsAlike(ps, qs);
    ListsSpelled(ps, qs);
  }

  lemma {:induction false} ListsSpelled(ps: seq<Pair>, qs: seq<Pair>)
    requires forall i :: 0 <= i < |ps| && i < |qs| ==>
               (Alike(ps[i].value, qs[i].value) <==> Spelled(ps[i].value) == Spelled(qs[i].value))
    ensures PairsAlike(ps, qs) <==> Mapped(SpelledPair, ps) == Mapped(SpelledPair, qs)
  {
    var a, b := Mapped(SpelledPair, ps), Mapped(SpelledPair, qs);
    assert |a| == |b| <==> |ps| == |qs|;
    if |a| == |b| {
      forall i | 0 <= i < |a|
        ensures a[i] == b[i] <==> SameText(PairKey(ps[i]), PairKey(qs[i])) && Alike(ps[i].value, qs[i].value)
      {
        assert a[i] == SpelledPair(ps[i]) && b[i] == SpelledPair(qs[i]);
      }
      assert a == b <==> forall i :: 0 <= i < |a| ==> a[i] == b[i];
    }
  }

  // ------------------------------------------------------------ keys

  /** No string of a fact, tag name or dictionary key splits a surrogate pair. */
  ghost predicate PlainFact(v: Fact)
    decreases Depth(v), 0
  {
    match v
    case FStr(text) => Plain(text)
    case FDim(kind, value) => Plain(kind) && PlainFact(value)
    case FField(name, value) => Plain(name) && PlainFact(value)
    case FTuple(items) => forall i :: 0 <= i < |items| ==> PlainFact(items[i])
    case FList(items) => forall i :: 0 <= i < |items| ==> PlainFact(items[i])
    case FDict(pairs) => forall i :: 0 <= i < |pairs| ==> DepthOfPair(pairs[i]) < Depth(v) && Plain(PairKey(pairs[i])) && PlainFact(pairs[i].value)
    case _ => true
  }

  lemma {:induction false} PlainPods(v: Fact)
    requires JsonPod(v).Some? && PlainFact(v)
    ensures PlainThroughout(PodOf(v))
    decreases Depth(v)
  {
    if Parts(v).Some? {
      PartsPod(v);
      ItemPods(Parts(v).value);
      SpecKeysPlain();
      AsciiPlain(Ascii("dim"));
      AsciiPlain(Ascii("field"));
      forall i | 0 <= i < |Parts(v).value| ensures PlainThroughout(PodOf(Parts(v).value[i])) {
        PlainPods(Parts(v).value[i]);
      }
    } else if v.FDict? {
      PairPods(v.pairs);
      forall i | 0 <= i < |v.pairs| ensures PlainThroughout(PodOf(v.pairs[i].value)) {
        PlainPods(v.pairs[i].value);
      }
    }
  }

  /** Two specs get one JSON key exactly when their versions agree, their kernel names are spelled alike
      and so are their facts. Where nothing splits a surrogate pair that is: the same name and equal
      facts. */
  lemma {:induction false} SpecKeysMean(k1: Text, v1: int, facts1: seq<Fact>, k2: Text, v2: int, facts2: seq<Fact>)
    requires WellFormed(FTuple(facts1)) && WellFormed(FTuple(facts2))
    requires IsJsonPod(FTuple(facts1)) && IsJsonPod(FTuple(facts2))
    ensures SpecText(k1, v1, facts1).Some? && SpecText(k2, v2, facts2).Some?
    ensures SpecText(k1, v1, facts1) == SpecText(k2, v2, facts2) <==>
              SameText(k1, k2) && v1 == v2 && Alike(FTuple(facts1), FTuple(facts2))
    ensures Plain(k1) && Plain(k2) && PlainFact(FTuple(facts1)) && PlainFact(FTuple(facts2)) ==>
              (SpecText(k1, v1, facts1) == SpecText(k2, v2, facts2) <==>
                 k1 == k2 && v1 == v2 && Same(FTuple(facts1), FTuple(facts2)))
  {
    var t1, t2 := FTuple(facts1), FTuple(facts2);
    PodExactlyWhenAccepted(t1);
    PodExactlyWhenAccepted(t2);
    SpecKeysExact(k1, v1, facts1, k2, v2, facts2);
    AlikeExact(t1, t2);
    if Plain(k1) && Plain(k2) && PlainFact(t1) && PlainFact(t2) {
      PlainSpecKeys(k1, v1, facts1, k2, v2, facts2);
    }
  }

  lemma {:induction false} PlainSpecKeys(k1: Text, v1: int, facts1: seq<Fact>, k2: Text, v2: int, facts2: seq<Fact>)
    requires WellFormed(FTuple(facts1)) && WellFormed(FTuple(facts2))
    requires JsonItems(facts1).Some? && JsonItems(facts2).Some?
    requires Plain(k1) && Plain(k2) && PlainFact(FTuple(facts1)) && PlainFact(FTuple(facts2))
    ensures SpecText(k1, v1, facts1) == SpecText(k2, v2, facts2) <==>
              k1 == k2 && v1 == v2 && Same(FTuple(facts1), FTuple(facts2))
  {
    var p1, p2 := JsonItems(facts1).value, JsonItems(facts2).value;
    ItemsAreWellKeyed(facts1);
    ItemsAreWellKeyed(facts2);
    PlainPods(FTuple(facts1));
    PlainPods(FTuple(facts2));
    SpecValuePlain(k1, v1, p1);
    SpecValuePlain(k2, v2, p2);
    SpecValuesCanonical(k1, v1, p1, k2, v2, p2);
    SameExact(FTuple(facts1), FTuple(facts2));
  }
}
