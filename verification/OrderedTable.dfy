/**
 Ordered tables with least-recently-used eviction: the two OrderedDict globals of
 the kernel compiler (compiled programs and compile specs), oldest entry first.
 */
module OrderedTable {
  import opened Wrappers

  type Table<K, V> = seq<(K, V)>

  predicate Distinct<K(==), V>(t: Table<K, V>) {
    forall i, j :: 0 <= i < j < |t| ==> t[i].0 != t[j].0
  }

  function Find<K(==), V>(t: Table<K, V>, key: K): (v: Option<V>)
    ensures v.Some? ==> (key, v.value) in t
    ensures v.None? ==> forall i :: 0 <= i < |t| ==> t[i].0 != key
  {
    if t == [] then None
    else if t[0].0 == key then Some(t[0].1)
    else Find(t[1..], key)
  }

  /** Every entry but the one for `key`. */
  function Remove<K(==), V>(t: Table<K, V>, key: K): (r: Table<K, V>)
    ensures forall e :: e in r ==> e in t && e.0 != key
    ensures forall e :: e in t && e.0 != key ==> e in r
    ensures |r| <= |t|
  {
    if t == [] then []
    else if t[0].0 == key then Remove(t[1..], key)
    else [t[0]] + Remove(t[1..], key)
  }

  /** Assignment followed by `move_to_end`. */
  function Insert<K(==), V>(t: Table<K, V>, key: K, value: V): Table<K, V> {
    Remove(t, key) + [(key, value)]
  }

  /** A successful lookup also moves its entry to the young end. */
  function Touch<K(==), V>(t: Table<K, V>, key: K): Table<K, V> {
    match Find(t, key)
    case None => t
    case Some(v) => Insert(t, key, v)
  }

  /** `popitem(last=False)` until at most `limit` entries are left. */
  function Trim<K, V>(t: Table<K, V>, limit: nat): Table<K, V> {
    if |t| > limit then t[|t| - limit..] else t
  }

  function Put<K(==), V>(t: Table<K, V>, key: K, value: V, limit: nat): Table<K, V> {
    Trim(Insert(t, key, value), limit)
  }

  lemma {:induction false} RemoveDistinct<K, V>(t: Table<K, V>, key: K)
    requires Distinct(t)
    ensures Distinct(Remove(t, key))
    ensures Find(t, key).Some? ==> |Remove(t, key)| == |t| - 1
    ensures Find(t, key).None? ==> Remove(t, key) == t
  {
    if t != [] {
      TailDistinct(t);
      if t[0].0 == key {
        RemoveAbsent(t[1..], key);
        FindAbsent(t[1..], key);
      } else {
        RemoveDistinct(t[1..], key);
        assert t == [t[0]] + t[1..];
        ConsDistinct(t[0], Remove(t[1..], key), t[1..]);
      }
    }
  }

  ghost predicate Absent<K, V>(t: Table<K, V>, key: K) {
    forall e :: e in t ==> e.0 != key
  }

  lemma TailDistinct<K, V>(t: Table<K, V>)
    requires Distinct(t) && t != []
    ensures Distinct(t[1..]) && Absent(t[1..], t[0].0)
  {
    var u := t[1..];
    assert forall i :: 0 <= i < |u| ==> u[i] == t[i + 1];
  }

  lemma ConsDistinct<K, V>(e: (K, V), r: Table<K, V>, t: Table<K, V>)
    requires Distinct(r) && Absent(t, e.0) && forall x :: x in r ==> x in t
    ensures Distinct([e] + r)
  {
    var u := [e] + r;
    forall i, j | 0 <= i < j < |u| ensures u[i].0 != u[j].0 {
      assert u[j] == r[j - 1] && r[j - 1] in r;
    }
  }

  lemma {:induction false} RemoveAbsent<K, V>(t: Table<K, V>, key: K)
    requires Absent(t, key)
    ensures Remove(t, key) == t
  {
    if t != [] {
      assert t[0] in t;
      RemoveAbsent(t[1..], key);
      assert t == [t[0]] + t[1..];
    }
  }

  lemma {:induction false} FindAbsent<K, V>(t: Table<K, V>, key: K)
    requires Absent(t, key)
    ensures Find(t, key).None?
  {
  }

  lemma {:induction false} FindMember<K, V>(t: Table<K, V>, key: K, value: V)
    requires Distinct(t) && (key, value) in t
    ensures Find(t, key) == Some(value)
  {
    if t[0] != (key, value) {
      var i :| 0 <= i < |t| && t[i] == (key, value);
      assert t[1..][i - 1] == (key, value);
      FindMember(t[1..], key, value);
    }
  }

  /** What one bounded insertion promises: no duplicate key, never over the bound, the key just
      inserted is kept, and nothing appears that was not there. */
  lemma PutContract<K, V>(t: Table<K, V>, key: K, value: V, limit: nat)
    requires Distinct(t) && 1 <= limit
    ensures Distinct(Put(t, key, value, limit))
    ensures |Put(t, key, value, limit)| <= limit
    ensures Find(Put(t, key, value, limit), key) == Some(value)
    ensures forall e :: e in Put(t, key, value, limit) ==> e == (key, value) || (e in t && e.0 != key)
  {
    InsertContract(t, key, value);
    var full := Insert(t, key, value);
    var n := if |full| > limit then |full| - limit else 0;
    assert Put(t, key, value, limit) == full[n..];
    SuffixDistinct(full, n);
    SuffixHasLast(full, n);
    FindMember(full[n..], key, value);
  }

  lemma SuffixHasLast<T>(s: seq<T>, n: nat)
    requires n < |s|
    ensures s[|s| - 1] in s[n..]
  {
    assert s[n..][|s| - n - 1] == s[|s| - 1];
  }

  lemma InsertContract<K, V>(t: Table<K, V>, key: K, value: V)
    requires Distinct(t)
    ensures Distinct(Insert(t, key, value))
    ensures forall e :: e in Insert(t, key, value) ==> e == (key, value) || (e in t && e.0 != key)
  {
    RemoveDistinct(t, key);
    SnocDistinct(Remove(t, key), (key, value));
  }

  lemma SnocDistinct<K, V>(r: Table<K, V>, e: (K, V))
    requires Distinct(r) && Absent(r, e.0)
    ensures Distinct(r + [e])
  {
    var u := r + [e];
    forall i, j | 0 <= i < j < |u| ensures u[i].0 != u[j].0 {
      assert u[i] == r[i] && r[i] in r;
    }
  }

  lemma SuffixDistinct<K, V>(t: Table<K, V>, n: nat)
    requires Distinct(t) && n <= |t|
    ensures Distinct(t[n..]) && forall e :: e in t[n..] ==> e in t
  {
    var u := t[n..];
    assert forall i :: 0 <= i < |u| ==> u[i] == t[n + i];
  }

  lemma TouchContract<K, V>(t: Table<K, V>, key: K)
    requires Distinct(t)
    ensures Distinct(Touch(t, key)) && |Touch(t, key)| == |t|
    ensures forall e :: e in Touch(t, key) <==> e in t
  {
    if Find(t, key).Some? {
      RemoveDistinct(t, key);
      InsertContract(t, key, Find(t, key).value);
      forall e | e in t
        ensures e in Touch(t, key)
      {
        if e.0 == key {
          FindMember(t, e.0, e.1);
        }
      }
    }
  }

  // ------------------------------------------------------------------ recency

  function Keys<K, V>(t: Table<K, V>): (ks: seq<K>)
    ensures |ks| == |t| && forall i :: 0 <= i < |t| ==> ks[i] == t[i].0
  {
    if t == [] then [] else [t[0].0] + Keys(t[1..])
  }

  function Without<K(==)>(ks: seq<K>, key: K): (r: seq<K>)
    ensures forall k :: k in r ==> k in ks && k != key
    ensures forall k :: k in ks && k != key ==> k in r
  {
    if ks == [] then []
    else if ks[0] == key then Without(ks[1..], key)
    else [ks[0]] + Without(ks[1..], key)
  }

  /** The distinct keys of a history of uses, ordered by their last use: an independent
      description of "recency" that mentions no table. */
  function LastUses<K(==)>(history: seq<K>): seq<K> {
    if history == [] then []
    else
      var last := |history| - 1;
      Without(LastUses(history[..last]), history[last]) + [history[last]]
  }

  predicate NoRepeat<K(==)>(ks: seq<K>) {
    forall i, j :: 0 <= i < j < |ks| ==> ks[i] != ks[j]
  }

  function Last<T>(s: seq<T>, n: nat): (r: seq<T>)
    ensures |r| == if |s| > n then n else |s|
  {
    if |s| > n then s[|s| - n..] else s
  }

  /** Holds of a table driven by `history` (uses in order, hits and insertions alike): its keys
      are the `limit` most recently used ones, in that order. */
  predicate MostRecent<K(==), V>(t: Table<K, V>, history: seq<K>, limit: nat) {
    Keys(t) == Last(LastUses(history), limit)
  }

  lemma {:induction false} KeysOfRemove<K, V>(t: Table<K, V>, key: K)
    ensures Keys(Remove(t, key)) == Without(Keys(t), key)
  {
    if t != [] {
      KeysOfRemove(t[1..], key);
      assert Keys(t)[1..] == Keys(t[1..]);
      assert Keys(t)[0] == t[0].0;
    }
  }

  lemma AppendAssociates<T>(a: seq<T>, b: seq<T>, c: seq<T>)
    ensures a + (b + c) == (a + b) + c
  {
  }

  lemma {:induction false} WithoutConcat<K>(a: seq<K>, b: seq<K>, key: K)
    ensures Without(a + b, key) == Without(a, key) + Without(b, key)
  {
    if a == [] {
      assert a + b == b;
    } else {
      WithoutConcat(a[1..], b, key);
      assert (a + b)[0] == a[0] && (a + b)[1..] == a[1..] + b;
      if a[0] != key {
        AppendAssociates([a[0]], Without(a[1..], key), Without(b, key));
      }
    }
  }

  lemma {:induction false} WithoutAbsent<K>(ks: seq<K>, key: K)
    ensures key !in ks ==> Without(ks, key) == ks
    ensures |Without(ks, key)| <= |ks|
  {
    if ks != [] {
      WithoutAbsent(ks[1..], key);
    }
  }

  lemma {:induction false} WithoutDistinct<K>(ks: seq<K>, key: K)
    requires NoRepeat(ks)
    ensures NoRepeat(Without(ks, key))
    ensures |Without(ks, key)| >= |ks| - 1
  {
    if ks != [] {
      TailNoRepeat(ks);
      if ks[0] == key {
        WithoutAbsent(ks[1..], key);
      } else {
        WithoutDistinct(ks[1..], key);
        ConsNoRepeat(ks[0], Without(ks[1..], key));
      }
    }
  }

  lemma TailNoRepeat<K>(ks: seq<K>)
    requires NoRepeat(ks) && ks != []
    ensures NoRepeat(ks[1..]) && ks[0] !in ks[1..]
  {
    var u := ks[1..];
    assert forall i :: 0 <= i < |u| ==> u[i] == ks[i + 1];
  }

  lemma ConsNoRepeat<K>(k: K, r: seq<K>)
    requires NoRepeat(r) && k !in r
    ensures NoRepeat([k] + r)
  {
    var u := [k] + r;
    forall i, j | 0 <= i < j < |u| ensures u[i] != u[j] {
      assert u[j] == r[j - 1] && r[j - 1] in r;
    }
  }

  lemma {:induction false} LastUsesDistinct<K>(history: seq<K>)
    ensures NoRepeat(LastUses(history))
  {
    if history != [] {
      var last := |history| - 1;
      LastUsesDistinct(history[..last]);
      var front := Without(LastUses(history[..last]), history[last]);
      WithoutDistinct(LastUses(history[..last]), history[last]);
      forall i | 0 <= i < |front| ensures front[i] != history[last] {
        assert front[i] in front;
      }
    }
  }

  lemma LastOfConcat<T>(front: seq<T>, back: seq<T>, n: nat)
    requires n <= |back|
    ensures Last(front + back, n) == Last(back, n)
  {
    assert front + back == (front + back[..|back| - n]) + back[|back| - n..];
  }

  /** Cutting a recency list to `limit` keys before or after a use makes no difference. */
  lemma {:induction false} UseAfterCut<K>(uses: seq<K>, key: K, limit: nat)
    requires NoRepeat(uses) && 1 <= limit
    ensures Last(Without(Last(uses, limit), key) + [key], limit) == Last(Without(uses, key) + [key], limit)
  {
    var kept := Last(uses, limit);
    if |uses| > limit {
      var front := uses[..|uses| - limit];
      assert uses == front + kept;
      WithoutConcat(front, kept, key);
      WithoutDistinct(kept, key);
      assert Without(uses, key) + [key] == Without(front, key) + (Without(kept, key) + [key]);
      LastOfConcat(Without(front, key), Without(kept, key) + [key], limit);
    }
  }

  /** A bounded insertion keeps exactly the most recently used keys. */
  lemma PutKeepsMostRecent<K, V>(t: Table<K, V>, history: seq<K>, key: K, value: V, limit: nat)
    requires MostRecent(t, history, limit) && 1 <= limit
    ensures MostRecent(Put(t, key, value, limit), history + [key], limit)
  {
    var uses, full, p := LastUses(history), Insert(t, key, value), Put(t, key, value, limit);
    assert (history + [key])[..|history|] == history;
    LastUsesDistinct(history);
    UseAfterCut(uses, key, limit);
    KeysOfRemove(t, key);
    KeysOfSnoc(Remove(t, key), (key, value));
    KeysOfTrim(full, limit);
  }

  lemma {:induction false} KeysOfSnoc<K, V>(t: Table<K, V>, e: (K, V))
    ensures Keys(t + [e]) == Keys(t) + [e.0]
  {
  }

  lemma {:induction false} KeysOfTrim<K, V>(t: Table<K, V>, limit: nat)
    ensures Keys(Trim(t, limit)) == Last(Keys(t), limit)
  {
  }

  /** A hit keeps exactly the most recently used keys. */
  lemma {:induction false} TouchKeepsMostRecent<K, V>(t: Table<K, V>, history: seq<K>, key: K, limit: nat)
    requires Distinct(t) && |t| <= limit && MostRecent(t, history, limit) && 1 <= limit
    requires Find(t, key).Some?
    ensures MostRecent(Touch(t, key), history + [key], limit)
  {
    RemoveDistinct(t, key);
    assert Touch(t, key) == Put(t, key, Find(t, key).value, limit);
    PutKeepsMostRecent(t, history, key, Find(t, key).value, limit);
  }

  lemma PopOldest<T>(s: seq<T>, k: nat)
    requires k < |s|
    ensures s[k..][1..] == s[k + 1..]
  {
  }

  /** An LRU table updated in place, with its hit and miss counters. */
  class LruTable<K(==), V> {
    const limit: nat
    var entries: Table<K, V>
    var hits: nat
    var misses: nat
    /** Keys in the order they were used. */
    ghost var history: seq<K>

    ghost predicate Valid()
      reads this
    {
      1 <= limit && Distinct(entries) && |entries| <= limit && MostRecent(entries, history, limit)
    }

    constructor (limit: nat)
      requires 1 <= limit
      ensures Valid() && entries == [] && this.limit == limit && hits == misses == 0
    {
      this.limit := limit;
      entries, hits, misses, history := [], 0, 0, [];
      new;
      assert Keys(entries) == [];
    }

    method Get(key: K) returns (found: Option<V>)
      requires Valid()
      modifies this
      ensures Valid()
      ensures found == Find(old(entries), key) && entries == Touch(old(entries), key)
      ensures hits + misses == old(hits) + old(misses) + 1 && (found.Some? <==> hits == old(hits) + 1)
    {
      found := Find(entries, key);
      if found.None? {
        misses := misses + 1;
      } else {
        TouchContract(entries, key);
        TouchKeepsMostRecent(entries, history, key, limit);
        hits := hits + 1;
        entries := Insert(entries, key, found.value);
        history := history + [key];
      }
    }

    method Store(key: K, value: V)
      requires Valid()
      modifies this`entries, this`history
      ensures Valid()
      ensures entries == Put(old(entries), key, value, limit)
      ensures Find(entries, key) == Some(value)
    {
      PutContract(entries, key, value, limit);
      PutKeepsMostRecent(entries, history, key, value, limit);
      entries := Insert(entries, key, value);
      EvictOldest();
      history := history + [key];
    }

    method EvictOldest()
      modifies this`entries
      ensures entries == Trim(old(entries), limit)
    {
      ghost var full := entries;
      while |entries| > limit
        invariant |entries| <= |full| && entries == full[|full| - |entries|..]
        invariant |entries| == |full| || |entries| >= limit
      {
        PopOldest(full, |full| - |entries|);
        entries := entries[1..];
      }
    }

    method Clear()
      requires Valid()
      modifies this
      ensures Valid() && entries == [] && hits == misses == 0
    {
      entries, hits, misses, history := [], 0, 0, [];
      assert Keys(entries) == [];
    }
  }
}
