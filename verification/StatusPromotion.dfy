/**
 What the evidence gate guarantees about a publication: the ladder between the claims, and the
 status file over any number of promotions.
 */
module StatusPromotion {
  import opened Wrappers
  import opened EvidenceGate
  import opened EvidenceMeaning

  // ------------------------------------------------------------ the ladder

  lemma {:induction false} BenchmarkContains(p: Pool, profile: string)
    requires DeriveBenchmark(p, profile).Ok?
    ensures DeriveLive(p, profile).Ok?
    ensures DeriveBenchmark(p, profile).value.subject == DeriveLive(p, profile).value.subject
    ensures var w := Want("battery", Some(profile), None);
            forall x :: x in Select(p, w) ==> Agrees(x.subject, DeriveLive(p, profile).value.subject)
  {
  }

  /** Two profiles derived from one pool agree on every build and model identity. */
  lemma ProfilesAgree(p: Pool, f: string, g: string)
    requires DeriveLive(p, f).Ok? && DeriveLive(p, g).Ok?
    ensures var a, b := DeriveLive(p, f).value.subject, DeriveLive(p, g).value.subject;
            && (forall k :: k in SHARED_KEYS ==> k in a && k in b)
            && Agrees(b, Restrict(a, SHARED_KEYS))
  {
    CleanSubject(p);
    var a, b := DeriveLive(p, f).value.subject, DeriveLive(p, g).value.subject;
    var clean, model := DeriveClean(p).value.subject, DeriveModel(p).value.subject;
    assert SHARED_KEYS == BUILD_KEYS + MODEL_KEYS;
    forall k | k in SHARED_KEYS
      ensures k in a && k in b && a[k] == b[k]
    {
      if k in BUILD_KEYS {
        assert k in clean;
      } else {
        assert k in MODEL_KEYS;
        assert k in model;
      }
    }
  }

  lemma BenchmarksAgree(p: Pool, f: string, g: string)
    requires DeriveBenchmark(p, f).Ok? && DeriveBenchmark(p, g).Ok?
    ensures var a, b := DeriveBenchmark(p, f).value.subject, DeriveBenchmark(p, g).value.subject;
            && (forall k :: k in SHARED_KEYS ==> k in a)
            && Agrees(b, Restrict(a, SHARED_KEYS))
  {
    BenchmarkContains(p, f);
    BenchmarkContains(p, g);
    ProfilesAgree(p, f, g);
  }

  /** The suite needs nothing beyond the three benchmarks: its own subject check cannot fail. */
  lemma SuiteIsThreeBenchmarks(p: Pool)
    ensures DeriveSuite(p).Ok? <==>
              && DeriveBenchmark(p, PROFILES[0]).Ok?
              && DeriveBenchmark(p, PROFILES[1]).Ok?
              && DeriveBenchmark(p, PROFILES[2]).Ok?
  {
    var f, g, h := PROFILES[0], PROFILES[1], PROFILES[2];
    if DeriveBenchmark(p, f).Ok? && DeriveBenchmark(p, g).Ok? && DeriveBenchmark(p, h).Ok? {
      BenchmarksAgree(p, f, g);
      BenchmarksAgree(p, f, h);
      SuiteAccepts(DeriveBenchmark(p, f).value, DeriveBenchmark(p, g).value, DeriveBenchmark(p, h).value);
    }
  }

  lemma SuiteAccepts(a: Derived, b: Derived, c: Derived)
    requires forall k :: k in SHARED_KEYS ==> k in a.subject
    requires Agrees(b.subject, Restrict(a.subject, SHARED_KEYS)) && Agrees(c.subject, Restrict(a.subject, SHARED_KEYS))
    ensures Suite(a, b, c).Ok?
  {
  }

  /** A pool holds one build for a clean build and two for bit reproducibility, never both. */
  lemma CleanExcludesBitReproducible(p: Pool)
    ensures !(DeriveClean(p).Ok? && DeriveBitReproducible(p).Ok?)
  {
    if DeriveClean(p).Ok? && DeriveBitReproducible(p).Ok? {
      var ws := Wants(BUILD_TYPES, None, None);
      ChainHead(p, ws, BUILD_KEYS);
      assert ws[0] == Want("build-produced", None, None);
      var found := Select(p, ws[0]);
      assert |found| == 1;
      var d := DigestPair(Digests(p, "build-produced")).value;
      assert IsDigestPair(Digests(p, "build-produced"), d);
      assert DigestOf(found[0]) == Some(d.0) && DigestOf(found[0]) == Some(d.1);
      EarlierTotal(d.0, d.0);
    }
  }

  // -------------------------------------------------- receipts of a derivation

  predicate FromPool(ids: seq<string>, p: Pool) {
    IdSet(ids) <= IdSet(Ids(p))
  }

  lemma {:induction false} EachFromPool(p: Pool, ws: seq<Want>)
    requires EachOnePass(p, ws).Ok?
    ensures FromPool(Ids(EachOnePass(p, ws).value), p)
  {
    if ws != [] {
      var x, rest := OnePass(p, ws[0]).value, EachOnePass(p, ws[1..]).value;
      EachFromPool(p, ws[1..]);
      SelectFromPool(p, ws[0]);
      assert Ids([x] + rest) == [x.id] + Ids(rest);
      assert Ids(Select(p, ws[0]))[0] == x.id;
      IdSetConcat([x.id], Ids(rest));
    }
  }

  lemma {:induction false} SelectFromPool(p: Pool, w: Want)
    ensures FromPool(Ids(Select(p, w)), p)
  {
    IdsOf(Select(p, w));
    IdsOf(p);
    forall x | x in Select(p, w)
      ensures x.id in IdSet(Ids(p))
    {
      SelectMember(p, w, x);
    }
  }

  lemma ChainFromPool(p: Pool, ws: seq<Want>, keys: seq<string>)
    requires DeriveChain(p, ws, keys).Ok?
    ensures FromPool(DeriveChain(p, ws, keys).value.ids, p)
  {
    EachFromPool(p, ws);
  }

  lemma CleanFromPool(p: Pool)
    requires DeriveClean(p).Ok?
    ensures FromPool(DeriveClean(p).value.ids, p)
  {
    ChainFromPool(p, Wants(SOURCE_TYPES, None, None), SOURCE_KEYS);
    ChainFromPool(p, Wants(BUILD_TYPES, None, None), BUILD_KEYS);
    IdSetConcat(DeriveSource(p).value.ids, DeriveChain(p, Wants(BUILD_TYPES, None, None), BUILD_KEYS).value.ids);
  }

  lemma ModelFromPool(p: Pool)
    requires DeriveModel(p).Ok?
    ensures FromPool(DeriveModel(p).value.ids, p)
  {
    EachFromPool(p, Wants(["checkpoint-license", "sidecar-license"], None, None));
  }

  lemma LiveFromPool(p: Pool, profile: string)
    requires DeriveLive(p, profile).Ok?
    ensures FromPool(DeriveLive(p, profile).value.ids, p)
  {
    var ws, keys := Wants(LiveKinds(profile), Some(profile), None), LiveKeys(profile);
    CleanFromPool(p);
    ModelFromPool(p);
    ChainFromPool(p, ws, keys);
    var clean, model, live := DeriveClean(p).value.ids, DeriveModel(p).value.ids, DeriveChain(p, ws, keys).value.ids;
    IdSetConcat(clean + model, live);
    IdSetConcat(clean, model);
  }

  lemma BenchmarkFromPool(p: Pool, profile: string)
    requires DeriveBenchmark(p, profile).Ok?
    ensures FromPool(DeriveBenchmark(p, profile).value.ids, p)
  {
    var w := Want("battery", Some(profile), None);
    LiveFromPool(p, profile);
    SelectFromPool(p, w);
    IdSetConcat(DeriveLive(p, profile).value.ids, Ids(Select(p, w)));
  }

  lemma SuiteFromPool(p: Pool)
    requires DeriveSuite(p).Ok?
    ensures FromPool(DeriveSuite(p).value.ids, p)
  {
    var f, g, h := PROFILES[0], PROFILES[1], PROFILES[2];
    BenchmarkFromPool(p, f);
    BenchmarkFromPool(p, g);
    BenchmarkFromPool(p, h);
    var a, b, c := DeriveBenchmark(p, f).value.ids, DeriveBenchmark(p, g).value.ids, DeriveBenchmark(p, h).value.ids;
    IdSetConcat(a + b, c);
    IdSetConcat(a, b);
  }

  lemma BitReproducibleFromPool(p: Pool)
    requires DeriveBitReproducible(p).Ok?
    ensures FromPool(DeriveBitReproducible(p).value.ids, p)
  {
    var d := DigestPair(Digests(p, "build-produced")).value;
    var wa, wb := Wants(BUILD_TYPES, None, Some(d.0)), Wants(BUILD_TYPES, None, Some(d.1));
    var w := Want("build-comparison", None, None);
    var source, a, b := DeriveSource(p).value.ids, DeriveChain(p, wa, BUILD_KEYS).value.ids, DeriveChain(p, wb, BUILD_KEYS).value.ids;
    ChainFromPool(p, Wants(SOURCE_TYPES, None, None), SOURCE_KEYS);
    ChainFromPool(p, wa, BUILD_KEYS);
    ChainFromPool(p, wb, BUILD_KEYS);
    SelectFromPool(p, w);
    assert Ids(Select(p, w))[0] == OnePass(p, w).value.id;
    FourFromPool(source, a, b, [OnePass(p, w).value.id], p);
  }

  lemma FourFromPool(a: seq<string>, b: seq<string>, c: seq<string>, d: seq<string>, p: Pool)
    requires FromPool(a, p) && FromPool(b, p) && FromPool(c, p) && FromPool(d, p)
    ensures FromPool(a + b + c + d, p)
  {
    IdSetConcat(a + b + c, d);
    IdSetConcat(a + b, c);
    IdSetConcat(a, b);
  }

  lemma PublishedFromPool(p: Pool)
    requires DerivePublished(p).Ok?
    ensures FromPool(DerivePublished(p).value.ids, p)
  {
    var ws := Wants(["registry-license", "registry-publish"], None, None);
    CleanFromPool(p);
    EachFromPool(p, ws);
    IdSetConcat(DeriveClean(p).value.ids, Ids(EachOnePass(p, ws).value));
  }

  /** A derivation only ever lists receipts of the pool it was made from. */
  lemma DerivedFromPool(claim: Claim, p: Pool, profile: Option<string>)
    requires Derive(claim, p, profile).Ok?
    ensures FromPool(Derive(claim, p, profile).value.ids, p)
  {
    var name := if profile.Some? then profile.value else "";
    match claim
    case SourceComplete => ChainFromPool(p, Wants(SOURCE_TYPES, None, None), SOURCE_KEYS);
    case ModelLicense => ModelFromPool(p);
    case CleanBuild => CleanFromPool(p);
    case LiveLaunch => LiveFromPool(p, name);
    case BenchmarkReproduced => BenchmarkFromPool(p, name);
    case ThreeProfileSuite => SuiteFromPool(p);
    case BitReproducible => BitReproducibleFromPool(p);
    case AnonymousReadback =>
      var ws := Wants(ANONYMOUS_TYPES, None, None);
      LiveFromPool(p, "fast-320k");
      ChainFromPool(p, ws, BUILD_KEYS);
      IdSetConcat(DeriveLive(p, "fast-320k").value.ids, DeriveChain(p, ws, BUILD_KEYS).value.ids);
    case ImagePublished => PublishedFromPool(p);
    case ImageReadback =>
      var ws := Wants(["registry-readback"], None, None);
      PublishedFromPool(p);
      ChainFromPool(p, ws, BUILD_KEYS);
      IdSetConcat(DerivePublished(p).value.ids, DeriveChain(p, ws, BUILD_KEYS).value.ids);
  }

  // -------------------------------------------------------------- promotion

  datatype State = Passed | Pending | Blocked

  datatype Entry = Entry(claim: Claim, profile: Option<string>, state: State, subject: Subject,
                         ids: seq<string>, reason: Option<string>)

  type Status = seq<Entry>

  /** The receipts of a pool that an entry names. */
  function Own(pool: Pool, ids: seq<string>): Pool {
    if pool == [] then []
    else if pool[0].id in ids then [pool[0]] + Own(pool[1..], ids)
    else Own(pool[1..], ids)
  }

  /** The re-derivation of one passed entry from exactly the receipts it names. */
  predicate Recheck(e: Entry, pool: Pool) {
    var own := Own(pool, e.ids);
    && IdSet(Ids(own)) == IdSet(e.ids)
    && Rederives(e, own)
  }

  predicate Rederives(e: Entry, own: Pool) {
    match Derive(e.claim, own, e.profile)
    case GateError => false
    case Ok(d) => d.subject == e.subject && IdSet(d.ids) == IdSet(e.ids)
  }

  /** The ids without repetitions, first occurrences kept. */
  function Deduplicate(ids: seq<string>): (r: seq<string>)
    ensures IdSet(r) == IdSet(ids)
  {
    if ids == [] then []
    else
      var last := |ids| - 1;
      assert ids == ids[..last] + [ids[last]];
      IdSetConcat(ids[..last], [ids[last]]);
      IdSetConcat(Deduplicate(ids[..last]), [ids[last]]);
      if ids[last] in ids[..last] then Deduplicate(ids[..last])
      else Deduplicate(ids[..last]) + [ids[last]]
  }

  predicate Matches(e: Entry, claim: Claim, profile: Option<string>) {
    e.claim == claim && e.profile == profile
  }

  /** The position of the only entry for a claim and profile. */
  function Target(status: Status, claim: Claim, profile: Option<string>): (t: Option<nat>)
    ensures t.Some? ==> t.value < |status| && Matches(status[t.value], claim, profile)
    ensures t.Some? ==> forall i :: 0 <= i < |status| && Matches(status[i], claim, profile) ==> i == t.value
    ensures t.None? ==> !exists i :: 0 <= i < |status| && Matches(status[i], claim, profile)
                          && forall j :: 0 <= j < |status| && Matches(status[j], claim, profile) ==> j == i
  {
    if i: nat :| i < |status| && Matches(status[i], claim, profile)
                 && (forall j :: 0 <= j < |status| && Matches(status[j], claim, profile) ==> j == i)
    then Some(i) else None
  }

  predicate AllRecheck(status: Status, pool: Pool) {
    forall e :: e in status && e.state.Passed? ==> Recheck(e, pool)
  }

  function Promoted(e: Entry, d: Derived): Entry {
    e.(state := Passed, subject := d.subject, ids := Deduplicate(d.ids), reason := None)
  }

  /** The status after promoting one claim, or the refusal. */
  function Promotion(status: Status, claim: Claim, pool: Pool, profile: Option<string>): Result<Status> {
    if !UniqueIds(pool) || !AllRecheck(status, pool) then GateError
    else
      match (Derive(claim, pool, profile), Target(status, claim, profile))
      case (Ok(d), Some(t)) => Ok(status[t := Promoted(status[t], d)])
      case _ => GateError
  }

  method RecheckAll(status: Status, pool: Pool) returns (fine: bool)
    ensures fine == AllRecheck(status, pool)
  {
    for i := 0 to |status|
      invariant forall e :: e in status[..i] && e.state.Passed? ==> Recheck(e, pool)
    {
      assert status[..i + 1] == status[..i] + [status[i]];
      if status[i].state.Passed? && !Recheck(status[i], pool) {
        assert status[i] in status;
        return false;
      }
    }
    assert status[..|status|] == status;
    return true;
  }

  method Promote(status: Status, claim: Claim, pool: Pool, profile: Option<string>) returns (r: Result<Status>)
    ensures r == Promotion(status, claim, pool, profile)
  {
    if !UniqueIds(pool) {
      return GateError;
    }
    var fine := RecheckAll(status, pool);
    if !fine {
      return GateError;
    }
    var derived, target := Derive(claim, pool, profile), Target(status, claim, profile);
    if derived.GateError? || target.None? {
      return GateError;
    }
    var result := status;
    result := result[target.value := Promoted(result[target.value], derived.value)];
    r := Ok(result);
  }

  // --------------------------------------------------- what a promotion does

  /** Where an id first occurs. */
  function FirstAt(ids: seq<string>, id: string): (i: nat)
    requires id in ids
    ensures i < |ids| && ids[i] == id && forall j :: 0 <= j < i ==> ids[j] != id
  {
    if ids[0] == id then 0 else FirstAt(ids[1..], id) + 1
  }

  /** Every id once, in the order of first occurrence. */
  ghost predicate OnceInOrder(r: seq<string>, ids: seq<string>) {
    && (forall id :: id in r <==> id in ids)
    && (forall i, j :: 0 <= i < j < |r| ==> r[i] in ids && r[j] in ids && FirstAt(ids, r[i]) < FirstAt(ids, r[j]))
  }

  lemma {:induction false} FirstAtExtended(ids: seq<string>, more: string, id: string)
    requires id in ids
    ensures FirstAt(ids + [more], id) == FirstAt(ids, id)
  {
    assert (ids + [more])[FirstAt(ids, id)] == id;
    assert forall j :: 0 <= j < FirstAt(ids, id) ==> (ids + [more])[j] == ids[j];
  }

  lemma {:induction false} DeduplicateExact(ids: seq<string>)
    ensures OnceInOrder(Deduplicate(ids), ids)
  {
    if ids != [] {
      var front, last := ids[..|ids| - 1], ids[|ids| - 1];
      assert ids == front + [last];
      DeduplicateExact(front);
      var r, whole := Deduplicate(front), Deduplicate(ids);
      forall id | id in front ensures FirstAt(ids, id) == FirstAt(front, id) {
        FirstAtExtended(front, last, id);
      }
      forall i, j | 0 <= i < j < |whole|
        ensures whole[i] in ids && whole[j] in ids && FirstAt(ids, whole[i]) < FirstAt(ids, whole[j])
      {
        assert whole[i] == r[i] && r[i] in r;
        if j < |r| {
          assert whole[j] == r[j] && r[j] in r;
        } else {
          assert whole[j] == last;
        }
      }
    }
  }

  lemma {:induction false} LastId(front: Pool, last: Receipt)
    ensures IdSet(Ids(front + [last])) == IdSet(Ids(front)) + {last.id}
    ensures UniqueIds(front + [last]) <==> UniqueIds(front) && last.id !in IdSet(Ids(front))
  {
    var pool := front + [last];
    assert Ids(pool) == Ids(front) + [last.id];
    IdSetConcat(Ids(front), [last.id]);
    assert IdSet([last.id]) == {last.id};
    assert forall i :: 0 <= i < |front| ==> pool[i] == front[i];
    IdAt(front, last.id);
    if UniqueIds(pool) {
      assert forall i :: 0 <= i < |front| ==> pool[i].id != pool[|front|].id;
    }
  }

  lemma IdAt(pool: Pool, id: string)
    ensures id in IdSet(Ids(pool)) <==> exists i :: 0 <= i < |pool| && pool[i].id == id
  {
    if id in IdSet(Ids(pool)) {
      var i :| 0 <= i < |Ids(pool)| && Ids(pool)[i] == id;
      assert pool[i].id == id;
    }
    if i :| 0 <= i < |pool| && pool[i].id == id {
      assert Ids(pool)[i] == id;
    }
  }

  /** Receipt ids are unique exactly when there are as many ids as receipts. */
  lemma {:induction false} UniqueExact(pool: Pool)
    ensures UniqueIds(pool) <==> |IdSet(Ids(pool))| == |pool|
  {
    if pool != [] {
      var front, last := pool[..|pool| - 1], pool[|pool| - 1];
      assert pool == front + [last];
      UniqueExact(front);
      IdSetSize(front);
      LastId(front, last);
    }
  }

  lemma {:induction false} IdSetSize(pool: Pool)
    ensures |IdSet(Ids(pool))| <= |pool|
  {
    if pool != [] {
      var front, last := pool[..|pool| - 1], pool[|pool| - 1];
      assert pool == front + [last];
      IdSetSize(front);
      LastId(front, last);
    }
  }

  /** The status before and after a promotion from this derivation: one entry, the only one for the claim
      and profile, is now passed without a reason, about the derived subject, on each derivation receipt
      once in order of first occurrence; every other entry is as it was. */
  ghost predicate IsPromotion(before: Status, after: Status, claim: Claim, profile: Option<string>, d: Derived, t: int) {
    && |after| == |before| && 0 <= t < |before|
    && (forall i :: 0 <= i < |before| ==> ((before[i].claim == claim && before[i].profile == profile) <==> i == t))
    && (forall i :: 0 <= i < |before| && i != t ==> after[i] == before[i])
    && after[t].claim == claim && after[t].profile == profile
    && after[t].state == Passed && after[t].reason == None
    && after[t].subject == d.subject && OnceInOrder(after[t].ids, d.ids)
  }

  /** The only entry for a claim and profile. */
  ghost predicate IsTarget(status: Status, claim: Claim, profile: Option<string>, t: int) {
    0 <= t < |status| && forall i :: 0 <= i < |status| ==> ((status[i].claim == claim && status[i].profile == profile) <==> i == t)
  }

  /** A promotion is accepted exactly when receipt ids are unique, every passed entry still re-derives from
      its own receipts, the claim derives and one entry is for it; and then it does just that. */
  lemma PromotionExact(status: Status, claim: Claim, pool: Pool, profile: Option<string>)
    ensures var r, d := Promotion(status, claim, pool, profile), Derive(claim, pool, profile);
            && (r.Ok? <==> |IdSet(Ids(pool))| == |pool| && AllRecheck(status, pool) && d.Ok? && exists t :: IsTarget(status, claim, profile, t))
            && (r.Ok? ==> exists t :: IsPromotion(status, r.value, claim, profile, d.value, t))
  {
    UniqueExact(pool);
    var r, d, t := Promotion(status, claim, pool, profile), Derive(claim, pool, profile), Target(status, claim, profile);
    if u :| IsTarget(status, claim, profile, u) {
      assert Matches(status[u], claim, profile);
    }
    if t.Some? {
      assert IsTarget(status, claim, profile, t.value);
    }
    if r.Ok? {
      DeduplicateExact(d.value.ids);
      assert IsPromotion(status, r.value, claim, profile, d.value, t.value);
    }
  }

  // --------------------------------------------------- what promotion promises

  /** All receipts there are, by their content identifier. */
  type World = map<string, Receipt>

  predicate Drawn(p: Pool, world: World) {
    UniqueIds(p) && forall r :: r in p ==> r.id in world && world[r.id] == r
  }

  /** A passed entry that its own receipts support, wherever they are kept. */
  ghost predicate Certified(e: Entry, world: World) {
    exists own: Pool :: Drawn(own, world) && IdSet(Ids(own)) == IdSet(e.ids) && Rederives(e, own)
  }

  ghost predicate AllCertified(status: Status, world: World) {
    forall e :: e in status && e.state.Passed? ==> Certified(e, world)
  }

  lemma {:induction false} OwnMember(pool: Pool, ids: seq<string>, x: Receipt)
    ensures x in Own(pool, ids) <==> x in pool && x.id in ids
  {
    if pool != [] {
      OwnMember(pool[1..], ids, x);
      assert pool == [pool[0]] + pool[1..];
    }
  }

  lemma {:induction false} OwnUnique(pool: Pool, ids: seq<string>)
    requires UniqueIds(pool)
    ensures UniqueIds(Own(pool, ids))
  {
    if pool != [] {
      OwnUnique(pool[1..], ids);
      var rest := Own(pool[1..], ids);
      forall i | 0 <= i < |rest|
        ensures rest[i].id != pool[0].id
      {
        OwnMember(pool[1..], ids, rest[i]);
        assert rest[i] in pool[1..];
      }
    }
  }

  lemma {:induction false} OwnDrawn(pool: Pool, ids: seq<string>, world: World)
    requires Drawn(pool, world)
    ensures Drawn(Own(pool, ids), world)
    ensures FromPool(ids, pool) <==> IdSet(Ids(Own(pool, ids))) == IdSet(ids)
  {
    var own := Own(pool, ids);
    OwnUnique(pool, ids);
    forall x
      ensures x in own <==> x in pool && x.id in ids
    {
      OwnMember(pool, ids, x);
    }
    IdsOf(own);
    IdsOf(pool);
    if FromPool(ids, pool) {
      forall id | id in ids
        ensures id in IdSet(Ids(own))
      {
        assert id in IdSet(ids) && id in IdSet(Ids(pool));
        var x :| x in pool && x.id == id;
        assert x in own;
      }
    } else {
      var id :| id in IdSet(ids) && id !in IdSet(Ids(pool));
      assert id !in IdSet(Ids(own));
    }
  }

  /** The recheck accepts an entry exactly when the pool still holds its receipts and those receipts
      support it: an edited or unsupported entry is always caught, a genuine one never refused. */
  lemma RecheckExact(e: Entry, pool: Pool, world: World)
    requires Drawn(pool, world)
    ensures Recheck(e, pool) <==> FromPool(e.ids, pool) && Certified(e, world)
  {
    var mine := Own(pool, e.ids);
    OwnDrawn(pool, e.ids, world);
    if FromPool(e.ids, pool) && Certified(e, world) {
      var own :| Drawn(own, world) && IdSet(Ids(own)) == IdSet(e.ids) && Rederives(e, own);
      SameReceipts(own, mine, world);
      DerivationSupported(e.claim, own, mine, e.profile);
    }
  }

  lemma SameReceipts(p: Pool, q: Pool, world: World)
    requires Drawn(p, world) && Drawn(q, world) && IdSet(Ids(q)) <= IdSet(Ids(p))
    ensures forall ids: set<string> :: ids <= IdSet(Ids(q)) ==> Between(p, q, ids)
  {
    IdsOf(p);
    IdsOf(q);
    forall x | x in q
      ensures x in p
    {
      assert x.id in IdSet(Ids(p));
      var y :| y in p && y.id == x.id;
    }
    forall x | x in p && x.id in IdSet(Ids(q))
      ensures x in q
    {
      var y :| y in q && y.id == x.id;
    }
  }

  /** The entry a promotion writes re-derives from its own receipts. */
  lemma NewEntryCertified(was: Entry, claim: Claim, pool: Pool, profile: Option<string>, world: World)
    requires UniqueIds(pool) && Drawn(pool, world) && Derive(claim, pool, profile).Ok?
    requires was.claim == claim && was.profile == profile
    ensures var e := Promoted(was, Derive(claim, pool, profile).value); Certified(e, world) && FromPool(e.ids, pool)
  {
    var e := Promoted(was, Derive(claim, pool, profile).value);
    var own := Own(pool, e.ids);
    DerivedFromPool(claim, pool, profile);
    OwnDrawn(pool, e.ids, world);
    SameReceipts(pool, own, world);
    DerivationSupported(claim, pool, own, profile);
  }

  lemma EntryAfterUpdate(status: Status, t: nat, written: Entry, e: Entry)
    requires t < |status| && e in status[t := written]
    ensures e == written || e in status
  {
    var i :| 0 <= i < |status| && status[t := written][i] == e;
    assert i != t ==> e == status[i];
  }

  /** Promotion is self-certifying: whatever the status said before, after a promotion every passed
      claim re-derives from exactly its own receipts. */
  lemma PromotionCertifies(status: Status, claim: Claim, pool: Pool, profile: Option<string>, world: World)
    requires Drawn(pool, world) && Promotion(status, claim, pool, profile).Ok?
    ensures AllCertified(Promotion(status, claim, pool, profile).value, world)
    ensures forall e :: e in Promotion(status, claim, pool, profile).value && e.state.Passed? ==> FromPool(e.ids, pool)
  {
    var d, t := Derive(claim, pool, profile).value, Target(status, claim, profile).value;
    var after := Promotion(status, claim, pool, profile).value;
    NewEntryCertified(status[t], claim, pool, profile, world);
    forall e | e in after && e.state.Passed?
      ensures Certified(e, world) && FromPool(e.ids, pool)
    {
      EntryAfterUpdate(status, t, Promoted(status[t], d), e);
      if e in status {
        RecheckExact(e, pool, world);
      }
    }
  }

  /** Once every passed entry is genuine and its receipts are in the pool, nothing but the new
      claim itself decides a promotion: no earlier claim is ever reported stale. */
  lemma NeverStale(status: Status, claim: Claim, pool: Pool, profile: Option<string>, world: World)
    requires Drawn(pool, world) && AllCertified(status, world)
    requires forall e :: e in status && e.state.Passed? ==> FromPool(e.ids, pool)
    ensures AllRecheck(status, pool)
    ensures Promotion(status, claim, pool, profile).Ok? <==>
              Derive(claim, pool, profile).Ok? && Target(status, claim, profile).Some?
  {
    forall e | e in status && e.state.Passed?
      ensures Recheck(e, pool)
    {
      RecheckExact(e, pool, world);
    }
  }

  /** An attempt to promote; a refused attempt leaves the status file as it was. */
  datatype Attempt = Attempt(claim: Claim, pool: Pool, profile: Option<string>)

  function After(status: Status, a: Attempt): Status {
    var r := Promotion(status, a.claim, a.pool, a.profile);
    if r.Ok? then r.value else status
  }

  function Run(status: Status, attempts: seq<Attempt>): Status {
    if attempts == [] then status
    else After(Run(status, attempts[..|attempts| - 1]), attempts[|attempts| - 1])
  }

  /** Pools that only ever gain receipts. */
  ghost predicate Growing(attempts: seq<Attempt>, world: World) {
    && (forall a :: a in attempts ==> Drawn(a.pool, world))
    && (forall i, j :: 0 <= i <= j < |attempts| ==> IdSet(Ids(attempts[i].pool)) <= IdSet(Ids(attempts[j].pool)))
  }

  predicate PassesFor(e: Entry, claim: Claim, profile: Option<string>) {
    e.claim == claim && e.profile == profile && e.state == Passed
  }

  /** The claim is recorded as passed. */
  predicate IsPassed(status: Status, claim: Claim, profile: Option<string>) {
    exists i :: 0 <= i < |status| && PassesFor(status[i], claim, profile)
  }

  /** After one attempt a claim is passed exactly when it was before or the attempt was at it and accepted. */
  lemma AttemptPasses(status: Status, a: Attempt, claim: Claim, profile: Option<string>)
    ensures IsPassed(After(status, a), claim, profile) <==> IsPassed(status, claim, profile) || Accepts(status, a, claim, profile)
  {
    PromotionExact(status, a.claim, a.pool, a.profile);
    var after := After(status, a);
    if Promotion(status, a.claim, a.pool, a.profile).Ok? {
      var t :| IsPromotion(status, after, a.claim, a.profile, Derive(a.claim, a.pool, a.profile).value, t);
      PromotedPasses(status, after, a.claim, a.profile, Derive(a.claim, a.pool, a.profile).value, t, claim, profile);
    }
  }

  lemma PromotedPasses(before: Status, after: Status, promoted: Claim, of: Option<string>, d: Derived, t: int, claim: Claim, profile: Option<string>)
    requires IsPromotion(before, after, promoted, of, d, t)
    ensures IsPassed(after, claim, profile) <==> IsPassed(before, claim, profile) || (promoted == claim && of == profile)
  {
    if IsPassed(before, claim, profile) {
      var i :| 0 <= i < |before| && PassesFor(before[i], claim, profile);
      assert PassesFor(after[i], claim, profile);
    }
    if IsPassed(after, claim, profile) {
      var i :| 0 <= i < |after| && PassesFor(after[i], claim, profile);
      assert i != t ==> PassesFor(before[i], claim, profile);
    }
    assert PassesFor(after[t], promoted, of);
  }

  /** The attempt is at this claim and accepted. */
  predicate Accepts(status: Status, a: Attempt, claim: Claim, profile: Option<string>) {
    a.claim == claim && a.profile == profile && Promotion(status, a.claim, a.pool, a.profile).Ok?
  }

  /** Attempt `k` of a run is. */
  predicate AcceptedAt(status: Status, attempts: seq<Attempt>, k: nat, claim: Claim, profile: Option<string>)
    requires k < |attempts|
  {
    Accepts(Run(status, attempts[..k]), attempts[k], claim, profile)
  }

  predicate SomeAccepted(status: Status, attempts: seq<Attempt>, claim: Claim, profile: Option<string>) {
    exists k :: 0 <= k < |attempts| && AcceptedAt(status, attempts, k, claim, profile)
  }

  lemma {:induction false} EarlierAccepted(status: Status, front: seq<Attempt>, last: Attempt, k: nat, claim: Claim, profile: Option<string>)
    requires k < |front|
    ensures AcceptedAt(status, front + [last], k, claim, profile) <==> AcceptedAt(status, front, k, claim, profile)
  {
    assert (front + [last])[..k] == front[..k];
  }

  lemma {:induction false} LastAccepted(status: Status, front: seq<Attempt>, last: Attempt, claim: Claim, profile: Option<string>)
    ensures AcceptedAt(status, front + [last], |front|, claim, profile) <==> Accepts(Run(status, front), last, claim, profile)
  {
    assert (front + [last])[..|front|] == front;
  }

  lemma {:induction false} AcceptedLater(status: Status, front: seq<Attempt>, last: Attempt, claim: Claim, profile: Option<string>)
    requires SomeAccepted(status, front, claim, profile) || AcceptedAt(status, front + [last], |front|, claim, profile)
    ensures SomeAccepted(status, front + [last], claim, profile)
  {
    if SomeAccepted(status, front, claim, profile) {
      var k :| 0 <= k < |front| && AcceptedAt(status, front, k, claim, profile);
      EarlierAccepted(status, front, last, k, claim, profile);
    }
  }

  lemma {:induction false} AcceptedBefore(status: Status, front: seq<Attempt>, last: Attempt, claim: Claim, profile: Option<string>)
    requires SomeAccepted(status, front + [last], claim, profile)
    ensures SomeAccepted(status, front, claim, profile) || AcceptedAt(status, front + [last], |front|, claim, profile)
  {
    var k :| 0 <= k < |front + [last]| && AcceptedAt(status, front + [last], k, claim, profile);
    if k < |front| {
      EarlierAccepted(status, front, last, k, claim, profile);
    }
  }

  lemma {:induction false} SomeAcceptedAppend(status: Status, front: seq<Attempt>, last: Attempt, claim: Claim, profile: Option<string>)
    ensures SomeAccepted(status, front + [last], claim, profile) <==>
              SomeAccepted(status, front, claim, profile) || Accepts(Run(status, front), last, claim, profile)
  {
    LastAccepted(status, front, last, claim, profile);
    if SomeAccepted(status, front + [last], claim, profile) {
      AcceptedBefore(status, front, last, claim, profile);
    }
    if SomeAccepted(status, front, claim, profile) || AcceptedAt(status, front + [last], |front|, claim, profile) {
      AcceptedLater(status, front, last, claim, profile);
    }
  }

  /** Over a run a claim is passed exactly when it was passed at the start or some attempt at it was
      accepted: nothing else makes it passed and nothing undoes it. */
  lemma {:induction false} RunPasses(status: Status, attempts: seq<Attempt>, claim: Claim, profile: Option<string>)
    ensures IsPassed(Run(status, attempts), claim, profile) <==>
              IsPassed(status, claim, profile) || SomeAccepted(status, attempts, claim, profile)
  {
    if attempts != [] {
      var front, last := attempts[..|attempts| - 1], attempts[|attempts| - 1];
      assert attempts == front + [last];
      RunPasses(status, front, claim, profile);
      AttemptPasses(Run(status, front), last, claim, profile);
      SomeAcceptedAppend(status, front, last, claim, profile);
    }
  }

  lemma {:induction false} RunCertified(status: Status, attempts: seq<Attempt>, world: World)
    requires Growing(attempts, world) && forall e :: e in status ==> !e.state.Passed?
    ensures AllCertified(Run(status, attempts), world)
    ensures attempts != [] ==> forall e :: e in Run(status, attempts) && e.state.Passed? ==>
              FromPool(e.ids, attempts[|attempts| - 1].pool)
    ensures attempts == [] ==> forall e :: e in Run(status, attempts) ==> !e.state.Passed?
  {
    if attempts != [] {
      var last := |attempts| - 1;
      var front, a := attempts[..last], attempts[last];
      assert Growing(front, world) by {
        assert forall x :: x in front ==> x in attempts;
      }
      RunCertified(status, front, world);
      var before := Run(status, front);
      assert a in attempts;
      assert front != [] ==> front[|front| - 1] == attempts[last - 1];
      if Promotion(before, a.claim, a.pool, a.profile).Ok? {
        PromotionCertifies(before, a.claim, a.pool, a.profile, world);
      }
    }
  }

  /** Over every run of promotions from a status with nothing passed, with pools that only grow: every
      passed claim stays certified, and each attempt succeeds exactly when its own claim derives. */
  lemma {:induction false} EveryRunIsSelfCertifying(status: Status, attempts: seq<Attempt>, next: Attempt, world: World)
    requires Growing(attempts + [next], world) && forall e :: e in status ==> !e.state.Passed?
    ensures var reached := Run(status, attempts);
            && AllCertified(reached, world)
            && AllRecheck(reached, next.pool)
            && (Promotion(reached, next.claim, next.pool, next.profile).Ok? <==>
                  Derive(next.claim, next.pool, next.profile).Ok? && Target(reached, next.claim, next.profile).Some?)
  {
    var all := attempts + [next];
    assert Growing(attempts, world) by {
      assert forall x :: x in attempts ==> x in all;
      assert forall i :: 0 <= i < |attempts| ==> all[i] == attempts[i];
    }
    RunCertified(status, attempts, world);
    assert next in all && all[|attempts|] == next;
    assert attempts != [] ==> all[|attempts| - 1] == attempts[|attempts| - 1];
    NeverStale(Run(status, attempts), next.claim, next.pool, next.profile, world);
  }
}
