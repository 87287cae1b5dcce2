/**
 The evidence gate: publication claims are derived from a pool of attested receipts and recorded
 in a status file. A claim is promoted only if every claim recorded as passed still derives
 from its own receipts.
 */
module EvidenceGate {
  import opened Wrappers
  import opened SortedLists

  datatype Result<+T> = Ok(value: T) | GateError

  /** A metadata entry, as far as the gate looks at its type. */
  datatype Meta = Text(text: string) | Number(number: int) | Flag(flag: bool) | Other

  type Subject = map<string, string>

  datatype Receipt = Receipt(id: string, kind: string, pass: bool, subject: Subject, metadata: map<string, Meta>)

  type Pool = seq<Receipt>

  datatype Derived = Derived(subject: Subject, ids: seq<string>)

  const PROFILES := ["fast-320k", "balanced-650k", "large-1m"]
  const SOURCE_TYPES := ["source-closure", "provenance-license", "source-component-license",
                         "source-secret-scan", "large-file-scan"]
  const BUILD_TYPES := ["build-produced", "verify-image", "sbom", "container-license", "image-secret-scan"]
  const LIVE_TYPES := ["launch", "verify-runtime", "correctness", "stability"]
  const ANONYMOUS_TYPES := ["anonymous-configure", "anonymous-build", "anonymous-verify", "anonymous-live-fast"]
  const SOURCE_KEYS := ["source_release_id"]
  const STABLE_KEYS := ["source_release_id", "build_subject_id", "build_lock_id", "source_manifest_id"]
  const BUILD_KEYS := ["source_release_id", "build_subject_id", "build_lock_id", "source_manifest_id", "image_digest"]
  const MODEL_KEYS := ["model_id", "sidecar_id"]
  const LIVE_KEYS := ["source_release_id", "build_subject_id", "build_lock_id", "source_manifest_id", "image_digest",
                      "model_id", "sidecar_id", "preset_id", "run_id"]
  const SHARED_KEYS := ["source_release_id", "build_subject_id", "build_lock_id", "source_manifest_id", "image_digest",
                        "model_id", "sidecar_id"]

  // -------------------------------------------------------------- receipts

  function Ids(pool: Pool): seq<string> {
    seq(|pool|, i requires 0 <= i < |pool| => pool[i].id)
  }

  predicate UniqueIds(pool: Pool) {
    forall i, j :: 0 <= i < j < |pool| ==> pool[i].id != pool[j].id
  }

  /** What a derivation asks of a receipt; `Want` describes one question. */
  datatype Want = Want(kind: string, profile: Option<string>, digest: Option<string>)

  predicate Meets(r: Receipt, w: Want) {
    && r.kind == w.kind
    && (w.profile.Some? ==> "profile" in r.metadata && r.metadata["profile"] == Text(w.profile.value))
    && (w.digest.Some? ==> DigestOf(r) == w.digest)
  }

  function Select(pool: Pool, w: Want): Pool {
    if pool == [] then []
    else if Meets(pool[0], w) then [pool[0]] + Select(pool[1..], w)
    else Select(pool[1..], w)
  }

  lemma {:induction false} SelectMember(pool: Pool, w: Want, x: Receipt)
    ensures x in Select(pool, w) <==> x in pool && Meets(x, w)
  {
    if pool != [] {
      SelectMember(pool[1..], w, x);
      assert pool == [pool[0]] + pool[1..];
    }
  }

  /** Exactly one receipt of this description, and it passed. */
  function OnePass(pool: Pool, w: Want): Result<Receipt> {
    var found := Select(pool, w);
    if |found| == 1 && found[0].pass then Ok(found[0]) else GateError
  }

  function EachOnePass(pool: Pool, wants: seq<Want>): Result<seq<Receipt>> {
    if wants == [] then Ok([])
    else
      match OnePass(pool, wants[0])
      case GateError => GateError
      case Ok(r) =>
        match EachOnePass(pool, wants[1..])
        case GateError => GateError
        case Ok(rest) => Ok([r] + rest)
  }

  /** The same as a loop: receipts are appended kind by kind until one is missing. */
  method CollectEach(pool: Pool, wants: seq<Want>) returns (r: Result<seq<Receipt>>)
    ensures r == EachOnePass(pool, wants)
  {
    var items: seq<Receipt> := [];
    assert wants[0..] == wants;
    assert EachOnePass(pool, wants).Ok? ==> [] + EachOnePass(pool, wants).value == EachOnePass(pool, wants).value;
    for i := 0 to |wants|
      invariant EachOnePass(pool, wants) == Appended(items, EachOnePass(pool, wants[i..]))
    {
      assert wants[i..][1..] == wants[i + 1..];
      var one := OnePass(pool, wants[i]);
      if one.GateError? {
        return GateError;
      }
      ghost var rest := EachOnePass(pool, wants[i + 1..]);
      assert rest.Ok? ==> items + ([one.value] + rest.value) == items + [one.value] + rest.value;
      items := items + [one.value];
    }
    assert wants[|wants|..] == [] && items + [] == items;
    return Ok(items);
  }

  function Appended(items: seq<Receipt>, rest: Result<seq<Receipt>>): Result<seq<Receipt>> {
    if rest.Ok? then Ok(items + rest.value) else GateError
  }

  function Wants(kinds: seq<string>, profile: Option<string>, digest: Option<string>): (ws: seq<Want>)
    ensures |ws| == |kinds|
  {
    seq(|kinds|, i requires 0 <= i < |kinds| => Want(kinds[i], profile, digest))
  }

  function Restrict(s: Subject, keys: seq<string>): (t: Subject)
    requires forall k :: k in keys ==> k in s
    ensures t.Keys == set k | k in keys
    ensures forall k :: k in keys ==> t[k] == s[k]
  {
    s - (s.Keys - set k | k in keys)
  }

  /** `s` carries every identity of `t`, with the same value. */
  predicate Agrees(s: Subject, t: Subject) {
    forall k :: k in t ==> k in s && s[k] == t[k]
  }

  function CommonSubject(items: seq<Receipt>, keys: seq<string>): Result<Subject> {
    if items == [] || exists k :: k in keys && k !in items[0].subject then GateError
    else
      var subject := Restrict(items[0].subject, keys);
      if forall i :: 1 <= i < |items| ==> Agrees(items[i].subject, subject) then Ok(subject) else GateError
  }

  // ----------------------------------------------------------- derivations

  /** One passing receipt of each wanted kind, all about one subject. */
  function DeriveChain(pool: Pool, wants: seq<Want>, keys: seq<string>): Result<Derived> {
    match EachOnePass(pool, wants)
    case GateError => GateError
    case Ok(items) =>
      match CommonSubject(items, keys)
      case GateError => GateError
      case Ok(subject) => Ok(Derived(subject, Ids(items)))
  }

  function DeriveSource(pool: Pool): Result<Derived> {
    DeriveChain(pool, Wants(SOURCE_TYPES, None, None), SOURCE_KEYS)
  }

  function DeriveModel(pool: Pool): Result<Derived> {
    match EachOnePass(pool, Wants(["checkpoint-license", "sidecar-license"], None, None))
    case GateError => GateError
    case Ok(items) =>
      if |items| != 2
         || (exists i :: 0 <= i < 2 && !HasMeta(items[i], "rights_status", Text("verified")))
         || "model_id" !in items[0].subject || "sidecar_id" !in items[1].subject
      then GateError
      else Ok(Derived(map["model_id" := items[0].subject["model_id"],
                          "sidecar_id" := items[1].subject["sidecar_id"]], Ids(items)))
  }

  predicate HasMeta(r: Receipt, key: string, value: Meta) {
    key in r.metadata && r.metadata[key] == value
  }

  function DeriveClean(pool: Pool): Result<Derived> {
    match DeriveSource(pool)
    case GateError => GateError
    case Ok(source) =>
      match DeriveChain(pool, Wants(BUILD_TYPES, None, None), BUILD_KEYS)
      case GateError => GateError
      case Ok(build) =>
        if Agrees(build.subject, source.subject) then Ok(Derived(build.subject, source.ids + build.ids))
        else GateError
  }

  function LiveKinds(profile: string): seq<string> {
    LIVE_TYPES + if profile == "fast-320k" then ["pin-state"] else []
  }

  function LiveKeys(profile: string): seq<string> {
    LIVE_KEYS + if profile == "fast-320k" then ["pin_id"] else []
  }

  function DeriveLive(pool: Pool, profile: string): Result<Derived> {
    if profile !in PROFILES then GateError
    else
      match DeriveClean(pool)
      case GateError => GateError
      case Ok(clean) =>
        match DeriveModel(pool)
        case GateError => GateError
        case Ok(model) =>
          match DeriveChain(pool, Wants(LiveKinds(profile), Some(profile), None), LiveKeys(profile))
          case GateError => GateError
          case Ok(live) =>
            if Agrees(live.subject, clean.subject) && Agrees(live.subject, model.subject)
            then Ok(Derived(live.subject, clean.ids + model.ids + live.ids))
            else GateError
  }

  /** A boolean is an integer here, as it is for `isinstance`. */
  function AttemptNumber(r: Receipt): Option<int> {
    if "attempt" !in r.metadata then None
    else match r.metadata["attempt"]
         case Number(n) => Some(n)
         case Flag(b) => Some(if b then 1 else 0)
         case _ => None
  }

  predicate GoodAttempts(attempts: Pool) {
    && (forall i :: 0 <= i < |attempts| ==>
          AttemptNumber(attempts[i]).Some? && 1 <= AttemptNumber(attempts[i]).value <= 5)
    && (forall i, j :: 0 <= i < j < |attempts| ==> AttemptNumber(attempts[i]) != AttemptNumber(attempts[j]))
  }

  function ValidOnes(attempts: Pool): Pool {
    if attempts == [] then []
    else if HasMeta(attempts[0], "valid", Flag(true)) then [attempts[0]] + ValidOnes(attempts[1..])
    else ValidOnes(attempts[1..])
  }

  predicate PassedThresholds(r: Receipt) {
    r.pass && HasMeta(r, "thresholds_passed", Flag(true)) && HasMeta(r, "median_threshold_passed", Flag(true))
  }

  predicate BatteryAccepted(attempts: Pool, live: Subject) {
    && AllAgree(attempts, live)
    && |attempts| <= 5
    && GoodAttempts(attempts)
    && |ValidOnes(attempts)| == 3
    && AllPassed(ValidOnes(attempts))
  }

  predicate AllAgree(items: Pool, s: Subject) { forall x :: x in items ==> Agrees(x.subject, s) }

  predicate AllPassed(items: Pool) { forall x :: x in items ==> PassedThresholds(x) }

  function DeriveBenchmark(pool: Pool, profile: string): Result<Derived> {
    match DeriveLive(pool, profile)
    case GateError => GateError
    case Ok(live) => WithBattery(live, Select(pool, Want("battery", Some(profile), None)))
  }

  function WithBattery(live: Derived, attempts: Pool): Result<Derived> {
    if BatteryAccepted(attempts, live.subject) then Ok(Derived(live.subject, live.ids + Ids(attempts)))
    else GateError
  }

  function Suite(a: Derived, b: Derived, c: Derived): Result<Derived> {
    if exists k :: k in SHARED_KEYS && k !in a.subject then GateError
    else
      var shared := Restrict(a.subject, SHARED_KEYS);
      if Agrees(b.subject, shared) && Agrees(c.subject, shared) then Ok(Derived(shared, a.ids + b.ids + c.ids))
      else GateError
  }

  function DeriveSuite(pool: Pool): Result<Derived> {
    match (DeriveBenchmark(pool, PROFILES[0]), DeriveBenchmark(pool, PROFILES[1]), DeriveBenchmark(pool, PROFILES[2]))
    case (Ok(a), Ok(b), Ok(c)) => Suite(a, b, c)
    case _ => GateError
  }

  function DigestOf(r: Receipt): Option<string> {
    if "image_digest" in r.subject then Some(r.subject["image_digest"]) else None
  }

  /** The image digests of all receipts of a kind; None stands for a missing one. */
  function Digests(pool: Pool, kind: string): seq<Option<string>> {
    DigestsOf(Select(pool, Want(kind, None, None)))
  }

  function DigestsOf(receipts: Pool): (ds: seq<Option<string>>)
    ensures forall d :: d in ds <==> exists r :: r in receipts && DigestOf(r) == d
  {
    if receipts == [] then []
    else
      assert receipts == [receipts[0]] + receipts[1..];
      [DigestOf(receipts[0])] + DigestsOf(receipts[1..])
  }

  /** The order digests are sorted in. */
  predicate Earlier(a: string, b: string) { Before(Codes(a), Codes(b)) }

  lemma EarlierTotal(a: string, b: string)
    ensures a == b || Earlier(a, b) || Earlier(b, a)
    ensures !(Earlier(a, b) && Earlier(b, a)) && !Earlier(a, a)
  {
    BeforeTotal(Codes(a), Codes(b));
    NeverBothBefore(Codes(a), Codes(b));
    BeforeIrreflexive(Codes(a));
    if a != b {
      CodesDistinct(a, b);
    }
  }

  ghost predicate IsDigestPair(digests: seq<Option<string>>, d: (string, string)) {
    && Earlier(d.0, d.1) && Some(d.0) in digests && Some(d.1) in digests
    && forall x :: x in digests ==> x == Some(d.0) || x == Some(d.1)
  }

  lemma DigestPairUnique(digests: seq<Option<string>>, d: (string, string), e: (string, string))
    requires IsDigestPair(digests, d) && IsDigestPair(digests, e)
    ensures d == e
  {
    EarlierTotal(d.0, d.1);
    EarlierTotal(e.0, e.1);
  }

  function FirstOther(digests: seq<Option<string>>, a: Option<string>): (b: Option<Option<string>>)
    ensures b.Some? ==> b.value in digests && b.value != a
    ensures b.None? ==> forall x :: x in digests ==> x == a
  {
    if digests == [] then None
    else
      assert digests == [digests[0]] + digests[1..];
      if digests[0] != a then Some(digests[0]) else FirstOther(digests[1..], a)
  }

  /** The two distinct image digests, sorted, when there are exactly two and none is missing. */
  function DigestPair(digests: seq<Option<string>>): (d: Option<(string, string)>)
    ensures d.Some? ==> IsDigestPair(digests, d.value)
    ensures d.None? ==> forall e :: !IsDigestPair(digests, e)
  {
    if digests == [] || None in digests then None
    else
      match FirstOther(digests, digests[0])
      case None =>
        assert forall e :: IsDigestPair(digests, e) ==> e.0 == e.1 && Earlier(e.0, e.0);
        (EarlierIrreflexive(); None)
      case Some(other) =>
        var a, b := digests[0].value, other.value;
        EarlierTotal(a, b);
        assert Some(a) in digests && Some(b) in digests;
        if exists x :: x in digests && x != Some(a) && x != Some(b) then None
        else if Earlier(a, b) then Some((a, b))
        else Some((b, a))
  }

  lemma EarlierIrreflexive()
    ensures forall a :: !Earlier(a, a)
  {
    forall a
      ensures !Earlier(a, a)
    {
      EarlierTotal(a, a);
    }
  }

  function DeriveBitReproducible(pool: Pool): Result<Derived> {
    match (OnePass(pool, Want("build-comparison", None, None)), DeriveSource(pool), DigestPair(Digests(pool, "build-produced")))
    case (Ok(comparison), Ok(source), Some(d)) =>
      (match (DeriveChain(pool, Wants(BUILD_TYPES, None, Some(d.0)), BUILD_KEYS),
              DeriveChain(pool, Wants(BUILD_TYPES, None, Some(d.1)), BUILD_KEYS))
       case (Ok(a), Ok(b)) =>
         if !HasMeta(comparison, "normalized_outputs_equal", Flag(true)) then GateError
         else if !Agrees(a.subject, source.subject) || !Agrees(b.subject, source.subject) then GateError
         else if exists k :: k in STABLE_KEYS && k !in a.subject then GateError
         else
           var stable := Restrict(a.subject, STABLE_KEYS);
           if Agrees(b.subject, stable) && Agrees(comparison.subject, stable)
           then Ok(Derived(stable, source.ids + a.ids + b.ids + [comparison.id]))
           else GateError
       case _ => GateError)
    case _ => GateError
  }

  function DeriveAnonymous(pool: Pool): Result<Derived> {
    match (DeriveLive(pool, "fast-320k"), DeriveChain(pool, Wants(ANONYMOUS_TYPES, None, None), BUILD_KEYS))
    case (Ok(live), Ok(anonymous)) =>
      if Agrees(live.subject, anonymous.subject) then Ok(Derived(anonymous.subject, live.ids + anonymous.ids))
      else GateError
    case _ => GateError
  }

  function DerivePublished(pool: Pool): Result<Derived> {
    match DeriveClean(pool)
    case GateError => GateError
    case Ok(clean) =>
      match EachOnePass(pool, Wants(["registry-license", "registry-publish"], None, None))
      case GateError => GateError
      case Ok(items) =>
        if |items| != 2 || !HasMeta(items[0], "registry_license_cleared", Flag(true)) then GateError
        else
          match CommonSubject(items, BUILD_KEYS)
          case GateError => GateError
          case Ok(subject) =>
            if subject != clean.subject || "image_digest" !in subject
               || (exists i :: 0 <= i < 2 && !HasMeta(items[i], "registry_digest", Text(subject["image_digest"])))
            then GateError
            else Ok(Derived(subject, clean.ids + Ids(items)))
  }

  function DeriveReadback(pool: Pool): Result<Derived> {
    match (DerivePublished(pool), DeriveChain(pool, Wants(["registry-readback"], None, None), BUILD_KEYS))
    case (Ok(published), Ok(readback)) =>
      if readback.subject == published.subject then Ok(Derived(readback.subject, published.ids + readback.ids))
      else GateError
    case _ => GateError
  }

  datatype Claim = SourceComplete | ModelLicense | CleanBuild | LiveLaunch | BenchmarkReproduced
                 | ThreeProfileSuite | BitReproducible | AnonymousReadback | ImagePublished | ImageReadback
                 | Unknown(name: string)

  function Derive(claim: Claim, pool: Pool, profile: Option<string>): Result<Derived> {
    var name := if profile.Some? then profile.value else "";
    match claim
    case SourceComplete => DeriveSource(pool)
    case ModelLicense => DeriveModel(pool)
    case CleanBuild => DeriveClean(pool)
    case LiveLaunch => DeriveLive(pool, name)
    case BenchmarkReproduced => DeriveBenchmark(pool, name)
    case ThreeProfileSuite => DeriveSuite(pool)
    case BitReproducible => DeriveBitReproducible(pool)
    case AnonymousReadback => DeriveAnonymous(pool)
    case ImagePublished => DerivePublished(pool)
    case ImageReadback => DeriveReadback(pool)
    case Unknown(_) => GateError
  }

  // --------------------------------------- a derivation rests on its receipts

  function IdSet(ids: seq<string>): set<string> {
    set id | id in ids
  }

  lemma IdSetConcat(a: seq<string>, b: seq<string>)
    ensures IdSet(a + b) == IdSet(a) + IdSet(b)
  {
  }

  /** `q` lies between the receipts of `p` named by `ids` and all of `p`, in any order. */
  predicate Between(p: Pool, q: Pool, ids: set<string>) {
    && UniqueIds(p) && UniqueIds(q)
    && (forall r :: r in q ==> r in p)
    && (forall r :: r in p && r.id in ids ==> r in q)
  }

  predicate SameDerived(a: Result<Derived>, b: Result<Derived>) {
    match (a, b)
    case (Ok(x), Ok(y)) => x.subject == y.subject && IdSet(x.ids) == IdSet(y.ids)
    case (GateError, GateError) => true
    case _ => false
  }

  /** Two lists without repetition and with the same members. */
  ghost predicate Rearranged(a: Pool, b: Pool) {
    UniqueIds(a) && UniqueIds(b) && forall x :: x in a <==> x in b
  }

  lemma RearrangedSize(a: Pool, b: Pool)
    requires Rearranged(a, b)
    ensures |a| == |b|
  {
    AtMostAsMany(a, b);
    AtMostAsMany(b, a);
  }

  lemma {:induction false} AtMostAsMany(a: Pool, b: Pool)
    requires UniqueIds(a) && forall x :: x in a ==> x in b
    ensures |a| <= |b|
  {
    if a != [] {
      assert a[0] in b;
      var i :| 0 <= i < |b| && b[i] == a[0];
      var rest := b[..i] + b[i + 1..];
      forall x | x in a[1..]
        ensures x in rest
      {
        assert b == b[..i] + [b[i]] + b[i + 1..];
        assert x in a && x != a[0];
      }
      AtMostAsMany(a[1..], rest);
    }
  }

  lemma OnePassStable(p: Pool, q: Pool, ids: set<string>, w: Want)
    requires Between(p, q, ids) && OnePass(p, w).Ok? && OnePass(p, w).value.id in ids
    ensures OnePass(q, w) == OnePass(p, w)
  {
    var x, found := OnePass(p, w).value, Select(q, w);
    assert Select(p, w) == [x];
    forall y
      ensures y in found <==> y in [x]
    {
      SelectMember(p, w, y);
      SelectMember(q, w, y);
    }
    SelectUnique(q, w);
    RearrangedSize(found, [x]);
    assert found[0] in found;
  }

  lemma {:induction false} EachOnePassStable(p: Pool, q: Pool, ids: set<string>, ws: seq<Want>)
    requires Between(p, q, ids) && EachOnePass(p, ws).Ok?
    requires forall x :: x in EachOnePass(p, ws).value ==> x.id in ids
    ensures EachOnePass(q, ws) == EachOnePass(p, ws)
  {
    if ws != [] {
      var items, rest := EachOnePass(p, ws).value, EachOnePass(p, ws[1..]).value;
      assert items == [OnePass(p, ws[0]).value] + rest;
      assert items[0] in items;
      OnePassStable(p, q, ids, ws[0]);
      assert forall x :: x in rest ==> x in items;
      EachOnePassStable(p, q, ids, ws[1..]);
    }
  }

  lemma IdsOf(items: seq<Receipt>)
    ensures IdSet(Ids(items)) == set x | x in items :: x.id
  {
    forall x | x in items
      ensures x.id in Ids(items)
    {
      var i :| 0 <= i < |items| && items[i] == x;
      assert Ids(items)[i] == x.id;
    }
  }

  lemma ChainStable(p: Pool, q: Pool, ids: set<string>, ws: seq<Want>, keys: seq<string>)
    requires Between(p, q, ids) && DeriveChain(p, ws, keys).Ok?
    requires IdSet(DeriveChain(p, ws, keys).value.ids) <= ids
    ensures DeriveChain(q, ws, keys) == DeriveChain(p, ws, keys)
  {
    IdsOf(EachOnePass(p, ws).value);
    EachOnePassStable(p, q, ids, ws);
  }

  lemma SourceStable(p: Pool, q: Pool, ids: set<string>)
    requires Between(p, q, ids) && DeriveSource(p).Ok?
    requires IdSet(DeriveSource(p).value.ids) <= ids
    ensures DeriveSource(q) == DeriveSource(p)
  {
    ChainStable(p, q, ids, Wants(SOURCE_TYPES, None, None), SOURCE_KEYS);
  }

  lemma ModelStable(p: Pool, q: Pool, ids: set<string>)
    requires Between(p, q, ids) && DeriveModel(p).Ok?
    requires IdSet(DeriveModel(p).value.ids) <= ids
    ensures DeriveModel(q) == DeriveModel(p)
  {
    var ws := Wants(["checkpoint-license", "sidecar-license"], None, None);
    IdsOf(EachOnePass(p, ws).value);
    EachOnePassStable(p, q, ids, ws);
  }

  lemma CleanStable(p: Pool, q: Pool, ids: set<string>)
    requires Between(p, q, ids) && DeriveClean(p).Ok?
    requires IdSet(DeriveClean(p).value.ids) <= ids
    ensures DeriveClean(q) == DeriveClean(p)
  {
    IdSetConcat(DeriveSource(p).value.ids, DeriveChain(p, Wants(BUILD_TYPES, None, None), BUILD_KEYS).value.ids);
    SourceStable(p, q, ids);
    ChainStable(p, q, ids, Wants(BUILD_TYPES, None, None), BUILD_KEYS);
  }

  lemma LiveStable(p: Pool, q: Pool, ids: set<string>, profile: string)
    requires Between(p, q, ids) && DeriveLive(p, profile).Ok?
    requires IdSet(DeriveLive(p, profile).value.ids) <= ids
    ensures DeriveLive(q, profile) == DeriveLive(p, profile)
  {
    var ws, keys := Wants(LiveKinds(profile), Some(profile), None), LiveKeys(profile);
    var clean, model, live := DeriveClean(p).value.ids, DeriveModel(p).value.ids, DeriveChain(p, ws, keys).value.ids;
    IdSetConcat(clean + model, live);
    IdSetConcat(clean, model);
    CleanStable(p, q, ids);
    ModelStable(p, q, ids);
    ChainStable(p, q, ids, ws, keys);
  }

  lemma {:induction false} SelectUnique(p: Pool, w: Want)
    requires UniqueIds(p)
    ensures UniqueIds(Select(p, w))
  {
    if p != [] {
      SelectUnique(p[1..], w);
      var rest := Select(p[1..], w);
      forall i | 0 <= i < |rest|
        ensures rest[i].id != p[0].id
      {
        SelectMember(p[1..], w, rest[i]);
        assert rest[i] in p[1..];
      }
    }
  }

  /** A selection whose receipts are all named survives as a whole. */
  lemma {:induction false} SelectStable(p: Pool, q: Pool, ids: set<string>, w: Want)
    requires Between(p, q, ids) && forall x :: x in Select(p, w) ==> x.id in ids
    ensures Rearranged(Select(p, w), Select(q, w))
  {
    SelectUnique(p, w);
    SelectUnique(q, w);
    forall x
      ensures x in Select(p, w) <==> x in Select(q, w)
    {
      SelectMember(p, w, x);
      SelectMember(q, w, x);
    }
  }

  lemma {:induction false} ValidMember(a: Pool, x: Receipt)
    ensures x in ValidOnes(a) <==> x in a && HasMeta(x, "valid", Flag(true))
  {
    if a != [] {
      ValidMember(a[1..], x);
      assert a == [a[0]] + a[1..];
    }
  }

  lemma {:induction false} ValidUnique(a: Pool)
    requires UniqueIds(a)
    ensures UniqueIds(ValidOnes(a))
  {
    if a != [] {
      ValidUnique(a[1..]);
      var rest := ValidOnes(a[1..]);
      forall i | 0 <= i < |rest|
        ensures rest[i].id != a[0].id
      {
        ValidMember(a[1..], rest[i]);
        assert rest[i] in a[1..];
      }
    }
  }

  lemma {:induction false} ValidRearranged(a: Pool, b: Pool)
    requires Rearranged(a, b)
    ensures Rearranged(ValidOnes(a), ValidOnes(b))
  {
    ValidUnique(a);
    ValidUnique(b);
    forall x
      ensures x in ValidOnes(a) <==> x in ValidOnes(b)
    {
      ValidMember(a, x);
      ValidMember(b, x);
    }
  }

  lemma NumbersOrderFree(a: Pool, b: Pool)
    requires Rearranged(a, b) && GoodAttempts(a)
    ensures GoodAttempts(b)
  {
    forall i | 0 <= i < |b|
      ensures AttemptNumber(b[i]).Some? && 1 <= AttemptNumber(b[i]).value <= 5
    {
      assert b[i] in b;
    }
    forall i, j | 0 <= i < j < |b|
      ensures AttemptNumber(b[i]) != AttemptNumber(b[j])
    {
      assert b[i] in b && b[j] in b && b[i] != b[j];
    }
  }

  /** Acceptance of the battery attempts does not depend on their order. */
  lemma BatteryOrderFree(a: Pool, b: Pool, live: Subject)
    requires Rearranged(a, b) && BatteryAccepted(a, live)
    ensures BatteryAccepted(b, live)
  {
    RearrangedSize(a, b);
    ValidRearranged(a, b);
    RearrangedSize(ValidOnes(a), ValidOnes(b));
    NumbersOrderFree(a, b);
  }

  lemma BenchmarkStable(p: Pool, q: Pool, ids: set<string>, profile: string)
    requires Between(p, q, ids) && DeriveBenchmark(p, profile).Ok?
    requires IdSet(DeriveBenchmark(p, profile).value.ids) <= ids
    ensures SameDerived(DeriveBenchmark(q, profile), DeriveBenchmark(p, profile))
  {
    var w, live := Want("battery", Some(profile), None), DeriveLive(p, profile).value;
    IdSetConcat(live.ids, Ids(Select(p, w)));
    LiveStable(p, q, ids, profile);
    BatteryStable(p, q, ids, w, live);
  }

  lemma {:induction false} BatteryStable(p: Pool, q: Pool, ids: set<string>, w: Want, live: Derived)
    requires Between(p, q, ids) && WithBattery(live, Select(p, w)).Ok? && IdSet(Ids(Select(p, w))) <= ids
    ensures SameDerived(WithBattery(live, Select(q, w)), WithBattery(live, Select(p, w)))
  {
    AttemptsStable(p, q, ids, w, live.subject);
    IdSetConcat(live.ids, Ids(Select(p, w)));
    IdSetConcat(live.ids, Ids(Select(q, w)));
  }

  lemma {:induction false} AttemptsStable(p: Pool, q: Pool, ids: set<string>, w: Want, live: Subject)
    requires Between(p, q, ids) && BatteryAccepted(Select(p, w), live)
    requires IdSet(Ids(Select(p, w))) <= ids
    ensures BatteryAccepted(Select(q, w), live) && IdSet(Ids(Select(q, w))) == IdSet(Ids(Select(p, w)))
  {
    var a, b := Select(p, w), Select(q, w);
    IdsOf(a);
    IdsOf(b);
    assert forall x :: x in a ==> x.id in IdSet(Ids(a));
    SelectStable(p, q, ids, w);
    BatteryOrderFree(a, b, live);
  }

  predicate SameResult(x: Derived, y: Derived) {
    x.subject == y.subject && IdSet(x.ids) == IdSet(y.ids)
  }

  lemma SuiteSame(a: Derived, b: Derived, c: Derived, a': Derived, b': Derived, c': Derived)
    requires SameResult(a, a') && SameResult(b, b') && SameResult(c, c')
    ensures SameDerived(Suite(a, b, c), Suite(a', b', c'))
  {
    IdSetConcat(a.ids + b.ids, c.ids);
    IdSetConcat(a.ids, b.ids);
    IdSetConcat(a'.ids + b'.ids, c'.ids);
    IdSetConcat(a'.ids, b'.ids);
  }

  lemma SuiteStable(p: Pool, q: Pool, ids: set<string>)
    requires Between(p, q, ids) && DeriveSuite(p).Ok?
    requires IdSet(DeriveSuite(p).value.ids) <= ids
    ensures SameDerived(DeriveSuite(q), DeriveSuite(p))
  {
    var f, g, h := PROFILES[0], PROFILES[1], PROFILES[2];
    var a, b, c := DeriveBenchmark(p, f).value, DeriveBenchmark(p, g).value, DeriveBenchmark(p, h).value;
    IdSetConcat(a.ids + b.ids, c.ids);
    IdSetConcat(a.ids, b.ids);
    BenchmarkStable(p, q, ids, f);
    BenchmarkStable(p, q, ids, g);
    BenchmarkStable(p, q, ids, h);
    SuiteSame(DeriveBenchmark(q, f).value, DeriveBenchmark(q, g).value, DeriveBenchmark(q, h).value, a, b, c);
  }

  /** Every build-produced receipt belongs to one of the two chains, so the digests survive. */
  lemma DigestsStable(p: Pool, q: Pool, ids: set<string>, kind: string, d: (string, string))
    requires Between(p, q, ids) && IsDigestPair(Digests(p, kind), d)
    requires OnePass(p, Want(kind, None, Some(d.0))).Ok? && OnePass(p, Want(kind, None, Some(d.0))).value.id in ids
    requires OnePass(p, Want(kind, None, Some(d.1))).Ok? && OnePass(p, Want(kind, None, Some(d.1))).value.id in ids
    ensures forall d :: d in Digests(q, kind) <==> d in Digests(p, kind)
  {
    var w := Want(kind, None, None);
    forall x
      ensures x in Select(p, w) <==> x in Select(q, w)
    {
      SelectedAgain(p, q, ids, kind, d, x);
    }
  }

  lemma {:induction false} SelectedAgain(p: Pool, q: Pool, ids: set<string>, kind: string, d: (string, string), x: Receipt)
    requires Between(p, q, ids) && IsDigestPair(Digests(p, kind), d)
    requires OnePass(p, Want(kind, None, Some(d.0))).Ok? && OnePass(p, Want(kind, None, Some(d.0))).value.id in ids
    requires OnePass(p, Want(kind, None, Some(d.1))).Ok? && OnePass(p, Want(kind, None, Some(d.1))).value.id in ids
    ensures x in Select(p, Want(kind, None, None)) <==> x in Select(q, Want(kind, None, None))
  {
    var w := Want(kind, None, None);
    SelectMember(p, w, x);
    SelectMember(q, w, x);
    if x in Select(p, w) {
      assert DigestOf(x) in Digests(p, kind);
      DigestTells(p, ids, kind, if DigestOf(x) == Some(d.0) then d.0 else d.1, x);
    }
  }

  /** The one receipt of a kind with a digest is known by that digest. */
  lemma DigestTells(p: Pool, ids: set<string>, kind: string, digest: string, x: Receipt)
    requires x in p && Meets(x, Want(kind, None, None)) && DigestOf(x) == Some(digest)
    requires var one := OnePass(p, Want(kind, None, Some(digest))); one.Ok? && one.value.id in ids
    ensures x.id in ids
  {
    SelectMember(p, Want(kind, None, Some(digest)), x);
  }

  lemma ChainHead(p: Pool, ws: seq<Want>, keys: seq<string>)
    requires DeriveChain(p, ws, keys).Ok? && ws != []
    ensures OnePass(p, ws[0]).Ok? && OnePass(p, ws[0]).value.id in DeriveChain(p, ws, keys).value.ids
  {
    var items := EachOnePass(p, ws).value;
    IdsOf(items);
    assert items == [OnePass(p, ws[0]).value] + EachOnePass(p, ws[1..]).value;
    assert Ids(items)[0] == items[0].id;
  }

  lemma FourWithin(a: seq<string>, b: seq<string>, c: seq<string>, d: seq<string>, ids: set<string>)
    requires IdSet(a + b + c + d) <= ids
    ensures IdSet(a) <= ids && IdSet(b) <= ids && IdSet(c) <= ids && IdSet(d) <= ids
  {
    IdSetConcat(a + b + c, d);
    IdSetConcat(a + b, c);
    IdSetConcat(a, b);
  }

  lemma DigestPairStable(p: Pool, q: Pool, ids: set<string>, d: (string, string))
    requires Between(p, q, ids) && DigestPair(Digests(p, "build-produced")) == Some(d)
    requires var a := DeriveChain(p, Wants(BUILD_TYPES, None, Some(d.0)), BUILD_KEYS); a.Ok? && IdSet(a.value.ids) <= ids
    requires var b := DeriveChain(p, Wants(BUILD_TYPES, None, Some(d.1)), BUILD_KEYS); b.Ok? && IdSet(b.value.ids) <= ids
    ensures DigestPair(Digests(q, "build-produced")) == Some(d)
  {
    ChainHead(p, Wants(BUILD_TYPES, None, Some(d.0)), BUILD_KEYS);
    ChainHead(p, Wants(BUILD_TYPES, None, Some(d.1)), BUILD_KEYS);
    DigestsStable(p, q, ids, BUILD_TYPES[0], d);
    assert IsDigestPair(Digests(q, "build-produced"), d);
    DigestPairUnique(Digests(q, "build-produced"), d, DigestPair(Digests(q, "build-produced")).value);
  }

  lemma BitReproducibleStable(p: Pool, q: Pool, ids: set<string>)
    requires Between(p, q, ids) && DeriveBitReproducible(p).Ok?
    requires IdSet(DeriveBitReproducible(p).value.ids) <= ids
    ensures DeriveBitReproducible(q) == DeriveBitReproducible(p)
  {
    var d := DigestPair(Digests(p, "build-produced")).value;
    var wa, wb := Wants(BUILD_TYPES, None, Some(d.0)), Wants(BUILD_TYPES, None, Some(d.1));
    var a, b := DeriveChain(p, wa, BUILD_KEYS).value, DeriveChain(p, wb, BUILD_KEYS).value;
    var comparison := OnePass(p, Want("build-comparison", None, None)).value;
    var source := DeriveSource(p).value;
    assert DeriveBitReproducible(p).value.ids == source.ids + a.ids + b.ids + [comparison.id];
    FourWithin(source.ids, a.ids, b.ids, [comparison.id], ids);
    OnePassStable(p, q, ids, Want("build-comparison", None, None));
    SourceStable(p, q, ids);
    DigestPairStable(p, q, ids, d);
    ChainStable(p, q, ids, wa, BUILD_KEYS);
    ChainStable(p, q, ids, wb, BUILD_KEYS);
  }

  lemma AnonymousStable(p: Pool, q: Pool, ids: set<string>)
    requires Between(p, q, ids) && DeriveAnonymous(p).Ok?
    requires IdSet(DeriveAnonymous(p).value.ids) <= ids
    ensures DeriveAnonymous(q) == DeriveAnonymous(p)
  {
    IdSetConcat(DeriveLive(p, "fast-320k").value.ids,
                DeriveChain(p, Wants(ANONYMOUS_TYPES, None, None), BUILD_KEYS).value.ids);
    LiveStable(p, q, ids, "fast-320k");
    ChainStable(p, q, ids, Wants(ANONYMOUS_TYPES, None, None), BUILD_KEYS);
  }

  lemma PublishedStable(p: Pool, q: Pool, ids: set<string>)
    requires Between(p, q, ids) && DerivePublished(p).Ok?
    requires IdSet(DerivePublished(p).value.ids) <= ids
    ensures DerivePublished(q) == DerivePublished(p)
  {
    var ws := Wants(["registry-license", "registry-publish"], None, None);
    IdSetConcat(DeriveClean(p).value.ids, Ids(EachOnePass(p, ws).value));
    CleanStable(p, q, ids);
    IdsOf(EachOnePass(p, ws).value);
    EachOnePassStable(p, q, ids, ws);
  }

  lemma ReadbackStable(p: Pool, q: Pool, ids: set<string>)
    requires Between(p, q, ids) && DeriveReadback(p).Ok?
    requires IdSet(DeriveReadback(p).value.ids) <= ids
    ensures DeriveReadback(q) == DeriveReadback(p)
  {
    var ws := Wants(["registry-readback"], None, None);
    IdSetConcat(DerivePublished(p).value.ids, DeriveChain(p, ws, BUILD_KEYS).value.ids);
    PublishedStable(p, q, ids);
    ChainStable(p, q, ids, ws, BUILD_KEYS);
  }

  predicate HasBattery(claim: Claim) {
    claim.BenchmarkReproduced? || claim.ThreeProfileSuite?
  }

  lemma ExactClaimStable(claim: Claim, p: Pool, q: Pool, profile: Option<string>)
    requires !HasBattery(claim)
    requires Derive(claim, p, profile).Ok? && Between(p, q, IdSet(Derive(claim, p, profile).value.ids))
    ensures Derive(claim, q, profile) == Derive(claim, p, profile)
  {
    var ids := IdSet(Derive(claim, p, profile).value.ids);
    match claim
    case SourceComplete => SourceStable(p, q, ids);
    case ModelLicense => ModelStable(p, q, ids);
    case CleanBuild => CleanStable(p, q, ids);
    case LiveLaunch => LiveStable(p, q, ids, if profile.Some? then profile.value else "");
    case BitReproducible => BitReproducibleStable(p, q, ids);
    case AnonymousReadback => AnonymousStable(p, q, ids);
    case ImagePublished => PublishedStable(p, q, ids);
    case ImageReadback => ReadbackStable(p, q, ids);
  }

  /** A derivation is supported by the receipts it lists: any pool between those receipts and the
      original one, in any order, derives the same subject from the same receipts. */
  lemma DerivationSupported(claim: Claim, p: Pool, q: Pool, profile: Option<string>)
    requires Derive(claim, p, profile).Ok? && Between(p, q, IdSet(Derive(claim, p, profile).value.ids))
    ensures SameDerived(Derive(claim, q, profile), Derive(claim, p, profile))
  {
    var ids := IdSet(Derive(claim, p, profile).value.ids);
    if claim.BenchmarkReproduced? {
      BenchmarkStable(p, q, ids, if profile.Some? then profile.value else "");
    } else if claim.ThreeProfileSuite? {
      SuiteStable(p, q, ids);
    } else {
      ExactClaimStable(claim, p, q, profile);
    }
  }
}
