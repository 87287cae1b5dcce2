/**
 The evidence gate claim by claim: exactly which pools derive a claim about which subject, and exactly
 which receipts the derivation lists.
 */
module EvidenceClaims {
  import opened Wrappers
  import opened SortedLists
  import opened EvidenceGate
  import opened EvidenceMeaning

  // ------------------------------------------------------------ what each claim means

  /** A reproduced benchmark of this profile, about identities that include these. */
  ghost predicate BenchmarkOf(p: Pool, profile: string, s: Subject) {
    exists whole :: LiveAttested(p, profile, whole) && BatteryAttested(p, profile, whole) && Agrees(whole, s)
  }

  /** The suite: a reproduced benchmark of each of the three profiles, all of one build and one model. */
  ghost predicate SuiteAttested(p: Pool, s: Subject) {
    && s.Keys == (set k | k in SHARED_KEYS)
    && BenchmarkOf(p, "fast-320k", s) && BenchmarkOf(p, "balanced-650k", s) && BenchmarkOf(p, "large-1m", s)
  }

  ghost predicate PublishedAttested(p: Pool, s: Subject) {
    s.Keys == (set k | k in BUILD_KEYS) && BuildAttested(p, s) && PublicationAttested(p, s)
  }

  ghost predicate AnonymousAttested(p: Pool, s: Subject) {
    && s.Keys == (set k | k in BUILD_KEYS) && AllAttested(p, Wants(ANONYMOUS_TYPES, None, None), s)
    && exists live :: LiveAttested(p, "fast-320k", live) && Agrees(live, s)
  }

  /** What the receipts of a pool say for a claim about `s`; a claim without a profile is about the empty
      one. */
  ghost predicate ClaimAttested(claim: Claim, p: Pool, profile: Option<string>, s: Subject) {
    var name := if profile.Some? then profile.value else "";
    match claim
    case SourceComplete => s.Keys == (set k | k in SOURCE_KEYS) && SourceAttested(p, s)
    case ModelLicense => s.Keys == {"model_id", "sidecar_id"} && ModelAttested(p, s)
    case CleanBuild => s.Keys == (set k | k in BUILD_KEYS) && BuildAttested(p, s)
    case LiveLaunch => LiveAttested(p, name, s)
    case BenchmarkReproduced => LiveAttested(p, name, s) && BatteryAttested(p, name, s)
    case ThreeProfileSuite => SuiteAttested(p, s)
    case BitReproducible => ReproducibleAttested(p, s)
    case AnonymousReadback => AnonymousAttested(p, s)
    case ImagePublished => PublishedAttested(p, s)
    case ImageReadback => PublishedAttested(p, s) && Attested(p, Want("registry-readback", None, None), s)
    case Unknown(_) => false
  }

  lemma SourceExact(p: Pool, s: Subject)
    requires UniqueIds(p)
    ensures About(DeriveSource(p), s) <==> s.Keys == (set k | k in SOURCE_KEYS) && SourceAttested(p, s)
  {
    ChainExact(p, Wants(SOURCE_TYPES, None, None), SOURCE_KEYS, s);
    if s.Keys == (set k | k in SOURCE_KEYS) {
      assert Part(s, SOURCE_KEYS) == s;
    }
  }

  lemma LicensesExact(p: Pool, s: Subject)
    requires UniqueIds(p)
    ensures About(DeriveModel(p), s) <==> s.Keys == {"model_id", "sidecar_id"} && ModelAttested(p, s)
  {
    ModelExact(p, s);
    if DeriveModel(p).Ok? {
      var t := DeriveModel(p).value.subject;
      assert t.Keys == {"model_id", "sidecar_id"};
      if s.Keys == t.Keys && Agrees(s, t) {
        assert s == t;
      }
    }
  }

  lemma BenchmarkOfExact(p: Pool, profile: string, s: Subject)
    requires UniqueIds(p)
    ensures BenchmarkOf(p, profile, s) <==> DeriveBenchmark(p, profile).Ok? && Agrees(DeriveBenchmark(p, profile).value.subject, s)
  {
    if DeriveBenchmark(p, profile).Ok? {
      BenchmarkExact(p, profile, DeriveBenchmark(p, profile).value.subject);
    }
    if BenchmarkOf(p, profile, s) {
      var whole :| LiveAttested(p, profile, whole) && BatteryAttested(p, profile, whole) && Agrees(whole, s);
      BenchmarkExact(p, profile, whole);
    }
  }

  /** The three benchmarks give a suite about `s` exactly when each carries the identities of `s`. */
  lemma SuiteOf(a: Derived, b: Derived, c: Derived, s: Subject)
    ensures About(Suite(a, b, c), s) <==>
              s.Keys == (set k | k in SHARED_KEYS) && Agrees(a.subject, s) && Agrees(b.subject, s) && Agrees(c.subject, s)
  {
    if s.Keys == (set k | k in SHARED_KEYS) && Agrees(a.subject, s) {
      assert forall k :: k in SHARED_KEYS ==> k in s;
      assert Restrict(a.subject, SHARED_KEYS) == s;
    }
  }

  lemma SuiteExact(p: Pool, s: Subject)
    requires UniqueIds(p)
    ensures About(DeriveSuite(p), s) <==> SuiteAttested(p, s)
  {
    BenchmarkOfExact(p, PROFILES[0], s);
    BenchmarkOfExact(p, PROFILES[1], s);
    BenchmarkOfExact(p, PROFILES[2], s);
    var a, b, c := DeriveBenchmark(p, PROFILES[0]), DeriveBenchmark(p, PROFILES[1]), DeriveBenchmark(p, PROFILES[2]);
    if a.Ok? && b.Ok? && c.Ok? {
      SuiteOf(a.value, b.value, c.value, s);
    }
  }

  /** A claim derives about a subject exactly when the receipts attest it. */
  lemma DeriveExact(claim: Claim, p: Pool, profile: Option<string>, s: Subject)
    requires UniqueIds(p)
    ensures About(Derive(claim, p, profile), s) <==> ClaimAttested(claim, p, profile, s)
  {
    var name := if profile.Some? then profile.value else "";
    match claim
    case SourceComplete => SourceExact(p, s);
    case ModelLicense => LicensesExact(p, s);
    case CleanBuild => CleanExact(p, s);
    case LiveLaunch => LiveExact(p, name, s);
    case BenchmarkReproduced => BenchmarkExact(p, name, s);
    case ThreeProfileSuite => SuiteExact(p, s);
    case BitReproducible => ReproducibleExact(p, s);
    case AnonymousReadback => AnonymousExact(p, s);
    case ImagePublished => PublishedExact(p, s);
    case ImageReadback =>
      ReadbackExact(p, s);
      PublishedExact(p, s);
    case Unknown(_) =>
  }

  // ------------------------------------------------------------ what each claim rests on

  /** The receipts that answer a list of questions, question by question. */
  function Picked(p: Pool, ws: seq<Want>): Pool {
    if ws == [] then [] else Select(p, ws[0]) + Picked(p, ws[1..])
  }

  function CleanWants(): seq<Want> { Wants(SOURCE_TYPES, None, None) + Wants(BUILD_TYPES, None, None) }

  function ModelWants(): seq<Want> { Wants(["checkpoint-license", "sidecar-license"], None, None) }

  function LiveWants(profile: string): seq<Want> {
    CleanWants() + ModelWants() + Wants(LiveKinds(profile), Some(profile), None)
  }

  function BenchmarkWants(profile: string): seq<Want> { LiveWants(profile) + [Want("battery", Some(profile), None)] }

  function PublishedWants(): seq<Want> { CleanWants() + Wants(["registry-license", "registry-publish"], None, None) }

  function ReproducibleWants(d: (string, string)): seq<Want> {
    Wants(SOURCE_TYPES, None, None) + Wants(BUILD_TYPES, None, Some(d.0)) + Wants(BUILD_TYPES, None, Some(d.1))
    + [Want("build-comparison", None, None)]
  }

  /** Every question a claim asks, in order; `d` are the digests of the two images of a reproducible build. */
  function ClaimWants(claim: Claim, profile: Option<string>, d: (string, string)): seq<Want> {
    var name := if profile.Some? then profile.value else "";
    match claim
    case SourceComplete => Wants(SOURCE_TYPES, None, None)
    case ModelLicense => ModelWants()
    case CleanBuild => CleanWants()
    case LiveLaunch => LiveWants(name)
    case BenchmarkReproduced => BenchmarkWants(name)
    case ThreeProfileSuite => BenchmarkWants("fast-320k") + BenchmarkWants("balanced-650k") + BenchmarkWants("large-1m")
    case BitReproducible => ReproducibleWants(d)
    case AnonymousReadback => LiveWants("fast-320k") + Wants(ANONYMOUS_TYPES, None, None)
    case ImagePublished => PublishedWants()
    case ImageReadback => PublishedWants() + Wants(["registry-readback"], None, None)
    case Unknown(_) => []
  }

  function PickedIds(p: Pool, ws: seq<Want>): seq<string> { Ids(Picked(p, ws)) }

  lemma IdsBoth(a: Pool, b: Pool)
    ensures Ids(a + b) == Ids(a) + Ids(b)
  {
  }

  lemma AppendAssociates(a: Pool, b: Pool, c: Pool)
    ensures a + (b + c) == (a + b) + c
  {
  }

  lemma {:induction false} PickedAppend(p: Pool, a: seq<Want>, b: seq<Want>)
    ensures Picked(p, a + b) == Picked(p, a) + Picked(p, b)
  {
    if a == [] {
      assert a + b == b;
    } else {
      PickedAppend(p, a[1..], b);
      assert (a + b)[0] == a[0] && (a + b)[1..] == a[1..] + b;
      AppendAssociates(Select(p, a[0]), Picked(p, a[1..]), Picked(p, b));
    }
  }

  lemma {:induction false} PickedBoth(p: Pool, a: seq<Want>, b: seq<Want>)
    ensures PickedIds(p, a + b) == PickedIds(p, a) + PickedIds(p, b)
  {
    PickedAppend(p, a, b);
    IdsBoth(Picked(p, a), Picked(p, b));
  }

  lemma {:induction false} EachPicked(p: Pool, ws: seq<Want>)
    requires EachOnePass(p, ws).Ok?
    ensures EachOnePass(p, ws).value == Picked(p, ws)
  {
    if ws != [] {
      EachPicked(p, ws[1..]);
      assert Select(p, ws[0]) == [OnePass(p, ws[0]).value];
    }
  }

  lemma ChainPicked(p: Pool, ws: seq<Want>, keys: seq<string>)
    requires DeriveChain(p, ws, keys).Ok?
    ensures DeriveChain(p, ws, keys).value.ids == PickedIds(p, ws)
  {
    EachPicked(p, ws);
  }

  lemma {:induction false} OnePicked(p: Pool, w: Want)
    ensures PickedIds(p, [w]) == Ids(Select(p, w))
  {
    assert [w][1..] == [] && Picked(p, []) == [];
    assert Select(p, w) + [] == Select(p, w);
  }

  lemma CleanPicked(p: Pool)
    requires DeriveClean(p).Ok?
    ensures DeriveClean(p).value.ids == PickedIds(p, CleanWants())
  {
    ChainPicked(p, Wants(SOURCE_TYPES, None, None), SOURCE_KEYS);
    ChainPicked(p, Wants(BUILD_TYPES, None, None), BUILD_KEYS);
    PickedBoth(p, Wants(SOURCE_TYPES, None, None), Wants(BUILD_TYPES, None, None));
  }

  lemma ModelPicked(p: Pool)
    requires DeriveModel(p).Ok?
    ensures DeriveModel(p).value.ids == PickedIds(p, ModelWants())
  {
    EachPicked(p, ModelWants());
  }

  lemma LivePicked(p: Pool, profile: string)
    requires DeriveLive(p, profile).Ok?
    ensures DeriveLive(p, profile).value.ids == PickedIds(p, LiveWants(profile))
  {
    var ws := Wants(LiveKinds(profile), Some(profile), None);
    CleanPicked(p);
    ModelPicked(p);
    ChainPicked(p, ws, LiveKeys(profile));
    PickedBoth(p, CleanWants(), ModelWants());
    PickedBoth(p, CleanWants() + ModelWants(), ws);
  }

  lemma BenchmarkPicked(p: Pool, profile: string)
    requires DeriveBenchmark(p, profile).Ok?
    ensures DeriveBenchmark(p, profile).value.ids == PickedIds(p, BenchmarkWants(profile))
  {
    var w := Want("battery", Some(profile), None);
    LivePicked(p, profile);
    OnePicked(p, w);
    PickedBoth(p, LiveWants(profile), [w]);
  }

  lemma SuitePicked(p: Pool)
    requires DeriveSuite(p).Ok?
    ensures DeriveSuite(p).value.ids ==
            PickedIds(p, BenchmarkWants(PROFILES[0]) + BenchmarkWants(PROFILES[1]) + BenchmarkWants(PROFILES[2]))
  {
    var a, b, c := BenchmarkWants(PROFILES[0]), BenchmarkWants(PROFILES[1]), BenchmarkWants(PROFILES[2]);
    BenchmarkPicked(p, PROFILES[0]);
    BenchmarkPicked(p, PROFILES[1]);
    BenchmarkPicked(p, PROFILES[2]);
    PickedBoth(p, a, b);
    PickedBoth(p, a + b, c);
  }

  lemma ReproducibleParts(p: Pool, d: (string, string))
    requires DeriveBitReproducible(p).Ok? && DigestPair(Digests(p, "build-produced")) == Some(d)
    ensures var source, comparison := DeriveSource(p), OnePass(p, Want("build-comparison", None, None));
            var a := DeriveChain(p, Wants(BUILD_TYPES, None, Some(d.0)), BUILD_KEYS);
            var b := DeriveChain(p, Wants(BUILD_TYPES, None, Some(d.1)), BUILD_KEYS);
            && source.Ok? && comparison.Ok? && a.Ok? && b.Ok?
            && DeriveBitReproducible(p).value.ids == source.value.ids + a.value.ids + b.value.ids + [comparison.value.id]
  {
  }

  lemma BitReproduciblePicked(p: Pool, d: (string, string))
    requires DeriveBitReproducible(p).Ok? && TwoBuilds(p, d)
    ensures DeriveBitReproducible(p).value.ids == PickedIds(p, ReproducibleWants(d))
  {
    var a, b, c := Wants(SOURCE_TYPES, None, None), Wants(BUILD_TYPES, None, Some(d.0)), Wants(BUILD_TYPES, None, Some(d.1));
    var w := Want("build-comparison", None, None);
    DigestPairUnique(Digests(p, "build-produced"), d, DigestPair(Digests(p, "build-produced")).value);
    ReproducibleParts(p, d);
    ChainPicked(p, a, SOURCE_KEYS);
    ChainPicked(p, b, BUILD_KEYS);
    ChainPicked(p, c, BUILD_KEYS);
    FourPicked(p, a, b, c, w);
    OnlyOne(p, w);
  }

  lemma {:induction false} OnlyOne(p: Pool, w: Want)
    requires OnePass(p, w).Ok?
    ensures Ids(Select(p, w)) == [OnePass(p, w).value.id]
  {
  }

  lemma {:induction false} FourPicked(p: Pool, a: seq<Want>, b: seq<Want>, c: seq<Want>, w: Want)
    ensures PickedIds(p, a + b + c + [w]) == PickedIds(p, a) + PickedIds(p, b) + PickedIds(p, c) + Ids(Select(p, w))
  {
    OnePicked(p, w);
    PickedBoth(p, a, b);
    PickedBoth(p, a + b, c);
    PickedBoth(p, a + b + c, [w]);
  }

  lemma PublishedPicked(p: Pool)
    requires DerivePublished(p).Ok?
    ensures DerivePublished(p).value.ids == PickedIds(p, PublishedWants())
  {
    var ws := Wants(["registry-license", "registry-publish"], None, None);
    CleanPicked(p);
    EachPicked(p, ws);
    PickedBoth(p, CleanWants(), ws);
  }

  /** A derivation lists exactly the receipts that answer its claim's questions, question by question and
      none besides. */
  lemma {:induction false} IdsExact(claim: Claim, p: Pool, profile: Option<string>, d: (string, string))
    requires Derive(claim, p, profile).Ok? && (claim.BitReproducible? ==> TwoBuilds(p, d))
    ensures Derive(claim, p, profile).value.ids == PickedIds(p, ClaimWants(claim, profile, d))
    ensures forall x :: x in Picked(p, ClaimWants(claim, profile, d)) <==>
              x in p && exists i :: 0 <= i < |ClaimWants(claim, profile, d)| && Fits(x, ClaimWants(claim, profile, d)[i])
  {
    PickedMembers(p, ClaimWants(claim, profile, d));
    var name := if profile.Some? then profile.value else "";
    match claim
    case SourceComplete => ChainPicked(p, Wants(SOURCE_TYPES, None, None), SOURCE_KEYS);
    case ModelLicense => ModelPicked(p);
    case CleanBuild => CleanPicked(p);
    case LiveLaunch => LivePicked(p, name);
    case BenchmarkReproduced => BenchmarkPicked(p, name);
    case ThreeProfileSuite => SuitePicked(p);
    case BitReproducible => BitReproduciblePicked(p, d);
    case AnonymousReadback =>
      LivePicked(p, "fast-320k");
      ChainPicked(p, Wants(ANONYMOUS_TYPES, None, None), BUILD_KEYS);
      PickedBoth(p, LiveWants("fast-320k"), Wants(ANONYMOUS_TYPES, None, None));
    case ImagePublished => PublishedPicked(p);
    case ImageReadback =>
      var ws := Wants(["registry-readback"], None, None);
      PublishedPicked(p);
      ChainPicked(p, ws, BUILD_KEYS);
      PickedBoth(p, PublishedWants(), ws);
  }

  lemma {:induction false} PickedMembers(p: Pool, ws: seq<Want>)
    ensures forall x :: x in Picked(p, ws) <==> x in p && exists i :: 0 <= i < |ws| && Fits(x, ws[i])
  {
    forall x ensures x in Picked(p, ws) <==> x in p && exists i :: 0 <= i < |ws| && Fits(x, ws[i]) {
      PickedMember(p, ws, x);
    }
  }

  lemma {:induction false} PickedMember(p: Pool, ws: seq<Want>, x: Receipt)
    ensures x in Picked(p, ws) <==> x in p && exists i :: 0 <= i < |ws| && Fits(x, ws[i])
  {
    if ws != [] {
      PickedMember(p, ws[1..], x);
      SelectMember(p, ws[0], x);
      FitsExact(x, ws[0]);
      assert forall i :: 0 < i < |ws| ==> ws[i] == ws[1..][i - 1];
      if i :| 0 <= i < |ws| && Fits(x, ws[i]) {
        assert i > 0 ==> Fits(x, ws[1..][i - 1]);
      }
    }
  }
}
