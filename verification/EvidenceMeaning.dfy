/**
 What the evidence gate's derivations mean, in terms of the receipts of a pool and nothing else:
 for each rung of the ladder, exactly which pools derive it and about which subject.
 */
module EvidenceMeaning {
  import opened Wrappers
  import opened FiniteSets
  import opened SortedLists
  import opened EvidenceGate

  /** A metadata entry with this very value. */
  predicate Says(r: Receipt, key: string, value: Meta) { key in r.metadata && r.metadata[key] == value }

  /** A receipt of this kind and, where they are asked for, of this profile and about this image. */
  predicate Fits(r: Receipt, w: Want) {
    && r.kind == w.kind
    && (w.profile.Some? ==> Says(r, "profile", Text(w.profile.value)))
    && (w.digest.Some? ==> "image_digest" in r.subject && r.subject["image_digest"] == w.digest.value)
  }

  lemma FitsExact(r: Receipt, w: Want)
    ensures Fits(r, w) <==> Meets(r, w)
  {
  }

  /** The one receipt of a description in the pool, and it passed. */
  predicate Sole(p: Pool, w: Want, r: Receipt) {
    r in p && Fits(r, w) && r.pass && forall x :: x in p && Fits(x, w) ==> x == r
  }

  /** There is such a receipt and it says what `s` says. */
  ghost predicate Attested(p: Pool, w: Want, s: Subject) { exists r :: Sole(p, w, r) && Agrees(r.subject, s) }

  ghost predicate AllAttested(p: Pool, ws: seq<Want>, s: Subject) { forall i :: 0 <= i < |ws| ==> Attested(p, ws[i], s) }

  lemma TwoDiffer(found: Pool)
    requires UniqueIds(found) && |found| >= 2
    ensures found[0] in found && found[1] in found && found[0] != found[1]
  {
  }

  lemma OnePassExact(p: Pool, w: Want, r: Receipt)
    requires UniqueIds(p)
    ensures OnePass(p, w) == Ok(r) <==> Sole(p, w, r)
  {
    var found := Select(p, w);
    SelectUnique(p, w);
    forall x ensures x in found <==> x in p && Fits(x, w) {
      SelectMember(p, w, x);
      FitsExact(x, w);
    }
    if |found| >= 2 {
      TwoDiffer(found);
    }
    if Sole(p, w, r) {
      assert r in found;
    }
    if OnePass(p, w) == Ok(r) {
      assert found[0] in found;
      forall x | x in p && Fits(x, w) ensures x == r {
        assert x in found;
      }
    }
  }

  lemma {:induction false} EachExact(p: Pool, ws: seq<Want>)
    ensures EachOnePass(p, ws).Ok? <==> forall i :: 0 <= i < |ws| ==> OnePass(p, ws[i]).Ok?
    ensures EachOnePass(p, ws).Ok? ==>
              && |EachOnePass(p, ws).value| == |ws|
              && forall i :: 0 <= i < |ws| ==> OnePass(p, ws[i]) == Ok(EachOnePass(p, ws).value[i])
  {
    if ws != [] {
      EachExact(p, ws[1..]);
      assert forall i :: 0 < i < |ws| ==> ws[i] == ws[1..][i - 1];
    }
  }

  ghost predicate About(r: Result<Derived>, s: Subject) { r.Ok? && r.value.subject == s }

  /** A chain derives about `s` exactly when every wanted receipt is the only one of its kind, passed,
      and agrees with `s`, which names just the chain's identities. */
  lemma ChainExact(p: Pool, ws: seq<Want>, keys: seq<string>, s: Subject)
    requires UniqueIds(p) && ws != []
    ensures About(DeriveChain(p, ws, keys), s) <==> s.Keys == (set k | k in keys) && AllAttested(p, ws, s)
  {
    EachExact(p, ws);
    if About(DeriveChain(p, ws, keys), s) {
      var items := EachOnePass(p, ws).value;
      forall i | 0 <= i < |ws| ensures Attested(p, ws[i], s) {
        OnePassExact(p, ws[i], items[i]);
        assert Agrees(items[i].subject, s);
      }
    }
    if s.Keys == (set k | k in keys) && AllAttested(p, ws, s) {
      AttestedDerive(p, ws, keys, s);
    }
  }

  lemma AttestedDerive(p: Pool, ws: seq<Want>, keys: seq<string>, s: Subject)
    requires UniqueIds(p) && ws != [] && s.Keys == (set k | k in keys) && AllAttested(p, ws, s)
    ensures About(DeriveChain(p, ws, keys), s)
  {
    EachExact(p, ws);
    forall i | 0 <= i < |ws| ensures OnePass(p, ws[i]).Ok? && Agrees(OnePass(p, ws[i]).value.subject, s) {
      assert Attested(p, ws[i], s);
      var r :| Sole(p, ws[i], r) && Agrees(r.subject, s);
      OnePassExact(p, ws[i], r);
    }
    var items := EachOnePass(p, ws).value;
    assert forall i :: 0 <= i < |items| ==> Agrees(items[i].subject, s);
    assert forall k :: k in keys ==> k in s;
    assert Restrict(items[0].subject, keys) == s;
  }

  function Part(s: Subject, keys: seq<string>): Subject {
    s - (s.Keys - set k | k in keys)
  }

  /** Complete source: every source receipt about one release. */
  ghost predicate SourceAttested(p: Pool, s: Subject) { AllAttested(p, Wants(SOURCE_TYPES, None, None), Part(s, SOURCE_KEYS)) }

  /** Clean build: every build receipt about one build, of the attested source. */
  ghost predicate BuildAttested(p: Pool, s: Subject) {
    SourceAttested(p, s) && AllAttested(p, Wants(BUILD_TYPES, None, None), Part(s, BUILD_KEYS))
  }

  lemma CleanExact(p: Pool, s: Subject)
    requires UniqueIds(p)
    ensures About(DeriveClean(p), s) <==> s.Keys == (set k | k in BUILD_KEYS) && BuildAttested(p, s)
  {
    var source := Part(s, SOURCE_KEYS);
    ChainExact(p, Wants(BUILD_TYPES, None, None), BUILD_KEYS, s);
    if s.Keys == (set k | k in BUILD_KEYS) {
      assert Part(s, BUILD_KEYS) == s;
      assert "source_release_id" in BUILD_KEYS;
      assert source.Keys == (set k | k in SOURCE_KEYS);
      ChainExact(p, Wants(SOURCE_TYPES, None, None), SOURCE_KEYS, source);
      if About(DeriveClean(p), s) {
        SameOnOneKey(DeriveSource(p).value.subject, source, s);
      }
    }
  }

  lemma SameOnOneKey(a: Subject, b: Subject, s: Subject)
    requires a.Keys == b.Keys && Agrees(s, a) && Agrees(s, b)
    ensures a == b
  {
  }

  /** Licences of model and sidecar, rights verified. */
  ghost predicate ModelAttested(p: Pool, s: Subject) {
    exists a, b :: IsLicensePair(p, a, b) && Agrees(s, ModelSubject(a, b))
  }

  predicate IsLicensePair(p: Pool, a: Receipt, b: Receipt) {
    && Sole(p, Want("checkpoint-license", None, None), a) && Sole(p, Want("sidecar-license", None, None), b)
    && Says(a, "rights_status", Text("verified")) && Says(b, "rights_status", Text("verified"))
    && "model_id" in a.subject && "sidecar_id" in b.subject
  }

  function ModelSubject(a: Receipt, b: Receipt): Subject
    requires "model_id" in a.subject && "sidecar_id" in b.subject
  {
    map["model_id" := a.subject["model_id"], "sidecar_id" := b.subject["sidecar_id"]]
  }

  lemma ModelExact(p: Pool, s: Subject)
    requires UniqueIds(p)
    ensures DeriveModel(p).Ok? && Agrees(s, DeriveModel(p).value.subject) <==> ModelAttested(p, s)
  {
    var ws := Wants(["checkpoint-license", "sidecar-license"], None, None);
    EachExact(p, ws);
    assert ws[0] == Want("checkpoint-license", None, None) && ws[1] == Want("sidecar-license", None, None);
    if DeriveModel(p).Ok? && Agrees(s, DeriveModel(p).value.subject) {
      var items := EachOnePass(p, ws).value;
      OnePassExact(p, ws[0], items[0]);
      OnePassExact(p, ws[1], items[1]);
      assert IsLicensePair(p, items[0], items[1]);
    }
    if ModelAttested(p, s) {
      var a, b :| IsLicensePair(p, a, b) && Agrees(s, ModelSubject(a, b));
      LicensesFound(p, a, b);
    }
  }

  lemma LicensesFound(p: Pool, a: Receipt, b: Receipt)
    requires UniqueIds(p) && IsLicensePair(p, a, b)
    ensures DeriveModel(p).Ok? && DeriveModel(p).value.subject == ModelSubject(a, b)
  {
    var ws := Wants(["checkpoint-license", "sidecar-license"], None, None);
    assert ws[0] == Want("checkpoint-license", None, None) && ws[1] == Want("sidecar-license", None, None);
    EachExact(p, ws);
    OnePassExact(p, ws[0], a);
    OnePassExact(p, ws[1], b);
  }

  /** What a launch is about, the pinned state only for the fast profile. */
  function LaunchKeys(profile: string): set<string> {
    {"source_release_id", "build_subject_id", "build_lock_id", "source_manifest_id", "image_digest", "model_id", "sidecar_id",
     "preset_id", "run_id"} + if profile == "fast-320k" then {"pin_id"} else {}
  }

  /** The receipts a launch takes. */
  function LaunchKinds(profile: string): seq<string> {
    if profile == "fast-320k" then ["launch", "verify-runtime", "correctness", "stability", "pin-state"]
    else ["launch", "verify-runtime", "correctness", "stability"]
  }

  lemma LaunchExact(profile: string)
    ensures LaunchKinds(profile) == LiveKinds(profile) && LaunchKeys(profile) == (set k | k in LiveKeys(profile))
    ensures profile in PROFILES <==> profile in {"fast-320k", "balanced-650k", "large-1m"}
  {
    forall k ensures k in LaunchKeys(profile) <==> k in LiveKeys(profile) {
      LaunchKey(profile, k);
    }
    assert PROFILES[0] == "fast-320k" && PROFILES[1] == "balanced-650k" && PROFILES[2] == "large-1m";
  }

  lemma LaunchKey(profile: string, k: string)
    ensures k in LaunchKeys(profile) <==> k in LiveKeys(profile)
  {
    assert LIVE_KEYS[0] == "source_release_id" && LIVE_KEYS[1] == "build_subject_id" && LIVE_KEYS[2] == "build_lock_id";
    assert LIVE_KEYS[3] == "source_manifest_id" && LIVE_KEYS[4] == "image_digest" && LIVE_KEYS[5] == "model_id";
    assert LIVE_KEYS[6] == "sidecar_id" && LIVE_KEYS[7] == "preset_id" && LIVE_KEYS[8] == "run_id";
    assert ["pin_id"][0] == "pin_id";
    assert k in LiveKeys(profile) <==> k in LIVE_KEYS || (profile == "fast-320k" && k in ["pin_id"]);
  }

  /** A live launch of a profile about `s`: its own receipts, the clean build and the licences, all
      about the identities `s` names. */
  ghost predicate LiveAttested(p: Pool, profile: string, s: Subject) {
    && profile in {"fast-320k", "balanced-650k", "large-1m"}
    && s.Keys == LaunchKeys(profile)
    && AllAttested(p, Wants(LaunchKinds(profile), Some(profile), None), s)
    && BuildAttested(p, s)
    && ModelAttested(p, s)
  }

  lemma LiveExact(p: Pool, profile: string, s: Subject)
    requires UniqueIds(p)
    ensures About(DeriveLive(p, profile), s) <==> LiveAttested(p, profile, s)
  {
    LaunchExact(profile);
    LiveByGate(p, profile, s);
  }

  lemma LiveByGate(p: Pool, profile: string, s: Subject)
    requires UniqueIds(p)
    ensures About(DeriveLive(p, profile), s) <==>
              && profile in PROFILES && s.Keys == (set k | k in LiveKeys(profile))
              && AllAttested(p, Wants(LiveKinds(profile), Some(profile), None), s)
              && BuildAttested(p, s) && ModelAttested(p, s)
  {
    if profile in PROFILES && s.Keys == (set k | k in LiveKeys(profile)) {
      ChainExact(p, Wants(LiveKinds(profile), Some(profile), None), LiveKeys(profile), s);
      ModelExact(p, s);
      BuildPartExact(p, profile, s);
    } else if profile in PROFILES {
      ChainExact(p, Wants(LiveKinds(profile), Some(profile), None), LiveKeys(profile), s);
    }
  }

  lemma BuildPartExact(p: Pool, profile: string, s: Subject)
    requires UniqueIds(p) && s.Keys == (set k | k in LiveKeys(profile))
    ensures DeriveClean(p).Ok? && Agrees(s, DeriveClean(p).value.subject) <==> BuildAttested(p, s)
  {
    var build := Part(s, BUILD_KEYS);
    LiveKeysInclude(profile);
    assert build.Keys == (set k | k in BUILD_KEYS);
    CleanExact(p, build);
    assert Part(build, BUILD_KEYS) == build;
    assert Part(build, SOURCE_KEYS) == Part(s, SOURCE_KEYS) by { assert "source_release_id" in BUILD_KEYS; }
    if DeriveClean(p).Ok? && Agrees(s, DeriveClean(p).value.subject) {
      CleanSubject(p);
      SameOnOneKey(DeriveClean(p).value.subject, build, s);
    }
  }

  lemma CleanSubject(p: Pool)
    requires DeriveClean(p).Ok?
    ensures DeriveClean(p).value.subject.Keys == (set k | k in BUILD_KEYS)
  {
  }

  lemma LiveKeysInclude(profile: string)
    ensures forall k :: k in BUILD_KEYS ==> k in LiveKeys(profile)
  {
    assert forall k :: k in BUILD_KEYS ==> k in LIVE_KEYS by {
      assert LIVE_KEYS[..5] == BUILD_KEYS;
    }
  }

  // ------------------------------------------------------------ batteries

  ghost predicate IsAttempt(p: Pool, profile: string, x: Receipt) { x in p && Fits(x, Want("battery", Some(profile), None)) }

  ghost function ValidAttempts(p: Pool, profile: string): set<Receipt> {
    set x | x in p && Fits(x, Want("battery", Some(profile), None)) && Says(x, "valid", Flag(true))
  }

  /** A battery about `s`: attempts numbered apart from one to five, all about `s`, exactly three of
      them valid, and those three past both thresholds. */
  ghost predicate BatteryAttested(p: Pool, profile: string, s: Subject) {
    && AttemptsAgree(p, profile, s) && NumberedApart(p, profile)
    && |ValidAttempts(p, profile)| == 3 && ValidPastThresholds(p, profile)
  }

  ghost predicate AttemptsAgree(p: Pool, profile: string, s: Subject) {
    forall x :: IsAttempt(p, profile, x) ==> Agrees(x.subject, s)
  }

  ghost predicate NumberedApart(p: Pool, profile: string) {
    && (forall x :: IsAttempt(p, profile, x) ==> NumberFits(x))
    && (forall x, y :: IsAttempt(p, profile, x) && IsAttempt(p, profile, y) && x != y ==> NumberIn(x) != NumberIn(y))
  }

  ghost predicate ValidPastThresholds(p: Pool, profile: string) {
    forall x :: x in ValidAttempts(p, profile) ==> PastThresholds(x)
  }

  predicate PastThresholds(x: Receipt) {
    x.pass && Says(x, "thresholds_passed", Flag(true)) && Says(x, "median_threshold_passed", Flag(true))
  }

  lemma ThresholdsExact(x: Receipt)
    ensures PastThresholds(x) <==> PassedThresholds(x)
  {
  }

  /** The attempt number a receipt carries; true and false count as one and zero. */
  function NumberIn(x: Receipt): Option<int> {
    if "attempt" !in x.metadata then None
    else if x.metadata["attempt"].Number? then Some(x.metadata["attempt"].number)
    else if x.metadata["attempt"] == Flag(true) then Some(1)
    else if x.metadata["attempt"] == Flag(false) then Some(0)
    else None
  }

  predicate NumberFits(x: Receipt) { NumberIn(x).Some? && 1 <= NumberIn(x).value <= 5 }

  ghost function NumbersOf(s: Pool): set<int> {
    if s == [] then {} else (if AttemptNumber(s[0]).Some? then {AttemptNumber(s[0]).value} else {}) + NumbersOf(s[1..])
  }

  lemma {:induction false} NumbersOfMember(s: Pool, n: int)
    ensures n in NumbersOf(s) <==> exists i :: 0 <= i < |s| && AttemptNumber(s[i]) == Some(n)
  {
    if s != [] {
      NumbersOfMember(s[1..], n);
      assert forall i :: 0 < i < |s| ==> s[i] == s[1..][i - 1];
      if exists i :: 0 <= i < |s| && AttemptNumber(s[i]) == Some(n) {
        var i :| 0 <= i < |s| && AttemptNumber(s[i]) == Some(n);
        assert i > 0 ==> AttemptNumber(s[1..][i - 1]) == Some(n);
      }
    }
  }

  /** Numbers that differ make as many numbers as attempts, so five numbers mean at most five attempts:
      the gate's own limit adds nothing. */
  lemma {:induction false} AsManyNumbers(s: Pool)
    requires GoodAttempts(s)
    ensures |NumbersOf(s)| == |s| && NumbersOf(s) <= {1, 2, 3, 4, 5}
  {
    if s != [] {
      AsManyNumbers(s[1..]);
      NumbersOfMember(s[1..], AttemptNumber(s[0]).value);
    }
  }

  lemma AtMostFive(s: Pool)
    requires GoodAttempts(s)
    ensures |s| <= 5
  {
    AsManyNumbers(s);
    SubsetSize(NumbersOf(s), {1, 2, 3, 4, 5});
  }

  lemma {:induction false} UniqueSize(s: Pool)
    requires UniqueIds(s)
    ensures |Elements(s)| == |s|
  {
    if s != [] {
      UniqueSize(s[1..]);
      ElementsCons(s[0], s[1..]);
      assert s == [s[0]] + s[1..];
      assert s[0] !in s[1..];
    }
  }

  lemma {:induction false} ValidSize(p: Pool, profile: string)
    requires UniqueIds(p)
    ensures |ValidOnes(Select(p, Want("battery", Some(profile), None)))| == |ValidAttempts(p, profile)|
    ensures forall x :: x in ValidOnes(Select(p, Want("battery", Some(profile), None))) <==> x in ValidAttempts(p, profile)
  {
    var w := Want("battery", Some(profile), None);
    var valid := ValidOnes(Select(p, w));
    SelectUnique(p, w);
    ValidUnique(Select(p, w));
    UniqueSize(valid);
    forall x ensures x in valid <==> x in ValidAttempts(p, profile) {
      SelectMember(p, w, x);
      ValidMember(Select(p, w), x);
    }
    assert Elements(valid) == ValidAttempts(p, profile);
  }

  lemma {:induction false} GoodExact(p: Pool, profile: string)
    requires UniqueIds(p)
    ensures GoodAttempts(Select(p, Want("battery", Some(profile), None))) <==> NumberedApart(p, profile)
  {
    var attempts := Select(p, Want("battery", Some(profile), None));
    SelectUnique(p, Want("battery", Some(profile), None));
    forall x ensures x in attempts <==> IsAttempt(p, profile, x) {
      SelectMember(p, Want("battery", Some(profile), None), x);
    }
    GoodByMembers(attempts);
  }

  lemma NumberExact(x: Receipt)
    ensures NumberIn(x) == AttemptNumber(x)
  {
  }

  /** Good attempts by what they are, not where they stand. */
  lemma GoodByMembers(s: Pool)
    requires UniqueIds(s)
    ensures GoodAttempts(s) <==>
              && (forall x :: x in s ==> NumberFits(x))
              && (forall x, y :: x in s && y in s && x != y ==> NumberIn(x) != NumberIn(y))
  {
    forall x ensures NumberIn(x) == AttemptNumber(x) {
      NumberExact(x);
    }
    if GoodAttempts(s) {
      GoodAreApart(s);
    } else if forall x :: x in s ==> NumberFits(x) {
      assert forall i :: 0 <= i < |s| ==> s[i] in s;
    }
  }

  lemma GoodAreApart(s: Pool)
    requires GoodAttempts(s)
    ensures forall x, y :: x in s && y in s && x != y ==> AttemptNumber(x) != AttemptNumber(y)
  {
    forall x, y | x in s && y in s && x != y
      ensures AttemptNumber(x) != AttemptNumber(y)
    {
      var i :| 0 <= i < |s| && s[i] == x;
      var j :| 0 <= j < |s| && s[j] == y;
      assert i < j || j < i;
    }
  }

  /** A benchmark derives about `s` exactly when the live launch does and the pool holds such a
      battery. */
  lemma BenchmarkExact(p: Pool, profile: string, s: Subject)
    requires UniqueIds(p)
    ensures About(DeriveBenchmark(p, profile), s) <==> LiveAttested(p, profile, s) && BatteryAttested(p, profile, s)
  {
    LiveExact(p, profile, s);
    if About(DeriveLive(p, profile), s) {
      BatteryExact(p, profile, s);
    }
  }

  lemma {:induction false} BatteryExact(p: Pool, profile: string, s: Subject)
    requires UniqueIds(p)
    ensures BatteryAccepted(Select(p, Want("battery", Some(profile), None)), s) <==> BatteryAttested(p, profile, s)
  {
    var attempts := Select(p, Want("battery", Some(profile), None));
    AgreementExact(p, profile, s);
    GoodExact(p, profile);
    ValidSize(p, profile);
    ValidPastExact(p, profile);
    if GoodAttempts(attempts) {
      AtMostFive(attempts);
    }
  }

  lemma {:induction false} AgreementExact(p: Pool, profile: string, s: Subject)
    ensures AllAgree(Select(p, Want("battery", Some(profile), None)), s) <==> AttemptsAgree(p, profile, s)
  {
    var w := Want("battery", Some(profile), None);
    forall x ensures x in Select(p, w) <==> IsAttempt(p, profile, x) {
      SelectMember(p, w, x);
      FitsExact(x, w);
    }
  }

  lemma {:induction false} ValidPastExact(p: Pool, profile: string)
    requires UniqueIds(p)
    ensures AllPassed(ValidOnes(Select(p, Want("battery", Some(profile), None)))) <==> ValidPastThresholds(p, profile)
  {
    ValidSize(p, profile);
    forall x ensures PastThresholds(x) <==> PassedThresholds(x) {
      ThresholdsExact(x);
    }
  }

  // ------------------------------------------------------------ publication

  /** A registry licence that clears the image and the publication of its very digest. */
  predicate IsPublication(p: Pool, a: Receipt, b: Receipt, s: Subject) {
    && Sole(p, Want("registry-license", None, None), a) && Sole(p, Want("registry-publish", None, None), b)
    && Agrees(a.subject, s) && Agrees(b.subject, s)
    && Says(a, "registry_license_cleared", Flag(true))
    && "image_digest" in s
    && Says(a, "registry_digest", Text(s["image_digest"])) && Says(b, "registry_digest", Text(s["image_digest"]))
  }

  ghost predicate PublicationAttested(p: Pool, s: Subject) { exists a, b :: IsPublication(p, a, b, s) }

  lemma PublishedSound(p: Pool, s: Subject)
    requires UniqueIds(p) && About(DerivePublished(p), s)
    ensures PublicationAttested(p, s) && About(DeriveClean(p), s)
  {
    var ws := Wants(["registry-license", "registry-publish"], None, None);
    assert ws[0] == Want("registry-license", None, None) && ws[1] == Want("registry-publish", None, None);
    EachExact(p, ws);
    var items := EachOnePass(p, ws).value;
    OnePassExact(p, ws[0], items[0]);
    OnePassExact(p, ws[1], items[1]);
    assert IsPublication(p, items[0], items[1], s);
  }

  lemma PublishedComplete(p: Pool, s: Subject)
    requires UniqueIds(p) && About(DeriveClean(p), s) && PublicationAttested(p, s)
    ensures About(DerivePublished(p), s)
  {
    var a, b :| IsPublication(p, a, b, s);
    BothFound(p, a, b);
    CleanSubject(p);
    PairSubject(a, b, s);
  }

  lemma {:induction false} BothFound(p: Pool, a: Receipt, b: Receipt)
    requires UniqueIds(p)
    requires Sole(p, Want("registry-license", None, None), a) && Sole(p, Want("registry-publish", None, None), b)
    ensures EachOnePass(p, Wants(["registry-license", "registry-publish"], None, None)) == Ok([a, b])
  {
    var ws := Wants(["registry-license", "registry-publish"], None, None);
    assert ws[0] == Want("registry-license", None, None) && ws[1] == Want("registry-publish", None, None);
    OnePassExact(p, ws[0], a);
    OnePassExact(p, ws[1], b);
    EachExact(p, ws);
    var items := EachOnePass(p, ws).value;
    assert items == [items[0], items[1]];
  }

  /** An image is published exactly when its clean build is attested and so is its publication. */
  lemma PublishedExact(p: Pool, s: Subject)
    requires UniqueIds(p)
    ensures About(DerivePublished(p), s) <==>
              s.Keys == (set k | k in BUILD_KEYS) && BuildAttested(p, s) && PublicationAttested(p, s)
  {
    CleanExact(p, s);
    if About(DerivePublished(p), s) {
      PublishedSound(p, s);
    }
    if About(DeriveClean(p), s) && PublicationAttested(p, s) {
      PublishedComplete(p, s);
    }
  }

  lemma PairSubject(a: Receipt, b: Receipt, s: Subject)
    requires s.Keys == (set k | k in BUILD_KEYS) && Agrees(a.subject, s) && Agrees(b.subject, s)
    ensures CommonSubject([a, b], BUILD_KEYS) == Ok(s)
  {
    assert forall k :: k in BUILD_KEYS ==> k in s;
    assert Restrict(a.subject, BUILD_KEYS) == s;
  }

  /** Reading back needs one more passing receipt about the same build. */
  lemma ReadbackExact(p: Pool, s: Subject)
    requires UniqueIds(p)
    ensures About(DeriveReadback(p), s) <==>
              About(DerivePublished(p), s) && Attested(p, Want("registry-readback", None, None), s)
  {
    var ws := Wants(["registry-readback"], None, None);
    assert ws == [Want("registry-readback", None, None)];
    PublishedExact(p, s);
    ChainExact(p, ws, BUILD_KEYS, s);
    assert AllAttested(p, ws, s) <==> Attested(p, ws[0], s);
  }

  /** The anonymous chain about a build, and a fast live launch of that build. */
  lemma AnonymousExact(p: Pool, s: Subject)
    requires UniqueIds(p)
    ensures About(DeriveAnonymous(p), s) <==>
              && s.Keys == (set k | k in BUILD_KEYS)
              && AllAttested(p, Wants(ANONYMOUS_TYPES, None, None), s)
              && exists live :: LiveAttested(p, "fast-320k", live) && Agrees(live, s)
  {
    ChainExact(p, Wants(ANONYMOUS_TYPES, None, None), BUILD_KEYS, s);
    if About(DeriveAnonymous(p), s) {
      LiveExact(p, "fast-320k", DeriveLive(p, "fast-320k").value.subject);
    }
    if live :| LiveAttested(p, "fast-320k", live) && Agrees(live, s) {
      LiveExact(p, "fast-320k", live);
    }
  }

  // ------------------------------------------------------------ bit reproducibility

  /** The build-produced receipts name exactly these two images. */
  ghost predicate TwoBuilds(p: Pool, d: (string, string)) { IsDigestPair(Digests(p, "build-produced"), d) }

  /** The comparison receipt: outputs equal after normalisation, about the same build identities. */
  ghost predicate ComparisonAttested(p: Pool, s: Subject) {
    exists r :: Sole(p, Want("build-comparison", None, None), r) && Agrees(r.subject, s)
                && Says(r, "normalized_outputs_equal", Flag(true))
  }

  /** One full chain of build receipts about the image of digest `d`. */
  ghost predicate ChainOf(p: Pool, d: string, s: Subject) {
    AllAttested(p, Wants(BUILD_TYPES, None, Some(d)), s["image_digest" := d])
  }

  ghost predicate ReproducibleAttested(p: Pool, s: Subject) {
    && s.Keys == (set k | k in STABLE_KEYS)
    && SourceAttested(p, s)
    && ComparisonAttested(p, s)
    && exists d :: TwoBuilds(p, d) && ChainOf(p, d.0, s) && ChainOf(p, d.1, s)
  }

  /** A chain selected by digest is about that digest. */
  lemma ChainDigest(p: Pool, d: string)
    requires UniqueIds(p) && DeriveChain(p, Wants(BUILD_TYPES, None, Some(d)), BUILD_KEYS).Ok?
    ensures var t := DeriveChain(p, Wants(BUILD_TYPES, None, Some(d)), BUILD_KEYS).value.subject;
            t.Keys == (set k | k in BUILD_KEYS) && t["image_digest"] == d
            && t == Part(t, STABLE_KEYS)["image_digest" := d]
  {
    var ws := Wants(BUILD_TYPES, None, Some(d));
    var t := DeriveChain(p, ws, BUILD_KEYS).value.subject;
    ChainExact(p, ws, BUILD_KEYS, t);
    assert Attested(p, ws[0], t);
    assert BUILD_KEYS == STABLE_KEYS + ["image_digest"];
    assert "image_digest" in BUILD_KEYS;
  }

  lemma ChainOfExact(p: Pool, d: string, s: Subject)
    requires UniqueIds(p) && s.Keys == (set k | k in STABLE_KEYS)
    ensures ChainOf(p, d, s) <==> About(DeriveChain(p, Wants(BUILD_TYPES, None, Some(d)), BUILD_KEYS), s["image_digest" := d])
  {
    assert BUILD_KEYS == STABLE_KEYS + ["image_digest"];
    ChainExact(p, Wants(BUILD_TYPES, None, Some(d)), BUILD_KEYS, s["image_digest" := d]);
  }

  lemma ReproducibleSound(p: Pool, s: Subject)
    requires UniqueIds(p) && About(DeriveBitReproducible(p), s)
    ensures ReproducibleAttested(p, s)
  {
    var d := DigestPair(Digests(p, "build-produced")).value;
    var comparison := OnePass(p, Want("build-comparison", None, None)).value;
    OnePassExact(p, Want("build-comparison", None, None), comparison);
    var a := DeriveChain(p, Wants(BUILD_TYPES, None, Some(d.0)), BUILD_KEYS).value.subject;
    var b := DeriveChain(p, Wants(BUILD_TYPES, None, Some(d.1)), BUILD_KEYS).value.subject;
    ChainDigest(p, d.0);
    ChainDigest(p, d.1);
    assert s == Restrict(a, STABLE_KEYS);
    StableParts(a, s);
    StableParts(b, s);
    ChainOfExact(p, d.0, s);
    ChainOfExact(p, d.1, s);
    SourcePart(p, a, s);
  }

  lemma StableParts(t: Subject, s: Subject)
    requires t.Keys == (set k | k in BUILD_KEYS) && s.Keys == (set k | k in STABLE_KEYS) && Agrees(t, s)
    ensures Part(t, STABLE_KEYS) == s
  {
    assert BUILD_KEYS == STABLE_KEYS + ["image_digest"];
  }

  lemma SourcePart(p: Pool, t: Subject, s: Subject)
    requires UniqueIds(p) && DeriveSource(p).Ok? && Agrees(t, DeriveSource(p).value.subject) && Agrees(t, s)
    requires s.Keys == (set k | k in STABLE_KEYS)
    ensures SourceAttested(p, s)
  {
    var source := DeriveSource(p).value.subject;
    ChainExact(p, Wants(SOURCE_TYPES, None, None), SOURCE_KEYS, source);
    assert "source_release_id" in STABLE_KEYS;
    assert Part(s, SOURCE_KEYS) == source;
  }

  lemma ReproducibleComplete(p: Pool, s: Subject)
    requires UniqueIds(p) && ReproducibleAttested(p, s)
    ensures About(DeriveBitReproducible(p), s)
  {
    var d :| TwoBuilds(p, d) && ChainOf(p, d.0, s) && ChainOf(p, d.1, s);
    var found := DigestPair(Digests(p, "build-produced"));
    DigestPairUnique(Digests(p, "build-produced"), d, found.value);
    var r :| Sole(p, Want("build-comparison", None, None), r) && Agrees(r.subject, s)
             && Says(r, "normalized_outputs_equal", Flag(true));
    OnePassExact(p, Want("build-comparison", None, None), r);
    ChainOfExact(p, d.0, s);
    ChainOfExact(p, d.1, s);
    SourceDerives(p, s);
    PartsFound(p, d, r, s);
  }

  lemma SourceDerives(p: Pool, s: Subject)
    requires UniqueIds(p) && s.Keys == (set k | k in STABLE_KEYS) && SourceAttested(p, s)
    ensures About(DeriveSource(p), Part(s, SOURCE_KEYS))
  {
    assert "source_release_id" in STABLE_KEYS;
    ChainExact(p, Wants(SOURCE_TYPES, None, None), SOURCE_KEYS, Part(s, SOURCE_KEYS));
  }

  lemma PartsFound(p: Pool, d: (string, string), r: Receipt, s: Subject)
    requires s.Keys == (set k | k in STABLE_KEYS)
    requires OnePass(p, Want("build-comparison", None, None)) == Ok(r) && Agrees(r.subject, s)
    requires Says(r, "normalized_outputs_equal", Flag(true))
    requires DigestPair(Digests(p, "build-produced")) == Some(d)
    requires About(DeriveSource(p), Part(s, SOURCE_KEYS))
    requires About(DeriveChain(p, Wants(BUILD_TYPES, None, Some(d.0)), BUILD_KEYS), s["image_digest" := d.0])
    requires About(DeriveChain(p, Wants(BUILD_TYPES, None, Some(d.1)), BUILD_KEYS), s["image_digest" := d.1])
    ensures About(DeriveBitReproducible(p), s)
  {
    DigestOnly(s, d.0);
    DigestOnly(s, d.1);
  }

  /** The digest is not among the stable identities. */
  lemma DigestOnly(s: Subject, d: string)
    requires s.Keys == (set k | k in STABLE_KEYS)
    ensures var t := s["image_digest" := d];
            && Agrees(t, s) && Agrees(t, Part(s, SOURCE_KEYS))
            && (forall k :: k in STABLE_KEYS ==> k in t)
            && Restrict(t, STABLE_KEYS) == s
  {
    assert "image_digest" !in STABLE_KEYS;
  }

  /** Bit reproducibility derives exactly from two full chains of build receipts about two images, one
      source, and a comparison that found the normalised outputs equal. */
  lemma ReproducibleExact(p: Pool, s: Subject)
    requires UniqueIds(p)
    ensures About(DeriveBitReproducible(p), s) <==> ReproducibleAttested(p, s)
  {
    if About(DeriveBitReproducible(p), s) {
      ReproducibleSound(p, s);
    }
    if ReproducibleAttested(p, s) {
      ReproducibleComplete(p, s);
    }
  }
}
