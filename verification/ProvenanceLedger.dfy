/**
 The provenance ledger: one classified record per distributed path, carried forward by staged
 additions, edits, renames and deletions, and checked against the index.
 */
module ProvenanceLedger {
  import opened Wrappers
  import opened SortedLists
  import opened StagedChanges

  datatype Class =
    | ProjectApache | ExistingMit | ContributedMit | UpstreamUnmodified | UpstreamDerivative
    | GeneratedEvidence | LicenseApache | LicenseMit | LicenseBsd | OtherClass(name: string)

  /** Where a file came from: repository, commit, path there and hash of the base. */
  datatype Origin = Origin(repository: Option<string>, commit: Option<string>, path: Path, base: Option<string>)

  datatype Record = Record(path: Path, classification: Class, copyright: string, license: string, origin: Origin,
                           target: Option<string>, modifiedBy: string)

  type Ledger = map<Path, Record>

  /** The staged tree: the hash of every tracked path, and what git knows of a path's origin. */
  datatype Repo = Repo(index: map<Path, string>, originOf: (Path, Class) -> Origin)

  /** `Refused` is a provenance error; `KeyError` a class with no text to look up. */
  datatype Outcome = Updated(records: Ledger) | Refused | KeyError

  const EXEMPT: set<Path> := {"compliance/provenance.json", "compliance/source-provenance.json"}
  const PRESEEDED: set<Class> := {ContributedMit, UpstreamUnmodified, UpstreamDerivative}
  const MODIFIER := "dfi / 0xdfi"
  const OWNER := "Copyright 2026 dfi / 0xdfi"

  // ------------------------------------------------------------ classification

  type Mapping = map<Path, Class>

  /** Whether the first `i` letters of a path are the path itself or a directory above it. */
  predicate AtBoundary(path: Path, i: nat)
    requires i <= |path|
  {
    i == |path| || path[i] == '/'
  }

  /** The class of the longest declared prefix among the first `i` letters. */
  function Longest(path: Path, mapping: Mapping, i: nat): Option<Class>
    requires i <= |path|
  {
    if AtBoundary(path, i) && path[..i] in mapping then Some(mapping[path[..i]])
    else if i == 0 then None
    else Longest(path, mapping, i - 1)
  }

  function ClassificationFor(path: Path, mapping: Mapping): Option<Class> { Longest(path, mapping, |path|) }

  /** A declared prefix applies to a path. */
  predicate Applies(prefix: Path, path: Path) { path == prefix || prefix + "/" <= path }

  lemma AppliesAtBoundary(prefix: Path, path: Path)
    ensures Applies(prefix, path) <==> |prefix| <= |path| && prefix == path[..|prefix|] && AtBoundary(path, |prefix|)
  {
    if |prefix| < |path| {
      assert prefix + "/" <= path <==> path[..|prefix| + 1] == prefix + "/";
      assert path[..|prefix| + 1] == path[..|prefix|] + [path[|prefix|]];
    } else if |prefix| == |path| {
      assert path[..|path|] == path;
    }
  }

  lemma {:induction false} LongestIsLast(path: Path, mapping: Mapping, i: nat, c: Class)
    requires i <= |path|
    ensures Longest(path, mapping, i) == Some(c) <==>
              exists j :: 0 <= j <= i && AtBoundary(path, j) && path[..j] in mapping && mapping[path[..j]] == c
                 && forall k :: j < k <= i ==> !(AtBoundary(path, k) && path[..k] in mapping)
  {
    if !(AtBoundary(path, i) && path[..i] in mapping) && i > 0 {
      LongestIsLast(path, mapping, i - 1, c);
    }
  }

  /** A path gets class `c` exactly when some declared prefix of it has that class and every other
      declared prefix of it is shorter. */
  lemma LongestPrefixWins(path: Path, mapping: Mapping, c: Class)
    ensures ClassificationFor(path, mapping) == Some(c) <==>
              exists prefix :: prefix in mapping && Applies(prefix, path) && mapping[prefix] == c
                 && forall other :: other in mapping && Applies(other, path) && other != prefix ==> |other| < |prefix|
  {
    LongestIsLast(path, mapping, |path|, c);
    if ClassificationFor(path, mapping) == Some(c) {
      var j :| 0 <= j <= |path| && AtBoundary(path, j) && path[..j] in mapping && mapping[path[..j]] == c
               && forall k :: j < k <= |path| ==> !(AtBoundary(path, k) && path[..k] in mapping);
      AppliesAtBoundary(path[..j], path);
      forall other | other in mapping && Applies(other, path) && other != path[..j] ensures |other| < j {
        AppliesAtBoundary(other, path);
      }
    }
    if prefix :| prefix in mapping && Applies(prefix, path) && mapping[prefix] == c
                 && forall other :: other in mapping && Applies(other, path) && other != prefix ==> |other| < |prefix| {
      AppliesAtBoundary(prefix, path);
      var j := |prefix|;
      forall k | j < k <= |path| ensures !(AtBoundary(path, k) && path[..k] in mapping) {
        AppliesAtBoundary(path[..k], path);
      }
    }
  }

  // ------------------------------------------------------------ one change

  predicate IsExempt(p: Option<Path>) { p.Some? && p.value in EXEMPT }

  predicate Skipped(c: Change) { IsExempt(c.oldPath) || IsExempt(c.newPath) }

  predicate Removes(c: Change, p: Path) { !Skipped(c) && c.code in {'D', 'R'} && c.oldPath == Some(p) }

  predicate Adds(c: Change, p: Path) { !Skipped(c) && c.newPath == Some(p) }

  function License(c: Class): string {
    match c
    case ExistingMit => "MIT"
    case LicenseMit => "MIT"
    case LicenseBsd => "BSD-3-Clause"
    case _ => "Apache-2.0"
  }

  function Copyright(c: Class): string {
    match c
    case ExistingMit => "Copyright (c) 2026"
    case LicenseMit => "Copyright (c) 2026"
    case _ => OWNER
  }

  function Blank(repo: Repo, path: Path, c: Class): Record {
    Record(path, c, Copyright(c), License(c), repo.originOf(path, c), Some(""), MODIFIER)
  }

  /** Why no record can be made for a path of this class, if there is a reason. */
  function NewRecordFails(repo: Repo, path: Path, c: Class): Option<Outcome> {
    if c in PRESEEDED then Some(Refused)
    else if c == LicenseMit && path == "LICENSES/MIT.txt" then None
    else if c in {LicenseApache, LicenseMit, LicenseBsd} && path !in repo.index then Some(Refused)
    else if c == LicenseMit || c.OtherClass? then Some(KeyError)
    else None
  }

  /** The record a change starts from, if there is one. */
  function StartsFrom(records: Ledger, c: Change): Option<Record> {
    if c.code == 'R' then (if c.oldPath.Some? then Lookup(records, c.oldPath.value) else None)
    else if c.newPath.None? then None
    else if Removes(c, c.newPath.value) then None
    else Lookup(records, c.newPath.value)
  }

  /** Records a path: its hash is taken from the index, an unmodified upstream file may not change. */
  function Place(repo: Repo, records: Ledger, record: Record, path: Path, declared: Class): Outcome {
    if path !in repo.index then Refused
    else if declared == UpstreamUnmodified && record.target.Some? && record.target.value != repo.index[path] then Refused
    else
      var r := record.(path := path, target := Some(repo.index[path]));
      Updated(records[path := if declared in SIGNED then r.(modifiedBy := MODIFIER) else r])
  }

  function ApplyNew(repo: Repo, mapping: Mapping, records: Ledger, prior: Option<Record>, path: Path): Outcome {
    var declared := ClassificationFor(path, mapping);
    if declared.None? then Refused
    else if prior.None? then
      var failure := NewRecordFails(repo, path, declared.value);
      if failure.Some? then failure.value
      else Place(repo, records, Blank(repo, path, declared.value), path, declared.value)
    else if prior.value.classification != declared.value then Refused
    else Place(repo, records, prior.value, path, declared.value)
  }

  function Lookup(records: Ledger, p: Path): Option<Record> {
    if p in records then Some(records[p]) else None
  }

  function Apply(repo: Repo, mapping: Mapping, records: Ledger, c: Change): Outcome {
    if Skipped(c) then Updated(records)
    else if c.code in {'D', 'R'} && c.oldPath.Some? then
      if c.oldPath.value !in records then Refused
      else
        var left := records - {c.oldPath.value};
        if c.newPath.None? then Updated(left)
        else
          var prior := if c.code == 'R' then Some(records[c.oldPath.value]) else Lookup(left, c.newPath.value);
          ApplyNew(repo, mapping, left, prior, c.newPath.value)
    else if c.newPath.None? then Updated(records)
    else ApplyNew(repo, mapping, records, if c.code == 'R' then None else Lookup(records, c.newPath.value), c.newPath.value)
  }

  function ApplyAll(repo: Repo, mapping: Mapping, records: Ledger, changes: seq<Change>): Outcome
    decreases |changes|
  {
    if changes == [] then Updated(records)
    else
      var o := Apply(repo, mapping, records, changes[0]);
      if o.Updated? then ApplyAll(repo, mapping, o.records, changes[1..]) else o
  }

  // ------------------------------------------------------------ which changes are accepted

  /** A class of which a record can be made without a pre-seeded one. Licence texts other than MIT are read
      from the index, the MIT text is known under one path only, and other names have no policy. */
  predicate MayBeMade(repo: Repo, path: Path, c: Class) {
    match c
    case ProjectApache => true
    case ExistingMit => true
    case GeneratedEvidence => true
    case LicenseApache => path in repo.index
    case LicenseBsd => path in repo.index
    case LicenseMit => path == "LICENSES/MIT.txt"
    case _ => false
  }

  /** What is required to record a path, given the record it starts from. */
  predicate CanBring(repo: Repo, mapping: Mapping, start: Option<Record>, path: Path) {
    var declared := ClassificationFor(path, mapping);
    && path in repo.index && declared.Some?
    && match start
       case None => MayBeMade(repo, path, declared.value)
       case Some(r) =>
         && r.classification == declared.value
         && (declared.value == UpstreamUnmodified ==> r.target.None? || r.target.value == repo.index[path])
  }

  /** What is required of one change. */
  predicate CanApply(repo: Repo, mapping: Mapping, records: Ledger, c: Change) {
    Skipped(c) ||
    (&& (c.code in {'D', 'R'} && c.oldPath.Some? ==> c.oldPath.value in records)
     && (c.newPath.Some? ==> CanBring(repo, mapping, StartsFrom(records, c), c.newPath.value)))
  }

  /** The record of a path after a change that brings it: carried on, or made new with the licence and the
      notice of its class. */
  predicate IsPlaced(repo: Repo, start: Option<Record>, path: Path, declared: Class, r: Record) {
    && r.path == path && r.classification == declared && path in repo.index && r.target == Some(repo.index[path])
    && match start
       case Some(s) =>
         && r.license == s.license && r.copyright == s.copyright && r.origin == s.origin
         && r.modifiedBy == (if declared in {ProjectApache, ExistingMit, UpstreamDerivative} then MODIFIER else s.modifiedBy)
       case None =>
         && r.origin == repo.originOf(path, declared) && r.modifiedBy == MODIFIER
         && (match declared
             case ExistingMit => r.license == "MIT" && r.copyright == "Copyright (c) 2026"
             case LicenseMit => r.license == "MIT" && r.copyright == "Copyright (c) 2026"
             case LicenseBsd => r.license == "BSD-3-Clause" && r.copyright == "Copyright 2026 dfi / 0xdfi"
             case _ => r.license == "Apache-2.0" && r.copyright == "Copyright 2026 dfi / 0xdfi")
  }

  /** One change is accepted exactly when it can be applied; otherwise it is refused, or fails for want of a
      policy exactly when a record would have to be made of a class without one. */
  lemma ApplyExact(repo: Repo, mapping: Mapping, records: Ledger, c: Change)
    ensures Apply(repo, mapping, records, c).Updated? <==> CanApply(repo, mapping, records, c)
    ensures Apply(repo, mapping, records, c).KeyError? <==>
              && !Skipped(c) && (c.code in {'D', 'R'} && c.oldPath.Some? ==> c.oldPath.value in records)
              && c.newPath.Some? && StartsFrom(records, c).None?
              && var declared := ClassificationFor(c.newPath.value, mapping);
                 && declared.Some?
                 && (declared.value.OtherClass?
                     || (declared.value == LicenseMit && c.newPath.value != "LICENSES/MIT.txt" && c.newPath.value in repo.index))
  {
  }

  /** And then it does just this: the removed path is gone, the brought path has its record, every other
      record is as it was. */
  lemma ApplyResult(repo: Repo, mapping: Mapping, records: Ledger, c: Change)
    requires Apply(repo, mapping, records, c).Updated?
    ensures var after := Apply(repo, mapping, records, c).records;
            && (forall p :: p in after <==> Adds(c, p) || (p in records && !Removes(c, p)))
            && (forall p :: p in after && !Adds(c, p) ==> after[p] == records[p])
            && (forall p :: Adds(c, p) ==>
                  && ClassificationFor(p, mapping).Some?
                  && IsPlaced(repo, StartsFrom(records, c), p, ClassificationFor(p, mapping).value, after[p]))
  {
    var after := Apply(repo, mapping, records, c).records;
    forall p
      ensures p in after <==> Adds(c, p) || (p in records && !Removes(c, p))
      ensures p in after && !Adds(c, p) ==> after[p] == records[p]
      ensures Adds(c, p) ==> ClassificationFor(p, mapping).Some?
      ensures Adds(c, p) ==> IsPlaced(repo, StartsFrom(records, c), p, ClassificationFor(p, mapping).value, after[p])
    {
      ApplyKeys(repo, mapping, records, c, p);
      if Adds(c, p) {
        ApplyPlaces(repo, mapping, records, c, p);
      } else if p in after {
        ApplyLineage(repo, mapping, records, c, p);
      }
    }
  }

  lemma NewIsPlaced(repo: Repo, records: Ledger, path: Path, declared: Class)
    requires NewRecordFails(repo, path, declared).None?
    requires Place(repo, records, Blank(repo, path, declared), path, declared).Updated?
    ensures var after := Place(repo, records, Blank(repo, path, declared), path, declared).records;
            path in after && IsPlaced(repo, None, path, declared, after[path])
  {
  }

  lemma CarriedIsPlaced(repo: Repo, records: Ledger, record: Record, path: Path)
    requires Place(repo, records, record, path, record.classification).Updated?
    ensures var after := Place(repo, records, record, path, record.classification).records;
            path in after && IsPlaced(repo, Some(record), path, record.classification, after[path])
  {
  }

  lemma BroughtIsPlaced(repo: Repo, mapping: Mapping, records: Ledger, prior: Option<Record>, path: Path)
    requires ApplyNew(repo, mapping, records, prior, path).Updated?
    ensures ClassificationFor(path, mapping).Some? && path in ApplyNew(repo, mapping, records, prior, path).records
    ensures IsPlaced(repo, prior, path, ClassificationFor(path, mapping).value, ApplyNew(repo, mapping, records, prior, path).records[path])
  {
    if prior.None? {
      NewIsPlaced(repo, records, path, ClassificationFor(path, mapping).value);
    } else {
      CarriedIsPlaced(repo, records, prior.value, path);
    }
  }

  lemma ApplyPlaces(repo: Repo, mapping: Mapping, records: Ledger, c: Change, p: Path)
    requires Apply(repo, mapping, records, c).Updated? && Adds(c, p)
    ensures p in Apply(repo, mapping, records, c).records && ClassificationFor(p, mapping).Some?
    ensures IsPlaced(repo, StartsFrom(records, c), p, ClassificationFor(p, mapping).value, Apply(repo, mapping, records, c).records[p])
  {
    var left := if c.code in {'D', 'R'} && c.oldPath.Some? then records - {c.oldPath.value} else records;
    BroughtIsPlaced(repo, mapping, left, StartsFrom(records, c), p);
  }

  /** What `changes[..i]` leave for the next change. */
  function Reached(repo: Repo, mapping: Mapping, records: Ledger, changes: seq<Change>, i: nat): Outcome
    requires i <= |changes|
  {
    ApplyAll(repo, mapping, records, changes[..i])
  }

  lemma {:induction false} ApplyAllAppend(repo: Repo, mapping: Mapping, records: Ledger, changes: seq<Change>, c: Change)
    ensures var o := ApplyAll(repo, mapping, records, changes);
            ApplyAll(repo, mapping, records, changes + [c]) == if o.Updated? then Apply(repo, mapping, o.records, c) else o
    decreases |changes|
  {
    if changes == [] {
      assert changes + [c] == [c] && [c][1..] == [];
      var o := Apply(repo, mapping, records, c);
      assert o.Updated? ==> ApplyAll(repo, mapping, o.records, []) == o;
    } else {
      assert (changes + [c])[1..] == changes[1..] + [c];
      var o := Apply(repo, mapping, records, changes[0]);
      if o.Updated? {
        ApplyAllAppend(repo, mapping, o.records, changes[1..], c);
      }
    }
  }

  /** Change `i` can be applied to what the changes before it leave. */
  predicate CanApplyAt(repo: Repo, mapping: Mapping, records: Ledger, changes: seq<Change>, i: nat)
    requires i < |changes|
  {
    var o := Reached(repo, mapping, records, changes, i);
    o.Updated? && CanApply(repo, mapping, o.records, changes[i])
  }

  /** A list is accepted exactly when each change can be applied to what the changes before it leave. */
  lemma {:induction false} ApplyAllExact(repo: Repo, mapping: Mapping, records: Ledger, changes: seq<Change>)
    ensures ApplyAll(repo, mapping, records, changes).Updated? <==>
              forall i :: 0 <= i < |changes| ==> CanApplyAt(repo, mapping, records, changes, i)
    decreases |changes|
  {
    if changes != [] {
      var last := |changes| - 1;
      var front := changes[..last];
      assert changes == front + [changes[last]];
      ApplyAllAppend(repo, mapping, records, front, changes[last]);
      ApplyAllExact(repo, mapping, records, front);
      var o := ApplyAll(repo, mapping, records, front);
      if o.Updated? {
        ApplyExact(repo, mapping, o.records, changes[last]);
      }
      assert CanApplyAt(repo, mapping, records, changes, last) <==> o.Updated? && CanApply(repo, mapping, o.records, changes[last]);
      forall i | 0 <= i < last
        ensures CanApplyAt(repo, mapping, records, changes, i) <==> CanApplyAt(repo, mapping, records, front, i)
      {
        assert changes[..i] == front[..i];
      }
      if forall i :: 0 <= i < last ==> CanApplyAt(repo, mapping, records, changes, i) {
        assert forall i :: 0 <= i < |front| ==> CanApplyAt(repo, mapping, records, front, i);
      }
    }
  }

  // ------------------------------------------------------------ which paths are covered

  /** Whether a path is recorded after the changes, given whether it was before. */
  predicate Survives(changes: seq<Change>, p: Path, present: bool)
    decreases |changes|
  {
    if changes == [] then present
    else Survives(changes[1..], p, Adds(changes[0], p) || (present && !Removes(changes[0], p)))
  }

  lemma ApplyKeys(repo: Repo, mapping: Mapping, records: Ledger, c: Change, p: Path)
    requires Apply(repo, mapping, records, c).Updated?
    ensures p in Apply(repo, mapping, records, c).records <==> Adds(c, p) || (p in records && !Removes(c, p))
  {
  }

  lemma {:induction false} ApplyAllKeys(repo: Repo, mapping: Mapping, records: Ledger, changes: seq<Change>, p: Path)
    requires ApplyAll(repo, mapping, records, changes).Updated?
    ensures p in ApplyAll(repo, mapping, records, changes).records <==> Survives(changes, p, p in records)
    decreases |changes|
  {
    if changes != [] {
      ApplyKeys(repo, mapping, records, changes[0], p);
      ApplyAllKeys(repo, mapping, Apply(repo, mapping, records, changes[0]).records, changes[1..], p);
    }
  }

  ghost predicate AddedBy(changes: seq<Change>, p: Path) { exists c :: c in changes && Adds(c, p) }
  ghost predicate RemovedBy(changes: seq<Change>, p: Path) { exists c :: c in changes && Removes(c, p) }

  lemma ByFirstOrRest(changes: seq<Change>, p: Path)
    requires changes != []
    ensures AddedBy(changes, p) <==> Adds(changes[0], p) || AddedBy(changes[1..], p)
    ensures RemovedBy(changes, p) <==> Removes(changes[0], p) || RemovedBy(changes[1..], p)
  {
    assert changes == [changes[0]] + changes[1..];
  }

  /** Never added: there only if it was there and is never removed. */
  lemma {:induction false} NotAdded(changes: seq<Change>, p: Path, present: bool)
    requires !AddedBy(changes, p)
    ensures Survives(changes, p, present) <==> present && !RemovedBy(changes, p)
    decreases |changes|
  {
    if changes != [] {
      ByFirstOrRest(changes, p);
      NotAdded(changes[1..], p, present && !Removes(changes[0], p));
    }
  }

  /** Never removed: there if it was there or is added. */
  lemma {:induction false} NotRemoved(changes: seq<Change>, p: Path, present: bool)
    requires !RemovedBy(changes, p)
    ensures Survives(changes, p, present) <==> present || AddedBy(changes, p)
    decreases |changes|
  {
    if changes != [] {
      ByFirstOrRest(changes, p);
      NotRemoved(changes[1..], p, Adds(changes[0], p) || present);
    }
  }

  /** No change takes away a path that an earlier change put there. */
  predicate Ordered(changes: seq<Change>) {
    forall i, j :: 0 <= i < j < |changes| && changes[i].newPath.Some? && !Skipped(changes[i]) ==>
      !Removes(changes[j], changes[i].newPath.value)
  }

  /** Each path is the new path of at most one change. */
  predicate NewOnce(changes: seq<Change>) {
    forall i, j :: 0 <= i < j < |changes| && changes[i].newPath.Some? ==> changes[j].newPath != changes[i].newPath
  }

  lemma {:induction false} AddedAndOrdered(changes: seq<Change>, p: Path, present: bool)
    requires Ordered(changes) && AddedBy(changes, p)
    ensures Survives(changes, p, present)
    decreases |changes|
  {
    ByFirstOrRest(changes, p);
    if Adds(changes[0], p) {
      forall c | c in changes[1..] ensures !Removes(c, p) {
        var j :| 0 <= j < |changes[1..]| && changes[1..][j] == c;
        assert changes[j + 1] == c;
      }
      NotRemoved(changes[1..], p, true);
    } else {
      AddedAndOrdered(changes[1..], p, present && !Removes(changes[0], p));
    }
  }

  lemma {:induction false} AddedThenRemoved(changes: seq<Change>, i: nat, j: nat, p: Path, present: bool)
    requires NewOnce(changes) && i < j < |changes| && Adds(changes[i], p) && Removes(changes[j], p)
    ensures !Survives(changes, p, present)
    decreases |changes|
  {
    var now := Adds(changes[0], p) || (present && !Removes(changes[0], p));
    if i > 0 {
      AddedThenRemoved(changes[1..], i - 1, j - 1, p, now);
    } else {
      forall c | c in changes[1..] ensures !Adds(c, p) {
        var k :| 0 <= k < |changes[1..]| && changes[1..][k] == c;
        assert changes[k + 1] == c;
      }
      assert changes[1..][j - 1] == changes[j];
      NotAdded(changes[1..], p, now);
    }
  }

  ghost predicate Drops(changes: seq<Change>, p: Path) {
    exists c :: c in changes && c.code in {'D', 'R'} && c.oldPath == Some(p)
  }

  predicate Brings(changes: seq<Change>, p: Path) { exists c :: c in changes && c.newPath == Some(p) }

  /** What a staged diff is: it takes the tracked paths `before` to `after`, brings each path once,
      and renames or copies neither from nor to an exempt path. */
  ghost predicate IsDiff(before: set<Path>, after: set<Path>, changes: seq<Change>) {
    && NewOnce(changes)
    && (forall p :: p in after <==> (p in before && !Drops(changes, p)) || Brings(changes, p))
    && forall c :: c in changes && Skipped(c) ==> c.oldPath.None? || c.newPath.None?
  }

  lemma UnexemptMoves(changes: seq<Change>, p: Path)
    requires forall c :: c in changes && Skipped(c) ==> c.oldPath.None? || c.newPath.None?
    ensures p !in EXEMPT ==> (Brings(changes, p) <==> AddedBy(changes, p)) && (Drops(changes, p) <==> RemovedBy(changes, p))
    ensures p in EXEMPT ==> !AddedBy(changes, p) && !RemovedBy(changes, p)
  {
  }

  /** A ledger covers a tree: one record for each tracked path that is not exempt, and no other. */
  ghost predicate CoversTree(records: Ledger, tracked: set<Path>) { records.Keys == tracked - EXEMPT }

  /** Coverage is kept exactly when no change takes away what an earlier one brought. */
  lemma {:induction false} CoverageExact(repo: Repo, mapping: Mapping, records: Ledger, changes: seq<Change>, before: set<Path>, after: set<Path>)
    requires ApplyAll(repo, mapping, records, changes).Updated? && IsDiff(before, after, changes)
    requires CoversTree(records, before)
    ensures CoversTree(ApplyAll(repo, mapping, records, changes).records, after) <==> Ordered(changes)
  {
    var result := ApplyAll(repo, mapping, records, changes).records;
    if Ordered(changes) {
      forall p ensures p in result.Keys <==> p in after - EXEMPT {
        ApplyAllKeys(repo, mapping, records, changes, p);
        UnexemptMoves(changes, p);
        if AddedBy(changes, p) {
          AddedAndOrdered(changes, p, p in records);
        } else {
          NotAdded(changes, p, p in records);
        }
      }
    } else {
      var i, j :| 0 <= i < j < |changes| && changes[i].newPath.Some? && !Skipped(changes[i])
                  && Removes(changes[j], changes[i].newPath.value);
      var p := changes[i].newPath.value;
      ApplyAllKeys(repo, mapping, records, changes, p);
      AddedThenRemoved(changes, i, j, p, p in records);
      UnexemptMoves(changes, p);
      assert changes[i] in changes && Brings(changes, p);
      assert p in after - EXEMPT && p !in result;
    }
  }

  /** Where removed paths are gone from the new tree, as in the diffs git reports without breaking
      rewrites, no path is both removed and brought, so coverage is kept and the check passes. */
  lemma RemovedAreGone(before: set<Path>, after: set<Path>, changes: seq<Change>)
    requires IsDiff(before, after, changes) && forall p :: Drops(changes, p) ==> p !in after
    ensures Ordered(changes) && forall p :: !(RemovedBy(changes, p) && AddedBy(changes, p))
  {
    forall p ensures !(RemovedBy(changes, p) && AddedBy(changes, p)) {
      if AddedBy(changes, p) {
        var c :| c in changes && Adds(c, p);
        assert Brings(changes, p);
        assert forall d :: d in changes ==> !Removes(d, p);
      }
    }
    DisjointIsOrdered(changes);
  }

  // ------------------------------------------------------------ a diff as a whole

  /** Each path is taken away by at most one change. */
  predicate RemovedOnce(changes: seq<Change>) {
    forall i, j :: 0 <= i < j < |changes| && changes[i].oldPath.Some? && Removes(changes[i], changes[i].oldPath.value) ==>
      !Removes(changes[j], changes[i].oldPath.value)
  }

  /** A path that no change brings or removes keeps its record, or its lack of one. */
  lemma {:induction false} Untouched(repo: Repo, mapping: Mapping, records: Ledger, changes: seq<Change>, p: Path)
    requires ApplyAll(repo, mapping, records, changes).Updated? && !AddedBy(changes, p) && !RemovedBy(changes, p)
    ensures Lookup(ApplyAll(repo, mapping, records, changes).records, p) == Lookup(records, p)
    decreases |changes|
  {
    if changes != [] {
      ByFirstOrRest(changes, p);
      ApplyKeys(repo, mapping, records, changes[0], p);
      if p in records {
        ApplyLineage(repo, mapping, records, changes[0], p);
      }
      Untouched(repo, mapping, Apply(repo, mapping, records, changes[0]).records, changes[1..], p);
    }
  }

  /** The paths the last change names are untouched by the ones before it. */
  lemma LastIsAlone(front: seq<Change>, c: Change, p: Path)
    requires NewOnce(front + [c]) && RemovedOnce(front + [c])
    requires forall q :: !(RemovedBy(front + [c], q) && AddedBy(front + [c], q))
    requires Adds(c, p) || Removes(c, p)
    ensures !AddedBy(front, p) && !RemovedBy(front, p)
  {
    var changes := front + [c];
    assert changes[|front|] == c && c in changes;
    ByEither(front, [c], p);
    assert c in [c];
    forall d | d in front ensures !Adds(d, p) && !Removes(d, p) {
      var i :| 0 <= i < |front| && front[i] == d;
      assert changes[i] == d && d in changes;
      if Adds(c, p) {
        assert AddedBy(changes, p) && !RemovedBy(changes, p);
      } else {
        assert RemovedBy(changes, p) && !AddedBy(changes, p);
      }
    }
  }

  lemma {:induction false} SameStart(repo: Repo, mapping: Mapping, records: Ledger, front: seq<Change>, c: Change)
    requires ApplyAll(repo, mapping, records, front).Updated?
    requires forall p :: Adds(c, p) || Removes(c, p) ==> !AddedBy(front, p) && !RemovedBy(front, p)
    ensures CanApply(repo, mapping, ApplyAll(repo, mapping, records, front).records, c) <==> CanApply(repo, mapping, records, c)
  {
    var reached := ApplyAll(repo, mapping, records, front).records;
    if !Skipped(c) {
      if c.code in {'D', 'R'} && c.oldPath.Some? {
        assert Removes(c, c.oldPath.value);
        Untouched(repo, mapping, records, front, c.oldPath.value);
      }
      if c.newPath.Some? {
        assert Adds(c, c.newPath.value);
        Untouched(repo, mapping, records, front, c.newPath.value);
      }
    }
  }

  /** A diff that brings and removes each path at most once, and none both, is accepted exactly when each of
      its changes could be applied to the old ledger: their order plays no part. */
  lemma {:induction false} DiffExact(repo: Repo, mapping: Mapping, records: Ledger, changes: seq<Change>)
    requires NewOnce(changes) && RemovedOnce(changes) && forall p :: !(RemovedBy(changes, p) && AddedBy(changes, p))
    ensures ApplyAll(repo, mapping, records, changes).Updated? <==> forall c :: c in changes ==> CanApply(repo, mapping, records, c)
    decreases |changes|
  {
    if changes != [] {
      var front, c := changes[..|changes| - 1], changes[|changes| - 1];
      assert changes == front + [c];
      ByParts(front, c);
      DiffExact(repo, mapping, records, front);
      ApplyAllAppend(repo, mapping, records, front, c);
      var o := ApplyAll(repo, mapping, records, front);
      if o.Updated? {
        forall p | Adds(c, p) || Removes(c, p) ensures !AddedBy(front, p) && !RemovedBy(front, p) {
          LastIsAlone(front, c, p);
        }
        SameStart(repo, mapping, records, front, c);
        ApplyExact(repo, mapping, o.records, c);
      }
    }
  }

  lemma ByParts(front: seq<Change>, c: Change)
    requires NewOnce(front + [c]) && RemovedOnce(front + [c])
    requires forall p :: !(RemovedBy(front + [c], p) && AddedBy(front + [c], p))
    ensures NewOnce(front) && RemovedOnce(front) && forall p :: !(RemovedBy(front, p) && AddedBy(front, p))
  {
    var changes := front + [c];
    assert forall i :: 0 <= i < |front| ==> changes[i] == front[i];
    forall p ensures !(RemovedBy(front, p) && AddedBy(front, p)) {
      ByEither(front, [c], p);
    }
  }

  // ------------------------------------------------------------ the check

  const SIGNED: set<Class> := {ProjectApache, ExistingMit, UpstreamDerivative}

  /** The record of a path agrees with the map and the index, and names the modifier where it must. */
  predicate Current(repo: Repo, mapping: Mapping, records: Ledger, p: Path) {
    && p in records && p in repo.index
    && ClassificationFor(p, mapping) == Some(records[p].classification)
    && records[p].target == Some(repo.index[p])
    && (records[p].classification in SIGNED ==> records[p].modifiedBy == MODIFIER)
  }

  /** What the check finds wrong with one change. */
  predicate ChangeIsClean(repo: Repo, mapping: Mapping, records: Ledger, c: Change) {
    Skipped(c) ||
    (&& (c.code in {'D', 'R'} && c.oldPath.Some? ==> c.oldPath.value !in records)
     && (c.newPath.Some? ==>
           && c.newPath.value in records
           && var declared := ClassificationFor(c.newPath.value, mapping);
           && (declared.Some? ==> declared.value == records[c.newPath.value].classification)
           && c.newPath.value in repo.index
           && records[c.newPath.value].target == Some(repo.index[c.newPath.value])))
  }

  predicate SubjectIncluded(r: Record) {
    r.classification != GeneratedEvidence && r.path !in EXEMPT + {"docs/release-status.md", "publication/status.json"}
  }

  /** The check of a ledger, the staged changes and the projection on disk. */
  predicate VerifyCheck(repo: Repo, mapping: Mapping, ledger: seq<Record>, changes: seq<Change>, projection: seq<Record>) {
    && (forall i :: 0 <= i < |changes| ==> ChangeIsClean(repo, mapping, FromList(ledger), changes[i]))
    && projection == ProjectionFor(ledger)
  }

  lemma ApplyMakesCurrent(repo: Repo, mapping: Mapping, records: Ledger, c: Change, p: Path)
    requires Apply(repo, mapping, records, c).Updated?
    requires Adds(c, p)
    ensures Current(repo, mapping, Apply(repo, mapping, records, c).records, p)
  {
  }

  lemma ApplyKeepsCurrent(repo: Repo, mapping: Mapping, records: Ledger, c: Change, p: Path)
    requires Apply(repo, mapping, records, c).Updated? && p in Apply(repo, mapping, records, c).records
    requires Current(repo, mapping, records, p)
    ensures Current(repo, mapping, Apply(repo, mapping, records, c).records, p)
  {
    if Adds(c, p) {
      ApplyMakesCurrent(repo, mapping, records, c, p);
    } else {
      ApplyLineage(repo, mapping, records, c, p);
    }
  }

  lemma {:induction false} AddedAreCurrent(repo: Repo, mapping: Mapping, records: Ledger, changes: seq<Change>, p: Path)
    requires ApplyAll(repo, mapping, records, changes).Updated? && p in ApplyAll(repo, mapping, records, changes).records
    requires AddedBy(changes, p) || Current(repo, mapping, records, p)
    ensures Current(repo, mapping, ApplyAll(repo, mapping, records, changes).records, p)
    decreases |changes|
  {
    if changes != [] {
      ByFirstOrRest(changes, p);
      var next := Apply(repo, mapping, records, changes[0]).records;
      if Adds(changes[0], p) {
        ApplyMakesCurrent(repo, mapping, records, changes[0], p);
      } else if !AddedBy(changes[1..], p) {
        ApplyAllKeys(repo, mapping, next, changes[1..], p);
        NotAdded(changes[1..], p, p in next);
        ApplyKeepsCurrent(repo, mapping, records, changes[0], p);
      }
      AddedAreCurrent(repo, mapping, next, changes[1..], p);
    }
  }

  /** After an update the check finds the staged changes clean exactly when no path is both removed
      and brought by them. */
  lemma {:induction false} CheckExact(repo: Repo, mapping: Mapping, records: Ledger, changes: seq<Change>)
    requires ApplyAll(repo, mapping, records, changes).Updated?
    ensures (forall i :: 0 <= i < |changes| ==>
               ChangeIsClean(repo, mapping, ApplyAll(repo, mapping, records, changes).records, changes[i]))
            <==> forall p :: !(RemovedBy(changes, p) && AddedBy(changes, p))
  {
    var result := ApplyAll(repo, mapping, records, changes).records;
    if forall p :: !(RemovedBy(changes, p) && AddedBy(changes, p)) {
      forall i | 0 <= i < |changes| ensures ChangeIsClean(repo, mapping, result, changes[i]) {
        DisjointIsClean(repo, mapping, records, changes, i);
      }
    }
    if forall i :: 0 <= i < |changes| ==> ChangeIsClean(repo, mapping, result, changes[i]) {
      forall p ensures !(RemovedBy(changes, p) && AddedBy(changes, p)) {
        CleanIsDisjoint(repo, mapping, result, changes, p);
      }
    }
  }

  /** What the check accepts, path by path: no removed path has a record, and every brought path has one
      with the hash staged for it and a class the map does not contradict. */
  lemma {:induction false} CheckMeans(repo: Repo, mapping: Mapping, records: Ledger, changes: seq<Change>)
    ensures (forall i :: 0 <= i < |changes| ==> ChangeIsClean(repo, mapping, records, changes[i]))
            <==> && (forall p :: RemovedBy(changes, p) ==> p !in records)
                 && (forall p :: AddedBy(changes, p) ==> StagedAsRecorded(repo, mapping, records, p))
  {
    if forall i :: 0 <= i < |changes| ==> ChangeIsClean(repo, mapping, records, changes[i]) {
      forall p | RemovedBy(changes, p) ensures p !in records {
        var c :| c in changes && Removes(c, p);
        var i :| 0 <= i < |changes| && changes[i] == c;
      }
      forall p | AddedBy(changes, p) ensures StagedAsRecorded(repo, mapping, records, p) {
        var c :| c in changes && Adds(c, p);
        var i :| 0 <= i < |changes| && changes[i] == c;
      }
    }
    if (forall p :: RemovedBy(changes, p) ==> p !in records)
       && (forall p :: AddedBy(changes, p) ==> StagedAsRecorded(repo, mapping, records, p)) {
      forall i | 0 <= i < |changes| ensures ChangeIsClean(repo, mapping, records, changes[i]) {
        var c := changes[i];
        assert c in changes;
        if !Skipped(c) && c.code in {'D', 'R'} && c.oldPath.Some? {
          assert Removes(c, c.oldPath.value) && RemovedBy(changes, c.oldPath.value);
        }
        if !Skipped(c) && c.newPath.Some? {
          assert Adds(c, c.newPath.value) && AddedBy(changes, c.newPath.value);
        }
      }
    }
  }

  predicate StagedAsRecorded(repo: Repo, mapping: Mapping, records: Ledger, p: Path) {
    && p in records && p in repo.index && records[p].target == Some(repo.index[p])
    && ClassificationFor(p, mapping) in {None, Some(records[p].classification)}
  }

  lemma {:induction false} DisjointIsClean(repo: Repo, mapping: Mapping, records: Ledger, changes: seq<Change>, i: nat)
    requires ApplyAll(repo, mapping, records, changes).Updated? && i < |changes|
    requires forall p :: !(RemovedBy(changes, p) && AddedBy(changes, p))
    ensures ChangeIsClean(repo, mapping, ApplyAll(repo, mapping, records, changes).records, changes[i])
  {
    var c := changes[i];
    if !Skipped(c) && c.code in {'D', 'R'} && c.oldPath.Some? {
      var p := c.oldPath.value;
      assert c in changes && RemovedBy(changes, p);
      ApplyAllKeys(repo, mapping, records, changes, p);
      NotAdded(changes, p, p in records);
    }
    if !Skipped(c) && c.newPath.Some? {
      var p := c.newPath.value;
      assert c in changes && AddedBy(changes, p);
      ApplyAllKeys(repo, mapping, records, changes, p);
      NotRemoved(changes, p, p in records);
      AddedAreCurrent(repo, mapping, records, changes, p);
    }
  }

  lemma CleanIsDisjoint(repo: Repo, mapping: Mapping, result: Ledger, changes: seq<Change>, p: Path)
    requires forall i :: 0 <= i < |changes| ==> ChangeIsClean(repo, mapping, result, changes[i])
    ensures !(RemovedBy(changes, p) && AddedBy(changes, p))
  {
    if p in result {
      forall c | c in changes ensures !Removes(c, p) {
        var i :| 0 <= i < |changes| && changes[i] == c;
      }
    } else {
      forall c | c in changes ensures !Adds(c, p) {
        var i :| 0 <= i < |changes| && changes[i] == c;
      }
    }
  }

  /** Two files that trade names: the second rename takes away what the first brought, one record is
      lost, and the check refuses what the update wrote. */
  lemma {:induction false} SwapLosesARecord(repo: Repo, mapping: Mapping, records: Ledger, a: Path, b: Path)
    requires a != b && a !in EXEMPT && b !in EXEMPT && a in records && b in records
    requires a in repo.index && b in repo.index
    requires ClassificationFor(a, mapping) == ClassificationFor(b, mapping) == Some(ProjectApache)
    requires records[a].classification == records[b].classification == ProjectApache
    ensures var changes := [Change('R', Some(a), Some(b)), Change('R', Some(b), Some(a))];
            var o := ApplyAll(repo, mapping, records, changes);
            o.Updated? && a in o.records && b !in o.records && !Ordered(changes)
  {
    var changes := [Change('R', Some(a), Some(b)), Change('R', Some(b), Some(a))];
    assert changes[1..] == [changes[1]] && [changes[1]][1..] == [];
    var o := Apply(repo, mapping, records, changes[0]);
    assert o.Updated? && b in o.records && o.records[b].classification == ProjectApache;
    var o2 := Apply(repo, mapping, o.records, changes[1]);
    assert o2.Updated? && a in o2.records && b !in o2.records;
    assert ApplyAll(repo, mapping, o.records, [changes[1]]) == ApplyAll(repo, mapping, o2.records, []);
    assert ApplyAll(repo, mapping, records, changes) == o2;
    assert Removes(changes[1], changes[0].newPath.value);
  }

  // ------------------------------------------------------------ lineage

  /** A later state of a record: class, licence and origin kept, an unmodified upstream hash fixed. */
  predicate Descends(r: Record, r': Record) {
    && r'.classification == r.classification && r'.copyright == r.copyright && r'.license == r.license
    && r'.origin == r.origin
    && (r.classification == UpstreamUnmodified && r.target.Some? ==> r'.target == r.target)
    && (r.target.Some? ==> r'.target.Some?)
  }

  lemma ApplyLineage(repo: Repo, mapping: Mapping, records: Ledger, c: Change, p: Path)
    requires Apply(repo, mapping, records, c).Updated? && p in Apply(repo, mapping, records, c).records
    ensures var r := Apply(repo, mapping, records, c).records[p];
            if !Adds(c, p) then p in records && r == records[p]
            else if StartsFrom(records, c).Some? then Descends(StartsFrom(records, c).value, r)
            else r.classification !in PRESEEDED
  {
  }

  /** The path that the record now at `p` had before a change, following a rename to its old path;
      `None` if the record cannot have been there before. */
  function BackOne(c: Change, p: Path): Option<Path> {
    if Adds(c, p) && c.code == 'R' then c.oldPath
    else if Removes(c, p) then None
    else Some(p)
  }

  /** The same through a whole diff. */
  function Back(changes: seq<Change>, p: Path): Option<Path> {
    if changes == [] then Some(p)
    else
      var q := Back(changes[1..], p);
      if q.None? then None else BackOne(changes[0], q.value)
  }

  /** The record at `p` is a later state of the one that was at `q`, or was made in between, and then
      its class is not one that needs a pre-seeded record. */
  predicate ComesFrom(earlier: Ledger, later: Ledger, p: Path, q: Option<Path>)
    requires p in later
  {
    if q.Some? && q.value in earlier then Descends(earlier[q.value], later[p])
    else later[p].classification !in PRESEEDED
  }

  lemma ApplyTraces(repo: Repo, mapping: Mapping, records: Ledger, c: Change, p: Path)
    requires Apply(repo, mapping, records, c).Updated? && p in Apply(repo, mapping, records, c).records
    ensures ComesFrom(records, Apply(repo, mapping, records, c).records, p, BackOne(c, p))
  {
    ApplyLineage(repo, mapping, records, c, p);
  }

  /** Every record after a diff, traced back through its renames: it keeps class, licence and origin,
      and an unmodified upstream hash once set, or it is new and of a class that may be made. */
  lemma {:induction false} DiffTraces(repo: Repo, mapping: Mapping, records: Ledger, changes: seq<Change>, p: Path)
    requires ApplyAll(repo, mapping, records, changes).Updated? && p in ApplyAll(repo, mapping, records, changes).records
    ensures ComesFrom(records, ApplyAll(repo, mapping, records, changes).records, p, Back(changes, p))
    decreases |changes|
  {
    if changes != [] {
      var next := Apply(repo, mapping, records, changes[0]).records;
      DiffTraces(repo, mapping, next, changes[1..], p);
      var q := Back(changes[1..], p);
      if q.Some? {
        ApplyKeys(repo, mapping, records, changes[0], q.value);
        if q.value in next {
          ApplyTraces(repo, mapping, records, changes[0], q.value);
        }
      }
    }
  }

  /** No two paths trace back to one: a record is never duplicated by edits and renames. */
  lemma {:induction false} OneDescendant(changes: seq<Change>, p: Path, p': Path)
    requires p != p' && Back(changes, p).Some?
    ensures Back(changes, p) != Back(changes, p')
  {
    if changes != [] {
      OneDescendant(changes[1..], p, p');
    }
  }

  /** A path that is neither removed nor renamed onto keeps its record's class, licence, origin and,
      if unmodified upstream, its hash; if the changes do not name it, its record is unchanged. */
  lemma {:induction false} EditedInPlace(repo: Repo, mapping: Mapping, records: Ledger, changes: seq<Change>, p: Path)
    requires ApplyAll(repo, mapping, records, changes).Updated? && p in records && !RemovedBy(changes, p)
    requires forall c :: c in changes && Adds(c, p) ==> c.code != 'R'
    ensures var result := ApplyAll(repo, mapping, records, changes).records;
            p in result && Descends(records[p], result[p]) && (!AddedBy(changes, p) ==> result[p] == records[p])
    decreases |changes|
  {
    if changes != [] {
      var c := changes[0];
      assert c in changes;
      ByFirstOrRest(changes, p);
      ApplyKeys(repo, mapping, records, c, p);
      ApplyLineage(repo, mapping, records, c, p);
      EditedInPlace(repo, mapping, Apply(repo, mapping, records, c).records, changes[1..], p);
    }
  }

  /** One run of the tool: a tree, a classification map and the changes staged against it. */
  datatype Commit = Commit(repo: Repo, mapping: Mapping, changes: seq<Change>)

  function RunAll(records: Ledger, commits: seq<Commit>): Outcome
    decreases |commits|
  {
    if commits == [] then Updated(records)
    else
      var o := ApplyAll(commits[0].repo, commits[0].mapping, records, commits[0].changes);
      if o.Updated? then RunAll(o.records, commits[1..]) else o
  }

  /** The path a record had before a sequence of updates. */
  function RunBack(commits: seq<Commit>, p: Path): Option<Path> {
    if commits == [] then Some(p)
    else
      var q := RunBack(commits[1..], p);
      if q.None? then None else Back(commits[0].changes, q.value)
  }

  /** A path without a record after a diff does not trace back to a record before it. */
  lemma {:induction false} BackOfAbsent(repo: Repo, mapping: Mapping, records: Ledger, changes: seq<Change>, p: Path)
    requires ApplyAll(repo, mapping, records, changes).Updated? && p !in ApplyAll(repo, mapping, records, changes).records
    ensures Back(changes, p).Some? ==> Back(changes, p).value !in records
    decreases |changes|
  {
    if changes != [] {
      var next := Apply(repo, mapping, records, changes[0]).records;
      BackOfAbsent(repo, mapping, next, changes[1..], p);
      var q := Back(changes[1..], p);
      if q.Some? {
        ApplyKeys(repo, mapping, records, changes[0], q.value);
      }
    }
  }

  /** Across any sequence of updates, every record traced back through all renames: no class, licence or
      origin ever changes through edits and renames, no unmodified upstream hash once set, and no
      record of a pre-seed-only class is made. */
  lemma {:induction false} RunsKeepLineage(records: Ledger, commits: seq<Commit>, p: Path)
    requires RunAll(records, commits).Updated? && p in RunAll(records, commits).records
    ensures ComesFrom(records, RunAll(records, commits).records, p, RunBack(commits, p))
    decreases |commits|
  {
    if commits != [] {
      var c := commits[0];
      var next := ApplyAll(c.repo, c.mapping, records, c.changes).records;
      RunsKeepLineage(next, commits[1..], p);
      var q := RunBack(commits[1..], p);
      if q.Some? {
        if q.value in next {
          DiffTraces(c.repo, c.mapping, records, c.changes, q.value);
        } else {
          BackOfAbsent(c.repo, c.mapping, records, c.changes, q.value);
        }
      }
    }
  }

  // ------------------------------------------------------------ the file

  function PathKey(r: Record): seq<int> { Codes(r.path) }

  /** The records of a file, by path. */
  function FromList(ledger: seq<Record>): Ledger {
    if ledger == [] then map[]
    else FromList(ledger[..|ledger| - 1])[ledger[|ledger| - 1].path := ledger[|ledger| - 1]]
  }

  function Included(ledger: seq<Record>): seq<Record> {
    if ledger == [] then []
    else if SubjectIncluded(ledger[0]) then [ledger[0]] + Included(ledger[1..])
    else Included(ledger[1..])
  }

  function ProjectionFor(ledger: seq<Record>): seq<Record> { Sort(PathKey, Included(ledger)) }

  /** Every record sits under its own path. */
  ghost predicate Consistent(records: Ledger) { forall p :: p in records ==> records[p].path == p }

  /** The normalised file of a ledger: its records, each once, in increasing order of path. */
  ghost predicate IsPayload(out: seq<Record>, records: Ledger) {
    Increasing(PathKey, out) && Elements(out) == records.Values
  }

  lemma ApplyConsistent(repo: Repo, mapping: Mapping, records: Ledger, c: Change, p: Path)
    requires Consistent(records) && Apply(repo, mapping, records, c).Updated? && p in Apply(repo, mapping, records, c).records
    ensures Apply(repo, mapping, records, c).records[p].path == p
  {
  }

  lemma {:induction false} ApplyAllConsistent(repo: Repo, mapping: Mapping, records: Ledger, changes: seq<Change>)
    requires Consistent(records) && ApplyAll(repo, mapping, records, changes).Updated?
    ensures Consistent(ApplyAll(repo, mapping, records, changes).records)
    decreases |changes|
  {
    if changes != [] {
      var next := Apply(repo, mapping, records, changes[0]).records;
      forall p | p in next ensures next[p].path == p {
        ApplyConsistent(repo, mapping, records, changes[0], p);
      }
      ApplyAllConsistent(repo, mapping, next, changes[1..]);
    }
  }

  lemma {:induction false} FromListKeys(ledger: seq<Record>)
    ensures forall p :: p in FromList(ledger) ==> FromList(ledger)[p] in ledger && FromList(ledger)[p].path == p
    ensures forall r :: r in ledger ==> r.path in FromList(ledger)
  {
    if ledger != [] {
      FromListKeys(ledger[..|ledger| - 1]);
      assert ledger == ledger[..|ledger| - 1] + [ledger[|ledger| - 1]];
    }
  }

  /** Reading back what was written gives the same records, so the next run starts where this ended. */
  lemma {:induction false} PayloadReadsBack(out: seq<Record>, records: Ledger)
    requires IsPayload(out, records) && Consistent(records)
    ensures FromList(out) == records
  {
    FromListKeys(out);
    IncreasingDistinct(PathKey, out);
    forall p | p in records ensures p in FromList(out) && FromList(out)[p] == records[p] {
      assert records[p] in records.Values;
      assert records[p] in Elements(out);
      SamePath(out, records[p], FromList(out)[p]);
    }
    forall p | p in FromList(out) ensures p in records {
      assert FromList(out)[p] in Elements(out);
      var q :| q in records && records[q] == FromList(out)[p];
    }
  }

  lemma SamePath(out: seq<Record>, a: Record, b: Record)
    requires DistinctBy(PathKey, out) && a in out && b in out && a.path == b.path
    ensures a == b
  {
    var i :| 0 <= i < |out| && out[i] == a;
    var j :| 0 <= j < |out| && out[j] == b;
    assert PathKey(out[i]) == PathKey(out[j]);
  }

  /** The file depends on the records alone, not on the order the dictionary yields them in. */
  lemma PayloadUnique(a: seq<Record>, b: seq<Record>, records: Ledger)
    requires IsPayload(a, records) && IsPayload(b, records)
    ensures a == b
  {
    IncreasingUnique(PathKey, a, b);
  }

  /** The records of a dictionary, sorted by path. */
  method Normalise(records: Ledger) returns (out: seq<Record>)
    requires Consistent(records)
    ensures IsPayload(out, records)
  {
    out := [];
    var left := records.Keys;
    while left != {}
      invariant left <= records.Keys
      invariant forall r :: r in out <==> r.path in records.Keys - left && records[r.path] == r
      invariant DistinctBy(PathKey, out)
      decreases left
    {
      var p :| p in left;
      forall i | 0 <= i < |out| ensures PathKey(out[i]) != PathKey(records[p]) {
        assert out[i] in out;
        CodesDistinct(out[i].path, p);
      }
      out := out + [records[p]];
      left := left - {p};
    }
    ghost var all := out;
    out := Sort(PathKey, out);
    SortIncreasing(PathKey, all);
    SortedElements(PathKey, all);
    assert Elements(all) == records.Values;
  }

  /** The changes of a first run: every tracked path that no staged change names, in order. */
  function Bootstrap(tracked: seq<Path>, changes: seq<Change>): Option<seq<Change>> {
    if tracked == [] then Some([])
    else
      var rest := Bootstrap(tracked[1..], changes);
      if rest.None? then None
      else if tracked[0] in EXEMPT || Brings(changes, tracked[0]) then rest
      else if ValidatePath(tracked[0]).None? then None
      else Some([Change('A', None, ValidatePath(tracked[0]))] + rest.value)
  }

  /** The changes an update applies: the staged ones and, on a first run, an addition for every other
      tracked path. */
  function Planned(ledger: seq<Record>, staged: seq<Change>, tracked: seq<Path>): Option<seq<Change>> {
    if ledger != [] then Some(staged)
    else
      var more := Bootstrap(Sort(Codes, tracked), staged);
      if more.None? then None else Some(staged + more.value)
  }

  /** A tracked path that is to be recorded and that no staged change brings. */
  predicate Unstaged(staged: seq<Change>, tracked: seq<Path>, p: Path) {
    p in tracked && p !in EXEMPT && !Brings(staged, p)
  }

  /** What an update applies: the staged changes, and with no ledger yet, after them, an addition of each
      tracked path that is neither staged nor exempt. It is refused only where such a path is not valid. */
  lemma {:induction false} PlannedExact(ledger: seq<Record>, staged: seq<Change>, tracked: seq<Path>)
    ensures ledger != [] ==> Planned(ledger, staged, tracked) == Some(staged)
    ensures Planned(ledger, staged, tracked).None? <==>
              ledger == [] && exists p :: Unstaged(staged, tracked, p) && ValidatePath(p).None?
    ensures ledger == [] && Planned(ledger, staged, tracked).Some? ==>
              var all := Planned(ledger, staged, tracked).value;
              && |staged| <= |all| && all[..|staged|] == staged
              && forall c :: c in all[|staged|..] <==>
                   exists p :: Unstaged(staged, tracked, p) && c == Change('A', None, ValidatePath(p))
  {
    if ledger == [] {
      var sorted := Sort(Codes, tracked);
      SortedElements(Codes, tracked);
      forall p ensures Unstaged(staged, sorted, p) <==> Unstaged(staged, tracked, p) {
        assert p in sorted <==> p in Elements(sorted);
        assert p in tracked <==> p in Elements(tracked);
      }
      var more := Bootstrap(sorted, staged);
      BootstrapMeans(sorted, staged);
      if more.Some? {
        var all := staged + more.value;
        assert all[..|staged|] == staged && all[|staged|..] == more.value;
      }
    }
  }

  lemma {:induction false} BootstrapMeans(tracked: seq<Path>, staged: seq<Change>)
    ensures Bootstrap(tracked, staged).None? <==> exists p :: Unstaged(staged, tracked, p) && ValidatePath(p).None?
    ensures Bootstrap(tracked, staged).Some? ==>
              forall c :: c in Bootstrap(tracked, staged).value <==>
                exists p :: Unstaged(staged, tracked, p) && c == Change('A', None, ValidatePath(p))
  {
    if tracked != [] {
      var t, rest := tracked[0], tracked[1..];
      BootstrapMeans(rest, staged);
      assert tracked == [t] + rest;
      forall p ensures Unstaged(staged, tracked, p) <==> Unstaged(staged, rest, p) || (p == t && Unstaged(staged, tracked, t)) {
      }
    }
  }

  lemma {:induction false} BootstrapAdds(tracked: seq<Path>, staged: seq<Change>, p: Path)
    requires Bootstrap(tracked, staged).Some? && forall q :: q in tracked ==> Normal(q)
    ensures AddedBy(Bootstrap(tracked, staged).value, p) <==> p in tracked && p !in EXEMPT && !Brings(staged, p)
    ensures !RemovedBy(Bootstrap(tracked, staged).value, p)
  {
    if tracked != [] {
      BootstrapAdds(tracked[1..], staged, p);
      var all := Bootstrap(tracked, staged).value;
      var t := tracked[0];
      assert tracked == [t] + tracked[1..];
      assert t in tracked;
      if t !in EXEMPT && !Brings(staged, t) {
        assert all[0] == Change('A', None, Some(t)) && all[1..] == Bootstrap(tracked[1..], staged).value;
        ByFirstOrRest(all, p);
      }
    }
  }

  lemma ByEither(a: seq<Change>, b: seq<Change>, p: Path)
    ensures AddedBy(a + b, p) <==> AddedBy(a, p) || AddedBy(b, p)
    ensures RemovedBy(a + b, p) <==> RemovedBy(a, p) || RemovedBy(b, p)
  {
    assert forall c :: c in a + b <==> c in a || c in b;
  }

  /** A first run over a tree, with nothing removed, covers every tracked path that is not exempt. */
  lemma {:induction false} FirstRunCovers(repo: Repo, mapping: Mapping, staged: seq<Change>, tracked: seq<Path>)
    requires Planned([], staged, tracked).Some?
    requires ApplyAll(repo, mapping, map[], Planned([], staged, tracked).value).Updated?
    requires (forall p :: p in tracked ==> Normal(p)) && (forall c :: c in staged && c.newPath.Some? ==> c.newPath.value in tracked)
    requires forall c :: c in staged && Skipped(c) ==> c.oldPath.None? || c.newPath.None?
    requires forall p :: !RemovedBy(staged, p)
    ensures CoversTree(ApplyAll(repo, mapping, map[], Planned([], staged, tracked).value).records, Elements(tracked))
  {
    var sorted := Sort(Codes, tracked);
    SortedElements(Codes, tracked);
    var more := Bootstrap(sorted, staged).value;
    var empty: Ledger := map[];
    forall q | q in sorted ensures Normal(q) {
      assert q in Elements(sorted);
    }
    forall p ensures p in ApplyAll(repo, mapping, empty, staged + more).records <==> p in Elements(tracked) - EXEMPT {
      ApplyAllKeys(repo, mapping, empty, staged + more, p);
      BootstrapAdds(sorted, staged, p);
      ByEither(staged, more, p);
      NotRemoved(staged + more, p, false);
      UnexemptMoves(staged, p);
      assert p in sorted <==> p in Elements(sorted);
    }
  }

  predicate NoneTwice(paths: seq<Path>) { forall i, j :: 0 <= i < j < |paths| ==> paths[i] != paths[j] }

  /** A first run with nothing staged is accepted exactly when every tracked path that is not exempt is in
      the index and has a declared class of which a record may be made. */
  lemma {:induction false} FirstRunExact(repo: Repo, mapping: Mapping, tracked: seq<Path>)
    requires (forall p :: p in tracked ==> Normal(p)) && NoneTwice(tracked)
    ensures Planned([], [], tracked).Some?
    ensures ApplyAll(repo, mapping, map[], Planned([], [], tracked).value).Updated? <==>
              forall p :: p in tracked && p !in EXEMPT ==> CanBring(repo, mapping, None, p)
  {
    var sorted := Sort(Codes, tracked);
    TrackedSorted(tracked);
    BootstrapExact(sorted);
    var changes := Bootstrap(sorted, []).value;
    assert [] + changes == changes;
    forall p ensures !RemovedBy(changes, p) {
      BootstrapAdds(sorted, [], p);
    }
    var empty: Ledger := map[];
    DiffExact(repo, mapping, empty, changes);
    assert forall p :: p in sorted <==> p in tracked;
    AdditionsDecide(repo, mapping, changes, tracked);
  }

  /** Additions to nothing can all be applied exactly when each path can be recorded anew. */
  lemma {:induction false} AdditionsDecide(repo: Repo, mapping: Mapping, changes: seq<Change>, tracked: seq<Path>)
    requires forall c :: c in changes <==>
               c.newPath.Some? && c == Change('A', None, c.newPath) && c.newPath.value in tracked && c.newPath.value !in EXEMPT
    ensures (forall c :: c in changes ==> CanApply(repo, mapping, map[], c)) <==>
            forall p :: p in tracked && p !in EXEMPT ==> CanBring(repo, mapping, None, p)
  {
    forall p | p in tracked && p !in EXEMPT
      ensures Change('A', None, Some(p)) in changes
      ensures CanApply(repo, mapping, map[], Change('A', None, Some(p))) <==> CanBring(repo, mapping, None, p)
    {
    }
  }

  lemma {:induction false} TrackedSorted(tracked: seq<Path>)
    requires (forall p :: p in tracked ==> Normal(p)) && NoneTwice(tracked)
    ensures var sorted := Sort(Codes, tracked);
            && (forall p :: p in sorted <==> p in tracked) && (forall p :: p in sorted ==> Normal(p))
            && NoneTwice(sorted)
  {
    var sorted := Sort(Codes, tracked);
    SortedElements(Codes, tracked);
    forall p ensures p in sorted <==> p in tracked {
      assert p in sorted <==> p in Elements(sorted);
    }
    forall i, j | 0 <= i < j < |tracked| ensures Codes(tracked[i]) != Codes(tracked[j]) {
      CodesDistinct(tracked[i], tracked[j]);
    }
    SortedStaysDistinct(tracked);
  }

  lemma {:induction false} SortedStaysDistinct(tracked: seq<Path>)
    requires DistinctBy(Codes, tracked)
    ensures NoneTwice(Sort(Codes, tracked))
  {
    SortIncreasing(Codes, tracked);
    IncreasingDistinct(Codes, Sort(Codes, tracked));
  }

  /** With nothing staged a first run adds each path that is not exempt, once. */
  lemma {:induction false} BootstrapExact(sorted: seq<Path>)
    requires (forall p :: p in sorted ==> Normal(p)) && NoneTwice(sorted)
    ensures Bootstrap(sorted, []).Some?
    ensures var changes := Bootstrap(sorted, []).value;
            && (forall c :: c in changes <==> c.newPath.Some? && c == Change('A', None, c.newPath) && c.newPath.value in sorted && c.newPath.value !in EXEMPT)
            && NewOnce(changes) && RemovedOnce(changes)
  {
    if sorted != [] {
      assert sorted == [sorted[0]] + sorted[1..];
      assert forall i :: 0 <= i < |sorted[1..]| ==> sorted[1..][i] == sorted[i + 1];
      assert sorted[0] in sorted;
      BootstrapExact(sorted[1..]);
      var rest := Bootstrap(sorted[1..], []).value;
      assert forall i :: 0 <= i < |rest| ==> rest[i] in rest;
    }
  }

  /** The loop of the update: the dictionary is changed one staged change at a time. */
  method ApplyInOrder(repo: Repo, mapping: Mapping, start: Ledger, changes: seq<Change>) returns (o: Outcome)
    ensures o == ApplyAll(repo, mapping, start, changes)
  {
    var records := start;
    assert changes[0..] == changes;
    for i := 0 to |changes|
      invariant ApplyAll(repo, mapping, start, changes) == ApplyAll(repo, mapping, records, changes[i..])
    {
      assert changes[i..][1..] == changes[i + 1..];
      var next := Apply(repo, mapping, records, changes[i]);
      if !next.Updated? {
        return next;
      }
      records := next.records;
    }
    return Updated(records);
  }

  /** The update as a whole: the written file holds exactly the updated records, sorted by path, and
      reads back as them. */
  method UpdateLedger(repo: Repo, mapping: Mapping, ledger: seq<Record>, staged: seq<Change>, tracked: seq<Path>)
    returns (o: Outcome, out: seq<Record>)
    ensures Planned(ledger, staged, tracked).None? ==> o == Refused
    ensures Planned(ledger, staged, tracked).Some? ==>
              o == ApplyAll(repo, mapping, FromList(ledger), Planned(ledger, staged, tracked).value)
    ensures o.Updated? ==> IsPayload(out, o.records) && FromList(out) == o.records
    ensures o.Updated? <==> Planned(ledger, staged, tracked).Some? && var changes := Planned(ledger, staged, tracked).value;
                              forall i :: 0 <= i < |changes| ==> CanApplyAt(repo, mapping, FromList(ledger), changes, i)
  {
    out := [];
    var changes := Planned(ledger, staged, tracked);
    if changes.None? {
      return Refused, out;
    }
    o := ApplyInOrder(repo, mapping, FromList(ledger), changes.value);
    ApplyAllExact(repo, mapping, FromList(ledger), changes.value);
    if o.Updated? {
      FromListKeys(ledger);
      ApplyAllConsistent(repo, mapping, FromList(ledger), changes.value);
      out := Normalise(o.records);
      PayloadReadsBack(out, o.records);
    }
  }

  /** The tool end to end: for a diff that no path is both removed and brought by, what the update
      writes covers the new tree and passes the check with exactly one projection on disk: the
      subject records of the ledger, each once, in order of path. */
  lemma {:induction false} UpdateThenCheck(repo: Repo, mapping: Mapping, ledger: seq<Record>, changes: seq<Change>, out: seq<Record>,
                        before: set<Path>, after: set<Path>, projection: seq<Record>)
    requires ApplyAll(repo, mapping, FromList(ledger), changes).Updated? && IsDiff(before, after, changes)
    requires IsPayload(out, ApplyAll(repo, mapping, FromList(ledger), changes).records)
    requires CoversTree(FromList(ledger), before)
    requires forall p :: !(RemovedBy(changes, p) && AddedBy(changes, p))
    ensures CoversTree(FromList(out), after)
    ensures VerifyCheck(repo, mapping, out, changes, projection) <==> IsProjection(projection, out)
  {
    FromListKeys(ledger);
    ApplyAllConsistent(repo, mapping, FromList(ledger), changes);
    PayloadReadsBack(out, ApplyAll(repo, mapping, FromList(ledger), changes).records);
    DisjointIsOrdered(changes);
    CoverageExact(repo, mapping, FromList(ledger), changes, before, after);
    CheckExact(repo, mapping, FromList(ledger), changes);
    ProjectionExact(out, projection);
  }

  /** The subject records of a ledger, each once, in increasing order of path. */
  ghost predicate IsProjection(projection: seq<Record>, ledger: seq<Record>) {
    Increasing(PathKey, projection) && Elements(projection) == set r | r in ledger && IsSubject(r)
  }

  /** Part of the released subject: not generated evidence, and neither the ledger, its projection nor the two
      status files. */
  predicate IsSubject(r: Record) {
    && r.classification != GeneratedEvidence
    && r.path !in {"compliance/provenance.json", "compliance/source-provenance.json", "docs/release-status.md", "publication/status.json"}
  }

  lemma SubjectExact(r: Record)
    ensures IsSubject(r) <==> SubjectIncluded(r)
  {
  }

  lemma {:induction false} IncludedElements(ledger: seq<Record>)
    ensures Elements(Included(ledger)) == set r | r in ledger && SubjectIncluded(r)
    ensures DistinctBy(PathKey, ledger) ==> DistinctBy(PathKey, Included(ledger))
  {
    if ledger != [] {
      IncludedElements(ledger[1..]);
      var r, rest := ledger[0], Included(ledger[1..]);
      assert ledger == [r] + ledger[1..];
      ElementsCons(r, rest);
      if DistinctBy(PathKey, ledger) {
        assert DistinctBy(PathKey, ledger[1..]);
        forall j | 0 <= j < |rest| ensures PathKey(r) != PathKey(rest[j]) {
          assert rest[j] in Elements(rest);
          var k :| 0 <= k < |ledger[1..]| && ledger[1..][k] == rest[j];
          assert ledger[k + 1] == rest[j];
        }
      }
    }
  }

  /** The projection computed for a written ledger is the one list of that description. */
  lemma {:induction false} ProjectionExact(ledger: seq<Record>, projection: seq<Record>)
    requires Increasing(PathKey, ledger)
    ensures projection == ProjectionFor(ledger) <==> IsProjection(projection, ledger)
  {
    forall r ensures IsSubject(r) <==> SubjectIncluded(r) {
      SubjectExact(r);
    }
    IncreasingDistinct(PathKey, ledger);
    IncludedElements(ledger);
    SortIncreasing(PathKey, Included(ledger));
    SortedElements(PathKey, Included(ledger));
    if IsProjection(projection, ledger) {
      IncreasingUnique(PathKey, projection, ProjectionFor(ledger));
    }
  }

  /** What the whole check accepts of a ledger in the order of its paths. */
  lemma {:induction false} VerifyExact(repo: Repo, mapping: Mapping, ledger: seq<Record>, changes: seq<Change>, projection: seq<Record>)
    requires Increasing(PathKey, ledger)
    ensures VerifyCheck(repo, mapping, ledger, changes, projection) <==>
              && (forall p :: RemovedBy(changes, p) ==> p !in FromList(ledger))
              && (forall p :: AddedBy(changes, p) ==> StagedAsRecorded(repo, mapping, FromList(ledger), p))
              && IsProjection(projection, ledger)
  {
    CheckMeans(repo, mapping, FromList(ledger), changes);
    ProjectionExact(ledger, projection);
  }

  lemma DisjointIsOrdered(changes: seq<Change>)
    requires forall p :: !(RemovedBy(changes, p) && AddedBy(changes, p))
    ensures Ordered(changes)
  {
    forall i, j | 0 <= i < j < |changes| && changes[i].newPath.Some? && !Skipped(changes[i])
      ensures !Removes(changes[j], changes[i].newPath.value)
    {
      var p := changes[i].newPath.value;
      assert changes[i] in changes && changes[j] in changes;
      assert AddedBy(changes, p);
    }
  }
}
