/**
 Reading `git diff --name-status -z`: splitting on NUL, normalising paths, and turning status
 fields into changes.
 */
module StagedChanges {
  import opened Wrappers

  type Path = string

  /** A staged change as (status letter, old path, new path). */
  datatype Change = Change(code: char, oldPath: Option<Path>, newPath: Option<Path>)

  /** `Malformed` and `UnsafePath` are the two provenance errors; `IndexError` is what reading the
      first letter of an empty status raises. */
  datatype Outcome = Changes(changes: seq<Change>) | Malformed | UnsafePath | IndexError

  // ------------------------------------------------------------ splitting

  function Split(s: string, c: char): (r: seq<string>)
    ensures r != []
  {
    if s == "" then [""]
    else if s[0] == c then [""] + Split(s[1..], c)
    else var r := Split(s[1..], c); [[s[0]] + r[0]] + r[1..]
  }

  function Join(parts: seq<string>, c: char): string {
    if parts == [] then ""
    else if |parts| == 1 then parts[0]
    else parts[0] + [c] + Join(parts[1..], c)
  }

  lemma {:induction false} SplitFirst(s: string, c: char, rest: string)
    requires c !in s
    ensures Split(s, c) == [s]
    ensures Split(s + [c] + rest, c) == [s] + Split(rest, c)
  {
    var t := s + [c] + rest;
    if s == "" {
      assert t[1..] == rest;
    } else {
      SplitFirst(s[1..], c, rest);
      assert t[1..] == s[1..] + [c] + rest;
      assert [s[0]] + s[1..] == s;
    }
  }

  /** Splitting undoes joining. */
  lemma {:induction false} SplitJoin(parts: seq<string>, c: char)
    requires parts != [] && forall part :: part in parts ==> c !in part
    ensures Split(Join(parts, c), c) == parts
  {
    var first := parts[0];
    assert c !in first;
    if |parts| == 1 {
      SplitFirst(first, c, "");
      assert parts == [first];
    } else {
      var rest := Join(parts[1..], c);
      SplitFirst(first, c, rest);
      SplitJoin(parts[1..], c);
      assert parts == [first] + parts[1..];
    }
  }

  /** No part contains the separator. */
  lemma {:induction false} SplitClean(s: string, c: char)
    ensures forall i :: 0 <= i < |Split(s, c)| ==> c !in Split(s, c)[i]
  {
    if s != "" {
      SplitClean(s[1..], c);
    }
  }

  // ------------------------------------------------------------ paths

  /** The parts of a pure POSIX path: empty parts and dots are dropped. */
  function Parts(parts: seq<string>): seq<string> {
    if parts == [] then []
    else if parts[0] == "" || parts[0] == "." then Parts(parts[1..])
    else [parts[0]] + Parts(parts[1..])
  }

  /** The normalised repository path, or `None` where it is refused as unsafe. */
  function ValidatePath(value: string): Option<Path> {
    if value == "" then None
    else
      var parts := Parts(Split(value, '/'));
      if value[0] == '/' || ".." in parts || Last(value) == '/' then None
      else Some(if parts == [] then "." else Join(parts, '/'))
  }

  predicate Normal(p: Path) { ValidatePath(p) == Some(p) }

  lemma {:induction false} PartsOf(parts: seq<string>)
    ensures forall x :: x in Parts(parts) <==> x in parts && x != "" && x != "."
  {
    if parts != [] {
      PartsOf(parts[1..]);
    }
  }

  lemma {:induction false} PartsStay(parts: seq<string>)
    requires forall i :: 0 <= i < |parts| ==> parts[i] != "" && parts[i] != "."
    ensures Parts(parts) == parts
  {
    if parts != [] {
      PartsStay(parts[1..]);
      assert parts == [parts[0]] + parts[1..];
    }
  }

  function Last(s: string): char
    requires s != ""
  {
    s[|s| - 1]
  }

  /** A joined path ends as its last part does and starts as its first does. */
  lemma {:induction false} JoinEnds(parts: seq<string>, c: char)
    requires parts != [] && forall i :: 0 <= i < |parts| ==> parts[i] != ""
    ensures Join(parts, c) != "" && Join(parts, c)[0] == parts[0][0]
    ensures Last(Join(parts, c)) == Last(parts[|parts| - 1])
  {
    if |parts| > 1 {
      JoinEnds(parts[1..], c);
    }
  }

  /** Normalising is idempotent: what it accepts, it leaves as it is the second time. */
  lemma NormalisedIsNormal(value: string)
    requires ValidatePath(value).Some?
    ensures Normal(ValidatePath(value).value)
  {
    var parts := Parts(Split(value, '/'));
    if parts == [] {
      assert Split(".", '/') == ["."];
      assert Parts(["."]) == [];
    } else {
      PartsOf(Split(value, '/'));
      SplitClean(value, '/');
      assert forall i :: 0 <= i < |parts| ==> parts[i] in parts;
      NormalJoin(parts);
    }
  }

  /** Parts of a normalised path: none empty, none a dot, none with a slash in it. */
  ghost predicate CleanParts(parts: seq<string>) {
    forall i :: 0 <= i < |parts| ==> parts[i] != "" && parts[i] != "." && '/' !in parts[i]
  }

  lemma {:induction false} NormalJoin(parts: seq<string>)
    requires parts != [] && ".." !in parts && CleanParts(parts)
    ensures Normal(Join(parts, '/'))
  {
    SplitJoin(parts, '/');
    PartsStay(parts);
    JoinEnds(parts, '/');
    var last := parts[|parts| - 1];
    assert parts[0][0] in parts[0] && Last(last) in last;
  }

  // ------------------------------------------------------------ the record parser

  function Prepend(c: Change, o: Outcome): Outcome {
    if o.Changes? then Changes([c] + o.changes) else o
  }

  /** Fields from the first record on. */
  function ParseFields(fields: seq<string>): Outcome
    decreases |fields|
  {
    if fields == [] then Changes([])
    else if fields[0] == "" then IndexError
    else if fields[0][0] in {'R', 'C'} then
      if |fields| < 3 then Malformed
      else if ValidatePath(fields[1]).None? || ValidatePath(fields[2]).None? then UnsafePath
      else Prepend(Change(fields[0][0], ValidatePath(fields[1]), ValidatePath(fields[2])), ParseFields(fields[3..]))
    else if |fields| < 2 then Malformed
    else if ValidatePath(fields[1]).None? then UnsafePath
    else if fields[0][0] == 'D' then Prepend(Change('D', ValidatePath(fields[1]), None), ParseFields(fields[2..]))
    else Prepend(Change(fields[0][0], None, ValidatePath(fields[1])), ParseFields(fields[2..]))
  }

  /** The NUL-separated fields; the empty one after a final NUL is dropped. */
  function FieldsOf(raw: string): seq<string> {
    DropBlank(Split(raw, '\0'))
  }

  function DropBlank(fields: seq<string>): seq<string>
    requires fields != []
  {
    if fields[|fields| - 1] == "" then fields[..|fields| - 1] else fields
  }

  function Extend(changes: seq<Change>, o: Outcome): Outcome {
    if o.Changes? then Changes(changes + o.changes) else o
  }

  lemma ExtendPrepend(changes: seq<Change>, c: Change, o: Outcome)
    ensures Extend(changes, Prepend(c, o)) == Extend(changes + [c], o)
  {
    if o.Changes? {
      assert changes + ([c] + o.changes) == changes + [c] + o.changes;
    }
  }

  /** The index loop. */
  method ReadChanges(raw: string) returns (o: Outcome)
    ensures o == ParseFields(FieldsOf(raw))
  {
    var fields := FieldsOf(raw);
    var changes: seq<Change> := [];
    var index := 0;
    assert fields[0..] == fields;
    while index < |fields|
      invariant 0 <= index <= |fields|
      invariant ParseFields(fields) == Extend(changes, ParseFields(fields[index..]))
      decreases |fields| - index
    {
      var status := fields[index];
      ghost var left, done := fields[index..], changes;
      index := index + 1;
      if status == "" {
        return IndexError;
      }
      var code := status[0];
      if code in {'R', 'C'} {
        if index + 1 >= |fields| {
          return Malformed;
        }
        var oldPath, newPath := ValidatePath(fields[index]), ValidatePath(fields[index + 1]);
        if oldPath.None? || newPath.None? {
          return UnsafePath;
        }
        index := index + 2;
        changes := changes + [Change(code, oldPath, newPath)];
        assert left[3..] == fields[index..];
      } else {
        if index >= |fields| {
          return Malformed;
        }
        var path := ValidatePath(fields[index]);
        if path.None? {
          return UnsafePath;
        }
        index := index + 1;
        changes := changes + [if code == 'D' then Change(code, path, None) else Change(code, None, path)];
        assert left[2..] == fields[index..];
      }
      ExtendPrepend(done, changes[|changes| - 1], ParseFields(fields[index..]));
    }
    assert fields[index..] == [];
    return Changes(changes);
  }

  // ------------------------------------------------------------ the format and its reader

  predicate NulFree(s: string) { '\0' !in s }

  predicate PathFits(p: Option<Path>) { p.Some? && Normal(p.value) && NulFree(p.value) }

  /** The changes git can report: renames and copies name two paths, a deletion the old one, anything
      else the new one. */
  predicate WellFormed(c: Change) {
    && c.code != '\0'
    && (if c.code in {'R', 'C'} then PathFits(c.oldPath) && PathFits(c.newPath)
        else if c.code == 'D' then PathFits(c.oldPath) && c.newPath.None?
        else c.oldPath.None? && PathFits(c.newPath))
  }

  /** A change with the similarity score git puts after the letter. */
  datatype Entry = Entry(change: Change, score: string)

  predicate WellFormedEntry(e: Entry) { WellFormed(e.change) && NulFree(e.score) }

  function RecordOf(e: Entry): seq<string> {
    var c := e.change;
    [[c.code] + e.score] +
    (if c.oldPath.Some? then [c.oldPath.value] else []) + (if c.newPath.Some? then [c.newPath.value] else [])
  }

  function Records(entries: seq<Entry>): seq<string> {
    if entries == [] then [] else RecordOf(entries[0]) + Records(entries[1..])
  }

  /** Every field followed by NUL. */
  function Terminated(fields: seq<string>): string {
    if fields == [] then "" else fields[0] + ['\0'] + Terminated(fields[1..])
  }

  function ChangesOf(entries: seq<Entry>): seq<Change> {
    if entries == [] then [] else [entries[0].change] + ChangesOf(entries[1..])
  }

  /** A whole record at the front is read back and the rest is read on its own. */
  lemma {:induction false} RecordReads(e: Entry, rest: seq<string>)
    requires WellFormedEntry(e)
    ensures ParseFields(RecordOf(e) + rest) == Prepend(e.change, ParseFields(rest))
  {
    var fields := RecordOf(e) + rest;
    if e.change.code in {'R', 'C'} {
      assert fields[3..] == rest;
    } else {
      assert fields[2..] == rest;
    }
  }

  function TextOf(entries: seq<Entry>): string { Terminated(Records(entries)) }

  lemma {:induction false} TerminatedAppend(a: seq<string>, b: seq<string>)
    ensures Terminated(a + b) == Terminated(a) + Terminated(b)
  {
    if a == [] {
      assert a + b == b;
    } else {
      TerminatedAppend(a[1..], b);
      assert (a + b)[1..] == a[1..] + b && (a + b)[0] == a[0];
    }
  }

  lemma {:induction false} SplitAfter(fields: seq<string>, rest: string)
    requires forall i :: 0 <= i < |fields| ==> NulFree(fields[i])
    ensures Split(Terminated(fields) + rest, '\0') == fields + Split(rest, '\0')
  {
    if fields == [] {
      assert Terminated(fields) + rest == rest;
    } else {
      SplitAfter(fields[1..], rest);
      SplitFirst(fields[0], '\0', Terminated(fields[1..]) + rest);
      assert Terminated(fields) + rest == fields[0] + ['\0'] + (Terminated(fields[1..]) + rest);
      assert fields + Split(rest, '\0') == [fields[0]] + (fields[1..] + Split(rest, '\0'));
    }
  }

  /** Whole fields, then whatever follows. */
  lemma {:induction false} FieldsAfter(fields: seq<string>, rest: string)
    requires forall i :: 0 <= i < |fields| ==> NulFree(fields[i])
    ensures FieldsOf(Terminated(fields) + rest) == fields + FieldsOf(rest)
  {
    SplitAfter(fields, rest);
    DropBlankAfter(fields, Split(rest, '\0'));
  }

  lemma DropBlankAfter(a: seq<string>, b: seq<string>)
    requires b != []
    ensures DropBlank(a + b) == a + DropBlank(b)
  {
    assert (a + b)[|a + b| - 1] == b[|b| - 1];
    assert (a + b)[..|a + b| - 1] == a + b[..|b| - 1];
  }

  /** Whole fields, then a piece of one. */
  lemma {:induction false} FieldsThenPiece(fields: seq<string>, piece: string)
    requires NulFree(piece) && forall i :: 0 <= i < |fields| ==> NulFree(fields[i])
    ensures FieldsOf(Terminated(fields) + piece) == if piece == "" then fields else fields + [piece]
  {
    FieldsAfter(fields, piece);
    SplitFirst(piece, '\0', "");
  }

  lemma RecordNulFree(e: Entry)
    requires WellFormedEntry(e)
    ensures forall i :: 0 <= i < |RecordOf(e)| ==> NulFree(RecordOf(e)[i])
  {
  }

  lemma FirstRecordText(entries: seq<Entry>)
    requires entries != []
    ensures TextOf(entries) == RecordText(entries[0]) + TextOf(entries[1..])
  {
    TerminatedAppend(RecordOf(entries[0]), Records(entries[1..]));
  }

  function RecordText(e: Entry): string { Terminated(RecordOf(e)) }

  /** The reader undoes the format, whatever the scores. */
  lemma {:induction false} RoundTrip(entries: seq<Entry>)
    requires forall i :: 0 <= i < |entries| ==> WellFormedEntry(entries[i])
    ensures ParseFields(FieldsOf(TextOf(entries))) == Changes(ChangesOf(entries))
  {
    if entries == [] {
      assert Split("", '\0') == [""];
    } else {
      var e, rest := entries[0], entries[1..];
      assert WellFormedEntry(e);
      RoundTrip(rest);
      FirstRecordText(entries);
      RecordNulFree(e);
      FieldsAfter(RecordOf(e), TextOf(rest));
      RecordReads(e, FieldsOf(TextOf(rest)));
    }
  }

  // ------------------------------------------------------------ cuts anywhere

  /** The path a record ends with. */
  function LastPath(e: Entry): string
    requires WellFormed(e.change)
  {
    if e.change.newPath.Some? then e.change.newPath.value else e.change.oldPath.value
  }

  /** Where that path starts in the record's text. */
  function LastStart(e: Entry): int
    requires WellFormed(e.change)
  {
    |RecordText(e)| - 1 - |LastPath(e)|
  }

  /** Cut after `m` characters, a record ends in a piece of its last path; whether it is a safe path. */
  predicate CutsLastPath(e: Entry, m: int, safe: bool)
    requires WellFormed(e.change)
  {
    && LastStart(e) < m <= LastStart(e) + |LastPath(e)|
    && ValidatePath(LastPath(e)[..m - LastStart(e)]).Some? == safe
  }

  /** What a record's status and any path before the last look like. */
  function BeforeLast(e: Entry): seq<string>
    requires WellFormed(e.change)
  {
    RecordOf(e)[..|RecordOf(e)| - 1]
  }

  lemma RecordParts(e: Entry)
    requires WellFormedEntry(e)
    ensures RecordOf(e) == BeforeLast(e) + [LastPath(e)] && forall i :: 0 <= i < |BeforeLast(e)| ==> NulFree(BeforeLast(e)[i])
    ensures NulFree(LastPath(e)) && LastStart(e) == |Terminated(BeforeLast(e))|
    ensures RecordText(e) == Terminated(BeforeLast(e)) + LastPath(e) + ['\0']
  {
    TerminatedAppend(BeforeLast(e), [LastPath(e)]);
    assert [LastPath(e)][1..] == [];
    assert Terminated([LastPath(e)]) == LastPath(e) + ['\0'];
  }

  /** A change whose last path is a shorter text. */
  function Shortened(c: Change, piece: string): Change {
    if c.newPath.Some? then c.(newPath := ValidatePath(piece)) else c.(oldPath := ValidatePath(piece))
  }

  /** The last field cut short: read exactly if the piece is a safe path. */
  lemma PieceOfLast(e: Entry, piece: string)
    requires WellFormedEntry(e) && piece != ""
    ensures ParseFields(BeforeLast(e) + [piece]) ==
            (if ValidatePath(piece).None? then UnsafePath
             else Changes([Shortened(e.change, piece)]))
  {
    var fields := BeforeLast(e) + [piece];
    if e.change.code in {'R', 'C'} {
      assert fields == [[e.change.code] + e.score, e.change.oldPath.value, piece];
      assert fields[3..] == [];
    } else {
      assert fields == [[e.change.code] + e.score, piece];
      assert fields[2..] == [];
    }
  }

  /** Too few fields: malformed, whatever is in them. */
  lemma {:induction false} TooFew(e: Entry, fields: seq<string>)
    requires WellFormedEntry(e) && 0 < |fields| < |RecordOf(e)| && fields[0] != "" && fields[0][0] == e.change.code
    ensures ParseFields(fields) == Malformed
  {
  }

  /** One record cut after `n` characters. */
  lemma CutOneRecord(e: Entry, n: nat)
    requires WellFormedEntry(e) && 0 < n < |RecordText(e)|
    ensures var cut := ParseFields(FieldsOf(RecordText(e)[..n]));
            if CutsLastPath(e, n, true) then cut == Changes([Shortened(e.change, LastPath(e)[..n - LastStart(e)])])
            else cut == if CutsLastPath(e, n, false) then UnsafePath else Malformed
  {
    RecordParts(e);
    if n > LastStart(e) {
      CutInLast(e, n);
    } else {
      assert RecordText(e)[..n] == Terminated(BeforeLast(e))[..n];
      CutBefore(e, n);
    }
  }

  lemma CutInLast(e: Entry, n: nat)
    requires WellFormedEntry(e) && LastStart(e) < n < |RecordText(e)|
    ensures ParseFields(FieldsOf(RecordText(e)[..n])) ==
            ParseFields(BeforeLast(e) + [LastPath(e)[..n - LastStart(e)]])
    ensures var cut, piece := ParseFields(FieldsOf(RecordText(e)[..n])), LastPath(e)[..n - LastStart(e)];
            cut == if ValidatePath(piece).Some? then Changes([Shortened(e.change, piece)]) else UnsafePath
  {
    RecordParts(e);
    var piece := LastPath(e)[..n - LastStart(e)];
    assert RecordText(e)[..n] == Terminated(BeforeLast(e)) + piece;
    FieldsThenPiece(BeforeLast(e), piece);
    PieceOfLast(e, piece);
  }

  lemma CutBefore(e: Entry, n: nat)
    requires WellFormedEntry(e) && 0 < n <= |Terminated(BeforeLast(e))|
    ensures ParseFields(FieldsOf(Terminated(BeforeLast(e))[..n])) == Malformed
  {
    RecordParts(e);
    var before := BeforeLast(e);
    var status := before[0];
    assert status == [e.change.code] + e.score;
    assert Terminated(before) == status + ['\0'] + Terminated(before[1..]);
    if n <= |status| {
      assert Terminated(before)[..n] == Terminated([]) + status[..n];
      FieldsThenPiece([], status[..n]);
      TooFew(e, [status[..n]]);
    } else if |before| == 1 {
      assert Terminated(before)[..n] == Terminated(before) + "";
      FieldsThenPiece(before, "");
      TooFew(e, before);
    } else {
      CutFirstPath(e, n);
    }
  }

  lemma CutFirstPath(e: Entry, n: nat)
    requires WellFormedEntry(e) && |BeforeLast(e)| == 2 && |BeforeLast(e)[0]| < n <= |Terminated(BeforeLast(e))|
    ensures ParseFields(FieldsOf(Terminated(BeforeLast(e))[..n])) == Malformed
  {
    RecordParts(e);
    var before := BeforeLast(e);
    var status, path := before[0], before[1];
    var m := n - |status| - 1;
    assert before == [status, path] && before[1..] == [path] && [path][1..] == [] && [status][1..] == [];
    assert Terminated([status]) == status + ['\0'];
    assert Terminated(before) == status + ['\0'] + (path + ['\0']);
    if m <= |path| {
      var piece := path[..m];
      assert Terminated(before)[..n] == Terminated([status]) + piece;
      FieldsThenPiece([status], piece);
      TooFew(e, if piece == "" then [status] else [status] + [piece]);
    } else {
      assert Terminated(before)[..n] == Terminated(before) + "";
      FieldsThenPiece(before, "");
      TooFew(e, before);
    }
  }

  /** The first `n` characters end where a record ends. */
  ghost predicate AtRecordEnd(entries: seq<Entry>, n: nat) {
    exists j :: 0 <= j <= |entries| && n == |TextOf(entries[..j])|
  }

  /** The first `n` characters end in a piece of the last path of a record, safe or not. */
  ghost predicate InLastPath(entries: seq<Entry>, n: nat, safe: bool) {
    exists j :: 0 <= j < |entries| && CutsIn(entries, j, n, safe)
  }

  /** In the last path of record `j`. */
  predicate CutsIn(entries: seq<Entry>, j: nat, n: nat, safe: bool)
    requires j < |entries|
  {
    WellFormed(entries[j].change) && CutsLastPath(entries[j], n - |TextOf(entries[..j])|, safe)
  }

  lemma TextOfFirst(entries: seq<Entry>, j: nat)
    requires 0 < j <= |entries|
    ensures TextOf(entries[..j]) == RecordText(entries[0]) + TextOf(entries[1..][..j - 1])
  {
    assert entries[..j][1..] == entries[1..][..j - 1] && entries[..j][0] == entries[0];
    TerminatedAppend(RecordOf(entries[0]), Records(entries[1..][..j - 1]));
  }

  lemma EndsShift(entries: seq<Entry>, n: nat)
    requires entries != [] && n >= |RecordText(entries[0])| > 0
    ensures AtRecordEnd(entries, n) <==> AtRecordEnd(entries[1..], n - |RecordText(entries[0])|)
  {
    var rest, len := entries[1..], |RecordText(entries[0])|;
    if AtRecordEnd(entries, n) {
      var j :| 0 <= j <= |entries| && n == |TextOf(entries[..j])|;
      if j > 0 {
        TextOfFirst(entries, j);
        assert n - len == |TextOf(rest[..j - 1])|;
      }
    }
    if AtRecordEnd(rest, n - len) {
      var j :| 0 <= j <= |rest| && n - len == |TextOf(rest[..j])|;
      TextOfFirst(entries, j + 1);
      assert n == |TextOf(entries[..j + 1])|;
    }
  }

  lemma CutsInShift(entries: seq<Entry>, j: nat, n: nat, safe: bool)
    requires 0 < j < |entries| && n >= |RecordText(entries[0])|
    ensures CutsIn(entries, j, n, safe) <==> CutsIn(entries[1..], j - 1, n - |RecordText(entries[0])|, safe)
  {
    TextOfFirst(entries, j);
  }

  lemma NotInFirst(entries: seq<Entry>, n: nat, safe: bool)
    requires entries != [] && n >= |RecordText(entries[0])|
    ensures !CutsIn(entries, 0, n, safe)
  {
    assert entries[..0] == [];
  }

  lemma PathsForward(entries: seq<Entry>, n: nat, safe: bool)
    requires entries != [] && n >= |RecordText(entries[0])| && InLastPath(entries, n, safe)
    ensures InLastPath(entries[1..], n - |RecordText(entries[0])|, safe)
  {
    NotInFirst(entries, n, safe);
    var j :| 0 <= j < |entries| && CutsIn(entries, j, n, safe);
    CutsInShift(entries, j, n, safe);
  }

  lemma PathsBack(entries: seq<Entry>, n: nat, safe: bool)
    requires entries != [] && n >= |RecordText(entries[0])|
    requires InLastPath(entries[1..], n - |RecordText(entries[0])|, safe)
    ensures InLastPath(entries, n, safe)
  {
    var j :| 0 <= j < |entries[1..]| && CutsIn(entries[1..], j, n - |RecordText(entries[0])|, safe);
    CutsInShift(entries, j + 1, n, safe);
  }

  lemma PathsShift(entries: seq<Entry>, n: nat, safe: bool)
    requires entries != [] && n >= |RecordText(entries[0])|
    ensures InLastPath(entries, n, safe) <==> InLastPath(entries[1..], n - |RecordText(entries[0])|, safe)
  {
    if InLastPath(entries, n, safe) {
      PathsForward(entries, n, safe);
    } else if InLastPath(entries[1..], n - |RecordText(entries[0])|, safe) {
      PathsBack(entries, n, safe);
    }
  }

  /** Before the end of the first record only that record matters. */
  lemma WithinFirst(entries: seq<Entry>, n: nat, safe: bool)
    requires forall i :: 0 <= i < |entries| ==> WellFormedEntry(entries[i])
    requires entries != [] && 0 < n < |RecordText(entries[0])|
    ensures !AtRecordEnd(entries, n)
    ensures InLastPath(entries, n, safe) <==> WellFormed(entries[0].change) && CutsLastPath(entries[0], n, safe)
  {
    assert entries[..0] == [];
    forall j | 0 < j <= |entries| ensures |TextOf(entries[..j])| > n {
      TextOfFirst(entries, j);
    }
    forall j | 0 < j < |entries| ensures !CutsIn(entries, j, n, safe) {
      assert WellFormedEntry(entries[j]);
      RecordParts(entries[j]);
    }
    assert CutsIn(entries, 0, n, safe) <==> WellFormed(entries[0].change) && CutsLastPath(entries[0], n, safe);
  }

  /** What the reader makes of the first `n` characters. */
  function CutOutcome(entries: seq<Entry>, n: nat): Outcome
    requires n <= |TextOf(entries)|
  {
    ParseFields(FieldsOf(TextOf(entries)[..n]))
  }

  lemma CutLater(entries: seq<Entry>, n: nat)
    requires entries != [] && WellFormedEntry(entries[0]) && |RecordText(entries[0])| <= n <= |TextOf(entries)|
    ensures n - |RecordText(entries[0])| <= |TextOf(entries[1..])|
    ensures CutOutcome(entries, n) == Prepend(entries[0].change, CutOutcome(entries[1..], n - |RecordText(entries[0])|))
  {
    FirstRecordText(entries);
    var tail := TextOf(entries[1..])[..n - |RecordText(entries[0])|];
    assert TextOf(entries)[..n] == Terminated(RecordOf(entries[0])) + tail;
    RecordNulFree(entries[0]);
    FieldsAfter(RecordOf(entries[0]), tail);
    RecordReads(entries[0], FieldsOf(tail));
  }

  lemma CutNothing(entries: seq<Entry>)
    ensures CutOutcome(entries, 0) == Changes([]) && AtRecordEnd(entries, 0)
  {
    assert entries[..0] == [] && 0 == |TextOf(entries[..0])|;
    assert TextOf(entries)[..0] == "" && Split("", '\0') == [""];
  }

  /** Record `j` with the piece of its last path that a cut after `n` characters leaves. */
  function CutChange(entries: seq<Entry>, j: nat, n: nat): Change
    requires j < |entries| && CutsIn(entries, j, n, true)
  {
    var e := entries[j];
    Shortened(e.change, LastPath(e)[..n - |TextOf(entries[..j])| - LastStart(e)])
  }

  /** What is read where the cut falls at the end of the first `j` records. */
  ghost predicate ReadsWhole(entries: seq<Entry>, n: nat, j: nat)
    requires n <= |TextOf(entries)| && j <= |entries|
  {
    n == |TextOf(entries[..j])| ==> CutOutcome(entries, n) == Changes(ChangesOf(entries[..j]))
  }

  /** What is read where it leaves a safe piece of the last path of record `j`. */
  ghost predicate ReadsPiece(entries: seq<Entry>, n: nat, j: nat)
    requires n <= |TextOf(entries)| && j < |entries|
  {
    CutsIn(entries, j, n, true) ==>
      CutOutcome(entries, n) == Changes(ChangesOf(entries[..j]) + [CutChange(entries, j, n)])
  }

  /** Read, refused for the path, or refused for a missing field, by where the cut falls. */
  ghost predicate ReadOrRefused(entries: seq<Entry>, n: nat)
    requires n <= |TextOf(entries)|
  {
    && (forall j :: 0 <= j <= |entries| ==> ReadsWhole(entries, n, j))
    && (forall j :: 0 <= j < |entries| ==> ReadsPiece(entries, n, j))
    && Refused(entries, n)
  }

  ghost predicate Refused(entries: seq<Entry>, n: nat)
    requires n <= |TextOf(entries)|
  {
    !AtRecordEnd(entries, n) && !InLastPath(entries, n, true) ==>
      CutOutcome(entries, n) == if InLastPath(entries, n, false) then UnsafePath else Malformed
  }

  function PrependAll(cs: seq<Change>, o: Outcome): Outcome {
    if o.Changes? then Changes(cs + o.changes) else o
  }

  /** Whole records in front of any text are read, and then the text. */
  lemma {:induction false} FrontReads(front: seq<Entry>, tail: string)
    requires forall i :: 0 <= i < |front| ==> WellFormedEntry(front[i])
    ensures ParseFields(FieldsOf(TextOf(front) + tail)) == PrependAll(ChangesOf(front), ParseFields(FieldsOf(tail)))
  {
    if front == [] {
      assert TextOf(front) + tail == tail;
    } else {
      var e, rest := front[0], front[1..];
      assert WellFormedEntry(e);
      FrontReads(rest, tail);
      FirstReads(front, tail);
      PrependsAssociate(e.change, ChangesOf(rest), ParseFields(FieldsOf(tail)));
    }
  }

  lemma PrependsAssociate(c: Change, cs: seq<Change>, o: Outcome)
    ensures Prepend(c, PrependAll(cs, o)) == PrependAll([c] + cs, o)
  {
    if o.Changes? {
      assert [c] + (cs + o.changes) == [c] + cs + o.changes;
    }
  }

  lemma AppendAssociates(a: string, b: string, c: string)
    ensures (a + b) + c == a + (b + c)
  {
  }

  lemma FirstReads(front: seq<Entry>, tail: string)
    requires front != [] && WellFormedEntry(front[0])
    ensures ParseFields(FieldsOf(TextOf(front) + tail)) ==
            Prepend(front[0].change, ParseFields(FieldsOf(TextOf(front[1..]) + tail)))
  {
    FirstRecordText(front);
    var later := TextOf(front[1..]) + tail;
    AppendAssociates(RecordText(front[0]), TextOf(front[1..]), tail);
    RecordNulFree(front[0]);
    FieldsAfter(RecordOf(front[0]), later);
    RecordReads(front[0], FieldsOf(later));
  }

  lemma {:induction false} TextSplits(entries: seq<Entry>, j: nat)
    requires j <= |entries|
    ensures TextOf(entries) == TextOf(entries[..j]) + TextOf(entries[j..])
  {
    if j > 0 {
      FirstRecordText(entries);
      TextOfFirst(entries, j);
      TextSplits(entries[1..], j - 1);
      assert entries[1..][j - 1..] == entries[j..];
    } else {
      assert entries[..0] == [] && entries[0..] == entries;
    }
  }

  lemma WholeRead(entries: seq<Entry>, n: nat, j: nat)
    requires n <= |TextOf(entries)| && j <= |entries| && forall i :: 0 <= i < |entries| ==> WellFormedEntry(entries[i])
    ensures ReadsWhole(entries, n, j)
  {
    if n == |TextOf(entries[..j])| {
      TextSplits(entries, j);
      RoundTrip(entries[..j]);
      assert TextOf(entries)[..n] == TextOf(entries[..j]);
    }
  }

  lemma PieceRead(entries: seq<Entry>, n: nat, j: nat)
    requires n <= |TextOf(entries)| && j < |entries| && forall i :: 0 <= i < |entries| ==> WellFormedEntry(entries[i])
    ensures ReadsPiece(entries, n, j)
  {
    if CutsIn(entries, j, n, true) {
      assert WellFormedEntry(entries[j]);
      CutPieceReads(entries, j, n - |TextOf(entries[..j])|);
    }
  }

  lemma CutPieceReads(entries: seq<Entry>, j: nat, m: int)
    requires j < |entries| && forall i :: 0 <= i < |entries| ==> WellFormedEntry(entries[i])
    requires WellFormedEntry(entries[j]) && CutsLastPath(entries[j], m, true)
    ensures 0 <= |TextOf(entries[..j])| + m <= |TextOf(entries)|
    ensures CutOutcome(entries, |TextOf(entries[..j])| + m) ==
            Changes(ChangesOf(entries[..j]) + [Shortened(entries[j].change, LastPath(entries[j])[..m - LastStart(entries[j])])])
  {
    RecordParts(entries[j]);
    CutText(entries, j, m);
    CutOneRecord(entries[j], m);
    FrontReads(entries[..j], RecordText(entries[j])[..m]);
  }

  lemma CutText(entries: seq<Entry>, j: nat, m: nat)
    requires j < |entries| && m <= |RecordText(entries[j])|
    ensures |TextOf(entries[..j])| + m <= |TextOf(entries)|
    ensures TextOf(entries)[..|TextOf(entries[..j])| + m] == TextOf(entries[..j]) + RecordText(entries[j])[..m]
  {
    TextSplits(entries, j);
    FirstRecordText(entries[j..]);
  }

  lemma CutFirst(entries: seq<Entry>, n: nat)
    requires entries != [] && forall i :: 0 <= i < |entries| ==> WellFormedEntry(entries[i])
    requires 0 < n < |RecordText(entries[0])|
    ensures n <= |TextOf(entries)| && Refused(entries, n)
  {
    FirstRecordText(entries);
    assert WellFormedEntry(entries[0]);
    assert TextOf(entries)[..n] == RecordText(entries[0])[..n];
    CutOneRecord(entries[0], n);
    WithinFirst(entries, n, true);
    WithinFirst(entries, n, false);
  }

  lemma {:induction false} CutRefused(entries: seq<Entry>, n: nat)
    requires n <= |TextOf(entries)| && forall i :: 0 <= i < |entries| ==> WellFormedEntry(entries[i])
    ensures Refused(entries, n)
    decreases |entries|
  {
    if n == 0 {
      CutNothing(entries);
    } else {
      assert WellFormedEntry(entries[0]);
      RecordParts(entries[0]);
      var len := |RecordText(entries[0])|;
      if n < len {
        CutFirst(entries, n);
      } else {
        CutLater(entries, n);
        CutRefused(entries[1..], n - len);
        EndsShift(entries, n);
        PathsShift(entries, n, true);
        PathsShift(entries, n, false);
      }
    }
  }

  /** Cut after any number of characters, the text is read exactly when the cut falls at the end of a
      record or leaves a safe path of a record's last path: as the records before it, and in the second
      case as one more with the path that is left. A piece that is not safe is refused as such, any other
      cut as malformed. */
  lemma {:induction false} CutAnywhereExact(entries: seq<Entry>, n: nat)
    requires n <= |TextOf(entries)| && forall i :: 0 <= i < |entries| ==> WellFormedEntry(entries[i])
    ensures ReadOrRefused(entries, n)
  {
    forall j | 0 <= j <= |entries| ensures ReadsWhole(entries, n, j) {
      WholeRead(entries, n, j);
    }
    forall j | 0 <= j < |entries| ensures ReadsPiece(entries, n, j) {
      PieceRead(entries, n, j);
    }
    CutRefused(entries, n);
  }

  /** So a cut inside a path can go unnoticed: what is left of the path is read as the path. */
  lemma CutInsidePathIsRead()
    ensures var e := Entry(Change('A', None, Some("ab")), "");
            && WellFormedEntry(e) && InLastPath([e], 3, true)
            && ParseFields(FieldsOf(TextOf([e])[..3])) == Changes([Change('A', None, Some("a"))])
  {
    var e := Entry(Change('A', None, Some("ab")), "");
    OnePart("a");
    OnePart("ab");
    TwoFields(e);
    OneEntryCut(e, 3);
  }

  lemma {:induction false} OneEntryCut(e: Entry, m: nat)
    requires WellFormedEntry(e) && CutsLastPath(e, m, true)
    ensures m <= |TextOf([e])| && InLastPath([e], m, true)
    ensures CutOutcome([e], m) == Changes([Shortened(e.change, LastPath(e)[..m - LastStart(e)])])
  {
    RecordParts(e);
    FirstRecordText([e]);
    PrefixOfAppend(RecordText(e), TextOf([e][1..]), m);
    CutOneRecord(e, m);
    OneEntryCutsIn(e, m);
  }

  lemma PrefixOfAppend(a: string, b: string, m: nat)
    requires m <= |a|
    ensures (a + b)[..m] == a[..m]
  {
  }

  lemma {:induction false} OneEntryCutsIn(e: Entry, m: nat)
    requires WellFormedEntry(e) && CutsLastPath(e, m, true)
    ensures InLastPath([e], m, true)
  {
    assert [e][..0] == [] && TextOf([]) == "";
    assert CutsIn([e], 0, m, true);
  }

  /** An entry that prints as a status, a path and nothing else. */
  lemma TwoFields(e: Entry)
    requires e == Entry(Change('A', None, Some("ab")), "") && WellFormedEntry(e)
    ensures LastStart(e) == 2 && LastPath(e)[..1] == "a"
  {
    assert ['A'] + "" == "A";
    assert RecordOf(e) == ["A", "ab"] && ["A", "ab"][1..] == ["ab"] && ["ab"][1..] == [];
    assert Terminated(["ab"]) == "ab" + ['\0'];
    assert |RecordText(e)| == 5;
  }

  lemma OnePart(p: string)
    requires p == "a" || p == "ab"
    ensures ValidatePath(p) == Some(p)
  {
    SplitFirst(p, '/', "");
    PartsStay([p]);
  }
}
