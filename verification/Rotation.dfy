/** The segment manifest (src/audit/rotation.ts): closed files are summarized, sealed in order, and later
    compared with what is on disk. */
module Rotation {
  import opened Wrappers
  import opened Text
  import opened Chain

  // ----- where files are

  /** Where the process runs, where the audit file is, and where its manifest is. Directories have no
      trailing slash; "" is the working directory itself. */
  datatype Layout = Layout(cwd: string, dir: string, base: string, manifestDir: string)

  predicate IsAbsolute(p: string) { p != "" && p[0] == '/' }

  /** path.join of a directory and a relative path. */
  function Under(dir: string, p: string): string { if dir == "" then p else dir + "/" + p }

  /** Where the file system finds a path. */
  function Resolve(l: Layout, p: string): string { if IsAbsolute(p) then p else Under(l.cwd, p) }

  /** resolveSegmentPath. */
  function SegmentPath(l: Layout, p: string): string {
    if IsAbsolute(p) then p else Resolve(l, Under(l.manifestDir, p))
  }

  function AuditPath(l: Layout): string { Under(l.dir, l.base) }

  function ClosedPath(l: Layout, name: string): string { Under(l.dir, name) }

  function ManifestHome(l: Layout): string { if l.manifestDir == "" then l.cwd else Resolve(l, l.manifestDir) }

  /** A manifest entry written for a closed file names that file again on reading exactly when the audit
      directory is absolute or the manifest lies in the working directory. */
  lemma SegmentPathFindsFile(l: Layout, name: string)
    requires l.cwd != "" && !IsAbsolute(name)
    ensures SegmentPath(l, ClosedPath(l, name)) == Resolve(l, ClosedPath(l, name))
       <==> IsAbsolute(l.dir) || ManifestHome(l) == l.cwd
  {
    var p := ClosedPath(l, name);
    if l.dir != "" { assert p[0] == l.dir[0]; }
    if !IsAbsolute(l.dir) {
      var q := SegmentPath(l, p);
      assert q == ManifestHome(l) + ("/" + p) by {
        if l.manifestDir != "" {
          assert Under(l.manifestDir, p)[0] == l.manifestDir[0];
          assert l.cwd + "/" + (l.manifestDir + "/" + p) == (l.cwd + "/" + l.manifestDir) + ("/" + p);
        }
      }
      assert Resolve(l, p) == l.cwd + ("/" + p);
      SameTail(ManifestHome(l), l.cwd, "/" + p);
    }
  }

  lemma SameTail(a: string, b: string, t: string)
    ensures a + t == b + t ==> a == b
  {
    if a + t == b + t {
      assert |a| == |b| && (a + t)[..|a|] == a && (b + t)[..|b|] == b;
    }
  }

  // ----- the shape of one file

  datatype Summary = Summary(count: nat, firstIndex: int, lastIndex: int, finalHash: string)

  function Shape(es: seq<Event>): Option<Summary> {
    if es == [] then None
    else Some(Summary(|es|, es[0].integrity.chainIndex, es[|es| - 1].integrity.chainIndex, es[|es| - 1].integrity.hash))
  }

  lemma {:induction false} RecordsAppend(read: Reader, a: seq<Chunk>, b: seq<Chunk>)
    ensures Records(read, a + b) == Records(read, a) + Records(read, b)
    decreases a
  {
    if a == [] {
      assert a + b == b;
    } else {
      assert (a + b)[1..] == a[1..] + b;
      RecordsAppend(read, a[1..], b);
    }
  }

  /** summarizeSegment on a file's text. */
  method SummarizeSegment(read: Reader, raw: string) returns (s: Option<Summary>)
    ensures s == Shape(Events(read, raw))
  {
    hide Chunks;
    var lines := Chunks(raw);
    var first, last: Option<Event> := None, None;
    var count := 0;
    assert lines[..0] == [];
    for i := 0 to |lines|
      invariant var es := Records(read, lines[..i]);
                && count == |es|
                && first == (if es == [] then None else Some(es[0]))
                && last == (if es == [] then None else Some(es[|es| - 1]))
    {
      assert lines[..i + 1] == lines[..i] + [lines[i]];
      RecordsAppend(read, lines[..i], [lines[i]]);
      match read(lines[i].text) {
        case Record(e) =>
          assert Records(read, [lines[i]]) == [e];
          if first.None? { first := Some(e); }
          last := Some(e);
          count := count + 1;
        case _ =>
          assert Records(read, [lines[i]]) == [];
      }
    }
    assert lines[..|lines|] == lines;
    if first.None? || last.None? { return None; }
    return Some(Summary(count, first.value.integrity.chainIndex, last.value.integrity.chainIndex, last.value.integrity.hash));
  }

  // ----- manifest entries

  datatype Entry = Entry(path: string, count: int, firstIndex: int, lastIndex: int, finalHash: string,
                         previousSegmentHash: Option<string>, sealedAt: string, entryHash: string)

  /** JSON.stringify of the hashed fields of an entry. */
  function EntryText(e: Entry): string {
    "{\"path\":" + (Quote(e.path) + ("," + (Counts(e) + Links(e))))
  }

  function Counts(e: Entry): string {
    "\"count\":" + (Integer(e.count) + [','] + ("\"firstIndex\":" + (Integer(e.firstIndex) + [',']
      + ("\"lastIndex\":" + (Integer(e.lastIndex) + [','])))))
  }

  function Links(e: Entry): string {
    "\"finalHash\":" + (Quote(e.finalHash) + (",\"previousSegmentHash\":" + (QuoteOrNull(e.previousSegmentHash)
      + (",\"sealedAt\":" + (Quote(e.sealedAt) + "}")))))
  }

  lemma FieldCut(key: string, i: int, r: string, j: int, t: string)
    requires key + (Integer(i) + [','] + r) == key + (Integer(j) + [','] + t)
    ensures i == j && r == t
  {
    SameHead(key, Integer(i) + [','] + r, Integer(j) + [','] + t);
    IntegerNoComma(i);
    IntegerNoComma(j);
    CutAt(Integer(i), Integer(j), ',', r, t);
    IntegerInjective(i, j);
  }

  lemma CountsCut(d: Entry, e: Entry, r: string, t: string)
    requires Counts(d) + r == Counts(e) + t
    ensures d.count == e.count && d.firstIndex == e.firstIndex && d.lastIndex == e.lastIndex && r == t
  {
    hide Integer;
    var d2, e2 := "\"lastIndex\":" + (Integer(d.lastIndex) + [',']), "\"lastIndex\":" + (Integer(e.lastIndex) + [',']);
    var d1, e1 := "\"firstIndex\":" + (Integer(d.firstIndex) + [','] + d2), "\"firstIndex\":" + (Integer(e.firstIndex) + [','] + e2);
    assert Counts(d) + r == "\"count\":" + (Integer(d.count) + [','] + (d1 + r));
    assert Counts(e) + t == "\"count\":" + (Integer(e.count) + [','] + (e1 + t));
    FieldCut("\"count\":", d.count, d1 + r, e.count, e1 + t);
    assert d1 + r == "\"firstIndex\":" + (Integer(d.firstIndex) + [','] + (d2 + r));
    assert e1 + t == "\"firstIndex\":" + (Integer(e.firstIndex) + [','] + (e2 + t));
    FieldCut("\"firstIndex\":", d.firstIndex, d2 + r, e.firstIndex, e2 + t);
    assert d2 + r == "\"lastIndex\":" + (Integer(d.lastIndex) + [','] + r);
    assert e2 + t == "\"lastIndex\":" + (Integer(e.lastIndex) + [','] + t);
    FieldCut("\"lastIndex\":", d.lastIndex, r, e.lastIndex, t);
  }

  lemma LinksCut(d: Entry, e: Entry)
    requires Links(d) == Links(e)
    ensures d.finalHash == e.finalHash && d.previousSegmentHash == e.previousSegmentHash && d.sealedAt == e.sealedAt
  {
    hide Quote, QuoteOrNull;
    var d2, e2 := ",\"sealedAt\":" + (Quote(d.sealedAt) + "}"), ",\"sealedAt\":" + (Quote(e.sealedAt) + "}");
    var d1 := ",\"previousSegmentHash\":" + (QuoteOrNull(d.previousSegmentHash) + d2);
    var e1 := ",\"previousSegmentHash\":" + (QuoteOrNull(e.previousSegmentHash) + e2);
    SameHead("\"finalHash\":", Quote(d.finalHash) + d1, Quote(e.finalHash) + e1);
    QuotePrefixFree(d.finalHash, e.finalHash, d1, e1);
    SameHead(",\"previousSegmentHash\":", QuoteOrNull(d.previousSegmentHash) + d2, QuoteOrNull(e.previousSegmentHash) + e2);
    QuoteOrNullPrefixFree(d.previousSegmentHash, e.previousSegmentHash, d2, e2);
    SameHead(",\"sealedAt\":", Quote(d.sealedAt) + "}", Quote(e.sealedAt) + "}");
    QuotePrefixFree(d.sealedAt, e.sealedAt, "}", "}");
  }

  /** The hashed text of an entry fixes every field but the hash itself. */
  lemma EntryTextInjective(d: Entry, e: Entry)
    ensures EntryText(d) == EntryText(e) <==> d.(entryHash := e.entryHash) == e
  {
    hide Quote, Counts, Links;
    if EntryText(d) == EntryText(e) {
      var dr, er := Counts(d) + Links(d), Counts(e) + Links(e);
      SameHead("{\"path\":", Quote(d.path) + ("," + dr), Quote(e.path) + ("," + er));
      QuotePrefixFree(d.path, e.path, "," + dr, "," + er);
      SameHead(",", dr, er);
      CountsCut(d, e, Links(d), Links(e));
      LinksCut(d, e);
    }
    if d.(entryHash := e.entryHash) == e { SameFields(d, e); }
  }

  lemma NewEntryHashed(k: Kit, entries: seq<Entry>, path: string, s: Summary, now: string)
    ensures var e := NewEntry(k, entries, path, s, now); k.hash(EntryText(e)) == e.entryHash
  {
    hide EntryText;
    var e := NewEntry(k, entries, path, s, now);
    EntryTextInjective(e.(entryHash := ""), e);
  }

  lemma SameFields(d: Entry, e: Entry)
    requires d.(entryHash := e.entryHash) == e
    ensures EntryText(d) == EntryText(e)
  {
    hide Quote, QuoteOrNull, Integer;
  }

  // ----- sealing

  /** What reading evidence needs: how a line reads, the hash, and the layout. */
  datatype Kit = Kit(read: Reader, gaps: Gaps, hash: Hash, layout: Layout)

  /** A file's text by the path the file system finds it under. */
  type Files = map<string, string>

  /** summarizeSegment on a path; a file that is not there has no shape. */
  function ShapeAt(k: Kit, files: Files, at: string): Option<Summary> {
    if at in files then Shape(Events(k.read, files[at])) else None
  }

  function Finals(entries: seq<Entry>): seq<string> {
    seq(|entries|, i requires 0 <= i < |entries| => entries[i].finalHash)
  }

  function Head(entries: seq<Entry>): Option<string> {
    if entries == [] then None else Some(entries[|entries| - 1].finalHash)
  }

  function NewEntry(k: Kit, entries: seq<Entry>, path: string, s: Summary, now: string): Entry {
    var e := Entry(path, s.count, s.firstIndex, s.lastIndex, s.finalHash, Head(entries), now, "");
    e.(entryHash := k.hash(EntryText(e)))
  }

  /** The manifest after sealing one path: a file already sealed, by its final hash, is not sealed again. */
  function Sealed(k: Kit, files: Files, entries: seq<Entry>, path: string, now: string): seq<Entry> {
    match ShapeAt(k, files, Resolve(k.layout, path))
    case None => entries
    case Some(s) => if s.finalHash in Finals(entries) then entries else entries + [NewEntry(k, entries, path, s, now)]
  }

  function Adopted(k: Kit, files: Files, entries: seq<Entry>, paths: seq<string>, now: string): seq<Entry>
    decreases paths
  {
    if paths == [] then entries else Adopted(k, files, Sealed(k, files, entries, paths[0], now), paths[1..], now)
  }

  /** The manifest file; `entries` are its lines. */
  class Manifest {
    var entries: seq<Entry>

    constructor ()
      ensures entries == []
    {
      entries := [];
    }

    /** sealSegment. Returns the entry that stands for the file now, new or old. */
    method SealSegment(k: Kit, files: Files, path: string, now: string) returns (record: Option<Entry>)
      modifies this
      ensures entries == Sealed(k, files, old(entries), path, now)
      ensures record.Some? <==> ShapeAt(k, files, Resolve(k.layout, path)).Some?
      ensures record.Some? ==> record.value in entries
      ensures record.Some? ==> record.value.finalHash == ShapeAt(k, files, Resolve(k.layout, path)).value.finalHash
    {
      hide EntryText, Events;
      var at := Resolve(k.layout, path);
      if at !in files { return None; }
      var summary := SummarizeSegment(k.read, files[at]);
      if summary.None? { return None; }
      var s := summary.value;
      for i := 0 to |entries|
        invariant forall j | 0 <= j < i :: entries[j].finalHash != s.finalHash
      {
        if entries[i].finalHash == s.finalHash {
          assert Finals(entries)[i] == s.finalHash;
          return Some(entries[i]);
        }
      }
      var made := NewEntry(k, entries, path, s, now);
      entries := entries + [made];
      assert entries[|entries| - 1] == made;
      return Some(made);
    }

    /** adoptExistingSegments. */
    method AdoptExistingSegments(k: Kit, files: Files, paths: seq<string>, now: string)
      modifies this
      ensures entries == Adopted(k, files, old(entries), paths, now)
    {
      hide Sealed, ShapeAt;
      assert paths[0..] == paths;
      for i := 0 to |paths|
        invariant Adopted(k, files, entries, paths[i..], now) == Adopted(k, files, old(entries), paths, now)
      {
        assert paths[i..][1..] == paths[i + 1..] && paths[i..][0] == paths[i];
        var record := SealSegment(k, files, paths[i], now);
      }
    }
  }

  // ----- verifying the manifest

  datatype Difference = Unreadable | FinalHashDiffers | CountDiffers | FirstIndexDiffers | LastIndexDiffers

  datatype ManifestProblem = EntryHashMismatch(i: nat) | LinkBroken(i: nat)
                           | ContentMismatch(i: nat, differences: seq<Difference>) | SegmentMissing(i: nat)

  function Differences(e: Entry, actual: Option<Summary>): seq<Difference> {
    match actual
    case None => [Unreadable]
    case Some(s) =>
      (if s.finalHash != e.finalHash then [FinalHashDiffers] else [])
      + (if s.count != e.count then [CountDiffers] else [])
      + (if s.firstIndex != e.firstIndex then [FirstIndexDiffers] else [])
      + (if s.lastIndex != e.lastIndex then [LastIndexDiffers] else [])
  }

  function ContentProblems(k: Kit, files: Files, e: Entry, i: nat): seq<ManifestProblem> {
    var at := SegmentPath(k.layout, e.path);
    if at !in files then [SegmentMissing(i)]
    else
      var ds := Differences(e, Shape(Events(k.read, files[at])));
      if ds != [] then [ContentMismatch(i, ds)] else []
  }

  function EntryProblems(k: Kit, files: Files, e: Entry, i: nat, expectedPrev: Option<string>): seq<ManifestProblem> {
    (if k.hash(EntryText(e)) != e.entryHash then [EntryHashMismatch(i)] else [])
    + (if e.previousSegmentHash != expectedPrev then [LinkBroken(i)] else [])
    + ContentProblems(k, files, e, i)
  }

  function ManifestProblems(k: Kit, files: Files, entries: seq<Entry>): seq<ManifestProblem> {
    if entries == [] then []
    else
      var n := |entries| - 1;
      ManifestProblems(k, files, entries[..n]) + EntryProblems(k, files, entries[n], n, Head(entries[..n]))
  }

  function RecordTotal(entries: seq<Entry>): int {
    if entries == [] then 0 else RecordTotal(entries[..|entries| - 1]) + entries[|entries| - 1].count
  }

  datatype ManifestReport = ManifestReport(ok: bool, segments: nat, records: int, problems: seq<ManifestProblem>, head: Option<string>)

  function ManifestVerdict(k: Kit, files: Files, entries: seq<Entry>): ManifestReport {
    var ps := ManifestProblems(k, files, entries);
    ManifestReport(ps == [], |entries|, RecordTotal(entries), ps, Head(entries))
  }

  /** One entry against the file it names. */
  method CompareSegment(k: Kit, files: Files, e: Entry, i: nat) returns (problems: seq<ManifestProblem>)
    ensures problems == ContentProblems(k, files, e, i)
  {
    hide Events;
    var resolved := SegmentPath(k.layout, e.path);
    if resolved !in files { return [SegmentMissing(i)]; }
    var actual := SummarizeSegment(k.read, files[resolved]);
    var differences: seq<Difference> := [];
    match actual {
      case None => differences := [Unreadable];
      case Some(s) =>
        if s.finalHash != e.finalHash { differences := differences + [FinalHashDiffers]; }
        if s.count != e.count { differences := differences + [CountDiffers]; }
        if s.firstIndex != e.firstIndex { differences := differences + [FirstIndexDiffers]; }
        if s.lastIndex != e.lastIndex { differences := differences + [LastIndexDiffers]; }
    }
    assert differences == Differences(e, actual);
    return if differences != [] then [ContentMismatch(i, differences)] else [];
  }

  /** verifyManifest. */
  method VerifyManifest(k: Kit, files: Files, entries: seq<Entry>) returns (v: ManifestReport)
    ensures v == ManifestVerdict(k, files, entries)
  {
    hide EntryProblems, ManifestProblems, RecordTotal;
    var problems: seq<ManifestProblem> := [];
    var records := 0;
    var expectedPrev: Option<string> := None;
    assert entries[..0] == [];
    NothingToReport(k, files);
    for i := 0 to |entries|
      invariant problems == ManifestProblems(k, files, entries[..i])
      invariant records == RecordTotal(entries[..i])
      invariant expectedPrev == Head(entries[..i])
    {
      var found := CheckEntry(k, files, entries[i], i, expectedPrev);
      OneMoreEntry(k, files, entries, i);
      records := records + entries[i].count;
      problems := problems + found;
      expectedPrev := Some(entries[i].finalHash);
    }
    assert entries[..|entries|] == entries;
    return ManifestReport(problems == [], |entries|, records, problems, Head(entries));
  }

  /** One turn of the loop: the entry's hash, its link, and the file it names. */
  method CheckEntry(k: Kit, files: Files, e: Entry, i: nat, expectedPrev: Option<string>) returns (problems: seq<ManifestProblem>)
    ensures problems == EntryProblems(k, files, e, i, expectedPrev)
  {
    hide EntryText, ContentProblems;
    problems := [];
    if k.hash(EntryText(e)) != e.entryHash { problems := problems + [EntryHashMismatch(i)]; }
    if e.previousSegmentHash != expectedPrev { problems := problems + [LinkBroken(i)]; }
    var content := CompareSegment(k, files, e, i);
    problems := problems + content;
  }

  lemma NothingToReport(k: Kit, files: Files)
    ensures ManifestProblems(k, files, []) == [] && RecordTotal([]) == 0
  {
  }

  lemma OneMoreEntry(k: Kit, files: Files, entries: seq<Entry>, i: nat)
    requires i < |entries|
    ensures ManifestProblems(k, files, entries[..i + 1])
         == ManifestProblems(k, files, entries[..i]) + EntryProblems(k, files, entries[i], i, Head(entries[..i]))
    ensures RecordTotal(entries[..i + 1]) == RecordTotal(entries[..i]) + entries[i].count
    ensures Head(entries[..i + 1]) == Some(entries[i].finalHash)
  {
    hide EntryProblems;
    assert entries[..i + 1][..i] == entries[..i];
  }

  // ----- what a clean manifest means

  /** An entry that hashes to its own hash, links to the one before it and matches its file. */
  predicate EntrySound(k: Kit, files: Files, entries: seq<Entry>, i: nat)
    requires i < |entries|
  {
    var e := entries[i];
    && k.hash(EntryText(e)) == e.entryHash
    && e.previousSegmentHash == (if i == 0 then None else Some(entries[i - 1].finalHash))
    && var s := ShapeAt(k, files, SegmentPath(k.layout, e.path));
       s.Some? && s.value == Summary(s.value.count, e.firstIndex, e.lastIndex, e.finalHash) && s.value.count == e.count
  }

  lemma EntrySoundExactly(k: Kit, files: Files, entries: seq<Entry>, i: nat)
    requires i < |entries|
    ensures EntryProblems(k, files, entries[i], i, Head(entries[..i])) == [] <==> EntrySound(k, files, entries, i)
  {
    hide EntryText, Events;
    var e := entries[i];
    assert i > 0 ==> entries[..i][i - 1] == entries[i - 1];
  }

  /** The manifest verifies exactly when every entry is sound. */
  lemma {:induction false} ManifestCleanExactly(k: Kit, files: Files, entries: seq<Entry>)
    ensures ManifestVerdict(k, files, entries).ok <==> forall i | 0 <= i < |entries| :: EntrySound(k, files, entries, i)
    decreases entries
  {
    hide EntryProblems, EntrySound;
    if entries != [] {
      var n := |entries| - 1;
      ManifestCleanExactly(k, files, entries[..n]);
      EntrySoundExactly(k, files, entries, n);
      forall i | 0 <= i < n
        ensures EntrySound(k, files, entries[..n], i) == EntrySound(k, files, entries, i)
      {
        EntrySoundPrefix(k, files, entries, n, i);
      }
    }
  }

  lemma EntrySoundPrefix(k: Kit, files: Files, entries: seq<Entry>, n: nat, i: nat)
    requires i < n <= |entries|
    ensures EntrySound(k, files, entries[..n], i) == EntrySound(k, files, entries, i)
  {
    hide EntryText, ShapeAt;
    assert entries[..n][i] == entries[i];
    assert i > 0 ==> entries[..n][i - 1] == entries[i - 1];
  }

  /** Sealing appends at most one entry, never twice for one final hash, and only ever at the end. */
  lemma SealIsIdempotent(k: Kit, files: Files, entries: seq<Entry>, path: string, now: string, later: string)
    ensures var once := Sealed(k, files, entries, path, now);
            && Sealed(k, files, once, path, later) == once
            && entries <= once && |once| <= |entries| + 1
  {
    hide EntryText, ShapeAt;
    var once := Sealed(k, files, entries, path, now);
    if once != entries {
      var e := once[|entries|];
      assert Finals(once)[|entries|] == e.finalHash;
    }
  }

  /** Sealing keeps a clean manifest clean exactly when it adds nothing, or the path it was given, read back as
      a manifest entry's, leads to a file of the same shape. */
  lemma SealKeepsClean(k: Kit, files: Files, entries: seq<Entry>, path: string, now: string)
    requires ManifestVerdict(k, files, entries).ok
    ensures var once := Sealed(k, files, entries, path, now);
            ManifestVerdict(k, files, once).ok
            <==> once == entries || ShapeAt(k, files, SegmentPath(k.layout, path)) == ShapeAt(k, files, Resolve(k.layout, path))
  {
    hide EntryText, Events, Resolve, SegmentPath;
    var once := Sealed(k, files, entries, path, now);
    if once != entries {
      var n := |entries|;
      assert once[..n] == entries;
      NewEntryHashed(k, entries, path, ShapeAt(k, files, Resolve(k.layout, path)).value, now);
      EntrySoundExactly(k, files, once, n);
    }
  }

  lemma {:induction false} AdoptKeepsClean(k: Kit, files: Files, entries: seq<Entry>, paths: seq<string>, now: string)
    requires ManifestVerdict(k, files, entries).ok
    requires forall p | p in paths :: SegmentPath(k.layout, p) == Resolve(k.layout, p)
    ensures ManifestVerdict(k, files, Adopted(k, files, entries, paths, now)).ok
    decreases paths
  {
    hide ManifestVerdict, Sealed, SegmentPath, Resolve;
    if paths != [] {
      SealKeepsClean(k, files, entries, paths[0], now);
      AdoptKeepsClean(k, files, Sealed(k, files, entries, paths[0], now), paths[1..], now);
    }
  }

  /** A file sealed a moment ago is reported missing when nothing stands where its entry is looked up: with a
      relative audit directory and a manifest elsewhere than the working directory, the entry is resolved twice. */
  lemma SealReportsMissing(k: Kit, files: Files, path: string, now: string)
    requires ShapeAt(k, files, Resolve(k.layout, path)).Some? && SegmentPath(k.layout, path) !in files
    ensures ManifestVerdict(k, files, Sealed(k, files, [], path, now)).problems == [SegmentMissing(0)]
  {
    hide EntryText, Events, Resolve, SegmentPath;
    var sealed := Sealed(k, files, [], path, now);
    assert sealed[..0] == [];
    NewEntryHashed(k, [], path, ShapeAt(k, files, Resolve(k.layout, path)).value, now);
    assert EntryProblems(k, files, sealed[0], 0, None) == [SegmentMissing(0)];
    assert ManifestProblems(k, files, sealed) == ManifestProblems(k, files, []) + [SegmentMissing(0)];
  }

  // ----- finding closed files

  /** A name beside the live file that a rotation could have given. */
  predicate ClosedName(base: string, name: string) {
    base + "." <= name && !(|name| >= 5 && name[|name| - 5..] == ".lock")
  }

  /** discoverClosedSegments: `listing` holds the directory's names, oldest first. */
  function Discovered(k: Kit, files: Files, listing: seq<string>): seq<string> {
    if listing == [] then []
    else
      var path := ClosedPath(k.layout, listing[0]);
      (if ClosedName(k.layout.base, listing[0]) && ShapeAt(k, files, Resolve(k.layout, path)).Some? then [path] else [])
      + Discovered(k, files, listing[1..])
  }

  /** Whether one name of the directory is a closed segment. */
  method LooksClosed(k: Kit, files: Files, name: string) returns (closed: bool)
    ensures closed <==> ClosedName(k.layout.base, name) && ShapeAt(k, files, Resolve(k.layout, ClosedPath(k.layout, name))).Some?
  {
    hide Events, ClosedName, ClosedPath, Resolve;
    var at := Resolve(k.layout, ClosedPath(k.layout, name));
    if !ClosedName(k.layout.base, name) || at !in files { return false; }
    var summary := SummarizeSegment(k.read, files[at]);
    return summary.Some?;
  }

  lemma NoneDiscovered(k: Kit, files: Files)
    ensures Discovered(k, files, []) == []
  {
  }

  lemma DiscoveredStep(k: Kit, files: Files, listing: seq<string>, i: nat)
    requires i < |listing|
    ensures Discovered(k, files, listing[i..])
         == (if ClosedName(k.layout.base, listing[i]) && ShapeAt(k, files, Resolve(k.layout, ClosedPath(k.layout, listing[i]))).Some?
             then [ClosedPath(k.layout, listing[i])] else [])
            + Discovered(k, files, listing[i + 1..])
  {
    hide ShapeAt, ClosedName, ClosedPath, Resolve;
    assert listing[i..][1..] == listing[i + 1..] && listing[i..][0] == listing[i];
  }

  method DiscoverClosedSegments(k: Kit, files: Files, listing: seq<string>) returns (paths: seq<string>)
    ensures paths == Discovered(k, files, listing)
  {
    hide ShapeAt, ClosedName, ClosedPath, Resolve, Discovered;
    paths := [];
    assert listing[0..] == listing;
    for i := 0 to |listing|
      invariant Discovered(k, files, listing) == paths + Discovered(k, files, listing[i..])
    {
      DiscoveredStep(k, files, listing, i);
      var closed := LooksClosed(k, files, listing[i]);
      if closed { paths := paths + [ClosedPath(k.layout, listing[i])]; }
    }
    assert listing[|listing|..] == [];
    NoneDiscovered(k, files);
  }
}
