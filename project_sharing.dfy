/** projects/ProjectSharing.java: the legacy archive-name checks
    (validateProjectArchiveName, getTranslationArchiveInfo), the per-project
    choices of generateLibrary (library language, direction names, which
    projects get a record) and the clean-up of stale cached exports in exportDW. */
module ProjectSharing {
  import opened JavaLang

  // ------------------------------------------------------------------ archive names

  /** validateProjectArchiveName: the lower-cased name splits on '-' into exactly
      three fields, the first of which is the global project slug. */
  predicate ValidArchiveName(name: string, globalSlug: string) {
    var fields := Split(Lower(name), '-');
    |fields| == 3 && fields[0] == globalSlug
  }

  datatype ArchiveInfo = ArchiveInfo(globalProjectId: string, projectId: string, languageId: string)

  /** The outcome of getTranslationArchiveInfo: the info, null, or the
      ArrayIndexOutOfBoundsException raised when the name is made of '_' only. */
  datatype InfoResult = Info(info: ArchiveInfo) | NoInfo | OutOfBounds

  /** getTranslationArchiveInfo, with the leading '/' characters of the part
      before the first '_' removed. */
  function ArchiveInfoOf(archiveName: string, globalSlug: string): InfoResult {
    var parts := Split(archiveName, '_');
    if parts == [] then OutOfBounds
    else
      var name := LTrimChar(parts[0], '/');
      if ValidArchiveName(name, globalSlug) then
        var fields := Split(Lower(name), '-');
        Info(ArchiveInfo(fields[0], fields[1], fields[2]))
      else NoInfo
  }

  /** One pass of the source's strip loop: the name from the index of its first '/'. */
  function StripStepAsWritten(name: string): string {
    name[IndexOf(name, '/')..]
  }

  /** The source's strip loop makes no progress: a name starting with '/' is
      its own next value, so the loop never ends on such a name. */
  lemma StripStepMakesNoProgress(name: string)
    requires name != [] && name[0] == '/'
    ensures StripStepAsWritten(name) == name
  {
    assert IndexOf(name, '/') == 0;
  }

  /** getTranslationArchiveInfo with the strip loop dropping one '/' per pass. */
  method GetTranslationArchiveInfo(archiveName: string, globalSlug: string) returns (r: InfoResult)
    ensures r == ArchiveInfoOf(archiveName, globalSlug)
    ensures r.Info? ==> r.info.globalProjectId == globalSlug
  {
    var parts := Split(archiveName, '_');
    if |parts| == 0 {
      return OutOfBounds;
    }
    var name := parts[0];
    while |name| > 0 && name[0] == '/'
      invariant LTrimChar(name, '/') == LTrimChar(parts[0], '/')
    {
      name := name[1..];
    }
    if ValidArchiveName(name, globalSlug) {
      var fields := Split(Lower(name), '-');
      return Info(ArchiveInfo(fields[0], fields[1], fields[2]));
    }
    return NoInfo;
  }

  /** For names without a leading '/', stripping as written and as corrected agree. */
  lemma StripAgreesWithoutSlash(name: string)
    requires name == [] || name[0] != '/'
    ensures LTrimChar(name, '/') == name
  {
  }

  /** A slug: non-empty, lower case, free of '-' and '_'. */
  predicate IsSlug(s: string) {
    s != [] && Lower(s) == s && '-' !in s && '_' !in s
  }

  /** The archive name an export gets: global slug, project and language
      joined by '-', then '_' and the version. */
  function ComplexName(globalSlug: string, projectId: string, languageId: string): string {
    globalSlug + "-" + projectId + "-" + languageId
  }

  /** The name an export gets is a valid archive name. */
  lemma ComplexNameIsValid(globalSlug: string, projectId: string, languageId: string)
    requires IsSlug(globalSlug) && IsSlug(projectId) && IsSlug(languageId)
    ensures Lower(ComplexName(globalSlug, projectId, languageId)) == ComplexName(globalSlug, projectId, languageId)
    ensures ValidArchiveName(ComplexName(globalSlug, projectId, languageId), globalSlug)
  {
    FieldsOf3(globalSlug, projectId, languageId);
    LowerJoin(globalSlug, projectId, languageId);
  }

  /** Lower-case parts joined by '-' are lower case. */
  lemma LowerJoin(a: string, b: string, c: string)
    requires Lower(a) == a && Lower(b) == b && Lower(c) == c
    ensures Lower(a + "-" + b + "-" + c) == a + "-" + b + "-" + c
  {
    assert Lower("-") == "-";
    LowerConcat(a, "-");
    LowerConcat(a + "-", b);
    LowerConcat(a + "-" + b, "-");
    LowerConcat(a + "-" + b + "-", c);
  }

  /** The part before the first '_' of a name followed by '_' and anything. */
  lemma FirstPart(name: string, rest: string)
    requires name != [] && '_' !in name
    ensures Split(name + "_" + rest, '_') != [] && Split(name + "_" + rest, '_')[0] == name
  {
    var archive := name + "_" + rest;
    assert archive == name + ['_'] + rest;
    FieldsCons(name, rest, '_');
    assert archive[|name|] == '_';
    var fs := Fields(archive, '_');
    assert fs[0] == name;
    var parts := DropTrailingEmpty(fs);
    assert parts == fs[..|parts|];
  }

  /** The archive name of an export is read back as the project and language it was made from. */
  lemma ArchiveInfoRoundTrip(globalSlug: string, projectId: string, languageId: string, version: string)
    requires IsSlug(globalSlug) && IsSlug(projectId) && IsSlug(languageId) && globalSlug[0] != '/'
    ensures ArchiveInfoOf(ComplexName(globalSlug, projectId, languageId) + "_" + version, globalSlug)
      == Info(ArchiveInfo(globalSlug, projectId, languageId))
  {
    var name := ComplexName(globalSlug, projectId, languageId);
    ComplexNameIsValid(globalSlug, projectId, languageId);
    FieldsOf3(globalSlug, projectId, languageId);
    assert '_' !in name;
    FirstPart(name, version);
    var parts := Split(name + "_" + version, '_');
    assert parts[0] == name;
    assert name[0] == globalSlug[0];
    assert LTrimChar(name, '/') == name;
    assert Split(Lower(name), '-') == [globalSlug, projectId, languageId];
  }

  /** The fields of three '-'-free parts joined by '-'. */
  lemma FieldsOf3(a: string, b: string, c: string)
    requires '-' !in a && '-' !in b && '-' !in c && c != []
    ensures Split(a + "-" + b + "-" + c, '-') == [a, b, c]
  {
    var s := a + "-" + b + "-" + c;
    assert s == a + ['-'] + (b + ['-'] + c);
    FieldsCons(a, b + "-" + c, '-');
    FieldsCons(b, c, '-');
    assert s[|a|] == '-';
    assert Fields(s, '-') == [a, b, c];
  }

  /** Fields of a field free of the separator, the separator, and the rest. */
  lemma FieldsCons(a: string, b: string, d: char)
    requires d !in a
    ensures Fields(a + [d] + b, d) == [a] + Fields(b, d)
  {
    var s := a + [d] + b;
    IndexOfAfter(a, b, d);
    assert s[..|a|] == a;
    assert s[|a| + 1..] == b;
  }

  /** The first separator after a field free of it. */
  lemma {:induction false} IndexOfAfter(a: string, b: string, d: char)
    requires d !in a
    ensures IndexOf(a + [d] + b, d) == |a|
  {
    if a != [] {
      assert (a + [d] + b)[1..] == a[1..] + [d] + b;
      IndexOfAfter(a[1..], b, d);
    }
  }

  lemma LowerConcat(a: string, b: string)
    ensures Lower(a + b) == Lower(a) + Lower(b)
  {
  }

  // ------------------------------------------------------------------ library

  datatype Direction = LeftToRight | RightToLeft

  datatype Language = Language(id: string, name: string, direction: Direction)

  /** What generateLibrary reads of a project; `recordFails` says whether
      building its record raises a JSONException. */
  datatype Project = Project(
    id: string,
    translatingGlobal: bool,
    selectedSourceLanguage: Language,
    sourceLanguage: string -> Option<Language>,
    title: Language -> string,
    description: Language -> string,
    pseudoProjectTitles: Language -> seq<string>,
    activeTargetLanguages: seq<Language>,
    recordFails: bool)

  datatype LanguageRecord = LanguageRecord(slug: string, name: string, direction: string)

  datatype LibraryRecord = LibraryRecord(
    id: string, name: string, description: string, meta: seq<string>,
    language: LanguageRecord, targetLanguages: seq<LanguageRecord>)

  /** The direction written into a language record. */
  function DirectionName(d: Direction): (s: string)
    ensures s == "rtl" <==> d == RightToLeft
    ensures s == "rtl" || s == "ltr"
  {
    if d == RightToLeft then "rtl" else "ltr"
  }

  function LanguageRecordOf(l: Language): LanguageRecord {
    LanguageRecord(l.id, l.name, DirectionName(l.direction))
  }

  /** The first preferred language the project has, if any. */
  function FirstAvailable(p: Project, preferred: seq<Language>): Option<Language> {
    if preferred == [] then None
    else if p.sourceLanguage(preferred[0].id).Some? then p.sourceLanguage(preferred[0].id)
    else FirstAvailable(p, preferred[1..])
  }

  /** None iff the project has none of the preferred languages; otherwise the
      project's language for the first preferred one it has. */
  lemma {:induction false} FirstAvailableIsFirst(p: Project, preferred: seq<Language>)
    ensures FirstAvailable(p, preferred).None? <==>
      forall i :: 0 <= i < |preferred| ==> p.sourceLanguage(preferred[i].id).None?
    ensures FirstAvailable(p, preferred).Some? ==>
      exists i :: 0 <= i < |preferred| && p.sourceLanguage(preferred[i].id) == FirstAvailable(p, preferred)
        && forall j :: 0 <= j < i ==> p.sourceLanguage(preferred[j].id).None?
  {
    if preferred == [] {
    } else if p.sourceLanguage(preferred[0].id).Some? {
      assert p.sourceLanguage(preferred[0].id) == FirstAvailable(p, preferred);
    } else {
      var r := FirstAvailable(p, preferred[1..]);
      FirstAvailableIsFirst(p, preferred[1..]);
      if r.Some? {
        var i :| 0 <= i < |preferred[1..]| && p.sourceLanguage(preferred[1..][i].id) == r
          && forall j :: 0 <= j < i ==> p.sourceLanguage(preferred[1..][j].id).None?;
        assert p.sourceLanguage(preferred[i + 1].id) == r;
        forall j | 0 <= j < i + 1 ensures p.sourceLanguage(preferred[j].id).None? {
          if j > 0 {
            assert preferred[j] == preferred[1..][j - 1];
          }
        }
      } else {
        forall i | 0 <= i < |preferred| ensures p.sourceLanguage(preferred[i].id).None? {
          if i > 0 {
            assert preferred[i] == preferred[1..][i - 1];
          }
        }
      }
    }
  }

  /** The language of a project's record: the first preferred one it has,
      otherwise its selected source language. */
  function LibraryLanguageOf(p: Project, preferred: Option<seq<Language>>): Language {
    if preferred.Some? && FirstAvailable(p, preferred.value).Some? then FirstAvailable(p, preferred.value).value
    else p.selectedSourceLanguage
  }

  /** The language loop of generateLibrary. */
  method LibraryLanguage(p: Project, preferred: Option<seq<Language>>) returns (l: Language)
    ensures l == LibraryLanguageOf(p, preferred)
  {
    l := p.selectedSourceLanguage;
    if preferred.Some? && |preferred.value| > 0 {
      var prefs := preferred.value;
      var i := 0;
      while i < |prefs|
        invariant 0 <= i <= |prefs|
        invariant FirstAvailable(p, prefs) == FirstAvailable(p, prefs[i..])
      {
        var found := p.sourceLanguage(prefs[i].id);
        if found.Some? {
          return found.value;
        }
        assert prefs[i..][1..] == prefs[i + 1..];
        i := i + 1;
      }
    }
  }

  /** The record generateLibrary makes of one project. */
  function RecordOf(p: Project, preferred: Option<seq<Language>>): LibraryRecord {
    var l := LibraryLanguageOf(p, preferred);
    LibraryRecord(p.id, p.title(l), p.description(l), p.pseudoProjectTitles(l), LanguageRecordOf(l),
      seq(|p.activeTargetLanguages|, i requires 0 <= i < |p.activeTargetLanguages| => LanguageRecordOf(p.activeTargetLanguages[i])))
  }

  /** Whether a project gets a record. */
  predicate Listed(p: Project) {
    p.translatingGlobal && !p.recordFails
  }

  /** The library: a record per listed project, in order. */
  function LibraryOf(projects: seq<Project>, preferred: Option<seq<Language>>): seq<LibraryRecord> {
    if projects == [] then []
    else
      var n := |projects| - 1;
      LibraryOf(projects[..n], preferred) + (if Listed(projects[n]) then [RecordOf(projects[n], preferred)] else [])
  }

  /** The records of the target-language loop of generateLibrary. */
  method TargetRecords(languages: seq<Language>) returns (targets: seq<LanguageRecord>)
    ensures |targets| == |languages|
    ensures forall k :: 0 <= k < |languages| ==> targets[k] == LanguageRecordOf(languages[k])
  {
    targets := [];
    var j := 0;
    while j < |languages|
      invariant 0 <= j <= |languages|
      invariant |targets| == j
      invariant forall k :: 0 <= k < j ==> targets[k] == LanguageRecordOf(languages[k])
    {
      var l := languages[j];
      targets := targets + [LanguageRecord(l.id, l.name, DirectionName(l.direction))];
      j := j + 1;
    }
  }

  /** generateLibrary, before serialisation. */
  method GenerateLibrary(projects: seq<Project>, preferred: Option<seq<Language>>) returns (library: seq<LibraryRecord>)
    ensures library == LibraryOf(projects, preferred)
  {
    library := [];
    var i := 0;
    while i < |projects|
      invariant 0 <= i <= |projects|
      invariant library == LibraryOf(projects[..i], preferred)
    {
      var p := projects[i];
      assert projects[..i + 1][..i] == projects[..i];
      if p.translatingGlobal && !p.recordFails {
        var l := LibraryLanguage(p, preferred);
        var targets := TargetRecords(p.activeTargetLanguages);
        var record := LibraryRecord(p.id, p.title(l), p.description(l), p.pseudoProjectTitles(l),
          LanguageRecord(l.id, l.name, DirectionName(l.direction)), targets);
        assert targets == RecordOf(p, preferred).targetLanguages;
        assert record == RecordOf(p, preferred);
        library := library + [record];
      }
      i := i + 1;
    }
    assert projects[..i] == projects;
  }

  /** Records do not depend on each other: the library of two lists of
      projects is the two libraries one after the other. */
  lemma {:induction false} LibraryOfConcat(a: seq<Project>, b: seq<Project>, preferred: Option<seq<Language>>)
    ensures LibraryOf(a + b, preferred) == LibraryOf(a, preferred) + LibraryOf(b, preferred)
    decreases |b|
  {
    if b == [] {
      assert a + b == a;
    } else {
      var n := |b| - 1;
      assert (a + b)[..|a + b| - 1] == a + b[..n];
      assert (a + b)[|a + b| - 1] == b[n];
      LibraryOfConcat(a, b[..n], preferred);
    }
  }

  /** A record is in the library iff it is the record of some listed project. */
  lemma {:induction false} LibraryMembers(projects: seq<Project>, preferred: Option<seq<Language>>, r: LibraryRecord)
    ensures r in LibraryOf(projects, preferred) <==>
      exists i :: 0 <= i < |projects| && Listed(projects[i]) && r == RecordOf(projects[i], preferred)
  {
    if projects != [] {
      var n := |projects| - 1;
      LibraryMembers(projects[..n], preferred, r);
      if exists i :: 0 <= i < n && Listed(projects[..n][i]) && r == RecordOf(projects[..n][i], preferred) {
        var i :| 0 <= i < n && Listed(projects[..n][i]) && r == RecordOf(projects[..n][i], preferred);
        assert projects[i] == projects[..n][i];
      }
      if exists i :: 0 <= i < |projects| && Listed(projects[i]) && r == RecordOf(projects[i], preferred) {
        var i :| 0 <= i < |projects| && Listed(projects[i]) && r == RecordOf(projects[i], preferred);
        if i < n {
          assert projects[..n][i] == projects[i];
        }
      }
    }
  }

  // ------------------------------------------------------------------ stale exports

  /** The exportDW test of a cached entry: None is the
      ArrayIndexOutOfBoundsException of a missing piece, Some(true) a deletion. */
  function Stale(entry: string, complexName: string, version: string): Option<bool> {
    var pieces := Split(entry, '_');
    if |pieces| == 0 then None
    else if pieces[0] != complexName then Some(false)
    else if |pieces| < 2 then None
    else Some(pieces[1] != version)
  }

  /** The export's own zip file name. */
  function ExportZipName(complexName: string, version: string): string {
    complexName + "_" + version + ".zip"
  }

  /** The current version's zip file is itself taken as stale, so the cached
      export is deleted before it could be returned. */
  lemma CurrentZipIsStale(complexName: string, version: string)
    requires complexName != [] && '_' !in complexName && '_' !in version
    ensures Stale(ExportZipName(complexName, version), complexName, version) == Some(true)
  {
    var tail := version + ".zip";
    assert '_' !in tail;
    var entry := ExportZipName(complexName, version);
    assert entry == complexName + ['_'] + tail;
    assert entry[|complexName|] == '_';
    FieldsCons(complexName, tail, '_');
    assert Split(entry, '_') == [complexName, tail];
    assert |tail| != |version|;
  }

  /** The name with a trailing ".zip" removed. */
  function WithoutZip(s: string): string {
    if |s| >= 4 && s[|s| - 4..] == ".zip" then s[..|s| - 4] else s
  }

  /** The evidently intended test: the version piece is compared with its
      ".zip" extension removed. */
  function StaleFixed(entry: string, complexName: string, version: string): Option<bool> {
    var pieces := Split(entry, '_');
    if |pieces| == 0 then None
    else if pieces[0] != complexName then Some(false)
    else if |pieces| < 2 then None
    else Some(WithoutZip(pieces[1]) != version)
  }

  /** With the corrected test the current export, directory and zip, is kept
      and another version's is deleted. */
  lemma StaleFixedKeepsCurrent(complexName: string, version: string, other: string)
    requires complexName != [] && '_' !in complexName && '_' !in version && '_' !in other
    requires version != [] && other != [] && other != version
    requires WithoutZip(version) == version && WithoutZip(other) == other
    ensures StaleFixed(ExportZipName(complexName, version), complexName, version) == Some(false)
    ensures StaleFixed(complexName + "_" + version, complexName, version) == Some(false)
    ensures StaleFixed(ExportZipName(complexName, other), complexName, version) == Some(true)
    ensures StaleFixed(complexName + "_" + other, complexName, version) == Some(true)
  {
    ZipPieces(complexName, version);
    ZipPieces(complexName, other);
    DirPieces(complexName, version);
    DirPieces(complexName, other);
  }

  lemma ZipPieces(complexName: string, version: string)
    requires complexName != [] && '_' !in complexName && '_' !in version
    ensures Split(ExportZipName(complexName, version), '_') == [complexName, version + ".zip"]
    ensures WithoutZip(version + ".zip") == version
  {
    var tail := version + ".zip";
    assert '_' !in tail;
    var entry := ExportZipName(complexName, version);
    assert entry == complexName + ['_'] + tail;
    assert entry[|complexName|] == '_';
    FieldsCons(complexName, tail, '_');
    assert tail[|tail| - 4..] == ".zip";
    assert tail[..|tail| - 4] == version;
  }

  lemma DirPieces(complexName: string, version: string)
    requires complexName != [] && '_' !in complexName && '_' !in version && version != []
    ensures Split(complexName + "_" + version, '_') == [complexName, version]
  {
    var entry := complexName + "_" + version;
    assert entry == complexName + ['_'] + version;
    assert entry[|complexName|] == '_';
    FieldsCons(complexName, version, '_');
  }

  /** The effect of the clean-up loop: entries deleted in order, and whether it
      stopped on an exception. */
  datatype Cleanup = Cleanup(deleted: seq<string>, failed: bool)

  /** The clean-up over the first n entries. */
  function CleanupUpTo(entries: seq<string>, complexName: string, version: string, n: nat): Cleanup
    requires n <= |entries|
  {
    if n == 0 then Cleanup([], false)
    else
      var c := CleanupUpTo(entries, complexName, version, n - 1);
      if c.failed then c
      else match Stale(entries[n - 1], complexName, version)
        case None => Cleanup(c.deleted, true)
        case Some(b) => if b then Cleanup(c.deleted + [entries[n - 1]], false) else c
  }

  /** Once the clean-up has failed, later entries change nothing. */
  lemma {:induction false} FailedStays(entries: seq<string>, complexName: string, version: string, i: nat, n: nat)
    requires i <= n <= |entries|
    requires CleanupUpTo(entries, complexName, version, i).failed
    ensures CleanupUpTo(entries, complexName, version, n) == CleanupUpTo(entries, complexName, version, i)
    decreases n
  {
    if n > i {
      FailedStays(entries, complexName, version, i, n - 1);
    }
  }

  /** Every deleted entry is stale; without an exception the deleted entries
      are exactly the stale ones. */
  lemma {:induction false} CleanupDeletesStale(entries: seq<string>, complexName: string, version: string, n: nat, e: string)
    requires n <= |entries|
    ensures e in CleanupUpTo(entries, complexName, version, n).deleted ==>
      e in entries[..n] && Stale(e, complexName, version) == Some(true)
    ensures !CleanupUpTo(entries, complexName, version, n).failed ==>
      (e in CleanupUpTo(entries, complexName, version, n).deleted <==>
       e in entries[..n] && Stale(e, complexName, version) == Some(true))
  {
    if n > 0 {
      CleanupDeletesStale(entries, complexName, version, n - 1, e);
      assert entries[..n] == entries[..n - 1] + [entries[n - 1]];
      var prev := CleanupUpTo(entries, complexName, version, n - 1);
      var cur := CleanupUpTo(entries, complexName, version, n);
      var st := Stale(entries[n - 1], complexName, version);
      if prev.failed {
        assert cur == prev;
      } else if st.None? {
        assert cur == Cleanup(prev.deleted, true);
      } else if st == Some(true) {
        assert cur.deleted == prev.deleted + [entries[n - 1]];
        assert e in cur.deleted <==> e in prev.deleted || e == entries[n - 1];
      } else {
        assert cur == prev;
      }
    }
  }

  /** The clean-up loop of exportDW. */
  method CleanExports(entries: seq<string>, complexName: string, version: string) returns (c: Cleanup)
    ensures c == CleanupUpTo(entries, complexName, version, |entries|)
  {
    c := Cleanup([], false);
    var i := 0;
    while i < |entries|
      invariant 0 <= i <= |entries|
      invariant c == CleanupUpTo(entries, complexName, version, i) && !c.failed
    {
      var pieces := Split(entries[i], '_');
      ghost var stale := Stale(entries[i], complexName, version);
      if |pieces| == 0 || (pieces[0] == complexName && |pieces| < 2) {
        assert stale.None?;
        c := Cleanup(c.deleted, true);
        FailedStays(entries, complexName, version, i + 1, |entries|);
        return;
      }
      if pieces[0] == complexName && pieces[1] != version {
        assert stale == Some(true);
        c := Cleanup(c.deleted + [entries[i]], false);
      } else {
        assert stale == Some(false);
      }
      i := i + 1;
    }
  }
}
