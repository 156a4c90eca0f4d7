/**
 How the control plane reads one task's report archive: a LATEST pair at the top
 that is either a full copy of one immutable report and data pair, or a legacy
 index that only names them. Files are a map from relative paths to bytes;
 parsing and secret scanning are parameters.
 */
module ReportArchive {
  import opened Prelude
  import opened Octets

  datatype Path = Path(dirs: seq<string>, stem: string, suffix: string)

  type Files = map<Path, Bytes>

  const LATEST_JSON := Path([], "LATEST", ".json")
  const LATEST_MD := Path([], "LATEST", ".md")

  /** A `generated_at` value: text with the year its ISO timestamp denotes, if it is one. */
  datatype Stamp = NotText | Text(text: string, year: Option<string>)

  /** A parsed JSON object: with every required field, or with some missing (as an index has). */
  datatype Document =
    | Complete(generatedAt: Stamp, sourcesIsList: bool, actionItems: Option<nat>)
    | Partial(data: Option<Path>, report: Option<Path>, indexedAt: Option<Stamp>)

  datatype Environment = Environment(parse: Bytes -> Option<Document>, safeJson: Bytes -> bool, safeReport: Bytes -> bool)

  datatype Entry = Entry(generatedAt: Stamp, data: Path, report: Path,
                         dataBytes: Bytes, reportBytes: Bytes, actionItems: nat)

  /** `Rejected` stands for every exception `archive_state` raises. */
  datatype Status = Missing | Rejected | LegacyIndex(entry: Entry) | Valid(entry: Entry)

  predicate IsYear(s: string) {
    |s| == 4 && forall i :: 0 <= i < 4 ==> '0' <= s[i] <= '9'
  }

  lemma YearMeans(s: string)
    ensures IsYear(s) <==> |s| == 4 && forall i :: 0 <= i < 4 ==> s[i] in {'0', '1', '2', '3', '4', '5', '6', '7', '8', '9'}
  {
  }

  predicate SafeRelative(p: Path) {
    "/" !in p.dirs && ".." !in p.dirs && p.stem + p.suffix != ".."
  }

  predicate InYearLayout(p: Path, folder: string, suffix: string) {
    |p.dirs| == 2 && p.dirs[0] == folder && IsYear(p.dirs[1]) && p.suffix == suffix
  }

  /** The immutable files of a folder whose content is exactly `content`. */
  function Copies(files: Files, folder: string, suffix: string, content: Bytes): set<Path> {
    set p | p in files && InYearLayout(p, folder, suffix) && files[p] == content
  }

  lemma SingletonMember<T>(s: set<T>, x: T, y: T)
    requires |s| == 1 && x in s && y in s
    ensures x == y
  {
    var rest := s - {x};
    assert |rest| == 0;
    assert y !in rest;
  }

  function TheOne(s: set<Path>): (p: Path)
    requires |s| == 1
    ensures s == {p}
  {
    assert s != {};
    assert forall p, q :: p in s && q in s ==> p == q by {
      forall p, q | p in s && q in s ensures p == q { SingletonMember(s, p, q); }
    }
    var p :| p in s;
    p
  }

  /** The checks on a named pair, the same for both kinds of LATEST. */
  function CheckPair(env: Environment, files: Files, data: Path, report: Path, at: Option<Stamp>): Option<Entry> {
    if !InYearLayout(data, "data", ".json") || !InYearLayout(report, "reports", ".md") then None
    else if data !in files || report !in files then None
    else if data.stem != report.stem || data.dirs[1] != report.dirs[1] then None
    else if !env.safeJson(files[data]) || !env.safeReport(files[report]) then None
    else
      match env.parse(files[data])
      case Some(Complete(generatedAt, sourcesIsList, actionItems)) =>
        if at != Some(generatedAt) then None
        else if generatedAt.NotText? || generatedAt.year != Some(data.dirs[1]) then None
        else if !sourcesIsList || actionItems.None? then None
        else Some(Entry(generatedAt, data, report, files[data], files[report], actionItems.value))
      case _ => None
  }

  function ArchiveState(env: Environment, files: Files): Status {
    if LATEST_JSON !in files || LATEST_MD !in files then Missing
    else if !env.safeJson(files[LATEST_JSON]) || !env.safeReport(files[LATEST_MD]) then Rejected
    else
      match env.parse(files[LATEST_JSON])
      case None => Rejected
      case Some(Partial(data, report, at)) =>
        if data.None? || report.None? || !SafeRelative(data.value) || !SafeRelative(report.value) then Rejected
        else
          var pair := CheckPair(env, files, data.value, report.value, at);
          if pair.None? then Rejected else LegacyIndex(pair.value)
      case Some(Complete(at, _, _)) =>
        var dataCopies := Copies(files, "data", ".json", files[LATEST_JSON]);
        var reportCopies := Copies(files, "reports", ".md", files[LATEST_MD]);
        if |dataCopies| != 1 || |reportCopies| != 1 then Rejected
        else
          var pair := CheckPair(env, files, TheOne(dataCopies), TheOne(reportCopies), Some(at));
          if pair.None? then Rejected else Valid(pair.value)
  }

  /** A valid LATEST pair is, byte for byte, the one immutable pair it stands for. */
  lemma ValidMeansExactCopy(env: Environment, files: Files)
    ensures var s := ArchiveState(env, files);
            s.Valid? ==>
              && s.entry.data in files && s.entry.report in files
              && files[LATEST_JSON] == files[s.entry.data] == s.entry.dataBytes
              && files[LATEST_MD] == files[s.entry.report] == s.entry.reportBytes
              && s.entry.data.stem == s.entry.report.stem
              && (forall p | p in files && InYearLayout(p, "data", ".json") && files[p] == files[LATEST_JSON]
                    :: p == s.entry.data)
              && (forall p | p in files && InYearLayout(p, "reports", ".md") && files[p] == files[LATEST_MD]
                    :: p == s.entry.report)
  {
    var s := ArchiveState(env, files);
    if s.Valid? {
      var dataCopies := Copies(files, "data", ".json", files[LATEST_JSON]);
      var reportCopies := Copies(files, "reports", ".md", files[LATEST_MD]);
      assert s.entry.data in dataCopies && s.entry.report in reportCopies;
      forall p | p in files && InYearLayout(p, "data", ".json") && files[p] == files[LATEST_JSON]
        ensures p == s.entry.data
      {
        assert p in dataCopies;
      }
      forall p | p in files && InYearLayout(p, "reports", ".md") && files[p] == files[LATEST_MD]
        ensures p == s.entry.report
      {
        assert p in reportCopies;
      }
    }
  }

  /** `p` is the one immutable file of its folder with this content. */
  ghost predicate OnlyCopy(files: Files, folder: string, suffix: string, content: Bytes, p: Path) {
    && p in files && InYearLayout(p, folder, suffix) && files[p] == content
    && forall q :: q in files && InYearLayout(q, folder, suffix) && files[q] == content ==> q == p
  }

  /** The bytes are a complete document generated in `year`. */
  predicate DatedDocument(env: Environment, content: Bytes, year: string) {
    var document := env.parse(content);
    && document.Some? && document.value.Complete? && document.value.sourcesIsList && document.value.actionItems.Some?
    && document.value.generatedAt.Text? && document.value.generatedAt.year == Some(year)
  }

  ghost predicate StandsFor(env: Environment, files: Files, data: Path, report: Path) {
    && LATEST_JSON in files && OnlyCopy(files, "data", ".json", files[LATEST_JSON], data)
    && LATEST_MD in files && OnlyCopy(files, "reports", ".md", files[LATEST_MD], report)
    && data.stem == report.stem && data.dirs[1] == report.dirs[1]
    && DatedDocument(env, files[LATEST_JSON], data.dirs[1])
  }

  lemma OnlyCopyIsTheOne(files: Files, folder: string, suffix: string, content: Bytes, p: Path)
    ensures OnlyCopy(files, folder, suffix, content, p) <==> Copies(files, folder, suffix, content) == {p}
  {
    if OnlyCopy(files, folder, suffix, content, p) {
      assert Copies(files, folder, suffix, content) == {p};
    } else if Copies(files, folder, suffix, content) == {p} {
      assert p in Copies(files, folder, suffix, content);
      forall q | q in files && InYearLayout(q, folder, suffix) && files[q] == content
        ensures q == p
      {
        assert q in Copies(files, folder, suffix, content);
      }
      assert false;
    }
  }

  /**
   Exactly when an archive reads as valid: both LATEST files are free of secrets, and
   they are the only copies of one immutable pair of the same stem and year, whose
   data was generated in that year.
   */
  lemma ValidExactlyWhen(env: Environment, files: Files)
    ensures ArchiveState(env, files).Valid? <==>
              && LATEST_JSON in files && LATEST_MD in files
              && env.safeJson(files[LATEST_JSON]) && env.safeReport(files[LATEST_MD])
              && exists data, report :: StandsFor(env, files, data, report)
  {
    var s := ArchiveState(env, files);
    if s.Valid? {
      OnlyCopyIsTheOne(files, "data", ".json", files[LATEST_JSON], s.entry.data);
      OnlyCopyIsTheOne(files, "reports", ".md", files[LATEST_MD], s.entry.report);
      assert StandsFor(env, files, s.entry.data, s.entry.report);
    }
    forall data, report | StandsFor(env, files, data, report) && env.safeJson(files[LATEST_JSON]) && env.safeReport(files[LATEST_MD])
      ensures s.Valid?
    {
      OnlyCopyIsTheOne(files, "data", ".json", files[LATEST_JSON], data);
      OnlyCopyIsTheOne(files, "reports", ".md", files[LATEST_MD], report);
      assert TheOne({data}) == data && TheOne({report}) == report;
    }
  }

  /** An index names this pair, and the pair is as an index must find it. */
  ghost predicate Indexes(env: Environment, files: Files, data: Path, report: Path) {
    && LATEST_JSON in files && LATEST_MD in files
    && env.parse(files[LATEST_JSON]).Some? && env.parse(files[LATEST_JSON]).value.Partial?
    && var index := env.parse(files[LATEST_JSON]).value;
       && index.data == Some(data) && index.report == Some(report)
       && data in files && InYearLayout(data, "data", ".json") && report in files && InYearLayout(report, "reports", ".md")
       && data.stem == report.stem && data.dirs[1] == report.dirs[1]
       && env.safeJson(files[data]) && env.safeReport(files[report])
       && DatedDocument(env, files[data], data.dirs[1])
       && index.indexedAt == Some(env.parse(files[data]).value.generatedAt)
  }

  /** A path that stays below the directory it is relative to. */
  predicate StaysBelow(p: Path) {
    "/" !in p.dirs && ".." !in p.dirs && p.stem + p.suffix != ".."
  }

  /**
   Exactly when an archive reads as a legacy index: its LATEST files are free of
   secrets, LATEST.json is no full document, and it names a clean immutable pair of one
   stem and year, generated in that year and at the time the index says.
   */
  lemma LegacyExactlyWhen(env: Environment, files: Files)
    ensures ArchiveState(env, files).LegacyIndex? <==>
              && LATEST_JSON in files && LATEST_MD in files
              && env.safeJson(files[LATEST_JSON]) && env.safeReport(files[LATEST_MD])
              && exists data, report :: Indexes(env, files, data, report) && StaysBelow(data) && StaysBelow(report)
    ensures ArchiveState(env, files).Missing? <==> LATEST_JSON !in files || LATEST_MD !in files
  {
    var s := ArchiveState(env, files);
    if s.LegacyIndex? {
      assert Indexes(env, files, s.entry.data, s.entry.report);
    }
  }

  /** What is reported of an archive that is not rejected: the pair's own bytes, time and number of action items. */
  lemma EntryMeans(env: Environment, files: Files)
    ensures var s := ArchiveState(env, files);
            s.LegacyIndex? || s.Valid? ==>
              && s.entry.data in files && s.entry.dataBytes == files[s.entry.data]
              && s.entry.report in files && s.entry.reportBytes == files[s.entry.report]
              && env.parse(s.entry.dataBytes).Some? && env.parse(s.entry.dataBytes).value.Complete?
              && s.entry.generatedAt == env.parse(s.entry.dataBytes).value.generatedAt
              && Some(s.entry.actionItems) == env.parse(s.entry.dataBytes).value.actionItems
              && (s.LegacyIndex? ==> Indexes(env, files, s.entry.data, s.entry.report))
              && (s.Valid? ==> StandsFor(env, files, s.entry.data, s.entry.report))
  {
    var s := ArchiveState(env, files);
    if s.Valid? {
      OnlyCopyIsTheOne(files, "data", ".json", files[LATEST_JSON], s.entry.data);
      OnlyCopyIsTheOne(files, "reports", ".md", files[LATEST_MD], s.entry.report);
    }
  }

  /** Scratch files sit at the top of the archive beside the LATEST pair. */
  predicate IsScratch(p: Path) {
    p.dirs == [] && p != LATEST_JSON && p != LATEST_MD
  }

  ghost predicate SameButScratch(f: Files, g: Files) {
    forall p :: !IsScratch(p) ==> (p in f <==> p in g) && (p in f ==> f[p] == g[p])
  }

  /** Reading an archive never depends on scratch files. */
  lemma ScratchIsInvisible(env: Environment, f: Files, g: Files)
    requires SameButScratch(f, g)
    ensures ArchiveState(env, f) == ArchiveState(env, g)
  {
    if LATEST_JSON in f && LATEST_MD in f {
      assert Copies(f, "data", ".json", f[LATEST_JSON]) == Copies(g, "data", ".json", g[LATEST_JSON]);
      assert Copies(f, "reports", ".md", f[LATEST_MD]) == Copies(g, "reports", ".md", g[LATEST_MD]);
    }
  }
}
