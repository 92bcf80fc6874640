/** The document lifecycle: entries of a manifest move from pending to archived while their
    source files disappear, and a validator says what must hold of both. */
module Lifecycle {
  import opened Wrappers

  /** The segments of a path relative to the repository. */
  type Path = seq<string>

  datatype Family = History | DatedReview | UnknownFamily(name: string)

  datatype Status = Active | SummarizedActive | PendingArchive | Archived | UnknownStatus(name: string)

  datatype Entry = Entry(source: Path, family: Family, status: Status, archive: Path, theme: Option<string>,
                         value: Option<string>, targets: seq<Path>, archivedAt: Option<string>)

  /** The files and directories, the manifest, and whether the ledger was written from it. */
  datatype State = State(files: set<Path>, dirs: set<Path>, entries: seq<Entry>, keepHistory: nat, keepReview: nat,
                         headerOk: bool, ledgerFresh: bool)

  const DOCS: Path := ["docs"]
  const HISTORY: Path := ["docs", "history"]
  const REVIEW: Path := ["docs", "review"]
  const ARCHIVE: Path := ["docs", "archive"]

  // ----- names -----

  predicate Less(a: string, b: string) {
    b != [] && (a == [] || a[0] < b[0] || (a[0] == b[0] && Less(a[1..], b[1..])))
  }

  predicate IsDigit(c: char) {
    '0' <= c <= '9'
  }

  /** Four, two and two digits with dashes between them. */
  predicate IsDate(s: string) {
    |s| == 10 && forall i :: 0 <= i < 10 ==> if i == 4 || i == 7 then s[i] == '-' else IsDigit(s[i])
  }

  predicate EndsInMd(name: string) {
    |name| >= 3 && name[|name| - 3..] == ".md"
  }

  /** A name with something before its extension. */
  predicate IsMarkdown(name: string) {
    |name| > 3 && EndsInMd(name)
  }

  function Stem(name: string): string {
    if IsMarkdown(name) then name[..|name| - 3] else name
  }

  function Last(p: Path): string {
    if p == [] then "" else p[|p| - 1]
  }

  predicate Under(dir: Path, p: Path) {
    dir <= p
  }

  predicate IsHistory(p: Path) {
    |p| == 3 && Under(HISTORY, p) && IsMarkdown(p[2]) && IsDate(Stem(p[2]))
  }

  function FamilyOf(p: Path): Option<Family> {
    if IsHistory(p) then Some(History)
    else if |p| >= 4 && Under(REVIEW, p) && IsDate(p[2]) && IsMarkdown(Last(p)) then Some(DatedReview)
    else None
  }

  function ArchivePathFor(p: Path, f: Family): Option<Path> {
    match f
    case History => Some(["docs", "archive", "history", Last(p)])
    case DatedReview => Some(["docs", "archive", "review"] + if |p| >= 2 then p[2..] else [])
    case UnknownFamily(_) => None
  }

  // ----- keep windows -----

  function Above(x: string, all: set<string>): set<string> {
    set y | y in all && Less(x, y)
  }

  /** Among the k greatest. */
  predicate InTop(x: string, all: set<string>, k: nat) {
    x in all && |Above(x, all)| < k
  }

  predicate IsReview(p: Path) {
    |p| == 4 && Under(REVIEW, p) && IsDate(p[2]) && EndsInMd(p[3])
  }

  function HistoryNames(files: set<Path>): set<string> {
    set p | p in files && IsHistory(p) :: Last(p)
  }

  function ReviewDates(dirs: set<Path>): set<string> {
    set p | p in dirs && |p| == 3 && Under(REVIEW, p) && IsDate(p[2]) :: Last(p)
  }

  /** The newest files of the history, and the direct files of the newest review directories. */
  predicate Kept(s: State, f: Family, p: Path) {
    match f
    case History => p in s.files && IsHistory(p) && InTop(p[2], HistoryNames(s.files), s.keepHistory)
    case DatedReview => p in s.files && IsReview(p) && InTop(p[2], ReviewDates(s.dirs), s.keepReview)
    case UnknownFamily(_) => false
  }

  // ----- validation -----

  predicate TargetOk(s: State, t: Path) {
    !Under(ARCHIVE, t) && t in s.files && IsMarkdown(Last(t))
  }

  predicate Missing(o: Option<string>) {
    o.None? || o.value == []
  }

  predicate EntryOk(s: State, e: Entry) {
    && ArchivePathFor(e.source, e.family) == Some(e.archive)
    && !e.status.UnknownStatus?
    && (!e.status.Active? ==> !Missing(e.theme) && !Missing(e.value) && e.targets != []
                              && forall t :: t in e.targets ==> TargetOk(s, t))
    && e.archive !in s.files
    && (if e.status.Archived? then e.source !in s.files && e.archivedAt.Some?
        else e.source in s.files && e.archivedAt.None?)
    && (e.status.SummarizedActive? ==> Kept(s, e.family, e.source))
    && (e.status.PendingArchive? ==> !Kept(s, e.family, e.source))
  }

  predicate DistinctSources(entries: seq<Entry>) {
    forall i, j :: 0 <= i < j < |entries| ==> entries[i].source != entries[j].source
  }

  /** What validation accepts; without the review directory it does not even finish. */
  predicate Valid(s: State) {
    && s.headerOk && s.ledgerFresh && REVIEW in s.dirs
    && DistinctSources(s.entries)
    && forall e :: e in s.entries ==> EntryOk(s, e)
  }

  // ----- marking -----

  datatype Request = Request(source: Path, theme: string, value: string, targets: seq<Path>)

  datatype MarkError =
    SourceInArchive | MissingSource | NotMarkdown | NoFamily | Duplicate | BadValue | BadTarget(target: Path)

  function FirstBadTarget(s: State, targets: seq<Path>): (bad: Option<Path>)
    ensures bad.None? <==> forall t :: t in targets ==> TargetOk(s, t)
  {
    if targets == [] then None
    else if !TargetOk(s, targets[0]) then Some(targets[0])
    else
      assert forall t :: t in targets <==> t == targets[0] || t in targets[1..];
      FirstBadTarget(s, targets[1..])
  }

  /** Theme and value come stripped of surrounding space; there is at least one target. */
  function Mark(s: State, r: Request): Result<State, MarkError> {
    if Under(ARCHIVE, r.source) then Err(SourceInArchive)
    else if r.source !in s.files then Err(MissingSource)
    else if !IsMarkdown(Last(r.source)) then Err(NotMarkdown)
    else
      match FamilyOf(r.source)
      case None => Err(NoFamily)
      case Some(f) =>
        if exists e :: e in s.entries && e.source == r.source then Err(Duplicate)
        else if r.value == [] || '\n' in r.value then Err(BadValue)
        else
          match FirstBadTarget(s, r.targets)
          case Some(t) => Err(BadTarget(t))
          case None => Ok(s.(entries := s.entries + [NewEntry(s, r, f)], ledgerFresh := true))
  }

  function NewEntry(s: State, r: Request, f: Family): Entry {
    var archive := ArchivePathFor(r.source, f);
    Entry(r.source, f, if Kept(s, f, r.source) then SummarizedActive else PendingArchive,
          if archive.Some? then archive.value else [], Some(r.theme), Some(r.value), r.targets, None)
  }

  // ----- cleaning up -----

  datatype Choice = All | Only(family: Family)

  /** The links found in each document. */
  type Links = Path -> seq<Path>

  datatype CleanError = LinkConflict | UnsupportedFamily | ArchiveMismatch | SourceGone | ArchiveExists

  predicate Pending(e: Entry, c: Choice) {
    e.status.PendingArchive? && (c.All? || e.family == c.family)
  }

  function PendingSources(entries: seq<Entry>, c: Choice): set<Path> {
    set e | e in entries && Pending(e, c) :: e.source
  }

  /** An active document outside the archive and the indexes links to a source about to go. */
  predicate Conflict(s: State, links: Links, sources: set<Path>) {
    exists p :: p in s.files && Under(DOCS, p) && p !in sources && !Under(ARCHIVE, p) && Last(p) != "INDEX.md"
                && IsMarkdown(Last(p)) && exists t :: t in links(p) && t in sources
  }

  predicate HasChild(files: set<Path>, dirs: set<Path>, p: Path) {
    exists q :: q in files + dirs && |q| == |p| + 1 && Under(p, q)
  }

  /** Directories are removed upwards while they are empty, but never docs itself. */
  function RemoveEmpty(files: set<Path>, dirs: set<Path>, p: Path): set<Path> {
    if p == [] || p == DOCS || p !in dirs || HasChild(files, dirs, p) then dirs
    else RemoveEmpty(files, dirs - {p}, p[..|p| - 1])
  }

  /** The files, the directories and the new entries after some entries have been handled, and
      the error that stopped it. */
  datatype Progress = Progress(files: set<Path>, dirs: set<Path>, entries: seq<Entry>, error: Option<CleanError>)

  function CleanOne(p: Progress, e: Entry, sources: set<Path>, today: string): Progress {
    if e.source !in sources then p.(entries := p.entries + [e])
    else
      match ArchivePathFor(e.source, e.family)
      case None => p.(error := Some(UnsupportedFamily))
      case Some(archive) =>
        if e.archive != archive then p.(error := Some(ArchiveMismatch))
        else if e.source !in p.files then p.(error := Some(SourceGone))
        else if e.archive in p.files then p.(error := Some(ArchiveExists))
        else
          var files := p.files - {e.source};
          Progress(files, RemoveEmpty(files, p.dirs, if e.source == [] then [] else e.source[..|e.source| - 1]),
                   p.entries + [e.(status := Archived, archivedAt := Some(today))], None)
  }

  function CleanEach(p: Progress, entries: seq<Entry>, sources: set<Path>, today: string): Progress
    decreases |entries|
  {
    if p.error.Some? || entries == [] then p
    else CleanEach(CleanOne(p, entries[0], sources, today), entries[1..], sources, today)
  }

  /** An error part of the way leaves the files removed so far missing and the manifest as it was. */
  function Cleanup(s: State, c: Choice, links: Links, today: string): (State, Option<CleanError>) {
    var sources := PendingSources(s.entries, c);
    if sources == {} then (s, None)
    else if Conflict(s, links, sources) then (s, Some(LinkConflict))
    else
      var p := CleanEach(Progress(s.files, s.dirs, [], None), s.entries, sources, today);
      if p.error.Some? then (s.(files := p.files, dirs := p.dirs), p.error)
      else (s.(files := p.files, dirs := p.dirs, entries := p.entries, ledgerFresh := true), None)
  }
}
