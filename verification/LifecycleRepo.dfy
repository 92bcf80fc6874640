/** The lifecycle commands on a repository that they change step by step. */
module LifecycleRepo {
  import opened Wrappers
  import opened Lifecycle
  import opened LifecycleProof

  datatype Complaint =
    | BadHeader
    | StaleLedger
    | DuplicateSource(source: Path)
    | UnknownFamilyOf(source: Path)
    | UnknownStatusOf(source: Path)
    | ArchivePathMismatch(source: Path)
    | NoTheme(source: Path)
    | NoValue(source: Path)
    | NoTargets(source: Path)
    | TargetInArchive(source: Path, target: Path)
    | TargetMissing(source: Path, target: Path)
    | TargetNotMarkdown(source: Path, target: Path)
    | SourceStillExists(source: Path)
    | SourceIsMissing(source: Path)
    | ArchiveFileExists(archive: Path)
    | NoArchivedAt(source: Path)
    | UnexpectedArchivedAt(source: Path)
    | OutsideWindow(source: Path)
    | InsideWindow(source: Path)

  lemma DistinctNext(entries: seq<Entry>, i: nat)
    requires i < |entries|
    ensures DistinctSources(entries[..i + 1]) <==>
            DistinctSources(entries[..i]) && forall k :: 0 <= k < i ==> entries[k].source != entries[i].source
  {
    var now, next := entries[..i], entries[..i + 1];
    assert next[i] == entries[i] && forall k :: 0 <= k < i ==> next[k] == now[k] == entries[k];
  }

  class Repository {
    var files: set<Path>
    var dirs: set<Path>
    var entries: seq<Entry>
    var ledgerFresh: bool
    const headerOk: bool
    const keepHistory: nat
    const keepReview: nat

    constructor (files: set<Path>, dirs: set<Path>, keepHistory: nat, keepReview: nat)
      ensures Snapshot() == State(files, dirs, [], keepHistory, keepReview, true, true)
    {
      this.files, this.dirs, this.entries, this.ledgerFresh := files, dirs, [], true;
      this.headerOk, this.keepHistory, this.keepReview := true, keepHistory, keepReview;
    }

    function Snapshot(): State
      reads this
    {
      State(files, dirs, entries, keepHistory, keepReview, headerOk, ledgerFresh)
    }

    method ValidateTargets(e: Entry) returns (errors: seq<Complaint>)
      ensures errors == [] <==> forall t :: t in e.targets ==> TargetOk(Snapshot(), t)
    {
      errors := [];
      for i := 0 to |e.targets|
        invariant errors == [] <==> forall k :: 0 <= k < i ==> TargetOk(Snapshot(), e.targets[k])
      {
        var target := e.targets[i];
        if Under(ARCHIVE, target) {
          errors := errors + [TargetInArchive(e.source, target)];
        } else if target !in files {
          errors := errors + [TargetMissing(e.source, target)];
        } else if !IsMarkdown(Last(target)) {
          errors := errors + [TargetNotMarkdown(e.source, target)];
        }
      }
    }

    method ValidateSummary(e: Entry) returns (errors: seq<Complaint>)
      ensures errors == [] <==>
              !Missing(e.theme) && !Missing(e.value) && e.targets != []
              && forall t :: t in e.targets ==> TargetOk(Snapshot(), t)
    {
      errors := if Missing(e.theme) then [NoTheme(e.source)] else [];
      if Missing(e.value) {
        errors := errors + [NoValue(e.source)];
      }
      if e.targets == [] {
        errors := errors + [NoTargets(e.source)];
      } else {
        var bad := ValidateTargets(e);
        errors := errors + bad;
      }
    }

    method ValidatePlace(e: Entry) returns (errors: seq<Complaint>)
      requires !e.status.UnknownStatus?
      ensures errors == [] <==>
              && e.archive !in files
              && (if e.status.Archived? then e.source !in files && e.archivedAt.Some?
                  else e.source in files && e.archivedAt.None?)
              && (e.status.SummarizedActive? ==> Kept(Snapshot(), e.family, e.source))
              && (e.status.PendingArchive? ==> !Kept(Snapshot(), e.family, e.source))
    {
      errors := [];
      if e.status.Archived? {
        if e.source in files {
          errors := errors + [SourceStillExists(e.source)];
        }
        if e.archivedAt.None? {
          errors := errors + [NoArchivedAt(e.source)];
        }
      } else {
        if e.source !in files {
          errors := errors + [SourceIsMissing(e.source)];
        }
        if e.archivedAt.Some? {
          errors := errors + [UnexpectedArchivedAt(e.source)];
        }
      }
      if e.archive in files {
        errors := errors + [ArchiveFileExists(e.archive)];
      }
      var kept := Kept(Snapshot(), e.family, e.source);
      if e.status.SummarizedActive? && !kept {
        errors := errors + [OutsideWindow(e.source)];
      }
      if e.status.PendingArchive? && kept {
        errors := errors + [InsideWindow(e.source)];
      }
    }

    method ValidateEntry(e: Entry) returns (errors: seq<Complaint>)
      ensures errors == [] <==> EntryOk(Snapshot(), e)
    {
      if e.family.UnknownFamily? {
        return [UnknownFamilyOf(e.source)];
      }
      errors := [];
      if ArchivePathFor(e.source, e.family) != Some(e.archive) {
        errors := errors + [ArchivePathMismatch(e.source)];
      }
      if !e.status.Active? {
        var summary := ValidateSummary(e);
        errors := errors + summary;
      }
      if e.status.UnknownStatus? {
        errors := errors + [UnknownStatusOf(e.source)];
      } else {
        var place := ValidatePlace(e);
        errors := errors + place;
      }
    }

    /** All complaints about the repository; None when the windows cannot even be computed. */
    method RunValidate() returns (r: Option<seq<Complaint>>)
      ensures r == Some([]) <==> Valid(Snapshot())
      ensures r.None? <==> REVIEW !in dirs
    {
      if REVIEW !in dirs {
        return None;
      }
      var errors := if headerOk then [] else [BadHeader];
      var seen: set<Path> := {};
      ghost var s := Snapshot();
      for i := 0 to |entries|
        invariant forall k :: 0 <= k < i ==> entries[k].source in seen
        invariant forall p :: p in seen ==> exists k :: 0 <= k < i && entries[k].source == p
        invariant errors == [] <==>
                  headerOk && DistinctSources(entries[..i]) && forall k :: 0 <= k < i ==> EntryOk(s, entries[k])
      {
        var e := entries[i];
        DistinctNext(entries, i);
        if e.source in seen {
          errors := errors + [DuplicateSource(e.source)];
          continue;
        }
        seen := seen + {e.source};
        var bad := ValidateEntry(e);
        errors := errors + bad;
      }
      assert entries[..|entries|] == entries;
      if !ledgerFresh {
        errors := errors + [StaleLedger];
      }
      r := Some(errors);
    }

    method EnsureTargets(targets: seq<Path>) returns (bad: Option<Path>)
      ensures bad == FirstBadTarget(Snapshot(), targets)
    {
      assert targets[0..] == targets;
      for i := 0 to |targets|
        invariant FirstBadTarget(Snapshot(), targets) == FirstBadTarget(Snapshot(), targets[i..])
      {
        if Under(ARCHIVE, targets[i]) || targets[i] !in files || !IsMarkdown(Last(targets[i])) {
          return Some(targets[i]);
        }
        assert targets[i..][1..] == targets[i + 1..];
      }
      return None;
    }

    method RunMark(request: Request) returns (error: Option<MarkError>)
      modifies `entries, `ledgerFresh
      ensures match Mark(old(Snapshot()), request)
              case Ok(s) => error.None? && Snapshot() == s
              case Err(e) => error == Some(e) && Snapshot() == old(Snapshot())
    {
      if Under(ARCHIVE, request.source) {
        return Some(SourceInArchive);
      }
      if request.source !in files {
        return Some(MissingSource);
      }
      if !IsMarkdown(Last(request.source)) {
        return Some(NotMarkdown);
      }
      var family := FamilyOf(request.source);
      if family.None? {
        return Some(NoFamily);
      }
      if exists e :: e in entries && e.source == request.source {
        return Some(Duplicate);
      }
      if request.value == [] || '\n' in request.value {
        return Some(BadValue);
      }
      var bad := EnsureTargets(request.targets);
      if bad.Some? {
        return Some(BadTarget(bad.value));
      }
      entries := entries + [NewEntry(Snapshot(), request, family.value)];
      ledgerFresh := true;
      return None;
    }

    method RemoveEmptyParents(path: Path)
      modifies `dirs
      ensures dirs == RemoveEmpty(files, old(dirs), path)
    {
      var current := path;
      while current != [] && current != DOCS && current in dirs
        invariant RemoveEmpty(files, dirs, current) == RemoveEmpty(files, old(dirs), path)
        decreases |current|
      {
        if HasChild(files, dirs, current) {
          return;
        }
        dirs := dirs - {current};
        current := current[..|current| - 1];
      }
    }

    /** The links of one document that lead to a source about to go. */
    method LinksToSources(doc: Path, targets: seq<Path>, sources: set<Path>) returns (errors: seq<(Path, Path)>)
      ensures forall p, t :: (p, t) in errors <==> p == doc && t in targets && t in sources
    {
      errors := [];
      for i := 0 to |targets|
        invariant forall p, t :: (p, t) in errors <==> p == doc && t in targets[..i] && t in sources
      {
        if targets[i] in sources {
          errors := errors + [(doc, targets[i])];
        }
      }
      assert targets[..|targets|] == targets;
    }

    /** All links from active documents to sources about to go. The order in which the documents
        are visited does not matter. */
    method FindDirectLinks(links: Links, sources: set<Path>) returns (errors: seq<(Path, Path)>)
      ensures forall p, t :: (p, t) in errors <==>
                && p in files && ["docs"] <= p && |Last(p)| > 3 && EndsInMd(Last(p))
                && p !in sources && !(["docs", "archive"] <= p) && Last(p) != "INDEX.md"
                && t in links(p) && t in sources
    {
      errors := [];
      var rest := files;
      while rest != {}
        invariant rest <= files
        invariant forall p, t :: (p, t) in errors <==>
                    && p in files - rest && ["docs"] <= p && |Last(p)| > 3 && EndsInMd(Last(p))
                    && p !in sources && !(["docs", "archive"] <= p) && Last(p) != "INDEX.md"
                    && t in links(p) && t in sources
        decreases |rest|
      {
        var doc :| doc in rest;
        rest := rest - {doc};
        if !(Under(DOCS, doc) && IsMarkdown(Last(doc))) {
          continue;
        }
        if doc in sources || Under(ARCHIVE, doc) || Last(doc) == "INDEX.md" {
          continue;
        }
        var found := LinksToSources(doc, links(doc), sources);
        errors := errors + found;
      }
    }

    method HasConflict(links: Links, sources: set<Path>) returns (conflict: bool)
      ensures conflict == Conflict(Snapshot(), links, sources)
    {
      var errors := FindDirectLinks(links, sources);
      conflict := errors != [];
      if conflict {
        var (doc, target) := errors[0];
        assert (doc, target) in errors && target in links(doc) && target in sources;
      } else {
        assert forall p, t :: (p, t) !in errors;
      }
    }

    /** One entry of a cleanup: its source goes, if it is to go. */
    method CleanEntry(e: Entry, sources: set<Path>, today: string, updated: seq<Entry>)
        returns (updated': seq<Entry>, error: Option<CleanError>)
      modifies `files, `dirs
      ensures Progress(files, dirs, updated', error)
           == CleanOne(Progress(old(files), old(dirs), updated, None), e, sources, today)
    {
      if e.source !in sources {
        return updated + [e], None;
      }
      var archive := ArchivePathFor(e.source, e.family);
      if archive.None? {
        return updated, Some(UnsupportedFamily);
      }
      if e.archive != archive.value {
        return updated, Some(ArchiveMismatch);
      }
      if e.source !in files {
        return updated, Some(SourceGone);
      }
      if e.archive in files {
        return updated, Some(ArchiveExists);
      }
      files := files - {e.source};
      RemoveEmptyParents(if e.source == [] then [] else e.source[..|e.source| - 1]);
      return updated + [e.(status := Archived, archivedAt := Some(today))], None;
    }

    /** Removes the sources that wait for it and archives their entries; the manifest is written
        only when all went well. */
    method RunCleanup(choice: Choice, links: Links, today: string) returns (error: Option<CleanError>)
      modifies this
      ensures (Snapshot(), error) == Cleanup(old(Snapshot()), choice, links, today)
      ensures (exists p, e :: Blocks(old(Snapshot()), choice, links, p, e)) ==>
              error == Some(LinkConflict) && Snapshot() == old(Snapshot())
    {
      ghost var before := Snapshot();
      if exists p, e :: Blocks(before, choice, links, p, e) {
        var p: Path, e: Entry :| Blocks(before, choice, links, p, e);
        LinkBlocksCleanup(before, choice, links, today, p, e);
      }
      var sources := PendingSources(entries, choice);
      if sources == {} {
        return None;
      }
      var conflict := HasConflict(links, sources);
      if conflict {
        return Some(LinkConflict);
      }
      var updated: seq<Entry> := [];
      assert entries[0..] == entries;
      for i := 0 to |entries|
        invariant entries == old(entries) && ledgerFresh == old(ledgerFresh)
        invariant CleanEach(Progress(files, dirs, updated, None), entries[i..], sources, today)
                  == CleanEach(Progress(old(files), old(dirs), [], None), entries, sources, today)
      {
        assert entries[i..][0] == entries[i] && entries[i..][1..] == entries[i + 1..];
        updated, error := CleanEntry(entries[i], sources, today, updated);
        if error.Some? {
          return;
        }
      }
      entries := updated;
      ledgerFresh := true;
      return None;
    }
  }
}
