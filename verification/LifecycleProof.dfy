/** Marking and cleaning up keep what validation accepts, on exactly stated conditions. */
module LifecycleProof {
  import opened Wrappers
  import opened Lifecycle

  // ----- the order of names and the newest k -----

  lemma {:induction false} LessTransitive(a: string, b: string, c: string)
    requires Less(a, b) && Less(b, c)
    ensures Less(a, c)
  {
    if a != [] && a[0] == b[0] && b[0] == c[0] {
      LessTransitive(a[1..], b[1..], c[1..]);
    }
  }

  lemma {:induction false} LessIrreflexive(a: string)
    ensures !Less(a, a)
  {
    if a != [] {
      LessIrreflexive(a[1..]);
    }
  }

  lemma SubsetSize(a: set<string>, b: set<string>)
    requires a <= b
    ensures |a| <= |b| && (a != b ==> |a| < |b|)
  {
    assert b == a + (b - a);
  }

  /** Removing others never pushes a name out of the newest k. */
  lemma TopShrinks(x: string, all: set<string>, fewer: set<string>, k: nat)
    requires InTop(x, all, k) && fewer <= all && x in fewer
    ensures InTop(x, fewer, k)
  {
    SubsetSize(Above(x, fewer), Above(x, all));
  }

  /** Removing names outside the newest k changes nothing about the newest k. */
  lemma TopUnchanged(x: string, all: set<string>, fewer: set<string>, k: nat)
    requires fewer <= all && forall y :: y in all - fewer ==> !InTop(y, all, k)
    ensures InTop(x, fewer, k) <==> InTop(x, all, k)
  {
    if InTop(x, all, k) {
      TopShrinks(x, all, fewer, k);
    } else if x in fewer {
      NewestStay(x, all, fewer, k);
    }
  }

  lemma {:induction false} NewestStay(x: string, all: set<string>, fewer: set<string>, k: nat)
    requires fewer <= all && forall y :: y in all - fewer ==> !InTop(y, all, k)
    requires x in all && !InTop(x, all, k)
    ensures |Above(x, fewer)| >= k
    decreases |Above(x, all)|
  {
    var above := Above(x, all);
    if above <= fewer {
      assert Above(x, fewer) == above;
    } else {
      var y :| y in above && y !in fewer;
      LessIrreflexive(y);
      forall z | z in all && Less(y, z) ensures Less(x, z) {
        LessTransitive(x, y, z);
      }
      assert y in above && y !in Above(y, all);
      SubsetSize(Above(y, all), above);
      NewestStay(y, all, fewer, k);
      SubsetSize(Above(y, fewer), Above(x, fewer));
    }
  }

  /** A listing in falling order: its first k names are the newest k. */
  lemma PrefixIsTop(listing: seq<string>, k: nat, i: nat)
    requires forall a, b :: 0 <= a < b < |listing| ==> Less(listing[b], listing[a])
    requires i < |listing|
    ensures InTop(listing[i], Names(listing), k) <==> i < k
  {
    var before := listing[..i];
    forall y | y in Names(listing) && Less(listing[i], y) ensures y in Names(before) {
      var j :| 0 <= j < |listing| && listing[j] == y;
      LessAsymmetric(listing[i], y);
      assert j < i;
    }
    assert Above(listing[i], Names(listing)) == Names(before);
    NamesSize(before);
  }

  lemma LessAsymmetric(a: string, b: string)
    requires Less(a, b)
    ensures a != b && !Less(b, a)
  {
    LessIrreflexive(a);
    if Less(b, a) {
      LessTransitive(a, b, a);
    }
  }

  function Names(listing: seq<string>): set<string> {
    set y | y in listing
  }

  lemma {:induction false} NamesSize(listing: seq<string>)
    requires forall a, b :: 0 <= a < b < |listing| ==> Less(listing[b], listing[a])
    ensures |Names(listing)| == |listing|
  {
    if listing != [] {
      var last := listing[|listing| - 1];
      var init := listing[..|listing| - 1];
      NamesSize(init);
      LessIrreflexive(last);
      assert last !in init;
      assert Names(listing) == Names(init) + {last};
    }
  }

  // ----- what deletion keeps -----

  /** The parent of every file exists. */
  predicate Rooted(files: set<Path>, dirs: set<Path>) {
    forall f :: f in files ==> f != [] && Parent(f) in dirs
  }

  function Parent(p: Path): Path
    requires p != []
  {
    p[..|p| - 1]
  }

  /** A file tree: every file and directory stands in a directory, and nothing is both. */
  predicate Tree(files: set<Path>, dirs: set<Path>) {
    Rooted(files, dirs) && files !! dirs && forall d :: d in dirs && d != [] ==> Parent(d) in dirs
  }

  /** Whatever lies below a directory lies in one of its children or is one. */
  lemma {:induction false} BelowMeansChild(files: set<Path>, dirs: set<Path>, p: Path, q: Path)
    requires Tree(files, dirs) && q in files + dirs && p < q
    ensures HasChild(files, dirs, p)
    decreases |q|
  {
    if |q| > |p| + 1 {
      BelowMeansChild(files, dirs, p, Parent(q));
    }
  }

  /** Nothing lies below d but directories on the way to p. */
  predicate LeadsOnlyTo(files: set<Path>, dirs: set<Path>, p: Path, d: Path) {
    && d <= p && d != [] && d != DOCS
    && (forall q :: q in files ==> !(d <= q))
    && forall q :: q in dirs && d <= q ==> q <= p
  }

  /** The upward loop removes exactly the directories that lead to nothing but p. */
  lemma {:induction false} RemoveEmptyExactly(files: set<Path>, dirs: set<Path>, p: Path)
    requires Tree(files, dirs) && p in dirs
    ensures RemoveEmpty(files, dirs, p) == set d | d in dirs && !LeadsOnlyTo(files, dirs, p, d)
    decreases |p|
  {
    if p == [] || p == DOCS {
    } else if HasChild(files, dirs, p) {
      var q :| q in files + dirs && |q| == |p| + 1 && p <= q;
      forall d | d in dirs ensures !LeadsOnlyTo(files, dirs, p, d) {
        assert d <= p ==> d <= q;
      }
    } else {
      forall q | q in files + dirs && p <= q ensures q == p {
        if q != p {
          BelowMeansChild(files, dirs, p, q);
        }
      }
      RemoveEmptyExactly(files, dirs - {p}, Parent(p));
      forall d | d in dirs && d != p
        ensures LeadsOnlyTo(files, dirs, p, d) <==> LeadsOnlyTo(files, dirs - {p}, Parent(p), d)
      {
        forall q | q in dirs - {p} ensures q <= p <==> q <= Parent(p) {
        }
      }
    }
  }

  predicate AboveSome(d: Path, sources: set<Path>) {
    exists x :: x in sources && d <= x
  }

  /** Below d there are only files about to go and directories above such files. */
  predicate Doomed(files: set<Path>, dirs: set<Path>, gone: set<Path>, d: Path) {
    && d != [] && d != DOCS && AboveSome(d, gone)
    && (forall q :: q in files && d <= q ==> q in gone)
    && forall q :: q in dirs && d <= q ==> AboveSome(q, gone)
  }

  /** The directories that are left when some files have gone, in whatever order. */
  function Remaining(files: set<Path>, dirs: set<Path>, gone: set<Path>): set<Path> {
    set d | d in dirs && !Doomed(files, dirs, gone, d)
  }

  lemma RemainingOfNone(files: set<Path>, dirs: set<Path>)
    ensures Remaining(files, dirs, {}) == dirs
  {
  }

  lemma RemainingIsTree(files: set<Path>, dirs: set<Path>, gone: set<Path>)
    requires Tree(files, dirs)
    ensures Tree(files - gone, Remaining(files, dirs, gone))
  {
    forall d | d in files + dirs && d != [] && Doomed(files, dirs, gone, Parent(d))
      ensures d in gone || Doomed(files, dirs, gone, d)
    {
      assert Parent(d) <= d;
    }
  }

  /** With one more file gone, a directory that was left is doomed exactly if it leads only to
      that file. */
  lemma DoomedNow(files: set<Path>, dirs: set<Path>, gone: set<Path>, x: Path, d: Path)
    requires Tree(files, dirs) && x in files && x !in gone && d in Remaining(files, dirs, gone)
    ensures Doomed(files, dirs, gone + {x}, d) <==>
            LeadsOnlyTo(files - gone - {x}, Remaining(files, dirs, gone), Parent(x), d)
  {
    var more, left := gone + {x}, Remaining(files, dirs, gone);
    if Doomed(files, dirs, more, d) {
      NotDoomedBefore(files, dirs, gone, x, d, d);
      forall q | q in left && d <= q ensures q <= Parent(x) {
        NotDoomedBefore(files, dirs, gone, x, d, q);
      }
    }
    if LeadsOnlyTo(files - gone - {x}, left, Parent(x), d) {
      assert d <= Parent(x) && Parent(x) <= x && x in more;
      assert d <= x;
      forall q | q in files && d <= q ensures q in more {
        assert q !in files - gone - {x};
      }
      forall q | q in dirs && d <= q ensures AboveSome(q, more) {
        if q in left {
          assert q <= x;
        } else {
          var y :| y in gone && q <= y;
          assert y in more;
        }
      }
    }
  }

  /** Off the way to x, a doomed directory is doomed without x. */
  lemma DoomedWithout(files: set<Path>, dirs: set<Path>, gone: set<Path>, x: Path, q: Path)
    requires !(q <= x) && q in dirs && q != [] && q != DOCS
    requires forall r :: r in files && q <= r ==> r in gone + {x}
    requires forall r :: r in dirs && q <= r ==> AboveSome(r, gone + {x})
    ensures Doomed(files, dirs, gone, q)
  {
    forall r | r in dirs && q <= r ensures AboveSome(r, gone) {
      var y :| y in gone + {x} && r <= y;
      assert q <= y;
    }
    assert AboveSome(q, gone);
  }

  /** What was left below a directory that is doomed now lies on the way to x. */
  lemma NotDoomedBefore(files: set<Path>, dirs: set<Path>, gone: set<Path>, x: Path, d: Path, q: Path)
    requires Tree(files, dirs) && x in files && Doomed(files, dirs, gone + {x}, d)
    requires q in Remaining(files, dirs, gone) && d <= q
    ensures q <= Parent(x)
  {
    if !(q <= x) {
      DoomedWithout(files, dirs, gone, x, q);
    }
    assert q != x;
  }

  lemma OneMoreGone(files: set<Path>, dirs: set<Path>, gone: set<Path>, x: Path)
    requires Tree(files, dirs) && x in files && x !in gone
    ensures RemoveEmpty(files - gone - {x}, Remaining(files, dirs, gone), Parent(x))
            == Remaining(files, dirs, gone + {x})
  {
    var left := Remaining(files, dirs, gone);
    RemainingIsTree(files, dirs, gone);
    RemoveEmptyExactly(files - gone - {x}, left, Parent(x));
    forall d | d in dirs
      ensures Doomed(files, dirs, gone + {x}, d) <==>
              d !in left || LeadsOnlyTo(files - gone - {x}, left, Parent(x), d)
    {
      if d in left {
        DoomedNow(files, dirs, gone, x, d);
      } else {
        StillDoomed(files, dirs, gone, x, d);
      }
    }
  }

  lemma StillDoomed(files: set<Path>, dirs: set<Path>, gone: set<Path>, x: Path, d: Path)
    requires Doomed(files, dirs, gone, d)
    ensures Doomed(files, dirs, gone + {x}, d)
  {
    forall q | AboveSome(q, gone) ensures AboveSome(q, gone + {x}) {
      var y :| y in gone && q <= y;
    }
  }

  /** A kept source that is still there is still kept, whatever else was deleted. */
  lemma KeptStays(s: State, t: State, f: Family, p: Path)
    requires Kept(s, f, p) && p in t.files && t.files <= s.files && t.dirs <= s.dirs && Rooted(t.files, t.dirs)
    requires t.keepHistory == s.keepHistory && t.keepReview == s.keepReview
    ensures Kept(t, f, p)
  {
    match f
    case History =>
      assert p[2] == Last(p) && Last(p) in HistoryNames(t.files);
      TopShrinks(p[2], HistoryNames(s.files), HistoryNames(t.files), s.keepHistory);
    case DatedReview =>
      var d := Parent(p);
      assert d in t.dirs && |d| == 3 && Under(REVIEW, d) && Last(d) == p[2];
      assert p[2] in ReviewDates(t.dirs);
      TopShrinks(p[2], ReviewDates(s.dirs), ReviewDates(t.dirs), s.keepReview);
  }

  // ----- marking -----

  /** What validation accepts, in a file tree. */
  predicate Good(s: State) {
    Valid(s) && Tree(s.files, s.dirs)
  }

  /** What a caller can check of a mark before it succeeds. */
  predicate MarkIsSafe(s: State, r: Request) {
    r.theme != [] && r.targets != []
    && (FamilyOf(r.source).Some? ==> ArchivePathFor(r.source, FamilyOf(r.source).value).value !in s.files)
  }

  /** A successful mark leads to a valid state exactly if there are a theme and a target and no
      file stands at the archive path. */
  lemma MarkKeepsValidExactly(s: State, r: Request)
    requires Good(s) && Mark(s, r).Ok?
    ensures Valid(Mark(s, r).value) <==> MarkIsSafe(s, r)
    ensures Tree(Mark(s, r).value.files, Mark(s, r).value.dirs)
  {
    var t, e := Mark(s, r).value, NewEntry(s, r, FamilyOf(r.source).value);
    assert t.entries == s.entries + [e] && e in t.entries;
    forall x | x in s.entries ensures EntryOk(t, x) {
      SameDocuments(s, t, x);
    }
    assert forall x :: x in t.entries <==> x in s.entries || x == e;
    assert DistinctSources(t.entries) by {
      forall i | 0 <= i < |s.entries| ensures s.entries[i].source != e.source {
        assert s.entries[i] in s.entries;
      }
    }
    SameDocuments(s, t, e);
  }

  /** Validation of an entry looks at the documents and the windows only. */
  lemma SameDocuments(s: State, t: State, e: Entry)
    requires t.files == s.files && t.dirs == s.dirs && t.keepHistory == s.keepHistory && t.keepReview == s.keepReview
    ensures EntryOk(t, e) == EntryOk(s, e)
  {
    assert Kept(t, e.family, e.source) == Kept(s, e.family, e.source);
    assert forall x :: TargetOk(t, x) == TargetOk(s, x);
  }

  // ----- cleaning up -----

  function Done(e: Entry, sources: set<Path>, today: string): Entry {
    if e.source in sources then e.(status := Archived, archivedAt := Some(today)) else e
  }

  function AllDone(entries: seq<Entry>, sources: set<Path>, today: string): seq<Entry> {
    if entries == [] then [] else [Done(entries[0], sources, today)] + AllDone(entries[1..], sources, today)
  }

  function SourcesIn(entries: seq<Entry>, sources: set<Path>): set<Path> {
    set e | e in entries && e.source in sources :: e.source
  }

  /** What the entries still to be handled need, with some files of the tree gone. */
  predicate Ready(p: Progress, files: set<Path>, dirs: set<Path>, gone: set<Path>, entries: seq<Entry>,
                  sources: set<Path>) {
    && p.error.None? && p.files == files - gone && p.dirs == Remaining(files, dirs, gone)
    && Tree(files, dirs) && DistinctSources(entries)
    && forall e :: e in entries && e.source in sources ==>
         ArchivePathFor(e.source, e.family) == Some(e.archive) && e.source in p.files && e.archive !in p.files
  }

  /** From a ready state nothing can go wrong: exactly the sources disappear, and with them the
      directories that they leave empty. */
  lemma {:induction false} CleanEachSucceeds(p: Progress, files: set<Path>, dirs: set<Path>, gone: set<Path>,
                                             entries: seq<Entry>, sources: set<Path>, today: string)
    requires Ready(p, files, dirs, gone, entries, sources)
    ensures var q, all := CleanEach(p, entries, sources, today), gone + SourcesIn(entries, sources);
            && q.error.None? && q.entries == p.entries + AllDone(entries, sources, today)
            && q.files == files - all && q.dirs == Remaining(files, dirs, all)
    decreases |entries|
  {
    if entries == [] {
      assert p.entries + AllDone(entries, sources, today) == p.entries && gone + SourcesIn(entries, sources) == gone;
    } else {
      var e := entries[0];
      var gone' := gone + (if e.source in sources then {e.source} else {});
      CleanOneKeeps(p, files, dirs, gone, entries, sources, today);
      CleanEachSucceeds(CleanOne(p, e, sources, today), files, dirs, gone', entries[1..], sources, today);
      SourcesInCons(entries, sources);
      assert gone' + SourcesIn(entries[1..], sources) == gone + SourcesIn(entries, sources);
      AllDoneCons(p.entries, entries, sources, today);
    }
  }

  lemma AllDoneCons(before: seq<Entry>, entries: seq<Entry>, sources: set<Path>, today: string)
    requires entries != []
    ensures before + AllDone(entries, sources, today)
         == before + [Done(entries[0], sources, today)] + AllDone(entries[1..], sources, today)
  {
  }

  lemma SourcesInCons(entries: seq<Entry>, sources: set<Path>)
    requires entries != []
    ensures SourcesIn(entries, sources)
            == (if entries[0].source in sources then {entries[0].source} else {}) + SourcesIn(entries[1..], sources)
  {
    assert forall e :: e in entries <==> e == entries[0] || e in entries[1..];
  }

  lemma CleanOneKeeps(p: Progress, files: set<Path>, dirs: set<Path>, gone: set<Path>,
                      entries: seq<Entry>, sources: set<Path>, today: string)
    requires entries != [] && Ready(p, files, dirs, gone, entries, sources)
    ensures var e, next := entries[0], CleanOne(p, entries[0], sources, today);
            var gone' := gone + (if e.source in sources then {e.source} else {});
            Ready(next, files, dirs, gone', entries[1..], sources)
            && next.entries == p.entries + [Done(e, sources, today)]
  {
    var e := entries[0];
    assert e in entries && forall x :: x in entries[1..] ==> x in entries && x.source != e.source;
    if e.source in sources {
      OneMoreGone(files, dirs, gone, e.source);
      assert files - gone - {e.source} == files - (gone + {e.source});
    } else {
      assert gone + {} == gone;
    }
  }

  lemma {:induction false} AllDoneAt(entries: seq<Entry>, sources: set<Path>, today: string)
    ensures var done := AllDone(entries, sources, today);
            |done| == |entries| && forall i :: 0 <= i < |entries| ==> done[i] == Done(entries[i], sources, today)
  {
    if entries != [] {
      AllDoneAt(entries[1..], sources, today);
    }
  }

  /** Only pending entries have a source that is about to go. */
  lemma SourceMeansPending(s: State, c: Choice, e: Entry)
    requires Valid(s) && e in s.entries && e.source in PendingSources(s.entries, c)
    ensures Pending(e, c)
  {
    var x :| x in s.entries && Pending(x, c) && x.source == e.source;
    var i :| 0 <= i < |s.entries| && s.entries[i] == x;
    var j :| 0 <= j < |s.entries| && s.entries[j] == e;
    assert i == j;
  }

  /** What a successful cleanup of a good state does. */
  lemma CleanupRemovesPending(s: State, c: Choice, links: Links, today: string)
    requires Good(s)
    ensures var (t, error) := Cleanup(s, c, links, today);
            var sources := PendingSources(s.entries, c);
            && (error == None || (error == Some(LinkConflict) && t == s))
            && (error.Some? <==> sources != {} && Conflict(s, links, sources))
            && (error.None? ==> t == After(s, sources).(entries := AllDone(s.entries, sources, today)))
            && Tree(t.files, t.dirs)
  {
    var sources := PendingSources(s.entries, c);
    RemainingOfNone(s.files, s.dirs);
    RemainingIsTree(s.files, s.dirs, sources);
    if sources == {} {
      NothingDone(s.entries, today);
      assert s.files - sources == s.files;
    } else if !Conflict(s, links, sources) {
      forall e | e in s.entries && e.source in sources
        ensures ArchivePathFor(e.source, e.family) == Some(e.archive) && e.source in s.files && e.archive !in s.files
      {
        SourceMeansPending(s, c, e);
        assert EntryOk(s, e);
      }
      CleanEachSucceeds(Progress(s.files, s.dirs, [], None), s.files, s.dirs, {}, s.entries, sources, today);
      assert {} + SourcesIn(s.entries, sources) == sources;
    }
  }

  /** The documents of s with some sources gone, under the old manifest. */
  function After(s: State, sources: set<Path>): State {
    s.(files := s.files - sources, dirs := Remaining(s.files, s.dirs, sources))
  }

  /** An active document, that is one under docs which is markdown, neither archived nor an index
      and does not go itself, links to the source of an entry that is to be cleaned up. */
  ghost predicate Blocks(s: State, c: Choice, links: Links, p: Path, e: Entry) {
    && p in s.files && ["docs"] <= p && |Last(p)| > 3 && EndsInMd(Last(p))
    && !(["docs", "archive"] <= p) && Last(p) != "INDEX.md"
    && (forall x :: x in s.entries && x.source == p && x.status.PendingArchive? ==> c != All && c != Only(x.family))
    && e in s.entries && e.source in links(p) && e.status.PendingArchive? && (c == All || c == Only(e.family))
  }

  /** Such a link blocks the cleanup, and nothing changes. */
  lemma LinkBlocksCleanup(s: State, c: Choice, links: Links, today: string, p: Path, e: Entry)
    requires Blocks(s, c, links, p, e)
    ensures Cleanup(s, c, links, today) == (s, Some(LinkConflict))
  {
    var sources := PendingSources(s.entries, c);
    assert Pending(e, c) && e.source in sources;
    assert p !in sources;
    assert Conflict(s, links, sources);
  }

  /** Only such a link does; so after a successful cleanup no active document links to a removed
      one. */
  lemma CleanupLeavesNoLink(s: State, c: Choice, links: Links, today: string)
    requires Good(s)
    ensures var (t, error) := Cleanup(s, c, links, today);
            error.None? ==>
              forall p, x ::
                (p in t.files && ["docs"] <= p && |Last(p)| > 3 && EndsInMd(Last(p))
                 && !(["docs", "archive"] <= p) && Last(p) != "INDEX.md" && x in s.files && x !in t.files)
                ==> x !in links(p)
    ensures Cleanup(s, c, links, today).1.Some? ==>
              exists p, e :: p in s.files && ["docs"] <= p && |Last(p)| > 3 && EndsInMd(Last(p))
                && !(["docs", "archive"] <= p) && Last(p) != "INDEX.md"
                && e in s.entries && e.status.PendingArchive? && (c == All || c == Only(e.family))
                && e.source in links(p)
  {
    var (t, error) := Cleanup(s, c, links, today);
    var sources := PendingSources(s.entries, c);
    CleanupRemovesPending(s, c, links, today);
    if error.None? {
      forall p, x | p in t.files && ["docs"] <= p && |Last(p)| > 3 && EndsInMd(Last(p))
          && !(["docs", "archive"] <= p) && Last(p) != "INDEX.md" && x in s.files && x !in t.files
        ensures x !in links(p)
      {
        assert x in sources && p !in sources;
      }
    } else {
      var p :| p in s.files && Under(DOCS, p) && p !in sources && !Under(ARCHIVE, p) && Last(p) != "INDEX.md"
               && IsMarkdown(Last(p)) && exists t :: t in links(p) && t in sources;
      var x :| x in links(p) && x in sources;
      var e :| e in s.entries && Pending(e, c) && e.source == x;
    }
  }

  /** Exactly the sources disappear of the entries that wait and belong to the chosen family. */
  lemma CleanupRemovesExactly(s: State, c: Choice, links: Links, today: string, x: Path)
    requires Good(s) && Cleanup(s, c, links, today).1.None? && x in s.files
    ensures x !in Cleanup(s, c, links, today).0.files <==>
            exists e :: e in s.entries && e.source == x && e.status.PendingArchive? && (c == All || c == Only(e.family))
  {
    CleanupRemovesPending(s, c, links, today);
    assert x in PendingSources(s.entries, c) <==> exists e :: e in s.entries && e.source == x && Pending(e, c);
  }

  /** The entries stay where they are; those of removed documents say so and when, and nothing
      else about them changes. */
  lemma CleanupArchives(s: State, c: Choice, links: Links, today: string, i: nat)
    requires Good(s) && Cleanup(s, c, links, today).1.None? && i < |s.entries|
    ensures var t, e := Cleanup(s, c, links, today).0, s.entries[i];
            && |t.entries| == |s.entries|
            && (e.source in s.files && e.source !in t.files ==>
                  t.entries[i]
                  == Entry(e.source, e.family, Archived, e.archive, e.theme, e.value, e.targets, Some(today)))
            && (e.source in t.files || e.source !in s.files ==> t.entries[i] == e)
  {
    CleanupRemovesPending(s, c, links, today);
    AllDoneAt(s.entries, PendingSources(s.entries, c), today);
    assert PendingSources(s.entries, c) <= s.files by {
      forall x | x in PendingSources(s.entries, c) ensures x in s.files {
        var e :| e in s.entries && Pending(e, c) && e.source == x;
        assert EntryOk(s, e);
      }
    }
  }

  lemma {:induction false} NothingDone(entries: seq<Entry>, today: string)
    ensures AllDone(entries, {}, today) == entries
  {
    if entries != [] {
      NothingDone(entries[1..], today);
    }
  }

  /** No entry that has been summarized points to a document about to go. */
  predicate NoTargetGoes(s: State, sources: set<Path>) {
    forall e, t :: e in s.entries && !e.status.Active? && t in e.targets ==> t !in sources
  }

  /** The window of one family does not depend on the sources of the other. */
  lemma OtherWindowUnchanged(s: State, sources: set<Path>, f: Family, g: Family, p: Path)
    requires f != g && p in s.files - sources && forall x :: x in sources ==> FamilyOf(x) == Some(f)
    ensures Kept(After(s, sources), g, p) == Kept(s, g, p)
  {
    var t := After(s, sources);
    match g
    case History =>
      assert forall x :: x in sources ==> !IsHistory(x);
      assert HistoryNames(t.files) == HistoryNames(s.files);
    case DatedReview =>
      assert forall x :: x in sources ==> IsHistory(x) && x[1] == "history";
      forall d | d in s.dirs && |d| == 3 && Under(REVIEW, d) ensures d in t.dirs {
        assert d[1] == REVIEW[1] == "review";
        assert !AboveSome(d, sources);
      }
      assert ReviewDates(t.dirs) == ReviewDates(s.dirs);
    case UnknownFamily(_) =>
  }

  /** An entry that goes on waiting does not move into the window of its family. */
  predicate StaysOut(s: State, sources: set<Path>, e: Entry) {
    e.status.PendingArchive? && e.source !in sources ==> !Kept(After(s, sources), e.family, e.source)
  }

  /** An entry after a cleanup is in order exactly if its targets are still there and it does not
      move into a window. */
  lemma EntryAfterCleanup(s: State, c: Choice, today: string, e: Entry)
    requires Good(s) && e in s.entries
    ensures var sources := PendingSources(s.entries, c);
            EntryOk(After(s, sources), Done(e, sources, today)) <==>
            (e.status.Active? || forall x :: x in e.targets ==> x !in sources) && StaysOut(s, sources, e)
  {
    var sources := PendingSources(s.entries, c);
    var t := After(s, sources);
    RemainingIsTree(s.files, s.dirs, sources);
    assert EntryOk(s, e);
    assert !e.status.Active? ==> forall x :: x in e.targets ==> (TargetOk(t, x) <==> x !in sources);
    if e.source in sources {
      SourceMeansPending(s, c, e);
    } else if e.status.SummarizedActive? {
      KeptStays(s, t, e.family, e.source);
    }
  }

  predicate AllStayOut(s: State, sources: set<Path>) {
    forall e :: e in s.entries ==> StaysOut(s, sources, e)
  }

  lemma EntriesAfterCleanup(s: State, c: Choice, today: string)
    requires Good(s)
    ensures var sources := PendingSources(s.entries, c);
            (forall x :: x in AllDone(s.entries, sources, today) ==> EntryOk(After(s, sources), x))
            <==> NoTargetGoes(s, sources) && AllStayOut(s, sources)
  {
    var sources := PendingSources(s.entries, c);
    var t, done := After(s, sources), AllDone(s.entries, sources, today);
    AllDoneAt(s.entries, sources, today);
    forall i | 0 <= i < |s.entries|
      ensures EntryOk(t, done[i]) <==>
              (s.entries[i].status.Active? || forall x :: x in s.entries[i].targets ==> x !in sources)
              && StaysOut(s, sources, s.entries[i])
    {
      EntryAfterCleanup(s, c, today, s.entries[i]);
    }
    if forall x :: x in done ==> EntryOk(t, x) {
      forall e | e in s.entries
        ensures StaysOut(s, sources, e) && (e.status.Active? || forall x :: x in e.targets ==> x !in sources)
      {
        var i :| 0 <= i < |s.entries| && s.entries[i] == e;
        assert done[i] in done;
      }
    }
    if NoTargetGoes(s, sources) && AllStayOut(s, sources) {
      forall x | x in done ensures EntryOk(t, x) {
        var i :| 0 <= i < |done| && done[i] == x;
        assert s.entries[i] in s.entries;
      }
    }
  }

  lemma DistinctAfterCleanup(entries: seq<Entry>, sources: set<Path>, today: string)
    requires DistinctSources(entries)
    ensures DistinctSources(AllDone(entries, sources, today))
  {
    AllDoneAt(entries, sources, today);
    var done := AllDone(entries, sources, today);
    assert forall i :: 0 <= i < |done| ==> done[i].source == entries[i].source;
  }

  /** What a caller can check of a cleanup before it succeeds: no document goes that a summarized
      entry points to, docs/review does not empty, and no entry that goes on waiting moves into
      a window. */
  predicate CleanupIsSafe(s: State, c: Choice) {
    var sources := PendingSources(s.entries, c);
    !Doomed(s.files, s.dirs, sources, REVIEW) && NoTargetGoes(s, sources) && AllStayOut(s, sources)
  }

  /** From any valid repository, a successful cleanup leads to a valid one exactly on these
      conditions on the repository before it. */
  lemma CleanupKeepsValidExactly(s: State, c: Choice, links: Links, today: string)
    requires Good(s) && Cleanup(s, c, links, today).1.None?
    ensures Valid(Cleanup(s, c, links, today).0) <==> CleanupIsSafe(s, c)
  {
    var t, sources := Cleanup(s, c, links, today).0, PendingSources(s.entries, c);
    CleanupRemovesPending(s, c, links, today);
    DistinctAfterCleanup(s.entries, sources, today);
    EntriesAfterCleanup(s, c, today);
    assert forall x :: EntryOk(t, x) == EntryOk(After(s, sources), x) by {
      forall x ensures EntryOk(t, x) == EntryOk(After(s, sources), x) {
        SameDocuments(After(s, sources), t, x);
      }
    }
  }

  /** The entries to clean up lie in the directory of the one chosen family. */
  predicate ChosenFiled(s: State, c: Choice) {
    c.Only? ==> forall e :: e in s.entries && Pending(e, c) ==> FamilyOf(e.source) == Some(c.family)
  }

  /** Then no window moves under an entry that goes on waiting. Cleaning up all families at once
      needs nothing for this. */
  lemma FiledCleanupKeepsValidExactly(s: State, c: Choice, links: Links, today: string)
    requires Good(s) && Cleanup(s, c, links, today).1.None? && ChosenFiled(s, c)
    ensures var sources := PendingSources(s.entries, c);
            Valid(Cleanup(s, c, links, today).0) <==>
            !Doomed(s.files, s.dirs, sources, REVIEW) && NoTargetGoes(s, sources)
  {
    CleanupKeepsValidExactly(s, c, links, today);
    ChosenFiledStayOut(s, c);
  }

  lemma ChosenFiledStayOut(s: State, c: Choice)
    requires Valid(s) && ChosenFiled(s, c)
    ensures AllStayOut(s, PendingSources(s.entries, c))
  {
    var sources := PendingSources(s.entries, c);
    forall e | e in s.entries ensures StaysOut(s, sources, e) {
      if e.status.PendingArchive? && e.source !in sources {
        assert EntryOk(s, e) && !Pending(e, c);
        forall x | x in sources ensures FamilyOf(x) == Some(c.family) {
          var y :| y in s.entries && Pending(y, c) && y.source == x;
        }
        OtherWindowUnchanged(s, sources, c.family, e.family, e.source);
      }
    }
  }

  /** A cleanup leaves the window of the history as it was exactly if no note in the window is
      removed. */
  lemma HistoryWindowUnchangedExactly(s: State, c: Choice, links: Links, today: string)
    requires Good(s) && Cleanup(s, c, links, today).1.None?
    ensures (forall p :: Kept(Cleanup(s, c, links, today).0, History, p) <==> Kept(s, History, p))
            <==> forall x :: x in PendingSources(s.entries, c) ==> !Kept(s, History, x)
  {
    var t, sources := Cleanup(s, c, links, today).0, PendingSources(s.entries, c);
    CleanupRemovesPending(s, c, links, today);
    if forall x :: x in sources ==> !Kept(s, History, x) {
      forall p ensures Kept(t, History, p) <==> Kept(s, History, p) {
        HistoryWindowSame(s, t, sources, p);
      }
    } else {
      var x :| x in sources && Kept(s, History, x);
      assert !Kept(t, History, x);
    }
  }

  lemma HistoryWindowSame(s: State, t: State, sources: set<Path>, p: Path)
    requires t.files == s.files - sources && t.keepHistory == s.keepHistory
    requires forall x :: x in sources ==> !Kept(s, History, x)
    ensures Kept(t, History, p) <==> Kept(s, History, p)
  {
    var all, fewer := HistoryNames(s.files), HistoryNames(t.files);
    forall y | y in all - fewer ensures !InTop(y, all, s.keepHistory) {
      var x :| x in s.files && IsHistory(x) && Last(x) == y;
      assert x in sources;
    }
    if p in s.files && IsHistory(p) {
      TopUnchanged(p[2], all, fewer, s.keepHistory);
    }
  }

  /** So it does when every history note to be removed is filed as one. */
  lemma FiledHistoryStaysOut(s: State, c: Choice, x: Path)
    requires Valid(s) && x in PendingSources(s.entries, c)
    requires forall e :: e in s.entries && Pending(e, c) && IsHistory(e.source) ==> e.family == History
    ensures !Kept(s, History, x)
  {
    var e :| e in s.entries && Pending(e, c) && e.source == x;
    assert EntryOk(s, e);
  }

  // ----- whole runs -----

  datatype Command = DoMark(request: Request) | DoCleanup(choice: Choice, links: Links, today: string)

  function RunOne(s: State, c: Command): State {
    match c
    case DoMark(r) => if Mark(s, r).Ok? then Mark(s, r).value else s
    case DoCleanup(choice, links, today) => Cleanup(s, choice, links, today).0
  }

  /** Every entry is filed under the family of its source. */
  predicate Filed(s: State) {
    forall e :: e in s.entries ==> FamilyOf(e.source) == Some(e.family)
  }

  /** A command that fails, or one that meets what a caller can check beforehand. */
  predicate Safe(s: State, c: Command) {
    match c
    case DoMark(r) => Mark(s, r).Err? || MarkIsSafe(s, r)
    case DoCleanup(choice, links, today) => Cleanup(s, choice, links, today).1.Some? || CleanupIsSafe(s, choice)
  }

  /** The same without a look at the windows. */
  predicate Cautious(s: State, c: Command) {
    match c
    case DoMark(r) => Mark(s, r).Err? || MarkIsSafe(s, r)
    case DoCleanup(choice, links, today) =>
      var sources := PendingSources(s.entries, choice);
      Cleanup(s, choice, links, today).1.Some?
      || (!Doomed(s.files, s.dirs, sources, REVIEW) && NoTargetGoes(s, sources))
  }

  /** Every command of a run is safe where it is given. */
  predicate AllSafe(s: State, cs: seq<Command>)
    decreases |cs|
  {
    cs == [] || (Safe(s, cs[0]) && AllSafe(RunOne(s, cs[0]), cs[1..]))
  }

  predicate AllCautious(s: State, cs: seq<Command>)
    decreases |cs|
  {
    cs == [] || (Cautious(s, cs[0]) && AllCautious(RunOne(s, cs[0]), cs[1..]))
  }

  /** Every state that a run goes through is good. */
  predicate AllGood(s: State, cs: seq<Command>)
    decreases |cs|
  {
    Good(s) && (cs == [] || AllGood(RunOne(s, cs[0]), cs[1..]))
  }

  lemma StepKeepsGoodExactly(s: State, c: Command)
    requires Good(s)
    ensures Good(RunOne(s, c)) <==> Safe(s, c)
  {
    match c {
      case DoMark(r) =>
        if Mark(s, r).Ok? {
          MarkKeepsValidExactly(s, r);
        }
      case DoCleanup(choice, links, today) =>
        CleanupRemovesPending(s, choice, links, today);
        if Cleanup(s, choice, links, today).1.None? {
          CleanupKeepsValidExactly(s, choice, links, today);
        }
    }
  }

  /** A run from a good state goes through good states only, whether its commands succeed or
      fail, exactly if every command is safe where it is given. */
  lemma {:induction false} RunsKeepGoodExactly(s: State, cs: seq<Command>)
    requires Good(s)
    ensures AllGood(s, cs) <==> AllSafe(s, cs)
    decreases |cs|
  {
    if cs != [] {
      StepKeepsGoodExactly(s, cs[0]);
      if Safe(s, cs[0]) {
        RunsKeepGoodExactly(RunOne(s, cs[0]), cs[1..]);
      }
    }
  }

  /** No command files an entry under another family than its source, so in a run that starts
      with none misfiled, such as one from an empty manifest, the windows need no look. */
  lemma {:induction false} FiledRunsKeepGoodExactly(s: State, cs: seq<Command>)
    requires Good(s) && Filed(s)
    ensures AllGood(s, cs) <==> AllCautious(s, cs)
    decreases |cs|
  {
    if cs != [] {
      StepKeepsGoodExactly(s, cs[0]);
      if cs[0].DoCleanup? {
        assert ChosenFiled(s, cs[0].choice);
        ChosenFiledStayOut(s, cs[0].choice);
        CleanupKeepsFiled(s, cs[0].choice, cs[0].links, cs[0].today);
      }
      assert Filed(RunOne(s, cs[0]));
      if Safe(s, cs[0]) {
        FiledRunsKeepGoodExactly(RunOne(s, cs[0]), cs[1..]);
      }
    }
  }

  lemma CleanupKeepsFiled(s: State, c: Choice, links: Links, today: string)
    requires Filed(s)
    ensures Filed(Cleanup(s, c, links, today).0)
  {
    var sources := PendingSources(s.entries, c);
    CleanEachKeepsFiled(Progress(s.files, s.dirs, [], None), s.entries, sources, today);
  }

  lemma {:induction false} CleanEachKeepsFiled(p: Progress, entries: seq<Entry>, sources: set<Path>, today: string)
    requires forall e :: e in p.entries + entries ==> FamilyOf(e.source) == Some(e.family)
    ensures forall e :: e in CleanEach(p, entries, sources, today).entries ==> FamilyOf(e.source) == Some(e.family)
    decreases |entries|
  {
    if p.error.None? && entries != [] {
      assert entries[0] in p.entries + entries;
      var next := CleanOne(p, entries[0], sources, today);
      forall e | e in next.entries + entries[1..] ensures FamilyOf(e.source) == Some(e.family) {
        assert e in p.entries + entries
               || (e in next.entries && e.source == entries[0].source && e.family == entries[0].family);
      }
      CleanEachKeepsFiled(next, entries[1..], sources, today);
    }
  }

  // ----- the conditions are needed -----

  const NOTE: Path := ["docs", "history", "2026-01-01.md"]
  const README: Path := ["docs", "review", "README.md"]

  /** One history note and nothing recorded yet. */
  const SMALL := State({NOTE, README}, {[], DOCS, HISTORY, REVIEW}, [], 0, 0, true, true)

  lemma SmallIsGood()
    ensures Good(SMALL) && FamilyOf(NOTE) == Some(History) && TargetOk(SMALL, NOTE) && !Kept(SMALL, History, NOTE)
  {
    assert Stem(NOTE[2]) == "2026-01-01";
    assert Parent(NOTE) == HISTORY && Parent(README) == REVIEW && Parent(HISTORY) == Parent(REVIEW) == DOCS
           && Parent(DOCS) == [];
    assert NOTE[1][0] == 'h' && ARCHIVE[1][0] == 'a';
  }

  /** Marked with an empty theme, the note is recorded and the repository no longer valid. */
  lemma EmptyThemeBreaks()
    ensures var r := Request(NOTE, "", "value", [NOTE]);
            Good(SMALL) && Mark(SMALL, r).Ok? && !Valid(Mark(SMALL, r).value)
  {
    SmallIsGood();
    var r := Request(NOTE, "", "value", [NOTE]);
    assert FirstBadTarget(SMALL, [NOTE]).None?;
    MarkKeepsValidExactly(SMALL, r);
  }

  /** A note that is its own target is removed by the next cleanup, and its target with it. */
  lemma OwnTargetBreaks(today: string)
    ensures var r := Request(NOTE, "theme", "value", [NOTE]);
            && Mark(SMALL, r).Ok? && Good(Mark(SMALL, r).value)
            && var (t, error) := Cleanup(Mark(SMALL, r).value, All, p => [], today);
               error.None? && !Valid(t)
  {
    SmallIsGood();
    var r := Request(NOTE, "theme", "value", [NOTE]);
    assert FirstBadTarget(SMALL, [NOTE]).None?;
    MarkKeepsValidExactly(SMALL, r);
    var s := Mark(SMALL, r).value;
    var e := NewEntry(SMALL, r, History);
    assert s.entries == [e] && Pending(e, All) && NOTE in PendingSources(s.entries, All);
    CleanupRemovesPending(s, All, p => [], today);
    CleanupKeepsValidExactly(s, All, p => [], today);
    assert !NoTargetGoes(s, PendingSources(s.entries, All)) by {
      assert e in s.entries && NOTE in e.targets;
    }
  }

  function Note(name: string): Path {
    ["docs", "history", name]
  }

  /** A note that waits to be removed, filed under some family. */
  function Waiting(name: string, f: Family): Entry {
    var archive := ArchivePathFor(Note(name), f);
    Entry(Note(name), f, PendingArchive, if archive.Some? then archive.value else [],
          Some("theme"), Some("value"), [README], None)
  }

  /** Two notes wait, the newer one filed as a dated review; the history keeps one note. */
  function Misfiled(older: string, newer: string): State {
    State({Note(older), Note(newer), README}, {[], DOCS, HISTORY, REVIEW},
          [Waiting(older, History), Waiting(newer, DatedReview)], 1, 0, true, true)
  }

  predicate TwoDates(older: string, newer: string) {
    IsHistory(Note(older)) && IsHistory(Note(newer)) && Less(older, newer)
  }

  /** There are such names. */
  lemma TwoDatesExist()
    ensures TwoDates("2026-01-01" + ".md", "2026-01-02" + ".md")
  {
    DateNames("2026-01-01");
    DateNames("2026-01-02");
    SamePrefixLess("2026-01-0", "1", "2");
    assert "2026-01-01" == "2026-01-0" + "1" && "2026-01-02" == "2026-01-0" + "2";
    LessExtended("2026-01-01", "2026-01-02", ".md");
  }

  lemma DateNames(date: string)
    requires IsDate(date)
    ensures IsHistory(Note(date + ".md"))
  {
    var name := date + ".md";
    assert name[|name| - 3..] == ".md" && name[..|name| - 3] == date;
  }

  lemma {:induction false} LessExtended(a: string, b: string, rest: string)
    requires Less(a, b) && |a| == |b|
    ensures Less(a + rest, b + rest)
  {
    if a[0] == b[0] {
      LessExtended(a[1..], b[1..], rest);
      assert (a + rest)[1..] == a[1..] + rest && (b + rest)[1..] == b[1..] + rest;
    }
  }

  lemma {:induction false} SamePrefixLess(p: string, a: string, b: string)
    requires Less(a, b)
    ensures Less(p + a, p + b)
  {
    if p == [] {
      assert p + a == a && p + b == b;
    } else {
      assert (p + a)[1..] == p[1..] + a && (p + b)[1..] == p[1..] + b;
      SamePrefixLess(p[1..], a, b);
    }
  }

  lemma MisfiledNames(older: string, newer: string)
    requires TwoDates(older, newer)
    ensures older != newer && HistoryNames({Note(older), README}) == {older}
    ensures HistoryNames({Note(older), Note(newer), README}) == {older, newer}
    ensures Above(older, {older}) == {} && newer in Above(older, {older, newer})
  {
    LessAsymmetric(older, newer);
    LessIrreflexive(older);
    assert README[1][0] == 'r' && HISTORY[1][0] == 'h';
    assert Last(Note(older)) == older && Last(Note(newer)) == newer;
  }

  lemma WaitingIsOk(s: State, name: string, f: Family)
    requires !f.UnknownFamily? && Note(name) in s.files && README in s.files && !Kept(s, f, Note(name))
    requires Waiting(name, f).archive !in s.files
    ensures EntryOk(s, Waiting(name, f))
  {
    assert README[1][0] == 'r' && ARCHIVE[1][0] == 'a';
    assert TargetOk(s, README);
  }

  lemma MisfiledIsTree(older: string, newer: string)
    ensures Tree(Misfiled(older, newer).files, Misfiled(older, newer).dirs)
  {
    assert Parent(Note(older)) == Parent(Note(newer)) == HISTORY && Parent(README) == REVIEW;
    assert Parent(HISTORY) == Parent(REVIEW) == DOCS && Parent(DOCS) == [];
  }

  lemma MisfiledIsGood(older: string, newer: string)
    requires TwoDates(older, newer)
    ensures Good(Misfiled(older, newer))
            && PendingSources(Misfiled(older, newer).entries, Only(DatedReview)) == {Note(newer)}
  {
    var s := Misfiled(older, newer);
    MisfiledNames(older, newer);
    assert HISTORY[1][0] == 'h' && REVIEW[1][0] == 'r' && ARCHIVE[1][0] == 'a';
    assert !Under(REVIEW, Note(newer));
    WaitingIsOk(s, older, History);
    WaitingIsOk(s, newer, DatedReview);
    MisfiledIsTree(older, newer);
    assert Note(older)[2] != Note(newer)[2];
    assert Pending(s.entries[1], Only(DatedReview)) && s.entries[1] in s.entries;
  }

  lemma OlderMovesIn(older: string, newer: string, t: State)
    requires TwoDates(older, newer)
    requires t.files == Misfiled(older, newer).files - {Note(newer)} && t.keepHistory == 1
    ensures Kept(t, History, Note(older))
  {
    MisfiledNames(older, newer);
    assert README[1][0] == 'r' && HISTORY[1][0] == 'h';
    assert README != Note(newer) && Note(older)[2] != Note(newer)[2];
    assert t.files == {Note(older), README};
  }

  /** The newer note goes, docs/review and the target stay, but the older note would move in. */
  lemma OlderWouldMoveIn(older: string, newer: string)
    requires TwoDates(older, newer)
    ensures var s, sources := Misfiled(older, newer), PendingSources(Misfiled(older, newer).entries, Only(DatedReview));
            !Doomed(s.files, s.dirs, sources, REVIEW) && NoTargetGoes(s, sources) && !AllStayOut(s, sources)
  {
    var s := Misfiled(older, newer);
    MisfiledIsGood(older, newer);
    assert README != Note(newer) && REVIEW <= README by {
      assert README[1][0] == 'r' && HISTORY[1][0] == 'h';
    }
    assert !StaysOut(s, {Note(newer)}, s.entries[0]) by {
      OlderMovesIn(older, newer, After(s, {Note(newer)}));
    }
    assert s.entries[0] in s.entries;
  }

  /** A cleanup of the reviews removes no target and leaves docs/review, yet it takes the newer
      note out of the history, and the older one moves into the window while it still waits. */
  lemma MisfiledBreaks(older: string, newer: string, today: string)
    requires TwoDates(older, newer)
    ensures var c, s := Only(DatedReview), Misfiled(older, newer);
            var (t, error) := Cleanup(s, c, p => [], today);
            var sources := PendingSources(s.entries, c);
            && Good(s) && error.None? && !Doomed(s.files, s.dirs, sources, REVIEW) && NoTargetGoes(s, sources)
            && !Valid(t)
  {
    var c, s := Only(DatedReview), Misfiled(older, newer);
    MisfiledIsGood(older, newer);
    OlderWouldMoveIn(older, newer);
    CleanupRemovesPending(s, c, p => [], today);
    CleanupKeepsValidExactly(s, c, p => [], today);
  }

  const DAY: Path := ["docs", "review", "2026-01-01"]
  const FINDING: Path := ["docs", "review", "2026-01-01", "finding.md"]
  const GUIDE: Path := ["docs", "guide.md"]

  /** The only document under docs/review waits to be removed. */
  const LONELY := State({FINDING, GUIDE}, {[], DOCS, REVIEW, DAY}, [LAST], 0, 0, true, true)

  const LAST := Entry(FINDING, DatedReview, PendingArchive, ["docs", "archive", "review", "2026-01-01", "finding.md"],
                      Some("theme"), Some("value"), [GUIDE], None)

  lemma LonelyIsGood()
    ensures Good(LONELY) && PendingSources(LONELY.entries, All) == {FINDING}
  {
    assert Parent(FINDING) == DAY && Parent(DAY) == REVIEW && Parent(REVIEW) == DOCS == Parent(GUIDE)
           && Parent(DOCS) == [];
    assert GUIDE[1][0] == 'g' && ARCHIVE[1][0] == 'a' && REVIEW[1][0] == 'r';
    assert FINDING[2..] == ["2026-01-01", "finding.md"];
    assert Tree(LONELY.files, LONELY.dirs);
    assert TargetOk(LONELY, GUIDE);
    var e := LAST;
    assert ["docs", "archive", "review"] + FINDING[2..] == e.archive;
    assert e.theme.value == "theme" && e.value.value == "value" && LONELY.keepReview == 0;
    assert EntryOk(LONELY, e);
    assert Pending(e, All) && LONELY.entries == [e];
  }

  /** Removing it removes docs/review, without which validation does not even finish. */
  lemma EmptiedReviewBreaks(today: string)
    ensures var (t, error) := Cleanup(LONELY, All, p => [], today);
            Good(LONELY) && error.None? && NoTargetGoes(LONELY, {FINDING}) && AllStayOut(LONELY, {FINDING})
            && REVIEW !in t.dirs
  {
    LonelyIsGood();
    CleanupRemovesPending(LONELY, All, p => [], today);
    assert GUIDE[1][0] == 'g' && REVIEW[1][0] == 'r';
    assert Doomed(LONELY.files, LONELY.dirs, {FINDING}, REVIEW) by {
      assert REVIEW <= FINDING && DAY <= FINDING && FINDING in {FINDING};
    }
  }
}
