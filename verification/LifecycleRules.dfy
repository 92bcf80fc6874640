/** The rules of the lifecycle, stated on paths, listings and single entries: which documents belong
    to a family and where they are archived, which ones a keep window holds, what a mark accepts
    and records, and what validation refuses. */
module LifecycleRules {
  import opened Wrappers
  import opened Lifecycle
  import opened LifecycleProof

  // ----- families and archive paths -----

  /** Four digits, two digits and two digits with dashes between them. */
  lemma DateForm(s: string)
    ensures IsDate(s) <==>
            |s| == 10 && s[4] == '-' && s[7] == '-' && forall c :: c in s[..4] + s[5..7] + s[8..] ==> '0' <= c <= '9'
  {
    if |s| == 10 {
      var digits := s[..4] + s[5..7] + s[8..];
      assert forall i :: 0 <= i < 10 && i != 4 && i != 7 ==> s[i] in digits by {
        assert forall i :: 0 <= i < 4 ==> s[i] == digits[i];
        assert s[5] == digits[4] && s[6] == digits[5] && s[8] == digits[6] && s[9] == digits[7];
      }
      if IsDate(s) {
        assert s[5..7] == [s[5], s[6]] && s[8..] == [s[8], s[9]];
      }
    }
  }

  /** The history holds the dated markdown files directly under docs/history. */
  lemma HistoryExactly(p: Path)
    ensures FamilyOf(p) == Some(History) <==>
            exists date :: p == ["docs", "history", date + ".md"] && IsDate(date)
  {
    if FamilyOf(p) == Some(History) {
      var date := Stem(p[2]);
      assert p[2] == date + ".md";
      assert p == ["docs", "history", p[2]];
    }
    if exists date :: p == ["docs", "history", date + ".md"] && IsDate(date) {
      var date :| p == ["docs", "history", date + ".md"] && IsDate(date);
      DateNames(date);
      assert p == Note(date + ".md");
    }
  }

  ghost predicate ReviewPath(p: Path, date: string, middle: Path, stem: string) {
    p == ["docs", "review", date] + middle + [stem + ".md"] && IsDate(date) && stem != []
  }

  lemma ReviewIsFiled(p: Path, date: string, middle: Path, stem: string)
    requires ReviewPath(p, date, middle, stem)
    ensures FamilyOf(p) == Some(DatedReview)
  {
    var name := stem + ".md";
    assert Last(p) == name && name[|name| - 3..] == ".md";
    assert p[1] == "review" && "review"[0] != "history"[0];
  }

  /** The dated reviews are the markdown files at any depth under a dated directory of docs/review. */
  lemma ReviewExactly(p: Path)
    ensures FamilyOf(p) == Some(DatedReview) <==> exists date, middle, stem :: ReviewPath(p, date, middle, stem)
  {
    if FamilyOf(p) == Some(DatedReview) {
      var name := Last(p);
      var stem := name[..|name| - 3];
      assert name == stem + ".md";
      assert ReviewPath(p, p[2], p[3..|p| - 1], stem);
    }
    if exists date, middle, stem :: ReviewPath(p, date, middle, stem) {
      var date: string, middle: Path, stem: string :| ReviewPath(p, date, middle, stem);
      ReviewIsFiled(p, date, middle, stem);
    }
  }

  /** A filed document keeps its place under docs inside the archive. */
  lemma ArchivedInPlace(p: Path, f: Family)
    requires FamilyOf(p) == Some(f)
    ensures p[0] == "docs" && ArchivePathFor(p, f) == Some(["docs", "archive"] + p[1..])
  {
    if f == History {
      assert p[1..] == ["history", Last(p)];
      assert ["docs", "archive"] + p[1..] == ["docs", "archive", "history", Last(p)];
    } else {
      assert p[1..] == ["review"] + p[2..];
      assert ["docs", "archive"] + p[1..] == ["docs", "archive", "review"] + p[2..];
    }
  }

  // ----- keep windows -----

  /** Any two names are ordered. */
  lemma {:induction false} LessTotal(a: string, b: string)
    ensures a == b || Less(a, b) || Less(b, a)
  {
    if a != [] && b != [] && a[0] == b[0] {
      LessTotal(a[1..], b[1..]);
      assert a == [a[0]] + a[1..] && b == [b[0]] + b[1..];
    }
  }

  ghost predicate Falling(names: seq<string>) {
    forall a, b :: 0 <= a < b < |names| ==> Less(names[b], names[a])
  }

  function Cut(names: seq<string>, k: nat): seq<string> {
    if k < |names| then names[..k] else names
  }

  lemma CutIsTop(names: seq<string>, k: nat, x: string)
    requires Falling(names)
    ensures x in Cut(names, k) <==> InTop(x, Names(names), k)
  {
    forall i | 0 <= i < |names| ensures InTop(names[i], Names(names), k) <==> i < k {
      PrefixIsTop(names, k, i);
    }
    if InTop(x, Names(names), k) {
      var i :| 0 <= i < |names| && names[i] == x;
      assert Cut(names, k)[i] == x;
    }
  }

  /** The history keeps the documents named by the first keepHistory names of the falling list of
      all its names. */
  lemma HistoryWindow(s: State, names: seq<string>, p: Path)
    requires Falling(names)
    requires forall x :: x in names <==> ["docs", "history", x] in s.files && IsHistory(["docs", "history", x])
    ensures Kept(s, History, p) <==> exists x :: p == ["docs", "history", x] && x in Cut(names, s.keepHistory)
  {
    assert Names(names) == HistoryNames(s.files) by {
      forall x ensures x in Names(names) <==> x in HistoryNames(s.files) {
        if x in HistoryNames(s.files) {
          var q :| q in s.files && IsHistory(q) && Last(q) == x;
          assert q == ["docs", "history", x];
        }
        if x in names {
          assert Last(["docs", "history", x]) == x;
        }
      }
    }
    if Kept(s, History, p) {
      assert p == ["docs", "history", p[2]];
      CutIsTop(names, s.keepHistory, p[2]);
    }
    if exists x :: p == ["docs", "history", x] && x in Cut(names, s.keepHistory) {
      var x :| p == ["docs", "history", x] && x in Cut(names, s.keepHistory);
      CutIsTop(names, s.keepHistory, x);
      assert x in names;
    }
  }

  /** The reviews keep the files that stand directly in one of the first keepReview directories
      of the falling list of all dated ones. */
  lemma ReviewWindow(s: State, dates: seq<string>, p: Path)
    requires Falling(dates)
    requires forall x :: x in dates <==> ["docs", "review", x] in s.dirs && IsDate(x)
    ensures Kept(s, DatedReview, p) <==>
            p in s.files
            && exists x, name :: p == ["docs", "review", x, name] && EndsInMd(name) && x in Cut(dates, s.keepReview)
  {
    assert Names(dates) == ReviewDates(s.dirs) by {
      forall x ensures x in Names(dates) <==> x in ReviewDates(s.dirs) {
        if x in ReviewDates(s.dirs) {
          var q :| q in s.dirs && |q| == 3 && Under(REVIEW, q) && IsDate(q[2]) && Last(q) == x;
          assert q == ["docs", "review", x];
        }
        if x in dates {
          assert Last(["docs", "review", x]) == x;
        }
      }
    }
    if Kept(s, DatedReview, p) {
      assert p == ["docs", "review", p[2], p[3]];
      CutIsTop(dates, s.keepReview, p[2]);
    }
    if p in s.files
       && exists x, name :: p == ["docs", "review", x, name] && EndsInMd(name) && x in Cut(dates, s.keepReview) {
      var x, name :| p == ["docs", "review", x, name] && EndsInMd(name) && x in Cut(dates, s.keepReview);
      CutIsTop(dates, s.keepReview, x);
      assert x in dates;
    }
  }

  // ----- marking -----

  lemma {:induction false} FirstBad(s: State, targets: seq<Path>)
    ensures match FirstBadTarget(s, targets)
            case None => true
            case Some(t) =>
              exists i :: 0 <= i < |targets| && targets[i] == t && !TargetOk(s, t)
                          && forall j :: 0 <= j < i ==> TargetOk(s, targets[j])
  {
    if targets != [] && TargetOk(s, targets[0]) && FirstBadTarget(s, targets).Some? {
      FirstBad(s, targets[1..]);
      var t := FirstBadTarget(s, targets).value;
      var i :| 0 <= i < |targets[1..]| && targets[1..][i] == t && !TargetOk(s, t)
               && forall j :: 0 <= j < i ==> TargetOk(s, targets[1..][j]);
      forall j | 0 <= j < i + 1 ensures TargetOk(s, targets[j]) {
        if j > 0 {
          assert targets[j] == targets[1..][j - 1];
        }
      }
      assert targets[i + 1] == t;
    }
  }

  predicate ActiveMarkdown(s: State, p: Path) {
    p in s.files && !(["docs", "archive"] <= p) && |Last(p)| > 3 && EndsInMd(Last(p))
  }

  /** What a mark refuses, in this order, and what it records otherwise. */
  lemma MarkExactly(s: State, r: Request)
    ensures match Mark(s, r)
            case Err(SourceInArchive) => ["docs", "archive"] <= r.source
            case Err(MissingSource) => !(["docs", "archive"] <= r.source) && r.source !in s.files
            case Err(NotMarkdown) =>
              !(["docs", "archive"] <= r.source) && r.source in s.files && !ActiveMarkdown(s, r.source)
            case Err(NoFamily) => ActiveMarkdown(s, r.source) && FamilyOf(r.source) == None
            case Err(Duplicate) =>
              && ActiveMarkdown(s, r.source) && FamilyOf(r.source).Some?
              && exists e :: e in s.entries && e.source == r.source
            case Err(BadValue) =>
              && ActiveMarkdown(s, r.source) && FamilyOf(r.source).Some?
              && (forall e :: e in s.entries ==> e.source != r.source)
              && (|r.value| == 0 || '\n' in r.value)
            case Err(BadTarget(t)) =>
              && ActiveMarkdown(s, r.source) && FamilyOf(r.source).Some?
              && (forall e :: e in s.entries ==> e.source != r.source)
              && |r.value| > 0 && '\n' !in r.value
              && exists i :: 0 <= i < |r.targets| && r.targets[i] == t && !ActiveMarkdown(s, t)
                             && forall j :: 0 <= j < i ==> ActiveMarkdown(s, r.targets[j])
            case Ok(t) =>
              && ActiveMarkdown(s, r.source) && FamilyOf(r.source).Some?
              && (forall e :: e in s.entries ==> e.source != r.source)
              && |r.value| > 0 && '\n' !in r.value
              && (forall x :: x in r.targets ==> ActiveMarkdown(s, x))
              && Records(s, r, t)
  {
    assert forall p :: TargetOk(s, p) <==> ActiveMarkdown(s, p);
    FirstBad(s, r.targets);
  }

  /** One more entry, at the end: the document keeps its place in the archive, and waits for
      cleaning up unless a keep window holds it. */
  ghost predicate Records(s: State, r: Request, t: State) {
    FamilyOf(r.source).Some? &&
    var f := FamilyOf(r.source).value;
    && |t.entries| == |s.entries| + 1 && t == s.(entries := t.entries, ledgerFresh := true)
    && (forall i :: 0 <= i < |s.entries| ==> t.entries[i] == s.entries[i])
    && var e := t.entries[|s.entries|];
       && e.source == r.source && e.family == f && ArchivePathFor(r.source, f) == Some(e.archive)
       && e.status == (if Kept(s, f, r.source) then SummarizedActive else PendingArchive)
       && e.theme == Some(r.theme) && e.value == Some(r.value) && e.targets == r.targets && e.archivedAt == None
  }

  // ----- validation -----

  /** Any one defect of an entry that is in order makes it one that is not. */
  lemma DefectsAreRefused(s: State, e: Entry, name: string, p: Path)
    requires EntryOk(s, e)
    ensures p != e.archive ==> !EntryOk(s, e.(archive := p))
    ensures !EntryOk(s, e.(status := UnknownStatus(name))) && !EntryOk(s, e.(family := UnknownFamily(name)))
    ensures e.status != Active ==> !EntryOk(s, e.(theme := None)) && !EntryOk(s, e.(theme := Some("")))
    ensures e.status != Active ==> !EntryOk(s, e.(value := None)) && !EntryOk(s, e.(value := Some("")))
    ensures e.status != Active ==> !EntryOk(s, e.(targets := []))
    ensures e.status != Active && !ActiveMarkdown(s, p) ==> !EntryOk(s, e.(targets := e.targets + [p]))
    ensures e.status == Archived ==> !EntryOk(s, e.(archivedAt := None))
    ensures e.status != Archived ==> !EntryOk(s, e.(archivedAt := Some(name)))
    ensures e.status == Archived ==> !EntryOk(s.(files := s.files + {e.source}), e)
    ensures e.status != Archived ==> !EntryOk(s.(files := s.files - {e.source}), e)
    ensures !EntryOk(s.(files := s.files + {e.archive}), e)
    ensures e.status == SummarizedActive ==> !EntryOk(s, e.(status := PendingArchive))
    ensures e.status == PendingArchive ==> !EntryOk(s, e.(status := SummarizedActive))
  {
    if !ActiveMarkdown(s, p) {
      var ts := e.targets + [p];
      assert ts[|e.targets|] == p && !TargetOk(s, p);
    }
  }

  /** Nor does a repository stay valid with a wrong header, a stale ledger, without docs/review, or
      with two entries for one document. */
  lemma RepositoryDefectsAreRefused(s: State, e: Entry)
    ensures Valid(s) ==> s.headerOk && s.ledgerFresh && ["docs", "review"] in s.dirs
    ensures !Valid(s.(headerOk := false)) && !Valid(s.(ledgerFresh := false))
    ensures !Valid(s.(dirs := s.dirs - {["docs", "review"]}))
    ensures (exists x :: x in s.entries && x.source == e.source) ==> !Valid(s.(entries := s.entries + [e]))
  {
    if exists x :: x in s.entries && x.source == e.source {
      var i :| 0 <= i < |s.entries| && s.entries[i].source == e.source;
      var es := s.entries + [e];
      assert es[i].source == es[|s.entries|].source && i < |s.entries|;
    }
  }
}
