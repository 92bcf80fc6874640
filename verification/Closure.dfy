/** The include closure of a source package: a worklist that grows while it is walked. The file
    system is a finite map from relative paths to what can be read there, and the lookup of an
    include next to its file, under src and under the root is a given function. */
module Closure {
  import opened Wrappers

  /** What stands at an existing path: for a readable file, the quoted include target of each
      line that has one, in order. */
  datatype File = Unreadable | Readable(targets: seq<string>)

  /** The finite file system and the lookup of (including file, target). */
  datatype Tree = Tree(files: map<string, File>, resolve: (string, string) -> Option<string>)

  datatype Target = Follow(path: string) | Skip | Unresolved

  datatype Failure =
    | MissingFile(path: string)
    | CannotRead(path: string)
    | UnresolvedInclude(path: string, target: string)

  const CONFIG_HEADER := "StyioNative/NativeToolchainConfig.hpp"
  const CONFIG_TEMPLATE := "src/StyioNative/NativeToolchainConfig.hpp.in"

  /** A lookup that fails still finds the template of the generated header, and leaves out
      headers of LLVM. */
  function Classify(t: Tree, path: string, target: string): Target {
    match t.resolve(path, target)
    case Some(found) => Follow(found)
    case None =>
      if target == CONFIG_HEADER then Follow(CONFIG_TEMPLATE)
      else if "llvm/" <= target then Skip
      else Unresolved
  }

  // ----- reachability -----

  predicate CanRead(t: Tree, path: string) {
    path in t.files && t.files[path].Readable?
  }

  ghost predicate Includes(t: Tree, a: string, b: string) {
    CanRead(t, a) && exists i :: 0 <= i < |t.files[a].targets| && Classify(t, a, t.files[a].targets[i]) == Follow(b)
  }

  /** Missing, unreadable, or with an include that is neither found nor left out. */
  ghost predicate Broken(t: Tree, a: string) {
    CanRead(t, a) ==> exists i :: 0 <= i < |t.files[a].targets| && Classify(t, a, t.files[a].targets[i]).Unresolved?
  }

  /** What a file includes: what the lookup finds, or the template in place of the generated
      header that it does not find. */
  lemma IncludesExactly(t: Tree, a: string, b: string)
    ensures Includes(t, a, b) <==>
            && a in t.files && t.files[a].Readable?
            && exists target :: target in t.files[a].targets
                 && (t.resolve(a, target) == Some(b)
                     || (t.resolve(a, target) == None && target == "StyioNative/NativeToolchainConfig.hpp"
                         && b == "src/StyioNative/NativeToolchainConfig.hpp.in"))
  {
    if a in t.files && t.files[a].Readable? {
      var targets := t.files[a].targets;
      forall target | target in targets
        ensures Classify(t, a, target) == Follow(b) ==> Includes(t, a, b)
      {
        var i :| 0 <= i < |targets| && targets[i] == target;
      }
      if Includes(t, a, b) {
        var i :| 0 <= i < |targets| && Classify(t, a, targets[i]) == Follow(b);
        assert targets[i] in targets;
      }
    }
  }

  /** What stops the walk: a file that is missing or cannot be read, or one with an include that
      the lookup does not find, other than the generated header and the headers of LLVM. */
  lemma BrokenExactly(t: Tree, a: string)
    ensures Broken(t, a) <==>
            || a !in t.files
            || t.files[a] == Unreadable
            || exists target :: target in t.files[a].targets && t.resolve(a, target) == None
                 && target != "StyioNative/NativeToolchainConfig.hpp" && !("llvm/" <= target)
  {
    if a in t.files && t.files[a].Readable? {
      var targets := t.files[a].targets;
      if exists target :: target in targets && Classify(t, a, target).Unresolved? {
        var target :| target in targets && Classify(t, a, target).Unresolved?;
        var i :| 0 <= i < |targets| && targets[i] == target;
      }
      if exists i :: 0 <= i < |targets| && Classify(t, a, targets[i]).Unresolved? {
        var i :| 0 <= i < |targets| && Classify(t, a, targets[i]).Unresolved?;
        assert targets[i] in targets;
      }
    }
  }

  ghost predicate Chain(t: Tree, roots: seq<string>, p: seq<string>) {
    |p| > 0 && p[0] in roots && forall i :: 0 <= i < |p| - 1 ==> Includes(t, p[i], p[i + 1])
  }

  ghost predicate Reachable(t: Tree, roots: seq<string>, a: string) {
    exists p :: Chain(t, roots, p) && p[|p| - 1] == a
  }

  lemma RootReachable(t: Tree, roots: seq<string>, a: string)
    requires a in roots
    ensures Reachable(t, roots, a)
  {
    assert Chain(t, roots, [a]);
  }

  lemma StepReachable(t: Tree, roots: seq<string>, a: string, b: string)
    requires Reachable(t, roots, a) && Includes(t, a, b)
    ensures Reachable(t, roots, b)
  {
    var p :| Chain(t, roots, p) && p[|p| - 1] == a;
    var q := p + [b];
    assert forall i :: 0 <= i < |q| - 1 ==> Includes(t, q[i], q[i + 1]);
    assert Chain(t, roots, q) && q[|q| - 1] == b;
  }

  /** A set with the roots that is closed under inclusion holds every reachable file. */
  lemma {:induction false} ClosedHoldsChain(t: Tree, roots: seq<string>, s: set<string>, p: seq<string>)
    requires forall r :: r in roots ==> r in s
    requires forall a, b :: a in s && Includes(t, a, b) ==> b in s
    requires Chain(t, roots, p)
    ensures p[|p| - 1] in s
    decreases |p|
  {
    if |p| > 1 {
      var q := p[..|p| - 1];
      forall i | 0 <= i < |q| - 1 ensures Includes(t, q[i], q[i + 1]) {
        assert Includes(t, p[i], p[i + 1]);
      }
      ClosedHoldsChain(t, roots, s, q);
      assert Includes(t, p[|p| - 2], p[|p| - 1]);
    }
  }

  // ----- the worklist -----

  /** Every path the walk can ever see. */
  function Universe(t: Tree, roots: seq<string>): set<string> {
    Elements(roots) + Followed(t)
  }

  function Followed(t: Tree): set<string> {
    set a, i | a in t.files && t.files[a].Readable? && 0 <= i < |t.files[a].targets|
               && Classify(t, a, t.files[a].targets[i]).Follow? :: Classify(t, a, t.files[a].targets[i]).path
  }

  predicate Known(c: Target, known: set<string>) {
    !c.Unresolved? && (c.Follow? ==> c.path in known)
  }

  /** The first k includes of `a` are resolved, and those followed have been queued. */
  ghost predicate Queued(t: Tree, a: string, k: int, known: set<string>) {
    && CanRead(t, a) && k <= |t.files[a].targets|
    && forall i :: 0 <= i < k ==> Known(Classify(t, a, t.files[a].targets[i]), known)
  }

  ghost predicate AllQueued(t: Tree, out: set<string>, known: set<string>) {
    forall a :: a in out ==> CanRead(t, a) && Queued(t, a, |t.files[a].targets|, known)
  }

  ghost predicate OnlyReachable(t: Tree, roots: seq<string>, xs: set<string>) {
    forall x :: x in xs ==> Reachable(t, roots, x) && x in Universe(t, roots)
  }

  function Elements(xs: seq<string>): set<string> {
    set x | x in xs
  }

  /** The includes of one file, queued unless already visited. */
  method QueueIncludes(t: Tree, relpath: string, out: set<string>, worklist: seq<string>)
      returns (r: Result<seq<string>, Failure>)
    requires CanRead(t, relpath)
    ensures r.Ok? <==> !Broken(t, relpath)
    ensures r.Ok? ==> worklist <= r.value && Queued(t, relpath, |t.files[relpath].targets|, out + Elements(r.value))
    ensures r.Ok? ==> forall x :: x in r.value[|worklist|..] ==> Includes(t, relpath, x) && x in Followed(t)
    ensures r.Err? ==> r.error.UnresolvedInclude? && r.error.path == relpath
    ensures r.Err? ==> r.error.target in t.files[relpath].targets && Classify(t, relpath, r.error.target).Unresolved?
  {
    var targets := t.files[relpath].targets;
    var added := [];
    for k := 0 to |targets|
      invariant Queued(t, relpath, k, out + Elements(added))
      invariant forall x :: x in added ==> Includes(t, relpath, x) && x in Followed(t)
    {
      match Classify(t, relpath, targets[k])
      case Follow(found) =>
        if found !in out {
          assert Includes(t, relpath, found);
          added := added + [found];
          assert found in added;
        }
      case Skip =>
      case Unresolved =>
        return Err(UnresolvedInclude(relpath, targets[k]));
    }
    assert Elements(added) <= Elements(worklist + added);
    return Ok(worklist + added);
  }

  lemma ShrinkUniverse(t: Tree, roots: seq<string>, out: set<string>, a: string)
    requires a in Universe(t, roots) && a !in out
    ensures |Universe(t, roots) - (out + {a})| < |Universe(t, roots) - out|
  {
    var rest := Universe(t, roots) - out;
    assert Universe(t, roots) - (out + {a}) == rest - {a};
  }

  /** Queueing the includes of a newly visited file keeps what the walk has established. */
  lemma StillQueued(t: Tree, roots: seq<string>, out: set<string>, a: string, before: seq<string>, after: seq<string>)
    requires a in before && a in out && CanRead(t, a) && before <= after
    requires OnlyReachable(t, roots, Elements(before)) && out <= Elements(before)
    requires AllQueued(t, out - {a}, Elements(before))
    requires Queued(t, a, |t.files[a].targets|, out + Elements(after))
    requires forall x :: x in after[|before|..] ==> Includes(t, a, x) && x in Followed(t)
    ensures OnlyReachable(t, roots, Elements(after)) && out <= Elements(after) && AllQueued(t, out, Elements(after))
  {
    assert after == before + after[|before|..];
    forall x | x in Elements(after) ensures Reachable(t, roots, x) && x in Universe(t, roots) {
      if x !in before {
        StepReachable(t, roots, a, x);
      }
    }
    assert Elements(before) <= Elements(after);
    assert out + Elements(after) == Elements(after);
  }

  ghost predicate Visited(worklist: seq<string>, idx: nat, out: set<string>) {
    idx <= |worklist| && forall i :: 0 <= i < idx ==> worklist[i] in out
  }

  lemma VisitedNext(before: seq<string>, after: seq<string>, idx: nat, out: set<string>, out': set<string>)
    requires Visited(before, idx, out) && before <= after && out <= out' && idx < |before| && before[idx] in out'
    ensures Visited(after, idx + 1, out')
  {
  }

  /** Succeeds exactly when no reachable file is broken, and then returns exactly the reachable
      files; a failure names a reachable file and what is wrong with it. */
  method CollectClosure(t: Tree, roots: seq<string>) returns (r: Result<set<string>, Failure>)
    ensures r.Ok? <==> forall a :: Reachable(t, roots, a) ==> !Broken(t, a)
    ensures r.Ok? ==> forall a :: a in r.value <==> Reachable(t, roots, a)
    ensures r.Err? ==> Reachable(t, roots, r.error.path)
    ensures r.Err? ==>
              var path := r.error.path;
              match r.error
              case MissingFile(_) => path !in t.files
              case CannotRead(_) => path in t.files && t.files[path].Unreadable?
              case UnresolvedInclude(_, target) =>
                CanRead(t, path) && target in t.files[path].targets && Classify(t, path, target).Unresolved?
  {
    var out: set<string> := {};
    var worklist := roots;
    var idx := 0;
    forall x | x in roots ensures Reachable(t, roots, x) {
      RootReachable(t, roots, x);
    }
    while idx < |worklist|
      invariant 0 <= idx <= |worklist| && roots <= worklist
      invariant Visited(worklist, idx, out)
      invariant OnlyReachable(t, roots, Elements(worklist)) && out <= Elements(worklist)
      invariant AllQueued(t, out, Elements(worklist))
      decreases |Universe(t, roots) - out|, |worklist| - idx
    {
      var relpath := worklist[idx];
      var next := worklist;
      ghost var before := out;
      if relpath !in out {
        assert relpath in Elements(worklist);
        ShrinkUniverse(t, roots, out, relpath);
        out := out + {relpath};
        if relpath !in t.files {
          return Err(MissingFile(relpath));
        }
        if t.files[relpath].Unreadable? {
          return Err(CannotRead(relpath));
        }
        var queued := QueueIncludes(t, relpath, out, worklist);
        if queued.Err? {
          return Err(queued.error);
        }
        StillQueued(t, roots, out, relpath, worklist, queued.value);
        next := queued.value;
      }
      VisitedNext(worklist, next, idx, before, out);
      worklist, idx := next, idx + 1;
    }
    ClosedIsReachable(t, roots, out);
    return Ok(out);
  }

  lemma ClosedIsReachable(t: Tree, roots: seq<string>, out: set<string>)
    requires forall x :: x in out ==> Reachable(t, roots, x)
    requires forall x :: x in roots ==> x in out
    requires AllQueued(t, out, out)
    ensures forall a :: a in out <==> Reachable(t, roots, a)
    ensures forall a :: Reachable(t, roots, a) ==> !Broken(t, a)
  {
    forall a | Reachable(t, roots, a) ensures a in out {
      var p :| Chain(t, roots, p) && p[|p| - 1] == a;
      ClosedHoldsChain(t, roots, out, p);
    }
  }
}
