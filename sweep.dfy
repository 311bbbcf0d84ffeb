/** What one run of the "add markers" command does to the tree, as a fold over the
    workspace roots and, within each root, over the folders the enumerator lists
    (extension.js lines 74-89). The command's loops are proved equal to these folds;
    the lemmas here say what the folds achieve. */
module Sweep {
  import opened FileTree
  import opened Classifier
  import opened Folders
  import opened Markers

  /** The tree after some folders have been visited, and how many markers were counted. */
  datatype Swept = Swept(fs: Node, added: nat)

  /** How the sweep over the workspace roots ends: every root visited, or a root whose
      listing throws (line 43 is outside any `try`), which ends the command early with
      the writes made so far kept. */
  datatype Outcome = Completed(fs: Node, added: nat) | Aborted(fs: Node)

  /** One pass of the inner loop body (lines 79-87): a leaf-empty folder whose marker
      path does not exist gets a marker; a write that throws is skipped uncounted. */
  function Step(t: Node, f: Path, marker: string, ignore: seq<string>): Swept
  {
    if IsLeafEmptyFolder(NodeAt(t, f), ignore, marker) && !Exists(t, f + [marker]) then
      if Listed(t, f, marker) then Swept(t, 0)
      else Swept(AddMarker(t, f, marker), 1)
    else Swept(t, 0)
  }

  /** The inner loop over one root's folder list (line 78), visiting it in order. */
  function SweepFolders(t: Node, folders: seq<Path>, marker: string, ignore: seq<string>): Swept
    decreases |folders|
  {
    if folders == [] then Swept(t, 0)
    else
      var s := SweepFolders(t, folders[..|folders| - 1], marker, ignore);
      var s' := Step(s.fs, folders[|folders| - 1], marker, ignore);
      Swept(s'.fs, s.added + s'.added)
  }

  /** The outer loop over the workspace roots (line 76): each root is enumerated in the
      tree left by the roots before it. */
  function SweepRoots(t: Node, roots: seq<Path>, marker: string, ignore: seq<string>): Outcome
    decreases |roots|
  {
    if roots == [] then Completed(t, 0)
    else
      match SweepRoots(t, roots[..|roots| - 1], marker, ignore)
      case Aborted(t1) => Aborted(t1)
      case Completed(t1, c1) =>
        var root := roots[|roots| - 1];
        match AllFolders(NodeAt(t1, root), root, ignore)
        case ReadFailed => Aborted(t1)
        case Found(folders) =>
          var s := SweepFolders(t1, folders, marker, ignore);
          Completed(s.fs, c1 + s.added)
  }

  /** Visiting one more folder extends the fold by one step. */
  lemma SweepFoldersNext(t: Node, folders: seq<Path>, j: nat, marker: string, ignore: seq<string>)
    requires j < |folders|
    ensures var s := SweepFolders(t, folders[..j], marker, ignore);
            var s' := Step(s.fs, folders[j], marker, ignore);
            SweepFolders(t, folders[..j + 1], marker, ignore) == Swept(s'.fs, s.added + s'.added)
  {
    assert folders[..j + 1][..j] == folders[..j];
  }

  /** Visiting one more root extends the fold by that root's sweep, or by its abort. */
  lemma SweepRootsNext(t: Node, roots: seq<Path>, i: nat, t1: Node, c1: nat, marker: string, ignore: seq<string>)
    requires i < |roots| && SweepRoots(t, roots[..i], marker, ignore) == Completed(t1, c1)
    ensures SweepRoots(t, roots[..i + 1], marker, ignore)
         == match AllFolders(NodeAt(t1, roots[i]), roots[i], ignore)
            case ReadFailed => Aborted(t1)
            case Found(folders) =>
              var s := SweepFolders(t1, folders, marker, ignore);
              Completed(s.fs, c1 + s.added)
  {
    assert roots[..i + 1][..i] == roots[..i];
  }

  /** A folder the sweep writes a marker into: leaf-empty, and no entry of the marker's
      name listed in it. */
  predicate Target(t: Node, f: Path, marker: string, ignore: seq<string>)
  {
    IsLeafEmptyFolder(NodeAt(t, f), ignore, marker) && !Listed(t, f, marker)
  }

  function Targets(t: Node, folders: seq<Path>, marker: string, ignore: seq<string>): set<Path>
  {
    set f | f in folders && Target(t, f, marker, ignore)
  }

  /** `q` is the marker path of one of the folders in `fs`. */
  ghost predicate MarkerIn(q: Path, fs: set<Path>, marker: string)
  {
    q != [] && q[|q| - 1] == marker && q[..|q| - 1] in fs
  }

  ghost predicate SameVerdicts(a: Node, b: Node, marker: string, ignore: seq<string>)
  {
    forall q :: IsLeafEmptyFolder(NodeAt(a, q), ignore, marker) == IsLeafEmptyFolder(NodeAt(b, q), ignore, marker)
  }

  /** One step adds a marker, and counts it, exactly at a target folder. */
  lemma StepAtTarget(t: Node, f: Path, marker: string, ignore: seq<string>)
    ensures Step(t, f, marker, ignore)
         == if Target(t, f, marker, ignore) then Swept(AddMarker(t, f, marker), 1) else Swept(t, 0)
  {
    if Target(t, f, marker, ignore) {
      NodeAtAppend(t, f, [marker]);
    } else if IsLeafEmptyFolder(NodeAt(t, f), ignore, marker) && !Exists(t, f + [marker]) {
      assert Listed(t, f, marker);
      assert AddMarker(t, f, marker) == t;
    }
  }

  lemma TargetsSnoc(t: Node, init: seq<Path>, f: Path, marker: string, ignore: seq<string>)
    ensures Targets(t, init + [f], marker, ignore)
         == Targets(t, init, marker, ignore) + if Target(t, f, marker, ignore) then {f} else {}
  {
  }

  /** Within one sweep, a folder is a target when it reaches the front of the list exactly
      when it was a target at the start and was not visited before. */
  lemma TargetLater(t: Node, t1: Node, init: seq<Path>, f: Path, marker: string, ignore: seq<string>)
    requires SameVerdicts(t1, t, marker, ignore)
    requires forall d :: Listed(t1, d, marker) <==> Listed(t, d, marker) || d in Targets(t, init, marker, ignore)
    ensures Target(t1, f, marker, ignore) <==> Target(t, f, marker, ignore) && f !in Targets(t, init, marker, ignore)
  {
  }

  /** The markers a sweep writes never change any verdict, and afterwards a folder lists
      the marker exactly when it did before or was a target. */
  lemma {:induction false} SweepListed(t: Node, folders: seq<Path>, marker: string, ignore: seq<string>)
    ensures SameVerdicts(SweepFolders(t, folders, marker, ignore).fs, t, marker, ignore)
    ensures forall d :: Listed(SweepFolders(t, folders, marker, ignore).fs, d, marker)
                    <==> Listed(t, d, marker) || d in Targets(t, folders, marker, ignore)
    decreases |folders|
  {
    if folders != [] {
      var init := folders[..|folders| - 1];
      var f := folders[|folders| - 1];
      assert folders == init + [f];
      SweepListed(t, init, marker, ignore);
      var t1 := SweepFolders(t, init, marker, ignore).fs;
      StepAtTarget(t1, f, marker, ignore);
      TargetsSnoc(t, init, f, marker, ignore);
      TargetLater(t, t1, init, f, marker, ignore);
      if Target(t1, f, marker, ignore) {
        AddMarkerKeepsVerdicts(t1, f, marker, ignore);
        AddMarkerListed(t1, f, marker);
      }
    }
  }

  /** The count reported is the number of distinct target folders among those visited. */
  lemma {:induction false} SweepCount(t: Node, folders: seq<Path>, marker: string, ignore: seq<string>)
    ensures SweepFolders(t, folders, marker, ignore).added == |Targets(t, folders, marker, ignore)|
    decreases |folders|
  {
    if folders != [] {
      var init := folders[..|folders| - 1];
      var f := folders[|folders| - 1];
      assert folders == init + [f];
      SweepCount(t, init, marker, ignore);
      SweepListed(t, init, marker, ignore);
      var t1 := SweepFolders(t, init, marker, ignore).fs;
      StepAtTarget(t1, f, marker, ignore);
      TargetsSnoc(t, init, f, marker, ignore);
      TargetLater(t, t1, init, f, marker, ignore);
    }
  }

  /** Every path keeps its kind, except the marker path of each target, which is now a
      regular file. */
  lemma {:induction false} SweepKinds(t: Node, folders: seq<Path>, marker: string, ignore: seq<string>)
    ensures forall q :: KindOf(NodeAt(SweepFolders(t, folders, marker, ignore).fs, q))
                     == if MarkerIn(q, Targets(t, folders, marker, ignore), marker) then RegularFile
                        else KindOf(NodeAt(t, q))
    decreases |folders|
  {
    if folders != [] {
      var init := folders[..|folders| - 1];
      var f := folders[|folders| - 1];
      assert folders == init + [f];
      SweepKinds(t, init, marker, ignore);
      SweepListed(t, init, marker, ignore);
      var t1 := SweepFolders(t, init, marker, ignore).fs;
      StepAtTarget(t1, f, marker, ignore);
      TargetsSnoc(t, init, f, marker, ignore);
      TargetLater(t, t1, init, f, marker, ignore);
      if Target(t1, f, marker, ignore) {
        AddMarkerEffect(t1, f, marker);
        MarkerInSnoc(Targets(t, init, marker, ignore), f, marker);
      }
    }
  }

  /** Every path off the way to each written marker keeps its node: entries of other
      folders, their order, and entries nothing looks at all stay as they were. */
  lemma {:induction false} SweepKeepsNodes(t: Node, folders: seq<Path>, marker: string, ignore: seq<string>)
    ensures forall q :: (forall f :: f in Targets(t, folders, marker, ignore) ==> !(q <= f + [marker])) ==>
              NodeAt(SweepFolders(t, folders, marker, ignore).fs, q) == NodeAt(t, q)
    decreases |folders|
  {
    if folders != [] {
      var init := folders[..|folders| - 1];
      var f := folders[|folders| - 1];
      assert folders == init + [f];
      SweepKeepsNodes(t, init, marker, ignore);
      SweepListed(t, init, marker, ignore);
      var t1 := SweepFolders(t, init, marker, ignore).fs;
      StepAtTarget(t1, f, marker, ignore);
      TargetsSnoc(t, init, f, marker, ignore);
      TargetLater(t, t1, init, f, marker, ignore);
      if Target(t1, f, marker, ignore) {
        AddMarkerEffect(t1, f, marker);
      }
    }
  }

  lemma MarkerInSnoc(fs: set<Path>, f: Path, marker: string)
    ensures forall q :: MarkerIn(q, fs + {f}, marker) <==> MarkerIn(q, fs, marker) || q == f + [marker]
  {
    forall q ensures MarkerIn(q, fs + {f}, marker) <==> MarkerIn(q, fs, marker) || q == f + [marker] {
      if q == f + [marker] {
        assert q[..|q| - 1] == f;
      }
      if q != [] && q[|q| - 1] == marker && q[..|q| - 1] == f {
        assert q == f + [marker];
      }
    }
  }

  /** The marker path of a target did not exist before the sweep. */
  lemma MarkerPathWasMissing(t: Node, folders: seq<Path>, marker: string, ignore: seq<string>, q: Path)
    requires MarkerIn(q, Targets(t, folders, marker, ignore), marker)
    ensures NodeAt(t, q) == Unreadable
  {
    var f := q[..|q| - 1];
    assert q == f + [marker];
    NodeAtAppend(t, f, [marker]);
  }

  /** Every enumeration keeps its result, except one started at a marker path written. */
  lemma {:induction false} SweepKeepsFolders(t: Node, folders: seq<Path>, marker: string, ignore: seq<string>)
    ensures forall r, d :: !MarkerIn(r, Targets(t, folders, marker, ignore), marker) ==>
              AllFolders(NodeAt(SweepFolders(t, folders, marker, ignore).fs, r), d, ignore)
              == AllFolders(NodeAt(t, r), d, ignore)
    decreases |folders|
  {
    if folders != [] {
      var init := folders[..|folders| - 1];
      var f := folders[|folders| - 1];
      assert folders == init + [f];
      SweepKeepsFolders(t, init, marker, ignore);
      SweepListed(t, init, marker, ignore);
      var t1 := SweepFolders(t, init, marker, ignore).fs;
      StepAtTarget(t1, f, marker, ignore);
      TargetsSnoc(t, init, f, marker, ignore);
      TargetLater(t, t1, init, f, marker, ignore);
      if Target(t1, f, marker, ignore) {
        AddMarkerKeepsFolders(t1, f, marker, ignore);
        assert (f + [marker])[..|f + [marker]| - 1] == f;
        assert MarkerIn(f + [marker], Targets(t, folders, marker, ignore), marker);
      }
    }
  }

  /** The tree stays free of repeated names. */
  lemma {:induction false} SweepWellFormed(t: Node, folders: seq<Path>, marker: string, ignore: seq<string>)
    requires WellFormed(t)
    ensures WellFormed(SweepFolders(t, folders, marker, ignore).fs)
    decreases |folders|
  {
    if folders != [] {
      SweepWellFormed(t, folders[..|folders| - 1], marker, ignore);
      var t1 := SweepFolders(t, folders[..|folders| - 1], marker, ignore).fs;
      StepAtTarget(t1, folders[|folders| - 1], marker, ignore);
      AddMarkerWellFormed(t1, folders[|folders| - 1], marker);
    }
  }

  /** A sweep over folders none of which is a target changes nothing. */
  lemma {:induction false} SweepWithoutTargets(t: Node, folders: seq<Path>, marker: string, ignore: seq<string>)
    requires forall k :: 0 <= k < |folders| ==> !Target(t, folders[k], marker, ignore)
    ensures SweepFolders(t, folders, marker, ignore) == Swept(t, 0)
    decreases |folders|
  {
    if folders != [] {
      SweepWithoutTargets(t, folders[..|folders| - 1], marker, ignore);
      StepAtTarget(t, folders[|folders| - 1], marker, ignore);
    }
  }

  /** Sweeping the same folders a second time adds nothing. */
  lemma SweepIdempotent(t: Node, folders: seq<Path>, marker: string, ignore: seq<string>)
    ensures var t' := SweepFolders(t, folders, marker, ignore).fs;
            SweepFolders(t', folders, marker, ignore) == Swept(t', 0)
  {
    var t' := SweepFolders(t, folders, marker, ignore).fs;
    SweepListed(t, folders, marker, ignore);
    forall k | 0 <= k < |folders| ensures !Target(t', folders[k], marker, ignore) {
      assert IsLeafEmptyFolder(NodeAt(t', folders[k]), ignore, marker)
          == IsLeafEmptyFolder(NodeAt(t, folders[k]), ignore, marker);
    }
    SweepWithoutTargets(t', folders, marker, ignore);
  }

  /** The order in which folders are visited, and repetitions, do not matter: two sweeps
      over the same set of folders count the same, leave every path of the same kind and
      mark the same folders. */
  lemma SweepOrderFree(t: Node, a: seq<Path>, b: seq<Path>, marker: string, ignore: seq<string>)
    requires forall f :: f in a <==> f in b
    ensures SweepFolders(t, a, marker, ignore).added == SweepFolders(t, b, marker, ignore).added
    ensures forall q :: KindOf(NodeAt(SweepFolders(t, a, marker, ignore).fs, q))
                     == KindOf(NodeAt(SweepFolders(t, b, marker, ignore).fs, q))
    ensures forall d :: Listed(SweepFolders(t, a, marker, ignore).fs, d, marker)
                     == Listed(SweepFolders(t, b, marker, ignore).fs, d, marker)
  {
    assert Targets(t, a, marker, ignore) == Targets(t, b, marker, ignore);
    SweepCount(t, a, marker, ignore);
    SweepCount(t, b, marker, ignore);
    SweepKinds(t, a, marker, ignore);
    SweepKinds(t, b, marker, ignore);
    SweepListed(t, a, marker, ignore);
    SweepListed(t, b, marker, ignore);
  }

  /** Sweeping `a + b` is sweeping `a`, then `b` in the tree `a` leaves. */
  lemma {:induction false} SweepAppend(t: Node, a: seq<Path>, b: seq<Path>, marker: string, ignore: seq<string>)
    ensures var s := SweepFolders(t, a, marker, ignore);
            var s' := SweepFolders(s.fs, b, marker, ignore);
            SweepFolders(t, a + b, marker, ignore) == Swept(s'.fs, s.added + s'.added)
    decreases |b|
  {
    if b == [] {
      assert a + b == a;
    } else {
      var b0 := b[..|b| - 1];
      assert (a + b)[..|a + b| - 1] == a + b0;
      SweepAppend(t, a, b0, marker, ignore);
    }
  }

  /** Once a root's listing throws, the remaining roots are never visited. */
  lemma {:induction false} AbortEndsSweep(t: Node, roots: seq<Path>, k: nat, marker: string, ignore: seq<string>)
    requires k <= |roots| && SweepRoots(t, roots[..k], marker, ignore).Aborted?
    ensures SweepRoots(t, roots, marker, ignore) == SweepRoots(t, roots[..k], marker, ignore)
    decreases |roots| - k
  {
    if k < |roots| {
      assert roots[..k + 1][..k] == roots[..k];
      AbortEndsSweep(t, roots, k + 1, marker, ignore);
    } else {
      assert roots[..k] == roots;
    }
  }

  /** The folders the command visits when every root is a listable folder: each root's
      enumeration in turn, all taken in the tree as it was before the command. */
  function RootFolders(t: Node, roots: seq<Path>, ignore: seq<string>): seq<Path>
    decreases |roots|
  {
    if roots == [] then []
    else
      var root := roots[|roots| - 1];
      RootFolders(t, roots[..|roots| - 1], ignore) + Below(NodeAt(t, root), root, ignore)
  }

  ghost predicate RootsListable(t: Node, roots: seq<Path>)
  {
    forall k :: 0 <= k < |roots| ==> NodeAt(t, roots[k]).Dir?
  }

  /** When every root is a listable folder, the command never aborts, and it does what a
      single sweep over all the roots' folders, enumerated up front, does: writing markers
      never changes what a later root's enumeration finds. */
  lemma {:induction false} SweepRootsFlat(t: Node, roots: seq<Path>, marker: string, ignore: seq<string>)
    requires RootsListable(t, roots)
    ensures var s := SweepFolders(t, RootFolders(t, roots, ignore), marker, ignore);
            SweepRoots(t, roots, marker, ignore) == Completed(s.fs, s.added)
    decreases |roots|
  {
    if roots != [] {
      var init := roots[..|roots| - 1];
      var root := roots[|roots| - 1];
      SweepRootsFlat(t, init, marker, ignore);
      var pre := RootFolders(t, init, ignore);
      var t1 := SweepFolders(t, pre, marker, ignore).fs;
      assert NodeAt(t, root).Dir?;
      SweepKeepsFolders(t, pre, marker, ignore);
      if MarkerIn(root, Targets(t, pre, marker, ignore), marker) {
        MarkerPathWasMissing(t, pre, marker, ignore, root);
      }
      assert AllFolders(NodeAt(t1, root), root, ignore) == AllFolders(NodeAt(t, root), root, ignore);
      SweepAppend(t, pre, Below(NodeAt(t, root), root, ignore), marker, ignore);
    }
  }

  /** On listable roots, both runs of the command complete, and the second adds nothing. */
  lemma SweepRootsRerunCompletes(t: Node, roots: seq<Path>, marker: string, ignore: seq<string>)
    requires RootsListable(t, roots)
    ensures SweepRoots(t, roots, marker, ignore).Completed?
    ensures var t' := SweepRoots(t, roots, marker, ignore).fs;
            SweepRoots(t', roots, marker, ignore) == Completed(t', 0)
  {
    SweepRootsFlat(t, roots, marker, ignore);
    var all := RootFolders(t, roots, ignore);
    var t' := SweepFolders(t, all, marker, ignore).fs;
    SweepKinds(t, all, marker, ignore);
    SweepKeepsFolders(t, all, marker, ignore);
    forall k | 0 <= k < |roots| ensures !MarkerIn(roots[k], Targets(t, all, marker, ignore), marker) {
      if MarkerIn(roots[k], Targets(t, all, marker, ignore), marker) {
        MarkerPathWasMissing(t, all, marker, ignore, roots[k]);
      }
    }
    assert RootsListable(t', roots) by {
      forall k | 0 <= k < |roots| ensures NodeAt(t', roots[k]).Dir? {
        assert KindOf(NodeAt(t', roots[k])) == KindOf(NodeAt(t, roots[k]));
      }
    }
    RootFoldersKept(t, t', roots, marker, ignore, Targets(t, all, marker, ignore));
    SweepRootsFlat(t', roots, marker, ignore);
    SweepIdempotent(t, all, marker, ignore);
  }

  /** Listing root `x` throws (line 43): it is a file, or a folder that cannot be listed. */
  ghost predicate RootFails(t: Node, x: Path, ignore: seq<string>)
  {
    AllFolders(NodeAt(t, x), x, ignore).ReadFailed?
  }

  /** Some root among `roots` throws when listed in `t`. */
  ghost predicate Halts(t: Node, roots: seq<Path>, ignore: seq<string>)
  {
    exists j :: 0 <= j < |roots| && RootFails(t, roots[j], ignore)
  }

  /** Root `x` throws, or none of the folders it enumerates is a target. */
  ghost predicate RootSettled(t: Node, x: Path, marker: string, ignore: seq<string>)
  {
    match AllFolders(NodeAt(t, x), x, ignore)
    case ReadFailed => true
    case Found(folders) => forall k :: 0 <= k < |folders| ==> !Target(t, folders[k], marker, ignore)
  }

  /** Every root the command reaches in `t`, before one throws, is settled. */
  ghost predicate Quiet(t: Node, roots: seq<Path>, marker: string, ignore: seq<string>)
  {
    forall i :: 0 <= i < |roots| && !Halts(t, roots[..i], ignore) ==> RootSettled(t, roots[i], marker, ignore)
  }

  lemma HaltsSnoc(t: Node, roots: seq<Path>, ignore: seq<string>)
    requires roots != []
    ensures Halts(t, roots, ignore)
        <==> Halts(t, roots[..|roots| - 1], ignore) || RootFails(t, roots[|roots| - 1], ignore)
  {
    var init := roots[..|roots| - 1];
    if Halts(t, roots, ignore) {
      var j :| 0 <= j < |roots| && RootFails(t, roots[j], ignore);
      if j < |init| {
        assert init[j] == roots[j];
      }
    }
    if Halts(t, init, ignore) {
      var j :| 0 <= j < |init| && RootFails(t, init[j], ignore);
      assert roots[j] == init[j];
    }
  }

  lemma QuietSnoc(t: Node, roots: seq<Path>, marker: string, ignore: seq<string>)
    requires roots != [] && Quiet(t, roots[..|roots| - 1], marker, ignore)
    requires Halts(t, roots[..|roots| - 1], ignore) || RootSettled(t, roots[|roots| - 1], marker, ignore)
    ensures Quiet(t, roots, marker, ignore)
  {
    var init := roots[..|roots| - 1];
    forall i | 0 <= i < |roots| && !Halts(t, roots[..i], ignore)
      ensures RootSettled(t, roots[i], marker, ignore)
    {
      if i < |init| {
        assert roots[..i] == init[..i];
        QuietAt(t, init, i, marker, ignore);
      } else {
        assert roots[..i] == init;
      }
    }
  }

  lemma QuietAt(t: Node, roots: seq<Path>, i: nat, marker: string, ignore: seq<string>)
    requires Quiet(t, roots, marker, ignore) && i < |roots| && !Halts(t, roots[..i], ignore)
    ensures RootSettled(t, roots[i], marker, ignore)
  {
  }

  /** In a quiet tree the command writes nothing: it aborts exactly when some root
      reached throws, and otherwise completes with a count of zero. */
  lemma {:induction false} QuietRun(t: Node, roots: seq<Path>, marker: string, ignore: seq<string>)
    requires Quiet(t, roots, marker, ignore)
    ensures SweepRoots(t, roots, marker, ignore)
         == if Halts(t, roots, ignore) then Aborted(t) else Completed(t, 0)
    decreases |roots|
  {
    if roots != [] {
      var n := |roots| - 1;
      var init := roots[..n];
      assert Quiet(t, init, marker, ignore) by {
        forall i | 0 <= i < |init| && !Halts(t, init[..i], ignore)
          ensures RootSettled(t, init[i], marker, ignore)
        {
          assert init[..i] == roots[..i];
        }
      }
      QuietRun(t, init, marker, ignore);
      HaltsSnoc(t, roots, ignore);
      if !Halts(t, init, ignore) {
        match AllFolders(NodeAt(t, roots[n]), roots[n], ignore)
        case ReadFailed =>
        case Found(folders) =>
          SweepWithoutTargets(t, folders, marker, ignore);
      }
    }
  }

  /** Sweeping some folders keeps a throwing root throwing: it is a file or a folder that
      cannot be listed, so no marker was written at it, and its enumeration is kept. */
  lemma RootFailsKept(t: Node, folders: seq<Path>, x: Path, marker: string, ignore: seq<string>)
    requires RootFails(t, x, ignore)
    ensures RootFails(SweepFolders(t, folders, marker, ignore).fs, x, ignore)
  {
    SweepKeepsFolders(t, folders, marker, ignore);
    forall q | MarkerIn(q, Targets(t, folders, marker, ignore), marker) ensures NodeAt(t, q) == Unreadable {
      MarkerPathWasMissing(t, folders, marker, ignore, q);
    }
    assert !NodeAt(t, x).Unreadable?;
  }

  /** Sweeping some folders keeps a settled root settled: a root that became a marker
      path is now a file, and any other root enumerates the same folders, whose verdicts
      are kept and whose markers are only ever added. */
  lemma RootSettledKept(t: Node, folders: seq<Path>, x: Path, marker: string, ignore: seq<string>)
    requires RootSettled(t, x, marker, ignore)
    ensures RootSettled(SweepFolders(t, folders, marker, ignore).fs, x, marker, ignore)
  {
    if MarkerIn(x, Targets(t, folders, marker, ignore), marker) {
      MarkerRootFails(t, folders, x, marker, ignore);
    } else {
      SettledOffMarker(t, folders, x, marker, ignore);
    }
  }

  lemma MarkerRootFails(t: Node, folders: seq<Path>, x: Path, marker: string, ignore: seq<string>)
    requires MarkerIn(x, Targets(t, folders, marker, ignore), marker)
    ensures RootFails(SweepFolders(t, folders, marker, ignore).fs, x, ignore)
  {
    var n := NodeAt(SweepFolders(t, folders, marker, ignore).fs, x);
    SweepKinds(t, folders, marker, ignore);
    assert KindOf(n) == RegularFile;
    assert n == File;
  }

  lemma SettledOffMarker(t: Node, folders: seq<Path>, x: Path, marker: string, ignore: seq<string>)
    requires RootSettled(t, x, marker, ignore) && !MarkerIn(x, Targets(t, folders, marker, ignore), marker)
    ensures RootSettled(SweepFolders(t, folders, marker, ignore).fs, x, marker, ignore)
  {
    SweepKeepsFolders(t, folders, marker, ignore);
    match AllFolders(NodeAt(t, x), x, ignore)
    case ReadFailed =>
    case Found(below) =>
      NoNewTargets(t, folders, below, marker, ignore);
  }

  /** A sweep creates no target: verdicts are kept, and markers are only ever added. */
  lemma NoNewTargets(t: Node, folders: seq<Path>, below: seq<Path>, marker: string, ignore: seq<string>)
    requires forall k :: 0 <= k < |below| ==> !Target(t, below[k], marker, ignore)
    ensures var t' := SweepFolders(t, folders, marker, ignore).fs;
            forall k :: 0 <= k < |below| ==> !Target(t', below[k], marker, ignore)
  {
    var t' := SweepFolders(t, folders, marker, ignore).fs;
    SweepListed(t, folders, marker, ignore);
    forall k | 0 <= k < |below| ensures !Target(t', below[k], marker, ignore) {
      assert IsLeafEmptyFolder(NodeAt(t', below[k]), ignore, marker)
          == IsLeafEmptyFolder(NodeAt(t, below[k]), ignore, marker);
    }
  }

  /** Sweeping some folders keeps a quiet tree quiet. */
  lemma QuietKept(t: Node, folders: seq<Path>, roots: seq<Path>, marker: string, ignore: seq<string>)
    requires Quiet(t, roots, marker, ignore)
    ensures Quiet(SweepFolders(t, folders, marker, ignore).fs, roots, marker, ignore)
  {
    var t' := SweepFolders(t, folders, marker, ignore).fs;
    forall x | RootFails(t, x, ignore) ensures RootFails(t', x, ignore) {
      RootFailsKept(t, folders, x, marker, ignore);
    }
    forall x | RootSettled(t, x, marker, ignore) ensures RootSettled(t', x, marker, ignore) {
      RootSettledKept(t, folders, x, marker, ignore);
    }
    forall i | 0 <= i < |roots| && !Halts(t', roots[..i], ignore)
      ensures RootSettled(t', roots[i], marker, ignore)
    {
      forall j | 0 <= j < i ensures !RootFails(t, roots[..i][j], ignore) {
        assert !RootFails(t', roots[..i][j], ignore);
      }
    }
  }

  /** After a root's folders are swept, that root is settled. */
  lemma SweptRootSettled(t: Node, folders: seq<Path>, x: Path, marker: string, ignore: seq<string>)
    requires AllFolders(NodeAt(t, x), x, ignore) == Found(folders)
    ensures RootSettled(SweepFolders(t, folders, marker, ignore).fs, x, marker, ignore)
  {
    var t' := SweepFolders(t, folders, marker, ignore).fs;
    SweepKinds(t, folders, marker, ignore);
    SweepKeepsFolders(t, folders, marker, ignore);
    SweepListed(t, folders, marker, ignore);
    forall q | MarkerIn(q, Targets(t, folders, marker, ignore), marker) ensures NodeAt(t, q) == Unreadable {
      MarkerPathWasMissing(t, folders, marker, ignore, q);
    }
    assert !MarkerIn(x, Targets(t, folders, marker, ignore), marker) by {
      if NodeAt(t, x).Unreadable? {
        assert Targets(t, folders, marker, ignore) == {};
      }
    }
    assert AllFolders(NodeAt(t', x), x, ignore) == Found(folders);
    forall k | 0 <= k < |folders| ensures !Target(t', folders[k], marker, ignore) {
      assert IsLeafEmptyFolder(NodeAt(t', folders[k]), ignore, marker)
          == IsLeafEmptyFolder(NodeAt(t, folders[k]), ignore, marker);
    }
  }

  /** The tree the command leaves is quiet for the same roots, and when the command
      aborted, a root reached in that tree throws. */
  lemma {:induction false} FirstRunQuiet(t: Node, roots: seq<Path>, marker: string, ignore: seq<string>)
    ensures Quiet(SweepRoots(t, roots, marker, ignore).fs, roots, marker, ignore)
    ensures SweepRoots(t, roots, marker, ignore).Aborted? ==>
            Halts(SweepRoots(t, roots, marker, ignore).fs, roots, ignore)
    decreases |roots|
  {
    if roots != [] {
      var n := |roots| - 1;
      FirstRunQuiet(t, roots[..n], marker, ignore);
      match SweepRoots(t, roots[..n], marker, ignore)
      case Aborted(u) =>
        AbortedBefore(t, roots, u, marker, ignore);
      case Completed(u, c) =>
        match AllFolders(NodeAt(u, roots[n]), roots[n], ignore)
        case ReadFailed =>
          AbortsAtLast(t, roots, u, c, marker, ignore);
        case Found(folders) =>
          SweepsLast(t, roots, u, c, folders, marker, ignore);
    }
  }

  lemma AbortedBefore(t: Node, roots: seq<Path>, u: Node, marker: string, ignore: seq<string>)
    requires roots != [] && SweepRoots(t, roots[..|roots| - 1], marker, ignore) == Aborted(u)
    requires Quiet(u, roots[..|roots| - 1], marker, ignore) && Halts(u, roots[..|roots| - 1], ignore)
    ensures SweepRoots(t, roots, marker, ignore) == Aborted(u)
    ensures Quiet(u, roots, marker, ignore) && Halts(u, roots, ignore)
  {
    HaltsSnoc(u, roots, ignore);
    QuietSnoc(u, roots, marker, ignore);
  }

  lemma AbortsAtLast(t: Node, roots: seq<Path>, u: Node, c: nat, marker: string, ignore: seq<string>)
    requires roots != [] && SweepRoots(t, roots[..|roots| - 1], marker, ignore) == Completed(u, c)
    requires Quiet(u, roots[..|roots| - 1], marker, ignore) && RootFails(u, roots[|roots| - 1], ignore)
    ensures SweepRoots(t, roots, marker, ignore) == Aborted(u)
    ensures Quiet(u, roots, marker, ignore) && Halts(u, roots, ignore)
  {
    HaltsSnoc(u, roots, ignore);
    QuietSnoc(u, roots, marker, ignore);
  }

  lemma SweepsLast(t: Node, roots: seq<Path>, u: Node, c: nat, folders: seq<Path>, marker: string, ignore: seq<string>)
    requires roots != [] && SweepRoots(t, roots[..|roots| - 1], marker, ignore) == Completed(u, c)
    requires Quiet(u, roots[..|roots| - 1], marker, ignore)
    requires AllFolders(NodeAt(u, roots[|roots| - 1]), roots[|roots| - 1], ignore) == Found(folders)
    ensures SweepRoots(t, roots, marker, ignore).Completed?
    ensures SweepRoots(t, roots, marker, ignore).fs == SweepFolders(u, folders, marker, ignore).fs
    ensures Quiet(SweepFolders(u, folders, marker, ignore).fs, roots, marker, ignore)
  {
    var u' := SweepFolders(u, folders, marker, ignore).fs;
    QuietKept(u, folders, roots[..|roots| - 1], marker, ignore);
    SweptRootSettled(u, folders, roots[|roots| - 1], marker, ignore);
    QuietSnoc(u', roots, marker, ignore);
  }

  /** Running the command a second time, with no other change in between, writes
      nothing: the second run either completes with a count of zero or throws at a root
      before writing anything, and it throws whenever the first run did. */
  lemma SweepRootsIdempotent(t: Node, roots: seq<Path>, marker: string, ignore: seq<string>)
    ensures var t' := SweepRoots(t, roots, marker, ignore).fs;
            SweepRoots(t', roots, marker, ignore) == Completed(t', 0)
            || SweepRoots(t', roots, marker, ignore) == Aborted(t')
    ensures SweepRoots(t, roots, marker, ignore).Aborted? ==>
            SweepRoots(SweepRoots(t, roots, marker, ignore).fs, roots, marker, ignore).Aborted?
  {
    FirstRunQuiet(t, roots, marker, ignore);
    QuietRun(SweepRoots(t, roots, marker, ignore).fs, roots, marker, ignore);
  }

  lemma {:induction false} RootFoldersKept(t: Node, t': Node, roots: seq<Path>, marker: string, ignore: seq<string>, written: set<Path>)
    requires forall k :: 0 <= k < |roots| ==> !MarkerIn(roots[k], written, marker)
    requires forall r, d :: !MarkerIn(r, written, marker) ==>
               AllFolders(NodeAt(t', r), d, ignore) == AllFolders(NodeAt(t, r), d, ignore)
    ensures RootFolders(t', roots, ignore) == RootFolders(t, roots, ignore)
    decreases |roots|
  {
    if roots != [] {
      RootFoldersKept(t, t', roots[..|roots| - 1], marker, ignore, written);
      var root := roots[|roots| - 1];
      assert AllFolders(NodeAt(t', root), root, ignore) == AllFolders(NodeAt(t, root), root, ignore);
    }
  }

  /** The command's effect on a workspace whose roots are listable folders: it marks
      exactly the leaf-empty folders among those enumerated that had no entry of the
      marker's name, reports how many, and changes nothing else. */
  lemma SweepRootsMarks(t: Node, roots: seq<Path>, marker: string, ignore: seq<string>)
    requires RootsListable(t, roots)
    ensures SweepRoots(t, roots, marker, ignore).Completed?
    ensures var out := SweepRoots(t, roots, marker, ignore);
            var all := RootFolders(t, roots, ignore);
            && out.added == |Targets(t, all, marker, ignore)|
            && SameVerdicts(out.fs, t, marker, ignore)
            && (forall d :: Listed(out.fs, d, marker)
                        <==> Listed(t, d, marker) || (d in all && IsLeafEmptyFolder(NodeAt(t, d), ignore, marker)))
            && (forall q :: KindOf(NodeAt(out.fs, q))
                        == if MarkerIn(q, Targets(t, all, marker, ignore), marker) then RegularFile
                           else KindOf(NodeAt(t, q)))
            && (forall q :: (forall f :: f in Targets(t, all, marker, ignore) ==> !(q <= f + [marker])) ==>
                          NodeAt(out.fs, q) == NodeAt(t, q))
  {
    SweepRootsFlat(t, roots, marker, ignore);
    var all := RootFolders(t, roots, ignore);
    SweepCount(t, all, marker, ignore);
    SweepListed(t, all, marker, ignore);
    SweepKinds(t, all, marker, ignore);
    SweepKeepsNodes(t, all, marker, ignore);
  }
}
