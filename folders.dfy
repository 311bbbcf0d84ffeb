/** The enumerator `getAllFolders` (extension.js, lines 39-58): every folder below a
    root, parents before their contents. */
module Folders {
  import opened FileTree

  /** What a call of `getAllFolders` ends with: the folder paths it returns, or the
      exception `readdirSync` throws on the directory it was given (line 43 is outside
      the `try`). */
  datatype Listing = Found(folders: seq<Path>) | ReadFailed

  /** The folders a call on `dir` (whose node is `n`) returns. */
  function AllFolders(n: Node, dir: Path, ignore: seq<string>): Listing
    decreases n, 1
  {
    match n
    case Unreadable => Found([])
    case Dir(entries) => Found(FoldersIn(entries, dir, ignore))
    case _ => ReadFailed
  }

  /** The folders the loop of lines 44-56 collects from `entries`, in order. */
  function FoldersIn(entries: seq<Entry>, dir: Path, ignore: seq<string>): seq<Path>
    decreases entries, 0
  {
    if entries == [] then []
    else FoldersIn(entries[..|entries| - 1], dir, ignore) + EntryFolders(entries[|entries| - 1], dir, ignore)
  }

  /** What one entry adds: itself if it is an unignored directory, then whatever the
      recursive call finds below it; an exception from that call is caught (lines 53-55). */
  function EntryFolders(e: Entry, dir: Path, ignore: seq<string>): seq<Path>
    decreases e
  {
    if IsDirectory(e.node) && e.name !in ignore then
      [dir + [e.name]] + Below(e.node, dir + [e.name], ignore)
    else []
  }

  /** What the recursive call of line 50 adds: nothing when it throws. */
  function Below(n: Node, dir: Path, ignore: seq<string>): seq<Path>
    decreases n, 2
  {
    match AllFolders(n, dir, ignore)
    case Found(below) => below
    case ReadFailed => []
  }

  lemma BelowUnfold(n: Node, dir: Path, ignore: seq<string>)
    ensures Below(n, dir, ignore) == if n.Dir? then FoldersIn(n.entries, dir, ignore) else []
  {
    match n
    case Dir(entries) =>
      assert AllFolders(n, dir, ignore) == Found(FoldersIn(entries, dir, ignore));
    case _ =>
  }

  /** `getAllFolders(dir, ignorePatterns)` on the node `n` found at `dir`. */
  method GetAllFolders(n: Node, dir: Path, ignore: seq<string>) returns (r: Listing)
    ensures r == AllFolders(n, dir, ignore)
    ensures n.Unreadable? ==> r == Found([])
    ensures r.ReadFailed? <==> n.File? || n.Unlistable?
    decreases n
  {
    if n.Unreadable? {
      return Found([]);
    }
    if !n.Dir? {
      return ReadFailed;
    }
    var files := n.entries;
    var results: seq<Path> := [];
    for i := 0 to |files|
      invariant results == FoldersIn(files[..i], dir, ignore)
    {
      assert files[..i + 1][..i] == files[..i];
      ghost var before := results;
      var file := files[i];
      var fullPath := dir + [file.name];
      if IsDirectory(file.node) && file.name !in ignore {
        results := results + [fullPath];
        var below := GetAllFolders(file.node, fullPath, ignore);
        if below.Found? {
          results := results + below.folders;
        }
        assert results == before + [fullPath] + Below(file.node, fullPath, ignore);
      }
      assert results == before + EntryFolders(file, dir, ignore);
    }
    assert files[..|files|] == files;
    return Found(results);
  }

  /** `p` is an unignored folder strictly below the root `n`. */
  ghost predicate VisibleFolder(n: Node, p: Path, ignore: seq<string>)
  {
    p != [] && AvoidsIgnored(p, ignore) && IsDirectory(NodeAt(n, p))
  }

  lemma {:induction false} FoldersInMember(entries: seq<Entry>, dir: Path, ignore: seq<string>, p: Path)
    ensures p in FoldersIn(entries, dir, ignore)
        <==> exists k :: 0 <= k < |entries| && p in EntryFolders(entries[k], dir, ignore)
  {
    if entries != [] {
      var init := entries[..|entries| - 1];
      FoldersInMember(init, dir, ignore, p);
      if p in FoldersIn(init, dir, ignore) {
        var k :| 0 <= k < |init| && p in EntryFolders(init[k], dir, ignore);
        assert entries[k] == init[k];
      }
      if exists k :: 0 <= k < |entries| && p in EntryFolders(entries[k], dir, ignore) {
        var k :| 0 <= k < |entries| && p in EntryFolders(entries[k], dir, ignore);
        if k < |init| {
          assert init[k] == entries[k];
        }
      }
    }
  }

  /** Every folder listed lies strictly below `dir`. */
  lemma {:induction false} FoldersBelow(entries: seq<Entry>, dir: Path, ignore: seq<string>)
    ensures forall p :: p in FoldersIn(entries, dir, ignore) ==> |dir| < |p| && p[..|dir|] == dir
    decreases entries
  {
    forall p | p in FoldersIn(entries, dir, ignore)
      ensures |dir| < |p| && p[..|dir|] == dir
    {
      FoldersInMember(entries, dir, ignore, p);
      var k :| 0 <= k < |entries| && p in EntryFolders(entries[k], dir, ignore);
      var e := entries[k];
      var sub := dir + [e.name];
      if p != sub {
        assert p in Below(e.node, sub, ignore);
        BelowUnfold(e.node, sub, ignore);
        FoldersBelow(e.node.entries, sub, ignore);
        assert p[..|sub|] == sub;
        assert p[..|dir|] == p[..|sub|][..|dir|];
      }
    }
  }

  lemma SplitBelow(p: Path, dir: Path, name: string)
    requires |dir| < |p| && p[..|dir| + 1] == dir + [name]
    ensures p[|dir|..] == [name] + p[|dir| + 1..]
  {
    assert p[|dir|] == (dir + [name])[|dir|];
  }

  /** A visible folder of a child, seen from its parent. */
  lemma VisibleThrough(n: Node, k: nat, rel: Path, p: Path, ignore: seq<string>)
    requires n.Dir? && k < |n.entries| && Find(n.entries, n.entries[k].name) == k
    requires n.entries[k].name !in ignore
    requires if rel == [] then IsDirectory(n.entries[k].node) else VisibleFolder(n.entries[k].node, rel, ignore)
    requires p == [n.entries[k].name] + rel
    ensures VisibleFolder(n, p, ignore)
  {
    assert p[0] == n.entries[k].name && p[1..] == rel;
    assert NodeAt(n, p) == NodeAt(n.entries[k].node, rel);
    assert forall j :: 1 <= j < |p| ==> p[j] == rel[j - 1];
  }

  lemma {:induction false} ListedIsVisible(n: Node, dir: Path, ignore: seq<string>, p: Path)
    requires n.Dir? && WellFormed(n)
    requires p in FoldersIn(n.entries, dir, ignore)
    ensures |dir| < |p| && p[..|dir|] == dir && VisibleFolder(n, p[|dir|..], ignore)
    decreases n
  {
    var entries := n.entries;
    FoldersInMember(entries, dir, ignore, p);
    FoldersBelow(entries, dir, ignore);
    var k :| 0 <= k < |entries| && p in EntryFolders(entries[k], dir, ignore);
    var e := entries[k];
    var sub := dir + [e.name];
    FindDistinct(entries, k);
    var rel := p[|dir|..];
    if p == sub {
      assert rel == [e.name] + [];
      VisibleThrough(n, k, [], rel, ignore);
    } else {
      assert p in Below(e.node, sub, ignore);
      BelowUnfold(e.node, sub, ignore);
      ListedIsVisible(e.node, sub, ignore, p);
      var rest := p[|sub|..];
      SplitBelow(p, dir, e.name);
      VisibleThrough(n, k, rest, rel, ignore);
    }
  }

  lemma {:induction false} VisibleIsListed(n: Node, dir: Path, ignore: seq<string>, p: Path)
    requires n.Dir?
    requires |dir| < |p| && p[..|dir|] == dir && VisibleFolder(n, p[|dir|..], ignore)
    ensures p in FoldersIn(n.entries, dir, ignore)
    decreases n
  {
    var entries := n.entries;
    var rel := p[|dir|..];
    var name := rel[0];
    var k := Find(entries, name);
    assert NodeAt(n, rel) == if k < |entries| then NodeAt(entries[k].node, rel[1..]) else Unreadable;
    var e := entries[k];
    var sub := dir + [name];
    assert p == dir + rel;
    if |rel| == 1 {
      assert rel == [name] && p == sub;
      assert p in EntryFolders(e, dir, ignore);
    } else {
      var rel' := rel[1..];
      assert e.node.Dir?;
      assert p[..|sub|] == sub && p[|sub|..] == rel';
      assert AvoidsIgnored(rel', ignore) by {
        assert forall j :: 0 <= j < |rel'| ==> rel'[j] == rel[j + 1];
      }
      VisibleIsListed(e.node, sub, ignore, p);
      BelowUnfold(e.node, sub, ignore);
      assert p in EntryFolders(e, dir, ignore);
    }
    FoldersInMember(entries, dir, ignore, p);
  }

  /** In a well-formed tree, a listable root's enumeration holds exactly the unignored
      folders reachable from it through unignored folders, each prefixed by `dir`. */
  lemma FoldersExactly(n: Node, dir: Path, ignore: seq<string>, p: Path)
    requires n.Dir? && WellFormed(n)
    ensures p in FoldersIn(n.entries, dir, ignore)
        <==> |dir| < |p| && p[..|dir|] == dir && VisibleFolder(n, p[|dir|..], ignore)
  {
    if p in FoldersIn(n.entries, dir, ignore) {
      ListedIsVisible(n, dir, ignore, p);
    }
    if |dir| < |p| && p[..|dir|] == dir && VisibleFolder(n, p[|dir|..], ignore) {
      VisibleIsListed(n, dir, ignore, p);
    }
  }

  /** The enumeration never lists the root itself. */
  lemma RootNotListed(n: Node, dir: Path, ignore: seq<string>)
    requires AllFolders(n, dir, ignore).Found?
    ensures dir !in AllFolders(n, dir, ignore).folders
  {
    if n.Dir? {
      FoldersBelow(n.entries, dir, ignore);
    }
  }

  /** Every proper ancestor of a listed folder, below `dir`, is listed before it. */
  ghost predicate ParentsFirst(s: seq<Path>, dir: Path)
  {
    forall j, k :: 0 <= j < |s| && |dir| < k < |s[j]| ==> s[j][..k] in s[..j]
  }

  lemma ParentsFirstConcat(a: seq<Path>, b: seq<Path>, dir: Path)
    requires ParentsFirst(a, dir) && ParentsFirst(b, dir)
    ensures ParentsFirst(a + b, dir)
  {
    var s := a + b;
    forall j, k | 0 <= j < |s| && |dir| < k < |s[j]|
      ensures s[j][..k] in s[..j]
    {
      if j < |a| {
        assert s[..j] == a[..j];
      } else {
        assert s[j] == b[j - |a|];
        assert b[j - |a|][..k] in b[..j - |a|];
        assert s[..j] == a + b[..j - |a|];
      }
    }
  }

  /** A folder followed by an enumeration below it, in pre-order, is in pre-order. */
  lemma ParentsFirstCons(sub: Path, below: seq<Path>, dir: Path)
    requires |sub| == |dir| + 1 && ParentsFirst(below, sub)
    requires forall p :: p in below ==> |sub| < |p| && p[..|sub|] == sub
    ensures ParentsFirst([sub] + below, dir)
  {
    var here := [sub] + below;
    forall j, k | 0 <= j < |here| && |dir| < k < |here[j]|
      ensures here[j][..k] in here[..j]
    {
      assert j > 0;
      var p := below[j - 1];
      assert p in below;
      if k == |sub| {
        assert p[..k] == here[0];
      } else {
        assert p[..k] in below[..j - 1];
        assert here[..j] == [sub] + below[..j - 1];
      }
    }
  }

  /** The enumeration is in pre-order: each folder comes after all its ancestors. */
  lemma {:induction false} FoldersPreorder(entries: seq<Entry>, dir: Path, ignore: seq<string>)
    ensures ParentsFirst(FoldersIn(entries, dir, ignore), dir)
    decreases entries
  {
    if entries != [] {
      var init := entries[..|entries| - 1];
      var e := entries[|entries| - 1];
      FoldersPreorder(init, dir, ignore);
      var here := EntryFolders(e, dir, ignore);
      var sub := dir + [e.name];
      BelowUnfold(e.node, sub, ignore);
      if here != [] && e.node.Dir? {
        var below := FoldersIn(e.node.entries, sub, ignore);
        assert here == [sub] + below;
        FoldersPreorder(e.node.entries, sub, ignore);
        FoldersBelow(e.node.entries, sub, ignore);
        ParentsFirstCons(sub, below, dir);
      }
      ParentsFirstConcat(FoldersIn(init, dir, ignore), here, dir);
    }
  }

  /** Replacing one entry by one with the same contribution leaves the loop's result
      unchanged. */
  lemma {:induction false} SwapEntryFolders(entries: seq<Entry>, i: nat, e: Entry, dir: Path, ignore: seq<string>)
    requires i < |entries| && EntryFolders(e, dir, ignore) == EntryFolders(entries[i], dir, ignore)
    ensures FoldersIn(entries[i := e], dir, ignore) == FoldersIn(entries, dir, ignore)
  {
    var swapped := entries[i := e];
    var last := |entries| - 1;
    if i < last {
      assert swapped[..last] == entries[..last][i := e];
      SwapEntryFolders(entries[..last], i, e, dir, ignore);
    } else {
      assert swapped[..last] == entries[..last];
    }
  }

  /** Dropping a file from a listing leaves the loop's result unchanged: files add
      nothing (line 47). */
  lemma {:induction false} DropFileFolders(entries: seq<Entry>, i: nat, dir: Path, ignore: seq<string>)
    requires i < |entries| && entries[i].node.File?
    ensures FoldersIn(entries[..i] + entries[i + 1..], dir, ignore) == FoldersIn(entries, dir, ignore)
  {
    var dropped := entries[..i] + entries[i + 1..];
    var last := |entries| - 1;
    if i < last {
      assert dropped[..|dropped| - 1] == entries[..last][..i] + entries[..last][i + 1..];
      assert dropped[|dropped| - 1] == entries[last];
      DropFileFolders(entries[..last], i, dir, ignore);
    } else {
      assert dropped == entries[..last];
    }
  }

  /** The enumeration never descends into an ignored name: replacing whatever lies below
      it by anything leaves the result unchanged (lines 47-48). */
  lemma {:induction false} IgnoredSubtreeUnlisted(n: Node, p: Path, x: Node, dir: Path, ignore: seq<string>)
    requires !AvoidsIgnored(p, ignore)
    ensures AllFolders(ReplaceAt(n, p, x), dir, ignore) == AllFolders(n, dir, ignore)
  {
    if n.Dir? {
      var entries := n.entries;
      var i := Find(entries, p[0]);
      if i < |entries| {
        var child := ReplaceAt(entries[i].node, p[1..], x);
        var sub := dir + [p[0]];
        if p[0] !in ignore {
          assert !AvoidsIgnored(p[1..], ignore) by {
            var k :| 0 <= k < |p| && p[k] in ignore;
            assert k > 0 && p[1..][k - 1] == p[k];
          }
          IgnoredSubtreeUnlisted(entries[i].node, p[1..], x, sub, ignore);
          ReplaceKeepsShape(entries[i].node, p[1..], x);
        }
        SwapEntryFolders(entries, i, Entry(p[0], child), dir, ignore);
      }
    }
  }

  /** Two nodes whose enumerations agree wherever they are mounted. */
  ghost predicate SameFolders(x: Node, y: Node, ignore: seq<string>)
  {
    KindOf(x) == KindOf(y) && forall d :: AllFolders(x, d, ignore) == AllFolders(y, d, ignore)
  }

  /** Replacing a node by one with the same enumeration leaves every enumeration above
      it unchanged. */
  lemma {:induction false} ReplacePreservesFolders(n: Node, p: Path, x: Node, ignore: seq<string>)
    requires SameFolders(x, NodeAt(n, p), ignore)
    ensures SameFolders(ReplaceAt(n, p, x), n, ignore)
  {
    if p != [] {
      ReplaceKeepsShape(n, p, x);
      if n.Dir? {
        var entries := n.entries;
        var i := Find(entries, p[0]);
        if i < |entries| {
          var child := ReplaceAt(entries[i].node, p[1..], x);
          ReplacePreservesFolders(entries[i].node, p[1..], x, ignore);
          forall d ensures AllFolders(ReplaceAt(n, p, x), d, ignore) == AllFolders(n, d, ignore) {
            assert AllFolders(child, d + [p[0]], ignore) == AllFolders(entries[i].node, d + [p[0]], ignore);
            SwapEntryFolders(entries, i, Entry(p[0], child), d, ignore);
          }
        }
      }
    }
  }
}
