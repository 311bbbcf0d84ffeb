/** The directory classifier `isLeafEmptyFolder` (extension.js, lines 12-34): is a
    folder's subtree free of real files? */
module Classifier {
  import opened FileTree

  /** The listing without ignored names (line 14). */
  function Unignored(entries: seq<Entry>, ignore: seq<string>): (items: seq<Entry>)
    ensures forall e :: e in items <==> e in entries && e.name !in ignore
  {
    if entries == [] then []
    else (if entries[0].name in ignore then [] else [entries[0]]) + Unignored(entries[1..], ignore)
  }

  /** Some item cannot be stat'd, so one of the `statSync` calls of lines 15-16 throws. */
  predicate StatFails(items: seq<Entry>)
  {
    exists k :: 0 <= k < |items| && items[k].node.Unreadable?
  }

  /** Items that are files and are not the marker (line 15). */
  function RealFiles(items: seq<Entry>, marker: string): (files: seq<Entry>)
    ensures forall e :: e in files <==> e in items && e.node.File? && e.name != marker
  {
    if items == [] then []
    else (if items[0].node.File? && items[0].name != marker then [items[0]] else [])
         + RealFiles(items[1..], marker)
  }

  /** Items that are directories (line 16); a directory named like the marker is one too. */
  function Subfolders(items: seq<Entry>): (folders: seq<Entry>)
    ensures forall e :: e in folders <==> e in items && IsDirectory(e.node)
  {
    if items == [] then []
    else (if IsDirectory(items[0].node) then [items[0]] else []) + Subfolders(items[1..])
  }

  /** `isLeafEmptyFolder`: a folder whose listing fails (lines 13, 30-33), one holding an
      entry that cannot be stat'd (lines 15-16, 30-33) or a real file (line 19), or one
      with a subfolder that is not leaf empty (lines 22-27) is not leaf empty. */
  function IsLeafEmptyFolder(n: Node, ignore: seq<string>, marker: string): (r: bool)
    ensures r ==> n.Dir?
    decreases n
  {
    match n
    case Dir(entries) =>
      var items := Unignored(entries, ignore);
      if StatFails(items) then false
      else
        var files := RealFiles(items, marker);
        var folders := Subfolders(items);
        if |files| > 0 then false
        else forall k | 0 <= k < |folders| :: IsLeafEmptyFolder(folders[k].node, ignore, marker)
    case _ => false
  }

  /** What an unignored entry must be for its folder to be leaf empty: the marker file,
      or a leaf-empty folder. */
  predicate Clean(e: Entry, ignore: seq<string>, marker: string)
  {
    if e.node.File? then e.name == marker else IsLeafEmptyFolder(e.node, ignore, marker)
  }

  /** The classifier entry by entry: a folder is leaf empty exactly when every entry it
      does not ignore is the marker file or a leaf-empty folder. */
  lemma LeafEmptyDir(entries: seq<Entry>, ignore: seq<string>, marker: string)
    ensures IsLeafEmptyFolder(Dir(entries), ignore, marker)
        <==> forall k :: 0 <= k < |entries| && entries[k].name !in ignore ==> Clean(entries[k], ignore, marker)
  {
    if IsLeafEmptyFolder(Dir(entries), ignore, marker) {
      forall k | 0 <= k < |entries| && entries[k].name !in ignore
        ensures Clean(entries[k], ignore, marker)
      {
        LeafEmptyEntryClean(entries, k, ignore, marker);
      }
    } else {
      NotLeafEmptyHasDirtyEntry(entries, ignore, marker);
    }
  }

  lemma LeafEmptyEntryClean(entries: seq<Entry>, k: nat, ignore: seq<string>, marker: string)
    requires IsLeafEmptyFolder(Dir(entries), ignore, marker)
    requires k < |entries| && entries[k].name !in ignore
    ensures Clean(entries[k], ignore, marker)
  {
    var items := Unignored(entries, ignore);
    var files := RealFiles(items, marker);
    var folders := Subfolders(items);
    var e := entries[k];
    assert e in items;
    var j :| 0 <= j < |items| && items[j] == e;
    assert !e.node.Unreadable?;
    if e.node.File? {
      assert e !in files;
    } else {
      assert e in folders;
      var m :| 0 <= m < |folders| && folders[m] == e;
    }
  }

  lemma NotLeafEmptyHasDirtyEntry(entries: seq<Entry>, ignore: seq<string>, marker: string)
    requires !IsLeafEmptyFolder(Dir(entries), ignore, marker)
    ensures exists k :: 0 <= k < |entries| && entries[k].name !in ignore && !Clean(entries[k], ignore, marker)
  {
    var items := Unignored(entries, ignore);
    var files := RealFiles(items, marker);
    var folders := Subfolders(items);
    var e: Entry;
    if StatFails(items) {
      var j :| 0 <= j < |items| && items[j].node.Unreadable?;
      e := items[j];
    } else if |files| > 0 {
      e := files[0];
      assert e in files;
    } else {
      var m :| 0 <= m < |folders| && !IsLeafEmptyFolder(folders[m].node, ignore, marker);
      e := folders[m];
      assert e in folders;
    }
    assert e in items && !Clean(e, ignore, marker);
    DirtyItemIsEntry(entries, ignore, marker, e);
  }

  lemma DirtyItemIsEntry(entries: seq<Entry>, ignore: seq<string>, marker: string, e: Entry)
    requires e in Unignored(entries, ignore) && !Clean(e, ignore, marker)
    ensures exists k :: 0 <= k < |entries| && entries[k].name !in ignore && !Clean(entries[k], ignore, marker)
  {
    var k :| 0 <= k < |entries| && entries[k] == e;
  }

  /** A folder holding an unignored file not named like the marker is not leaf empty. */
  lemma RealFileMeansNotLeafEmpty(entries: seq<Entry>, k: nat, ignore: seq<string>, marker: string)
    requires k < |entries| && entries[k].node.File?
    requires entries[k].name !in ignore && entries[k].name != marker
    ensures !IsLeafEmptyFolder(Dir(entries), ignore, marker)
  {
    LeafEmptyDir(entries, ignore, marker);
  }

  /** An unignored entry that cannot be stat'd makes its folder not leaf empty, as does a
      path that is not a listable folder. */
  lemma UnreadableMeansNotLeafEmpty(entries: seq<Entry>, k: nat, ignore: seq<string>, marker: string)
    requires k < |entries| && entries[k].name !in ignore
    requires entries[k].node.Unreadable? || entries[k].node.Unlistable?
    ensures !IsLeafEmptyFolder(Dir(entries), ignore, marker)
    ensures !IsLeafEmptyFolder(entries[k].node, ignore, marker)
  {
    LeafEmptyDir(entries, ignore, marker);
  }

  /** A folder with nothing in it, only ignored names, or only the marker file (or any
      mix of these) is leaf empty. */
  lemma NothingRealMeansLeafEmpty(entries: seq<Entry>, ignore: seq<string>, marker: string)
    requires forall k :: 0 <= k < |entries| ==>
               entries[k].name in ignore || (entries[k].name == marker && entries[k].node.File?)
    ensures IsLeafEmptyFolder(Dir(entries), ignore, marker)
  {
    LeafEmptyDir(entries, ignore, marker);
  }

  /** A node at path `p` that does not make the folder above it non-empty. */
  ghost predicate Tolerated(x: Node, p: Path, marker: string)
  {
    x.Dir? || (x.File? && p != [] && p[|p| - 1] == marker)
  }

  /** The subtree of `n`, seen through unignored names, holds only listable folders and
      marker files: the independent, path-based reading of "leaf empty". */
  ghost predicate HoldsNoRealFile(n: Node, ignore: seq<string>, marker: string)
  {
    forall p :: AvoidsIgnored(p, ignore) && Present(n, p) ==> Tolerated(NodeAt(n, p), p, marker)
  }

  lemma {:induction false} LeafEmptyTolerates(n: Node, p: Path, ignore: seq<string>, marker: string)
    requires IsLeafEmptyFolder(n, ignore, marker)
    requires AvoidsIgnored(p, ignore) && Present(n, p)
    ensures Tolerated(NodeAt(n, p), p, marker)
  {
    if p != [] {
      var entries := n.entries;
      var i := Find(entries, p[0]);
      LeafEmptyDir(entries, ignore, marker);
      assert p[0] !in ignore;
      assert Clean(entries[i], ignore, marker);
      var child := entries[i].node;
      assert NodeAt(n, p) == NodeAt(child, p[1..]);
      if child.File? {
        assert p[1..] == [] by {
          assert Present(child, p[1..]);
        }
        assert NodeAt(n, p) == File;
      } else {
        assert AvoidsIgnored(p[1..], ignore) by {
          assert forall k :: 0 <= k < |p[1..]| ==> p[1..][k] == p[k + 1];
        }
        LeafEmptyTolerates(child, p[1..], ignore, marker);
        if p[1..] != [] {
          assert p[|p| - 1] == p[1..][|p[1..]| - 1];
        }
      }
    }
  }

  lemma {:induction false} NoRealFileLeafEmpty(n: Node, ignore: seq<string>, marker: string)
    requires WellFormed(n) && HoldsNoRealFile(n, ignore, marker)
    ensures IsLeafEmptyFolder(n, ignore, marker)
    decreases n
  {
    assert Present(n, []) && AvoidsIgnored([], ignore);
    assert n.Dir?;
    var entries := n.entries;
    forall k | 0 <= k < |entries| && entries[k].name !in ignore
      ensures Clean(entries[k], ignore, marker)
    {
      var name := entries[k].name;
      var child := entries[k].node;
      FindDistinct(entries, k);
      assert Present(n, [name]) && AvoidsIgnored([name], ignore);
      assert NodeAt(n, [name]) == NodeAt(child, []) == child;
      assert Tolerated(child, [name], marker);
      if child.Dir? {
        forall r | AvoidsIgnored(r, ignore) && Present(child, r)
          ensures Tolerated(NodeAt(child, r), r, marker)
        {
          var p := [name] + r;
          assert p[0] == name && p[1..] == r;
          assert AvoidsIgnored(p, ignore) by {
            assert forall j :: 1 <= j < |p| ==> p[j] == r[j - 1];
          }
          assert Present(n, p);
          assert NodeAt(n, p) == NodeAt(child, r);
          if r != [] {
            assert p[|p| - 1] == r[|r| - 1];
          }
        }
        NoRealFileLeafEmpty(child, ignore, marker);
      }
    }
    LeafEmptyDir(entries, ignore, marker);
  }

  /** In a well-formed tree, a folder is leaf empty exactly when every entry reachable
      through unignored names is a listable folder or a file named like the marker. */
  lemma LeafEmptyIffNoRealFile(n: Node, ignore: seq<string>, marker: string)
    requires WellFormed(n)
    ensures IsLeafEmptyFolder(n, ignore, marker) <==> HoldsNoRealFile(n, ignore, marker)
  {
    if IsLeafEmptyFolder(n, ignore, marker) {
      forall p | AvoidsIgnored(p, ignore) && Present(n, p)
        ensures Tolerated(NodeAt(n, p), p, marker)
      {
        LeafEmptyTolerates(n, p, ignore, marker);
      }
    }
    if HoldsNoRealFile(n, ignore, marker) {
      NoRealFileLeafEmpty(n, ignore, marker);
    }
  }

  /** Replacing one entry of a folder by an entry of the same name changes nothing when
      the name is ignored or the two entries are equally clean. */
  lemma SwapEntryVerdict(entries: seq<Entry>, i: nat, e: Entry, ignore: seq<string>, marker: string)
    requires i < |entries| && e.name == entries[i].name
    requires entries[i].name in ignore || Clean(e, ignore, marker) == Clean(entries[i], ignore, marker)
    ensures IsLeafEmptyFolder(Dir(entries[i := e]), ignore, marker) == IsLeafEmptyFolder(Dir(entries), ignore, marker)
  {
    var swapped := entries[i := e];
    forall k | 0 <= k < |entries| && entries[k].name !in ignore
      ensures swapped[k].name !in ignore && Clean(swapped[k], ignore, marker) == Clean(entries[k], ignore, marker)
    {
    }
    LeafEmptyDir(entries, ignore, marker);
    LeafEmptyDir(swapped, ignore, marker);
  }

  /** Whatever lies below an ignored name is never inspected: replacing it by anything
      leaves the verdict unchanged (lines 14, 22-27). */
  lemma {:induction false} IgnoredSubtreeInvisible(n: Node, p: Path, x: Node, ignore: seq<string>, marker: string)
    requires !AvoidsIgnored(p, ignore)
    ensures IsLeafEmptyFolder(ReplaceAt(n, p, x), ignore, marker) == IsLeafEmptyFolder(n, ignore, marker)
  {
    if n.Dir? {
      var entries := n.entries;
      var i := Find(entries, p[0]);
      if i < |entries| {
        var child := ReplaceAt(entries[i].node, p[1..], x);
        if p[0] !in ignore {
          assert !AvoidsIgnored(p[1..], ignore) by {
            var k :| 0 <= k < |p| && p[k] in ignore;
            assert k > 0 && p[1..][k - 1] == p[k];
          }
          IgnoredSubtreeInvisible(entries[i].node, p[1..], x, ignore, marker);
          ReplaceKeepsShape(entries[i].node, p[1..], x);
        }
        SwapEntryVerdict(entries, i, Entry(p[0], child), ignore, marker);
      }
    }
  }

  /** Replacing a node by one of the same kind and the same verdict leaves the verdict of
      every folder above it unchanged. */
  lemma {:induction false} ReplacePreservesVerdict(n: Node, p: Path, x: Node, ignore: seq<string>, marker: string)
    requires KindOf(x) == KindOf(NodeAt(n, p))
    requires IsLeafEmptyFolder(x, ignore, marker) == IsLeafEmptyFolder(NodeAt(n, p), ignore, marker)
    ensures IsLeafEmptyFolder(ReplaceAt(n, p, x), ignore, marker) == IsLeafEmptyFolder(n, ignore, marker)
    ensures KindOf(ReplaceAt(n, p, x)) == KindOf(n)
  {
    if p != [] {
      ReplaceKeepsShape(n, p, x);
      if n.Dir? {
        var entries := n.entries;
        var i := Find(entries, p[0]);
        if i < |entries| {
          var child := ReplaceAt(entries[i].node, p[1..], x);
          ReplacePreservesVerdict(entries[i].node, p[1..], x, ignore, marker);
          SwapEntryVerdict(entries, i, Entry(p[0], child), ignore, marker);
        }
      }
    }
  }
}
