/** The two writes the extension makes: creating an empty marker file
    (`fs.writeFileSync`, extension.js line 82) and deleting one (`fs.unlinkSync`,
    line 109), and the fact that makes the sweep order-free: a marker file never
    changes what the classifier or the enumerator sees. */
module Markers {
  import opened FileTree
  import opened Classifier
  import opened Folders

  /** `writeFileSync(dir/marker, '')`: an empty file is appended to the folder's listing.
      When an entry of that name is already listed (one `existsSync` could not stat),
      the write fails and nothing changes. */
  function AddMarker(t: Node, dir: Path, marker: string): Node
  {
    match NodeAt(t, dir)
    case Dir(entries) =>
      if Find(entries, marker) < |entries| then t
      else ReplaceAt(t, dir, Dir(entries + [Entry(marker, File)]))
    case _ => t
  }

  /** `unlinkSync(dir/marker)`: the entry is removed when it is a file; on a directory
      the call throws and nothing changes. */
  function Unlink(t: Node, dir: Path, marker: string): Node
  {
    match NodeAt(t, dir)
    case Dir(entries) =>
      var i := Find(entries, marker);
      if i < |entries| && entries[i].node.File? then ReplaceAt(t, dir, Dir(entries[..i] + entries[i + 1..]))
      else t
    case _ => t
  }

  /** Writing a marker into `dir` creates exactly one new file, at `dir + [marker]`: every
      path off the way to it keeps its node, and every path keeps its kind. */
  lemma AddMarkerEffect(t: Node, dir: Path, marker: string)
    requires NodeAt(t, dir).Dir? && !Listed(t, dir, marker)
    ensures NodeAt(AddMarker(t, dir, marker), dir + [marker]) == File
    ensures forall q :: !(q <= dir + [marker]) ==> NodeAt(AddMarker(t, dir, marker), q) == NodeAt(t, q)
    ensures forall q :: KindOf(NodeAt(AddMarker(t, dir, marker), q))
                     == if q == dir + [marker] then RegularFile else KindOf(NodeAt(t, q))
  {
    AddMarkerBelow(t, dir, marker, dir + [marker]);
    forall q ensures !(q <= dir + [marker]) ==> NodeAt(AddMarker(t, dir, marker), q) == NodeAt(t, q)
      ensures KindOf(NodeAt(AddMarker(t, dir, marker), q)) == if q == dir + [marker] then RegularFile else KindOf(NodeAt(t, q))
    {
      PrefixOfChild(dir, marker, q);
      if q <= dir {
        AddMarkerAbove(t, dir, marker, q);
      } else if dir <= q {
        AddMarkerBelow(t, dir, marker, q);
        if q[|dir|] == marker {
          if q != dir + [marker] {
            AddMarkerBelowMarker(t, dir, marker, q);
          }
        } else {
          assert q[|dir|] != (dir + [marker])[|dir|];
        }
      } else {
        AddMarkerIsReplace(t, dir, marker);
        ReplaceAtElsewhere(t, dir, Extended(t, dir, marker), q);
      }
    }
  }

  /** The listing after the marker is appended. */
  function Extended(t: Node, dir: Path, marker: string): Node
    requires NodeAt(t, dir).Dir?
  {
    Dir(NodeAt(t, dir).entries + [Entry(marker, File)])
  }

  lemma AddMarkerIsReplace(t: Node, dir: Path, marker: string)
    requires NodeAt(t, dir).Dir? && !Listed(t, dir, marker)
    ensures AddMarker(t, dir, marker) == ReplaceAt(t, dir, Extended(t, dir, marker))
  {
  }

  lemma AddMarkerAbove(t: Node, dir: Path, marker: string, q: Path)
    requires NodeAt(t, dir).Dir? && !Listed(t, dir, marker) && q <= dir
    ensures KindOf(NodeAt(AddMarker(t, dir, marker), q)) == KindOf(NodeAt(t, q))
  {
    AddMarkerIsReplace(t, dir, marker);
    var x := Extended(t, dir, marker);
    ReplaceAtAlong(t, dir, x, q);
    NodeAtAppend(t, q, dir[|q|..]);
    assert q + dir[|q|..] == dir;
    if q != dir {
      ReplaceKeepsShape(NodeAt(t, q), dir[|q|..], x);
    }
  }

  /** Below the folder: the marker path is the new file, and a path through any other
      name keeps its node. */
  lemma AddMarkerBelow(t: Node, dir: Path, marker: string, q: Path)
    requires NodeAt(t, dir).Dir? && !Listed(t, dir, marker) && dir <= q && q != dir
    ensures q == dir + [marker] ==> NodeAt(AddMarker(t, dir, marker), q) == File
    ensures q[|dir|] != marker ==> NodeAt(AddMarker(t, dir, marker), q) == NodeAt(t, q)
    ensures q[|dir|] == marker ==> NodeAt(t, q) == Unreadable
  {
    AddMarkerIsReplace(t, dir, marker);
    var entries := NodeAt(t, dir).entries;
    ReplaceAtBelow(t, dir, Extended(t, dir, marker), q);
    var rest := q[|dir|..];
    assert q == dir + rest;
    NodeAtAppend(t, dir, rest);
    FindAppend(entries, Entry(marker, File), rest[0]);
  }

  /** Paths through the new marker file lead nowhere, before and after. */
  lemma AddMarkerBelowMarker(t: Node, dir: Path, marker: string, q: Path)
    requires NodeAt(t, dir).Dir? && !Listed(t, dir, marker) && dir <= q && q != dir
    requires q[|dir|] == marker && q != dir + [marker]
    ensures !(q <= dir + [marker]) && NodeAt(AddMarker(t, dir, marker), q) == NodeAt(t, q)
  {
    AddMarkerBelow(t, dir, marker, q);
    AddMarkerBelow(t, dir, marker, dir + [marker]);
    assert q[..|dir|] == dir;
    assert q[..|dir| + 1] == dir + [marker];
    var tail := q[|dir| + 1..];
    assert q == dir + [marker] + tail;
    assert tail != [];
    NodeAtAppend(AddMarker(t, dir, marker), dir + [marker], tail);
  }

  /** Writing a marker into `dir` makes that folder, and only it, list the marker name. */
  lemma AddMarkerListed(t: Node, dir: Path, marker: string)
    requires NodeAt(t, dir).Dir? && !Listed(t, dir, marker)
    ensures forall d :: Listed(AddMarker(t, dir, marker), d, marker) <==> Listed(t, d, marker) || d == dir
  {
    var entries := NodeAt(t, dir).entries;
    var x := Dir(entries + [Entry(marker, File)]);
    var t' := AddMarker(t, dir, marker);
    AddMarkerEffect(t, dir, marker);
    FindAppend(entries, Entry(marker, File), marker);
    forall d ensures Listed(t', d, marker) <==> Listed(t, d, marker) || d == dir {
      if d <= dir {
        ReplaceAtAlong(t, dir, x, d);
        NodeAtAppend(t, d, dir[|d|..]);
        assert d + dir[|d|..] == dir;
        if d != dir {
          ReplaceKeepsShape(NodeAt(t, d), dir[|d|..], x);
          if NodeAt(t, d).Dir? {
            FindSameNames(NodeAt(t', d).entries, NodeAt(t, d).entries, marker);
          }
        }
      } else if d == dir + [marker] {
        assert NodeAt(t, d) == Unreadable by { NodeAtAppend(t, dir, [marker]); }
      }
    }
  }

  /** The new listing is still free of repeated names. */
  lemma AddMarkerWellFormed(t: Node, dir: Path, marker: string)
    requires WellFormed(t)
    ensures WellFormed(AddMarker(t, dir, marker))
  {
    if NodeAt(t, dir).Dir? && !Listed(t, dir, marker) {
      var entries := NodeAt(t, dir).entries;
      var x := Dir(entries + [Entry(marker, File)]);
      NodeAtWellFormed(t, dir);
      assert WellFormed(x);
      ReplaceWellFormed(t, dir, x);
    }
  }

  lemma NotPrefixOfChild(dir: Path, name: string, q: Path)
    requires !(q <= dir) && !(dir <= q)
    ensures !(q <= dir + [name])
  {
    if |q| <= |dir| {
      assert (dir + [name])[..|q|] == dir[..|q|];
    } else {
      assert (dir + [name])[..|dir|] == dir;
    }
  }

  lemma PrefixOfChild(dir: Path, name: string, q: Path)
    ensures q <= dir + [name] ==> q <= dir || q == dir + [name]
  {
    if q <= dir + [name] && |q| <= |dir| {
      assert dir[..|q|] == (dir + [name])[..|q|];
    }
  }

  lemma {:induction false} NodeAtWellFormed(t: Node, p: Path)
    requires WellFormed(t)
    ensures WellFormed(NodeAt(t, p))
  {
    if p != [] && t.Dir? {
      var i := Find(t.entries, p[0]);
      if i < |t.entries| {
        NodeAtWellFormed(t.entries[i].node, p[1..]);
      }
    }
  }

  /** A marker file added to a folder's listing leaves its verdict unchanged. */
  lemma AppendMarkerVerdict(entries: seq<Entry>, marker: string, ignore: seq<string>)
    ensures IsLeafEmptyFolder(Dir(entries + [Entry(marker, File)]), ignore, marker)
         == IsLeafEmptyFolder(Dir(entries), ignore, marker)
  {
    var s := entries + [Entry(marker, File)];
    LeafEmptyDir(entries, ignore, marker);
    LeafEmptyDir(s, ignore, marker);
    assert forall k :: 0 <= k < |entries| ==> s[k] == entries[k];
    assert Clean(s[|entries|], ignore, marker);
  }

  /** Writing a marker never changes the verdict of any folder anywhere (line 15 leaves
      the marker out of the real files). */
  lemma AddMarkerKeepsVerdicts(t: Node, dir: Path, marker: string, ignore: seq<string>)
    requires NodeAt(t, dir).Dir? && !Listed(t, dir, marker)
    ensures forall q :: IsLeafEmptyFolder(NodeAt(AddMarker(t, dir, marker), q), ignore, marker)
                     == IsLeafEmptyFolder(NodeAt(t, q), ignore, marker)
  {
    AddMarkerEffect(t, dir, marker);
    forall q ensures IsLeafEmptyFolder(NodeAt(AddMarker(t, dir, marker), q), ignore, marker)
                  == IsLeafEmptyFolder(NodeAt(t, q), ignore, marker)
    {
      if q <= dir {
        AddMarkerVerdictAbove(t, dir, marker, ignore, q);
      } else if q == dir + [marker] {
        NodeAtAppend(t, dir, [marker]);
      }
    }
  }

  lemma AddMarkerVerdictAbove(t: Node, dir: Path, marker: string, ignore: seq<string>, q: Path)
    requires NodeAt(t, dir).Dir? && !Listed(t, dir, marker) && q <= dir
    ensures IsLeafEmptyFolder(NodeAt(AddMarker(t, dir, marker), q), ignore, marker)
         == IsLeafEmptyFolder(NodeAt(t, q), ignore, marker)
  {
    var entries := NodeAt(t, dir).entries;
    var x := Dir(entries + [Entry(marker, File)]);
    AppendMarkerVerdict(entries, marker, ignore);
    ReplaceAtAlong(t, dir, x, q);
    NodeAtAppend(t, q, dir[|q|..]);
    assert q + dir[|q|..] == dir;
    ReplacePreservesVerdict(NodeAt(t, q), dir[|q|..], x, ignore, marker);
  }

  /** Writing a marker never changes what any enumeration lists, except one started at
      the marker's own path. */
  lemma AddMarkerKeepsFolders(t: Node, dir: Path, marker: string, ignore: seq<string>)
    requires NodeAt(t, dir).Dir? && !Listed(t, dir, marker)
    ensures forall r, d :: r != dir + [marker] ==>
              AllFolders(NodeAt(AddMarker(t, dir, marker), r), d, ignore) == AllFolders(NodeAt(t, r), d, ignore)
  {
    var entries := NodeAt(t, dir).entries;
    var x := Dir(entries + [Entry(marker, File)]);
    var t' := AddMarker(t, dir, marker);
    AddMarkerEffect(t, dir, marker);
    assert SameFolders(x, Dir(entries), ignore) by {
      forall d ensures AllFolders(x, d, ignore) == AllFolders(Dir(entries), d, ignore) {
        assert (entries + [Entry(marker, File)])[..|entries|] == entries;
        assert EntryFolders(Entry(marker, File), d, ignore) == [];
        assert FoldersIn(entries + [Entry(marker, File)], d, ignore) == FoldersIn(entries, d, ignore) + [];
      }
    }
    forall r, d | r != dir + [marker]
      ensures AllFolders(NodeAt(t', r), d, ignore) == AllFolders(NodeAt(t, r), d, ignore)
    {
      PrefixOfChild(dir, marker, r);
      if r <= dir {
        ReplaceAtAlong(t, dir, x, r);
        NodeAtAppend(t, r, dir[|r|..]);
        assert r + dir[|r|..] == dir;
        ReplacePreservesFolders(NodeAt(t, r), dir[|r|..], x, ignore);
      }
    }
  }

  /** Unlinking a marker never changes any enumeration, except one started at the marker
      path itself, which now is missing. */
  lemma UnlinkKeepsFolders(t: Node, dir: Path, marker: string, ignore: seq<string>)
    requires WellFormed(t) && NodeAt(t, dir + [marker]).File?
    ensures forall r, d :: r != dir + [marker] ==>
              AllFolders(NodeAt(Unlink(t, dir, marker), r), d, ignore) == AllFolders(NodeAt(t, r), d, ignore)
  {
    UnlinkIsReplace(t, dir, marker);
    UnlinkEffect(t, dir, marker);
    var entries := NodeAt(t, dir).entries;
    var i := Find(entries, marker);
    var x := Remaining(t, dir, marker);
    var t' := Unlink(t, dir, marker);
    assert SameFolders(x, Dir(entries), ignore) by {
      NodeAtAppend(t, dir, [marker]);
      forall d ensures AllFolders(x, d, ignore) == AllFolders(Dir(entries), d, ignore) {
        DropFileFolders(entries, i, d, ignore);
      }
    }
    forall r, d | r != dir + [marker]
      ensures AllFolders(NodeAt(t', r), d, ignore) == AllFolders(NodeAt(t, r), d, ignore)
    {
      PrefixOfChild(dir, marker, r);
      if r <= dir {
        ReplaceAtAlong(t, dir, x, r);
        NodeAtAppend(t, r, dir[|r|..]);
        assert r + dir[|r|..] == dir;
        ReplacePreservesFolders(NodeAt(t, r), dir[|r|..], x, ignore);
      }
    }
  }

  /** Unlinking the marker file of `dir` removes exactly that entry: every path off the
      way to it keeps its node, and every other path keeps its kind. */
  lemma UnlinkEffect(t: Node, dir: Path, marker: string)
    requires WellFormed(t) && NodeAt(t, dir + [marker]).File?
    ensures !Listed(Unlink(t, dir, marker), dir, marker)
    ensures forall q :: !(q <= dir + [marker]) ==> NodeAt(Unlink(t, dir, marker), q) == NodeAt(t, q)
    ensures forall q :: KindOf(NodeAt(Unlink(t, dir, marker), q))
                     == if q == dir + [marker] then Missing else KindOf(NodeAt(t, q))
  {
    UnlinkAtFolder(t, dir, marker);
    forall q ensures !(q <= dir + [marker]) ==> NodeAt(Unlink(t, dir, marker), q) == NodeAt(t, q)
      ensures KindOf(NodeAt(Unlink(t, dir, marker), q)) == if q == dir + [marker] then Missing else KindOf(NodeAt(t, q))
    {
      if q == dir {
        UnlinkAtFolder(t, dir, marker);
      } else if q <= dir {
        UnlinkAbove(t, dir, marker, q);
      } else if q == dir + [marker] {
        UnlinkMarkerGone(t, dir, marker);
      } else if dir <= q {
        UnlinkBelow(t, dir, marker, q);
        PrefixOfChild(dir, marker, q);
      } else {
        UnlinkAside(t, dir, marker, q);
      }
    }
  }

  /** The listing left after the marker's entry is removed. */
  function Remaining(t: Node, dir: Path, marker: string): Node
    requires NodeAt(t, dir).Dir?
  {
    var entries := NodeAt(t, dir).entries;
    var i := Find(entries, marker);
    if i < |entries| then Dir(entries[..i] + entries[i + 1..]) else Dir(entries)
  }

  lemma UnlinkIsReplace(t: Node, dir: Path, marker: string)
    requires NodeAt(t, dir + [marker]).File?
    ensures NodeAt(t, dir).Dir? && Find(NodeAt(t, dir).entries, marker) < |NodeAt(t, dir).entries|
    ensures Unlink(t, dir, marker) == ReplaceAt(t, dir, Remaining(t, dir, marker))
  {
    NodeAtAppend(t, dir, [marker]);
  }

  lemma UnlinkAbove(t: Node, dir: Path, marker: string, q: Path)
    requires NodeAt(t, dir + [marker]).File? && q <= dir
    ensures KindOf(NodeAt(Unlink(t, dir, marker), q)) == KindOf(NodeAt(t, q))
  {
    UnlinkIsReplace(t, dir, marker);
    var x := Remaining(t, dir, marker);
    ReplaceAtAlong(t, dir, x, q);
    NodeAtAppend(t, q, dir[|q|..]);
    assert q + dir[|q|..] == dir;
    if q != dir {
      ReplaceKeepsShape(NodeAt(t, q), dir[|q|..], x);
    }
  }

  lemma UnlinkAside(t: Node, dir: Path, marker: string, q: Path)
    requires NodeAt(t, dir + [marker]).File? && !(q <= dir) && !(dir <= q)
    ensures !(q <= dir + [marker]) && NodeAt(Unlink(t, dir, marker), q) == NodeAt(t, q)
  {
    UnlinkIsReplace(t, dir, marker);
    ReplaceAtElsewhere(t, dir, Remaining(t, dir, marker), q);
    NotPrefixOfChild(dir, marker, q);
  }

  /** At the folder itself: it stays a listable folder and no longer lists the marker. */
  lemma UnlinkAtFolder(t: Node, dir: Path, marker: string)
    requires WellFormed(t) && NodeAt(t, dir + [marker]).File?
    ensures !Listed(Unlink(t, dir, marker), dir, marker)
    ensures KindOf(NodeAt(Unlink(t, dir, marker), dir)) == KindOf(NodeAt(t, dir))
  {
    UnlinkIsReplace(t, dir, marker);
    var entries := NodeAt(t, dir).entries;
    var i := Find(entries, marker);
    var rest := entries[..i] + entries[i + 1..];
    ReplaceAtBelow(t, dir, Remaining(t, dir, marker), dir);
    assert dir[|dir|..] == [];
    NodeAtWellFormed(t, dir);
    assert Find(rest, marker) == |rest| by {
      assert forall k :: 0 <= k < |rest| ==> rest[k] == if k < i then entries[k] else entries[k + 1];
    }
  }

  /** The marker's own path goes missing. */
  lemma UnlinkMarkerGone(t: Node, dir: Path, marker: string)
    requires WellFormed(t) && NodeAt(t, dir + [marker]).File?
    ensures NodeAt(Unlink(t, dir, marker), dir + [marker]) == Unreadable
  {
    UnlinkIsReplace(t, dir, marker);
    var q := dir + [marker];
    ReplaceAtBelow(t, dir, Remaining(t, dir, marker), q);
    assert q[|dir|..] == [marker];
    NodeAtWellFormed(t, dir);
    UnlinkBelowMarker(t, dir, marker, [marker]);
  }

  /** Below the folder, every path except those through the marker keeps its node. */
  lemma UnlinkBelow(t: Node, dir: Path, marker: string, q: Path)
    requires WellFormed(t) && NodeAt(t, dir + [marker]).File? && dir <= q && q != dir
    ensures !(q <= dir + [marker]) ==> NodeAt(Unlink(t, dir, marker), q) == NodeAt(t, q)
  {
    UnlinkIsReplace(t, dir, marker);
    var r := q[|dir|..];
    assert q == dir + r;
    ReplaceAtBelow(t, dir, Remaining(t, dir, marker), q);
    NodeAtAppend(t, dir, r);
    if r[0] == marker && |r| > 1 {
      UnlinkThroughMarker(t, dir, marker, r);
    } else if r[0] != marker {
      UnlinkBelowSibling(t, dir, marker, r);
    } else {
      assert q == dir + [marker];
    }
  }

  /** Paths through the marker file lead nowhere, before and after. */
  lemma UnlinkThroughMarker(t: Node, dir: Path, marker: string, r: Path)
    requires WellFormed(t) && NodeAt(t, dir).Dir? && NodeAt(t, dir + [marker]).File?
    requires |r| > 1 && r[0] == marker
    ensures NodeAt(Remaining(t, dir, marker), r) == NodeAt(NodeAt(t, dir), r)
  {
    NodeAtAppend(t, dir, [marker]);
    NodeAtWellFormed(t, dir);
    UnlinkBelowMarker(t, dir, marker, r);
  }

  lemma UnlinkBelowMarker(t: Node, dir: Path, marker: string, r: Path)
    requires NodeAt(t, dir).Dir? && DistinctNames(NodeAt(t, dir).entries)
    requires r != [] && r[0] == marker
    ensures NodeAt(Remaining(t, dir, marker), r) == Unreadable
  {
    var entries := NodeAt(t, dir).entries;
    var i := Find(entries, marker);
    if i < |entries| {
      var rest := entries[..i] + entries[i + 1..];
      assert Find(rest, marker) == |rest| by {
        assert forall k :: 0 <= k < |rest| ==> rest[k] == if k < i then entries[k] else entries[k + 1];
      }
    }
  }

  lemma UnlinkBelowSibling(t: Node, dir: Path, marker: string, r: Path)
    requires NodeAt(t, dir).Dir? && Find(NodeAt(t, dir).entries, marker) < |NodeAt(t, dir).entries|
    requires r != [] && r[0] != marker
    ensures NodeAt(Remaining(t, dir, marker), r) == NodeAt(NodeAt(t, dir), r)
  {
    var entries := NodeAt(t, dir).entries;
    var i := Find(entries, marker);
    assert entries[i].name == marker;
    RemoveKeepsSiblings(entries, i, r);
  }

  lemma RemoveKeepsSiblings(entries: seq<Entry>, i: nat, r: Path)
    requires i < |entries| && r != [] && entries[i].name != r[0]
    ensures NodeAt(Dir(entries[..i] + entries[i + 1..]), r) == NodeAt(Dir(entries), r)
  {
    var rest := entries[..i] + entries[i + 1..];
    FindRemove(entries, i, r[0]);
    var j := Find(entries, r[0]);
    if j < |entries| {
      var j' := if j < i then j else j - 1;
      assert rest[j'] == entries[j];
      assert NodeAt(Dir(rest), r) == NodeAt(rest[j'].node, r[1..]);
    }
  }

  lemma UnlinkWellFormed(t: Node, dir: Path, marker: string)
    requires WellFormed(t)
    ensures WellFormed(Unlink(t, dir, marker))
  {
    if NodeAt(t, dir).Dir? {
      var entries := NodeAt(t, dir).entries;
      var i := Find(entries, marker);
      if i < |entries| && entries[i].node.File? {
        NodeAtWellFormed(t, dir);
        RemoveWellFormed(entries, i);
        ReplaceWellFormed(t, dir, Dir(entries[..i] + entries[i + 1..]));
      }
    }
  }

  lemma RemoveWellFormed(entries: seq<Entry>, i: nat)
    requires WellFormed(Dir(entries)) && i < |entries|
    ensures WellFormed(Dir(entries[..i] + entries[i + 1..]))
  {
    var rest := entries[..i] + entries[i + 1..];
    assert forall k :: 0 <= k < |rest| ==> rest[k] == if k < i then entries[k] else entries[k + 1];
  }

  /** Removing the marker file from a folder's listing leaves its verdict unchanged. */
  lemma RemoveMarkerVerdict(entries: seq<Entry>, i: nat, marker: string, ignore: seq<string>)
    requires i < |entries| && entries[i] == Entry(marker, File)
    ensures IsLeafEmptyFolder(Dir(entries[..i] + entries[i + 1..]), ignore, marker)
         == IsLeafEmptyFolder(Dir(entries), ignore, marker)
  {
    LeafEmptyDir(entries, ignore, marker);
    LeafEmptyDir(entries[..i] + entries[i + 1..], ignore, marker);
    RemoveCleanEntry(entries, i, marker, ignore);
  }

  ghost predicate AllClean(entries: seq<Entry>, ignore: seq<string>, marker: string)
  {
    forall k :: 0 <= k < |entries| && entries[k].name !in ignore ==> Clean(entries[k], ignore, marker)
  }

  /** Dropping an entry that is clean keeps a listing all clean, and loses no dirty one. */
  lemma RemoveCleanEntry(entries: seq<Entry>, i: nat, marker: string, ignore: seq<string>)
    requires i < |entries| && Clean(entries[i], ignore, marker)
    ensures AllClean(entries[..i] + entries[i + 1..], ignore, marker) == AllClean(entries, ignore, marker)
  {
    var rest := entries[..i] + entries[i + 1..];
    assert forall k :: 0 <= k < |rest| ==> rest[k] == if k < i then entries[k] else entries[k + 1];
    if AllClean(rest, ignore, marker) {
      forall k | 0 <= k < |entries| && entries[k].name !in ignore
        ensures Clean(entries[k], ignore, marker)
      {
        if k < i {
          assert rest[k] == entries[k];
        } else if k > i {
          assert rest[k - 1] == entries[k];
        }
      }
    }
  }

  /** Unlinking a marker never changes the verdict of any folder anywhere. */
  lemma UnlinkKeepsVerdicts(t: Node, dir: Path, marker: string, ignore: seq<string>)
    requires WellFormed(t) && NodeAt(t, dir + [marker]).File?
    ensures forall q :: IsLeafEmptyFolder(NodeAt(Unlink(t, dir, marker), q), ignore, marker)
                     == IsLeafEmptyFolder(NodeAt(t, q), ignore, marker)
  {
    UnlinkEffect(t, dir, marker);
    forall q ensures IsLeafEmptyFolder(NodeAt(Unlink(t, dir, marker), q), ignore, marker)
                  == IsLeafEmptyFolder(NodeAt(t, q), ignore, marker)
    {
      if q <= dir {
        UnlinkVerdictAbove(t, dir, marker, ignore, q);
      }
    }
  }

  lemma UnlinkVerdictAbove(t: Node, dir: Path, marker: string, ignore: seq<string>, q: Path)
    requires NodeAt(t, dir + [marker]).File? && q <= dir
    ensures IsLeafEmptyFolder(NodeAt(Unlink(t, dir, marker), q), ignore, marker)
         == IsLeafEmptyFolder(NodeAt(t, q), ignore, marker)
  {
    UnlinkIsReplace(t, dir, marker);
    var x := Remaining(t, dir, marker);
    RemainingVerdict(t, dir, marker, ignore);
    ReplaceAtAlong(t, dir, x, q);
    NodeAtAppend(t, q, dir[|q|..]);
    assert q + dir[|q|..] == dir;
    ReplacePreservesVerdict(NodeAt(t, q), dir[|q|..], x, ignore, marker);
  }

  lemma RemainingVerdict(t: Node, dir: Path, marker: string, ignore: seq<string>)
    requires NodeAt(t, dir + [marker]).File?
    ensures NodeAt(t, dir).Dir?
    ensures KindOf(Remaining(t, dir, marker)) == KindOf(NodeAt(t, dir))
    ensures IsLeafEmptyFolder(Remaining(t, dir, marker), ignore, marker)
         == IsLeafEmptyFolder(NodeAt(t, dir), ignore, marker)
  {
    NodeAtAppend(t, dir, [marker]);
    var entries := NodeAt(t, dir).entries;
    RemoveMarkerVerdict(entries, Find(entries, marker), marker, ignore);
  }
}
