/** The decision the file watcher makes when something is created (extension.js lines
    104-115), and how it interacts with the markers the command writes. */
module Watcher {
  import opened FileTree
  import opened Classifier
  import opened Markers
  import opened Sweep

  /** `path.dirname`: the folder holding the created entry; the root is its own parent. */
  function Parent(created: Path): (dir: Path)
    ensures created != [] ==> dir + [created[|created| - 1]] == created
    ensures created == [] ==> dir == []
  {
    if created == [] then [] else created[..|created| - 1]
  }

  /** The marker of `dir` is deleted when it exists, the folder is not leaf-empty, and
      it is a file (`unlinkSync` on a directory throws, and the handler catches it). */
  predicate RemovesMarker(t: Node, dir: Path, marker: string, ignore: seq<string>)
  {
    Exists(t, dir + [marker]) && !IsLeafEmptyFolder(NodeAt(t, dir), ignore, marker)
    && NodeAt(t, dir + [marker]).File?
  }

  /** A new real file, neither ignored nor named like the marker, in a folder holding a
      marker file makes the watcher delete that marker. */
  lemma RealFileRemovesMarker(t: Node, dir: Path, name: string, marker: string, ignore: seq<string>)
    requires NodeAt(t, dir + [marker]).File? && !Listed(t, dir, name)
    requires name != marker && name !in ignore
    ensures RemovesMarker(AddMarker(t, dir, name), Parent(dir + [name]), marker, ignore)
  {
    NodeAtAppend(t, dir, [marker]);
    var t' := AddMarker(t, dir, name);
    assert Parent(dir + [name]) == dir;
    AddMarkerEffect(t, dir, name);
    var entries := NodeAt(t, dir).entries;
    assert NodeAt(t', dir) == Dir(entries + [Entry(name, File)]) by {
      ReplaceAtBelow(t, dir, Dir(entries + [Entry(name, File)]), dir);
      assert dir[|dir|..] == [];
    }
    RealFileMeansNotLeafEmpty(entries + [Entry(name, File)], |entries|, ignore, marker);
    assert !(dir + [marker] <= dir + [name]) by {
      assert (dir + [marker])[|dir|] != (dir + [name])[|dir|];
    }
  }

  /** The command's own writes fire the watcher too: a marker written into a target
      folder never makes it delete that marker again. */
  lemma MarkerWriteNotUndone(t: Node, f: Path, marker: string, ignore: seq<string>)
    requires Target(t, f, marker, ignore)
    ensures !RemovesMarker(AddMarker(t, f, marker), Parent(f + [marker]), marker, ignore)
  {
    assert Parent(f + [marker]) == f;
    AddMarkerKeepsVerdicts(t, f, marker, ignore);
    assert IsLeafEmptyFolder(NodeAt(AddMarker(t, f, marker), f), ignore, marker);
  }

  /** After the watcher deletes a marker, a later sweep does not write it back: the folder
      is still not leaf-empty. */
  lemma RemovedMarkerStaysRemoved(t: Node, dir: Path, marker: string, ignore: seq<string>)
    requires WellFormed(t) && RemovesMarker(t, dir, marker, ignore)
    ensures !Listed(Unlink(t, dir, marker), dir, marker)
    ensures !Target(Unlink(t, dir, marker), dir, marker, ignore)
  {
    UnlinkEffect(t, dir, marker);
    UnlinkKeepsVerdicts(t, dir, marker, ignore);
    assert IsLeafEmptyFolder(NodeAt(Unlink(t, dir, marker), dir), ignore, marker)
        == IsLeafEmptyFolder(NodeAt(t, dir), ignore, marker);
  }
}
