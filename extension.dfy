/** The extension's state: the file system it works on, and the settings the watcher
    captured when the extension was activated (extension.js lines 97-100 and 123-131).
    The command and the watcher's handler change the file system in place. */
module Extension {
  import opened FileTree
  import opened Classifier
  import opened Folders
  import opened Markers
  import opened Sweep
  import opened Settings
  import opened Watcher

  /** What the command reports: the warning when no folder is open, the count in its
      closing message, or an exception that ended it early. */
  datatype Report = NoWorkspace | Added(count: nat) | Failed

  class Workspace {
    var fs: Node
    const watchName: string
    const watchIgnore: seq<string>

    ghost predicate Valid()
      reads this
    {
      WellFormed(fs) && watchName != []
    }

    /** `activate` registers the command and sets up the watcher, which reads the
        settings once. */
    constructor (initial: Node, fileNameSetting: Option<string>, ignoreSetting: Option<seq<string>>)
      requires WellFormed(initial)
      ensures Valid()
      ensures fs == initial
      ensures watchName == FileName(fileNameSetting) && watchIgnore == IgnoreList(ignoreSetting)
    {
      fs := initial;
      watchName := FileName(fileNameSetting);
      watchIgnore := IgnoreList(ignoreSetting);
    }

    /** The "add markers" command (lines 63-92): reads the settings afresh, gives up
        when no folder is open, and otherwise sweeps every workspace root. */
    method AddGitkeep(fileNameSetting: Option<string>, ignoreSetting: Option<seq<string>>,
                      workspaceFolders: Option<seq<Path>>) returns (r: Report)
      requires Valid()
      modifies this
      ensures Valid()
      ensures workspaceFolders.None? ==> r == NoWorkspace && fs == old(fs)
      ensures workspaceFolders.Some? ==>
                var out := SweepRoots(old(fs), workspaceFolders.value, FileName(fileNameSetting), IgnoreList(ignoreSetting));
                && fs == out.fs
                && r == if out.Completed? then Added(out.added) else Failed
    {
      var name := FileName(fileNameSetting);
      var ignore := IgnoreList(ignoreSetting);
      if workspaceFolders.None? {
        return NoWorkspace;
      }
      var roots := workspaceFolders.value;
      var total := 0;
      var i := 0;
      while i < |roots|
        invariant 0 <= i <= |roots|
        invariant WellFormed(fs)
        invariant SweepRoots(old(fs), roots[..i], name, ignore) == Completed(fs, total)
      {
        SweepRootsNext(old(fs), roots, i, fs, total, name, ignore);
        var ok, added := MarkRoot(roots[i], name, ignore);
        if !ok {
          AbortEndsSweep(old(fs), roots, i + 1, name, ignore);
          return Failed;
        }
        total := total + added;
        i := i + 1;
      }
      assert roots[..i] == roots;
      r := Added(total);
    }

    /** The command's callback for one workspace root (lines 77-88): enumerates the
        root's folders, which throws when the root cannot be listed, then marks them. */
    method MarkRoot(root: Path, name: string, ignore: seq<string>) returns (ok: bool, added: nat)
      requires WellFormed(fs)
      modifies this
      ensures WellFormed(fs)
      ensures match AllFolders(NodeAt(old(fs), root), root, ignore)
              case ReadFailed => !ok && fs == old(fs)
              case Found(folders) => ok && SweepFolders(old(fs), folders, name, ignore) == Swept(fs, added)
    {
      var listing := GetAllFolders(NodeAt(fs, root), root, ignore);
      if listing.ReadFailed? {
        return false, 0;
      }
      ok := true;
      added := MarkFolders(listing.folders, name, ignore);
    }

    /** The inner loop of the command (lines 78-88): visits one root's folders in order
        and writes a marker into each leaf-empty one whose marker path does not exist. */
    method MarkFolders(folders: seq<Path>, name: string, ignore: seq<string>) returns (added: nat)
      requires WellFormed(fs)
      modifies this
      ensures WellFormed(fs)
      ensures SweepFolders(old(fs), folders, name, ignore) == Swept(fs, added)
    {
      added := 0;
      var j := 0;
      while j < |folders|
        invariant 0 <= j <= |folders|
        invariant WellFormed(fs)
        invariant SweepFolders(old(fs), folders[..j], name, ignore) == Swept(fs, added)
      {
        var f := folders[j];
        SweepFoldersNext(old(fs), folders, j, name, ignore);
        ghost var step := Step(fs, f, name, ignore);
        ghost var previous := added;
        if IsLeafEmptyFolder(NodeAt(fs, f), ignore, name) && !Exists(fs, f + [name]) {
          // writeFileSync throws when an unreadable entry already has the name
          if !Listed(fs, f, name) {
            AddMarkerWellFormed(fs, f, name);
            fs := AddMarker(fs, f, name);
            added := added + 1;
          }
        }
        assert fs == step.fs && added == previous + step.added;
        j := j + 1;
      }
      assert folders[..j] == folders;
    }

    /** The watcher's handler for a created entry (lines 104-115): deletes the marker of
        the entry's folder when that folder is no longer leaf-empty. */
    method OnDidCreate(created: Path) returns (removed: bool)
      requires Valid()
      modifies this
      ensures Valid()
      ensures removed <==> RemovesMarker(old(fs), Parent(created), watchName, watchIgnore)
      ensures fs == if removed then Unlink(old(fs), Parent(created), watchName) else old(fs)
    {
      var dir := Parent(created);
      removed := false;
      if Exists(fs, dir + [watchName]) && !IsLeafEmptyFolder(NodeAt(fs, dir), watchIgnore, watchName) {
        // unlinkSync throws on a directory; the handler catches it
        if NodeAt(fs, dir + [watchName]).File? {
          UnlinkWellFormed(fs, dir, watchName);
          fs := Unlink(fs, dir, watchName);
          removed := true;
        }
      }
    }
  }
}
