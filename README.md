# gitkeep-manager, modelled in Dafny

gitkeep-manager is an editor extension. It keeps an empty marker file (by default
`.gitkeep`) in every folder whose subtree holds no real file, so that version control
keeps the folder.

This project models its core, `extension.js`, over an abstract file tree:

- **The classifier** `isLeafEmptyFolder` decides whether a folder is *leaf-empty*: once
  ignored names are dropped, it holds no file except the marker, and every subfolder is
  leaf-empty in turn.
- **The enumerator** `getAllFolders` lists every folder under a workspace root that is
  not ignored, parents before children.
- **The command** "add markers" (`addGitkeep`) sweeps those folders and writes a marker
  into every leaf-empty folder that lacks one.
- **The watcher's handler** (`onDidCreate`) deletes a folder's marker once something real
  is created in the folder.

## Modules

- `FileTree` (filetree.dfy): the tree.
  - `Node` is one of `File`, `Dir(entries)`, `Unlistable` or `Unreadable`.
    - `Unlistable` is stat'able as a directory, but listing it throws.
    - `Unreadable` is an entry whose stat throws. It also stands for a path that does
      not exist.
  - A listing is a sequence of named entries, in listing order.
  - Paths are sequences of names.
  - Lookup follows the first entry of a name. `WellFormed` trees repeat no name within a
    folder.
- `Classifier` (classifier.dfy): `IsLeafEmptyFolder`, written as the same filters in the
  same order as the source, with its characterisations.
- `Folders` (folders.dfy):
  - The method `GetAllFolders`, with a loop and recursion, proved equal to the
    specification function `AllFolders`.
  - The enumeration's properties: exactly the visible folders, never the root, and
    parents first.
- `Markers` (markers.dfy): the two writes, creating a marker and unlinking one. Neither
  changes any folder's verdict, or any enumeration except one started at the marker path
  itself.
- `Sweep` (sweep.dfy): the command's two nested loops as folds (`SweepRoots`,
  `SweepFolders`, `Step`), and what they achieve:
  - which folders get a marker;
  - the count;
  - nothing else changes;
  - a second run adds nothing;
  - visiting order is immaterial.
- `Settings` (settings.dfy): the defaults JavaScript's `||` gives the two settings.
- `Watcher` (watcher.dfy): the handler's decision (`RemovesMarker`, `Parent`), and how it
  interacts with the command's writes.
- `Extension` (extension.dfy): the class `Workspace`.
  - Its field `fs` holds the current tree.
  - The command `AddGitkeep` loops over the roots; for each it calls `MarkRoot`, which
    loops over that root's folders in `MarkFolders`. The command is proved equal to
    `SweepRoots`.
  - The handler `OnDidCreate` deletes the marker exactly when `RemovesMarker` holds.

Two details of the code's error handling shape the model:

- **A workspace root that cannot be listed ends the command.** `readdirSync` on a root
  (extension.js:43) is outside any `try`, so the exception leaves `addGitkeep` and the
  remaining roots are not visited.
- **Failures below a root are contained.** A subfolder that cannot be listed is listed
  itself, and its own listing's exception is caught (extension.js:46-55).

## Model

| member | source | states |
|---|---|---|
| `Classifier.IsLeafEmptyFolder` | extension.js:12-34 | only a listable directory can be leaf-empty; a file, an unreadable or missing path, or a directory whose listing throws is classified `false` |
| `Classifier.LeafEmptyDir` | extension.js:14-29 | a listed folder is leaf-empty exactly when every entry whose name is not ignored is either a file named like the marker or a leaf-empty folder |
| `Classifier.RealFileMeansNotLeafEmpty` | extension.js:14-19 | one non-ignored file not named like the marker makes the folder not leaf-empty |
| `Classifier.UnreadableMeansNotLeafEmpty` | extension.js:13-33 | a non-ignored entry whose stat or listing throws makes the folder, and the entry itself, not leaf-empty |
| `Classifier.NothingRealMeansLeafEmpty` | extension.js:14-29 | a folder holding nothing, only the marker, or only ignored names is leaf-empty |
| `Classifier.LeafEmptyIffNoRealFile` | extension.js:12-34 | in a well-formed tree, a node is leaf-empty exactly when it is a listable directory and every path listed below it through names that are not ignored is a listable directory or a file named like the marker; an unreadable or unlistable entry is listed too, so it makes the folder not leaf-empty |
| `Classifier.IgnoredSubtreeInvisible` | extension.js:14 | replacing anything at a path through an ignored name leaves the folder's verdict unchanged |
| `Folders.GetAllFolders` | extension.js:39-58 | the loop and recursion compute `AllFolders`; a missing path gives the empty list; the call throws exactly when the path is a file or a directory that cannot be listed |
| `Folders.FoldersExactly` | extension.js:39-57 | for a well-formed listable root, a path is listed exactly when it lies strictly below the root, every name on the way is not ignored, and it names a directory |
| `Folders.RootNotListed` | extension.js:43-51 | the root itself is never in its own enumeration |
| `Folders.FoldersPreorder` | extension.js:44-51 | every ancestor of a listed folder below the root is listed before it |
| `Folders.DropFileFolders` | extension.js:44-51 | removing a file from a folder's listing leaves the enumeration unchanged: only directories are collected |
| `Folders.IgnoredSubtreeUnlisted` | extension.js:47-51 | replacing anything at a path through an ignored name leaves the enumeration unchanged |
| `Markers.AddMarkerEffect` | extension.js:82 | writing the marker makes the marker path a regular file; every other path keeps its kind, and every path off the way to the marker keeps its node |
| `Markers.AddMarkerListed` | extension.js:82 | after the write, the folder written to lists the marker, and every other folder lists it exactly when it did before |
| `Markers.AddMarkerKeepsVerdicts` | extension.js:15-16 | writing a marker never changes the leaf-empty verdict of any path in the tree |
| `Markers.AddMarkerKeepsFolders` | extension.js:77-82 | writing a marker never changes any enumeration, except one started at the marker path itself |
| `Markers.AddMarkerWellFormed` | extension.js:82 | the write keeps every folder free of repeated names |
| `Markers.UnlinkEffect` | extension.js:109 | unlinking a marker file removes exactly that entry: the marker path goes missing, and every other path keeps its kind and, off the way to it, its node |
| `Markers.UnlinkKeepsVerdicts` | extension.js:108-109 | unlinking a marker never changes the leaf-empty verdict of any path |
| `Markers.UnlinkKeepsFolders` | extension.js:108-109 | unlinking a marker never changes any enumeration, except one started at the marker path itself |
| `Markers.UnlinkWellFormed` | extension.js:109 | unlinking keeps every folder free of repeated names |
| `Sweep.StepAtTarget` | extension.js:79-87 | one visit writes and counts a marker exactly when the folder is leaf-empty and lists no entry of the marker's name; otherwise nothing changes |
| `Sweep.SweepListed` | extension.js:78-88 | after a sweep, every verdict is unchanged, and a folder lists the marker exactly when it did before or is a visited target |
| `Sweep.SweepCount` | extension.js:74-88 | the count equals the number of distinct target folders visited |
| `Sweep.SweepKinds` | extension.js:78-88 | after a sweep, every path keeps its kind except the marker path of each target, which is now a regular file |
| `Sweep.SweepKeepsNodes` | extension.js:78-88 | after a sweep, every path that is not on the way to a written marker keeps its node, so nothing else in the tree changes, including entries no verdict or enumeration looks at |
| `Sweep.MarkerPathWasMissing` | extension.js:80 | the marker path of a target did not exist before the sweep |
| `Sweep.SweepKeepsFolders` | extension.js:76-88 | a sweep never changes any enumeration, except one started at a marker path it wrote |
| `Sweep.SweepWellFormed` | extension.js:78-88 | a sweep keeps the tree free of repeated names |
| `Sweep.SweepWithoutTargets` | extension.js:78-88 | a sweep over folders none of which is a target changes nothing and counts zero |
| `Sweep.SweepIdempotent` | extension.js:78-88 | sweeping the same folders again, with no change in between, adds nothing |
| `Sweep.SweepOrderFree` | extension.js:78-88 | two sweeps over the same set of folders, in any order and with any repetitions, give the same count and kinds, and mark the same folders |
| `Sweep.SweepAppend` | extension.js:76-88 | sweeping two lists one after the other is sweeping their concatenation, and the counts add up |
| `Sweep.AbortEndsSweep` | extension.js:43 | once a root's listing throws, no later root is visited and the writes already made are kept |
| `Sweep.SweepRootsFlat` | extension.js:76-89 | when every root is a listable folder, the command completes and equals a single sweep over all the roots' enumerations, taken in the tree as it was before the command |
| `Sweep.RootFoldersKept` | extension.js:77 | when every root's enumeration is the same in two trees, the folders the command lists up front, root by root, are the same |
| `Sweep.QuietRun` | extension.js:43-89 | when no root the command reaches before one throws enumerates a target, the command writes nothing: it aborts exactly when a reached root throws, and otherwise completes with a count of zero |
| `Sweep.RootFailsKept` | extension.js:43 | sweeping folders never makes a root that throws when listed listable again |
| `Sweep.RootSettledKept` | extension.js:43-88 | after any sweep, a root that enumerated no target still enumerates none, or now throws because a marker was written at its path |
| `Sweep.SweptRootSettled` | extension.js:77-88 | once a root's folders have been swept, the root enumerates no target any more |
| `Sweep.FirstRunQuiet` | extension.js:43-89 | in the tree the command leaves, no root it reached before a throw enumerates a target, and when it aborted, a root it reached still throws |
| `Sweep.SweepRootsIdempotent` | extension.js:43-89 | for any workspace roots, running the command a second time writes nothing: it completes with a count of zero, or throws at a root before writing; it throws whenever the first run did |
| `Sweep.SweepRootsRerunCompletes` | extension.js:76-89 | on listable roots, both runs of the command complete, and the second adds nothing |
| `Sweep.SweepRootsMarks` | extension.js:74-89 | on listable roots, the command marks exactly the enumerated leaf-empty folders that listed no marker; it reports how many, keeps every verdict and every other path's kind, and keeps the node at every path that is not on the way to a written marker |
| `Settings.FileName` | extension.js:65 | an unset or empty name setting falls back to `.gitkeep`; the marker's name is never empty |
| `Watcher.Parent` | extension.js:106 | the parent of a created path extended by its last name is that path; the root is its own parent |
| `Watcher.RealFileRemovesMarker` | extension.js:104-111 | creating a real file, neither ignored nor named like the marker, in a folder holding a marker file makes the handler delete that marker |
| `Watcher.MarkerWriteNotUndone` | extension.js:104-111 | the creation event of a marker the command wrote never makes the handler delete it |
| `Watcher.RemovedMarkerStaysRemoved` | extension.js:108-109 | after the handler deletes a marker, the folder no longer lists it, and a later sweep does not write it back |
| `Extension.Workspace.constructor` | extension.js:97-100 | the watcher captures the marker name and ignore list once, at activation |
| `Extension.Workspace.AddGitkeep` | extension.js:63-92 | with no workspace, the command reports it and changes nothing; otherwise the new tree and the report are those of `SweepRoots` over the roots, with the settings read afresh (an unset ignore list falls back to the empty list; a set list, even an empty one, is used as given); the tree stays well formed |
| `Extension.Workspace.MarkRoot` | extension.js:77-88 | a root that cannot be listed throws before any change; otherwise the root's folders are swept as `SweepFolders` does, and the tree stays well formed |
| `Extension.Workspace.MarkFolders` | extension.js:78-88 | the loop over one root's folders leaves the tree and the count that `SweepFolders` gives, and keeps the tree well formed |
| `Extension.Workspace.OnDidCreate` | extension.js:104-115 | deletes the marker of the created entry's parent exactly when it exists as a file and the parent is not leaf-empty; otherwise the tree is unchanged |

## Left out

- The editor API is not modelled: `getConfiguration`, `workspaceFolders`, the warning
  and summary messages, `registerCommand`, `createFileSystemWatcher`,
  `context.subscriptions`, `activate` and `deactivate`. The settings and the workspace
  roots become parameters, and the messages become the `Report` value.
- `console.log` and `console.error` are not modelled. They only report.
- Real file-system and path semantics are not modelled: symbolic links, special files,
  file contents, and `path.join`/`path.dirname` string handling. Paths are sequences of
  names.
- A missing path and a path whose stat throws are the same `Unreadable` node.
  `existsSync` cannot tell them apart.
- A folder that cannot be listed (`Unlistable`) is also treated as one that cannot be
  entered: every path below it is `Unreadable`. A real folder with execute but not read
  permission can be entered. There, `existsSync` and `readdirSync` succeed on a path below
  it (extension.js:41-43), and the watcher acts on files created below it
  (extension.js:106-109). The model has no node for such a folder. So it cannot show a
  root below it being swept, or a marker below it being deleted.
- Names are compared exactly, as on a case-sensitive file system. On a case-insensitive
  one (the default on macOS and Windows), `existsSync` on `F/.gitkeep` also finds an
  entry named `.GITKEEP`, while the classifier's name test (extension.js:15) still tells
  the two apart. So the program skips a folder holding `.GITKEEP`, where the model writes
  and counts a marker beside it. And the program's `unlinkSync` (extension.js:109) can
  delete a user's `.GITKEEP` file, which the model's unlink never reaches.
- A listing's order is a sequence, and a new marker goes at its end. Real listing order
  depends on the operating system.
- Only one write failure is modelled: an unreadable entry that already has the marker's
  name, where the write throws and is skipped uncounted. Permission errors, a full disk
  and the like are not.
- Unlinking fails only when the marker's name is a directory.
- Other processes writing between the classifier's read and the marker write are not
  modelled.
- The asynchronous delivery of watcher events is not modelled. One event is one
  synchronous call of `OnDidCreate`.
- Ignore patterns are matched as exact names, as the code's `includes` does. They are
  not globs.
- Sweep.SweepRootsMarks: stated only for workspaces whose roots are all listable folders.
  A root that cannot be listed ends the command, as `Sweep.AbortEndsSweep` and
  `Extension.Workspace.AddGitkeep` state.
- Sweep.SweepRootsRerunCompletes: stated only for workspaces whose roots are all listable
  folders. `Sweep.SweepRootsIdempotent` covers every workspace, and there a second run may
  abort.
