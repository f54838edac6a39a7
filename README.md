# photobase: a verified model of the directory spider and photo classifier

photobase walks a directory tree and keeps an inventory of what it finds.
A `Spider` has two lists that only grow: the paths of the regular files and
the paths of the directories it has found. `spider(root)` lists `root`
and goes through the entries in listing order. A regular file is appended
to `files` and the `visit_file` hook fires. A directory is appended to
`folders`, the `visit_dir` hook fires, and the walk recurses into it.
Anything else is reported and skipped. A listing that fails is not caught,
so the whole walk stops. `PhotoSpider` overrides `visit_file`. It builds a
record from the content sniffer's type string and the file's stat size.
When the type starts with `"JPEG"` it merges in the fields of the JPEG
handler, whose `"file type"` value `"JPEG"` wins.

The model has four modules besides a one-type `Wrappers`:

- `Paths` (paths.dfy): `os.path.join` for a directory path and one entry
  name, and what can be read back from a joined path.
- `FsTree` (fstree.dfy): the filesystem as a tree. A `Node` is a `File`
  (name, byte size, and the sniffer's description of its content), a `Dir`
  (name and a `Listing`) or an `Other` entry. A `Listing` is either the
  entries `listdir` returns, in its order, or `Unlistable`.
  `FileLeaves` counts the regular files as an independent reference.
- `Traversal` (traversal.dfy): the specification of one call of
  `spider`. `WalkDir`, `WalkEntries` and `VisitEntry` give the trace of
  appended entries, each one a kind plus the parent path and entry name.
  They also give the path whose listing failed, if any. The lemmas state
  what a walk promises: the file count, pre-order, skipping, the abort
  point, and distinct paths.
- `Photobase` (photobase.dfy): the `Spider` class, with `files` and
  `folders` fields and the walk as a recursive method proved against
  `Traversal`. It also holds the PhotoSpider record building (`HandleJpeg`,
  `PhotoVisitFile`). `VisitDir` and `VisitFile` are the hooks. Neither
  changes the walker: `visit_dir` does nothing, and the PhotoSpider
  `visit_file` builds its record and only logs it, so `VisitFile` returns
  the logged record.
  The class has no subclass, so a `hooks` constant records whether it was
  built as a `Spider` or a `PhotoSpider`.

The constructor ignores its `root` argument and stores nothing
(photobase.py:19-21).

## Model

| member | source | states |
|---|---|---|
| `Paths.Join` | photobase.py:48 | for a listed entry name, the path is the root, then one separator unless the root is empty or already ends in one, then the name; the result never ends in a separator; an absolute name replaces the root |
| `Paths.SegmentOfName` | photobase.py:48 | a separator-free name followed by nothing or by a separator is read back as the first segment |
| `Paths.JoinDistinct` | photobase.py:48 | two different entry names joined to the same directory give two different paths |
| `Paths.JoinInBranch` | photobase.py:48 | a joined entry path lies in the branch of that entry's name under the root |
| `Paths.NestedInBranch` | photobase.py:48 | every path built below a joined directory path still lies in that directory's branch under the root |
| `Traversal.WalkDir` | photobase.py:41-57 | a walk fails with nothing recorded exactly when its root cannot be listed, and then it reports the root |
| `Traversal.WalkEntries` | photobase.py:47-57 | the loop over a listing aborts only after recording something, and never aborts when the listing holds no directory |
| `Traversal.VisitEntry` | photobase.py:48-57 | an entry records nothing exactly when it is neither file nor directory, and only a directory entry can fail |
| `Traversal.PathsOfAppend` | photobase.py:50-53 | appending to a list in two steps gives the two steps' paths concatenated, in order |
| `Traversal.WalkEntriesStep` | photobase.py:47-57 | one more loop iteration appends the entry's own files and directories after those already recorded |
| `Traversal.VisitPaths` | photobase.py:48-57 | a file entry appends only its joined path to `files`; a directory entry appends its joined path to `folders` and then what the walk below it appends; any other entry appends nothing |
| `Traversal.AbortIsFinal` | photobase.py:45-55 | once a nested listing has failed, the entries after it in the loop change nothing |
| `Traversal.FailureIsLastDir` | photobase.py:45-55 | a failed walk ends right after recording the directory that could not be listed; only an unlistable root fails with nothing recorded |
| `Traversal.FileCountMatchesTree` | photobase.py:47-55 | a walk records no more file paths than the tree has regular-file leaves, and exactly as many when it completes |
| `Traversal.PreOrder` | photobase.py:52-55 | every recorded entry was found directly in the root or in a directory whose own entry was recorded before it |
| `Traversal.ParentsFirstBelowDir` | photobase.py:53-55 | a directory's entry followed by the pre-order walk of its contents is a pre-order walk of the parent |
| `Traversal.OthersAreSkipped` | photobase.py:56-57 | entries that are neither file nor directory record nothing and do not stop the walk: the walk equals the walk over the listing without them |
| `Traversal.PathsAreDistinct` | photobase.py:47-55 | in a tree whose sibling names are distinct and free of separators, one walk never records the same path twice |
| `Traversal.FilesAndFoldersDisjoint` | photobase.py:49-53 | in such a tree, the files and folders recorded by one walk each hold no repeats and share no path |
| `Traversal.ExampleWalk` | photobase.py:41-57 | a root holding a.jpg, b.txt and sub/c.jpg completes and records the three files in listing order, depth first, with sub recorded before c.jpg |
| `Photobase.HandleJpeg` | photobase.py:83-90 | the JPEG handler returns exactly one field, the type normalised to "JPEG" |
| `Photobase.PhotoVisitFile` | photobase.py:69-81 | the record has exactly the keys "file type" and "file size"; the type is "JPEG" when the sniffed string starts with "JPEG" and the raw sniffed string otherwise; the size is always the stat size |
| `Photobase.Spider.constructor` | photobase.py:19-21 | a new walker has empty `files` and `folders` |
| `Photobase.Spider.VisitDir` | photobase.py:29-33 | the directory hook changes nothing in the walker |
| `Photobase.Spider.VisitFile` | photobase.py:69-81 | a plain walker (lines 35-39) logs no record; a photo walker logs a record with exactly the keys "file type" and "file size", the type "JPEG" when the sniffed string starts with "JPEG" and the raw string otherwise, and the stat size |
| `Photobase.Spider.FileCount` | photobase.py:23-27 | returns the length of `files` and changes nothing |
| `Photobase.Spider.Walk` | photobase.py:41-57 | `files` and `folders` end as their old contents followed by exactly the walk's recorded files and directories in walk order; a listing failure anywhere is returned as the failing path, with everything appended before it kept |
| `Photobase.Spider.Visit` | photobase.py:48-57 | one entry of the loop appends exactly what `VisitEntry` records for it and returns the same failure |
| `Photobase.WalkTwice` | photobase.py:41-57 | two walks of one tree by a fresh walker leave every recorded path twice; when the tree has a file, `files` holds a duplicate, so walking is not idempotent |

## Left out

- Logging and `print` (photobase.py:39, 46, 57, 70, 80-81, 87) produce diagnostics only. The hooks that only log are methods that change nothing.
- libmagic (photobase.py:66-67, 73) is a foreign library. Its answer for a file is the `fileType` field of the `File` node, so the sniffer session that `PhotoSpider.__init__` opens is not modelled.
- `listdir`, `isfile`, `isdir` and `os.stat` (photobase.py:45, 49, 52, 75) are replaced by the tree. A failing `listdir` is a `Listing` that is `Unlistable`. The exception it raises is modelled as the failing path that the walk returns, and the abort propagates through every level.
- A file that vanishes between listing and `os.stat`, and `os.stat` failing in general, are not modelled: a `File` always has a size.
- Symlink cycles are not modelled: the tree is finite.
- The record is only logged by the source (photobase.py:81). `PhotoVisitFile` returns it, and the walker's file hook returns it as the logged value; `Visit` discards it.
- The `__main__` bootstrap and `PHOTOPATHROOT` (photobase.py:13, 93-98) are configuration and I/O.
- Python subclassing is modelled by the `hooks` constant of the one `Spider` class. The model cannot add a further subclass with hooks of its own.
- `Traversal.PathsAreDistinct` and `Traversal.FilesAndFoldersDisjoint` hold only for trees whose names are as `listdir` returns them: non-empty, no separator, siblings distinct. Any real directory meets this.
