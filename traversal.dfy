/** What one call of the walker records, as a function of the tree.

    A walk produces a trace: the files and directories it appends, in the
    order it appends them, each as the directory path it was found in and
    its entry name. The walker's `files` list is the file entries of the
    trace and its `folders` list the directory entries. A listing failure
    stops the whole walk; the trace then holds what was recorded before. */
module Traversal {
  import opened Wrappers
  import opened Paths
  import opened FsTree

  datatype Kind = FileKind | DirKind

  datatype Entry = Entry(kind: Kind, parent: string, name: string)
  {
    /** The path that is appended to the list: `os.path.join(root, entry)`. */
    function Path(): string
    {
      Join(parent, name)
    }
  }

  /** The trace of a walk and, when a listing failed, the path that could
      not be listed. */
  datatype Walked = Walked(trace: seq<Entry>, error: Option<string>)

  /** `spider(root)`: list `root`, then visit its entries in order. A
      walk fails without recording anything exactly when `root` itself
      cannot be listed, and then it reports `root`. */
  function WalkDir(root: string, listing: Listing): (w: Walked)
    ensures w.error.Some? && w.trace == [] <==> listing.Unlistable?
    ensures listing.Unlistable? ==> w.error == Some(root)
    decreases listing
  {
    match listing
    case Unlistable => Walked([], Some(root))
    case Entries(ns) => WalkEntries(root, ns)
  }

  /** The loop over a listing: the entries up to the last one, then the last
      one, unless an earlier entry already aborted the walk. The loop only
      aborts after it has recorded something, and a listing without
      directories never aborts it. */
  function WalkEntries(root: string, ns: seq<Node>): (w: Walked)
    ensures w.error.Some? ==> w.trace != []
    ensures (forall i :: 0 <= i < |ns| ==> !ns[i].Dir?) ==> w.error.None?
    decreases ns
  {
    if ns == [] then Walked([], None)
    else
      var before := WalkEntries(root, ns[..|ns| - 1]);
      if before.error.Some? then before
      else
        var last := VisitEntry(root, ns[|ns| - 1]);
        Walked(before.trace + last.trace, last.error)
  }

  /** One loop iteration: a file is recorded; a directory is recorded and
      then walked; anything else is skipped. Only a skipped entry records
      nothing, and only a directory can fail. */
  function VisitEntry(root: string, n: Node): (w: Walked)
    ensures w.trace == [] <==> n.Other?
    ensures w.error.Some? ==> n.Dir?
    decreases n
  {
    match n
    case File(name, _, _) => Walked([Entry(FileKind, root, name)], None)
    case Dir(name, listing) =>
      var below := WalkDir(Join(root, name), listing);
      Walked([Entry(DirKind, root, name)] + below.trace, below.error)
    case Other(_) => Walked([], None)
  }

  /** The paths of the entries of one kind, in trace order. */
  function PathsOf(t: seq<Entry>, k: Kind): seq<string>
  {
    if t == [] then []
    else PathsOf(t[..|t| - 1], k) + (if t[|t| - 1].kind == k then [t[|t| - 1].Path()] else [])
  }

  predicate NoDuplicates<T(==)>(s: seq<T>)
  {
    forall i, j :: 0 <= i < j < |s| ==> s[i] != s[j]
  }

  /** Pre-order: every entry was found either directly in the walk's root
      or in a directory whose own entry was recorded before it. */
  ghost predicate ParentsFirst(root: string, t: seq<Entry>)
  {
    forall j :: 0 <= j < |t| ==>
      t[j].parent == root ||
      exists i :: 0 <= i < j && t[i].kind == DirKind && t[i].Path() == t[j].parent
  }

  ghost predicate DistinctPaths(t: seq<Entry>)
  {
    forall i, j :: 0 <= i < j < |t| ==> t[i].Path() != t[j].Path()
  }

  /** The listing with the entries that are neither file nor directory
      taken out. */
  function WithoutOthers(ns: seq<Node>): seq<Node>
  {
    if ns == [] then []
    else WithoutOthers(ns[..|ns| - 1]) + (if ns[|ns| - 1].Other? then [] else [ns[|ns| - 1]])
  }

  // ---------------------------------------------------------------------
  // Lists of recorded paths

  /** Recording a trace in two parts appends the two parts' paths. */
  lemma {:induction false} PathsOfAppend(a: seq<Entry>, b: seq<Entry>, k: Kind)
    ensures PathsOf(a + b, k) == PathsOf(a, k) + PathsOf(b, k)
    decreases |b|
  {
    if b == [] {
      assert a + b == a;
    } else {
      assert (a + b)[..|a + b| - 1] == a + b[..|b| - 1];
      PathsOfAppend(a, b[..|b| - 1], k);
    }
  }

  /** A recorded path comes from an entry of that kind in the trace. */
  lemma {:induction false} PathsOfSource(t: seq<Entry>, k: Kind, x: string)
    requires x in PathsOf(t, k)
    ensures exists i :: 0 <= i < |t| && t[i].kind == k && t[i].Path() == x
  {
    var m := |t| - 1;
    if x in PathsOf(t[..m], k) {
      PathsOfSource(t[..m], k, x);
      var i :| 0 <= i < m && t[..m][i].kind == k && t[..m][i].Path() == x;
      assert t[i] == t[..m][i];
    } else {
      assert t[m].kind == k && t[m].Path() == x;
    }
  }

  /** A path that no entry of that kind carries is not recorded. */
  lemma {:induction false} PathsOfAbsent(t: seq<Entry>, k: Kind, x: string)
    requires forall i :: 0 <= i < |t| && t[i].kind == k ==> t[i].Path() != x
    ensures x !in PathsOf(t, k)
  {
    if t != [] {
      var m := |t| - 1;
      forall i | 0 <= i < m && t[..m][i].kind == k ensures t[..m][i].Path() != x {
        assert t[..m][i] == t[i];
      }
      PathsOfAbsent(t[..m], k, x);
    }
  }

  /** Paths of one kind from a trace with distinct paths have no repeats. */
  lemma {:induction false} PathsOfDistinct(t: seq<Entry>, k: Kind)
    requires DistinctPaths(t)
    ensures NoDuplicates(PathsOf(t, k))
  {
    if t != [] {
      var m := |t| - 1;
      assert DistinctPaths(t[..m]) by {
        forall i, j | 0 <= i < j < m ensures t[..m][i].Path() != t[..m][j].Path() {
          assert t[..m][i] == t[i] && t[..m][j] == t[j];
        }
      }
      PathsOfDistinct(t[..m], k);
      forall i | 0 <= i < m && t[..m][i].kind == k ensures t[..m][i].Path() != t[m].Path() {
        assert t[..m][i] == t[i];
      }
      PathsOfAbsent(t[..m], k, t[m].Path());
    }
  }

  /** One more loop iteration appends the entry's own trace, and with it
      its files and directories. */
  lemma WalkEntriesStep(root: string, ns: seq<Node>, i: nat)
    requires i < |ns|
    requires WalkEntries(root, ns[..i]).error.None?
    ensures var before := WalkEntries(root, ns[..i]);
      var visited := VisitEntry(root, ns[i]);
      && WalkEntries(root, ns[..i + 1]) == Walked(before.trace + visited.trace, visited.error)
      && PathsOf(WalkEntries(root, ns[..i + 1]).trace, FileKind)
         == PathsOf(before.trace, FileKind) + PathsOf(visited.trace, FileKind)
      && PathsOf(WalkEntries(root, ns[..i + 1]).trace, DirKind)
         == PathsOf(before.trace, DirKind) + PathsOf(visited.trace, DirKind)
  {
    assert ns[..i + 1][..i] == ns[..i];
    var before := WalkEntries(root, ns[..i]);
    var visited := VisitEntry(root, ns[i]);
    PathsOfAppend(before.trace, visited.trace, FileKind);
    PathsOfAppend(before.trace, visited.trace, DirKind);
  }

  /** What visiting one entry appends to each list. */
  lemma VisitPaths(root: string, n: Node)
    ensures var t := VisitEntry(root, n).trace;
      match n
      case File(name, _, _) =>
        PathsOf(t, FileKind) == [Join(root, name)] && PathsOf(t, DirKind) == []
      case Dir(name, listing) =>
        var below := WalkDir(Join(root, name), listing).trace;
        && PathsOf(t, FileKind) == PathsOf(below, FileKind)
        && PathsOf(t, DirKind) == [Join(root, name)] + PathsOf(below, DirKind)
      case Other(_) =>
        PathsOf(t, FileKind) == [] && PathsOf(t, DirKind) == []
  {
    match n
    case File(name, _, _) =>
      var e := Entry(FileKind, root, name);
      assert PathsOf([e], FileKind) == PathsOf([], FileKind) + [e.Path()];
    case Dir(name, listing) =>
      var d := Entry(DirKind, root, name);
      var below := WalkDir(Join(root, name), listing).trace;
      PathsOfAppend([d], below, FileKind);
      PathsOfAppend([d], below, DirKind);
      assert PathsOf([d], DirKind) == PathsOf([], DirKind) + [d.Path()];
    case Other(_) =>
  }

  // ---------------------------------------------------------------------
  // Abort on a listing failure

  /** Once the loop has aborted, later entries change nothing. */
  lemma {:induction false} AbortIsFinal(root: string, ns: seq<Node>, k: nat)
    requires k <= |ns|
    requires WalkEntries(root, ns[..k]).error.Some?
    ensures WalkEntries(root, ns) == WalkEntries(root, ns[..k])
    decreases |ns|
  {
    if k < |ns| {
      var m := |ns| - 1;
      assert ns[..m][..k] == ns[..k];
      AbortIsFinal(root, ns[..m], k);
    } else {
      assert ns[..k] == ns;
    }
  }

  /** A walk that fails stops right after recording the directory it could
      not list: the failed path is the last entry of the trace, a directory.
      Only the walk's own root, when unlistable, fails with nothing recorded. */
  lemma {:induction false} FailureIsLastDir(root: string, listing: Listing)
    ensures var w := WalkDir(root, listing);
      w.error.Some? ==>
        (listing.Unlistable? && w.error.value == root && w.trace == []) ||
        (w.trace != [] && w.trace[|w.trace| - 1].kind == DirKind &&
         w.trace[|w.trace| - 1].Path() == w.error.value)
    decreases listing
  {
    if listing.Entries? {
      FailureIsLastDirEntries(root, listing.nodes);
    }
  }

  lemma {:induction false} FailureIsLastDirEntries(root: string, ns: seq<Node>)
    ensures var w := WalkEntries(root, ns);
      w.error.Some? ==>
        w.trace != [] && w.trace[|w.trace| - 1].kind == DirKind &&
        w.trace[|w.trace| - 1].Path() == w.error.value
    decreases ns
  {
    if ns != [] {
      var before := WalkEntries(root, ns[..|ns| - 1]);
      FailureIsLastDirEntries(root, ns[..|ns| - 1]);
      if before.error.None? {
        FailureIsLastDirVisit(root, ns[|ns| - 1]);
      }
    }
  }

  lemma {:induction false} FailureIsLastDirVisit(root: string, n: Node)
    ensures var w := VisitEntry(root, n);
      w.error.Some? ==>
        w.trace != [] && w.trace[|w.trace| - 1].kind == DirKind &&
        w.trace[|w.trace| - 1].Path() == w.error.value
    decreases n
  {
    if n.Dir? {
      FailureIsLastDir(Join(root, n.name), n.listing);
    }
  }

  // ---------------------------------------------------------------------
  // File count

  /** A walk records at most one path per regular-file leaf, and exactly one
      when it completes: `file_count` after a complete walk from a fresh
      walker is the number of files in the tree. */
  lemma {:induction false} FileCountMatchesTree(root: string, listing: Listing)
    ensures var w := WalkDir(root, listing);
      |PathsOf(w.trace, FileKind)| <= ListingFileLeaves(listing) &&
      (w.error.None? ==> |PathsOf(w.trace, FileKind)| == ListingFileLeaves(listing))
    decreases listing
  {
    if listing.Entries? {
      FileCountMatchesTreeEntries(root, listing.nodes);
    }
  }

  lemma {:induction false} FileCountMatchesTreeEntries(root: string, ns: seq<Node>)
    ensures var w := WalkEntries(root, ns);
      |PathsOf(w.trace, FileKind)| <= EntriesFileLeaves(ns) &&
      (w.error.None? ==> |PathsOf(w.trace, FileKind)| == EntriesFileLeaves(ns))
    decreases ns
  {
    if ns != [] {
      var init, n := ns[..|ns| - 1], ns[|ns| - 1];
      EntriesFileLeavesLast(ns);
      FileCountMatchesTreeEntries(root, init);
      var before := WalkEntries(root, init);
      if before.error.None? {
        var last := VisitEntry(root, n);
        FileCountMatchesTreeVisit(root, n);
        PathsOfAppend(before.trace, last.trace, FileKind);
      }
    }
  }

  lemma {:induction false} FileCountMatchesTreeVisit(root: string, n: Node)
    ensures var w := VisitEntry(root, n);
      |PathsOf(w.trace, FileKind)| <= FileLeaves(n) &&
      (w.error.None? ==> |PathsOf(w.trace, FileKind)| == FileLeaves(n))
    decreases n
  {
    match n
    case File(name, _, _) =>
      assert PathsOf([Entry(FileKind, root, name)], FileKind) == [Join(root, name)];
    case Dir(name, listing) =>
      var d := Entry(DirKind, root, name);
      var below := WalkDir(Join(root, name), listing);
      FileCountMatchesTree(Join(root, name), listing);
      PathsOfAppend([d], below.trace, FileKind);
      assert PathsOf([d], FileKind) == [];
    case Other(_) =>
  }

  // ---------------------------------------------------------------------
  // Pre-order

  lemma ParentsFirstAppend(root: string, a: seq<Entry>, b: seq<Entry>)
    requires ParentsFirst(root, a) && ParentsFirst(root, b)
    ensures ParentsFirst(root, a + b)
  {
    var t := a + b;
    forall j | 0 <= j < |t| && t[j].parent != root
      ensures exists i :: 0 <= i < j && t[i].kind == DirKind && t[i].Path() == t[j].parent
    {
      if j < |a| {
        var i :| 0 <= i < j && a[i].kind == DirKind && a[i].Path() == a[j].parent;
        assert t[i] == a[i];
      } else {
        assert t[j] == b[j - |a|];
        var i :| 0 <= i < j - |a| && b[i].kind == DirKind && b[i].Path() == b[j - |a|].parent;
        assert t[i + |a|] == b[i];
      }
    }
  }

  /** Every directory's entry is recorded before anything found inside it. */
  lemma {:induction false} PreOrder(root: string, listing: Listing)
    ensures ParentsFirst(root, WalkDir(root, listing).trace)
    decreases listing
  {
    if listing.Entries? {
      PreOrderEntries(root, listing.nodes);
    }
  }

  lemma {:induction false} PreOrderEntries(root: string, ns: seq<Node>)
    ensures ParentsFirst(root, WalkEntries(root, ns).trace)
    decreases ns
  {
    if ns != [] {
      var before := WalkEntries(root, ns[..|ns| - 1]);
      PreOrderEntries(root, ns[..|ns| - 1]);
      if before.error.None? {
        var last := VisitEntry(root, ns[|ns| - 1]);
        PreOrderVisit(root, ns[|ns| - 1]);
        ParentsFirstAppend(root, before.trace, last.trace);
      }
    }
  }

  lemma {:induction false} PreOrderVisit(root: string, n: Node)
    ensures ParentsFirst(root, VisitEntry(root, n).trace)
    decreases n
  {
    if n.Dir? {
      var d := Entry(DirKind, root, n.name);
      PreOrder(d.Path(), n.listing);
      ParentsFirstBelowDir(root, d, WalkDir(d.Path(), n.listing).trace);
    }
  }

  /** A directory's entry followed by what was found inside it. */
  lemma ParentsFirstBelowDir(root: string, d: Entry, below: seq<Entry>)
    requires d.kind == DirKind && d.parent == root
    requires ParentsFirst(d.Path(), below)
    ensures ParentsFirst(root, [d] + below)
  {
    var t := [d] + below;
    assert t[0] == d;
    forall j | 0 < j < |t|
      ensures t[j].parent == root ||
              exists i :: 0 <= i < j && t[i].kind == DirKind && t[i].Path() == t[j].parent
    {
      var e := below[j - 1];
      assert t[j] == e;
      if e.parent == d.Path() {
        assert t[0].kind == DirKind && t[0].Path() == e.parent;
      } else if e.parent != root {
        var i :| 0 <= i < j - 1 && below[i].kind == DirKind && below[i].Path() == e.parent;
        assert t[i + 1] == below[i];
      }
    }
  }

  // ---------------------------------------------------------------------
  // Skipped entries

  /** Entries that are neither file nor directory record nothing and do not
      stop the walk: the walk is the same as over the listing without them. */
  lemma {:induction false} OthersAreSkipped(root: string, ns: seq<Node>)
    ensures WalkEntries(root, WithoutOthers(ns)) == WalkEntries(root, ns)
  {
    if ns != [] {
      var init, n := ns[..|ns| - 1], ns[|ns| - 1];
      OthersAreSkipped(root, init);
      var kept := WithoutOthers(init);
      if n.Other? {
        assert WithoutOthers(ns) == kept;
        var before := WalkEntries(root, init);
        if before.error.None? {
          assert before.trace + [] == before.trace;
        }
      } else {
        assert (kept + [n])[..|kept + [n]| - 1] == kept;
      }
    }
  }

  // ---------------------------------------------------------------------
  // Distinct paths

  lemma {:induction false} UnderRoot(root: string, listing: Listing)
    requires WellFormedListing(listing)
    ensures forall e :: e in WalkDir(root, listing).trace ==> DirPrefix(root) <= e.Path()
    decreases listing
  {
    if listing.Entries? {
      UnderRootEntries(root, listing.nodes);
    }
  }

  lemma {:induction false} UnderRootEntries(root: string, ns: seq<Node>)
    requires WellFormedEntries(ns)
    ensures forall e :: e in WalkEntries(root, ns).trace ==>
      exists k :: 0 <= k < |ns| && InBranch(root, e.Path(), ns[k].name)
    decreases ns
  {
    if ns != [] {
      var m := |ns| - 1;
      var init := ns[..m];
      assert WellFormedEntries(init) by {
        forall i | 0 <= i < m ensures init[i] == ns[i] { }
      }
      UnderRootEntries(root, init);
      var before := WalkEntries(root, init);
      if before.error.None? {
        var last := VisitEntry(root, ns[m]);
        UnderRootVisit(root, ns[m]);
        forall e | e in before.trace + last.trace
          ensures exists k :: 0 <= k < |ns| && InBranch(root, e.Path(), ns[k].name)
        {
          if e in before.trace {
            var k :| 0 <= k < m && InBranch(root, e.Path(), init[k].name);
            assert init[k] == ns[k];
          } else {
            assert InBranch(root, e.Path(), ns[m].name);
          }
        }
      }
    }
  }

  lemma {:induction false} UnderRootVisit(root: string, n: Node)
    requires WellFormedNode(n)
    ensures forall e :: e in VisitEntry(root, n).trace ==> InBranch(root, e.Path(), n.name)
    decreases n
  {
    match n
    case File(name, _, _) =>
      JoinInBranch(root, name);
    case Dir(name, listing) =>
      var p := Join(root, name);
      UnderRoot(p, listing);
      JoinInBranch(root, name);
      forall e | e in WalkDir(p, listing).trace ensures InBranch(root, e.Path(), name) {
        NestedInBranch(root, name, e.Path());
      }
    case Other(_) =>
  }

  lemma DistinctConcat(a: seq<Entry>, b: seq<Entry>)
    requires DistinctPaths(a) && DistinctPaths(b)
    requires forall x, y :: x in a && y in b ==> x.Path() != y.Path()
    ensures DistinctPaths(a + b)
  {
    var t := a + b;
    forall i, j | 0 <= i < j < |t| ensures t[i].Path() != t[j].Path() {
      if j < |a| {
        assert t[i] == a[i] && t[j] == a[j];
      } else if i < |a| {
        assert t[i] == a[i] && t[j] == b[j - |a|];
      } else {
        assert t[i] == b[i - |a|] && t[j] == b[j - |a|];
      }
    }
  }

  /** In a well-formed tree no path is recorded twice by one walk. */
  lemma {:induction false} PathsAreDistinct(root: string, listing: Listing)
    requires WellFormedListing(listing)
    ensures DistinctPaths(WalkDir(root, listing).trace)
    decreases listing
  {
    if listing.Entries? {
      PathsAreDistinctEntries(root, listing.nodes);
    }
  }

  lemma {:induction false} PathsAreDistinctEntries(root: string, ns: seq<Node>)
    requires WellFormedEntries(ns)
    ensures DistinctPaths(WalkEntries(root, ns).trace)
    decreases ns
  {
    if ns != [] {
      var m := |ns| - 1;
      var init := ns[..m];
      assert WellFormedEntries(init) by {
        forall i | 0 <= i < m ensures init[i] == ns[i] { }
      }
      PathsAreDistinctEntries(root, init);
      var before := WalkEntries(root, init);
      if before.error.None? {
        var last := VisitEntry(root, ns[m]);
        PathsAreDistinctVisit(root, ns[m]);
        UnderRootEntries(root, init);
        UnderRootVisit(root, ns[m]);
        forall x, y | x in before.trace && y in last.trace ensures x.Path() != y.Path() {
          var k :| 0 <= k < m && InBranch(root, x.Path(), init[k].name);
          assert init[k] == ns[k];
        }
        DistinctConcat(before.trace, last.trace);
      }
    }
  }

  lemma {:induction false} PathsAreDistinctVisit(root: string, n: Node)
    requires WellFormedNode(n)
    ensures DistinctPaths(VisitEntry(root, n).trace)
    decreases n
  {
    if n.Dir? {
      var p := Join(root, n.name);
      var d := Entry(DirKind, root, n.name);
      var below := WalkDir(p, n.listing).trace;
      PathsAreDistinct(p, n.listing);
      UnderRoot(p, n.listing);
      assert DirPrefix(p) == p + "/";
      DistinctConcat([d], below);
    }
  }

  /** The files and folders a walk of a well-formed tree records hold no
      repeats and share no path. */
  lemma FilesAndFoldersDisjoint(root: string, listing: Listing)
    requires WellFormedListing(listing)
    ensures var t := WalkDir(root, listing).trace;
      && NoDuplicates(PathsOf(t, FileKind))
      && NoDuplicates(PathsOf(t, DirKind))
      && forall x :: x in PathsOf(t, FileKind) ==> x !in PathsOf(t, DirKind)
  {
    var t := WalkDir(root, listing).trace;
    PathsAreDistinct(root, listing);
    PathsOfDistinct(t, FileKind);
    PathsOfDistinct(t, DirKind);
    forall x | x in PathsOf(t, FileKind) ensures x !in PathsOf(t, DirKind) {
      PathsOfSource(t, FileKind, x);
      var i :| 0 <= i < |t| && t[i].kind == FileKind && t[i].Path() == x;
      PathsOfAbsent(t, DirKind, x);
    }
  }


  // ---------------------------------------------------------------------
  // A worked example

  const ExampleTree: Listing := Entries([
    File("a.jpg", 2048, "JPEG image data"),
    File("b.txt", 10, "ASCII text"),
    Dir("sub", Entries([File("c.jpg", 4096, "JPEG image data")]))])

  /** A root holding two files and a subdirectory with one more file: the
      walk completes and records the three files, in listing order and depth
      first, and the one subdirectory before the file inside it. */
  lemma ExampleWalk()
    ensures WalkDir("/r", ExampleTree) == Walked([Entry(FileKind, "/r", "a.jpg"), Entry(FileKind, "/r", "b.txt"),
                 Entry(DirKind, "/r", "sub"), Entry(FileKind, "/r/sub", "c.jpg")], None)
  {
    var a, b, c := File("a.jpg", 2048, "JPEG image data"), File("b.txt", 10, "ASCII text"),
                   File("c.jpg", 4096, "JPEG image data");
    var sub := Dir("sub", Entries([c]));
    var ns := [a, b, sub];
    var ea, eb := Entry(FileKind, "/r", "a.jpg"), Entry(FileKind, "/r", "b.txt");
    var es, ec := Entry(DirKind, "/r", "sub"), Entry(FileKind, "/r/sub", "c.jpg");
    assert Join("/r", "sub") == "/r/sub";
    assert WalkEntries("/r/sub", [c]) == Walked([ec], None) by { assert [c][..0] == []; }
    assert VisitEntry("/r", sub) == Walked([es, ec], None);
    assert WalkEntries("/r", [a]) == Walked([ea], None) by { assert [a][..0] == []; }
    assert WalkEntries("/r", [a, b]) == Walked([ea, eb], None) by { assert [a, b][..1] == [a]; }
    assert ns[..2] == [a, b];
  }
}
