/** The walker and the photo classifier of photobase.py.

    `Spider` keeps the append-only lists of discovered file and directory
    paths and walks a tree depth-first, firing its hooks at each node.
    `PhotoSpider` differs from it only in its file hook, which builds a
    record of the file's sniffed type and size and, for JPEG content, merges
    in the fields of the JPEG handler. Dafny has no subclassing here, so the
    one `Spider` class carries which of the two hook sets it was built with. */
module Photobase {
  import opened Wrappers
  import opened Paths
  import opened FsTree
  import opened Traversal

  // -----------------------------------------------------------------------
  // Records built by PhotoSpider

  /** A record value: the source's dict holds strings and integers. */
  datatype Value = Text(text: string) | Number(number: int)

  type Record = map<string, Value>

  const FileTypeKey: string := "file type"
  const FileSizeKey: string := "file size"
  const JpegTag: string := "JPEG"

  /** `handle_jpeg`: the fields a JPEG file contributes, which are only the
      normalised type tag. */
  function HandleJpeg(filename: string): (fields: Record)
    ensures fields.Keys == {FileTypeKey}
    ensures fields[FileTypeKey] == Text(JpegTag)
  {
    map[FileTypeKey := Text(JpegTag)]
  }

  /** `PhotoSpider.visit_file`: `fileType` is what the content sniffer says
      of the file's bytes and `size` its stat size. The JPEG handler's
      fields win on a clash, so a JPEG file's type is normalised to "JPEG";
      every other type is kept raw. The size always survives. */
  method PhotoVisitFile(filename: string, fileType: string, size: nat) returns (record: Record)
    ensures record.Keys == {FileTypeKey, FileSizeKey}
    ensures JpegTag <= fileType ==> record[FileTypeKey] == Text(JpegTag)
    ensures !(JpegTag <= fileType) ==> record[FileTypeKey] == Text(fileType)
    ensures record[FileSizeKey] == Number(size)
  {
    record := map[];
    record := record[FileTypeKey := Text(fileType)];
    record := record[FileSizeKey := Number(size)];
    if JpegTag <= fileType {
      record := record + HandleJpeg(filename);
    }
  }

  // -----------------------------------------------------------------------
  // The walker

  /** Which class's hooks a walker runs. */
  datatype Hooks = SpiderHooks | PhotoSpiderHooks

  class Spider {
    const hooks: Hooks
    var files: seq<string>
    var folders: seq<string>

    /** The root given to the constructor is not stored. */
    constructor (root: string, hooks: Hooks)
      ensures this.hooks == hooks
      ensures files == [] && folders == []
    {
      this.hooks := hooks;
      files := [];
      folders := [];
    }

    /** `file_count`: the number of file paths recorded so far. */
    method FileCount() returns (count: nat)
      ensures count == |files|
    {
      count := |files|;
    }

    /** `visit_dir`: a no-op in both classes. */
    method VisitDir(directory: string)
      ensures unchanged(this)
    {
    }

    /** `visit_file`: the plain walker only reports the file; the photo
        walker builds its record and hands it to the log, which is what it
        returns here. Neither changes the walker. */
    method VisitFile(filename: string, fileType: string, size: nat) returns (logged: Option<Record>)
      ensures hooks == SpiderHooks ==> logged.None?
      ensures hooks == PhotoSpiderHooks ==>
        && logged.Some?
        && logged.value.Keys == {FileTypeKey, FileSizeKey}
        && logged.value[FileTypeKey] == Text(if JpegTag <= fileType then JpegTag else fileType)
        && logged.value[FileSizeKey] == Number(size)
    {
      if hooks == PhotoSpiderHooks {
        var record := PhotoVisitFile(filename, fileType, size);
        logged := Some(record);
      } else {
        logged := None;
      }
    }

    /** `spider(root)`: `listing` is what listing `root` gives. The lists
        grow by exactly the walk's recorded files and directories, in walk
        order, and keep their earlier contents as a prefix. A listing
        failure anywhere is returned as the path that could not be listed;
        what was appended up to it stays. */
    method Walk(root: string, listing: Listing) returns (error: Option<string>)
      modifies this
      ensures var w := WalkDir(root, listing);
        && error == w.error
        && files == old(files) + PathsOf(w.trace, FileKind)
        && folders == old(folders) + PathsOf(w.trace, DirKind)
      decreases listing, 1
    {
      match listing {
        case Unlistable =>
          error := Some(root);
        case Entries(contents) =>
          var i := 0;
          while i < |contents|
            invariant 0 <= i <= |contents|
            invariant WalkEntries(root, contents[..i]).error == None
            invariant files == old(files) + PathsOf(WalkEntries(root, contents[..i]).trace, FileKind)
            invariant folders == old(folders) + PathsOf(WalkEntries(root, contents[..i]).trace, DirKind)
          {
            ghost var done := WalkEntries(root, contents[..i]).trace;
            ghost var visited := VisitEntry(root, contents[i]).trace;
            WalkEntriesStep(root, contents, i);
            var failed := Visit(root, contents[i]);
            Reassociate(old(files), PathsOf(done, FileKind), PathsOf(visited, FileKind));
            Reassociate(old(folders), PathsOf(done, DirKind), PathsOf(visited, DirKind));
            if failed.Some? {
              AbortIsFinal(root, contents, i + 1);
              return failed;
            }
            i := i + 1;
          }
          assert contents[..i] == contents;
          error := None;
      }
    }

    /** The body of the loop in `spider`, for one entry of the listing: a
        regular file is appended to `files` and its hook fired; a directory
        is appended to `folders`, its hook fired, and then walked; anything
        else is only reported. */
    method Visit(root: string, entry: Node) returns (error: Option<string>)
      modifies this
      ensures var v := VisitEntry(root, entry);
        && error == v.error
        && files == old(files) + PathsOf(v.trace, FileKind)
        && folders == old(folders) + PathsOf(v.trace, DirKind)
      decreases entry, 0
    {
      var path := Join(root, entry.name);
      VisitPaths(root, entry);
      match entry {
        case File(_, size, fileType) =>
          files := files + [path];
          var _ := VisitFile(path, fileType, size);
          error := None;
        case Dir(_, sub) =>
          folders := folders + [path];
          VisitDir(path);
          error := Walk(path, sub);
          Reassociate(old(folders), [path], PathsOf(WalkDir(path, sub).trace, DirKind));
        case Other(_) =>
          error := None;
      }
    }
  }

  /** Regrouping an append of two parts. Dafny knows this fact, but without
      the call in `Walk` and `Visit` it does not find the regrouping in time
      and `Walk` runs out of resource; with it `Walk` needs about 0.3M. */
  lemma Reassociate(a: seq<string>, b: seq<string>, c: seq<string>)
    ensures (a + b) + c == a + (b + c)
  {
  }

  /** Two walks of the same tree by one fresh walker: nothing is reset in
      between, so every recorded path is recorded twice and a tree holding
      any file leaves duplicates behind. */
  method WalkTwice(root: string, listing: Listing) returns (files: seq<string>, folders: seq<string>)
    ensures var w := WalkDir(root, listing);
      w.error.None? ==>
        && files == PathsOf(w.trace, FileKind) + PathsOf(w.trace, FileKind)
        && folders == PathsOf(w.trace, DirKind) + PathsOf(w.trace, DirKind)
    ensures WalkDir(root, listing).error.None? && ListingFileLeaves(listing) > 0 ==> !NoDuplicates(files)
  {
    var spider := new Spider(root, SpiderHooks);
    var error := spider.Walk(root, listing);
    if error.None? {
      error := spider.Walk(root, listing);
    }
    files, folders := spider.files, spider.folders;
    var w := WalkDir(root, listing);
    if w.error.None? && ListingFileLeaves(listing) > 0 {
      FileCountMatchesTree(root, listing);
      var once := PathsOf(w.trace, FileKind);
      assert files[0] == files[|once|];
    }
  }

}
