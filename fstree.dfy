/** The filesystem the walker sees, as an abstract tree.

    Each entry of a directory is what `isfile`/`isdir` make of it: a regular
    file (with its byte size and the description the content-type sniffer
    gives of its bytes), a directory (whose listing may fail), or anything
    else (a dangling link, a socket, a device node). The order of a
    directory's entries is the order `listdir` returns them in. */
module FsTree {
  import opened Paths

  datatype Node =
    | File(name: string, size: nat, fileType: string)
    | Dir(name: string, listing: Listing)
    | Other(name: string)

  /** The outcome of `listdir` on a directory: its entries, or an error
      (missing, not a directory, permission denied). */
  datatype Listing = Entries(nodes: seq<Node>) | Unlistable

  /** Names are as `listdir` returns them and siblings have distinct names,
      as in any real directory. */
  predicate WellFormedNode(n: Node)
    decreases n
  {
    ValidName(n.name) && (n.Dir? ==> WellFormedListing(n.listing))
  }

  predicate WellFormedListing(l: Listing)
    decreases l
  {
    l.Entries? ==> WellFormedEntries(l.nodes)
  }

  predicate WellFormedEntries(ns: seq<Node>)
    decreases ns
  {
    && (forall i, j :: 0 <= i < j < |ns| ==> ns[i].name != ns[j].name)
    && (forall i :: 0 <= i < |ns| ==> WellFormedNode(ns[i]))
  }

  /** The number of regular-file leaves reachable through listable
      directories: the reference count for `file_count`. */
  function FileLeaves(n: Node): nat
    decreases n
  {
    match n
    case File(_, _, _) => 1
    case Dir(_, l) => ListingFileLeaves(l)
    case Other(_) => 0
  }

  function ListingFileLeaves(l: Listing): nat
    decreases l
  {
    match l
    case Entries(ns) => EntriesFileLeaves(ns)
    case Unlistable => 0
  }

  function EntriesFileLeaves(ns: seq<Node>): nat
    decreases ns
  {
    if ns == [] then 0 else FileLeaves(ns[0]) + EntriesFileLeaves(ns[1..])
  }

  /** Counting from the front and counting up to the last entry agree. */
  lemma {:induction false} EntriesFileLeavesLast(ns: seq<Node>)
    requires ns != []
    ensures EntriesFileLeaves(ns) == EntriesFileLeaves(ns[..|ns| - 1]) + FileLeaves(ns[|ns| - 1])
  {
    if |ns| > 1 {
      assert ns[1..][..|ns[1..]| - 1] == ns[..|ns| - 1][1..];
      EntriesFileLeavesLast(ns[1..]);
    } else {
      assert ns[..|ns| - 1] == [];
    }
  }

}
