/** POSIX path strings as the walker builds them: `os.path.join` of a
    directory path and one entry name returned by `listdir`. */
module Paths {

  /** An entry name as `listdir` returns it: never empty, never holding
      the separator. */
  predicate ValidName(name: string)
  {
    name != [] && '/' !in name
  }

  /** The text that `Join(root, name)` puts in front of a relative name:
      the root itself when it is empty or already ends with a separator,
      otherwise the root followed by one separator. */
  function DirPrefix(root: string): (d: string)
    ensures root <= d
    ensures d != [] ==> d[|d| - 1] == '/'
    ensures |d| <= |root| + 1
  {
    if root == [] || root[|root| - 1] == '/' then root else root + "/"
  }

  /** `posixpath.join(root, name)`: an absolute name replaces the root;
      otherwise exactly one separator stands between root and name. */
  function Join(root: string, name: string): (p: string)
    ensures ValidName(name) ==> p == DirPrefix(root) + name
    ensures ValidName(name) ==> p != [] && p[|p| - 1] != '/'
    ensures name != [] && name[0] == '/' ==> p == name
  {
    if name != [] && name[0] == '/' then name
    else if root == [] || root[|root| - 1] == '/' then root + name
    else root + "/" + name
  }

  /** The leading part of `s` up to (not including) its first separator. */
  function Segment(s: string): (seg: string)
    ensures seg <= s
    ensures '/' !in seg
    ensures |seg| < |s| ==> s[|seg|] == '/'
  {
    if s == [] || s[0] == '/' then [] else [s[0]] + Segment(s[1..])
  }

  /** A separator-free name followed by nothing or by a separator is
      recovered as the first segment: the name a path was joined from can
      be read back from it. */
  lemma {:induction false} SegmentOfName(name: string, rest: string)
    requires '/' !in name
    requires rest == [] || rest[0] == '/'
    ensures Segment(name + rest) == name
  {
    if name == [] {
      assert name + rest == rest;
    } else {
      assert (name + rest)[1..] == name[1..] + rest;
      SegmentOfName(name[1..], rest);
    }
  }

  /** `path` lies below `root` in the branch of its entry `name`: it starts
      with the root's prefix, and its first segment after that is `name`. */
  predicate InBranch(root: string, path: string, name: string)
  {
    DirPrefix(root) <= path && Segment(path[|DirPrefix(root)|..]) == name
  }

  /** An entry's own joined path lies in its branch. Dafny can find this
      proof itself; the steps written out halve its cost. */
  lemma JoinInBranch(root: string, name: string)
    requires ValidName(name)
    ensures InBranch(root, Join(root, name), name)
  {
    var pre := DirPrefix(root);
    assert (pre + name)[|pre|..] == name;
    SegmentOfName(name, []);
    assert name + [] == name;
  }

  /** Anything below a joined directory path lies in that entry's branch.
      As for `JoinInBranch`, the written steps cut the search roughly by
      half and keep it well inside the resource limit on every seed. */
  lemma NestedInBranch(root: string, name: string, path: string)
    requires ValidName(name)
    requires DirPrefix(Join(root, name)) <= path
    ensures InBranch(root, path, name)
  {
    var pre, p := DirPrefix(root), Join(root, name);
    assert DirPrefix(p) == p + "/";
    var rest := path[|p|..];
    assert path == pre + name + rest;
    assert path[|pre|..] == name + rest;
    SegmentOfName(name, rest);
  }

  /** Joining two different entry names to the same directory gives two
      different paths, since each name is read back from its path. */
  lemma JoinDistinct(root: string, a: string, b: string)
    requires ValidName(a) && ValidName(b) && a != b
    ensures Join(root, a) != Join(root, b)
  {
    JoinInBranch(root, a);
    JoinInBranch(root, b);
  }
}
