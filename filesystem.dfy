/**
 * An abstract directory tree standing in for the file system the scripts
 * list. Each entry is what `is_file()` and `is_dir()` say about it; names
 * inside one directory are unique because a directory is a map.
 */
module Filesystem {
  import opened Wrappers

  /** `File`: `is_file()` holds; `Dir`: `is_dir()` holds; `Other`: neither. */
  datatype Node = File | Other | Dir(entries: map<string, Node>)

  /** The node reached from `node` by following the names of `path`, if any. */
  function Lookup(node: Node, path: seq<string>): Option<Node>
  {
    if path == [] then Some(node)
    else if node.Dir? && path[0] in node.entries then Lookup(node.entries[path[0]], path[1..])
    else None
  }

  /**
   * `[p for p in root.rglob("*") if p.is_file()]`, each path given as its
   * list of names relative to `root`: every file at any depth below it,
   * hidden names included.
   */
  function FilesUnder(root: Node): (r: set<seq<string>>)
    ensures forall p :: p in r ==> |p| >= 1
  {
    if !root.Dir? then {}
    else
      (set n | n in root.entries && root.entries[n].File? :: [n]) +
      (set n, p | n in root.entries && p in FilesUnder(root.entries[n]) :: [n] + p)
  }

  /** A path is listed exactly when it leads from `root` to a file. */
  lemma {:induction false} FilesUnderIsFilesBelow(root: Node, p: seq<string>)
    ensures p in FilesUnder(root) <==> |p| >= 1 && Lookup(root, p) == Some(File)
    decreases root
  {
    if |p| >= 1 && root.Dir? && p[0] in root.entries {
      var n, rest := p[0], p[1..];
      var child := root.entries[n];
      assert p == [n] + rest;
      FilesUnderIsFilesBelow(child, rest);
      var files := set m | m in root.entries && root.entries[m].File? :: [m];
      var deeper := set m, q | m in root.entries && q in FilesUnder(root.entries[m]) :: [m] + q;
      assert p in files <==> rest == [] && child.File? by {
        if rest == [] && child.File? {
          assert p == [n];
          assert [n] in files;
        }
        if p in files {
          var m :| m in root.entries && root.entries[m].File? && p == [m];
          assert m == n && |p| == 1;
          assert rest == [];
        }
      }
      assert p in deeper <==> rest in FilesUnder(child) by {
        if rest in FilesUnder(child) { assert [n] + rest in deeper; }
      }
    }
  }
}
