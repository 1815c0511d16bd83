/**
 * An abstract directory tree: a directory maps entry names to files
 * (their bytes) or to subdirectories. The ghost accounting below is what
 * "nothing is lost" and "nothing is overwritten" are stated with.
 */
module FsTree {

  datatype Node = File(data: seq<bv8>) | Dir(entries: map<string, Node>)

  /** The entries of one directory. */
  type Tree = map<string, Node>

  /** Entry names leading from a fixed directory down to a directory. */
  type Path = seq<string>

  /** A file, identified by the directory it sits in and its bytes. */
  type FileRecord = (Path, seq<bv8>)

  // ---------------------------------------------------------------- file accounting

  /** The files under entry `k`, holding `v`, of a directory at path `p`. */
  ghost function EntryFiles(v: Node, k: string, p: Path): multiset<FileRecord>
    decreases v, 1
  {
    match v
    case File(d) => multiset{(p, d)}
    case Dir(es) => Gather(v, es.Keys, p + [k])
  }

  /** The files under the entries `ks` of directory `n`, which sits at path `p`. */
  ghost function Gather(n: Node, ks: set<string>, p: Path): multiset<FileRecord>
    requires n.Dir? && ks <= n.entries.Keys
    decreases n, 0, ks
  {
    if ks == {} then multiset{}
    else
      var k :| k in ks;
      EntryFiles(n.entries[k], k, p) + Gather(n, ks - {k}, p)
  }

  /** All files below a directory with entries `t` at path `p`. */
  ghost function FilesIn(t: Tree, p: Path): multiset<FileRecord> {
    Gather(Dir(t), t.Keys, p)
  }

  lemma {:induction false} GatherPick(n: Node, ks: set<string>, p: Path, k: string)
    requires n.Dir? && ks <= n.entries.Keys && k in ks
    ensures Gather(n, ks, p) == EntryFiles(n.entries[k], k, p) + Gather(n, ks - {k}, p)
    decreases ks
  {
    var j :| j in ks && Gather(n, ks, p) == EntryFiles(n.entries[j], j, p) + Gather(n, ks - {j}, p);
    if j != k {
      GatherPick(n, ks - {j}, p, k);
      GatherPick(n, ks - {k}, p, j);
      assert ks - {j} - {k} == ks - {k} - {j};
    }
  }

  lemma {:induction false} GatherAgree(n: Node, m: Node, ks: set<string>, p: Path)
    requires n.Dir? && m.Dir? && ks <= n.entries.Keys && ks <= m.entries.Keys
    requires forall k :: k in ks ==> n.entries[k] == m.entries[k]
    ensures Gather(n, ks, p) == Gather(m, ks, p)
    decreases ks
  {
    if ks != {} {
      var k :| k in ks && Gather(n, ks, p) == EntryFiles(n.entries[k], k, p) + Gather(n, ks - {k}, p);
      GatherPick(m, ks, p, k);
      GatherAgree(n, m, ks - {k}, p);
    }
  }

  /** The files of a directory are those of one entry plus those of the rest. */
  lemma FilesInRemove(t: Tree, k: string, p: Path)
    requires k in t
    ensures FilesIn(t, p) == EntryFiles(t[k], k, p) + FilesIn(t - {k}, p)
  {
    GatherPick(Dir(t), t.Keys, p, k);
    assert (t - {k}).Keys == t.Keys - {k};
    GatherAgree(Dir(t), Dir(t - {k}), t.Keys - {k}, p);
  }

  lemma FilesInAdd(t: Tree, k: string, v: Node, p: Path)
    requires k !in t
    ensures FilesIn(t[k := v], p) == EntryFiles(v, k, p) + FilesIn(t, p)
  {
    FilesInRemove(t[k := v], k, p);
    assert t[k := v] - {k} == t;
  }

  lemma FilesInUpdate(t: Tree, k: string, v: Node, p: Path)
    requires k in t
    ensures FilesIn(t[k := v], p) + EntryFiles(t[k], k, p) == FilesIn(t, p) + EntryFiles(v, k, p)
  {
    FilesInRemove(t[k := v], k, p);
    FilesInRemove(t, k, p);
    assert t[k := v] - {k} == t - {k};
  }

  /** Moving files between two collections that are summed up keeps the sum. */
  lemma Rebalance(p: multiset<FileRecord>, x: multiset<FileRecord>, r: multiset<FileRecord>,
                  y: multiset<FileRecord>, q: multiset<FileRecord>, s: multiset<FileRecord>)
    requires p + x == r + y
    requires s + x == q + y
    ensures r + s == p + q && s + r == q + p
  {
    forall o ensures (r + s)[o] == (p + q)[o] && (s + r)[o] == (q + p)[o] {
      assert (p + x)[o] == (r + y)[o];
      assert (s + x)[o] == (q + y)[o];
    }
  }

  /** The files of the submission folders `ks` of a top-level directory. */
  ghost function FolderFiles(top: Tree, ks: set<string>): multiset<FileRecord>
    requires ks <= top.Keys
    decreases ks
  {
    if ks == {} then multiset{}
    else
      var k :| k in ks;
      InFolder(top[k]) + FolderFiles(top, ks - {k})
  }

  /**
   * The files inside a top-level folder, by their path within the folder;
   * a top-level file is not a submission folder and contributes nothing.
   */
  ghost function InFolder(v: Node): multiset<FileRecord> {
    if v.Dir? then FilesIn(v.entries, []) else multiset{}
  }

  /** The files of all submission folders, whatever the folders are called. */
  ghost function SubmissionFiles(top: Tree): multiset<FileRecord> {
    FolderFiles(top, top.Keys)
  }

  lemma {:induction false} FolderFilesPick(top: Tree, ks: set<string>, k: string)
    requires ks <= top.Keys && k in ks
    ensures FolderFiles(top, ks) == InFolder(top[k]) + FolderFiles(top, ks - {k})
    decreases ks
  {
    var j :| j in ks && FolderFiles(top, ks) == InFolder(top[j]) + FolderFiles(top, ks - {j});
    if j != k {
      FolderFilesPick(top, ks - {j}, k);
      FolderFilesPick(top, ks - {k}, j);
      assert ks - {j} - {k} == ks - {k} - {j};
    }
  }

  lemma {:induction false} FolderFilesAgree(top: Tree, other: Tree, ks: set<string>)
    requires ks <= top.Keys && ks <= other.Keys
    requires forall k :: k in ks ==> top[k] == other[k]
    ensures FolderFiles(top, ks) == FolderFiles(other, ks)
    decreases ks
  {
    if ks != {} {
      var k :| k in ks && FolderFiles(top, ks) == InFolder(top[k]) + FolderFiles(top, ks - {k});
      FolderFilesPick(other, ks, k);
      FolderFilesAgree(top, other, ks - {k});
    }
  }

  lemma SubmissionFilesRemove(top: Tree, k: string)
    requires k in top
    ensures SubmissionFiles(top) == InFolder(top[k]) + SubmissionFiles(top - {k})
  {
    FolderFilesPick(top, top.Keys, k);
    assert (top - {k}).Keys == top.Keys - {k};
    FolderFilesAgree(top, top - {k}, top.Keys - {k});
  }

  lemma SubmissionFilesUpdate(top: Tree, k: string, v: Node)
    requires k in top
    ensures SubmissionFiles(top[k := v]) + InFolder(top[k]) == SubmissionFiles(top) + InFolder(v)
  {
    SubmissionFilesRemove(top[k := v], k);
    SubmissionFilesRemove(top, k);
    assert top[k := v] - {k} == top - {k};
  }

  lemma SubmissionFilesAdd(top: Tree, k: string, v: Node)
    requires k !in top
    ensures SubmissionFiles(top[k := v]) == SubmissionFiles(top) + InFolder(v)
  {
    SubmissionFilesRemove(top[k := v], k);
    assert top[k := v] - {k} == top;
  }

  /** Renaming a top-level entry to a free name keeps every submission file. */
  lemma RenamedFolder(top: Tree, k: string, n: string)
    requires k in top && n !in top
    ensures SubmissionFiles((top - {k})[n := top[k]]) == SubmissionFiles(top)
  {
    SubmissionFilesRemove(top, k);
    SubmissionFilesAdd(top - {k}, n, top[k]);
  }

  /** A directory whose entries are all files. */
  predicate FilesOnly(v: Node) {
    v.Dir? && forall k :: k in v.entries ==> v.entries[k].File?
  }

  // ---------------------------------------------------------------- growth only

  /**
   * `y` is `x` with possibly more entries: every file of `x` is still
   * there with the same bytes, and every directory keeps all its names.
   */
  ghost predicate Extends(x: Node, y: Node)
    decreases x
  {
    match x
    case File(_) => y == x
    case Dir(es) =>
      y.Dir? && es.Keys <= y.entries.Keys && forall k :: k in es ==> Extends(es[k], y.entries[k])
  }

  lemma {:induction false} ExtendsRefl(x: Node)
    ensures Extends(x, x)
    decreases x
  {
    if x.Dir? {
      forall k | k in x.entries ensures Extends(x.entries[k], x.entries[k]) {
        ExtendsRefl(x.entries[k]);
      }
    }
  }

  lemma {:induction false} ExtendsTrans(x: Node, y: Node, z: Node)
    requires Extends(x, y) && Extends(y, z)
    ensures Extends(x, z)
    decreases x
  {
    if x.Dir? {
      forall k | k in x.entries ensures Extends(x.entries[k], z.entries[k]) {
        ExtendsTrans(x.entries[k], y.entries[k], z.entries[k]);
      }
    }
  }

  /** Growth keeps every file: the files under `x` are among those under `y`. */
  lemma {:induction false} ExtendsFiles(x: Node, y: Node, k: string, p: Path)
    requires Extends(x, y)
    ensures EntryFiles(x, k, p) <= EntryFiles(y, k, p)
    decreases x, 1
  {
    if x.Dir? {
      GatherExtends(x, y, x.entries.Keys, p + [k]);
      GatherGrows(y, x.entries.Keys, y.entries.Keys, p + [k]);
    }
  }

  lemma {:induction false} GatherExtends(x: Node, y: Node, ks: set<string>, p: Path)
    requires x.Dir? && Extends(x, y) && ks <= x.entries.Keys
    ensures Gather(x, ks, p) <= Gather(y, ks, p)
    decreases x, 0, ks
  {
    if ks != {} {
      var k :| k in ks && Gather(x, ks, p) == EntryFiles(x.entries[k], k, p) + Gather(x, ks - {k}, p);
      GatherPick(y, ks, p, k);
      ExtendsFiles(x.entries[k], y.entries[k], k, p);
      GatherExtends(x, y, ks - {k}, p);
    }
  }

  /** More entries of one directory hold more files. */
  lemma {:induction false} GatherGrows(n: Node, ks: set<string>, js: set<string>, p: Path)
    requires n.Dir? && ks <= js <= n.entries.Keys
    ensures Gather(n, ks, p) <= Gather(n, js, p)
    decreases js
  {
    if ks != js {
      assert exists k :: k in js && k !in ks;
      var k :| k in js && k !in ks;
      GatherPick(n, js, p, k);
      GatherGrows(n, ks, js - {k}, p);
    }
  }

  /** A submission folder that only grows keeps all its files. */
  lemma InFolderExtends(x: Node, y: Node)
    requires Extends(x, y)
    ensures InFolder(x) <= InFolder(y)
  {
    if x.Dir? {
      GatherExtends(x, y, x.entries.Keys, []);
      GatherGrows(y, x.entries.Keys, y.entries.Keys, []);
    }
  }

  /** Adding an entry under a new name, or growing one entry, is growth. */
  lemma ExtendsUpdate(t: Tree, k: string, v: Node)
    requires k in t ==> Extends(t[k], v)
    ensures Extends(Dir(t), Dir(t[k := v]))
  {
    forall j | j in t ensures Extends(t[j], t[k := v][j]) {
      if j != k {
        ExtendsRefl(t[j]);
      }
    }
  }

  // ---------------------------------------------------------------- empty skeletons

  /** A directory holding directories only, at every depth. */
  ghost predicate Hollow(n: Node)
    decreases n
  {
    n.Dir? && forall k :: k in n.entries ==> Hollow(n.entries[k])
  }

  lemma {:induction false} HollowGather(n: Node, ks: set<string>, p: Path)
    requires Hollow(n) && ks <= n.entries.Keys
    ensures Gather(n, ks, p) == multiset{}
    decreases n, ks
  {
    if ks != {} {
      var k :| k in ks && Gather(n, ks, p) == EntryFiles(n.entries[k], k, p) + Gather(n, ks - {k}, p);
      var c := n.entries[k];
      assert c.Dir?;
      assert EntryFiles(c, k, p) == Gather(c, c.entries.Keys, p + [k]);
      HollowGather(c, c.entries.Keys, p + [k]);
      HollowGather(n, ks - {k}, p);
    }
  }

  /** A hollow directory holds no files. */
  lemma HollowNoFiles(t: Tree, p: Path)
    requires Hollow(Dir(t))
    ensures FilesIn(t, p) == multiset{}
  {
    HollowGather(Dir(t), t.Keys, p);
  }
}
