/**
 * merge_folder_contents of the name-matching scripts: fold a source
 * directory into a destination directory. Colliding files are renamed to
 * the first free `base_N.ext`; a subdirectory whose name already exists in
 * the destination is merged into recursively and left behind in the
 * source; any other subdirectory is moved whole.
 */
module MergeEngine {
  import opened PyText
  import opened FsTree

  // ---------------------------------------------------------------- the free-name loop

  /** The n-th name tried for a moved file: the name itself, then f"{base}_{n}{ext}". */
  function NumberedName(item: string, n: nat): string {
    if n == 0 then item
    else
      var (base, ext) := SplitExt(item);
      base + "_" + Decimal(n) + ext
  }

  /** Different counters give different names. */
  lemma NumberedNameInjective(item: string, m: nat, n: nat)
    ensures NumberedName(item, m) == NumberedName(item, n) ==> m == n
  {
    var (base, ext) := SplitExt(item);
    if m == 0 && n != 0 {
      assert |NumberedName(item, n)| > |item|;
    } else if n == 0 && m != 0 {
      assert |NumberedName(item, m)| > |item|;
    } else if m != 0 && n != 0 && NumberedName(item, m) == NumberedName(item, n) {
      var x := NumberedName(item, m);
      var dm, dn := Decimal(m), Decimal(n);
      assert |dm| == |dn|;
      var lo := |base| + 1;
      assert x[lo..lo + |dm|] == dm;
      assert NumberedName(item, n)[lo..lo + |dn|] == dn;
      DecimalInjective(m, n);
    }
  }

  /** The first `n` names tried. */
  function Tried(item: string, n: nat): set<string> {
    set j | 0 <= j < n :: NumberedName(item, j)
  }

  lemma {:induction false} TriedSize(item: string, n: nat)
    ensures |Tried(item, n)| == n
  {
    if n > 0 {
      TriedSize(item, n - 1);
      assert Tried(item, n) == Tried(item, n - 1) + {NumberedName(item, n - 1)};
      if NumberedName(item, n - 1) in Tried(item, n - 1) {
        var j :| 0 <= j < n - 1 && NumberedName(item, j) == NumberedName(item, n - 1);
        NumberedNameInjective(item, j, n - 1);
      }
    }
  }

  /** All names tried so far are taken, so there are no more of them than taken names. */
  lemma TriedBound(item: string, taken: set<string>, n: nat)
    requires forall j :: 0 <= j < n ==> NumberedName(item, j) in taken
    ensures n <= |taken|
  {
    TriedSize(item, n);
    assert Tried(item, n) <= taken;
    assert |Tried(item, n)| <= |taken| by {
      var extra := taken - Tried(item, n);
      assert taken == Tried(item, n) + extra;
    }
  }

  /**
   * The `while os.path.exists(dst_path)` loop: the first of `item`,
   * `base_1ext`, `base_2ext`, ... that is not taken. It always ends, since
   * the names tried are all different and only finitely many are taken.
   */
  method FreeName(item: string, taken: set<string>) returns (name: string, ghost n: nat)
    ensures name == NumberedName(item, n) && name !in taken
    ensures forall j :: 0 <= j < n ==> NumberedName(item, j) in taken
  {
    var (base, ext) := SplitExt(item);
    name := item;
    var counter := 1;
    while name in taken
      invariant counter >= 1
      invariant name == NumberedName(item, counter - 1)
      invariant forall j :: 0 <= j < counter - 1 ==> NumberedName(item, j) in taken
      decreases |taken| - (counter - 1)
    {
      TriedBound(item, taken, counter);
      name := base + "_" + Decimal(counter) + ext;
      counter := counter + 1;
    }
    n := counter - 1;
  }

  // ---------------------------------------------------------------- the log

  /**
   * One line of the log file. Paths run from the target directory down:
   * a submission folder's name first.
   */
  datatype LogEntry =
    | MergeHeader(item: string, target: string)
    | Skipped(item: string, extracted: string)
    | RecursiveMerge(from: Path, to: Path)
    | MovedFolder(from: Path, to: Path)
    | MovedFile(from: Path, to: Path)

  /** A line written by merge_folder_contents between `srcPath` and `dstPath`. */
  predicate Below(e: LogEntry, srcPath: Path, dstPath: Path) {
    && (e.RecursiveMerge? || e.MovedFolder? || e.MovedFile?)
    && |e.from| > |srcPath| && e.from[..|srcPath|] == srcPath
    && |e.to| > |dstPath| && e.to[..|dstPath|] == dstPath
  }

  /** What is left of a source entry: nothing once moved, else the node. */
  ghost function Leftover(left: Option<Node>, k: string, rel: Path): multiset<FileRecord> {
    if left.None? then multiset{} else EntryFiles(left.value, k, rel)
  }

  /** The source directory once entry `k` has been handled, leaving `left`. */
  function Remaining(t: Tree, k: string, left: Option<Node>): Tree {
    if left.None? then t - {k} else t[k := left.value]
  }

  lemma SourceStep(t: Tree, k: string, left: Option<Node>, rel: Path)
    requires k in t
    ensures FilesIn(Remaining(t, k, left), rel) + EntryFiles(t[k], k, rel) == FilesIn(t, rel) + Leftover(left, k, rel)
  {
    if left.None? {
      FilesInRemove(t, k, rel);
    } else {
      FilesInUpdate(t, k, left.value, rel);
    }
  }

  // ---------------------------------------------------------------- the merge

  /**
   * Merging the non-empty directory `v` into `w` meets a file: `w` is a
   * file, or some entry of `v` meets a file when merged into the entry of
   * `w` with the same name. This is the only way a move raises.
   */
  ghost predicate MeetsFile(v: Node, w: Node)
    decreases v
  {
    && v.Dir? && v.entries != map[]
    && (|| w.File?
        || (w.Dir? && exists k :: k in v.entries && k in w.entries && MeetsFile(v.entries[k], w.entries[k])))
  }

  /**
   * One entry `item` (holding `v`) of the source directory, handled as the
   * body of the listing loop does. `left` is what stays in the source under
   * `item`; `ok` is false when a move would raise. For a file, `name` is
   * the name it was moved to, the `n`-th one tried.
   */
  method MergeEntry(item: string, v: Node, dst: Tree, srcPath: Path, dstPath: Path, ghost rel: Path)
    returns (left: Option<Node>, dst': Tree, log: seq<LogEntry>, ok: bool, name: string, ghost n: nat)
    decreases v, 2
    ensures Extends(Dir(dst), Dir(dst'))
    ensures forall k :: k in dst && k != item ==> k in dst' && dst'[k] == dst[k]
    ensures FilesIn(dst, rel) + EntryFiles(v, item, rel) == FilesIn(dst', rel) + Leftover(left, item, rel)
    ensures |log| >= 1 && (log[0].RecursiveMerge? || log[0].MovedFolder? || log[0].MovedFile?)
    ensures log[0].from == srcPath + [item] && |log[0].to| > |dstPath| && log[0].to[..|dstPath|] == dstPath
    ensures forall i :: 1 <= i < |log| ==> Below(log[i], srcPath + [item], dstPath + [item])
    ensures v.File? ==>
      && ok && left.None? && name !in dst && dst' == dst[name := v]
      && name == NumberedName(item, n) && (forall j :: 0 <= j < n ==> NumberedName(item, j) in dst)
      && log == [MovedFile(srcPath + [item], dstPath + [name])]
    ensures v.Dir? && item !in dst ==>
      ok && left.None? && dst' == dst[item := v] && log == [MovedFolder(srcPath + [item], dstPath + [item])]
    ensures v.Dir? && item in dst ==>
      && left.Some? && left.value.Dir? && log[0] == RecursiveMerge(srcPath + [item], dstPath + [item])
      && (ok ==> Hollow(left.value))
      && dst'.Keys == dst.Keys
      && (dst[item].File? ==> dst' == dst && left.value == v && (ok <==> v.entries == map[]))
    // a move raises only where a non-empty subdirectory meets a file of the destination
    ensures !ok ==> v.Dir? && v.entries != map[] && item in dst && left.Some? && item in dst' && MeetsFile(v, dst'[item])
  {
    name, n := item, 0;
    match v
    case File(_) =>
      name, n := FreeName(item, dst.Keys);
      dst' := dst[name := v];
      left, ok := None, true;
      log := [MovedFile(srcPath + [item], dstPath + [name])];
      AddedEntry(dst, name, v, item, rel);
    case Dir(es) =>
      if item !in dst {
        // shutil.move of the whole subtree
        dst' := dst[item := v];
        left, ok := None, true;
        log := [MovedFolder(srcPath + [item], dstPath + [item])];
        AddedEntry(dst, item, v, item, rel);
      } else if dst[item].File? {
        // merging into a file: the first move out of `es` raises
        dst', left, ok := dst, Some(v), es == map[];
        log := [RecursiveMerge(srcPath + [item], dstPath + [item])];
        ExtendsRefl(Dir(dst));
        if ok {
          assert Hollow(v);
        }
      } else {
        left, dst', log, ok := MergeSubfolder(item, es, dst, srcPath, dstPath, rel);
      }
  }

  /**
   * The "Recursively merging folder" case of `MergeEntry`: the source
   * directory `item`, holding `es`, meets a directory of the same name in
   * the destination; its contents are merged into it, and what the merge
   * leaves stays behind under `item`.
   */
  method MergeSubfolder(item: string, es: Tree, dst: Tree, srcPath: Path, dstPath: Path, ghost rel: Path)
    returns (left: Option<Node>, dst': Tree, log: seq<LogEntry>, ok: bool)
    requires item in dst && dst[item].Dir?
    decreases Dir(es), 1
    ensures Extends(Dir(dst), Dir(dst')) && dst'.Keys == dst.Keys
    ensures forall k :: k in dst && k != item ==> dst'[k] == dst[k]
    ensures FilesIn(dst, rel) + EntryFiles(Dir(es), item, rel) == FilesIn(dst', rel) + Leftover(left, item, rel)
    ensures left.Some? && left.value.Dir? && (ok ==> Hollow(left.value))
    ensures |log| >= 1 && log[0] == RecursiveMerge(srcPath + [item], dstPath + [item])
    ensures forall i :: 1 <= i < |log| ==> Below(log[i], srcPath + [item], dstPath + [item])
    // a move raises only where a non-empty subdirectory meets a file of the destination
    ensures !ok ==> es != map[] && MeetsFile(Dir(es), dst'[item])
  {
    var target := dst[item].entries;
    var s2, d2, l2, ok2, _ := MergeFolderContents(es, target, srcPath + [item], dstPath + [item], rel + [item]);
    dst' := dst[item := Dir(d2)];
    left, ok := Some(Dir(s2)), ok2;
    log := [RecursiveMerge(srcPath + [item], dstPath + [item])] + l2;
    assert forall i :: 1 <= i < |log| ==> log[i] == l2[i - 1];
    MergedEntry(dst, item, es, s2, d2, rel);
    if !ok {
      ghost var k :| k in es && k in d2 && MeetsFile(es[k], d2[k]);
      assert MeetsFile(Dir(es), dst'[item]);
    }
  }

  /** Moving a file, or a directory under its own name, to a free name of the destination. */
  lemma AddedEntry(dst: Tree, k: string, v: Node, item: string, rel: Path)
    requires k !in dst && (v.File? || k == item)
    ensures Extends(Dir(dst), Dir(dst[k := v]))
    ensures FilesIn(dst, rel) + EntryFiles(v, item, rel) == FilesIn(dst[k := v], rel) + Leftover(None, item, rel)
  {
    FilesInAdd(dst, k, v, rel);
    assert EntryFiles(v, k, rel) == EntryFiles(v, item, rel);
    ExtendsUpdate(dst, k, v);
  }

  /** Merging a source directory `es` into the destination's directory `item`. */
  lemma MergedEntry(dst: Tree, item: string, es: Tree, s2: Tree, d2: Tree, rel: Path)
    requires item in dst && dst[item].Dir?
    requires FilesIn(s2, rel + [item]) + FilesIn(d2, rel + [item]) ==
             FilesIn(es, rel + [item]) + FilesIn(dst[item].entries, rel + [item])
    requires Extends(dst[item], Dir(d2))
    ensures Extends(Dir(dst), Dir(dst[item := Dir(d2)]))
    ensures FilesIn(dst, rel) + EntryFiles(Dir(es), item, rel) ==
            FilesIn(dst[item := Dir(d2)], rel) + Leftover(Some(Dir(s2)), item, rel)
  {
    var target := dst[item].entries;
    assert EntryFiles(dst[item], item, rel) == FilesIn(target, rel + [item]);
    assert EntryFiles(Dir(es), item, rel) == FilesIn(es, rel + [item]);
    assert EntryFiles(Dir(s2), item, rel) == FilesIn(s2, rel + [item]);
    assert EntryFiles(Dir(d2), item, rel) == FilesIn(d2, rel + [item]);
    FilesInUpdate(dst, item, Dir(d2), rel);
    Rebalance(FilesIn(s2, rel + [item]), FilesIn(d2, rel + [item]),
              FilesIn(es, rel + [item]), FilesIn(target, rel + [item]),
              FilesIn(dst[item := Dir(d2)], rel), FilesIn(dst, rel));
    ExtendsUpdate(dst, item, Dir(d2));
  }

  /**
   * A file of the source that went to the destination under the `n`-th
   * name tried, which was free; the names tried before it were taken.
   */
  ghost predicate Placed(k: string, v: Node, dst: Tree, dst': Tree, n: nat) {
    && NumberedName(k, n) !in dst && NumberedName(k, n) in dst' && dst'[NumberedName(k, n)] == v
    && (forall j :: 0 <= j < n ==> NumberedName(k, j) in dst')
  }

  /**
   * What holds while merge_folder_contents(src, dst) is part way through
   * its listing: `pending` entries are still to be handled, `s` and `d` are
   * the source and destination so far, `log` the lines written so far.
   */
  ghost predicate Merging(src: Tree, dst: Tree, srcPath: Path, dstPath: Path, rel: Path, pending: set<string>,
                          s: Tree, d: Tree, log: seq<LogEntry>, ok: bool, placed: map<string, nat>)
  {
    && MergingKeys(src, dst, rel, pending, s, d)
    && MergingDirs(src, dst, pending, s, d, ok)
    && MergingFiles(src, dst, s, d, placed)
    && MergingLog(srcPath, dstPath, pending, s, log, ok)
    && MergingStops(src, pending, s, d, ok)
    && MergingNew(src, dst, s, d, placed)
  }

  /** Entries still pending are untouched; the destination only grows; no file is lost. */
  ghost predicate MergingKeys(src: Tree, dst: Tree, rel: Path, pending: set<string>, s: Tree, d: Tree) {
    && pending <= src.Keys && s.Keys <= src.Keys
    && (forall k :: k in pending ==> k in s && s[k] == src[k])
    && Extends(Dir(dst), Dir(d)) && dst.Keys <= d.Keys
    && FilesIn(s, rel) + FilesIn(d, rel) == FilesIn(src, rel) + FilesIn(dst, rel)
  }

  /** Where the subdirectories handled so far are. */
  ghost predicate MergingDirs(src: Tree, dst: Tree, pending: set<string>, s: Tree, d: Tree, ok: bool) {
    && (ok ==> forall k :: k in s && k !in pending ==> Hollow(s[k]))
    && (forall k :: k in src && src[k].Dir? && k in dst ==> k in s && s[k].Dir?)
    && (forall k :: k in src && src[k].Dir? && k !in s ==> k !in dst && k in d && d[k] == src[k])
  }

  /**
   * The handled entries still in the source are subdirectories that met a
   * name of the destination; if a move raised, one of them is not empty.
   */
  ghost predicate MergingStops(src: Tree, pending: set<string>, s: Tree, d: Tree, ok: bool) {
    && (forall k :: k in s && k !in pending ==> k in src && src[k].Dir? && k in d)
    && (!ok ==> exists k :: && k in s && s[k].Dir? && k !in pending && k in src && src[k].Dir? && src[k].entries != map[]
                            && k in d && MeetsFile(src[k], d[k]))
  }

  /** Where the files moved so far are. */
  ghost predicate MergingFiles(src: Tree, dst: Tree, s: Tree, d: Tree, placed: map<string, nat>) {
    forall k :: k in src && src[k].File? && k !in s ==> k in placed && Placed(k, src[k], dst, d, placed[k])
  }

  /**
   * A name the destination did not have is that of a subdirectory moved
   * whole, or the name a moved file went to.
   */
  ghost predicate MergingNew(src: Tree, dst: Tree, s: Tree, d: Tree, placed: map<string, nat>) {
    forall m :: m in d && m !in dst ==>
      || (m in src && src[m].Dir? && m !in s && d[m] == src[m])
      || (exists k :: k in src && src[k].File? && k !in s && k in placed && NumberedName(k, placed[k]) == m)
  }

  /** What the log written so far records. */
  ghost predicate MergingLog(srcPath: Path, dstPath: Path, pending: set<string>, s: Tree, log: seq<LogEntry>, ok: bool) {
    && (ok ==> forall k :: (k in s && k !in pending) <==> RecursiveMerge(srcPath + [k], dstPath + [k]) in log)
    && (forall i :: 0 <= i < |log| ==> Below(log[i], srcPath, dstPath))
  }

  /**
   * merge_folder_contents(src, dst): every entry of the source listing, in
   * some order, handled by `MergeEntry`, until one of them raises.
   * Returns the new source and destination directories; `placed` tells,
   * for each file moved, which of the names tried it was moved to.
   */
  method MergeFolderContents(src: Tree, dst: Tree, srcPath: Path, dstPath: Path, ghost rel: Path)
    returns (src': Tree, dst': Tree, log: seq<LogEntry>, ok: bool, ghost placed: map<string, nat>)
    decreases Dir(src), 0
    // nothing in the destination is overwritten, changed or removed
    ensures Extends(Dir(dst), Dir(dst'))
    // no file is lost or duplicated
    ensures FilesIn(src', rel) + FilesIn(dst', rel) == FilesIn(src, rel) + FilesIn(dst, rel)
    ensures src'.Keys <= src.Keys
    // unless a move raised, only empty directory skeletons stay behind
    ensures ok ==> Hollow(Dir(src'))
    // a subdirectory whose name the destination has is left behind
    ensures forall k :: k in src && src[k].Dir? && k in dst ==> k in src' && src'[k].Dir?
    // a subdirectory that was not left behind now sits whole in the destination
    ensures forall k :: k in src && src[k].Dir? && k !in src' ==> k !in dst && k in dst' && dst'[k] == src[k]
    // a file that left the source sits in the destination, under the first name that was free
    ensures forall k :: k in src && src[k].File? && k !in src' ==> k in placed && Placed(k, src[k], dst, dst', placed[k])
    // the source is left empty exactly when nothing was merged recursively
    ensures ok ==> forall k :: k in src' <==> RecursiveMerge(srcPath + [k], dstPath + [k]) in log
    // the destination gains only subdirectories moved whole and the names files were moved to
    ensures forall m :: m in dst' && m !in dst ==>
      || (m in src && src[m].Dir? && m !in src' && dst'[m] == src[m])
      || (exists k :: k in src && src[k].File? && k !in src' && k in placed && NumberedName(k, placed[k]) == m)
    ensures forall i :: 0 <= i < |log| ==> Below(log[i], srcPath, dstPath)
    // unless a move raised, only subdirectories that met a name of the destination stay behind
    ensures ok ==> forall k :: k in src' ==> src[k].Dir? && k in dst'
    // a move raises only where a non-empty subdirectory met a file of the destination, at some depth
    ensures !ok ==> exists k :: && k in src && src[k].Dir? && src[k].entries != map[] && k in src' && src'[k].Dir?
                                && k in dst' && MeetsFile(src[k], dst'[k])
  {
    src', dst', log, ok := src, dst, [], true;
    var pending := src.Keys;
    placed := map[];
    ExtendsRefl(Dir(dst));
    while pending != {} && ok
      invariant Merging(src, dst, srcPath, dstPath, rel, pending, src', dst', log, ok, placed)
      decreases pending
    {
      var item :| item in pending;
      var left, d, l, okItem, name;
      ghost var n;
      left, d, l, okItem, name, n := MergeEntry(item, src[item], dst', srcPath, dstPath, rel);
      StepKeys(src, dst, rel, pending, src', dst', item, left, d);
      StepDirs(src, dst, rel, pending, src', dst', item, left, d, okItem);
      StepFiles(src, dst, rel, pending, src', dst', placed, item, left, d, name, n);
      StepLogs(src, dst, srcPath, dstPath, rel, pending, src', dst', log, item, left, l, okItem);
      StepStops(src, rel, pending, src', dst', item, left, d, okItem);
      StepNew(src, dst, rel, pending, src', dst', placed, item, left, d, name, n);
      pending := pending - {item};
      src' := Remaining(src', item, left);
      dst' := d;
      log := log + l;
      ok := okItem;
      if src[item].File? {
        placed := placed[item := n];
      }
    }
  }

  /** Handling one more entry keeps `MergingKeys`. */
  lemma StepKeys(src: Tree, dst: Tree, rel: Path, pending: set<string>, s: Tree, d: Tree,
                 item: string, left: Option<Node>, d': Tree)
    requires MergingKeys(src, dst, rel, pending, s, d) && item in pending
    requires Extends(Dir(d), Dir(d'))
    requires FilesIn(d, rel) + EntryFiles(src[item], item, rel) == FilesIn(d', rel) + Leftover(left, item, rel)
    ensures MergingKeys(src, dst, rel, pending - {item}, Remaining(s, item, left), d')
  {
    var s' := Remaining(s, item, left);
    SourceStep(s, item, left, rel);
    Rebalance(FilesIn(s', rel), EntryFiles(src[item], item, rel),
              FilesIn(s, rel), Leftover(left, item, rel), FilesIn(d', rel), FilesIn(d, rel));
    ExtendsTrans(Dir(dst), Dir(d), Dir(d'));
  }

  /** Handling one more entry keeps `MergingDirs`. */
  lemma StepDirs(src: Tree, dst: Tree, rel: Path, pending: set<string>, s: Tree, d: Tree,
                 item: string, left: Option<Node>, d': Tree, ok: bool)
    requires MergingKeys(src, dst, rel, pending, s, d) && MergingDirs(src, dst, pending, s, d, true) && item in pending
    requires forall k :: k in d && k != item ==> k in d' && d'[k] == d[k]
    requires src[item].File? ==> left.None?
    requires src[item].Dir? && item !in d ==> left.None? && d' == d[item := src[item]]
    requires src[item].Dir? && item in d ==> left.Some? && left.value.Dir? && (ok ==> Hollow(left.value))
    ensures MergingDirs(src, dst, pending - {item}, Remaining(s, item, left), d', ok)
  {
    var s' := Remaining(s, item, left);
    KeepLeftBehind(src, dst, s, d, s', item, left);
    KeepHollow(s, s', pending, pending - {item}, item, left, ok);
    KeepMovedFolders(src, dst, s, d, s', d', item, left);
  }

  /** Handling one more entry keeps `MergingFiles`. */
  lemma StepFiles(src: Tree, dst: Tree, rel: Path, pending: set<string>, s: Tree, d: Tree, placed: map<string, nat>,
                  item: string, left: Option<Node>, d': Tree, name: string, n: nat)
    requires MergingKeys(src, dst, rel, pending, s, d) && MergingFiles(src, dst, s, d, placed) && item in pending
    requires forall k :: k in d && k != item ==> k in d' && d'[k] == d[k]
    requires d.Keys <= d'.Keys
    requires src[item].File? ==> left.None? && name !in d && d' == d[name := src[item]] && name == NumberedName(item, n)
    requires src[item].File? ==> forall j :: 0 <= j < n ==> NumberedName(item, j) in d
    requires src[item].Dir? && item !in d ==> d' == d[item := src[item]]
    requires src[item].Dir? && item in d ==> left.Some? && (d[item].File? ==> d' == d)
    ensures MergingFiles(src, dst, Remaining(s, item, left), d', if src[item].File? then placed[item := n] else placed)
  {
    KeepMovedFiles(src, dst, s, d, Remaining(s, item, left), d', item, left, placed,
                   if src[item].File? then placed[item := n] else placed, name, n);
  }

  /** Handling one more entry keeps `MergingStops`. */
  lemma StepStops(src: Tree, rel: Path, pending: set<string>, s: Tree, d: Tree,
                  item: string, left: Option<Node>, d': Tree, ok: bool)
    requires pending <= s.Keys && s.Keys <= src.Keys && item in pending && s[item] == src[item]
    requires MergingStops(src, pending, s, d, true)
    requires d.Keys <= d'.Keys
    requires src[item].File? ==> left.None?
    requires src[item].Dir? && item !in d ==> left.None?
    requires !ok ==> src[item].Dir? && src[item].entries != map[] && item in d && left.Some? && left.value.Dir?
    requires !ok ==> item in d' && MeetsFile(src[item], d'[item])
    ensures MergingStops(src, pending - {item}, Remaining(s, item, left), d', ok)
  {
    var s', rest := Remaining(s, item, left), pending - {item};
    forall k | k in s' && k !in rest ensures k in src && src[k].Dir? && k in d' {
      if k != item {
        assert k in s && k !in pending;
      }
    }
    if !ok {
      assert item in s' && item !in rest;
    }
  }

  /** Handling one more entry keeps `MergingNew`. */
  lemma StepNew(src: Tree, dst: Tree, rel: Path, pending: set<string>, s: Tree, d: Tree, placed: map<string, nat>,
                item: string, left: Option<Node>, d': Tree, name: string, n: nat)
    requires MergingKeys(src, dst, rel, pending, s, d) && MergingNew(src, dst, s, d, placed) && item in pending
    requires forall k :: k in d && k != item ==> k in d' && d'[k] == d[k]
    requires src[item].File? ==> left.None? && d' == d[name := src[item]] && name == NumberedName(item, n)
    requires src[item].Dir? && item !in d ==> left.None? && d' == d[item := src[item]]
    requires src[item].Dir? && item in d ==> left.Some? && d'.Keys == d.Keys
    ensures MergingNew(src, dst, Remaining(s, item, left), d', if src[item].File? then placed[item := n] else placed)
  {
    var s', placed' := Remaining(s, item, left), if src[item].File? then placed[item := n] else placed;
    forall m | m in d' && m !in dst
      ensures || (m in src && src[m].Dir? && m !in s' && d'[m] == src[m])
              || (exists k :: k in src && src[k].File? && k !in s' && k in placed' && NumberedName(k, placed'[k]) == m)
    {
      if src[item].File? && m == name {
        assert item in src && src[item].File? && item !in s' && item in placed' && NumberedName(item, placed'[item]) == m;
      } else if src[item].Dir? && item !in d && m == item {
      } else {
        assert m in d;
        if m in src && src[m].Dir? && m !in s && d[m] == src[m] {
          assert m != item;
        } else {
          var k :| k in src && src[k].File? && k !in s && k in placed && NumberedName(k, placed[k]) == m;
          assert k != item && placed'[k] == placed[k];
        }
      }
    }
  }

  /** Handling one more entry keeps `MergingLog`. */
  lemma StepLogs(src: Tree, dst: Tree, srcPath: Path, dstPath: Path, rel: Path, pending: set<string>, s: Tree, d: Tree,
                 log: seq<LogEntry>, item: string, left: Option<Node>, l: seq<LogEntry>, ok: bool)
    requires MergingKeys(src, dst, rel, pending, s, d) && MergingLog(srcPath, dstPath, pending, s, log, true)
    requires item in pending
    requires |l| >= 1 && (l[0].RecursiveMerge? || l[0].MovedFolder? || l[0].MovedFile?)
    requires l[0].from == srcPath + [item] && |l[0].to| > |dstPath| && l[0].to[..|dstPath|] == dstPath
    requires forall i :: 1 <= i < |l| ==> Below(l[i], srcPath + [item], dstPath + [item])
    requires ok ==> (left.Some? <==> l[0] == RecursiveMerge(srcPath + [item], dstPath + [item]))
    ensures MergingLog(srcPath, dstPath, pending - {item}, Remaining(s, item, left), log + l, ok)
  {
    StepLog(log, l, srcPath, dstPath, item);
    KeepMergedLog(s, Remaining(s, item, left), pending, pending - {item}, item, left, log, log + l, l, srcPath, dstPath, ok);
  }

  /** A subdirectory whose name the destination had stays in the source. */
  lemma KeepLeftBehind(src: Tree, dst: Tree, s: Tree, d: Tree, s': Tree, item: string, left: Option<Node>)
    requires item in s && item in src && s[item] == src[item] && s' == Remaining(s, item, left)
    requires dst.Keys <= d.Keys
    requires forall k :: k in src && src[k].Dir? && k in dst ==> k in s && s[k].Dir?
    requires src[item].Dir? && item in d ==> left.Some? && left.value.Dir?
    ensures forall k :: k in src && src[k].Dir? && k in dst ==> k in s' && s'[k].Dir?
  {
  }

  /** Unless a move raised, what a handled entry leaves behind is hollow. */
  lemma KeepHollow(s: Tree, s': Tree, pending: set<string>, pending': set<string>, item: string,
                   left: Option<Node>, ok: bool)
    requires item in s && item in pending && pending' == pending - {item} && s' == Remaining(s, item, left)
    requires forall k :: k in s && k !in pending ==> Hollow(s[k])
    requires ok && left.Some? ==> Hollow(left.value)
    ensures ok ==> forall k :: k in s' && k !in pending' ==> Hollow(s'[k])
  {
  }

  /** The handled entries still in the source are those merged recursively. */
  lemma KeepMergedLog(s: Tree, s': Tree, pending: set<string>, pending': set<string>, item: string,
                      left: Option<Node>, log: seq<LogEntry>, log': seq<LogEntry>, l: seq<LogEntry>,
                      srcPath: Path, dstPath: Path, ok: bool)
    requires item in s && item in pending && pending' == pending - {item} && s' == Remaining(s, item, left)
    requires pending <= s.Keys
    requires forall k :: (k in s && k !in pending) <==> RecursiveMerge(srcPath + [k], dstPath + [k]) in log
    requires log' == log + l && |l| >= 1
    requires forall k :: RecursiveMerge(srcPath + [k], dstPath + [k]) in log' <==>
      RecursiveMerge(srcPath + [k], dstPath + [k]) in log || (k == item && l[0] == RecursiveMerge(srcPath + [item], dstPath + [item]))
    requires ok ==> (left.Some? <==> l[0] == RecursiveMerge(srcPath + [item], dstPath + [item]))
    ensures ok ==> forall k :: (k in s' && k !in pending') <==> RecursiveMerge(srcPath + [k], dstPath + [k]) in log'
  {
  }

  /** A subdirectory moved whole stays as it was while later entries are handled. */
  lemma KeepMovedFolders(src: Tree, dst: Tree, s: Tree, d: Tree, s': Tree, d': Tree, item: string, left: Option<Node>)
    requires item in s && item in src && s[item] == src[item] && s' == Remaining(s, item, left)
    requires dst.Keys <= d.Keys
    requires forall k :: k in src && src[k].Dir? && k !in s ==> k !in dst && k in d && d[k] == src[k]
    requires forall k :: k in d && k != item ==> k in d' && d'[k] == d[k]
    requires src[item].Dir? && item !in d ==> left.None? && d' == d[item := src[item]]
    requires src[item].Dir? && item in d ==> left.Some?
    ensures forall k :: k in src && src[k].Dir? && k !in s' ==> k !in dst && k in d' && d'[k] == src[k]
  {
  }

  /** A moved file stays where it went while later entries are handled. */
  lemma KeepMovedFiles(src: Tree, dst: Tree, s: Tree, d: Tree, s': Tree, d': Tree, item: string, left: Option<Node>,
                       placed: map<string, nat>, placed': map<string, nat>, name: string, n: nat)
    requires item in s && item in src && s[item] == src[item] && s' == Remaining(s, item, left)
    requires dst.Keys <= d.Keys
    requires forall k :: k in src && src[k].File? && k !in s ==> k in placed && Placed(k, src[k], dst, d, placed[k])
    requires forall k :: k in d && k != item ==> k in d' && d'[k] == d[k]
    requires d.Keys <= d'.Keys
    requires src[item].File? ==> left.None? && name !in d && d' == d[name := src[item]] && name == NumberedName(item, n)
    requires src[item].File? ==> forall j :: 0 <= j < n ==> NumberedName(item, j) in d
    requires src[item].Dir? && item in d && d[item].File? ==> d' == d
    requires src[item].Dir? && item !in d ==> d' == d[item := src[item]]
    requires src[item].Dir? && item in d ==> left.Some?
    requires placed' == if src[item].File? then placed[item := n] else placed
    ensures forall k :: k in src && src[k].File? && k !in s' ==> k in placed' && Placed(k, src[k], dst, d', placed'[k])
  {
    forall k | k in src && src[k].File? && k !in s'
      ensures k in placed' && Placed(k, src[k], dst, d', placed'[k])
    {
      if k != item {
        var m := NumberedName(k, placed[k]);
        assert m in d && d[m] == src[k];
        if m == item {
          assert d'[m] == d[m];
        }
      } else {
        assert name !in dst;
      }
    }
  }

  /** The lines one entry adds, seen from the level of the listing loop. */
  lemma StepLog(logBefore: seq<LogEntry>, l: seq<LogEntry>, srcPath: Path, dstPath: Path, item: string)
    requires |l| >= 1 && (l[0].RecursiveMerge? || l[0].MovedFolder? || l[0].MovedFile?)
    requires l[0].from == srcPath + [item] && |l[0].to| > |dstPath| && l[0].to[..|dstPath|] == dstPath
    requires forall i :: 1 <= i < |l| ==> Below(l[i], srcPath + [item], dstPath + [item])
    requires forall i :: 0 <= i < |logBefore| ==> Below(logBefore[i], srcPath, dstPath)
    ensures forall i :: 0 <= i < |logBefore + l| ==> Below((logBefore + l)[i], srcPath, dstPath)
    ensures forall k :: RecursiveMerge(srcPath + [k], dstPath + [k]) in logBefore + l <==>
      RecursiveMerge(srcPath + [k], dstPath + [k]) in logBefore || (k == item && l[0] == RecursiveMerge(srcPath + [item], dstPath + [item]))
  {
    assert l[0].from[..|srcPath|] == srcPath;
    forall i | 1 <= i < |l| ensures Below(l[i], srcPath, dstPath) {
      assert l[i].from[..|srcPath|] == (srcPath + [item])[..|srcPath|];
      assert l[i].to[..|dstPath|] == (dstPath + [item])[..|dstPath|];
    }
    forall i, k | 1 <= i < |l| ensures l[i].from != srcPath + [k] {
      assert |l[i].from| > |srcPath| + 1;
    }
    forall k | RecursiveMerge(srcPath + [k], dstPath + [k]) in l
      ensures k == item && l[0] == RecursiveMerge(srcPath + [item], dstPath + [item])
    {
      var i :| 0 <= i < |l| && l[i] == RecursiveMerge(srcPath + [k], dstPath + [k]);
      assert i == 0;
      assert (srcPath + [k])[|srcPath|] == k;
    }
  }
}
