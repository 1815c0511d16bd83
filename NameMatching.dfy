/**
 * The name-matching renaming scripts (pm and politemall): the roster keyed
 * by normalised student name, the name parsed out of a submission folder's
 * name, and rename_directory, which renames each matched folder to
 * f"{team}_{name}_{student_id}", merges it into that folder when it
 * exists already, and logs each folder it cannot match.
 */
module NameMatching {
  import opened PyText
  import opened NameKey
  import opened FsTree
  import opened MergeEngine
  import opened Submission

  // ---------------------------------------------------------------- the roster

  /** The value stored for a name: [student_id, class, team]. */
  datatype Student = Student(studentId: string, className: string, team: string)

  type Roster = map<string, Student>

  function StudentOf(row: Row): Student {
    Student(row.studentId, row.className, row.team)
  }

  /** The dictionary after student_dict[key] = ... has run for each of `rows` in turn. */
  function RosterOf(rows: seq<Row>): Roster {
    if rows == [] then map[]
    else
      var last := rows[|rows| - 1];
      RosterOf(rows[..|rows| - 1])[RosterKey(last.name) := StudentOf(last)]
  }

  /** read_name_list over the rows the CSV reader yields. */
  method ReadNameList(rows: seq<Row>) returns (dict: Roster)
    ensures dict == RosterOf(rows)
  {
    dict := map[];
    var i := 0;
    while i < |rows|
      invariant 0 <= i <= |rows|
      invariant dict == RosterOf(rows[..i])
    {
      assert rows[..i + 1][..i] == rows[..i];
      dict := dict[RosterKey(rows[i].name) := StudentOf(rows[i])];
      i := i + 1;
    }
    assert rows[..|rows|] == rows;
  }

  /** Row `i` is the last of `rows` whose name has roster key `k`. */
  predicate LastRowFor(rows: seq<Row>, k: string, i: int) {
    && 0 <= i < |rows| && RosterKey(rows[i].name) == k
    && forall j :: i < j < |rows| ==> RosterKey(rows[j].name) != k
  }

  /** The roster has a key exactly for the names of the rows. */
  lemma {:induction false} RosterKeys(rows: seq<Row>, k: string)
    ensures k in RosterOf(rows) <==> exists i :: 0 <= i < |rows| && RosterKey(rows[i].name) == k
  {
    if rows != [] {
      var init := rows[..|rows| - 1];
      RosterKeys(init, k);
      if k in RosterOf(init) {
        var i :| 0 <= i < |init| && RosterKey(init[i].name) == k;
        assert rows[i] == init[i];
      }
      if exists i :: 0 <= i < |rows| && RosterKey(rows[i].name) == k {
        var i :| 0 <= i < |rows| && RosterKey(rows[i].name) == k;
        if i < |rows| - 1 {
          assert init[i] == rows[i];
        }
      }
    }
  }

  /** On a duplicate key the last row wins. */
  lemma {:induction false} RosterLastWins(rows: seq<Row>, k: string, i: int)
    requires LastRowFor(rows, k, i)
    ensures k in RosterOf(rows) && RosterOf(rows)[k] == StudentOf(rows[i])
  {
    var init := rows[..|rows| - 1];
    if i < |rows| - 1 {
      assert LastRowFor(init, k, i) by {
        forall j | i < j < |init| ensures RosterKey(init[j].name) != k {
          assert init[j] == rows[j];
        }
      }
      RosterLastWins(init, k, i);
    }
  }

  /** Every roster key is in normal form: single-spaced, comma-free, upper case. */
  lemma RosterKeysNormal(rows: seq<Row>, k: string)
    requires k in RosterOf(rows)
    ensures SingleSpaced(k) && ',' !in k && NoLower(k) && RosterKey(k) == k
  {
    RosterKeys(rows, k);
    var i :| 0 <= i < |rows| && RosterKey(rows[i].name) == k;
    RosterKeyIdempotent(rows[i].name);
  }

  // ---------------------------------------------------------------- the folder name

  /** The name between the separator and the marker: stripped, comma-free, single-spaced. */
  function Collapse(part: string): (r: string)
    ensures SingleSpaced(r) && ',' !in r
    ensures forall c :: c in r ==> c == ' ' || c in part
  {
    var c := RemoveChar(Strip(part), ',');
    var ws := Split(c);
    SplitWords(c);
    SplitWithin(c);
    JoinSingleSpaced(ws);
    JoinWithin(ws, c);
    SplitJoin(ws);
    RemoveCharWithin(Strip(part), ',');
    StripWithin(part);
    JoinSpace(ws)
  }

  /**
   * extract_name_from_folder: the text from just after the first " - " up
   * to the first " SOI" of the whole name (empty when the marker comes
   * first), collapsed; "" when either is missing.
   */
  function ExtractName(folder: string): (r: string)
    ensures SingleSpaced(r) && ',' !in r && Within(r, folder)
    ensures Find(folder, " - ").None? || Find(folder, " SOI").None? ==> r == ""
  {
    match (Find(folder, " - "), Find(folder, " SOI"))
    case (Some(a), Some(b)) =>
      var part := Slice(folder, a + 3, b);
      var r := Collapse(part);
      assert folder[a] == ' ';
      SliceWithin(folder, a + 3, b);
      SpacedWithin(r, part, folder);
      r
    case _ => ""
  }

  lemma SliceWithin(s: string, i: nat, j: nat)
    requires i <= |s| && j <= |s|
    ensures Within(Slice(s, i, j), s)
  {
    if i < j {
      forall c | c in s[i..j] ensures c in s {
        var k :| 0 <= k < j - i && s[i..j][k] == c;
        assert s[i + k] == c;
      }
    }
  }

  lemma SpacedWithin(r: string, part: string, folder: string)
    requires forall c :: c in r ==> c == ' ' || c in part
    requires Within(part, folder) && ' ' in folder
    ensures Within(r, folder)
  {
  }

  /**
   * With both markers present, the name holds the words of the slice
   * between them, commas dropped; if " SOI" starts before the end of the
   * first " - ", the name is empty.
   */
  lemma ExtractNameWords(folder: string, a: nat, b: nat)
    requires Find(folder, " - ") == Some(a) && Find(folder, " SOI") == Some(b)
    ensures Split(ExtractName(folder)) == Split(RemoveChar(Slice(folder, a + 3, b), ','))
    ensures b <= a + 3 ==> ExtractName(folder) == ""
    ensures ExtractName(folder) == JoinSpace(Split(RemoveChar(Slice(folder, a + 3, b), ',')))
  {
    var part := Slice(folder, a + 3, b);
    assert ExtractName(folder) == Collapse(part);
    CollapseWords(part);
    if b <= a + 3 {
      assert part == "";
    }
  }

  /** Collapsing keeps exactly the words of the text, commas dropped. */
  lemma CollapseWords(part: string)
    ensures Split(Collapse(part)) == Split(RemoveChar(part, ','))
    ensures Collapse(part) == JoinSpace(Split(RemoveChar(part, ',')))
  {
    var c := RemoveChar(Strip(part), ',');
    SplitWords(c);
    SplitJoin(Split(c));
    RemoveStrip(part, ',');
  }

  /** extracted_name.strip().upper(): the key a folder is looked up under. */
  function LookupKey(extracted: string): string {
    Upper(Strip(extracted))
  }

  /** The lookup key of a parsed name is its roster normalisation. */
  lemma LookupKeyOfExtract(folder: string)
    ensures LookupKey(ExtractName(folder)) == RosterKey(ExtractName(folder))
  {
    LookupKeyIsRosterKey(ExtractName(folder));
  }

  /** A folder finds a roster entry exactly when some row's name has the same words. */
  lemma MatchesRow(folder: string, rows: seq<Row>)
    ensures LookupKey(ExtractName(folder)) in RosterOf(rows) <==>
      exists i :: 0 <= i < |rows| && Words(rows[i].name) == Words(ExtractName(folder))
  {
    var e := ExtractName(folder);
    LookupKeyOfExtract(folder);
    RosterKeys(rows, RosterKey(e));
    forall i | 0 <= i < |rows| ensures RosterKey(rows[i].name) == RosterKey(e) <==> Words(rows[i].name) == Words(e) {
      RosterKeyEquality(rows[i].name, e);
    }
  }

  /**
   * A folder name without " - " or " SOI" parses to "", whose key is "";
   * so it is matched, not skipped, as soon as some row's name is blank
   * (only whitespace and commas).
   */
  lemma UnparsedMatchesBlank(folder: string, rows: seq<Row>, i: int)
    requires Find(folder, " - ").None? || Find(folder, " SOI").None?
    requires 0 <= i < |rows| && Words(rows[i].name) == []
    ensures LookupKey(ExtractName(folder)) in RosterOf(rows)
  {
    assert Upper("") == "" && RemoveChar("", ',') == "";
    assert Words(ExtractName(folder)) == [];
    MatchesRow(folder, rows);
  }

  // ---------------------------------------------------------------- one folder

  /** What rename_directory does with one entry of the target directory. */
  datatype Action =
    | Ignore                    // not a directory
    | Skip(extracted: string)   // no roster entry: logged and left alone
    | Rename(newName: string)   // the new name is free: os.rename
    | MergeInto(newName: string) // the new name exists: merge, then rmdir

  /** Cannot be matched, whatever the directory holds. */
  predicate Unmatched(item: string, roster: Roster) {
    LookupKey(ExtractName(item)) !in roster
  }

  /** The new name of a matched folder, from its roster entry and its parsed name. */
  function NewName(item: string, roster: Roster): string
    requires !Unmatched(item, roster)
  {
    var e := ExtractName(item);
    var st := roster[LookupKey(e)];
    FolderName(st.team, e, st.studentId)
  }

  /** The decision rename_directory takes for entry `item` of `entries`. */
  function Decide(item: string, entries: Tree, roster: Roster): (r: Action)
    requires item in entries
    // files are left alone, and unmatched folders skipped with the parsed name
    ensures r.Ignore? <==> entries[item].File?
    ensures r.Skip? <==> entries[item].Dir? && Unmatched(item, roster)
    ensures r.Skip? ==> r.extracted == ExtractName(item)
    // a folder is merged exactly when its new name is taken
    ensures r.MergeInto? ==> r.newName in entries
    ensures r.Rename? ==> r.newName !in entries
    ensures r.MergeInto? || r.Rename? ==> !Unmatched(item, roster) && r.newName == NewName(item, roster)
  {
    if !entries[item].Dir? then Ignore
    else
      var e := ExtractName(item);
      if Unmatched(item, roster) then Skip(e)
      else
        var n := NewName(item, roster);
        if n in entries then MergeInto(n) else Rename(n)
  }

  /**
   * With the roster read from `rows`: a folder is skipped exactly when no
   * row's name has the words parsed from the folder name; otherwise its new
   * name is built from the last such row's team and student id, and it is
   * merged when that name exists and renamed when it does not.
   */
  lemma DecideRows(item: string, entries: Tree, rows: seq<Row>, i: int)
    requires item in entries && entries[item].Dir?
    requires LastRowFor(rows, RosterKey(ExtractName(item)), i)
    ensures var n := FolderName(rows[i].team, ExtractName(item), rows[i].studentId);
      Decide(item, entries, RosterOf(rows)) == if n in entries then MergeInto(n) else Rename(n)
  {
    LookupKeyOfExtract(item);
    RosterLastWins(rows, RosterKey(ExtractName(item)), i);
  }

  lemma DecideSkip(item: string, entries: Tree, rows: seq<Row>)
    requires item in entries && entries[item].Dir?
    ensures Decide(item, entries, RosterOf(rows)).Skip? <==>
      forall i :: 0 <= i < |rows| ==> Words(rows[i].name) != Words(ExtractName(item))
    ensures Decide(item, entries, RosterOf(rows)).Skip? ==>
      Decide(item, entries, RosterOf(rows)) == Skip(ExtractName(item))
  {
    var roster := RosterOf(rows);
    assert Decide(item, entries, roster).Skip? <==> Unmatched(item, roster);
    MatchesRow(item, rows);
  }

  // ---------------------------------------------------------------- file accounting per step

  lemma RemovedEmpty(t: Tree, item: string)
    requires item in t && t[item] == Dir(map[])
    ensures SubmissionFiles(t - {item}) == SubmissionFiles(t)
  {
    SubmissionFilesRemove(t, item);
    assert InFolder(t[item]) == multiset{};
  }

  /**
   * The target directory once folder `item` has been merged into folder
   * `n`, leaving `s` behind and `d` in `n`: `item` is removed when the
   * merge went through and left it empty (`ok`), and kept with `s` otherwise.
   */
  function Folded(t: Tree, item: string, n: string, s: Tree, d: Tree, ok: bool): Tree {
    if ok then t[n := Dir(d)] - {item} else t[n := Dir(d)][item := Dir(s)]
  }

  /** Folding folder `item` into folder `n` is a merge into `n`. */
  lemma FoldedShape(t: Tree, item: string, n: string, s: Tree, d: Tree, ok: bool)
    requires item in t && n in t && item != n && Extends(t[n], Dir(d))
    ensures MergedInto(t, Folded(t, item, n, s, d, ok), item, n, ok)
  {
  }

  /** Folding folder `item` into folder `n` keeps the submission files. */
  lemma FoldedFolders(t: Tree, item: string, n: string, s: Tree, d: Tree, ok: bool)
    requires item in t && n in t && item != n && t[item].Dir? && t[n].Dir?
    requires FilesIn(s, []) + FilesIn(d, []) == FilesIn(t[item].entries, []) + FilesIn(t[n].entries, [])
    requires ok ==> s == map[]
    ensures SubmissionFiles(Folded(t, item, n, s, d, ok)) == SubmissionFiles(t)
  {
    var t1 := t[n := Dir(d)];
    var t2 := t1[item := Dir(s)];
    SubmissionFilesUpdate(t, n, Dir(d));
    SubmissionFilesUpdate(t1, item, Dir(s));
    assert t1[item] == t[item];
    var a, b := SubmissionFiles(t1) + InFolder(t[n]), SubmissionFiles(t) + InFolder(Dir(d));
    var c, e := SubmissionFiles(t2) + InFolder(t[item]), SubmissionFiles(t1) + InFolder(Dir(s));
    var f, g := InFolder(Dir(s)) + InFolder(Dir(d)), InFolder(t[item]) + InFolder(t[n]);
    assert a == b && c == e && f == g;
    forall o ensures SubmissionFiles(t2)[o] == SubmissionFiles(t)[o] {
      assert a[o] == b[o] && c[o] == e[o] && f[o] == g[o];
    }
    if ok {
      assert t2 - {item} == t1 - {item};
      SubmissionFilesRemove(t2, item);
      SubmissionFilesRemove(t1, item);
      assert InFolder(Dir(s)) == multiset{};
    }
  }

  /**
   * A merge that raised, or that left something behind, leaves a folder
   * that still holds a subfolder.
   */
  lemma LeftBehind(src: Tree, s: Tree, d: Tree, merged: bool)
    requires merged ==> Hollow(Dir(s))
    requires !merged ==> exists k :: k in src && src[k].Dir? && src[k].entries != map[] && k in s && s[k].Dir? && k in d
    requires !(merged && s == map[])
    ensures !FilesOnly(Dir(s))
  {
    if merged {
      var k :| k in s;
      assert Hollow(s[k]);
    }
  }

  /** A merge that left nothing behind put every file of `src` next to those of `dst`. */
  lemma EmptiedFiles(src: Tree, dst: Tree, s: Tree, d: Tree)
    requires s == map[]
    requires FilesIn(s, []) + FilesIn(d, []) == FilesIn(src, []) + FilesIn(dst, [])
    ensures InFolder(Dir(d)) == InFolder(Dir(dst)) + InFolder(Dir(src))
  {
    assert FilesIn(s, []) == multiset{};
    assert InFolder(Dir(d)) == FilesIn(d, []);
    assert InFolder(Dir(dst)) + InFolder(Dir(src)) == FilesIn(src, []) + FilesIn(dst, []);
  }

  /**
   * The target directory after folder `item` has been merged into folder
   * `n` (leaving `s` behind and `d` in `n`) and the rmdir has been tried.
   */
  lemma FoldedOutcome(t: Tree, item: string, n: string, src: Tree, dst: Tree, s: Tree, d: Tree, merged: bool, ok: bool)
    requires item in t && n in t && item != n && t[item] == Dir(src) && t[n] == Dir(dst)
    requires ok == (merged && s == map[])
    requires Extends(Dir(dst), Dir(d))
    requires FilesIn(s, []) + FilesIn(d, []) == FilesIn(src, []) + FilesIn(dst, [])
    requires s.Keys <= src.Keys
    requires merged ==> Hollow(Dir(s))
    requires forall k :: k in src && src[k].Dir? && k in dst ==> k in s && s[k].Dir?
    requires merged ==> forall k :: k in s ==> src[k].Dir? && k in d
    requires !merged ==> exists k :: k in src && src[k].Dir? && src[k].entries != map[] && k in s && s[k].Dir? && k in d
    ensures SubmissionFiles(Folded(t, item, n, s, d, ok)) == SubmissionFiles(t)
    ensures MergedInto(t, Folded(t, item, n, s, d, ok), item, n, ok)
    ensures forall k :: (k in src && src[k].Dir? && k in dst) ==> !ok
    ensures FilesOnly(t[item]) ==> ok
    ensures !ok ==> Folded(t, item, n, s, d, ok)[item] == Dir(s) && s != map[] && !FilesOnly(Dir(s))
    ensures ok ==> InFolder(Folded(t, item, n, s, d, ok)[n]) == InFolder(t[n]) + InFolder(t[item])
  {
    FoldedFolders(t, item, n, s, d, ok);
    if ok {
      EmptiedFiles(src, dst, s, d);
      assert Folded(t, item, n, s, d, ok)[n] == Dir(d);
    }
    FoldedShape(t, item, n, s, d, ok);
    if !ok {
      LeftBehind(src, s, d, merged);
    }
  }

  // ---------------------------------------------------------------- the target directory

  /** What merging folder `item` into `n`, then removing it, leaves. */
  ghost predicate MergedInto(before: Tree, after: Tree, item: string, n: string, ok: bool)
    requires item in before && n in before
  {
    && (forall k :: k in before && k != item && k != n ==> k in after && after[k] == before[k])
    && after.Keys <= before.Keys
    && (n != item ==> n in after && Extends(before[n], after[n]))
    && (ok <==> item !in after)
    && (item in after ==> after[item].Dir?)
  }

  /** Every entry but `item` is still there, and has only grown. */
  ghost predicate Grows(before: Tree, after: Tree, item: string) {
    forall k :: k in before && k != item ==> k in after && Extends(before[k], after[k])
  }

  lemma SameGrows(t: Tree, item: string)
    ensures Grows(t, t, item)
  {
    forall k | k in t ensures Extends(t[k], t[k]) {
      ExtendsRefl(t[k]);
    }
  }

  lemma RenamedGrows(t: Tree, item: string, n: string)
    requires item in t && n !in t
    ensures Grows(t, (t - {item})[n := t[item]], item)
  {
    SameGrows(t, item);
  }

  lemma MergedGrows(before: Tree, after: Tree, item: string, n: string, ok: bool)
    requires item in before && n in before && MergedInto(before, after, item, n, ok)
    ensures Grows(before, after, item)
  {
    SameGrows(before, item);
  }

  /** The target directory and its log file, as rename_directory changes them. */
  class NameTarget {
    var entries: Tree
    var log: seq<LogEntry>

    constructor(entries: Tree)
      ensures this.entries == entries && log == []
    {
      this.entries := entries;
      log := [];
    }

    /**
     * The body of the listing loop for entry `item`. `ok` is false when
     * the merge or the rmdir after it raises, which ends the run.
     */
    method ProcessFolder(item: string, roster: Roster) returns (ok: bool)
      requires item in entries
      modifies this
      ensures SubmissionFiles(entries) == old(SubmissionFiles(entries))
      ensures Processed(old(entries), entries, old(log), log, item, roster, ok)
    {
      ok := true;
      match Decide(item, entries, roster)
      case Ignore =>
        SameGrows(entries, item);
      case Skip(e) =>
        SameGrows(entries, item);
        log := log + [Skipped(item, e)];
      case Rename(n) =>
        RenamedFolder(entries, item, n);
        RenamedGrows(entries, item, n);
        entries := (entries - {item})[n := entries[item]];
      case MergeInto(n) =>
        ghost var before, log0 := entries, log;
        log := log + [MergeHeader(item, n)];
        ghost var log1 := log;
        ok := MergeAndRemove(item, n);
        MergedGrows(before, entries, item, n, ok);
        assert log[..|log1|] == log1;
        assert log[|log0|] == log1[|log0|] == MergeHeader(item, n);
        assert log[..|log0|] == log1[..|log0|] == log0;
    }

    /**
     * The MERGE branch: merge_folder_contents from folder `item` into the
     * existing entry `n`, then os.rmdir of `item`, which raises unless the
     * merge left it empty.
     */
    method MergeAndRemove(item: string, n: string) returns (ok: bool)
      requires item in entries && n in entries && entries[item].Dir?
      modifies this
      ensures SubmissionFiles(entries) == old(SubmissionFiles(entries))
      ensures MergedInto(old(entries), entries, item, n, ok)
      ensures |log| >= |old(log)| && log[..|old(log)|] == old(log)
      ensures forall i :: |old(log)| <= i < |log| ==> Below(log[i], [item], [n])
      // a subfolder merged recursively stays behind, so the rmdir raises
      ensures n != item && old(entries)[n].Dir? ==> forall k ::
        k in old(entries)[item].entries && old(entries)[item].entries[k].Dir? && k in old(entries)[n].entries ==> !ok
      // a folder holding only files, merged into another folder, is emptied and removed
      ensures n != item && old(entries)[n].Dir? && FilesOnly(old(entries)[item]) ==> ok
      // ... and once it is removed, its files are all in `n`, next to those `n` had
      ensures ok && n != item && old(entries)[n].Dir? ==>
        InFolder(entries[n]) == InFolder(old(entries)[n]) + InFolder(old(entries)[item])
      // when the rmdir raises, the folder is still there, not empty
      ensures !ok ==> n in entries && item in entries && entries[item].Dir? && entries[item].entries != map[]
      // ... and, merged into another folder, it still holds a subfolder
      ensures !ok && n != item && old(entries)[n].Dir? ==> !FilesOnly(entries[item])
    {
      var src := entries[item].entries;
      if n == item || entries[n].File? {
        // merging into a file: the first move raises, so only an empty
        // folder gets as far as the rmdir. Merging a folder into itself
        // renames its files in place and leaves them there, so the rmdir
        // raises unless the folder was empty; the model keeps the folder
        // as it was and reaches the same outcome
        ok := src == map[];
        if ok {
          RemovedEmpty(entries, item);
          entries := entries - {item};
        }
      } else {
        ok := FoldInto(item, n);
      }
    }

    /**
     * merge_folder_contents from folder `item` into another folder `n`,
     * then os.rmdir of `item`.
     */
    method FoldInto(item: string, n: string) returns (ok: bool)
      requires item in entries && n in entries && item != n && entries[item].Dir? && entries[n].Dir?
      modifies this
      ensures SubmissionFiles(entries) == old(SubmissionFiles(entries))
      ensures MergedInto(old(entries), entries, item, n, ok)
      ensures |log| >= |old(log)| && log[..|old(log)|] == old(log)
      ensures forall i :: |old(log)| <= i < |log| ==> Below(log[i], [item], [n])
      // a subfolder merged recursively stays behind, so the rmdir raises
      ensures forall k :: (k in old(entries)[item].entries && old(entries)[item].entries[k].Dir? &&
                           k in old(entries)[n].entries) ==> !ok
      // a folder holding only files is emptied and removed
      ensures FilesOnly(old(entries)[item]) ==> ok
      // once removed, its files are all in `n`, next to those `n` had
      ensures ok ==> InFolder(entries[n]) == InFolder(old(entries)[n]) + InFolder(old(entries)[item])
      // when the rmdir raises, the folder is still there and holds a subfolder
      ensures !ok ==> item in entries && entries[item].Dir? && entries[item].entries != map[] && !FilesOnly(entries[item])
    {
      var src, dst := entries[item].entries, entries[n].entries;
      var s, d, l, merged, _ := MergeFolderContents(src, dst, [item], [n], []);
      ok := merged && s == map[];
      FoldedOutcome(entries, item, n, src, dst, s, d, merged, ok);
      entries := Folded(entries, item, n, s, d, ok);
      log := log + l;
    }

    /**
     * rename_directory: the log file is started afresh, then every entry of
     * the listing taken at the start is handled in some order, until one
     * raises (`completed` is then false).
     */
    method RenameDirectory(roster: Roster) returns (completed: bool)
      modifies this
      // no file of any submission folder is lost or duplicated
      ensures SubmissionFiles(entries) == old(SubmissionFiles(entries))
      // files at the top level are never touched
      ensures forall k :: k in old(entries) && old(entries)[k].File? ==> k in entries && entries[k] == old(entries)[k]
      // a folder that cannot be matched keeps its name, and only grows (another folder may be merged into it)
      ensures forall k :: k in old(entries) && old(entries)[k].Dir? && Unmatched(k, roster) ==>
        k in entries && entries[k].Dir? && Extends(old(entries)[k], entries[k])
      // ... and, once the run completes, has been logged as skipped
      ensures completed ==> forall k :: k in old(entries) && old(entries)[k].Dir? && Unmatched(k, roster) ==>
        Skipped(k, ExtractName(k)) in log
      // the log skips only such folders, each once
      ensures forall i :: 0 <= i < |log| && log[i].Skipped? ==>
        log[i].item in old(entries) && Unmatched(log[i].item, roster) && log[i].extracted == ExtractName(log[i].item)
      ensures forall i, j :: 0 <= i < j < |log| && log[i].Skipped? && log[j].Skipped? ==> log[i].item != log[j].item
      // once the run completes, every matched folder whose new name was free
      // at the start has an entry under that name, renamed or merged into
      ensures completed ==> forall k :: (&& k in old(entries) && old(entries)[k].Dir? && !Unmatched(k, roster)
                                         && NewName(k, roster) !in old(entries)) ==> NewName(k, roster) in entries
      // the only names that appear are new names of matched folders ...
      ensures entries.Keys <= old(entries).Keys + NewNames(old(entries), roster)
      // ... each holding, grown, the folder renamed to it
      ensures forall m :: m in entries && m !in old(entries) ==> exists j ::
        MatchedFolder(old(entries), j, roster) && NewName(j, roster) == m && Extends(old(entries)[j], entries[m])
      // once the run completes, a matched folder renamed or merged away has left its old name,
      // unless that name is the new name of some folder
      ensures completed ==> forall k :: (&& MatchedFolder(old(entries), k, roster) && NewName(k, roster) != k
                                         && k !in NewNames(old(entries), roster)) ==> k !in entries
      // once the run completes, a matched folder whose new name was free, or an
      // unmatched folder, at the start has all its files under that name
      ensures completed ==> forall k :: EndsUnderNewName(old(entries), k, roster) ==>
        NewName(k, roster) in entries && InFolder(old(entries)[k]) <= InFolder(entries[NewName(k, roster)])
      // the run stops early only at a matched folder whose new name exists and whose rmdir raised
      ensures !completed ==> Stopped(old(entries), entries, roster)
    {
      ghost var start := entries;
      forall k | k in entries ensures Extends(entries[k], entries[k]) {
        ExtendsRefl(entries[k]);
      }
      log := [];
      completed := true;
      var pending := entries.Keys;
      while pending != {} && completed
        invariant SubmissionFiles(entries) == SubmissionFiles(start)
        invariant Listing(start, entries, pending, log, roster, completed)
        decreases pending
      {
        var item :| item in pending;
        ghost var before, logBefore := entries, log;
        completed := ProcessFolder(item, roster);
        StepListing(start, before, entries, pending, logBefore, log, item, roster, completed);
        pending := pending - {item};
      }
      ListingDone(start, entries, pending, log, roster, completed);
    }
  }

  /**
   * What handling entry `item` does, from `before` and `log` to `after` and
   * `log'`: every other entry only grows; a file is ignored; an unmatched
   * folder is left alone with exactly one SKIPPED line; a rename moves the
   * folder and logs nothing; a merge logs its MERGE header and then only
   * merge lines below the two folders, and succeeds for a folder holding
   * only files merged into another folder. The run stops (`ok` false) only
   * at a matched folder whose new name exists, which stays, not empty.
   */
  ghost predicate Processed(before: Tree, after: Tree, log: seq<LogEntry>, log': seq<LogEntry>,
                            item: string, roster: Roster, ok: bool)
    requires item in before
  {
    && Grows(before, after, item)
    && (match Decide(item, before, roster)
        case Ignore => ok && after == before && log' == log
        case Skip(e) => ok && after == before && log' == log + [Skipped(item, e)]
        case Rename(n) => ok && after == (before - {item})[n := before[item]] && log' == log
        case MergeInto(n) =>
          && MergedInto(before, after, item, n, ok)
          && |log'| > |log| && log'[..|log|] == log && log'[|log|] == MergeHeader(item, n)
          && (forall i :: |log| < i < |log'| ==> Below(log'[i], [item], [n]))
          && (n != item && before[n].Dir? && FilesOnly(before[item]) ==> ok)
          && (ok && n != item && before[n].Dir? ==> InFolder(after[n]) == InFolder(before[n]) + InFolder(before[item])))
    && (!ok ==> && before[item].Dir? && !Unmatched(item, roster) && NewName(item, roster) in after
                && item in after && after[item].Dir? && after[item].entries != map[]
                && (NewName(item, roster) != item && after[NewName(item, roster)].Dir? ==> !FilesOnly(after[item])))
  }

  /** What the listing loop of rename_directory leaves, once it has stopped. */
  lemma ListingDone(start: Tree, entries: Tree, pending: set<string>, log: seq<LogEntry>, roster: Roster,
                    completed: bool)
    requires Listing(start, entries, pending, log, roster, completed) && (pending == {} || !completed)
    ensures forall k :: k in start && start[k].File? ==> k in entries && entries[k] == start[k]
    ensures forall k :: k in start && start[k].Dir? && Unmatched(k, roster) ==>
      k in entries && entries[k].Dir? && Extends(start[k], entries[k])
    ensures completed ==> forall k :: k in start && start[k].Dir? && Unmatched(k, roster) ==>
      Skipped(k, ExtractName(k)) in log
    ensures forall i :: 0 <= i < |log| && log[i].Skipped? ==>
      log[i].item in start && Unmatched(log[i].item, roster) && log[i].extracted == ExtractName(log[i].item)
    ensures forall i, j :: 0 <= i < j < |log| && log[i].Skipped? && log[j].Skipped? ==> log[i].item != log[j].item
    ensures completed ==> forall k :: (&& k in start && start[k].Dir? && !Unmatched(k, roster)
                                   && NewName(k, roster) !in start) ==> NewName(k, roster) in entries
    ensures entries.Keys <= start.Keys + NewNames(start, roster)
    ensures forall m :: m in entries && m !in start ==> exists j ::
      MatchedFolder(start, j, roster) && NewName(j, roster) == m && Extends(start[j], entries[m])
    ensures completed ==> forall k :: (&& MatchedFolder(start, k, roster) && NewName(k, roster) != k
                                   && k !in NewNames(start, roster)) ==> k !in entries
    ensures completed ==> forall k :: EndsUnderNewName(start, k, roster) ==>
      NewName(k, roster) in entries && InFolder(start[k]) <= InFolder(entries[NewName(k, roster)])
    ensures !completed ==> Stopped(start, entries, roster)
  {
  }

  /** The invariant of the listing loop of rename_directory. */
  ghost predicate Listing(start: Tree, entries: Tree, pending: set<string>, log: seq<LogEntry>, roster: Roster,
                          completed: bool) {
    && TopLevelKept(start, entries, pending, roster)
    && SkipLogged(start, pending, log, roster, completed)
    && (completed ==> Named(start, entries, pending, roster))
    && Moved(start, entries, pending, roster, completed)
    && (completed ==> Gathered(start, entries, pending, roster))
    && (!completed ==> Stopped(start, entries, roster))
  }

  /** A folder of `start` that finds a roster entry. */
  ghost predicate MatchedFolder(start: Tree, k: string, roster: Roster) {
    k in start && start[k].Dir? && !Unmatched(k, roster)
  }

  /** The new names of the matched folders of `t`. */
  ghost function NewNames(t: Tree, roster: Roster): set<string> {
    set k | k in t && t[k].Dir? && !Unmatched(k, roster) :: NewName(k, roster)
  }

  /**
   * While rename_directory runs: every name that was not there at the
   * start is the new name of a matched folder and holds that folder, grown;
   * and, unless a step raised, each matched folder already handled has left
   * its old name, unless that name is itself a new name.
   */
  ghost predicate Moved(start: Tree, entries: Tree, pending: set<string>, roster: Roster, completed: bool) {
    && entries.Keys <= start.Keys + NewNames(start, roster)
    && (forall m :: m in entries && m !in start ==> exists j ::
          MatchedFolder(start, j, roster) && NewName(j, roster) == m && Extends(start[j], entries[m]))
    && (completed ==> forall k :: (&& MatchedFolder(start, k, roster) && k !in pending && NewName(k, roster) != k
                                   && k !in NewNames(start, roster)) ==> k !in entries)
  }

  lemma StepMoved(start: Tree, before: Tree, after: Tree, pending: set<string>, log: seq<LogEntry>,
                  log': seq<LogEntry>, item: string, roster: Roster, ok: bool)
    requires TopLevelKept(start, before, pending, roster) && Moved(start, before, pending, roster, true) && item in pending
    requires item in before && Processed(before, after, log, log', item, roster, ok)
    ensures Moved(start, after, pending - {item}, roster, ok)
  {
    assert Extends(start[item], before[item]);
    match Decide(item, before, roster)
    case Ignore =>
    case Skip(_) =>
    case Rename(n) =>
      MovedRename(start, before, pending, item, n, roster);
    case MergeInto(n) =>
      MovedMerge(start, before, after, pending, item, n, roster, ok);
  }

  /** A rename to a free name keeps `Moved`. */
  lemma MovedRename(start: Tree, before: Tree, pending: set<string>, item: string, n: string, roster: Roster)
    requires TopLevelKept(start, before, pending, roster) && Moved(start, before, pending, roster, true) && item in pending
    requires before[item].Dir? && !Unmatched(item, roster) && n == NewName(item, roster) && n !in before
    ensures Moved(start, (before - {item})[n := before[item]], pending - {item}, roster, true)
  {
    var after := (before - {item})[n := before[item]];
    assert Extends(start[item], before[item]);
    assert MatchedFolder(start, item, roster) && n in NewNames(start, roster);
    forall m | m in after && m !in start
      ensures exists j :: MatchedFolder(start, j, roster) && NewName(j, roster) == m && Extends(start[j], after[m])
    {
      if m == n {
        assert NewName(item, roster) == m && Extends(start[item], after[m]);
      } else {
        assert m in before && after[m] == before[m];
      }
    }
  }

  /** A merge into an existing entry, then the rmdir, keeps `Moved`. */
  lemma MovedMerge(start: Tree, before: Tree, after: Tree, pending: set<string>, item: string, n: string,
                   roster: Roster, ok: bool)
    requires TopLevelKept(start, before, pending, roster) && Moved(start, before, pending, roster, true) && item in pending
    requires item in before && n in before && MergedInto(before, after, item, n, ok)
    ensures Moved(start, after, pending - {item}, roster, ok)
  {
    forall m | m in after && m !in start
      ensures exists j :: MatchedFolder(start, j, roster) && NewName(j, roster) == m && Extends(start[j], after[m])
    {
      var j :| MatchedFolder(start, j, roster) && NewName(j, roster) == m && Extends(start[j], before[m]);
      if m == n {
        ExtendsTrans(start[j], before[m], after[m]);
      }
    }
  }

  /**
   * A matched folder of `start` whose new name is another name, one that
   * was free or held an unmatched folder: nothing else is renamed to that
   * name, so once the run completes, this folder's files are there.
   */
  ghost predicate EndsUnderNewName(start: Tree, k: string, roster: Roster) {
    && MatchedFolder(start, k, roster) && NewName(k, roster) != k
    && (NewName(k, roster) !in start || (start[NewName(k, roster)].Dir? && Unmatched(NewName(k, roster), roster)))
  }

  /**
   * Every such folder already handled has all its files under its new
   * name: it was renamed to it, or merged into the folder found there.
   */
  ghost predicate Gathered(start: Tree, entries: Tree, pending: set<string>, roster: Roster) {
    forall k :: EndsUnderNewName(start, k, roster) && k !in pending ==>
      NewName(k, roster) in entries && InFolder(start[k]) <= InFolder(entries[NewName(k, roster)])
  }

  lemma StepGathered(start: Tree, before: Tree, after: Tree, pending: set<string>, log: seq<LogEntry>,
                     log': seq<LogEntry>, item: string, roster: Roster, ok: bool)
    requires TopLevelKept(start, before, pending, roster) && Moved(start, before, pending, roster, true)
    requires Gathered(start, before, pending, roster) && item in pending
    requires item in before && Processed(before, after, log, log', item, roster, ok)
    ensures ok ==> Gathered(start, after, pending - {item}, roster)
  {
    var a := Decide(item, before, roster);
    if a.Ignore? || a.Skip? {
      GatheredSkip(start, before, after, log, log', pending, item, roster, ok);
    } else if ok {
      ProcessedMove(before, after, log, log', item, roster);
      GatheredAll(start, before, after, pending, item, roster);
    }
  }

  /** A file or an unmatched folder handled keeps `Gathered`. */
  lemma GatheredSkip(start: Tree, before: Tree, after: Tree, log: seq<LogEntry>, log': seq<LogEntry>,
                     pending: set<string>, item: string, roster: Roster, ok: bool)
    requires TopLevelKept(start, before, pending, roster) && Gathered(start, before, pending, roster) && item in pending
    requires item in before && Processed(before, after, log, log', item, roster, ok)
    requires Decide(item, before, roster).Ignore? || Decide(item, before, roster).Skip?
    ensures Gathered(start, after, pending - {item}, roster)
  {
    assert Extends(start[item], before[item]);
    assert after == before && !EndsUnderNewName(start, item, roster);
  }

  /** Where a rename, or a merge that went through, leaves the files of folder `item`. */
  lemma ProcessedMove(before: Tree, after: Tree, log: seq<LogEntry>, log': seq<LogEntry>, item: string, roster: Roster)
    requires item in before && Processed(before, after, log, log', item, roster, true)
    requires Decide(item, before, roster).Rename? || Decide(item, before, roster).MergeInto?
    ensures before[item].Dir? && !Unmatched(item, roster) && Grows(before, after, item)
    ensures var m := NewName(item, roster);
      || (m !in before && after == (before - {item})[m := before[item]])
      || (&& m in before
          && (m != item ==> m in after && (before[m].Dir? ==> InFolder(after[m]) == InFolder(before[m]) + InFolder(before[item]))))
  {
  }

  /** A rename or a merge that went through keeps `Gathered`. */
  lemma GatheredAll(start: Tree, before: Tree, after: Tree, pending: set<string>, item: string, roster: Roster)
    requires TopLevelKept(start, before, pending, roster) && Moved(start, before, pending, roster, true)
    requires Gathered(start, before, pending, roster) && item in pending && item in before
    requires before[item].Dir? && !Unmatched(item, roster) && Grows(before, after, item)
    requires var m := NewName(item, roster);
      || (m !in before && after == (before - {item})[m := before[item]])
      || (&& m in before
          && (m != item ==> m in after && (before[m].Dir? ==> InFolder(after[m]) == InFolder(before[m]) + InFolder(before[item]))))
    ensures Gathered(start, after, pending - {item}, roster)
  {
    forall k | EndsUnderNewName(start, k, roster) && k !in pending - {item}
      ensures NewName(k, roster) in after && InFolder(start[k]) <= InFolder(after[NewName(k, roster)])
    {
      GatheredStep(start, before, after, pending, item, k, roster);
    }
  }

  /** One matched folder handled by a rename or a merge, seen from folder `k`. */
  lemma GatheredStep(start: Tree, before: Tree, after: Tree, pending: set<string>, item: string, k: string,
                     roster: Roster)
    requires TopLevelKept(start, before, pending, roster) && Moved(start, before, pending, roster, true)
    requires Gathered(start, before, pending, roster) && item in pending && item in before
    requires before[item].Dir? && !Unmatched(item, roster) && Grows(before, after, item)
    requires var m := NewName(item, roster);
      || (m !in before && after == (before - {item})[m := before[item]])
      || (&& m in before
          && (m != item ==> m in after && (before[m].Dir? ==> InFolder(after[m]) == InFolder(before[m]) + InFolder(before[item]))))
    requires EndsUnderNewName(start, k, roster) && k !in pending - {item}
    ensures NewName(k, roster) in after && InFolder(start[k]) <= InFolder(after[NewName(k, roster)])
  {
    var n := NewName(k, roster);
    if k == item {
      assert Extends(start[item], before[item]);
      InFolderExtends(start[item], before[item]);
      if n in before {
        if n in start {
          assert before[n].Dir?;
        } else {
          var j :| MatchedFolder(start, j, roster) && NewName(j, roster) == n && Extends(start[j], before[n]);
          assert before[n].Dir?;
        }
      }
    } else {
      assert n != item;
      InFolderExtends(before[n], after[n]);
    }
  }

  /**
   * Every matched folder already handled whose new name was not in the
   * target directory at the start now has an entry under that name: it was
   * renamed to it, or merged into the folder an earlier rename created.
   */
  ghost predicate Named(start: Tree, entries: Tree, pending: set<string>, roster: Roster) {
    forall k :: (&& k in start && k !in pending && start[k].Dir? && !Unmatched(k, roster)
                 && NewName(k, roster) !in start) ==> NewName(k, roster) in entries
  }

  lemma StepNamed(start: Tree, before: Tree, after: Tree, pending: set<string>, log: seq<LogEntry>,
                  log': seq<LogEntry>, item: string, roster: Roster, ok: bool)
    requires TopLevelKept(start, before, pending, roster) && Named(start, before, pending, roster) && item in pending
    requires item in before && Processed(before, after, log, log', item, roster, ok)
    ensures ok ==> Named(start, after, pending - {item}, roster)
  {
    forall k | && k in start && k !in pending - {item} && start[k].Dir? && !Unmatched(k, roster)
               && NewName(k, roster) !in start
      ensures NewName(k, roster) in after
    {
      var n := NewName(k, roster);
      if k == item {
        assert Extends(start[item], before[item]);
        assert n != item;
        match Decide(item, before, roster)
        case Rename(_) =>
        case MergeInto(_) =>
      } else {
        assert n in before && n != item;
      }
    }
  }

  lemma StepListing(start: Tree, before: Tree, after: Tree, pending: set<string>, log: seq<LogEntry>,
                    log': seq<LogEntry>, item: string, roster: Roster, ok: bool)
    requires Listing(start, before, pending, log, roster, true) && item in pending
    requires item in before && Processed(before, after, log, log', item, roster, ok)
    ensures Listing(start, after, pending - {item}, log', roster, ok)
  {
    KeepTopLevel(start, before, after, pending, item, roster);
    StepSkipLines(before, log, log', item, roster);
    KeepSkipLog(start, before, log, log', pending, item, roster, ok);
    StepStopped(start, before, after, pending, item, roster, ok);
    StepNamed(start, before, after, pending, log, log', item, roster, ok);
    StepMoved(start, before, after, pending, log, log', item, roster, ok);
    StepGathered(start, before, after, pending, log, log', item, roster, ok);
  }

  /**
   * While rename_directory runs: the entries still to be handled are there
   * and have only grown, top-level files already passed are untouched, and
   * unmatched folders are still there, grown at most.
   */
  ghost predicate TopLevelKept(start: Tree, entries: Tree, pending: set<string>, roster: Roster) {
    && pending <= entries.Keys && pending <= start.Keys
    && (forall k :: k in start && k !in pending && start[k].File? ==> k in entries && entries[k] == start[k])
    && (forall k :: k in pending ==> Extends(start[k], entries[k]))
    && (forall k :: k in start && start[k].Dir? && Unmatched(k, roster) ==>
          k in entries && entries[k].Dir? && Extends(start[k], entries[k]))
  }

  /**
   * While rename_directory runs: every unmatched folder already handled was
   * logged as skipped, and the log skips only such folders, each once.
   */
  ghost predicate SkipLogged(start: Tree, pending: set<string>, log: seq<LogEntry>, roster: Roster, completed: bool) {
    && (completed ==> forall k :: k in start && k !in pending && start[k].Dir? && Unmatched(k, roster) ==>
          Skipped(k, ExtractName(k)) in log)
    && (forall i :: 0 <= i < |log| && log[i].Skipped? ==>
          && log[i].item in start && log[i].item !in pending
          && Unmatched(log[i].item, roster) && log[i].extracted == ExtractName(log[i].item))
    && (forall i, j :: 0 <= i < j < |log| && log[i].Skipped? && log[j].Skipped? ==> log[i].item != log[j].item)
  }

  /**
   * Some matched folder of `start` is still there, not empty, next to the
   * entry its new name names: the merge into it ended in an rmdir that
   * raised. If that entry is another folder, the folder left behind still
   * holds a subfolder.
   */
  ghost predicate Stopped(start: Tree, entries: Tree, roster: Roster) {
    exists k :: && k in start && start[k].Dir? && !Unmatched(k, roster) && NewName(k, roster) in entries
                && k in entries && entries[k].Dir? && entries[k].entries != map[]
                && (NewName(k, roster) != k && entries[NewName(k, roster)].Dir? ==> !FilesOnly(entries[k]))
  }

  lemma StepStopped(start: Tree, before: Tree, after: Tree, pending: set<string>, item: string, roster: Roster, ok: bool)
    requires TopLevelKept(start, before, pending, roster) && item in pending
    requires !ok ==> && before[item].Dir? && !Unmatched(item, roster) && NewName(item, roster) in after
                     && item in after && after[item].Dir? && after[item].entries != map[]
                     && (NewName(item, roster) != item && after[NewName(item, roster)].Dir? ==> !FilesOnly(after[item]))
    ensures !ok ==> Stopped(start, after, roster)
  {
    if !ok {
      assert Extends(start[item], before[item]);
      assert start[item].Dir?;
    }
  }

  lemma KeepTopLevel(start: Tree, before: Tree, after: Tree, pending: set<string>, item: string, roster: Roster)
    requires TopLevelKept(start, before, pending, roster) && item in pending
    requires Grows(before, after, item)
    requires Decide(item, before, roster).Ignore? ==> after == before
    requires Decide(item, before, roster).Skip? ==> after == before
    ensures TopLevelKept(start, after, pending - {item}, roster)
  {
    forall k | k in pending - {item} ensures Extends(start[k], after[k]) {
      ExtendsTrans(start[k], before[k], after[k]);
    }
    if start[item].File? {
      assert before[item].File?;
    }
    forall k | k in start && start[k].Dir? && Unmatched(k, roster) && k != item
      ensures Extends(start[k], after[k])
    {
      ExtendsTrans(start[k], before[k], after[k]);
    }
  }

  /** The lines handling one entry adds: one skip line for an unmatched folder, none otherwise. */
  lemma StepSkipLines(before: Tree, log: seq<LogEntry>, log': seq<LogEntry>, item: string, roster: Roster)
    requires item in before
    requires match Decide(item, before, roster)
      case Ignore => log' == log
      case Skip(e) => log' == log + [Skipped(item, e)]
      case Rename(_) => log' == log
      case MergeInto(n) =>
        && |log'| > |log| && log'[..|log|] == log && log'[|log|] == MergeHeader(item, n)
        && forall i :: |log| < i < |log'| ==> Below(log'[i], [item], [n])
    ensures |log'| >= |log| && log'[..|log|] == log
    ensures before[item].Dir? && Unmatched(item, roster) ==> log' == log + [Skipped(item, ExtractName(item))]
    ensures !(before[item].Dir? && Unmatched(item, roster)) ==> forall i :: |log| <= i < |log'| ==> !log'[i].Skipped?
  {
    match Decide(item, before, roster)
    case Ignore =>
    case Skip(e) =>
    case Rename(_) =>
    case MergeInto(n) =>
      forall i | |log| <= i < |log'| ensures !log'[i].Skipped? {
        if i > |log| {
          assert Below(log'[i], [item], [n]);
        }
      }
  }

  lemma KeepSkipLog(start: Tree, before: Tree, log: seq<LogEntry>, log': seq<LogEntry>, pending: set<string>,
                    item: string, roster: Roster, completed: bool)
    requires TopLevelKept(start, before, pending, roster) && SkipLogged(start, pending, log, roster, true)
    requires item in pending
    requires |log'| >= |log| && log'[..|log|] == log
    requires before[item].Dir? && Unmatched(item, roster) ==> log' == log + [Skipped(item, ExtractName(item))]
    requires !(before[item].Dir? && Unmatched(item, roster)) ==> forall i :: |log| <= i < |log'| ==> !log'[i].Skipped?
    ensures SkipLogged(start, pending - {item}, log', roster, completed)
  {
    var rest := pending - {item};
    assert forall i :: 0 <= i < |log| ==> log'[i] == log[i];
    forall i | 0 <= i < |log'| && log'[i].Skipped?
      ensures && log'[i].item in start && log'[i].item !in rest
              && Unmatched(log'[i].item, roster) && log'[i].extracted == ExtractName(log'[i].item)
    {
      if i < |log| {
        assert log'[i] == log[i];
      }
    }
    forall i, j | 0 <= i < j < |log'| && log'[i].Skipped? && log'[j].Skipped? ensures log'[i].item != log'[j].item {
      if j < |log| {
        assert log'[i] == log[i] && log'[j] == log[j];
      } else {
        assert log'[i] == log[i];
      }
    }
    if completed {
      forall k | k in start && k !in rest && start[k].Dir? && Unmatched(k, roster) ensures Skipped(k, ExtractName(k)) in log' {
        if k == item {
          assert log'[|log|] == Skipped(item, ExtractName(item));
        } else {
          var i :| 0 <= i < |log| && log[i] == Skipped(k, ExtractName(k));
          assert log'[i] == log[i];
        }
      }
    }
  }
}
