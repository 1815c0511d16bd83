/**
 * The id-matching renaming scripts (rename_unzip_student_sub and its v2,
 * whose renaming parts are the same): the roster keyed by the raw
 * student_id, and rename_directory, which renames each folder whose first
 * eight characters are a roster id to f"{team}_{name}_{id}".
 */
module IdMatching {
  import opened PyText
  import opened FsTree
  import opened Submission

  // ---------------------------------------------------------------- the roster

  /** The value stored for an id: [name, class, team]. */
  datatype Entry = Entry(name: string, className: string, team: string)

  type IdRoster = map<string, Entry>

  function EntryOf(row: Row): Entry {
    Entry(row.name, row.className, row.team)
  }

  /** The dictionary after student_dict[row['student_id']] = ... has run for each of `rows` in turn. */
  function IdRosterOf(rows: seq<Row>): IdRoster {
    if rows == [] then map[]
    else
      var last := rows[|rows| - 1];
      IdRosterOf(rows[..|rows| - 1])[last.studentId := EntryOf(last)]
  }

  /** read_name_list of the id-matching scripts. */
  method ReadIdList(rows: seq<Row>) returns (dict: IdRoster)
    ensures dict == IdRosterOf(rows)
  {
    dict := map[];
    var i := 0;
    while i < |rows|
      invariant 0 <= i <= |rows|
      invariant dict == IdRosterOf(rows[..i])
    {
      assert rows[..i + 1][..i] == rows[..i];
      dict := dict[rows[i].studentId := EntryOf(rows[i])];
      i := i + 1;
    }
    assert rows[..|rows|] == rows;
  }

  /** The roster has a key exactly for the ids of the rows, unnormalised. */
  lemma {:induction false} IdRosterKeys(rows: seq<Row>, id: string)
    ensures id in IdRosterOf(rows) <==> exists i :: 0 <= i < |rows| && rows[i].studentId == id
  {
    if rows != [] {
      var init := rows[..|rows| - 1];
      IdRosterKeys(init, id);
      if id in IdRosterOf(init) {
        var i :| 0 <= i < |init| && init[i].studentId == id;
        assert rows[i] == init[i];
      }
      if exists i :: 0 <= i < |rows| && rows[i].studentId == id {
        var i :| 0 <= i < |rows| && rows[i].studentId == id;
        if i < |rows| - 1 {
          assert init[i] == rows[i];
        }
      }
    }
  }

  /** On a duplicate id the last row wins. */
  lemma {:induction false} IdRosterLastWins(rows: seq<Row>, i: int)
    requires 0 <= i < |rows| && forall j :: i < j < |rows| ==> rows[j].studentId != rows[i].studentId
    ensures rows[i].studentId in IdRosterOf(rows) && IdRosterOf(rows)[rows[i].studentId] == EntryOf(rows[i])
  {
    var init := rows[..|rows| - 1];
    if i < |rows| - 1 {
      forall j | i < j < |init| ensures init[j].studentId != init[i].studentId {
        assert init[j] == rows[j] && init[i] == rows[i];
      }
      IdRosterLastWins(init, i);
    }
  }

  // ---------------------------------------------------------------- one folder

  /** item[:8]: the key a folder is looked up under. */
  function IdKey(item: string): (k: string)
    ensures |k| <= 8 && |k| <= |item| && k == item[..|k|]
    ensures |item| >= 8 ==> |k| == 8
    ensures |item| < 8 ==> k == item
  {
    Prefix(item, 8)
  }

  /** The new name of folder `item`, whose key is in the roster: from the roster's name, not the folder's. */
  function IdFolderName(item: string, roster: IdRoster): string
    requires IdKey(item) in roster
  {
    var e := roster[IdKey(item)];
    FolderName(e.team, e.name, IdKey(item))
  }

  /** A directory whose key is a roster id. */
  predicate Matched(item: string, t: Tree, roster: IdRoster) {
    item in t && t[item].Dir? && IdKey(item) in roster
  }

  /** The names the matched folders of `t` are renamed to. */
  ghost function Targets(t: Tree, roster: IdRoster): set<string> {
    set k | k in t && Matched(k, t, roster) :: IdFolderName(k, roster)
  }

  // ---------------------------------------------------------------- the target directory

  /** The target directory, as rename_directory changes it. */
  class IdTarget {
    var entries: Tree

    constructor(entries: Tree)
      ensures this.entries == entries
    {
      this.entries := entries;
    }

    /**
     * rename_directory: every entry of the listing taken at the start, in
     * some order. os.rename onto a name that exists raises, which ends the
     * run (`completed` is then false); renaming a folder to its own name
     * changes nothing.
     */
    method RenameDirectory(roster: IdRoster) returns (completed: bool)
      modifies this
      // no file of any submission folder is lost or duplicated
      ensures SubmissionFiles(entries) == old(SubmissionFiles(entries))
      // files, and folders whose key is not in the roster, are never touched
      ensures forall k :: k in old(entries) && !Matched(k, old(entries), roster) ==>
        k in entries && entries[k] == old(entries)[k]
      // once the run completes, every matched folder sits unchanged under its new name
      ensures completed ==> forall k :: Matched(k, old(entries), roster) ==>
        IdFolderName(k, roster) in entries && entries[IdFolderName(k, roster)] == old(entries)[k]
      // and no other name appears
      ensures entries.Keys <= old(entries).Keys + Targets(old(entries), roster)
      // once the run completes, a folder renamed away has left its old name,
      // unless another folder was renamed to that name
      ensures completed ==> forall k :: (&& Matched(k, old(entries), roster) && IdFolderName(k, roster) != k
                                         && k !in Targets(old(entries), roster)) ==> k !in entries
      // the run stops early only at a matched folder whose new name is taken by another entry
      ensures !completed ==> exists k :: && Matched(k, old(entries), roster) && k in entries
                                         && IdFolderName(k, roster) != k && IdFolderName(k, roster) in entries
    {
      ghost var start := entries;
      completed := true;
      var pending := entries.Keys;
      while pending != {} && completed
        invariant SubmissionFiles(entries) == SubmissionFiles(start)
        invariant Renaming(start, entries, pending, roster, completed)
        decreases pending
      {
        var item :| item in pending;
        if entries[item].Dir? && IdKey(item) in roster {
          var n := IdFolderName(item, roster);
          if n == item {
            // os.rename of a path onto itself
            KeepOnSkip(start, entries, pending, item, roster);
          } else if n in entries {
            completed := false;
            KeepOnFail(start, entries, pending, item, roster);
            assert Blocked(start, entries, roster);
          } else {
            RenamedFolder(entries, item, n);
            KeepOnRename(start, entries, pending, item, roster);
            entries := (entries - {item})[n := entries[item]];
          }
        } else {
          KeepOnSkip(start, entries, pending, item, roster);
        }
        pending := pending - {item};
      }
    }
  }

  /**
   * While rename_directory runs: the entries still to be handled are there
   * and unchanged; entries that are not matched folders are untouched; and
   * every name is either an original one or a new name. A run that has
   * stopped stopped at a blocked rename.
   */
  ghost predicate Renaming(start: Tree, entries: Tree, pending: set<string>, roster: IdRoster, completed: bool) {
    && RenamingFrame(start, entries, pending, roster)
    && (completed ==> Renamed(start, entries, pending, roster))
    && (!completed ==> Blocked(start, entries, roster))
  }

  /** Some matched folder is still there, and its new name is taken by another entry. */
  ghost predicate Blocked(start: Tree, entries: Tree, roster: IdRoster) {
    exists k :: && Matched(k, start, roster) && k in entries
                && IdFolderName(k, roster) != k && IdFolderName(k, roster) in entries
  }

  ghost predicate RenamingFrame(start: Tree, entries: Tree, pending: set<string>, roster: IdRoster) {
    && pending <= entries.Keys && pending <= start.Keys
    && (forall k :: k in pending ==> entries[k] == start[k])
    && (forall k :: k in start && !Matched(k, start, roster) ==> k in entries && entries[k] == start[k])
    && entries.Keys <= start.Keys + Targets(start, roster)
  }

  /**
   * Each matched folder already handled sits, unchanged, under its new
   * name, which is not to be handled any more; its old name is gone unless
   * it is the new name of some folder.
   */
  ghost predicate Renamed(start: Tree, entries: Tree, pending: set<string>, roster: IdRoster) {
    forall k :: Matched(k, start, roster) && k !in pending ==>
      && IdFolderName(k, roster) in entries && entries[IdFolderName(k, roster)] == start[k]
      && IdFolderName(k, roster) !in pending
      && (IdFolderName(k, roster) != k && k !in Targets(start, roster) ==> k !in entries)
  }

  lemma KeepOnSkip(start: Tree, entries: Tree, pending: set<string>, item: string, roster: IdRoster)
    requires Renaming(start, entries, pending, roster, true) && item in pending
    requires Matched(item, start, roster) ==> IdFolderName(item, roster) == item
    ensures Renaming(start, entries, pending - {item}, roster, true)
  {
  }

  lemma KeepOnFail(start: Tree, entries: Tree, pending: set<string>, item: string, roster: IdRoster)
    requires Renaming(start, entries, pending, roster, true) && item in pending
    requires entries[item].Dir? && IdKey(item) in roster
    requires IdFolderName(item, roster) != item && IdFolderName(item, roster) in entries
    ensures Renaming(start, entries, pending - {item}, roster, false)
  {
    assert Matched(item, start, roster);
  }

  lemma KeepOnRename(start: Tree, entries: Tree, pending: set<string>, item: string, roster: IdRoster)
    requires Renaming(start, entries, pending, roster, true) && item in pending && Matched(item, start, roster)
    requires IdFolderName(item, roster) !in entries
    ensures var n := IdFolderName(item, roster);
      Renaming(start, (entries - {item})[n := entries[item]], pending - {item}, roster, true)
  {
    KeepFrame(start, entries, pending, item, roster);
    KeepRenamed(start, entries, pending, item, roster);
  }

  lemma KeepFrame(start: Tree, entries: Tree, pending: set<string>, item: string, roster: IdRoster)
    requires RenamingFrame(start, entries, pending, roster) && item in pending && Matched(item, start, roster)
    requires IdFolderName(item, roster) !in entries
    ensures var n := IdFolderName(item, roster);
      RenamingFrame(start, (entries - {item})[n := entries[item]], pending - {item}, roster)
  {
    var n := IdFolderName(item, roster);
    var after, rest := (entries - {item})[n := entries[item]], pending - {item};
    assert n in Targets(start, roster);
    assert after.Keys == entries.Keys - {item} + {n};
    forall k | k in rest ensures after[k] == start[k] {
      assert k != n && k != item;
    }
  }

  lemma KeepRenamed(start: Tree, entries: Tree, pending: set<string>, item: string, roster: IdRoster)
    requires pending <= entries.Keys && pending <= start.Keys && (forall k :: k in pending ==> entries[k] == start[k])
    requires Renamed(start, entries, pending, roster) && item in pending && Matched(item, start, roster)
    requires IdFolderName(item, roster) !in entries
    ensures var n := IdFolderName(item, roster);
      Renamed(start, (entries - {item})[n := entries[item]], pending - {item}, roster)
  {
    var n := IdFolderName(item, roster);
    var after, rest := (entries - {item})[n := entries[item]], pending - {item};
    assert n in Targets(start, roster);
    forall k | Matched(k, start, roster) && k !in rest
      ensures && IdFolderName(k, roster) in after && after[IdFolderName(k, roster)] == start[k]
              && IdFolderName(k, roster) !in rest
              && (IdFolderName(k, roster) != k && k !in Targets(start, roster) ==> k !in after)
    {
      var m := IdFolderName(k, roster);
      if k != item {
        assert m in entries && m != item && m != n;
      }
    }
  }
}
