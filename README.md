# Renaming student submission folders

A model, in Dafny, of the scripts that rename the folders of a batch of student submissions. Each folder is matched to a row of a roster and renamed to `team_name_studentId`.

There are two families of scripts, and the model keeps them apart.

- **Name matching** (`rename_pm_student_sub.py`, `rename_politemall_student_sub.py`):
  - The roster is keyed by the student's name, normalised: stripped, upper-cased, commas dropped, whitespace collapsed.
  - A folder name such as `12345 - Jane Doe SOIxyz` is parsed for the text between the first `" - "` and the first `" SOI"`.
  - A matched folder is renamed to its new name. If that name exists already, the folder is merged into it and then removed with `rmdir`.
  - An unmatched folder is left alone and logged as skipped.
  - The merge never overwrites anything:
    - a colliding file goes to the first free `base_N.ext`;
    - a subfolder whose name exists in the destination is merged recursively and left behind;
    - any other subfolder is moved whole.
  - The politemall variant also computes a flat backup name for every `.zip` file: its path relative to the target directory, with separators replaced by `_`.
- **Id matching** (`rename_unzip_student_sub.py`, `rename_unzip_student_sub_v2.py`; their renaming code is the same):
  - The roster is keyed by the raw student id.
  - A folder is looked up under its first eight characters, and renamed to a name built from the roster's data.

Modules:

- `PyText`: the Python string operations involved.
  - `strip`, `upper`, `split`, `' '.join`, `replace` of one character, `index`, slicing and `endswith`;
  - `os.path.splitext` and `f"{n}"`.
- `NameKey`: the roster key and what it is insensitive to.
- `FsTree`: a directory tree (`File(bytes)` or `Dir(map name -> node)`) and ghost accounting.
  - *FilesIn* is the multiset of files, each recorded by the directory it sits in and its bytes, but not by its own name. So "no file lost or duplicated" holds up to the renaming of a file within its directory.
  - *SubmissionFiles* is the multiset of files inside the top-level folders.
  - *Extends* means a tree has only grown.
  - *Hollow* means a skeleton of empty directories.
- `MergeEngine`: `merge_folder_contents`, with the free-name `while` loop.
- `Submission`: roster rows and the new-name format shared by both families.
- `NameMatching`: `read_name_list`, `extract_name_from_folder` and `rename_directory` of the name-matching scripts.
  - The target directory and its log are the class `NameTarget`. Its methods update them in place.
- `Politemall`: the politemall differences (the comma replace applied twice; the backup name).
- `IdMatching`: `read_name_list` and `rename_directory` of the id-matching scripts, with the class `IdTarget`.

How the environment is modelled:

- The CSV reader's output is a sequence of `Row`s.
- `os.listdir` order is arbitrary. Every loop picks its next entry with `:|`, so each contract holds for every order.
- An exception that ends the run is a `false` result (`ok` or `completed`), and the loop stops there. These exceptions are:
  - `os.rmdir` of a folder that is not empty;
  - a move into a path below a file;
  - `os.rename` onto an existing name, in the id-matching scripts.
- The log is a sequence of structured entries, one per line the scripts write.

Behaviour worth knowing:

- The new name keeps the parsed name's case. Folders `001 - Jane Doe SOIfall` and `002 - JANE, DOE SOIfall` match the same roster row (team `T9`, id `S1`), yet they get the different names `T9_Jane Doe_S1` and `T9_JANE DOE_S1`. `NameMatching.DecideRows` states the name the code builds.
- A rename writes no log line, although the comment at rename_pm_student_sub.py:60 says all actions are logged (`NameMatching.NameTarget.ProcessFolder`).
- A recursively merged subfolder is left behind in the source. So the `os.rmdir` after such a merge raises and ends the run; `NameMatching.NameTarget.MergeAndRemove` states that any such merge ends with `ok` false.
- A folder holding only files, merged into another folder, is emptied and removed (`NameMatching.NameTarget.MergeAndRemove`).
- A folder name that cannot be parsed yields `""`. The key `""` is in the roster when some row's name is blank, so such a folder is matched to that row (`NameMatching.UnparsedMatchesBlank`).

## Model

| member | source | states |
|---|---|---|
| PyText.Find | rename_pm_student_sub.py:25-26 | `str.index`: the first position the pattern occurs at, or None (the ValueError) when it occurs nowhere |
| PyText.SplitExt | rename_pm_student_sub.py:50 | `os.path.splitext` of a name: base + ext is the name; ext starts at the last '.' and holds no other '.'; no extension when only dots precede that '.' |
| PyText.Decimal | rename_pm_student_sub.py:53 | the counter's rendering is non-empty and all digits, with no leading zero: it starts with '0' only for 0, which renders as "0" |
| PyText.ParseDecimalOfDecimal | rename_pm_student_sub.py:53 | reading a counter's rendering back gives the counter, so different counters render differently |
| NameKey.RosterKey | rename_pm_student_sub.py:16 | the key is single-spaced, comma-free and has no lower-case letter, and its words are the name's words once upper-cased with commas dropped |
| NameKey.RosterKeyIdempotent | rename_pm_student_sub.py:16 | normalising a key again gives the same key |
| NameKey.RosterKeyEquality | rename_politemall_student_sub.py:14 | two names share a key if and only if they reduce to the same words, whatever their whitespace, case and commas |
| NameKey.LookupKeyIsRosterKey | rename_pm_student_sub.py:67 | for a single-spaced, comma-free name, `strip().upper()` equals the roster normalisation |
| NameMatching.ReadNameList | rename_pm_student_sub.py:11-18 | the dict-filling loop builds the roster `RosterOf(rows)` |
| NameMatching.RosterKeys | rename_politemall_student_sub.py:13-15 | a key is in the roster if and only if some row's name normalises to it |
| NameMatching.RosterLastWins | rename_pm_student_sub.py:17 | on a duplicate key the last such row's id, class and team are stored |
| NameMatching.RosterKeysNormal | rename_politemall_student_sub.py:14-15 | every roster key is single-spaced, comma-free, upper case and its own normalisation |
| NameMatching.Collapse | rename_pm_student_sub.py:27-29 | the collapsed text is single-spaced, comma-free and uses only spaces and characters of the slice |
| NameMatching.CollapseWords | rename_pm_student_sub.py:27-29 | collapsing keeps exactly the words of the slice, with commas dropped, joined by single spaces |
| NameMatching.ExtractName | rename_pm_student_sub.py:23-32 | the parsed name is single-spaced, comma-free and made of characters of the folder name; it is "" when `" - "` or `" SOI"` is missing |
| NameMatching.ExtractNameWords | rename_pm_student_sub.py:25-29 | with both markers found, the name is the words of the slice from the end of the first `" - "` to the first `" SOI"` of the whole name, commas dropped, case kept; it is "" when that `" SOI"` starts before the slice does |
| NameMatching.LookupKeyOfExtract | rename_pm_student_sub.py:66-67 | the folder's lookup key is the roster normalisation of its parsed name |
| NameMatching.MatchesRow | rename_pm_student_sub.py:66-68 | a folder finds a roster entry if and only if some row's name has the same words as the parsed name |
| NameMatching.UnparsedMatchesBlank | rename_pm_student_sub.py:31-32 | a folder name that cannot be parsed is matched as soon as some row's name is blank |
| NameMatching.Decide | rename_pm_student_sub.py:65-74 | a file is ignored; a folder is skipped, with its parsed name, if and only if it is unmatched; a merge target exists and a rename target does not |
| NameMatching.DecideRows | rename_pm_student_sub.py:68-74 | a matched folder's new name is built from the last matching row's team and id with the parsed name; a merge when it exists, a rename when not |
| NameMatching.DecideSkip | rename_politemall_student_sub.py:62-78 | a folder is skipped if and only if no row's name has its parsed words |
| FsTree.RenamedFolder | rename_pm_student_sub.py:80 | renaming a top-level folder to a free name keeps every submission file (also the `os.rename` of the id-matching scripts) |
| NameMatching.RemovedEmpty | rename_pm_student_sub.py:77 | removing an empty folder keeps every submission file |
| NameMatching.FoldedShape | rename_pm_student_sub.py:76-77 | after merging a folder into another, all other entries are untouched, the target has only grown, and the folder is gone exactly when the rmdir succeeded |
| NameMatching.FoldedFolders | rename_pm_student_sub.py:76-77 | merging a folder into another and removing it keeps every submission file |
| NameMatching.NameTarget.constructor | rename_pm_student_sub.py:62 | the log starts empty (the log file is opened with 'w') |
| NameMatching.NameTarget.ProcessFolder | rename_pm_student_sub.py:64-84 | one listing entry: ignored files and skipped folders leave the tree unchanged; a skip adds exactly one SKIPPED line; a rename moves the folder and logs nothing; a merge logs its MERGE header and then only merge lines below the two folders, and succeeds for a folder holding only files merged into another folder; no submission file is lost or duplicated and no other entry shrinks; the step fails only at a matched folder whose new name exists and which is still there, not empty |
| NameMatching.NameTarget.MergeAndRemove | rename_pm_student_sub.py:76-77 | merge then rmdir: no file lost or duplicated; other entries untouched; the target only grows; the folder is gone exactly when `ok`; any recursively merged subfolder makes `ok` false; a folder holding only files, merged into another folder, gives `ok` true; when `ok` is true after a merge into another folder, that folder holds exactly its own files plus the removed folder's; when `ok` is false the folder is still there and not empty, and after a merge into another folder it still holds a subfolder |
| NameMatching.NameTarget.FoldInto | rename_pm_student_sub.py:75-77 | merge into another existing folder, then rmdir: no file lost or duplicated; other entries untouched; the target only grows; the folder is gone exactly when `ok`; a recursively merged subfolder makes `ok` false; a folder holding only files gives `ok` true; when `ok` is true the target holds exactly its own files plus the removed folder's; on failure the folder stays and holds a subfolder |
| NameMatching.FoldedOutcome | rename_pm_student_sub.py:76-77 | from what merge_folder_contents promises, the state after the rmdir keeps every submission file, the rmdir fails exactly when a subfolder was left behind, and when it succeeds the target holds its own files plus the removed folder's |
| NameMatching.NameTarget.RenameDirectory | rename_pm_student_sub.py:61-84 | over the whole listing: no submission file lost or duplicated; once the run completes, every matched folder whose new name was free at the start has an entry under that name; once the run completes, every matched folder whose new name is another name, free or an unmatched folder at the start, has all its files under that name (renamed to it or merged into it); a name present afterwards was present at the start or is the new name of a matched folder, and each such new entry holds that matched folder's files grown only; once the run completes, a renamed or merged folder no longer sits under its old name unless that name is itself some folder's new name; top-level files untouched; unmatched folders keep their names, only grow and, if the run completes, each is logged as skipped; the log skips only unmatched folders, each once; the run stops early only at a matched folder whose new name exists and which is still there, not empty, and, when that name is another folder, still holding a subfolder |
| MergeEngine.NumberedNameInjective | rename_pm_student_sub.py:53 | different counters give different candidate names |
| MergeEngine.TriedSize | rename_pm_student_sub.py:51-54 | the first n candidate names are n distinct names |
| MergeEngine.TriedBound | rename_pm_student_sub.py:52-54 | the loop cannot try more taken names than there are |
| MergeEngine.FreeName | rename_pm_student_sub.py:50-54 | the `while os.path.exists` loop ends on the first of item, `base_1ext`, `base_2ext`, … that is free |
| MergeEngine.MergeEntry | rename_pm_student_sub.py:42-56 | one source entry: a file goes to the first free numbered name; a folder with a new name is moved whole; a folder whose name exists is merged recursively and stays behind; the destination only grows, no other destination entry changes, a recursive merge adds no name to the destination, files are conserved, and each case writes its log line first; a move raises only for a non-empty folder whose name the destination has and where, at some depth, a non-empty subfolder meets a destination file of the same name |
| MergeEngine.MergeSubfolder | rename_pm_student_sub.py:43-45 | a folder whose name the destination has as a folder: its contents are merged in, the destination keeps its names and only grows, files are conserved, what is left stays behind and is an empty skeleton unless a move raised, the header line comes first, and a move raises only where a non-empty subfolder meets a destination file at some depth |
| MergeEngine.AddedEntry | rename_pm_student_sub.py:47-55 | moving an entry to a free name only grows the destination and conserves files |
| MergeEngine.MergedEntry | rename_pm_student_sub.py:44-45 | a recursive merge into a destination subfolder conserves files and only grows the destination |
| MergeEngine.MergeFolderContents | rename_politemall_student_sub.py:33-52 | nothing in the destination is overwritten or removed; no file is lost or duplicated; if no move raised, only empty directory skeletons stay behind, exactly for the recursively merged subfolders; a folder not left behind sits whole in the destination; a moved file sits under the first of item, `base_1ext`, … that was free, every earlier one being taken; the destination gains only the subfolders moved whole and the names files were moved to; every log line is below the two paths; a move raises only inside a non-empty subfolder whose name the destination has and where, at some depth, a non-empty subfolder meets a destination file of the same name |
| Submission.Sanitized | rename_pm_student_sub.py:70 | the sanitised name holds no '/' and only characters of the name |
| Submission.SanitizedOrder | rename_pm_student_sub.py:70 | sanitising keeps every other character, in order |
| Submission.FolderNameParts | rename_pm_student_sub.py:71 | when neither team nor id holds a '_', two new names are equal if and only if their teams, sanitised names and ids are |
| Submission.FolderNameSlashes | rename_unzip_student_sub.py:24-25 | sanitising removes exactly the '/' characters, so the new name holds a '/' only where the team or id does |
| Politemall.ExtractNameTwice | rename_politemall_student_sub.py:19-29 | the double comma removal parses every folder name as the single one does |
| Politemall.FlatName | rename_politemall_student_sub.py:113 | the flat name is as long as the path, holds no separator and keeps every other character |
| Politemall.FlatNameOfJoin | rename_politemall_student_sub.py:111-113 | the flat name of a relative path is its components joined by '_' |
| Politemall.JoinPathEnds | rename_politemall_student_sub.py:111 | a joined path ends with its file name |
| Politemall.FlatNameCollision | rename_politemall_student_sub.py:113-116 | two different files, `a/b.zip` and `a_b.zip`, get the same backup name |
| Politemall.BackupName | rename_politemall_student_sub.py:110-113 | a file is backed up if and only if its name ends with ".zip" (case-sensitive); its backup name holds no separator, ends with ".zip" and is the path's components joined by '_' |
| IdMatching.ReadIdList | rename_unzip_student_sub_v2.py:7-16 | the dict-filling loop builds the roster `IdRosterOf(rows)` |
| IdMatching.IdRosterKeys | rename_unzip_student_sub_v2.py:15 | an id is a key if and only if some row has exactly that id, unnormalised |
| IdMatching.IdRosterLastWins | rename_unzip_student_sub.py:13 | on a duplicate id the last such row's name, class and team are stored |
| IdMatching.IdKey | rename_unzip_student_sub.py:21 | `item[:8]`: the first eight characters, or the whole of a shorter name |
| IdMatching.IdTarget.constructor | rename_unzip_student_sub.py:16 | the target directory holds the given entries |
| IdMatching.IdTarget.RenameDirectory | rename_unzip_student_sub_v2.py:18-30 | no submission file lost or duplicated; files and unmatched folders untouched; if the run completes, every matched folder sits unchanged under the name from the roster's team and name and the key, and a folder renamed away has left its old name unless another folder was renamed to that name; no other name appears; the run stops early only at a matched folder whose new name is taken by another entry |

## Left out

- `unzip_all_zip_files` and `unzip_files_in_subdirectories`: they depend on the zip library, local-time timestamp conversion and `os.chdir`, none of which is part of this model.
- `write_submission_report`: a read-only directory walk with date formatting.
- The CSV reader itself: its output is taken as a sequence of rows. A missing column (a KeyError) is not modelled.
- The `__main__` prompts, path checks and console `print`s. The log's exact text (arrows, quotes, blank lines) is replaced by structured entries.
- `backup_zip_files_to_parent`: only its flat-name computation is modelled. The `os.walk`, `os.makedirs` and `shutil.copy2` are left out, along with the overwriting of one backup by another with the same name.
- Unicode: `upper` maps ASCII a–z only. Whitespace is Python's fixed `isspace` set of single characters.
- Paths: the separator is '/' (POSIX). A '/' in a team or id would make the new name a nested path; the model keeps it as part of one entry name.
- NameMatching.NameTarget.MergeAndRemove: when a folder's new name is its own name, the model leaves it unchanged. The code instead renames each of its files to the first free numbered name inside the folder, and logs those moves, before the rmdir fails the same way.
- Entry names compare case-sensitively, as on POSIX. On a case-insensitive file system `os.path.exists` would find `T9_JANE DOE_S1` when `T9_Jane Doe_S1` exists, and the second folder would be merged instead of renamed.
- Whether a merge raises can depend on the `os.listdir` order. A file `a` moved to `a_1` makes a later subfolder `a_1` of the source meet a file. The contracts hold for every order but do not say which order raises.
- IdMatching.IdTarget.RenameDirectory: `os.rename` onto any existing name is modelled as an error that ends the run. POSIX would replace an existing empty directory.
- Concrete worked examples over literal folder names (such as `" - "` being found in a given string) are not stated. The general lemmas above cover them.
