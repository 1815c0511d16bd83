/**
 * What the politemall script does differently from the pm script: it drops
 * commas twice while parsing a folder name, and it backs up every ".zip"
 * file under a flattened name (the path relative to the target directory,
 * separators replaced by '_').
 */
module Politemall {
  import opened PyText
  import opened NameMatching

  /** extract_name_from_folder of the politemall script, with replace(',', '') applied twice. */
  function ExtractNameTwice(folder: string): (r: string)
    ensures r == ExtractName(folder)
  {
    match (Find(folder, " - "), Find(folder, " SOI"))
    case (Some(a), Some(b)) =>
      var part := Strip(Slice(folder, a + 3, b));
      var once := RemoveChar(part, ',');
      RemoveCharAbsent(once, ',');
      JoinSpace(Split(RemoveChar(once, ',')))
    case _ => ""
  }

  // ---------------------------------------------------------------- backup names

  /** os.sep on POSIX systems. */
  const Sep: char := '/'

  /** os.path.join of path components. */
  function JoinPath(parts: seq<string>): string {
    if |parts| == 0 then ""
    else if |parts| == 1 then parts[0]
    else parts[0] + [Sep] + JoinPath(parts[1..])
  }

  /** rel_path.replace(os.sep, '_') */
  function FlatName(relPath: string): (r: string)
    ensures |r| == |relPath| && Sep !in r
    ensures forall i :: 0 <= i < |relPath| && relPath[i] != Sep ==> r[i] == relPath[i]
  {
    ReplaceChar(relPath, Sep, '_')
  }

  /** The components of a relative path, joined with '_' instead of the separator. */
  function JoinUnderscore(parts: seq<string>): string {
    if |parts| == 0 then ""
    else if |parts| == 1 then parts[0]
    else parts[0] + "_" + JoinUnderscore(parts[1..])
  }

  /** The flat name of a path is its components joined by '_'. */
  lemma {:induction false} FlatNameOfJoin(parts: seq<string>)
    requires forall i :: 0 <= i < |parts| ==> Sep !in parts[i]
    ensures FlatName(JoinPath(parts)) == JoinUnderscore(parts)
  {
    if |parts| == 1 {
      RemoveSepNone(parts[0]);
    } else if |parts| > 1 {
      FlatNameOfJoin(parts[1..]);
      RemoveSepNone(parts[0]);
      ReplaceCharConcat(parts[0] + [Sep], JoinPath(parts[1..]));
      ReplaceCharConcat(parts[0], [Sep]);
    }
  }

  lemma RemoveSepNone(s: string)
    requires Sep !in s
    ensures ReplaceChar(s, Sep, '_') == s
  {
    assert forall i :: 0 <= i < |s| ==> s[i] != Sep;
  }

  lemma ReplaceCharConcat(a: string, b: string)
    ensures ReplaceChar(a + b, Sep, '_') == ReplaceChar(a, Sep, '_') + ReplaceChar(b, Sep, '_')
  {
  }

  /** Two different files can get the same backup name, so one backup overwrites the other. */
  lemma FlatNameCollision()
    ensures "a/b.zip" != "a_b.zip" && FlatName("a/b.zip") == FlatName("a_b.zip")
  {
  }

  /** filename.endswith('.zip'): the files backed up; the test is case-sensitive. */
  predicate IsZip(filename: string) {
    EndsWith(filename, ".zip")
  }

  /**
   * The backup name of file `filename` found in the directory reached by
   * `dirs` from the target directory, or None when it is not backed up.
   */
  function BackupName(dirs: seq<string>, filename: string): (r: Option<string>)
    requires forall i :: 0 <= i < |dirs| ==> Sep !in dirs[i]
    requires Sep !in filename
    ensures r.Some? <==> IsZip(filename)
    ensures r.Some? ==> Sep !in r.value && EndsWith(r.value, ".zip")
    ensures r.Some? ==> r.value == JoinUnderscore(dirs + [filename])
  {
    if IsZip(filename) then
      var parts := dirs + [filename];
      var rel := JoinPath(parts);
      FlatNameOfJoin(parts);
      JoinPathEnds(parts);
      Some(FlatName(rel))
    else None
  }

  /** A joined path ends with its last component. */
  lemma {:induction false} JoinPathEnds(parts: seq<string>)
    requires |parts| > 0
    ensures EndsWith(JoinPath(parts), parts[|parts| - 1])
  {
    if |parts| > 1 {
      JoinPathEnds(parts[1..]);
      var rest := JoinPath(parts[1..]);
      var last := parts[|parts| - 1];
      assert JoinPath(parts) == (parts[0] + [Sep]) + rest;
      assert JoinPath(parts)[|JoinPath(parts)| - |last|..] == rest[|rest| - |last|..];
    }
  }
}
