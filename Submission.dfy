/**
 * What the renaming scripts share: the roster rows read from the CSV file,
 * and the shape f"{team}_{sanitized_name}_{student_id}" of a new folder name.
 */
module Submission {
  import opened PyText

  /** One row of the roster CSV file, by its columns name, student_id, class and team. */
  datatype Row = Row(name: string, studentId: string, className: string, team: string)

  /** name.replace('/', ''): the name with every path separator dropped. */
  function Sanitized(name: string): (r: string)
    ensures '/' !in r && Within(r, name)
  {
    RemoveCharWithin(name, '/');
    RemoveChar(name, '/')
  }

  /** Sanitizing keeps the other characters, in their order. */
  lemma SanitizedOrder(a: string, b: string, c: char)
    ensures Sanitized(a + b) == Sanitized(a) + Sanitized(b)
    ensures Sanitized([c]) == if c == '/' then [] else [c]
  {
    RemoveCharConcat(a, b, '/');
  }

  /** f"{team}_{sanitized_name}_{student_id}" */
  function FolderName(team: string, name: string, studentId: string): string {
    team + "_" + Sanitized(name) + "_" + studentId
  }

  /**
   * The new name reads back as its three parts when neither the team nor
   * the id holds a '_': the team is what comes before the first '_', the id
   * what comes after the last one, and the sanitized name what lies between.
   * Two students of one team with one id thus get the same folder exactly
   * when their names agree once the '/' characters are dropped.
   */
  lemma FolderNameParts(t1: string, a: string, s1: string, t2: string, b: string, s2: string)
    requires '_' !in t1 && '_' !in t2 && '_' !in s1 && '_' !in s2
    ensures FolderName(t1, a, s1) == FolderName(t2, b, s2) <==>
      t1 == t2 && Sanitized(a) == Sanitized(b) && s1 == s2
  {
    if FolderName(t1, a, s1) == FolderName(t2, b, s2) {
      LastUnderscore(t1 + "_" + Sanitized(a), s1, t2 + "_" + Sanitized(b), s2);
      FirstUnderscore(t1, Sanitized(a), t2, Sanitized(b));
    }
  }

  /** A text without '_' is recovered as what comes before the first '_'. */
  lemma FirstUnderscore(t1: string, x1: string, t2: string, x2: string)
    requires '_' !in t1 && '_' !in t2 && t1 + "_" + x1 == t2 + "_" + x2
    ensures t1 == t2 && x1 == x2
  {
    var r := t1 + "_" + x1;
    assert forall i :: 0 <= i < |t1| ==> r[i] == t1[i] != '_';
    assert forall i :: 0 <= i < |t2| ==> r[i] == t2[i] != '_';
    assert r[|t1|] == '_' && r[|t2|] == '_';
    assert |t1| == |t2|;
    assert t1 == r[..|t1|] == t2;
    assert x1 == r[|t1| + 1..] == x2;
  }

  /** A text without '_' is recovered as what comes after the last '_'. */
  lemma LastUnderscore(x1: string, s1: string, x2: string, s2: string)
    requires '_' !in s1 && '_' !in s2 && x1 + "_" + s1 == x2 + "_" + s2
    ensures x1 == x2 && s1 == s2
  {
    var r := x1 + "_" + s1;
    assert forall i :: |x1| < i < |r| ==> r[i] == s1[i - |x1| - 1] != '_';
    assert forall i :: |x2| < i < |r| ==> r[i] == s2[i - |x2| - 1] != '_';
    assert r[|x1|] == '_' && r[|x2|] == '_';
    assert |x1| == |x2|;
    assert x1 == r[..|x1|] == x2;
    assert s1 == r[|x1| + 1..] == s2;
  }

  /**
   * Sanitizing removes exactly the '/' characters of the name, so the new
   * name holds a '/' only where the team or the id does.
   */
  lemma FolderNameSlashes(team: string, name: string, studentId: string)
    ensures multiset(Sanitized(name)) == multiset(name)['/' := 0]
    ensures '/' !in team && '/' !in studentId ==> '/' !in FolderName(team, name, studentId)
  {
    var r := FolderName(team, name, studentId);
    var s := Sanitized(name);
    RemoveCharMultiset(name, '/');
    if '/' !in team && '/' !in studentId {
      forall i | 0 <= i < |r| ensures r[i] != '/' {
        if i < |team| {
          assert r[i] == team[i];
        } else if i >= |r| - |studentId| {
          assert r[i] == studentId[i - (|r| - |studentId|)];
        } else if |team| < i < |r| - |studentId| - 1 {
          assert r[i] == s[i - |team| - 1];
        }
      }
    }
  }
}
