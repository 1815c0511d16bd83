/**
 * The roster key of the name-matching scripts:
 *   ' '.join(name.strip().upper().replace(',', '').split())
 * and what it is insensitive to (surrounding whitespace, letter case,
 * commas, runs of whitespace).
 */
module NameKey {
  import opened PyText

  /** name.upper().replace(',', ''): the text whose words make up the key. */
  function Clean(name: string): string {
    RemoveChar(Upper(name), ',')
  }

  /** The words a name is reduced to by the roster normalisation. */
  function Words(name: string): seq<string> {
    Split(Clean(name))
  }

  /** The roster key of a name (read_name_list). */
  function RosterKey(name: string): (k: string)
    ensures SingleSpaced(k) && ',' !in k && NoLower(k)
    ensures Split(k) == Words(name)
  {
    var c := Clean(Strip(name));
    var ws := Split(c);
    SplitWords(c);
    SplitWithin(c);
    JoinSingleSpaced(ws);
    JoinWithin(ws, c);
    SplitJoin(ws);
    CleanStrip(name);
    RemoveCharWithin(Upper(Strip(name)), ',');
    JoinSpace(ws)
  }

  lemma CleanSpaceFront(x: char, s: string)
    requires IsSpace(x)
    ensures Clean([x] + s) == [x] + Clean(s)
  {
    UpperConcat([x], s);
    RemoveCharConcat(Upper([x]), Upper(s), ',');
    assert Upper([x]) == [x];
  }

  lemma CleanSpaceBack(s: string, x: char)
    requires IsSpace(x)
    ensures Clean(s + [x]) == Clean(s) + [x]
  {
    UpperConcat(s, [x]);
    RemoveCharConcat(Upper(s), Upper([x]), ',');
    assert Upper([x]) == [x];
  }

  lemma {:induction false} CleanLStrip(s: string)
    ensures Split(Clean(LStrip(s))) == Split(Clean(s))
  {
    if s != [] && IsSpace(s[0]) {
      assert s == [s[0]] + s[1..];
      CleanSpaceFront(s[0], s[1..]);
      assert ([s[0]] + Clean(s[1..]))[1..] == Clean(s[1..]);
      CleanLStrip(s[1..]);
    }
  }

  lemma {:induction false} CleanRStrip(s: string)
    ensures Split(Clean(RStrip(s))) == Split(Clean(s))
  {
    if s != [] && IsSpace(s[|s| - 1]) {
      var x := s[|s| - 1];
      assert s == s[..|s| - 1] + [x];
      CleanSpaceBack(s[..|s| - 1], x);
      SplitTrailingSpaces(Clean(s[..|s| - 1]), [x]);
      CleanRStrip(s[..|s| - 1]);
    }
  }

  /** The strip() before upper() does not change the words. */
  lemma CleanStrip(s: string)
    ensures Split(Clean(Strip(s))) == Words(s)
  {
    CleanRStrip(LStrip(s));
    CleanLStrip(s);
  }

  /** Normalising a key again gives the same key. */
  lemma RosterKeyIdempotent(name: string)
    ensures RosterKey(RosterKey(name)) == RosterKey(name)
  {
    var k := RosterKey(name);
    var ws := Split(Clean(Strip(name)));
    StripSingleSpaced(k);
    UpperNoLower(k);
    RemoveCharAbsent(k, ',');
    assert Clean(Strip(k)) == k;
    SplitWords(Clean(Strip(name)));
    SplitJoin(ws);
  }

  /** Two names share a roster key exactly when they reduce to the same words. */
  lemma RosterKeyEquality(a: string, b: string)
    ensures RosterKey(a) == RosterKey(b) <==> Words(a) == Words(b)
  {
    CleanStrip(a);
    CleanStrip(b);
  }

  /** A single-spaced string is the ' '.join of its words. */
  lemma {:induction false} JoinSplit(s: string)
    requires SingleSpaced(s)
    ensures JoinSpace(Split(s)) == s
    decreases |s|
  {
    if s != [] {
      var w := TakeWord(s);
      TakeWordProps(s);
      if |w| == |s| {
        assert s[|w|..] == [];
        assert Split(s) == [w];
      } else {
        var rest := s[|w| + 1..];
        assert s[|w|] == ' ';
        assert s == w + " " + rest;
        assert s[|w|..][1..] == rest;
        assert Split(s) == [w] + Split(rest);
        assert rest[0] == s[|w| + 1];
        assert SingleSpaced(rest) by {
          forall i | 0 <= i < |rest| && IsSpace(rest[i])
            ensures rest[i] == ' ' && i + 1 < |rest| && !IsSpace(rest[i + 1])
          {
            assert rest[i] == s[|w| + 1 + i];
            if i + 1 < |rest| {
              assert rest[i + 1] == s[|w| + 2 + i];
            }
          }
        }
        JoinSplit(rest);
        SplitWords(rest);
        assert Split(rest) != [] by {
          TakeWordProps(rest);
        }
      }
    }
  }

  /**
   * The folder side looks a name up under extracted.strip().upper(); for
   * a single-spaced, comma-free name that is its roster key.
   */
  lemma LookupKeyIsRosterKey(e: string)
    requires SingleSpaced(e) && ',' !in e
    ensures Upper(Strip(e)) == RosterKey(e)
  {
    StripSingleSpaced(e);
    var ws := Split(e);
    SplitWords(e);
    JoinSplit(e);
    UpperJoin(ws);
    UpperWords(ws);
    assert ',' !in Upper(e) by {
      forall i | 0 <= i < |e| ensures Upper(e)[i] != ',' {
        assert e[i] in e;
      }
    }
    RemoveCharAbsent(Upper(e), ',');
    SplitJoin(UpperAll(ws));
  }
}
