/**
 * The parts of Python's `str` and `os.path` behaviour that the renaming
 * scripts rely on: strip, upper, replace of one character by nothing,
 * split on whitespace, ' '.join, index, slicing, endswith, f-string
 * rendering of a counter, and os.path.splitext.
 */
module PyText {

  datatype Option<T> = None | Some(value: T)

  /** str.isspace(): the characters strip() and split() treat as whitespace. */
  predicate IsSpace(c: char) {
    || c == ' '
    || ('\t' <= c <= '\r')
    || ('\U{1C}' <= c <= '\U{1F}')
    || c == '\U{85}' || c == '\U{A0}' || c == '\U{1680}'
    || ('\U{2000}' <= c <= '\U{200A}')
    || c == '\U{2028}' || c == '\U{2029}' || c == '\U{202F}' || c == '\U{205F}' || c == '\U{3000}'
  }

  predicate IsLower(c: char) { 'a' <= c <= 'z' }

  predicate NoSpace(s: string) { forall i :: 0 <= i < |s| ==> !IsSpace(s[i]) }

  predicate AllSpace(s: string) { forall i :: 0 <= i < |s| ==> IsSpace(s[i]) }

  predicate NoLower(s: string) { forall c :: c in s ==> !IsLower(c) }

  /** A word of str.split(): a non-empty run of non-whitespace characters. */
  predicate IsWord(w: string) { |w| > 0 && NoSpace(w) }

  predicate AllWords(ws: seq<string>) { forall i :: 0 <= i < |ws| ==> IsWord(ws[i]) }

  /** Every character of `s` occurs in `src`. */
  predicate Within(s: string, src: string) { forall c :: c in s ==> c in src }

  /**
   * No leading, trailing or doubled whitespace, and the only whitespace
   * character is the plain space: what ' '.join(words) produces.
   */
  predicate SingleSpaced(s: string) {
    && (|s| > 0 ==> !IsSpace(s[0]) && !IsSpace(s[|s| - 1]))
    && forall i :: 0 <= i < |s| && IsSpace(s[i]) ==> s[i] == ' ' && i + 1 < |s| && !IsSpace(s[i + 1])
  }

  // ---------------------------------------------------------------- upper

  /** The ASCII part of str.upper() on one character. */
  function UpperChar(c: char): (u: char)
    ensures !IsLower(u)
    ensures IsLower(c) ==> u as int == c as int - 32
    ensures !IsLower(c) ==> u == c
  {
    if IsLower(c) then (c as int - 32) as char else c
  }

  function Upper(s: string): (r: string)
    ensures |r| == |s| && NoLower(r)
    ensures forall i :: 0 <= i < |s| ==> r[i] == UpperChar(s[i])
  {
    seq(|s|, i requires 0 <= i < |s| => UpperChar(s[i]))
  }

  lemma UpperConcat(a: string, b: string)
    ensures Upper(a + b) == Upper(a) + Upper(b)
  {
  }

  lemma UpperNoLower(s: string)
    requires NoLower(s)
    ensures Upper(s) == s
  {
    forall i | 0 <= i < |s| ensures Upper(s)[i] == s[i] {
      assert s[i] in s;
    }
  }

  // ---------------------------------------------------------------- replace(c, '')

  /** s.replace(c, ''): every occurrence of `c` removed, the rest kept in order. */
  function RemoveChar(s: string, c: char): (r: string)
    ensures c !in r
    ensures |r| <= |s|
  {
    if s == [] then []
    else (if s[0] == c then [] else [s[0]]) + RemoveChar(s[1..], c)
  }

  lemma {:induction false} RemoveCharConcat(a: string, b: string, c: char)
    ensures RemoveChar(a + b, c) == RemoveChar(a, c) + RemoveChar(b, c)
  {
    if a == [] {
      assert a + b == b;
    } else {
      assert (a + b)[0] == a[0];
      assert (a + b)[1..] == a[1..] + b;
      RemoveCharConcat(a[1..], b, c);
    }
  }

  lemma {:induction false} RemoveCharAbsent(s: string, c: char)
    requires c !in s
    ensures RemoveChar(s, c) == s
  {
    if s != [] {
      assert s == [s[0]] + s[1..];
      assert c !in s[1..] by {
        assert forall x :: x in s[1..] ==> x in s;
      }
      RemoveCharAbsent(s[1..], c);
    }
  }

  lemma {:induction false} RemoveCharWithin(s: string, c: char)
    ensures Within(RemoveChar(s, c), s)
  {
    if s != [] {
      RemoveCharWithin(s[1..], c);
      assert s == [s[0]] + s[1..];
    }
  }

  /** Removing `c` deletes exactly its occurrences: every other character keeps its count. */
  lemma {:induction false} RemoveCharMultiset(s: string, c: char)
    ensures multiset(RemoveChar(s, c)) == multiset(s)[c := 0]
  {
    if s != [] {
      RemoveCharMultiset(s[1..], c);
      assert s == [s[0]] + s[1..];
      assert multiset(s) == multiset{s[0]} + multiset(s[1..]);
    }
  }

  // ---------------------------------------------------------------- replace(c, d)

  /** s.replace(c, d) for single characters. */
  function ReplaceChar(s: string, c: char, d: char): (r: string)
    ensures |r| == |s|
    ensures forall i :: 0 <= i < |s| ==> r[i] == if s[i] == c then d else s[i]
  {
    if s == [] then []
    else [if s[0] == c then d else s[0]] + ReplaceChar(s[1..], c, d)
  }

  // ---------------------------------------------------------------- strip

  /** s.lstrip(): drop leading whitespace. */
  function LStrip(s: string): string {
    if s != [] && IsSpace(s[0]) then LStrip(s[1..]) else s
  }

  /** s.rstrip(): drop trailing whitespace. */
  function RStrip(s: string): string {
    if s != [] && IsSpace(s[|s| - 1]) then RStrip(s[..|s| - 1]) else s
  }

  /** s.strip() */
  function Strip(s: string): string {
    RStrip(LStrip(s))
  }

  lemma StripSingleSpaced(s: string)
    requires SingleSpaced(s)
    ensures Strip(s) == s
  {
  }

  lemma {:induction false} LStripWithin(s: string)
    ensures Within(LStrip(s), s)
  {
    if s != [] && IsSpace(s[0]) {
      LStripWithin(s[1..]);
      assert forall c :: c in s[1..] ==> c in s;
    }
  }

  lemma {:induction false} RStripWithin(s: string)
    ensures Within(RStrip(s), s)
  {
    if s != [] && IsSpace(s[|s| - 1]) {
      RStripWithin(s[..|s| - 1]);
      assert forall c :: c in s[..|s| - 1] ==> c in s;
    }
  }

  /** strip() only drops characters. */
  lemma StripWithin(s: string)
    ensures Within(Strip(s), s)
  {
    LStripWithin(s);
    RStripWithin(LStrip(s));
  }

  // ---------------------------------------------------------------- split / join

  /** The longest prefix of `s` without whitespace. */
  function TakeWord(s: string): (w: string)
    ensures |w| <= |s|
  {
    if s == [] || IsSpace(s[0]) then [] else [s[0]] + TakeWord(s[1..])
  }

  lemma {:induction false} TakeWordProps(s: string)
    ensures TakeWord(s) == s[..|TakeWord(s)|] && NoSpace(TakeWord(s))
    ensures |TakeWord(s)| < |s| ==> IsSpace(s[|TakeWord(s)|])
    ensures s != [] && !IsSpace(s[0]) ==> |TakeWord(s)| > 0
  {
    if s != [] && !IsSpace(s[0]) {
      TakeWordProps(s[1..]);
      var w := TakeWord(s[1..]);
      assert TakeWord(s) == [s[0]] + w;
      if |w| < |s[1..]| {
        assert s[|w| + 1] == s[1..][|w|];
      }
    }
  }

  /** Text after a word that starts with whitespace does not change the word. */
  lemma {:induction false} TakeWordAppend(m: string, b: string)
    requires b == [] || IsSpace(b[0])
    ensures TakeWord(m + b) == TakeWord(m)
  {
    if m == [] {
      assert m + b == b;
    } else {
      assert (m + b)[0] == m[0];
      assert (m + b)[1..] == m[1..] + b;
      TakeWordAppend(m[1..], b);
    }
  }

  /** s.split() with no argument: the whitespace-separated words, in order. */
  function Split(s: string): seq<string>
    decreases |s|
  {
    if s == [] then []
    else if IsSpace(s[0]) then Split(s[1..])
    else
      var w := TakeWord(s);
      TakeWordProps(s);
      [w] + Split(s[|w|..])
  }

  /** Every word of str.split() is non-empty and holds no whitespace. */
  lemma {:induction false} SplitWords(s: string)
    ensures AllWords(Split(s))
    decreases |s|
  {
    if s != [] {
      if IsSpace(s[0]) {
        SplitWords(s[1..]);
      } else {
        var w := TakeWord(s);
        TakeWordProps(s);
        SplitWords(s[|w|..]);
      }
    }
  }

  /** The words of `s` are made of characters of `s`. */
  lemma {:induction false} SplitWithin(s: string)
    ensures forall i :: 0 <= i < |Split(s)| ==> Within(Split(s)[i], s)
    decreases |s|
  {
    if s != [] {
      if IsSpace(s[0]) {
        SplitWithin(s[1..]);
        assert Within(s[1..], s) by {
          assert forall x :: x in s[1..] ==> x in s;
        }
      } else {
        var w := TakeWord(s);
        TakeWordProps(s);
        var u := s[|w|..];
        SplitWithin(u);
        assert s == w + u;
        assert Within(u, s) && Within(w, s);
      }
    }
  }

  /** ' '.join(ws) */
  function JoinSpace(ws: seq<string>): string {
    if |ws| == 0 then ""
    else if |ws| == 1 then ws[0]
    else ws[0] + " " + JoinSpace(ws[1..])
  }

  lemma {:induction false} SplitLeadingSpaces(a: string, m: string)
    requires AllSpace(a)
    ensures Split(a + m) == Split(m)
  {
    if a == [] {
      assert a + m == m;
    } else {
      assert (a + m)[0] == a[0];
      assert (a + m)[1..] == a[1..] + m;
      SplitLeadingSpaces(a[1..], m);
    }
  }

  lemma {:induction false} SplitTrailingSpaces(m: string, b: string)
    requires AllSpace(b)
    ensures Split(m + b) == Split(m)
    decreases |m|
  {
    if m == [] {
      assert m + b == b + [];
      SplitLeadingSpaces(b, []);
    } else if IsSpace(m[0]) {
      assert (m + b)[0] == m[0];
      assert (m + b)[1..] == m[1..] + b;
      SplitTrailingSpaces(m[1..], b);
    } else {
      assert (m + b)[0] == m[0];
      TakeWordAppend(m, b);
      TakeWordProps(m);
      var w := TakeWord(m);
      assert (m + b)[|w|..] == m[|w|..] + b;
      SplitTrailingSpaces(m[|w|..], b);
    }
  }

  /** Leading whitespace does not change the words. */
  lemma {:induction false} SplitLStrip(s: string)
    ensures Split(LStrip(s)) == Split(s)
  {
    if s != [] && IsSpace(s[0]) {
      SplitLStrip(s[1..]);
    }
  }

  /** Trailing whitespace does not change the words. */
  lemma {:induction false} SplitRStrip(s: string)
    ensures Split(RStrip(s)) == Split(s)
  {
    if s != [] && IsSpace(s[|s| - 1]) {
      var x := s[|s| - 1];
      assert s == s[..|s| - 1] + [x];
      SplitTrailingSpaces(s[..|s| - 1], [x]);
      SplitRStrip(s[..|s| - 1]);
    }
  }

  /** Whitespace around a string does not change its words. */
  lemma SplitStrip(s: string)
    ensures Split(Strip(s)) == Split(s)
  {
    SplitRStrip(LStrip(s));
    SplitLStrip(s);
  }

  lemma {:induction false} JoinEnds(ws: seq<string>)
    requires AllWords(ws) && |ws| > 0
    ensures |JoinSpace(ws)| >= |ws[0]|
    ensures JoinSpace(ws)[..|ws[0]|] == ws[0]
    ensures !IsSpace(JoinSpace(ws)[0])
    ensures !IsSpace(JoinSpace(ws)[|JoinSpace(ws)| - 1])
  {
    if |ws| > 1 {
      JoinEnds(ws[1..]);
      assert IsWord(ws[0]);
    } else {
      assert IsWord(ws[0]);
    }
  }

  /** A ' '.join of words has no leading, trailing or doubled whitespace. */
  lemma {:induction false} JoinSingleSpaced(ws: seq<string>)
    requires AllWords(ws)
    ensures SingleSpaced(JoinSpace(ws))
  {
    if |ws| == 1 {
      assert IsWord(ws[0]);
    } else if |ws| > 1 {
      var w := ws[0];
      assert IsWord(w);
      var rest := JoinSpace(ws[1..]);
      assert AllWords(ws[1..]);
      JoinSingleSpaced(ws[1..]);
      JoinEnds(ws[1..]);
      JoinEnds(ws);
      var s := JoinSpace(ws);
      assert s == w + " " + rest;
      forall i | 0 <= i < |s|
        ensures IsSpace(s[i]) ==> s[i] == ' ' && i + 1 < |s| && !IsSpace(s[i + 1])
      {
        if i < |w| {
          assert s[i] == w[i];
        } else if i == |w| {
          assert s[i + 1] == rest[0];
        } else {
          assert s[i] == rest[i - |w| - 1];
          if i + 1 < |s| {
            assert s[i + 1] == rest[i - |w|];
          }
        }
      }
    }
  }

  lemma {:induction false} TakeWordAll(w: string)
    requires NoSpace(w)
    ensures TakeWord(w) == w
  {
    if w != [] {
      TakeWordAll(w[1..]);
    }
  }

  /** Splitting a ' '.join of words gives the words back. */
  lemma {:induction false} SplitJoin(ws: seq<string>)
    requires AllWords(ws)
    ensures Split(JoinSpace(ws)) == ws
  {
    if |ws| > 0 {
      var w := ws[0];
      assert IsWord(w);
      TakeWordAll(w);
      if |ws| == 1 {
        assert w[|w|..] == [];
      } else {
        var rest := JoinSpace(ws[1..]);
        var s := JoinSpace(ws);
        assert s == w + (" " + rest);
        assert s[0] == w[0];
        TakeWordAppend(w, " " + rest);
        assert s[|w|..] == " " + rest;
        assert (" " + rest)[1..] == rest;
        assert AllWords(ws[1..]);
        SplitJoin(ws[1..]);
        assert ws == [w] + ws[1..];
      }
    }
  }

  /** The characters of a ' '.join are spaces or characters of the words. */
  lemma {:induction false} JoinWithin(ws: seq<string>, src: string)
    requires forall i :: 0 <= i < |ws| ==> Within(ws[i], src)
    ensures forall c :: c in JoinSpace(ws) ==> c == ' ' || c in src
  {
    if |ws| > 1 {
      JoinWithin(ws[1..], src);
      assert Within(ws[0], src);
    } else if |ws| == 1 {
      assert Within(ws[0], src);
    }
  }

  function UpperAll(ws: seq<string>): (us: seq<string>)
    ensures |us| == |ws| && forall i :: 0 <= i < |ws| ==> us[i] == Upper(ws[i])
  {
    seq(|ws|, i requires 0 <= i < |ws| => Upper(ws[i]))
  }

  lemma {:induction false} UpperJoin(ws: seq<string>)
    ensures Upper(JoinSpace(ws)) == JoinSpace(UpperAll(ws))
  {
    if |ws| > 1 {
      UpperJoin(ws[1..]);
      UpperConcat(ws[0] + " ", JoinSpace(ws[1..]));
      UpperConcat(ws[0], " ");
      assert UpperAll(ws)[1..] == UpperAll(ws[1..]);
    }
  }

  lemma UpperWords(ws: seq<string>)
    requires AllWords(ws)
    ensures AllWords(UpperAll(ws))
  {
    forall i | 0 <= i < |ws| ensures IsWord(UpperAll(ws)[i]) {
      assert IsWord(ws[i]);
    }
  }

  // ---------------------------------------------------------------- index / slice

  predicate OccursAt(s: string, pat: string, i: nat) {
    i + |pat| <= |s| && s[i..i + |pat|] == pat
  }

  function FindFrom(s: string, pat: string, from: nat): (r: Option<nat>)
    ensures r.Some? ==> from <= r.value && OccursAt(s, pat, r.value)
    ensures r.Some? ==> forall j: nat :: from <= j < r.value ==> !OccursAt(s, pat, j)
    ensures r.None? ==> forall j: nat :: from <= j ==> !OccursAt(s, pat, j)
    decreases |s| - from
  {
    if from + |pat| > |s| then None
    else if s[from..from + |pat|] == pat then Some(from)
    else FindFrom(s, pat, from + 1)
  }

  /** s.index(pat), with the ValueError of a missing pattern as None. */
  function Find(s: string, pat: string): (r: Option<nat>)
    ensures r.Some? ==> OccursAt(s, pat, r.value)
    ensures r.Some? ==> forall j: nat :: j < r.value ==> !OccursAt(s, pat, j)
    ensures r.None? ==> forall j: nat :: !OccursAt(s, pat, j)
  {
    FindFrom(s, pat, 0)
  }

  /** s[i:j] for indices within the string: empty when j <= i. */
  function Slice(s: string, i: nat, j: nat): (r: string)
    requires i <= |s| && j <= |s|
    ensures i < j ==> r == s[i..j]
    ensures j <= i ==> r == ""
  {
    if i < j then s[i..j] else ""
  }

  /** s[:n] */
  function Prefix(s: string, n: nat): (r: string)
    ensures |r| == if |s| < n then |s| else n
    ensures r == s[..|r|]
  {
    if |s| <= n then s else s[..n]
  }

  /** s.endswith(suffix) */
  predicate EndsWith(s: string, suffix: string) {
    |suffix| <= |s| && s[|s| - |suffix|..] == suffix
  }

  // ---------------------------------------------------------------- f"{n}"

  function DigitChar(d: nat): (c: char)
    requires d < 10
  {
    ('0' as int + d) as char
  }

  /** Decimal rendering of a natural number, as f"{n}" does. */
  function Decimal(n: nat): (s: string)
    ensures |s| > 0
    ensures forall i :: 0 <= i < |s| ==> '0' <= s[i] <= '9'
    // no leading zero: only the number 0 is rendered starting with '0', as "0"
    ensures s[0] == '0' <==> n == 0
    ensures n == 0 ==> s == "0"
  {
    if n < 10 then [DigitChar(n)] else Decimal(n / 10) + [DigitChar(n % 10)]
  }

  /** int(s) for a string of decimal digits. */
  function ParseDecimal(s: string): nat
    requires forall i :: 0 <= i < |s| ==> '0' <= s[i] <= '9'
  {
    if s == [] then 0
    else 10 * ParseDecimal(s[..|s| - 1]) + (s[|s| - 1] as int - '0' as int)
  }

  /** Reading back the rendering of a counter gives the counter. */
  lemma {:induction false} ParseDecimalOfDecimal(n: nat)
    ensures ParseDecimal(Decimal(n)) == n
  {
    if n >= 10 {
      var s := Decimal(n);
      assert s[..|s| - 1] == Decimal(n / 10);
      ParseDecimalOfDecimal(n / 10);
    }
  }

  lemma DecimalInjective(m: nat, n: nat)
    requires Decimal(m) == Decimal(n)
    ensures m == n
  {
    ParseDecimalOfDecimal(m);
    ParseDecimalOfDecimal(n);
  }

  // ---------------------------------------------------------------- os.path.splitext

  function LastIndexOf(s: string, c: char): (r: Option<nat>)
    ensures r.Some? ==> r.value < |s| && s[r.value] == c
    ensures r.Some? ==> forall k :: r.value < k < |s| ==> s[k] != c
    ensures r.None? ==> forall k :: 0 <= k < |s| ==> s[k] != c
  {
    if s == [] then None
    else if s[|s| - 1] == c then Some(|s| - 1)
    else
      var r := LastIndexOf(s[..|s| - 1], c);
      assert s == s[..|s| - 1] + [s[|s| - 1]];
      r
  }

  predicate HasNonDot(s: string) { exists i :: 0 <= i < |s| && s[i] != '.' }

  /**
   * os.path.splitext on a single name (no separator): the extension starts
   * at the last '.', unless every character before that dot is a dot too,
   * in which case there is no extension.
   */
  function SplitExt(name: string): (r: (string, string))
    ensures r.0 + r.1 == name
    ensures r.1 != "" ==> r.1[0] == '.' && HasNonDot(r.0)
    ensures forall k :: 0 < k < |r.1| ==> r.1[k] != '.'
    ensures r.1 == "" ==> forall i, j :: 0 <= i < j < |name| && name[j] == '.' ==> name[i] == '.'
  {
    match LastIndexOf(name, '.')
    case None => (name, "")
    case Some(d) =>
      if HasNonDot(name[..d]) then (name[..d], name[d..])
      else
        assert forall i, j :: 0 <= i < j < |name| && name[j] == '.' ==> name[i] == '.' by {
          forall i, j | 0 <= i < j < |name| && name[j] == '.' ensures name[i] == '.' {
            assert name[..d][i] == name[i];
          }
        }
        (name, "")
  }

  // ---------------------------------------------------------------- strip, then drop a character

  lemma {:induction false} RemoveLStrip(s: string, c: char)
    requires !IsSpace(c)
    ensures Split(RemoveChar(LStrip(s), c)) == Split(RemoveChar(s, c))
  {
    if s != [] && IsSpace(s[0]) {
      assert RemoveChar(s, c) == [s[0]] + RemoveChar(s[1..], c);
      assert ([s[0]] + RemoveChar(s[1..], c))[1..] == RemoveChar(s[1..], c);
      RemoveLStrip(s[1..], c);
    }
  }

  lemma {:induction false} RemoveRStrip(s: string, c: char)
    requires !IsSpace(c)
    ensures Split(RemoveChar(RStrip(s), c)) == Split(RemoveChar(s, c))
  {
    if s != [] && IsSpace(s[|s| - 1]) {
      var x := s[|s| - 1];
      assert s == s[..|s| - 1] + [x];
      RemoveCharConcat(s[..|s| - 1], [x], c);
      assert RemoveChar([x], c) == [x];
      SplitTrailingSpaces(RemoveChar(s[..|s| - 1], c), [x]);
      RemoveRStrip(s[..|s| - 1], c);
    }
  }

  /** Stripping before dropping a non-space character does not change the words. */
  lemma RemoveStrip(s: string, c: char)
    requires !IsSpace(c)
    ensures Split(RemoveChar(Strip(s), c)) == Split(RemoveChar(s, c))
  {
    RemoveRStrip(LStrip(s), c);
    RemoveLStrip(s, c);
  }
}
