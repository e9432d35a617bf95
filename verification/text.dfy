/** Python `str` and `list` behaviour that the filename engine relies on, stated on
    `seq<char>`. Case mapping covers ASCII letters only; every other character is
    treated as uncased. */
module Text {

  /** The Python exceptions that can escape from the modelled code. */
  datatype PyError = IndexError | ValueError | TypeError

  datatype Option<T> = None | Some(value: T)

  /** Whether a statement finished normally or raised. */
  datatype Outcome = Success | Failure(error: PyError)

  /** A computation that either yields a value or raises a Python exception. */
  datatype Result<T> = Ok(value: T) | Err(error: PyError) {
    predicate IsFailure() { Err? }
    function PropagateFailure<U>(): Result<U> requires Err? { Err(error) }
    function Extract(): T requires Ok? { value }
  }

  // ---------------------------------------------------------------------------
  // Substring search

  /** `t` occurs in `s` starting at index `i`. */
  predicate OccursAt(s: string, t: string, i: int) {
    0 <= i && i + |t| <= |s| && s[i..i + |t|] == t
  }

  /** `t` matches `s` at `i`, compared character by character from `t[j]` on. */
  predicate MatchesFrom(s: string, t: string, i: nat, j: nat)
    requires i + |t| <= |s|
    decreases |t| - j
  {
    j >= |t| || (s[i + j] == t[j] && MatchesFrom(s, t, i, j + 1))
  }

  lemma {:induction false} MatchesFromIff(s: string, t: string, i: nat, j: nat)
    requires i + |t| <= |s| && j <= |t|
    ensures MatchesFrom(s, t, i, j) <==> s[i + j..i + |t|] == t[j..]
    decreases |t| - j
  {
    if j < |t| {
      MatchesFromIff(s, t, i, j + 1);
      assert s[i + j..i + |t|] == [s[i + j]] + s[i + j + 1..i + |t|];
      assert t[j..] == [t[j]] + t[j + 1..];
    }
  }

  lemma MatchesAtIff(s: string, t: string, i: nat)
    requires i + |t| <= |s|
    ensures MatchesFrom(s, t, i, 0) <==> OccursAt(s, t, i)
  {
    MatchesFromIff(s, t, i, 0);
  }

  /** The first index at or after `i` where `t` occurs, or -1. */
  function FindFrom(s: string, t: string, i: nat): (r: int)
    ensures r == -1 || (i <= r && OccursAt(s, t, r))
    decreases |s| - i
  {
    if i + |t| > |s| then -1
    else if MatchesFrom(s, t, i, 0) then MatchesAtIff(s, t, i); i
    else MatchesAtIff(s, t, i); FindFrom(s, t, i + 1)
  }

  /** No occurrence at or after `i` comes before the one `FindFrom` reports. */
  lemma {:induction false} FindFromFirst(s: string, t: string, i: nat)
    ensures var r := FindFrom(s, t, i);
      forall k {:trigger OccursAt(s, t, k)} :: i <= k && (r < 0 || k < r) ==> !OccursAt(s, t, k)
    decreases |s| - i
  {
    if i + |t| <= |s| {
      MatchesAtIff(s, t, i);
      if !MatchesFrom(s, t, i, 0) {
        FindFromFirst(s, t, i + 1);
      }
    }
  }

  /** Python `s.find(t)`: the first index where `t` occurs, or -1. */
  function Find(s: string, t: string): (r: int)
    ensures r == -1 || OccursAt(s, t, r)
  {
    FindFrom(s, t, 0)
  }

  /** `Find` reports the first occurrence, and -1 only when there is none. */
  lemma FindFirst(s: string, t: string)
    ensures var r := Find(s, t);
      forall k {:trigger OccursAt(s, t, k)} :: 0 <= k && (r < 0 || k < r) ==> !OccursAt(s, t, k)
  {
    FindFromFirst(s, t, 0);
  }

  /** Python `t in s` for strings. */
  predicate Contains(s: string, t: string) {
    Find(s, t) >= 0
  }

  lemma ContainsIff(s: string, t: string)
    ensures Contains(s, t) <==> exists i :: OccursAt(s, t, i)
  {
    FindFirst(s, t);
    if exists i :: OccursAt(s, t, i) {
      var i :| OccursAt(s, t, i);
    }
  }

  /** An occurrence inside a slice is an occurrence in the whole string. */
  lemma OccursInSlice(s: string, t: string, a: int, b: int, i: int)
    requires 0 <= a <= b <= |s| && OccursAt(s[a..b], t, i)
    ensures OccursAt(s, t, a + i)
  {
    forall k | 0 <= k < |t| ensures s[a + i..a + i + |t|][k] == t[k] {
      assert s[a..b][i..i + |t|][k] == t[k];
    }
  }

  lemma SliceOccurrence(s: string, t: string, a: int, b: int, i: int)
    requires 0 <= a <= b <= |s|
    ensures OccursAt(s[a..b], t, i) ==> OccursAt(s, t, a + i)
  {
    if OccursAt(s[a..b], t, i) { OccursInSlice(s, t, a, b, i); }
  }

  /** A string with no occurrence of `t` keeps that property in every substring. */
  lemma AbsentInSlice(s: string, t: string, a: int, b: int)
    requires 0 <= a <= b <= |s|
    requires !Contains(s, t)
    ensures !Contains(s[a..b], t)
  {
    ContainsIff(s, t);
    ContainsIff(s[a..b], t);
    forall i ensures !OccursAt(s[a..b], t, i) {
      SliceOccurrence(s, t, a, b, i);
    }
  }

  // ---------------------------------------------------------------------------
  // Replace

  /** `s[i..].replace(pat, rep)`. */
  function ReplaceFrom(s: string, pat: string, rep: string, i: nat): string
    requires i <= |s| && |pat| > 0
    decreases |s| - i
  {
    if i + |pat| > |s| then s[i..]
    else if MatchesFrom(s, pat, i, 0) then rep + ReplaceFrom(s, pat, rep, i + |pat|)
    else [s[i]] + ReplaceFrom(s, pat, rep, i + 1)
  }

  /** Python `s.replace(pat, rep)`: left to right, non-overlapping. */
  function Replace(s: string, pat: string, rep: string): string
    requires |pat| > 0
  {
    ReplaceFrom(s, pat, rep, 0)
  }

  lemma {:induction false} ReplaceFromAbsent(s: string, pat: string, rep: string, i: nat)
    requires i <= |s| && |pat| > 0
    requires forall k {:trigger OccursAt(s, pat, k)} :: i <= k ==> !OccursAt(s, pat, k)
    ensures ReplaceFrom(s, pat, rep, i) == s[i..]
    decreases |s| - i
  {
    if i + |pat| <= |s| {
      MatchesAtIff(s, pat, i);
      ReplaceFromAbsent(s, pat, rep, i + 1);
      assert s[i..] == [s[i]] + s[i + 1..];
    }
  }

  /** Replacing a pattern that does not occur changes nothing. */
  lemma ReplaceAbsent(s: string, pat: string, rep: string)
    requires |pat| > 0 && !Contains(s, pat)
    ensures Replace(s, pat, rep) == s
  {
    FindFirst(s, pat);
    ReplaceFromAbsent(s, pat, rep, 0);
  }

  lemma {:induction false} ReplaceFromAtFirst(s: string, pat: string, rep: string, i: nat)
    requires i <= |s| && |pat| > 0 && FindFrom(s, pat, i) >= 0
    ensures var f := FindFrom(s, pat, i);
      ReplaceFrom(s, pat, rep, i) == s[i..f] + rep + ReplaceFrom(s, pat, rep, f + |pat|)
    decreases |s| - i
  {
    var f := FindFrom(s, pat, i);
    assert i + |pat| <= |s|;
    if MatchesFrom(s, pat, i, 0) {
      assert f == i;
      var tail := ReplaceFrom(s, pat, rep, i + |pat|);
      assert ReplaceFrom(s, pat, rep, i) == rep + tail;
      assert s[i..f] + rep + tail == rep + tail by {
        assert s[i..f] == [];
      }
    } else {
      assert FindFrom(s, pat, i + 1) == f;
      ReplaceFromAtFirst(s, pat, rep, i + 1);
      var tail := ReplaceFrom(s, pat, rep, f + |pat|);
      calc {
        ReplaceFrom(s, pat, rep, i);
        [s[i]] + ReplaceFrom(s, pat, rep, i + 1);
        [s[i]] + (s[i + 1..f] + rep + tail);
        { assert s[i..f] == [s[i]] + s[i + 1..f]; }
        s[i..f] + rep + tail;
      }
    }
  }

  /** A replacement no longer than its pattern never lengthens the text. */
  lemma {:induction false} ReplaceFromNoLonger(s: string, pat: string, rep: string, i: nat)
    requires i <= |s| && 0 < |pat| && |rep| <= |pat|
    ensures |ReplaceFrom(s, pat, rep, i)| <= |s| - i
    decreases |s| - i
  {
    if i + |pat| <= |s| {
      if MatchesFrom(s, pat, i, 0) {
        ReplaceFromNoLonger(s, pat, rep, i + |pat|);
      } else {
        ReplaceFromNoLonger(s, pat, rep, i + 1);
      }
    }
  }

  /** Replacing an occurring pattern by something shorter shortens the text. */
  lemma ReplaceShrinks(s: string, pat: string, rep: string)
    requires 0 < |pat| && |rep| < |pat| && Contains(s, pat)
    ensures |Replace(s, pat, rep)| < |s|
  {
    var f := Find(s, pat);
    ReplaceAtFirst(s, pat, rep);
    ReplaceFromNoLonger(s, pat, rep, f + |pat|);
  }

  /** Everything before the first occurrence is copied unchanged, and the first
      occurrence itself is replaced. */
  lemma ReplaceAtFirst(s: string, pat: string, rep: string)
    requires |pat| > 0 && Contains(s, pat)
    ensures var f := Find(s, pat);
      Replace(s, pat, rep) == s[..f] + rep + ReplaceFrom(s, pat, rep, f + |pat|)
  {
    ReplaceFromAtFirst(s, pat, rep, 0);
  }

  lemma {:induction false} ReplaceFromRemovesChar(s: string, c: char, rep: string, i: nat)
    requires i <= |s| && c !in rep
    ensures c !in ReplaceFrom(s, [c], rep, i)
    decreases |s| - i
  {
    if i < |s| {
      MatchesAtIff(s, [c], i);
      ReplaceFromRemovesChar(s, c, rep, i + 1);
    }
  }

  /** Replacing a character by text that lacks it leaves no copy of it. */
  lemma ReplaceRemovesChar(s: string, c: char, rep: string)
    requires c !in rep
    ensures c !in Replace(s, [c], rep)
  {
    ReplaceFromRemovesChar(s, c, rep, 0);
  }

  /** A character that occurs once is replaced there and nowhere else. */
  lemma ReplaceCharOnce(a: string, c: char, rep: string, b: string)
    requires c !in a && c !in b
    ensures Replace(a + [c] + b, [c], rep) == a + rep + b
  {
    var s := a + [c] + b;
    assert OccursAt(s, [c], |a|);
    forall k | 0 <= k < |a| ensures !OccursAt(s, [c], k) {
      assert s[k] == a[k];
    }
    FindFirst(s, [c]);
    assert Find(s, [c]) == |a|;
    ReplaceAtFirst(s, [c], rep);
    forall k {:trigger OccursAt(s, [c], k)} | |a| + 1 <= k ensures !OccursAt(s, [c], k) {
      if k < |s| { assert s[k] == b[k - |a| - 1]; }
    }
    ReplaceFromAbsent(s, [c], rep, |a| + 1);
    assert s[..|a|] == a && s[|a| + 1..] == b;
  }

  lemma {:induction false} ReplaceFromCharByNothing(s: string, c: char, i: nat)
    requires i <= |s|
    ensures ReplaceFrom(s, [c], "", i) == RemoveCharsFrom(s, {c}, i)
    decreases |s| - i
  {
    if i < |s| {
      MatchesAtIff(s, [c], i);
      ReplaceFromCharByNothing(s, c, i + 1);
      var rest := RemoveCharsFrom(s, {c}, i + 1);
      if s[i] == c {
        assert s[i..i + 1] == [c];
        assert ReplaceFrom(s, [c], "", i) == "" + ReplaceFrom(s, [c], "", i + 1);
        assert RemoveCharsFrom(s, {c}, i) == [] + rest;
      } else {
        assert s[i..i + 1] != [c];
        assert ReplaceFrom(s, [c], "", i) == [s[i]] + ReplaceFrom(s, [c], "", i + 1);
        assert RemoveCharsFrom(s, {c}, i) == [s[i]] + rest;
      }
    }
  }

  /** Replacing one character by nothing deletes every copy of it and keeps the rest
      in order. */
  lemma ReplaceCharByNothing(s: string, c: char)
    ensures Replace(s, [c], "") == RemoveChars(s, {c})
    ensures c !in Replace(s, [c], "")
  {
    ReplaceFromCharByNothing(s, c, 0);
  }

  /** Every `d` in `s` turned into `e`, every other character kept where it is. */
  function SwapChar(s: string, d: char, e: char): (r: string)
    ensures |r| == |s|
    ensures forall k :: 0 <= k < |s| ==> r[k] == (if s[k] == d then e else s[k])
  {
    if s == [] then []
    else [if s[0] == d then e else s[0]] + SwapChar(s[1..], d, e)
  }

  lemma {:induction false} ReplaceFromCharByChar(s: string, d: char, e: char, i: nat)
    requires i <= |s|
    ensures ReplaceFrom(s, [d], [e], i) == SwapChar(s[i..], d, e)
    decreases |s| - i
  {
    if i < |s| {
      MatchesAtIff(s, [d], i);
      ReplaceFromCharByChar(s, d, e, i + 1);
      assert s[i..][1..] == s[i + 1..];
    }
  }

  /** Replacing one character by another is a character-for-character substitution. */
  lemma ReplaceCharByChar(s: string, d: char, e: char)
    ensures Replace(s, [d], [e]) == SwapChar(s, d, e)
  {
    ReplaceFromCharByChar(s, d, e, 0);
    assert s[0..] == s;
  }

  // ---------------------------------------------------------------------------
  // Split and join

  /** Python `sep.join(parts)`. */
  function Join(sep: string, parts: seq<string>): string
    decreases |parts|
  {
    if |parts| == 0 then ""
    else if |parts| == 1 then parts[0]
    else parts[0] + sep + Join(sep, parts[1..])
  }

  /** Python `s.split(sep)` for a non-empty separator: the text before the first
      occurrence, then the split of what follows it. */
  function Split(s: string, sep: string): (r: seq<string>)
    requires |sep| > 0
    ensures |r| >= 1
    decreases |s|
  {
    var f := Find(s, sep);
    if f < 0 then [s] else [s[..f]] + Split(s[f + |sep|..], sep)
  }

  /** Joining the pieces of a split with the same separator gives back the string. */
  lemma {:induction false} SplitJoin(s: string, sep: string)
    requires |sep| > 0
    ensures Join(sep, Split(s, sep)) == s
    decreases |s|
  {
    var f := Find(s, sep);
    if f >= 0 {
      var rest := Split(s[f + |sep|..], sep);
      SplitJoin(s[f + |sep|..], sep);
      assert ([s[..f]] + rest)[1..] == rest;
      assert s == s[..f] + sep + s[f + |sep|..];
    }
  }

  /** No piece of a split contains the separator. */
  lemma {:induction false} SplitPiecesFree(s: string, sep: string)
    requires |sep| > 0
    ensures forall k :: 0 <= k < |Split(s, sep)| ==> !Contains(Split(s, sep)[k], sep)
    decreases |s|
  {
    var f := Find(s, sep);
    if f >= 0 {
      BeforeFirstAbsent(s, sep);
      SplitPiecesFree(s[f + |sep|..], sep);
    }
  }

  /** Joining two non-empty lists puts one separator between their joins. */
  lemma {:induction false} JoinConcat(sep: string, a: seq<string>, b: seq<string>)
    requires |a| > 0 && |b| > 0
    ensures Join(sep, a + b) == Join(sep, a) + sep + Join(sep, b)
    decreases |a|
  {
    if |a| > 1 {
      JoinConcat(sep, a[1..], b);
      assert (a + b)[1..] == a[1..] + b;
    }
  }

  /** Every character of a join comes from a part or from the separator. */
  lemma {:induction false} JoinChars(sep: string, parts: seq<string>, c: char)
    requires c in Join(sep, parts)
    ensures c in sep || exists k :: 0 <= k < |parts| && c in parts[k]
    decreases |parts|
  {
    if |parts| > 1 {
      if c !in parts[0] && c !in sep {
        JoinChars(sep, parts[1..], c);
        var k :| 0 <= k < |parts[1..]| && c in parts[1..][k];
        assert c in parts[k + 1];
      }
    }
  }

  /** For a one-character separator, splitting a join of separator-free parts gives the
      parts back. */
  lemma {:induction false} SplitOfJoin(sep: string, parts: seq<string>)
    requires |sep| == 1 && |parts| >= 1
    requires forall k :: 0 <= k < |parts| ==> sep[0] !in parts[k]
    ensures Split(Join(sep, parts), sep) == parts
    decreases |parts|
  {
    var s := Join(sep, parts);
    if |parts| == 1 {
      ContainsCharIff(s, sep[0]);
      assert sep == [sep[0]];
    } else {
      var n := |parts[0]|;
      assert s == parts[0] + sep + Join(sep, parts[1..]);
      assert OccursAt(s, sep, n);
      var f := Find(s, sep);
      FindFirst(s, sep);
      assert f >= 0;
      assert f == n;
      assert s[..f] == parts[0];
      assert s[f + 1..] == Join(sep, parts[1..]);
      SplitOfJoin(sep, parts[1..]);
    }
  }

  /** The characters of the pieces of a split all come from the string. */
  lemma {:induction false} SplitChars(s: string, sep: string, k: int, c: char)
    requires |sep| > 0 && 0 <= k < |Split(s, sep)| && c in Split(s, sep)[k]
    ensures c in s
    decreases |s|
  {
    var f := Find(s, sep);
    if f >= 0 && k > 0 {
      SplitChars(s[f + |sep|..], sep, k - 1, c);
    }
  }

  /** Python `(before, found, after) = s.partition(sep)`. */
  function Partition(s: string, sep: string): (r: (string, string, string))
    ensures r.0 + r.1 + r.2 == s
    ensures Contains(s, sep) ==> r.1 == sep && r.0 == s[..Find(s, sep)]
    ensures !Contains(s, sep) ==> r == (s, "", "")
  {
    var f := Find(s, sep);
    if f < 0 then (s, "", "")
    else
      assert s[..f] + s[f..f + |sep|] + s[f + |sep|..] == s;
      (s[..f], sep, s[f + |sep|..])
  }

  /** The text before the first occurrence of `t` holds no occurrence of `t`. */
  lemma BeforeFirstAbsent(s: string, t: string)
    requires |t| > 0 && Contains(s, t)
    ensures !Contains(s[..Find(s, t)], t)
  {
    var f := Find(s, t);
    FindFirst(s, t);
    forall i | 0 <= i ensures !OccursAt(s[..f], t, i) {
      if i < f { SliceOccurrence(s, t, 0, f, i); }
    }
    ContainsIff(s[..f], t);
  }

  // ---------------------------------------------------------------------------
  // Whitespace, stripping, words

  /** The characters Python's `str.isspace` accepts. */
  const Whitespace: set<char> := {
    ' ', '\t', '\n', '\r', '\U{0B}', '\U{0C}', '\U{1C}', '\U{1D}', '\U{1E}', '\U{1F}',
    '\U{85}', '\U{A0}', '\U{1680}', '\U{2000}', '\U{2001}', '\U{2002}', '\U{2003}',
    '\U{2004}', '\U{2005}', '\U{2006}', '\U{2007}', '\U{2008}', '\U{2009}', '\U{200A}',
    '\U{2028}', '\U{2029}', '\U{202F}', '\U{205F}', '\U{3000}'
  }

  predicate IsSpace(c: char) { c in Whitespace }

  /** Drops leading characters from `cs`. */
  function TrimStart(s: string, cs: set<char>): (r: string)
    ensures |r| <= |s| && r == s[|s| - |r|..]
    ensures r == [] || r[0] !in cs
    ensures forall i :: 0 <= i < |s| - |r| ==> s[i] in cs
    decreases |s|
  {
    if s != [] && s[0] in cs then TrimStart(s[1..], cs) else s
  }

  /** Drops trailing characters from `cs`. */
  function TrimEnd(s: string, cs: set<char>): (r: string)
    ensures |r| <= |s| && r == s[..|r|]
    ensures r == [] || r[|r| - 1] !in cs
    ensures forall i :: |r| <= i < |s| ==> s[i] in cs
    decreases |s|
  {
    if s != [] && s[|s| - 1] in cs then TrimEnd(s[..|s| - 1], cs) else s
  }

  /** Python `s.strip(chars)`. */
  function StripChars(s: string, cs: set<char>): string {
    TrimEnd(TrimStart(s, cs), cs)
  }

  /** Python `s.strip()`. */
  function Strip(s: string): string {
    StripChars(s, Whitespace)
  }

  /** Stripping never lengthens a string, and a string it changes gets shorter. */
  lemma StripCharsShortens(s: string, cs: set<char>)
    ensures |StripChars(s, cs)| <= |s|
    ensures StripChars(s, cs) != s ==> |StripChars(s, cs)| < |s|
  {
    var a := TrimStart(s, cs);
    var b := TrimEnd(a, cs);
    if |b| == |s| {
      assert a == s[|s| - |a|..] == s;
      assert b == a[..|b|] == a;
    }
  }

  /** A one-character string occurs exactly when the character does. */
  lemma ContainsCharIff(s: string, c: char)
    ensures Contains(s, [c]) <==> c in s
  {
    ContainsIff(s, [c]);
    if c in s {
      var i :| 0 <= i < |s| && s[i] == c;
      assert OccursAt(s, [c], i);
    }
  }

  /** Stripping never creates an occurrence of a substring. */
  lemma StripKeepsAbsent(s: string, cs: set<char>, t: string)
    requires !Contains(s, t)
    ensures !Contains(StripChars(s, cs), t)
  {
    var a := TrimStart(s, cs);
    AbsentInSlice(s, t, |s| - |a|, |s|);
    assert s[|s| - |a|..|s|] == a;
    AbsentInSlice(a, t, 0, |TrimEnd(a, cs)|);
  }

  /** The end of the run of non-whitespace characters starting at `i`. */
  function WordEnd(s: string, i: nat): (e: nat)
    requires i <= |s|
    ensures i <= e <= |s|
    ensures i < |s| && !IsSpace(s[i]) ==> e > i
    ensures forall k :: i <= k < e ==> !IsSpace(s[k])
    ensures e == |s| || IsSpace(s[e])
    decreases |s| - i
  {
    if i < |s| && !IsSpace(s[i]) then WordEnd(s, i + 1) else i
  }

  /** The words of `s[i..]`, as Python's `split()` gives them. */
  function WordsFrom(s: string, i: nat): seq<string>
    requires i <= |s|
    decreases |s| - i
  {
    if i == |s| then []
    else if IsSpace(s[i]) then WordsFrom(s, i + 1)
    else [s[i..WordEnd(s, i)]] + WordsFrom(s, WordEnd(s, i))
  }

  /** Python `s.split()`: the maximal runs of non-whitespace characters. */
  function Words(s: string): seq<string> {
    WordsFrom(s, 0)
  }

  lemma {:induction false} WordsFromEmptyIff(s: string, i: nat)
    requires i <= |s|
    ensures WordsFrom(s, i) == [] <==> forall k :: i <= k < |s| ==> IsSpace(s[k])
    decreases |s| - i
  {
    if i < |s| && IsSpace(s[i]) {
      WordsFromEmptyIff(s, i + 1);
    }
  }

  /** `s.split()[0]` exists exactly when `s` holds a non-whitespace character. */
  lemma WordsEmptyIff(s: string)
    ensures Words(s) == [] <==> forall k :: 0 <= k < |s| ==> IsSpace(s[k])
  {
    WordsFromEmptyIff(s, 0);
  }

  /** A word starting at `i` runs up to the next whitespace character or the end. */
  lemma {:induction false} WordEndAt(s: string, i: nat, e: nat)
    requires i <= e <= |s|
    requires forall k :: i <= k < e ==> !IsSpace(s[k])
    requires e == |s| || IsSpace(s[e])
    ensures WordEnd(s, i) == e
    decreases e - i
  {
    if i < e {
      WordEndAt(s, i + 1, e);
    }
  }

  /** A non-empty string without whitespace is a single word. */
  lemma OneWord(a: string)
    requires a != [] && forall k :: 0 <= k < |a| ==> !IsSpace(a[k])
    ensures Words(a) == [a]
  {
    WordEndAt(a, 0, |a|);
    assert !IsSpace(a[0]);
    assert WordsFrom(a, |a|) == [];
    assert WordsFrom(a, 0) == [a[0..|a|]] + WordsFrom(a, |a|);
    assert a[0..|a|] == a;
  }

  /** Two such strings joined by a space are two words. */
  lemma TwoWords(a: string, b: string)
    requires a != [] && forall k :: 0 <= k < |a| ==> !IsSpace(a[k])
    requires b != [] && forall k :: 0 <= k < |b| ==> !IsSpace(b[k])
    ensures Words(a + " " + b) == [a, b]
  {
    var s := a + " " + b;
    assert forall k :: 0 <= k < |a| ==> s[k] == a[k];
    assert forall k :: |a| < k < |s| ==> s[k] == b[k - |a| - 1];
    assert IsSpace(s[|a|]);
    WordEndAt(s, 0, |a|);
    WordEndAt(s, |a| + 1, |s|);
    assert s[0..|a|] == a;
    assert s[|a| + 1..|s|] == b;
    assert !IsSpace(s[0]) && !IsSpace(s[|a| + 1]);
    assert WordsFrom(s, |s|) == [];
    assert WordsFrom(s, |a| + 1) == [b] + WordsFrom(s, |s|);
    assert WordsFrom(s, |a|) == WordsFrom(s, |a| + 1);
    assert WordsFrom(s, 0) == [a] + WordsFrom(s, |a|);
  }

  // ---------------------------------------------------------------------------
  // Characters, case, filtering

  predicate IsUpper(c: char) { 'A' <= c <= 'Z' }
  predicate IsLower(c: char) { 'a' <= c <= 'z' }
  predicate IsLetter(c: char) { IsUpper(c) || IsLower(c) }
  predicate IsDigit(c: char) { '0' <= c <= '9' }

  function DigitValue(c: char): (d: int)
    requires IsDigit(c)
    ensures 0 <= d <= 9
  {
    c as int - '0' as int
  }

  function LowerChar(c: char): char {
    if IsUpper(c) then (c as int + 32) as char else c
  }

  function UpperChar(c: char): char {
    if IsLower(c) then (c as int - 32) as char else c
  }

  /** Python `s.lower()` on ASCII. */
  function Lower(s: string): string {
    seq(|s|, i requires 0 <= i < |s| => LowerChar(s[i]))
  }

  /** Python `str.capitalize()` on ASCII: first character upper, the rest lower. */
  function CapitalizeWord(s: string): string {
    if s == [] then [] else [UpperChar(s[0])] + Lower(s[1..])
  }

  /** An occurrence stays one after lower-casing both strings. */
  lemma LowerOccurs(s: string, t: string, i: nat)
    requires OccursAt(s, t, i)
    ensures OccursAt(Lower(s), Lower(t), i)
    ensures Contains(Lower(s), Lower(t))
  {
    assert forall k :: 0 <= k < |t| ==> Lower(s)[i + k] == LowerChar(t[k]) by {
      forall k | 0 <= k < |t|
        ensures Lower(s)[i + k] == LowerChar(t[k])
      {
        assert s[i..i + |t|][k] == t[k];
      }
    }
    assert Lower(s)[i..i + |t|] == Lower(t);
    assert OccursAt(Lower(s), Lower(t), i);
    ContainsIff(Lower(s), Lower(t));
  }

  /** Case-insensitive containment, as `t.lower() in s.lower()`. */
  predicate ContainsFolded(s: string, t: string) {
    Contains(Lower(s), Lower(t))
  }

  /** `s[i..]` with every character of `cs` deleted. */
  function RemoveCharsFrom(s: string, cs: set<char>, i: nat): (r: string)
    requires i <= |s|
    ensures |r| <= |s| - i
    ensures forall c :: c in r <==> c in s[i..] && c !in cs
    decreases |s| - i
  {
    if i == |s| then []
    else
      assert s[i..] == [s[i]] + s[i + 1..];
      (if s[i] in cs then [] else [s[i]]) + RemoveCharsFrom(s, cs, i + 1)
  }

  lemma {:induction false} RemoveCharsFromAll(s: string, cs: set<char>, i: nat)
    requires i <= |s| && forall k :: i <= k < |s| ==> s[k] in cs
    ensures RemoveCharsFrom(s, cs, i) == []
    decreases |s| - i
  {
    if i < |s| {
      RemoveCharsFromAll(s, cs, i + 1);
    }
  }

  lemma {:induction false} RemoveCharsFromPrefix(s: string, cs: set<char>, i: nat, n: nat)
    requires i <= n <= |s|
    requires forall k :: i <= k < n ==> s[k] !in cs
    requires forall k :: n <= k < |s| ==> s[k] in cs
    ensures RemoveCharsFrom(s, cs, i) == s[i..n]
    decreases n - i
  {
    if i < n {
      RemoveCharsFromPrefix(s, cs, i + 1, n);
      assert s[i..n] == [s[i]] + s[i + 1..n];
    } else {
      RemoveCharsFromAll(s, cs, i);
    }
  }

  /** Python `s.translate(str.maketrans('', '', cs))`: every character of `cs` deleted. */
  function RemoveChars(s: string, cs: set<char>): (r: string)
    ensures |r| <= |s|
    ensures forall c :: c in r <==> c in s && c !in cs
  {
    assert s[0..] == s;
    RemoveCharsFrom(s, cs, 0)
  }

  /** Deleting the characters of `cs` from a string whose first `n` characters are
      outside `cs` and whose others are inside it leaves those `n`. */
  lemma RemoveCharsOfPrefix(s: string, cs: set<char>, n: nat)
    requires n <= |s|
    requires forall k :: 0 <= k < n ==> s[k] !in cs
    requires forall k :: n <= k < |s| ==> s[k] in cs
    ensures RemoveChars(s, cs) == s[..n]
  {
    RemoveCharsFromPrefix(s, cs, 0, n);
  }

  /** `''.join(c for c in s if c in allowed)`, the allow-list being a string. */
  function KeepChars(s: string, allowed: string): (r: string)
    ensures |r| <= |s|
    ensures forall k :: 0 <= k < |r| ==> r[k] in allowed
    decreases |s|
  {
    if s == [] then []
    else if s[|s| - 1] in allowed then KeepChars(s[..|s| - 1], allowed) + [s[|s| - 1]]
    else KeepChars(s[..|s| - 1], allowed)
  }

  /** A character survives the filter exactly when it occurs and is allowed. */
  lemma {:induction false} KeepCharsMember(s: string, allowed: string, c: char)
    ensures c in KeepChars(s, allowed) <==> c in s && c in allowed
    decreases |s|
  {
    if s != [] {
      var p := s[..|s| - 1];
      KeepCharsMember(p, allowed, c);
      assert s == p + [s[|s| - 1]];
    }
  }

  /** Filtering keeps a string exactly when every character of it is allowed. */
  lemma {:induction false} KeepCharsIdentity(s: string, allowed: string)
    ensures KeepChars(s, allowed) == s <==> forall k :: 0 <= k < |s| ==> s[k] in allowed
  {
    if forall k :: 0 <= k < |s| ==> s[k] in allowed {
      if s != [] {
        var p := s[..|s| - 1];
        KeepCharsIdentity(p, allowed);
        assert forall k :: 0 <= k < |p| ==> p[k] == s[k];
        assert p + [s[|s| - 1]] == s;
      }
    } else {
      var k :| 0 <= k < |s| && s[k] !in allowed;
      assert s[k] in s;
    }
  }

  /** Python `s.count(c)` for a one-character string. */
  function Count(s: string, c: char): nat {
    multiset(s)[c]
  }

  /** Python `s.endswith(suffix)` (and `s[-4:] == suffix` for a 4-character suffix). */
  predicate EndsWith(s: string, suffix: string) {
    |s| >= |suffix| && s[|s| - |suffix|..] == suffix
  }

  predicate StartsWith(s: string, prefix: string) {
    |s| >= |prefix| && s[..|prefix|] == prefix
  }

  // ---------------------------------------------------------------------------
  // Python list search

  /** Python `xs.index(x)`: the first position holding `x`. */
  function IndexOf(xs: seq<string>, x: string): (k: nat)
    requires x in xs
    ensures k < |xs| && xs[k] == x
    ensures forall j :: 0 <= j < k ==> xs[j] != x
  {
    if xs[0] == x then 0 else IndexOf(xs[1..], x) + 1
  }

  // ---------------------------------------------------------------------------
  // Python list indexing

  /** `xs[i]` is defined for `-n <= i < n`. */
  predicate ValidIndex(i: int, n: int) { -n <= i < n }

  /** The position Python's `xs[i]` denotes. */
  function PyIndex(i: int, n: int): (k: int)
    requires ValidIndex(i, n)
    ensures 0 <= k < n
    ensures i >= 0 ==> k == i
    ensures i < 0 ==> k == i + n
  {
    if i < 0 then i + n else i
  }

  /** The position at which Python's `xs.insert(i, x)` puts `x`. */
  function InsertPos(i: int, n: nat): (k: nat)
    ensures k <= n
    ensures 0 <= i <= n ==> k == i
    ensures i < 0 && i + n >= 0 ==> k == i + n
  {
    if i < 0 then (if i + n < 0 then 0 else i + n) else if i > n then n else i
  }

  function InsertAt<T>(xs: seq<T>, k: nat, x: T): (r: seq<T>)
    requires k <= |xs|
    ensures |r| == |xs| + 1 && r[k] == x
    ensures forall j :: 0 <= j < k ==> r[j] == xs[j]
    ensures forall j :: k < j < |r| ==> r[j] == xs[j - 1]
  {
    xs[..k] + [x] + xs[k..]
  }

  function RemoveAt<T>(xs: seq<T>, k: nat): (r: seq<T>)
    requires k < |xs|
    ensures |r| == |xs| - 1
    ensures forall j :: 0 <= j < k ==> r[j] == xs[j]
    ensures forall j :: k <= j < |r| ==> r[j] == xs[j + 1]
  {
    xs[..k] + xs[k + 1..]
  }
}
