/** The text normaliser of the renaming engine: `title()` followed by the fix table
    and the first-character rule for each segment (`Book.capitalize`), and the
    author-name reversal of `Book.format_name`. */
module Normalizer {
  import opened Text

  // ---------------------------------------------------------------------------
  // title()

  /** Python `str.title()` at position `i` for ASCII text: a letter after a letter
      is lowered, any other letter is raised, everything else is kept. */
  function TitleChar(s: string, i: nat): char
    requires i < |s|
  {
    if !IsLetter(s[i]) then s[i]
    else if i > 0 && IsLetter(s[i - 1]) then LowerChar(s[i])
    else UpperChar(s[i])
  }

  /** Python `str.title()` on ASCII text (digits and punctuation are uncased). */
  function Title(s: string): (r: string)
    ensures |r| == |s|
  {
    seq(|s|, i requires 0 <= i < |s| => TitleChar(s, i))
  }

  lemma LetterCaseFacts(c: char)
    ensures IsLetter(LowerChar(c)) == IsLetter(c) && IsLetter(UpperChar(c)) == IsLetter(c)
    ensures IsLetter(c) ==> IsLower(LowerChar(c)) && IsUpper(UpperChar(c))
    ensures IsLetter(c) ==> LowerChar(UpperChar(c)) == LowerChar(c)
    ensures IsLetter(c) ==> UpperChar(LowerChar(c)) == UpperChar(c)
    ensures IsUpper(c) ==> UpperChar(c) == c
    ensures IsLower(c) ==> LowerChar(c) == c
  {
  }

  /** Every word of a title-cased string starts upper case and continues lower case,
      and the letters stand where they stood. */
  lemma TitleShape(s: string, i: nat)
    requires i < |s|
    ensures IsLetter(Title(s)[i]) == IsLetter(s[i])
    ensures !IsLetter(s[i]) ==> Title(s)[i] == s[i]
    ensures IsLetter(s[i]) && (i == 0 || !IsLetter(s[i - 1])) ==> IsUpper(Title(s)[i])
    ensures IsLetter(s[i]) && i > 0 && IsLetter(s[i - 1]) ==> IsLower(Title(s)[i])
  {
    LetterCaseFacts(s[i]);
  }

  /** Title-casing twice is title-casing once. */
  lemma TitleIdempotent(s: string)
    ensures Title(Title(s)) == Title(s)
  {
    var t := Title(s);
    forall i | 0 <= i < |s| ensures Title(t)[i] == t[i] {
      TitleShape(s, i);
      LetterCaseFacts(s[i]);
      if i > 0 { TitleShape(s, i - 1); }
    }
  }

  // ---------------------------------------------------------------------------
  // The fix table

  /** A replacement pair; Python's `str.replace` with an empty key would insert the
      value everywhere, and the table has none. */
  type Fix = f: (string, string) | |f.0| > 0 witness ("?", "")

  /** The replacement pairs of `capitalize`, in the dictionary's insertion order. */
  const FixTable: seq<Fix> := FixTable0 + FixTable1 + FixTable2 + FixTable3 + FixTable4 + FixTable5 + FixTable6 + FixTable7

  const FixTable0: seq<Fix> := [
    ("Ii", "II"), ("And ", "and "), ("In ", "in "), ("Of ", "of "), ("To ", "to "),
    ("Rtf", "rtf"), ("An ", "an "), ("The ", "the "), ("Iii ", "III "), ("De ", "de ")
  ]

  const FixTable1: seq<Fix> := [
    ("A ", "a "), ("\U{92}S", "'s"), ("'S", "'s"), ("Cia ", "C.I.A. "), ("Nasa", "NASA"),
    ("Kgb", "KGB"), ("Mig ", "MiG "), ("Viii", "VIII"), (" Iv ", " IV "),
    ("Fbi ", "F.B.I. ")
  ]

  const FixTable2: seq<Fix> := [
    ("Mcc", "McC"), ("(Ed.)", "(ed.)"), ("Et. Al.", "et. al."), ("Trans ", "trans. "),
    ("On ", "on "), ("1St", "1st"), ("7Th", "7th"), ("[Ssc]", "[SSC]"),
    ("Et Al", "et. al."), ("Von ", "von ")
  ]

  const FixTable3: seq<Fix> := [
    ("Bc ", "BC "), ("Mch", "McH"), ("Ss", "SS"), ("Raf ", "R.A.F. "), ("'S ", "'s "),
    ("Mcn", "McN"), ("a. ", "A. "), (" Bc", " BC"), ("\U{2019}S", "'s"), ("Wwii", "WWII")
  ]

  const FixTable4: seq<Fix> := [
    ("Mcm", "McM"), ("Macn", "MacN"), ("SSc", "SSC"), (" Iv", " IV"), (" At ", " at "),
    ("\U{2013}", "-"), (" By ", " by "), ("40k", "40,000"), ("40K", "40,000"),
    ("Translated By", "translated by")
  ]

  const FixTable5: seq<Fix> := [
    ("Sf ", "SF "), ("2Nd", "2nd"), ("3Rd", "3rd"), ("4Th", "4th"), ("5Th", "5th"),
    ("6Th", "6th"), ("8Th", "8th"), ("9Th", "9th"), ("(ed)", "(ed.)"), ("IIi", "III")
  ]

  const FixTable6: seq<Fix> := [
    ("10Th", "10th"), ("Mcp", "McP"), ("Gui ", "GUI "), ("O'r", "O'R"), ("Mcd", "McD"),
    ("Macl", "MacL"), ("Mcl", "McL"), ("n'T", "n't"), (" As ", " as "), ("Ad ", "AD ")
  ]

  const FixTable7: seq<Fix> := [
    ("0S", "0s"), ("'Ll", "'ll"), ("Vs ", "vs ")
  ]


  /** The pairs of `table` applied one after the other, first pair first. */
  function ApplyFixes(s: string, table: seq<Fix>): string
    decreases |table|
  {
    if table == [] then s
    else Replace(ApplyFixes(s, table[..|table| - 1]), table[|table| - 1].0, table[|table| - 1].1)
  }

  lemma {:induction false} ReplaceFromEmptyStaysEmpty(pat: string, rep: string)
    requires |pat| > 0
    ensures Replace("", pat, rep) == ""
  {
  }

  /** No replacement pair of the table can make an empty segment non-empty. */
  lemma {:induction false} ApplyFixesEmpty(table: seq<Fix>)
    ensures ApplyFixes("", table) == ""
    decreases |table|
  {
    if table != [] {
      ApplyFixesEmpty(table[..|table| - 1]);
    }
  }

  /** A segment after `title()` and the whole fix table. */
  function Fixed(seg: string): string {
    ApplyFixes(Title(seg), FixTable)
  }

  // ---------------------------------------------------------------------------
  // The first-character rule

  /** The first-character rule of `capitalize`: an opening bracket keeps its place and
      the character after it is raised; otherwise the first character is raised unless
      the segment mentions `translated by`. A segment that is a lone bracket has no
      second character and raises `IndexError`. */
  function FirstCharRule(t: string): (r: Result<string>)
    ensures r.Err? <==> t == "[" || t == "("
    ensures r.Err? ==> r.error == IndexError
    ensures r.Ok? ==> |r.value| == |t|
    ensures r.Ok? && t != "" && (t[0] == '[' || t[0] == '(') ==>
      r.value[0] == t[0] && !IsLower(r.value[1]) && r.value[1] == UpperChar(t[1]) && r.value[2..] == t[2..]
    ensures r.Ok? && t != "" && t[0] != '[' && t[0] != '(' && !Contains(t, "translated by") ==>
      !IsLower(r.value[0]) && r.value[0] == UpperChar(t[0]) && r.value[1..] == t[1..]
    ensures r.Ok? && (t == "" || (t[0] != '[' && t[0] != '(' && Contains(t, "translated by"))) ==>
      r.value == t
  {
    if t == [] then Ok(t)
    else if t[0] == '[' || t[0] == '(' then
      if |t| < 2 then Err(IndexError) else Ok([t[0]] + [UpperChar(t[1])] + t[2..])
    else if Contains(t, "translated by") then Ok(t)
    else Ok([UpperChar(t[0])] + t[1..])
  }

  /** One segment through `capitalize`: title case, the fix table, then the
      first-character rule. */
  function CapSeg(seg: string): Result<string> {
    FirstCharRule(Fixed(seg))
  }

  /** An empty segment stays empty. */
  lemma CapSegEmpty()
    ensures CapSeg("") == Ok("")
  {
    assert Title("") == "";
    ApplyFixesEmpty(FixTable);
  }

  /** The whole of `capitalize` on a segment list, from segment `i` on: each segment
      is replaced by its capitalized form, and the first segment whose rule raises keeps
      its title-cased and fixed text and stops the pass. */
  datatype Capitalized = Capitalized(segs: seq<string>, outcome: Outcome)

  function CapitalizeFrom(segs: seq<string>, i: nat): (r: Capitalized)
    requires i <= |segs|
    ensures |r.segs| == |segs|
    ensures r.segs[..i] == segs[..i]
    decreases |segs| - i
  {
    if i == |segs| then Capitalized(segs, Success)
    else match CapSeg(segs[i])
      case Err(e) => Capitalized(segs[i := Fixed(segs[i])], Failure(e))
      case Ok(v) => CapitalizeFrom(segs[i := v], i + 1)
  }

  function Capitalize(segs: seq<string>): Capitalized {
    CapitalizeFrom(segs, 0)
  }

  /** A segment whose rule succeeds is rewritten and the pass goes on. */
  lemma CapitalizeFromStep(segs: seq<string>, i: nat, v: string)
    requires i < |segs| && CapSeg(segs[i]) == Ok(v)
    ensures CapitalizeFrom(segs[i := v], i + 1) == CapitalizeFrom(segs, i)
  {
  }

  /** A segment whose rule raises ends the pass, holding its fixed text. */
  lemma CapitalizeFromStop(segs: seq<string>, i: nat)
    requires i < |segs| && CapSeg(segs[i]).Err?
    ensures CapitalizeFrom(segs, i) == Capitalized(segs[i := Fixed(segs[i])], Failure(IndexError))
  {
  }

  lemma {:induction false} CapitalizeFromSuccess(segs: seq<string>, i: nat)
    requires i <= |segs|
    ensures var r := CapitalizeFrom(segs, i);
      r.outcome == Success <==> forall k :: i <= k < |segs| ==> CapSeg(segs[k]).Ok?
    ensures var r := CapitalizeFrom(segs, i);
      r.outcome == Success ==> forall k :: i <= k < |segs| ==> CapSeg(segs[k]) == Ok(r.segs[k])
    decreases |segs| - i
  {
    if i < |segs| && CapSeg(segs[i]).Ok? {
      var v := CapSeg(segs[i]).value;
      var segs' := segs[i := v];
      CapitalizeFromSuccess(segs', i + 1);
      assert CapitalizeFrom(segs', i + 1).segs[..i + 1][i] == v;
      assert forall k :: i < k < |segs| ==> segs'[k] == segs[k];
    }
  }

  lemma {:induction false} CapitalizeFromFailure(segs: seq<string>, i: nat)
    requires i <= |segs|
    ensures var r := CapitalizeFrom(segs, i);
      r.outcome.Failure? ==> exists j :: i <= j < |segs| && CapitalizeStopsAt(segs, r, i, j)
    decreases |segs| - i
  {
    if i < |segs| {
      var r := CapitalizeFrom(segs, i);
      match CapSeg(segs[i])
      case Err(e) =>
        assert CapitalizeStopsAt(segs, r, i, i);
      case Ok(v) =>
        var segs' := segs[i := v];
        CapitalizeFromFailure(segs', i + 1);
        if r.outcome.Failure? {
          var j :| i + 1 <= j < |segs'| && CapitalizeStopsAt(segs', r, i + 1, j);
          assert CapitalizeStopsAt(segs, r, i, j);
        }
    }
  }

  /** `r` is the list after a pass from `i` that stopped at segment `j`. */
  ghost predicate CapitalizeStopsAt(segs: seq<string>, r: Capitalized, i: nat, j: nat)
    requires i <= j < |segs| && |r.segs| == |segs|
  {
    && (forall k :: i <= k < j ==> CapSeg(segs[k]) == Ok(r.segs[k]))
    && CapSeg(segs[j]).Err? && r.outcome == Failure(IndexError)
    && r.segs[j] == Fixed(segs[j])
    && r.segs[j + 1..] == segs[j + 1..]
  }

  /** `capitalize` keeps the number of segments; when no segment raises, every
      segment is replaced by its capitalized form, and otherwise the pass stops at the
      first segment whose fixed text is a lone bracket. */
  lemma CapitalizeSpec(segs: seq<string>)
    ensures |Capitalize(segs).segs| == |segs|
    ensures Capitalize(segs).outcome == Success <==> forall k :: 0 <= k < |segs| ==> CapSeg(segs[k]).Ok?
    ensures Capitalize(segs).outcome == Success ==>
      forall k :: 0 <= k < |segs| ==> CapSeg(segs[k]) == Ok(Capitalize(segs).segs[k])
    ensures Capitalize(segs).outcome.Failure? ==>
      exists j :: 0 <= j < |segs| && CapitalizeStopsAt(segs, Capitalize(segs), 0, j)
  {
    CapitalizeFromSuccess(segs, 0);
    CapitalizeFromFailure(segs, 0);
  }

  // ---------------------------------------------------------------------------
  // capitalize() applied twice

  /** `key` does not occur in `s` at or after index `i`, checked character by
      character. */
  predicate UnmatchedFrom(s: string, key: string, i: nat)
    decreases |s| - i
  {
    i + |key| > |s| || (!MatchesFrom(s, key, i, 0) && UnmatchedFrom(s, key, i + 1))
  }

  lemma {:induction false} UnmatchedFromNoOccurrence(s: string, key: string, i: nat, j: nat)
    requires UnmatchedFrom(s, key, i) && i <= j
    ensures !OccursAt(s, key, j)
    decreases |s| - i
  {
    if i + |key| <= |s| {
      if j == i {
        MatchesAtIff(s, key, i);
      } else {
        UnmatchedFromNoOccurrence(s, key, i + 1, j);
      }
    }
  }

  /** No key of `table` occurs in `s`. */
  predicate NoKeyOccurs(s: string, table: seq<Fix>) {
    forall k :: 0 <= k < |table| ==> UnmatchedFrom(s, table[k].0, 0)
  }

  lemma NoKeyOccursConcat(s: string, a: seq<Fix>, b: seq<Fix>)
    requires NoKeyOccurs(s, a) && NoKeyOccurs(s, b)
    ensures NoKeyOccurs(s, a + b)
  {
    forall k | 0 <= k < |a + b|
      ensures UnmatchedFrom(s, (a + b)[k].0, 0)
    {
      if k >= |a| {
        assert (a + b)[k] == b[k - |a|];
      }
    }
  }

  /** A table none of whose keys occurs in the text leaves it alone. */
  lemma {:induction false} ApplyFixesUntouched(s: string, table: seq<Fix>)
    requires NoKeyOccurs(s, table)
    ensures ApplyFixes(s, table) == s
    decreases |table|
  {
    if table != [] {
      var init := table[..|table| - 1];
      assert NoKeyOccurs(s, init) by {
        forall k | 0 <= k < |init|
          ensures UnmatchedFrom(s, init[k].0, 0)
        {
          assert init[k] == table[k];
        }
      }
      ApplyFixesUntouched(s, init);
      var last := table[|table| - 1];
      ContainsIff(s, last.0);
      if Contains(s, last.0) {
        var j :| OccursAt(s, last.0, j);
        UnmatchedFromNoOccurrence(s, last.0, 0, j);
      }
      ReplaceAbsent(s, last.0, last.1);
    }
  }

  /** Applying a table in two parts is applying it whole. */
  lemma {:induction false} ApplyFixesConcat(s: string, t1: seq<Fix>, t2: seq<Fix>)
    ensures ApplyFixes(s, t1 + t2) == ApplyFixes(ApplyFixes(s, t1), t2)
    decreases |t2|
  {
    if t2 == [] {
      assert t1 + t2 == t1;
    } else {
      var init := t2[..|t2| - 1];
      assert (t1 + t2)[..|t1 + t2| - 1] == t1 + init;
      assert (t1 + t2)[|t1 + t2| - 1] == t2[|t2| - 1];
      ApplyFixesConcat(s, t1, init);
    }
  }

  /** When only `hit` occurs, before and after it is applied, the table makes that one
      replacement. */
  lemma ApplyFixesOneHit(s: string, pre: seq<Fix>, hit: Fix, post: seq<Fix>)
    requires NoKeyOccurs(s, pre)
    requires NoKeyOccurs(Replace(s, hit.0, hit.1), post)
    ensures ApplyFixes(s, pre + [hit] + post) == Replace(s, hit.0, hit.1)
  {
    ApplyFixesConcat(s, pre + [hit], post);
    ApplyFixesUntouched(s, pre);
    assert (pre + [hit])[..|pre|] == pre;
    ApplyFixesUntouched(Replace(s, hit.0, hit.1), post);
  }

  /** The pairs of the fix table before its `i`-th pair of `FixTable2`. */
  function TableBefore(i: nat): seq<Fix>
    requires i < |FixTable2|
  {
    FixTable0 + FixTable1 + FixTable2[..i]
  }

  /** The pairs of the fix table after its `i`-th pair of `FixTable2`. */
  function TableAfter(i: nat): seq<Fix>
    requires i < |FixTable2|
  {
    FixTable2[i + 1..] + FixTable3 + FixTable4 + FixTable5 + FixTable6 + FixTable7
  }

  lemma FixTableAround(i: nat)
    requires i < |FixTable2|
    ensures FixTable == TableBefore(i) + [FixTable2[i]] + TableAfter(i)
  {
    assert FixTable2 == FixTable2[..i] + [FixTable2[i]] + FixTable2[i + 1..];
  }

  /** Only the pair at `i` of `FixTable2` occurs in `s`, and nothing after it occurs
      in its result `t`: the fix table turns `s` into `t`. */
  lemma ApplyFixesAround(s: string, i: nat, t: string)
    requires i < |FixTable2| && Replace(s, FixTable2[i].0, FixTable2[i].1) == t
    requires NoKeyOccurs(s, FixTable0) && NoKeyOccurs(s, FixTable1) && NoKeyOccurs(s, FixTable2[..i])
    requires NoKeyOccurs(t, FixTable2[i + 1..]) && NoKeyOccurs(t, FixTable3) && NoKeyOccurs(t, FixTable4)
    requires NoKeyOccurs(t, FixTable5) && NoKeyOccurs(t, FixTable6) && NoKeyOccurs(t, FixTable7)
    ensures ApplyFixes(s, FixTable) == t
  {
    NoKeyOccursConcat(s, FixTable0, FixTable1);
    NoKeyOccursConcat(s, FixTable0 + FixTable1, FixTable2[..i]);
    var tail := FixTable2[i + 1..];
    NoKeyOccursConcat(t, tail, FixTable3);
    NoKeyOccursConcat(t, tail + FixTable3, FixTable4);
    NoKeyOccursConcat(t, tail + FixTable3 + FixTable4, FixTable5);
    NoKeyOccursConcat(t, tail + FixTable3 + FixTable4 + FixTable5, FixTable6);
    NoKeyOccursConcat(t, tail + FixTable3 + FixTable4 + FixTable5 + FixTable6, FixTable7);
    FixTableAround(i);
    ApplyFixesOneHit(s, TableBefore(i), FixTable2[i], TableAfter(i));
  }

  // The first pass: `et ali` is title-cased to `Et Ali`, and of the whole table only
  // the `Et Al` pair applies.

  lemma FirstPassBefore()
    ensures NoKeyOccurs("Et Ali", FixTable0) && NoKeyOccurs("Et Ali", FixTable1)
    ensures NoKeyOccurs("Et Ali", FixTable2[..8])
  {
  }

  lemma FirstPassAfter()
    ensures NoKeyOccurs("et. al.i", FixTable2[9..]) && NoKeyOccurs("et. al.i", FixTable3)
  {
  }

  lemma FirstPassLater()
    ensures NoKeyOccurs("et. al.i", FixTable4) && NoKeyOccurs("et. al.i", FixTable5)
  {
  }

  lemma FirstPassLast()
    ensures NoKeyOccurs("et. al.i", FixTable6) && NoKeyOccurs("et. al.i", FixTable7)
  {
  }

  // The second pass: `Et. al.i` is title-cased to `Et. Al.I`, since `.` is not a
  // letter, and only the `Et. Al.` pair applies.

  lemma SecondPassBefore()
    ensures NoKeyOccurs("Et. Al.I", FixTable0) && NoKeyOccurs("Et. Al.I", FixTable1)
    ensures NoKeyOccurs("Et. Al.I", FixTable2[..2])
  {
  }

  lemma SecondPassAfter()
    ensures NoKeyOccurs("et. al.I", FixTable2[3..]) && NoKeyOccurs("et. al.I", FixTable3)
  {
  }

  lemma SecondPassLater()
    ensures NoKeyOccurs("et. al.I", FixTable4) && NoKeyOccurs("et. al.I", FixTable5)
  {
  }

  lemma SecondPassLast()
    ensures NoKeyOccurs("et. al.I", FixTable6) && NoKeyOccurs("et. al.I", FixTable7)
  {
  }

  lemma FixedFirstPass()
    ensures Fixed("et ali") == "et. al.i"
  {
    assert Title("et ali") == "Et Ali";
    assert Replace("Et Ali", "Et Al", "et. al.") == "et. al.i";
    FirstPassBefore();
    FirstPassAfter();
    FirstPassLater();
    FirstPassLast();
    ApplyFixesAround("Et Ali", 8, "et. al.i");
  }

  lemma FixedSecondPass()
    ensures Fixed("Et. al.i") == "et. al.I"
  {
    assert Title("Et. al.i") == "Et. Al.I";
    assert Replace("Et. Al.I", "Et. Al.", "et. al.") == "et. al.I";
    SecondPassBefore();
    SecondPassAfter();
    SecondPassLater();
    SecondPassLast();
    ApplyFixesAround("Et. Al.I", 2, "et. al.I");
  }

  /** A one-segment list whose segment's rule succeeds. */
  lemma CapitalizeSingle(seg: string, v: string)
    requires CapSeg(seg) == Ok(v)
    ensures Capitalize([seg]) == Capitalized([v], Success)
  {
    assert [seg][0 := v] == [v];
    assert CapitalizeFrom([v], 1) == Capitalized([v], Success);
  }

  /** `capitalize` is not idempotent: the `Et Al` pair comes after the `Et. Al.` pair,
      so a first pass turns `et ali` into `Et. al.i`, whose `i` now follows a full stop
      and is raised by `title()` on a second pass. */
  lemma CapitalizeNotIdempotent()
    ensures Capitalize(["et ali"]) == Capitalized(["Et. al.i"], Success)
    ensures Capitalize(["Et. al.i"]) == Capitalized(["Et. al.I"], Success)
    ensures Capitalize(Capitalize(["et ali"]).segs) != Capitalize(["et ali"])
  {
    FixedFirstPass();
    assert !Contains("et. al.i", "translated by");
    assert UpperChar('e') == 'E';
    assert [UpperChar('e')] + "et. al.i"[1..] == "Et. al.i";
    CapitalizeSingle("et ali", "Et. al.i");
    FixedSecondPass();
    assert !Contains("et. al.I", "translated by");
    assert [UpperChar('e')] + "et. al.I"[1..] == "Et. al.I";
    CapitalizeSingle("Et. al.i", "Et. al.I");
  }

  // ---------------------------------------------------------------------------
  // format_name

  /** The name with every `&` spelled `and`. */
  function Ampersands(s: string): (r: string)
    ensures '&' !in r
    ensures '&' !in s ==> r == s
  {
    ContainsCharIff(s, '&');
    assert "&" == ['&'];
    if Contains(s, "&") then
      ReplaceRemovesChar(s, '&', "and");
      Replace(s, "&", "and")
    else s
  }

  /** The tokens of a name once a trailing `(ed)`/`(ed.)` and then a trailing
      `Jr`/`Jr.` are taken off, with flags saying which were there. */
  datatype NameParts = NameParts(tokens: seq<string>, edited: bool, junior: bool)

  function NameTokens(inname: string): (r: Result<NameParts>)
    ensures r.Ok? ==> |r.value.tokens| <= |Split(Ampersands(inname), " ")|
    ensures r.Ok? ==> r.value.tokens == Split(Ampersands(inname), " ")[..|r.value.tokens|]
  {
    var toks := Split(Ampersands(inname), " ");
    var n := |toks|;
    var edited := toks[n - 1] == "(ed)" || toks[n - 1] == "(ed.)";
    var t1 := if edited then toks[..n - 1] else toks;
    if t1 == [] then Err(IndexError)
    else
      var junior := t1[|t1| - 1] == "Jr" || t1[|t1| - 1] == "Jr.";
      Ok(NameParts(if junior then t1[..|t1| - 1] else t1, edited, junior))
  }

  /** The token the name is divided at, as `andloc` ends up: a `With` beats a
      `with`, which beats an `and`; 0 when none is present. */
  function AndLoc(ts: seq<string>): (k: nat)
    ensures "and" in ts || "with" in ts || "With" in ts ==>
      k < |ts| && (ts[k] == "and" || ts[k] == "with" || ts[k] == "With")
    ensures "With" in ts ==> ts[k] == "With" && forall j :: 0 <= j < k ==> ts[j] != "With"
    ensures "With" !in ts && "with" in ts ==> ts[k] == "with" && forall j :: 0 <= j < k ==> ts[j] != "with"
    ensures "With" !in ts && "with" !in ts && "and" in ts ==>
      ts[k] == "and" && forall j :: 0 <= j < k ==> ts[j] != "and"
    ensures "With" !in ts && "with" !in ts && "and" !in ts ==> k == 0
  {
    if "With" in ts then IndexOf(ts, "With")
    else if "with" in ts then IndexOf(ts, "with")
    else if "and" in ts then IndexOf(ts, "and")
    else 0
  }

  /** The name is divided in two exactly when an `and` token is present and
      `andloc` is not 1. */
  predicate DividesAt(ts: seq<string>) {
    "and" in ts && AndLoc(ts) != 1
  }

  /** A one-letter token gets a full stop. The token is kept as a prefix and at most
      one character is added: a full stop, exactly for a one-letter token. */
  function Dot(t: string): (r: string)
    ensures t <= r && |r| <= |t| + 1
    ensures r != t <==> |t| == 1
    ensures r != t ==> r[|t|] == '.'
  {
    if |t| == 1 then t + "." else t
  }

  function Dotted(ts: seq<string>): (r: seq<string>)
    ensures |r| == |ts| && forall k :: 0 <= k < |ts| ==> r[k] == Dot(ts[k])
  {
    if ts == [] then [] else [Dot(ts[0])] + Dotted(ts[1..])
  }

  /** A single name, surname first: the last token moves to the front and is followed
      by a comma; popping from an empty token list raises `IndexError`. */
  function SurnameFirst(ts: seq<string>): (r: Result<string>)
    ensures r.Err? <==> ts == []
    ensures r.Ok? ==> r.value == Dot(ts[|ts| - 1]) + ", " + Join(" ", Dotted(ts[..|ts| - 1]))
  {
    if ts == [] then Err(IndexError)
    else
      var rotated := Dotted([ts[|ts| - 1]] + ts[..|ts| - 1]);
      assert rotated[1..] == Dotted(ts[..|ts| - 1]);
      Ok(rotated[0] + ", " + Join(" ", rotated[1..]))
  }

  /** `' Jr.'` goes in front of the first comma, or, with no comma, in front of the
      last character (Python's `find` gives -1 and the slices count from the end). */
  function AddJunior(s: string): (r: string)
    ensures |r| == |s| + 4
    ensures exists k :: 0 <= k <= |s| && r[..k] + r[k + 4..] == s && r[k..k + 4] == " Jr."
    ensures Contains(s, ",") ==> var f := Find(s, ",");
      && 0 <= f < |s|
      && (forall i :: 0 <= i < f + 4 ==> r[i] != ',')
      && r[f + 4] == ','
      && r[f..f + 4] == " Jr."
    ensures !Contains(s, ",") && s != [] ==> r[|r| - 5..|r| - 1] == " Jr." && r[|r| - 1] == s[|s| - 1]
  {
    var f := Find(s, ",");
    var k := if f >= 0 then f else if |s| > 0 then |s| - 1 else 0;
    var r := s[..k] + " Jr." + s[k..];
    assert r[..k] + r[k + 4..] == s;
    if f >= 0 then NoCommaBefore(s, f); r else r
  }

  /** Before the first comma `Find` reports, no character is a comma. */
  lemma NoCommaBefore(s: string, f: int)
    requires f == Find(s, ",") && f >= 0
    ensures f < |s| && s[f] == ','
    ensures forall i :: 0 <= i < f ==> s[i] != ','
  {
    FindFirst(s, ",");
    ContainsIff(s, ",");
    forall i | 0 <= i < f
      ensures s[i] != ','
    {
      if s[i] == ',' {
        assert s[i..i + 1] == ",";
        assert OccursAt(s, ",", i);
      }
    }
  }

  /** Python `Book.format_name`: author names written "First Last" become
      "Last, First"; two names joined by `and`, `&` or `with` are reversed one by
      one and joined by `and`. */
  function FormatName(inname: string): Result<string>
    decreases |Ampersands(inname)|, 1
  {
    var parts :- NameTokens(inname);
    TokensOfName(Ampersands(inname), parts.tokens);
    var core :- ReverseName(parts.tokens);
    Ok(Decorate(core, parts.edited, parts.junior))
  }

  /** The body of `format_name` between the token clean-up and the suffixes: one name
      reversed, or the two halves around `andloc` reversed separately. */
  function ReverseName(ts: seq<string>): Result<string>
    requires AmpersandFree(ts)
    decreases |Join(" ", ts)|, 0
  {
    if !DividesAt(ts) then SurnameFirst(ts)
    else
      var a := AndLoc(ts);
      HalvesShorter(ts);
      BothNames(FormatName(Join(" ", ts[..a])), FormatName(Join(" ", ts[a + 1..])))
  }

  /** ` (ed.)` after an editor's name, then ` Jr.` before the first comma. */
  function Decorate(core: string, edited: bool, junior: bool): string {
    var withEd := if edited then core + " (ed.)" else core;
    if junior then AddJunior(withEd) else withEd
  }

  predicate AmpersandFree(ts: seq<string>) {
    forall k :: 0 <= k < |ts| ==> '&' !in ts[k]
  }

  /** The two reversed names joined by `and`; the first failure is the one raised. */
  function BothNames(left: Result<string>, right: Result<string>): (r: Result<string>)
    ensures r.Ok? <==> left.Ok? && right.Ok?
    ensures left.Err? ==> r == Err(left.error)
    ensures left.Ok? && right.Err? ==> r == Err(right.error)
    ensures r.Ok? ==> r.value == left.value + " and " + right.value
    ensures r.Ok? ==>
      && |r.value| == |left.value| + 5 + |right.value|
      && r.value[..|left.value|] == left.value
      && r.value[|left.value| + 5..] == right.value
  {
    var l :- left;
    var rt :- right;
    Ok(l + " and " + rt)
  }

  /** The lengths of the joins of the parts before and after position `a`. */
  lemma JoinAroundLength(sep: string, ps: seq<string>, a: nat)
    requires a < |ps| && |sep| > 0
    ensures |Join(sep, ps[..a])| + |ps[a]| <= |Join(sep, ps)|
    ensures |Join(sep, ps[a + 1..])| + |ps[a]| <= |Join(sep, ps)|
  {
    assert ps == ps[..a] + [ps[a]] + ps[a + 1..];
    var mid := [ps[a]] + ps[a + 1..];
    assert ps == ps[..a] + mid;
    if a > 0 { JoinConcat(sep, ps[..a], mid); }
    if a + 1 < |ps| { JoinConcat(sep, [ps[a]], ps[a + 1..]); }
    else { assert mid == [ps[a]]; }
  }

  lemma JoinPrefixLength(sep: string, ps: seq<string>, m: nat)
    requires m <= |ps|
    ensures |Join(sep, ps[..m])| <= |Join(sep, ps)|
  {
    if 0 < m < |ps| {
      assert ps == ps[..m] + ps[m..];
      JoinConcat(sep, ps[..m], ps[m..]);
    } else if m == |ps| {
      assert ps[..m] == ps;
    }
  }

  /** The tokens left by the clean-up hold no `&` and join to no more than the name. */
  lemma TokensOfName(s: string, ts: seq<string>)
    requires '&' !in s
    requires |ts| <= |Split(s, " ")| && ts == Split(s, " ")[..|ts|]
    ensures AmpersandFree(ts) && |Join(" ", ts)| <= |s|
  {
    forall k | 0 <= k < |ts| ensures '&' !in ts[k] {
      if '&' in ts[k] { SplitChars(s, " ", k, '&'); }
    }
    JoinPrefixLength(" ", Split(s, " "), |ts|);
    SplitJoin(s, " ");
  }

  /** Both halves handed to the recursive calls are shorter than the joined tokens. */
  lemma HalvesShorter(ts: seq<string>)
    requires AmpersandFree(ts) && DividesAt(ts)
    ensures var a := AndLoc(ts);
      && Ampersands(Join(" ", ts[..a])) == Join(" ", ts[..a])
      && Ampersands(Join(" ", ts[a + 1..])) == Join(" ", ts[a + 1..])
      && |Join(" ", ts[..a])| < |Join(" ", ts)| && |Join(" ", ts[a + 1..])| < |Join(" ", ts)|
  {
    var a := AndLoc(ts);
    JoinAroundLength(" ", ts, a);
    if '&' in Join(" ", ts[..a]) {
      JoinChars(" ", ts[..a], '&');
    }
    if '&' in Join(" ", ts[a + 1..]) {
      JoinChars(" ", ts[a + 1..], '&');
    }
  }

  /** Tokens as `split(' ')` can produce them from an `&`-free name. */
  ghost predicate PlainTokens(ts: seq<string>) {
    |ts| >= 1 && forall k :: 0 <= k < |ts| ==> ' ' !in ts[k] && '&' !in ts[k]
  }

  predicate IsSuffixToken(t: string) {
    t == "(ed)" || t == "(ed.)" || t == "Jr" || t == "Jr."
  }

  lemma SplitOfPlain(ts: seq<string>)
    requires PlainTokens(ts)
    ensures Ampersands(Join(" ", ts)) == Join(" ", ts)
    ensures Split(Join(" ", ts), " ") == ts
  {
    if '&' in Join(" ", ts) {
      JoinChars(" ", ts, '&');
    }
    SplitOfJoin(" ", ts);
  }

  /** `&` and `and` are interchangeable in a name. */
  lemma FormatNameAmpersand(s: string)
    ensures FormatName(s) == FormatName(Ampersands(s))
  {
    assert Ampersands(Ampersands(s)) == Ampersands(s);
    assert NameTokens(s) == NameTokens(Ampersands(s));
  }

  /** A name with no `(ed)` or `Jr` at the end is divided exactly when an `and` token
      is present and `andloc` is not 1; otherwise it is reversed as one name. */
  lemma FormatNamePlain(ts: seq<string>)
    requires PlainTokens(ts) && !IsSuffixToken(ts[|ts| - 1])
    ensures !DividesAt(ts) ==> FormatName(Join(" ", ts)) == SurnameFirst(ts)
    ensures DividesAt(ts) ==>
      FormatName(Join(" ", ts)) ==
        BothNames(FormatName(Join(" ", ts[..AndLoc(ts)])), FormatName(Join(" ", ts[AndLoc(ts) + 1..])))
  {
    NameTokensPlain(ts);
  }

  /** The tokens of a plain name followed by a marker token. */
  lemma NameTokensWithSuffix(ts: seq<string>, t: string)
    requires PlainTokens(ts) && !IsSuffixToken(ts[|ts| - 1]) && IsSuffixToken(t)
    ensures NameTokens(Join(" ", ts)) == Ok(NameParts(ts, false, false))
    ensures NameTokens(Join(" ", ts + [t])) ==
      Ok(NameParts(ts, t == "(ed)" || t == "(ed.)", t == "Jr" || t == "Jr."))
  {
    NameTokensPlain(ts);
    SuffixedTokens(ts, t);
    if t == "(ed)" || t == "(ed.)" {
      NameTokensEdited(ts, t);
    } else {
      NameTokensJunior(ts, t);
    }
  }

  lemma SuffixedTokens(ts: seq<string>, t: string)
    requires PlainTokens(ts) && IsSuffixToken(t)
    ensures Split(Ampersands(Join(" ", ts + [t])), " ") == ts + [t]
  {
    var tt := ts + [t];
    assert ' ' !in t && '&' !in t;
    assert PlainTokens(tt) by {
      forall k | 0 <= k < |tt| ensures ' ' !in tt[k] && '&' !in tt[k] {
        if k < |ts| { assert tt[k] == ts[k]; }
      }
    }
    SplitOfPlain(tt);
  }

  lemma NameTokensEdited(ts: seq<string>, t: string)
    requires |ts| >= 1 && !IsSuffixToken(ts[|ts| - 1]) && (t == "(ed)" || t == "(ed.)")
    requires Split(Ampersands(Join(" ", ts + [t])), " ") == ts + [t]
    ensures NameTokens(Join(" ", ts + [t])) == Ok(NameParts(ts, true, false))
  {
    var toks := ts + [t];
    assert toks[|toks| - 1] == t && toks[..|toks| - 1] == ts;
    assert ts[|ts| - 1] != "Jr" && ts[|ts| - 1] != "Jr.";
  }

  lemma NameTokensJunior(ts: seq<string>, t: string)
    requires |ts| >= 1 && !IsSuffixToken(ts[|ts| - 1]) && (t == "Jr" || t == "Jr.")
    requires Split(Ampersands(Join(" ", ts + [t])), " ") == ts + [t]
    ensures NameTokens(Join(" ", ts + [t])) == Ok(NameParts(ts, false, true))
  {
    var toks := ts + [t];
    assert toks[|toks| - 1] == t && toks[..|toks| - 1] == ts;
    assert t != "(ed)" && t != "(ed.)";
  }

  lemma NameTokensPlain(ts: seq<string>)
    requires PlainTokens(ts) && !IsSuffixToken(ts[|ts| - 1])
    ensures NameTokens(Join(" ", ts)) == Ok(NameParts(ts, false, false))
  {
    SplitOfPlain(ts);
  }

  /** A trailing `(ed)` or `(ed.)` comes back as ` (ed.)` after the reversed name. */
  lemma FormatNameEditor(ts: seq<string>, ed: string)
    requires PlainTokens(ts) && !IsSuffixToken(ts[|ts| - 1])
    requires ed == "(ed)" || ed == "(ed.)"
    ensures FormatName(Join(" ", ts + [ed])).Ok? == FormatName(Join(" ", ts)).Ok?
    ensures FormatName(Join(" ", ts)).Ok? ==>
      FormatName(Join(" ", ts + [ed])).value == FormatName(Join(" ", ts)).value + " (ed.)"
  {
    NameTokensWithSuffix(ts, ed);
    assert AmpersandFree(ts);
    var r := ReverseName(ts);
    assert FormatName(Join(" ", ts)) == if r.Err? then Err(r.error) else Ok(Decorate(r.value, false, false));
    assert FormatName(Join(" ", ts + [ed])) ==
      if r.Err? then Err(r.error) else Ok(Decorate(r.value, true, false));
  }

  /** A trailing `Jr` or `Jr.` comes back as ` Jr.` in front of the first comma. */
  lemma FormatNameJunior(ts: seq<string>, jr: string)
    requires PlainTokens(ts) && !IsSuffixToken(ts[|ts| - 1])
    requires jr == "Jr" || jr == "Jr."
    ensures FormatName(Join(" ", ts + [jr])).Ok? == FormatName(Join(" ", ts)).Ok?
    ensures FormatName(Join(" ", ts)).Ok? ==>
      FormatName(Join(" ", ts + [jr])).value == AddJunior(FormatName(Join(" ", ts)).value)
  {
    NameTokensWithSuffix(ts, jr);
    assert AmpersandFree(ts);
    var r := ReverseName(ts);
    assert FormatName(Join(" ", ts)) == if r.Err? then Err(r.error) else Ok(Decorate(r.value, false, false));
    assert FormatName(Join(" ", ts + [jr])) ==
      if r.Err? then Err(r.error) else Ok(Decorate(r.value, false, true));
  }

  /** A name that is only an editor or junior marker has no tokens left to reverse. */
  lemma FormatNameOnlySuffix(t: string)
    requires IsSuffixToken(t)
    ensures FormatName(t) == Err(IndexError)
  {
    assert '&' !in t;
    SplitOfPlain([t]);
  }

  // Worked examples of `format_name`.

  lemma FormatNameSingleExample(name: string)
    requires name == "John Smith"
    ensures FormatName(name) == Ok("Smith, John")
  {
    var ts := JohnSmith();
    FormatNamePlain(ts);
  }

  /** The tokens of "John Smith" and their reversal. */
  lemma JohnSmith() returns (ts: seq<string>)
    ensures Join(" ", ts) == "John Smith" && PlainTokens(ts) && !IsSuffixToken(ts[|ts| - 1])
    ensures !DividesAt(ts) && SurnameFirst(ts) == Ok("Smith, John")
  {
    ts := ["John", "Smith"];
    assert "and" !in ts;
    assert Dotted(ts[..1]) == ["John"];
    assert "Smith" + ", " + "John" == "Smith, John";
  }

  lemma FormatNameInitialExample(name: string)
    requires name == "J Smith"
    ensures FormatName(name) == Ok("Smith, J.")
  {
    var ts := InitialSmith();
    FormatNamePlain(ts);
  }

  lemma InitialSmith() returns (ts: seq<string>)
    ensures ts == ["J", "Smith"]
    ensures Join(" ", ts) == "J Smith" && PlainTokens(ts) && !IsSuffixToken(ts[|ts| - 1])
    ensures !DividesAt(ts) && SurnameFirst(ts) == Ok("Smith, J.")
  {
    ts := ["J", "Smith"];
    assert "and" !in ts;
    assert Dot("J") == "J" + "." == "J.";
    assert Dotted(ts[..1]) == ["J."];
    assert "Smith" + ", " + "J." == "Smith, J.";
  }

  lemma JaneDoe() returns (ts: seq<string>)
    ensures ts == ["Jane", "Doe"]
    ensures Join(" ", ts) == "Jane Doe" && PlainTokens(ts) && !IsSuffixToken(ts[|ts| - 1])
    ensures !DividesAt(ts) && SurnameFirst(ts) == Ok("Doe, Jane")
  {
    ts := ["Jane", "Doe"];
    assert "and" !in ts;
    assert Dotted(ts[..1]) == ["Jane"];
    assert "Doe" + ", " + "Jane" == "Doe, Jane";
  }

  lemma JoinAppend(sep: string, ts: seq<string>, t: string)
    requires |ts| > 0
    ensures Join(sep, ts + [t]) == Join(sep, ts) + sep + t
  {
    JoinConcat(sep, ts, [t]);
  }

  lemma FormatNameEditorExample(name: string)
    requires name == "John Smith (ed)"
    ensures FormatName(name) == Ok("Smith, John (ed.)")
  {
    var ts := JohnSmith();
    JoinAppend(" ", ts, "(ed)");
    EditorLiterals();
    FormatNamePlain(ts);
    FormatNameEditor(ts, "(ed)");
  }

  lemma EditorLiterals()
    ensures "John Smith" + " " + "(ed)" == "John Smith (ed)"
    ensures "Smith, John" + " (ed.)" == "Smith, John (ed.)"
  {
  }

  lemma FormatNameJuniorExample(name: string)
    requires name == "John Smith Jr"
    ensures FormatName(name) == Ok("Smith Jr., John")
  {
    var ts := JohnSmith();
    JoinAppend(" ", ts, "Jr");
    assert "John Smith" + " " + "Jr" == "John Smith Jr";
    FormatNamePlain(ts);
    FormatNameJunior(ts, "Jr");
    JuniorOfJohnSmith();
  }

  lemma JuniorOfJohnSmith()
    ensures AddJunior("Smith, John") == "Smith Jr., John"
  {
    assert Find("Smith, John", ",") == 5;
    assert "Smith, John"[..5] == "Smith" && "Smith, John"[5..] == ", John";
    assert "Smith" + " Jr." + ", John" == "Smith Jr., John";
  }

  lemma FormatNameAndExample(name: string)
    requires name == "John Smith and Jane Doe"
    ensures FormatName(name) == Ok("Smith, John and Doe, Jane")
  {
    var ts := JohnSmithAndJaneDoe();
    FormatNamePlain(ts);
    var js := JohnSmith();
    FormatNamePlain(js);
    var jd := JaneDoe();
    FormatNamePlain(jd);
    AndLiterals();
  }

  lemma AndLiterals()
    ensures "Smith, John" + " and " + "Doe, Jane" == "Smith, John and Doe, Jane"
  {
  }

  lemma JohnSmithAndJaneDoe() returns (ts: seq<string>)
    ensures Join(" ", ts) == "John Smith and Jane Doe" && PlainTokens(ts) && !IsSuffixToken(ts[|ts| - 1])
    ensures DividesAt(ts) && AndLoc(ts) == 2
    ensures Join(" ", ts[..2]) == "John Smith" && Join(" ", ts[3..]) == "Jane Doe"
  {
    ts := ["John", "Smith", "and", "Jane", "Doe"];
    FiveTokensJoin(ts);
    FiveTokensPlain(ts);
    FiveTokensDivide(ts);
  }

  lemma FiveTokensJoin(ts: seq<string>)
    requires ts == ["John", "Smith", "and", "Jane", "Doe"]
    ensures Join(" ", ts) == "John Smith and Jane Doe"
  {
    JoinTwo("Jane", "Doe");
    assert ts[3..] == ["Jane", "Doe"];
    JoinCons("and", ts[3..]);
    assert ts[2..] == ["and"] + ts[3..];
    JoinCons("Smith", ts[2..]);
    assert ts[1..] == ["Smith"] + ts[2..];
    JoinCons("John", ts[1..]);
    assert ts == ["John"] + ts[1..];
  }

  lemma JoinTwo(a: string, b: string)
    ensures Join(" ", [a, b]) == a + " " + b
  {
    assert [a, b][1..] == [b];
  }

  lemma JoinCons(a: string, rest: seq<string>)
    requires |rest| > 0
    ensures Join(" ", [a] + rest) == a + " " + Join(" ", rest)
  {
    assert ([a] + rest)[1..] == rest;
  }

  lemma FiveTokensPlain(ts: seq<string>)
    requires ts == ["John", "Smith", "and", "Jane", "Doe"]
    ensures PlainTokens(ts) && !IsSuffixToken(ts[|ts| - 1])
  {
  }

  lemma FiveTokensDivide(ts: seq<string>)
    requires ts == ["John", "Smith", "and", "Jane", "Doe"]
    ensures DividesAt(ts) && AndLoc(ts) == 2
    ensures Join(" ", ts[..2]) == "John Smith" && Join(" ", ts[3..]) == "Jane Doe"
  {
    assert "With" !in ts && "with" !in ts && ts[2] == "and";
    assert ts[..2] == ["John", "Smith"] && ts[3..] == ["Jane", "Doe"];
  }

  lemma FormatNameAmpersandExample(name: string)
    requires name == "John Smith & Jane Doe"
    ensures FormatName(name) == Ok("Smith, John and Doe, Jane")
  {
    AmpersandsOfExample();
    FormatNameAmpersand(name);
    FormatNameAndExample("John Smith and Jane Doe");
  }

  lemma AmpersandsOfExample()
    ensures Ampersands("John Smith & Jane Doe") == "John Smith and Jane Doe"
  {
    var a, b := "John Smith ", " Jane Doe";
    assert a + "&" + b == "John Smith & Jane Doe";
    ReplaceCharOnce(a, '&', "and", b);
    assert OccursAt(a + "&" + b, "&", |a|);
    ContainsIff(a + "&" + b, "&");
    assert a + "and" + b == "John Smith and Jane Doe";
  }
}
