/** `finish` and `check_title`: the checks a book's new name must pass before the file
    is renamed (and, for a move, sent to the output directory), with the loop that
    collapses runs of spaces in the target path. */
module Finalize {
  import opened Text
  import Books

  // ---------------------------------------------------------------------------
  // Collapsing double spaces

  /** The target path once `while '  ' in newname: newname = newname.replace('  ', ' ')`
      has run: no two spaces are left side by side. */
  function Collapse(s: string): (r: string)
    ensures !Contains(r, "  ")
    ensures |r| <= |s|
    decreases |s|
  {
    if Contains(s, "  ") then
      ReplaceShrinks(s, "  ", " ");
      Collapse(Replace(s, "  ", " "))
    else s
  }

  /** The collapse loop itself, on a local copy of the path. */
  method CollapseSpaces(s: string) returns (t: string)
    ensures t == Collapse(s)
  {
    t := s;
    while Contains(t, "  ")
      invariant Collapse(t) == Collapse(s)
      decreases |t|
    {
      ReplaceShrinks(t, "  ", " ");
      t := Replace(t, "  ", " ");
    }
  }

  /** The text with every space taken out. */
  function NonSpaces(s: string): (r: string)
    ensures |r| <= |s|
  {
    if s == [] then []
    else (if s[0] == ' ' then [] else [s[0]]) + NonSpaces(s[1..])
  }

  lemma NonSpacesCons(c: char, s: string)
    ensures NonSpaces([c] + s) == (if c == ' ' then [] else [c]) + NonSpaces(s)
  {
    assert ([c] + s)[1..] == s;
  }

  lemma NonSpacesAt(s: string, i: nat)
    requires i < |s|
    ensures NonSpaces(s[i..]) == (if s[i] == ' ' then [] else [s[i]]) + NonSpaces(s[i + 1..])
  {
    assert s[i..] == [s[i]] + s[i + 1..];
    NonSpacesCons(s[i], s[i + 1..]);
  }

  /** One `replace('  ', ' ')` over `s[i..]` keeps every other character, in order. */
  lemma {:induction false} ReplaceKeepsNonSpaces(s: string, i: nat)
    requires i <= |s|
    ensures NonSpaces(ReplaceFrom(s, "  ", " ", i)) == NonSpaces(s[i..])
    decreases |s| - i
  {
    if i + 2 <= |s| {
      if MatchesFrom(s, "  ", i, 0) {
        assert s[i] == ' ' && s[i + 1] == ' ';
        ReplaceKeepsNonSpaces(s, i + 2);
        NonSpacesCons(' ', ReplaceFrom(s, "  ", " ", i + 2));
        NonSpacesAt(s, i);
        NonSpacesAt(s, i + 1);
      } else {
        ReplaceKeepsNonSpaces(s, i + 1);
        NonSpacesCons(s[i], ReplaceFrom(s, "  ", " ", i + 1));
        NonSpacesAt(s, i);
      }
    }
  }

  /** Collapsing removes spaces only: every other character stays, in order. */
  lemma {:induction false} CollapseKeepsNonSpaces(s: string)
    ensures NonSpaces(Collapse(s)) == NonSpaces(s)
    decreases |s|
  {
    if Contains(s, "  ") {
      ReplaceShrinks(s, "  ", " ");
      CollapseKeepsNonSpaces(Replace(s, "  ", " "));
      ReplaceKeepsNonSpaces(s, 0);
      assert s[0..] == s;
    }
  }

  /** A path is left alone exactly when it has no double space; so collapsing twice is
      collapsing once. */
  lemma CollapseFixedIff(s: string)
    ensures Collapse(s) == s <==> !Contains(s, "  ")
    ensures Collapse(Collapse(s)) == Collapse(s)
  {
  }

  // ---------------------------------------------------------------------------
  // The gate

  /** What the yes/no popup returned: `None` when it was closed. */
  datatype Answer = Yes | No | Closed

  /** Why `finish` stops short of the rename. */
  datatype Halt = StillPdf | Still40k | TooLarge | NotReversed | BracketsUnmatched

  /** Where `finish` ends: stopped with a status message, at `os.rename` with the target
      path, or with an exception. */
  datatype Gate = Halted(reason: Halt) | Rename(newname: string) | Raised(error: PyError)

  /** The author segment has neither a comma nor `Various`, so the popup is shown. */
  predicate NeedsConfirm(seg0: string) {
    ',' !in seg0 && !Contains(seg0, "Various")
  }

  /** As many `[` as `]` and as many `(` as `)`. */
  predicate BracketsBalanced(name: string) {
    Count(name, '[') == Count(name, ']') && Count(name, '(') == Count(name, ')')
  }

  /** `check_title`: the popup answer counts only when it is shown, and only `No` stops;
      unbalanced brackets stop in any case. */
  function CheckTitle(seg0: string, name: string, answer: Answer): (r: Option<Halt>)
    ensures r.None? <==> !(NeedsConfirm(seg0) && answer == No) && BracketsBalanced(name)
  {
    if NeedsConfirm(seg0) && answer == No then Some(NotReversed)
    else if !BracketsBalanced(name) then Some(BracketsUnmatched)
    else None
  }

  /** The directory the book goes to. */
  function TargetDir(movebook: bool, outputDir: string, scanDir: string): string {
    if movebook then outputDir else scanDir
  }

  /** `finish(movebook)` up to the rename. The size in KB is `None` when it could not
      be read; comparing that with 5000 raises `TypeError`. An empty segment list makes
      `check_title`'s `seglist[0]` raise `IndexError`. */
  function FinishGate(st: Books.BookState, movebook: bool, outputDir: string, scanDir: string,
                      size: Option<int>, answer: Answer): (r: Gate)
    ensures r.Rename? ==> r.newname == Collapse(TargetDir(movebook, outputDir, scanDir) + st.filename)
    ensures r.Rename? ==> !Contains(r.newname, "  ")
  {
    var newname := Collapse(TargetDir(movebook, outputDir, scanDir) + st.filename);
    if movebook && Lower(st.ext) == ".pdf" then Halted(StillPdf)
    else if Contains(newname, "40k") || Contains(newname, "40K") then Halted(Still40k)
    else if movebook && size.None? then Raised(TypeError)
    else if movebook && size.value > 5000 then Halted(TooLarge)
    else if |st.seglist| == 0 then Raised(IndexError)
    else match CheckTitle(st.seglist[0], st.name, answer)
      case Some(reason) => Halted(reason)
      case None => Rename(newname)
  }

  /** `finish(movebook)` as it runs up to the rename: the target path is built and
      collapsed by the loop, then the checks are made in order. */
  method Finish(st: Books.BookState, movebook: bool, outputDir: string, scanDir: string,
                size: Option<int>, answer: Answer) returns (g: Gate)
    ensures g == FinishGate(st, movebook, outputDir, scanDir, size, answer)
  {
    var newname := CollapseSpaces(TargetDir(movebook, outputDir, scanDir) + st.filename);
    if movebook && Lower(st.ext) == ".pdf" {
      return Halted(StillPdf);
    }
    if Contains(newname, "40k") || Contains(newname, "40K") {
      return Halted(Still40k);
    }
    if movebook {
      if size.None? {
        return Raised(TypeError);
      }
      if size.value > 5000 {
        return Halted(TooLarge);
      }
    }
    if |st.seglist| == 0 {
      return Raised(IndexError);
    }
    var check := CheckTitle(st.seglist[0], st.name, answer);
    if check.Some? {
      return Halted(check.value);
    }
    g := Rename(newname);
  }

  /** The rename is reached exactly when every check passes: a moved book is no PDF and
      has a known size of at most 5000 KB, the target path has no `40k`/`40K`, the popup
      (if shown) was not answered `No`, and the brackets of the name balance. */
  lemma FinishGateRenameIff(st: Books.BookState, movebook: bool, outputDir: string, scanDir: string,
                            size: Option<int>, answer: Answer)
    ensures var newname := Collapse(TargetDir(movebook, outputDir, scanDir) + st.filename);
      FinishGate(st, movebook, outputDir, scanDir, size, answer).Rename?
      <==>
      && (movebook ==> Lower(st.ext) != ".pdf" && size.Some? && size.value <= 5000)
      && !Contains(newname, "40k") && !Contains(newname, "40K")
      && |st.seglist| > 0
      && !(NeedsConfirm(st.seglist[0]) && answer == No)
      && BracketsBalanced(st.name)
  {
  }

  /** Finishing without a move never looks at the size. */
  lemma FinishInPlaceIgnoresSize(st: Books.BookState, outputDir: string, scanDir: string,
                                 size1: Option<int>, size2: Option<int>, answer: Answer)
    ensures FinishGate(st, false, outputDir, scanDir, size1, answer)
         == FinishGate(st, false, outputDir, scanDir, size2, answer)
  {
  }

  /** With a comma or `Various` in the author segment the popup answer does not matter. */
  lemma FinishIgnoresAnswerWhenReversed(st: Books.BookState, movebook: bool, outputDir: string,
                                        scanDir: string, size: Option<int>, a1: Answer, a2: Answer)
    requires |st.seglist| > 0 && !NeedsConfirm(st.seglist[0])
    ensures FinishGate(st, movebook, outputDir, scanDir, size, a1)
         == FinishGate(st, movebook, outputDir, scanDir, size, a2)
  {
  }

  /** An unreadable size raises only for a move that got past the PDF and `40k` checks. */
  lemma FinishRaisesTypeError(st: Books.BookState, movebook: bool, outputDir: string, scanDir: string,
                              size: Option<int>, answer: Answer)
    ensures var newname := Collapse(TargetDir(movebook, outputDir, scanDir) + st.filename);
      FinishGate(st, movebook, outputDir, scanDir, size, answer) == Raised(TypeError)
      <==>
      movebook && Lower(st.ext) != ".pdf" && !Contains(newname, "40k") && !Contains(newname, "40K")
      && size.None?
  {
  }

  /** `finish`'s return value: true only when the rename was reached and succeeded (the
      rename's own success is an input). */
  function Finished(g: Gate, renamed: bool): (r: Result<bool>)
    ensures r == Ok(true) <==> g.Rename? && renamed
    ensures r.Err? <==> g.Raised?
  {
    match g
    case Raised(e) => Err(e)
    case Rename(_) => Ok(renamed)
    case Halted(_) => Ok(false)
  }
}
