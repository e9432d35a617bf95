/** The `Book` filename-editing engine: a file name cut into segments at " - ",
    edited segment by segment and reassembled after every change. */
module Books {
  import opened Text
  import opened Normalizer

  /** The separator between segments of a book name. */
  const SegSep: string := " - "

  /** What a `Book` holds, as a value. `filepath` is the file the book was read from,
      named relative to the scan directory; nothing changes it. */
  datatype BookState = BookState(seglist: seq<string>, name: string, ext: string, filename: string,
                                 filepath: string)

  /** The outcome of one operation: the new state and whether it raised. */
  datatype Step = Step(state: BookState, outcome: Outcome)

  /** `name` and `filename` agree with the segments, as `reassemble_segs` leaves them. */
  predicate Assembled(st: BookState) {
    st.name == Join(SegSep, st.seglist) && st.filename == st.name + st.ext
  }

  /** `reassemble_segs`: the name is the segments joined by " - ", the file name adds
      the extension. */
  function Reassembled(st: BookState): (r: BookState)
    ensures Assembled(r) && r.seglist == st.seglist && r.ext == st.ext && r.filepath == st.filepath
  {
    var name := Join(SegSep, st.seglist);
    st.(name := name, filename := name + st.ext)
  }

  /** Reassembling an assembled book changes nothing. */
  lemma ReassembledIdempotent(st: BookState)
    ensures Assembled(st) <==> Reassembled(st) == st
  {
  }

  // ---------------------------------------------------------------------------
  // Construction

  /** The segments of a stem: split at " - ", each piece stripped. */
  function Segments(stem: string): (r: seq<string>)
    ensures |r| == |Split(stem, SegSep)| >= 1
    ensures forall k :: 0 <= k < |r| ==> r[k] == Strip(Split(stem, SegSep)[k])
  {
    var pieces := Split(stem, SegSep);
    seq(|pieces|, k requires 0 <= k < |pieces| => Strip(pieces[k]))
  }

  /** Python `s.rfind('.')`. */
  function LastDot(s: string): (r: int)
    ensures -1 <= r < |s|
    ensures r >= 0 ==> s[r] == '.' && forall k :: r < k < |s| ==> s[k] != '.'
    ensures r < 0 ==> forall k :: 0 <= k < |s| ==> s[k] != '.'
  {
    if s == [] then -1
    else if s[|s| - 1] == '.' then |s| - 1
    else LastDot(s[..|s| - 1])
  }

  /** Only dots. */
  predicate AllDots(s: string) {
    forall k :: 0 <= k < |s| ==> s[k] == '.'
  }

  /** `os.path.splitext` on a file name with no directory part: the extension runs from
      the last dot, unless only dots come before that dot. */
  function SplitExt(path: string): (r: (string, string))
    ensures r.0 + r.1 == path
    ensures r.1 == "" || (r.1[0] == '.' && forall k :: 1 <= k < |r.1| ==> r.1[k] != '.')
    ensures r.1 != "" ==> !AllDots(r.0)
  {
    var d := LastDot(path);
    if d > 0 && !AllDots(path[..d]) then
      assert path[..d] + path[d..] == path;
      (path[..d], path[d..])
    else (path, "")
  }

  /** A stem with something besides dots, followed by a dot and an extension without
      dots, splits back into the two. */
  lemma SplitExtJoin(stem: string, ext: string)
    requires !AllDots(stem) && |ext| > 0 && ext[0] == '.'
    requires forall k :: 1 <= k < |ext| ==> ext[k] != '.'
    ensures SplitExt(stem + ext) == (stem, ext)
  {
    var path := stem + ext;
    assert path[|stem|] == '.';
    forall k | |stem| < k < |path| ensures path[k] != '.' {
      assert path[k] == ext[k - |stem|];
    }
    var d := LastDot(path);
    assert d == |stem|;
    assert path[..d] == stem;
  }

  /** The book read from `filepath` (`Book(filepath)`): the stem cut at " - " and each
      piece stripped; the name keeps the stem as found and the extension is lower-cased.
      An empty path gives a book with no segments and empty names. */
  function Initial(filepath: string): (r: BookState)
    ensures r.filepath == filepath
    ensures filepath == "" ==> r == BookState([], "", "", "", "")
    ensures filepath != "" ==> var (stem, extension) := SplitExt(filepath);
      && |r.seglist| >= 1 && r.name == stem && r.ext == Lower(extension)
      && r.filename == stem + Lower(extension) && r.filepath == filepath
  {
    if filepath == "" then BookState([], "", "", "", "")
    else
      var (stem, extension) := SplitExt(filepath);
      BookState(Segments(stem), stem, Lower(extension), stem + Lower(extension), filepath)
  }

  /** Joins of parts that are no longer are no longer, and strictly shorter when one
      part is. */
  lemma {:induction false} JoinLengthMono(sep: string, ps: seq<string>, qs: seq<string>)
    requires |ps| == |qs| && forall k :: 0 <= k < |ps| ==> |qs[k]| <= |ps[k]|
    ensures |Join(sep, qs)| <= |Join(sep, ps)|
    ensures (exists k :: 0 <= k < |ps| && |qs[k]| < |ps[k]|) ==> |Join(sep, qs)| < |Join(sep, ps)|
    decreases |ps|
  {
    if |ps| > 1 {
      JoinLengthMono(sep, ps[1..], qs[1..]);
      if exists k :: 0 <= k < |ps| && |qs[k]| < |ps[k]| {
        var k :| 0 <= k < |ps| && |qs[k]| < |ps[k]|;
        if k > 0 { assert |qs[1..][k - 1]| < |ps[1..][k - 1]|; }
      }
    }
  }

  /** A freshly read book is assembled exactly when no piece of its stem carried
      surrounding whitespace. */
  lemma InitialAssembledIff(filepath: string)
    ensures Assembled(Initial(filepath)) <==> PiecesStripped(SplitExt(filepath).0)
  {
    var stem := SplitExt(filepath).0;
    if filepath == "" {
      assert Split(stem, SegSep) == [""];
    } else if PiecesStripped(stem) {
      InitialAssembledWhenStripped(stem, Initial(filepath));
    } else {
      InitialNotAssembled(stem, Initial(filepath));
    }
  }

  predicate PiecesStripped(stem: string) {
    forall k :: 0 <= k < |Split(stem, SegSep)| ==> Strip(Split(stem, SegSep)[k]) == Split(stem, SegSep)[k]
  }

  lemma InitialAssembledWhenStripped(stem: string, st: BookState)
    requires PiecesStripped(stem)
    requires st.seglist == Segments(stem) && st.name == stem && st.filename == stem + st.ext
    ensures Assembled(st)
  {
    assert Segments(stem) == Split(stem, SegSep);
    SplitJoin(stem, SegSep);
  }

  lemma InitialNotAssembled(stem: string, st: BookState)
    requires !PiecesStripped(stem)
    requires st.seglist == Segments(stem) && st.name == stem
    ensures !Assembled(st)
  {
    var pieces := Split(stem, SegSep);
    var segs := Segments(stem);
    var k :| 0 <= k < |pieces| && Strip(pieces[k]) != pieces[k];
    forall j | 0 <= j < |pieces| ensures |segs[j]| <= |pieces[j]| { StripCharsShortens(pieces[j], Whitespace); }
    StripCharsShortens(pieces[k], Whitespace);
    JoinLengthMono(SegSep, pieces, segs);
    SplitJoin(stem, SegSep);
  }

  // ---------------------------------------------------------------------------
  // Editing one segment

  /** `edit_seg`: segment `segnum` (Python indexing) becomes `text`. */
  function EditSeg(st: BookState, segnum: int, text: string): (r: Step)
    ensures !ValidIndex(segnum, |st.seglist|) <==> r.outcome.Failure?
    ensures r.outcome.Failure? ==> r == Step(st, Failure(IndexError))
    ensures r.outcome == Success ==>
      && Assembled(r.state) && r.state.ext == st.ext
      && r.state.seglist == st.seglist[PyIndex(segnum, |st.seglist|) := text]
  {
    if !ValidIndex(segnum, |st.seglist|) then Step(st, Failure(IndexError))
    else Step(Reassembled(st.(seglist := st.seglist[PyIndex(segnum, |st.seglist|) := text])), Success)
  }

  /** A non-negative index in range edits that very segment. */
  lemma EditSegAt(st: BookState, segnum: int, text: string)
    requires 0 <= segnum < |st.seglist|
    ensures EditSeg(st, segnum, text) == Step(Reassembled(st.(seglist := st.seglist[segnum := text])), Success)
  {
  }

  // ---------------------------------------------------------------------------
  // Splitting a segment

  /** `split_seg` with the delimiter typed into its prompt: a segment number at or past
      the end, or an empty delimiter, changes nothing; otherwise the text before the
      delimiter (stripped) is inserted at `segnum` and the following position becomes
      the delimiter and the rest. */
  function SplitSeg(st: BookState, segnum: int, delim: string): (r: Step)
    ensures r.outcome.Failure? <==> segnum < -|st.seglist| && delim != ""
    ensures r.outcome.Failure? ==> r == Step(st, Failure(IndexError))
    ensures segnum >= |st.seglist| || delim == "" ==> r == Step(st, Success)
    ensures -|st.seglist| <= segnum < |st.seglist| && delim != "" ==>
      && r.outcome == Success && Assembled(r.state) && r.state.ext == st.ext
      && |r.state.seglist| == |st.seglist| + 1
  {
    var n := |st.seglist|;
    if segnum >= n || delim == "" then Step(st, Success)
    else if segnum < -n then Step(st, Failure(IndexError))
    else
      var parts := Partition(st.seglist[PyIndex(segnum, n)], delim);
      var inserted := InsertAt(st.seglist, InsertPos(segnum, n), Strip(parts.0));
      var segs := inserted[PyIndex(segnum + 1, n + 1) := parts.1 + parts.2];
      Step(Reassembled(st.(seglist := segs)), Success)
  }

  /** Splitting segment `segnum` (counted from 0) at a non-empty delimiter adds exactly
      one segment: the stripped text before the delimiter, then the delimiter and the
      text after it; the pieces around the delimiter make up the old segment. */
  lemma SplitSegGrows(st: BookState, segnum: int, delim: string)
    requires 0 <= segnum < |st.seglist| && delim != ""
    ensures var r := SplitSeg(st, segnum, delim);
      var parts := Partition(st.seglist[segnum], delim);
      && r.outcome == Success && Assembled(r.state)
      && |r.state.seglist| == |st.seglist| + 1
      && r.state.seglist[segnum] == Strip(parts.0)
      && r.state.seglist[segnum + 1] == parts.1 + parts.2
      && parts.0 + parts.1 + parts.2 == st.seglist[segnum]
      && r.state.seglist[..segnum] == st.seglist[..segnum]
      && r.state.seglist[segnum + 2..] == st.seglist[segnum + 1..]
  {
    var n := |st.seglist|;
    var parts := Partition(st.seglist[segnum], delim);
    var inserted := InsertAt(st.seglist, segnum, Strip(parts.0));
    var segs := inserted[segnum + 1 := parts.1 + parts.2];
    assert SplitSeg(st, segnum, delim) == Step(Reassembled(st.(seglist := segs)), Success);
    assert segs[..segnum] == st.seglist[..segnum];
    assert segs[segnum + 2..] == st.seglist[segnum + 1..];
  }

  /** With a delimiter the segment lacks, it becomes its stripped copy followed by an
      empty segment. */
  lemma SplitSegAbsent(st: BookState, segnum: int, delim: string)
    requires 0 <= segnum < |st.seglist| && delim != ""
    requires !Contains(st.seglist[segnum], delim)
    ensures SplitSeg(st, segnum, delim).state.seglist[segnum] == Strip(st.seglist[segnum])
    ensures SplitSeg(st, segnum, delim).state.seglist[segnum + 1] == ""
  {
  }

  /** `spl0` asks for segment -1: the stripped text before the delimiter goes in front
      of the last segment, and the first segment is overwritten by the delimiter and the
      rest of the last one. */
  lemma SplitSegMinusOne(st: BookState, delim: string)
    requires |st.seglist| >= 2 && delim != ""
    ensures var n := |st.seglist|;
      var r := SplitSeg(st, -1, delim);
      var parts := Partition(st.seglist[n - 1], delim);
      && r.outcome == Success && |r.state.seglist| == n + 1
      && r.state.seglist[0] == parts.1 + parts.2
      && r.state.seglist[n - 1] == Strip(parts.0)
      && r.state.seglist[n] == st.seglist[n - 1]
      && r.state.seglist[1..n - 1] == st.seglist[1..n - 1]
  {
    var n := |st.seglist|;
    var parts := Partition(st.seglist[n - 1], delim);
    var inserted := InsertAt(st.seglist, n - 1, Strip(parts.0));
    var segs := inserted[0 := parts.1 + parts.2];
    assert SplitSeg(st, -1, delim) == Step(Reassembled(st.(seglist := segs)), Success);
    assert segs[1..n - 1] == st.seglist[1..n - 1];
  }

  // ---------------------------------------------------------------------------
  // Swapping, deleting, adding

  /** `swap_segs(x, y)` with 1-based positions: both within the length, the two
      positions are exchanged (0 reaching back to the last segment); otherwise nothing
      changes. */
  function SwapSegs(st: BookState, x: int, y: int): (r: Step)
    ensures r.state.ext == st.ext && |r.state.seglist| == |st.seglist|
    ensures x > |st.seglist| || y > |st.seglist| ==> r == Step(st, Success)
    ensures r.outcome.Failure? <==>
      x <= |st.seglist| && y <= |st.seglist| && (!ValidIndex(x - 1, |st.seglist|) || !ValidIndex(y - 1, |st.seglist|))
    ensures r.outcome.Failure? ==> r == Step(st, Failure(IndexError))
    ensures r.outcome == Success && x <= |st.seglist| && y <= |st.seglist| ==> Assembled(r.state)
    ensures multiset(r.state.seglist) == multiset(st.seglist)
  {
    var n := |st.seglist|;
    if x <= n && y <= n then
      if !ValidIndex(x - 1, n) || !ValidIndex(y - 1, n) then Step(st, Failure(IndexError))
      else
        var i, j := PyIndex(x - 1, n), PyIndex(y - 1, n);
        Step(Reassembled(st.(seglist := st.seglist[i := st.seglist[j]][j := st.seglist[i]])), Success)
    else Step(st, Success)
  }

  /** Swapping positions `x` and `y` (1-based, within the length) exchanges exactly
      those two segments and leaves every other position alone. */
  lemma SwapSegsExchanges(st: BookState, x: int, y: int)
    requires 1 <= x <= |st.seglist| && 1 <= y <= |st.seglist|
    ensures var r := SwapSegs(st, x, y);
      && r.outcome == Success && Assembled(r.state)
      && r.state.seglist[x - 1] == st.seglist[y - 1]
      && r.state.seglist[y - 1] == st.seglist[x - 1]
      && forall k :: 0 <= k < |st.seglist| && k != x - 1 && k != y - 1 ==> r.state.seglist[k] == st.seglist[k]
  {
  }

  /** Swapping is its own inverse on the segment list. */
  lemma SwapSegsTwice(st: BookState, x: int, y: int)
    requires 1 <= x <= |st.seglist| && 1 <= y <= |st.seglist|
    ensures SwapSegs(SwapSegs(st, x, y).state, x, y).state.seglist == st.seglist
  {
  }

  /** `del_seg(segnum)` with a 1-based position: the last remaining segment is never
      deleted, a position past the end changes nothing, and otherwise exactly that
      segment (0 meaning the last) is removed. */
  function DelSeg(st: BookState, segnum: int): (r: Step)
    ensures |st.seglist| >= 1 ==> |r.state.seglist| >= 1
    ensures |st.seglist| == 1 || segnum > |st.seglist| ==> r == Step(st, Success)
  {
    var n := |st.seglist|;
    if n == 1 then Step(st, Success)
    else if segnum <= n then
      if !ValidIndex(segnum - 1, n) then Step(st, Failure(IndexError))
      else Step(Reassembled(st.(seglist := RemoveAt(st.seglist, PyIndex(segnum - 1, n)))), Success)
    else Step(st, Success)
  }

  /** With more than one segment and `1 <= segnum <= len`, exactly segment `segnum - 1`
      is removed and the rest keep their order. */
  lemma DelSegRemoves(st: BookState, segnum: int)
    requires |st.seglist| > 1 && 1 <= segnum <= |st.seglist|
    ensures var r := DelSeg(st, segnum);
      && r.outcome == Success && Assembled(r.state)
      && r.state.seglist == st.seglist[..segnum - 1] + st.seglist[segnum..]
  {
  }

  /** The characters `add_seg` keeps from text typed into its prompt. */
  const AddSegLetters: string :=
    "abcdefghijklmnopqrstuvwxyzABCDEFGHIJKLMNOPQRSTUVWXYZ0123456789![] ,'.;"

  /** The text `add_seg` adds: text handed in by a caller is used as it is; otherwise
      the typed text is kept to the allowed characters. */
  function NewSegment(text: string, typed: string): (r: string)
    ensures text != "" ==> r == text
    ensures text == "" ==> |r| <= |typed| && forall k :: 0 <= k < |r| ==> r[k] in AddSegLetters
  {
    if text != "" then text else KeepChars(typed, AddSegLetters)
  }

  /** Typed text passes unchanged exactly when it uses only the allowed characters. */
  lemma NewSegmentTyped(typed: string)
    ensures NewSegment("", typed) == typed <==> forall k :: 0 <= k < |typed| ==> typed[k] in AddSegLetters
  {
    KeepCharsIdentity(typed, AddSegLetters);
  }

  /** A typed character reaches the new segment exactly when it is an allowed one. */
  lemma NewSegmentChars(typed: string, c: char)
    ensures c in NewSegment("", typed) <==> c in typed && c in AddSegLetters
  {
    KeepCharsMember(typed, AddSegLetters, c);
  }

  /** `add_seg(text, pos)` once the text is known: empty text changes nothing; with no
      position the stripped text is appended, with a position the text is inserted there
      as it is; then every segment goes through `capitalize`. */
  function AddSeg(st: BookState, text: string, pos: int): (r: Step)
    ensures text == "" ==> r == Step(st, Success)
    ensures text != "" ==> |r.state.seglist| == |st.seglist| + 1
  {
    if text == "" then Step(st, Success)
    else
      var n := |st.seglist|;
      var segs := if pos == 0 then st.seglist + [Strip(text)] else InsertAt(st.seglist, InsertPos(pos, n), text);
      CapitalizeStep(st.(seglist := segs))
  }

  /** When `capitalize` goes through, the new segment is the capitalized text (stripped
      when appended) at the end with no position and at `pos` otherwise, and every old
      segment is capitalized in its old order around it. */
  lemma AddSegPlaces(st: BookState, text: string, pos: int)
    requires text != "" && 0 <= pos <= |st.seglist|
    requires AddSeg(st, text, pos).outcome == Success
    ensures var r := AddSeg(st, text, pos).state;
      var k := if pos == 0 then |st.seglist| else pos;
      && Assembled(r) && |r.seglist| == |st.seglist| + 1
      && CapSeg(if pos == 0 then Strip(text) else text) == Ok(r.seglist[k])
      && (forall j :: 0 <= j < k ==> CapSeg(st.seglist[j]) == Ok(r.seglist[j]))
      && (forall j :: k < j < |r.seglist| ==> CapSeg(st.seglist[j - 1]) == Ok(r.seglist[j]))
  {
    var n := |st.seglist|;
    var segs := if pos == 0 then st.seglist + [Strip(text)] else InsertAt(st.seglist, InsertPos(pos, n), text);
    CapitalizeSpec(segs);
  }

  // ---------------------------------------------------------------------------
  // Moving "by ..." to the front

  /** The characters `by_replace` strips from both halves. */
  const ByPunct: set<char> := {' ', ',', '-', '.'}

  /** A segment with ` By ` spelled ` by `. */
  function ByFixed(seg: string): string {
    Replace(seg, " By ", " by ")
  }

  /** The segment is split by `by_replace`. */
  predicate HasBy(seg: string) {
    Contains(ByFixed(seg), " by ")
  }

  /** What stays in place: the text before the first ` by `, stripped. */
  function BeforeBy(seg: string): string {
    StripChars(Partition(ByFixed(seg), " by ").0, ByPunct)
  }

  /** What moves to the front: the text after the first ` by `, stripped. */
  function AfterBy(seg: string): string {
    StripChars(Partition(ByFixed(seg), " by ").2, ByPunct)
  }

  /** What `by_replace` does with one segment: keeps it, or cuts it at ` by `. */
  datatype Cut = Kept(seg: string) | Moved(before: string, after: string)

  function CutOf(seg: string): (r: Cut)
    ensures r.Kept? <==> !HasBy(seg)
    ensures r.Kept? ==> r.seg == seg
  {
    if HasBy(seg) then Moved(BeforeBy(seg), AfterBy(seg)) else Kept(seg)
  }

  /** The cut of every segment. */
  function Cuts(segs: seq<string>): (r: seq<Cut>)
    ensures |r| == |segs|
  {
    if segs == [] then [] else Cuts(segs[..|segs| - 1]) + [CutOf(segs[|segs| - 1])]
  }

  lemma {:induction false} CutsAt(segs: seq<string>, k: nat)
    requires k < |segs|
    ensures Cuts(segs)[k] == CutOf(segs[k])
  {
    if k < |segs| - 1 {
      CutsAt(segs[..|segs| - 1], k);
    }
  }

  /** The text a cut leaves in place. */
  function InPlace(c: Cut): string {
    match c
    case Kept(seg) => seg
    case Moved(before, _) => before
  }

  function InPlaceAll(cs: seq<Cut>): (r: seq<string>)
    ensures |r| == |cs|
    ensures forall k :: 0 <= k < |cs| ==> r[k] == InPlace(cs[k])
  {
    seq(|cs|, k requires 0 <= k < |cs| => InPlace(cs[k]))
  }

  /** The moved texts, latest first, since each goes in at position 0. */
  function MovedReversed(cs: seq<Cut>): (r: seq<string>)
    ensures |r| <= |cs|
  {
    if cs == [] then []
    else
      var last := cs[|cs| - 1];
      (if last.Moved? then [last.after] else []) + MovedReversed(cs[..|cs| - 1])
  }

  /** `by_replace`: every segment holding ` by ` (or ` By `) keeps the text before it in
      place and sends the text after it to the front, the later ones ahead of the
      earlier ones. */
  function ByReplace(st: BookState): (r: BookState)
    ensures Assembled(r) && r.ext == st.ext && r.seglist == ByReplaced(st.seglist)
  {
    Reassembled(st.(seglist := ByReplaced(st.seglist)))
  }

  /** The segments after `by_replace`. */
  function ByReplaced(segs: seq<string>): (r: seq<string>)
    ensures |r| == |MovedReversed(Cuts(segs))| + |segs|
  {
    var cs := Cuts(segs);
    MovedReversed(cs) + InPlaceAll(cs)
  }

  /** The text before the first ` by ` of a segment holds neither ` by ` nor ` By `, so
      the loop's second look at it changes nothing. */
  lemma BeforeByHasNoBy(seg: string)
    requires HasBy(seg)
    ensures !HasBy(BeforeBy(seg))
    ensures ByFixed(BeforeBy(seg)) == BeforeBy(seg)
  {
    var s' := ByFixed(seg);
    var f := Find(s', " by ");
    var before := Partition(s', " by ").0;
    assert before == s'[..f];
    BeforeFirstAbsent(s', " by ");
    NoCapitalByBeforeFirst(seg);
    StripKeepsAbsent(before, ByPunct, " by ");
    StripKeepsAbsent(before, ByPunct, " By ");
    ReplaceAbsent(BeforeBy(seg), " By ", " by ");
  }

  lemma NoCapitalByBeforeFirst(seg: string)
    requires HasBy(seg)
    ensures !Contains(ByFixed(seg)[..Find(ByFixed(seg), " by ")], " By ")
  {
    var s' := ByFixed(seg);
    var f := Find(s', " by ");
    if !Contains(seg, " By ") {
      ReplaceAbsent(seg, " By ", " by ");
      AbsentInSlice(seg, " By ", 0, f);
    } else {
      var g := Find(seg, " By ");
      ReplaceAtFirst(seg, " By ", " by ");
      FindFirst(s', " by ");
      assert s'[g..g + 4] == " by ";
      assert OccursAt(s', " by ", g);
      assert f <= g;
      assert s'[..f] == seg[..g][0..f];
      BeforeFirstAbsent(seg, " By ");
      AbsentInSlice(seg[..g], " By ", 0, f);
    }
  }

  /** A book with no ` by ` or ` By ` in any segment is only reassembled. */
  lemma ByReplaceWithoutBy(segs: seq<string>)
    requires forall k :: 0 <= k < |segs| ==> !HasBy(segs[k])
    ensures ByReplaced(segs) == segs
  {
    var cs := Cuts(segs);
    forall k | 0 <= k < |cs| ensures cs[k] == Kept(segs[k]) {
      CutsAt(segs, k);
    }
    NothingMoved(cs);
    assert InPlaceAll(cs) == segs;
  }

  lemma {:induction false} NothingMoved(cs: seq<Cut>)
    requires forall k :: 0 <= k < |cs| ==> cs[k].Kept?
    ensures MovedReversed(cs) == []
  {
    if cs != [] {
      NothingMoved(cs[..|cs| - 1]);
    }
  }

  /** After `by_replace`, a segment that held ` by ` sits behind the moved texts, in
      its old order, reduced to the text before ` by `, which then holds no ` by `. */
  lemma ByReplaceCutAt(segs: seq<string>, k: nat)
    requires k < |segs| && HasBy(segs[k])
    ensures var r := ByReplaced(segs); var a := |MovedReversed(Cuts(segs))|;
      r[a + k] == BeforeBy(segs[k]) && !HasBy(r[a + k])
  {
    var cs := Cuts(segs);
    CutsAt(segs, k);
    InPlaceAt(segs[k], MovedReversed(cs), InPlaceAll(cs), k);
  }

  /** Any other segment sits behind the moved texts, in its old order, unchanged. */
  lemma ByReplaceKeptAt(segs: seq<string>, k: nat)
    requires k < |segs| && !HasBy(segs[k])
    ensures ByReplaced(segs)[|MovedReversed(Cuts(segs))| + k] == segs[k]
  {
    var cs := Cuts(segs);
    CutsAt(segs, k);
    InPlaceAt(segs[k], MovedReversed(cs), InPlaceAll(cs), k);
  }

  /** The moved texts open the list, the last one moved first. */
  lemma ByReplaceMovedFirst(segs: seq<string>)
    ensures ByReplaced(segs)[..|MovedReversed(Cuts(segs))|] == MovedReversed(Cuts(segs))
  {
  }

  /** One position of the list `by_replace` leaves after the moved texts. */
  lemma InPlaceAt(seg: string, moved: seq<string>, kept: seq<string>, k: nat)
    requires k < |kept| && kept[k] == InPlace(CutOf(seg))
    ensures HasBy(seg) ==> (moved + kept)[|moved| + k] == BeforeBy(seg) && !HasBy((moved + kept)[|moved| + k])
    ensures !HasBy(seg) ==> (moved + kept)[|moved| + k] == seg
  {
    if HasBy(seg) {
      BeforeByHasNoBy(seg);
    }
  }

  /** Every text moved to the front is the stripped text after ` by ` in some segment. */
  lemma {:induction false} MovedTexts(cs: seq<Cut>, t: string)
    requires t in MovedReversed(cs)
    ensures exists k :: 0 <= k < |cs| && cs[k].Moved? && cs[k].after == t
  {
    var last := cs[|cs| - 1];
    if !(last.Moved? && last.after == t) {
      MovedTexts(cs[..|cs| - 1], t);
      var k :| 0 <= k < |cs| - 1 && cs[..|cs| - 1][k].Moved? && cs[..|cs| - 1][k].after == t;
      assert cs[k] == cs[..|cs| - 1][k];
    }
  }

  // The list inside `by_replace`'s loop, and one step of it.

  /** The list once the first `k` original segments are done: the moved texts, the
      segments left in place, then the untouched rest. */
  function ByPass(cs: seq<Cut>, orig: seq<string>, k: nat): (r: seq<string>)
    requires |cs| == |orig| && k <= |orig|
    ensures |r| == |MovedReversed(cs[..k])| + |orig|
  {
    MovedReversed(cs[..k]) + InPlaceAll(cs[..k]) + orig[k..]
  }

  /** The text a cut leaves in place is kept whole by a second look. */
  lemma CutBeforeKept(seg: string, before: string, c: Cut)
    requires CutOf(seg).Moved? && before == CutOf(seg).before && c == CutOf(before)
    ensures c.Kept?
  {
    BeforeByHasNoBy(seg);
  }

  /** Right after a cut, the loop meets the text just left in place and keeps it. */
  lemma ByLoopPending(orig: seq<string>, k: nat, segs: seq<string>, x: nat, c: Cut)
    requires 0 < k <= |orig| && Cuts(orig)[k - 1].Moved?
    requires segs == ByPass(Cuts(orig), orig, k) && x + 1 == |MovedReversed(Cuts(orig)[..k])| + k
    requires c == CutOf(segs[x])
    ensures c.Kept?
  {
    var cs := Cuts(orig);
    ByPassPending(cs, orig, k, segs, x);
    CutsAt(orig, k - 1);
    CutBeforeKept(orig[k - 1], segs[x], c);
  }

  /** The loop meets original segment `k` holding ` by `: cutting it in place and
      putting the moved text in front moves the pass on by one segment. */
  lemma ByLoopCut(orig: seq<string>, k: nat, segs: seq<string>, x: nat, c: Cut)
    requires k < |orig| && segs == ByPass(Cuts(orig), orig, k)
    requires x == |MovedReversed(Cuts(orig)[..k])| + k && c == CutOf(segs[x]) && c.Moved?
    ensures [c.after] + segs[x := c.before] == ByPass(Cuts(orig), orig, k + 1)
    ensures Cuts(orig)[k].Moved?
    ensures |MovedReversed(Cuts(orig)[..k + 1])| == |MovedReversed(Cuts(orig)[..k])| + 1
  {
    var cs := Cuts(orig);
    ByPassAt(cs, orig, k);
    CutsAt(orig, k);
    ByPassCutStep(cs, orig, k, segs, x, c);
  }

  lemma ByPassCutStep(cs: seq<Cut>, orig: seq<string>, k: nat, segs: seq<string>, x: nat, c: Cut)
    requires |cs| == |orig| && k < |orig| && segs == ByPass(cs, orig, k)
    requires x == |MovedReversed(cs[..k])| + k && c == cs[k] && c.Moved?
    ensures [c.after] + segs[x := c.before] == ByPass(cs, orig, k + 1)
    ensures |MovedReversed(cs[..k + 1])| == |MovedReversed(cs[..k])| + 1
  {
    ByPassSplit(cs, orig, k);
    MovedStep(cs, k);
  }

  /** The loop meets original segment `k` without ` by ` and passes it over. */
  lemma ByLoopKeep(orig: seq<string>, k: nat, segs: seq<string>, x: nat, c: Cut)
    requires k < |orig| && segs == ByPass(Cuts(orig), orig, k)
    requires x == |MovedReversed(Cuts(orig)[..k])| + k && c == CutOf(segs[x]) && c.Kept?
    ensures segs == ByPass(Cuts(orig), orig, k + 1)
    ensures |MovedReversed(Cuts(orig)[..k + 1])| == |MovedReversed(Cuts(orig)[..k])|
  {
    var cs := Cuts(orig);
    ByPassAt(cs, orig, k);
    CutsAt(orig, k);
    ByPassSkip(cs, orig, k);
    MovedStep(cs, k);
  }

  /** When every segment has been seen, the loop's list is the result of `by_replace`. */
  lemma ByPassDone(orig: seq<string>)
    ensures ByPass(Cuts(orig), orig, |orig|) == ByReplaced(orig)
  {
    ByPassAll(Cuts(orig), orig);
  }

  lemma ByPassAll(cs: seq<Cut>, orig: seq<string>)
    requires |cs| == |orig|
    ensures ByPass(cs, orig, |orig|) == MovedReversed(cs) + InPlaceAll(cs)
  {
    var n := |orig|;
    assert cs[..n] == cs;
    calc {
      ByPass(cs, orig, n);
      MovedReversed(cs[..n]) + InPlaceAll(cs[..n]) + orig[n..];
      MovedReversed(cs) + InPlaceAll(cs) + orig[n..];
      { assert orig[n..] == []; }
      MovedReversed(cs) + InPlaceAll(cs) + [];
    }
    assert MovedReversed(cs) + InPlaceAll(cs) + [] == MovedReversed(cs) + InPlaceAll(cs);
  }

  /** The loop meets original segment `k` right after the moved texts and the `k`
      segments before it. */
  lemma ByPassAt(cs: seq<Cut>, orig: seq<string>, k: nat)
    requires |cs| == |orig| && k < |orig|
    ensures ByPass(cs, orig, k)[|MovedReversed(cs[..k])| + k] == orig[k]
  {
  }

  lemma MovedStep(cs: seq<Cut>, k: nat)
    requires k < |cs|
    ensures MovedReversed(cs[..k + 1]) == (if cs[k].Moved? then [cs[k].after] else []) + MovedReversed(cs[..k])
  {
    assert cs[..k + 1][..k] == cs[..k];
  }

  lemma InPlaceStep(cs: seq<Cut>, k: nat)
    requires k < |cs|
    ensures InPlaceAll(cs[..k + 1]) == InPlaceAll(cs[..k]) + [InPlace(cs[k])]
  {
  }

  /** Right after a cut, the loop meets the text just left in place. */
  lemma ByPassPending(cs: seq<Cut>, orig: seq<string>, k: nat, segs: seq<string>, x: nat)
    requires |cs| == |orig| && 0 < k <= |orig| && cs[k - 1].Moved?
    requires segs == ByPass(cs, orig, k) && x + 1 == |MovedReversed(cs[..k])| + k
    ensures segs[x] == cs[k - 1].before
  {
    var a, p := MovedReversed(cs[..k]), InPlaceAll(cs[..k]);
    assert segs[x] == p[k - 1];
    assert cs[..k][k - 1] == cs[k - 1];
  }

  /** A kept segment is passed over. */
  lemma ByPassSkip(cs: seq<Cut>, orig: seq<string>, k: nat)
    requires |cs| == |orig| && k < |orig| && cs[k] == Kept(orig[k])
    ensures ByPass(cs, orig, k + 1) == ByPass(cs, orig, k)
  {
    MovedStep(cs, k);
    InPlaceStep(cs, k);
    assert orig[k..] == [orig[k]] + orig[k + 1..];
  }

  /** A cut segment keeps the text before ` by ` and sends the text after it to the
      front. */
  lemma ByPassSplit(cs: seq<Cut>, orig: seq<string>, k: nat)
    requires |cs| == |orig| && k < |orig| && cs[k].Moved?
    ensures ByPass(cs, orig, k + 1)
      == [cs[k].after] + ByPass(cs, orig, k)[|MovedReversed(cs[..k])| + k := cs[k].before]
  {
    MovedStep(cs, k);
    InPlaceStep(cs, k);
    var a, p := MovedReversed(cs[..k]), InPlaceAll(cs[..k]);
    assert orig[k..][1..] == orig[k + 1..];
    CutInPlace(a, p, orig[k..], cs[k].before, cs[k].after);
  }

  /** The shape of one cut: the element after the prefix `a + p` is overwritten and a
      new element goes in front. */
  lemma CutInPlace<T>(a: seq<T>, p: seq<T>, o: seq<T>, z: T, w: T)
    requires |o| > 0
    ensures ([w] + a) + (p + [z]) + o[1..] == [w] + (a + p + o)[|a| + |p| := z]
  {
    assert a + p + o == (a + p) + [o[0]] + o[1..];
    UpdateAfter(a + p, o[0], z, o[1..]);
  }

  /** Overwriting the element just after a prefix. */
  lemma UpdateAfter<T>(xs: seq<T>, y: T, z: T, ys: seq<T>)
    ensures (xs + [y] + ys)[|xs| := z] == xs + [z] + ys
  {
  }

  // ---------------------------------------------------------------------------
  // Capitalizing

  /** `capitalize` on a book: every segment capitalized and the book reassembled; a
      segment whose rule raises stops the pass, the segments before it already
      rewritten, and the name is left as it was. */
  function CapitalizeStep(st: BookState): (r: Step)
    ensures |r.state.seglist| == |st.seglist| && r.state.ext == st.ext
    ensures r.outcome == Success ==> Assembled(r.state)
    ensures r.outcome.Failure? ==> r.state.name == st.name && r.state.filename == st.filename
  {
    var c := Capitalize(st.seglist);
    if c.outcome == Success then Step(Reassembled(st.(seglist := c.segs)), Success)
    else Step(st.(seglist := c.segs), c.outcome)
  }

  // ---------------------------------------------------------------------------
  // Reversing an author name

  /** `reverse_seg(segnum)`: a segment number at or past the end changes nothing;
      otherwise the segment is replaced by `format_name` of it. */
  function ReverseSeg(st: BookState, segnum: int): (r: Step)
    ensures segnum >= |st.seglist| ==> r == Step(st, Success)
    ensures r.outcome.Failure? ==> r.state == st
    ensures |r.state.seglist| == |st.seglist|
    ensures r.outcome == Success && ValidIndex(segnum, |st.seglist|) ==>
      var k := PyIndex(segnum, |st.seglist|);
      && Assembled(r.state)
      && FormatName(st.seglist[k]) == Ok(r.state.seglist[k])
      && r.state.seglist == st.seglist[k := r.state.seglist[k]]
  {
    var n := |st.seglist|;
    if segnum >= n then Step(st, Success)
    else if segnum < -n then Step(st, Failure(IndexError))
    else
      var k := PyIndex(segnum, n);
      match FormatName(st.seglist[k])
      case Err(e) => Step(st, Failure(e))
      case Ok(v) => Step(Reassembled(st.(seglist := st.seglist[k := v])), Success)
  }

  // ---------------------------------------------------------------------------
  // Closing a bracket

  /** The first segment holding `c`, if any. */
  function FirstHolding(segs: seq<string>, c: char): (r: Option<nat>)
    ensures r.None? <==> forall k :: 0 <= k < |segs| ==> c !in segs[k]
    ensures r.Some? ==>
      && r.value < |segs| && c in segs[r.value]
      && forall k :: 0 <= k < r.value ==> c !in segs[k]
  {
    if segs == [] then None
    else if c in segs[0] then Some(0)
    else match FirstHolding(segs[1..], c)
      case None => None
      case Some(k) => assert segs[k + 1] == segs[1..][k]; Some(k + 1)
  }

  /** `bracket_match`: when the name holds more than one `]`, every `]` is deleted from
      the first segment holding one and the book is reassembled; otherwise nothing
      changes. */
  function BracketMatch(st: BookState): (r: BookState)
    ensures |r.seglist| == |st.seglist| && r.ext == st.ext
  {
    if Count(st.name, ']') > 1 then
      match FirstHolding(st.seglist, ']')
      case None => Reassembled(st)
      case Some(k) => Reassembled(st.(seglist := st.seglist[k := Replace(st.seglist[k], "]", "")]))
    else st
  }

  /** With at most one `]` in the name nothing changes; otherwise the first segment that
      holds a `]` loses all of them, every other segment is unchanged, and the book is
      reassembled. */
  lemma BracketMatchSpec(st: BookState)
    ensures Count(st.name, ']') <= 1 ==> BracketMatch(st) == st
    ensures Count(st.name, ']') > 1 ==> Assembled(BracketMatch(st))
    ensures Count(st.name, ']') > 1 ==> forall k :: 0 <= k < |st.seglist| ==>
      (if FirstHolding(st.seglist, ']') == Some(k)
       then BracketMatch(st).seglist[k] == RemoveChars(st.seglist[k], {']'}) && ']' !in BracketMatch(st).seglist[k]
       else BracketMatch(st).seglist[k] == st.seglist[k])
  {
    if Count(st.name, ']') > 1 {
      match FirstHolding(st.seglist, ']')
      case None =>
      case Some(k) =>
        assert "]" == [']'];
        ReplaceCharByNothing(st.seglist[k], ']');
    }
  }

  // ---------------------------------------------------------------------------
  // Showing the book

  /** The number of segment text boxes in the window. */
  const NumBoxes: nat := 5

  /** The number of segments holding `c`. */
  function Holders(segs: seq<string>, c: char): (r: nat)
    ensures r <= |segs|
  {
    if segs == [] then 0 else (if c in segs[0] then 1 else 0) + Holders(segs[1..], c)
  }

  /** A segment that held `c` and no longer does leaves one holder fewer. */
  lemma {:induction false} HoldersDrop(segs: seq<string>, c: char, k: nat, v: string)
    requires k < |segs| && c in segs[k] && c !in v
    ensures Holders(segs[k := v], c) == Holders(segs, c) - 1
    decreases |segs|
  {
    if k == 0 {
      assert segs[k := v][1..] == segs[1..];
    } else {
      HoldersDrop(segs[1..], c, k - 1, v);
      assert segs[k := v][1..] == segs[1..][k - 1 := v];
    }
  }

  /** Some text box shows a segment holding `]`. */
  predicate ShowsCloser(segs: seq<string>) {
    exists k :: 0 <= k < |segs| && k < NumBoxes && ']' in segs[k]
  }

  /** When a box shows a `]` and the name holds more than one, `bracket_match` strips a
      segment: there is one holder fewer. */
  lemma BracketMatchDrops(st: BookState)
    requires ShowsCloser(st.seglist) && Count(st.name, ']') > 1
    ensures Holders(BracketMatch(st).seglist, ']') < Holders(st.seglist, ']')
  {
    var k := FirstHolding(st.seglist, ']').value;
    assert "]" == [']'];
    ReplaceCharByNothing(st.seglist[k], ']');
    HoldersDrop(st.seglist, ']', k, Replace(st.seglist[k], "]", ""));
  }

  /** A string without `]` is its own `]`-free form. */
  lemma RemoveCloserAbsent(s: string)
    requires ']' !in s
    ensures RemoveChars(s, {']'}) == s
  {
    RemoveCharsOfPrefix(s, {']'}, |s|);
  }

  /** `display_currbook` as it touches the book: filling a text box with a segment that
      holds `]` calls `bracket_match`, which shows the book again; so brackets are
      matched until no box shows a `]` or the name holds at most one. Each segment is
      either kept or loses all its `]`. */
  function Displayed(st: BookState): (r: BookState)
    ensures |r.seglist| == |st.seglist| && r.ext == st.ext && r.filepath == st.filepath
    ensures !ShowsCloser(r.seglist) || Count(r.name, ']') <= 1
    ensures !ShowsCloser(st.seglist) || Count(st.name, ']') <= 1 ==> r == st
    ensures forall k :: 0 <= k < |st.seglist| ==>
      r.seglist[k] == st.seglist[k] || r.seglist[k] == RemoveChars(st.seglist[k], {']'})
    ensures r == st || Assembled(r)
    decreases Holders(st.seglist, ']')
  {
    if ShowsCloser(st.seglist) && Count(st.name, ']') > 1 then
      BracketMatchDrops(st);
      BracketMatchSpec(st);
      var m := BracketMatch(st);
      var r := Displayed(m);
      assert forall k :: 0 <= k < |st.seglist| ==>
        r.seglist[k] == st.seglist[k] || r.seglist[k] == RemoveChars(st.seglist[k], {']'}) by {
        forall k | 0 <= k < |st.seglist|
          ensures r.seglist[k] == st.seglist[k] || r.seglist[k] == RemoveChars(st.seglist[k], {']'})
        {
          if m.seglist[k] != st.seglist[k] && r.seglist[k] != m.seglist[k] {
            RemoveCloserAbsent(m.seglist[k]);
          }
        }
      }
      r
    else st
  }

  /** Showing a book twice is showing it once. */
  lemma DisplayedIdempotent(st: BookState)
    ensures Displayed(Displayed(st)) == Displayed(st)
  {
  }

  /** Three segments join with two separators. */
  lemma JoinThree(segs: seq<string>)
    requires |segs| == 3
    ensures Join(SegSep, segs) == segs[0] + SegSep + segs[1] + SegSep + segs[2]
  {
    var rest := segs[1..];
    assert rest[1..] == [segs[2]];
    assert Join(SegSep, rest) == segs[1] + SegSep + segs[2];
    assert segs[0] + SegSep + (segs[1] + SegSep + segs[2]) == segs[0] + SegSep + segs[1] + SegSep + segs[2];
  }

  lemma ExampleTwoClosers(name: string)
    requires name == "A - [B] - C]"
    ensures Count(name, ']') == 2
  {
  }

  lemma ExampleOneCloser(name: string)
    requires name == "A - [B - C]"
    ensures Count(name, ']') == 1
  {
  }

  lemma ExampleStrip(seg: string)
    requires seg == "[B]"
    ensures Replace(seg, "]", "") == "[B"
  {
    assert "]" == [']'];
    ReplaceCharByNothing(seg, ']');
    RemoveCharsOfPrefix(seg, {']'}, 2);
  }

  /** When one `bracket_match` leaves at most one `]` in the name, showing the book is
      that one `bracket_match`. */
  lemma DisplayedOnce(st: BookState)
    requires ShowsCloser(st.seglist) && Count(st.name, ']') > 1
    requires Count(BracketMatch(st).name, ']') <= 1
    ensures Displayed(st) == BracketMatch(st)
  {
  }

  /** `]3` on `A - [B] - C` gives `A - [B] - C]`: two `]` in the name, one of them shown
      in the second box, so the earlier one is dropped and the book shows as
      `A - [B - C]`. */
  lemma DisplayedExample(st: BookState)
    requires st.seglist == ["A", "[B]", "C]"] && Assembled(st)
    ensures Displayed(st).seglist == ["A", "[B", "C]"]
  {
    ExampleBeforeCount(st);
    ExampleMatched(st);
    var m := BracketMatch(st);
    BracketMatchSpec(st);
    ExampleAfterCount(m);
    assert ']' in st.seglist[1];
    DisplayedOnce(st);
  }

  lemma ExampleBeforeCount(st: BookState)
    requires st.seglist == ["A", "[B]", "C]"] && Assembled(st)
    ensures Count(st.name, ']') == 2
  {
    JoinThree(st.seglist);
    ExampleTwoClosers(st.name);
  }

  lemma ExampleMatched(st: BookState)
    requires st.seglist == ["A", "[B]", "C]"] && Count(st.name, ']') == 2
    ensures BracketMatch(st).seglist == ["A", "[B", "C]"]
  {
    assert FirstHolding(st.seglist, ']') == Some(1);
    ExampleStrip(st.seglist[1]);
  }

  lemma ExampleAfterCount(m: BookState)
    requires m.seglist == ["A", "[B", "C]"] && Assembled(m)
    ensures Count(m.name, ']') == 1
  {
    JoinThree(m.seglist);
    ExampleOneCloser(m.name);
  }

}
