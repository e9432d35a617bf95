/** The editing session around the current book: the list of files still to name, the
    position in it, the book being edited, the done/remaining counter, and what one
    command, one edit of the text boxes, one press of a delete-segment button or one
    pick from the file list does to them. Popups, file operations and the directory
    listing are inputs. */
module Sessions {
  import opened Text
  import Books
  import Commands
  import Finalize
  import Dupes
  import BookClass

  /** The characters a text-box edit keeps. */
  const AcceptLetters: string :=
    "abcdefghijklmnopqrstuvwxyzABCDEFGHIJKLMNOPQRSTUVWXYZ0123456789 []()-&,.;'"

  /** What `move_to_next_book` does with the entry of the book just handled. */
  datatype Leave = DeleteEntry | RetainEntry | RevertEntry

  /** The session as a value: the file list, the selected position, the current book
      (`None` once no books are left), the done and remaining counts, and whether the
      program still runs. */
  datatype SessionState = SessionState(books: seq<string>, index: int, book: Option<Books.BookState>,
                                       done: int, remaining: int, running: bool)

  /** A session after one action, and whether the action raised. */
  datatype Turn = Turn(state: SessionState, outcome: Outcome)

  /** What the popups, the prompts and the file system answer during one command. */
  datatype Inputs = Inputs(
    delim: Option<string>,        // typed into the split prompt, None when it was closed
    typed: Option<string>,        // typed into the add-segment prompt, None when it was closed
    answer: Finalize.Answer,      // the "name reversed?" popup of check_title
    size: Option<int>,            // the file size in KB, None when it cannot be read
    renamed: bool,                // whether os.rename succeeded
    confirmDelete: Finalize.Answer, // the "delete file?" popup
    removed: bool,                // whether os.remove succeeded
    listing: seq<string>,         // the output directory's file names
    outputDir: string,
    scanDir: string)

  /** The session is in a consistent place: with files left, the position is on one
      of them and the current book was read from that file; with none left, there is
      no book and the position is 0. */
  predicate Placed(s: SessionState) {
    if s.books == [] then s.index == 0 && s.book.None?
    else 0 <= s.index < |s.books| && s.book.Some? && s.book.value.filepath == s.books[s.index]
  }

  // ---------------------------------------------------------------------------
  // Moving on and counting

  /** `update_done_txt(inc)`: a finished book moves one from remaining to done. */
  function UpdateDone(s: SessionState, inc: bool): (r: SessionState)
    ensures r.done + r.remaining == s.done + s.remaining
    ensures r.done == s.done + (if inc then 1 else 0)
    ensures r.(done := s.done, remaining := s.remaining) == s
  {
    if inc then s.(done := s.done + 1, remaining := s.remaining - 1) else s
  }

  /** The first half of `move_to_next_book(lastbook)`: the entry is removed, renamed to
      the book's new file name, or left, and the position advances except after a
      removal. */
  function Leaving(s: SessionState, leave: Leave): (r: SessionState)
    requires leave == RetainEntry ==> s.book.Some?
    requires leave != RevertEntry ==> ValidIndex(s.index, |s.books|)
    ensures r == s.(books := r.books, index := r.index)
  {
    var n := |s.books|;
    match leave
    case DeleteEntry => s.(books := RemoveAt(s.books, PyIndex(s.index, n)))
    case RetainEntry => s.(books := s.books[PyIndex(s.index, n) := s.book.value.filename], index := s.index + 1)
    case RevertEntry => s.(index := s.index + 1)
  }

  /** The second half: the position is pulled back to the last entry and the book there
      is read in, or there is no book when the list is empty. Python's list indexing
      raises on a position before the start. */
  function Arrive(s: SessionState): (r: Turn)
    ensures r.outcome == Success ==> (r.state.books == [] <==> r.state.book.None?)
    ensures r.state.books == s.books
    ensures r.state.done == s.done && r.state.remaining == s.remaining && r.state.running == s.running
  {
    var n := |s.books|;
    var index := if s.index >= n then n - 1 else s.index;
    if n == 0 then Turn(s.(index := 0, book := None), Success)
    else if !ValidIndex(index, n) then Turn(s.(index := index), Failure(IndexError))
    else Turn(s.(index := index, book := Some(Books.Initial(s.books[PyIndex(index, n)]))), Success)
  }

  /** A position that is not before the start arrives in a consistent place, on the
      file at the clamped position. */
  lemma ArrivePlaced(s: SessionState)
    requires 0 <= s.index
    ensures var r := Arrive(s);
      && r.outcome == Success && Placed(r.state)
      && (s.books != [] ==>
            && r.state.index == (if s.index < |s.books| then s.index else |s.books| - 1)
            && r.state.book == Some(Books.Initial(s.books[r.state.index])))
  {
  }

  /** `move_to_next_book(lastbook)`. */
  function MoveToNext(s: SessionState, leave: Leave): (r: Turn)
    requires leave == RetainEntry ==> s.book.Some?
    ensures r.outcome == Success ==> (r.state.books == [] <==> r.state.book.None?)
    ensures r.state.done == s.done && r.state.remaining == s.remaining && r.state.running == s.running
  {
    if leave != RevertEntry && !ValidIndex(s.index, |s.books|) then Turn(s, Failure(IndexError))
    else Arrive(Leaving(s, leave))
  }

  /** From a consistent place, moving on never raises and lands in a consistent place,
      with the book freshly read from the file at the new position. */
  lemma MoveToNextPlaced(s: SessionState, leave: Leave)
    requires Placed(s)
    requires leave != RevertEntry ==> s.book.Some?
    ensures var r := MoveToNext(s, leave);
      && r.outcome == Success && Placed(r.state)
      && (r.state.books != [] ==> r.state.book == Some(Books.Initial(r.state.books[r.state.index])))
  {
    ArrivePlaced(Leaving(s, leave));
  }

  /** Removing the current entry: the others keep their order and the position stays,
      unless it was the last, when it moves back one. */
  lemma MoveDeleteSpec(s: SessionState)
    requires Placed(s) && s.books != []
    ensures var r := MoveToNext(s, DeleteEntry).state;
      && r.books == s.books[..s.index] + s.books[s.index + 1..]
      && r.index == (if s.index < |r.books| then s.index else if r.books == [] then 0 else |r.books| - 1)
  {
  }

  /** Keeping the entry: it takes the book's new file name and the position advances,
      staying on the last entry when there is no next one. */
  lemma MoveRetainSpec(s: SessionState)
    requires Placed(s) && s.books != []
    ensures var r := MoveToNext(s, RetainEntry).state;
      && r.books == s.books[s.index := s.book.value.filename]
      && r.index == (if s.index + 1 < |s.books| then s.index + 1 else s.index)
  {
  }

  /** Passing over the entry: the list is unchanged and the position advances; on the
      last entry the same file is read in again, which drops the edits. */
  lemma MoveRevertSpec(s: SessionState)
    requires Placed(s) && s.books != []
    ensures var r := MoveToNext(s, RevertEntry).state;
      && r.books == s.books
      && r.index == (if s.index + 1 < |s.books| then s.index + 1 else s.index)
      && r.book == Some(Books.Initial(s.books[r.index]))
  {
  }

  // ---------------------------------------------------------------------------
  // Rewriting one segment in place

  /** The text a `d` command leaves in a segment. */
  function ScrubText(kind: Commands.Scrub, seg: string): string {
    match kind
    case Hyphens => Replace(seg, "-", " ")
    case Squares => Replace(Replace(seg, "[", ""), "]", "")
    case Stops => Replace(seg, ".", " ")
    case Underscores => Replace(seg, "_", " ")
    case Parens => Replace(Replace(seg, "(", " "), ")", " ")
  }

  /** The characters each `d` command takes out. */
  function Scrubbed(kind: Commands.Scrub): set<char> {
    match kind
    case Hyphens => {'-'}
    case Squares => {'[', ']'}
    case Stops => {'.'}
    case Underscores => {'_'}
    case Parens => {'(', ')'}
  }

  /** `d[` deletes both square brackets and keeps every other character; the other
      scrubs put a space in place of each scrubbed character and leave the rest where
      it was. Either way none of the scrubbed characters is left. */
  lemma ScrubTextSpec(kind: Commands.Scrub, seg: string)
    ensures forall c :: c in Scrubbed(kind) ==> c !in ScrubText(kind, seg)
    ensures kind == Commands.Squares ==> forall c :: c in ScrubText(kind, seg) <==> c in seg && c !in Scrubbed(kind)
    ensures kind != Commands.Squares ==>
      && |ScrubText(kind, seg)| == |seg|
      && forall k :: 0 <= k < |seg| ==>
           ScrubText(kind, seg)[k] == (if seg[k] in Scrubbed(kind) then ' ' else seg[k])
  {
    match kind
    case Hyphens =>
      assert "-" == ['-'] && " " == [' '];
      ReplaceCharByChar(seg, '-', ' ');
    case Stops =>
      assert "." == ['.'] && " " == [' '];
      ReplaceCharByChar(seg, '.', ' ');
    case Underscores =>
      assert "_" == ['_'] && " " == [' '];
      ReplaceCharByChar(seg, '_', ' ');
    case Parens =>
      assert "(" == ['('] && ")" == [')'] && " " == [' '];
      ReplaceCharByChar(seg, '(', ' ');
      ReplaceCharByChar(SwapChar(seg, '(', ' '), ')', ' ');
    case Squares =>
      assert "[" == ['['] && "]" == [']'];
      ReplaceCharByNothing(seg, '[');
      ReplaceCharByNothing(RemoveChars(seg, {'['}), ']');
  }

  /** The commands that rewrite one segment and reassemble: `ed`, `[`, `]` and the
      `d` family. */
  predicate Rewrites(c: Commands.Command) {
    c.AppendEd? || c.OpenBracket? || c.CloseBracket? || c.ScrubSeg?
  }

  /** The Python index of the segment such a command rewrites: `ed` the first, the
      others the digit less one, so that no digit means index -1. */
  function Target(c: Commands.Command): int
    requires Rewrites(c)
  {
    if c.AppendEd? then 0 else c.segnum - 1
  }

  /** The new text of that segment. */
  function Retext(c: Commands.Command, seg: string): string
    requires Rewrites(c)
  {
    match c
    case AppendEd => seg + " (ed.)"
    case OpenBracket(_) => "[" + seg
    case CloseBracket(_) => seg + "]"
    case ScrubSeg(kind, _) => ScrubText(kind, seg)
  }

  // ---------------------------------------------------------------------------
  // One command

  /** The commands that call `add_seg`. */
  predicate Adds(c: Commands.Command) {
    c.AddTyped? || c.Add40k? || c.AddSsc? || c.AddTranslated?
  }

  /** The text such a command hands to `add_seg`; `as` hands none, so the prompt is
      read. */
  function Handed(c: Commands.Command): string
    requires Adds(c)
  {
    match c
    case AddTyped => ""
    case Add40k => "[Warhammer 40,000"
    case AddSsc => "[SSC]"
    case AddTranslated => "translated by "
  }

  /** The position it hands over: after the author for the series tags, none (0)
      otherwise. */
  function AddPos(c: Commands.Command): int
    requires Adds(c)
  {
    if c.Add40k? || c.AddSsc? then 1 else 0
  }

  /** The commands that act on the current book object alone. */
  predicate OnBook(c: Commands.Command) {
    !(c.Quit? || c.FindDupes? || c.FinishMove? || c.FinishInPlace? || c.Delete? || c.Undo?)
  }

  /** The text a prompt hands back; a prompt closed from its window frame hands back
      no values at all, and reading its first value raises `TypeError`. */
  function PromptText(answer: Option<string>): string {
    if answer.Some? then answer.value else ""
  }

  /** What such a command does to the current book. A closed prompt raises before
      anything changes. */
  function EditBook(st: Books.BookState, c: Commands.Command, inputs: Inputs): (r: Books.Step)
    requires OnBook(c)
    ensures r.state.filepath == st.filepath
    ensures Adds(c) && Handed(c) == "" && inputs.typed.None? ==> r == Books.Step(st, Failure(TypeError))
    ensures Adds(c) && (Handed(c) != "" || inputs.typed.Some?) ==>
      r == Books.AddSeg(st, Books.NewSegment(Handed(c), PromptText(inputs.typed)), AddPos(c))
    ensures c.Split? && c.segnum < |st.seglist| && inputs.delim.None? ==> r == Books.Step(st, Failure(TypeError))
    ensures c.Split? && c.segnum >= |st.seglist| ==> r == Books.Step(st, Success)
  {
    if Adds(c) then
      if Handed(c) == "" && inputs.typed.None? then Books.Step(st, Failure(TypeError))
      else Books.AddSeg(st, Books.NewSegment(Handed(c), PromptText(inputs.typed)), AddPos(c))
    else if Rewrites(c) then RewriteSeg(st, c)
    else match c
      case ByWord => Books.Step(Books.ByReplace(st), Success)
      case Reverse(segnum) =>
        if !ValidIndex(segnum, |st.seglist|) then Books.Step(st, Failure(IndexError))
        else Books.ReverseSeg(st, segnum)
      case Capitalize => Books.CapitalizeStep(st)
      case Split(segnum) =>
        if segnum < |st.seglist| && inputs.delim.None? then Books.Step(st, Failure(TypeError))
        else Books.SplitSeg(st, segnum, PromptText(inputs.delim))
      case Swap(x, y) => Books.SwapSegs(st, x, y)
      case _ => Books.Step(st, Success)
  }

  /** `seglist[i] = <new text>` followed by `reassemble_segs()`. */
  function RewriteSeg(st: Books.BookState, c: Commands.Command): (r: Books.Step)
    requires Rewrites(c)
    ensures !ValidIndex(Target(c), |st.seglist|) <==> r.outcome.Failure?
    ensures r.outcome.Failure? ==> r == Books.Step(st, Failure(IndexError))
    ensures r.outcome == Success ==>
      var k := PyIndex(Target(c), |st.seglist|);
      && Books.Assembled(r.state) && r.state.ext == st.ext && r.state.filepath == st.filepath
      && r.state.seglist == st.seglist[k := Retext(c, st.seglist[k])]
  {
    var n := |st.seglist|;
    if !ValidIndex(Target(c), n) then Books.Step(st, Failure(IndexError))
    else Books.EditSeg(st, Target(c), Retext(c, st.seglist[PyIndex(Target(c), n)]))
  }

  /** `finish(movebook)` and what follows a successful one: the entry leaves the list
      and the counter moves for a move, the entry takes the new name for a rename in
      place. */
  function FinishTurn(s: SessionState, movebook: bool, inputs: Inputs): (r: Turn)
    requires s.book.Some?
  {
    var g := Finalize.FinishGate(s.book.value, movebook, inputs.outputDir, inputs.scanDir,
                                 inputs.size, inputs.answer);
    match Finalize.Finished(g, inputs.renamed)
    case Err(e) => Turn(s, Failure(e))
    case Ok(done) =>
      if !done then Turn(s, Success)
      else if movebook then
        var t := MoveToNext(s, DeleteEntry);
        if t.outcome.Failure? then t else Turn(UpdateDone(t.state, true), Success)
      else MoveToNext(s, RetainEntry)
  }

  /** `delete` and the move that follows a successful one: only a `Yes` and a
      successful removal count the book done and take its entry out. */
  function DeleteTurn(s: SessionState, inputs: Inputs): (r: Turn)
    requires s.book.Some?
  {
    if inputs.confirmDelete == Finalize.Yes && inputs.removed then
      MoveToNext(UpdateDone(s, true), DeleteEntry)
    else Turn(s, Success)
  }

  /** A parsed command on a session that has a book. */
  function ApplyCommand(s: SessionState, c: Commands.Command, inputs: Inputs): (r: Turn)
    requires s.book.Some?
  {
    var st := s.book.value;
    if OnBook(c) then
      var step := EditBook(st, c, inputs);
      Turn(s.(book := Some(step.state)), step.outcome)
    else match c
      case Quit => Turn(s.(running := false), Success)
      case FindDupes =>
        var found := Dupes.DupeFinder(st.seglist, inputs.listing);
        if found.Err? then Turn(s, Failure(found.error)) else Turn(s, Success)
      case FinishMove => FinishTurn(s, true, inputs)
      case FinishInPlace => FinishTurn(s, false, inputs)
      case Delete => DeleteTurn(s, inputs)
      case Undo => Turn(s.(book := Some(Books.Initial(st.filepath))), Success)
  }

  /** The command button: with no book nothing happens; a command that raises leaves
      whatever it had already changed and reports the error. */
  function Run(s: SessionState, cmd: string, inputs: Inputs): (r: Turn)
  {
    if s.book.None? then Turn(s, Success)
    else match Commands.Parse(cmd)
      case Err(e) => Turn(s, Failure(e))
      case Ok(c) => ApplyCommand(s, c, inputs)
  }

  /** Every parsed command keeps the session in a consistent place. */
  lemma ApplyKeepsPlaced(s: SessionState, c: Commands.Command, inputs: Inputs)
    requires Placed(s) && s.book.Some?
    ensures Placed(ApplyCommand(s, c, inputs).state)
  {
    if !OnBook(c) {
      match c
      case FinishMove =>
        MoveToNextPlaced(s, DeleteEntry);
      case FinishInPlace =>
        MoveToNextPlaced(s, RetainEntry);
      case Delete =>
        MoveToNextPlaced(UpdateDone(s, true), DeleteEntry);
      case Quit =>
      case FindDupes =>
      case Undo =>
    }
  }

  /** Every command keeps the session in a consistent place. */
  lemma RunKeepsPlaced(s: SessionState, cmd: string, inputs: Inputs)
    requires Placed(s)
    ensures Placed(Run(s, cmd, inputs).state)
  {
    if s.book.Some? && Commands.Parse(cmd).Ok? {
      ApplyKeepsPlaced(s, Commands.Parse(cmd).value, inputs);
    }
  }

  /** No command changes how many books there are in all; only a successful move or
      delete counts one more book done. */
  lemma ApplyCounts(s: SessionState, c: Commands.Command, inputs: Inputs)
    requires s.book.Some?
    ensures var r := ApplyCommand(s, c, inputs).state;
      && r.done + r.remaining == s.done + s.remaining
      && (r.done == s.done || r.done == s.done + 1)
      && (r.done == s.done + 1 ==> c == Commands.FinishMove || c == Commands.Delete)
  {
    if !OnBook(c) {
      match c
      case FinishMove =>
      case FinishInPlace =>
      case Delete =>
      case Quit =>
      case FindDupes =>
      case Undo =>
    }
  }

  /** `fff` on a consistent session whose checks pass and whose rename succeeds takes
      the entry out of the list and counts the book done. */
  lemma FinishMoveSpec(s: SessionState, inputs: Inputs)
    requires Placed(s) && s.books != []
    requires Finalize.FinishGate(s.book.value, true, inputs.outputDir, inputs.scanDir,
                                 inputs.size, inputs.answer).Rename?
    requires inputs.renamed
    ensures var r := ApplyCommand(s, Commands.FinishMove, inputs);
      && r.outcome == Success && Placed(r.state)
      && r.state.books == s.books[..s.index] + s.books[s.index + 1..]
      && r.state.done == s.done + 1 && r.state.remaining == s.remaining - 1
  {
    MoveToNextPlaced(s, DeleteEntry);
    MoveDeleteSpec(s);
  }

  /** `undo` reads the book in again from the file it came from, which in a consistent
      session is the selected entry of the list. */
  lemma UndoRereads(s: SessionState, inputs: Inputs)
    requires Placed(s) && s.books != []
    ensures ApplyCommand(s, Commands.Undo, inputs) == Turn(s.(book := Some(Books.Initial(s.books[s.index]))), Success)
  {
  }

  /** Text that fails to parse changes nothing and reports `ValueError`. */
  lemma BadDigitChangesNothing(s: SessionState, cmd: string, inputs: Inputs)
    requires s.book.Some? && Commands.Parse(cmd).Err?
    ensures Run(s, cmd, inputs) == Turn(s, Failure(ValueError))
  {
  }

  /** With no digit, `[`, `]` and the `d` family rewrite the last segment. */
  lemma NoDigitRewritesLast(st: Books.BookState, c: Commands.Command, inputs: Inputs)
    requires Rewrites(c) && !c.AppendEd? && c.segnum == 0 && |st.seglist| >= 1
    ensures var n := |st.seglist|;
      RewriteSeg(st, c).state.seglist == st.seglist[n - 1 := Retext(c, st.seglist[n - 1])]
  {
  }

  // ---------------------------------------------------------------------------
  // The other events

  /** The segments once the text boxes are read back: each segment with a box takes
      that box's text less the characters not accepted; the rest stay. */
  function EditedSegments(segs: seq<string>, boxes: seq<string>): (r: seq<string>)
    ensures |r| == |segs|
  {
    seq(|segs|, k requires 0 <= k < |segs| =>
      if k < |boxes| then KeepChars(boxes[k], AcceptLetters) else segs[k])
  }

  /** The loop over the text boxes: a segment is edited (and the book reassembled) only
      when its box's filtered text differs. */
  function EditBoxes(st: Books.BookState, boxes: seq<string>): (r: Books.BookState)
    ensures |r.seglist| == |st.seglist| && r.ext == st.ext && r.filepath == st.filepath
    ensures forall k :: 0 <= k < |st.seglist| ==>
      r.seglist[k] == if k < |boxes| then KeepChars(boxes[k], AcceptLetters) else st.seglist[k]
    ensures r == st || Books.Assembled(r)
  {
    var segs := EditedSegments(st.seglist, boxes);
    if segs == st.seglist then st else Books.Reassembled(st.(seglist := segs))
  }

  /** Reading the same boxes back twice changes nothing the second time. */
  lemma EditBoxesIdempotent(st: Books.BookState, boxes: seq<string>)
    ensures EditBoxes(EditBoxes(st, boxes), boxes) == EditBoxes(st, boxes)
  {
    var r := EditBoxes(st, boxes);
    assert EditedSegments(r.seglist, boxes) == r.seglist;
  }

  /** Boxes that show the segments as they are, in accepted characters only, change
      nothing. */
  lemma EditBoxesEcho(st: Books.BookState, boxes: seq<string>)
    requires |boxes| >= |st.seglist|
    requires forall k :: 0 <= k < |st.seglist| ==> boxes[k] == st.seglist[k]
    requires forall k, j :: 0 <= k < |st.seglist| && 0 <= j < |st.seglist[k]| ==> st.seglist[k][j] in AcceptLetters
    ensures EditBoxes(st, boxes) == st
  {
    forall k | 0 <= k < |st.seglist| ensures KeepChars(boxes[k], AcceptLetters) == st.seglist[k] {
      KeepCharsIdentity(st.seglist[k], AcceptLetters);
    }
    assert EditedSegments(st.seglist, boxes) == st.seglist;
  }

  // ---------------------------------------------------------------------------
  // Events and the display that follows each

  /** `display_currbook` after an event: filling the boxes runs `bracket_match` while a
      shown segment holds a `]` and the name more than one. Only the book changes, and
      afterwards no shown segment holds a `]` or the name holds at most one. */
  function Shown(s: SessionState): (r: SessionState)
    ensures r.(book := s.book) == s
    ensures r.book.None? <==> s.book.None?
    ensures r.book.Some? ==> !Books.ShowsCloser(r.book.value.seglist) || Count(r.book.value.name, ']') <= 1
    ensures r.book.Some? ==> r.book.value.filepath == s.book.value.filepath
    ensures s.book.Some? && (!Books.ShowsCloser(s.book.value.seglist) || Count(s.book.value.name, ']') <= 1) ==> r == s
    ensures Placed(s) ==> Placed(r)
  {
    if s.book.None? then s else s.(book := Some(Books.Displayed(s.book.value)))
  }

  /** Showing the session a second time changes nothing. */
  lemma ShownIdempotent(s: SessionState)
    ensures Shown(Shown(s)) == Shown(s)
  {
    if s.book.Some? {
      Books.DisplayedIdempotent(s.book.value);
    }
  }

  /** The command button, then the display. */
  function CommandEvent(s: SessionState, cmd: string, inputs: Inputs): (r: Turn)
    ensures r.outcome == Run(s, cmd, inputs).outcome
    ensures r.state == Shown(Run(s, cmd, inputs).state)
    ensures Placed(s) ==> Placed(r.state)
    ensures r.state.book.Some? ==>
      !Books.ShowsCloser(r.state.book.value.seglist) || Count(r.state.book.value.name, ']') <= 1
    ensures s.book.None? ==> r == Turn(s, Success)
    ensures s.book.Some? && Commands.Parse(cmd).Err? ==> r == Turn(Shown(s), Failure(ValueError))
  {
    var t := Run(s, cmd, inputs);
    if Placed(s) then
      RunKeepsPlaced(s, cmd, inputs);
      Turn(Shown(t.state), t.outcome)
    else Turn(Shown(t.state), t.outcome)
  }

  /** The command button keeps the session in a consistent place. */
  lemma CommandEventPlaced(s: SessionState, cmd: string, inputs: Inputs)
    requires Placed(s)
    ensures Placed(CommandEvent(s, cmd, inputs).state)
  {
    RunKeepsPlaced(s, cmd, inputs);
  }

  /** A text-box event on the session, then the display. The window has `NumBoxes`
      boxes, and each of them is read back. */
  function BoxesEvent(s: SessionState, boxes: seq<string>): (r: SessionState)
    requires |boxes| == Books.NumBoxes
    ensures Placed(s) ==> Placed(r)
    ensures r.(book := s.book) == s
  {
    Shown(if s.book.None? then s else s.(book := Some(EditBoxes(s.book.value, boxes))))
  }

  /** A delete-segment button: `del_seg` with the button's number, then the display. */
  function DelSegEvent(s: SessionState, segnum: int): (r: Turn)
    ensures Placed(s) ==> Placed(r.state)
    ensures r.state.(book := s.book) == s
  {
    if s.book.None? then Turn(s, Success)
    else
      var step := Books.DelSeg(s.book.value, segnum);
      Turn(Shown(s.(book := Some(step.state))), step.outcome)
  }

  /** A pick from the file list: that file is read in and becomes the position, then
      the display. */
  function SelectEvent(s: SessionState, k: int): (r: SessionState)
    requires 0 <= k < |s.books|
    ensures Placed(s) ==> Placed(r)
    ensures s.book.Some? ==> r.index == k && r.book.Some? && r.book.value.filepath == s.books[k]
  {
    if s.book.None? then s else Shown(s.(book := Some(Books.Initial(s.books[k])), index := k))
  }

  // ---------------------------------------------------------------------------
  // The session object

  class Session {
    var books: seq<string>
    var index: int
    var book: BookClass.Book?
    var done: int
    var remaining: int
    var running: bool

    /** The fields, and the current book's fields, as a value. */
    function State(): SessionState
      reads this, book
    {
      SessionState(books, index, if book == null then None else Some(book.State()), done, remaining, running)
    }

    /** `update_done_txt(inc)`. */
    method UpdateDoneCount(inc: bool)
      modifies this
      ensures State() == UpdateDone(old(State()), inc)
      ensures book == old(book)
    {
      if inc {
        done := done + 1;
        remaining := remaining - 1;
      }
    }

    /** `move_to_next_book(lastbook)`. */
    method MoveToNextBook(leave: Leave) returns (o: Outcome)
      requires leave == RetainEntry ==> book != null
      modifies this
      ensures Turn(State(), o) == MoveToNext(old(State()), leave)
      ensures book == null || book == old(book) || fresh(book)
    {
      var n := |books|;
      if leave != RevertEntry && !ValidIndex(index, n) {
        return Failure(IndexError);
      }
      match leave {
        case DeleteEntry =>
          books := RemoveAt(books, PyIndex(index, n));
        case RetainEntry =>
          books := books[PyIndex(index, n) := book.filename];
          index := index + 1;
        case RevertEntry =>
          index := index + 1;
      }
      o := ReadInAtIndex();
    }

    /** The clamp and the read-in that end `move_to_next_book`. */
    method ReadInAtIndex() returns (o: Outcome)
      modifies this
      ensures Turn(State(), o) == Arrive(old(State()))
      ensures book == null || book == old(book) || fresh(book)
    {
      var n := |books|;
      if index >= n {
        index := n - 1;
      }
      if n == 0 {
        index := 0;
        book := null;
        return Success;
      }
      if !ValidIndex(index, n) {
        return Failure(IndexError);
      }
      book := new BookClass.Book(books[PyIndex(index, n)]);
      o := Success;
    }

    /** `finish(movebook)` and the move that follows a successful one. */
    method FinishBook(movebook: bool, inputs: Inputs) returns (o: Outcome)
      requires book != null
      modifies this
      ensures Turn(State(), o) == FinishTurn(old(State()), movebook, inputs)
      ensures book == null || book == old(book) || fresh(book)
    {
      var g := Finalize.Finish(book.State(), movebook, inputs.outputDir, inputs.scanDir,
                               inputs.size, inputs.answer);
      var finished := Finalize.Finished(g, inputs.renamed);
      if finished.Err? {
        return Failure(finished.error);
      }
      if !finished.value {
        return Success;
      }
      if movebook {
        o := MoveToNextBook(DeleteEntry);
        if o == Success {
          UpdateDoneCount(true);
        }
      } else {
        o := MoveToNextBook(RetainEntry);
      }
    }

    /** `process_txt_cmd` under the command button's `try`. */
    method RunCommand(cmd: string, inputs: Inputs) returns (o: Outcome)
      modifies this, book
      ensures Turn(State(), o) == Run(old(State()), cmd, inputs)
      ensures book == null || book == old(book) || fresh(book)
    {
      if book == null {
        return Success;
      }
      var parsed := Commands.Parse(cmd);
      if parsed.Err? {
        return Failure(parsed.error);
      }
      o := Apply(parsed.value, inputs);
    }

    /** The command button: the command, then the display. */
    method CommandButton(cmd: string, inputs: Inputs) returns (o: Outcome)
      modifies this, book
      ensures Turn(State(), o) == CommandEvent(old(State()), cmd, inputs)
    {
      o := RunCommand(cmd, inputs);
      Display();
    }

    /** One parsed command. */
    method Apply(c: Commands.Command, inputs: Inputs) returns (o: Outcome)
      requires book != null
      modifies this, book
      ensures Turn(State(), o) == ApplyCommand(old(State()), c, inputs)
      ensures book == null || book == old(book) || fresh(book)
    {
      if OnBook(c) {
        o := EditCurrentBook(c, inputs);
        return;
      }
      match c {
        case Quit =>
          running := false;
          o := Success;
        case FindDupes =>
          var found := Dupes.DupeFinder(book.seglist, inputs.listing);
          o := if found.Err? then Failure(found.error) else Success;
        case FinishMove =>
          o := FinishBook(true, inputs);
        case FinishInPlace =>
          o := FinishBook(false, inputs);
        case Delete =>
          if inputs.confirmDelete == Finalize.Yes && inputs.removed {
            UpdateDoneCount(true);
            o := MoveToNextBook(DeleteEntry);
          } else {
            o := Success;
          }
        case Undo =>
          book := new BookClass.Book(book.filepath);
          o := Success;
      }
    }

    /** A command that works on the book object alone. */
    method EditCurrentBook(c: Commands.Command, inputs: Inputs) returns (o: Outcome)
      requires book != null && OnBook(c)
      modifies book
      ensures Books.Step(book.State(), o) == EditBook(old(book.State()), c, inputs)
    {
      if Adds(c) {
        if Handed(c) == "" && inputs.typed.None? {
          return Failure(TypeError);
        }
        o := book.AddSeg(Handed(c), PromptText(inputs.typed), AddPos(c));
      } else if Rewrites(c) {
        o := RewriteSegment(c);
      } else {
        o := EditSegments(c, inputs);
      }
    }

    /** `split_seg`: its prompt is read only for a segment number below the count. */
    method SplitSegment(segnum: int, inputs: Inputs) returns (o: Outcome)
      requires book != null
      modifies book
      ensures Books.Step(book.State(), o) == EditBook(old(book.State()), Commands.Split(segnum), inputs)
    {
      if segnum < |book.seglist| && inputs.delim.None? {
        o := Failure(TypeError);
      } else {
        o := book.SplitSeg(segnum, PromptText(inputs.delim));
      }
    }

    /** The commands that call one of the book's own editing methods. */
    method EditSegments(c: Commands.Command, inputs: Inputs) returns (o: Outcome)
      requires book != null && OnBook(c) && !Adds(c) && !Rewrites(c)
      modifies book
      ensures Books.Step(book.State(), o) == EditBook(old(book.State()), c, inputs)
    {
      match c {
        case ByWord =>
          book.ByReplace();
          o := Success;
        case Reverse(segnum) =>
          if !ValidIndex(segnum, |book.seglist|) {
            o := Failure(IndexError);
          } else {
            o := book.ReverseSeg(segnum);
          }
        case Capitalize =>
          o := book.Capitalize();
        case Split(segnum) =>
          o := SplitSegment(segnum, inputs);
        case Swap(x, y) =>
          o := book.SwapSegs(x, y);
        case NoOp =>
          o := Success;
        case Rar =>
          o := Success;
        case Open =>
          o := Success;
        case Help =>
          o := Success;
        case Unknown =>
          o := Success;
      }
    }

    /** The segment assignment and `reassemble_segs()` of `ed`, `[`, `]` and `d`. */
    method RewriteSegment(c: Commands.Command) returns (o: Outcome)
      requires book != null && Rewrites(c)
      modifies book
      ensures Books.Step(book.State(), o) == RewriteSeg(old(book.State()), c)
    {
      var n := |book.seglist|;
      if !ValidIndex(Target(c), n) {
        return Failure(IndexError);
      }
      var k := PyIndex(Target(c), n);
      book.seglist := book.seglist[k := Retext(c, book.seglist[k])];
      book.Reassemble();
      o := Success;
    }

    /** The text-box event: the boxes are read back, then the book is shown. */
    method EditTextBoxes(boxes: seq<string>)
      requires |boxes| == Books.NumBoxes
      modifies book
      ensures State() == BoxesEvent(old(State()), boxes)
    {
      if book == null {
        return;
      }
      ReadBoxes(boxes);
      Display();
    }

    /** The loop over the boxes: each segment with a box takes its filtered text when
        that differs. */
    method ReadBoxes(boxes: seq<string>)
      requires book != null
      modifies book
      ensures book.State() == EditBoxes(old(book.State()), boxes)
    {
      ghost var st := book.State();
      ghost var target := EditedSegments(st.seglist, boxes);
      ghost var edited := -1;
      var num := 0;
      while num < |book.seglist|
        invariant 0 <= num <= |book.seglist| == |st.seglist|
        invariant forall k :: 0 <= k < num ==> book.seglist[k] == target[k]
        invariant forall k :: num <= k < |st.seglist| ==> book.seglist[k] == st.seglist[k]
        invariant book.ext == st.ext && book.filepath == st.filepath
        invariant edited < 0 ==> book.State() == st
        invariant edited >= 0 ==> edited < num && book.seglist[edited] != st.seglist[edited]
        invariant edited >= 0 ==> Books.Assembled(book.State())
      {
        if num < |boxes| {
          var data := KeepChars(boxes[num], AcceptLetters);
          if data != book.seglist[num] {
            Books.EditSegAt(book.State(), num, data);
            var _ := book.EditSeg(num, data);
            if edited < 0 {
              edited := num;
            }
          }
        }
        num := num + 1;
      }
      assert book.seglist == target;
    }

    /** A delete-segment button. */
    method DeleteSegment(segnum: int) returns (o: Outcome)
      modifies book
      ensures Turn(State(), o) == DelSegEvent(old(State()), segnum)
    {
      if book == null {
        return Success;
      }
      o := book.DelSeg(segnum);
      Display();
    }

    /** A pick from the file list. */
    method Select(k: int)
      requires 0 <= k < |books|
      modifies this
      ensures State() == SelectEvent(old(State()), k)
    {
      if book == null {
        return;
      }
      book := new BookClass.Book(books[k]);
      index := k;
      Display();
    }

    /** `display_currbook`: filling a box with a segment that holds a `]` calls
        `bracket_match`, which, when it changes the book, shows the book again. */
    method Display()
      modifies book
      ensures State() == Shown(old(State()))
      decreases if book == null then 0 else Books.Holders(book.seglist, ']')
    {
      if book != null && Books.ShowsCloser(book.seglist) && Count(book.name, ']') > 1 {
        Books.BracketMatchDrops(book.State());
        book.BracketMatch();
        Display();
      }
    }
  }
}
