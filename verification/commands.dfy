/** The one-line commands typed into the command box (`process_txt_cmd`): the text is
    read into a `Command` by the same chain of tests, in the same order, and a digit
    that Python's `int()` refuses raises `ValueError`. */
module Commands {
  import opened Text

  /** Which characters a `d` command takes out of a segment. */
  datatype Scrub = Hyphens | Squares | Stops | Underscores | Parens

  datatype Command =
    | Quit                          // q
    | NoOp                          // the empty command
    | FindDupes                     // fd
    | ByWord                        // by
    | Rar                           // rar
    | Reverse(segnum: int)          // r, rN: 0-based, so r0 is segment -1
    | Open                          // o
    | Help                          // h
    | Capitalize                    // anything else starting with c
    | Split(segnum: int)            // spl, splN
    | Swap(x: int, y: int)          // two digits
    | FinishMove                    // fff
    | FinishInPlace                 // f
    | AddTyped                      // as
    | Add40k                        // 40k
    | AddSsc                        // ssc
    | AddTranslated                 // trans
    | AppendEd                      // ed
    | OpenBracket(segnum: int)      // [, [N: 1-based, so 0 is the last segment
    | CloseBracket(segnum: int)     // ], ]N
    | Undo                          // undo
    | Delete                        // ddd
    | ScrubSeg(kind: Scrub, segnum: int)  // d-, d[, d., d_, d( with an optional digit
    | Unknown                       // anything else

  /** Python `int(c)` for a one-character string, ASCII digits only. */
  function DigitOf(c: char): (r: Result<int>)
    ensures r.Ok? <==> IsDigit(c)
    ensures r.Ok? ==> 0 <= r.value <= 9 && c == Digit(r.value)
  {
    if IsDigit(c) then Ok(DigitValue(c)) else Err(ValueError)
  }

  /** The digit character for `0 <= d <= 9`. */
  function Digit(d: int): (c: char)
    requires 0 <= d <= 9
    ensures IsDigit(c) && DigitValue(c) == d
  {
    (('0' as int) + d) as char
  }

  /** `int(cmd[i]) if len(cmd) > i else 0`. */
  function DigitAt(cmd: string, i: nat): (r: Result<int>)
    ensures r.Err? <==> |cmd| > i && !IsDigit(cmd[i])
    ensures r.Err? ==> r.error == ValueError
    ensures r.Ok? ==> 0 <= r.value <= 9
    ensures r.Ok? && |cmd| > i ==> cmd[i] == Digit(r.value)
    ensures |cmd| <= i ==> r == Ok(0)
  {
    if |cmd| > i then DigitOf(cmd[i]) else Ok(0)
  }

  /** The character after `d` naming each kind of scrub. */
  function ScrubChar(kind: Scrub): char {
    match kind
    case Hyphens => '-'
    case Squares => '['
    case Stops => '.'
    case Underscores => '_'
    case Parens => '('
  }

  function ScrubOf(c: char): (r: Option<Scrub>)
    ensures r.Some? ==> ScrubChar(r.value) == c
    ensures r.None? ==> forall kind :: ScrubChar(kind) != c
  {
    if c == '-' then Some(Hyphens)
    else if c == '[' then Some(Squares)
    else if c == '.' then Some(Stops)
    else if c == '_' then Some(Underscores)
    else if c == '(' then Some(Parens)
    else None
  }

  /** `process_txt_cmd`'s chain of tests. */
  function Parse(cmd: string): (r: Result<Command>)
    ensures r.Err? ==> r.error == ValueError
  {
    if cmd == "q" then Ok(Quit)
    else if cmd == "" then Ok(NoOp)
    else if cmd == "fd" then Ok(FindDupes)
    else if cmd == "by" then Ok(ByWord)
    else if cmd == "rar" then Ok(Rar)
    else if cmd[0] == 'r' then
      var d :- DigitOf(if |cmd| == 1 then '1' else cmd[1]);
      Ok(Reverse(d - 1))
    else if cmd == "o" then Ok(Open)
    else if cmd == "h" then Ok(Help)
    else if cmd[0] == 'c' then Ok(Capitalize)
    else if |cmd| >= 3 && cmd[..3] == "spl" then
      if |cmd| == 4 then
        var d :- DigitOf(cmd[3]);
        Ok(Split(d - 1))
      else Ok(Split(0))
    else if |cmd| == 2 && IsDigit(cmd[0]) && IsDigit(cmd[1]) then
      Ok(Swap(DigitValue(cmd[0]), DigitValue(cmd[1])))
    else if cmd == "fff" then Ok(FinishMove)
    else if cmd == "f" then Ok(FinishInPlace)
    else if cmd == "as" then Ok(AddTyped)
    else if cmd == "40k" then Ok(Add40k)
    else if cmd == "ssc" then Ok(AddSsc)
    else if cmd == "trans" then Ok(AddTranslated)
    else if cmd == "ed" then Ok(AppendEd)
    else if cmd[0] == '[' then
      var n :- DigitAt(cmd, 1);
      Ok(OpenBracket(n))
    else if cmd[0] == ']' then
      var n :- DigitAt(cmd, 1);
      Ok(CloseBracket(n))
    else if cmd == "undo" then Ok(Undo)
    else if cmd == "ddd" then Ok(Delete)
    else if |cmd| >= 2 && cmd[0] == 'd' && ScrubOf(cmd[1]).Some? then
      var n :- DigitAt(cmd, 2);
      Ok(ScrubSeg(ScrubOf(cmd[1]).value, n))
    else Ok(Unknown)
  }

  // ---------------------------------------------------------------------------
  // The canonical spelling of each command

  /** A command some text parses to: the numbers are what one digit can give. */
  predicate WellFormed(c: Command) {
    match c
    case Reverse(segnum) => -1 <= segnum <= 8
    case Split(segnum) => -1 <= segnum <= 8
    case Swap(x, y) => 0 <= x <= 9 && 0 <= y <= 9
    case OpenBracket(segnum) => 0 <= segnum <= 9
    case CloseBracket(segnum) => 0 <= segnum <= 9
    case ScrubSeg(_, segnum) => 0 <= segnum <= 9
    case Unknown => false
    case _ => true
  }

  /** The shortest text for a well-formed command. */
  function Render(c: Command): (r: string)
    requires WellFormed(c)
  {
    match c
    case Quit => "q"
    case NoOp => ""
    case FindDupes => "fd"
    case ByWord => "by"
    case Rar => "rar"
    case Reverse(segnum) => "r" + [Digit(segnum + 1)]
    case Open => "o"
    case Help => "h"
    case Capitalize => "c"
    case Split(segnum) => "spl" + [Digit(segnum + 1)]
    case Swap(x, y) => [Digit(x), Digit(y)]
    case FinishMove => "fff"
    case FinishInPlace => "f"
    case AddTyped => "as"
    case Add40k => "40k"
    case AddSsc => "ssc"
    case AddTranslated => "trans"
    case AppendEd => "ed"
    case OpenBracket(segnum) => "[" + [Digit(segnum)]
    case CloseBracket(segnum) => "]" + [Digit(segnum)]
    case Undo => "undo"
    case Delete => "ddd"
    case ScrubSeg(kind, segnum) => "d" + [ScrubChar(kind)] + [Digit(segnum)]
  }

  /** Every well-formed command is read back from its canonical text. */
  lemma ParseRender(c: Command)
    requires WellFormed(c)
    ensures Parse(Render(c)) == Ok(c)
  {
    var s := Render(c);
    match c
    case Split(segnum) =>
      assert s[..3] == "spl";
    case ScrubSeg(kind, segnum) =>
      assert |s| == 3 && s[0] == 'd' && s[1] == ScrubChar(kind) && s[2] == Digit(segnum);
    case Reverse(segnum) =>
      assert |s| == 2 && s[0] == 'r' && s[1] == Digit(segnum + 1);
    case Swap(x, y) =>
      assert |s| == 2 && s[0] == Digit(x) && s[1] == Digit(y);
    case OpenBracket(segnum) =>
      assert |s| == 2 && s[0] == '[' && s[1] == Digit(segnum);
    case CloseBracket(segnum) =>
      assert |s| == 2 && s[0] == ']' && s[1] == Digit(segnum);
    case Quit =>
    case NoOp =>
    case FindDupes =>
    case ByWord =>
    case Rar =>
    case Open =>
    case Help =>
    case Capitalize =>
    case FinishMove =>
    case FinishInPlace =>
    case AddTyped =>
    case Add40k =>
    case AddSsc =>
      assert s[..3] == s && s[1] != 'p';
    case AddTranslated =>
    case AppendEd =>
    case Undo =>
    case Delete =>
  }

  /** Whatever parses without error is a well-formed command or `Unknown`. */
  lemma ParseWellFormed(cmd: string)
    requires Parse(cmd).Ok?
    ensures WellFormed(Parse(cmd).value) || Parse(cmd).value == Unknown
  {
  }

  // ---------------------------------------------------------------------------
  // How the order of the tests decides

  /** `rar` is caught before the reverse test, so it is not read as `r` with digit `a`. */
  lemma RarBeforeReverse()
    ensures Parse("rar") == Ok(Rar)
  {
  }

  /** Any other text starting with `r` reverses: only its second character is read, so
      `r12` reverses the first segment and `r0` the last. */
  lemma ReverseReadsOneDigit(cmd: string)
    requires |cmd| >= 2 && cmd[0] == 'r' && cmd != "rar" && IsDigit(cmd[1])
    ensures Parse(cmd) == Ok(Reverse(DigitValue(cmd[1]) - 1))
  {
  }

  /** Every text starting with `c` capitalizes. */
  lemma CapitalizeTakesAllC(cmd: string)
    requires |cmd| >= 1 && cmd[0] == 'c'
    ensures Parse(cmd) == Ok(Capitalize)
  {
  }

  /** `spl` reads a digit only when exactly one follows; any longer tail is ignored. */
  lemma SplitReadsOneDigit(cmd: string)
    requires |cmd| != 4 && |cmd| >= 3 && cmd[..3] == "spl"
    ensures Parse(cmd) == Ok(Split(0))
  {
  }

  /** `ddd` is caught before the scrub commands and `d` alone is unknown. */
  lemma DeleteBeforeScrub()
    ensures Parse("ddd") == Ok(Delete)
    ensures Parse("d") == Ok(Unknown)
  {
  }

  /** A bracket or scrub command without a digit names segment 0, that is the last
      segment under Python's negative indexing. */
  lemma NoDigitMeansLast()
    ensures Parse("[") == Ok(OpenBracket(0))
    ensures Parse("]") == Ok(CloseBracket(0))
    ensures forall kind :: Parse("d" + [ScrubChar(kind)]) == Ok(ScrubSeg(kind, 0))
  {
    forall kind ensures Parse("d" + [ScrubChar(kind)]) == Ok(ScrubSeg(kind, 0)) {
      var s := "d" + [ScrubChar(kind)];
      assert s[0] == 'd' && s[1] == ScrubChar(kind) && |s| == 2;
    }
  }
}
