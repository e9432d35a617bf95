# psg-autoname in Dafny

A model of the book-renaming engine of `psg-autoname.py`. The program shows one e-book
file at a time and lets the user rewrite its name. The name is cut into segments at
`" - "` (author, series tag, title, ...), and the user edits it with short typed
commands, with the segment text boxes and with delete-segment buttons. Finishing renames
the file in place, or moves it to the output directory after some sanity checks. Then
the next file in the list is read in.

The project has these modules:

- `Text` (`text.dfy`): the Python `str` and `list` behaviour the program relies on.
  - `find`, `replace`, `split`, `join`, `partition`, `strip`, `split()`, `title`,
    `count`, `lower`, `upper`.
  - Python's negative list indexing (`ValidIndex`, `PyIndex`).
  - `list.insert` and `del`.
  - Errors are values: `IndexError`, `ValueError` and `TypeError`.
- `Normalizer` (`normalizer.dfy`): `capitalize` and `format_name`.
  - `capitalize`: title case, then the fix table in its order, then the
    first-character rule.
  - `format_name`: the author-name reversal, recursive over `and`/`with`.
- `Books` (`book.dfy`): a `Book` as a value (`BookState`), with one function per
  mutator of the class and the lemmas about them.
- `BookClass` (`book_class.dfy`): the `Book` class itself.
  - Its fields are updated in place.
  - Each method is proved to leave exactly the state its `Books` function describes.
  - `by_replace`, `capitalize` and `bracket_match` keep their loops.
- `Finalize` (`finalize.dfy`): `finish` and `check_title`.
  - The double-space collapse loop.
  - The ordered checks: PDF, `40k`, size, author reversed, brackets.
  - The rename as a gate.
- `Dupes` (`dupes.dfy`): `dupefinder` up to its popups. The output directory's listing
  is an input.
- `Commands` (`commands.dfy`): `process_txt_cmd`'s chain of tests, read into a `Command`
  in the same order.
- `Sessions` (`session.dfy`): the session around the current book.
  - The file list, the position, the done/remaining counter.
  - `move_to_next_book` with its three modes.
  - Each command and each window event applied to the session: as functions on a
    `SessionState` value, and as methods of a `Session` class proved against them.

Behaviour follows the code where the program's own description differs:

- The help text says `d-`, `d[`, `d.`, `d_`, `d(` without a digit default to the first
  segment (psg-autoname.py:488-493); for `[` and `]` it names no default. The code reads
  a missing digit as 0 and indexes `seglist[-1]`, which is the last segment, for all of
  them (`Commands.NoDigitMeansLast`, `Sessions.NoDigitRewritesLast`).
- The title-segment rule of `dupefinder` tests segment 1 for `[`, not for `]`. Its
  character filter also deletes `[` and `]`.
- `r0`, `spl0` and `]0`-style digits reach Python's negative indexing. An index before
  the start raises `IndexError`. A command that raises keeps whatever it had already
  changed, because `btngo` catches the exception without rolling anything back.
- `capitalize` is not idempotent: the fix `Et. Al.` comes before `Et Al` in the table,
  so `et ali` becomes `Et. al.i` and a second pass gives `Et. al.I`
  (`Normalizer.CapitalizeNotIdempotent`).

## Model

| member | source | states |
|---|---|---|
| `BookClass.Book.constructor` | psg-autoname.py:13-26 | a new book's fields are those of `Books.Initial` of its path |
| `Books.Initial` | psg-autoname.py:13-26 | the path is kept; an empty path gives an empty book; otherwise the name is the stem, the extension is lower-cased, the file name is stem plus extension, and there is at least one segment |
| `Books.Segments` | psg-autoname.py:23 | one segment per `" - "` piece of the stem, each stripped of whitespace, never none |
| `Books.SplitExt` | psg-autoname.py:18-20 | stem and extension put back together give the path; the extension is empty or a dot followed by no other dot; a stem of only dots has no extension |
| `Books.SplitExtJoin` | psg-autoname.py:18-20 | a stem with something besides dots plus a dotted extension splits back into that same pair |
| `Books.InitialAssembledIff` | psg-autoname.py:13-34 | a freshly read book already agrees with `reassemble_segs` exactly when no `" - "` piece of its stem has surrounding whitespace |
| `Books.Reassembled` | psg-autoname.py:31-34 | the name is the segments joined by `" - "` and the file name is the name plus the extension; segments, extension and path unchanged |
| `Books.ReassembledIdempotent` | psg-autoname.py:31-34 | reassembling changes nothing exactly when the book is already assembled |
| `BookClass.Book.Reassemble` | psg-autoname.py:31-34 | the fields become `Books.Reassembled` of the old ones |
| `Books.EditSeg` | psg-autoname.py:36-38 | raises `IndexError` exactly when the index is outside Python's range, changing nothing; otherwise only that segment takes the text and the book is reassembled |
| `Books.EditSegAt` | psg-autoname.py:36-38 | a non-negative index in range edits that very position |
| `BookClass.Book.EditSeg` | psg-autoname.py:36-38 | the new fields and the outcome are those of `Books.EditSeg` |
| `Books.SplitSeg` | psg-autoname.py:40-56 | a number at or past the end or an empty delimiter changes nothing; it raises `IndexError` exactly for a number before `-len`, changing nothing; any other number, negative ones included, succeeds with one segment more, the extension kept and the book reassembled |
| `Books.SplitSegGrows` | psg-autoname.py:50-54 | splitting segment `i` at a delimiter adds exactly one segment: the stripped text before the delimiter at `i`, then the delimiter and the rest; before, delimiter and rest rebuild the old segment; all other segments keep their order |
| `Books.SplitSegAbsent` | psg-autoname.py:51-53 | a delimiter the segment lacks leaves its stripped copy followed by an empty segment |
| `Books.SplitSegMinusOne` | psg-autoname.py:51-53 | segment `-1` (from `spl0`) inserts the stripped text before the last segment and overwrites the first segment with the delimiter and the rest |
| `BookClass.Book.SplitSeg` | psg-autoname.py:40-56 | the new fields and the outcome are those of `Books.SplitSeg` |
| `Books.SwapSegs` | psg-autoname.py:72-79 | positions past the length change nothing; it raises `IndexError` exactly when a position within the length falls before Python's range, changing nothing; the segments are always a permutation of the old ones, with the extension kept; a swap that goes through reassembles the book, a 0 reaching the last segment included |
| `Books.SwapSegsExchanges` | psg-autoname.py:74-77 | for positions within the length, exactly the two segments trade places and the book is reassembled |
| `Books.SwapSegsTwice` | psg-autoname.py:75 | swapping the same two positions again restores the segment list |
| `BookClass.Book.SwapSegs` | psg-autoname.py:72-79 | the new fields and the outcome are those of `Books.SwapSegs` |
| `Books.DelSeg` | psg-autoname.py:107-117 | the last remaining segment is never deleted and a position past the end changes nothing |
| `Books.DelSegRemoves` | psg-autoname.py:112-115 | with two or more segments, position `n` removes exactly segment `n-1`, the rest in order, and reassembles |
| `BookClass.Book.DelSeg` | psg-autoname.py:107-117 | the new fields and the outcome are those of `Books.DelSeg` |
| `Books.NewSegment` | psg-autoname.py:84-98 | handed-in text is used as given; typed text is cut down to the allowed characters and is no longer than what was typed |
| `Books.NewSegmentTyped` | psg-autoname.py:82-96 | typed text passes unchanged exactly when every character is allowed |
| `Books.NewSegmentChars` | psg-autoname.py:96 | a character reaches the new segment exactly when it was typed and is allowed |
| `Books.AddSeg` | psg-autoname.py:99-105 | empty text changes nothing; otherwise there is exactly one more segment |
| `Books.AddSegPlaces` | psg-autoname.py:99-105 | when `capitalize` goes through, the capitalized new text sits last (stripped) with no position, or at the position, with every old segment capitalized around it in order, and the book is reassembled |
| `BookClass.Book.AddSeg` | psg-autoname.py:81-105 | the new fields and the outcome are those of `Books.AddSeg` of the new segment text |
| `Books.CutOf` | psg-autoname.py:122-126 | a segment is cut exactly when, with ` By ` read as ` by `, it holds ` by `; otherwise it is kept as it was |
| `BookClass.CutSegment` | psg-autoname.py:122-126 | the loop body's decision for one segment is `Books.CutOf` of it |
| `Books.ByReplace` | psg-autoname.py:119-127 | the result is assembled, keeps the extension, and its segments are `Books.ByReplaced` of the old ones |
| `Books.ByReplaced` | psg-autoname.py:121-126 | the list grows by one for every segment that was cut |
| `Books.BeforeByHasNoBy` | psg-autoname.py:122-125 | the text left in place holds no ` by ` and no ` By `, so the loop passing over it again changes nothing |
| `Books.NoCapitalByBeforeFirst` | psg-autoname.py:122-124 | before the first ` by ` of the fixed segment there is no ` By ` |
| `Books.ByReplaceWithoutBy` | psg-autoname.py:119-127 | a book without ` by `/` By ` keeps its segments |
| `Books.ByReplaceMovedFirst` | psg-autoname.py:126 | the moved texts open the list, the last one moved first |
| `Books.ByReplaceCutAt` | psg-autoname.py:125 | a segment that was cut sits behind the moved texts, in its old order, holding the stripped text before ` by ` |
| `Books.ByReplaceKeptAt` | psg-autoname.py:121-124 | every other segment sits behind the moved texts, in its old order, unchanged |
| `Books.MovedTexts` | psg-autoname.py:126 | every moved text is the stripped text after ` by ` of some segment |
| `BookClass.Book.ByReplace` | psg-autoname.py:119-127 | the loop over the growing list leaves the fields of `Books.ByReplace` |
| `Normalizer.Title` | psg-autoname.py:320 | `title()` keeps the length |
| `Normalizer.TitleShape` | psg-autoname.py:320 | a letter after a non-letter (or first) is upper case, a letter after a letter is lower case, anything else is unchanged |
| `Normalizer.TitleIdempotent` | psg-autoname.py:320 | title-casing twice is title-casing once |
| `Normalizer.ApplyFixesEmpty` | psg-autoname.py:322-324 | the fix table leaves an empty segment empty |
| `BookClass.FixSegment` | psg-autoname.py:322-324 | the inner loop replaces the table's pairs one after the other, in table order |
| `Normalizer.FirstCharRule` | psg-autoname.py:326-332 | raises `IndexError` exactly on a lone `[` or `(`; otherwise a leading bracket keeps its place and the next character is raised, or the first character is raised unless the segment says `translated by` |
| `Normalizer.CapSegEmpty` | psg-autoname.py:327 | an empty segment stays empty |
| `Normalizer.CapitalizeFrom` | psg-autoname.py:319-332 | the pass from segment `i` keeps the length and the segments before `i` |
| `Normalizer.CapitalizeFromStep` | psg-autoname.py:319-332 | a segment that capitalizes is rewritten and the pass goes on |
| `Normalizer.CapitalizeFromStop` | psg-autoname.py:328-329 | a segment that raises ends the pass holding its title-cased, fixed text |
| `Normalizer.CapitalizeFromSuccess` | psg-autoname.py:319-332 | the pass from `i` succeeds exactly when every later segment capitalizes, and then each is its capitalized form |
| `Normalizer.CapitalizeFromFailure` | psg-autoname.py:319-332 | a failed pass stopped at some segment: those before it capitalized, it fixed, those after untouched |
| `Normalizer.CapitalizeSpec` | psg-autoname.py:319-333 | `capitalize` keeps the count; it succeeds exactly when every segment capitalizes, each then in capitalized form; otherwise it stops at the first lone bracket |
| `Books.CapitalizeStep` | psg-autoname.py:301-333 | success reassembles the book; a raise leaves name and file name as they were |
| `BookClass.Book.Capitalize` | psg-autoname.py:301-333 | the loop leaves the fields and outcome of `Books.CapitalizeStep` |
| `Normalizer.FixedFirstPass` | psg-autoname.py:302-321 | `et ali`, title-cased to `Et Ali` and put through the fix table, becomes `et. al.i` |
| `Normalizer.FixedSecondPass` | psg-autoname.py:302-321 | `Et. al.i`, title-cased to `Et. Al.I` and put through the fix table, becomes `et. al.I` |
| `Normalizer.CapitalizeNotIdempotent` | psg-autoname.py:301-333 | `capitalize` takes `et ali` to `Et. al.i` and that to `Et. al.I`, so a second pass changes the result |
| `Normalizer.Ampersands` | psg-autoname.py:261-262 | no `&` is left, and a name without one is unchanged |
| `Normalizer.NameTokens` | psg-autoname.py:263-269 | the tokens kept are a prefix of the space-split name |
| `Normalizer.AndLoc` | psg-autoname.py:270-275 | the conjunction position is the first `With` if any, else the first `with`, else the first `and`, else 0 |
| `Normalizer.Dot` | psg-autoname.py:278 | the token is a prefix of the result, which is at most one character longer; it changes exactly for a one-letter token, and then gains a full stop |
| `Normalizer.Dotted` | psg-autoname.py:278 | every token gets `Dot` in its place |
| `Normalizer.SurnameFirst` | psg-autoname.py:276-279 | raises exactly on no tokens; otherwise the last token, a comma, then the others in order |
| `Normalizer.AddJunior` | psg-autoname.py:286-289 | the result is four characters longer and taking ` Jr.` out again gives the input back; with a comma, ` Jr.` ends right where the result's first comma stands; without one, it comes before the last character |
| `Normalizer.BothNames` | psg-autoname.py:281-282 | succeeds exactly when both halves do; the left half's error wins, as the left call runs first; a success starts with the left name, ends with the right one, and is ` and ` longer than the two |
| `Normalizer.FormatNameAmpersand` | psg-autoname.py:261-262 | `&` and `and` reverse alike |
| `Normalizer.FormatNamePlain` | psg-autoname.py:276-282 | a name without a dividing conjunction is reversed surname first; one with it is reversed on both sides and joined |
| `Normalizer.FormatNameEditor` | psg-autoname.py:264-266 | a trailing `(ed)`/`(ed.)` is removed and `(ed.)` re-added after the reversed name |
| `Normalizer.FormatNameJunior` | psg-autoname.py:267-269 | a trailing `Jr`/`Jr.` is removed and `Jr.` re-inserted before the first comma |
| `Normalizer.FormatNameOnlySuffix` | psg-autoname.py:264-269 | a name that is only a suffix token raises `IndexError` |
| `Normalizer.FormatNameSingleExample` | psg-autoname.py:276-279 | `John Smith` becomes `Smith, John` |
| `Normalizer.FormatNameInitialExample` | psg-autoname.py:278 | `J Smith` becomes `Smith, J.` |
| `Normalizer.FormatNameEditorExample` | psg-autoname.py:284-285 | `John Smith (ed)` becomes `Smith, John (ed.)` |
| `Normalizer.FormatNameJuniorExample` | psg-autoname.py:286-289 | `John Smith Jr` becomes `Smith Jr., John` |
| `Normalizer.FormatNameAndExample` | psg-autoname.py:280-282 | `John Smith and Jane Doe` becomes `Smith, John and Doe, Jane` |
| `Normalizer.FormatNameAmpersandExample` | psg-autoname.py:261-282 | `John Smith & Jane Doe` becomes `Smith, John and Doe, Jane` |
| `Books.ReverseSeg` | psg-autoname.py:292-299 | a number past the end changes nothing; a raise changes nothing; success puts `format_name` of the segment in its place and reassembles |
| `BookClass.Book.ReverseSeg` | psg-autoname.py:292-299 | the new fields and the outcome are those of `Books.ReverseSeg` |
| `Books.FirstHolding` | psg-autoname.py:337-342 | the first segment holding the character, or none when no segment does |
| `Books.BracketMatch` | psg-autoname.py:335-343 | the segment count and extension are kept |
| `Books.BracketMatchSpec` | psg-autoname.py:335-343 | at most one `]` changes nothing; otherwise the first segment with a `]` loses every `]`, all others are unchanged, and the book is reassembled |
| `Books.BracketMatchDrops` | psg-autoname.py:335-343 | a `bracket_match` that acts leaves fewer segments holding a `]` |
| `Books.Displayed` | psg-autoname.py:335-344 | filling the boxes keeps the count, extension and path; afterwards no shown segment holds a `]` or the name holds at most one; a book with neither is unchanged; every segment is kept or has lost its `]`, and a changed book is reassembled |
| `Books.DisplayedIdempotent` | psg-autoname.py:410-414 | showing a book twice is showing it once |
| `Books.DisplayedOnce` | psg-autoname.py:335-344 | when one `bracket_match` leaves at most one `]`, showing the book is that one `bracket_match` |
| `Books.DisplayedExample` | psg-autoname.py:428-438 | `A`, `[B]`, `C]` shows as `A`, `[B`, `C]` |
| `BookClass.Book.BracketMatch` | psg-autoname.py:335-343 | the loop leaves the fields of `Books.BracketMatch` |
| `Finalize.Collapse` | psg-autoname.py:146-147 | no double space is left and the text does not grow |
| `Finalize.CollapseSpaces` | psg-autoname.py:146-147 | the loop's result is `Collapse` of the path |
| `Finalize.ReplaceKeepsNonSpaces` | psg-autoname.py:147 | one replace pass keeps every character but spaces, in order |
| `Finalize.CollapseKeepsNonSpaces` | psg-autoname.py:146-147 | collapsing keeps every character but spaces, in order |
| `Finalize.CollapseFixedIff` | psg-autoname.py:146 | collapsing changes nothing exactly when there is no double space, and collapsing twice is collapsing once |
| `Finalize.CheckTitle` | psg-autoname.py:129-141 | passes exactly when the popup, if shown, was not answered `No` and the brackets balance |
| `Finalize.FinishGate` | psg-autoname.py:143-163 | a rename goes to the collapsed target path, which has no double space |
| `Finalize.Finish` | psg-autoname.py:143-163 | the method's checks end where `FinishGate` says |
| `Finalize.FinishGateRenameIff` | psg-autoname.py:143-163 | the rename is reached exactly when a moved book is no PDF and has a known size of at most 5000 KB, the path has no `40k`/`40K`, there is a segment, the popup was not answered `No`, and the brackets balance |
| `Finalize.FinishInPlaceIgnoresSize` | psg-autoname.py:153 | renaming in place never looks at the size |
| `Finalize.FinishIgnoresAnswerWhenReversed` | psg-autoname.py:132-136 | with a comma or `Various` in the author segment the popup answer does not matter |
| `Finalize.FinishRaisesTypeError` | psg-autoname.py:149-153 | `TypeError` comes exactly from an unreadable size on a move that got past the PDF and `40k` checks |
| `Finalize.Finished` | psg-autoname.py:156-163 | `finish` is true exactly when the rename was reached and succeeded, and raises exactly when a check raised |
| `Dupes.Filter` | psg-autoname.py:208-209 | keeps exactly the elements passing the test and is no longer than the list |
| `Dupes.FilterIsSublist` | psg-autoname.py:217 | a filtered list keeps the original order |
| `Dupes.FilterAll` | psg-autoname.py:220 | a test everything passes keeps the whole list |
| `Dupes.Booklist` | psg-autoname.py:186-189 | no more books than files in the listing |
| `Dupes.BooklistMember` | psg-autoname.py:186-189 | a name is a book exactly when the listing holds it with `.rar` and that file name mentions the author word, case aside |
| `Dupes.TitleIndex` | psg-autoname.py:194-206 | the title segment index is at least 1 and at most the segment count; it is 1 for two segments or fewer, a segment 1 without `[`, or a series `A Very Short Introduction`; otherwise it is the index after the first segment holding `]`, or the last index when none does |
| `Dupes.Keyword` | psg-autoname.py:208-214 | raises `IndexError` exactly when the title segment has no words; otherwise the keyword is the first word longer than two characters whose capitalized form is not an ignored word, with the junk characters removed, or the first word so cut when there is none |
| `Dupes.Matching` | psg-autoname.py:217 | the matches are exactly the books mentioning the keyword, case aside, in order |
| `Dupes.DupeFinder` | psg-autoname.py:180-223 | raises `IndexError` exactly when there are no segments, the author segment has no words, or the title segment is missing or has none; the author word is the first word of segment 0 cut to the kept characters; one segment gives no keyword, more give the `Keyword` of the title segment when that is not empty; with no keyword the matches are the whole book list, with one the books mentioning it |
| `Dupes.DupeFinderTwoSegments` | psg-autoname.py:180-223 | for an author and a title segment each with words, the search runs on the author word and the title keyword |
| `Dupes.DupeFinderExample` | psg-autoname.py:180-223 | `Smith, John` / `Other` against `Smith, John - Other Book.rar` searches `Smith` and `Other` and finds that book |
| `Dupes.DupeFinderOneSegment` | psg-autoname.py:221-223 | a one-segment book is searched on the author word alone |
| `Dupes.DupeFinderMatches` | psg-autoname.py:185-223 | a name matches exactly when it is a `.rar` of the listing naming the author and, if a keyword was used, naming the keyword; matches keep the listing's order |
| `Dupes.DupeFinderPastEnd` | psg-autoname.py:201-208 | with the first `]` in the last segment the title index runs past the end and the search raises `IndexError` |
| `Commands.DigitOf` | psg-autoname.py:581 | `int()` of one character succeeds exactly on a digit, giving its value |
| `Commands.DigitAt` | psg-autoname.py:618 | raises `ValueError` exactly when the character is present and not a digit; a result is a digit value 0-9 whose character is the one read; a missing character reads as 0 |
| `Commands.ScrubOf` | psg-autoname.py:632-653 | the character after `d` names a scrub kind exactly when it is one of `-[._(` |
| `Commands.Parse` | psg-autoname.py:559-655 | the only error is `ValueError`, from a digit `int()` refuses |
| `Commands.ParseRender` | psg-autoname.py:559-655 | every command with digits in range is read back from its shortest text |
| `Commands.ParseWellFormed` | psg-autoname.py:559-655 | whatever parses is a command with in-range numbers or is unrecognised |
| `Commands.RarBeforeReverse` | psg-autoname.py:572-578 | `rar` is caught before the `r` test |
| `Commands.ReverseReadsOneDigit` | psg-autoname.py:578-581 | any other text starting with `r` reverses segment (second character − 1) |
| `Commands.CapitalizeTakesAllC` | psg-autoname.py:589-591 | every text starting with `c` capitalizes |
| `Commands.SplitReadsOneDigit` | psg-autoname.py:592-593 | `spl` followed by anything but one character splits segment 0 |
| `Commands.DeleteBeforeScrub` | psg-autoname.py:628-635 | `ddd` deletes the book and `d` alone is unrecognised |
| `Commands.NoDigitMeansLast` | psg-autoname.py:617-653 | `[`, `]` and `d-`, `d[`, `d.`, `d_`, `d(` without a digit name 0 |
| `Sessions.UpdateDone` | psg-autoname.py:422-426 | done plus remaining never changes and done goes up by one exactly when asked |
| `Sessions.Session.UpdateDoneCount` | psg-autoname.py:422-426 | the session becomes `UpdateDone` of the old one |
| `Sessions.Leaving` | psg-autoname.py:531-539 | only the list and the position change |
| `Sessions.Arrive` | psg-autoname.py:543-550 | the list and counters are kept; on success there is a book exactly when the list is not empty |
| `Sessions.ArrivePlaced` | psg-autoname.py:543-550 | a position not before the start is clamped to the last entry and the book is read from that entry |
| `Sessions.MoveToNext` | psg-autoname.py:527-550 | counters and running state are kept; on success there is a book exactly when the list is not empty |
| `Sessions.MoveToNextPlaced` | psg-autoname.py:527-550 | from a consistent session, moving on never raises and lands consistent, with the book read from the new entry |
| `Sessions.MoveDeleteSpec` | psg-autoname.py:531-532 | deleting removes exactly the current entry and keeps the position, moving back one from the end |
| `Sessions.MoveRetainSpec` | psg-autoname.py:533-535 | retaining renames the entry to the book's new file name and advances, staying on the last entry |
| `Sessions.MoveRevertSpec` | psg-autoname.py:536-539 | reverting keeps the list and advances, reading the last entry again at the end |
| `Sessions.Session.MoveToNextBook` | psg-autoname.py:527-550 | the session and the outcome are those of `MoveToNext` |
| `Sessions.Session.ReadInAtIndex` | psg-autoname.py:543-550 | the session and the outcome are those of `Arrive` |
| `Sessions.ScrubTextSpec` | psg-autoname.py:632-653 | no scrubbed character is left; `d[` deletes both brackets and keeps everything else; the others put a space in place of each scrubbed character |
| `Sessions.RewriteSeg` | psg-autoname.py:614-653 | raises exactly for an index outside Python's range, changing nothing; otherwise only the target segment is rewritten and the book reassembled |
| `Sessions.NoDigitRewritesLast` | psg-autoname.py:617-653 | without a digit, `[`, `]` and the `d` family rewrite the last segment |
| `Sessions.EditBook` | psg-autoname.py:570-624 | no editing command changes the file the book was read from; `as` with its prompt closed, and a split of an existing segment with its prompt closed, raise `TypeError` and change nothing; an add otherwise is `add_seg` with the handed or typed text; a split past the last segment changes nothing |
| `Sessions.ApplyKeepsPlaced` | psg-autoname.py:559-655 | every command keeps the session consistent: the position on an entry and the book read from it, or no book and no entries |
| `Sessions.RunKeepsPlaced` | psg-autoname.py:668-673 | every typed command, parsed or not, keeps the session consistent |
| `Sessions.ApplyCounts` | psg-autoname.py:597-631 | done plus remaining never changes; done goes up by at most one, and only for `fff` or `ddd` |
| `Sessions.FinishMoveSpec` | psg-autoname.py:597-601 | a passing `fff` whose rename succeeds removes the entry and counts the book done |
| `Sessions.UndoRereads` | psg-autoname.py:625-627 | `undo` reads the selected entry in again |
| `Sessions.BadDigitChangesNothing` | psg-autoname.py:668-673 | a command that fails to parse changes nothing and reports `ValueError` |
| `Sessions.EditedSegments` | psg-autoname.py:715-722 | the number of segments is kept |
| `Sessions.EditBoxes` | psg-autoname.py:714-724 | every segment with a box takes the box's text cut down to the accepted characters, the rest stay; the book is unchanged or reassembled |
| `Sessions.EditBoxesIdempotent` | psg-autoname.py:714-724 | reading the same boxes twice changes nothing the second time |
| `Sessions.EditBoxesEcho` | psg-autoname.py:720-722 | boxes showing the segments, in accepted characters only, change nothing |
| `Sessions.Shown` | psg-autoname.py:729-746 | only the book changes, and it stays on the same file; afterwards no shown segment holds a `]` or the name holds at most one; a book needing nothing is unchanged; consistency is kept |
| `Sessions.ShownIdempotent` | psg-autoname.py:729-746 | showing the session twice is showing it once |
| `Sessions.CommandEvent` | psg-autoname.py:668-727 | the outcome is the command's; a consistent session stays consistent; afterwards no shown segment holds a `]` or the name holds at most one; with no book nothing happens; text that fails to parse reports `ValueError` and only the display acts |
| `Sessions.CommandEventPlaced` | psg-autoname.py:668-727 | the command button keeps the session consistent |
| `Sessions.BoxesEvent` | psg-autoname.py:714-727 | with the window's five boxes, a text-box edit changes only the book and keeps the session consistent |
| `Sessions.DelSegEvent` | psg-autoname.py:709-727 | a delete-segment button changes only the book and keeps the session consistent |
| `Sessions.SelectEvent` | psg-autoname.py:664-667 | a pick from the file list moves the position to it and reads its file, keeping the session consistent |
| `Sessions.Session.FinishBook` | psg-autoname.py:597-605 | the session and outcome are those of `FinishTurn` |
| `Sessions.Session.RunCommand` | psg-autoname.py:668-673 | the session and outcome are those of `Run` |
| `Sessions.Session.CommandButton` | psg-autoname.py:668-727 | the session and outcome are those of `CommandEvent` |
| `Sessions.Session.Display` | psg-autoname.py:729-746 | the recursion through `bracket_match` leaves the session of `Shown` |
| `Sessions.Session.SplitSegment` | psg-autoname.py:40-57 | the book and outcome are those of `EditBook` for the split |
| `Sessions.Session.Apply` | psg-autoname.py:559-655 | the session and outcome are those of `ApplyCommand` |
| `Sessions.Session.EditCurrentBook` | psg-autoname.py:570-624 | the book and outcome are those of `EditBook` |
| `Sessions.Session.EditSegments` | psg-autoname.py:570-596 | the book and outcome are those of `EditBook` |
| `Sessions.Session.RewriteSegment` | psg-autoname.py:614-653 | the book and outcome are those of `RewriteSeg` |
| `Sessions.Session.EditTextBoxes` | psg-autoname.py:714-727 | reading the boxes back, then showing the book, leaves the session of `BoxesEvent` |
| `Sessions.Session.ReadBoxes` | psg-autoname.py:714-724 | the loop of `edit_seg` calls leaves the book of `EditBoxes` |
| `Sessions.Session.DeleteSegment` | psg-autoname.py:709-711 | the session and outcome are those of `DelSegEvent` |
| `Sessions.Session.Select` | psg-autoname.py:664-667 | the session becomes `SelectEvent` of the old one |

## Left out

- The PySimpleGUI window, its layout, status messages and popup windows. A popup's
  answer, the split and add prompts' text (`None` when the prompt window is closed),
  the text boxes' contents and the file list selection are inputs.
- File-system effects are inputs to the model: `os.rename` and `os.remove` succeeding,
  the file size (`get_size_int`, in KB, `None` when unreadable) and the output
  directory's listing. `get_size_str` and the size shown in the window are not modelled.
- Directories: a book's path is its file name relative to the scan directory, so
  `os.path.dirname`/`basename` are not modelled. The scan and output directories are
  plain string inputs to `finish`.
- `rar` and `move_to_specified_book`: compressing runs WinRAR through a subprocess. The
  command is recognised and changes nothing in the model.
- `o` (`open_bookfile`) and `h` (`show_help`) open a file or a window. They are
  recognised and change nothing.
- `q` closes the window and exits. The model records it as the session no longer
  running.
- `gen_booklist`, the file-list sort options and the large-file checkbox
  (`update_filelist`), the config file, the preloader thread and `main` are outside the
  editing engine. The file list is the session's starting list, so the display that
  `main` and `update_filelist` run is not modelled.
- `display_currbook` is modelled only for what it does to the book: filling the boxes
  runs `bracket_match` (`Books.Displayed`, applied after every event by
  `Sessions.Shown`). Its window updates, and the file-list refresh when the size
  cannot be read, are not modelled.
- The toolbar buttons that repeat a command (`btnrev`, `Find Dupes`, `Open`, `Undo`,
  `Finish/Move`, `Finish`, `Delete`) are not modelled separately. They are the same
  operations, but an exception from them is not caught.
- Letters and digits are ASCII. Python's Unicode-aware `title`, `upper`, `lower` and
  `isdigit` are modelled on ASCII letters and ASCII digits. `strip` and `split()` use
  Python's full `str.isspace` set, non-ASCII spaces included. The fix table's non-ASCII
  keys are kept as characters.
- `Sessions.EditBook`: states the kept source file, the closed-prompt errors, adds and
  far splits. What the other commands do to the book is stated by the `Books` lemmas and
  `Sessions.RewriteSeg` it is built from.
