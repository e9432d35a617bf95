/** `dupefinder`: the keyword search for books already in the output directory. The
    directory listing is an input; the search reads only the book's segments. */
module Dupes {
  import opened Text
  import Books

  /** Title words too common to search on, compared after `capitalize()`. */
  const IgnoredWords: seq<string> := ["The", "And", "To", "Of", "By", "With", "We", "As"]

  /** The characters `str.maketrans('', '', ',.&()-[]0123456789')` deletes. */
  const KeywordJunk: set<char> :=
    {',', '.', '&', '(', ')', '-', '[', ']', '0', '1', '2', '3', '4', '5', '6', '7', '8', '9'}

  // ---------------------------------------------------------------------------
  // Filtering lists

  /** The elements of `xs` that satisfy `p`, in their order. */
  function Filter<T(==,!new)>(p: T -> bool, xs: seq<T>): (r: seq<T>)
    ensures |r| <= |xs|
    ensures forall x :: x in r <==> x in xs && p(x)
  {
    if xs == [] then []
    else (if p(xs[0]) then [xs[0]] else []) + Filter(p, xs[1..])
  }

  /** `a` is `b` with some elements left out, the rest in their order. */
  predicate IsSublist<T(==)>(a: seq<T>, b: seq<T>)
    decreases |b|
  {
    if a == [] then true
    else if b == [] then false
    else (a[0] == b[0] && IsSublist(a[1..], b[1..])) || IsSublist(a, b[1..])
  }

  lemma {:induction false} FilterIsSublist<T(!new)>(p: T -> bool, xs: seq<T>)
    ensures IsSublist(Filter(p, xs), xs)
    decreases |xs|
  {
    if xs != [] {
      FilterIsSublist(p, xs[1..]);
      var r := Filter(p, xs);
      if p(xs[0]) {
        assert r[0] == xs[0] && r[1..] == Filter(p, xs[1..]);
      } else {
        assert r == Filter(p, xs[1..]);
      }
    }
  }

  /** A filter that every element passes keeps the whole list. */
  lemma {:induction false} FilterAll<T(!new)>(p: T -> bool, xs: seq<T>)
    requires forall k :: 0 <= k < |xs| ==> p(xs[k])
    ensures Filter(p, xs) == xs
    decreases |xs|
  {
    if xs != [] {
      FilterAll(p, xs[1..]);
      assert xs == [xs[0]] + xs[1..];
    }
  }

  /** The head of a non-empty filter is the first element that passes. */
  lemma {:induction false} FilterHead<T(!new)>(p: T -> bool, xs: seq<T>)
    requires Filter(p, xs) != []
    ensures exists j ::
      && 0 <= j < |xs| && Filter(p, xs)[0] == xs[j] && p(xs[j])
      && forall i :: 0 <= i < j ==> !p(xs[i])
    decreases |xs|
  {
    if !p(xs[0]) {
      FilterHead(p, xs[1..]);
      var j :|
        && 0 <= j < |xs[1..]| && Filter(p, xs[1..])[0] == xs[1..][j] && p(xs[1..][j])
        && forall i :: 0 <= i < j ==> !p(xs[1..][i]);
      assert forall i :: 0 <= i < j + 1 ==> !p(xs[i]) by {
        forall i | 0 <= i < j + 1
          ensures !p(xs[i])
        {
          if i > 0 {
            assert xs[i] == xs[1..][i - 1];
          }
        }
      }
      assert Filter(p, xs)[0] == xs[j + 1];
    }
  }

  // ---------------------------------------------------------------------------
  // The book list

  /** The `.rar` files of the listing whose lower-cased names contain the lower-cased
      author word, each without its last four characters. */
  function Booklist(listing: seq<string>, auth: string): (r: seq<string>)
    ensures |r| <= |listing|
  {
    if listing == [] then []
    else
      var x := listing[0];
      (if EndsWith(x, ".rar") && Contains(Lower(x), Lower(auth)) then [x[..|x| - 4]] else [])
        + Booklist(listing[1..], auth)
  }

  /** A name is in the book list exactly when the listing holds it with `.rar` added
      and that file name mentions the author word. */
  lemma {:induction false} BooklistMember(listing: seq<string>, auth: string, b: string)
    ensures b in Booklist(listing, auth) <==> b + ".rar" in listing && Contains(Lower(b + ".rar"), Lower(auth))
    decreases |listing|
  {
    if listing != [] {
      BooklistMember(listing[1..], auth, b);
      var x := listing[0];
      if EndsWith(x, ".rar") {
        assert x == x[..|x| - 4] + ".rar";
      }
      assert listing == [x] + listing[1..];
      assert b + ".rar" == x ==> EndsWith(x, ".rar") && b == x[..|x| - 4] by {
        if b + ".rar" == x {
          assert x[|x| - 4..] == ".rar";
          assert x[..|x| - 4] == b;
        }
      }
    }
  }

  // ---------------------------------------------------------------------------
  // Choosing the keywords

  /** The segment the title keyword is taken from. It is 1 for one or two segments, a
      second segment without `[`, or a book of the "A Very Short Introduction" series;
      otherwise the segment after the first one holding `]`, or the last segment when
      none does. When `]` first occurs in the last segment the index is one past the
      end. */
  function TitleIndex(segs: seq<string>): (r: nat)
    requires |segs| > 1
    ensures 1 <= r <= |segs|
    ensures |segs| <= 2 || '[' !in segs[1] || "A Very Short Introduction" in segs ==> r == 1
    ensures |segs| > 2 && '[' in segs[1] && "A Very Short Introduction" !in segs ==>
      || (']' in segs[r - 1] && forall k :: 0 <= k < r - 1 ==> ']' !in segs[k])
      || (r == |segs| - 1 && forall k :: 0 <= k < |segs| ==> ']' !in segs[k])
  {
    if |segs| <= 2 || '[' !in segs[1] || "A Very Short Introduction" in segs then 1
    else match Books.FirstHolding(segs, ']')
      case Some(num) => num + 1
      case None => |segs| - 1
  }

  /** A title word worth searching on: longer than two characters and not a stop word. */
  predicate Significant(word: string) {
    |word| > 2 && CapitalizeWord(word) !in IgnoredWords
  }

  /** The first significant word of the title segment, or failing that its first word,
      with the junk characters removed. A segment with no words raises `IndexError`. */
  function Keyword(seg: string): (r: Result<string>)
    ensures r.Err? <==> Words(seg) == []
    ensures r.Err? ==> r.error == IndexError
    ensures r.Ok? && (exists j :: 0 <= j < |Words(seg)| && Significant(Words(seg)[j])) ==>
      exists j ::
        && 0 <= j < |Words(seg)| && Significant(Words(seg)[j])
        && (forall i :: 0 <= i < j ==> !Significant(Words(seg)[i]))
        && r.value == RemoveChars(Words(seg)[j], KeywordJunk)
    ensures r.Ok? && (forall j :: 0 <= j < |Words(seg)| ==> !Significant(Words(seg)[j])) ==>
      r.value == RemoveChars(Words(seg)[0], KeywordJunk)
  {
    var words := Words(seg);
    var significant := Filter(Significant, words);
    if significant != [] then
      FilterHead(Significant, words);
      Ok(RemoveChars(significant[0], KeywordJunk))
    else if words == [] then Err(IndexError)
    else
      assert forall j :: 0 <= j < |words| ==> !Significant(words[j]) by {
        forall j | 0 <= j < |words|
          ensures !Significant(words[j])
        {
          assert words[j] in words;
        }
      }
      Ok(RemoveChars(words[0], KeywordJunk))
  }

  /** What `dupefinder` searched on and found: `keyword` is `None` when only the author
      word was used. */
  datatype Search = Search(auth: string, keyword: Option<string>, matches: seq<string>)

  /** The names of the book list that mention the keyword, case aside. */
  function Matching(booklist: seq<string>, keyword: string): (r: seq<string>)
    ensures IsSublist(r, booklist)
    ensures forall b :: b in r <==> b in booklist && Contains(Lower(b), Lower(keyword))
  {
    FilterIsSublist(b => Contains(Lower(b), Lower(keyword)), booklist);
    Filter(b => Contains(Lower(b), Lower(keyword)), booklist)
  }

  /** `dupefinder` up to its popups. The author word is the first word of segment 0 less
      the junk characters; an empty segment list, a word-less author segment, a title
      index past the end or a word-less title segment raise `IndexError`. */
  function DupeFinder(segs: seq<string>, listing: seq<string>): (r: Result<Search>)
    ensures r.Err? <==>
      || |segs| == 0 || Words(segs[0]) == []
      || (|segs| > 1 && (TitleIndex(segs) == |segs| || Words(segs[TitleIndex(segs)]) == []))
    ensures r.Err? ==> r.error == IndexError
    ensures r.Ok? ==> r.value.auth == RemoveChars(Words(segs[0])[0], KeywordJunk)
    ensures r.Ok? && |segs| == 1 ==> r.value.keyword.None?
    ensures r.Ok? && |segs| > 1 ==>
      && TitleIndex(segs) < |segs| && Keyword(segs[TitleIndex(segs)]).Ok?
      && var kw := Keyword(segs[TitleIndex(segs)]).value;
         r.value.keyword == (if kw == "" then None else Some(kw))
    ensures r.Ok? ==> r.value.keyword.None? ==> r.value.matches == Booklist(listing, r.value.auth)
    ensures r.Ok? && r.value.keyword.Some? ==>
      && r.value.keyword.value != ""
      && r.value.matches == Matching(Booklist(listing, r.value.auth), r.value.keyword.value)
  {
    if |segs| == 0 || Words(segs[0]) == [] then Err(IndexError)
    else
      var auth := RemoveChars(Words(segs[0])[0], KeywordJunk);
      var booklist := Booklist(listing, auth);
      if |segs| > 1 then
        var t := TitleIndex(segs);
        if t >= |segs| then Err(IndexError)
        else match Keyword(segs[t])
          case Err(e) => Err(e)
          case Ok(kw) =>
            if kw != "" then Ok(Search(auth, Some(kw), Matching(booklist, kw)))
            else Ok(Search(auth, None, booklist))
      else Ok(Search(auth, None, booklist))
  }

  /** A one-segment book is searched on the author word alone. */
  lemma DupeFinderOneSegment(segs: seq<string>, listing: seq<string>)
    requires |segs| == 1 && Words(segs[0]) != []
    ensures DupeFinder(segs, listing).Ok?
    ensures DupeFinder(segs, listing).value.keyword.None?
  {
  }

  /** Every match is a `.rar` file of the listing that mentions the author word and,
      when a keyword was used, the keyword; the matches keep the listing's order. */
  lemma DupeFinderMatches(segs: seq<string>, listing: seq<string>, b: string)
    requires DupeFinder(segs, listing).Ok?
    ensures var s := DupeFinder(segs, listing).value;
      && IsSublist(s.matches, Booklist(listing, s.auth))
      && (b in s.matches <==>
            && b + ".rar" in listing && Contains(Lower(b + ".rar"), Lower(s.auth))
            && (s.keyword.Some? ==> Contains(Lower(b), Lower(s.keyword.value))))
  {
    var s := DupeFinder(segs, listing).value;
    BooklistMember(listing, s.auth, b);
    if s.keyword.None? {
      IsSublistRefl(s.matches);
    }
  }

  lemma {:induction false} IsSublistRefl<T>(a: seq<T>)
    ensures IsSublist(a, a)
    decreases |a|
  {
    if a != [] {
      IsSublistRefl(a[1..]);
    }
  }

  /** When the first `]` is in the last of three or more segments, the second holding a
      `[`, the title index runs past the end and the search raises `IndexError`. */
  lemma DupeFinderPastEnd(segs: seq<string>, listing: seq<string>)
    requires |segs| >= 3 && '[' in segs[1] && "A Very Short Introduction" !in segs
    requires forall k :: 0 <= k < |segs| - 1 ==> ']' !in segs[k]
    requires ']' in segs[|segs| - 1] && Words(segs[0]) != []
    ensures DupeFinder(segs, listing) == Err(IndexError)
  {
    assert Books.FirstHolding(segs, ']') == Some(|segs| - 1);
    assert TitleIndex(segs) == |segs|;
  }

  // A worked example, stated on variables bound to its strings so that each step is
  // evaluated once.

  lemma ExampleAuthorWords(seg: string)
    requires seg == "Smith, John"
    ensures Words(seg) == ["Smith,", "John"]
  {
    assert seg == "Smith," + " " + "John";
    TwoWords("Smith,", "John");
  }

  lemma ExampleAuthorWord(w: string)
    requires w == "Smith,"
    ensures RemoveChars(w, KeywordJunk) == "Smith"
  {
    RemoveCharsOfPrefix(w, KeywordJunk, 5);
  }

  lemma ExampleBooklist(listing: seq<string>, auth: string)
    requires listing == ["Smith, John - Other Book.rar"] && auth == "Smith"
    ensures Booklist(listing, auth) == ["Smith, John - Other Book"]
  {
    var x := listing[0];
    assert EndsWith(x, ".rar");
    assert OccursAt(x, auth, 0);
    LowerOccurs(x, auth, 0);
    assert x[..|x| - 4] == "Smith, John - Other Book";
    assert listing[1..] == [];
  }

  lemma ExampleTitleWords(seg: string)
    requires seg == "Other"
    ensures Words(seg) == [seg]
  {
    OneWord(seg);
  }

  lemma ExampleTitleSignificant(seg: string)
    requires seg == "Other"
    ensures Significant(seg)
  {
    assert Lower("ther") == "ther";
    assert CapitalizeWord(seg) == seg;
  }

  lemma ExampleTitleClean(seg: string)
    requires seg == "Other"
    ensures RemoveChars(seg, KeywordJunk) == seg
  {
    RemoveCharsOfPrefix(seg, KeywordJunk, 5);
  }

  /** A title segment that is one significant word free of junk is its own keyword. */
  lemma KeywordOfPlainWord(seg: string)
    requires Words(seg) == [seg] && Significant(seg) && RemoveChars(seg, KeywordJunk) == seg
    ensures Keyword(seg) == Ok(seg)
  {
    assert Filter(Significant, [seg]) == [seg];
  }

  lemma ExampleMatching(booklist: seq<string>, keyword: string)
    requires booklist == ["Smith, John - Other Book"] && keyword == "Other"
    ensures Matching(booklist, keyword) == booklist
  {
    var b := booklist[0];
    assert OccursAt(b, keyword, 14);
    LowerOccurs(b, keyword, 14);
    FilterAll(b => Contains(Lower(b), Lower(keyword)), booklist);
  }

  /** A two-segment book is searched on its author word and the keyword of its second
      segment. */
  lemma DupeFinderTwoSegments(segs: seq<string>, listing: seq<string>, auth: string, kw: string)
    requires |segs| == 2 && Words(segs[0]) != [] && RemoveChars(Words(segs[0])[0], KeywordJunk) == auth
    requires Keyword(segs[1]) == Ok(kw) && kw != ""
    ensures DupeFinder(segs, listing) == Ok(Search(auth, Some(kw), Matching(Booklist(listing, auth), kw)))
  {
  }

  /** A listing holding `Smith, John - Other Book.rar` and a book whose segments are
      `Smith, John` and `Other` are searched on `Smith` and `Other`, and that file is the
      one match. */
  lemma DupeFinderExample(segs: seq<string>, listing: seq<string>)
    requires segs == ["Smith, John", "Other"] && listing == ["Smith, John - Other Book.rar"]
    ensures DupeFinder(segs, listing) == Ok(Search("Smith", Some("Other"), ["Smith, John - Other Book"]))
  {
    ExampleAuthorWords(segs[0]);
    ExampleAuthorWord(Words(segs[0])[0]);
    ExampleTitleWords(segs[1]);
    ExampleTitleSignificant(segs[1]);
    ExampleTitleClean(segs[1]);
    KeywordOfPlainWord(segs[1]);
    DupeFinderTwoSegments(segs, listing, "Smith", "Other");
    ExampleBooklist(listing, "Smith");
    ExampleMatching(["Smith, John - Other Book"], "Other");
  }
}
