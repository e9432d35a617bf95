/** The `Book` object itself: its segment list and names are fields the editing
    methods update in place, each method proved to leave the state its value-level
    counterpart in `Books` describes. */
module BookClass {
  import opened Text
  import opened Normalizer
  import Books

  class Book {
    var seglist: seq<string>
    var name: string
    var ext: string
    var filename: string
    var filepath: string

    /** The fields as a value. */
    function State(): Books.BookState
      reads this
    {
      Books.BookState(seglist, name, ext, filename, filepath)
    }

    /** `Book(filepath)`: the stem cut at " - " and each piece stripped; the name
        keeps the stem as found. An empty path leaves everything empty. */
    constructor (filepath: string)
      ensures State() == Books.Initial(filepath)
    {
      this.filepath := filepath;
      if filepath == "" {
        name, ext, filename, seglist := "", "", "", [];
      } else {
        var (stem, extension) := Books.SplitExt(filepath);
        name := stem;
        ext := Lower(extension);
        filename := stem + Lower(extension);
        seglist := Books.Segments(stem);
      }
    }

    /** `reassemble_segs`. */
    method Reassemble()
      modifies this
      ensures State() == Books.Reassembled(old(State()))
    {
      name := Join(Books.SegSep, seglist);
      filename := name + ext;
    }

    /** `edit_seg`. */
    method EditSeg(segnum: int, text: string) returns (o: Outcome)
      modifies this
      ensures Books.Step(State(), o) == Books.EditSeg(old(State()), segnum, text)
    {
      if !ValidIndex(segnum, |seglist|) {
        return Failure(IndexError);
      }
      seglist := seglist[PyIndex(segnum, |seglist|) := text];
      Reassemble();
      o := Success;
    }

    /** `split_seg`, the delimiter being what was typed into its prompt. */
    method SplitSeg(segnum: int, delim: string) returns (o: Outcome)
      modifies this
      ensures Books.Step(State(), o) == Books.SplitSeg(old(State()), segnum, delim)
    {
      var n := |seglist|;
      if segnum < n && delim != "" {
        if segnum < -n {
          return Failure(IndexError);
        }
        var (before, spl, after) := Partition(seglist[PyIndex(segnum, n)], delim);
        seglist := InsertAt(seglist, InsertPos(segnum, n), Strip(before));
        seglist := seglist[PyIndex(segnum + 1, n + 1) := spl + after];
        Reassemble();
      }
      o := Success;
    }

    /** `swap_segs(x, y)`: both sides are read before either is written, so a bad
        index raises before anything changes. */
    method SwapSegs(x: int, y: int) returns (o: Outcome)
      modifies this
      ensures Books.Step(State(), o) == Books.SwapSegs(old(State()), x, y)
    {
      var n := |seglist|;
      if x <= n && y <= n {
        if !ValidIndex(x - 1, n) || !ValidIndex(y - 1, n) {
          return Failure(IndexError);
        }
        var i, j := PyIndex(x - 1, n), PyIndex(y - 1, n);
        var a, b := seglist[j], seglist[i];
        seglist := seglist[i := a];
        seglist := seglist[j := b];
        Reassemble();
      }
      o := Success;
    }

    /** `del_seg(segnum)`. */
    method DelSeg(segnum: int) returns (o: Outcome)
      modifies this
      ensures Books.Step(State(), o) == Books.DelSeg(old(State()), segnum)
    {
      var n := |seglist|;
      if n == 1 {
        return Success;
      }
      if segnum <= n {
        if !ValidIndex(segnum - 1, n) {
          return Failure(IndexError);
        }
        seglist := RemoveAt(seglist, PyIndex(segnum - 1, n));
        Reassemble();
      }
      o := Success;
    }

    /** `add_seg(text, pos)`: `typed` is what the prompt returns when no text is
        handed in; a position of 0 stands for no position. */
    method AddSeg(text: string, typed: string, pos: int) returns (o: Outcome)
      modifies this
      ensures Books.Step(State(), o) == Books.AddSeg(old(State()), Books.NewSegment(text, typed), pos)
    {
      var newseg := if text != "" then text else KeepChars(typed, Books.AddSegLetters);
      if newseg == "" {
        return Success;
      }
      if pos == 0 {
        seglist := seglist + [Strip(newseg)];
      } else {
        seglist := InsertAt(seglist, InsertPos(pos, |seglist|), newseg);
      }
      o := Capitalize();
      if o == Success {
        Reassemble();
      }
    }

    /** `by_replace`: the loop runs over a list that grows at the front, so after a
        split the next position holds the text just left in place (which no longer
        holds ` by `) and the following one the next original segment. */
    method ByReplace()
      modifies this
      ensures State() == Books.ByReplace(old(State()))
    {
      ghost var orig := seglist;
      ghost var cs := Books.Cuts(orig);
      ghost var k := 0;
      ghost var pending := false;
      var x := 0;
      while x < |seglist|
        invariant 0 <= k <= |orig|
        invariant seglist == Books.ByPass(cs, orig, k)
        invariant x + (if pending then 1 else 0) == |Books.MovedReversed(cs[..k])| + k
        invariant pending ==> k > 0 && cs[k - 1].Moved?
        modifies this`seglist
        decreases 2 * (|orig| - k) + (if pending then 1 else 0)
      {
        var c := CutSegment(seglist[x]);
        if pending {
          Books.ByLoopPending(orig, k, seglist, x, c);
        }
        if c.Moved? {
          Books.ByLoopCut(orig, k, seglist, x, c);
          seglist := seglist[x := c.before];
          seglist := [c.after] + seglist;
          k, pending := k + 1, true;
        } else if pending {
          pending := false;
        } else {
          Books.ByLoopKeep(orig, k, seglist, x, c);
          k := k + 1;
        }
        x := x + 1;
      }
      Books.ByPassDone(orig);
      Reassemble();
    }

    /** `reverse_seg(segnum)`: the segment is replaced by `format_name` of it. */
    method ReverseSeg(segnum: int) returns (o: Outcome)
      modifies this
      ensures Books.Step(State(), o) == Books.ReverseSeg(old(State()), segnum)
    {
      var n := |seglist|;
      if segnum >= n {
        return Success;
      }
      if segnum < -n {
        return Failure(IndexError);
      }
      var k := PyIndex(segnum, n);
      var reversed := FormatName(seglist[k]);
      if reversed.Err? {
        return Failure(reversed.error);
      }
      seglist := seglist[k := reversed.value];
      Reassemble();
      o := Success;
    }

    /** `capitalize`: each segment in turn is title-cased, run through the fix table
        entry by entry, and given the first-character rule; a lone bracket left by the
        table raises, with the segments before it already rewritten. */
    method Capitalize() returns (o: Outcome)
      modifies this
      ensures Books.Step(State(), o) == Books.CapitalizeStep(old(State()))
    {
      var x := 0;
      while x < |seglist|
        invariant 0 <= x <= |seglist|
        invariant name == old(name) && filename == old(filename) && ext == old(ext) && filepath == old(filepath)
        invariant CapitalizeFrom(seglist, x) == Normalizer.Capitalize(old(seglist))
      {
        ghost var before := seglist;
        var fixed := FixSegment(Title(seglist[x]));
        seglist := seglist[x := fixed];
        if seglist[x] != "" {
          var seg := seglist[x];
          if seg[0] == '[' || seg[0] == '(' {
            if |seg| < 2 {
              CapitalizeFromStop(before, x);
              return Failure(IndexError);
            }
            seglist := seglist[x := [seg[0]] + [UpperChar(seg[1])] + seg[2..]];
          } else if !Contains(seg, "translated by") {
            seglist := seglist[x := [UpperChar(seg[0])] + seg[1..]];
          }
        }
        assert seglist == before[x := seglist[x]];
        assert CapSeg(before[x]) == Ok(seglist[x]);
        CapitalizeFromStep(before, x, seglist[x]);
        x := x + 1;
      }
      Reassemble();
      o := Success;
    }

    /** `bracket_match`: with more than one `]` in the name, the first segment holding
        a `]` loses all of them. */
    method BracketMatch()
      modifies this
      ensures State() == Books.BracketMatch(old(State()))
    {
      if Count(name, ']') > 1 {
        var num := 0;
        while num < |seglist|
          invariant 0 <= num <= |seglist| && seglist == old(seglist)
          invariant forall k :: 0 <= k < num ==> ']' !in seglist[k]
        {
          if ']' in seglist[num] {
            assert Books.FirstHolding(seglist, ']') == Some(num);
            seglist := seglist[num := Replace(seglist[num], "]", "")];
            break;
          }
          num := num + 1;
        }
        Reassemble();
      }
    }
  }

  /** One pass of `by_replace`'s loop body over a segment: ` By ` is read as ` by `,
      and a segment holding ` by ` is cut at the first one, both halves stripped of
      spaces, commas, dashes and full stops. */
  method CutSegment(seg: string) returns (c: Books.Cut)
    ensures c == Books.CutOf(seg)
    ensures c.Kept? <==> !Books.HasBy(seg)
  {
    var fixed := Replace(seg, " By ", " by ");
    if Contains(fixed, " by ") {
      var (beforeby, _, afterby) := Partition(fixed, " by ");
      c := Books.Moved(StripChars(beforeby, Books.ByPunct), StripChars(afterby, Books.ByPunct));
    } else {
      c := Books.Kept(seg);
    }
  }

  /** The inner loop of `capitalize`: the fix table's pairs replaced in the segment one
      after the other, in table order. */
  method FixSegment(seg: string) returns (t: string)
    ensures t == ApplyFixes(seg, FixTable)
  {
    t := seg;
    var j := 0;
    while j < |FixTable|
      invariant 0 <= j <= |FixTable|
      invariant t == ApplyFixes(seg, FixTable[..j])
    {
      var (key, value) := FixTable[j];
      if Contains(t, key) {
        t := Replace(t, key, value);
      } else {
        ReplaceAbsent(t, key, value);
      }
      assert FixTable[..j + 1][..j] == FixTable[..j];
      j := j + 1;
    }
    assert FixTable[..|FixTable|] == FixTable;
  }
}
