/** The part of the WPF flow document the REPL edits: paragraphs holding
  * ordered lists of inlines (runs and line breaks), text pointers into them,
  * and the `InlineCollection.InsertAfter` primitive every insertion is built on.
  *
  * Every inline is named by a number, its identity: two `Run` objects with the
  * same text are still two inlines. A document is the sequence of its
  * paragraphs, each the sequence of the inlines it holds, in order. */
module FlowDocument {
  import opened Exceptions

  /** The style resource a run is shown with; `Default` for `new Run(...)`. */
  datatype Style = Default | Styled(key: string)

  /** A styled piece of text, as the colorizer cuts code or an error message into runs. */
  datatype Fragment = Fragment(text: string, style: Style)

  datatype InlineKind = Run(text: string, style: Style) | LineBreak

  /** A `TextPointer`, seen only through its parent: an inline, or something else. */
  datatype TextPointer = InInline(inline: nat) | OutsideInline

  /** A `TextRange` (the selection, or the current line up to the caret). */
  datatype TextRange = TextRange(start: TextPointer, end: TextPointer, isEmpty: bool, text: string)

  type Document = seq<seq<nat>>

  /** The runs the colorizer creates for `frags`, in order. */
  function RunsOf(frags: seq<Fragment>): (r: seq<InlineKind>)
    ensures |r| == |frags|
  {
    if frags == [] then [] else [Run(frags[0].text, frags[0].style)] + RunsOf(frags[1..])
  }

  /** The identities lo, lo + 1, ..., hi - 1. */
  function Range(lo: nat, hi: nat): (r: seq<nat>)
    requires lo <= hi
    ensures |r| == hi - lo
    decreases hi - lo
  {
    if lo == hi then [] else Range(lo, hi - 1) + [hi - 1]
  }

  /** Identity `x` is in the range exactly when it lies between its bounds. */
  lemma {:induction false} RangeHolds(lo: nat, hi: nat, x: nat)
    requires lo <= hi
    ensures x in Range(lo, hi) <==> lo <= x < hi
    decreases hi - lo
  {
    if lo < hi {
      RangeHolds(lo, hi - 1, x);
    }
  }

  lemma {:induction false} RangeAt(lo: nat, hi: nat, i: nat)
    requires lo <= hi && i < hi - lo
    ensures Range(lo, hi)[i] == lo + i
    decreases hi - lo
  {
    if i < hi - 1 - lo {
      RangeAt(lo, hi - 1, i);
    }
  }

  /** Two adjacent ranges make one. */
  lemma {:induction false} RangeConcat(lo: nat, mid: nat, hi: nat)
    requires lo <= mid <= hi
    ensures Range(lo, mid) + Range(mid, hi) == Range(lo, hi)
    decreases hi - mid
  {
    if mid < hi {
      RangeConcat(lo, mid, hi - 1);
      assert Range(lo, mid) + (Range(mid, hi - 1) + [hi - 1]) == (Range(lo, mid) + Range(mid, hi - 1)) + [hi - 1];
    }
  }

  /** `GetInlineUnderPosition`: the inline a pointer sits in. */
  function InlineUnder(p: TextPointer): (r: Result<nat>)
    ensures r.Ok? <==> p.InInline?
    ensures r.Ok? ==> r.value == p.inline
    ensures r.Err? ==> r.error == NotAnInline
  {
    match p
    case InInline(x) => Ok(x)
    case OutsideInline => Err(NotAnInline)
  }

  predicate Distinct(xs: seq<nat>)
  {
    forall i, j :: 0 <= i < j < |xs| ==> xs[i] != xs[j]
  }

  /** No paragraph of `doc` holds `x`: a new inline, or one whose parent is not a paragraph. */
  predicate Detached(doc: Document, x: nat)
  {
    doc == [] || (x !in doc[0] && Detached(doc[1..], x))
  }

  /** Every inline of `doc` was created before identity `n`. */
  predicate Below(doc: Document, n: nat)
  {
    doc == [] || ((forall x :: x in doc[0] ==> x < n) && Below(doc[1..], n))
  }

  /** The paragraph holding `x` (the inline's `Parent as Paragraph`): the
    * first one, or none when `x` is detached. */
  function FindParagraph(doc: Document, x: nat): (r: Option<nat>)
    ensures r.Some? ==> r.value < |doc| && x in doc[r.value]
    ensures r.None? <==> Detached(doc, x)
  {
    if doc == [] then None
    else if x in doc[0] then Some(0)
    else match FindParagraph(doc[1..], x)
      case None => None
      case Some(j) => Some(j + 1)
  }

  /** The paragraph of `xs` inserted, in order, right after the first `p`. */
  function InsertBlock(s: seq<nat>, p: nat, xs: seq<nat>): (r: seq<nat>)
    requires p in s
    ensures |r| == |s| + |xs|
    ensures p in r
  {
    if s[0] == p then [p] + xs + s[1..] else [s[0]] + InsertBlock(s[1..], p, xs)
  }

  /** `InlineCollection.InsertAfter(p, x)`: `x` goes right after `p`, the
    * other inlines stay as they were. */
  function InsertAfter(s: seq<nat>, p: nat, x: nat): (r: seq<nat>)
    requires p in s
    ensures |r| == |s| + 1
    ensures p in r
  {
    InsertBlock(s, p, [x])
  }

  /** The document with `xs` placed, in order, right after `x` in `x`'s paragraph. */
  function SpliceAfter(doc: Document, x: nat, xs: seq<nat>): (d: Document)
    requires FindParagraph(doc, x).Some?
    ensures |d| == |doc|
  {
    if x in doc[0] then [InsertBlock(doc[0], x, xs)] + doc[1..]
    else [doc[0]] + SpliceAfter(doc[1..], x, xs)
  }

  /** Each of `xs` inserted right after `p`, the last one first: what
    * `InsertElements`'s backward loop does to the paragraph. */
  function InsertEachBackward(s: seq<nat>, p: nat, xs: seq<nat>): (r: seq<nat>)
    requires p in s
    ensures p in r
    decreases |xs|
  {
    if xs == [] then s
    else InsertAfter(InsertEachBackward(s, p, xs[1..]), p, xs[0])
  }

  /** Each of `xs` inserted right after `p`, the first one first. */
  function InsertEachForward(s: seq<nat>, p: nat, xs: seq<nat>): seq<nat>
    requires p in s
    decreases |xs|
  {
    if xs == [] then s
    else InsertEachForward(InsertAfter(s, p, xs[0]), p, xs[1..])
  }

  function Reversed(xs: seq<nat>): seq<nat>
  {
    if xs == [] then [] else Reversed(xs[1..]) + [xs[0]]
  }

  /** What `InsertElements(position, block)` returns or throws, with the
    * document it leaves: `GetParagraph` fails first, then reading the last
    * element of an empty block. */
  function InsertElementsOutcome(doc: Document, position: nat, block: seq<nat>): (Result<nat>, Document)
  {
    match FindParagraph(doc, position)
    case None => (Err(NoParagraph), doc)
    case Some(_) =>
      if block == [] then (Err(ArgumentOutOfRange), doc)
      else (Ok(block[|block| - 1]), SpliceAfter(doc, position, block))
  }

  /** The position of `x` in `s`: the first one. */
  function IndexOf(s: seq<nat>, x: nat): (i: nat)
    requires x in s
    ensures i < |s| && s[i] == x && x !in s[..i]
  {
    if s[0] == x then 0 else 1 + IndexOf(s[1..], x)
  }

  /** An insertion holds what the paragraph held and the block, nothing else. */
  lemma {:induction false} InsertBlockHolds(s: seq<nat>, p: nat, xs: seq<nat>, y: nat)
    requires p in s
    ensures y in InsertBlock(s, p, xs) <==> y in s || y in xs
    decreases |s|
  {
    if s[0] == p {
      assert s == [p] + s[1..];
    } else {
      InsertBlockHolds(s[1..], p, xs, y);
      assert s == [s[0]] + s[1..];
    }
  }

  /** The block lands right after the first `p`, the rest of the paragraph
    * unchanged around it. */
  lemma {:induction false} InsertBlockIsSlice(s: seq<nat>, p: nat, xs: seq<nat>)
    requires p in s
    ensures InsertBlock(s, p, xs) == s[..IndexOf(s, p) + 1] + xs + s[IndexOf(s, p) + 1..]
    decreases |s|
  {
    if s[0] != p {
      var t := s[1..];
      var j := IndexOf(t, p);
      InsertBlockIsSlice(t, p, xs);
      assert s[..j + 2] == [s[0]] + t[..j + 1];
      assert s[j + 2..] == t[j + 1..];
      assert [s[0]] + (t[..j + 1] + xs + t[j + 1..]) == [s[0]] + t[..j + 1] + xs + t[j + 1..];
    }
  }

  /** Two blocks inserted after the same `p`, the second one last: the second
    * ends up first. */
  lemma {:induction false} InsertBlockTwice(s: seq<nat>, p: nat, xs: seq<nat>, ys: seq<nat>)
    requires p in s && p !in xs
    ensures InsertBlock(InsertBlock(s, p, xs), p, ys) == InsertBlock(s, p, ys + xs)
    decreases |s|
  {
    if s[0] == p {
      var t := [p] + xs + s[1..];
      assert t[0] == p && t[1..] == xs + s[1..];
      assert [p] + ys + (xs + s[1..]) == [p] + (ys + xs) + s[1..];
    } else {
      InsertBlockTwice(s[1..], p, xs, ys);
    }
  }

  /** A block inserted after its own last element, which it holds only there:
    * the new block follows the old one. */
  lemma {:induction false} InsertAfterBlock(xs: seq<nat>, t: seq<nat>, ys: seq<nat>)
    requires xs != [] && xs[|xs| - 1] !in xs[..|xs| - 1]
    ensures xs[|xs| - 1] in xs + t
    ensures InsertBlock(xs + t, xs[|xs| - 1], ys) == xs + ys + t
    decreases |xs|
  {
    var last := xs[|xs| - 1];
    assert (xs + t)[|xs| - 1] == last;
    if |xs| == 1 {
      assert (xs + t)[1..] == t;
    } else {
      assert xs[1..][..|xs| - 2] == xs[1..|xs| - 1];
      assert xs[0] in xs[..|xs| - 1];
      InsertAfterBlock(xs[1..], t, ys);
      assert (xs + t)[1..] == xs[1..] + t;
      assert [xs[0]] + (xs[1..] + ys + t) == xs + ys + t;
    }
  }

  /** Inserting after the last inline of a block just inserted continues the block. */
  lemma {:induction false} InsertBlockChain(s: seq<nat>, p: nat, xs: seq<nat>, ys: seq<nat>)
    requires p in s && xs != []
    requires xs[|xs| - 1] !in s && xs[|xs| - 1] !in xs[..|xs| - 1]
    ensures xs[|xs| - 1] in InsertBlock(s, p, xs)
    ensures InsertBlock(InsertBlock(s, p, xs), xs[|xs| - 1], ys) == InsertBlock(s, p, xs + ys)
    decreases |s|
  {
    var last := xs[|xs| - 1];
    InsertBlockHolds(s, p, xs, last);
    if s[0] == p {
      assert [p] + xs + s[1..] == [p] + (xs + s[1..]);
      InsertAfterBlock(xs, s[1..], ys);
      assert [p] + (xs + ys + s[1..]) == [p] + (xs + ys) + s[1..];
    } else {
      assert s[0] != last;
      InsertBlockChain(s[1..], p, xs, ys);
    }
  }

  /** The backward loop leaves `xs` right after `p`, in their own order. */
  lemma {:induction false} BackwardInsertionKeepsOrder(s: seq<nat>, p: nat, xs: seq<nat>)
    requires p in s && p !in xs
    ensures InsertEachBackward(s, p, xs) == InsertBlock(s, p, xs)
    decreases |xs|
  {
    if xs == [] {
      assert s == s[..IndexOf(s, p) + 1] + [] + s[IndexOf(s, p) + 1..];
      InsertBlockIsSlice(s, p, []);
    } else {
      BackwardInsertionKeepsOrder(s, p, xs[1..]);
      InsertBlockTwice(s, p, xs[1..], [xs[0]]);
      assert [xs[0]] + xs[1..] == xs;
    }
  }

  /** Inserting the same elements first to last would put them right after
    * `p` in reverse order. */
  lemma {:induction false} ForwardInsertionReverses(s: seq<nat>, p: nat, xs: seq<nat>)
    requires p in s && p !in xs
    ensures InsertEachForward(s, p, xs) == InsertBlock(s, p, Reversed(xs))
    decreases |xs|
  {
    if xs == [] {
      assert s == s[..IndexOf(s, p) + 1] + [] + s[IndexOf(s, p) + 1..];
      InsertBlockIsSlice(s, p, []);
    } else {
      var s1 := InsertAfter(s, p, xs[0]);
      ForwardInsertionReverses(s1, p, xs[1..]);
      InsertBlockTwice(s, p, [xs[0]], Reversed(xs[1..]));
    }
  }

  /** Splicing into the paragraph found is inserting the block in it. */
  lemma {:induction false} SpliceInParagraph(doc: Document, x: nat, xs: seq<nat>)
    requires FindParagraph(doc, x).Some?
    ensures var k := FindParagraph(doc, x).value;
            SpliceAfter(doc, x, xs) == doc[k := InsertBlock(doc[k], x, xs)]
    decreases |doc|
  {
    if x !in doc[0] {
      SpliceInParagraph(doc[1..], x, xs);
    }
  }

  /** A splice removes nothing: afterwards an inline is in the document
    * exactly when it was before or is one of the block. */
  lemma {:induction false} SpliceKeeps(doc: Document, x: nat, xs: seq<nat>, y: nat)
    requires FindParagraph(doc, x).Some?
    ensures Detached(SpliceAfter(doc, x, xs), y) <==> Detached(doc, y) && y !in xs
    decreases |doc|
  {
    var d := SpliceAfter(doc, x, xs);
    if x in doc[0] {
      InsertBlockHolds(doc[0], x, xs, y);
      assert d[1..] == doc[1..];
    } else {
      SpliceKeeps(doc[1..], x, xs, y);
      assert d[1..] == SpliceAfter(doc[1..], x, xs);
    }
  }

  /** The splice as slices: `xs` right after the first `x` of the first
    * paragraph holding it, every other inline where it was. */
  lemma SpliceIsSlice(doc: Document, x: nat, xs: seq<nat>)
    requires FindParagraph(doc, x).Some?
    ensures var k := FindParagraph(doc, x).value;
            var i := IndexOf(doc[k], x);
            SpliceAfter(doc, x, xs) == doc[k := doc[k][..i + 1] + xs + doc[k][i + 1..]]
  {
    SpliceInParagraph(doc, x, xs);
    InsertBlockIsSlice(doc[FindParagraph(doc, x).value], x, xs);
  }

  /** `InsertElements`'s loop, run over the whole block in the paragraph
    * holding `x`, splices the block after `x`. */
  lemma BackwardLoopSplices(doc: Document, x: nat, xs: seq<nat>, k: nat)
    requires FindParagraph(doc, x) == Some(k) && x !in xs
    ensures doc[k := InsertEachBackward(doc[k], x, xs)] == SpliceAfter(doc, x, xs)
  {
    BackwardInsertionKeepsOrder(doc[k], x, xs);
    SpliceInParagraph(doc, x, xs);
  }

  /** Two splices in a row, the second right after the last inline of the
    * first, amount to one splice of both blocks: chained insertions come out
    * in the order they were made. */
  lemma {:induction false} SpliceChain(doc: Document, x: nat, xs: seq<nat>, ys: seq<nat>)
    requires FindParagraph(doc, x).Some? && xs != []
    requires Detached(doc, xs[|xs| - 1]) && xs[|xs| - 1] !in xs[..|xs| - 1]
    ensures FindParagraph(SpliceAfter(doc, x, xs), xs[|xs| - 1]) == FindParagraph(doc, x)
    ensures SpliceAfter(SpliceAfter(doc, x, xs), xs[|xs| - 1], ys) == SpliceAfter(doc, x, xs + ys)
    decreases |doc|
  {
    var last := xs[|xs| - 1];
    var d1 := SpliceAfter(doc, x, xs);
    if x in doc[0] {
      InsertBlockChain(doc[0], x, xs, ys);
      assert d1[0] == InsertBlock(doc[0], x, xs) && d1[1..] == doc[1..];
    } else {
      SpliceChain(doc[1..], x, xs, ys);
      assert d1[0] == doc[0] && d1[1..] == SpliceAfter(doc[1..], x, xs);
    }
  }

  /** New inlines are in no paragraph. */
  lemma {:induction false} FreshIsDetached(doc: Document, n: nat, x: nat)
    requires Below(doc, n) && n <= x
    ensures Detached(doc, x)
    decreases |doc|
  {
    if doc != [] {
      FreshIsDetached(doc[1..], n, x);
    }
  }

  /** Creating inlines keeps the document's inlines below the next identity. */
  lemma {:induction false} BelowGrows(doc: Document, n: nat, m: nat)
    requires Below(doc, n) && n <= m
    ensures Below(doc, m)
    decreases |doc|
  {
    if doc != [] {
      BelowGrows(doc[1..], n, m);
    }
  }

  /** Inlines created from `lo` on are distinct and in no paragraph of a
    * document whose inlines all came before. */
  lemma FreshRange(doc: Document, lo: nat, hi: nat)
    requires lo <= hi && Below(doc, lo)
    ensures Distinct(Range(lo, hi))
    ensures forall x :: x in Range(lo, hi) ==> x < hi && Detached(doc, x)
  {
    forall i | 0 <= i < hi - lo
      ensures Range(lo, hi)[i] == lo + i
    {
      RangeAt(lo, hi, i);
    }
    forall x | x in Range(lo, hi)
      ensures x < hi && Detached(doc, x)
    {
      RangeHolds(lo, hi, x);
      FreshIsDetached(doc, lo, x);
    }
  }

  /** A splice of inlines created before `n` keeps every inline of the document below `n`. */
  lemma {:induction false} SpliceBelow(doc: Document, x: nat, xs: seq<nat>, n: nat)
    requires FindParagraph(doc, x).Some? && Below(doc, n)
    requires forall y :: y in xs ==> y < n
    ensures Below(SpliceAfter(doc, x, xs), n)
    decreases |doc|
  {
    var d := SpliceAfter(doc, x, xs);
    if x in doc[0] {
      forall y | y in d[0]
        ensures y < n
      {
        InsertBlockHolds(doc[0], x, xs, y);
      }
      assert d[1..] == doc[1..];
    } else {
      SpliceBelow(doc[1..], x, xs, n);
      assert d[1..] == SpliceAfter(doc[1..], x, xs);
    }
  }

  /** Blocks of consecutive new inlines spliced one after the other's last
    * inline: the document holds them as one block, in creation order. */
  lemma ChainRanges(doc: Document, x: nat, n0: nat, a: nat, b: nat)
    requires FindParagraph(doc, x).Some? && Below(doc, n0) && n0 < a <= b
    ensures FindParagraph(SpliceAfter(doc, x, Range(n0, a)), a - 1).Some?
    ensures SpliceAfter(SpliceAfter(doc, x, Range(n0, a)), a - 1, Range(a, b)) == SpliceAfter(doc, x, Range(n0, b))
  {
    var xs, ys := Range(n0, a), Range(a, b);
    RangeConcat(n0, a, b);
    assert xs[..|xs| - 1] == Range(n0, a - 1);
    RangeHolds(n0, a - 1, a - 1);
    FreshIsDetached(doc, n0, a - 1);
    SpliceChain(doc, x, xs, ys);
  }
}
