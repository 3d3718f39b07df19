/** Splitting a sentence again gives back just that sentence. A boundary
    never falls inside a quotation pair, so an even number of quotation
    marks comes before every sentence and its marks pair up the same way on
    their own as in the paragraph. Every terminator of a sentence other than
    its last character was suppressed by a pair, and that pair lies wholly
    inside the sentence, so it is suppressed again. The reasoning counts
    the quotation marks before a position: a position is inside a pair
    exactly when that count is odd and some mark still follows. */
module Resplit {
  import opened Text
  import opened Sentences
  import opened SentenceLaws

  /** The number of quotation marks before position `k`. */
  function QuotesBefore(s: seq<char>, k: nat): nat
    requires k <= |s|
  {
    |Positions(s, k, QuoteMarks)|
  }

  /** No boundary of `s` lies strictly between `lo` and `hi`. */
  predicate Consecutive(s: seq<char>, lo: nat, hi: nat)
  {
    forall y :: lo < y < hi ==> y !in Boundaries(s)
  }

  /** Every terminator of `t` before its last character lies inside a
      quotation pair of `t`. */
  predicate InteriorQuoted(t: seq<char>)
  {
    forall p :: 0 <= p < |t| - 1 && t[p] in Terminators ==> InsideQuote(QuotePositions(t), p)
  }

  /** The positions below `k` are the first entries of the positions below
      `m`, and every later entry is at least `k`. */
  lemma {:induction false} PositionsPrefix(s: seq<char>, k: nat, m: nat, marks: set<char>)
    requires k <= m <= |s|
    ensures |Positions(s, k, marks)| <= |Positions(s, m, marks)|
    ensures Positions(s, m, marks)[..|Positions(s, k, marks)|] == Positions(s, k, marks)
    ensures forall j :: |Positions(s, k, marks)| <= j < |Positions(s, m, marks)| ==> Positions(s, m, marks)[j] >= k
    decreases m
  {
    if m > k {
      PositionsPrefix(s, k, m - 1, marks);
      var front := Positions(s, m - 1, marks);
      var pk := Positions(s, k, marks);
      var pm := Positions(s, m, marks);
      assert pm[..|front|] == front;
      assert pm[..|pk|] == front[..|pk|];
    }
  }

  /** The quotation marks before position `p` are the first entries of the
      quotation mark list; the later entries lie after `p` when `p` is not
      itself a quotation mark. */
  lemma QuotesAround(s: seq<char>, p: nat)
    requires p < |s| && s[p] !in QuoteMarks
    ensures QuotesBefore(s, p) <= |QuotePositions(s)|
    ensures forall j :: 0 <= j < QuotesBefore(s, p) ==> QuotePositions(s)[j] < p
    ensures forall j :: QuotesBefore(s, p) <= j < |QuotePositions(s)| ==> QuotePositions(s)[j] > p
  {
    var q := QuotePositions(s);
    var before := Positions(s, p, QuoteMarks);
    PositionsPrefix(s, p, |s|, QuoteMarks);
    PositionsShape(s, p, QuoteMarks);
    PositionsShape(s, |s|, QuoteMarks);
    forall j | 0 <= j < |before|
      ensures q[j] < p
    {
      assert q[j] == q[..|before|][j];
    }
  }

  /** Position `p`, which is not a quotation mark, lies inside a quotation
      pair exactly when an odd number of quotation marks comes before it and
      at least one comes after it. */
  lemma InsideQuoteByCount(s: seq<char>, p: nat)
    requires p < |s| && s[p] !in QuoteMarks
    ensures InsideQuote(QuotePositions(s), p) <==>
      QuotesBefore(s, p) % 2 == 1 && QuotesBefore(s, p) < |QuotePositions(s)|
  {
    var q := QuotePositions(s);
    var c := QuotesBefore(s, p);
    QuotesAround(s, p);
    if InsideQuote(q, p) {
      var i :| 0 <= i < |q| && i % 2 == 0 && InPair(q, i, p);
      assert q[i] < p < q[i + 1];
      assert c == i + 1;
    }
    if c % 2 == 1 && c < |q| {
      assert InPair(q, c - 1, p);
    }
  }

  /** A stretch of white space holds no quotation mark. */
  lemma {:induction false} QuotesSkipWhitespace(s: seq<char>, lo: nat, hi: nat)
    requires lo <= hi <= |s|
    requires forall i :: lo <= i < hi ==> IsWhitespace(s[i])
    ensures QuotesBefore(s, lo) == QuotesBefore(s, hi)
    decreases hi - lo
  {
    if lo < hi {
      QuotesSkipWhitespace(s, lo, hi - 1);
      assert IsWhitespace(s[hi - 1]);
    }
  }

  /** The quotation marks of a slice before its position `j` are the marks
      of the text between the start of the slice and that position. */
  lemma {:induction false} QuotesOfSlice(s: seq<char>, a: nat, e: nat, j: nat)
    requires a <= e <= |s| && j <= e - a
    ensures QuotesBefore(s[a..e], j) + QuotesBefore(s, a) == QuotesBefore(s, a + j)
  {
    if j > 0 {
      QuotesOfSlice(s, a, e, j - 1);
      assert s[a..e][j - 1] == s[a + (j - 1)];
    }
  }

  /** A boundary is never inside a quotation pair: an even number of
      quotation marks comes before it when some mark comes after `x`. */
  lemma BoundaryOutsideQuotes(s: seq<char>, lo: nat, x: nat)
    requires lo in Boundaries(s) && lo <= x <= |s|
    requires QuotesBefore(s, x) < |QuotePositions(s)|
    ensures QuotesBefore(s, lo) % 2 == 0
  {
    PositionsPrefix(s, lo, x, QuoteMarks);
    PositionsPrefix(s, x, |s|, QuoteMarks);
    if lo > 0 {
      BoundaryMembership(s, lo);
      InsideQuoteByCount(s, lo - 1);
      assert QuotesBefore(s, lo) == QuotesBefore(s, lo - 1);
    }
  }

  /** A quotation pair open at `x` closes before the next boundary after
      `x`: more quotation marks come before that boundary than before `x`. */
  lemma BoundaryClosesQuote(s: seq<char>, hi: nat, x: nat)
    requires hi in Boundaries(s) && x < hi <= |s|
    requires QuotesBefore(s, x) % 2 == 1 && QuotesBefore(s, x) < |QuotePositions(s)|
    ensures QuotesBefore(s, x) < QuotesBefore(s, hi)
  {
    if hi < |s| {
      BoundaryMembership(s, hi);
      InsideQuoteByCount(s, hi - 1);
      PositionsPrefix(s, x, hi - 1, QuoteMarks);
      PositionsPrefix(s, hi - 1, |s|, QuoteMarks);
      assert QuotesBefore(s, hi) == QuotesBefore(s, hi - 1);
    }
  }

  /** No boundary lies strictly between two consecutive boundaries. */
  lemma ConsecutiveBoundaries(s: seq<char>, i: nat, y: nat)
    requires i + 1 < |Boundaries(s)| && Boundaries(s)[i] < y < Boundaries(s)[i + 1]
    ensures y !in Boundaries(s)
  {
    BoundaryShape(s);
  }

  /** Every span is longer than one character and is the trimmed window
      between two consecutive boundaries. */
  lemma {:induction false} SpanOfWindow(s: seq<char>, b: seq<nat>, n: nat, k: nat)
    requires Windowable(s, b) && n <= Windows(b) && k < |Spans(s, b, n)|
    ensures Spans(s, b, n)[k].0 + 1 < Spans(s, b, n)[k].1
    ensures exists i :: 0 <= i < n && Spans(s, b, n)[k] == TrimBounds(s, b[i], b[i + 1])
  {
    assert n > 0;
    var front := Spans(s, b, n - 1);
    var w := TrimBounds(s, b[n - 1], b[n]);
    assert Spans(s, b, n) == front + (if w.0 + 1 < w.1 then [w] else []);
    if k < |front| {
      SpanOfWindow(s, b, n - 1, k);
      var i :| 0 <= i < n - 1 && front[k] == TrimBounds(s, b[i], b[i + 1]);
      assert Spans(s, b, n)[k] == front[k];
    } else {
      var i := n - 1;
      assert b[i + 1] == b[n];
      assert Spans(s, b, n)[k] == w == TrimBounds(s, b[i], b[i + 1]);
    }
  }

  /** Around a terminator `x` that lies inside a quotation pair of the
      paragraph, strictly between two consecutive boundaries: an even number
      of quotation marks comes before the boundary below it, and the pair
      open at `x` closes before the boundary above it. */
  lemma QuotedTerminatorParity(s: seq<char>, lo: nat, hi: nat, x: nat)
    requires lo <= x && x + 1 < hi <= |s| && lo in Boundaries(s) && hi in Boundaries(s)
    requires x + 1 !in Boundaries(s) && s[x] in Terminators
    ensures QuotesBefore(s, lo) % 2 == 0 && QuotesBefore(s, x) % 2 == 1
    ensures QuotesBefore(s, x) < QuotesBefore(s, hi)
  {
    BoundaryMembership(s, x + 1);
    InsideQuoteByCount(s, x);
    BoundaryOutsideQuotes(s, lo, x);
    BoundaryClosesQuote(s, hi, x);
  }

  /** If an even number of quotation marks comes before a slice, a position
      of the slice with an odd number before it and a mark after it inside
      the slice lies inside a quotation pair of the slice on its own. */
  lemma SliceInsideQuote(s: seq<char>, a: nat, e: nat, p: nat)
    requires a + p < e <= |s| && s[a + p] !in QuoteMarks
    requires QuotesBefore(s, a) % 2 == 0 && QuotesBefore(s, a + p) % 2 == 1
    requires QuotesBefore(s, a + p) < QuotesBefore(s, e)
    ensures InsideQuote(QuotePositions(s[a..e]), p)
  {
    var t := s[a..e];
    QuotesOfSlice(s, a, e, p);
    QuotesOfSlice(s, a, e, e - a);
    assert |t| == e - a && t[p] == s[a + p];
    InsideQuoteByCount(t, p);
  }

  /** A terminator of the sentence cut from the window `[lo, hi)`, other
      than its last character, lies inside a quotation pair of the sentence
      taken on its own. */
  lemma InteriorTerminatorQuoted(s: seq<char>, lo: nat, hi: nat, p: nat)
    requires lo <= hi <= |s| && lo in Boundaries(s) && hi in Boundaries(s)
    requires Consecutive(s, lo, hi)
    requires var w := TrimBounds(s, lo, hi); w.0 + p + 1 < w.1 && s[w.0 + p] in Terminators
    ensures var w := TrimBounds(s, lo, hi); InsideQuote(QuotePositions(s[w.0..w.1]), p)
  {
    var w := TrimBounds(s, lo, hi);
    var a, e := w.0, w.1;
    var x := a + p;
    assert lo < x + 1 < hi;
    QuotedTerminatorParity(s, lo, hi, x);
    TrimBoundsCutsWhitespace(s, lo, hi);
    QuotesSkipWhitespace(s, lo, a);
    QuotesSkipWhitespace(s, e, hi);
    SliceInsideQuote(s, a, e, p);
  }

  /** A text whose terminators before its last character all lie inside
      quotation pairs keeps at most the boundary at its end. */
  lemma KeptOnlyAtEnd(t: seq<char>)
    requires InteriorQuoted(t)
    ensures forall k :: 0 <= k < |KeptStops(QuotePositions(t), StopPositions(t))| ==>
      KeptStops(QuotePositions(t), StopPositions(t))[k] == |t|
  {
    var kept := KeptStops(QuotePositions(t), StopPositions(t));
    PositionsShape(t, |t|, Terminators);
    KeptStopsMembers(QuotePositions(t), StopPositions(t));
    forall k | 0 <= k < |kept|
      ensures kept[k] == |t|
    {
      assert kept[k] in kept;
    }
  }

  /** The first two entries of an increasing list are in order. */
  lemma FirstBelowSecond(r: seq<nat>)
    requires StrictlyIncreasing(r) && |r| >= 2
    ensures r[0] < r[1]
  {
  }

  /** An increasing list whose every entry is `v` is empty or just `[v]`. */
  lemma IncreasingConstant(r: seq<nat>, v: nat)
    requires StrictlyIncreasing(r) && forall i :: 0 <= i < |r| ==> r[i] == v
    ensures r == [] || r == [v]
  {
    if |r| >= 2 {
      FirstBelowSecond(r);
      assert false;
    }
  }

  /** The boundaries of a text whose terminators before its last character
      all lie inside quotation pairs: 0 and the length, with the length
      repeated when the text ends in a terminator outside every pair. */
  lemma OneWindow(t: seq<char>)
    requires InteriorQuoted(t)
    ensures Boundaries(t) == [0, |t|] || Boundaries(t) == [0, |t|, |t|]
  {
    var kept := KeptStops(QuotePositions(t), StopPositions(t));
    KeptOnlyAtEnd(t);
    PositionsShape(t, |t|, Terminators);
    KeptStopsIncreasing(QuotePositions(t), StopPositions(t));
    IncreasingConstant(kept, |t|);
  }

  /** Cutting a trimmed text longer than one character at 0 and its length
      (possibly repeated) gives the text itself. */
  lemma WholeCut(t: seq<char>, b: seq<nat>)
    requires |t| > 1 && IsTrimmed(t)
    requires b == [0, |t|] || b == [0, |t|, |t|]
    ensures Windowable(t, b) && Cut(t, b, Windows(b)) == [t]
  {
    TrimBoundsExact(t, 0, |t|, 0, |t|);
    assert t[0..|t|] == t;
    CutStep(t, b, 1);
    if |b| == 3 {
      CutStep(t, b, 2);
    }
  }

  /** A trimmed text longer than one character, whose terminators before its
      last character all lie inside quotation pairs, is one sentence. */
  lemma OneSentence(t: seq<char>)
    requires |t| > 1 && IsTrimmed(t)
    requires InteriorQuoted(t)
    ensures SentencesOf(t) == [t]
  {
    OneWindow(t);
    WholeCut(t, Boundaries(t));
  }

  /** The sentence cut from the window between two consecutive boundaries
      is split again into just itself. */
  lemma ResplitWindow(s: seq<char>, lo: nat, hi: nat, t: seq<char>)
    requires lo <= hi <= |s| && lo in Boundaries(s) && hi in Boundaries(s)
    requires Consecutive(s, lo, hi)
    requires var w := TrimBounds(s, lo, hi); w.0 + 1 < w.1 && t == s[w.0..w.1]
    ensures SentencesOf(t) == [t]
  {
    var w := TrimBounds(s, lo, hi);
    forall p | 0 <= p < |t| - 1 && t[p] in Terminators
      ensures InsideQuote(QuotePositions(t), p)
    {
      assert t[p] == s[w.0 + p];
      InteriorTerminatorQuoted(s, lo, hi, p);
    }
    assert InteriorQuoted(t);
    OneSentence(t);
  }

  /** Splitting any sentence of a paragraph again gives back just that
      sentence. */
  lemma SentencesIdempotent(s: seq<char>, k: nat)
    requires k < |SentencesOf(s)|
    ensures SentencesOf(SentencesOf(s)[k]) == [SentencesOf(s)[k]]
  {
    var b := Boundaries(s);
    BoundaryShape(s);
    var r := Spans(s, b, Windows(b));
    assert SentencesOf(s) == Slices(s, r);
    SpanOfWindow(s, b, Windows(b), k);
    var i :| 0 <= i < Windows(b) && r[k] == TrimBounds(s, b[i], b[i + 1]);
    var lo, hi := b[i], b[i + 1];
    forall y | lo < y < hi
      ensures y !in b
    {
      ConsecutiveBoundaries(s, i, y);
    }
    assert Consecutive(s, lo, hi);
    ResplitWindow(s, lo, hi, SentencesOf(s)[k]);
  }
}
