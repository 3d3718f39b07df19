/** What the sentence splitter promises about its boundaries and its
    sentences, proved about the specification functions of `Sentences`. */
module SentenceLaws {
  import opened Text
  import opened Sentences

  /** Each position shifted by one: the boundary just after each terminator. */
  function Succ(ps: seq<nat>): (r: seq<nat>)
    ensures |r| == |ps|
    ensures forall i :: 0 <= i < |ps| ==> r[i] == ps[i] + 1
  {
    seq(|ps|, i requires 0 <= i < |ps| => ps[i] + 1)
  }

  /** A paragraph holds a quotation mark exactly when its list of quotation
      mark positions is not empty. */
  lemma HasQuoteIffQuoteMarks(s: seq<char>)
    ensures HasQuote(s) <==> QuotePositions(s) != []
  {
    var q := QuotePositions(s);
    if q != [] {
      assert q[0] in q;
      PositionsMembership(s, |s|, QuoteMarks, q[0]);
    }
    if HasQuote(s) {
      var i :| 0 <= i < |s| && s[i] in QuoteMarks;
      PositionsMembership(s, |s|, QuoteMarks, i);
    }
  }

  /** In an increasing list the last entry is the largest, and the entries
      before it are exactly the members below it. */
  lemma LastIsLargest(a: seq<nat>)
    requires StrictlyIncreasing(a) && a != []
    ensures forall x :: x in a ==> x <= a[|a| - 1]
    ensures forall x :: x in a[..|a| - 1] <==> x in a && x < a[|a| - 1]
  {
    forall x | x in a
      ensures x <= a[|a| - 1]
      ensures x < a[|a| - 1] ==> x in a[..|a| - 1]
    {
      var i :| 0 <= i < |a| && a[i] == x;
      if i < |a| - 1 {
        assert a[..|a| - 1][i] == x;
      }
    }
    var front := a[..|a| - 1];
    forall x | x in front
      ensures x < a[|a| - 1]
    {
      var i :| 0 <= i < |front| && front[i] == x;
      assert a[i] == x;
    }
  }

  /** The two lists hold the same members. */
  ghost predicate SameMembers(a: seq<nat>, b: seq<nat>)
  {
    forall x :: x in a <==> x in b
  }

  /** Two increasing lists with the same members end in the same entry, and
      the entries before it are again the same members. */
  lemma SameLastSameFront(a: seq<nat>, b: seq<nat>)
    requires StrictlyIncreasing(a) && StrictlyIncreasing(b) && a != [] && b != []
    requires forall x :: x in a <==> x in b
    ensures a[|a| - 1] == b[|b| - 1]
    ensures SameMembers(a[..|a| - 1], b[..|b| - 1])
  {
    LastIsLargest(a);
    LastIsLargest(b);
    var la, lb := a[|a| - 1], b[|b| - 1];
    assert la in b && lb in a;
    var fa, fb := a[..|a| - 1], b[..|b| - 1];
    forall x
      ensures x in fa <==> x in fb
    {
      assert x in fa <==> x in a && x < la;
      assert x in fb <==> x in b && x < lb;
    }
  }

  /** Two increasing lists with the same members are the same list. */
  lemma {:induction false} IncreasingUnique(a: seq<nat>, b: seq<nat>)
    requires StrictlyIncreasing(a) && StrictlyIncreasing(b)
    requires forall x :: x in a <==> x in b
    ensures a == b
  {
    assert a != [] ==> a[0] in a;
    assert b != [] ==> b[0] in b;
    if a != [] && b != [] {
      SameLastSameFront(a, b);
      var fa, fb := a[..|a| - 1], b[..|b| - 1];
      IncreasingUnique(fa, fb);
      assert a == fa + [a[|a| - 1]] && b == fb + [b[|b| - 1]];
    }
  }

  /** The position list of a text is the one increasing list that holds
      exactly the positions of the marks. */
  lemma PositionsExact(s: seq<char>, marks: set<char>, e: seq<nat>)
    requires StrictlyIncreasing(e)
    requires forall k :: 0 <= k < |e| ==> e[k] < |s| && s[e[k]] in marks
    requires forall i :: 0 <= i < |s| && s[i] in marks ==> i in e
    ensures Positions(s, |s|, marks) == e
  {
    var r := Positions(s, |s|, marks);
    PositionsShape(s, |s|, marks);
    forall x
      ensures x in r <==> x in e
    {
      PositionsMembership(s, |s|, marks, x);
    }
    IncreasingUnique(r, e);
  }

  /** Without quotation pairs, every terminator is kept. */
  lemma {:induction false} KeptStopsWithoutQuotes(stops: seq<nat>)
    ensures KeptStops([], stops) == Succ(stops)
  {
    if stops != [] {
      var front := stops[..|stops| - 1];
      KeptStopsWithoutQuotes(front);
      assert !InsideQuote([], stops[|stops| - 1]);
    }
  }

  /** Plain splitting: in a paragraph without quotation marks the boundaries
      are 0, one past every terminator in increasing order, and the length. */
  lemma NoQuotesPlainSplit(s: seq<char>)
    requires !HasQuote(s)
    ensures Boundaries(s) == [0] + Succ(StopPositions(s)) + [|s|]
  {
    HasQuoteIffQuoteMarks(s);
    KeptStopsWithoutQuotes(StopPositions(s));
  }

  /** A position strictly inside the text is a boundary exactly when the
      character before it is a terminator that is not inside a quotation
      pair; 0 and the length are always boundaries. */
  lemma BoundaryMembership(s: seq<char>, x: nat)
    ensures x == 0 || x == |s| ==> x in Boundaries(s)
    ensures 0 < x < |s| ==>
      (x in Boundaries(s) <==> s[x - 1] in Terminators && !InsideQuote(QuotePositions(s), x - 1))
  {
    var quotes, stops := QuotePositions(s), StopPositions(s);
    var kept := KeptStops(quotes, stops);
    var b := Boundaries(s);
    assert b == [0] + kept + [|s|];
    assert b[0] == 0 && b[|b| - 1] == |s|;
    if 0 < x < |s| {
      assert x in b <==> x in kept;
      KeptStopsMembers(quotes, stops);
      PositionsMembership(s, |s|, Terminators, x - 1);
    }
  }

  /** A position is listed exactly when it is below `k` and holds one of `marks`. */
  lemma PositionsMembership(s: seq<char>, k: nat, marks: set<char>, x: nat)
    requires k <= |s|
    ensures x in Positions(s, k, marks) <==> x < k && s[x] in marks
  {
    var r := Positions(s, k, marks);
    PositionsShape(s, k, marks);
    if x in r {
      var j :| 0 <= j < |r| && r[j] == x;
    }
  }

  /** A terminator strictly between quotation marks `2k` and `2k + 1` never
      gives a boundary. */
  lemma QuotedTerminatorSuppressed(s: seq<char>, i: nat, p: nat)
    requires i % 2 == 0 && i + 1 < |QuotePositions(s)|
    requires QuotePositions(s)[i] < p < QuotePositions(s)[i + 1]
    ensures p + 1 !in Boundaries(s)
  {
    var quotes := QuotePositions(s);
    PositionsShape(s, |s|, QuoteMarks);
    assert InPair(quotes, i, p);
    assert quotes[i + 1] < |s|;
    BoundaryMembership(s, p + 1);
  }

  /** A last, unpaired quotation mark closes nothing: whether a position is
      inside a quotation does not depend on it. */
  lemma UnpairedQuoteIgnored(quotes: seq<nat>, p: nat)
    requires |quotes| % 2 == 1
    ensures InsideQuote(quotes, p) <==> InsideQuote(quotes[..|quotes| - 1], p)
  {
    var paired := quotes[..|quotes| - 1];
    if InsideQuote(quotes, p) {
      var i :| 0 <= i < |quotes| && i % 2 == 0 && InPair(quotes, i, p);
      assert InPair(paired, i, p);
    }
    if InsideQuote(paired, p) {
      var i :| 0 <= i < |paired| && i % 2 == 0 && InPair(paired, i, p);
      assert InPair(quotes, i, p);
    }
  }

  /** Hence an unpaired last quotation mark never suppresses a terminator. */
  lemma {:induction false} KeptStopsIgnoreUnpaired(quotes: seq<nat>, stops: seq<nat>)
    requires |quotes| % 2 == 1
    ensures KeptStops(quotes, stops) == KeptStops(quotes[..|quotes| - 1], stops)
  {
    if stops != [] {
      KeptStopsIgnoreUnpaired(quotes, stops[..|stops| - 1]);
      UnpairedQuoteIgnored(quotes, stops[|stops| - 1]);
    }
  }

  /** The list repeats the length at its end exactly when the paragraph ends
      in a terminator: the last character is never inside a quotation pair. */
  lemma TrailingTerminatorRepeatsLength(s: seq<char>)
    requires |s| > 0
    ensures var b := Boundaries(s);
      |b| >= 3 && b[|b| - 2] == |s| <==> s[|s| - 1] in Terminators
  {
    var quotes, stops := QuotePositions(s), StopPositions(s);
    var kept := KeptStops(quotes, stops);
    var b := Boundaries(s);
    assert b == [0] + kept + [|s|];
    BoundaryShape(s);
    KeptStopsMembers(quotes, stops);
    if s[|s| - 1] in Terminators {
      PositionsMembership(s, |s|, Terminators, |s| - 1);
      assert |s| - 1 in stops;
      PositionsShape(s, |s|, QuoteMarks);
      assert !InsideQuote(quotes, |s| - 1);
      assert |s| in kept;
      var k :| 0 <= k < |kept| && kept[k] == |s|;
      assert b[k + 1] == |s|;
      assert b[|b| - 2] <= |s|;
      assert k + 1 == |b| - 2;
    }
    if |b| >= 3 && b[|b| - 2] == |s| {
      assert b[|b| - 2] == kept[|kept| - 1];
      assert kept[|kept| - 1] in kept;
      PositionsMembership(s, |s|, Terminators, |s| - 1);
    }
  }

  /** Every sentence is the text between the bounds of a span: a trimmed
      stretch of the paragraph longer than one character; the spans lie
      inside the paragraph and follow each other from left to right. */
  lemma SentencesAreOrderedTrimmedPieces(s: seq<char>)
    ensures var b := Boundaries(s);
      Windowable(s, b) &&
      var r := Spans(s, b, Windows(b));
      |SentencesOf(s)| == |r| &&
      (forall k :: 0 <= k < |r| ==> SentencesOf(s)[k] == s[r[k].0..r[k].1]) &&
      SpansWithin(r, 0, |s|) && SpansTrimmed(s, r) && SpansOrdered(r)
  {
    var b := Boundaries(s);
    BoundaryShape(s);
    SpansShape(s, b, Windows(b));
  }

  /** The empty paragraph has no sentences. */
  lemma EmptyParagraph()
    ensures SentencesOf([]) == []
  {
    var b := Boundaries([]);
    assert b == [0, 0];
    assert TrimBounds([], 0, 0) == (0, 0);
  }
}
