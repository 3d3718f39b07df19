/** The unit tests of the splitter, each proved about the specification
    `SentencesOf`, and the quote filter on the sentences of the last one.
    Each test is proved in small steps: the mark positions, the kept
    terminators, the boundary list, the trimmed bounds of every window, and
    the cut one window at a time. Each test paragraph is written as two
    pieces of text joined together (the same characters as the test's
    string), which keeps the verifier from evaluating the definitions on a
    whole string literal at once. */
module Scenarios {
  import opened Text
  import opened Sentences
  import opened SentenceLaws

  // ----- The dog. Runs around -----

  lemma PlainSplitStops()
    ensures StopPositions("The dog." + " Runs around") == [7]
  {
    PositionsExact("The dog." + " Runs around", Terminators, [7]);
  }

  lemma PlainSplitQuotes()
    ensures QuotePositions("The dog." + " Runs around") == []
  {
    PositionsExact("The dog." + " Runs around", QuoteMarks, []);
  }

  lemma PlainSplitKept()
    ensures KeptStops([], [7]) == [8]
  {
    assert [7][..0] == [];
    assert !InsideQuote([], 7);
  }

  lemma PlainSplitKeptOf()
    ensures KeptStops(QuotePositions("The dog." + " Runs around"), StopPositions("The dog." + " Runs around")) == [8]
  {
    PlainSplitStops();
    PlainSplitQuotes();
    PlainSplitKept();
  }

  lemma PlainSplitBoundaries()
    ensures Boundaries("The dog." + " Runs around") == [0, 8, 20]
  {
    PlainSplitKeptOf();
    assert Boundaries("The dog." + " Runs around") == [0] + KeptStops(QuotePositions("The dog." + " Runs around"), StopPositions("The dog." + " Runs around")) + [20];
    assert [0] + [8] + [20] == [0, 8, 20];
  }

  lemma PlainSplitWindow0()
    ensures TrimBounds("The dog." + " Runs around", 0, 8) == (0, 8)
  {
    TrimBoundsExact("The dog." + " Runs around", 0, 8, 0, 8);
  }

  lemma PlainSplitText0()
    ensures ("The dog." + " Runs around")[0..8] == "The dog."
  {
  }

  lemma PlainSplitWindow1()
    ensures TrimBounds("The dog." + " Runs around", 8, 20) == (9, 20)
  {
    TrimBoundsExact("The dog." + " Runs around", 8, 20, 9, 20);
  }

  lemma PlainSplitText1()
    ensures ("The dog." + " Runs around")[9..20] == "Runs around"
  {
  }

  lemma PlainSplitCut1()
    ensures Windowable("The dog." + " Runs around", [0, 8, 20])
    ensures Cut("The dog." + " Runs around", [0, 8, 20], 1) == ["The dog."]
  {
    assert Windowable("The dog." + " Runs around", [0, 8, 20]);
    PlainSplitWindow0();
    PlainSplitText0();
    CutStep("The dog." + " Runs around", [0, 8, 20], 1);
  }

  lemma PlainSplitCut2()
    ensures Windowable("The dog." + " Runs around", [0, 8, 20])
    ensures Cut("The dog." + " Runs around", [0, 8, 20], 2) == ["The dog.", "Runs around"]
  {
    PlainSplitCut1();
    PlainSplitWindow1();
    PlainSplitText1();
    CutStep("The dog." + " Runs around", [0, 8, 20], 2);
  }

  /** "The dog. Runs around" splits after the period. */
  lemma PlainSplit()
    ensures SentencesOf("The dog." + " Runs around") == ["The dog.", "Runs around"]
  {
    PlainSplitBoundaries();
    PlainSplitCut2();
  }

  // ----- The dog. Runs around. -----

  lemma HangingPeriodStops()
    ensures StopPositions("The dog." + " Runs around.") == [7, 20]
  {
    PositionsExact("The dog." + " Runs around.", Terminators, [7, 20]);
  }

  lemma HangingPeriodQuotes()
    ensures QuotePositions("The dog." + " Runs around.") == []
  {
    PositionsExact("The dog." + " Runs around.", QuoteMarks, []);
  }

  lemma HangingPeriodKept()
    ensures KeptStops([], [7, 20]) == [8, 21]
  {
    KeptStopsWithoutQuotes([7, 20]);
  }

  lemma HangingPeriodKeptOf()
    ensures KeptStops(QuotePositions("The dog." + " Runs around."), StopPositions("The dog." + " Runs around.")) == [8, 21]
  {
    HangingPeriodStops();
    HangingPeriodQuotes();
    HangingPeriodKept();
  }

  lemma HangingPeriodBoundaries()
    ensures Boundaries("The dog." + " Runs around.") == [0, 8, 21, 21]
  {
    HangingPeriodKeptOf();
    assert Boundaries("The dog." + " Runs around.") == [0] + KeptStops(QuotePositions("The dog." + " Runs around."), StopPositions("The dog." + " Runs around.")) + [21];
    assert [0] + [8, 21] + [21] == [0, 8, 21, 21];
  }

  lemma HangingPeriodWindow0()
    ensures TrimBounds("The dog." + " Runs around.", 0, 8) == (0, 8)
  {
    TrimBoundsExact("The dog." + " Runs around.", 0, 8, 0, 8);
  }

  lemma HangingPeriodText0()
    ensures ("The dog." + " Runs around.")[0..8] == "The dog."
  {
  }

  lemma HangingPeriodWindow1()
    ensures TrimBounds("The dog." + " Runs around.", 8, 21) == (9, 21)
  {
    TrimBoundsExact("The dog." + " Runs around.", 8, 21, 9, 21);
  }

  lemma HangingPeriodText1()
    ensures ("The dog." + " Runs around.")[9..21] == "Runs around."
  {
  }

  lemma HangingPeriodWindow2()
    ensures TrimBounds("The dog." + " Runs around.", 21, 21) == (21, 21)
  {
  }

  lemma HangingPeriodCut1()
    ensures Windowable("The dog." + " Runs around.", [0, 8, 21, 21])
    ensures Cut("The dog." + " Runs around.", [0, 8, 21, 21], 1) == ["The dog."]
  {
    assert Windowable("The dog." + " Runs around.", [0, 8, 21, 21]);
    HangingPeriodWindow0();
    HangingPeriodText0();
    CutStep("The dog." + " Runs around.", [0, 8, 21, 21], 1);
  }

  lemma HangingPeriodCut2()
    ensures Windowable("The dog." + " Runs around.", [0, 8, 21, 21])
    ensures Cut("The dog." + " Runs around.", [0, 8, 21, 21], 2) == ["The dog.", "Runs around."]
  {
    HangingPeriodCut1();
    HangingPeriodWindow1();
    HangingPeriodText1();
    CutStep("The dog." + " Runs around.", [0, 8, 21, 21], 2);
  }

  lemma HangingPeriodCut3()
    ensures Windowable("The dog." + " Runs around.", [0, 8, 21, 21])
    ensures Cut("The dog." + " Runs around.", [0, 8, 21, 21], 3) == ["The dog.", "Runs around."]
  {
    HangingPeriodCut2();
    HangingPeriodWindow2();
    CutStep("The dog." + " Runs around.", [0, 8, 21, 21], 3);
  }

  /** "The dog. Runs around." splits after the first period; the final period
      ends the second sentence and the empty last window gives nothing. */
  lemma HangingPeriod()
    ensures SentencesOf("The dog." + " Runs around.") == ["The dog.", "Runs around."]
  {
    HangingPeriodBoundaries();
    HangingPeriodCut3();
  }

  // ----- The dog... Runs around -----

  lemma EllipsisStops()
    ensures StopPositions("The dog..." + " Runs around") == [7, 8, 9]
  {
    PositionsExact("The dog..." + " Runs around", Terminators, [7, 8, 9]);
  }

  lemma EllipsisQuotes()
    ensures QuotePositions("The dog..." + " Runs around") == []
  {
    PositionsExact("The dog..." + " Runs around", QuoteMarks, []);
  }

  lemma EllipsisKept()
    ensures KeptStops([], [7, 8, 9]) == [8, 9, 10]
  {
    KeptStopsWithoutQuotes([7, 8, 9]);
  }

  lemma EllipsisKeptOf()
    ensures KeptStops(QuotePositions("The dog..." + " Runs around"), StopPositions("The dog..." + " Runs around")) == [8, 9, 10]
  {
    EllipsisStops();
    EllipsisQuotes();
    EllipsisKept();
  }

  lemma EllipsisBoundaries()
    ensures Boundaries("The dog..." + " Runs around") == [0, 8, 9, 10, 22]
  {
    EllipsisKeptOf();
    assert Boundaries("The dog..." + " Runs around") == [0] + KeptStops(QuotePositions("The dog..." + " Runs around"), StopPositions("The dog..." + " Runs around")) + [22];
    assert [0] + [8, 9, 10] + [22] == [0, 8, 9, 10, 22];
  }

  lemma EllipsisWindow0()
    ensures TrimBounds("The dog..." + " Runs around", 0, 8) == (0, 8)
  {
    TrimBoundsExact("The dog..." + " Runs around", 0, 8, 0, 8);
  }

  lemma EllipsisText0()
    ensures ("The dog..." + " Runs around")[0..8] == "The dog."
  {
  }

  lemma EllipsisWindow1()
    ensures TrimBounds("The dog..." + " Runs around", 8, 9) == (8, 9)
  {
    TrimBoundsExact("The dog..." + " Runs around", 8, 9, 8, 9);
  }

  lemma EllipsisWindow2()
    ensures TrimBounds("The dog..." + " Runs around", 9, 10) == (9, 10)
  {
    TrimBoundsExact("The dog..." + " Runs around", 9, 10, 9, 10);
  }

  lemma EllipsisWindow3()
    ensures TrimBounds("The dog..." + " Runs around", 10, 22) == (11, 22)
  {
    TrimBoundsExact("The dog..." + " Runs around", 10, 22, 11, 22);
  }

  lemma EllipsisText3()
    ensures ("The dog..." + " Runs around")[11..22] == "Runs around"
  {
  }

  lemma EllipsisCut1()
    ensures Windowable("The dog..." + " Runs around", [0, 8, 9, 10, 22])
    ensures Cut("The dog..." + " Runs around", [0, 8, 9, 10, 22], 1) == ["The dog."]
  {
    assert Windowable("The dog..." + " Runs around", [0, 8, 9, 10, 22]);
    EllipsisWindow0();
    EllipsisText0();
    CutStep("The dog..." + " Runs around", [0, 8, 9, 10, 22], 1);
  }

  lemma EllipsisCut2()
    ensures Windowable("The dog..." + " Runs around", [0, 8, 9, 10, 22])
    ensures Cut("The dog..." + " Runs around", [0, 8, 9, 10, 22], 2) == ["The dog."]
  {
    EllipsisCut1();
    EllipsisWindow1();
    CutStep("The dog..." + " Runs around", [0, 8, 9, 10, 22], 2);
  }

  lemma EllipsisCut3()
    ensures Windowable("The dog..." + " Runs around", [0, 8, 9, 10, 22])
    ensures Cut("The dog..." + " Runs around", [0, 8, 9, 10, 22], 3) == ["The dog."]
  {
    EllipsisCut2();
    EllipsisWindow2();
    CutStep("The dog..." + " Runs around", [0, 8, 9, 10, 22], 3);
  }

  lemma EllipsisCut4()
    ensures Windowable("The dog..." + " Runs around", [0, 8, 9, 10, 22])
    ensures Cut("The dog..." + " Runs around", [0, 8, 9, 10, 22], 4) == ["The dog.", "Runs around"]
  {
    EllipsisCut3();
    EllipsisWindow3();
    EllipsisText3();
    CutStep("The dog..." + " Runs around", [0, 8, 9, 10, 22], 4);
  }

  /** "The dog... Runs around" gives the same two sentences as a single
      period: the windows between the periods hold one character each. */
  lemma Ellipsis()
    ensures SentencesOf("The dog..." + " Runs around") == ["The dog.", "Runs around"]
  {
    EllipsisBoundaries();
    EllipsisCut4();
  }

  // ----- The "dog. Runs around" does it? Yes -----

  lemma QuotedStops()
    ensures StopPositions("The \"dog. Runs around\" does it?" + " Yes") == [8, 30]
  {
    PositionsExact("The \"dog. Runs around\" does it?" + " Yes", Terminators, [8, 30]);
  }

  lemma QuotedQuotes()
    ensures QuotePositions("The \"dog. Runs around\" does it?" + " Yes") == [4, 21]
  {
    PositionsExact("The \"dog. Runs around\" does it?" + " Yes", QuoteMarks, [4, 21]);
  }

  lemma QuotedKept()
    ensures KeptStops([4, 21], [8, 30]) == [31]
  {
    assert InPair([4, 21], 0, 8);
    assert [8, 30][..1] == [8];
    assert [8][..0] == [];
  }

  lemma QuotedKeptOf()
    ensures KeptStops(QuotePositions("The \"dog. Runs around\" does it?" + " Yes"), StopPositions("The \"dog. Runs around\" does it?" + " Yes")) == [31]
  {
    QuotedStops();
    QuotedQuotes();
    QuotedKept();
  }

  lemma QuotedBoundaries()
    ensures Boundaries("The \"dog. Runs around\" does it?" + " Yes") == [0, 31, 35]
  {
    QuotedKeptOf();
    assert Boundaries("The \"dog. Runs around\" does it?" + " Yes") == [0] + KeptStops(QuotePositions("The \"dog. Runs around\" does it?" + " Yes"), StopPositions("The \"dog. Runs around\" does it?" + " Yes")) + [35];
    assert [0] + [31] + [35] == [0, 31, 35];
  }

  lemma QuotedWindow0()
    ensures TrimBounds("The \"dog. Runs around\" does it?" + " Yes", 0, 31) == (0, 31)
  {
    TrimBoundsExact("The \"dog. Runs around\" does it?" + " Yes", 0, 31, 0, 31);
  }

  lemma QuotedText0()
    ensures ("The \"dog. Runs around\" does it?" + " Yes")[0..31] == "The \"dog. Runs around\" does it?"
  {
  }

  lemma QuotedWindow1()
    ensures TrimBounds("The \"dog. Runs around\" does it?" + " Yes", 31, 35) == (32, 35)
  {
    TrimBoundsExact("The \"dog. Runs around\" does it?" + " Yes", 31, 35, 32, 35);
  }

  lemma QuotedText1()
    ensures ("The \"dog. Runs around\" does it?" + " Yes")[32..35] == "Yes"
  {
  }

  lemma QuotedCut1()
    ensures Windowable("The \"dog. Runs around\" does it?" + " Yes", [0, 31, 35])
    ensures Cut("The \"dog. Runs around\" does it?" + " Yes", [0, 31, 35], 1) == ["The \"dog. Runs around\" does it?"]
  {
    assert Windowable("The \"dog. Runs around\" does it?" + " Yes", [0, 31, 35]);
    QuotedWindow0();
    QuotedText0();
    CutStep("The \"dog. Runs around\" does it?" + " Yes", [0, 31, 35], 1);
  }

  lemma QuotedCut2()
    ensures Windowable("The \"dog. Runs around\" does it?" + " Yes", [0, 31, 35])
    ensures Cut("The \"dog. Runs around\" does it?" + " Yes", [0, 31, 35], 2) == ["The \"dog. Runs around\" does it?", "Yes"]
  {
    QuotedCut1();
    QuotedWindow1();
    QuotedText1();
    CutStep("The \"dog. Runs around\" does it?" + " Yes", [0, 31, 35], 2);
  }

  /** The period inside the quotation does not end a sentence; the question
      mark after it does. */
  lemma Quoted()
    ensures SentencesOf("The \"dog. Runs around\" does it?" + " Yes") == ["The \"dog. Runs around\" does it?", "Yes"]
  {
    QuotedBoundaries();
    QuotedCut2();
  }

  /** The quote filter: the first sentence of the last test holds a
      quotation mark and passes, the second does not. */
  lemma QuoteFilter()
    ensures HasQuote("The \"dog. Runs around\" does it?")
    ensures !HasQuote("Yes")
  {
    assert "The \"dog. Runs around\" does it?"[4] == '"';
  }
}
