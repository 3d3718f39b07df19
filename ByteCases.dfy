/** Two paragraphs with a character outside ASCII, on which the splitter as
    written (`SentencesAsWritten`) and the character-level splitter
    (`SentencesOf`) part ways. In "é. Ok" the accented letter takes two
    bytes, so every boundary after it is one byte short: the period is cut
    off the first sentence and lands at the head of the second. In "éé. Ok"
    the boundary after the period falls between the two bytes of the second
    letter, and slicing there panics. Each paragraph is written as two
    pieces of text joined together, which keeps the verifier from
    evaluating the definitions on a whole string literal at once. */
module ByteCases {
  import opened Text
  import opened Sentences
  import opened SentenceLaws
  import opened ByteSlicing

  // ----- é. Ok -----

  lemma AccentStops()
    ensures StopPositions("\U{E9}." + " Ok") == [1]
  {
    PositionsExact("\U{E9}." + " Ok", Terminators, [1]);
  }

  lemma AccentQuotes()
    ensures QuotePositions("\U{E9}." + " Ok") == []
  {
    PositionsExact("\U{E9}." + " Ok", QuoteMarks, []);
  }

  lemma AccentKept()
    ensures KeptStops(QuotePositions("\U{E9}." + " Ok"), StopPositions("\U{E9}." + " Ok")) == [2]
  {
    AccentStops();
    AccentQuotes();
    assert [1][..0] == [];
    assert !InsideQuote([], 1);
  }

  lemma AccentByteLen()
    ensures ByteLen("\U{E9}." + " Ok") == 6
  {
    ByteLenAppend("\U{E9}.", " Ok");
    AsciiByteLen(" Ok");
    assert ByteLen("\U{E9}.") == 3;
  }

  lemma AccentBoundariesAsWritten()
    ensures BoundariesAsWritten("\U{E9}." + " Ok") == [0, 2, 6]
  {
    AccentKept();
    AccentByteLen();
  }

  /** Byte offset 2 is the start of the period, character 1. */
  lemma AccentIndex1()
    ensures CharIndexAt("\U{E9}." + " Ok", 2) == Some(1)
  {
    var s := "\U{E9}." + " Ok";
    assert s[..1] == "\U{E9}";
    assert ByteLen(s[..1]) == 2;
    CharIndexOfPrefix(s, 1, 0);
  }

  /** Byte offset 6 is the end of the text, character 5. */
  lemma AccentIndex2()
    ensures CharIndexAt("\U{E9}." + " Ok", 6) == Some(5)
  {
    var s := "\U{E9}." + " Ok";
    assert s[..5] == s;
    AccentByteLen();
    CharIndexOfPrefix(s, 5, 0);
  }

  lemma AccentIndices()
    ensures CharIndices("\U{E9}." + " Ok", [0, 2, 6]) == [Some(0), Some(1), Some(5)]
  {
    AccentIndex1();
    AccentIndex2();
  }

  lemma AccentWindow0AsWritten()
    ensures WindowAsWritten("\U{E9}." + " Ok", Some(0), Some(1)) == Some(["\U{E9}"])
  {
    assert ("\U{E9}." + " Ok")[0..1] == "\U{E9}";
    TrimBoundsExact("\U{E9}", 0, 1, 0, 1);
    assert Trimmed("\U{E9}") == "\U{E9}";
    assert ByteLen("\U{E9}") == 2;
  }

  lemma AccentWindow1AsWritten()
    ensures WindowAsWritten("\U{E9}." + " Ok", Some(1), Some(5)) == Some([". Ok"])
  {
    assert ("\U{E9}." + " Ok")[1..5] == ". Ok";
    TrimBoundsExact(". Ok", 0, 4, 0, 4);
    assert Trimmed(". Ok") == ". Ok";
    AsciiByteLen(". Ok");
  }

  lemma AccentCutAsWritten()
    ensures CutAsWritten("\U{E9}." + " Ok", [Some(0), Some(1), Some(5)], 2) == Some(["\U{E9}", ". Ok"])
  {
    var s, idx := "\U{E9}." + " Ok", [Some(0), Some(1), Some(5)];
    assert idx[0] == Some(0) && idx[1] == Some(1) && idx[2] == Some(5);
    AccentWindow0AsWritten();
    AccentWindow1AsWritten();
    assert CutAsWritten(s, idx, 0) == Some([]);
    assert CutAsWritten(s, idx, 1) == Some([] + ["\U{E9}"]);
    assert [] + ["\U{E9}"] == ["\U{E9}"];
    assert CutAsWritten(s, idx, 2) == Some(["\U{E9}"] + [". Ok"]);
    assert ["\U{E9}"] + [". Ok"] == ["\U{E9}", ". Ok"];
  }

  /** As written, "é. Ok" splits into "é" and ". Ok": the period is cut off
      its sentence, and the one-letter "é" is kept because it is two bytes
      long. */
  lemma AccentAsWritten()
    ensures SentencesAsWritten("\U{E9}." + " Ok") == Some(["\U{E9}", ". Ok"])
  {
    AccentBoundariesAsWritten();
    AccentIndices();
    AccentCutAsWritten();
  }

  lemma AccentBoundaries()
    ensures Boundaries("\U{E9}." + " Ok") == [0, 2, 5]
  {
    AccentKept();
  }

  lemma AccentCut1()
    ensures Windowable("\U{E9}." + " Ok", [0, 2, 5])
    ensures Cut("\U{E9}." + " Ok", [0, 2, 5], 1) == ["\U{E9}."]
  {
    TrimBoundsExact("\U{E9}." + " Ok", 0, 2, 0, 2);
    assert ("\U{E9}." + " Ok")[0..2] == "\U{E9}.";
    CutStep("\U{E9}." + " Ok", [0, 2, 5], 1);
  }

  lemma AccentCut2()
    ensures Windowable("\U{E9}." + " Ok", [0, 2, 5])
    ensures Cut("\U{E9}." + " Ok", [0, 2, 5], 2) == ["\U{E9}.", "Ok"]
  {
    AccentCut1();
    TrimBoundsExact("\U{E9}." + " Ok", 2, 5, 3, 5);
    assert ("\U{E9}." + " Ok")[3..5] == "Ok";
    CutStep("\U{E9}." + " Ok", [0, 2, 5], 2);
  }

  /** At the level of characters, "é. Ok" splits into "é." and "Ok". */
  lemma AccentIntended()
    ensures SentencesOf("\U{E9}." + " Ok") == ["\U{E9}.", "Ok"]
  {
    AccentBoundaries();
    AccentCut2();
  }

  // ----- éé. Ok -----

  lemma PanicStops()
    ensures StopPositions("\U{E9}\U{E9}." + " Ok") == [2]
  {
    PositionsExact("\U{E9}\U{E9}." + " Ok", Terminators, [2]);
  }

  lemma PanicQuotes()
    ensures QuotePositions("\U{E9}\U{E9}." + " Ok") == []
  {
    PositionsExact("\U{E9}\U{E9}." + " Ok", QuoteMarks, []);
  }

  lemma PanicKept()
    ensures KeptStops(QuotePositions("\U{E9}\U{E9}." + " Ok"), StopPositions("\U{E9}\U{E9}." + " Ok")) == [3]
  {
    PanicStops();
    PanicQuotes();
    assert [2][..0] == [];
    assert !InsideQuote([], 2);
  }

  /** Byte offset 3 lies between the two bytes of the second letter. */
  lemma PanicIndex()
    ensures CharIndexAt("\U{E9}\U{E9}." + " Ok", 3) == None
  {
    var s := "\U{E9}\U{E9}." + " Ok";
    assert s[..1] == "\U{E9}";
    assert ByteLen(s[..1]) == 2;
    assert s[..2] == "\U{E9}\U{E9}";
    assert ByteLen(s[..2]) == 4;
    CharIndexInside(s, 3, 1, 0);
  }

  /** As written, "éé. Ok" panics: the first window ends inside a letter. */
  lemma PanicAsWritten()
    ensures SentencesAsWritten("\U{E9}\U{E9}." + " Ok") == None
  {
    var s := "\U{E9}\U{E9}." + " Ok";
    PanicKept();
    var b := BoundariesAsWritten(s);
    assert b[1] == 3;
    PanicIndex();
    var idx := CharIndices(s, b);
    assert idx[1] == None;
    assert CutAsWritten(s, idx, 1) == None;
  }

  lemma PanicBoundaries()
    ensures Boundaries("\U{E9}\U{E9}." + " Ok") == [0, 3, 6]
  {
    PanicKept();
  }

  lemma PanicCut1()
    ensures Windowable("\U{E9}\U{E9}." + " Ok", [0, 3, 6])
    ensures Cut("\U{E9}\U{E9}." + " Ok", [0, 3, 6], 1) == ["\U{E9}\U{E9}."]
  {
    TrimBoundsExact("\U{E9}\U{E9}." + " Ok", 0, 3, 0, 3);
    assert ("\U{E9}\U{E9}." + " Ok")[0..3] == "\U{E9}\U{E9}.";
    CutStep("\U{E9}\U{E9}." + " Ok", [0, 3, 6], 1);
  }

  lemma PanicCut2()
    ensures Windowable("\U{E9}\U{E9}." + " Ok", [0, 3, 6])
    ensures Cut("\U{E9}\U{E9}." + " Ok", [0, 3, 6], 2) == ["\U{E9}\U{E9}.", "Ok"]
  {
    PanicCut1();
    TrimBoundsExact("\U{E9}\U{E9}." + " Ok", 3, 6, 4, 6);
    assert ("\U{E9}\U{E9}." + " Ok")[4..6] == "Ok";
    CutStep("\U{E9}\U{E9}." + " Ok", [0, 3, 6], 2);
  }

  /** At the level of characters, "éé. Ok" splits into "éé." and "Ok". */
  lemma PanicIntended()
    ensures SentencesOf("\U{E9}\U{E9}." + " Ok") == ["\U{E9}\U{E9}.", "Ok"]
  {
    PanicBoundaries();
    PanicCut2();
  }
}
