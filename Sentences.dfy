/** The quote-aware sentence splitter: it finds the quotation marks and the
    sentence terminators of a paragraph, keeps as boundaries the terminators
    that do not lie inside a quotation pair, and cuts the paragraph at those
    boundaries into trimmed sentences. */
module Sentences {
  import opened Text

  const QuoteMarks: set<char> := {'"'}
  const Terminators: set<char> := {'.', '!', '?'}

  predicate StrictlyIncreasing(r: seq<nat>)
  {
    forall i, j :: 0 <= i < j < |r| ==> r[i] < r[j]
  }

  /** `b` can be cut into windows: every entry is a position of `s` (or its
      end) and the entries never decrease. */
  predicate Windowable(s: seq<char>, b: seq<nat>)
  {
    (forall i :: 0 <= i < |b| ==> b[i] <= |s|) &&
    (forall i, j :: 0 <= i <= j < |b| ==> b[i] <= b[j])
  }

  // ---------------------------------------------------------------------
  // Step 1: positions of the quotation marks and of the terminators
  // ---------------------------------------------------------------------

  /** The positions below `k` whose character is one of `marks`, in increasing order. */
  function Positions(s: seq<char>, k: nat, marks: set<char>): seq<nat>
    requires k <= |s|
  {
    if k == 0 then []
    else Positions(s, k - 1, marks) + (if s[k - 1] in marks then [k - 1] else [])
  }

  /** The listed positions are exactly the positions below `k` that hold one
      of `marks`, each listed once, in increasing order. */
  lemma PositionsShape(s: seq<char>, k: nat, marks: set<char>)
    requires k <= |s|
    ensures var r := Positions(s, k, marks);
      (forall i :: 0 <= i < |r| ==> r[i] < k && s[r[i]] in marks) &&
      (forall i :: 0 <= i < k && s[i] in marks ==> i in r) &&
      StrictlyIncreasing(r)
  {
    PositionsSound(s, k, marks);
    PositionsComplete(s, k, marks);
    PositionsIncreasing(s, k, marks);
  }

  lemma {:induction false} PositionsSound(s: seq<char>, k: nat, marks: set<char>)
    requires k <= |s|
    ensures forall i :: 0 <= i < |Positions(s, k, marks)| ==>
      Positions(s, k, marks)[i] < k && s[Positions(s, k, marks)[i]] in marks
  {
    if k > 0 {
      PositionsSound(s, k - 1, marks);
      var front := Positions(s, k - 1, marks);
      var r := Positions(s, k, marks);
      assert r == front + (if s[k - 1] in marks then [k - 1] else []);
      forall i | 0 <= i < |r|
        ensures r[i] < k && s[r[i]] in marks
      {
        if i < |front| {
          assert r[i] == front[i];
        }
      }
    }
  }

  lemma {:induction false} PositionsComplete(s: seq<char>, k: nat, marks: set<char>)
    requires k <= |s|
    ensures forall i :: 0 <= i < k && s[i] in marks ==> i in Positions(s, k, marks)
  {
    if k > 0 {
      PositionsComplete(s, k - 1, marks);
      var front := Positions(s, k - 1, marks);
      var r := Positions(s, k, marks);
      assert r == front + (if s[k - 1] in marks then [k - 1] else []);
      forall i | 0 <= i < k && s[i] in marks
        ensures i in r
      {
        if i < k - 1 {
          assert i in front;
        }
      }
    }
  }

  lemma {:induction false} PositionsIncreasing(s: seq<char>, k: nat, marks: set<char>)
    requires k <= |s|
    ensures StrictlyIncreasing(Positions(s, k, marks))
  {
    if k > 0 {
      PositionsIncreasing(s, k - 1, marks);
      PositionsSound(s, k - 1, marks);
      var front := Positions(s, k - 1, marks);
      var r := Positions(s, k, marks);
      assert r == front + (if s[k - 1] in marks then [k - 1] else []);
      forall i, j | 0 <= i < j < |r|
        ensures r[i] < r[j]
      {
        assert r[i] == front[i];
        if j < |front| {
          assert r[j] == front[j];
        }
      }
    }
  }

  function QuotePositions(s: seq<char>): seq<nat>
  {
    Positions(s, |s|, QuoteMarks)
  }

  function StopPositions(s: seq<char>): seq<nat>
  {
    Positions(s, |s|, Terminators)
  }

  /** One pass over `s` collecting the positions of `marks`. */
  method CollectPositions(s: seq<char>, marks: set<char>) returns (ps: seq<nat>)
    ensures ps == Positions(s, |s|, marks)
  {
    ps := [];
    for i := 0 to |s|
      invariant ps == Positions(s, i, marks)
    {
      if s[i] in marks {
        ps := ps + [i];
      }
    }
  }

  // ---------------------------------------------------------------------
  // Step 2: which terminators are sentence boundaries
  // ---------------------------------------------------------------------

  /** Position `p` lies strictly between the two marks of a quotation pair:
      quotation marks are paired in order (the 1st with the 2nd, the 3rd with
      the 4th, ...), and a last unpaired mark forms no pair. */
  predicate InsideQuote(quotes: seq<nat>, p: nat)
  {
    exists i :: 0 <= i < |quotes| && i % 2 == 0 && InPair(quotes, i, p)
  }

  /** Position `p` lies strictly between quotation marks `i` and `i + 1`. */
  predicate InPair(quotes: seq<nat>, i: nat, p: nat)
  {
    i + 1 < |quotes| && quotes[i] < p < quotes[i + 1]
  }

  /** The boundaries contributed by the terminators `stops`: `p + 1` for every
      terminator `p` that is not inside a quotation pair, in the order of `stops`. */
  function KeptStops(quotes: seq<nat>, stops: seq<nat>): seq<nat>
  {
    if stops == [] then []
    else
      var p := stops[|stops| - 1];
      KeptStops(quotes, stops[..|stops| - 1]) + (if InsideQuote(quotes, p) then [] else [p + 1])
  }

  /** Every kept boundary comes from a terminator outside the quotation pairs,
      and every such terminator gives a kept boundary. */
  lemma {:induction false} KeptStopsMembers(quotes: seq<nat>, stops: seq<nat>)
    ensures forall x :: x in KeptStops(quotes, stops) ==> 1 <= x && x - 1 in stops && !InsideQuote(quotes, x - 1)
    ensures forall p :: p in stops && !InsideQuote(quotes, p) ==> p + 1 in KeptStops(quotes, stops)
  {
    if stops != [] {
      var front := stops[..|stops| - 1];
      KeptStopsMembers(quotes, front);
      assert stops == front + [stops[|stops| - 1]];
    }
  }

  /** Kept boundaries inherit the increasing order of the terminators. */
  lemma {:induction false} KeptStopsIncreasing(quotes: seq<nat>, stops: seq<nat>)
    requires StrictlyIncreasing(stops)
    ensures StrictlyIncreasing(KeptStops(quotes, stops))
  {
    if stops != [] {
      var front := stops[..|stops| - 1];
      var p := stops[|stops| - 1];
      KeptStopsIncreasing(quotes, front);
      KeptStopsMembers(quotes, front);
      var kf := KeptStops(quotes, front);
      forall k | 0 <= k < |kf|
        ensures kf[k] < p + 1
      {
        assert kf[k] in kf;
      }
    }
  }

  /** Extending the walked terminators by one adds at most that terminator's boundary. */
  lemma KeptStopsStep(quotes: seq<nat>, stops: seq<nat>, j: nat)
    requires j < |stops|
    ensures KeptStops(quotes, stops[..j + 1])
         == KeptStops(quotes, stops[..j]) + (if InsideQuote(quotes, stops[j]) then [] else [stops[j] + 1])
  {
    assert stops[..j + 1][..j] == stops[..j];
  }

  /** The boundary list of a paragraph: 0, then the kept terminator
      boundaries, then the length of the paragraph. */
  function Boundaries(s: seq<char>): seq<nat>
  {
    [0] + KeptStops(QuotePositions(s), StopPositions(s)) + [|s|]
  }

  /** Once the cursor `c` has passed every pair that closes before `p` and
      stopped at the first pair that does not, whether `p` is inside a
      quotation is decided by that one pair. */
  lemma CursorDecides(quotes: seq<nat>, c: nat, p: nat)
    requires StrictlyIncreasing(quotes)
    requires c % 2 == 0 && c <= |quotes|
    requires c > 0 ==> quotes[c - 1] < p
    requires c + 1 < |quotes| ==> p <= quotes[c + 1]
    ensures InsideQuote(quotes, p) <==> (c + 1 < |quotes| && quotes[c] < p < quotes[c + 1])
  {
    if InsideQuote(quotes, p) {
      var i :| 0 <= i < |quotes| && i % 2 == 0 && InPair(quotes, i, p);
    }
    if c + 1 < |quotes| && quotes[c] < p < quotes[c + 1] {
      assert InPair(quotes, c, p);
    }
  }

  /** The walk over the terminators: a cursor over the quotation pairs that
      only moves forward decides, for each terminator in turn, whether it is
      inside the pair under the cursor. The cursor stays even and within the
      quote list, so the two quote positions under it are read only when
      both exist, also when the number of quotation marks is odd. */
  method WalkStops(quotes: seq<nat>, stops: seq<nat>) returns (validStops: seq<nat>)
    requires StrictlyIncreasing(quotes) && StrictlyIncreasing(stops)
    ensures validStops == [0] + KeptStops(quotes, stops)
  {
    var quoteCursor := 0;
    validStops := [0];

    for j := 0 to |stops|
      invariant quoteCursor % 2 == 0 && quoteCursor <= |quotes|
      invariant quoteCursor > 0 ==> 0 < j && quotes[quoteCursor - 1] < stops[j - 1]
      invariant validStops == [0] + KeptStops(quotes, stops[..j])
    {
      var stop := stops[j];
      KeptStopsStep(quotes, stops, j);
      while |quotes[quoteCursor..]| >= 2 && quotes[quoteCursor + 1] < stop
        invariant quoteCursor % 2 == 0 && quoteCursor <= |quotes|
        invariant quoteCursor > 0 ==> quotes[quoteCursor - 1] < stop
      {
        quoteCursor := quoteCursor + 2;
      }
      CursorDecides(quotes, quoteCursor, stop);

      if |quotes[quoteCursor..]| > 1 {
        var quoteStart := quotes[quoteCursor];
        var quoteEnd := quotes[quoteCursor + 1];
        if stop > quoteStart && stop < quoteEnd {
          continue;
        }
      }
      validStops := validStops + [stop + 1];
    }
    assert stops[..|stops|] == stops;
  }

  /** The boundary classification: the positions of the quotation marks and
      of the terminators are collected, the terminators are walked, and the
      length of the paragraph closes the list. */
  method ClassifyBoundaries(s: seq<char>) returns (validStops: seq<nat>)
    ensures validStops == Boundaries(s)
  {
    var quotes := CollectPositions(s, QuoteMarks);
    var stops := CollectPositions(s, Terminators);
    PositionsShape(s, |s|, QuoteMarks);
    PositionsShape(s, |s|, Terminators);
    validStops := WalkStops(quotes, stops);
    validStops := validStops + [|s|];
  }

  // ---------------------------------------------------------------------
  // Step 3: cutting the paragraph at the boundaries
  // ---------------------------------------------------------------------

  /** The number of windows of `b`, one per pair of consecutive entries. */
  function Windows(b: seq<nat>): nat
  {
    if |b| == 0 then 0 else |b| - 1
  }

  /** For each of the first `n` windows of `b`, the bounds of the window with
      its surrounding whitespace trimmed, kept when longer than one character. */
  function Spans(s: seq<char>, b: seq<nat>, n: nat): (r: seq<(nat, nat)>)
    requires Windowable(s, b) && n <= Windows(b)
    ensures forall k :: 0 <= k < |r| ==> r[k].0 <= r[k].1 <= |s|
  {
    if n == 0 then []
    else
      var w := TrimBounds(s, b[n - 1], b[n]);
      Spans(s, b, n - 1) + (if w.0 + 1 < w.1 then [w] else [])
  }

  /** Every span lies in `[lo, hi]`. */
  predicate SpansWithin(r: seq<(nat, nat)>, lo: nat, hi: nat)
  {
    forall k :: 0 <= k < |r| ==> lo <= r[k].0 && r[k].1 <= hi
  }

  /** Every span is a trimmed stretch of `s` longer than one character. */
  predicate SpansTrimmed(s: seq<char>, r: seq<(nat, nat)>)
  {
    forall k :: 0 <= k < |r| ==> r[k].0 + 1 < r[k].1 <= |s| && IsTrimmed(s[r[k].0..r[k].1])
  }

  /** The spans follow each other from left to right without overlapping. */
  predicate SpansOrdered(r: seq<(nat, nat)>)
  {
    forall k, l :: 0 <= k < l < |r| ==> r[k].1 <= r[l].0
  }

  /** Appending a trimmed span that starts at or after `mid` to spans within
      `[lo, mid]` gives ordered, trimmed spans within `[lo, hi]`. */
  lemma SpansAppend(s: seq<char>, rf: seq<(nat, nat)>, w: (nat, nat), lo: nat, mid: nat, hi: nat)
    requires SpansWithin(rf, lo, mid) && SpansTrimmed(s, rf) && SpansOrdered(rf)
    requires lo <= mid <= w.0 && w.0 + 1 < w.1 <= hi && w.1 <= |s| && IsTrimmed(s[w.0..w.1])
    ensures SpansWithin(rf + [w], lo, hi) && SpansTrimmed(s, rf + [w]) && SpansOrdered(rf + [w])
  {
    var r := rf + [w];
    forall k | 0 <= k < |r|
      ensures lo <= r[k].0 && r[k].1 <= hi
      ensures r[k].0 + 1 < r[k].1 <= |s| && IsTrimmed(s[r[k].0..r[k].1])
    {
      if k < |rf| {
        assert r[k] == rf[k];
      }
    }
    forall k, l | 0 <= k < l < |r|
      ensures r[k].1 <= r[l].0
    {
      assert r[k] == rf[k];
      if l < |rf| {
        assert r[l] == rf[l];
      }
    }
  }

  /** Spans within `[lo, mid]` are also within `[lo, hi]` for `mid <= hi`. */
  lemma SpansWiden(rf: seq<(nat, nat)>, lo: nat, mid: nat, hi: nat)
    requires SpansWithin(rf, lo, mid) && mid <= hi
    ensures SpansWithin(rf, lo, hi)
  {
  }

  /** The spans of the first `n` windows lie between the first boundary and
      boundary `n`, each is a trimmed stretch longer than one character, and
      they follow each other from left to right without overlapping. */
  lemma {:induction false} SpansShape(s: seq<char>, b: seq<nat>, n: nat)
    requires Windowable(s, b) && n <= Windows(b)
    ensures 0 < |b| ==> SpansWithin(Spans(s, b, n), b[0], b[n])
    ensures SpansTrimmed(s, Spans(s, b, n)) && SpansOrdered(Spans(s, b, n))
  {
    if n > 0 {
      SpansShape(s, b, n - 1);
      var rf := Spans(s, b, n - 1);
      var w := TrimBounds(s, b[n - 1], b[n]);
      assert b[0] <= b[n - 1] <= b[n];
      if w.0 + 1 < w.1 {
        assert Spans(s, b, n) == rf + [w];
        SpansAppend(s, rf, w, b[0], b[n - 1], b[n]);
      } else {
        assert Spans(s, b, n) == rf;
        SpansWiden(rf, b[0], b[n - 1], b[n]);
      }
    }
  }

  /** The text of the spans, in order. */
  function Slices(s: seq<char>, spans: seq<(nat, nat)>): seq<seq<char>>
    requires forall k :: 0 <= k < |spans| ==> spans[k].0 <= spans[k].1 <= |s|
  {
    seq(|spans|, k requires 0 <= k < |spans| => s[spans[k].0..spans[k].1])
  }

  /** The sentences cut out of `s` by the first `n` windows of `b`. */
  function Cut(s: seq<char>, b: seq<nat>, n: nat): seq<seq<char>>
    requires Windowable(s, b) && n <= Windows(b)
  {
    Slices(s, Spans(s, b, n))
  }

  /** Every piece of a cut is longer than one character and trimmed. */
  lemma CutShape(s: seq<char>, b: seq<nat>, n: nat)
    requires Windowable(s, b) && n <= Windows(b)
    ensures forall k :: 0 <= k < |Cut(s, b, n)| ==> |Cut(s, b, n)[k]| > 1 && IsTrimmed(Cut(s, b, n)[k])
  {
    SpansShape(s, b, n);
    var r := Spans(s, b, n);
    assert SpansTrimmed(s, r);
    forall k | 0 <= k < |r|
      ensures |Cut(s, b, n)[k]| > 1 && IsTrimmed(Cut(s, b, n)[k])
    {
      assert Cut(s, b, n)[k] == s[r[k].0..r[k].1];
    }
  }

  /** What the window `s[lo..hi]` contributes: its trimmed text when that is
      longer than one character, else nothing. */
  function Piece(s: seq<char>, lo: nat, hi: nat): seq<seq<char>>
    requires lo <= hi <= |s|
  {
    var w := TrimBounds(s, lo, hi);
    if w.0 + 1 < w.1 then [s[w.0..w.1]] else []
  }

  /** Cutting one more window adds that window's piece. */
  lemma CutStep(s: seq<char>, b: seq<nat>, n: nat)
    requires Windowable(s, b) && 0 < n <= Windows(b)
    ensures Cut(s, b, n) == Cut(s, b, n - 1) + Piece(s, b[n - 1], b[n])
  {
  }

  /** Slices `s` between consecutive boundaries, trims each slice and keeps
      the slices longer than one character. */
  method Segment(s: seq<char>, b: seq<nat>) returns (sentences: seq<seq<char>>)
    requires Windowable(s, b)
    ensures sentences == Cut(s, b, Windows(b))
  {
    sentences := [];
    for i := 0 to Windows(b)
      invariant sentences == Cut(s, b, i)
    {
      CutStep(s, b, i + 1);
      var w := TrimBounds(s, b[i], b[i + 1]);
      var sentence := s[w.0..w.1];
      if |sentence| > 1 {
        sentences := sentences + [sentence];
      }
    }
  }

  /** The sentences of a paragraph. */
  function SentencesOf(s: seq<char>): seq<seq<char>>
  {
    var b := Boundaries(s);
    assert Windowable(s, b) by { BoundaryShape(s); }
    Cut(s, b, Windows(b))
  }

  /** The splitter: collect the marks, classify the terminators, cut. */
  method ExtractSentences(fragment: seq<char>) returns (sentences: seq<seq<char>>)
    ensures sentences == SentencesOf(fragment)
    ensures forall k :: 0 <= k < |sentences| ==> |sentences[k]| > 1 && IsTrimmed(sentences[k])
  {
    var validStops := ClassifyBoundaries(fragment);
    BoundaryShape(fragment);
    sentences := Segment(fragment, validStops);
    CutShape(fragment, validStops, Windows(validStops));
  }

  /** The boundary list starts at 0, ends at the length, never decreases, and
      only its last step can be zero (a text ending in a terminator). */
  lemma BoundaryShape(s: seq<char>)
    ensures var b := Boundaries(s);
      2 <= |b| && b[0] == 0 && b[|b| - 1] == |s| && Windowable(s, b) &&
      (forall i, j :: 0 <= i < j < |b| - 1 ==> b[i] < b[j])
  {
    var stops := StopPositions(s);
    var kept := KeptStops(QuotePositions(s), stops);
    PositionsShape(s, |s|, Terminators);
    KeptStopsMembers(QuotePositions(s), stops);
    KeptStopsIncreasing(QuotePositions(s), stops);
    forall k | 0 <= k < |kept|
      ensures 1 <= kept[k] <= |s|
    {
      assert kept[k] in kept;
    }
    Bracketed(kept, |s|);
  }

  /** An increasing list of positions in `[1, hi]`, bracketed by 0 and `hi`,
      never decreases, and increases strictly up to its last step. */
  lemma Bracketed(r: seq<nat>, hi: nat)
    requires StrictlyIncreasing(r)
    requires forall k :: 0 <= k < |r| ==> 1 <= r[k] <= hi
    ensures var b := [0] + r + [hi];
      (forall i, j :: 0 <= i <= j < |b| ==> b[i] <= b[j]) &&
      (forall i, j :: 0 <= i < j < |b| - 1 ==> b[i] < b[j])
  {
    var b := [0] + r + [hi];
    forall i, j | 0 <= i <= j < |b|
      ensures b[i] <= b[j]
    {
      if 0 < i && j < |b| - 1 {
        assert b[i] == r[i - 1] && b[j] == r[j - 1];
      } else if 0 < i < |b| - 1 {
        assert b[i] == r[i - 1];
      }
    }
    forall i, j | 0 <= i < j < |b| - 1
      ensures b[i] < b[j]
    {
      if 0 < i {
        assert b[i] == r[i - 1] && b[j] == r[j - 1];
      } else {
        assert b[j] == r[j - 1];
      }
    }
  }

  // ---------------------------------------------------------------------
  // The quote filter
  // ---------------------------------------------------------------------

  /** A sentence is quote-bearing when it holds a quotation mark anywhere. */
  function HasQuote(fragment: seq<char>): (b: bool)
    ensures b <==> exists i :: 0 <= i < |fragment| && fragment[i] in QuoteMarks
  {
    '"' in fragment
  }
}
