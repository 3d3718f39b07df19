/** The splitter as written, at the level of UTF-8 bytes. It collects the
    positions of the quotation marks and terminators as character indices,
    but uses them, and the byte length of the paragraph, as byte offsets
    when it slices the paragraph, and measures the trimmed sentences in
    bytes. On ASCII text every character is one byte and this is exactly
    `SentencesOf`; on other text it cuts in the wrong places or stops with
    a panic when an offset falls inside a character. */
module ByteSlicing {
  import opened Text
  import opened Sentences

  datatype Option<T> = None | Some(value: T)

  /** The number of bytes in the UTF-8 encoding of `c`. */
  function Utf8Width(c: char): nat
  {
    if c as int < 0x80 then 1
    else if c as int < 0x800 then 2
    else if c as int < 0x1_0000 then 3
    else 4
  }

  /** The length of `s` in bytes, as a string's `len` reports it. */
  function ByteLen(s: seq<char>): nat
  {
    if s == [] then 0 else ByteLen(s[..|s| - 1]) + Utf8Width(s[|s| - 1])
  }

  /** The character index, from `k` on, at which byte offset `off` starts,
      where `pos` is the byte offset of character `k`; `None` when `off` is
      not the start of a character (nor the end of the text). */
  function CharIndexFrom(s: seq<char>, off: nat, k: nat, pos: nat): (r: Option<nat>)
    requires k <= |s|
    ensures r.Some? ==> k <= r.value <= |s|
    decreases |s| - k
  {
    if pos == off then Some(k)
    else if k == |s| || off < pos then None
    else CharIndexFrom(s, off, k + 1, pos + Utf8Width(s[k]))
  }

  /** The character index at which byte offset `off` starts, if any. */
  function CharIndexAt(s: seq<char>, off: nat): Option<nat>
  {
    CharIndexFrom(s, off, 0, 0)
  }

  /** The character index at which each offset of `b` starts, if any. */
  function CharIndices(s: seq<char>, b: seq<nat>): (r: seq<Option<nat>>)
    ensures |r| == |b|
  {
    seq(|b|, k requires 0 <= k < |b| => CharIndexAt(s, b[k]))
  }

  /** The characters from index `i` to index `j`, or `None` (a panic) when
      an offset was not on a character boundary or the start is past the
      end. */
  function SliceAt(s: seq<char>, i: Option<nat>, j: Option<nat>): Option<seq<char>>
  {
    if i.Some? && j.Some? && i.value <= j.value <= |s| then Some(s[i.value..j.value]) else None
  }

  /** Slicing a string at byte offsets `a` and `b`. */
  function ByteSlice(s: seq<char>, a: nat, b: nat): Option<seq<char>>
  {
    SliceAt(s, CharIndexAt(s, a), CharIndexAt(s, b))
  }

  /** The text with its leading and trailing whitespace removed. */
  function Trimmed(t: seq<char>): seq<char>
  {
    var w := TrimBounds(t, 0, |t|);
    t[w.0..w.1]
  }

  /** The boundary list as written: the closing entry is the byte length. */
  function BoundariesAsWritten(s: seq<char>): seq<nat>
  {
    [0] + KeptStops(QuotePositions(s), StopPositions(s)) + [ByteLen(s)]
  }

  /** One window, between the characters found for its two offsets, trimmed:
      the sentence if it is longer than one byte, or `None` on a panic. */
  function WindowAsWritten(s: seq<char>, i: Option<nat>, j: Option<nat>): Option<seq<seq<char>>>
  {
    match SliceAt(s, i, j)
    case None => None
    case Some(piece) =>
      var t := Trimmed(piece);
      Some(if ByteLen(t) > 1 then [t] else [])
  }

  /** The first `n` windows in order, given the character index found for
      each boundary; `None` once a slice panics. */
  function CutAsWritten(s: seq<char>, idx: seq<Option<nat>>, n: nat): Option<seq<seq<char>>>
    requires n == 0 || n < |idx|
  {
    if n == 0 then Some([])
    else
      var done := CutAsWritten(s, idx, n - 1);
      var more := WindowAsWritten(s, idx[n - 1], idx[n]);
      if done.Some? && more.Some? then Some(done.value + more.value) else None
  }

  /** The sentences the splitter as written returns, or `None` if it panics. */
  function SentencesAsWritten(s: seq<char>): Option<seq<seq<char>>>
  {
    var b := BoundariesAsWritten(s);
    CutAsWritten(s, CharIndices(s, b), Windows(b))
  }

  // ---------------------------------------------------------------------
  // On ASCII text the splitter as written is the character-level splitter.
  // ---------------------------------------------------------------------

  /** An ASCII text has as many bytes as characters. */
  lemma {:induction false} AsciiByteLen(s: seq<char>)
    requires IsAscii(s)
    ensures ByteLen(s) == |s|
  {
    if s != [] {
      var front := s[..|s| - 1];
      assert IsAscii(front) by {
        forall i | 0 <= i < |front|
          ensures front[i] as int < 128
        {
          assert front[i] == s[i];
        }
      }
      AsciiByteLen(front);
    }
  }

  /** The byte length of one more character. */
  lemma ByteLenSnoc(s: seq<char>, k: nat)
    requires k < |s|
    ensures ByteLen(s[..k + 1]) == ByteLen(s[..k]) + Utf8Width(s[k])
  {
    assert s[..k + 1][..k] == s[..k];
  }

  /** The search finds the character that starts at `off`, and only such a
      character. */
  lemma {:induction false} CharIndexSound(s: seq<char>, off: nat, k: nat)
    requires k <= |s|
    ensures var r := CharIndexFrom(s, off, k, ByteLen(s[..k]));
      r.Some? ==> ByteLen(s[..r.value]) == off
    decreases |s| - k
  {
    if ByteLen(s[..k]) != off && k < |s| && off >= ByteLen(s[..k]) {
      ByteLenSnoc(s, k);
      CharIndexSound(s, off, k + 1);
    }
  }

  /** The byte length of a concatenation is the sum of the byte lengths. */
  lemma {:induction false} ByteLenAppend(a: seq<char>, c: seq<char>)
    ensures ByteLen(a + c) == ByteLen(a) + ByteLen(c)
  {
    if c != [] {
      var front := c[..|c| - 1];
      assert (a + c)[..|a + c| - 1] == a + front;
      ByteLenAppend(a, front);
    } else {
      assert a + c == a;
    }
  }

  /** Every character adds at least one byte: the byte offsets of the
      characters strictly increase. */
  lemma {:induction false} ByteLenGrows(s: seq<char>, j: nat, i: nat)
    requires j <= i <= |s|
    ensures ByteLen(s[..j]) + (i - j) <= ByteLen(s[..i])
    decreases i - j
  {
    if j < i {
      ByteLenSnoc(s, j);
      ByteLenGrows(s, j + 1, i);
    }
  }

  /** The byte offset at which character `i` starts is found at index `i`. */
  lemma {:induction false} CharIndexOfPrefix(s: seq<char>, i: nat, k: nat)
    requires k <= i <= |s|
    ensures CharIndexFrom(s, ByteLen(s[..i]), k, ByteLen(s[..k])) == Some(i)
    decreases i - k
  {
    if k < i {
      ByteLenGrows(s, k + 1, i);
      ByteLenSnoc(s, k);
      CharIndexOfPrefix(s, i, k + 1);
    }
  }

  /** A byte offset strictly inside the encoding of character `i` is not
      the start of any character. */
  lemma {:induction false} CharIndexInside(s: seq<char>, off: nat, i: nat, k: nat)
    requires k <= i + 1 && i < |s|
    requires ByteLen(s[..i]) < off < ByteLen(s[..i + 1])
    ensures CharIndexFrom(s, off, k, ByteLen(s[..k])) == None
    decreases i + 1 - k
  {
    if k <= i {
      ByteLenGrows(s, k, i);
      ByteLenSnoc(s, k);
      CharIndexInside(s, off, i, k + 1);
    }
  }

  /** In an ASCII text every offset from `k` up to the length starts a
      character, at the same index, and no offset beyond it does. */
  lemma {:induction false} AsciiCharIndex(s: seq<char>, off: nat, k: nat)
    requires IsAscii(s) && k <= |s| && k <= off
    ensures off <= |s| ==> CharIndexFrom(s, off, k, k) == Some(off)
    ensures off > |s| ==> CharIndexFrom(s, off, k, k) == None
    decreases |s| - k
  {
    if k < |s| && k != off {
      AsciiCharIndex(s, off, k + 1);
    }
  }

  /** In an ASCII text, slicing at byte offsets is slicing at indices. */
  lemma AsciiByteSlice(s: seq<char>, a: nat, b: nat)
    requires IsAscii(s) && a <= b <= |s|
    ensures ByteSlice(s, a, b) == Some(s[a..b])
  {
    AsciiCharIndex(s, a, 0);
    AsciiCharIndex(s, b, 0);
  }

  /** Skipping whitespace in a slice is skipping it in the whole text. */
  lemma {:induction false} TrimStartShift(s: seq<char>, a: nat, lo: nat, hi: nat)
    requires a <= lo <= hi <= |s|
    ensures TrimStart(s[a..hi], lo - a, hi - a) == TrimStart(s, lo, hi) - a
    decreases hi - lo
  {
    if lo < hi {
      assert s[a..hi][lo - a] == s[lo];
      if IsWhitespace(s[lo]) {
        TrimStartShift(s, a, lo + 1, hi);
      }
    }
  }

  lemma {:induction false} TrimEndShift(s: seq<char>, a: nat, lo: nat, hi: nat, top: nat)
    requires a <= lo <= hi <= top <= |s|
    ensures TrimEnd(s[a..top], lo - a, hi - a) == TrimEnd(s, lo, hi) - a
    decreases hi - lo
  {
    if lo < hi {
      assert s[a..top][hi - 1 - a] == s[hi - 1];
      if IsWhitespace(s[hi - 1]) {
        TrimEndShift(s, a, lo, hi - 1, top);
      }
    }
  }

  /** The trimmed bounds of a slice are the window's trimmed bounds, shifted. */
  lemma TrimBoundsShift(s: seq<char>, a: nat, b: nat)
    requires a <= b <= |s|
    ensures var w := TrimBounds(s, a, b);
      TrimBounds(s[a..b], 0, |s[a..b]|) == (w.0 - a, w.1 - a)
  {
    TrimStartShift(s, a, a, b);
    TrimEndShift(s, a, TrimStart(s, a, b), b, b);
  }

  /** Slicing a slice is slicing the text, at shifted bounds. */
  lemma SliceOfSlice(s: seq<char>, a: nat, b: nat, i: nat, j: nat)
    requires a <= i <= j <= b <= |s|
    ensures s[a..b][i - a..j - a] == s[i..j]
  {
    var r := s[a..b][i - a..j - a];
    assert forall k :: 0 <= k < |r| ==> r[k] == s[i..j][k];
  }

  /** Trimming a slice gives the text between the window's trimmed bounds. */
  lemma TrimmedSlice(s: seq<char>, a: nat, b: nat)
    requires a <= b <= |s|
    ensures var w := TrimBounds(s, a, b);
      Trimmed(s[a..b]) == s[w.0..w.1]
  {
    var w := TrimBounds(s, a, b);
    TrimBoundsShift(s, a, b);
    SliceOfSlice(s, a, b, w.0, w.1);
  }

  /** In an ASCII text every boundary within the text is found at its own
      index. */
  lemma AsciiCharIndices(s: seq<char>, b: seq<nat>)
    requires IsAscii(s) && forall k :: 0 <= k < |b| ==> b[k] <= |s|
    ensures forall k :: 0 <= k < |b| ==> CharIndices(s, b)[k] == Some(b[k])
  {
    forall k | 0 <= k < |b|
      ensures CharIndices(s, b)[k] == Some(b[k])
    {
      AsciiCharIndex(s, b[k], 0);
    }
  }

  /** On an ASCII text one window as written gives the window's piece. */
  lemma AsciiWindow(s: seq<char>, lo: nat, hi: nat)
    requires IsAscii(s) && lo <= hi <= |s|
    ensures WindowAsWritten(s, Some(lo), Some(hi)) == Some(Piece(s, lo, hi))
  {
    TrimmedSlice(s, lo, hi);
    var w := TrimBounds(s, lo, hi);
    var t := s[w.0..w.1];
    assert IsAscii(t) by {
      forall i | 0 <= i < |t|
        ensures t[i] as int < 128
      {
        assert t[i] == s[w.0 + i];
      }
    }
    AsciiByteLen(t);
  }

  /** On an ASCII text, the cut as written extends by the piece of one more
      window. */
  lemma AsciiCutStep(s: seq<char>, idx: seq<Option<nat>>, n: nat, lo: nat, hi: nat, done: seq<seq<char>>)
    requires IsAscii(s) && 0 < n < |idx| && lo <= hi <= |s|
    requires idx[n - 1] == Some(lo) && idx[n] == Some(hi)
    requires CutAsWritten(s, idx, n - 1) == Some(done)
    ensures CutAsWritten(s, idx, n) == Some(done + Piece(s, lo, hi))
  {
    AsciiWindow(s, lo, hi);
  }

  /** On an ASCII text, where every boundary is found at its own index, the
      cut as written never panics and gives the cut. */
  lemma {:induction false} AsciiCut(s: seq<char>, b: seq<nat>, idx: seq<Option<nat>>, n: nat)
    requires IsAscii(s) && Windowable(s, b) && n <= Windows(b)
    requires |idx| == |b| && forall k :: 0 <= k < |b| ==> idx[k] == Some(b[k])
    ensures CutAsWritten(s, idx, n) == Some(Cut(s, b, n))
  {
    if n == 0 {
      assert Cut(s, b, 0) == [];
    } else {
      AsciiCut(s, b, idx, n - 1);
      AsciiCutStep(s, idx, n, b[n - 1], b[n], Cut(s, b, n - 1));
      CutStep(s, b, n);
    }
  }

  /** On ASCII text the splitter as written returns `SentencesOf`. */
  lemma AsciiAgrees(s: seq<char>)
    requires IsAscii(s)
    ensures SentencesAsWritten(s) == Some(SentencesOf(s))
  {
    AsciiByteLen(s);
    var b := Boundaries(s);
    assert BoundariesAsWritten(s) == b;
    BoundaryShape(s);
    AsciiCharIndices(s, b);
    AsciiCut(s, b, CharIndices(s, b), Windows(b));
  }
}
