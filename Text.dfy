/** Character classes and whitespace trimming. Text is `seq<char>`, one
    entry per Unicode scalar value. */
module Text {

  /** Every character of `s` is a 7-bit ASCII character. */
  predicate IsAscii(s: seq<char>)
  {
    forall i :: 0 <= i < |s| ==> s[i] as int < 128
  }

  /** The characters with the Unicode White_Space property, which are the
      ones a string trim removes: tab, line feed, vertical tab, form feed,
      carriage return (9 to 13), space, next line (0x85), no-break space
      (0xA0), the Ogham space mark (0x1680), the spaces 0x2000 to 0x200A,
      the line and paragraph separators (0x2028, 0x2029), the narrow
      no-break space (0x202F), the medium mathematical space (0x205F) and
      the ideographic space (0x3000). */
  predicate IsWhitespace(c: char)
  {
    var n := c as int;
    (9 <= n <= 13) || n == 0x20 || n == 0x85 || n == 0xA0 || n == 0x1680 ||
    (0x2000 <= n <= 0x200A) || n == 0x2028 || n == 0x2029 || n == 0x202F ||
    n == 0x205F || n == 0x3000
  }

  /** Neither the first nor the last character of `s` is whitespace. */
  predicate IsTrimmed(s: seq<char>)
  {
    |s| == 0 || (!IsWhitespace(s[0]) && !IsWhitespace(s[|s| - 1]))
  }

  /** The first position in `[lo, hi)` that is not whitespace, or `hi`. */
  function TrimStart(s: seq<char>, lo: nat, hi: nat): (a: nat)
    requires lo <= hi <= |s|
    ensures lo <= a <= hi
    ensures a < hi ==> !IsWhitespace(s[a])
    decreases hi - lo
  {
    if lo == hi || !IsWhitespace(s[lo]) then lo else TrimStart(s, lo + 1, hi)
  }

  /** Everything `TrimStart` skips is whitespace. */
  lemma {:induction false} TrimStartSkipsWhitespace(s: seq<char>, lo: nat, hi: nat)
    requires lo <= hi <= |s|
    ensures forall i :: lo <= i < TrimStart(s, lo, hi) ==> IsWhitespace(s[i])
    decreases hi - lo
  {
    if lo < hi && IsWhitespace(s[lo]) {
      TrimStartSkipsWhitespace(s, lo + 1, hi);
    }
  }

  /** One past the last position in `[lo, hi)` that is not whitespace, or `lo`. */
  function TrimEnd(s: seq<char>, lo: nat, hi: nat): (e: nat)
    requires lo <= hi <= |s|
    ensures lo <= e <= hi
    ensures lo < e ==> !IsWhitespace(s[e - 1])
    decreases hi - lo
  {
    if lo == hi || !IsWhitespace(s[hi - 1]) then hi else TrimEnd(s, lo, hi - 1)
  }

  /** Everything `TrimEnd` cuts off is whitespace. */
  lemma {:induction false} TrimEndSkipsWhitespace(s: seq<char>, lo: nat, hi: nat)
    requires lo <= hi <= |s|
    ensures forall i :: TrimEnd(s, lo, hi) <= i < hi ==> IsWhitespace(s[i])
    decreases hi - lo
  {
    if lo < hi && IsWhitespace(s[hi - 1]) {
      TrimEndSkipsWhitespace(s, lo, hi - 1);
    }
  }

  /** The bounds `(a, e)` of the window `s[lo..hi]` with its leading and
      trailing whitespace removed: `s[a..e]` is the trimmed window, and only
      whitespace was cut off on either side. */
  function TrimBounds(s: seq<char>, lo: nat, hi: nat): (r: (nat, nat))
    requires lo <= hi <= |s|
    ensures lo <= r.0 <= r.1 <= hi
    ensures IsTrimmed(s[r.0..r.1])
  {
    var a := TrimStart(s, lo, hi);
    (a, TrimEnd(s, a, hi))
  }

  /** Trimming cuts off only whitespace, on either side. */
  lemma TrimBoundsCutsWhitespace(s: seq<char>, lo: nat, hi: nat)
    requires lo <= hi <= |s|
    ensures var r := TrimBounds(s, lo, hi);
      (forall i :: lo <= i < r.0 ==> IsWhitespace(s[i])) &&
      (forall i :: r.1 <= i < hi ==> IsWhitespace(s[i]))
  {
    TrimStartSkipsWhitespace(s, lo, hi);
    TrimEndSkipsWhitespace(s, TrimStart(s, lo, hi), hi);
  }

  /** The trimmed bounds of a window are the unique pair that cuts off only
      whitespace and leaves no whitespace at either end. */
  lemma TrimBoundsExact(s: seq<char>, lo: nat, hi: nat, a: nat, e: nat)
    requires lo <= a < e <= hi <= |s|
    requires forall i :: lo <= i < a ==> IsWhitespace(s[i])
    requires forall i :: e <= i < hi ==> IsWhitespace(s[i])
    requires !IsWhitespace(s[a]) && !IsWhitespace(s[e - 1])
    ensures TrimBounds(s, lo, hi) == (a, e)
  {
    TrimStartSkipsWhitespace(s, lo, hi);
    TrimEndSkipsWhitespace(s, a, hi);
  }
}
