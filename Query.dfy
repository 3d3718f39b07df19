/** The search query clean-up: runs of spaces are collapsed to one space
    and leading spaces dropped (a fold over the characters), then every
    space becomes `+` and the query is lowercased, ready to be placed in a
    search URL. */
module Query {

  /** One step of the fold: a space is appended only after a character that
      is not a space; any other character is always appended. */
  function Push(acc: seq<char>, c: char): seq<char>
  {
    if c == ' ' then
      if acc != [] && acc[|acc| - 1] != ' ' then acc + [' '] else acc
    else
      acc + [c]
  }

  /** The fold of `Push` over the query, from its first character to its last. */
  function Collapse(q: seq<char>): seq<char>
  {
    if q == [] then [] else Push(Collapse(q[..|q| - 1]), q[|q| - 1])
  }

  // ---------------------------------------------------------------------
  // An independent description of the fold: drop the leading spaces, then
  // squeeze every run of spaces into one space.
  // ---------------------------------------------------------------------

  function DropLeadingSpaces(s: seq<char>): seq<char>
  {
    if s != [] && s[0] == ' ' then DropLeadingSpaces(s[1..]) else s
  }

  function Squeeze(s: seq<char>): seq<char>
  {
    if |s| < 2 then s
    else if s[0] == ' ' && s[1] == ' ' then Squeeze(s[1..])
    else [s[0]] + Squeeze(s[1..])
  }

  /** Text in the shape the fold produces: no leading space and no two
      spaces in a row. */
  predicate Collapsed(s: seq<char>)
  {
    (s != [] ==> s[0] != ' ') &&
    forall i :: 0 <= i < |s| - 1 ==> s[i] != ' ' || s[i + 1] != ' '
  }

  /** The characters of `s` that are not spaces, in order. */
  function NonSpaces(s: seq<char>): seq<char>
  {
    if s == [] then [] else NonSpaces(s[..|s| - 1]) + (if s[|s| - 1] == ' ' then [] else [s[|s| - 1]])
  }

  /** Appending a character to the text adds at most that character to the
      text without its leading spaces. */
  lemma {:induction false} DropLeadingSpacesSnoc(s: seq<char>, c: char)
    ensures DropLeadingSpaces(s + [c]) ==
      if DropLeadingSpaces(s) == [] && c == ' ' then [] else DropLeadingSpaces(s) + [c]
  {
    if s != [] && s[0] == ' ' {
      assert (s + [c])[1..] == s[1..] + [c];
      DropLeadingSpacesSnoc(s[1..], c);
    } else if s == [] {
      assert [c][1..] == [];
    }
  }

  /** Squeezing keeps the first and the last character. */
  lemma {:induction false} SqueezeEnds(s: seq<char>)
    ensures |Squeeze(s)| == 0 <==> |s| == 0
    ensures s != [] ==> Squeeze(s)[0] == s[0] && Squeeze(s)[|Squeeze(s)| - 1] == s[|s| - 1]
    decreases |s|
  {
    if |s| >= 2 {
      SqueezeEnds(s[1..]);
    }
  }

  /** Appending a character to squeezed text adds it unless it extends a
      run of spaces. */
  lemma {:induction false} SqueezeSnoc(s: seq<char>, c: char)
    ensures Squeeze(s + [c]) ==
      if s != [] && s[|s| - 1] == ' ' && c == ' ' then Squeeze(s) else Squeeze(s) + [c]
    decreases |s|
  {
    if |s| >= 2 {
      assert (s + [c])[1..] == s[1..] + [c];
      SqueezeSnoc(s[1..], c);
    } else if |s| == 1 {
      assert (s + [c])[1..] == [c];
    }
  }

  /** The fold is exactly "drop the leading spaces, then squeeze the runs
      of spaces". */
  lemma {:induction false} CollapseIsSqueeze(q: seq<char>)
    ensures Collapse(q) == Squeeze(DropLeadingSpaces(q))
  {
    if q != [] {
      var front, c := q[..|q| - 1], q[|q| - 1];
      assert q == front + [c];
      CollapseIsSqueeze(front);
      var t := DropLeadingSpaces(front);
      var acc := Collapse(front);
      assert Collapse(q) == Push(acc, c);
      DropLeadingSpacesSnoc(front, c);
      SqueezeEnds(t);
      if c == ' ' && t == [] {
        assert DropLeadingSpaces(q) == [];
      } else {
        assert DropLeadingSpaces(q) == t + [c];
        SqueezeSnoc(t, c);
      }
    }
  }

  /** The fold never produces a leading space or two spaces in a row, and
      keeps every character that is not a space, in order. */
  lemma {:induction false} CollapseShape(q: seq<char>)
    ensures Collapsed(Collapse(q))
    ensures NonSpaces(Collapse(q)) == NonSpaces(q)
  {
    if q != [] {
      var front, c := q[..|q| - 1], q[|q| - 1];
      CollapseShape(front);
      var acc := Collapse(front);
      var r := Collapse(q);
      assert r == Push(acc, c);
      if r != acc {
        assert r == acc + [c];
        assert r[..|r| - 1] == acc;
        forall i | 0 <= i < |r| - 1
          ensures r[i] != ' ' || r[i + 1] != ' '
        {
          if i < |r| - 2 {
            assert r[i] == acc[i] && r[i + 1] == acc[i + 1];
          }
        }
      }
    }
  }

  /** Text already in collapsed shape is left as it is. */
  lemma {:induction false} CollapseIdempotent(q: seq<char>)
    requires Collapsed(q)
    ensures Collapse(q) == q
  {
    if q != [] {
      var front, c := q[..|q| - 1], q[|q| - 1];
      assert Collapsed(front) by {
        forall i | 0 <= i < |front| - 1
          ensures front[i] != ' ' || front[i + 1] != ' '
        {
          assert front[i] == q[i] && front[i + 1] == q[i + 1];
        }
      }
      CollapseIdempotent(front);
      assert q == front + [c];
      if c == ' ' {
        assert q[|q| - 2] != ' ';
      }
    }
  }

  /** Folding twice gives what folding once gives. */
  lemma CollapseTwice(q: seq<char>)
    ensures Collapse(Collapse(q)) == Collapse(q)
  {
    CollapseShape(q);
    CollapseIdempotent(Collapse(q));
  }

  /** The ASCII lowercase mapping: `A` to `Z` become `a` to `z`. */
  function LowerChar(c: char): char
  {
    if 'A' <= c <= 'Z' then (c as int + 32) as char else c
  }

  predicate IsUpper(c: char)
  {
    'A' <= c <= 'Z'
  }

  /** The query as it goes into the search URL: collapsed, each space
      turned into `+`, each capital letter turned into its lowercase letter,
      every other character kept. */
  function NormaliseQuery(q: seq<char>): (r: seq<char>)
    ensures |r| == |Collapse(q)|
    ensures forall i :: 0 <= i < |r| ==> r[i] != ' ' && !IsUpper(r[i])
    ensures forall i :: 0 <= i < |r| ==> (r[i] == '+' <==> Collapse(q)[i] in {' ', '+'})
    ensures forall i :: 0 <= i < |r| && Collapse(q)[i] != ' ' && !IsUpper(Collapse(q)[i]) ==> r[i] == Collapse(q)[i]
    ensures forall i :: 0 <= i < |r| && IsUpper(Collapse(q)[i]) ==> r[i] as int == Collapse(q)[i] as int + 32
  {
    var c := Collapse(q);
    seq(|c|, i requires 0 <= i < |c| => LowerChar(if c[i] == ' ' then '+' else c[i]))
  }

  /** Every character of the folded query comes from the query. */
  lemma {:induction false} CollapseFromQuery(q: seq<char>)
    ensures forall i :: 0 <= i < |Collapse(q)| ==> Collapse(q)[i] in q
  {
    if q != [] {
      var front := q[..|q| - 1];
      CollapseFromQuery(front);
      forall i | 0 <= i < |Collapse(q)|
        ensures Collapse(q)[i] in q
      {
        if i < |Collapse(front)| {
          assert Collapse(q)[i] == Collapse(front)[i];
          assert Collapse(front)[i] in front;
        } else {
          assert Collapse(q)[i] == q[|q| - 1];
        }
      }
    }
  }

  /** When the query holds no `+` of its own, the result never starts with
      `+` and never has two `+` in a row: each `+` stands for one run of
      spaces between two words (or after the last one). */
  lemma PlusSeparatesWords(q: seq<char>)
    requires '+' !in q
    ensures var r := NormaliseQuery(q);
      (r != [] ==> r[0] != '+') &&
      forall i :: 0 <= i < |r| - 1 ==> r[i] != '+' || r[i + 1] != '+'
  {
    CollapseShape(q);
    CollapseFromQuery(q);
    var c := Collapse(q);
    assert forall i :: 0 <= i < |c| ==> c[i] != '+';
  }

  /** Normalising a normalised query changes nothing. */
  lemma NormaliseIdempotent(q: seq<char>)
    ensures NormaliseQuery(NormaliseQuery(q)) == NormaliseQuery(q)
  {
    var r := NormaliseQuery(q);
    CollapseShape(q);
    assert Collapsed(r);
    CollapseIdempotent(r);
  }

  /** Folding a text made only of spaces gives nothing. */
  lemma {:induction false} CollapseSpaces(sp: seq<char>)
    requires forall i :: 0 <= i < |sp| ==> sp[i] == ' '
    ensures Collapse(sp) == []
  {
    if sp != [] {
      CollapseSpaces(sp[..|sp| - 1]);
    }
  }

  /** A word without spaces is copied after what the fold produced so far. */
  lemma {:induction false} CollapseWord(q: seq<char>, w: seq<char>)
    requires ' ' !in w
    ensures Collapse(q + w) == Collapse(q) + w
  {
    if w != [] {
      var front, c := w[..|w| - 1], w[|w| - 1];
      assert (q + w)[..|q + w| - 1] == q + front;
      assert c in w;
      assert ' ' !in front by {
        forall x | x in front
          ensures x in w
        {
          var i :| 0 <= i < |front| && front[i] == x;
          assert w[i] == x;
        }
      }
      CollapseWord(q, front);
      assert (q + w)[|q + w| - 1] == c;
      assert w == front + [c];
      assert Collapse(q) + w == Collapse(q) + front + [c];
    } else {
      assert q + w == q;
    }
  }

  /** A run of spaces after a character that is not a space becomes one space. */
  lemma {:induction false} CollapseGap(q: seq<char>, sp: seq<char>)
    requires Collapse(q) != [] && Collapse(q)[|Collapse(q)| - 1] != ' '
    requires sp != [] && forall i :: 0 <= i < |sp| ==> sp[i] == ' '
    ensures Collapse(q + sp) == Collapse(q) + [' ']
  {
    var front := sp[..|sp| - 1];
    assert (q + sp)[..|q + sp| - 1] == q + front;
    assert q + sp == (q + front) + [' '];
    if front == [] {
      assert q + front == q;
    } else {
      CollapseGap(q, front);
    }
  }

  lemma BorisCollapsed()
    ensures Collapse("  Boris") == "Boris"
  {
    CollapseSpaces("  ");
    CollapseWord("  ", "Boris");
    assert "  " + "Boris" == "  Boris";
  }

  lemma BorisGapCollapsed()
    ensures Collapse("  Boris   ") == "Boris "
  {
    BorisCollapsed();
    CollapseGap("  Boris", "   ");
    assert "  Boris" + "   " == "  Boris   ";
  }

  lemma BorisJohnsonCollapsed()
    ensures Collapse("  Boris   Johnson") == "Boris Johnson"
  {
    BorisGapCollapsed();
    CollapseWord("  Boris   ", "Johnson");
    assert "  Boris   " + "Johnson" == "  Boris   Johnson";
  }

  /** The query the program searches for, "boris johnson", becomes
      "boris+johnson". */
  lemma MainQuery()
    ensures NormaliseQuery("boris johnson") == "boris+johnson"
  {
    CollapseIdempotent("boris johnson");
  }

  /** The query "  Boris   Johnson" becomes "boris+johnson". */
  lemma BorisJohnson()
    ensures NormaliseQuery("  Boris   Johnson") == "boris+johnson"
  {
    BorisJohnsonCollapsed();
  }
}
