/** The Python string operations the bridge relies on: `str.split` with a
    one-character separator, `str.join` and `str.strip(chars)`. */
module Text {

  /** `s.split(sep)`: the runs of `s` between separators. There is always at
      least one piece, and no piece contains the separator. */
  function Split(s: string, sep: char): (pieces: seq<string>)
    ensures |pieces| >= 1
    decreases |s|
  {
    if s == [] then [[]]
    else
      var rest := Split(s[1..], sep);
      if s[0] == sep then [[]] + rest
      else [[s[0]] + rest[0]] + rest[1..]
  }

  /** The index of the first character of `s` in `chars`, or `|s|` when there is none. */
  function IndexIn(s: string, chars: set<char>): (k: nat)
    ensures k <= |s|
    decreases |s|
  {
    if s == [] then 0 else if s[0] in chars then 0 else 1 + IndexIn(s[1..], chars)
  }

  /** The text before the first `c` (all of `s` when there is none). */
  function Before(s: string, c: char): string
  {
    s[..IndexIn(s, {c})]
  }

  /** The text after the first `c` ("" when there is none). */
  function After(s: string, c: char): string
  {
    var k := IndexIn(s, {c});
    if k < |s| then s[k + 1..] else []
  }

  /** The character at the index found is in `chars`, and none before it is. */
  lemma {:induction false} IndexInShape(s: string, chars: set<char>)
    ensures var k := IndexIn(s, chars);
      (k < |s| ==> s[k] in chars) && forall i :: 0 <= i < k ==> s[i] !in chars
    decreases |s|
  {
    if s != [] && s[0] !in chars {
      IndexInShape(s[1..], chars);
    }
  }

  /** The first character in `chars` stands right after a prefix that has none. */
  lemma {:induction false} IndexInAfter(p: string, c: char, q: string, chars: set<char>)
    requires forall i :: 0 <= i < |p| ==> p[i] !in chars
    requires c in chars
    ensures IndexIn(p + [c] + q, chars) == |p|
    decreases |p|
  {
    if p != [] {
      assert (p + [c] + q)[1..] == p[1..] + [c] + q;
      IndexInAfter(p[1..], c, q, chars);
    }
  }

  /** `sep.join(pieces)`. */
  function Join(pieces: seq<string>, sep: string): string
  {
    if pieces == [] then []
    else if |pieces| == 1 then pieces[0]
    else pieces[0] + sep + Join(pieces[1..], sep)
  }

  /** Joining the pieces of a split with the same separator gives the text back. */
  lemma {:induction false} SplitThenJoin(s: string, sep: char)
    ensures Join(Split(s, sep), [sep]) == s
    decreases |s|
  {
    if s != [] {
      var rest := Split(s[1..], sep);
      SplitThenJoin(s[1..], sep);
      if s[0] != sep && |rest| > 1 {
        assert Join(rest, [sep]) == rest[0] + [sep] + Join(rest[1..], [sep]);
        assert ([s[0]] + rest[0]) + [sep] + Join(rest[1..], [sep]) == [s[0]] + Join(rest, [sep]);
      }
      assert s == [s[0]] + s[1..];
    }
  }

  /** A separator-free text is a single piece. */
  lemma {:induction false} SplitNoSeparator(s: string, sep: char)
    requires sep !in s
    ensures Split(s, sep) == [s]
    decreases |s|
  {
    if s != [] {
      SplitNoSeparator(s[1..], sep);
      assert [s[0]] + s[1..] == s;
    }
  }

  /** Splitting a text that starts with `c`: a separator starts a new piece,
      any other character joins the first piece of the rest. */
  lemma SplitCons(c: char, s: string, sep: char)
    ensures var rest := Split(s, sep);
      Split([c] + s, sep) == if c == sep then [[]] + rest else [[c] + rest[0]] + rest[1..]
  {
    assert ([c] + s)[1..] == s;
  }

  /** Splitting around one separator splits the two sides independently. */
  lemma {:induction false} SplitAround(p: string, sep: char, q: string)
    ensures Split(p + [sep] + q, sep) == Split(p, sep) + Split(q, sep)
    decreases |p|
  {
    if p == [] {
      assert p + [sep] + q == [sep] + q;
      SplitCons(sep, q, sep);
    } else {
      var tail := p[1..] + [sep] + q;
      assert p + [sep] + q == [p[0]] + tail;
      assert p == [p[0]] + p[1..];
      SplitAround(p[1..], sep, q);
      SplitCons(p[0], tail, sep);
      SplitCons(p[0], p[1..], sep);
      ConsPieces(p[0], sep, Split(p[1..], sep), Split(q, sep));
    }
  }

  /** Two separator-free texts around one separator split into those two. */
  lemma SplitTwo(p: string, sep: char, q: string)
    requires sep !in p && sep !in q
    ensures Split(p + [sep] + q, sep) == [p, q]
  {
    SplitAround(p, sep, q);
    SplitNoSeparator(p, sep);
    SplitNoSeparator(q, sep);
  }

  /** Adding a first character to the pieces `r` and then appending `right`
      is the same as adding it to `r + right`. */
  lemma ConsPieces(c: char, sep: char, r: seq<string>, right: seq<string>)
    requires |r| >= 1
    ensures var both := r + right;
      (if c == sep then [[]] + r else [[c] + r[0]] + r[1..]) + right
      == (if c == sep then [[]] + both else [[c] + both[0]] + both[1..])
  {
    var both := r + right;
    if c != sep {
      assert both[0] == r[0];
      assert both[1..] == r[1..] + right;
    }
  }

  /** Splitting separator-free pieces joined with the separator gives the pieces back. */
  lemma {:induction false} JoinThenSplit(pieces: seq<string>, sep: char)
    requires |pieces| >= 1
    requires forall i :: 0 <= i < |pieces| ==> sep !in pieces[i]
    ensures Split(Join(pieces, [sep]), sep) == pieces
    decreases |pieces|
  {
    if |pieces| == 1 {
      SplitNoSeparator(pieces[0], sep);
    } else {
      JoinThenSplit(pieces[1..], sep);
      SplitNoSeparator(pieces[0], sep);
      SplitAround(pieces[0], sep, Join(pieces[1..], [sep]));
      assert [pieces[0]] + pieces[1..] == pieces;
    }
  }

  /** The first piece of a split is the text before the first separator. */
  lemma {:induction false} SplitHead(s: string, sep: char)
    ensures Split(s, sep)[0] == s[..IndexIn(s, {sep})]
    decreases |s|
  {
    if s != [] && s[0] != sep {
      SplitHead(s[1..], sep);
      assert s[..IndexIn(s, {sep})] == [s[0]] + s[1..][..IndexIn(s[1..], {sep})];
    }
  }

  /** The second piece of a split is the text between the first and the second separator. */
  lemma SplitSecond(s: string, sep: char)
    requires sep in s
    ensures |Split(s, sep)| >= 2
    ensures Split(s, sep)[0] == Before(s, sep) && Split(s, sep)[1] == Before(After(s, sep), sep)
  {
    var k := IndexIn(s, {sep});
    IndexInShape(s, {sep});
    var rest := s[k + 1..];
    assert s == s[..k] + [sep] + rest;
    SplitAround(s[..k], sep, rest);
    SplitNoSeparator(s[..k], sep);
    SplitHead(rest, sep);
  }

  /** A split has two pieces or more exactly when the separator occurs. */
  lemma SplitCount(s: string, sep: char)
    ensures |Split(s, sep)| >= 2 <==> sep in s
  {
    if sep in s {
      SplitSecond(s, sep);
    } else {
      SplitNoSeparator(s, sep);
    }
  }

  /** `s.lstrip(chars)`. */
  function StripLeft(s: string, chars: set<char>): string
    decreases |s|
  {
    if s != [] && s[0] in chars then StripLeft(s[1..], chars) else s
  }

  /** `s.rstrip(chars)`. */
  function StripRight(s: string, chars: set<char>): string
    decreases |s|
  {
    if s != [] && s[|s| - 1] in chars then StripRight(s[..|s| - 1], chars) else s
  }

  /** `s.strip(chars)`. */
  function Strip(s: string, chars: set<char>): string
  {
    StripRight(StripLeft(s, chars), chars)
  }

  /** `lstrip` drops a prefix made only of `chars`, and what is left does not start with one. */
  lemma {:induction false} StripLeftShape(s: string, chars: set<char>)
    ensures var r := StripLeft(s, chars);
      |r| <= |s| && r == s[|s| - |r|..]
      && (forall i :: 0 <= i < |s| - |r| ==> s[i] in chars)
      && (r == [] || r[0] !in chars)
    decreases |s|
  {
    if s != [] && s[0] in chars {
      StripLeftShape(s[1..], chars);
    }
  }

  /** `rstrip` drops a suffix made only of `chars`, and what is left does not end with one. */
  lemma {:induction false} StripRightShape(s: string, chars: set<char>)
    ensures var r := StripRight(s, chars);
      |r| <= |s| && r == s[..|r|]
      && (forall i :: |r| <= i < |s| ==> s[i] in chars)
      && (r == [] || r[|r| - 1] !in chars)
    decreases |s|
  {
    if s != [] && s[|s| - 1] in chars {
      StripRightShape(s[..|s| - 1], chars);
    }
  }

  /** `strip` leaves the middle part of the text that starts where `lstrip`
      stops: only characters in `chars` are dropped, on either side, and
      neither end of what is left is in `chars`. */
  lemma StripShape(s: string, chars: set<char>)
    ensures var a := |s| - |StripLeft(s, chars)|; var r := Strip(s, chars);
      && |StripLeft(s, chars)| <= |s| && a + |r| <= |s| && r == s[a..a + |r|]
      && (forall i :: 0 <= i < a ==> s[i] in chars)
      && (forall i :: a + |r| <= i < |s| ==> s[i] in chars)
      && (r == [] || (r[0] !in chars && r[|r| - 1] !in chars))
  {
    var l := StripLeft(s, chars);
    StripLeftShape(s, chars);
    StripRightShape(l, chars);
    var a := |s| - |l|;
    var r := StripRight(l, chars);
    assert r == l[..|r|];
    assert l[..|r|] == s[a..a + |r|];
    forall i | a + |r| <= i < |s|
      ensures s[i] in chars
    {
      assert s[i] == l[i - a];
    }
  }

  /** Stripping leaves a text alone whose ends are already outside `chars`. */
  lemma StripUnchanged(s: string, chars: set<char>)
    requires s == [] || (s[0] !in chars && s[|s| - 1] !in chars)
    ensures Strip(s, chars) == s
  {
  }

  /** A run of `chars` in front of a text is what `lstrip` removes first. */
  lemma {:induction false} StripLeftAfterLead(lead: string, s: string, chars: set<char>)
    requires forall i :: 0 <= i < |lead| ==> lead[i] in chars
    ensures StripLeft(lead + s, chars) == StripLeft(s, chars)
    decreases |lead|
  {
    if lead == [] {
      assert lead + s == s;
    } else {
      assert (lead + s)[1..] == lead[1..] + s;
      StripLeftAfterLead(lead[1..], s, chars);
    }
  }

  /** Stripping removes a run of `chars` in front of a text whose ends are outside `chars`. */
  lemma StripAfterLead(lead: string, s: string, chars: set<char>)
    requires forall i :: 0 <= i < |lead| ==> lead[i] in chars
    requires s == [] || (s[0] !in chars && s[|s| - 1] !in chars)
    ensures Strip(lead + s, chars) == s
  {
    StripLeftAfterLead(lead, s, chars);
    StripUnchanged(s, chars);
  }

  /** Stripping removes one enclosing character on each side of a text whose ends are outside `chars`. */
  lemma StripEnclosed(open: char, s: string, close: char, chars: set<char>)
    requires open in chars && close in chars
    requires s == [] || (s[0] !in chars && s[|s| - 1] !in chars)
    ensures Strip([open] + s + [close], chars) == s
  {
    var t := [open] + s + [close];
    assert t[1..] == s + [close];
    assert StripLeft(t, chars) == StripLeft(s + [close], chars);
    if s == [] {
      assert StripLeft([close], chars) == StripLeft([], chars);
    } else {
      assert StripLeft(s + [close], chars) == s + [close];
      assert (s + [close])[..|s|] == s;
      assert StripRight(s + [close], chars) == StripRight(s, chars);
    }
  }
}
