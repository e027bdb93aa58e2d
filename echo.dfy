/** The encoder and the decoder read against each other: the `key=value;`
    text `parse_arguments_in` writes for numeric arguments is decoded by
    `parse_arguments_out` back into the same numbers. */
module Echo {
  import opened Wrappers
  import opened Text
  import opened Numbers
  import opened Dicts
  import opened Protocol
  import opened Encoder
  import opened Decoder

  /** The characters that structure the command and the reply texts. */
  const Punctuation: set<char> := {'[', ']', ',', ';', '='}

  /** The characters that end a reply item or its key. */
  const Separators: set<char> := {';', '='}

  /** No character of `s` is in `chars`. */
  predicate Avoids(s: string, chars: set<char>)
  {
    forall i :: 0 <= i < |s| ==> s[i] !in chars
  }

  predicate Numeric(a: Atom)
  {
    a.IntAtom? || a.FloatAtom?
  }

  /** An argument value the reply syntax carries back: a number, or a
      non-empty list of ints or of floats. */
  predicate EchoSafe(v: Arg)
  {
    match v
    case Scalar(a) => Numeric(a)
    case List(xs) =>
      && |xs| >= 1
      && ((forall i :: 0 <= i < |xs| ==> xs[i].IntAtom?) || (forall i :: 0 <= i < |xs| ==> xs[i].FloatAtom?))
    case Array(_) => false
  }

  /** A key the reply syntax carries back: no `=` or `;` in it, and neither a
      buffer key nor one of the keys decoded as strings. */
  predicate PlainKey(key: string)
  {
    Avoids(key, Separators) && !IsBufferKey(key) && !IsStringKey(key)
  }

  predicate Echoes(kv: (string, Arg))
  {
    PlainKey(kv.0) && EchoSafe(kv.1)
  }

  /** What an echoed value decodes to: the same numbers, and a one-element
      list as its element. */
  function Echo(v: Arg): Value
    requires EchoSafe(v)
  {
    match v
    case Scalar(a) => if a.IntAtom? then Int(a.i) else Float(a.d)
    case List(xs) =>
      if |xs| == 1 then (if xs[0].IntAtom? then Int(xs[0].i) else Float(xs[0].d))
      else if xs[0].IntAtom? then IntList(IntsOf(xs))
      else FloatList(DecimalsOf(xs))
  }

  /** The ints of a list of int atoms. */
  function IntsOf(xs: seq<Atom>): seq<int>
  {
    seq(|xs|, i requires 0 <= i < |xs| => if xs[i].IntAtom? then xs[i].i else 0)
  }

  /** The decimals of a list of float atoms. */
  function DecimalsOf(xs: seq<Atom>): seq<Decimal>
  {
    seq(|xs|, i requires 0 <= i < |xs| => if xs[i].FloatAtom? then xs[i].d else Decimal(0, 0))
  }

  /** The text after `key=` in an argument's segment. */
  function ValueText(v: Arg): string
  {
    Strip(ArgStr(v), Brackets)
  }

  /** `str(x)` of each element of a list. */
  function Texts(xs: seq<Atom>): seq<string>
  {
    seq(|xs|, i requires 0 <= i < |xs| => AtomStr(xs[i]))
  }

  /** `str(i)` is a minus sign and digits: no punctuation. */
  lemma IntTextAvoids(i: int)
    ensures Avoids(IntText(i), Punctuation)
  {
    if i < 0 {
      var t := IntText(i);
      assert forall k :: 1 <= k < |t| ==> t[k] == NatText(-i)[k - 1];
    }
  }

  /** The text of a number has no punctuation, and a list prints it as it is. */
  lemma NumeralAvoids(a: Atom)
    requires Numeric(a)
    ensures Avoids(AtomStr(a), Punctuation) && AtomRepr(a) == AtomStr(a)
  {
    if a.FloatAtom? {
      var m := IntText(a.d.mantissa);
      var e := IntText(a.d.exponent);
      var t := FloatText(a.d);
      IntTextAvoids(a.d.mantissa);
      IntTextAvoids(a.d.exponent);
      assert forall k :: 0 <= k < |m| ==> t[k] == m[k];
      assert forall k :: |m| + 1 <= k < |t| ==> t[k] == e[k - |m| - 1];
    } else {
      IntTextAvoids(a.i);
    }
  }

  lemma SpaceAvoids()
    ensures Avoids(" ", Punctuation)
  {
  }

  lemma AvoidsConcat(a: string, b: string, chars: set<char>)
    requires Avoids(a, chars) && Avoids(b, chars)
    ensures Avoids(a + b, chars)
  {
  }

  /** Joining texts without some characters with a separator without them
      gives a text without them. */
  lemma {:induction false} JoinAvoids(pieces: seq<string>, sep: string, chars: set<char>)
    requires Avoids(sep, chars)
    requires forall i :: 0 <= i < |pieces| ==> Avoids(pieces[i], chars)
    ensures Avoids(Join(pieces, sep), chars)
    decreases |pieces|
  {
    if |pieces| > 1 {
      JoinAvoids(pieces[1..], sep, chars);
      assert Avoids(pieces[0] + sep, chars);
    }
  }

  /** The pieces `", ".join(pieces)` splits into on `,`: every piece after the
      first keeps the space in front. */
  function Spaced(lead: string, pieces: seq<string>): seq<string>
    requires |pieces| >= 1
  {
    [lead + pieces[0]] + seq(|pieces| - 1, i requires 0 <= i < |pieces| - 1 => " " + pieces[i + 1])
  }

  /** Piece `i` of the spaced pieces: the lead or a space, then piece `i`. */
  lemma SpacedAt(lead: string, pieces: seq<string>, i: nat)
    requires i < |pieces|
    ensures Spaced(lead, pieces)[i] == (if i == 0 then lead else " ") + pieces[i]
  {
  }

  lemma {:induction false} JoinSpaced(lead: string, pieces: seq<string>)
    requires |pieces| >= 1
    ensures Join(Spaced(lead, pieces), ",") == lead + Join(pieces, ", ")
    decreases |pieces|
  {
    if |pieces| > 1 {
      var sp := Spaced(lead, pieces);
      var rest := pieces[1..];
      JoinSpaced(" ", rest);
      assert sp[1..] == Spaced(" ", rest);
      assert Join(sp, ",") == (lead + pieces[0]) + "," + (" " + Join(rest, ", "));
    }
  }

  /** A number's segment value is its text. */
  lemma ScalarText(a: Atom)
    requires Numeric(a)
    ensures ValueText(Scalar(a)) == AtomStr(a)
  {
    NumeralAvoids(a);
    StripUnchanged(AtomStr(a), Brackets);
  }

  /** A numeric list's segment value is its elements joined by `", "`: the
      brackets go and nothing else does. */
  lemma ListBare(xs: seq<Atom>)
    requires |xs| >= 1 && forall i :: 0 <= i < |xs| ==> Numeric(xs[i])
    ensures ValueText(List(xs)) == Join(Texts(xs), ", ")
    ensures Avoids(Join(Texts(xs), ", "), {'[', ']', ';', '='})
  {
    var texts := Texts(xs);
    var reprs := seq(|xs|, i requires 0 <= i < |xs| => AtomRepr(xs[i]));
    forall i | 0 <= i < |xs|
      ensures Avoids(texts[i], {'[', ']', ';', '='}) && reprs[i] == texts[i]
    {
      NumeralAvoids(xs[i]);
    }
    assert reprs == texts;
    var text := Join(texts, ", ");
    JoinAvoids(texts, ", ", {'[', ']', ';', '='});
    assert ArgStr(List(xs)) == ['['] + text + [']'];
    StripEnclosed('[', text, ']', Brackets);
  }

  /** Split on `,`, the joined elements give each element's text, each
      after the first with a space in front. */
  lemma ListPieces(xs: seq<Atom>)
    requires |xs| >= 1 && forall i :: 0 <= i < |xs| ==> Numeric(xs[i])
    ensures Split(Join(Texts(xs), ", "), ',') == Spaced("", Texts(xs))
  {
    var texts := Texts(xs);
    var subs := Spaced("", texts);
    JoinSpaced("", texts);
    assert "" + Join(texts, ", ") == Join(texts, ", ");
    forall i | 0 <= i < |subs|
      ensures Avoids(subs[i], Punctuation)
    {
      NumeralAvoids(xs[i]);
      assert texts[i] == AtomStr(xs[i]);
      if i == 0 {
        assert subs[i] == texts[i];
      } else {
        assert subs[i] == " " + texts[i];
        SpaceAvoids();
        AvoidsConcat(" ", texts[i], Punctuation);
      }
    }
    JoinThenSplit(subs, ',');
  }

  /** The segment value of an echo-safe argument has no `;` or `=`. */
  lemma ValueAvoids(v: Arg)
    requires EchoSafe(v)
    ensures Avoids(ValueText(v), Separators)
  {
    match v
    case Scalar(a) =>
      ScalarText(a);
      NumeralAvoids(a);
    case List(xs) =>
      ListBare(xs);
  }

  /** `str(i)` decodes back to `i`. */
  lemma IntEcho(key: string, i: int)
    requires !IsStringKey(key)
    ensures Classify(key, IntText(i)) == Int(i)
  {
    var t := IntText(i);
    IntTextAvoids(i);
    SplitNoSeparator(t, ',');
    IntTextRoundTrip("", i);
    assert "" + t == t;
    AllIntFrom([t]);
    ClassifyKind(key, t);
    ClassifyScalar(key, t);
  }

  /** The text of a float decodes back to it. */
  lemma FloatEcho(key: string, d: Decimal)
    requires !IsStringKey(key)
    ensures Classify(key, FloatText(d)) == Float(d)
  {
    var t := FloatText(d);
    NumeralAvoids(FloatAtom(d));
    SplitNoSeparator(t, ',');
    FloatTextRoundTrip("", d);
    assert "" + t == t;
    AllFloatFrom([t]);
    ClassifyKind(key, t);
    ClassifyScalar(key, t);
  }

  /** Parts that read back as the list's ints give those ints. */
  lemma IntsMatch(subs: seq<string>, xs: seq<Atom>)
    requires |subs| == |xs| && AllInt(subs)
    requires forall i :: 0 <= i < |subs| ==> IsInt(subs[i]) && ParseInt(subs[i]) == IntsOf(xs)[i]
    ensures Ints(subs) == IntsOf(xs)
  {
    forall i | 0 <= i < |subs|
      ensures Ints(subs)[i] == IntsOf(xs)[i]
    {
      IntsAt(subs, i);
    }
  }

  /** Parts that read back as the list's decimals give those decimals. */
  lemma FloatsMatch(subs: seq<string>, xs: seq<Atom>)
    requires |subs| == |xs| && AllFloat(subs)
    requires forall i :: 0 <= i < |subs| ==> IsFloat(subs[i]) && ParseFloat(subs[i]) == DecimalsOf(xs)[i]
    ensures Floats(subs) == DecimalsOf(xs)
  {
    forall i | 0 <= i < |subs|
      ensures Floats(subs)[i] == DecimalsOf(xs)[i]
    {
      FloatsAt(subs, i);
    }
  }

  /** The pieces of a list of ints read back, each on its own, as those ints. */
  lemma IntPieces(xs: seq<Atom>)
    requires |xs| >= 1 && forall i :: 0 <= i < |xs| ==> xs[i].IntAtom?
    ensures var subs := Spaced("", Texts(xs)); AllInt(subs) && Ints(subs) == IntsOf(xs)
  {
    var subs := Spaced("", Texts(xs));
    forall i | 0 <= i < |subs|
      ensures IsInt(subs[i]) && ParseInt(subs[i]) == IntsOf(xs)[i]
    {
      var lead := if i == 0 then "" else " ";
      SpacedAt("", Texts(xs), i);
      assert Texts(xs)[i] == IntText(xs[i].i);
      IntTextRoundTrip(lead, xs[i].i);
    }
    AllIntFrom(subs);
    IntsMatch(subs, xs);
  }

  /** Each piece of a list of floats reads back as its decimal. */
  lemma FloatPieceValues(xs: seq<Atom>)
    requires |xs| >= 1 && forall i :: 0 <= i < |xs| ==> xs[i].FloatAtom?
    ensures var subs := Spaced("", Texts(xs));
      forall i :: 0 <= i < |subs| ==> IsFloat(subs[i]) && ParseFloat(subs[i]) == DecimalsOf(xs)[i]
  {
    var subs := Spaced("", Texts(xs));
    forall i | 0 <= i < |subs|
      ensures IsFloat(subs[i]) && ParseFloat(subs[i]) == DecimalsOf(xs)[i]
    {
      var lead := if i == 0 then "" else " ";
      SpacedAt("", Texts(xs), i);
      assert Texts(xs)[i] == FloatText(xs[i].d);
      FloatTextRoundTrip(lead, xs[i].d);
    }
  }

  /** The first piece of a list of floats is not an int. */
  lemma FloatPiecesNotInt(xs: seq<Atom>)
    requires |xs| >= 1 && xs[0].FloatAtom?
    ensures !AllInt(Spaced("", Texts(xs)))
  {
    var subs := Spaced("", Texts(xs));
    assert subs[0] == "" + FloatText(xs[0].d);
    FloatTextRoundTrip("", xs[0].d);
    if AllInt(subs) {
      IntsAt(subs, 0);
    }
  }

  /** The pieces of a list of floats read back as those decimals, and they
      are not all ints. */
  lemma FloatPieces(xs: seq<Atom>)
    requires |xs| >= 1 && forall i :: 0 <= i < |xs| ==> xs[i].FloatAtom?
    ensures var subs := Spaced("", Texts(xs));
      AllFloat(subs) && !AllInt(subs) && Floats(subs) == DecimalsOf(xs)
  {
    var subs := Spaced("", Texts(xs));
    FloatPieceValues(xs);
    FloatPiecesNotInt(xs);
    AllFloatFrom(subs);
    FloatsMatch(subs, xs);
  }

  /** A list of two or more ints decodes to the same ints. */
  lemma IntListEcho(key: string, xs: seq<Atom>)
    requires !IsStringKey(key) && |xs| >= 2 && forall i :: 0 <= i < |xs| ==> xs[i].IntAtom?
    ensures Classify(key, Join(Texts(xs), ", ")) == IntList(IntsOf(xs))
  {
    var text := Join(Texts(xs), ", ");
    var subs := Spaced("", Texts(xs));
    ListPieces(xs);
    IntPieces(xs);
    assert Split(text, ',') == subs && |subs| >= 2;
    assert Classify(key, text) == IntList(Ints(subs));
  }

  /** A list of two or more floats decodes to the same floats. */
  lemma FloatListEcho(key: string, xs: seq<Atom>)
    requires !IsStringKey(key) && |xs| >= 2 && forall i :: 0 <= i < |xs| ==> xs[i].FloatAtom?
    ensures Classify(key, Join(Texts(xs), ", ")) == FloatList(DecimalsOf(xs))
  {
    var text := Join(Texts(xs), ", ");
    var subs := Spaced("", Texts(xs));
    ListPieces(xs);
    FloatPieces(xs);
    assert Split(text, ',') == subs && |subs| >= 2;
    assert Classify(key, text) == FloatList(Floats(subs));
  }

  /** Every echo-safe value decodes to its echo. */
  lemma EchoValue(key: string, v: Arg)
    requires !IsStringKey(key) && EchoSafe(v)
    ensures Classify(key, ValueText(v)) == Echo(v)
  {
    match v
    case Scalar(a) =>
      ScalarText(a);
      if a.IntAtom? {
        IntEcho(key, a.i);
      } else {
        FloatEcho(key, a.d);
      }
    case List(xs) =>
      ListBare(xs);
      if |xs| == 1 {
        assert Join(Texts(xs), ", ") == AtomStr(xs[0]);
        if xs[0].IntAtom? {
          IntEcho(key, xs[0].i);
        } else {
          FloatEcho(key, xs[0].d);
        }
      } else if xs[0].IntAtom? {
        IntListEcho(key, xs);
      } else {
        FloatListEcho(key, xs);
      }
  }

  /** Strings are outside the echo: `[a, b]` is sent as `'a', 'b'`, and while
      the first element comes back as `a`, the second keeps the space and the
      opening quote in front of it, since only quotes are stripped. */
  lemma StrListNoEcho(key: string, a: string, b: string)
    requires a != [] && b != []
    requires Avoids(a, {',', '\'', '"'}) && Avoids(b, {',', '\'', '"'})
    ensures Classify(key, ValueText(List([StrAtom(a), StrAtom(b)]))) == StrList([a, " '" + b])
  {
    var text := ValueText(List([StrAtom(a), StrAtom(b)]));
    var subs := [AtomRepr(StrAtom(a)), " " + AtomRepr(StrAtom(b))];
    StrListSplit(a, b);
    QuotedNotNumber(a);
    QuotedNotNumber(b);
    assert !AllInt(subs) && !AllFloat(subs);
    assert Classify(key, text) == StrList(Strs(subs));
    QuotedStrip(a);
    SpacedQuotedStrip(b);
    StrsPair(subs[0], subs[1]);
  }

  /** `str([a, b])` without its brackets, split on `,`. */
  lemma StrListSplit(a: string, b: string)
    requires Avoids(a, {','}) && Avoids(b, {','})
    ensures Split(ValueText(List([StrAtom(a), StrAtom(b)])), ',') == [AtomRepr(StrAtom(a)), " " + AtomRepr(StrAtom(b))]
  {
    StrListText(a, b);
    QuotedPieces(a, b);
    SplitTwo(AtomRepr(StrAtom(a)), ',', " " + AtomRepr(StrAtom(b)));
  }

  /** `'a', 'b'` is `'a'`, a comma and ` 'b'`, and neither part has a comma. */
  lemma QuotedPieces(a: string, b: string)
    requires Avoids(a, {','}) && Avoids(b, {','})
    ensures AtomRepr(StrAtom(a)) + ", " + AtomRepr(StrAtom(b)) == AtomRepr(StrAtom(a)) + [','] + (" " + AtomRepr(StrAtom(b)))
    ensures ',' !in AtomRepr(StrAtom(a)) && ',' !in " " + AtomRepr(StrAtom(b))
  {
    var qa, qb := AtomRepr(StrAtom(a)), " " + AtomRepr(StrAtom(b));
    assert forall i :: 1 <= i < |qa| - 1 ==> qa[i] == a[i - 1];
    assert forall i :: 2 <= i < |qb| - 1 ==> qb[i] == b[i - 2];
  }

  /** `str([a, b])` without its brackets. */
  lemma StrListText(a: string, b: string)
    ensures ValueText(List([StrAtom(a), StrAtom(b)])) == AtomRepr(StrAtom(a)) + ", " + AtomRepr(StrAtom(b))
  {
    var xs := [StrAtom(a), StrAtom(b)];
    var reprs := seq(|xs|, i requires 0 <= i < |xs| => AtomRepr(xs[i]));
    assert reprs == [AtomRepr(StrAtom(a)), AtomRepr(StrAtom(b))];
    var text := AtomRepr(StrAtom(a)) + ", " + AtomRepr(StrAtom(b));
    assert Join(reprs, ", ") == text;
    assert ArgStr(List(xs)) == ['['] + text + [']'];
    assert text[0] == '\'' && text[|text| - 1] == '\'';
    StripEnclosed('[', text, ']', Brackets);
  }

  /** A quoted string, also after a space, is neither an int nor a float. */
  lemma QuotedNotNumber(s: string)
    ensures !IsInt(AtomRepr(StrAtom(s))) && !IsFloat(AtomRepr(StrAtom(s)))
    ensures !IsInt(" " + AtomRepr(StrAtom(s))) && !IsFloat(" " + AtomRepr(StrAtom(s)))
  {
    var q := AtomRepr(StrAtom(s));
    assert q[0] == '\'' && q[|q| - 1] == '\'';
    StripUnchanged(q, Whitespace);
    StripAfterLead(" ", q, Whitespace);
    NotNumberText(q);
  }

  /** Stripping quotes from a quoted string gives the string back. */
  lemma QuotedStrip(s: string)
    requires Avoids(s, {'\'', '"'})
    ensures Strip(AtomRepr(StrAtom(s)), Quotes) == s
  {
    assert AtomRepr(StrAtom(s)) == ['\''] + s + ['\''];
    StripEnclosed('\'', s, '\'', Quotes);
  }

  /** After a space, only the closing quote is stripped. */
  lemma SpacedQuotedStrip(s: string)
    requires s != [] && Avoids(s, {'\'', '"'})
    ensures Strip(" " + AtomRepr(StrAtom(s)), Quotes) == " '" + s
  {
    var t := " '" + s;
    var q := " " + AtomRepr(StrAtom(s));
    assert q == t + ['\''];
    assert StripLeft(q, Quotes) == q;
    assert q[..|q| - 1] == t;
    assert StripRight(q, Quotes) == StripRight(t, Quotes);
    assert t[|t| - 1] == s[|s| - 1];
  }

  lemma StrsPair(s0: string, s1: string)
    ensures Strs([s0, s1]) == [Strip(s0, Quotes), Strip(s1, Quotes)]
  {
    assert [s0, s1][..1] == [s0];
    assert [s0][..0] == [];
  }

  /** The reply item an argument comes back as: `key=value`. */
  function Item(kv: (string, Arg)): string
  {
    kv.0 + "=" + ValueText(kv.1)
  }

  function Items(args: Entries<Arg>): (r: seq<string>)
  {
    seq(|args|, i requires 0 <= i < |args| => Item(args[i]))
  }

  lemma ItemsSnoc(args: Entries<Arg>)
    requires args != []
    ensures Items(args) == Items(args[..|args| - 1]) + [Item(args[|args| - 1])]
  {
    var n := |args| - 1;
    var prefix := args[..n];
    forall i | 0 <= i < n
      ensures Items(args)[i] == Items(prefix)[i]
    {
      assert args[i] == prefix[i];
    }
  }

  /** The items, each followed by `;`. */
  function Lines(items: seq<string>): string
    decreases |items|
  {
    if items == [] then [] else items[0] + ";" + Lines(items[1..])
  }

  lemma {:induction false} LinesSnoc(items: seq<string>, item: string)
    ensures Lines(items + [item]) == Lines(items) + item + ";"
    decreases |items|
  {
    if items != [] {
      assert (items + [item])[1..] == items[1..] + [item];
      LinesSnoc(items[1..], item);
    } else {
      assert Lines([item]) == item + ";" + Lines([]);
    }
  }

  /** Items without `;`, each followed by `;`, split back into the items and
      the empty text after the last `;`. */
  lemma {:induction false} SplitLines(items: seq<string>)
    requires forall i :: 0 <= i < |items| ==> ';' !in items[i]
    ensures Split(Lines(items), ';') == items + [[]]
    decreases |items|
  {
    if items != [] {
      SplitLines(items[1..]);
      SplitAround(items[0], ';', Lines(items[1..]));
      SplitNoSeparator(items[0], ';');
      assert [items[0]] + (items[1..] + [[]]) == items + [[]];
    }
  }

  /** An echo-safe argument's segment is its item and `;`. */
  lemma SegmentItem(kv: (string, Arg))
    requires Echoes(kv)
    ensures Segment(kv.0, kv.1) == Ok(Item(kv) + ";")
  {
    assert !IsBufferKey(kv.0);
  }

  /** Echo-safe arguments encode to their items, each followed by `;`. */
  lemma {:induction false} EncodeItems(args: Entries<Arg>)
    requires forall i :: 0 <= i < |args| ==> Echoes(args[i])
    ensures Encode(args) == Ok(Lines(Items(args)))
    decreases |args|
  {
    if args != [] {
      var prefix := args[..|args| - 1];
      var last := args[|args| - 1];
      var before := Lines(Items(prefix));
      EncodeItems(prefix);
      SegmentItem(last);
      assert Encode(args) == Ok(before + (Item(last) + ";"));
      ItemsSnoc(args);
      LinesSnoc(Items(prefix), Item(last));
      assert before + (Item(last) + ";") == before + Item(last) + ";";
    }
  }

  /** In `key=value` with no separator in either part, the key is the text
      before the `=` and the value the text after it. */
  lemma KeyValueParts(key: string, value: string)
    requires Avoids(key, Separators) && Avoids(value, Separators)
    ensures var item := key + "=" + value;
      '=' in item && ';' !in item && KeyOf(item) == key && ValueOf(item) == value
  {
    var item := key + "=" + value;
    IndexInAfter(key, '=', value, {'='});
    assert item[|key|] == '=';
    assert item[..|key|] == key && item[|key| + 1..] == value;
    IndexInShape(value, {'='});
    assert value[..IndexIn(value, {'='})] == value;
    assert Avoids(item, {';'});
  }

  /** The item's key is the argument's key and its value text the argument's. */
  lemma ItemParts(kv: (string, Arg))
    requires Echoes(kv)
    ensures '=' in Item(kv) && ';' !in Item(kv)
    ensures KeyOf(Item(kv)) == kv.0 && ValueOf(Item(kv)) == ValueText(kv.1)
  {
    ValueAvoids(kv.1);
    KeyValueParts(kv.0, ValueText(kv.1));
  }

  /** One more item: it decides the last write to `k` when it names `k`. */
  lemma LastWriteSnoc(items: seq<string>, item: string, k: string)
    ensures LastWrite(items + [item], k) ==
      if item != [] && '=' in item && KeyOf(item) == k then Some(Classify(k, ValueOf(item)))
      else LastWrite(items, k)
  {
    assert (items + [item])[..|items|] == items;
  }

  /** With distinct keys, the last item naming `k` is the one of the
      argument under `k`. */
  lemma {:induction false} LastWriteItems(args: Entries<Arg>, k: string)
    requires DistinctKeys(args)
    requires forall i :: 0 <= i < |args| ==> Echoes(args[i])
    ensures Lookup(args, k).None? ==> LastWrite(Items(args), k).None?
    ensures Lookup(args, k).Some? ==>
      EchoSafe(Lookup(args, k).value) && LastWrite(Items(args), k) == Some(Echo(Lookup(args, k).value))
    decreases |args|
  {
    if args != [] {
      var n := |args| - 1;
      var prefix := args[..n];
      var last := args[n];
      ItemsSnoc(args);
      LastWriteSnoc(Items(prefix), Item(last), k);
      ItemParts(last);
      if last.0 == k {
        LookupLastKey(args);
        EchoValue(k, last.1);
      } else {
        LookupLast(args, k);
        DistinctInit(args);
        LastWriteItems(prefix, k);
      }
    }
  }

  /** The round trip: the command text of echo-safe arguments, read as a
      reply into a dict holding `seed`, decodes without error; each argument's
      key then holds its echo, and every other key its seed value. */
  lemma EchoRoundTrip(args: Entries<Arg>, seed: Entries<Value>, k: string)
    requires DistinctKeys(args)
    requires forall i :: 0 <= i < |args| ==> Echoes(args[i])
    ensures Encode(args).Ok?
    ensures Decode(Encode(args).value, seed).failure.None?
    ensures Lookup(args, k).None? ==>
      Lookup(Decode(Encode(args).value, seed).entries, k) == Lookup(seed, k)
    ensures Lookup(args, k).Some? ==>
      && EchoSafe(Lookup(args, k).value)
      && Lookup(Decode(Encode(args).value, seed).entries, k) == Some(Echo(Lookup(args, k).value))
  {
    var items := Items(args);
    EncodeItems(args);
    forall i | 0 <= i < |items|
      ensures '=' in items[i] && ';' !in items[i]
    {
      ItemParts(args[i]);
    }
    SplitLines(items);
    assert (items + [[]])[..|items|] == items;
    DecodeComplete(seed, items);
    DecodeLookup(seed, items, k);
    LastWriteItems(args, k);
  }
}
