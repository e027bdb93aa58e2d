/** `parse_arguments_out`: the engine's reply `key=value;key=value;...` becomes
    typed entries written into the return-value dict. */
module Decoder {
  import opened Wrappers
  import opened Text
  import opened Numbers
  import opened Dicts
  import opened Protocol

  /** The characters a string value loses from both ends. */
  const Quotes: set<char> := {'"', '\''}

  /** The two keys whose values stay strings even when they look numeric. */
  predicate IsStringKey(key: string)
  {
    key == "getchannels" || key == "getactivechannels"
  }

  /** `isint` holds of every part (stated part by part, as the flag loop checks it). */
  predicate AllInt(subs: seq<string>)
    decreases |subs|
  {
    subs == [] || (AllInt(subs[..|subs| - 1]) && IsInt(subs[|subs| - 1]))
  }

  /** `isfloat` holds of every part. */
  predicate AllFloat(subs: seq<string>)
    decreases |subs|
  {
    subs == [] || (AllFloat(subs[..|subs| - 1]) && IsFloat(subs[|subs| - 1]))
  }

  /** The parts are all ints when each one is. */
  lemma {:induction false} AllIntFrom(subs: seq<string>)
    requires forall i :: 0 <= i < |subs| ==> IsInt(subs[i])
    ensures AllInt(subs)
    decreases |subs|
  {
    if subs != [] {
      var prefix := subs[..|subs| - 1];
      assert forall i :: 0 <= i < |prefix| ==> prefix[i] == subs[i];
      AllIntFrom(prefix);
    }
  }

  /** The parts are all floats when each one is. */
  lemma {:induction false} AllFloatFrom(subs: seq<string>)
    requires forall i :: 0 <= i < |subs| ==> IsFloat(subs[i])
    ensures AllFloat(subs)
    decreases |subs|
  {
    if subs != [] {
      var prefix := subs[..|subs| - 1];
      assert forall i :: 0 <= i < |prefix| ==> prefix[i] == subs[i];
      AllFloatFrom(prefix);
    }
  }

  /** A prefix of int parts is all ints. */
  lemma {:induction false} AllIntPrefix(subs: seq<string>, n: nat)
    requires AllInt(subs) && n <= |subs|
    ensures AllInt(subs[..n])
    decreases |subs|
  {
    if n < |subs| {
      var prefix := subs[..|subs| - 1];
      AllIntPrefix(prefix, n);
      assert prefix[..n] == subs[..n];
    } else {
      assert subs[..n] == subs;
    }
  }

  /** A prefix of float parts is all floats. */
  lemma {:induction false} AllFloatPrefix(subs: seq<string>, n: nat)
    requires AllFloat(subs) && n <= |subs|
    ensures AllFloat(subs[..n])
    decreases |subs|
  {
    if n < |subs| {
      var prefix := subs[..|subs| - 1];
      AllFloatPrefix(prefix, n);
      assert prefix[..n] == subs[..n];
    } else {
      assert subs[..n] == subs;
    }
  }

  /** `[int(s) for s in subs]`, built by appending as the source does. */
  function Ints(subs: seq<string>): (r: seq<int>)
    requires AllInt(subs)
    ensures |r| == |subs|
    decreases |subs|
  {
    if subs == [] then [] else Ints(subs[..|subs| - 1]) + [ParseInt(subs[|subs| - 1])]
  }

  /** `[float(s) for s in subs]`. */
  function Floats(subs: seq<string>): (r: seq<Decimal>)
    requires AllFloat(subs)
    ensures |r| == |subs|
    decreases |subs|
  {
    if subs == [] then [] else Floats(subs[..|subs| - 1]) + [ParseFloat(subs[|subs| - 1])]
  }

  /** `[s.strip("\"'") for s in subs]`. */
  function Strs(subs: seq<string>): (r: seq<string>)
    ensures |r| == |subs|
    decreases |subs|
  {
    if subs == [] then [] else Strs(subs[..|subs| - 1]) + [Strip(subs[|subs| - 1], Quotes)]
  }

  /** The ints of the first `i + 1` parts extend those of the first `i`. */
  lemma IntsStep(subs: seq<string>, i: nat)
    requires AllInt(subs) && i < |subs|
    ensures AllInt(subs[..i]) && AllInt(subs[..i + 1]) && IsInt(subs[i])
    ensures Ints(subs[..i + 1]) == Ints(subs[..i]) + [ParseInt(subs[i])]
  {
    AllIntPrefix(subs, i + 1);
    assert subs[..i + 1][..i] == subs[..i];
  }

  /** The floats of the first `i + 1` parts extend those of the first `i`. */
  lemma FloatsStep(subs: seq<string>, i: nat)
    requires AllFloat(subs) && i < |subs|
    ensures AllFloat(subs[..i]) && AllFloat(subs[..i + 1]) && IsFloat(subs[i])
    ensures Floats(subs[..i + 1]) == Floats(subs[..i]) + [ParseFloat(subs[i])]
  {
    AllFloatPrefix(subs, i + 1);
    assert subs[..i + 1][..i] == subs[..i];
  }

  /** Element `i` of the ints is `int()` of part `i`. */
  lemma {:induction false} IntsAt(subs: seq<string>, i: nat)
    requires AllInt(subs) && i < |subs|
    ensures IsInt(subs[i]) && Ints(subs)[i] == ParseInt(subs[i])
    decreases |subs|
  {
    if i < |subs| - 1 {
      IntsAt(subs[..|subs| - 1], i);
    }
  }

  /** Element `i` of the floats is `float()` of part `i`. */
  lemma {:induction false} FloatsAt(subs: seq<string>, i: nat)
    requires AllFloat(subs) && i < |subs|
    ensures IsFloat(subs[i]) && Floats(subs)[i] == ParseFloat(subs[i])
    decreases |subs|
  {
    if i < |subs| - 1 {
      FloatsAt(subs[..|subs| - 1], i);
    }
  }

  /** Element `i` of the strings is part `i` without its quotes. */
  lemma {:induction false} StrsAt(subs: seq<string>, i: nat)
    requires i < |subs|
    ensures Strs(subs)[i] == Strip(subs[i], Quotes)
    decreases |subs|
  {
    if i < |subs| - 1 {
      StrsAt(subs[..|subs| - 1], i);
    }
  }

  /** The value a reply item's text decodes to under `key`, following the
      source's branches: `int(text)`, `float(text)` and `text.strip("\"'")`
      for a single part, one list element per comma-separated part otherwise. */
  function Classify(key: string, text: string): Value
  {
    var subs := Split(text, ',');
    SplitThenJoin(text, ',');
    if !IsStringKey(key) && AllInt(subs) then
      if |subs| == 1 then Int(ParseInt(text)) else IntList(Ints(subs))
    else if !IsStringKey(key) && AllFloat(subs) then
      if |subs| == 1 then Float(ParseFloat(text)) else FloatList(Floats(subs))
    else
      if |subs| == 1 then Str(Strip(text, Quotes)) else StrList(Strs(subs))
  }

  /** The classification rule: ints if every comma-separated part is an int,
      else floats if every part is a float, else strings (always strings for
      the two string keys); one part gives a scalar, several a list. */
  lemma ClassifyKind(key: string, text: string)
    ensures var v := Classify(key, text); var subs := Split(text, ',');
      && !v.Data?
      && (IsStringKey(key) ==> v.Str? || v.StrList?)
      && ((v.Int? || v.IntList?) <==> !IsStringKey(key) && AllInt(subs))
      && ((v.Float? || v.FloatList?) <==> !IsStringKey(key) && AllFloat(subs) && !AllInt(subs))
      && ((v.Int? || v.Float? || v.Str?) <==> |subs| == 1)
  {
  }

  /** A scalar is made from the whole text, the one part there is. */
  lemma ClassifyScalar(key: string, text: string)
    ensures var v := Classify(key, text);
      && (v.Int? ==> IsInt(text) && v.i == ParseInt(text))
      && (v.Float? ==> IsFloat(text) && v.d == ParseFloat(text))
      && (v.Str? ==> v.s == Strip(text, Quotes))
  {
    var subs := Split(text, ',');
    SplitThenJoin(text, ',');
    if |subs| == 1 {
      assert text == subs[0];
    }
  }

  /** A list has one element per comma-separated part, in order, each decoded
      on its own. */
  lemma ClassifyList(key: string, text: string)
    ensures var v := Classify(key, text); var subs := Split(text, ',');
      && (v.IntList? ==>
            |v.ints| == |subs| && forall i :: 0 <= i < |subs| ==> IsInt(subs[i]) && v.ints[i] == ParseInt(subs[i]))
      && (v.FloatList? ==>
            |v.floats| == |subs| && forall i :: 0 <= i < |subs| ==> IsFloat(subs[i]) && v.floats[i] == ParseFloat(subs[i]))
      && (v.StrList? ==>
            |v.strs| == |subs| && forall i :: 0 <= i < |subs| ==> v.strs[i] == Strip(subs[i], Quotes))
  {
    var subs := Split(text, ',');
    var v := Classify(key, text);
    if v.IntList? {
      forall i | 0 <= i < |subs| ensures IsInt(subs[i]) && v.ints[i] == ParseInt(subs[i]) { IntsAt(subs, i); }
    } else if v.FloatList? {
      forall i | 0 <= i < |subs| ensures IsFloat(subs[i]) && v.floats[i] == ParseFloat(subs[i]) { FloatsAt(subs, i); }
    } else if v.StrList? {
      forall i | 0 <= i < |subs| ensures v.strs[i] == Strip(subs[i], Quotes) { StrsAt(subs, i); }
    }
  }

  /** The flag loop of the source: are all parts ints, are all parts floats? */
  method ScanParts(value: seq<string>) returns (allInt: bool, allFloat: bool)
    ensures allInt == AllInt(value) && allFloat == AllFloat(value)
  {
    allFloat, allInt := true, true;
    for i := 0 to |value|
      invariant allFloat == AllFloat(value[..i])
      invariant allInt == AllInt(value[..i])
    {
      var subvalue := value[i];
      var isFloat := IsFloat(subvalue);
      var isInt := IsInt(subvalue);
      assert value[..i + 1] == value[..i] + [subvalue];
      if !isFloat {
        allFloat := false;
      }
      if !isInt {
        allInt := false;
      }
    }
    assert value[..|value|] == value;
  }

  /** The loop that appends `int(subvalue)` for every part. */
  method IntValues(value: seq<string>) returns (values: seq<int>)
    requires AllInt(value)
    ensures values == Ints(value)
  {
    values := [];
    for i := 0 to |value|
      invariant AllInt(value[..i])
      invariant values == Ints(value[..i])
    {
      IntsStep(value, i);
      values := values + [ParseInt(value[i])];
    }
    assert value[..|value|] == value;
  }

  /** The loop that appends `float(subvalue)` for every part. */
  method FloatValues(value: seq<string>) returns (values: seq<Decimal>)
    requires AllFloat(value)
    ensures values == Floats(value)
  {
    values := [];
    for i := 0 to |value|
      invariant AllFloat(value[..i])
      invariant values == Floats(value[..i])
    {
      FloatsStep(value, i);
      values := values + [ParseFloat(value[i])];
    }
    assert value[..|value|] == value;
  }

  /** The loop that appends `subvalue.strip("\"'")` for every part. */
  method StrValues(value: seq<string>) returns (values: seq<string>)
    ensures values == Strs(value)
  {
    values := [];
    for i := 0 to |value|
      invariant values == Strs(value[..i])
    {
      assert value[..i + 1][..i] == value[..i];
      values := values + [Strip(value[i], Quotes)];
    }
    assert value[..|value|] == value;
  }

  /** Decoding one item's value text under its key, as the body of the
      source's item loop does. */
  method ParseValue(key: string, text: string) returns (v: Value)
    ensures v == Classify(key, text)
  {
    var value := Split(text, ',');
    SplitThenJoin(text, ',');
    var allInt, allFloat := ScanParts(value);
    if IsStringKey(key) {
      allFloat := false;
      allInt := false;
    }
    if allInt {
      if |value| == 1 {
        v := Int(ParseInt(text));
      } else {
        var values := IntValues(value);
        v := IntList(values);
      }
    } else if allFloat {
      if |value| == 1 {
        v := Float(ParseFloat(text));
      } else {
        var values := FloatValues(value);
        v := FloatList(values);
      }
    } else {
      if |value| == 1 {
        v := Str(Strip(text, Quotes));
      } else {
        var values := StrValues(value);
        v := StrList(values);
      }
    }
  }

  /** The key of an item: the text before its first `=`. */
  function KeyOf(item: string): string
  {
    Before(item, '=')
  }

  /** The value text of an item: the text between its first and second `=`. */
  function ValueOf(item: string): string
  {
    Before(After(item, '='), '=')
  }

  /** The dict after the items have been written into it, and the error that
      stopped the walk, if any. */
  datatype Parsed = Parsed(entries: Entries<Value>, failure: Option<Error>)

  /** Writing one non-empty item into the dict: the item's key gets its decoded
      value, or, for an item without `=`, the IndexError of `item[1]`. */
  function WriteItem(entries: Entries<Value>, item: string): (p: Parsed)
    ensures p.failure.Some? <==> '=' !in item
    ensures p.failure.Some? ==> p == Parsed(entries, Some(MissingEquals(item)))
    ensures p.failure.None? ==> p.entries == Put(entries, KeyOf(item), Classify(KeyOf(item), ValueOf(item)))
  {
    if '=' !in item then Parsed(entries, Some(MissingEquals(item)))
    else Parsed(Put(entries, KeyOf(item), Classify(KeyOf(item), ValueOf(item))), None)
  }

  /** Writing the items, in order, into a dict holding `seed`: empty items are
      skipped, and the first item without `=` stops the walk with what was
      written before it. */
  function DecodeItems(seed: Entries<Value>, items: seq<string>): Parsed
    decreases |items|
  {
    if items == [] then Parsed(seed, None)
    else
      var p := DecodeItems(seed, items[..|items| - 1]);
      var item := items[|items| - 1];
      if p.failure.Some? || item == [] then p else WriteItem(p.entries, item)
  }

  /** The reply split on `;`, written into a dict holding `seed`. */
  function Decode(reply: string, seed: Entries<Value>): Parsed
  {
    DecodeItems(seed, Split(reply, ';'))
  }

  /** The value the last non-empty item with key `k` decodes to: the entry a
      complete walk leaves under `k`. */
  function LastWrite(items: seq<string>, k: string): Option<Value>
    decreases |items|
  {
    if items == [] then None
    else
      var item := items[|items| - 1];
      if item != [] && '=' in item && KeyOf(item) == k then Some(Classify(k, ValueOf(item)))
      else LastWrite(items[..|items| - 1], k)
  }

  /** The item at `i` stops the walk. */
  predicate Malformed(items: seq<string>, i: nat)
    requires i < |items|
  {
    items[i] != [] && '=' !in items[i]
  }

  /** The walk completes exactly when every non-empty item has an `=`. */
  lemma {:induction false} DecodeComplete(seed: Entries<Value>, items: seq<string>)
    ensures DecodeItems(seed, items).failure.None? <==> forall i :: 0 <= i < |items| ==> !Malformed(items, i)
    decreases |items|
  {
    if items != [] {
      var prefix := items[..|items| - 1];
      DecodeComplete(seed, prefix);
      var last := |items| - 1;
      var p := DecodeItems(seed, prefix);
      if p.failure.Some? {
        var j :| 0 <= j < |prefix| && Malformed(prefix, j);
        assert Malformed(items, j);
      } else {
        assert forall i :: 0 <= i < |prefix| ==> !Malformed(items, i) by {
          forall i | 0 <= i < |prefix| ensures !Malformed(items, i) {
            assert !Malformed(prefix, i);
          }
        }
        if items[last] != [] {
          assert WriteItem(p.entries, items[last]).failure.None? <==> !Malformed(items, last);
        }
      }
    }
  }

  /** An incomplete walk reports the first item without `=`. */
  lemma DecodeFirstFailure(seed: Entries<Value>, items: seq<string>, i: nat)
    requires i < |items| && Malformed(items, i)
    requires forall j :: 0 <= j < i ==> !Malformed(items, j)
    ensures DecodeItems(seed, items).failure == Some(MissingEquals(items[i]))
  {
    DecodeComplete(seed, items[..i]);
    assert forall j :: 0 <= j < i ==> items[..i][j] == items[j];
    assert forall j :: 0 <= j < i ==> (Malformed(items[..i], j) <==> Malformed(items, j));
    DecodeStopsAt(seed, items, i);
  }

  /** Writing the items before `i`, then the one at `i`. */
  lemma DecodeStep(seed: Entries<Value>, items: seq<string>, i: nat)
    requires i < |items|
    ensures DecodeItems(seed, items[..i + 1]) ==
      var p := DecodeItems(seed, items[..i]);
      if p.failure.Some? || items[i] == [] then p else WriteItem(p.entries, items[i])
  {
    assert items[..i + 1][..i] == items[..i];
  }

  /** After a complete walk, each key holds what the last item naming it wrote,
      and a key no item names keeps its seed value. */
  lemma {:induction false} DecodeLookup(seed: Entries<Value>, items: seq<string>, k: string)
    requires DecodeItems(seed, items).failure.None?
    ensures Lookup(DecodeItems(seed, items).entries, k) ==
      if LastWrite(items, k).Some? then LastWrite(items, k) else Lookup(seed, k)
    decreases |items|
  {
    if items != [] {
      var prefix := items[..|items| - 1];
      DecodeLookup(seed, prefix, k);
      var item := items[|items| - 1];
      if item != [] {
        PutLookup(DecodeItems(seed, prefix).entries, KeyOf(item), Classify(KeyOf(item), ValueOf(item)), k);
      }
    }
  }

  /** The body of the item loop for a non-empty item: split it on `=`, decode
      the second piece under the first and store it. */
  method ParseItem(item: string, retvals: Dict<Value>) returns (raised: Option<Error>)
    requires retvals.Valid()
    modifies retvals
    ensures retvals.Valid()
    ensures WriteItem(old(retvals.entries), item) == Parsed(retvals.entries, raised)
  {
    var parts := Split(item, '=');
    SplitCount(item, '=');
    if |parts| < 2 {
      return Some(MissingEquals(item));
    }
    SplitSecond(item, '=');
    var key := parts[0];
    var value := ParseValue(key, parts[1]);
    retvals.Set(key, value);
    raised := None;
  }

  /** `parse_arguments_out`: splits the reply on `;` and writes every non-empty
      item into `retvals` in place. An item without `=` raises IndexError
      (returned here) and leaves the items before it written. */
  method ParseArgumentsOut(reply: string, retvals: Dict<Value>) returns (raised: Option<Error>)
    requires retvals.Valid()
    modifies retvals
    ensures retvals.Valid()
    ensures Decode(reply, old(retvals.entries)) == Parsed(retvals.entries, raised)
  {
    var arguments := Split(reply, ';');
    raised := WriteItems(arguments, retvals);
  }

  /** The item loop of `parse_arguments_out`. */
  method WriteItems(arguments: seq<string>, retvals: Dict<Value>) returns (raised: Option<Error>)
    requires retvals.Valid()
    modifies retvals
    ensures retvals.Valid()
    ensures DecodeItems(old(retvals.entries), arguments) == Parsed(retvals.entries, raised)
  {
    ghost var seed := retvals.entries;
    var i := 0;
    while i < |arguments|
      invariant 0 <= i <= |arguments|
      invariant retvals.Valid()
      invariant DecodeItems(seed, arguments[..i]) == Parsed(retvals.entries, None)
    {
      var item := arguments[i];
      ghost var before := retvals.entries;
      if |item| > 0 {
        raised := ParseItem(item, retvals);
      } else {
        raised := None;
      }
      DecodeAdvance(seed, arguments, i, before, retvals.entries, raised);
      if raised.Some? {
        return;
      }
      i := i + 1;
    }
    assert arguments[..i] == arguments;
    return None;
  }

  /** One turn of the item loop: an empty item changes nothing, a written item
      extends the walk, and a malformed one ends it. */
  lemma DecodeAdvance(seed: Entries<Value>, items: seq<string>, i: nat,
                      before: Entries<Value>, after: Entries<Value>, raised: Option<Error>)
    requires i < |items| && DecodeItems(seed, items[..i]) == Parsed(before, None)
    requires items[i] == [] ==> after == before && raised.None?
    requires items[i] != [] ==> WriteItem(before, items[i]) == Parsed(after, raised)
    ensures raised.None? ==> DecodeItems(seed, items[..i + 1]) == Parsed(after, None)
    ensures raised.Some? ==> DecodeItems(seed, items) == Parsed(after, raised)
  {
    DecodeStep(seed, items, i);
    if raised.Some? {
      DecodeStopsAt(seed, items, i);
    }
  }

  /** Once an item stops the walk, later items change nothing. */
  lemma {:induction false} DecodeStopsAt(seed: Entries<Value>, items: seq<string>, i: nat)
    requires i < |items| && DecodeItems(seed, items[..i]).failure.None? && Malformed(items, i)
    ensures DecodeItems(seed, items) == Parsed(DecodeItems(seed, items[..i]).entries, Some(MissingEquals(items[i])))
    decreases |items|
  {
    if |items| == i + 1 {
      assert items[..|items| - 1] == items[..i];
    } else {
      var prefix := items[..|items| - 1];
      assert prefix[..i] == items[..i] && prefix[i] == items[i];
      DecodeStopsAt(seed, prefix, i);
    }
  }

  /** Decoding into a dict leaves a dict: no key is written twice. */
  lemma {:induction false} DecodeDistinct(seed: Entries<Value>, items: seq<string>)
    requires DistinctKeys(seed)
    ensures DistinctKeys(DecodeItems(seed, items).entries)
    decreases |items|
  {
    if items != [] {
      var prefix := items[..|items| - 1];
      DecodeDistinct(seed, prefix);
      var p := DecodeItems(seed, prefix);
      var item := items[|items| - 1];
      if p.failure.None? && item != [] && '=' in item {
        PutDistinct(p.entries, KeyOf(item), Classify(KeyOf(item), ValueOf(item)));
      }
    }
  }
}
