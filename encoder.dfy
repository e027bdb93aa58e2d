/** `parse_arguments_in` and the `command=<name>;` prefix: the caller's argument
    dict becomes one flat `key=value;` command text. */
module Encoder {
  import opened Wrappers
  import opened Text
  import opened Numbers
  import opened Dicts
  import opened Protocol

  /** The characters `str(value).strip("[]")` removes from both ends. */
  const Brackets: set<char> := {'[', ']'}

  /** The two keys whose value is a sample buffer passed by address. */
  predicate IsBufferKey(key: string)
  {
    key == "data" || key == "datadest"
  }

  /** `str(a)` for a scalar. */
  function AtomStr(a: Atom): string
  {
    match a
    case IntAtom(i) => IntText(i)
    case FloatAtom(d) => FloatText(d)
    case StrAtom(s) => s
  }

  /** `repr(a)`, the way a list prints its elements: strings are quoted. */
  function AtomRepr(a: Atom): string
  {
    match a
    case StrAtom(s) => "'" + s + "'"
    case _ => AtomStr(a)
  }

  /** `str(value)` for an argument value: a list prints as `[e1, e2, ...]`. */
  function ArgStr(v: Arg): string
  {
    match v
    case Scalar(a) => AtomStr(a)
    case List(xs) => "[" + Join(seq(|xs|, i requires 0 <= i < |xs| => AtomRepr(xs[i])), ", ") + "]"
    case Array(nd) => "[" + Join(seq(|nd.cells|, i requires 0 <= i < |nd.cells| => FloatText(nd.cells[i])), " ") + "]"
  }

  /** The `samples` and `channels` counts of a buffer argument, or the ValueError
      raised for a value that is not a 1-D or 2-D array. */
  function BufferShape(key: string, v: Arg): (r: Outcome<(nat, nat)>)
    ensures r.Ok? <==> v.Array? && (|v.nd.shape| == 1 || |v.nd.shape| == 2)
    ensures r.Ok? ==> r.value.0 == v.nd.shape[0]
    ensures r.Ok? ==> r.value.1 == if |v.nd.shape| == 1 then 1 else v.nd.shape[1]
    ensures !v.Array? ==> r == Err(NotAnArray(key))
    ensures v.Array? && r.Err? ==> r == Err(BadDimensions(key, |v.nd.shape|))
  {
    match v
    case Array(nd) =>
      if |nd.shape| == 1 then Ok((nd.shape[0], 1))
      else if |nd.shape| == 2 then Ok((nd.shape[0], nd.shape[1]))
      else Err(BadDimensions(key, |nd.shape|))
    case _ => Err(NotAnArray(key))
  }

  /** The text one argument contributes: `key=<address>;samples=<n>;channels=<c>;`
      for a buffer key, `key=<str(value) without enclosing brackets>;` otherwise. */
  function Segment(key: string, v: Arg): (r: Outcome<string>)
    ensures r.Err? <==> IsBufferKey(key) && BufferShape(key, v).Err?
  {
    if IsBufferKey(key) then
      match BufferShape(key, v)
      case Err(e) => Err(e)
      case Ok(shape) =>
        Ok(key + "=" + NatText(v.nd.address) + ";samples=" + NatText(shape.0)
           + ";channels=" + NatText(shape.1) + ";")
    else
      Ok(key + "=" + Strip(ArgStr(v), Brackets) + ";")
  }

  /** The segments of all arguments in dict order, or the first ValueError. */
  function Encode(args: Entries<Arg>): Outcome<string>
    decreases |args|
  {
    if args == [] then Ok([])
    else
      match Encode(args[..|args| - 1])
      case Err(e) => Err(e)
      case Ok(prefix) =>
        var last := args[|args| - 1];
        match Segment(last.0, last.1)
        case Err(e) => Err(e)
        case Ok(segment) => Ok(prefix + segment)
  }

  /** `'command=' + command + ';' + parse_arguments_in(arguments)`. */
  function CommandText(command: string, args: Entries<Arg>): Outcome<string>
  {
    match Encode(args)
    case Err(e) => Err(e)
    case Ok(text) => Ok("command=" + command + ";" + text)
  }

  /** The argument `kv` makes `parse_arguments_in` raise. */
  predicate Fails(kv: (string, Arg))
  {
    Segment(kv.0, kv.1).Err?
  }

  /** Encoding fails exactly when some argument's segment fails. */
  lemma {:induction false} EncodeFailure(args: Entries<Arg>)
    ensures Encode(args).Err? <==> exists i :: 0 <= i < |args| && Fails(args[i])
    decreases |args|
  {
    if args != [] {
      var n := |args| - 1;
      var prefix := args[..n];
      EncodeFailure(prefix);
      EncodeErrStep(args);
      if Encode(args).Err? {
        if Encode(prefix).Err? {
          var i :| 0 <= i < |prefix| && Fails(prefix[i]);
          assert prefix[i] == args[i];
        } else {
          assert Fails(args[n]);
        }
      }
      if exists i :: 0 <= i < |args| && Fails(args[i]) {
        var i :| 0 <= i < |args| && Fails(args[i]);
        if i < n {
          assert prefix[i] == args[i];
        }
      }
    }
  }

  /** Encoding fails when the arguments before the last fail or the last one does. */
  lemma EncodeErrStep(args: Entries<Arg>)
    requires args != []
    ensures Encode(args).Err? <==> Encode(args[..|args| - 1]).Err? || Fails(args[|args| - 1])
  {
  }

  /** A successful encoding is the others' text followed by the last one's segment. */
  lemma EncodeLast(args: Entries<Arg>)
    requires args != []
    ensures Encode(args).Ok? <==> Encode(args[..|args| - 1]).Ok? && Segment(args[|args| - 1].0, args[|args| - 1].1).Ok?
    ensures Encode(args).Ok? ==>
      Encode(args).value == Encode(args[..|args| - 1]).value + Segment(args[|args| - 1].0, args[|args| - 1].1).value
  {
  }

  /** Encoding the arguments before `i` and then the one at `i`. */
  lemma EncodeStep(args: Entries<Arg>, i: nat)
    requires i < |args|
    ensures Encode(args[..i + 1]) ==
      match Encode(args[..i])
      case Err(e) => Err(e)
      case Ok(prefix) =>
        match Segment(args[i].0, args[i].1)
        case Err(e) => Err(e)
        case Ok(segment) => Ok(prefix + segment)
  {
    assert args[..i + 1][..i] == args[..i];
  }

  /** Once an argument fails, encoding the rest does not change the error. */
  lemma {:induction false} EncodeStopsAt(args: Entries<Arg>, i: nat)
    requires i < |args| && Encode(args[..i]).Ok? && Fails(args[i])
    ensures Encode(args) == Err(Segment(args[i].0, args[i].1).error)
    decreases |args|
  {
    if |args| == i + 1 {
      EncodeStep(args, i);
      assert args[..i + 1] == args;
    } else {
      var prefix := args[..|args| - 1];
      assert prefix[..i] == args[..i] && prefix[i] == args[i];
      EncodeStopsAt(prefix, i);
    }
  }

  /** When encoding fails, the error is that of the first failing argument in dict order. */
  lemma EncodeFirstFailure(args: Entries<Arg>, i: nat)
    requires i < |args| && Fails(args[i])
    requires forall j :: 0 <= j < i ==> !Fails(args[j])
    ensures Encode(args) == Err(Segment(args[i].0, args[i].1).error)
  {
    EncodeFailure(args[..i]);
    EncodeStopsAt(args, i);
  }

  /** One argument encodes to its own segment. */
  lemma EncodeOne(kv: (string, Arg))
    ensures Encode([kv]) == Segment(kv.0, kv.1)
  {
    assert [kv][..0] == [];
    EncodeLast([kv]);
    if Encode([kv]).Ok? {
      assert [] + Segment(kv.0, kv.1).value == Segment(kv.0, kv.1).value;
    }
  }

  /** Encoding keeps the arguments' order: the arguments `a + b` encode to the
      text of `a` followed by the text of `b`, and fail when either part does. */
  lemma {:induction false} EncodeConcat(a: Entries<Arg>, b: Entries<Arg>)
    ensures Encode(a + b).Ok? <==> Encode(a).Ok? && Encode(b).Ok?
    ensures Encode(a + b).Ok? ==> Encode(a + b).value == Encode(a).value + Encode(b).value
    decreases |b|
  {
    if b == [] {
      assert a + b == a;
    } else {
      var init := b[..|b| - 1];
      var last := b[|b| - 1];
      assert (a + b)[..|a + b| - 1] == a + init;
      assert (a + b)[|a + b| - 1] == last;
      EncodeConcat(a, init);
      EncodeLast(a + b);
      EncodeLast(b);
      AppendOutcomes(Encode(a), Encode(init), Segment(last.0, last.1),
                     Encode(a + init), Encode(b), Encode(a + b));
    }
  }

  /** Appending texts that may have failed: if `xy` is `x` then `y`, `yz` is `y`
      then `z` and `xyz` is `xy` then `z`, then `xyz` is `x` then `yz`. */
  lemma AppendOutcomes(x: Outcome<string>, y: Outcome<string>, z: Outcome<string>,
                       xy: Outcome<string>, yz: Outcome<string>, xyz: Outcome<string>)
    requires xy.Ok? <==> x.Ok? && y.Ok?
    requires xy.Ok? ==> xy.value == x.value + y.value
    requires yz.Ok? <==> y.Ok? && z.Ok?
    requires yz.Ok? ==> yz.value == y.value + z.value
    requires xyz.Ok? <==> xy.Ok? && z.Ok?
    requires xyz.Ok? ==> xyz.value == xy.value + z.value
    ensures xyz.Ok? <==> x.Ok? && yz.Ok?
    ensures xyz.Ok? ==> xyz.value == x.value + yz.value
  {
    if xyz.Ok? {
      assert (x.value + y.value) + z.value == x.value + (y.value + z.value);
    }
  }

  /** `parse_arguments_in`: walks the arguments in order, appending each one's
      segment to the command, and raises at the first bad buffer argument. */
  method ParseArgumentsIn(arguments: Dict<Arg>) returns (r: Outcome<string>)
    ensures r == Encode(arguments.entries)
  {
    var items := arguments.entries;
    var cmd := "";
    var i := 0;
    while i < |items|
      invariant 0 <= i <= |items|
      invariant Encode(items[..i]) == Ok(cmd)
    {
      var key := items[i].0;
      var value := items[i].1;
      EncodeStep(items, i);
      if IsBufferKey(key) {
        if !value.Array? {
          EncodeStopsAt(items, i);
          return Err(NotAnArray(key));
        }
        var channels: nat;
        if |value.nd.shape| == 1 {
          channels := 1;
        } else if |value.nd.shape| == 2 {
          channels := value.nd.shape[1];
        } else {
          EncodeStopsAt(items, i);
          return Err(BadDimensions(key, |value.nd.shape|));
        }
        var samples := value.nd.shape[0];
        var segment := key + "=" + NatText(value.nd.address) + ";samples=" + NatText(samples)
                       + ";channels=" + NatText(channels) + ";";
        assert Segment(key, value) == Ok(segment);
        cmd := cmd + segment;
      } else {
        var segment := key + "=" + Strip(ArgStr(value), Brackets) + ";";
        cmd := cmd + segment;
      }
      i := i + 1;
    }
    assert items[..i] == items;
    return Ok(cmd);
  }
}
