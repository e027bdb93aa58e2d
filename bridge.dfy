/** `soundmexpro(command, arguments)`: binds the engine library once, encodes the
    command and its arguments, calls the engine, turns a status other than 1
    into an error, and decodes the reply into a fresh dict seeded with
    `success`. `recgetdata` first asks `recbufsize` for the buffer size,
    allocates the receiving buffer and passes it as `datadest`. */
module Bridge {
  import opened Wrappers
  import opened Text
  import opened Numbers
  import opened Dicts
  import opened Protocol
  import opened Encoder
  import opened Decoder

  /** The size of the reply buffer handed to the engine. */
  const ReplyCapacity: nat := 32768

  /** What one engine call gives back: its status (1 success, 0 busy, negative
      error) and the characters it wrote into the reply buffer. */
  datatype Reply = Reply(status: int, written: string)

  /** The engine: a command text and the reply buffer's size in, a reply out. */
  type Engine = (string, nat) -> Reply

  /** The file name of the engine library for an address width in bits. */
  function LibraryPath(directory: string, bits: nat): string
  {
    directory + "\\SoundMexProPy" + NatText(bits) + ".dll"
  }

  /** The exported entry point: the 32-bit library prefixes an underscore. */
  function EntryName(bits: nat): string
  {
    if bits == 32 then "_SoundMexPro" else "SoundMexPro"
  }

  /** The 32-bit and 64-bit bindings. */
  lemma BindingNames(directory: string)
    ensures LibraryPath(directory, 32) == directory + "\\SoundMexProPy32.dll"
    ensures LibraryPath(directory, 64) == directory + "\\SoundMexProPy64.dll"
    ensures EntryName(32) == "_SoundMexPro" && EntryName(64) == "SoundMexPro"
  {
    assert NatText(32) == NatText(3) + [DigitChar(2)];
    assert NatText(64) == NatText(6) + [DigitChar(4)];
  }

  /** `retvals.value`: the buffer holds at most `ReplyCapacity` characters of
      what the engine wrote, and the text ends at the first NUL. */
  function ReplyText(written: string): (r: string)
    ensures '\0' !in r && |r| <= ReplyCapacity && |r| <= |written|
    ensures r == written[..|r|]
    ensures |r| < |written| && |r| < ReplyCapacity ==> written[|r|] == '\0'
  {
    var held := if |written| <= ReplyCapacity then written else written[..ReplyCapacity];
    IndexInShape(held, {'\0'});
    Before(held, '\0')
  }

  /** A reply without NUL that fits the buffer is read back whole. */
  lemma ReplyTextWhole(written: string)
    requires '\0' !in written && |written| <= ReplyCapacity
    ensures ReplyText(written) == written
  {
  }

  /** One round trip to the engine: encode, call, check the status, decode
      into a dict that starts with `success` set to the status. */
  function Exchange(command: string, args: Entries<Arg>, engine: Engine): Outcome<Entries<Value>>
  {
    match CommandText(command, args)
    case Err(e) => Err(e)
    case Ok(text) =>
      var reply := engine(text, ReplyCapacity);
      if reply.status != 1 then Err(CommandFailed(command))
      else
        var p := Decode(ReplyText(reply.written), [("success", Int(reply.status))]);
        if p.failure.Some? then Err(p.failure.value) else Ok(p.entries)
  }

  /** The `samples` and `channels` of the receiving buffer from the `value`
      that `recbufsize` returned: a scalar is one channel, a list has one
      entry per channel and its first entry gives the samples. */
  function BufferSize(values: Entries<Value>): Outcome<(nat, nat)>
  {
    match Lookup(values, "value")
    case None => Err(MissingKey("value"))
    case Some(v) =>
      match v
      case Int(n) => if n >= 0 then Ok((n, 1)) else Err(BadBufferSize(v))
      case IntList(ns) => if |ns| > 0 && ns[0] >= 0 then Ok((ns[0], |ns|)) else Err(BadBufferSize(v))
      case _ => Err(BadBufferSize(v))
  }

  /** What `recgetdata` returns: the reply without `channels` and `bufsize`
      (each must be present) and with `data` set to the receiving buffer. */
  function Unpack(values: Entries<Value>, buffer: NdArray): Outcome<Entries<Value>>
  {
    if Lookup(values, "channels").None? then Err(MissingKey("channels"))
    else
      var rest := Remove(values, "channels");
      if Lookup(rest, "bufsize").None? then Err(MissingKey("bufsize"))
      else Ok(Put(Remove(rest, "bufsize"), "data", Data(buffer)))
  }

  /** The outcome of a call and the caller's argument entries after it. */
  datatype Call = Call(result: Outcome<Entries<Value>>, args: Entries<Arg>)

  /** The buffer `recgetdata` allocates: zeros of the size `recbufsize`
      reports, at `address`; or the error of either step. */
  function Buffer(args: Entries<Arg>, engine: Engine, address: nat): Outcome<NdArray>
  {
    match Exchange("recbufsize", args, engine)
    case Err(e) => Err(e)
    case Ok(sizes) =>
      match BufferSize(sizes)
      case Err(e) => Err(e)
      case Ok(size) => Ok(Zeros(address, size.0, size.1))
  }

  /** `soundmexpro(command, arguments)` on the caller's argument entries. */
  function Run(command: string, args: Entries<Arg>, engine: Engine, address: nat): Call
  {
    if command != "recgetdata" then Call(Exchange(command, args, engine), args)
    else
      match Buffer(args, engine, address)
      case Err(e) => Call(Err(e), args)
      case Ok(buffer) =>
        var given := Put(args, "datadest", Array(buffer));
        match Exchange(command, given, engine)
        case Err(e) => Call(Err(e), given)
          case Ok(values) => Call(Unpack(values, buffer), given)
  }

  /** The items of the reply the engine gave to the encoded command. */
  function ReplyItems(command: string, args: Entries<Arg>, engine: Engine): seq<string>
    requires CommandText(command, args).Ok?
  {
    Split(ReplyText(engine(CommandText(command, args).value, ReplyCapacity).written), ';')
  }

  /** Every status other than 1 is reported alike: a busy engine (status 0),
      a failing one (negative status) and one with a status above 1 all raise
      the same error for the command, whatever they wrote. */
  lemma BusyLikeError(command: string, args: Entries<Arg>, busy: Engine, failing: Engine)
    requires CommandText(command, args).Ok?
    requires busy(CommandText(command, args).value, ReplyCapacity).status != 1
    requires failing(CommandText(command, args).value, ReplyCapacity).status != 1
    ensures Exchange(command, args, busy) == Exchange(command, args, failing) == Err(CommandFailed(command))
  {
  }

  /** With status 1 the exchange succeeds exactly when every non-empty reply
      item has an `=`; otherwise it raises for the first one that has not. */
  lemma ExchangeComplete(command: string, args: Entries<Arg>, engine: Engine, i: nat)
    requires CommandText(command, args).Ok?
    requires engine(CommandText(command, args).value, ReplyCapacity).status == 1
    ensures var items := ReplyItems(command, args, engine);
      Exchange(command, args, engine).Ok? <==> forall j :: 0 <= j < |items| ==> !Malformed(items, j)
    ensures var items := ReplyItems(command, args, engine);
      i < |items| && Malformed(items, i) && (forall j :: 0 <= j < i ==> !Malformed(items, j)) ==>
        Exchange(command, args, engine) == Err(MissingEquals(items[i]))
  {
    var items := ReplyItems(command, args, engine);
    var seed := [("success", Int(1))];
    DecodeComplete(seed, items);
    if i < |items| && Malformed(items, i) && (forall j :: 0 <= j < i ==> !Malformed(items, j)) {
      DecodeFirstFailure(seed, items, i);
    }
  }

  /** A successful exchange returns a dict that always holds `success`: each
      key holds what the last reply item naming it wrote, and `success` holds
      the status 1 unless the reply overwrote it. */
  lemma ExchangeValues(command: string, args: Entries<Arg>, engine: Engine, k: string)
    requires Exchange(command, args, engine).Ok?
    ensures CommandText(command, args).Ok?
    ensures engine(CommandText(command, args).value, ReplyCapacity).status == 1
    ensures var values := Exchange(command, args, engine).value;
      DistinctKeys(values) && Lookup(values, "success").Some?
    ensures var items := ReplyItems(command, args, engine);
      Lookup(Exchange(command, args, engine).value, k) ==
        if LastWrite(items, k).Some? then LastWrite(items, k)
        else if k == "success" then Some(Int(1))
        else None
  {
    var items := ReplyItems(command, args, engine);
    var seed := [("success", Int(1))];
    DecodeDistinct(seed, items);
    DecodeLookup(seed, items, k);
    DecodeLookup(seed, items, "success");
  }

  /** The receiving buffer is passed as `datadest=<address>;samples=<n>;channels=<c>;`. */
  lemma DatadestSegment(address: nat, samples: nat, channels: nat)
    ensures Segment("datadest", Array(Zeros(address, samples, channels))) ==
      Ok("datadest=" + NatText(address) + ";samples=" + NatText(samples) + ";channels=" + NatText(channels) + ";")
  {
    assert BufferShape("datadest", Array(Zeros(address, samples, channels))) == Ok((samples, channels));
    assert "datadest" + "=" == "datadest=";
  }

  /** `Unpack` succeeds exactly when the reply holds both `channels` and
      `bufsize`; it removes those two, sets `data` to the buffer and leaves
      every other key as it was. */
  lemma UnpackLookup(values: Entries<Value>, buffer: NdArray, k: string)
    requires DistinctKeys(values)
    ensures Unpack(values, buffer).Ok? <==> Lookup(values, "channels").Some? && Lookup(values, "bufsize").Some?
    ensures Lookup(values, "channels").None? ==> Unpack(values, buffer) == Err(MissingKey("channels"))
    ensures Lookup(values, "channels").Some? && Lookup(values, "bufsize").None? ==>
      Unpack(values, buffer) == Err(MissingKey("bufsize"))
    ensures Unpack(values, buffer).Ok? ==> DistinctKeys(Unpack(values, buffer).value)
    ensures Unpack(values, buffer).Ok? ==>
      Lookup(Unpack(values, buffer).value, k) ==
        if k == "data" then Some(Data(buffer))
        else if k == "channels" || k == "bufsize" then None
        else Lookup(values, k)
  {
    var rest := Remove(values, "channels");
    RemoveLookup(values, "channels", "bufsize");
    RemoveLookup(values, "channels", k);
    RemoveDistinct(values, "channels");
    var left := Remove(rest, "bufsize");
    RemoveLookup(rest, "bufsize", k);
    RemoveDistinct(rest, "bufsize");
    PutLookup(left, "data", Data(buffer), k);
    PutDistinct(left, "data", Data(buffer));
  }

  /** How `recgetdata` sizes its buffer from the `value` that the last
      `value=` item of `recbufsize`'s reply set: a non-negative int `n` is `n`
      samples on one channel; an int list whose first entry `n` is
      non-negative is `n` samples on one channel per entry; a missing `value`
      raises KeyError and any other value a size error, both before anything
      is passed to the engine again and with the caller's dict untouched. */
  lemma RecBufSize(args: Entries<Arg>, engine: Engine, address: nat, sizes: Entries<Value>)
    requires Exchange("recbufsize", args, engine) == Ok(sizes)
    ensures Lookup(sizes, "value") == LastWrite(ReplyItems("recbufsize", args, engine), "value")
    ensures var v := Lookup(sizes, "value");
      v.Some? && v.value.Int? && v.value.i >= 0 ==>
        Buffer(args, engine, address) == Ok(Zeros(address, v.value.i, 1))
    ensures var v := Lookup(sizes, "value");
      v.Some? && v.value.IntList? && |v.value.ints| > 0 && v.value.ints[0] >= 0 ==>
        Buffer(args, engine, address) == Ok(Zeros(address, v.value.ints[0], |v.value.ints|))
    ensures Lookup(sizes, "value").None? ==>
      Run("recgetdata", args, engine, address) == Call(Err(MissingKey("value")), args)
    ensures var v := Lookup(sizes, "value");
      v.Some? && !(v.value.Int? && v.value.i >= 0) && !(v.value.IntList? && |v.value.ints| > 0 && v.value.ints[0] >= 0) ==>
        Run("recgetdata", args, engine, address) == Call(Err(BadBufferSize(v.value)), args)
  {
    ExchangeValues("recbufsize", args, engine, "value");
  }

  /** The caller's dict changes only for `recgetdata`, once the buffer is
      allocated: `datadest` then holds the buffer, whatever happens next, and
      every other key is untouched. */
  lemma RunArgs(command: string, args: Entries<Arg>, engine: Engine, address: nat, k: string)
    ensures command != "recgetdata" || Buffer(args, engine, address).Err? ==>
      Run(command, args, engine, address).args == args
    ensures command == "recgetdata" && Buffer(args, engine, address).Ok? ==>
      Lookup(Run(command, args, engine, address).args, k) ==
        if k == "datadest" then Some(Array(Buffer(args, engine, address).value)) else Lookup(args, k)
  {
    if command == "recgetdata" && Buffer(args, engine, address).Ok? {
      PutLookup(args, "datadest", Array(Buffer(args, engine, address).value), k);
    }
  }

  /** A command other than `recgetdata` is one exchange. */
  lemma RunOther(command: string, args: Entries<Arg>, engine: Engine, address: nat)
    requires command != "recgetdata"
    ensures Run(command, args, engine, address).result == Exchange(command, args, engine)
  {
  }

  /** A successful `recgetdata` allocated the buffer from `recbufsize`'s
      answer, passed it as `datadest`, and returns the second exchange's dict
      without `channels` and `bufsize` and with `data` holding that buffer. */
  lemma RecGetData(args: Entries<Arg>, engine: Engine, address: nat, k: string)
    requires Run("recgetdata", args, engine, address).result.Ok?
    ensures Buffer(args, engine, address).Ok?
    ensures var given := Run("recgetdata", args, engine, address).args;
      && given == Put(args, "datadest", Array(Buffer(args, engine, address).value))
      && Exchange("recgetdata", given, engine).Ok?
      && Lookup(Run("recgetdata", args, engine, address).result.value, k) ==
        if k == "data" then Some(Data(Buffer(args, engine, address).value))
        else if k == "channels" || k == "bufsize" then None
        else Lookup(Exchange("recgetdata", given, engine).value, k)
  {
    var buffer := Buffer(args, engine, address).value;
    var given := Put(args, "datadest", Array(buffer));
    ExchangeValues("recgetdata", given, engine, k);
    UnpackLookup(Exchange("recgetdata", given, engine).value, buffer, k);
  }

  /** The entries of the caller's dict, or of the empty dict used for `None`. */
  ghost function Given(arguments: Dict?<Arg>): Entries<Arg>
    reads arguments
  {
    if arguments == null then [] else arguments.entries
  }

  /** The module state of the bridge: the library handle, loaded on first use,
      and the entry point bound then. */
  class SoundMexPro {
    /** `libhandle != 0` */
    var loaded: bool
    /** The library file the handle was loaded from. */
    var library: string
    /** The bound entry point, `smp`. */
    var entry: string
    /** How often the library has been loaded. */
    ghost var loads: nat
    /** The directory of the bridge's own file. */
    const directory: string
    /** `struct.calcsize("P")`: the size of a memory address in bytes. */
    const addressBytes: nat

    ghost predicate Valid()
      reads this
    {
      && loads == (if loaded then 1 else 0)
      && (loaded ==> library == LibraryPath(directory, 8 * addressBytes) && entry == EntryName(8 * addressBytes))
    }

    /** The bridge before its first call: nothing loaded. */
    constructor (directory: string, addressBytes: nat)
      ensures Valid() && !loaded && loads == 0
      ensures this.directory == directory && this.addressBytes == addressBytes
    {
      this.directory := directory;
      this.addressBytes := addressBytes;
      loaded := false;
      library := "";
      entry := "";
      loads := 0;
    }

    /** Loads the library and binds its entry point, unless that was done before. */
    method Bind()
      requires Valid()
      modifies this
      ensures Valid() && loaded && loads == 1
      ensures old(loaded) ==> library == old(library) && entry == old(entry)
    {
      if !loaded {
        var bits := 8 * addressBytes;
        library := LibraryPath(directory, bits);
        entry := EntryName(bits);
        loaded := true;
        loads := loads + 1;
      }
    }

    /** Encoding, the engine call, the status check and the decoding into a
      fresh dict seeded with `success`. */
    method Call(command: string, arguments: Dict<Arg>, engine: Engine) returns (r: Outcome<Dict<Value>>)
      ensures r.Err? ==> Exchange(command, arguments.entries, engine) == Err(r.error)
      ensures r.Ok? ==> fresh(r.value) && r.value.Valid()
      ensures r.Ok? ==> Exchange(command, arguments.entries, engine) == Ok(r.value.entries)
    {
      var encoded := ParseArgumentsIn(arguments);
      if encoded.Err? {
        return Err(encoded.error);
      }
      var cmd := "command=" + command + ";" + encoded.value;
      var reply := engine(cmd, ReplyCapacity);
      if reply.status != 1 {
        return Err(CommandFailed(command));
      }
      var allretvals := new Dict<Value>();
      allretvals.Set("success", Int(reply.status));
      var raised := ParseArgumentsOut(ReplyText(reply.written), allretvals);
      if raised.Some? {
        return Err(raised.value);
      }
      return Ok(allretvals);
    }

    /** The receiving buffer's size from the dict `recbufsize` returned:
        samples and channels from a non-negative `value`, or from a list's
        length and non-negative first entry; KeyError without `value`; a size
        error for any other value. */
    method Size(sizes: Dict<Value>) returns (r: Outcome<(nat, nat)>)
      ensures Lookup(sizes.entries, "value").None? <==> r == Err(MissingKey("value"))
      ensures var v := Lookup(sizes.entries, "value");
        v.Some? && v.value.Int? && v.value.i >= 0 ==> r == Ok((v.value.i, 1))
      ensures var v := Lookup(sizes.entries, "value");
        v.Some? && v.value.IntList? && |v.value.ints| > 0 && v.value.ints[0] >= 0 ==>
          r == Ok((v.value.ints[0], |v.value.ints|))
      ensures var v := Lookup(sizes.entries, "value");
        v.Some? && !(v.value.Int? && v.value.i >= 0) && !(v.value.IntList? && |v.value.ints| > 0 && v.value.ints[0] >= 0) ==>
          r == Err(BadBufferSize(v.value))
      ensures r == BufferSize(sizes.entries)
    {
      var value := sizes.Get("value");
      if value.None? {
        return Err(MissingKey("value"));
      }
      match value.value {
        case Int(n) =>
          if n < 0 {
            return Err(BadBufferSize(value.value));
          }
          r := Ok((n, 1));
        case IntList(ns) =>
          if |ns| == 0 || ns[0] < 0 {
            return Err(BadBufferSize(value.value));
          }
          r := Ok((ns[0], |ns|));
        case _ =>
          r := Err(BadBufferSize(value.value));
      }
    }

    /** Pops `channels` and `bufsize` from the `recgetdata` reply and stores the
        receiving buffer under `data`. */
    method Collect(allretvals: Dict<Value>, buffer: NdArray) returns (r: Outcome<Dict<Value>>)
      requires allretvals.Valid()
      modifies allretvals
      ensures r.Err? ==> Unpack(old(allretvals.entries), buffer) == Err(r.error)
      ensures r.Ok? ==> r.value == allretvals && allretvals.Valid()
      ensures r.Ok? ==> Unpack(old(allretvals.entries), buffer) == Ok(allretvals.entries)
    {
      var channels := allretvals.Pop("channels");
      if channels.None? {
        return Err(MissingKey("channels"));
      }
      var bufsize := allretvals.Pop("bufsize");
      if bufsize.None? {
        return Err(MissingKey("bufsize"));
      }
      allretvals.Set("data", Data(buffer));
      r := Ok(allretvals);
    }

    /** `soundmexpro(command, arguments)`; `arguments == null` stands for `None`.
        The caller's dict receives `datadest` for `recgetdata`. */
    method Command(command: string, arguments: Dict?<Arg>, engine: Engine, address: nat)
      returns (r: Outcome<Dict<Value>>)
      requires Valid()
      requires arguments != null ==> arguments.Valid()
      modifies this, arguments
      ensures Valid() && loaded && loads == 1
      ensures old(loaded) ==> library == old(library) && entry == old(entry)
      ensures arguments != null ==> arguments.Valid()
      ensures arguments != null ==>
        arguments.entries == Run(command, old(Given(arguments)), engine, address).args
      ensures r.Err? ==> Run(command, old(Given(arguments)), engine, address).result == Err(r.error)
      ensures r.Ok? ==> fresh(r.value) && r.value.Valid()
      ensures r.Ok? ==> Run(command, old(Given(arguments)), engine, address).result == Ok(r.value.entries)
      decreases if command == "recgetdata" then 1 else 0
    {
      Bind();
      var args := arguments;
      if args == null {
        args := new Dict<Arg>();
      }
      ghost var given := args.entries;
      assert given == old(Given(arguments));
      if command != "recgetdata" {
        r := Call(command, args, engine);
        return;
      }
      var sizes := Command("recbufsize", args, engine, address);
      if sizes.Err? {
        return Err(sizes.error);
      }
      var size := Size(sizes.value);
      if size.Err? {
        return Err(size.error);
      }
      var buffer := Zeros(address, size.value.0, size.value.1);
      args.Set("datadest", Array(buffer));
      r := Call(command, args, engine);
      if r.Ok? {
        r := Collect(r.value, buffer);
      }
    }
  }
}
