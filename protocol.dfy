/** The values that cross the bridge: the caller's argument values, the typed
    values decoded from a reply, the sample buffer, and the errors raised. */
module Protocol {
  import opened Wrappers
  import opened Numbers

  /** A numpy array as the bridge sees it: the address of its data, its shape
      (`ndim == |shape|`) and its cells in column-major order. */
  datatype NdArray = NdArray(address: nat, shape: seq<nat>, cells: seq<Decimal>)

  /** `numpy.asfortranarray(numpy.zeros((samples, channels)))` placed at `address`. */
  function Zeros(address: nat, samples: nat, channels: nat): NdArray
  {
    NdArray(address, [samples, channels], seq(samples * channels, _ => Decimal(0, 0)))
  }

  /** A scalar argument value: a Python int, float or str. */
  datatype Atom = IntAtom(i: int) | FloatAtom(d: Decimal) | StrAtom(s: string)

  /** An argument value: a scalar, a list of scalars, or a numpy array. */
  datatype Arg = Scalar(atom: Atom) | List(items: seq<Atom>) | Array(nd: NdArray)

  /** A decoded return value. `Data` is the buffer the bridge itself inserts
      for `recgetdata`. */
  datatype Value =
    | Int(i: int)
    | Float(d: Decimal)
    | IntList(ints: seq<int>)
    | FloatList(floats: seq<Decimal>)
    | Str(s: string)
    | StrList(strs: seq<string>)
    | Data(nd: NdArray)

  /** The exceptions the bridge raises, each tagged with what it names. */
  datatype Error =
    | NotAnArray(key: string)           // ValueError: `data`/`datadest` value is not an ndarray
    | BadDimensions(key: string, ndim: nat) // ValueError: array is neither 1-D nor 2-D
    | MissingEquals(item: string)       // IndexError: a reply item without `=`
    | MissingKey(key: string)           // KeyError: a key the bridge reads or pops is absent
    | BadBufferSize(value: Value)       // numpy.zeros refuses the size `recbufsize` reported
    | CommandFailed(command: string)    // AssertionError: the engine's status is not 1

  type Outcome<T> = Result<T, Error>
}
