# SoundMexPro Python bridge — a Dafny model

`soundmexpro.py` is the Python front end of the SoundMexPro audio engine. A
script calls `soundmexpro(command, arguments)`. The bridge then:

- loads the engine library on first use and binds its entry point;
- flattens the argument dict into one `command=<name>;key=value;...` text, passing sample buffers by address;
- calls the engine with a 32768-byte reply buffer, and raises unless the status is 1;
- decodes the reply `key=value;...` into a dict seeded with `success`, typing each value as int, float or string, scalar or list;
- for `recgetdata`, first asks `recbufsize` for the buffer size, allocates a zero buffer, passes it as `datadest`, and returns it as `data`.

This project models that bridge and proves what it promises.

Modules, one per file:

- `Wrappers` — `Option` and `Result`.
- `Text` — Python's `str.split` with a one-character separator, `str.join` and `str.strip(chars)`, with their laws (split/join inverses, splitting around a separator, the shape of a strip).
- `Numbers` — `isint` and `isfloat` as the syntax Python's `int()` and `float()` accept (sign, digits, point, exponent, surrounding whitespace: the ASCII blanks and the non-ASCII characters `str.isspace()` accepts). `int()` gives the integer; `float()` gives the decimal the text denotes, as `Decimal(mantissa, exponent)` with the digits as written. `NatText`, `IntText` and `FloatText` are the texts the encoder writes for numbers.
- `Dicts` — Python's insertion-ordered dict: entries as a sequence of pairs with distinct keys, `d[k] = v` (`Put`), `del`/`pop` (`Remove`), lookup, and a `Dict` class updated in place.
- `Protocol` — the values crossing the bridge: argument atoms, lists and arrays (`NdArray`: address, shape, cells), decoded values, and the exceptions raised (`Error`).
- `Encoder` — `parse_arguments_in` as a function (`Encode`) and as the source's loop (`ParseArgumentsIn`).
- `Decoder` — `parse_arguments_out`: the classification rule (`Classify`), the walk over the reply items (`DecodeItems`), and the source's loops (`ScanParts`, `IntValues`, `FloatValues`, `StrValues`, `ParseValue`, `ParseItem`, `WriteItems`, `ParseArgumentsOut`).
- `Bridge` — the library binding, the engine exchange and `recgetdata`. `Run` is the whole call as a function. The class `SoundMexPro` holds the module state (`libhandle`/`smp`) and does the call in place (`Command`).
- `Echo` — what survives a round trip. Numeric arguments sent as a command and read back as a reply decode to the same numbers; string lists do not.

The engine is a parameter `engine: (string, nat) -> Reply`, a function from the command text and the buffer size to a status and the characters written. The address numpy gives the `recgetdata` buffer is a parameter `address`.

## Model

| member | source | states |
|---|---|---|
| Numbers.IsInt | soundmexpro.py:30-35 | definition: `int(s)` succeeds exactly when `s`, stripped of whitespace, is an optional sign followed by one or more digits |
| Numbers.ParseInt | soundmexpro.py:98 | definition: `int(s)` is the signed value of those digits |
| Numbers.IsFloat | soundmexpro.py:22-27 | definition: `float(s)` succeeds exactly when `s`, stripped of whitespace, is an optional sign, a mantissa (`d`, `d.`, `d.d` or `.d`, with at least one digit) and an optional `e`/`E` exponent with its own sign |
| Numbers.ParseFloat | soundmexpro.py:108 | definition: `float(s)` is the signed mantissa digits times ten to the written exponent less the number of digits after the point |
| Numbers.IntIsFloat | soundmexpro.py:22-35 | every text `isint` accepts is also accepted by `isfloat`, with the same value; this is why the decoder checks for ints before floats |
| Numbers.IntTextRoundTrip | soundmexpro.py:30-35 | `int(str(i)) == i`, also with whitespace in front (as after `", "` in a list) |
| Numbers.FloatTextRoundTrip | soundmexpro.py:22-35 | the text written for a float is accepted by `isfloat` and not by `isint`, and `float()` reads back the same decimal, also after whitespace |
| Numbers.NotNumberText | soundmexpro.py:22-35 | a text starting with anything but a digit, sign, point or exponent marker is neither an int text nor a float text |
| Numbers.NatText | soundmexpro.py:55 | `str(n)` is a non-empty run of digits whose value is `n` |
| Text.SplitThenJoin | soundmexpro.py:68 | joining the pieces of `s.split(sep)` with `sep` gives `s` back |
| Text.JoinThenSplit | soundmexpro.py:68 | splitting separator-free pieces joined by the separator gives the pieces back |
| Text.SplitAround | soundmexpro.py:68 | splitting `p + sep + q` splits `p` and `q` independently |
| Text.SplitCount | soundmexpro.py:73-76 | an item splits on `=` into two or more pieces exactly when it contains `=` (otherwise `item[1]` raises) |
| Text.SplitSecond | soundmexpro.py:73-76 | `item.split('=')` has as pieces 0 and 1 the text before the first `=` and the text between the first and second `=` |
| Text.StripShape | soundmexpro.py:57 | `strip(chars)` removes only characters in `chars`, from both ends, and leaves ends outside `chars` |
| Text.StripEnclosed | soundmexpro.py:57 | stripping `[`/`]` from `[text]` gives `text` when the text's ends are not brackets |
| Dicts.PutLookup | soundmexpro.py:98-123 | after `d[k] = v`, `k` holds `v` and every other key holds what it held |
| Dicts.PutShape | soundmexpro.py:174 | `d[k] = v` keeps a present key in its place and appends a new key last |
| Dicts.PutDistinct | soundmexpro.py:98-123 | `d[k] = v` leaves the keys distinct |
| Dicts.RemoveLookup | soundmexpro.py:200-201 | after `pop(k)`, `k` is absent and every other key holds what it held |
| Dicts.RemoveDistinct | soundmexpro.py:200-201 | `pop(k)` leaves the keys distinct |
| Dicts.LookupMeaning | soundmexpro.py:164 | `d[k]` finds a value exactly when some entry has key `k`, and it is that entry's value |
| Dicts.Dict.constructor | soundmexpro.py:191 | `{}` is an empty dict |
| Dicts.Dict.Set | soundmexpro.py:174 | `d[k] = v` in place: the new entries are `Put` of the old |
| Dicts.Dict.Pop | soundmexpro.py:200-201 | `d.pop(k)` returns the old value under `k` and removes it; a missing key (KeyError) leaves the dict unchanged |
| Encoder.ArgStr | soundmexpro.py:57 | definition: `str(value)`; a list prints as `[e1, e2, ...]` with strings quoted |
| Encoder.Encode | soundmexpro.py:38-59 | definition: the segments of all arguments concatenated in dict order, or the first ValueError |
| Encoder.CommandText | soundmexpro.py:178-180 | definition: `command=<name>;` followed by the encoded arguments |
| Encoder.BufferShape | soundmexpro.py:44-53 | a `data`/`datadest` value must be an array of 1 or 2 dimensions: samples are `shape[0]`, channels are 1 or `shape[1]`; otherwise the ValueError for a non-array or for the bad `ndim` |
| Encoder.Segment | soundmexpro.py:43-57 | an argument's segment fails exactly when its key is a buffer key and its value has no buffer shape |
| Encoder.EncodeOne | soundmexpro.py:43-57 | a single argument encodes to its segment |
| Encoder.EncodeConcat | soundmexpro.py:39-58 | encoding keeps dict order: `a + b` encodes to the text of `a` followed by that of `b`, and fails exactly when one of them fails |
| Encoder.EncodeFailure | soundmexpro.py:38-59 | encoding fails exactly when some argument's segment fails |
| Encoder.EncodeFirstFailure | soundmexpro.py:40-52 | when encoding fails, the error is that of the first failing argument in dict order |
| Encoder.ParseArgumentsIn | soundmexpro.py:38-59 | the loop that appends segments to `cmd` returns the encoding of the dict, or its first ValueError |
| Decoder.Classify | soundmexpro.py:76-123 | definition: the typed value of one item's value text under its key |
| Decoder.DecodeItems | soundmexpro.py:69-123 | definition: the item walk: empty items are skipped, an item without `=` stops it with IndexError, any other item writes its key |
| Decoder.Decode | soundmexpro.py:68 | definition: the walk over the reply split on `;` |
| Decoder.Ints | soundmexpro.py:101-104 | the list of ints has one element per part |
| Decoder.ScanParts | soundmexpro.py:79-87 | the flag loop ends with `all_values_int` and `all_values_float` true exactly when every part is an int or a float, respectively |
| Decoder.IntValues | soundmexpro.py:101-104 | the appending loop builds `[int(s) for s in parts]` |
| Decoder.FloatValues | soundmexpro.py:111-114 | the appending loop builds `[float(s) for s in parts]` |
| Decoder.StrValues | soundmexpro.py:120-123 | the appending loop builds `[s.strip("\"'") for s in parts]` |
| Decoder.ParseValue | soundmexpro.py:76-123 | the loops and branches of one item compute the classification `Classify` |
| Decoder.ClassifyKind | soundmexpro.py:83-123 | ints if every comma-part is an int; else floats if every part is a float; else strings. items whose KEY is `getchannels` or `getactivechannels` always give strings (the test is on the reply key, not on the command). One part gives a scalar, several give a list |
| Decoder.ClassifyScalar | soundmexpro.py:95-118 | a scalar is `int`, `float` or the quote-stripped text of the whole value |
| Decoder.ClassifyList | soundmexpro.py:99-123 | a list has one element per comma-part, in order, each converted on its own |
| Decoder.WriteItem | soundmexpro.py:71-123 | definition: one item's step: a non-empty item without `=` raises IndexError and writes nothing; otherwise its key gets its decoded value (what the dict then holds is stated by `Dicts.PutLookup` and `Decoder.DecodeLookup`) |
| Decoder.ParseItem | soundmexpro.py:73-123 | the body of the item loop, in place, does what `WriteItem` says |
| Decoder.WriteItems | soundmexpro.py:69-123 | the item loop, in place, leaves the dict and error that the walk `DecodeItems` gives |
| Decoder.ParseArgumentsOut | soundmexpro.py:62-125 | splitting the reply on `;` and walking the items leaves `Decode(reply, old entries)` in `retvals` |
| Decoder.DecodeAdvance | soundmexpro.py:69-76 | one loop turn: an empty item changes nothing, a written item extends the walk, an item without `=` ends it |
| Decoder.DecodeComplete | soundmexpro.py:68-76 | the walk completes exactly when every non-empty item contains `=` |
| Decoder.DecodeFirstFailure | soundmexpro.py:68-76 | an incomplete walk reports the first item without `=` |
| Decoder.DecodeStopsAt | soundmexpro.py:68-76 | once an item raises, later items change nothing |
| Decoder.DecodeLookup | soundmexpro.py:68-123 | after a complete walk each key holds what the last non-empty item naming it wrote, and every key no item names keeps its old value |
| Decoder.DecodeDistinct | soundmexpro.py:94-123 | decoding into a dict leaves a dict |
| Bridge.Exchange | soundmexpro.py:177-195 | definition: encode, call the engine, raise unless the status is 1, decode into a dict seeded with `success` |
| Bridge.BufferSize | soundmexpro.py:164-169 | definition: the samples and channels of the receiving buffer from `recbufsize`'s `value`; its cases are stated by `Bridge.RecBufSize` and `Bridge.SoundMexPro.Size` |
| Bridge.Unpack | soundmexpro.py:199-202 | definition: the `recgetdata` reply without `channels` and `bufsize` and with `data` set |
| Bridge.Run | soundmexpro.py:132-204 | definition: the whole call as a function, giving the result and the caller's dict after it |
| Bridge.BindingNames | soundmexpro.py:138-144 | the 32-bit build loads `SoundMexProPy32.dll` and binds `_SoundMexPro`; the 64-bit build loads `SoundMexProPy64.dll` and binds `SoundMexPro` |
| Bridge.ReplyText | soundmexpro.py:153 | the reply text is what the engine wrote, cut at the buffer size and at the first NUL |
| Bridge.ReplyTextWhole | soundmexpro.py:68 | a reply without NUL that fits the buffer is read whole |
| Bridge.BusyLikeError | soundmexpro.py:183-188 | every status other than 1 (busy 0, negative error, or above 1) raises the same AssertionError, whatever the engine wrote |
| Bridge.ExchangeComplete | soundmexpro.py:183-195 | with status 1 the call succeeds exactly when every non-empty reply item has `=`; otherwise it raises for the first one without |
| Bridge.ExchangeValues | soundmexpro.py:187-195 | a successful call had status 1 and returns a dict that holds `success`; each key holds what the last reply item naming it wrote, and `success` is 1 unless the reply overwrote it |
| Bridge.DatadestSegment | soundmexpro.py:172-174 | the receiving buffer is sent as `datadest=<address>;samples=<n>;channels=<c>;` |
| Bridge.UnpackLookup | soundmexpro.py:199-202 | `recgetdata`'s result exists exactly when the reply has `channels` and `bufsize` (KeyError otherwise, for the first missing); it drops those two, sets `data` to the buffer, and keeps every other key |
| Bridge.RecBufSize | soundmexpro.py:158-174 | `value` is what the last `value=` item of `recbufsize`'s reply set. A non-negative int `n` gives a zero buffer of `n` samples on 1 channel. An int list whose first entry `n` is non-negative gives `n` samples on one channel per entry. A missing `value` raises KeyError, and any other value raises a size error; both leave the caller's dict untouched |
| Bridge.RunArgs | soundmexpro.py:158-174 | the caller's dict changes only for `recgetdata` once the buffer is allocated: `datadest` then holds the buffer and every other key is untouched |
| Bridge.RunOther | soundmexpro.py:177-195 | a command other than `recgetdata` is exactly one exchange |
| Bridge.RecGetData | soundmexpro.py:158-202 | a successful `recgetdata` allocated the buffer sized by `recbufsize`, passed it as `datadest`, and returns the second reply without `channels`/`bufsize` and with `data` holding that buffer |
| Bridge.SoundMexPro.constructor | soundmexpro.py:18-19 | before the first call nothing is loaded |
| Bridge.SoundMexPro.Bind | soundmexpro.py:136-147 | after binding the library is loaded, and it is loaded once: an existing binding is kept |
| Bridge.SoundMexPro.Call | soundmexpro.py:177-195 | encoding, the engine call, the status check and decoding into a fresh dict seeded with `success` give the result of `Exchange` |
| Bridge.SoundMexPro.Size | soundmexpro.py:164-169 | a non-negative int `value` `n` gives `n` samples on 1 channel; an int list with a non-negative first entry `n` gives `n` samples on one channel per entry; a missing `value` raises KeyError, and any other value (negative, float, string, empty) raises a size error |
| Bridge.SoundMexPro.Collect | soundmexpro.py:199-202 | popping `channels` and `bufsize` and setting `data`, in place, gives `Unpack`, or the KeyError of the first missing key |
| Bridge.SoundMexPro.Command | soundmexpro.py:132-204 | the whole call: the library is bound once; `None` is an empty dict; the caller's dict ends as `Run` says (with `datadest` for `recgetdata`); the result or error is `Run`'s, in a fresh dict; the nested `recbufsize` call does not recurse further |
| Echo.ListBare | soundmexpro.py:57 | a list of numbers is sent as its elements' texts joined by `", "`, without brackets and without `;` or `=` |
| Echo.ListPieces | soundmexpro.py:57 | split on `,`, that text gives each element's text, each after the first with one space in front |
| Echo.IntEcho | soundmexpro.py:57 | `str(i)` sent as a value decodes back to `i` |
| Echo.FloatEcho | soundmexpro.py:57 | a float sent as a value decodes back to the same decimal |
| Echo.IntListEcho | soundmexpro.py:57 | a list of two or more ints decodes back to the same ints, in order |
| Echo.FloatListEcho | soundmexpro.py:57 | a list of two or more floats decodes back to the same decimals, in order |
| Echo.EchoValue | soundmexpro.py:57 | every numeric scalar or list decodes back to itself; a one-element list comes back as its element |
| Echo.StrListNoEcho | soundmexpro.py:117-123 | a list of two strings does not come back: the second element keeps the space and opening quote it was sent with |
| Echo.EncodeItems | soundmexpro.py:39-58 | echo-safe arguments encode to `key=value;` items in dict order |
| Echo.ItemParts | soundmexpro.py:73-76 | the key read back from an item is the argument's key, and the value is its value text |
| Echo.SplitLines | soundmexpro.py:68 | items each followed by `;` split back into the items and one empty trailing item |
| Echo.LastWriteItems | soundmexpro.py:68-123 | with distinct keys, the last item naming `k` carries the echo of the argument under `k` |
| Echo.EchoRoundTrip | soundmexpro.py:38-125 | numeric arguments, encoded and read back as a reply into a seeded dict, decode without error: each argument's key holds its echo and every other key keeps its seed value |

## Left out

- Loading the library with `ctypes`, the address width from `struct.calcsize`, and the foreign call (soundmexpro.py:136-147, 183). They are foreign code. The model keeps the loaded flag, the library file name and the entry name, and takes the engine as a function parameter.
- The engine is a pure function of the command text: state it keeps between calls, and the samples it writes into the `recgetdata` buffer through its address, are not modelled.
- Bridge.Run: the `data` returned by `recgetdata` is the buffer as allocated (zeros). The recorded samples are not modelled, because the engine writes them through the address.
- The numpy address of the buffer is a parameter. Fortran order and `float32` cells are not modelled. Of numpy's own checks, only two are modelled, as the one error `BadBufferSize`: a negative size, and a `value` that is not an int or a non-empty int list.
- Bridge.BufferSize: a size numpy cannot allocate is accepted. In the source, `numpy.zeros` raises for it (soundmexpro.py:172): ValueError or OverflowError when the cells or bytes exceed numpy's 64-bit limits (e.g. `value=4611686018427387904`), MemoryError when the machine lacks the memory. The model allocates every non-negative size, because the memory limit depends on the machine.
- Bridge.RecBufSize: for the same reason, it gives a zero buffer for every non-negative size, including sizes for which numpy raises ValueError, OverflowError or MemoryError in the source.
- Bridge.SoundMexPro.Size: for the same reason, it returns a size for every non-negative `value`, including sizes numpy cannot allocate.
- Windows-1252 decoding of the reply and `cmd.encode()` (soundmexpro.py:68, 183): texts are sequences of characters.
- IEEE-754 doubles: `float()` gives the exact decimal the text denotes, without rounding.
- `Decimal` values are not normalised: `1.5` and `1.50` decode to `Decimal(15, -1)` and `Decimal(150, -2)`, which compare unequal although the Python floats are equal. The round-trip lemmas state equality of these representations, which implies equality of the numbers.
- The texts `inf`, `nan` and `infinity`, underscores in numbers and non-ASCII digits, all of which Python's `int()`/`float()` accept: the model treats those texts as strings.
- Python's `repr` of floats (shortest round-trip digits) is not modelled: a float argument is written as `<mantissa>e<exponent>`, which `float()` reads back exactly.
- `repr` escaping inside string lists (quotes, backslashes) is not modelled: a string element prints between single quotes.
- `str()` of values other than int, float, str, lists of those and arrays (bools, None, tuples, nested dicts) is not modelled. An array under a non-buffer key prints its cells separated by spaces; numpy's print options are not modelled.
- The status is compared with 1 only, so the 32-bit range of `c_int` is not modelled.
- Numbers.IsInt: CPython's limit on the digits of int/str conversions (4300 by default) is not modelled. A text of more than 4300 digits makes `int()` raise, so `isint` is false and such a reply value decodes as a float; the model accepts it as an int.
- Numbers.ParseInt: likewise reads digit runs of any length.
- Encoder.ArgStr: `str()` of an int of more than 4300 digits raises ValueError in CPython; the model prints it.
- Encoder.EncodeFailure: for the same reason, "fails exactly when some segment fails" does not cover the ValueError that `str()` raises for an int of more than 4300 digits.
- Concurrency: the module globals are modelled as one object's fields, and calls are sequential.
- The tutorial scripts that call the bridge are not part of this model.

Consequences of the code as written, each stated by a member:

- A list argument is written with `", "` between elements (`track=0, 1;`). `isint`/`isfloat` ignore the space, so numeric lists still decode to the same numbers (`Echo.IntListEcho`). String lists keep it (`Echo.StrListNoEcho`).
- A busy engine (status 0) raises the same AssertionError as a failing one, and so does any other status but 1 (`Bridge.BusyLikeError`). A caller cannot tell them apart.
- The comment above `soundmexpro` (soundmexpro.py:130-131) says the item `'result'` always holds 1 on success, 0 on busy and a negative value on errors. The code stores the status under `success` (soundmexpro.py:193) and raises for every status but 1 (soundmexpro.py:187-188): no returned dict has `result` unless the engine's reply names it, and `success` is 1 unless the reply overwrites it (`Bridge.ExchangeValues`, `Bridge.BusyLikeError`).
- An array of 0 dimensions also raises, not only one of more than 2 (`Encoder.BufferShape`).
- `key=` decodes to the empty string, and in `key=a=b` only `a` is the value (`Text.SplitSecond`).
