# Verification of the AMF codec, acceptor, latency histogram and failure policies of brpc

A Dafny model of four parts of brpc, with proofs over all inputs and all runs.

**AMF 0 codec** (`Bytes`, `Amf*`). `AmfStream` holds the chunked input and output streams. `AmfValue`, `AmfReader` and
`AmfWriter` give values and the format on flat bytes, as recursive functions. `AmfDecoder`, `AmfEncoder` and
`AmfMessageCodec` are the loops of the source, on streams, each proved equal to those functions, so nothing read depends
on how the bytes are cut up. On top of them: the round trip and the exact condition for it (`AmfRoundTrip`,
`AmfMessageRoundTrip`, `AmfMessageExactly`), all layers in one call (`AmfEndToEnd`), objects as other writers send them
(`AmfAnyOrder`), bounds on arbitrary bytes (`AmfBounds`), the array limit (`AmfArrayLimit`), truncated input
(`AmfTruncation`), agreement of the schema-directed reader, the skipper and the generic reader (`AmfMessage`,
`AmfSkip`), and the inline-and-deque array (`AmfArray`). The format is that of "Action Message Format - AMF 0", sections 2.2 to 2.18.

**Acceptor** (`Acceptor`). A state machine with one step per atomic operation or critical section. Any number of accept
loops, recycle callbacks, StopAccept and Join interleave at will; theorems hold of every reachable state.

**LatencyHistogram** (`LatencyHistogram`, `LatencyMerge`). The bucket index, add, merge and percentile, against sorted
samples.

**CircuitBreaker and DefaultClusterRecoverPolicy** (`EmaErrorRecorder`, `CircuitBreaker`, `ClusterRecover`). Classes
proved against functions on values, and theorems over every run of calls. Doubles are reals; the clock, random draws and
server availability are parameters.

## Where the code and its promises part

- `AMFArray::operator=` keeps floor(surplus / 2) elements of a longer target. `AmfArray.AssignedExactly` gives the exact
  condition.
- Assigning an `AMFArray` or `AMFField` to itself clears it (`AmfArray.AMFArray.Assign`, `AmfArray.AMFArray.AssignField`).
- An object body succeeds when a *name* cannot be read, so success does not mean that an end marker was seen:
  `AmfTruncation.LoneMarkerAccepted` is an input, `AmfTruncation.ObjectTruncation` tells exactly which cuts go unnoticed.
  A name over `amf_max_string_size` ends the object silently too; `AmfRoundTrip.ObjectRoundTripExactly` covers this case.
- Repeated names append to an existing array, so an array may end up longer than `amf_max_array_size`:
  `AmfAnyOrder.LimitExceeded` is an input. `AmfArrayLimit.ArrayLimitExactly` gives the exact condition for one array,
  `AmfArrayLimit.ObjectArraysWithin` a sufficient one for everything read from empty, and
  `AmfArrayLimit.ObjectArraysExactly` the exact one where no container is replaced by a later value of its name.
- `putn` takes its length as an int, while an AMFField holds strings of up to 2^32 - 1 bytes. Writing one of 2^31 bytes
  or more passes a negative length; `AmfRoundTrip.OverlongText` is the shortest. The model calls that an overrun and
  says nothing of the stream after it; `AmfEncoder.WriteText` and `AmfEncoder.WriteField` tell when it happens. What the
  readers accept is shorter.
- `Acceptor::StartAccept` takes fd 0, but `Join` waits only for a positive fd. `Acceptor.JoinClearsExactly`
  gives the condition, `Acceptor.JoinMissesFdZero` a run on fd 0 in which it fails.

## Assumptions

- Acceptor: socket ids are fresh; a socket is recycled at most once and not while an accept loop pins it; a running
  accept loop keeps its listening socket alive; there is one Join at a time; StartAccept is called again only after
  StopAccept has returned; the listing that StopAccept takes contains every id registered throughout it.
- Circuit breaker: latencies are not negative, flags do not change, `0 < smooth < 1` and `0 < epsilon < 1`;
  `smooth^window = epsilon` is used by `EmaErrorRecorder.WindowDecay` only.
- Messages: a schema is a list of named fields per type, with names distinct within a type; a message is a map from set
  fields to values.

## Model

| member | source | states |
|---|---|---|
| `Bytes.ToBigEndian` | `src/brpc/amf_inl.h:153-166` | k bytes, whatever the value |
| `Bytes.BigEndianRoundTrip` | `src/brpc/amf_inl.h:64-107` | a value below 256^k comes back from its k big-endian bytes |
| `Bytes.BigEndianBound` | `src/brpc/amf_inl.h:64-107` | k bytes always give a value below 256^k |
| `AmfStream.InputStream.constructor` | `src/brpc/amf.h:35-76` | before anything is read the stream holds the chunks joined end to end |
| `AmfStream.InputStream.Cutn` | `src/brpc/amf_inl.h:27-47` | over any chunking, empty chunks included: the bytes cut, the bytes left and popped_bytes are those of the flat sequence, short reads included |
| `AmfStream.InputStream.CutU8` | `src/brpc/amf_inl.h:53-62` | fast and slow path agree with the flat sequence |
| `AmfStream.InputStream.CutWord` | `src/brpc/amf_inl.h:64-107` | the k-byte word of the flat sequence, fast or slow path; a short read counts what was there |
| `AmfStream.OutputStream.constructor` | `src/brpc/amf.h:79-116` | a good, empty stream with the room of all its buffers |
| `AmfStream.OutputStream.Putn` | `src/brpc/amf_inl.h:116-136` | over any supply of buffers, for a length that an int holds: the bytes go to the end of what is kept, cut off exactly where the supply ends, and the stream is bad from there on; pushed_bytes is the length kept; any other length is an overrun |
| `AmfStream.OutputStream.CopyAll` | `src/brpc/amf_inl.h:116-136` | the loop of putn |
| `AmfStream.OutputStream.PutU8` | `src/brpc/amf_inl.h:138-151` | appends one byte in the same sense |
| `AmfStream.OutputStream.PutWord` | `src/brpc/amf_inl.h:153-166` | appends the big-endian image in the same sense |
| `AmfStream.OutputStream.Done` | `src/brpc/amf_inl.h:109-114` | on a good stream BackUp returns exactly the unused tail: what is kept is what was put |
| `AmfStream.AfterThen` | `src/brpc/amf_inl.h:116-166` | two puts in a row are one put of the concatenation |
| `AmfPuts.PutAll` | `src/brpc/amf_inl.h:109-166` | any sequence of puts with no block longer than an int holds, and then done(), over any supply: good exactly if there was room, and then the bytes kept are the big-endian concatenation of all puts; pushed_bytes is what there was room for |
| `AmfPuts.PutEach` | `src/brpc/amf_inl.h:116-166` | the puts before done() in the same sense; overrun exactly if a block is longer than an int holds |
| `AmfStream.AfterThree` | `src/brpc/amf_inl.h:116-166` | the same for marker, length and body |
| `AmfStream.WroteThen` | `src/brpc/amf.cpp:1230-1260` | writers compose: images concatenate, and both must be writable |
| `AmfStream.WroteBad` | `src/brpc/amf.cpp:1230-1260` | a writer whose first part made the stream bad has the contract of the whole |
| `AmfValue.LessTrichotomy` | `src/brpc/amf.h:203-228` | the order of an AMFObject map is total |
| `AmfValue.LessTransitive` | `src/brpc/amf.h:203-228` | and transitive |
| `AmfValue.LookupPut` | `src/brpc/amf.cpp:238-254` | storing under a name changes that name only |
| `AmfValue.PutSorted` | `src/brpc/amf.cpp:238-254` | storing keeps the map in order |
| `AmfValue.PutLast` | `src/brpc/amf.cpp:790-814` | a name past all others is stored at the end |
| `AmfValue.PutSize` | `src/brpc/amf.cpp:790-814` | the size of a map changes by exactly what is stored less what it replaces |
| `AmfReader.TextBounds` | `src/brpc/amf.cpp:290-337` | a string read fits the limit and the bytes consumed |
| `AmfReader.ReadValue` | `src/brpc/amf.cpp:695-788` | never gives back more bytes than it got; terminates by bytes remaining |
| `AmfReader.ReadPairs` | `src/brpc/amf.cpp:790-839` | the loop over name and value: terminates by bytes remaining, whatever count was declared |
| `AmfReader.ReadItems` | `src/brpc/amf.cpp:955-973` | terminates by bytes remaining, whatever count was declared |
| `AmfDecoder.ReadStringData` | `src/brpc/amf.cpp:290-313` | the string or a short read; what it consumes; the buffer never exceeds the bytes read plus 64 KiB |
| `AmfDecoder.ReadText` | `src/brpc/amf.cpp:315-337` | the short and long string readers on a chunked stream equal the reader on flat bytes; bytes are conserved |
| `AmfDecoder.ReadScalar` | `src/brpc/amf.cpp:695-788` | the same for values that are not containers |
| `AmfDecoder.ReadValue` | `src/brpc/amf.cpp:695-788` | the same for any value; every call is at depth at most amf_max_depth + 1 |
| `AmfDecoder.ReadMarked` | `src/brpc/amf.cpp:695-788` | the same for the marker switch |
| `AmfDecoder.ReadMarkedObject` | `src/brpc/amf.cpp:695-788` | the same for plain and typed objects |
| `AmfDecoder.ReadObjectBody` | `src/brpc/amf.cpp:790-814` | the loop equals the recursive reading of flat bytes, failing names included |
| `AmfDecoder.ReadEcmaArrayBody` | `src/brpc/amf.cpp:816-839` | the same for an ECMA array, its count checked |
| `AmfDecoder.ReadCountedPairs` | `src/brpc/amf.cpp:829-837` | the same for its counted loop |
| `AmfDecoder.ReadArrayBody` | `src/brpc/amf.cpp:955-973` | the same for the items of a strict array |
| `AmfDecoder.ReadObject` | `src/brpc/amf.cpp:841-861` | the same at top level: verdict, object and bytes left do not depend on chunking |
| `AmfDecoder.ReadArray` | `src/brpc/amf.cpp:975-991` | the same for arrays |
| `AmfEncoder.WriteText` | `src/brpc/amf.cpp:1060-1070` | good and not overrun afterwards exactly if the string is no longer than an int holds and its image fits, and then the image was appended; overrun exactly by a longer one |
| `AmfEncoder.WriteMarkedText` | `src/brpc/amf.cpp:1060-1070` | the same for marker, length and text |
| `AmfEncoder.WriteName` | `src/brpc/amf.cpp:1230-1248` | the same for length and name |
| `AmfEncoder.WriteEntry` | `src/brpc/amf.cpp:1230-1248` | one turn of the loop: a name of 65536 bytes or more makes the stream bad, else name and value are appended |
| `AmfEncoder.WriteField` | `src/brpc/amf.cpp:1175-1228` | good and not overrun afterwards exactly if the value is encodable and its image fits, and then its image was appended; only a string longer than an int holds overruns |
| `AmfEncoder.WriteObject` | `src/brpc/amf.cpp:1230-1248` | the same for the loop over an object, end marker included |
| `AmfEncoder.WriteArray` | `src/brpc/amf.cpp:1250-1260` | the same for the loop over an array |
| `AmfRoundTrip.TextBack` | `src/brpc/amf.cpp:290-337` | a string within the limit is read back, and exactly its bytes |
| `AmfRoundTrip.ValueBack` | `src/brpc/amf.cpp:695-788` | so is any encodable value within the limits at any depth |
| `AmfRoundTrip.PairsBack` | `src/brpc/amf.cpp:790-814` | so are the remaining pairs of an object, onto those already read |
| `AmfRoundTrip.ItemsBack` | `src/brpc/amf.cpp:863-973` | so are the remaining items of an array |
| `AmfRoundTrip.ObjectRoundTrip` | `src/brpc/amf.cpp:841-861` | reading a written object followed by any bytes succeeds, yields the object and leaves exactly those bytes |
| `AmfRoundTrip.ArrayRoundTrip` | `src/brpc/amf.cpp:975-991` | the same for arrays |
| `AmfRoundTrip.ValueRefused` | `src/brpc/amf.cpp:695-788` | a value whose names fit but which exceeds some limit is refused |
| `AmfRoundTrip.ObjectRoundTripExactly` | `src/brpc/amf.cpp:841-861` | for every encodable object and any flags, negative ones too, the round trip holds if and only if the object is within the limits |
| `AmfRoundTrip.ArrayRoundTripExactly` | `src/brpc/amf.cpp:975-991` | the same for arrays, any flags included |
| `AmfRoundTrip.OverlongText` | `src/brpc/amf.cpp:180-198` | a string of 2^31 bytes is one that AMFField holds and no writer can write |
| `AmfRoundTrip.NamelessValue` | `src/brpc/amf.cpp:695-788` | with a negative string limit, a value read back equal was within the limits, or an end marker is left in the way |
| `AmfEndToEnd.JoinSplit` | `src/brpc/amf_inl.h:27-47` | cutting bytes into chunks of any sizes loses nothing |
| `AmfEndToEnd.SendObject` | `src/brpc/amf.cpp:1230-1248` | WriteAMFObject and done() over any buffers, for strings no longer than an int holds: sent exactly if encodable and the buffers suffice, and then the kept bytes are the image |
| `AmfEndToEnd.RelayObject` | `src/brpc/amf.cpp:841-861` | the streams, writer and reader together: an object that was sent is read back equal from any chunking with any bytes behind it, popping exactly its image |
| `AmfEndToEnd.SendMessage` | `src/brpc/amf.cpp:1099-1173` | the same for WriteAMFObject of a message |
| `AmfEndToEnd.RelayMessage` | `src/brpc/amf.cpp:662-687` | the same for messages of one schema |
| `AmfAnyOrder.PairsRead` | `src/brpc/amf.cpp:790-839` | pairs in any order are stored one by one, in plain objects and in counted arrays |
| `AmfAnyOrder.PutAllLookup` | `src/brpc/amf.cpp:790-814` | a name finds the last value sent under it, or else what was there |
| `AmfAnyOrder.ObjectAnyOrder` | `src/brpc/amf.cpp:841-861` | pairs sent in any order, scalars possibly repeated, give the sorted map that finds for every name the last value sent and nothing else |
| `AmfAnyOrder.EcmaAnyOrder` | `src/brpc/amf.cpp:816-839` | the same for an ECMA array of that many pairs, an empty name included, without an end marker |
| `AmfAnyOrder.TypedAsPlain` | `src/brpc/amf.cpp:695-788` | a typed object is read like a plain one once its class name is passed |
| `AmfAnyOrder.ObjectMerges` | `src/brpc/amf.cpp:238-245` | an object read over an object: its pairs win and the others stay |
| `AmfAnyOrder.ArrayAppends` | `src/brpc/amf.cpp:247-254` | an array read over an array is appended to it, beyond the array limit if need be |
| `AmfAnyOrder.ArrayTwice` | `src/brpc/amf.cpp:790-814` | a name sent twice with an array reads as one array of all items |
| `AmfAnyOrder.LimitExceeded` | `src/brpc/amf.cpp:955-973` | an input whose array passes amf_max_array_size: a limit of 1 and two arrays of one item under one name |
| `AmfArrayLimit.ItemsCount` | `src/brpc/amf.cpp:955-973` | on any bytes an array that was read got exactly the declared number of items, a failed one no more |
| `AmfArrayLimit.ArrayLimitExactly` | `src/brpc/amf.cpp:955-973` | after a successful read the array is within amf_max_array_size if and only if the items it had and the declared count together are |
| `AmfArrayLimit.ObjectArraysWithin` | `src/brpc/amf.cpp:841-861` | on any bytes, from empty, success or not: if no array is read over an array, or each has room for what is appended, every array is within the limit |
| `AmfArrayLimit.ArrayArraysWithin` | `src/brpc/amf.cpp:975-991` | the same for ReadAMFArray |
| `AmfArrayLimit.ArrayArraysExactly` | `src/brpc/amf.cpp:975-991` | of an array read without replacing a container, all arrays in it are within the limit if and only if each had room for what was appended |
| `AmfArrayLimit.ObjectArraysExactly` | `src/brpc/amf.cpp:841-861` | of an object read without replacing a container, all arrays are within the limit if and only if each had room for what was appended |
| `AmfBounds.ValueBounds` | `src/brpc/amf.cpp:695-788` | on arbitrary bytes: a value read is within the limits, and its size grows by less than the bytes consumed, success or not |
| `AmfBounds.PairsBounds` | `src/brpc/amf.cpp:790-839` | the same for object and ECMA array loops, order included |
| `AmfBounds.ItemsBounds` | `src/brpc/amf.cpp:863-973` | the same for array items |
| `AmfBounds.ObjectReadBounds` | `src/brpc/amf.cpp:841-861` | ReadAMFObject from empty: success gives nesting within amf_max_depth, names and strings within amf_max_string_size and a sorted map; nodes plus key bytes plus string bytes never exceed the bytes popped |
| `AmfBounds.ArrayReadBounds` | `src/brpc/amf.cpp:975-991` | the same for ReadAMFArray |
| `AmfTruncation.ValueCut` | `src/brpc/amf.cpp:695-788` | a strict prefix of a value is accepted if and only if the cut is one of those told by Accepted, and then gives a left-pruned copy and is used up |
| `AmfTruncation.PairsCut` | `src/brpc/amf.cpp:790-814` | the same for the pairs of an object, onto those already read |
| `AmfTruncation.ItemsCut` | `src/brpc/amf.cpp:863-973` | the same for items: only a cut in the last one can be accepted, an array is never short |
| `AmfTruncation.ObjectTruncation` | `src/brpc/amf.cpp:841-861` | a strict prefix of a written object is read if and only if the cut lies before or inside a name, before an end marker, or in an accepted place of a value; it then yields the fields in order up to some point, only the last possibly pruned the same way |
| `AmfTruncation.LoneMarkerAccepted` | `src/brpc/amf.cpp:790-814` | the marker alone reads as an empty object: success without an end marker |
| `AmfTruncation.ArrayTruncation` | `src/brpc/amf.cpp:975-991` | a strict prefix of a written array is read if and only if the cut lies in an accepted place of its last item; it then yields all items, only the last possibly pruned |
| `AmfMessage.FieldAsSkip` | `src/brpc/amf.cpp:449-571` | reading a field of any kind and skipping it at the same depth agree on verdict and bytes, on any input |
| `AmfMessage.BodyAsSkip` | `src/brpc/amf.cpp:573-629` | the same for object bodies and any schema |
| `AmfMessage.SkipThenValue` | `src/brpc/amf.cpp:449-571` | a value that can be skipped is read by the generic reader with the same bytes |
| `AmfMessage.SkipThenBody` | `src/brpc/amf.cpp:605-629` | a body that can be skipped is read by the generic reader with the same bytes |
| `AmfSkip.SkipValueExactly` | `src/brpc/amf.cpp:449-571` | a value is skipped if and only if it is read generically and holds no array of either kind |
| `AmfSkip.SkipBodyExactly` | `src/brpc/amf.cpp:605-629` | the same for a body |
| `AmfMessageRoundTrip.FieldBack` | `src/brpc/amf.cpp:449-571` | a set field that can be written is read back into its slot |
| `AmfMessageRoundTrip.BodyBack` | `src/brpc/amf.cpp:573-603` | so is the whole body of a message |
| `AmfMessageRoundTrip.MessageRoundTrip` | `src/brpc/amf.cpp:662-687` | presence and values of every field come back, required fields are found set, and exactly what was written is consumed |
| `AmfMessageExactly.MessageRoundTripExactly` | `src/brpc/amf.cpp:662-687` | for every writable message and any flags, negative ones too, the round trip holds if and only if the message is within the limits |
| `AmfMessageExactly.FieldRefused` | `src/brpc/amf.cpp:449-571` | a value past some limit whose names are acceptable is refused |
| `AmfMessageExactly.BodyKnown` | `src/brpc/amf.cpp:573-603` | on any bytes reading sets only fields of the schema whose names are within the string limit, in nested messages too |
| `AmfMessageRoundTrip.WrittenInitialized` | `src/brpc/amf.cpp:1099-1173` | a message the writer accepts has its required fields set |
| `AmfMessageCodec.ReadFieldFrom` | `src/brpc/amf.cpp:449-571` | the field reader on a chunked stream equals the one on flat bytes |
| `AmfMessageCodec.SkipBodyFrom` | `src/brpc/amf.cpp:605-629` | the same for the skipper |
| `AmfMessageCodec.ReadMessageBodyFrom` | `src/brpc/amf.cpp:573-603` | the same for the body loop |
| `AmfMessageCodec.ReadMessageEcmaFrom` | `src/brpc/amf.cpp:631-660` | the same for ECMA arrays |
| `AmfMessageCodec.ReadMessageFrom` | `src/brpc/amf.cpp:662-687` | the same at top level |
| `AmfMessageCodec.ReadEcmaPairsFrom` | `src/brpc/amf.cpp:631-660` | the counted loop on a chunked stream |
| `AmfMessageCodec.WriteValue` | `src/brpc/amf.cpp:1099-1173` | good and not overrun afterwards exactly if the value can be written as that kind and fits, and then it was appended |
| `AmfMessageCodec.WriteSetField` | `src/brpc/amf.cpp:1099-1173` | the same for name and value |
| `AmfMessageCodec.WriteTurn` | `src/brpc/amf.cpp:1099-1173` | the same for one descriptor: a repeated field or a missing required one makes the stream bad |
| `AmfMessageCodec.WriteMessage` | `src/brpc/amf.cpp:1099-1173` | the same for the loop over the descriptors |
| `AmfArray.AMFArray.constructor` | `src/brpc/amf.cpp:995-997` | an empty array |
| `AmfArray.AMFArray.Copy` | `src/brpc/amf.cpp:999-1007` | the same sequence |
| `AmfArray.AMFArray.At` | `src/brpc/amf.h:263-270` | slots and deque index as one sequence |
| `AmfArray.AMFArray.AddField` | `src/brpc/amf.cpp:1032-1044` | appends an undefined element, and the branch that reuses a deque element is never taken |
| `AmfArray.AMFArray.RemoveLastField` | `src/brpc/amf.cpp:1046-1056` | drops the last element and leaves no used slot behind |
| `AmfArray.AMFArray.Clear` | `src/brpc/amf.cpp:1023-1030` | empties the sequence and every slot |
| `AmfArray.AMFArray.Assign` | `src/brpc/amf.cpp:1009-1021` | from another array: the source, followed by half the surplus of the target; from itself: all elements undefined |
| `AmfArray.AMFArray.AssignField` | `src/brpc/amf.cpp:114-131` | clears before it reads, so an element assigned to itself is lost |
| `AmfArray.AMFArray.RemoveSurplus` | `src/brpc/amf.cpp:1017-1019` | a growing index against a shrinking size stops half way |
| `AmfArray.AssignedExactly` | `src/brpc/amf.cpp:1009-1021` | assignment is exact if and only if the target is at most one element longer |
| `AmfArray.AssignedKeepsOne` | `src/brpc/amf.cpp:1009-1021` | a target two longer keeps one old element |
| `AmfArrayDecoder.ReadArrayInto` | `src/brpc/amf.cpp:975-991` | filling the array in place equals reading a sequence |
| `AmfArrayDecoder.ReadBodyInto` | `src/brpc/amf.cpp:955-973` | the same for the body |
| `AmfArrayDecoder.ReadItemsInto` | `src/brpc/amf.cpp:955-973` | the same for the loop |
| `LatencyHistogram.Partition` | `example/benchmark_fb/client.cpp:406-422` | index i is taken exactly by the samples between the lower and the upper bound of bucket i, for all of [0, 2^32) |
| `LatencyHistogram.IndexInRange` | `example/benchmark_fb/client.cpp:402-412` | every index is below kBuckets |
| `LatencyHistogram.IndexMonotone` | `example/benchmark_fb/client.cpp:406-412` | larger samples do not go to lower buckets |
| `LatencyHistogram.UpperMonotone` | `example/benchmark_fb/client.cpp:414-422` | upper bounds ascend |
| `LatencyHistogram.UpperAccuracy` | `example/benchmark_fb/client.cpp:357-360` | the upper bound of its bucket exceeds a sample by at most 1/128 of it |
| `LatencyHistogram.RankBucket` | `example/benchmark_fb/client.cpp:386-399` | the running sum passes a rank in exactly the bucket of the sample of that rank |
| `LatencyHistogram.Histogram.Add` | `example/benchmark_fb/client.cpp:365-370` | the histogram of one more sample |
| `LatencyHistogram.Histogram.Merge` | `example/benchmark_fb/client.cpp:372-379` | the histogram of both sample sets, also of a histogram with itself |
| `LatencyHistogram.Histogram.Percentile` | `example/benchmark_fb/client.cpp:386-399` | the loop finds the bucket of the rank, and the return after it is never reached |
| `LatencyHistogram.PercentileAccuracy` | `example/benchmark_fb/client.cpp:386-399` | for any samples and p in [0, 1]: at least the sample of rank floor(p*(n-1)+0.5) in sorted order, at most 1/128 more, and at most the maximum |
| `LatencyHistogram.PercentileMonotone` | `example/benchmark_fb/client.cpp:386-399` | monotone in p |
| `LatencyHistogram.OrderIrrelevant` | `example/benchmark_fb/client.cpp:365-379` | counts, totals, maximum and percentiles depend on the multiset of samples only |
| `LatencyMerge.MergeAll` | `example/benchmark_fb/client.cpp:505-508` | merging any number of histograms gives the histogram of all their samples |
| `LatencyMerge.MergeOrderIrrelevant` | `example/benchmark_fb/client.cpp:372-379` | any split of the samples among histograms and any order of merging give the same counts, totals, maximum and percentiles |
| `EmaErrorRecorder.NextLatency` | `src/brpc/circuit_breaker.cpp:122-135` | the average stays between its old value and the sample |
| `EmaErrorRecorder.Decay` | `src/brpc/circuit_breaker.cpp:155-171` | a success takes at least one off a positive cost and leaves at most smooth of it |
| `EmaErrorRecorder.Recorder.UpdateLatency` | `src/brpc/circuit_breaker.cpp:122-135` | the new average |
| `EmaErrorRecorder.Recorder.UpdateErrorCost` | `src/brpc/circuit_breaker.cpp:137-172` | the new cost, and the verdict on it |
| `EmaErrorRecorder.Recorder.OnCallEnd` | `src/brpc/circuit_breaker.cpp:84-111` | the new state, and the verdict by error count while initializing and by cost afterwards |
| `EmaErrorRecorder.Recorder.ResetHistory` | `src/brpc/circuit_breaker.cpp:113-120` | a window still initializing restarts; a full one loses its cost only |
| `EmaErrorRecorder.LatencyBounds` | `src/brpc/circuit_breaker.cpp:122-135` | in every run the average is 0, or lies between the least and the greatest success latency since the history last restarted |
| `EmaErrorRecorder.SuccessesDecay` | `src/brpc/circuit_breaker.cpp:137-172` | n successes in a row leave at most smooth^n of the cost |
| `EmaErrorRecorder.SuccessesClear` | `src/brpc/circuit_breaker.cpp:137-172` | and as many successes as its value clear it |
| `EmaErrorRecorder.WindowDecay` | `src/brpc/circuit_breaker.cpp:137-172` | a whole window of successes leaves at most epsilon of it |
| `EmaErrorRecorder.ErrorsTripExactly` | `src/brpc/circuit_breaker.cpp:137-153` | after initialization a run of errors of positive latency under a positive cap is tolerated if and only if their capped latencies sum to at most the maximum; with costless ones among them at least then, and a costless one always |
| `EmaErrorRecorder.ErrorsWithinBudget` | `src/brpc/circuit_breaker.cpp:137-153` | k errors with k*multiple at most window*percent/100*(1+epsilon) never trip, whatever their latencies |
| `CircuitBreaker.CircuitBreaker.constructor` | `src/brpc/circuit_breaker.cpp:174-185` | closed, with fresh windows and the minimal duration |
| `CircuitBreaker.CircuitBreaker.OnCallEnd` | `src/brpc/circuit_breaker.cpp:187-222` | the new state and the verdict, with the short window untouched when the long one objects |
| `CircuitBreaker.CircuitBreaker.ResetAll` | `src/brpc/circuit_breaker.cpp:224-233` | closed, both windows reset, half-open if enabled |
| `CircuitBreaker.CircuitBreaker.MarkAsBroken` | `src/brpc/circuit_breaker.cpp:235-240` | only the first mark counts |
| `CircuitBreaker.CircuitBreaker.UpdateIsolationDuration` | `src/brpc/circuit_breaker.cpp:242-256` | doubled up to the maximum after a quick break, else the minimum |
| `CircuitBreaker.BrokenUntilReset` | `src/brpc/circuit_breaker.cpp:187-202` | once broken nothing changes until a reset, and exactly ELIMIT and ECANCELED pass |
| `CircuitBreaker.SuccessesNeverOpen` | `src/brpc/circuit_breaker.cpp:187-222` | without errors and marks the breaker never opens and every call passes |
| `CircuitBreaker.IsolatedTimes` | `src/brpc/circuit_breaker.cpp:224-240` | in every run isolated_times is the resets done while broken plus one if broken now |
| `CircuitBreaker.HalfOpenWindow` | `src/brpc/circuit_breaker.cpp:203-215` | after a reset the breaker stays half-open until exactly W successes |
| `CircuitBreaker.ErrorReopens` | `src/brpc/circuit_breaker.cpp:203-208` | any error before W successes is refused and reopens it |
| `CircuitBreaker.OpensExactly` | `src/brpc/circuit_breaker.cpp:84-111` | from construction, while both windows initialize, it is open if and only if more errors came than the smaller tolerance floor(window*percent/100) |
| `CircuitBreaker.DurationDoubles` | `src/brpc/circuit_breaker.cpp:242-256` | in every run the duration is min(max, min*2^k) for the k trailing quick breaks |
| `ClusterRecover.DefaultClusterRecoverPolicy.constructor` | `src/brpc/cluster_recover_policy.cpp:35-43` | not recovering, nothing observed |
| `ClusterRecover.DefaultClusterRecoverPolicy.StartRecover` | `src/brpc/cluster_recover_policy.cpp:45-48` | recovering |
| `ClusterRecover.DefaultClusterRecoverPolicy.StopRecoverIfNecessary` | `src/brpc/cluster_recover_policy.cpp:50-66` | ends recovery when the count has been held long enough; the verdict is whether it still recovers |
| `ClusterRecover.DefaultClusterRecoverPolicy.GetUsableServerCount` | `src/brpc/cluster_recover_policy.cpp:68-88` | the cached count, or a new count by the loop over the servers |
| `ClusterRecover.DefaultClusterRecoverPolicy.DoReject` | `src/brpc/cluster_recover_policy.cpp:91-108` | records a changed observation and rejects draws at or above it |
| `ClusterRecover.AcceptanceRate` | `src/brpc/cluster_recover_policy.cpp:103-107` | during recovery exactly min(usable, min_working_instances) of the draws are accepted |
| `ClusterRecover.RunRecorded` | `src/brpc/cluster_recover_policy.cpp:91-103` | in every run the fields restate the observations of this recovery |
| `ClusterRecover.RecoveryEndsExactly` | `src/brpc/cluster_recover_policy.cpp:50-66` | recovery ends if and only if the last observation is not zero and has stood for more than hold_seconds |
| `ClusterRecover.RecoveryHold` | `src/brpc/cluster_recover_policy.cpp:50-66` | with a monotone clock every observation of the last hold_seconds agreed, from one older than that on |
| `ClusterRecover.CacheFromLastCount` | `src/brpc/cluster_recover_policy.cpp:68-88` | in every run the cache is the exact count of the last call that counted |
| `ClusterRecover.ObservationFresh` | `src/brpc/cluster_recover_policy.cpp:68-88` | past the first interval an observation is the exact count of this call or of one less than the detect interval ago |
| `Acceptor.RunSound` | `src/brpc/acceptor.cpp:320-417` | in every run _connection_count is the registered sockets plus the slots owned by accept loops plus the one being released; accepted fds are rejected, admitted or being decided on; a slot is never owned and registered at once |
| `Acceptor.SlotsStep` | `src/brpc/acceptor.cpp:320-417` | every step of any loop, callback, start, stop or join keeps the slot equation |
| `Acceptor.FdsStep` | `src/brpc/acceptor.cpp:292-329` | every step keeps the fd equation |
| `Acceptor.IdentifiedStep` | `src/brpc/acceptor.cpp:354-386` | every step keeps each loop on its own socket, alive while pinned |
| `Acceptor.HousedStep` | `src/brpc/acceptor.cpp:389-417` | every loop runs on a listening socket that is alive |
| `Acceptor.ReleaseNeverUnderflows` | `src/brpc/acceptor.cpp:236-240` | whenever a slot is released the counter is positive |
| `Acceptor.QuiescentCount` | `src/brpc/acceptor.cpp:236-240` | with no loop and no release under way the counter is the size of the map |
| `Acceptor.LimitHolds` | `src/brpc/acceptor.cpp:223-248` | if every limit set, at a start or while running, is positive and at most M, neither counter nor map exceeds M under any interleaving of compare-and-swap retries |
| `Acceptor.JoinLeavesNothing` | `src/brpc/acceptor.cpp:189-213` | if every fd was positive, then when Join returns after waiting the map is empty, the count 0, no loop left and the status READY |
| `Acceptor.JoinClearsExactly` | `src/brpc/acceptor.cpp:189-213` | of the fds StartAccept takes, in every run Join returns with the count 0 if and only if the fd is positive |
| `Acceptor.JoinMissesFdZero` | `src/brpc/acceptor.cpp:189-213` | a run on fd 0 in which Join returns while a loop owns a slot |
| `Acceptor.RunCovers` | `src/brpc/acceptor.cpp:139-178` | while stopping, every registered socket is yet to be handed, handed, failed, or about to be failed by its loop |
| `Acceptor.StopCompleteness` | `src/brpc/acceptor.cpp:139-178` | once StopAccept and the current iterations finish, every registered socket was failed or released |

## Left out

- AmfDecoder.ReadValue: nested containers are filled as values and stored back, so update in place and aliasing between them are not captured; the top-level array is filled in place in `AmfArrayDecoder`.
- AmfMessage.BodyAsSkip: a repeated field is read like a singular one; that protobuf reflection aborts on such a setter is not modelled.
- AmfArrayLimit.ObjectArraysExactly: asks that no container is replaced by a later value of its name, because an array that was replaced leaves no trace in the result.
- AmfArrayLimit.ArrayArraysExactly: asks the same.
- AmfStream.OutputStream.Putn: promises nothing of the bytes or the stream once a length does not fit an int.
- ClusterRecover.AcceptanceRate: counts the draws 0 to n - 1; that `fast_rand_less_than` draws them evenly is not modelled.
- CircuitBreaker.CircuitBreaker.OnCallEnd: one call at a time; racing calls and compare-and-swap retries inside the recorders are not modelled.
- Acceptor.RunSound: the acceptor is a state machine on values and not a class, because its methods run interleaved; the counter is unbounded, so wrap-around of `size_t` beyond the underflow shown impossible is not modelled.
- The string storage of AMFField (inline or allocated), its type tags beyond the value, and its destructor.
- Widths of popped_bytes, pushed_bytes, error costs and latencies: integers are unbounded.
- IEEE meaning of AMF numbers and rounding of doubles.
- The top-level readers and writers of single strings, booleans, numbers, nulls and undefined values.
- Pagination of Acceptor::ListConnections and the thread that closes idle connections, beyond that any socket may fail or be recycled at any time.
- SSL, keytable pools, RDMA mode and logging of the acceptor.
- Parsing of recover policy parameters.
- Channels, load balancers, backup requests, compression, checksums and every other part of the repository.
