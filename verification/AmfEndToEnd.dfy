/** Writers and readers put together, over any supply of buffers and any chunking of what they received. */
module AmfEndToEnd {
  import opened Bytes
  import opened AmfStream
  import opened AmfValue
  import opened AmfWriter
  import opened AmfRoundTrip
  import opened AmfMessage
  import opened AmfMessageRoundTrip
  import AmfDecoder
  import AmfEncoder
  import AmfMessageCodec

  /** Chunks of the given sizes, which may be zero, and then the rest. */
  function Split(s: bytes, sizes: seq<nat>): seq<bytes>
    decreases |sizes|
  {
    if sizes == [] then [s] else [Take(s, sizes[0])] + Split(Drop(s, sizes[0]), sizes[1..])
  }

  lemma {:induction false} JoinSplit(s: bytes, sizes: seq<nat>)
    ensures Join(Split(s, sizes)) == s
    decreases |sizes|
  {
    if sizes == [] {
      assert Join([s]) == s + Join([]);
    } else {
      var rest := Split(Drop(s, sizes[0]), sizes[1..]);
      JoinSplit(Drop(s, sizes[0]), sizes[1..]);
      assert Join([Take(s, sizes[0])] + rest) == Take(s, sizes[0]) + Join(rest);
    }
  }

  /** What a writer leaves on a fresh stream. */
  lemma SentWhole(v: View, room: nat, image: bytes, can: bool)
    requires Wrote(View(true, [], room), v, image, can)
    ensures v.good <==> can && |image| <= room
    ensures v.good ==> v.written == image
  {
  }

  /** Strings no longer than an int holds: sent whole exactly if it can be written and the buffers suffice. */
  method SendObject(es: seq<Entry>, supply: seq<bytes>) returns (sent: bool, wire: bytes)
    ensures IntSized(Object(es)) ==> (sent <==> EncodableEntries(es) && |Encode(Object(es))| <= |Join(supply)|)
    ensures IntSized(Object(es)) && sent ==> wire == Encode(Object(es))
  {
    var output := new OutputStream(supply);
    AmfEncoder.WriteObject(es, output);
    SentWhole(output.Seen(), |Join(supply)|, Encode(Object(es)), EncodableEntries(es));
    output.Done();
    return output.good, output.mem;
  }

  method SendMessage(pool: Pool, m: Message, supply: seq<bytes>) returns (sent: bool, wire: bytes)
    ensures MessageSized(m) ==>
              (sent <==> CanWrite(pool, m, pool(m.typ)) && |EncodeValue(pool, Nested(m))| <= |Join(supply)|)
    ensures MessageSized(m) && sent ==> wire == EncodeValue(pool, Nested(m))
  {
    var output := new OutputStream(supply);
    AmfMessageCodec.WriteMessage(pool, m, output);
    SentWhole(output.Seen(), |Join(supply)|, EncodeValue(pool, Nested(m)), CanWrite(pool, m, pool(m.typ)));
    output.Done();
    return output.good, output.mem;
  }

  // What the readers accept is short enough for the writers.

  lemma {:induction false} WithinSized(cfg: Limits, f: Field, room: int)
    requires Within(cfg, f, room)
    ensures IntSized(f)
  {
    match f
    case Object(es) => EntriesSized(cfg, es, room - 1);
    case Array(fs) => ItemsSized(cfg, fs, room - 1);
    case _ =>
  }

  lemma {:induction false} EntriesSized(cfg: Limits, es: seq<Entry>, room: int)
    requires EntriesWithin(cfg, es, room)
    ensures forall i :: 0 <= i < |es| ==> IntSized(es[i].value)
  {
    if es != [] {
      WithinSized(cfg, es[0].value, room);
      EntriesSized(cfg, es[1..], room);
      assert forall i :: 0 < i < |es| ==> es[i] == es[1..][i - 1];
    }
  }

  lemma {:induction false} ItemsSized(cfg: Limits, fs: seq<Field>, room: int)
    requires ItemsWithin(cfg, fs, room)
    ensures forall i :: 0 <= i < |fs| ==> IntSized(fs[i])
  {
    if fs != [] {
      WithinSized(cfg, fs[0], room);
      ItemsSized(cfg, fs[1..], room);
      assert forall i :: 0 < i < |fs| ==> fs[i] == fs[1..][i - 1];
    }
  }

  lemma {:induction false} MessageFits(cfg: Limits, pool: Pool, m: Message, room: int)
    requires MessageWithin(cfg, pool, m, room)
    ensures MessageSized(m)
  {
    forall k | k in m.fields ensures ValueSized(m.fields[k]) {
      FieldFits(cfg, pool, m, pool(m.typ), k, room);
      match m.fields[k]
      case Scalar(f) => WithinSized(cfg, f, room);
      case Nested(sub) => MessageFits(cfg, pool, sub, room - 1);
    }
  }

  lemma {:induction false} FieldFits(cfg: Limits, pool: Pool, m: Message, ds: seq<FieldDesc>, k: bytes, room: int)
    requires FieldsWithin(cfg, pool, m, ds, room) && k in m.fields && FindField(ds, k).Some?
    ensures ValueWithin(cfg, pool, m.fields[k], room)
  {
    if ds[0].name != k {
      FieldFits(cfg, pool, m, ds[1..], k, room);
    }
  }

  /** An object sent with bytes behind it arrives whole however it is cut up, and exactly its bytes are popped. */
  method RelayObject(cfg: Limits, es: seq<Entry>, supply: seq<bytes>, tail: bytes, sizes: seq<nat>)
    returns (sent: bool, ok: bool, back: seq<Entry>, popped: nat)
    requires WellFormed(Object(es))
    requires cfg.maxDepth >= 0 && cfg.maxString >= 0 && EntriesWithin(cfg, es, cfg.maxDepth)
    ensures sent <==> EncodableEntries(es) && |Encode(Object(es))| <= |Join(supply)|
    ensures sent ==> ok && back == es && popped == |Encode(Object(es))|
  {
    EntriesSized(cfg, es, cfg.maxDepth);
    var wire;
    sent, wire := SendObject(es, supply);
    JoinSplit(wire + tail, sizes);
    var input := new InputStream(Split(wire + tail, sizes));
    if sent {
      ObjectRoundTrip(cfg, es, tail);
    }
    ok, back := AmfDecoder.ReadObject(cfg, input, []);
    popped := input.popped;
  }

  /** The same for a message read into an empty message of its type. */
  method RelayMessage(cfg: Limits, pool: Pool, m: Message, supply: seq<bytes>, tail: bytes, sizes: seq<nat>)
    returns (sent: bool, ok: bool, back: Message, popped: nat)
    requires DistinctNames(pool)
    requires cfg.maxDepth >= 0 && cfg.maxString >= 0 && MessageWithin(cfg, pool, m, cfg.maxDepth)
    ensures sent <==> CanWrite(pool, m, pool(m.typ)) && |EncodeValue(pool, Nested(m))| <= |Join(supply)|
    ensures sent ==> ok && back == m && popped == |EncodeValue(pool, Nested(m))|
  {
    MessageFits(cfg, pool, m, cfg.maxDepth);
    var wire;
    sent, wire := SendMessage(pool, m, supply);
    JoinSplit(wire + tail, sizes);
    var input := new InputStream(Split(wire + tail, sizes));
    if sent {
      MessageRoundTrip(cfg, pool, m, tail);
    }
    ok, back := AmfMessageCodec.ReadMessageFrom(cfg, pool, input, Message(m.typ, map[]));
    popped := input.popped;
  }
}
