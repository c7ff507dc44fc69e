/** What a protobuf message is written as, and that reading it back restores it. */
module AmfMessageRoundTrip {
  import opened Bytes
  import opened AmfValue
  import opened AmfReader
  import opened AmfWriter
  import opened AmfRoundTrip
  import opened AmfMessage

  function EncodeValue(pool: Pool, v: Value): bytes
    decreases v
  {
    match v
    case Scalar(f) => Encode(f)
    case Nested(m) => [OBJECT] + (EncodeFields(pool, m, pool(m.typ)) + End())
  }

  /** The set fields of m among ds, in the order of the schema. */
  function EncodeFields(pool: Pool, m: Message, ds: seq<FieldDesc>): bytes
    decreases m, |ds|
  {
    if ds == [] then []
    else if ds[0].name !in m.fields then EncodeFields(pool, m, ds[1..])
    else EncodeName(ds[0].name) + (EncodeValue(pool, m.fields[ds[0].name]) + EncodeFields(pool, m, ds[1..]))
  }

  /** WriteAMFObject keeps the stream good: no repeated field, no missing one, none AMF cannot carry. */
  predicate CanWrite(pool: Pool, m: Message, ds: seq<FieldDesc>)
    decreases m, |ds|
  {
    ds == [] ||
    (&& !ds[0].repeated
     && (if ds[0].name in m.fields then |ds[0].name| < 65536 && CanWriteValue(pool, ds[0].kind, m.fields[ds[0].name])
         else !ds[0].required)
     && CanWrite(pool, m, ds[1..]))
  }

  /** A set field of that kind holds such a value. */
  predicate Carries(kind: Kind, f: Field) {
    match kind
    case Double => f.Number?
    case Bool => f.Boolean?
    case String => f.Text?
    case _ => false
  }

  /** No string in the message is longer than an int holds, which no writer checks. */
  predicate MessageSized(m: Message) {
    forall k :: k in m.fields ==> ValueSized(m.fields[k])
  }

  predicate ValueSized(v: Value) {
    match v
    case Scalar(f) => IntSized(f)
    case Nested(m) => MessageSized(m)
  }

  predicate CanWriteValue(pool: Pool, kind: Kind, v: Value)
    decreases v
  {
    match (kind, v)
    case (Double, Scalar(Number(_))) => true
    case (Bool, Scalar(Boolean(_))) => true
    case (String, Scalar(Text(s))) => |s| < INT_LIMIT
    case (SubMessage(t), Nested(m)) => m.typ == t && CanWrite(pool, m, pool(t))
    case _ => false
  }

  /** No field outside the schema is set, and all set ones are within the limits. */
  predicate MessageWithin(cfg: Limits, pool: Pool, m: Message, room: int)
    decreases m, |pool(m.typ)| + 1
  {
    && (forall k :: k in m.fields ==> FindField(pool(m.typ), k).Some?)
    && FieldsWithin(cfg, pool, m, pool(m.typ), room)
  }

  predicate FieldsWithin(cfg: Limits, pool: Pool, m: Message, ds: seq<FieldDesc>, room: int)
    decreases m, |ds|
  {
    ds == [] ||
    (&& (ds[0].name in m.fields ==>
           && ds[0].name != []
           && Fits(|ds[0].name|, cfg.maxString)
           && ValueWithin(cfg, pool, m.fields[ds[0].name], room))
     && FieldsWithin(cfg, pool, m, ds[1..], room))
  }

  predicate ValueWithin(cfg: Limits, pool: Pool, v: Value, room: int)
    decreases v
  {
    match v
    case Scalar(f) => WellFormed(f) && Within(cfg, f, room)
    case Nested(m) => room >= 1 && MessageWithin(cfg, pool, m, room - 1)
  }

  /** Field names are distinct within each message type, as protobuf demands. */
  predicate Distinct(ds: seq<FieldDesc>) {
    ds == [] || (FindField(ds[1..], ds[0].name).None? && Distinct(ds[1..]))
  }

  ghost predicate DistinctNames(pool: Pool) {
    forall typ: nat :: Distinct(pool(typ))
  }

  lemma {:induction false} FindIn(done: seq<FieldDesc>, ds: seq<FieldDesc>, name: bytes)
    ensures FindField(done + ds, name) ==
              if FindField(done, name).Some? then FindField(done, name) else FindField(ds, name)
    ensures ds != [] && Distinct(done + ds) ==> FindField(done, ds[0].name) == None
  {
    if done == [] {
      assert done + ds == ds;
    } else {
      assert (done + ds)[1..] == done[1..] + ds;
      FindIn(done[1..], ds, name);
      FindIn(done[1..], ds, done[0].name);
    }
  }

  /** The part of m that fields `done` of the schema make up. */
  function Upto(m: Message, done: seq<FieldDesc>): Message {
    Message(m.typ, map k | k in m.fields && FindField(done, k).Some? :: m.fields[k])
  }

  lemma {:induction false} FieldBack(cfg: Limits, pool: Pool, kind: Kind, v: Value, depth: nat, tail: bytes, room: nat)
    requires depth + room == cfg.maxDepth && cfg.maxString >= 0 && DistinctNames(pool)
    requires CanWriteValue(pool, kind, v) && ValueWithin(cfg, pool, v, room)
    ensures ReadField(cfg, pool, EncodeValue(pool, v) + tail, depth, Some(kind), None) == SlotRead(true, Some(v), tail)
    decreases v
  {
    match v
    case Scalar(f) => ScalarBack(cfg, f, depth, tail, room);
    case Nested(m) =>
      var body := EncodeFields(pool, m, pool(m.typ)) + (End() + tail);
      Assoc([OBJECT], EncodeFields(pool, m, pool(m.typ)) + End(), tail);
      Assoc(EncodeFields(pool, m, pool(m.typ)), End(), tail);
      assert ([OBJECT] + body)[1..] == body;
      BodyBack(cfg, pool, m, depth + 1, tail, room - 1);
  }

  lemma {:induction false} BodyBack(cfg: Limits, pool: Pool, m: Message, depth: nat, tail: bytes, room: nat)
    requires depth + room == cfg.maxDepth && cfg.maxString >= 0 && DistinctNames(pool)
    requires CanWrite(pool, m, pool(m.typ)) && MessageWithin(cfg, pool, m, room)
    ensures ReadMessageBody(cfg, pool, EncodeFields(pool, m, pool(m.typ)) + (End() + tail), depth,
                            Message(m.typ, map[]))
         == MessageRead(true, m, tail)
    decreases m, |pool(m.typ)| + 1
  {
    assert [] + pool(m.typ) == pool(m.typ);
    assert Upto(m, []) == Message(m.typ, map[]);
    FieldsBack(cfg, pool, m, [], pool(m.typ), depth, tail, room);
  }

  lemma {:induction false} FieldsBack(cfg: Limits, pool: Pool, m: Message, done: seq<FieldDesc>, ds: seq<FieldDesc>,
                                      depth: nat, tail: bytes, room: nat)
    requires depth + room == cfg.maxDepth && cfg.maxString >= 0 && DistinctNames(pool)
    requires pool(m.typ) == done + ds && CanWrite(pool, m, ds) && FieldsWithin(cfg, pool, m, ds, room)
    requires forall k :: k in m.fields ==> FindField(pool(m.typ), k).Some?
    ensures ReadMessagePairs(cfg, pool, EncodeFields(pool, m, ds) + (End() + tail), depth, Upto(m, done))
         == MessageRead(true, m, tail)
    decreases m, |ds|
  {
    if ds == [] {
      assert done + ds == done && EncodeFields(pool, m, ds) + (End() + tail) == End() + tail;
      assert Upto(m, done) == m;
      MessageEndBack(cfg, pool, m, depth, tail);
    } else {
      var d, rest := ds[0], EncodeFields(pool, m, ds[1..]) + (End() + tail);
      UptoStep(m, done, ds);
      assert done + [d] + ds[1..] == done + ds;
      if d.name in m.fields {
        var v := m.fields[d.name];
        FieldBack(cfg, pool, d.kind, v, depth, rest, room);
        Assoc(EncodeName(d.name), EncodeValue(pool, v) + EncodeFields(pool, m, ds[1..]), End() + tail);
        Assoc(EncodeValue(pool, v), EncodeFields(pool, m, ds[1..]), End() + tail);
        MessagePairBack(cfg, pool, m, done, ds, depth, rest);
      }
      FieldsBack(cfg, pool, m, done + [d], ds[1..], depth, tail, room);
    }
  }

  lemma MessageEndBack(cfg: Limits, pool: Pool, m: Message, depth: nat, tail: bytes)
    requires cfg.maxString >= 0
    ensures ReadMessagePairs(cfg, pool, End() + tail, depth, m) == MessageRead(true, m, tail)
  {
    EndText(cfg, tail);
    assert ([OBJECT_END] + tail)[1..] == tail;
  }

  /** The fields made up by one more schema entry. */
  lemma UptoStep(m: Message, done: seq<FieldDesc>, ds: seq<FieldDesc>)
    requires ds != []
    ensures Upto(m, done + [ds[0]]) ==
              if ds[0].name in m.fields then With(Upto(m, done), ds[0].name, Some(m.fields[ds[0].name]))
              else Upto(m, done)
  {
    forall k ensures FindField(done + [ds[0]], k).Some? <==> FindField(done, k).Some? || k == ds[0].name {
      FindIn(done, [ds[0]], k);
    }
    var d := ds[0];
    if d.name in m.fields {
      assert Upto(m, done + [d]).fields == Upto(m, done).fields[d.name := m.fields[d.name]];
    }
  }

  lemma MessagePairBack(cfg: Limits, pool: Pool, m: Message, done: seq<FieldDesc>, ds: seq<FieldDesc>,
                        depth: nat, rest: bytes)
    requires ds != [] && pool(m.typ) == done + ds && Distinct(pool(m.typ)) && ds[0].name in m.fields
    requires ds[0].name != [] && |ds[0].name| < 65536 && Fits(|ds[0].name|, cfg.maxString)
    requires var v := m.fields[ds[0].name];
             ReadField(cfg, pool, EncodeValue(pool, v) + rest, depth, Some(ds[0].kind), None)
             == SlotRead(true, Some(v), rest)
    ensures ReadMessagePairs(cfg, pool, EncodeName(ds[0].name) + (EncodeValue(pool, m.fields[ds[0].name]) + rest),
                             depth, Upto(m, done))
         == ReadMessagePairs(cfg, pool, rest, depth, With(Upto(m, done), ds[0].name, Some(m.fields[ds[0].name])))
  {
    WordSizes();
    var name, image := ds[0].name, EncodeValue(pool, m.fields[ds[0].name]) + rest;
    TextBack(cfg, name, 2, image);
    Assoc(ToBigEndian(|name|, 2), name, image);
    FindIn(done, ds, name);
  }

  lemma {:induction false} WrittenInitialized(pool: Pool, m: Message, ds: seq<FieldDesc>)
    requires CanWrite(pool, m, ds)
    ensures InitializedFields(pool, m, ds)
    decreases m, |ds|
  {
    if ds != [] {
      if ds[0].name in m.fields && m.fields[ds[0].name].Nested? {
        var sub := m.fields[ds[0].name].msg;
        WrittenInitialized(pool, sub, pool(sub.typ));
      }
      WrittenInitialized(pool, m, ds[1..]);
    }
  }

  /**
   The schema-directed round trip: presence, values and required fields are restored into an
   empty message of the same type, and exactly the bytes after the image are left.
   */
  lemma MessageRoundTrip(cfg: Limits, pool: Pool, m: Message, tail: bytes)
    requires DistinctNames(pool) && CanWrite(pool, m, pool(m.typ))
    requires cfg.maxDepth >= 0 && cfg.maxString >= 0 && MessageWithin(cfg, pool, m, cfg.maxDepth)
    ensures ReadMessage(cfg, pool, EncodeValue(pool, Nested(m)) + tail, Message(m.typ, map[]))
         == MessageRead(true, m, tail)
  {
    var body := EncodeFields(pool, m, pool(m.typ)) + (End() + tail);
    Assoc([OBJECT], EncodeFields(pool, m, pool(m.typ)) + End(), tail);
    Assoc(EncodeFields(pool, m, pool(m.typ)), End(), tail);
    assert ([OBJECT] + body)[1..] == body;
    BodyBack(cfg, pool, m, 0, tail, cfg.maxDepth);
    WrittenInitialized(pool, m, pool(m.typ));
  }
}
