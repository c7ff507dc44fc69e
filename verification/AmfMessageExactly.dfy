/** Exactly which written messages are read back: the limits are needed as well as enough. */
module AmfMessageExactly {
  import opened Bytes
  import opened AmfValue
  import opened AmfReader
  import opened AmfWriter
  import opened AmfRoundTrip
  import opened AmfMessage
  import opened AmfMessageRoundTrip

  /** Numbers of 64 bits and strings whose size is a uint32_t. */
  predicate Formed(m: Message) {
    forall k :: k in m.fields ==> FormedValue(m.fields[k])
  }

  predicate FormedValue(v: Value) {
    match v
    case Scalar(f) => WellFormed(f)
    case Nested(m) => Formed(m)
  }

  // What reading can set.

  /** Every set field is in the schema and has a name that the reader accepts. */
  predicate Known(cfg: Limits, pool: Pool, m: Message) {
    forall k :: k in m.fields ==>
      FindField(pool(m.typ), k).Some? && Fits(|k|, cfg.maxString) && KnownValue(cfg, pool, m.fields[k])
  }

  predicate KnownValue(cfg: Limits, pool: Pool, v: Value) {
    v.Nested? ==> Known(cfg, pool, v.msg)
  }

  predicate KnownSlot(cfg: Limits, pool: Pool, slot: Option<Value>) {
    slot.Some? ==> KnownValue(cfg, pool, slot.value)
  }

  /** A field outside the schema sets nothing; any other sets what is known. */
  lemma {:induction false} FieldKnown(cfg: Limits, pool: Pool, s: bytes, depth: nat, kind: Option<Kind>,
                                      slot: Option<Value>)
    requires KnownSlot(cfg, pool, slot)
    ensures var r := ReadField(cfg, pool, s, depth, kind, slot);
            KnownSlot(cfg, pool, r.slot) && (kind.None? ==> r.slot == slot)
    decreases |s|, 1
  {
    if depth <= cfg.maxDepth && s != [] {
      if s[0] == OBJECT {
        SubMessageKnown(cfg, pool, s[1..], depth + 1, kind, slot);
      } else if s[0] == TYPED_OBJECT {
        SubMessageKnown(cfg, pool, ReadText(cfg, s[1..], 2).rest, depth + 1, kind, slot);
      }
    }
  }

  lemma {:induction false} SubMessageKnown(cfg: Limits, pool: Pool, s: bytes, depth: nat, kind: Option<Kind>,
                                           slot: Option<Value>)
    requires KnownSlot(cfg, pool, slot)
    ensures var r := ReadSubMessage(cfg, pool, s, depth, kind, slot);
            KnownSlot(cfg, pool, r.slot) && (kind.None? ==> r.slot == slot)
    decreases |s|, 3
  {
    match kind
    case Some(SubMessage(typ)) => BodyKnown(cfg, pool, s, depth, MessageIn(slot, typ));
    case _ =>
  }

  lemma {:induction false} BodyKnown(cfg: Limits, pool: Pool, s: bytes, depth: nat, m: Message)
    requires Known(cfg, pool, m)
    ensures Known(cfg, pool, ReadMessageBody(cfg, pool, s, depth, m).msg)
    decreases |s|, 2
  {
    var name := ReadText(cfg, s, 2);
    if depth <= cfg.maxDepth && name.ok && name.text != [] {
      var kind := KindOf(FindField(pool(m.typ), name.text));
      FieldKnown(cfg, pool, name.rest, depth, kind, Get(m, name.text));
      var v := ReadField(cfg, pool, name.rest, depth, kind, Get(m, name.text));
      TextBounds(cfg, s, 2);
      WithKnown(cfg, pool, m, name.text, v.slot);
      if v.ok {
        BodyKnown(cfg, pool, v.rest, depth, With(m, name.text, v.slot));
        assert ReadMessageBody(cfg, pool, v.rest, depth, With(m, name.text, v.slot))
            == ReadMessagePairs(cfg, pool, v.rest, depth, With(m, name.text, v.slot));
      }
    }
  }

  lemma WithKnown(cfg: Limits, pool: Pool, m: Message, name: bytes, slot: Option<Value>)
    requires Known(cfg, pool, m) && KnownSlot(cfg, pool, slot) && Fits(|name|, cfg.maxString)
    requires FindField(pool(m.typ), name).None? ==> slot == Get(m, name)
    ensures Known(cfg, pool, With(m, name, slot))
  {
  }

  // Known messages outside the limits.

  lemma {:induction false} FieldRefused(cfg: Limits, pool: Pool, kind: Kind, v: Value, depth: nat, tail: bytes,
                                        room: nat)
    requires depth + room == cfg.maxDepth && cfg.maxString >= 0 && DistinctNames(pool)
    requires CanWriteValue(pool, kind, v) && FormedValue(v) && KnownValue(cfg, pool, v)
    requires !ValueWithin(cfg, pool, v, room)
    ensures !ReadField(cfg, pool, EncodeValue(pool, v) + tail, depth, Some(kind), None).ok
    decreases v
  {
    match v
    case Scalar(f) => ScalarRefused(cfg, pool, kind, f, depth, tail);
    case Nested(m) =>
      var body := EncodeFields(pool, m, pool(m.typ)) + (End() + tail);
      Assoc([OBJECT], EncodeFields(pool, m, pool(m.typ)) + End(), tail);
      Assoc(EncodeFields(pool, m, pool(m.typ)), End(), tail);
      assert ([OBJECT] + body)[1..] == body;
      assert kind == SubMessage(m.typ);
      assert ReadField(cfg, pool, [OBJECT] + body, depth, Some(kind), None).ok
          == ReadMessageBody(cfg, pool, body, depth + 1, Message(m.typ, map[])).ok;
      if room >= 1 {
        assert [] + pool(m.typ) == pool(m.typ) && Upto(m, []) == Message(m.typ, map[]);
        FieldsRefused(cfg, pool, m, [], pool(m.typ), depth + 1, tail, room - 1);
        assert ReadMessageBody(cfg, pool, body, depth + 1, Upto(m, []))
            == ReadMessagePairs(cfg, pool, body, depth + 1, Upto(m, []));
      }
  }

  lemma ScalarRefused(cfg: Limits, pool: Pool, kind: Kind, f: Field, depth: nat, tail: bytes)
    requires depth <= cfg.maxDepth && f.Text? && WellFormed(f) && !Fits(|f.text|, cfg.maxString)
    ensures !ReadField(cfg, pool, Encode(f) + tail, depth, Some(kind), None).ok
  {
    FieldAsSkip(cfg, pool, Encode(f) + tail, depth, Some(kind), None);
    TextRefused(cfg, f.text, depth, tail);
    if SkipValue(cfg, Encode(f) + tail, depth).ok {
      SkipThenValue(cfg, Encode(f) + tail, depth, Undefined);
    }
  }

  lemma {:induction false} FieldsRefused(cfg: Limits, pool: Pool, m: Message, done: seq<FieldDesc>, ds: seq<FieldDesc>,
                                         depth: nat, tail: bytes, room: nat)
    requires depth + room == cfg.maxDepth && cfg.maxString >= 0 && DistinctNames(pool)
    requires pool(m.typ) == done + ds && CanWrite(pool, m, ds) && Formed(m) && Known(cfg, pool, m)
    requires !FieldsWithin(cfg, pool, m, ds, room)
    ensures !ReadMessagePairs(cfg, pool, EncodeFields(pool, m, ds) + (End() + tail), depth, Upto(m, done)).ok
    decreases m, |ds|
  {
    var d, rest := ds[0], EncodeFields(pool, m, ds[1..]) + (End() + tail);
    UptoStep(m, done, ds);
    assert done + [d] + ds[1..] == done + ds;
    if d.name in m.fields {
      var v := m.fields[d.name];
      Assoc(EncodeName(d.name), EncodeValue(pool, v) + EncodeFields(pool, m, ds[1..]), End() + tail);
      Assoc(EncodeValue(pool, v), EncodeFields(pool, m, ds[1..]), End() + tail);
      if d.name == [] {
        EmptyNameRefused(cfg, pool, v, depth, rest, Upto(m, done));
      } else if ValueWithin(cfg, pool, v, room) {
        FieldBack(cfg, pool, d.kind, v, depth, rest, room);
        MessagePairBack(cfg, pool, m, done, ds, depth, rest);
        FieldsRefused(cfg, pool, m, done + [d], ds[1..], depth, tail, room);
      } else {
        FieldRefused(cfg, pool, d.kind, v, depth, rest, room);
        PairStops(cfg, pool, m, done, ds, depth, rest);
      }
    } else {
      FieldsRefused(cfg, pool, m, done + [d], ds[1..], depth, tail, room);
    }
  }

  /** An empty name is taken for the end of the object, and no value begins with an end marker. */
  lemma EmptyNameRefused(cfg: Limits, pool: Pool, v: Value, depth: nat, rest: bytes, m: Message)
    requires cfg.maxString >= 0
    ensures !ReadMessagePairs(cfg, pool, EncodeName([]) + (EncodeValue(pool, v) + rest), depth, m).ok
  {
    WordSizes();
    var image := EncodeValue(pool, v) + rest;
    TextBack(cfg, [], 2, image);
    Assoc(ToBigEndian(0, 2), [], image);
    assert [] + image == image;
    assert image[0] == EncodeValue(pool, v)[0] != OBJECT_END;
  }

  /** A value that is refused ends the loop with a failure. */
  lemma PairStops(cfg: Limits, pool: Pool, m: Message, done: seq<FieldDesc>, ds: seq<FieldDesc>, depth: nat,
                  rest: bytes)
    requires ds != [] && pool(m.typ) == done + ds && Distinct(pool(m.typ)) && ds[0].name in m.fields
    requires ds[0].name != [] && |ds[0].name| < 65536 && Fits(|ds[0].name|, cfg.maxString)
    requires !ReadField(cfg, pool, EncodeValue(pool, m.fields[ds[0].name]) + rest, depth, Some(ds[0].kind), None).ok
    ensures !ReadMessagePairs(cfg, pool, EncodeName(ds[0].name) + (EncodeValue(pool, m.fields[ds[0].name]) + rest),
                              depth, Upto(m, done)).ok
  {
    WordSizes();
    var name, image := ds[0].name, EncodeValue(pool, m.fields[ds[0].name]) + rest;
    TextBack(cfg, name, 2, image);
    Assoc(ToBigEndian(|name|, 2), name, image);
    FindIn(done, ds, name);
  }

  /** The limits are exactly what the round trip of a writable message needs, whatever the flags. */
  lemma MessageRoundTripExactly(cfg: Limits, pool: Pool, m: Message, tail: bytes)
    requires DistinctNames(pool) && CanWrite(pool, m, pool(m.typ)) && Formed(m)
    ensures ReadMessage(cfg, pool, EncodeValue(pool, Nested(m)) + tail, Message(m.typ, map[]))
            == MessageRead(true, m, tail) <==>
            cfg.maxDepth >= 0 && cfg.maxString >= 0 && MessageWithin(cfg, pool, m, cfg.maxDepth)
  {
    var body := EncodeFields(pool, m, pool(m.typ)) + (End() + tail);
    Assoc([OBJECT], EncodeFields(pool, m, pool(m.typ)) + End(), tail);
    Assoc(EncodeFields(pool, m, pool(m.typ)), End(), tail);
    assert ([OBJECT] + body)[1..] == body;
    var empty := Message(m.typ, map[]);
    if cfg.maxDepth >= 0 {
      if cfg.maxString < 0 {
        assert !ReadText(cfg, body, 2).ok && |body| >= 3 + |tail|;
        assert ReadMessageBody(cfg, pool, body, 0, empty) == MessageRead(true, empty, body[2..]);
      } else if MessageWithin(cfg, pool, m, cfg.maxDepth) {
        MessageRoundTrip(cfg, pool, m, tail);
      } else if Known(cfg, pool, m) {
        assert [] + pool(m.typ) == pool(m.typ) && Upto(m, []) == empty;
        FieldsRefused(cfg, pool, m, [], pool(m.typ), 0, tail, cfg.maxDepth);
      } else {
        BodyKnown(cfg, pool, body, 0, empty);
      }
    }
  }
}
