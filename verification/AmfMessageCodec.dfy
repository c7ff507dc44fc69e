/** The message readers and the message writer as they run, on chunked streams. */
module AmfMessageCodec {
  import opened Bytes
  import opened AmfStream
  import opened AmfValue
  import opened AmfMessage
  import opened AmfMessageRoundTrip
  import Reader = AmfReader
  import opened AmfWriter
  import opened AmfDecoder
  import opened AmfEncoder

  /** ReadAMFObjectField for messages; the field is absent when skipping. */
  method ReadFieldFrom(cfg: Limits, pool: Pool, stream: InputStream, depth: nat, kind: Option<Kind>,
                       slot0: Option<Value>)
    returns (ok: bool, slot: Option<Value>)
    requires Reached(cfg, depth)
    modifies stream
    ensures SlotRead(ok, slot, stream.Rest()) == ReadField(cfg, pool, old(stream.Rest()), depth, kind, slot0)
    ensures Conserved(stream)
    decreases |stream.Rest()|, 0
  {
    slot := slot0;
    if depth > cfg.maxDepth {
      return false, slot;
    }
    ghost var s := stream.Rest();
    var n, m := stream.CutU8();
    if n != 1 {
      return false, slot;
    }
    assert m == s[0] && stream.Rest() == s[1..];
    if m == TYPED_OBJECT {
      var named, class_ := AmfDecoder.ReadText(cfg, stream, 2);
      if !named {
        return false, slot;
      }
    }
    if m == TYPED_OBJECT || m == OBJECT {
      ok, slot := ReadSubMessageFrom(cfg, pool, stream, depth + 1, kind, slot);
    } else {
      var field;
      ok, field := AmfDecoder.ReadScalar(cfg, m, stream);
      slot := SetScalar(kind, slot, field);
    }
  }

  method ReadSubMessageFrom(cfg: Limits, pool: Pool, stream: InputStream, depth: nat, kind: Option<Kind>,
                            slot0: Option<Value>)
    returns (ok: bool, slot: Option<Value>)
    requires Reached(cfg, depth)
    modifies stream
    ensures SlotRead(ok, slot, stream.Rest()) == ReadSubMessage(cfg, pool, old(stream.Rest()), depth, kind, slot0)
    ensures Conserved(stream)
    decreases |stream.Rest()|, 2
  {
    if kind.Some? && kind.value.SubMessage? {
      var msg;
      ok, msg := ReadMessageBodyFrom(cfg, pool, stream, depth, MessageIn(slot0, kind.value.typ));
      slot := Some(Nested(msg));
    } else {
      ok := SkipBodyFrom(cfg, pool, stream, depth);
      slot := slot0;
    }
  }

  method SkipBodyFrom(cfg: Limits, pool: Pool, stream: InputStream, depth: nat) returns (ok: bool)
    requires Reached(cfg, depth)
    modifies stream
    ensures SkipRead(ok, stream.Rest()) == SkipBody(cfg, old(stream.Rest()), depth)
    ensures Conserved(stream)
    decreases |stream.Rest()|, 1
  {
    if depth > cfg.maxDepth {
      return false;
    }
    while true
      invariant |stream.Rest()| <= |old(stream.Rest())| && Conserved(stream)
      invariant SkipBody(cfg, old(stream.Rest()), depth) == SkipBody(cfg, stream.Rest(), depth)
      decreases |stream.Rest()|
    {
      var named, name := AmfDecoder.ReadText(cfg, stream, 2);
      if !named {
        return true;
      }
      if name == [] {
        var n, m := stream.CutU8();
        return n == 1 && m == OBJECT_END;
      }
      FieldAsSkip(cfg, pool, stream.Rest(), depth, None, None);
      var read, _ := ReadFieldFrom(cfg, pool, stream, depth, None, None);
      if !read {
        return false;
      }
    }
  }

  method ReadMessageBodyFrom(cfg: Limits, pool: Pool, stream: InputStream, depth: nat, msg0: Message)
    returns (ok: bool, msg: Message)
    requires Reached(cfg, depth)
    modifies stream
    ensures MessageRead(ok, msg, stream.Rest()) == ReadMessageBody(cfg, pool, old(stream.Rest()), depth, msg0)
    ensures Conserved(stream)
    decreases |stream.Rest()|, 1
  {
    msg := msg0;
    if depth > cfg.maxDepth {
      return false, msg;
    }
    while true
      invariant |stream.Rest()| <= |old(stream.Rest())| && Conserved(stream)
      invariant ReadMessagePairs(cfg, pool, old(stream.Rest()), depth, msg0)
             == ReadMessagePairs(cfg, pool, stream.Rest(), depth, msg)
      decreases |stream.Rest()|
    {
      var named, name := AmfDecoder.ReadText(cfg, stream, 2);
      if !named {
        return true, msg;
      }
      if name == [] {
        var n, m := stream.CutU8();
        return n == 1 && m == OBJECT_END, msg;
      }
      var kind := KindOf(FindField(pool(msg.typ), name));
      var read, slot := ReadFieldFrom(cfg, pool, stream, depth, kind, Get(msg, name));
      msg := With(msg, name, slot);
      if !read {
        return false, msg;
      }
    }
  }

  method ReadEcmaPairFrom(cfg: Limits, pool: Pool, stream: InputStream, depth: nat, msg0: Message)
    returns (ok: bool, msg: Message)
    requires Reached(cfg, depth)
    modifies stream
    ensures MessageRead(ok, msg, stream.Rest()) == EcmaPair(cfg, pool, old(stream.Rest()), depth, msg0)
    ensures Conserved(stream)
  {
    var named, name := AmfDecoder.ReadText(cfg, stream, 2);
    if !named {
      return false, msg0;
    }
    var slot;
    var kind := KindOf(FindField(pool(msg0.typ), name));
    ok, slot := ReadFieldFrom(cfg, pool, stream, depth, kind, Get(msg0, name));
    msg := With(msg0, name, slot);
  }

  /** The counted loop. */
  method ReadEcmaPairsFrom(cfg: Limits, pool: Pool, stream: InputStream, depth: nat, msg0: Message, count: nat)
    returns (ok: bool, msg: Message)
    requires Reached(cfg, depth)
    modifies stream
    ensures MessageRead(ok, msg, stream.Rest()) == EcmaPairs(cfg, pool, old(stream.Rest()), depth, msg0, count)
    ensures Conserved(stream)
  {
    msg := msg0;
    ghost var left: nat := count;
    ghost var want := EcmaPairs(cfg, pool, stream.Rest(), depth, msg, left);
    for i := 0 to count
      invariant Conserved(stream) && left == count - i
      invariant want == EcmaPairs(cfg, pool, stream.Rest(), depth, msg, left)
    {
      ok, msg := ReadEcmaPairFrom(cfg, pool, stream, depth, msg);
      if !ok {
        return;
      }
      left := left - 1;
    }
    ok := true;
  }

  method ReadMessageEcmaFrom(cfg: Limits, pool: Pool, stream: InputStream, depth: nat, msg0: Message)
    returns (ok: bool, msg: Message)
    requires Reached(cfg, depth)
    modifies stream
    ensures MessageRead(ok, msg, stream.Rest()) == ReadMessageEcma(cfg, pool, old(stream.Rest()), depth, msg0)
    ensures Conserved(stream)
  {
    if depth > cfg.maxDepth {
      return false, msg0;
    }
    var n, count := stream.CutWord(4);
    if n != 4 || !Reader.Fits(count, cfg.maxArray) {
      return false, msg0;
    }
    ok, msg := ReadEcmaPairsFrom(cfg, pool, stream, depth, msg0, count);
  }

  /** ReadAMFObject for messages. */
  method ReadMessageFrom(cfg: Limits, pool: Pool, stream: InputStream, msg0: Message)
    returns (ok: bool, msg: Message)
    modifies stream
    ensures MessageRead(ok, msg, stream.Rest()) == ReadMessage(cfg, pool, old(stream.Rest()), msg0)
    ensures Conserved(stream)
  {
    var n, m := stream.CutU8();
    if n != 1 {
      return false, msg0;
    }
    if m == OBJECT {
      ok, msg := ReadMessageBodyFrom(cfg, pool, stream, 0, msg0);
    } else if m == ECMA_ARRAY {
      ok, msg := ReadMessageEcmaFrom(cfg, pool, stream, 0, msg0);
    } else {
      ok, msg := m == NULL, msg0;
    }
    ok := ok && Initialized(pool, msg);
  }

  /** The value of a set field, by cpp_type(). */
  method WriteValue(pool: Pool, kind: Kind, v: Value, stream: OutputStream)
    requires stream.Valid()
    modifies stream
    ensures stream.Valid()
    ensures Wrote(old(stream.Seen()), stream.Seen(), EncodeValue(pool, v), CanWriteValue(pool, kind, v))
    ensures ValueSized(v) ==> stream.overrun == old(stream.overrun)
    decreases v, 0
  {
    match v
    case Scalar(f) =>
      if Carries(kind, f) {
        WriteField(f, stream);
      } else {
        stream.SetBad();
      }
    case Nested(m) =>
      if kind == SubMessage(m.typ) {
        WriteMessage(pool, m, stream);
      } else {
        stream.SetBad();
      }
  }

  /** One set field of the schema: its name, then its value. */
  method WriteSetField(pool: Pool, d: FieldDesc, v: Value, stream: OutputStream)
    requires stream.Valid()
    modifies stream
    ensures stream.Valid()
    ensures Wrote(old(stream.Seen()), stream.Seen(), EncodeName(d.name) + EncodeValue(pool, v),
                  |d.name| < 65536 && CanWriteValue(pool, d.kind, v))
    ensures ValueSized(v) ==> stream.overrun == old(stream.overrun)
    decreases v, 1
  {
    if |d.name| >= 65536 {
      stream.SetBad();
      return;
    }
    ghost var v0 := stream.Seen();
    WriteName(d.name, stream);
    ghost var v1 := stream.Seen();
    WriteValue(pool, d.kind, v, stream);
    WroteThen(v0, v1, stream.Seen(), EncodeName(d.name), true, EncodeValue(pool, v), CanWriteValue(pool, d.kind, v));
  }

  /** WriteAMFObject for messages. */
  method WriteMessage(pool: Pool, m: Message, stream: OutputStream)
    requires stream.Valid()
    modifies stream
    ensures stream.Valid()
    ensures Wrote(old(stream.Seen()), stream.Seen(), EncodeValue(pool, Nested(m)), CanWrite(pool, m, pool(m.typ)))
    ensures MessageSized(m) ==> stream.overrun == old(stream.overrun)
    decreases m, 1
  {
    ghost var v0 := stream.Seen();
    var ds := pool(m.typ);
    stream.PutU8(OBJECT);
    for i := 0 to |ds|
      invariant stream.Valid()
      invariant Wrote(v0, stream.Seen(), [OBJECT] + EncodeFields(pool, m, ds[..i]), CanWrite(pool, m, ds[..i]))
      invariant MessageSized(m) ==> stream.overrun == old(stream.overrun)
    {
      ghost var v := stream.Seen();
      WriteTurn(pool, m, ds[i], stream);
      MessageTurn(pool, m, v0, v, stream.Seen(), i);
      if !stream.good {
        return;
      }
    }
    assert ds[..|ds|] == ds;
    ghost var v1 := stream.Seen();
    WriteEnd(stream);
    WroteThen(v0, v1, stream.Seen(), [OBJECT] + EncodeFields(pool, m, ds), CanWrite(pool, m, ds), End(), true);
    Assoc([OBJECT], EncodeFields(pool, m, ds), End());
  }

  /** One turn of the loop over the schema. */
  method WriteTurn(pool: Pool, m: Message, d: FieldDesc, stream: OutputStream)
    requires stream.Valid()
    modifies stream
    ensures stream.Valid()
    ensures Wrote(old(stream.Seen()), stream.Seen(), Part(pool, m, d), CanPart(pool, m, d))
    ensures MessageSized(m) ==> stream.overrun == old(stream.overrun)
    decreases m, 0
  {
    if d.repeated {
      stream.SetBad();
    } else if d.name !in m.fields {
      if d.required {
        stream.SetBad();
      }
    } else {
      WriteSetField(pool, d, m.fields[d.name], stream);
    }
  }

  /** What one schema entry adds to the image, and whether it can. */
  function Part(pool: Pool, m: Message, d: FieldDesc): bytes {
    if d.name in m.fields then EncodeName(d.name) + EncodeValue(pool, m.fields[d.name]) else []
  }

  predicate CanPart(pool: Pool, m: Message, d: FieldDesc) {
    && !d.repeated
    && (if d.name in m.fields then |d.name| < 65536 && CanWriteValue(pool, d.kind, m.fields[d.name]) else !d.required)
  }

  lemma {:induction false} FieldsAppend(pool: Pool, m: Message, ds: seq<FieldDesc>, d: FieldDesc)
    ensures EncodeFields(pool, m, ds + [d]) == EncodeFields(pool, m, ds) + Part(pool, m, d)
    ensures CanWrite(pool, m, ds + [d]) <==> CanWrite(pool, m, ds) && CanPart(pool, m, d)
  {
    if ds == [] {
      assert ds + [d] == [d] && [d][1..] == [];
    } else {
      assert (ds + [d])[1..] == ds[1..] + [d];
      FieldsAppend(pool, m, ds[1..], d);
      if ds[0].name in m.fields {
        var image := EncodeValue(pool, m.fields[ds[0].name]);
        Assoc(EncodeName(ds[0].name), image + EncodeFields(pool, m, ds[1..]), Part(pool, m, d));
        Assoc(image, EncodeFields(pool, m, ds[1..]), Part(pool, m, d));
      }
    }
  }

  lemma {:induction false} FieldsStep(pool: Pool, m: Message, ds: seq<FieldDesc>, i: nat)
    requires i < |ds|
    ensures EncodeFields(pool, m, ds[..i + 1]) == EncodeFields(pool, m, ds[..i]) + Part(pool, m, ds[i])
    ensures CanWrite(pool, m, ds[..i + 1]) <==> CanWrite(pool, m, ds[..i]) && CanPart(pool, m, ds[i])
    ensures CanWrite(pool, m, ds) ==> CanWrite(pool, m, ds[..i + 1])
    ensures |EncodeFields(pool, m, ds[..i + 1])| <= |EncodeFields(pool, m, ds)|
    decreases |ds| - i
  {
    assert ds[..i + 1] == ds[..i] + [ds[i]];
    FieldsAppend(pool, m, ds[..i], ds[i]);
    if i + 1 == |ds| {
      assert ds[..i + 1] == ds;
    } else {
      FieldsStep(pool, m, ds, i + 1);
    }
  }

  lemma MessageTurn(pool: Pool, m: Message, v0: View, v: View, v': View, i: nat)
    requires var ds := pool(m.typ);
             && i < |ds|
             && Wrote(v0, v, [OBJECT] + EncodeFields(pool, m, ds[..i]), CanWrite(pool, m, ds[..i]))
             && Wrote(v, v', Part(pool, m, ds[i]), CanPart(pool, m, ds[i]))
    ensures var ds := pool(m.typ);
            && Wrote(v0, v', [OBJECT] + EncodeFields(pool, m, ds[..i + 1]), CanWrite(pool, m, ds[..i + 1]))
            && (!v'.good ==> Wrote(v0, v', EncodeValue(pool, Nested(m)), CanWrite(pool, m, ds)))
  {
    var ds := pool(m.typ);
    var was, part := [OBJECT] + EncodeFields(pool, m, ds[..i]), Part(pool, m, ds[i]);
    WroteThen(v0, v, v', was, CanWrite(pool, m, ds[..i]), part, CanPart(pool, m, ds[i]));
    FieldsStep(pool, m, ds, i);
    Assoc([OBJECT], EncodeFields(pool, m, ds[..i]), part);
    if !v'.good {
      WroteBad(v0, v', [OBJECT] + EncodeFields(pool, m, ds[..i + 1]), CanWrite(pool, m, ds[..i + 1]),
               EncodeValue(pool, Nested(m)), CanWrite(pool, m, ds));
    }
  }
}
