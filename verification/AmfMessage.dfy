/**
 Reading and writing protobuf messages as AMF objects. Reflection is replaced by a pool
 of schemas and by messages that map the names of their set fields to values.
 */
module AmfMessage {
  import opened Bytes
  import opened AmfValue
  import opened AmfReader

  /** cpp_type() of a field; `Other` is every type AMF cannot carry. */
  datatype Kind = Double | Bool | String | SubMessage(typ: nat) | Other

  datatype FieldDesc = FieldDesc(name: bytes, kind: Kind, required: bool, repeated: bool)

  /** Message types by number, which lets a message type contain itself. */
  type Pool = nat -> seq<FieldDesc>

  datatype Value = Scalar(field: Field) | Nested(msg: Message)

  datatype Message = Message(typ: nat, fields: map<bytes, Value>)

  datatype SkipRead = SkipRead(ok: bool, rest: bytes)

  /** `slot` is what the field holds afterwards. */
  datatype SlotRead = SlotRead(ok: bool, slot: Option<Value>, rest: bytes)

  datatype MessageRead = MessageRead(ok: bool, msg: Message, rest: bytes)

  /** Descriptor::FindFieldByName */
  function FindField(ds: seq<FieldDesc>, name: bytes): Option<FieldDesc> {
    if ds == [] then None else if ds[0].name == name then Some(ds[0]) else FindField(ds[1..], name)
  }

  function Get(m: Message, name: bytes): Option<Value> {
    if name in m.fields then Some(m.fields[name]) else None
  }

  function With(m: Message, name: bytes, slot: Option<Value>): Message {
    match slot case None => m case Some(v) => m.(fields := m.fields[name := v])
  }

  /** SetDouble, SetBool and SetString are called only on a field of that type. */
  function SetScalar(kind: Option<Kind>, slot: Option<Value>, f: Option<Field>): Option<Value> {
    match (kind, f)
    case (Some(Double), Some(Number(_))) => Some(Scalar(f.value))
    case (Some(Bool), Some(Boolean(_))) => Some(Scalar(f.value))
    case (Some(String), Some(Text(_))) => Some(Scalar(f.value))
    case _ => slot
  }

  /** MutableMessage */
  function MessageIn(slot: Option<Value>, typ: nat): Message {
    if slot.Some? && slot.value.Nested? then slot.value.msg else Message(typ, map[])
  }

  /** ReadAMFObjectField without a field, and SkipAMFObjectBody: only consume. */
  function SkipValue(cfg: Limits, s: bytes, depth: nat): (r: SkipRead)
    ensures |r.rest| <= |s|
    ensures r.ok ==> |r.rest| < |s|
    decreases |s|, 0
  {
    if depth > cfg.maxDepth || s == [] then SkipRead(false, s)
    else
      var m, t := s[0], s[1..];
      if m == OBJECT then SkipBody(cfg, t, depth + 1)
      else if m == TYPED_OBJECT then
        var class_ := ReadText(cfg, t, 2);
        if !class_.ok then SkipRead(false, class_.rest) else SkipBody(cfg, class_.rest, depth + 1)
      else
        var r := ReadScalar(cfg, m, t);
        SkipRead(r.ok, r.rest)
  }

  function SkipBody(cfg: Limits, s: bytes, depth: nat): (r: SkipRead)
    ensures |r.rest| <= |s|
    decreases |s|, 1
  {
    if depth > cfg.maxDepth then SkipRead(false, s)
    else
      var name := ReadText(cfg, s, 2);
      if !name.ok then SkipRead(true, name.rest)
      else if name.text == [] then
        if name.rest == [] then SkipRead(false, []) else SkipRead(name.rest[0] == OBJECT_END, name.rest[1..])
      else
        var v := SkipValue(cfg, name.rest, depth);
        if !v.ok then v else SkipBody(cfg, v.rest, depth)
  }

  /** ReadAMFObjectField into a message's field of that kind, or into none. */
  function ReadField(cfg: Limits, pool: Pool, s: bytes, depth: nat, kind: Option<Kind>, slot: Option<Value>)
    : (r: SlotRead)
    ensures |r.rest| <= |s|
    ensures r.ok ==> |r.rest| < |s|
    decreases |s|, 0
  {
    if depth > cfg.maxDepth || s == [] then SlotRead(false, slot, s)
    else
      var m, t := s[0], s[1..];
      if m == OBJECT then ReadSubMessage(cfg, pool, t, depth + 1, kind, slot)
      else if m == TYPED_OBJECT then
        var class_ := ReadText(cfg, t, 2);
        if !class_.ok then SlotRead(false, slot, class_.rest)
        else ReadSubMessage(cfg, pool, class_.rest, depth + 1, kind, slot)
      else
        var r := ReadScalar(cfg, m, t);
        SlotRead(r.ok, SetScalar(kind, slot, r.field), r.rest)
  }

  function ReadSubMessage(cfg: Limits, pool: Pool, s: bytes, depth: nat, kind: Option<Kind>, slot: Option<Value>)
    : (r: SlotRead)
    ensures |r.rest| <= |s|
    decreases |s|, 3
  {
    match kind
    case Some(SubMessage(typ)) =>
      var r := ReadMessageBody(cfg, pool, s, depth, MessageIn(slot, typ));
      SlotRead(r.ok, Some(Nested(r.msg)), r.rest)
    case _ =>
      var r := SkipBody(cfg, s, depth);
      SlotRead(r.ok, slot, r.rest)
  }

  function ReadMessageBody(cfg: Limits, pool: Pool, s: bytes, depth: nat, m: Message): (r: MessageRead)
    ensures |r.rest| <= |s|
    decreases |s|, 2
  {
    if depth > cfg.maxDepth then MessageRead(false, m, s) else ReadMessagePairs(cfg, pool, s, depth, m)
  }

  function KindOf(d: Option<FieldDesc>): Option<Kind> {
    match d case None => None case Some(f) => Some(f.kind)
  }

  /** The loop of ReadAMFObjectBody, which goes on until a name cannot be read or is empty. */
  function ReadMessagePairs(cfg: Limits, pool: Pool, s: bytes, depth: nat, m: Message): (r: MessageRead)
    ensures |r.rest| <= |s|
    decreases |s|, 1
  {
    var name := ReadText(cfg, s, 2);
    if !name.ok then MessageRead(true, m, name.rest)
    else if name.text == [] then
      if name.rest == [] then MessageRead(false, m, [])
      else MessageRead(name.rest[0] == OBJECT_END, m, name.rest[1..])
    else
      var kind := KindOf(FindField(pool(m.typ), name.text));
      var v := ReadField(cfg, pool, name.rest, depth, kind, Get(m, name.text));
      var m' := With(m, name.text, v.slot);
      if !v.ok then MessageRead(false, m', v.rest) else ReadMessagePairs(cfg, pool, v.rest, depth, m')
  }

  /** One turn of the loop of ReadAMFEcmaArrayBody: a name, which may be empty, and a value. */
  function EcmaPair(cfg: Limits, pool: Pool, s: bytes, depth: nat, m: Message): MessageRead {
    var name := ReadText(cfg, s, 2);
    if !name.ok then MessageRead(false, m, name.rest)
    else
      var kind := KindOf(FindField(pool(m.typ), name.text));
      var v := ReadField(cfg, pool, name.rest, depth, kind, Get(m, name.text));
      MessageRead(v.ok, With(m, name.text, v.slot), v.rest)
  }

  /** That many turns, up to the first that fails. */
  function EcmaPairs(cfg: Limits, pool: Pool, s: bytes, depth: nat, m: Message, n: nat): MessageRead
    decreases n
  {
    if n == 0 then MessageRead(true, m, s)
    else
      var p := EcmaPair(cfg, pool, s, depth, m);
      if p.ok then EcmaPairs(cfg, pool, p.rest, depth, p.msg, n - 1) else p
  }

  function ReadMessageEcma(cfg: Limits, pool: Pool, s: bytes, depth: nat, m: Message): MessageRead {
    if depth > cfg.maxDepth then MessageRead(false, m, s)
    else if |s| < 4 then MessageRead(false, m, [])
    else
      var count := FromBigEndian(s[..4]);
      if !Fits(count, cfg.maxArray) then MessageRead(false, m, s[4..])
      else EcmaPairs(cfg, pool, s[4..], depth, m, count)
  }

  /** Message::IsInitialized: required fields are set, in set messages too. */
  predicate Initialized(pool: Pool, m: Message) {
    InitializedFields(pool, m, pool(m.typ))
  }

  predicate InitializedFields(pool: Pool, m: Message, ds: seq<FieldDesc>)
    decreases m, |ds|
  {
    ds == [] ||
    (&& (if ds[0].name in m.fields then
           m.fields[ds[0].name].Nested? ==>
             var sub := m.fields[ds[0].name].msg; InitializedFields(pool, sub, pool(sub.typ))
         else !ds[0].required)
     && InitializedFields(pool, m, ds[1..]))
  }

  /** ReadAMFObject for messages. */
  function ReadMessage(cfg: Limits, pool: Pool, s: bytes, m: Message): MessageRead {
    if s == [] then MessageRead(false, m, [])
    else
      var r := if s[0] == OBJECT then ReadMessageBody(cfg, pool, s[1..], 0, m)
               else if s[0] == ECMA_ARRAY then ReadMessageEcma(cfg, pool, s[1..], 0, m)
               else MessageRead(s[0] == NULL, m, s[1..]);
      r.(ok := r.ok && Initialized(pool, r.msg))
  }

  // What an object's bytes are taken for does not depend on the schema.

  /** Reading a field into any slot of any kind consumes and accepts what skipping does. */
  lemma {:induction false} FieldAsSkip(cfg: Limits, pool: Pool, s: bytes, depth: nat, kind: Option<Kind>,
                                       slot: Option<Value>)
    ensures var r := ReadField(cfg, pool, s, depth, kind, slot);
            SkipRead(r.ok, r.rest) == SkipValue(cfg, s, depth)
    decreases |s|, 1
  {
    if depth <= cfg.maxDepth && s != [] {
      if s[0] == OBJECT {
        PlainAsSkip(cfg, pool, s, depth, kind, slot);
      } else if s[0] == TYPED_OBJECT {
        TypedAsSkip(cfg, pool, s, depth, kind, slot);
      }
    }
  }

  lemma {:induction false} PlainAsSkip(cfg: Limits, pool: Pool, s: bytes, depth: nat, kind: Option<Kind>,
                                       slot: Option<Value>)
    requires depth <= cfg.maxDepth && s != [] && s[0] == OBJECT
    ensures var r := ReadField(cfg, pool, s, depth, kind, slot);
            SkipRead(r.ok, r.rest) == SkipValue(cfg, s, depth)
    decreases |s|, 0
  {
    SubMessageAsSkip(cfg, pool, s[1..], depth + 1, kind, slot);
  }

  lemma {:induction false} TypedAsSkip(cfg: Limits, pool: Pool, s: bytes, depth: nat, kind: Option<Kind>,
                                       slot: Option<Value>)
    requires depth <= cfg.maxDepth && s != [] && s[0] == TYPED_OBJECT
    ensures var r := ReadField(cfg, pool, s, depth, kind, slot);
            SkipRead(r.ok, r.rest) == SkipValue(cfg, s, depth)
    decreases |s|, 0
  {
    SubMessageAsSkip(cfg, pool, ReadText(cfg, s[1..], 2).rest, depth + 1, kind, slot);
  }

  lemma {:induction false} SubMessageAsSkip(cfg: Limits, pool: Pool, s: bytes, depth: nat, kind: Option<Kind>,
                                            slot: Option<Value>)
    ensures var r := ReadSubMessage(cfg, pool, s, depth, kind, slot);
            SkipRead(r.ok, r.rest) == SkipBody(cfg, s, depth)
    decreases |s|, 3
  {
    match kind
    case Some(SubMessage(typ)) => BodyAsSkip(cfg, pool, s, depth, MessageIn(slot, typ));
    case _ =>
  }

  /** The same for a whole object body, whatever the schema and the message read into. */
  lemma {:induction false} BodyAsSkip(cfg: Limits, pool: Pool, s: bytes, depth: nat, m: Message)
    ensures var r := ReadMessageBody(cfg, pool, s, depth, m);
            SkipRead(r.ok, r.rest) == SkipBody(cfg, s, depth)
    decreases |s|, 2
  {
    var name := ReadText(cfg, s, 2);
    if depth <= cfg.maxDepth && name.ok && name.text != [] {
      var kind := KindOf(FindField(pool(m.typ), name.text));
      FieldAsSkip(cfg, pool, name.rest, depth, kind, Get(m, name.text));
      var v := ReadField(cfg, pool, name.rest, depth, kind, Get(m, name.text));
      if v.ok {
        BodyAsSkip(cfg, pool, v.rest, depth, With(m, name.text, v.slot));
        assert ReadMessageBody(cfg, pool, v.rest, depth, With(m, name.text, v.slot))
            == ReadMessagePairs(cfg, pool, v.rest, depth, With(m, name.text, v.slot));
      }
    }
  }

  /** What can be skipped, the generic reader reads too, consuming the same bytes. */
  lemma {:induction false} SkipThenValue(cfg: Limits, s: bytes, depth: nat, cur: Field)
    requires SkipValue(cfg, s, depth).ok
    ensures var r := ReadValue(cfg, s, depth, cur);
            r.ok && r.rest == SkipValue(cfg, s, depth).rest
    decreases |s|, 0
  {
    var m, t := s[0], s[1..];
    if m == OBJECT {
      SkipThenBody(cfg, t, depth + 1, ObjectIn(cur));
    } else if m == TYPED_OBJECT {
      SkipThenBody(cfg, ReadText(cfg, t, 2).rest, depth + 1, ObjectIn(cur));
    }
  }

  lemma {:induction false} SkipThenBody(cfg: Limits, s: bytes, depth: nat, es: seq<Entry>)
    requires SkipBody(cfg, s, depth).ok
    ensures var r := ReadObjectBody(cfg, s, depth, es);
            r.ok && r.rest == SkipBody(cfg, s, depth).rest
    decreases |s|, 1
  {
    var name := ReadText(cfg, s, 2);
    if name.ok && name.text != [] {
      SkipThenValue(cfg, name.rest, depth, Current(es, name.text));
      var v := ReadValue(cfg, name.rest, depth, Current(es, name.text));
      var es' := Store(es, name.text, v.field);
      SkipThenBody(cfg, v.rest, depth, es');
      assert ReadObjectBody(cfg, v.rest, depth, es') == ReadPairs(cfg, v.rest, depth, es', None);
    }
  }
}
