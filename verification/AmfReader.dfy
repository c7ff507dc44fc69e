/**
 What the generic AMF readers of amf.cpp compute, as functions of the unread
 bytes: verdict, tree built so far (also on failure) and bytes left.
 */
module AmfReader {
  import opened Bytes
  import opened AmfValue

  datatype TextRead = TextRead(ok: bool, text: bytes, rest: bytes)

  /** `field` is what the destination field became, or None if it was not touched. */
  datatype ValueRead = ValueRead(ok: bool, field: Option<Field>, rest: bytes)

  datatype ObjectRead = ObjectRead(ok: bool, entries: seq<Entry>, rest: bytes)

  datatype ArrayRead = ArrayRead(ok: bool, items: seq<Field>, rest: bytes)

  /** CheckAMFStringSize and CheckAMFArraySize. */
  predicate Fits(size: nat, max: int) {
    0 <= max && size <= max
  }

  /** ReadAMFShortStringBody (k = 2) and ReadAMFLongStringBody (k = 4). */
  function ReadText(cfg: Limits, s: bytes, k: nat): (r: TextRead)
    ensures |r.rest| <= |s|
    ensures r.ok ==> |s| == k + |r.text| + |r.rest|
  {
    if |s| < k then TextRead(false, [], [])
    else
      var len := FromBigEndian(s[..k]);
      var t := s[k..];
      if !Fits(len, cfg.maxString) then TextRead(false, [], t)
      else if |t| < len then TextRead(false, [], [])
      else TextRead(true, t[..len], t[len..])
  }

  lemma TextBounds(cfg: Limits, s: bytes, k: nat)
    ensures var r := ReadText(cfg, s, k); r.ok ==> Fits(|r.text|, cfg.maxString) && |r.text| < Pow256(k)
  {
    if |s| >= k {
      BigEndianBound(s[..k]);
    }
  }

  function TextField(t: TextRead): ValueRead {
    ValueRead(t.ok, if t.ok then Some(Text(t.text)) else None, t.rest)
  }

  /** The cases of the marker switch that hold no other value; `s` follows the marker. */
  function ReadScalar(cfg: Limits, m: byte, s: bytes): (r: ValueRead)
    ensures |r.rest| <= |s|
    ensures r.ok == r.field.Some?
  {
    if m == NUMBER then
      if |s| < 8 then ValueRead(false, None, [])
      else ValueRead(true, Some(Number(FromBigEndian(s[..8]))), s[8..])
    else if m == BOOLEAN then
      if s == [] then ValueRead(false, None, [])
      else ValueRead(true, Some(Boolean(s[0] != 0)), s[1..])
    else if m == STRING then TextField(ReadText(cfg, s, 2))
    else if m == LONG_STRING then TextField(ReadText(cfg, s, 4))
    else if m == NULL then ValueRead(true, Some(Null), s)
    else if m == UNDEFINED then ValueRead(true, Some(Undefined), s)
    else if m == UNSUPPORTED then ValueRead(true, Some(Unsupported), s)
    else ValueRead(false, None, s)
  }

  /** MutableObject and MutableArray: an existing container is kept, anything else replaced. */
  function ObjectIn(cur: Field): seq<Entry> {
    if cur.Object? then cur.entries else []
  }

  function ArrayIn(cur: Field): seq<Field> {
    if cur.Array? then cur.items else []
  }

  function Store(es: seq<Entry>, name: bytes, f: Option<Field>): seq<Entry> {
    match f case None => es case Some(v) => Put(es, name, v)
  }

  function Append(fs: seq<Field>, f: Option<Field>): seq<Field> {
    match f case None => fs case Some(v) => fs + [v]
  }

  /**
   ReadAMFObjectField and ReadAMFArrayItem, which differ only in the destination:
   `cur` is the field under that name, or a fresh Undefined one.
   */
  function ReadValue(cfg: Limits, s: bytes, depth: nat, cur: Field): (r: ValueRead)
    ensures |r.rest| <= |s|
    ensures r.ok ==> |r.rest| < |s| && r.field.Some?
    decreases |s|, 0
  {
    if depth > cfg.maxDepth || s == [] then ValueRead(false, None, s)
    else
      var m, t := s[0], s[1..];
      if m == OBJECT then
        var r := ReadObjectBody(cfg, t, depth + 1, ObjectIn(cur));
        ValueRead(r.ok, Some(Object(r.entries)), r.rest)
      else if m == TYPED_OBJECT then
        var class_ := ReadText(cfg, t, 2);
        if !class_.ok then ValueRead(false, None, class_.rest)
        else
          var r := ReadObjectBody(cfg, class_.rest, depth + 1, ObjectIn(cur));
          ValueRead(r.ok, Some(Object(r.entries)), r.rest)
      else if m == ECMA_ARRAY then
        var r := ReadEcmaArrayBody(cfg, t, depth + 1, ObjectIn(cur));
        ValueRead(r.ok, Some(Object(r.entries)), r.rest)
      else if m == STRICT_ARRAY then
        var r := ReadArrayBody(cfg, t, depth + 1, ArrayIn(cur));
        ValueRead(r.ok, Some(Array(r.items)), r.rest)
      else
        ReadScalar(cfg, m, t)
  }

  function ReadObjectBody(cfg: Limits, s: bytes, depth: nat, es: seq<Entry>): (r: ObjectRead)
    ensures |r.rest| <= |s|
    decreases |s|, 2
  {
    if depth > cfg.maxDepth then ObjectRead(false, es, s) else ReadPairs(cfg, s, depth, es, None)
  }

  function ReadEcmaArrayBody(cfg: Limits, s: bytes, depth: nat, es: seq<Entry>): (r: ObjectRead)
    ensures |r.rest| <= |s|
    decreases |s|, 2
  {
    if depth > cfg.maxDepth then ObjectRead(false, es, s)
    else if |s| < 4 then ObjectRead(false, es, [])
    else
      var count := FromBigEndian(s[..4]);
      if !Fits(count, cfg.maxArray) then ObjectRead(false, es, s[4..])
      else ReadPairs(cfg, s[4..], depth, es, Some(count))
  }

  function Fewer(left: Option<nat>): Option<nat>
    requires left != Some(0)
  {
    if left.None? then None else Some(left.value - 1)
  }

  /**
   The name/value loops of both: `left` is None for an object, which goes on until
   a name cannot be read or is empty, and the number of pairs for an ECMA array.
   */
  function ReadPairs(cfg: Limits, s: bytes, depth: nat, es: seq<Entry>, left: Option<nat>): (r: ObjectRead)
    ensures |r.rest| <= |s|
    decreases |s|, 1
  {
    if left == Some(0) then ObjectRead(true, es, s)
    else
      var name := ReadText(cfg, s, 2);
      if !name.ok then ObjectRead(left.None?, es, name.rest)
      else if left.None? && name.text == [] then
        if name.rest == [] then ObjectRead(false, es, [])
        else ObjectRead(name.rest[0] == OBJECT_END, es, name.rest[1..])
      else
        var v := ReadValue(cfg, name.rest, depth, Current(es, name.text));
        var es' := Store(es, name.text, v.field);
        if !v.ok then ObjectRead(false, es', v.rest)
        else ReadPairs(cfg, v.rest, depth, es', Fewer(left))
  }

  function ReadArrayBody(cfg: Limits, s: bytes, depth: nat, fs: seq<Field>): (r: ArrayRead)
    ensures |r.rest| <= |s|
    decreases |s|, 2
  {
    if depth > cfg.maxDepth then ArrayRead(false, fs, s)
    else if |s| < 4 then ArrayRead(false, fs, [])
    else
      var count := FromBigEndian(s[..4]);
      if !Fits(count, cfg.maxArray) then ArrayRead(false, fs, s[4..])
      else ReadItems(cfg, s[4..], depth, fs, count)
  }

  function ReadItems(cfg: Limits, s: bytes, depth: nat, fs: seq<Field>, left: nat): (r: ArrayRead)
    ensures |r.rest| <= |s|
    decreases |s|, 1
  {
    if left == 0 then ArrayRead(true, fs, s)
    else
      var v := ReadValue(cfg, s, depth, Undefined);
      var fs' := Append(fs, v.field);
      if !v.ok then ArrayRead(false, fs', v.rest) else ReadItems(cfg, v.rest, depth, fs', left - 1)
  }

  /** ReadAMFObject: a null is an object without fields. */
  function ReadObject(cfg: Limits, s: bytes, es: seq<Entry>): (r: ObjectRead)
    ensures |r.rest| <= |s|
  {
    if s == [] then ObjectRead(false, es, [])
    else if s[0] == OBJECT then ReadObjectBody(cfg, s[1..], 0, es)
    else if s[0] == ECMA_ARRAY then ReadEcmaArrayBody(cfg, s[1..], 0, es)
    else ObjectRead(s[0] == NULL, es, s[1..])
  }

  /** ReadAMFArray: a null is an array without items. */
  function ReadArray(cfg: Limits, s: bytes, fs: seq<Field>): (r: ArrayRead)
    ensures |r.rest| <= |s|
  {
    if s == [] then ArrayRead(false, fs, [])
    else if s[0] == STRICT_ARRAY then ReadArrayBody(cfg, s[1..], 0, fs)
    else ArrayRead(s[0] == NULL, fs, s[1..])
  }

  /** What a value starting with a given marker reads as. */
  lemma Unmark(cfg: Limits, m: byte, s: bytes, depth: nat, cur: Field)
    requires depth <= cfg.maxDepth
    ensures m !in {OBJECT, TYPED_OBJECT, ECMA_ARRAY, STRICT_ARRAY} ==>
              ReadValue(cfg, [m] + s, depth, cur) == ReadScalar(cfg, m, s)
    ensures m == OBJECT ==>
              var r := ReadObjectBody(cfg, s, depth + 1, ObjectIn(cur));
              ReadValue(cfg, [m] + s, depth, cur) == ValueRead(r.ok, Some(Object(r.entries)), r.rest)
    ensures m == STRICT_ARRAY ==>
              var r := ReadArrayBody(cfg, s, depth + 1, ArrayIn(cur));
              ReadValue(cfg, [m] + s, depth, cur) == ValueRead(r.ok, Some(Array(r.items)), r.rest)
  {
    assert ([m] + s)[1..] == s;
  }
}
