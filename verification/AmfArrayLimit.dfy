/**
 When arrays read stay within amf_max_array_size. The readers check the declared count of each array on
 the wire, but an array under a name that holds one already is appended to it.
 */
module AmfArrayLimit {
  import opened Bytes
  import opened AmfValue
  import opened AmfReader

  /** What one value on the wire may do to the field it is read over. */
  datatype Rule =
    | Roomy      // no array grows past the limit
    | Unrepeated // no array is read over an array
    | Growing    // no container is replaced
    | Arrayless  // no array of either kind

  function Count(s: bytes): nat
    requires |s| >= 4
  {
    FromBigEndian(s[..4])
  }

  /** The count of a container is there and passes CheckAMFArraySize. */
  predicate Countable(cfg: Limits, s: bytes) {
    |s| >= 4 && Fits(Count(s), cfg.maxArray)
  }

  /** The markers of values that are read into an object. */
  predicate MapLike(m: byte) {
    m == OBJECT || m == TYPED_OBJECT || m == ECMA_ARRAY
  }

  /** The rule for a value with marker m and the bytes s behind it, read over cur. */
  predicate Obeys(rule: Rule, cfg: Limits, m: byte, s: bytes, cur: Field) {
    match rule
    case Roomy => m == STRICT_ARRAY && Countable(cfg, s) ==> |ArrayIn(cur)| + Count(s) <= cfg.maxArray
    case Unrepeated => m == STRICT_ARRAY ==> !cur.Array?
    case Growing =>
      && (cur.Array? ==> m == STRICT_ARRAY)
      && (cur.Object? ==> MapLike(m))
    case Arrayless => m != STRICT_ARRAY && m != ECMA_ARRAY
  }

  /** Every value the reader comes to obeys the rule. */
  predicate ValueObeys(rule: Rule, cfg: Limits, s: bytes, depth: nat, cur: Field)
    decreases |s|, 0
  {
    depth > cfg.maxDepth || s == [] ||
    (var m, t := s[0], s[1..];
     && Obeys(rule, cfg, m, t, cur)
     && (if m == OBJECT then BodyObeys(rule, cfg, t, depth + 1, ObjectIn(cur))
         else if m == TYPED_OBJECT then
           ReadText(cfg, t, 2).ok ==> BodyObeys(rule, cfg, ReadText(cfg, t, 2).rest, depth + 1, ObjectIn(cur))
         else if m == ECMA_ARRAY then EcmaObeys(rule, cfg, t, depth + 1, ObjectIn(cur))
         else if m == STRICT_ARRAY then ArrayObeys(rule, cfg, t, depth + 1)
         else true))
  }

  predicate BodyObeys(rule: Rule, cfg: Limits, s: bytes, depth: nat, es: seq<Entry>)
    decreases |s|, 3
  {
    depth > cfg.maxDepth || PairsObey(rule, cfg, s, depth, es, None)
  }

  predicate EcmaObeys(rule: Rule, cfg: Limits, s: bytes, depth: nat, es: seq<Entry>)
    decreases |s|, 3
  {
    depth > cfg.maxDepth || !Countable(cfg, s) || PairsObey(rule, cfg, s[4..], depth, es, Some(Count(s)))
  }

  predicate ArrayObeys(rule: Rule, cfg: Limits, s: bytes, depth: nat)
    decreases |s|, 3
  {
    depth > cfg.maxDepth || !Countable(cfg, s) || ItemsObey(rule, cfg, s[4..], depth, Count(s))
  }

  predicate PairsObey(rule: Rule, cfg: Limits, s: bytes, depth: nat, es: seq<Entry>, left: Option<nat>)
    decreases |s|, 1
  {
    left == Some(0) ||
    (var name := ReadText(cfg, s, 2);
     !name.ok || (left.None? && name.text == []) ||
     (var v := ReadValue(cfg, name.rest, depth, Current(es, name.text));
      && ValueObeys(rule, cfg, name.rest, depth, Current(es, name.text))
      && (v.ok ==> PairsObey(rule, cfg, v.rest, depth, Store(es, name.text, v.field), Fewer(left)))))
  }

  predicate ItemsObey(rule: Rule, cfg: Limits, s: bytes, depth: nat, left: nat)
    decreases |s|, 1
  {
    left == 0 ||
    (var v := ReadValue(cfg, s, depth, Undefined);
     && ValueObeys(rule, cfg, s, depth, Undefined)
     && (v.ok ==> ItemsObey(rule, cfg, v.rest, depth, left - 1)))
  }

  /** The same for ReadAMFObject and ReadAMFArray into something empty. */
  predicate ObjectObeys(rule: Rule, cfg: Limits, s: bytes) {
    s != [] ==>
      && (s[0] == OBJECT ==> BodyObeys(rule, cfg, s[1..], 0, []))
      && (s[0] == ECMA_ARRAY ==> EcmaObeys(rule, cfg, s[1..], 0, []))
  }

  // Trees within the limit.

  /** An empty array is within any limit, even one that admits no array at all. */
  predicate InLimit(cfg: Limits, n: nat) {
    n == 0 || Fits(n, cfg.maxArray)
  }

  predicate ArraysFit(cfg: Limits, f: Field) {
    match f
    case Object(es) => EntriesFit(cfg, es)
    case Array(fs) => InLimit(cfg, |fs|) && ItemsFit(cfg, fs)
    case _ => true
  }

  predicate EntriesFit(cfg: Limits, es: seq<Entry>) {
    es == [] || (ArraysFit(cfg, es[0].value) && EntriesFit(cfg, es[1..]))
  }

  predicate ItemsFit(cfg: Limits, fs: seq<Field>) {
    fs == [] || (ArraysFit(cfg, fs[0]) && ItemsFit(cfg, fs[1..]))
  }

  lemma {:induction false} CurrentFits(cfg: Limits, es: seq<Entry>, name: bytes)
    requires EntriesFit(cfg, es)
    ensures ArraysFit(cfg, Current(es, name))
  {
    if es != [] {
      CurrentFits(cfg, es[1..], name);
    }
  }

  /** A map with a value put into it fits exactly if the value and the other values do. */
  lemma {:induction false} PutFits(cfg: Limits, es: seq<Entry>, name: bytes, f: Field)
    ensures EntriesFit(cfg, es) && ArraysFit(cfg, f) ==> EntriesFit(cfg, Put(es, name, f))
    ensures EntriesFit(cfg, Put(es, name, f)) ==> ArraysFit(cfg, f)
    ensures EntriesFit(cfg, Put(es, name, f)) && ArraysFit(cfg, Current(es, name)) ==> EntriesFit(cfg, es)
  {
    var now := Put(es, name, f);
    if es == [] || (Lookup(es, name).None? && Less(name, es[0].name)) {
      assert now[1..] == es;
    } else if es[0].name == name {
      assert now[1..] == es[1..];
    } else {
      PutFits(cfg, es[1..], name, f);
      assert now[1..] == Put(es[1..], name, f);
    }
  }

  lemma {:induction false} AppendFits(cfg: Limits, fs: seq<Field>, f: Field)
    ensures ItemsFit(cfg, fs + [f]) <==> ItemsFit(cfg, fs) && ArraysFit(cfg, f)
  {
    if fs == [] {
      assert (fs + [f])[1..] == [];
    } else {
      AppendFits(cfg, fs[1..], f);
      assert (fs + [f])[1..] == fs[1..] + [f];
    }
  }

  // One array.

  /** On any bytes: an array that was read got exactly the declared number of items, a failed one no more. */
  lemma {:induction false} ItemsCount(cfg: Limits, s: bytes, depth: nat, fs: seq<Field>, left: nat)
    ensures var r := ReadItems(cfg, s, depth, fs, left);
            |r.items| <= |fs| + left && (r.ok ==> |r.items| == |fs| + left)
    decreases |s|
  {
    if left > 0 {
      var v := ReadValue(cfg, s, depth, Undefined);
      if v.ok {
        ItemsCount(cfg, v.rest, depth, Append(fs, v.field), left - 1);
      }
    }
  }

  /** So a read array is within the limit exactly if old items and declared count together are. */
  lemma ArrayLimitExactly(cfg: Limits, s: bytes, depth: nat, fs: seq<Field>)
    requires ReadArrayBody(cfg, s, depth, fs).ok
    ensures Countable(cfg, s)
    ensures Fits(|ReadArrayBody(cfg, s, depth, fs).items|, cfg.maxArray) <==> |fs| + Count(s) <= cfg.maxArray
  {
    ItemsCount(cfg, s[4..], depth, fs, Count(s));
  }

  // Sufficient.

  lemma {:induction false} ValueKeepsLimit(rule: Rule, cfg: Limits, s: bytes, depth: nat, cur: Field)
    requires rule.Roomy? || rule.Unrepeated?
    requires ValueObeys(rule, cfg, s, depth, cur) && ArraysFit(cfg, cur)
    ensures var r := ReadValue(cfg, s, depth, cur); r.field.Some? ==> ArraysFit(cfg, r.field.value)
    decreases |s|, 1
  {
    if depth <= cfg.maxDepth && s != [] {
      if MapLike(s[0]) {
        MapKeepsLimit(rule, cfg, s, depth, cur);
      } else if s[0] == STRICT_ARRAY {
        ArrayKeepsLimit(rule, cfg, s[1..], depth + 1, cur);
      }
    }
  }

  lemma {:induction false} MapKeepsLimit(rule: Rule, cfg: Limits, s: bytes, depth: nat, cur: Field)
    requires rule.Roomy? || rule.Unrepeated?
    requires depth <= cfg.maxDepth && s != [] && MapLike(s[0])
    requires ValueObeys(rule, cfg, s, depth, cur) && ArraysFit(cfg, cur)
    ensures var r := ReadValue(cfg, s, depth, cur); r.field.Some? ==> ArraysFit(cfg, r.field.value)
    decreases |s|, 0
  {
    var m, t := s[0], s[1..];
    if m == OBJECT {
      BodyKeepsLimit(rule, cfg, t, depth + 1, ObjectIn(cur));
    } else if m == ECMA_ARRAY {
      EcmaKeepsLimit(rule, cfg, t, depth + 1, ObjectIn(cur));
    } else if ReadText(cfg, t, 2).ok {
      BodyKeepsLimit(rule, cfg, ReadText(cfg, t, 2).rest, depth + 1, ObjectIn(cur));
    }
  }

  lemma {:induction false} BodyKeepsLimit(rule: Rule, cfg: Limits, s: bytes, depth: nat, es: seq<Entry>)
    requires rule.Roomy? || rule.Unrepeated?
    requires BodyObeys(rule, cfg, s, depth, es) && EntriesFit(cfg, es)
    ensures EntriesFit(cfg, ReadObjectBody(cfg, s, depth, es).entries)
    decreases |s|, 3
  {
    if depth <= cfg.maxDepth {
      PairsKeepLimit(rule, cfg, s, depth, es, None);
    }
  }

  lemma {:induction false} EcmaKeepsLimit(rule: Rule, cfg: Limits, s: bytes, depth: nat, es: seq<Entry>)
    requires rule.Roomy? || rule.Unrepeated?
    requires EcmaObeys(rule, cfg, s, depth, es) && EntriesFit(cfg, es)
    ensures EntriesFit(cfg, ReadEcmaArrayBody(cfg, s, depth, es).entries)
    decreases |s|, 3
  {
    if depth <= cfg.maxDepth && Countable(cfg, s) {
      PairsKeepLimit(rule, cfg, s[4..], depth, es, Some(Count(s)));
    }
  }

  lemma {:induction false} ArrayKeepsLimit(rule: Rule, cfg: Limits, s: bytes, depth: nat, cur: Field)
    requires rule.Roomy? || rule.Unrepeated?
    requires Obeys(rule, cfg, STRICT_ARRAY, s, cur) && ArrayObeys(rule, cfg, s, depth) && ArraysFit(cfg, cur)
    ensures ArraysFit(cfg, Array(ReadArrayBody(cfg, s, depth, ArrayIn(cur)).items))
    decreases |s|, 3
  {
    if depth <= cfg.maxDepth && Countable(cfg, s) {
      ItemsCount(cfg, s[4..], depth, ArrayIn(cur), Count(s));
      ItemsKeepLimit(rule, cfg, s[4..], depth, ArrayIn(cur), Count(s));
    }
  }

  lemma {:induction false} PairsKeepLimit(rule: Rule, cfg: Limits, s: bytes, depth: nat, es: seq<Entry>,
                                          left: Option<nat>)
    requires rule.Roomy? || rule.Unrepeated?
    requires PairsObey(rule, cfg, s, depth, es, left) && EntriesFit(cfg, es)
    ensures EntriesFit(cfg, ReadPairs(cfg, s, depth, es, left).entries)
    decreases |s|, 2
  {
    var name := ReadText(cfg, s, 2);
    if left != Some(0) && name.ok && !(left.None? && name.text == []) {
      var cur := Current(es, name.text);
      CurrentFits(cfg, es, name.text);
      ValueKeepsLimit(rule, cfg, name.rest, depth, cur);
      var v := ReadValue(cfg, name.rest, depth, cur);
      if v.field.Some? {
        PutFits(cfg, es, name.text, v.field.value);
      }
      if v.ok {
        PairsKeepLimit(rule, cfg, v.rest, depth, Store(es, name.text, v.field), Fewer(left));
      }
    }
  }

  lemma {:induction false} ItemsKeepLimit(rule: Rule, cfg: Limits, s: bytes, depth: nat, fs: seq<Field>, left: nat)
    requires rule.Roomy? || rule.Unrepeated?
    requires ItemsObey(rule, cfg, s, depth, left) && ItemsFit(cfg, fs)
    ensures ItemsFit(cfg, ReadItems(cfg, s, depth, fs, left).items)
    decreases |s|, 2
  {
    if left > 0 {
      ValueKeepsLimit(rule, cfg, s, depth, Undefined);
      var v := ReadValue(cfg, s, depth, Undefined);
      if v.field.Some? {
        AppendFits(cfg, fs, v.field.value);
      }
      if v.ok {
        ItemsKeepLimit(rule, cfg, v.rest, depth, Append(fs, v.field), left - 1);
      }
    }
  }

  // Necessary, where nothing read is replaced later on.

  lemma {:induction false} ValueNeedsRoom(cfg: Limits, s: bytes, depth: nat, cur: Field)
    requires ValueObeys(Growing, cfg, s, depth, cur)
    requires var r := ReadValue(cfg, s, depth, cur); r.ok && ArraysFit(cfg, r.field.value)
    ensures ArraysFit(cfg, cur) && ValueObeys(Roomy, cfg, s, depth, cur)
    decreases |s|, 1
  {
    if s[0] == OBJECT {
      PlainNeedsRoom(cfg, s, depth, cur);
    } else if s[0] == TYPED_OBJECT {
      TypedNeedsRoom(cfg, s, depth, cur);
    } else if s[0] == ECMA_ARRAY {
      CountedNeedsRoom(cfg, s, depth, cur);
    } else if s[0] == STRICT_ARRAY {
      ArrayNeedsRoom(cfg, s[1..], depth + 1, cur);
    }
  }

  lemma {:induction false} PlainNeedsRoom(cfg: Limits, s: bytes, depth: nat, cur: Field)
    requires s != [] && s[0] == OBJECT && ValueObeys(Growing, cfg, s, depth, cur)
    requires var r := ReadValue(cfg, s, depth, cur); r.ok && ArraysFit(cfg, r.field.value)
    ensures ArraysFit(cfg, cur) && ValueObeys(Roomy, cfg, s, depth, cur)
    decreases |s|, 0
  {
    BodyNeedsRoom(cfg, s[1..], depth + 1, ObjectIn(cur));
  }

  lemma {:induction false} TypedNeedsRoom(cfg: Limits, s: bytes, depth: nat, cur: Field)
    requires s != [] && s[0] == TYPED_OBJECT && ValueObeys(Growing, cfg, s, depth, cur)
    requires var r := ReadValue(cfg, s, depth, cur); r.ok && ArraysFit(cfg, r.field.value)
    ensures ArraysFit(cfg, cur) && ValueObeys(Roomy, cfg, s, depth, cur)
    decreases |s|, 0
  {
    BodyNeedsRoom(cfg, ReadText(cfg, s[1..], 2).rest, depth + 1, ObjectIn(cur));
  }

  lemma {:induction false} CountedNeedsRoom(cfg: Limits, s: bytes, depth: nat, cur: Field)
    requires s != [] && s[0] == ECMA_ARRAY && ValueObeys(Growing, cfg, s, depth, cur)
    requires var r := ReadValue(cfg, s, depth, cur); r.ok && ArraysFit(cfg, r.field.value)
    ensures ArraysFit(cfg, cur) && ValueObeys(Roomy, cfg, s, depth, cur)
    decreases |s|, 0
  {
    EcmaNeedsRoom(cfg, s[1..], depth + 1, ObjectIn(cur));
  }

  lemma {:induction false} BodyNeedsRoom(cfg: Limits, s: bytes, depth: nat, es: seq<Entry>)
    requires BodyObeys(Growing, cfg, s, depth, es)
    requires var r := ReadObjectBody(cfg, s, depth, es); r.ok && EntriesFit(cfg, r.entries)
    ensures EntriesFit(cfg, es) && BodyObeys(Roomy, cfg, s, depth, es)
    decreases |s|, 3
  {
    PairsNeedRoom(cfg, s, depth, es, None);
  }

  lemma {:induction false} EcmaNeedsRoom(cfg: Limits, s: bytes, depth: nat, es: seq<Entry>)
    requires EcmaObeys(Growing, cfg, s, depth, es)
    requires var r := ReadEcmaArrayBody(cfg, s, depth, es); r.ok && EntriesFit(cfg, r.entries)
    ensures EntriesFit(cfg, es) && EcmaObeys(Roomy, cfg, s, depth, es)
    decreases |s|, 3
  {
    PairsNeedRoom(cfg, s[4..], depth, es, Some(Count(s)));
  }

  lemma {:induction false} ArrayNeedsRoom(cfg: Limits, s: bytes, depth: nat, cur: Field)
    requires Obeys(Growing, cfg, STRICT_ARRAY, s, cur) && ArrayObeys(Growing, cfg, s, depth)
    requires var r := ReadArrayBody(cfg, s, depth, ArrayIn(cur)); r.ok && ArraysFit(cfg, Array(r.items))
    ensures ArraysFit(cfg, cur) && Obeys(Roomy, cfg, STRICT_ARRAY, s, cur) && ArrayObeys(Roomy, cfg, s, depth)
    decreases |s|, 3
  {
    ArrayLimitExactly(cfg, s, depth, ArrayIn(cur));
    ItemsNeedRoom(cfg, s[4..], depth, ArrayIn(cur), Count(s));
  }

  lemma {:induction false} PairsNeedRoom(cfg: Limits, s: bytes, depth: nat, es: seq<Entry>, left: Option<nat>)
    requires PairsObey(Growing, cfg, s, depth, es, left)
    requires var r := ReadPairs(cfg, s, depth, es, left); r.ok && EntriesFit(cfg, r.entries)
    ensures EntriesFit(cfg, es) && PairsObey(Roomy, cfg, s, depth, es, left)
    decreases |s|, 2
  {
    var name := ReadText(cfg, s, 2);
    if left != Some(0) && name.ok && !(left.None? && name.text == []) {
      var cur := Current(es, name.text);
      var v := ReadValue(cfg, name.rest, depth, cur);
      PairsNeedRoom(cfg, v.rest, depth, Store(es, name.text, v.field), Fewer(left));
      PutFits(cfg, es, name.text, v.field.value);
      ValueNeedsRoom(cfg, name.rest, depth, cur);
    }
  }

  lemma {:induction false} ItemsNeedRoom(cfg: Limits, s: bytes, depth: nat, fs: seq<Field>, left: nat)
    requires ItemsObey(Growing, cfg, s, depth, left)
    requires var r := ReadItems(cfg, s, depth, fs, left); r.ok && ItemsFit(cfg, r.items)
    ensures ItemsFit(cfg, fs) && ItemsObey(Roomy, cfg, s, depth, left)
    decreases |s|, 2
  {
    if left > 0 {
      var v := ReadValue(cfg, s, depth, Undefined);
      ItemsNeedRoom(cfg, v.rest, depth, Append(fs, v.field), left - 1);
      AppendFits(cfg, fs, v.field.value);
      ValueNeedsRoom(cfg, s, depth, Undefined);
    }
  }

  /** From empty, success or not: if no array is read over an array, every array is within the limit. */
  lemma ObjectArraysWithin(rule: Rule, cfg: Limits, s: bytes)
    requires rule.Roomy? || rule.Unrepeated?
    requires ObjectObeys(rule, cfg, s)
    ensures EntriesFit(cfg, ReadObject(cfg, s, []).entries)
  {
    if s != [] && s[0] == OBJECT {
      BodyKeepsLimit(rule, cfg, s[1..], 0, []);
    } else if s != [] && s[0] == ECMA_ARRAY {
      EcmaKeepsLimit(rule, cfg, s[1..], 0, []);
    }
  }

  lemma ArrayArraysWithin(rule: Rule, cfg: Limits, s: bytes)
    requires rule.Roomy? || rule.Unrepeated?
    requires s != [] && s[0] == STRICT_ARRAY ==> ArrayObeys(rule, cfg, s[1..], 0)
    ensures ArraysFit(cfg, Array(ReadArray(cfg, s, []).items))
  {
    if s != [] && s[0] == STRICT_ARRAY {
      ArrayKeepsLimit(rule, cfg, s[1..], 0, Undefined);
    }
  }

  /** The same as an equivalence, for an array that was read without replacing a container. */
  lemma ArrayArraysExactly(cfg: Limits, s: bytes)
    requires ReadArray(cfg, s, []).ok
    requires s[0] == STRICT_ARRAY ==> ArrayObeys(Growing, cfg, s[1..], 0)
    ensures ArraysFit(cfg, Array(ReadArray(cfg, s, []).items)) <==>
            (s[0] == STRICT_ARRAY ==> ArrayObeys(Roomy, cfg, s[1..], 0))
  {
    if s[0] == STRICT_ARRAY {
      if ArrayObeys(Roomy, cfg, s[1..], 0) {
        ArrayArraysWithin(Roomy, cfg, s);
      }
      if ArraysFit(cfg, Array(ReadArray(cfg, s, []).items)) {
        ArrayNeedsRoom(cfg, s[1..], 0, Undefined);
      }
    }
  }

  /**
   If no container is replaced either, the arrays of an object that was read are within the limit if
   and only if each had room for the items appended to it.
   */
  lemma ObjectArraysExactly(cfg: Limits, s: bytes)
    requires ReadObject(cfg, s, []).ok && ObjectObeys(Growing, cfg, s)
    ensures EntriesFit(cfg, ReadObject(cfg, s, []).entries) <==> ObjectObeys(Roomy, cfg, s)
  {
    if ObjectObeys(Roomy, cfg, s) {
      ObjectArraysWithin(Roomy, cfg, s);
    }
    if EntriesFit(cfg, ReadObject(cfg, s, []).entries) {
      if s[0] == OBJECT {
        BodyNeedsRoom(cfg, s[1..], 0, []);
      } else if s[0] == ECMA_ARRAY {
        EcmaNeedsRoom(cfg, s[1..], 0, []);
      }
    }
  }
}
