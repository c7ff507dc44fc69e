/** What arbitrary bytes can make the readers build: bounded nesting, strings and memory. */
module AmfBounds {
  import opened Bytes
  import opened AmfValue
  import opened AmfReader

  /**
   Maps in key order, strings and names no longer than allowed, 64-bit numbers and at most
   `room` levels of nesting. An array may pass amf_max_array_size, since a repeated name appends to it.
   */
  predicate Shaped(cfg: Limits, f: Field, room: int) {
    match f
    case Number(bits) => bits < 0x1_0000_0000_0000_0000
    case Text(s) => Fits(|s|, cfg.maxString)
    case Object(es) => room >= 1 && Sorted(es) && ShapedEntries(cfg, es, room - 1)
    case Array(fs) => room >= 1 && ShapedItems(cfg, fs, room - 1)
    case _ => true
  }

  predicate ShapedEntries(cfg: Limits, es: seq<Entry>, room: int) {
    es == [] ||
    (|es[0].name| < 65536 && Fits(|es[0].name|, cfg.maxString) && Shaped(cfg, es[0].value, room) &&
     ShapedEntries(cfg, es[1..], room))
  }

  predicate ShapedItems(cfg: Limits, fs: seq<Field>, room: int) {
    fs == [] || (Shaped(cfg, fs[0], room) && ShapedItems(cfg, fs[1..], room))
  }

  lemma {:induction false} ShapedMore(cfg: Limits, f: Field, room: int)
    requires Shaped(cfg, f, room)
    ensures Shaped(cfg, f, room + 1)
    decreases f
  {
    match f
    case Object(es) => MoreEntries(cfg, es, room - 1);
    case Array(fs) => MoreItems(cfg, fs, room - 1);
    case _ =>
  }

  lemma {:induction false} MoreEntries(cfg: Limits, es: seq<Entry>, room: int)
    requires ShapedEntries(cfg, es, room)
    ensures ShapedEntries(cfg, es, room + 1)
    decreases es
  {
    if es != [] {
      ShapedMore(cfg, es[0].value, room);
      MoreEntries(cfg, es[1..], room);
    }
  }

  lemma {:induction false} MoreItems(cfg: Limits, fs: seq<Field>, room: int)
    requires ShapedItems(cfg, fs, room)
    ensures ShapedItems(cfg, fs, room + 1)
    decreases fs
  {
    if fs != [] {
      ShapedMore(cfg, fs[0], room);
      MoreItems(cfg, fs[1..], room);
    }
  }

  lemma {:induction false} CurrentShaped(cfg: Limits, es: seq<Entry>, name: bytes, room: int)
    requires ShapedEntries(cfg, es, room)
    ensures Shaped(cfg, Current(es, name), room)
  {
    if es != [] {
      CurrentShaped(cfg, es[1..], name, room);
    }
  }

  lemma {:induction false} PutShaped(cfg: Limits, es: seq<Entry>, name: bytes, f: Field, room: int)
    requires ShapedEntries(cfg, es, room) && Shaped(cfg, f, room)
    requires |name| < 65536 && Fits(|name|, cfg.maxString)
    ensures ShapedEntries(cfg, Put(es, name, f), room)
  {
    var now := Put(es, name, f);
    if es == [] || (Lookup(es, name).None? && Less(name, es[0].name)) {
      assert now[1..] == es;
    } else if es[0].name == name {
      assert now[1..] == es[1..];
    } else {
      PutShaped(cfg, es[1..], name, f, room);
      assert now[1..] == Put(es[1..], name, f);
    }
  }

  lemma {:induction false} AppendShaped(cfg: Limits, fs: seq<Field>, f: Field, room: int)
    requires ShapedItems(cfg, fs, room) && Shaped(cfg, f, room)
    ensures ShapedItems(cfg, fs + [f], room)
  {
    if fs != [] {
      AppendShaped(cfg, fs[1..], f, room);
      assert (fs + [f])[1..] == fs[1..] + [f];
    } else {
      assert (fs + [f])[1..] == [];
    }
  }

  lemma ScalarBounds(cfg: Limits, m: byte, s: bytes, room: int)
    ensures var r := ReadScalar(cfg, m, s);
            r.ok ==> Shaped(cfg, r.field.value, room) && Size(r.field.value) <= 1 + (|s| - |r.rest|)
  {
    WordSizes();
    TextBounds(cfg, s, 2);
    TextBounds(cfg, s, 4);
    if |s| >= 8 {
      BigEndianBound(s[..8]);
    }
  }

  predicate FieldBounded(cfg: Limits, r: ValueRead, n: int, room: int) {
    && (r.ok ==> r.field.Some? && Shaped(cfg, r.field.value, room))
    && (r.field.Some? ==> Shaped(cfg, r.field.value, room + 1) && Size(r.field.value) < n - |r.rest|)
  }

  /**
   Whatever the bytes and whatever the field held before: it stays within the limits on
   success, is at most one level past them on failure, and grows by less than it consumes.
   `room` is how many levels are allowed below the field.
   */
  lemma {:induction false} ValueBounds(cfg: Limits, s: bytes, depth: nat, cur: Field, room: nat)
    requires depth + room == cfg.maxDepth && Shaped(cfg, cur, room)
    ensures FieldBounded(cfg, ReadValue(cfg, s, depth, cur), Size(cur) + |s|, room)
    decreases |s|, 1
  {
    if s != [] {
      var m, t := s[0], s[1..];
      if m == OBJECT {
        PlainValueBounds(cfg, s, depth, cur, room);
      } else if m == TYPED_OBJECT {
        TypedValueBounds(cfg, s, depth, cur, room);
      } else if m == ECMA_ARRAY {
        EcmaValueBounds(cfg, s, depth, cur, room);
      } else if m == STRICT_ARRAY {
        ArrayValueBounds(cfg, s, depth, cur, room);
      } else {
        ScalarBounds(cfg, m, t, room);
        ScalarBounds(cfg, m, t, room + 1);
        assert ReadValue(cfg, s, depth, cur) == ReadScalar(cfg, m, t);
      }
    }
  }

  lemma {:induction false} PlainValueBounds(cfg: Limits, s: bytes, depth: nat, cur: Field, room: nat)
    requires depth + room == cfg.maxDepth && Shaped(cfg, cur, room) && s != [] && s[0] == OBJECT
    ensures FieldBounded(cfg, ReadValue(cfg, s, depth, cur), Size(cur) + |s|, room)
    decreases |s|, 0
  {
    ObjectBodyBounds(cfg, s[1..], depth, ObjectIn(cur), room);
  }

  lemma {:induction false} TypedValueBounds(cfg: Limits, s: bytes, depth: nat, cur: Field, room: nat)
    requires depth + room == cfg.maxDepth && Shaped(cfg, cur, room) && s != [] && s[0] == TYPED_OBJECT
    ensures FieldBounded(cfg, ReadValue(cfg, s, depth, cur), Size(cur) + |s|, room)
    decreases |s|, 0
  {
    var class_ := ReadText(cfg, s[1..], 2);
    if class_.ok {
      ObjectBodyBounds(cfg, class_.rest, depth, ObjectIn(cur), room);
    }
  }

  lemma {:induction false} EcmaValueBounds(cfg: Limits, s: bytes, depth: nat, cur: Field, room: nat)
    requires depth + room == cfg.maxDepth && Shaped(cfg, cur, room) && s != [] && s[0] == ECMA_ARRAY
    ensures FieldBounded(cfg, ReadValue(cfg, s, depth, cur), Size(cur) + |s|, room)
    decreases |s|, 0
  {
    EcmaArrayBodyBounds(cfg, s[1..], depth, ObjectIn(cur), room);
  }

  lemma {:induction false} ArrayValueBounds(cfg: Limits, s: bytes, depth: nat, cur: Field, room: nat)
    requires depth + room == cfg.maxDepth && Shaped(cfg, cur, room) && s != [] && s[0] == STRICT_ARRAY
    ensures FieldBounded(cfg, ReadValue(cfg, s, depth, cur), Size(cur) + |s|, room)
    decreases |s|, 0
  {
    ArrayBodyBounds(cfg, s[1..], depth, ArrayIn(cur), room);
  }

  /** Entries of one level make an object of the next. */
  lemma ShapedAround(cfg: Limits, r: ObjectRead, room: nat)
    requires room > 0 && Sorted(r.entries) && ShapedEntries(cfg, r.entries, room)
    requires r.ok ==> ShapedEntries(cfg, r.entries, room - 1)
    ensures Shaped(cfg, Object(r.entries), room + 1) && (r.ok ==> Shaped(cfg, Object(r.entries), room))
  {
  }

  /** What reading n bytes into an object of that size leaves, with `room` levels allowed below its field. */
  predicate MapBounded(cfg: Limits, r: ObjectRead, n: int, room: int) {
    && (r.ok ==> Shaped(cfg, Object(r.entries), room))
    && Shaped(cfg, Object(r.entries), room + 1)
    && EntriesSize(r.entries) <= n - |r.rest|
  }

  lemma {:induction false} PairsAround(cfg: Limits, s: bytes, depth: nat, es: seq<Entry>, left: Option<nat>, room: nat)
    requires depth + room == cfg.maxDepth && room > 0 && (es == [] || Shaped(cfg, Object(es), room))
    ensures MapBounded(cfg, ReadPairs(cfg, s, depth + 1, es, left), EntriesSize(es) + |s|, room)
    decreases |s|, 4
  {
    PairsBounds(cfg, s, depth + 1, es, left, room - 1);
    ShapedAround(cfg, ReadPairs(cfg, s, depth + 1, es, left), room);
  }

  /** The container bodies, entered at depth + 1, which may be one too deep. */
  lemma {:induction false} ObjectBodyBounds(cfg: Limits, s: bytes, depth: nat, es: seq<Entry>, room: nat)
    requires depth + room == cfg.maxDepth && (es == [] || Shaped(cfg, Object(es), room))
    ensures MapBounded(cfg, ReadObjectBody(cfg, s, depth + 1, es), EntriesSize(es) + |s|, room)
    decreases |s|, 5
  {
    if room > 0 {
      PairsAround(cfg, s, depth, es, None, room);
    } else {
      assert ReadObjectBody(cfg, s, depth + 1, es) == ObjectRead(false, [], s);
    }
  }

  lemma {:induction false} EcmaArrayBodyBounds(cfg: Limits, s: bytes, depth: nat, es: seq<Entry>, room: nat)
    requires depth + room == cfg.maxDepth && (es == [] || Shaped(cfg, Object(es), room))
    ensures MapBounded(cfg, ReadEcmaArrayBody(cfg, s, depth + 1, es), EntriesSize(es) + |s|, room)
    decreases |s|, 5
  {
    if room > 0 && |s| >= 4 && Fits(FromBigEndian(s[..4]), cfg.maxArray) {
      PairsAround(cfg, s[4..], depth, es, Some(FromBigEndian(s[..4])), room);
    } else {
      var r := ReadEcmaArrayBody(cfg, s, depth + 1, es);
      assert !r.ok && r.entries == es;
      if es != [] {
        ShapedMore(cfg, Object(es), room);
      }
    }
  }

  lemma {:induction false} ArrayBodyBounds(cfg: Limits, s: bytes, depth: nat, fs: seq<Field>, room: nat)
    requires depth + room == cfg.maxDepth && (fs == [] || Shaped(cfg, Array(fs), room))
    ensures var r := ReadArrayBody(cfg, s, depth + 1, fs);
            && (r.ok ==> Shaped(cfg, Array(r.items), room))
            && Shaped(cfg, Array(r.items), room + 1)
            && ItemsSize(r.items) <= ItemsSize(fs) + (|s| - |r.rest|)
    decreases |s|, 4
  {
    if fs != [] {
      ShapedMore(cfg, Array(fs), room);
    }
    if room > 0 && |s| >= 4 {
      ItemsBounds(cfg, s[4..], depth + 1, fs, FromBigEndian(s[..4]), room - 1);
    }
  }

  lemma {:induction false} PairsBounds(cfg: Limits, s: bytes, depth: nat, es: seq<Entry>, left: Option<nat>, room: nat)
    requires depth + room == cfg.maxDepth && Sorted(es) && ShapedEntries(cfg, es, room)
    ensures var r := ReadPairs(cfg, s, depth, es, left);
            && Sorted(r.entries)
            && (r.ok ==> ShapedEntries(cfg, r.entries, room))
            && ShapedEntries(cfg, r.entries, room + 1)
            && EntriesSize(r.entries) <= EntriesSize(es) + (|s| - |r.rest|)
    decreases |s|, 2
  {
    var r, name := ReadPairs(cfg, s, depth, es, left), ReadText(cfg, s, 2);
    if left == Some(0) || !name.ok || (left.None? && name.text == []) {
      assert r.entries == es;
      MoreEntries(cfg, es, room);
    } else {
      TextBounds(cfg, s, 2);
      PairBounds(cfg, name.text, name.rest, depth, es, room);
      var v := ReadValue(cfg, name.rest, depth, Current(es, name.text));
      var es' := Store(es, name.text, v.field);
      if v.ok {
        PairsBounds(cfg, v.rest, depth, es', Fewer(left), room);
        assert r == ReadPairs(cfg, v.rest, depth, es', Fewer(left));
      } else {
        assert r == ObjectRead(false, es', v.rest);
      }
    }
  }

  /** One pair: the name, once new, and the value are paid for by the bytes read. */
  lemma {:induction false} PairBounds(cfg: Limits, name: bytes, s: bytes, depth: nat, es: seq<Entry>, room: nat)
    requires depth + room == cfg.maxDepth && Sorted(es) && ShapedEntries(cfg, es, room)
    requires |name| < Pow256(2) && Fits(|name|, cfg.maxString)
    ensures var v := ReadValue(cfg, s, depth, Current(es, name));
            var es' := Store(es, name, v.field);
            && Sorted(es')
            && (v.ok ==> ShapedEntries(cfg, es', room))
            && ShapedEntries(cfg, es', room + 1)
            && EntriesSize(es') <= EntriesSize(es) + |name| + (|s| - |v.rest|)
    decreases |s|, 2
  {
    WordSizes();
    CurrentShaped(cfg, es, name, room);
    ValueBounds(cfg, s, depth, Current(es, name), room);
    MoreEntries(cfg, es, room);
    var v := ReadValue(cfg, s, depth, Current(es, name));
    if v.field.Some? {
      PutSize(es, name, v.field.value);
      PutSorted(es, name, v.field.value);
      PutShaped(cfg, es, name, v.field.value, room + 1);
      if v.ok {
        PutShaped(cfg, es, name, v.field.value, room);
      }
    }
  }

  lemma {:induction false} ItemsBounds(cfg: Limits, s: bytes, depth: nat, fs: seq<Field>, left: nat, room: nat)
    requires depth + room == cfg.maxDepth && ShapedItems(cfg, fs, room)
    ensures var r := ReadItems(cfg, s, depth, fs, left);
            && (r.ok ==> ShapedItems(cfg, r.items, room))
            && ShapedItems(cfg, r.items, room + 1)
            && ItemsSize(r.items) <= ItemsSize(fs) + (|s| - |r.rest|)
    decreases |s|, 2
  {
    MoreItems(cfg, fs, room);
    if left > 0 {
      ValueBounds(cfg, s, depth, Undefined, room);
      var r, v := ReadItems(cfg, s, depth, fs, left), ReadValue(cfg, s, depth, Undefined);
      var fs' := Append(fs, v.field);
      if v.field.Some? {
        ItemsSizeAppend(fs, v.field.value);
        AppendShaped(cfg, fs, v.field.value, room + 1);
      }
      if v.ok {
        AppendShaped(cfg, fs, v.field.value, room);
        ItemsBounds(cfg, v.rest, depth, fs', left - 1, room);
        assert r == ReadItems(cfg, v.rest, depth, fs', left - 1);
      } else {
        assert r == ArrayRead(false, fs', v.rest);
      }
    }
  }

  /** What reading n bytes into an empty object leaves. */
  predicate Bounded(cfg: Limits, r: ObjectRead, n: nat) {
    && Sorted(r.entries)
    && (r.ok ==> ShapedEntries(cfg, r.entries, cfg.maxDepth))
    && ShapedEntries(cfg, r.entries, cfg.maxDepth + 1)
    && EntriesSize(r.entries) <= n - |r.rest|
  }

  lemma TopPairsBounds(cfg: Limits, s: bytes, left: Option<nat>)
    requires cfg.maxDepth >= 0
    ensures Bounded(cfg, ReadPairs(cfg, s, 0, [], left), |s|)
  {
    PairsBounds(cfg, s, 0, [], left, cfg.maxDepth);
  }

  /**
   ReadAMFObject on arbitrary bytes, into an empty object: on success it is within the
   limits; success or not, nodes plus key bytes plus string bytes are at most the bytes read.
   */
  lemma ObjectReadBounds(cfg: Limits, s: bytes)
    ensures Bounded(cfg, ReadObject(cfg, s, []), |s|)
  {
    var r := ReadObject(cfg, s, []);
    if s == [] || cfg.maxDepth < 0 {
      assert r.entries == [];
    } else if s[0] == OBJECT {
      TopPairsBounds(cfg, s[1..], None);
      assert r == ReadPairs(cfg, s[1..], 0, [], None);
    } else if s[0] == ECMA_ARRAY && |s| >= 5 && Fits(FromBigEndian(s[1..][..4]), cfg.maxArray) {
      var n := Some(FromBigEndian(s[1..][..4]));
      TopPairsBounds(cfg, s[1..][4..], n);
      assert r == ReadPairs(cfg, s[1..][4..], 0, [], n);
    } else {
      assert r.entries == [];
    }
  }

  lemma ArrayReadBounds(cfg: Limits, s: bytes)
    ensures var r := ReadArray(cfg, s, []);
            && (r.ok ==> ShapedItems(cfg, r.items, cfg.maxDepth))
            && ShapedItems(cfg, r.items, cfg.maxDepth + 1)
            && ItemsSize(r.items) <= |s| - |r.rest|
  {
    if s != [] && cfg.maxDepth >= 0 && s[0] == STRICT_ARRAY && |s| >= 5 {
      ItemsBounds(cfg, s[1..][4..], 0, [], FromBigEndian(s[1..][..4]), cfg.maxDepth);
    }
  }
}
