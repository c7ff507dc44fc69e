/** Reading back what was written, followed by any bytes at all. */
module AmfRoundTrip {
  import opened Bytes
  import opened AmfValue
  import opened AmfReader
  import opened AmfWriter
  import opened AmfBounds

  /**
   What every tree built through the AMFField interface is: maps in order, 64-bit numbers,
   and sizes that fit the uint32_t they are kept in.
   */
  predicate WellFormed(f: Field) {
    match f
    case Number(bits) => bits < 0x1_0000_0000_0000_0000
    case Text(s) => |s| < 0x1_0000_0000
    case Object(es) => Sorted(es) && WellFormedEntries(es)
    case Array(fs) => |fs| < 0x1_0000_0000 && WellFormedItems(fs)
    case _ => true
  }

  /** A string that AMFField can hold and no writer can write: its length is one past what an int holds. */
  lemma OverlongText(s: bytes)
    requires |s| == INT_LIMIT
    ensures WellFormed(Text(s)) && !Encodable(Text(s)) && !IntSized(Text(s))
  {
  }

  predicate WellFormedEntries(es: seq<Entry>) {
    es == [] || (WellFormed(es[0].value) && WellFormedEntries(es[1..]))
  }

  predicate WellFormedItems(fs: seq<Field>) {
    fs == [] || (WellFormed(fs[0]) && WellFormedItems(fs[1..]))
  }

  /** The configured limits, for a value with `room` more levels of nesting below it. */
  predicate Within(cfg: Limits, f: Field, room: int) {
    match f
    case Text(s) => Fits(|s|, cfg.maxString)
    case Object(es) => room >= 1 && cfg.maxString >= 0 && EntriesWithin(cfg, es, room - 1)
    case Array(fs) => room >= 1 && Fits(|fs|, cfg.maxArray) && ItemsWithin(cfg, fs, room - 1)
    case _ => true
  }

  predicate EntriesWithin(cfg: Limits, es: seq<Entry>, room: int) {
    es == [] ||
    (es[0].name != [] && Fits(|es[0].name|, cfg.maxString) && Within(cfg, es[0].value, room) &&
     EntriesWithin(cfg, es[1..], room))
  }

  predicate ItemsWithin(cfg: Limits, fs: seq<Field>, room: int) {
    fs == [] || (Within(cfg, fs[0], room) && ItemsWithin(cfg, fs[1..], room))
  }

  lemma TextBack(cfg: Limits, s: bytes, k: nat, tail: bytes)
    requires |s| < Pow256(k) && Fits(|s|, cfg.maxString)
    ensures ReadText(cfg, ToBigEndian(|s|, k) + (s + tail), k) == TextRead(true, s, tail)
  {
    var len := ToBigEndian(|s|, k);
    var all := len + (s + tail);
    BigEndianRoundTrip(|s|, k);
    assert all[..k] == len && all[k..] == s + tail;
  }

  lemma ScalarBack(cfg: Limits, f: Field, depth: nat, tail: bytes, room: int)
    requires !f.Object? && !f.Array?
    requires depth <= cfg.maxDepth && WellFormed(f) && Within(cfg, f, room)
    ensures ReadValue(cfg, Encode(f) + tail, depth, Undefined) == ValueRead(true, Some(f), tail)
  {
    var m, body := Encode(f)[0], Encode(f)[1..];
    assert Encode(f) == [m] + body;
    Assoc([m], body, tail);
    Unmark(cfg, m, body + tail, depth, Undefined);
    WordSizes();
    if f.Number? {
      BigEndianRoundTrip(f.bits, 8);
      assert (body + tail)[..8] == ToBigEndian(f.bits, 8) && (body + tail)[8..] == tail;
    } else if f.Text? {
      var k := if |f.text| < 65536 then 2 else 4;
      Assoc(ToBigEndian(|f.text|, k), f.text, tail);
      TextBack(cfg, f.text, k, tail);
    } else if f.Boolean? {
      assert (body + tail)[1..] == tail;
    } else {
      assert body + tail == tail;
    }
  }

  lemma {:induction false} ValueBack(cfg: Limits, f: Field, depth: nat, tail: bytes, room: nat)
    requires depth + room == cfg.maxDepth && WellFormed(f) && Encodable(f) && Within(cfg, f, room)
    ensures ReadValue(cfg, Encode(f) + tail, depth, Undefined) == ValueRead(true, Some(f), tail)
    decreases f, 3
  {
    match f
    case Object(es) =>
      ObjectBack(cfg, es, depth + 1, tail, room - 1);
      ObjectFieldBack(cfg, es, depth, tail);
    case Array(fs) =>
      ArrayBack(cfg, fs, depth + 1, tail, room - 1);
      ArrayFieldBack(cfg, fs, depth, tail);
    case _ => ScalarBack(cfg, f, depth, tail, room);
  }

  /** The field of an object or array whose body was read back. */
  lemma ObjectFieldBack(cfg: Limits, es: seq<Entry>, depth: nat, tail: bytes)
    requires depth <= cfg.maxDepth
    requires ReadObjectBody(cfg, EncodeEntries(es) + (End() + tail), depth + 1, []) == ObjectRead(true, es, tail)
    ensures ReadValue(cfg, Encode(Object(es)) + tail, depth, Undefined) == ValueRead(true, Some(Object(es)), tail)
  {
    ObjectImage(es, tail);
    Unmark(cfg, OBJECT, EncodeEntries(es) + (End() + tail), depth, Undefined);
  }

  lemma ArrayFieldBack(cfg: Limits, fs: seq<Field>, depth: nat, tail: bytes)
    requires depth <= cfg.maxDepth
    requires ReadArrayBody(cfg, ToBigEndian(|fs|, 4) + (EncodeItems(fs) + tail), depth + 1, [])
          == ArrayRead(true, fs, tail)
    ensures ReadValue(cfg, Encode(Array(fs)) + tail, depth, Undefined) == ValueRead(true, Some(Array(fs)), tail)
  {
    ArrayImage(fs, tail);
    Unmark(cfg, STRICT_ARRAY, ToBigEndian(|fs|, 4) + (EncodeItems(fs) + tail), depth, Undefined);
  }

  lemma {:induction false} ObjectBack(cfg: Limits, es: seq<Entry>, depth: nat, tail: bytes, room: nat)
    requires depth + room == cfg.maxDepth && cfg.maxString >= 0 && EncodableEntries(es)
    requires Sorted(es) && WellFormedEntries(es) && EntriesWithin(cfg, es, room)
    ensures ReadObjectBody(cfg, EncodeEntries(es) + (End() + tail), depth, []) == ObjectRead(true, es, tail)
    decreases es, 2
  {
    assert [] + es == es;
    PairsBack(cfg, [], es, depth, tail, room);
  }

  lemma ObjectImage(es: seq<Entry>, tail: bytes)
    ensures Encode(Object(es)) + tail == [OBJECT] + (EncodeEntries(es) + (End() + tail))
  {
    Assoc([OBJECT], EncodeEntries(es) + End(), tail);
    Assoc(EncodeEntries(es), End(), tail);
  }

  lemma ArrayImage(fs: seq<Field>, tail: bytes)
    ensures Encode(Array(fs)) + tail == [STRICT_ARRAY] + (ToBigEndian(|fs|, 4) + (EncodeItems(fs) + tail))
  {
    Assoc([STRICT_ARRAY], ToBigEndian(|fs|, 4) + EncodeItems(fs), tail);
    Assoc(ToBigEndian(|fs|, 4), EncodeItems(fs), tail);
  }

  lemma {:induction false} PairsBack(cfg: Limits, done: seq<Entry>, es: seq<Entry>, depth: nat, tail: bytes, room: nat)
    requires depth + room == cfg.maxDepth && cfg.maxString >= 0 && EncodableEntries(es)
    requires Sorted(done + es) && WellFormedEntries(es) && EntriesWithin(cfg, es, room)
    ensures ReadPairs(cfg, EncodeEntries(es) + (End() + tail), depth, done, None) == ObjectRead(true, done + es, tail)
    decreases es, 1
  {
    if es == [] {
      EndBack(cfg, done, depth, tail);
      assert EncodeEntries(es) + (End() + tail) == End() + tail;
      assert done + es == done;
    } else {
      var e, rest := es[0], EncodeEntries(es[1..]) + (End() + tail);
      ValueBack(cfg, e.value, depth, rest, room);
      Assoc(EncodeName(e.name), Encode(e.value) + EncodeEntries(es[1..]), End() + tail);
      Assoc(Encode(e.value), EncodeEntries(es[1..]), End() + tail);
      assert done + [e] + es[1..] == done + es;
      SortedPrefix(done + [e], es[1..]);
      PairBack(cfg, done, e, depth, rest);
      PairsBack(cfg, done + [e], es[1..], depth, tail, room);
    }
  }

  /** The end marker begins with an empty name. */
  lemma EndText(cfg: Limits, tail: bytes)
    requires cfg.maxString >= 0
    ensures ReadText(cfg, End() + tail, 2) == TextRead(true, [], [OBJECT_END] + tail)
  {
    EndSplit(tail);
    BigEndianRoundTrip(0, 2);
    var t := [OBJECT_END] + tail;
    assert t[..0] == [] && t[0..] == t;
  }

  lemma EndSplit(tail: bytes)
    ensures (End() + tail)[..2] == ToBigEndian(0, 2) && (End() + tail)[2..] == [OBJECT_END] + tail
  {
    Assoc(ToBigEndian(0, 2), [OBJECT_END], tail);
  }

  lemma EndBack(cfg: Limits, done: seq<Entry>, depth: nat, tail: bytes)
    requires cfg.maxString >= 0
    ensures ReadPairs(cfg, End() + tail, depth, done, None) == ObjectRead(true, done, tail)
  {
    EndText(cfg, tail);
    assert ([OBJECT_END] + tail)[1..] == tail;
  }

  /** A pair that reads back is one turn of the loop. */
  lemma PairBack(cfg: Limits, done: seq<Entry>, e: Entry, depth: nat, rest: bytes)
    requires e.name != [] && |e.name| < 65536 && Fits(|e.name|, cfg.maxString)
    requires Sorted(done + [e])
    requires ReadValue(cfg, Encode(e.value) + rest, depth, Undefined) == ValueRead(true, Some(e.value), rest)
    ensures ReadPairs(cfg, EncodeName(e.name) + (Encode(e.value) + rest), depth, done, None)
         == ReadPairs(cfg, rest, depth, done + [e], None)
  {
    WordSizes();
    TextBack(cfg, e.name, 2, Encode(e.value) + rest);
    Assoc(ToBigEndian(|e.name|, 2), e.name, Encode(e.value) + rest);
    PutLast(done, e);
  }

  lemma {:induction false} ArrayBack(cfg: Limits, fs: seq<Field>, depth: nat, tail: bytes, room: nat)
    requires depth + room == cfg.maxDepth && EncodableItems(fs)
    requires Fits(|fs|, cfg.maxArray) && WellFormedItems(fs) && ItemsWithin(cfg, fs, room)
    ensures ReadArrayBody(cfg, ToBigEndian(|fs|, 4) + (EncodeItems(fs) + tail), depth, []) == ArrayRead(true, fs, tail)
    decreases fs, 1
  {
    WordSizes();
    BigEndianRoundTrip(|fs|, 4);
    var s := ToBigEndian(|fs|, 4) + (EncodeItems(fs) + tail);
    assert s[..4] == ToBigEndian(|fs|, 4) && s[4..] == EncodeItems(fs) + tail;
    ItemsBack(cfg, [], fs, depth, tail, room);
  }

  lemma {:induction false} ItemsBack(cfg: Limits, done: seq<Field>, fs: seq<Field>, depth: nat, tail: bytes, room: nat)
    requires depth + room == cfg.maxDepth && EncodableItems(fs)
    requires WellFormedItems(fs) && ItemsWithin(cfg, fs, room)
    ensures ReadItems(cfg, EncodeItems(fs) + tail, depth, done, |fs|) == ArrayRead(true, done + fs, tail)
    decreases fs, 0
  {
    if fs == [] {
      assert EncodeItems(fs) + tail == tail && done + fs == done;
    } else {
      var rest := EncodeItems(fs[1..]) + tail;
      ValueBack(cfg, fs[0], depth, rest, room);
      Assoc(Encode(fs[0]), EncodeItems(fs[1..]), tail);
      assert done + [fs[0]] + fs[1..] == done + fs;
      ItemsBack(cfg, done + [fs[0]], fs[1..], depth, tail, room);
    }
  }

  /**
   The round trip of WriteAMFObject and ReadAMFObject: whatever bytes follow, an object
   within the limits is read back as it was, and exactly those bytes are left.
   */
  lemma ObjectRoundTrip(cfg: Limits, es: seq<Entry>, tail: bytes)
    requires WellFormed(Object(es)) && EncodableEntries(es)
    requires cfg.maxDepth >= 0 && cfg.maxString >= 0 && EntriesWithin(cfg, es, cfg.maxDepth)
    ensures ReadObject(cfg, Encode(Object(es)) + tail, []) == ObjectRead(true, es, tail)
  {
    ObjectImage(es, tail);
    var body := EncodeEntries(es) + (End() + tail);
    assert ([OBJECT] + body)[1..] == body;
    ObjectBack(cfg, es, 0, tail, cfg.maxDepth);
  }

  /** The same for WriteAMFArray and ReadAMFArray. */
  lemma ArrayRoundTrip(cfg: Limits, fs: seq<Field>, tail: bytes)
    requires WellFormedItems(fs) && EncodableItems(fs)
    requires cfg.maxDepth >= 0 && Fits(|fs|, cfg.maxArray) && ItemsWithin(cfg, fs, cfg.maxDepth)
    ensures ReadArray(cfg, Encode(Array(fs)) + tail, []) == ArrayRead(true, fs, tail)
  {
    ArrayImage(fs, tail);
    var body := ToBigEndian(|fs|, 4) + (EncodeItems(fs) + tail);
    assert ([STRICT_ARRAY] + body)[1..] == body;
    ArrayBack(cfg, fs, 0, tail, cfg.maxDepth);
  }

  // The converse: outside the limits no object comes back.

  /** Every name in the tree is one the reader would accept. */
  predicate NamesFit(cfg: Limits, f: Field) {
    match f
    case Object(es) => EntryNamesFit(cfg, es)
    case Array(fs) => ItemNamesFit(cfg, fs)
    case _ => true
  }

  predicate EntryNamesFit(cfg: Limits, es: seq<Entry>) {
    es == [] || (Fits(|es[0].name|, cfg.maxString) && NamesFit(cfg, es[0].value) && EntryNamesFit(cfg, es[1..]))
  }

  predicate ItemNamesFit(cfg: Limits, fs: seq<Field>) {
    fs == [] || (NamesFit(cfg, fs[0]) && ItemNamesFit(cfg, fs[1..]))
  }

  lemma {:induction false} ShapedNames(cfg: Limits, f: Field, room: int)
    requires Shaped(cfg, f, room)
    ensures NamesFit(cfg, f)
  {
    match f
    case Object(es) => ShapedEntryNames(cfg, es, room - 1);
    case Array(fs) => ShapedItemNames(cfg, fs, room - 1);
    case _ =>
  }

  lemma {:induction false} ShapedEntryNames(cfg: Limits, es: seq<Entry>, room: int)
    requires ShapedEntries(cfg, es, room)
    ensures EntryNamesFit(cfg, es)
  {
    if es != [] {
      ShapedNames(cfg, es[0].value, room);
      ShapedEntryNames(cfg, es[1..], room);
    }
  }

  lemma {:induction false} ShapedItemNames(cfg: Limits, fs: seq<Field>, room: int)
    requires ShapedItems(cfg, fs, room)
    ensures ItemNamesFit(cfg, fs)
  {
    if fs != [] {
      ShapedNames(cfg, fs[0], room);
      ShapedItemNames(cfg, fs[1..], room);
    }
  }

  /** If only the names are all right, something else makes the read fail. */
  lemma {:induction false} ValueRefused(cfg: Limits, f: Field, depth: nat, tail: bytes, room: nat)
    requires depth + room == cfg.maxDepth && cfg.maxString >= 0
    requires WellFormed(f) && Encodable(f) && NamesFit(cfg, f) && !Within(cfg, f, room)
    ensures !ReadValue(cfg, Encode(f) + tail, depth, Undefined).ok
    decreases f, 3
  {
    match f
    case Object(es) =>
      ObjectImage(es, tail);
      ObjectRefused(cfg, es, depth + 1, tail, room - 1);
      Unmark(cfg, OBJECT, EncodeEntries(es) + (End() + tail), depth, Undefined);
    case Array(fs) =>
      ArrayImage(fs, tail);
      ArrayRefused(cfg, fs, depth + 1, tail, room - 1);
      Unmark(cfg, STRICT_ARRAY, ToBigEndian(|fs|, 4) + (EncodeItems(fs) + tail), depth, Undefined);
    case Text(s) => TextRefused(cfg, s, depth, tail);
  }

  lemma {:induction false} ObjectRefused(cfg: Limits, es: seq<Entry>, depth: nat, tail: bytes, room: int)
    requires depth + room == cfg.maxDepth && cfg.maxString >= 0 && EncodableEntries(es)
    requires Sorted(es) && WellFormedEntries(es) && EntryNamesFit(cfg, es)
    requires room < 0 || !EntriesWithin(cfg, es, room)
    ensures !ReadObjectBody(cfg, EncodeEntries(es) + (End() + tail), depth, []).ok
    decreases es, 2
  {
    if room >= 0 {
      assert [] + es == es;
      PairsRefused(cfg, [], es, depth, tail, room);
    }
  }

  lemma TextRefused(cfg: Limits, s: bytes, depth: nat, tail: bytes)
    requires depth <= cfg.maxDepth && !Fits(|s|, cfg.maxString) && |s| < 0x1_0000_0000
    ensures !ReadValue(cfg, Encode(Text(s)) + tail, depth, Undefined).ok
  {
    WordSizes();
    var k := if |s| < 65536 then 2 else 4;
    var m: byte, len := if |s| < 65536 then STRING else LONG_STRING, ToBigEndian(|s|, k);
    BigEndianRoundTrip(|s|, k);
    Assoc([m], len + s, tail);
    Assoc(len, s, tail);
    Unmark(cfg, m, len + (s + tail), depth, Undefined);
    assert (len + (s + tail))[..k] == len;
  }

  lemma {:induction false} PairsRefused(cfg: Limits, done: seq<Entry>, es: seq<Entry>, depth: nat, tail: bytes,
                                        room: nat)
    requires depth + room == cfg.maxDepth && cfg.maxString >= 0 && EncodableEntries(es)
    requires Sorted(done + es) && WellFormedEntries(es) && EntryNamesFit(cfg, es) && !EntriesWithin(cfg, es, room)
    ensures !ReadPairs(cfg, EncodeEntries(es) + (End() + tail), depth, done, None).ok
    decreases es, 1
  {
    var e, rest := es[0], EncodeEntries(es[1..]) + (End() + tail);
    Assoc(EncodeName(e.name), Encode(e.value) + EncodeEntries(es[1..]), End() + tail);
    Assoc(Encode(e.value), EncodeEntries(es[1..]), End() + tail);
    assert done + [e] + es[1..] == done + es;
    SortedPrefix(done + [e], es[1..]);
    if e.name == [] || !Within(cfg, e.value, room) {
      if e.name != [] {
        ValueRefused(cfg, e.value, depth, rest, room);
      }
      PairRefused(cfg, done, e, depth, rest);
    } else {
      ValueBack(cfg, e.value, depth, rest, room);
      PairBack(cfg, done, e, depth, rest);
      PairsRefused(cfg, done + [e], es[1..], depth, tail, room);
    }
  }

  lemma PairRefused(cfg: Limits, done: seq<Entry>, e: Entry, depth: nat, rest: bytes)
    requires |e.name| < 65536 && Fits(|e.name|, cfg.maxString) && Sorted(done + [e])
    requires e.name == [] || !ReadValue(cfg, Encode(e.value) + rest, depth, Undefined).ok
    ensures !ReadPairs(cfg, EncodeName(e.name) + (Encode(e.value) + rest), depth, done, None).ok
  {
    WordSizes();
    TextBack(cfg, e.name, 2, Encode(e.value) + rest);
    Assoc(ToBigEndian(|e.name|, 2), e.name, Encode(e.value) + rest);
    PutLast(done, e);
  }

  lemma {:induction false} ArrayRefused(cfg: Limits, fs: seq<Field>, depth: nat, tail: bytes, room: int)
    requires depth + room == cfg.maxDepth && cfg.maxString >= 0 && EncodableItems(fs)
    requires |fs| < 0x1_0000_0000 && WellFormedItems(fs) && ItemNamesFit(cfg, fs)
    requires room < 0 || !(Fits(|fs|, cfg.maxArray) && ItemsWithin(cfg, fs, room))
    ensures !ReadArrayBody(cfg, ToBigEndian(|fs|, 4) + (EncodeItems(fs) + tail), depth, []).ok
    decreases fs, 1
  {
    WordSizes();
    BigEndianRoundTrip(|fs|, 4);
    var s := ToBigEndian(|fs|, 4) + (EncodeItems(fs) + tail);
    assert s[..4] == ToBigEndian(|fs|, 4) && s[4..] == EncodeItems(fs) + tail;
    if room >= 0 && Fits(|fs|, cfg.maxArray) {
      ItemsRefused(cfg, [], fs, depth, tail, room);
    }
  }

  lemma {:induction false} ItemsRefused(cfg: Limits, done: seq<Field>, fs: seq<Field>, depth: nat, tail: bytes,
                                        room: nat)
    requires depth + room == cfg.maxDepth && cfg.maxString >= 0 && EncodableItems(fs)
    requires WellFormedItems(fs) && ItemNamesFit(cfg, fs) && !ItemsWithin(cfg, fs, room)
    ensures !ReadItems(cfg, EncodeItems(fs) + tail, depth, done, |fs|).ok
    decreases fs, 0
  {
    var rest := EncodeItems(fs[1..]) + tail;
    Assoc(Encode(fs[0]), EncodeItems(fs[1..]), tail);
    if Within(cfg, fs[0], room) {
      ValueBack(cfg, fs[0], depth, rest, room);
      ItemsRefused(cfg, done + [fs[0]], fs[1..], depth, tail, room);
    } else {
      ValueRefused(cfg, fs[0], depth, rest, room);
    }
  }

  /** The limits are exactly what the round trip of an object needs. */
  lemma ObjectRoundTripExactly(cfg: Limits, es: seq<Entry>, tail: bytes)
    requires WellFormed(Object(es)) && EncodableEntries(es)
    ensures ReadObject(cfg, Encode(Object(es)) + tail, []) == ObjectRead(true, es, tail) <==>
            cfg.maxDepth >= 0 && cfg.maxString >= 0 && EntriesWithin(cfg, es, cfg.maxDepth)
  {
    ObjectImage(es, tail);
    var body := EncodeEntries(es) + (End() + tail);
    assert ([OBJECT] + body)[1..] == body;
    ObjectReadBounds(cfg, [OBJECT] + body);
    if cfg.maxDepth < 0 || cfg.maxString < 0 {
      if cfg.maxDepth >= 0 {
        assert !ReadText(cfg, body, 2).ok && |body| >= 3 + |tail|;
        assert ReadObjectBody(cfg, body, 0, []) == ReadPairs(cfg, body, 0, [], None) == ObjectRead(true, [], body[2..]);
      }
    } else {
      if EntriesWithin(cfg, es, cfg.maxDepth) {
        ObjectRoundTrip(cfg, es, tail);
      } else if EntryNamesFit(cfg, es) {
        assert [] + es == es;
        PairsRefused(cfg, [], es, 0, tail, cfg.maxDepth);
      } else {
        var r := ReadObject(cfg, [OBJECT] + body, []);
        if r.ok {
          ShapedEntryNames(cfg, r.entries, cfg.maxDepth);
        }
      }
    }
  }

  // With a negative string limit no name is read, so an object ends before its end marker.

  /** Bytes left over that begin with an end marker nobody took. */
  predicate Leftover(rest: bytes, tail: bytes) {
    |rest| > |tail| && rest[0] == OBJECT_END
  }

  lemma {:induction false} ItemsKeep(cfg: Limits, s: bytes, depth: nat, fs: seq<Field>, left: nat)
    ensures fs <= ReadItems(cfg, s, depth, fs, left).items
    decreases |s|
  {
    if left > 0 {
      var v := ReadValue(cfg, s, depth, Undefined);
      if v.ok {
        ItemsKeep(cfg, v.rest, depth, Append(fs, v.field), left - 1);
      }
    }
  }

  lemma NamelessObject(cfg: Limits, es: seq<Entry>, depth: nat, tail: bytes)
    requires depth <= cfg.maxDepth && cfg.maxString < 0
    ensures var r := ReadValue(cfg, Encode(Object(es)) + tail, depth, Undefined);
            r.ok ==> r.field == Some(Object([])) && (es == [] ==> Leftover(r.rest, tail))
  {
    var body := EncodeEntries(es) + (End() + tail);
    ObjectImage(es, tail);
    Unmark(cfg, OBJECT, body, depth, Undefined);
    if depth < cfg.maxDepth {
      assert !ReadText(cfg, body, 2).ok;
      assert ReadObjectBody(cfg, body, depth + 1, []) == ObjectRead(true, [], body[2..]);
      if es == [] {
        assert body == ToBigEndian(0, 2) + ([OBJECT_END] + tail);
        assert body[2..] == [OBJECT_END] + tail;
      }
    }
  }

  /** A value read back equal was within the limits and left the tail, or an end marker is in the way. */
  lemma {:induction false} NamelessValue(cfg: Limits, f: Field, depth: nat, tail: bytes, room: nat)
    requires depth + room == cfg.maxDepth && cfg.maxString < 0 && WellFormed(f) && Encodable(f)
    ensures var r := ReadValue(cfg, Encode(f) + tail, depth, Undefined);
            r.ok && r.field == Some(f) ==> (r.rest == tail && Within(cfg, f, room)) || Leftover(r.rest, tail)
    decreases f, 3
  {
    match f
    case Object(es) => NamelessObject(cfg, es, depth, tail);
    case Array(fs) =>
      ArrayImage(fs, tail);
      Unmark(cfg, STRICT_ARRAY, ToBigEndian(|fs|, 4) + (EncodeItems(fs) + tail), depth, Undefined);
      if room >= 1 {
        NamelessArray(cfg, fs, depth + 1, tail, room - 1);
      }
    case Text(s) => TextRefused(cfg, s, depth, tail);
    case _ => ScalarBack(cfg, f, depth, tail, room);
  }

  lemma {:induction false} NamelessArray(cfg: Limits, fs: seq<Field>, depth: nat, tail: bytes, room: nat)
    requires depth + room == cfg.maxDepth && cfg.maxString < 0 && EncodableItems(fs)
    requires |fs| < 0x1_0000_0000 && WellFormedItems(fs)
    ensures var r := ReadArrayBody(cfg, ToBigEndian(|fs|, 4) + (EncodeItems(fs) + tail), depth, []);
            r.ok && r.items == fs ==>
              (r.rest == tail && Fits(|fs|, cfg.maxArray) && ItemsWithin(cfg, fs, room)) || Leftover(r.rest, tail)
    decreases fs, 1
  {
    WordSizes();
    BigEndianRoundTrip(|fs|, 4);
    var s := ToBigEndian(|fs|, 4) + (EncodeItems(fs) + tail);
    assert s[..4] == ToBigEndian(|fs|, 4) && s[4..] == EncodeItems(fs) + tail;
    assert [] + fs == fs;
    NamelessItems(cfg, [], fs, depth, tail, room);
  }

  /** Items read as `all`, of which fs were to come: they were within the limits, or an end marker is in the way. */
  predicate BackOrStuck(cfg: Limits, r: ArrayRead, all: seq<Field>, fs: seq<Field>, tail: bytes, room: int) {
    r.ok && r.items == all ==> (r.rest == tail && ItemsWithin(cfg, fs, room)) || Leftover(r.rest, tail)
  }

  lemma {:induction false} NamelessItems(cfg: Limits, done: seq<Field>, fs: seq<Field>, depth: nat, tail: bytes,
                                         room: nat)
    requires depth + room == cfg.maxDepth && cfg.maxString < 0 && EncodableItems(fs) && WellFormedItems(fs)
    ensures BackOrStuck(cfg, ReadItems(cfg, EncodeItems(fs) + tail, depth, done, |fs|), done + fs, fs, tail, room)
    decreases fs, 0
  {
    if fs == [] {
      assert EncodeItems(fs) + tail == tail;
    } else {
      Assoc(Encode(fs[0]), EncodeItems(fs[1..]), tail);
      NamelessValue(cfg, fs[0], depth, EncodeItems(fs[1..]) + tail, room);
      NamelessItems(cfg, done + [fs[0]], fs[1..], depth, tail, room);
      NamelessFirst(cfg, done, fs, depth, EncodeItems(fs) + tail, tail, room);
    }
  }

  lemma NamelessFirst(cfg: Limits, done: seq<Field>, fs: seq<Field>, depth: nat, s: bytes, tail: bytes, room: int)
    requires fs != []
    requires var v, more := ReadValue(cfg, s, depth, Undefined), EncodeItems(fs[1..]) + tail;
             v.ok && v.field == Some(fs[0]) ==> (v.rest == more && Within(cfg, fs[0], room)) || Leftover(v.rest, more)
    requires BackOrStuck(cfg, ReadItems(cfg, EncodeItems(fs[1..]) + tail, depth, done + [fs[0]], |fs| - 1),
                         done + [fs[0]] + fs[1..], fs[1..], tail, room)
    ensures BackOrStuck(cfg, ReadItems(cfg, s, depth, done, |fs|), done + fs, fs, tail, room)
  {
    var r, v := ReadItems(cfg, s, depth, done, |fs|), ReadValue(cfg, s, depth, Undefined);
    if r.ok && r.items == done + fs {
      FirstItem(cfg, s, done, fs, depth);
      if v.rest == EncodeItems(fs[1..]) + tail {
        BackWithFirst(cfg, r, done, fs, tail, room);
      } else {
        EndInTheWay(cfg, v.rest, depth, done + [fs[0]], fs[1..], tail);
        StuckWithFirst(cfg, r, done + fs, fs, tail, room);
      }
    }
  }

  lemma BackWithFirst(cfg: Limits, r: ArrayRead, done: seq<Field>, fs: seq<Field>, tail: bytes, room: int)
    requires fs != [] && Within(cfg, fs[0], room)
    requires BackOrStuck(cfg, r, done + [fs[0]] + fs[1..], fs[1..], tail, room)
    ensures BackOrStuck(cfg, r, done + fs, fs, tail, room)
  {
    assert done + [fs[0]] + fs[1..] == done + fs;
  }

  lemma StuckWithFirst(cfg: Limits, r: ArrayRead, all: seq<Field>, fs: seq<Field>, tail: bytes, room: int)
    requires r.ok ==> Leftover(r.rest, tail)
    ensures BackOrStuck(cfg, r, all, fs, tail, room)
  {
  }

  /** Items read back equal begin with the first one. */
  lemma FirstItem(cfg: Limits, s: bytes, done: seq<Field>, fs: seq<Field>, depth: nat)
    requires fs != []
    ensures var r, v := ReadItems(cfg, s, depth, done, |fs|), ReadValue(cfg, s, depth, Undefined);
            r.ok && r.items == done + fs ==>
              v.ok && v.field == Some(fs[0]) && r == ReadItems(cfg, v.rest, depth, done + [fs[0]], |fs| - 1)
  {
    var r, v := ReadItems(cfg, s, depth, done, |fs|), ReadValue(cfg, s, depth, Undefined);
    if r.ok && r.items == done + fs {
      var done' := Append(done, v.field);
      ItemsKeep(cfg, v.rest, depth, done', |fs| - 1);
      assert done'[|done|] == r.items[|done|] == fs[0];
    }
  }

  /** An end marker is no item: it is refused, or there is no item left to read. */
  lemma EndInTheWay(cfg: Limits, s: bytes, depth: nat, done: seq<Field>, fs: seq<Field>, tail: bytes)
    requires Leftover(s, EncodeItems(fs) + tail)
    ensures var r := ReadItems(cfg, s, depth, done, |fs|); r.ok ==> Leftover(r.rest, tail)
  {
    if fs == [] {
      assert EncodeItems(fs) + tail == tail;
    } else {
      assert !ReadValue(cfg, s, depth, Undefined).ok;
    }
  }

  /** The same for arrays. */
  lemma ArrayRoundTripExactly(cfg: Limits, fs: seq<Field>, tail: bytes)
    requires WellFormed(Array(fs)) && EncodableItems(fs)
    ensures ReadArray(cfg, Encode(Array(fs)) + tail, []) == ArrayRead(true, fs, tail) <==>
            cfg.maxDepth >= 0 && Fits(|fs|, cfg.maxArray) && ItemsWithin(cfg, fs, cfg.maxDepth)
  {
    ArrayImage(fs, tail);
    var body := ToBigEndian(|fs|, 4) + (EncodeItems(fs) + tail);
    assert ([STRICT_ARRAY] + body)[1..] == body;
    ArrayReadBounds(cfg, [STRICT_ARRAY] + body);
    if cfg.maxDepth >= 0 {
      if Fits(|fs|, cfg.maxArray) && ItemsWithin(cfg, fs, cfg.maxDepth) {
        ArrayRoundTrip(cfg, fs, tail);
      } else if cfg.maxString < 0 {
        NamelessArray(cfg, fs, 0, tail, cfg.maxDepth);
      } else if ItemNamesFit(cfg, fs) {
        ArrayRefused(cfg, fs, 0, tail, cfg.maxDepth);
      } else {
        var r := ReadArray(cfg, [STRICT_ARRAY] + body, []);
        if r.ok {
          ShapedItemNames(cfg, r.items, cfg.maxDepth);
        }
      }
    }
  }
}
