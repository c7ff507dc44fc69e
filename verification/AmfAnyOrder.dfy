/** Objects as other writers send them: pairs in any order, ECMA arrays and typed objects. */
module AmfAnyOrder {
  import opened Bytes
  import opened AmfValue
  import opened AmfReader
  import opened AmfWriter
  import opened AmfRoundTrip

  /** Names and values are within the limits; an empty name ends a plain object but not a counted one. */
  predicate Readable(cfg: Limits, ps: seq<Entry>, counted: bool, room: int) {
    ps == [] ||
    (&& (counted || ps[0].name != []) && |ps[0].name| < 65536 && Fits(|ps[0].name|, cfg.maxString)
     && WellFormed(ps[0].value) && Encodable(ps[0].value) && Within(cfg, ps[0].value, room)
     && Readable(cfg, ps[1..], counted, room))
  }

  /** The map after storing the pairs one by one. */
  function PutAll(es: seq<Entry>, ps: seq<Entry>): seq<Entry>
    decreases |ps|
  {
    if ps == [] then es else PutAll(Put(es, ps[0].name, ps[0].value), ps[1..])
  }

  predicate Scalar(f: Field) {
    !f.Object? && !f.Array?
  }

  /** A pair replaces what is there: its name is new, or its value is no container to be merged. */
  predicate Replaces(es: seq<Entry>, e: Entry) {
    Scalar(e.value) || Lookup(es, e.name).None?
  }

  predicate AllReplace(es: seq<Entry>, ps: seq<Entry>)
    decreases |ps|
  {
    ps == [] || (Replaces(es, ps[0]) && AllReplace(Put(es, ps[0].name, ps[0].value), ps[1..]))
  }

  /** Only scalars repeat a name. */
  predicate Mergeless(ps: seq<Entry>) {
    forall i, j :: 0 <= i < j < |ps| && ps[i].name == ps[j].name ==> Scalar(ps[j].value)
  }

  lemma {:induction false} MergelessReplace(es: seq<Entry>, ps: seq<Entry>)
    requires Mergeless(ps) && forall i :: 0 <= i < |ps| ==> Replaces(es, ps[i])
    ensures AllReplace(es, ps)
    decreases |ps|
  {
    if ps != [] {
      var next := Put(es, ps[0].name, ps[0].value);
      forall i | 0 <= i < |ps[1..]| ensures Replaces(next, ps[1..][i]) {
        assert Replaces(es, ps[i + 1]);
        LookupPut(es, ps[0].name, ps[0].value, ps[i + 1].name);
      }
      MergelessReplace(next, ps[1..]);
    }
  }

  lemma {:induction false} PutAllSorted(es: seq<Entry>, ps: seq<Entry>)
    requires Sorted(es)
    ensures Sorted(PutAll(es, ps))
    decreases |ps|
  {
    if ps != [] {
      PutSorted(es, ps[0].name, ps[0].value);
      PutAllSorted(Put(es, ps[0].name, ps[0].value), ps[1..]);
    }
  }

  /** The last pair of a name wins; other names are as before. */
  function Sent(ps: seq<Entry>, name: bytes): Option<Field> {
    if ps == [] then None
    else
      var last := ps[|ps| - 1];
      if last.name == name then Some(last.value) else Sent(ps[..|ps| - 1], name)
  }

  lemma {:induction false} PutAllLast(es: seq<Entry>, ps: seq<Entry>)
    requires ps != []
    ensures var n := |ps| - 1; PutAll(es, ps) == Put(PutAll(es, ps[..n]), ps[n].name, ps[n].value)
    decreases |ps|
  {
    var n := |ps| - 1;
    if n > 0 {
      PutAllLast(Put(es, ps[0].name, ps[0].value), ps[1..]);
      assert ps[1..][..n - 1] == ps[..n][1..];
    }
  }

  lemma {:induction false} PutAllLookup(es: seq<Entry>, ps: seq<Entry>, name: bytes)
    ensures Lookup(PutAll(es, ps), name) == if Sent(ps, name).Some? then Sent(ps, name) else Lookup(es, name)
    decreases |ps|
  {
    if ps != [] {
      var n := |ps| - 1;
      PutAllLast(es, ps);
      PutAllLookup(es, ps[..n], name);
      LookupPut(PutAll(es, ps[..n]), ps[n].name, ps[n].value, name);
    }
  }

  function Minus(left: Option<nat>, n: nat): Option<nat>
    requires left.None? || n <= left.value
  {
    if left.None? then None else Some(left.value - n)
  }

  /** One turn of the loop: the value that `image` is read as goes under the name. */
  lemma PairRead(cfg: Limits, done: seq<Entry>, name: bytes, image: bytes, f: Field, depth: nat, rest: bytes,
                 left: Option<nat>)
    requires left != Some(0) && (left.None? ==> name != []) && |name| < 65536 && Fits(|name|, cfg.maxString)
    requires ReadValue(cfg, image + rest, depth, Current(done, name)) == ValueRead(true, Some(f), rest)
    ensures ReadPairs(cfg, EncodeName(name) + (image + rest), depth, done, left)
         == ReadPairs(cfg, rest, depth, Put(done, name, f), Fewer(left))
  {
    WordSizes();
    TextBack(cfg, name, 2, image + rest);
    Assoc(ToBigEndian(|name|, 2), name, image + rest);
  }

  lemma OverCurrent(cfg: Limits, es: seq<Entry>, e: Entry, depth: nat, rest: bytes)
    requires Replaces(es, e)
    ensures ReadValue(cfg, Encode(e.value) + rest, depth, Current(es, e.name))
         == ReadValue(cfg, Encode(e.value) + rest, depth, Undefined)
  {
  }

  lemma EntriesHead(ps: seq<Entry>, rest: bytes)
    requires ps != []
    ensures EncodeEntries(ps) + rest == EncodeName(ps[0].name) + (Encode(ps[0].value) + (EncodeEntries(ps[1..]) + rest))
  {
    Assoc(EncodeName(ps[0].name), Encode(ps[0].value) + EncodeEntries(ps[1..]), rest);
    Assoc(Encode(ps[0].value), EncodeEntries(ps[1..]), rest);
  }

  lemma FirstRead(cfg: Limits, done: seq<Entry>, ps: seq<Entry>, depth: nat, rest: bytes, left: Option<nat>, room: nat)
    requires depth + room == cfg.maxDepth && left != Some(0) && ps != []
    requires Readable(cfg, ps, left.Some?, room) && Replaces(done, ps[0])
    ensures ReadPairs(cfg, EncodeEntries(ps) + rest, depth, done, left)
         == ReadPairs(cfg, EncodeEntries(ps[1..]) + rest, depth, Put(done, ps[0].name, ps[0].value), Fewer(left))
  {
    var more := EncodeEntries(ps[1..]) + rest;
    EntriesHead(ps, rest);
    ValueBack(cfg, ps[0].value, depth, more, room);
    OverCurrent(cfg, done, ps[0], depth, more);
    PairRead(cfg, done, ps[0].name, Encode(ps[0].value), ps[0].value, depth, more, left);
  }

  /** Pairs that merge nothing, in any order, are stored one by one. */
  lemma {:induction false} PairsRead(cfg: Limits, done: seq<Entry>, ps: seq<Entry>, depth: nat, rest: bytes,
                                     left: Option<nat>, room: nat)
    requires depth + room == cfg.maxDepth && (left.None? || |ps| <= left.value)
    requires Readable(cfg, ps, left.Some?, room) && AllReplace(done, ps)
    ensures ReadPairs(cfg, EncodeEntries(ps) + rest, depth, done, left)
         == ReadPairs(cfg, rest, depth, PutAll(done, ps), Minus(left, |ps|))
    decreases |ps|
  {
    if ps == [] {
      assert EncodeEntries(ps) + rest == rest;
    } else {
      FirstRead(cfg, done, ps, depth, rest, left, room);
      PairsRead(cfg, Put(done, ps[0].name, ps[0].value), ps[1..], depth, rest, Fewer(left), room);
      assert Minus(Fewer(left), |ps[1..]|) == Minus(left, |ps|);
    }
  }

  /** The sorted map that finds, for every name, the last value sent under it, and nothing else. */
  ghost predicate Received(r: ObjectRead, ps: seq<Entry>, tail: bytes) {
    r.ok && r.rest == tail && Sorted(r.entries) && forall name: bytes :: Lookup(r.entries, name) == Sent(ps, name)
  }

  lemma AllReceived(ps: seq<Entry>, tail: bytes)
    ensures Received(ObjectRead(true, PutAll([], ps), tail), ps, tail)
  {
    PutAllSorted([], ps);
    forall name: bytes ensures Lookup(PutAll([], ps), name) == Sent(ps, name) {
      PutAllLookup([], ps, name);
    }
  }

  lemma ObjectAnyOrder(cfg: Limits, ps: seq<Entry>, tail: bytes)
    requires cfg.maxDepth >= 0 && cfg.maxString >= 0 && Readable(cfg, ps, false, cfg.maxDepth) && Mergeless(ps)
    ensures Received(ReadObject(cfg, [OBJECT] + (EncodeEntries(ps) + (End() + tail)), []), ps, tail)
  {
    var body := EncodeEntries(ps) + (End() + tail);
    assert ([OBJECT] + body)[1..] == body;
    MergelessReplace([], ps);
    PairsRead(cfg, [], ps, 0, End() + tail, None, cfg.maxDepth);
    EndBack(cfg, PutAll([], ps), 0, tail);
    AllReceived(ps, tail);
  }

  lemma EcmaCounted(cfg: Limits, n: nat, s: bytes)
    requires cfg.maxDepth >= 0 && n < 0x1_0000_0000 && Fits(n, cfg.maxArray)
    ensures ReadObject(cfg, [ECMA_ARRAY] + (ToBigEndian(n, 4) + s), []) == ReadPairs(cfg, s, 0, [], Some(n))
  {
    WordSizes();
    BigEndianRoundTrip(n, 4);
    var body := ToBigEndian(n, 4) + s;
    assert ([ECMA_ARRAY] + body)[1..] == body;
    assert body[..4] == ToBigEndian(n, 4) && body[4..] == s;
  }

  /** An ECMA array may carry an empty name and has no end marker. */
  lemma EcmaAnyOrder(cfg: Limits, ps: seq<Entry>, tail: bytes)
    requires cfg.maxDepth >= 0 && |ps| < 0x1_0000_0000 && Fits(|ps|, cfg.maxArray)
    requires Readable(cfg, ps, true, cfg.maxDepth) && Mergeless(ps)
    ensures Received(ReadObject(cfg, [ECMA_ARRAY] + (ToBigEndian(|ps|, 4) + (EncodeEntries(ps) + tail)), []), ps, tail)
  {
    EcmaCounted(cfg, |ps|, EncodeEntries(ps) + tail);
    MergelessReplace([], ps);
    PairsRead(cfg, [], ps, 0, tail, Some(|ps|), cfg.maxDepth);
    assert ReadPairs(cfg, tail, 0, PutAll([], ps), Some(0)) == ObjectRead(true, PutAll([], ps), tail);
    AllReceived(ps, tail);
  }

  lemma TypedBody(cfg: Limits, t: bytes, depth: nat, cur: Field)
    requires depth <= cfg.maxDepth && ReadText(cfg, t, 2).ok
    ensures var r := ReadObjectBody(cfg, ReadText(cfg, t, 2).rest, depth + 1, ObjectIn(cur));
            ReadValue(cfg, [TYPED_OBJECT] + t, depth, cur) == ValueRead(r.ok, Some(Object(r.entries)), r.rest)
  {
    assert ([TYPED_OBJECT] + t)[1..] == t;
  }

  /** A typed object is read like a plain one once its class name is passed. */
  lemma TypedAsPlain(cfg: Limits, name: bytes, s: bytes, depth: nat, cur: Field)
    requires |name| < 65536 && Fits(|name|, cfg.maxString)
    ensures depth <= cfg.maxDepth ==>
              ReadValue(cfg, [TYPED_OBJECT] + (ToBigEndian(|name|, 2) + (name + s)), depth, cur)
              == ReadValue(cfg, [OBJECT] + s, depth, cur)
  {
    if depth <= cfg.maxDepth {
      WordSizes();
      TextBack(cfg, name, 2, s);
      TypedBody(cfg, ToBigEndian(|name|, 2) + (name + s), depth, cur);
      Unmark(cfg, OBJECT, s, depth, cur);
    }
  }

  // Values read over an existing container.

  lemma {:induction false} WithinReadable(cfg: Limits, es: seq<Entry>, room: int)
    requires EntriesWithin(cfg, es, room) && WellFormedEntries(es) && EncodableEntries(es)
    ensures Readable(cfg, es, false, room)
  {
    if es != [] {
      WithinReadable(cfg, es[1..], room);
    }
  }

  /** An object under the name of an object is merged into it: its pairs win, the others stay. */
  lemma ObjectMerges(cfg: Limits, before: seq<Entry>, es: seq<Entry>, depth: nat, tail: bytes, room: nat)
    requires depth + room == cfg.maxDepth && WellFormed(Object(es)) && EncodableEntries(es)
    requires Within(cfg, Object(es), room) && AllReplace(before, es)
    ensures ReadValue(cfg, Encode(Object(es)) + tail, depth, Object(before))
         == ValueRead(true, Some(Object(PutAll(before, es))), tail)
  {
    var body := EncodeEntries(es) + (End() + tail);
    ObjectImage(es, tail);
    Unmark(cfg, OBJECT, body, depth, Object(before));
    WithinReadable(cfg, es, room - 1);
    PairsRead(cfg, before, es, depth + 1, End() + tail, None, room - 1);
    EndBack(cfg, PutAll(before, es), depth + 1, tail);
    assert ReadObjectBody(cfg, body, depth + 1, before) == ReadPairs(cfg, body, depth + 1, before, None);
  }

  /** An array under the name of an array is appended to it, however long that makes it. */
  lemma ArrayAppends(cfg: Limits, before: seq<Field>, fs: seq<Field>, depth: nat, tail: bytes, room: nat)
    requires depth + room == cfg.maxDepth && WellFormed(Array(fs)) && EncodableItems(fs)
    requires Within(cfg, Array(fs), room)
    ensures ReadValue(cfg, Encode(Array(fs)) + tail, depth, Array(before))
         == ValueRead(true, Some(Array(before + fs)), tail)
  {
    WordSizes();
    BigEndianRoundTrip(|fs|, 4);
    var s := ToBigEndian(|fs|, 4) + (EncodeItems(fs) + tail);
    ArrayImage(fs, tail);
    Unmark(cfg, STRICT_ARRAY, s, depth, Array(before));
    assert s[..4] == ToBigEndian(|fs|, 4) && s[4..] == EncodeItems(fs) + tail;
    ItemsBack(cfg, before, fs, depth + 1, tail, room - 1);
  }

  /** A name sent twice with an array reads as one array of all items. */
  lemma ArrayTwice(cfg: Limits, name: bytes, before: seq<Field>, after: seq<Field>, depth: nat, tail: bytes, room: nat)
    requires depth + room == cfg.maxDepth && name != [] && |name| < 65536 && Fits(|name|, cfg.maxString)
    requires WellFormed(Array(before)) && EncodableItems(before) && Within(cfg, Array(before), room)
    requires WellFormed(Array(after)) && EncodableItems(after) && Within(cfg, Array(after), room)
    ensures ReadPairs(cfg, EncodeEntries([Entry(name, Array(before)), Entry(name, Array(after))]) + (End() + tail),
                      depth, [], None)
         == ObjectRead(true, [Entry(name, Array(before + after))], tail)
  {
    var first, second, rest := Encode(Array(before)), Encode(Array(after)), End() + tail;
    var ps := [Entry(name, Array(before)), Entry(name, Array(after))];
    assert ps[1..] == [ps[1]] && ps[1..][1..] == [];
    EntriesHead(ps, rest);
    EntriesHead(ps[1..], rest);
    assert EncodeEntries([]) + rest == rest;
    var more := EncodeName(name) + (second + rest);
    ValueBack(cfg, Array(before), depth, more, room);
    PairRead(cfg, [], name, first, Array(before), depth, more, None);
    var es := [Entry(name, Array(before))];
    assert Put([], name, Array(before)) == es;
    ArrayAppends(cfg, before, after, depth, rest, room);
    PairRead(cfg, es, name, second, Array(before + after), depth, rest, None);
    assert Put(es, name, Array(before + after)) == [Entry(name, Array(before + after))];
    EndBack(cfg, [Entry(name, Array(before + after))], depth, tail);
  }

  /** An input that passes amf_max_array_size: a limit of 1, and the name "a" sent twice with an array of one null. */
  lemma LimitExceeded(tail: bytes)
    ensures var cfg, one := Limits(8, 100, 1), Entry([0x61], Array([Null]));
            ReadObject(cfg, [OBJECT] + (EncodeEntries([one, one]) + (End() + tail)), [])
            == ObjectRead(true, [Entry([0x61], Array([Null, Null]))], tail)
  {
    var cfg, one := Limits(8, 100, 1), Entry([0x61], Array([Null]));
    var body := EncodeEntries([one, one]) + (End() + tail);
    assert ([OBJECT] + body)[1..] == body;
    ArrayTwice(cfg, [0x61], [Null], [Null], 0, tail, 8);
    assert [Null] + [Null] == [Null, Null];
  }
}
