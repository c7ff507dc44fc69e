/**
 What the generic reader makes of an image cut short. An object body ends successfully
 when its next name cannot be read, so success does not mean that all was there.
 */
module AmfTruncation {
  import opened Bytes
  import opened AmfValue
  import opened AmfReader
  import opened AmfWriter
  import opened AmfRoundTrip

  /**
   g is f with the ends of some objects cut off: fields in key order up to some point, the
   last of them possibly pruned itself. An array has all its items, the last possibly pruned.
   */
  predicate Pruned(g: Field, f: Field)
    decreases f
  {
    || g == f
    || (g.Object? && f.Object? && PrunedEntries(g.entries, f.entries))
    || (g.Array? && f.Array? && PrunedItems(g.items, f.items))
  }

  predicate PrunedEntries(gs: seq<Entry>, es: seq<Entry>)
    decreases es
  {
    || gs == []
    || (&& es != []
        && gs[0].name == es[0].name
        && (|| (gs[0].value == es[0].value && PrunedEntries(gs[1..], es[1..]))
            || (|gs| == 1 && Pruned(gs[0].value, es[0].value))))
  }

  predicate PrunedItems(gs: seq<Field>, fs: seq<Field>)
    decreases fs
  {
    && |gs| == |fs|
    && (|| fs == []
        || (|fs| == 1 && Pruned(gs[0], fs[0]))
        || (gs[0] == fs[0] && PrunedItems(gs[1..], fs[1..])))
  }

  /**
   The cuts that go unnoticed: the first n bytes of an image, n short of all, are accepted when they
   end between the marker and the end marker of an object, other than inside a value that is refused itself.
   */
  predicate Accepted(f: Field, n: nat)
    decreases f
  {
    match f
    case Object(es) => n >= 1 && BodyAccepted(es, n - 1)
    case Array(fs) => n >= 5 && ItemsAccepted(fs, n - 5)
    case _ => false
  }

  /** Inside or before a name the loop ends well; after the empty name of the end marker it does not. */
  predicate BodyAccepted(es: seq<Entry>, n: nat)
    decreases es
  {
    if es == [] then n < 2
    else
      var name, value := |EncodeName(es[0].name)|, |Encode(es[0].value)|;
      if n < name then true
      else if n - name < value then Accepted(es[0].value, n - name)
      else BodyAccepted(es[1..], n - name - value)
  }

  /** Only the last item may be cut. */
  predicate ItemsAccepted(fs: seq<Field>, n: nat)
    decreases fs
  {
    && fs != []
    && var value := |Encode(fs[0])|;
       if n < value then |fs| == 1 && Accepted(fs[0], n) else ItemsAccepted(fs[1..], n - value)
  }

  /** A prefix of a concatenation ends in its first or its second part. */
  lemma PrefixOf(a: bytes, b: bytes, n: nat)
    requires n <= |a| + |b|
    ensures n <= |a| ==> (a + b)[..n] == a[..n]
    ensures n >= |a| ==> (a + b)[..n] == a + b[..n - |a|]
  {
  }

  lemma LengthOf(a: bytes, b: bytes)
    ensures (a + b)[..|a|] == a && (a + b)[|a|..] == b
  {
  }

  lemma TextCut(cfg: Limits, t: bytes, k: nat, n: nat)
    requires |t| < Pow256(k) && Fits(|t|, cfg.maxString) && n < k + |t|
    ensures ReadText(cfg, (ToBigEndian(|t|, k) + t)[..n], k) == TextRead(false, [], [])
  {
    if n >= k {
      BigEndianRoundTrip(|t|, k);
      PrefixOf(ToBigEndian(|t|, k), t, n);
      LengthOf(ToBigEndian(|t|, k), t[..n - k]);
    }
  }

  lemma ScalarCut(cfg: Limits, f: Field, depth: nat, n: nat, room: int)
    requires !f.Object? && !f.Array? && n < |Encode(f)|
    requires depth <= cfg.maxDepth && WellFormed(f) && Within(cfg, f, room)
    ensures !ReadValue(cfg, Encode(f)[..n], depth, Undefined).ok
  {
    if n > 0 {
      var m, body := Encode(f)[0], Encode(f)[1..];
      assert Encode(f)[..n] == [m] + body[..n - 1];
      Unmark(cfg, m, body[..n - 1], depth, Undefined);
      if f.Text? {
        WordSizes();
        TextCut(cfg, f.text, if |f.text| < 65536 then 2 else 4, n - 1);
      }
    }
  }

  /** A value read from the first n bytes of the image of f. */
  predicate FieldCut(r: ValueRead, f: Field, n: nat) {
    (r.ok <==> Accepted(f, n)) && (r.ok ==> r.field.Some? && Pruned(r.field.value, f) && r.rest == [])
  }

  lemma MarkerCut(m: byte, body: bytes, n: nat)
    requires 0 < n <= 1 + |body|
    ensures ([m] + body)[..n] == [m] + body[..n - 1]
  {
  }

  /** A value cut anywhere is refused, or accepted where told, all consumed and a pruned copy. */
  lemma {:induction false} ValueCut(cfg: Limits, f: Field, depth: nat, n: nat, room: nat)
    requires depth + room == cfg.maxDepth && WellFormed(f) && Encodable(f) && Within(cfg, f, room)
    requires n < |Encode(f)|
    ensures FieldCut(ReadValue(cfg, Encode(f)[..n], depth, Undefined), f, n)
    decreases f, 3
  {
    if n == 0 {
      NothingRead(cfg, f, depth);
    } else {
      match f
      case Object(es) => ObjectValueCut(cfg, es, depth, n, room);
      case Array(fs) => ArrayValueCut(cfg, fs, depth, n, room);
      case _ => ScalarCut(cfg, f, depth, n, room);
    }
  }

  lemma {:induction false} ObjectValueCut(cfg: Limits, es: seq<Entry>, depth: nat, n: nat, room: nat)
    requires depth + room == cfg.maxDepth && 0 < n < |Encode(Object(es))|
    requires WellFormed(Object(es)) && Encodable(Object(es)) && Within(cfg, Object(es), room)
    ensures FieldCut(ReadValue(cfg, Encode(Object(es))[..n], depth, Undefined), Object(es), n)
    decreases es, 3
  {
    ObjectCut(cfg, es, depth + 1, n - 1, room - 1);
    ObjectFieldCut(cfg, es, depth, n);
  }

  lemma {:induction false} ArrayValueCut(cfg: Limits, fs: seq<Field>, depth: nat, n: nat, room: nat)
    requires depth + room == cfg.maxDepth && 0 < n < |Encode(Array(fs))|
    requires WellFormed(Array(fs)) && Encodable(Array(fs)) && Within(cfg, Array(fs), room)
    ensures FieldCut(ReadValue(cfg, Encode(Array(fs))[..n], depth, Undefined), Array(fs), n)
    decreases fs, 3
  {
    ArrayCut(cfg, fs, depth + 1, n - 1, room - 1);
    ArrayFieldCut(cfg, fs, depth, n);
  }

  lemma NothingRead(cfg: Limits, f: Field, depth: nat)
    ensures FieldCut(ReadValue(cfg, Encode(f)[..0], depth, Undefined), f, 0)
  {
  }

  /** The field of an object or array whose body was cut. */
  lemma ObjectFieldCut(cfg: Limits, es: seq<Entry>, depth: nat, n: nat)
    requires depth <= cfg.maxDepth && 0 < n < |Encode(Object(es))|
    requires var r := ReadObjectBody(cfg, (EncodeEntries(es) + End())[..n - 1], depth + 1, []);
             (r.ok <==> BodyAccepted(es, n - 1)) && (r.ok ==> PrunedEntries(r.entries, es) && r.rest == [])
    ensures FieldCut(ReadValue(cfg, Encode(Object(es))[..n], depth, Undefined), Object(es), n)
  {
    var body := EncodeEntries(es) + End();
    MarkerCut(OBJECT, body, n);
    Unmark(cfg, OBJECT, body[..n - 1], depth, Undefined);
  }

  lemma ArrayFieldCut(cfg: Limits, fs: seq<Field>, depth: nat, n: nat)
    requires depth <= cfg.maxDepth && 0 < n < |Encode(Array(fs))|
    requires var r := ReadArrayBody(cfg, (ToBigEndian(|fs|, 4) + EncodeItems(fs))[..n - 1], depth + 1, []);
             && (r.ok <==> n - 1 >= 4 && ItemsAccepted(fs, n - 1 - 4))
             && (r.ok ==> PrunedItems(r.items, fs) && r.rest == [])
    ensures FieldCut(ReadValue(cfg, Encode(Array(fs))[..n], depth, Undefined), Array(fs), n)
  {
    var body := ToBigEndian(|fs|, 4) + EncodeItems(fs);
    MarkerCut(STRICT_ARRAY, body, n);
    Unmark(cfg, STRICT_ARRAY, body[..n - 1], depth, Undefined);
  }

  lemma {:induction false} ObjectCut(cfg: Limits, es: seq<Entry>, depth: nat, n: nat, room: nat)
    requires depth + room == cfg.maxDepth && cfg.maxString >= 0 && EncodableEntries(es)
    requires Sorted(es) && WellFormedEntries(es) && EntriesWithin(cfg, es, room)
    requires n < |EncodeEntries(es) + End()|
    ensures var r := ReadObjectBody(cfg, (EncodeEntries(es) + End())[..n], depth, []);
            (r.ok <==> BodyAccepted(es, n)) && (r.ok ==> PrunedEntries(r.entries, es) && r.rest == [])
    decreases es, 2
  {
    assert [] + es == es;
    PairsCut(cfg, [], es, depth, n, room);
    var r := ReadPairs(cfg, (EncodeEntries(es) + End())[..n], depth, [], None);
    assert r.entries[0..] == r.entries;
  }

  /** A loop that had read `done` and then met a cut image of es. */
  predicate CutRead(r: ObjectRead, done: seq<Entry>, es: seq<Entry>, accepted: bool) {
    && (r.ok <==> accepted)
    && (r.ok ==> done <= r.entries && PrunedEntries(r.entries[|done|..], es) && r.rest == [])
  }

  lemma {:induction false} PairsCut(cfg: Limits, done: seq<Entry>, es: seq<Entry>, depth: nat, n: nat, room: nat)
    requires depth + room == cfg.maxDepth && cfg.maxString >= 0 && EncodableEntries(es)
    requires Sorted(done + es) && WellFormedEntries(es) && EntriesWithin(cfg, es, room)
    requires n < |EncodeEntries(es) + End()|
    ensures CutRead(ReadPairs(cfg, (EncodeEntries(es) + End())[..n], depth, done, None), done, es, BodyAccepted(es, n))
    decreases es, 1
  {
    if es == [] {
      EndCut(cfg, done, depth, n);
      assert EncodeEntries(es) + End() == End();
    } else {
      var name, value := |EncodeName(es[0].name)|, |Encode(es[0].value)|;
      if n < name {
        PairSplit(es, n);
        NameCut(cfg, done, es, depth, n);
      } else {
        assert done + [es[0]] + es[1..] == done + es;
        SortedPrefix(done + [es[0]], es[1..]);
        if n - name < value {
          ValueCut(cfg, es[0].value, depth, n - name, room);
          CutInValue(cfg, done, es, depth, n);
        } else {
          var k := n - name - value;
          PairSplit(es, n);
          PairsCut(cfg, done + [es[0]], es[1..], depth, k, room);
          ValueBack(cfg, es[0].value, depth, (EncodeEntries(es[1..]) + End())[..k], room);
          CutLater(cfg, done, es, depth, n, k);
        }
      }
    }
  }

  lemma CutInValue(cfg: Limits, done: seq<Entry>, es: seq<Entry>, depth: nat, n: nat)
    requires es != [] && es[0].name != [] && |es[0].name| < 65536 && Fits(|es[0].name|, cfg.maxString)
    requires Sorted(done + [es[0]]) && n < |EncodeEntries(es) + End()|
    requires var name, value := EncodeName(es[0].name), Encode(es[0].value);
             && |name| <= n < |name| + |value|
             && FieldCut(ReadValue(cfg, value[..n - |name|], depth, Undefined), es[0].value, n - |name|)
    ensures CutRead(ReadPairs(cfg, (EncodeEntries(es) + End())[..n], depth, done, None), done, es, BodyAccepted(es, n))
  {
    PairSplit(es, n);
    LastPairCut(cfg, done, es, depth, n - |EncodeName(es[0].name)|);
  }

  lemma CutLater(cfg: Limits, done: seq<Entry>, es: seq<Entry>, depth: nat, n: nat, k: nat)
    requires es != [] && es[0].name != [] && |es[0].name| < 65536 && Fits(|es[0].name|, cfg.maxString)
    requires Sorted(done + [es[0]]) && n < |EncodeEntries(es) + End()| && k < |EncodeEntries(es[1..]) + End()|
    requires n == |EncodeName(es[0].name)| + |Encode(es[0].value)| + k
    requires var rest := (EncodeEntries(es[1..]) + End())[..k];
             && ReadValue(cfg, Encode(es[0].value) + rest, depth, Undefined) == ValueRead(true, Some(es[0].value), rest)
             && CutRead(ReadPairs(cfg, rest, depth, done + [es[0]], None), done + [es[0]], es[1..],
                        BodyAccepted(es[1..], k))
    ensures CutRead(ReadPairs(cfg, (EncodeEntries(es) + End())[..n], depth, done, None), done, es, BodyAccepted(es, n))
  {
    PairSplit(es, n);
    FullPairCut(cfg, done, es, depth, (EncodeEntries(es[1..]) + End())[..k], BodyAccepted(es[1..], k));
  }

  /** Where in its first pair the image of an object is cut, if it is. */
  lemma PairSplit(es: seq<Entry>, n: nat)
    requires es != [] && n < |EncodeEntries(es) + End()|
    ensures var s, name, value := (EncodeEntries(es) + End())[..n], EncodeName(es[0].name), Encode(es[0].value);
            var more := EncodeEntries(es[1..]) + End();
            && (n < |name| ==> s == name[..n])
            && (|name| <= n < |name| + |value| ==> s == name + value[..n - |name|])
            && (|name| + |value| <= n ==>
                  n - |name| - |value| < |more| && s == name + (value + more[..n - |name| - |value|]))
  {
    var name, value, more := EncodeName(es[0].name), Encode(es[0].value), EncodeEntries(es[1..]) + End();
    Assoc(name, value + EncodeEntries(es[1..]), End());
    Assoc(value, EncodeEntries(es[1..]), End());
    PrefixOf(name, value + more, n);
    if n >= |name| {
      PrefixOf(value, more, n - |name|);
    }
  }

  lemma NameCut(cfg: Limits, done: seq<Entry>, es: seq<Entry>, depth: nat, n: nat)
    requires es != [] && |es[0].name| < 65536 && Fits(|es[0].name|, cfg.maxString) && n < 2 + |es[0].name|
    ensures CutRead(ReadPairs(cfg, EncodeName(es[0].name)[..n], depth, done, None), done, es, true)
  {
    WordSizes();
    TextCut(cfg, es[0].name, 2, n);
  }

  lemma FullPairCut(cfg: Limits, done: seq<Entry>, es: seq<Entry>, depth: nat, rest: bytes, accepted: bool)
    requires es != [] && es[0].name != [] && |es[0].name| < 65536 && Fits(|es[0].name|, cfg.maxString)
    requires Sorted(done + [es[0]])
    requires ReadValue(cfg, Encode(es[0].value) + rest, depth, Undefined) == ValueRead(true, Some(es[0].value), rest)
    requires CutRead(ReadPairs(cfg, rest, depth, done + [es[0]], None), done + [es[0]], es[1..], accepted)
    ensures CutRead(ReadPairs(cfg, EncodeName(es[0].name) + (Encode(es[0].value) + rest), depth, done, None),
                    done, es, accepted)
  {
    PairBack(cfg, done, es[0], depth, rest);
    var r := ReadPairs(cfg, rest, depth, done + [es[0]], None);
    if r.ok {
      assert r.entries[|done|] == (done + [es[0]])[|done|] == es[0];
      assert r.entries[|done|..][1..] == r.entries[|done + [es[0]]|..];
    }
  }

  lemma EndCut(cfg: Limits, done: seq<Entry>, depth: nat, n: nat)
    requires cfg.maxString >= 0 && n < 3
    ensures CutRead(ReadPairs(cfg, End()[..n], depth, done, None), done, [], n < 2)
  {
    if n == 2 {
      BigEndianRoundTrip(0, 2);
      WordSizes();
      assert End()[..n][..2] == ToBigEndian(0, 2);
    }
  }

  /** A cut inside the value of a pair ends the loop there, one way or the other. */
  lemma LastPairCut(cfg: Limits, done: seq<Entry>, es: seq<Entry>, depth: nat, n: nat)
    requires es != [] && es[0].name != [] && |es[0].name| < 65536 && Fits(|es[0].name|, cfg.maxString)
    requires Sorted(done + [es[0]]) && n < |Encode(es[0].value)|
    requires FieldCut(ReadValue(cfg, Encode(es[0].value)[..n], depth, Undefined), es[0].value, n)
    ensures CutRead(ReadPairs(cfg, EncodeName(es[0].name) + Encode(es[0].value)[..n], depth, done, None),
                    done, es, Accepted(es[0].value, n))
  {
    WordSizes();
    var e, cut := es[0], Encode(es[0].value)[..n];
    var v := ReadValue(cfg, cut, depth, Undefined);
    TextBack(cfg, e.name, 2, cut);
    Assoc(ToBigEndian(|e.name|, 2), e.name, cut);
    PutLast(done, e);
    if v.ok {
      PutLastAs(done, e, v.field.value);
      var r := ReadPairs(cfg, EncodeName(e.name) + cut, depth, done, None);
      assert r == ReadPairs(cfg, [], depth, done + [Entry(e.name, v.field.value)], None);
      assert r.entries[|done|..] == [Entry(e.name, v.field.value)];
    }
  }

  lemma PutLastAs(done: seq<Entry>, e: Entry, g: Field)
    requires Sorted(done + [e])
    ensures Put(done, e.name, g) == done + [Entry(e.name, g)]
  {
    SameNamesSorted(done, e, g);
    PutLast(done, Entry(e.name, g));
  }

  lemma {:induction false} SameNamesSorted(done: seq<Entry>, e: Entry, g: Field)
    requires Sorted(done + [e])
    ensures Sorted(done + [Entry(e.name, g)])
  {
    if done != [] {
      assert (done + [e])[1..] == done[1..] + [e];
      assert (done + [Entry(e.name, g)])[1..] == done[1..] + [Entry(e.name, g)];
      SameNamesSorted(done[1..], e, g);
    }
  }

  lemma {:induction false} ArrayCut(cfg: Limits, fs: seq<Field>, depth: nat, n: nat, room: nat)
    requires depth + room == cfg.maxDepth && EncodableItems(fs)
    requires Fits(|fs|, cfg.maxArray) && WellFormedItems(fs) && ItemsWithin(cfg, fs, room)
    requires n < 4 + |EncodeItems(fs)|
    ensures var r := ReadArrayBody(cfg, (ToBigEndian(|fs|, 4) + EncodeItems(fs))[..n], depth, []);
            && (r.ok <==> n >= 4 && ItemsAccepted(fs, n - 4))
            && (r.ok ==> PrunedItems(r.items, fs) && r.rest == [])
    decreases fs, 1
  {
    if n >= 4 {
      WordSizes();
      BigEndianRoundTrip(|fs|, 4);
      PrefixOf(ToBigEndian(|fs|, 4), EncodeItems(fs), n);
      var s := (ToBigEndian(|fs|, 4) + EncodeItems(fs))[..n];
      assert s[..4] == ToBigEndian(|fs|, 4) && s[4..] == EncodeItems(fs)[..n - 4];
      ItemsCut(cfg, [], fs, depth, n - 4, room);
      var r := ReadItems(cfg, s[4..], depth, [], |fs|);
      assert r.items[0..] == r.items;
    }
  }

  /** A loop that had read `done` and then met a cut image of fs. */
  predicate ItemsRead(r: ArrayRead, done: seq<Field>, fs: seq<Field>, accepted: bool) {
    && (r.ok <==> accepted)
    && (r.ok ==> done <= r.items && PrunedItems(r.items[|done|..], fs) && r.rest == [])
  }

  lemma {:induction false} ItemsCut(cfg: Limits, done: seq<Field>, fs: seq<Field>, depth: nat, n: nat, room: nat)
    requires depth + room == cfg.maxDepth && EncodableItems(fs)
    requires WellFormedItems(fs) && ItemsWithin(cfg, fs, room)
    requires n < |EncodeItems(fs)|
    ensures ItemsRead(ReadItems(cfg, EncodeItems(fs)[..n], depth, done, |fs|), done, fs, ItemsAccepted(fs, n))
    decreases fs, 0
  {
    var value, more := Encode(fs[0]), EncodeItems(fs[1..]);
    PrefixOf(value, more, n);
    if n < |value| {
      ValueCut(cfg, fs[0], depth, n, room);
      LastItemCut(cfg, done, fs, depth, value[..n], n);
    } else {
      var k := n - |value|;
      ValueBack(cfg, fs[0], depth, more[..k], room);
      ItemsCut(cfg, done + [fs[0]], fs[1..], depth, k, room);
      FullItemCut(cfg, done, fs, depth, value + more[..k], more[..k], ItemsAccepted(fs[1..], k));
    }
  }

  lemma LastItemCut(cfg: Limits, done: seq<Field>, fs: seq<Field>, depth: nat, s: bytes, n: nat)
    requires fs != [] && FieldCut(ReadValue(cfg, s, depth, Undefined), fs[0], n)
    ensures ItemsRead(ReadItems(cfg, s, depth, done, |fs|), done, fs, |fs| == 1 && Accepted(fs[0], n))
  {
    var v := ReadValue(cfg, s, depth, Undefined);
    if v.ok {
      assert (done + [v.field.value])[|done|..] == [v.field.value];
    }
  }

  lemma FullItemCut(cfg: Limits, done: seq<Field>, fs: seq<Field>, depth: nat, s: bytes, rest: bytes, accepted: bool)
    requires fs != [] && ReadValue(cfg, s, depth, Undefined) == ValueRead(true, Some(fs[0]), rest)
    requires ItemsRead(ReadItems(cfg, rest, depth, done + [fs[0]], |fs| - 1), done + [fs[0]], fs[1..], accepted)
    ensures ItemsRead(ReadItems(cfg, s, depth, done, |fs|), done, fs, accepted)
  {
    var r := ReadItems(cfg, rest, depth, done + [fs[0]], |fs| - 1);
    assert ReadItems(cfg, s, depth, done, |fs|) == r;
    if r.ok {
      assert r.items[|done|] == (done + [fs[0]])[|done|] == fs[0];
      assert r.items[|done|..][1..] == r.items[|done + [fs[0]]|..];
    }
  }

  /**
   Truncation: a strict prefix of an object's image is read if and only if the cut is one of the
   accepted ones. Then all of it is consumed and the object read is a left-pruned copy: no wrong
   value, no field that was not there.
   */
  lemma ObjectTruncation(cfg: Limits, es: seq<Entry>, n: nat)
    requires WellFormed(Object(es)) && EncodableEntries(es)
    requires cfg.maxDepth >= 0 && cfg.maxString >= 0 && EntriesWithin(cfg, es, cfg.maxDepth)
    requires n < |Encode(Object(es))|
    ensures var r := ReadObject(cfg, Encode(Object(es))[..n], []);
            && (r.ok <==> Accepted(Object(es), n))
            && (r.ok ==> PrunedEntries(r.entries, es) && r.rest == [])
  {
    if n > 0 {
      var body := EncodeEntries(es) + End();
      PrefixOf([OBJECT], body, n);
      assert ([OBJECT] + body[..n - 1])[1..] == body[..n - 1];
      ObjectCut(cfg, es, 0, n - 1, cfg.maxDepth);
    }
  }

  lemma ArrayTruncation(cfg: Limits, fs: seq<Field>, n: nat)
    requires WellFormedItems(fs) && EncodableItems(fs)
    requires cfg.maxDepth >= 0 && Fits(|fs|, cfg.maxArray) && ItemsWithin(cfg, fs, cfg.maxDepth)
    requires n < |Encode(Array(fs))|
    ensures var r := ReadArray(cfg, Encode(Array(fs))[..n], []);
            && (r.ok <==> Accepted(Array(fs), n))
            && (r.ok ==> PrunedItems(r.items, fs) && r.rest == [])
  {
    if n > 0 {
      var body := ToBigEndian(|fs|, 4) + EncodeItems(fs);
      PrefixOf([STRICT_ARRAY], body, n);
      assert ([STRICT_ARRAY] + body[..n - 1])[1..] == body[..n - 1];
      ArrayCut(cfg, fs, 0, n - 1, cfg.maxDepth);
    }
  }

  /** Success does not mean that an end marker was seen: one byte of an image reads as an object. */
  lemma LoneMarkerAccepted(cfg: Limits)
    requires cfg.maxDepth >= 0
    ensures ReadObject(cfg, [OBJECT], []) == ObjectRead(true, [], [])
  {
    assert [OBJECT][1..] == [];
  }
}
