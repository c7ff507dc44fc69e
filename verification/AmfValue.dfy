/** The value trees of amf.h: what an AMFField, AMFObject or AMFArray holds. */
module AmfValue {
  import opened Bytes

  // Type markers, section 2.1 of "Action Message Format - AMF 0".
  const NUMBER: byte := 0x00
  const BOOLEAN: byte := 0x01
  const STRING: byte := 0x02
  const OBJECT: byte := 0x03
  const NULL: byte := 0x05
  const UNDEFINED: byte := 0x06
  const ECMA_ARRAY: byte := 0x08
  const OBJECT_END: byte := 0x09
  const STRICT_ARRAY: byte := 0x0A
  const LONG_STRING: byte := 0x0C
  const UNSUPPORTED: byte := 0x0D
  const TYPED_OBJECT: byte := 0x10

  type int32 = x: int | -0x8000_0000 <= x < 0x8000_0000

  /** The flags amf_max_depth, amf_max_string_size and amf_max_array_size. */
  datatype Limits = Limits(maxDepth: int32, maxString: int32, maxArray: int32)

  /**
   An AMFField. Numbers are carried as their 64-bit image. A string is STRING or
   LONG_STRING by its length alone, and MutableObject only ever makes OBJECT, so
   neither distinction is part of the value.
   */
  datatype Field =
    | Number(bits: nat)
    | Boolean(flag: bool)
    | Text(text: bytes)
    | Object(entries: seq<Entry>)
    | Array(items: seq<Field>)
    | Null
    | Undefined
    | Unsupported

  /** One node of the std::map in an AMFObject; a map is its nodes in key order. */
  datatype Entry = Entry(name: bytes, value: Field)

  /** std::string's operator<. */
  predicate Less(a: bytes, b: bytes) {
    b != [] && (a == [] || a[0] < b[0] || (a[0] == b[0] && Less(a[1..], b[1..])))
  }

  lemma {:induction false} LessTrichotomy(a: bytes, b: bytes)
    ensures a == b || Less(a, b) || Less(b, a)
    ensures !(Less(a, b) && Less(b, a)) && !Less(a, a)
  {
    if a != [] && b != [] {
      LessTrichotomy(a[1..], b[1..]);
      if a[0] == b[0] && a[1..] == b[1..] {
        assert a == [a[0]] + a[1..] == b;
      }
    }
    if a != [] {
      LessTrichotomy(a[1..], a[1..]);
    }
  }

  lemma {:induction false} LessTransitive(a: bytes, b: bytes, c: bytes)
    requires Less(a, b) && Less(b, c)
    ensures Less(a, c)
  {
    if a != [] && a[0] == b[0] == c[0] {
      LessTransitive(a[1..], b[1..], c[1..]);
    }
  }

  predicate Sorted(es: seq<Entry>) {
    |es| < 2 || (Less(es[0].name, es[1].name) && Sorted(es[1..]))
  }

  lemma {:induction false} SortedPrefix(a: seq<Entry>, b: seq<Entry>)
    requires Sorted(a + b)
    ensures Sorted(a)
  {
    if |a| >= 2 {
      assert (a + b)[1..] == a[1..] + b;
      SortedPrefix(a[1..], b);
    }
  }

  lemma {:induction false} SortedLast(es: seq<Entry>, e: Entry)
    requires es != [] && Sorted(es + [e])
    ensures Less(es[0].name, e.name)
  {
    assert (es + [e])[1..] == es[1..] + [e];
    if |es| >= 2 {
      SortedLast(es[1..], e);
      LessTransitive(es[0].name, es[1].name, e.name);
    }
  }

  /** What _fields[name] finds, if anything. */
  function Lookup(es: seq<Entry>, name: bytes): Option<Field> {
    if es == [] then None
    else if es[0].name == name then Some(es[0].value)
    else Lookup(es[1..], name)
  }

  function Replace(es: seq<Entry>, name: bytes, f: Field): seq<Entry> {
    if es == [] then []
    else if es[0].name == name then [Entry(name, f)] + es[1..]
    else [es[0]] + Replace(es[1..], name, f)
  }

  function Insert(es: seq<Entry>, name: bytes, f: Field): seq<Entry> {
    if es == [] || Less(name, es[0].name) then [Entry(name, f)] + es else [es[0]] + Insert(es[1..], name, f)
  }

  /** _fields[name] = f: the node of that name is updated, or made at its place in the order. */
  function Put(es: seq<Entry>, name: bytes, f: Field): seq<Entry> {
    if Lookup(es, name).Some? then Replace(es, name, f) else Insert(es, name, f)
  }

  /** The map laws: Put changes what one name finds and nothing else, and keeps the key order. */
  lemma {:induction false} LookupPut(es: seq<Entry>, name: bytes, f: Field, other: bytes)
    ensures Lookup(Put(es, name, f), other) == if other == name then Some(f) else Lookup(es, other)
  {
    if es != [] && es[0].name != name && !(Lookup(es, name).None? && Less(name, es[0].name)) {
      LookupPut(es[1..], name, f, other);
    }
  }

  lemma {:induction false} PutSorted(es: seq<Entry>, name: bytes, f: Field)
    requires Sorted(es)
    ensures Sorted(Put(es, name, f))
    ensures Lookup(es, name).Some? ==> |Put(es, name, f)| == |es| && Put(es, name, f)[0].name == es[0].name
    ensures es != [] && Lookup(es, name).None? ==> Put(es, name, f)[0].name in {name, es[0].name}
  {
    if es != [] && es[0].name != name {
      LessTrichotomy(name, es[0].name);
      PutSorted(es[1..], name, f);
      assert !(Lookup(es, name).None? && Less(name, es[0].name)) ==>
        Put(es, name, f)[1..] == Put(es[1..], name, f);
    }
  }

  /** A name after all the others is put at the end. */
  lemma {:induction false} PutLast(es: seq<Entry>, e: Entry)
    requires Sorted(es + [e])
    ensures Put(es, e.name, e.value) == es + [e] && Lookup(es, e.name) == None
  {
    if es != [] {
      SortedLast(es, e);
      LessTrichotomy(es[0].name, e.name);
      assert (es + [e])[1..] == es[1..] + [e];
      PutLast(es[1..], e);
    }
  }

  /** Nodes plus key bytes plus string bytes. */
  function Size(f: Field): (n: nat)
    ensures n >= 1
  {
    match f
    case Text(s) => 1 + |s|
    case Object(es) => 1 + EntriesSize(es)
    case Array(fs) => 1 + ItemsSize(fs)
    case _ => 1
  }

  function EntriesSize(es: seq<Entry>): nat {
    if es == [] then 0 else |es[0].name| + Size(es[0].value) + EntriesSize(es[1..])
  }

  function ItemsSize(fs: seq<Field>): nat {
    if fs == [] then 0 else Size(fs[0]) + ItemsSize(fs[1..])
  }

  /** What Lookup gives a caller that reads an absent field as Undefined. */
  function Current(es: seq<Entry>, name: bytes): Field {
    match Lookup(es, name) case None => Undefined case Some(f) => f
  }

  /** A Put pays for its name once, and gives back the value it replaces. */
  lemma {:induction false} PutSize(es: seq<Entry>, name: bytes, f: Field)
    ensures EntriesSize(Put(es, name, f)) == EntriesSize(es) + Size(f) +
              if Lookup(es, name).None? then |name| else -(Size(Lookup(es, name).value) as int)
  {
    var now := Put(es, name, f);
    if es == [] || (Lookup(es, name).None? && Less(name, es[0].name)) {
      assert now[1..] == es;
    } else if es[0].name == name {
      assert now[1..] == es[1..];
    } else {
      PutSize(es[1..], name, f);
      assert now[1..] == Put(es[1..], name, f);
    }
  }

  lemma {:induction false} ItemsSizeAppend(fs: seq<Field>, f: Field)
    ensures ItemsSize(fs + [f]) == ItemsSize(fs) + Size(f)
  {
    if fs == [] {
      assert (fs + [f])[1..] == [];
    } else {
      ItemsSizeAppend(fs[1..], f);
      assert (fs + [f])[1..] == fs[1..] + [f];
    }
  }
}
