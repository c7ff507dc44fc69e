/** The image the AMF writers of amf.cpp give a value tree. */
module AmfWriter {
  import opened Bytes
  import opened AmfValue

  /** What can be written: no name needs more than two length bytes, and no string is longer than an int holds. */
  predicate Encodable(f: Field) {
    match f
    case Object(es) => EncodableEntries(es)
    case Array(fs) => EncodableItems(fs)
    case Text(s) => |s| < INT_LIMIT
    case _ => true
  }

  /** The part of it that no writer checks. */
  predicate IntSized(f: Field) {
    match f
    case Object(es) => forall i :: 0 <= i < |es| ==> IntSized(es[i].value)
    case Array(fs) => forall i :: 0 <= i < |fs| ==> IntSized(fs[i])
    case Text(s) => |s| < INT_LIMIT
    case _ => true
  }

  predicate EncodableEntries(es: seq<Entry>) {
    es == [] || (|es[0].name| < 65536 && Encodable(es[0].value) && EncodableEntries(es[1..]))
  }

  predicate EncodableItems(fs: seq<Field>) {
    fs == [] || (Encodable(fs[0]) && EncodableItems(fs[1..]))
  }

  function EncodeText(s: bytes): bytes {
    if |s| < 65536 then [STRING] + (ToBigEndian(|s|, 2) + s) else [LONG_STRING] + (ToBigEndian(|s|, 4) + s)
  }

  /** WriteAMFField */
  function Encode(f: Field): (s: bytes)
    ensures s != [] && s[0] != OBJECT_END
  {
    match f
    case Number(bits) => [NUMBER] + ToBigEndian(bits, 8)
    case Boolean(b) => [BOOLEAN, if b then 1 else 0]
    case Text(s) => EncodeText(s)
    case Object(es) => [OBJECT] + (EncodeEntries(es) + End())
    case Array(fs) => [STRICT_ARRAY] + (ToBigEndian(|fs|, 4) + EncodeItems(fs))
    case Null => [NULL]
    case Undefined => [UNDEFINED]
    case Unsupported => [UNSUPPORTED]
  }

  function End(): bytes {
    ToBigEndian(0, 2) + [OBJECT_END]
  }

  function EncodeName(name: bytes): bytes {
    ToBigEndian(|name|, 2) + name
  }

  function EncodeEntries(es: seq<Entry>): bytes {
    if es == [] then []
    else EncodeName(es[0].name) + (Encode(es[0].value) + EncodeEntries(es[1..]))
  }

  function EncodeItems(fs: seq<Field>): bytes {
    if fs == [] then [] else Encode(fs[0]) + EncodeItems(fs[1..])
  }

  lemma {:induction false} EntriesAppend(a: seq<Entry>, e: Entry)
    ensures EncodeEntries(a + [e]) == EncodeEntries(a) + (EncodeName(e.name) + Encode(e.value))
    ensures EncodableEntries(a + [e]) <==> EncodableEntries(a) && |e.name| < 65536 && Encodable(e.value)
  {
    if a == [] {
      assert a + [e] == [e] && [e][1..] == [];
    } else {
      assert (a + [e])[1..] == a[1..] + [e];
      EntriesAppend(a[1..], e);
      var last := EncodeName(e.name) + Encode(e.value);
      Assoc(EncodeName(a[0].name), Encode(a[0].value) + EncodeEntries(a[1..]), last);
      Assoc(Encode(a[0].value), EncodeEntries(a[1..]), last);
    }
  }

  lemma {:induction false} ItemsAppend(a: seq<Field>, f: Field)
    ensures EncodeItems(a + [f]) == EncodeItems(a) + Encode(f)
    ensures EncodableItems(a + [f]) <==> EncodableItems(a) && Encodable(f)
  {
    if a == [] {
      assert a + [f] == [f] && [f][1..] == [];
    } else {
      assert (a + [f])[1..] == a[1..] + [f];
      ItemsAppend(a[1..], f);
      Assoc(Encode(a[0]), EncodeItems(a[1..]), Encode(f));
    }
  }

  /** Writing one more entry of a map, which never takes more than writing all of it. */
  lemma {:induction false} EntriesStep(es: seq<Entry>, i: nat)
    requires i < |es|
    ensures EncodeEntries(es[..i + 1]) == EncodeEntries(es[..i]) + (EncodeName(es[i].name) + Encode(es[i].value))
    ensures EncodableEntries(es[..i + 1]) <==>
            EncodableEntries(es[..i]) && |es[i].name| < 65536 && Encodable(es[i].value)
    ensures EncodableEntries(es) ==> EncodableEntries(es[..i + 1])
    ensures |EncodeEntries(es[..i + 1])| <= |EncodeEntries(es)|
    decreases |es| - i
  {
    assert es[..i + 1] == es[..i] + [es[i]];
    EntriesAppend(es[..i], es[i]);
    if i + 1 == |es| {
      assert es[..i + 1] == es;
    } else {
      EntriesStep(es, i + 1);
    }
  }

  lemma {:induction false} ItemsStep(fs: seq<Field>, i: nat)
    requires i < |fs|
    ensures EncodeItems(fs[..i + 1]) == EncodeItems(fs[..i]) + Encode(fs[i])
    ensures EncodableItems(fs[..i + 1]) <==> EncodableItems(fs[..i]) && Encodable(fs[i])
    ensures EncodableItems(fs) ==> EncodableItems(fs[..i + 1])
    ensures |EncodeItems(fs[..i + 1])| <= |EncodeItems(fs)|
    decreases |fs| - i
  {
    assert fs[..i + 1] == fs[..i] + [fs[i]];
    ItemsAppend(fs[..i], fs[i]);
    if i + 1 == |fs| {
      assert fs[..i + 1] == fs;
    } else {
      ItemsStep(fs, i + 1);
    }
  }
}

/** The writers as they run, on a stream of output buffers that may run out. */
module AmfEncoder {
  import opened Bytes
  import opened AmfStream
  import opened AmfValue
  import opened AmfWriter

  method WriteText(s: bytes, stream: OutputStream)
    requires stream.Valid()
    modifies stream
    ensures stream.Valid() && stream.overrun == (old(stream.overrun) || |s| >= INT_LIMIT)
    ensures Wrote(old(stream.Seen()), stream.Seen(), EncodeText(s), |s| < INT_LIMIT)
  {
    if |s| < 65536 {
      WriteMarkedText(STRING, 2, s, stream);
    } else {
      WriteMarkedText(LONG_STRING, 4, s, stream);
    }
  }

  method WriteMarkedText(m: byte, k: nat, s: bytes, stream: OutputStream)
    requires stream.Valid() && k <= 8
    modifies stream
    ensures stream.Valid() && stream.overrun == (old(stream.overrun) || |s| >= INT_LIMIT)
    ensures Wrote(old(stream.Seen()), stream.Seen(), [m] + (ToBigEndian(|s|, k) + s), |s| < INT_LIMIT)
  {
    AfterThree(stream.Seen(), [m], ToBigEndian(|s|, k), s);
    stream.PutU8(m);
    stream.PutWord(|s|, k);
    stream.Putn(s);
  }

  method WriteMarkedWord(m: byte, val: nat, k: nat, stream: OutputStream)
    requires stream.Valid() && k <= 8
    modifies stream
    ensures stream.Valid() && stream.overrun == old(stream.overrun)
    ensures stream.Seen() == After(old(stream.Seen()), [m] + ToBigEndian(val, k))
  {
    AfterThen(stream.Seen(), [m], ToBigEndian(val, k));
    stream.PutU8(m);
    stream.PutWord(val, k);
  }

  method WriteEnd(stream: OutputStream)
    requires stream.Valid()
    modifies stream
    ensures stream.Valid() && stream.Seen() == After(old(stream.Seen()), End()) && stream.overrun == old(stream.overrun)
  {
    AfterThen(stream.Seen(), ToBigEndian(0, 2), [OBJECT_END]);
    stream.PutWord(0, 2);
    stream.PutU8(OBJECT_END);
  }

  method WriteName(name: bytes, stream: OutputStream)
    requires stream.Valid()
    modifies stream
    ensures stream.Valid() && stream.overrun == (old(stream.overrun) || |name| >= INT_LIMIT)
    ensures Wrote(old(stream.Seen()), stream.Seen(), EncodeName(name), |name| < INT_LIMIT)
  {
    AfterThen(stream.Seen(), ToBigEndian(|name|, 2), name);
    stream.PutWord(|name|, 2);
    stream.Putn(name);
  }

  method WriteField(f: Field, stream: OutputStream)
    requires stream.Valid()
    modifies stream
    ensures stream.Valid()
    ensures Wrote(old(stream.Seen()), stream.Seen(), Encode(f), Encodable(f))
    ensures IntSized(f) ==> stream.overrun == old(stream.overrun)
    decreases f, 1
  {
    match f
    case Number(bits) => WriteMarkedWord(NUMBER, bits, 8, stream);
    case Boolean(b) =>
      AfterThen(stream.Seen(), [BOOLEAN], [if b then 1 else 0]);
      stream.PutU8(BOOLEAN);
      stream.PutU8(if b then 1 else 0);
    case Text(s) => WriteText(s, stream);
    case Object(es) => WriteObject(es, stream);
    case Array(fs) => WriteArray(fs, stream);
    case Null => stream.PutU8(NULL);
    case Undefined => stream.PutU8(UNDEFINED);
    case Unsupported => stream.PutU8(UNSUPPORTED);
  }

  /** One turn of the loop in WriteAMFObject. */
  method WriteEntry(e: Entry, stream: OutputStream)
    requires stream.Valid()
    modifies stream
    ensures stream.Valid()
    ensures Wrote(old(stream.Seen()), stream.Seen(), EncodeName(e.name) + Encode(e.value),
                  |e.name| < 65536 && Encodable(e.value))
    ensures IntSized(e.value) ==> stream.overrun == old(stream.overrun)
    decreases e, 2
  {
    if |e.name| >= 65536 {
      stream.SetBad();
      return;
    }
    ghost var v0 := stream.Seen();
    WriteName(e.name, stream);
    ghost var v1 := stream.Seen();
    WriteField(e.value, stream);
    WroteThen(v0, v1, stream.Seen(), EncodeName(e.name), true, Encode(e.value), Encodable(e.value));
  }

  method WriteObject(es: seq<Entry>, stream: OutputStream)
    requires stream.Valid()
    modifies stream
    ensures stream.Valid()
    ensures Wrote(old(stream.Seen()), stream.Seen(), Encode(Object(es)), EncodableEntries(es))
    ensures IntSized(Object(es)) ==> stream.overrun == old(stream.overrun)
    decreases es, 0
  {
    ghost var v0 := stream.Seen();
    stream.PutU8(OBJECT);
    for i := 0 to |es|
      invariant stream.Valid()
      invariant Wrote(v0, stream.Seen(), [OBJECT] + EncodeEntries(es[..i]), EncodableEntries(es[..i]))
      invariant IntSized(Object(es)) ==> stream.overrun == old(stream.overrun)
    {
      ghost var v := stream.Seen();
      WriteEntry(es[i], stream);
      ObjectTurn(v0, v, stream.Seen(), es, i);
      if !stream.good {
        return;
      }
    }
    assert es[..|es|] == es;
    ghost var v1 := stream.Seen();
    WriteEnd(stream);
    WroteThen(v0, v1, stream.Seen(), [OBJECT] + EncodeEntries(es), EncodableEntries(es), End(), true);
    Assoc([OBJECT], EncodeEntries(es), End());
  }

  lemma ObjectTurn(v0: View, v: View, v': View, es: seq<Entry>, i: nat)
    requires i < |es|
    requires Wrote(v0, v, [OBJECT] + EncodeEntries(es[..i]), EncodableEntries(es[..i]))
    requires Wrote(v, v', EncodeName(es[i].name) + Encode(es[i].value), |es[i].name| < 65536 && Encodable(es[i].value))
    ensures Wrote(v0, v', [OBJECT] + EncodeEntries(es[..i + 1]), EncodableEntries(es[..i + 1]))
    ensures !v'.good ==> Wrote(v0, v', Encode(Object(es)), EncodableEntries(es))
  {
    var was, image := [OBJECT] + EncodeEntries(es[..i]), EncodeName(es[i].name) + Encode(es[i].value);
    WroteThen(v0, v, v', was, EncodableEntries(es[..i]), image, |es[i].name| < 65536 && Encodable(es[i].value));
    EntriesStep(es, i);
    var now := [OBJECT] + EncodeEntries(es[..i + 1]);
    Assoc([OBJECT], EncodeEntries(es[..i]), image);
    if !v'.good {
      WroteBad(v0, v', now, EncodableEntries(es[..i + 1]), Encode(Object(es)), EncodableEntries(es));
    }
  }

  method WriteArray(fs: seq<Field>, stream: OutputStream)
    requires stream.Valid()
    modifies stream
    ensures stream.Valid()
    ensures Wrote(old(stream.Seen()), stream.Seen(), Encode(Array(fs)), EncodableItems(fs))
    ensures IntSized(Array(fs)) ==> stream.overrun == old(stream.overrun)
    decreases fs, 0
  {
    ghost var v0, head := stream.Seen(), [STRICT_ARRAY] + ToBigEndian(|fs|, 4);
    WriteMarkedWord(STRICT_ARRAY, |fs|, 4, stream);
    assert head == head + EncodeItems(fs[..0]);
    for i := 0 to |fs|
      invariant stream.Valid()
      invariant Wrote(v0, stream.Seen(), head + EncodeItems(fs[..i]), EncodableItems(fs[..i]))
      invariant IntSized(Array(fs)) ==> stream.overrun == old(stream.overrun)
    {
      ghost var v := stream.Seen();
      WriteField(fs[i], stream);
      ArrayTurn(v0, v, stream.Seen(), head, fs, i);
      if !stream.good {
        return;
      }
    }
    assert fs[..|fs|] == fs;
    Assoc([STRICT_ARRAY], ToBigEndian(|fs|, 4), EncodeItems(fs));
  }

  lemma ArrayTurn(v0: View, v: View, v': View, head: bytes, fs: seq<Field>, i: nat)
    requires i < |fs| && head == [STRICT_ARRAY] + ToBigEndian(|fs|, 4)
    requires Wrote(v0, v, head + EncodeItems(fs[..i]), EncodableItems(fs[..i]))
    requires Wrote(v, v', Encode(fs[i]), Encodable(fs[i]))
    ensures Wrote(v0, v', head + EncodeItems(fs[..i + 1]), EncodableItems(fs[..i + 1]))
    ensures !v'.good ==> Wrote(v0, v', Encode(Array(fs)), EncodableItems(fs))
  {
    var was := head + EncodeItems(fs[..i]);
    WroteThen(v0, v, v', was, EncodableItems(fs[..i]), Encode(fs[i]), Encodable(fs[i]));
    ItemsStep(fs, i);
    var now := head + EncodeItems(fs[..i + 1]);
    Assoc(head, EncodeItems(fs[..i]), Encode(fs[i]));
    if !v'.good {
      WroteBad(v0, v', now, EncodableItems(fs[..i + 1]), Encode(Array(fs)), EncodableItems(fs));
    }
  }
}
