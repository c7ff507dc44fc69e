/**
 The generic readers of amf.cpp as they run: they advance a chunked stream, recurse
 and loop. Each is proved to compute its AmfReader function of the flat bytes, so no
 result depends on the chunking.
 */
module AmfDecoder {
  import opened Bytes
  import opened AmfStream
  import opened AmfValue
  import Reader = AmfReader

  /** AMF_STRING_READ_CHUNK_SIZE */
  const CHUNK: nat := 64 * 1024

  /** The depths a reader may be entered at: one past the limit, where it refuses. */
  predicate Reached(cfg: Limits, depth: nat) {
    depth == 0 || depth <= cfg.maxDepth + 1
  }

  /** Bytes read and unread add up to the same before and after. */
  twostate predicate Conserved(stream: InputStream)
    reads stream
  {
    stream.popped + |stream.Rest()| == old(stream.popped + |stream.Rest()|)
  }

  /**
   ReadAMFStringData. `peak` is the largest size the string buffer was grown to,
   however large a length the stream declares.
   */
  method ReadStringData(stream: InputStream, len: nat) returns (ok: bool, text: bytes, ghost peak: nat)
    modifies stream
    ensures ok == (len <= |old(stream.Rest())|)
    ensures text == if ok then old(stream.Rest())[..len] else []
    ensures stream.Rest() == Drop(old(stream.Rest()), len)
    ensures Conserved(stream)
    ensures peak <= (stream.popped - old(stream.popped)) + CHUNK
  {
    text, peak := [], 0;
    ghost var start, popped := stream.Rest(), stream.popped;
    while |text| < len
      invariant |text| <= len && start == text + stream.Rest()
      invariant stream.popped == popped + |text|
      invariant peak <= |text| + CHUNK
    {
      var want := if len - |text| < CHUNK then len - |text| else CHUNK;
      peak := if peak < |text| + want then |text| + want else peak;
      TakeJoin(stream.Rest(), want);
      var got := stream.Cutn(want);
      Assoc(text, got, stream.Rest());
      if |got| != want {
        return false, [], peak;
      }
      text := text + got;
    }
    TakeDrop(text, stream.Rest(), len);
    ok := true;
  }

  /** ReadAMFShortStringBody (k = 2) and ReadAMFLongStringBody (k = 4). */
  method ReadText(cfg: Limits, stream: InputStream, k: nat) returns (ok: bool, text: bytes)
    modifies stream
    ensures Reader.TextRead(ok, text, stream.Rest()) == Reader.ReadText(cfg, old(stream.Rest()), k)
    ensures Conserved(stream)
  {
    var n, len := stream.CutWord(k);
    if n != k {
      return false, [];
    }
    if !Reader.Fits(len, cfg.maxString) {
      return false, [];
    }
    ghost var peak;
    ok, text, peak := ReadStringData(stream, len);
  }

  method ReadScalar(cfg: Limits, m: byte, stream: InputStream) returns (ok: bool, field: Option<Field>)
    modifies stream
    ensures Reader.ValueRead(ok, field, stream.Rest()) == Reader.ReadScalar(cfg, m, old(stream.Rest()))
    ensures Conserved(stream)
  {
    if m == NUMBER {
      var n, bits := stream.CutWord(8);
      return n == 8, if n == 8 then Some(Number(bits)) else None;
    } else if m == BOOLEAN {
      var n, flag := stream.CutU8();
      return n == 1, if n == 1 then Some(Boolean(flag != 0)) else None;
    } else if m == STRING || m == LONG_STRING {
      var text;
      ok, text := ReadText(cfg, stream, if m == STRING then 2 else 4);
      field := if ok then Some(Text(text)) else None;
    } else if m == NULL {
      return true, Some(Null);
    } else if m == UNDEFINED {
      return true, Some(Undefined);
    } else if m == UNSUPPORTED {
      return true, Some(Unsupported);
    } else {
      return false, None;
    }
  }

  /** ReadAMFObjectField and ReadAMFArrayItem, into a field now holding `cur`. */
  method ReadValue(cfg: Limits, stream: InputStream, depth: nat, cur: Field)
    returns (ok: bool, field: Option<Field>)
    requires Reached(cfg, depth)
    modifies stream
    ensures Reader.ValueRead(ok, field, stream.Rest()) == Reader.ReadValue(cfg, old(stream.Rest()), depth, cur)
    ensures Conserved(stream)
    decreases |stream.Rest()|, 0
  {
    if depth > cfg.maxDepth {
      return false, None;
    }
    ghost var s := stream.Rest();
    var n, m := stream.CutU8();
    if n != 1 {
      return false, None;
    }
    assert s == [m] + stream.Rest();
    ok, field := ReadMarked(cfg, m, stream, depth, cur);
  }

  /** The two object cases of the marker switch; a class name is read and dropped. */
  method ReadMarkedObject(cfg: Limits, m: byte, stream: InputStream, depth: nat, cur: Field)
    returns (ok: bool, field: Option<Field>)
    requires Reached(cfg, depth) && depth <= cfg.maxDepth && (m == TYPED_OBJECT || m == OBJECT)
    modifies stream
    ensures Reader.ValueRead(ok, field, stream.Rest()) == Reader.ReadValue(cfg, [m] + old(stream.Rest()), depth, cur)
    ensures Conserved(stream)
    decreases |stream.Rest()|, 2
  {
    ghost var t := stream.Rest();
    assert ([m] + t)[1..] == t;
    if m == TYPED_OBJECT {
      var named, class_ := ReadText(cfg, stream, 2);
      if !named {
        return false, None;
      }
    }
    var es;
    ok, es := ReadObjectBody(cfg, stream, depth + 1, Reader.ObjectIn(cur));
    field := Some(Object(es));
  }

  /** The marker switch. */
  method ReadMarked(cfg: Limits, m: byte, stream: InputStream, depth: nat, cur: Field)
    returns (ok: bool, field: Option<Field>)
    requires Reached(cfg, depth) && depth <= cfg.maxDepth
    modifies stream
    ensures Reader.ValueRead(ok, field, stream.Rest()) == Reader.ReadValue(cfg, [m] + old(stream.Rest()), depth, cur)
    ensures Conserved(stream)
    decreases |stream.Rest()|, 3
  {
    ghost var t := stream.Rest();
    assert ([m] + t)[1..] == t;
    if m == TYPED_OBJECT || m == OBJECT {
      ok, field := ReadMarkedObject(cfg, m, stream, depth, cur);
    } else if m == ECMA_ARRAY {
      var es;
      ok, es := ReadEcmaArrayBody(cfg, stream, depth + 1, Reader.ObjectIn(cur));
      field := Some(Object(es));
    } else if m == STRICT_ARRAY {
      var fs;
      ok, fs := ReadArrayBody(cfg, stream, depth + 1, Reader.ArrayIn(cur));
      field := Some(Array(fs));
    } else {
      ok, field := ReadScalar(cfg, m, stream);
    }
  }

  method ReadObjectBody(cfg: Limits, stream: InputStream, depth: nat, es0: seq<Entry>)
    returns (ok: bool, es: seq<Entry>)
    requires Reached(cfg, depth)
    modifies stream
    ensures Reader.ObjectRead(ok, es, stream.Rest()) == Reader.ReadObjectBody(cfg, old(stream.Rest()), depth, es0)
    ensures Conserved(stream)
    decreases |stream.Rest()|, 1
  {
    es := es0;
    if depth > cfg.maxDepth {
      return false, es;
    }
    while true
      invariant |stream.Rest()| <= |old(stream.Rest())| && Conserved(stream)
      invariant Reader.ReadPairs(cfg, old(stream.Rest()), depth, es0, None)
             == Reader.ReadPairs(cfg, stream.Rest(), depth, es, None)
      decreases |stream.Rest()|
    {
      var named, name := ReadText(cfg, stream, 2);
      if !named {
        return true, es;
      }
      if name == [] {
        var n, m := stream.CutU8();
        return n == 1 && m == OBJECT_END, es;
      }
      var read, field := ReadValue(cfg, stream, depth, Current(es, name));
      es := Reader.Store(es, name, field);
      if !read {
        return false, es;
      }
    }
  }

  method ReadEcmaArrayBody(cfg: Limits, stream: InputStream, depth: nat, es0: seq<Entry>)
    returns (ok: bool, es: seq<Entry>)
    requires Reached(cfg, depth)
    modifies stream
    ensures Reader.ObjectRead(ok, es, stream.Rest()) == Reader.ReadEcmaArrayBody(cfg, old(stream.Rest()), depth, es0)
    ensures Conserved(stream)
    decreases |stream.Rest()|, 1
  {
    if depth > cfg.maxDepth {
      return false, es0;
    }
    var n, count := stream.CutWord(4);
    if n != 4 || !Reader.Fits(count, cfg.maxArray) {
      return false, es0;
    }
    ok, es := ReadCountedPairs(cfg, stream, depth, es0, count);
  }

  /** One pair of an ECMA array: a name, which may be empty, and a value. */
  function CountedPair(cfg: Limits, s: bytes, depth: nat, es: seq<Entry>): (r: Reader.ObjectRead)
    ensures |r.rest| <= |s|
  {
    var name := Reader.ReadText(cfg, s, 2);
    if !name.ok then Reader.ObjectRead(false, es, name.rest)
    else
      var v := Reader.ReadValue(cfg, name.rest, depth, Current(es, name.text));
      Reader.ObjectRead(v.ok, Reader.Store(es, name.text, v.field), v.rest)
  }

  lemma PairTurn(cfg: Limits, s: bytes, depth: nat, es: seq<Entry>, left: Option<nat>)
    requires left.Some? && left.value > 0
    ensures var p := CountedPair(cfg, s, depth, es);
            Reader.ReadPairs(cfg, s, depth, es, left)
            == if p.ok then Reader.ReadPairs(cfg, p.rest, depth, p.entries, Reader.Fewer(left)) else p
  {
  }

  method ReadCountedPair(cfg: Limits, stream: InputStream, depth: nat, es0: seq<Entry>)
    returns (ok: bool, es: seq<Entry>)
    requires Reached(cfg, depth)
    modifies stream
    ensures Reader.ObjectRead(ok, es, stream.Rest()) == CountedPair(cfg, old(stream.Rest()), depth, es0)
    ensures Conserved(stream)
    decreases |stream.Rest()|, 1
  {
    var named, name := ReadText(cfg, stream, 2);
    if !named {
      return false, es0;
    }
    var field;
    ok, field := ReadValue(cfg, stream, depth, Current(es0, name));
    es := Reader.Store(es0, name, field);
  }

  /** The loop of an ECMA array. */
  method ReadCountedPairs(cfg: Limits, stream: InputStream, depth: nat, es0: seq<Entry>, count: nat)
    returns (ok: bool, es: seq<Entry>)
    requires Reached(cfg, depth)
    modifies stream
    ensures Reader.ObjectRead(ok, es, stream.Rest())
         == Reader.ReadPairs(cfg, old(stream.Rest()), depth, es0, Some(count))
    ensures Conserved(stream)
    decreases |stream.Rest()|, 2
  {
    es := es0;
    ghost var left: Option<nat> := Some(count);
    ghost var want := Reader.ReadPairs(cfg, stream.Rest(), depth, es, left);
    for i := 0 to count
      invariant |stream.Rest()| <= |old(stream.Rest())| && Conserved(stream)
      invariant left == Some(count - i)
      invariant want == Reader.ReadPairs(cfg, stream.Rest(), depth, es, left)
    {
      PairTurn(cfg, stream.Rest(), depth, es, left);
      ok, es := ReadCountedPair(cfg, stream, depth, es);
      if !ok {
        return;
      }
      left := Reader.Fewer(left);
    }
    ok := true;
  }

  method ReadArrayBody(cfg: Limits, stream: InputStream, depth: nat, fs0: seq<Field>)
    returns (ok: bool, fs: seq<Field>)
    requires Reached(cfg, depth)
    modifies stream
    ensures Reader.ArrayRead(ok, fs, stream.Rest()) == Reader.ReadArrayBody(cfg, old(stream.Rest()), depth, fs0)
    ensures Conserved(stream)
    decreases |stream.Rest()|, 1
  {
    fs := fs0;
    if depth > cfg.maxDepth {
      return false, fs;
    }
    var n, count := stream.CutWord(4);
    if n != 4 || !Reader.Fits(count, cfg.maxArray) {
      return false, fs;
    }
    ghost var left: nat := count;
    ghost var want := Reader.ReadItems(cfg, stream.Rest(), depth, fs, left);
    for i := 0 to count
      invariant |stream.Rest()| < |old(stream.Rest())| && Conserved(stream)
      invariant left == count - i
      invariant want == Reader.ReadItems(cfg, stream.Rest(), depth, fs, left)
    {
      var read, field := ReadValue(cfg, stream, depth, Undefined);
      fs := Reader.Append(fs, field);
      if !read {
        return false, fs;
      }
      left := left - 1;
    }
    ok := true;
  }

  method ReadObject(cfg: Limits, stream: InputStream, es0: seq<Entry>) returns (ok: bool, es: seq<Entry>)
    modifies stream
    ensures Reader.ObjectRead(ok, es, stream.Rest()) == Reader.ReadObject(cfg, old(stream.Rest()), es0)
    ensures Conserved(stream)
  {
    var n, m := stream.CutU8();
    if n != 1 {
      return false, es0;
    }
    if m == OBJECT {
      ok, es := ReadObjectBody(cfg, stream, 0, es0);
    } else if m == ECMA_ARRAY {
      ok, es := ReadEcmaArrayBody(cfg, stream, 0, es0);
    } else {
      ok, es := m == NULL, es0;
    }
  }

  method ReadArray(cfg: Limits, stream: InputStream, fs0: seq<Field>) returns (ok: bool, fs: seq<Field>)
    modifies stream
    ensures Reader.ArrayRead(ok, fs, stream.Rest()) == Reader.ReadArray(cfg, old(stream.Rest()), fs0)
    ensures Conserved(stream)
  {
    var n, m := stream.CutU8();
    if n != 1 {
      return false, fs0;
    }
    if m == STRICT_ARRAY {
      ok, fs := ReadArrayBody(cfg, stream, 0, fs0);
    } else {
      ok, fs := m == NULL, fs0;
    }
  }
}
