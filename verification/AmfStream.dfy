/** The two buffered streams of amf_inl.h, over any chunking of the bytes. */
module AmfStream {
  import opened Bytes

  /**
   AMFInputStream. `data` is what is left of the chunk the zero-copy stream
   handed out last (_data and _size); `chunks` is what its Next() has yet to
   hand out. Chunks may be empty.
   */
  class InputStream {
    var data: bytes
    var chunks: seq<bytes>
    var popped: nat

    /** Everything still to be read, whatever the chunking. */
    ghost function Rest(): bytes
      reads this
    {
      data + Join(chunks)
    }

    constructor (chunks: seq<bytes>)
      ensures Rest() == Join(chunks) && popped == 0
    {
      data, this.chunks, popped := [], chunks, 0;
    }

    /** ZeroCopyInputStream::Next. */
    method Next() returns (more: bool)
      modifies this
      ensures popped == old(popped)
      ensures more == (old(chunks) != [])
      ensures more ==> data == old(chunks)[0] && chunks == old(chunks)[1..]
      ensures !more ==> data == old(data) && chunks == []
    {
      more := chunks != [];
      if more {
        data, chunks := chunks[0], chunks[1..];
      }
    }

    method Cutn(n: nat) returns (out: bytes)
      modifies this
      ensures out == Take(old(Rest()), n)
      ensures Rest() == Drop(old(Rest()), n)
      ensures popped == old(popped) + |out|
    {
      out := [];
      var left: nat := n;
      ghost var start := Rest();
      while true
        invariant start == out + Rest()
        invariant |out| + left == n
        invariant popped == old(popped)
        decreases |chunks|
      {
        ghost var before := Join(chunks);
        if |data| >= left {
          CutHere(out, data, before, left);
          out := out + data[..left];
          data := data[left..];
          popped := popped + n;
          TakeDrop(out, Rest(), n);
          return;
        }
        Assoc(out, data, before);
        out := out + data;
        left := left - |data|;
        var more := Next();
        if !more {
          break;
        }
        assert before == data + Join(chunks);
      }
      data := [];
      popped := popped + (n - left);
      TakeDrop(out, [], n);
    }

    /** cut_u8: the fast path reads the current chunk, the slow one cuts. */
    method CutU8() returns (n: nat, val: byte)
      modifies this
      ensures n == |Take(old(Rest()), 1)|
      ensures n == 1 ==> val == old(Rest())[0]
      ensures Rest() == Drop(old(Rest()), 1)
      ensures popped == old(popped) + n
    {
      ghost var start := Rest();
      if |data| >= 1 {
        assert start[0] == data[0];
        n, val := 1, data[0];
        data, popped := data[1..], popped + 1;
        assert Rest() == start[1..];
      } else {
        var out := Cutn(1);
        n, val := |out|, if out == [] then 0 else out[0];
      }
    }

    /**
     cut_u16, cut_u32 and cut_u64, for k = 2, 4, 8: the value of the bytes cut,
     padded with zeros when the stream was too short.
     */
    method CutWord(k: nat) returns (n: nat, val: nat)
      modifies this
      ensures n == |Take(old(Rest()), k)|
      ensures n == k ==> val == FromBigEndian(old(Rest())[..k])
      ensures n < k ==> val == FromBigEndian(old(Rest()) + seq(k - n, _ => 0))
      ensures Rest() == Drop(old(Rest()), k)
      ensures popped == old(popped) + n
    {
      ghost var start := Rest();
      if |data| >= k {
        assert start[..k] == data[..k];
        n, val := k, FromBigEndian(data[..k]);
        data, popped := data[k..], popped + k;
        assert Rest() == start[k..];
      } else {
        var out := Cutn(k);
        n := |out|;
        var pad: bytes := seq(k - n, _ => 0);
        assert n == k ==> out + pad == out;
        val := FromBigEndian(out + pad);
      }
    }
  }

  /** What can be told of an output stream: good and never overrun, the bytes put and the room left. */
  datatype View = View(good: bool, written: bytes, room: nat)

  /** All of `src` is put, or what there is room for and then the stream is bad. */
  function After(v: View, src: bytes): View {
    View(v.good && |src| <= v.room, v.written + Take(src, v.room), v.room - |Take(src, v.room)|)
  }

  /** Puts in a row put the concatenation, wherever the buffers end. */
  lemma AfterThen(v: View, a: bytes, b: bytes)
    ensures After(After(v, a), b) == After(v, a + b)
  {
    if |a| <= v.room {
      assert v.written + a + Take(b, v.room - |a|) == v.written + Take(a + b, v.room);
    } else {
      assert v.written + Take(a, v.room) + [] == v.written + Take(a + b, v.room);
    }
  }

  /** Nothing more fits where there is no room. */
  lemma AfterFull(v: View, src: bytes)
    requires v.room == 0 && src != []
    ensures After(v, src) == View(false, v.written, 0)
  {
    assert v.written + Take(src, 0) == v.written;
  }

  lemma AfterThree(v: View, a: bytes, b: bytes, c: bytes)
    ensures After(After(After(v, a), b), c) == After(v, a + (b + c))
  {
    AfterThen(After(v, a), b, c);
    AfterThen(v, a, b + c);
  }

  /**
   Writing `image`, if it `can` be written at all, took the stream from v to v': it is
   good afterwards exactly if it was and there was room; then `image` was added.
   */
  predicate Wrote(v: View, v': View, image: bytes, can: bool) {
    && (v'.good <==> After(v, image).good && can)
    && (v'.good ==> v' == After(v, image))
  }

  lemma WroteThen(v: View, v': View, v'': View, a: bytes, canA: bool, b: bytes, canB: bool)
    requires Wrote(v, v', a, canA) && Wrote(v', v'', b, canB)
    ensures Wrote(v, v'', a + b, canA && canB)
  {
    AfterThen(v, a, b);
  }

  lemma WroteBad(v: View, v': View, a: bytes, canA: bool, b: bytes, canB: bool)
    requires Wrote(v, v', a, canA) && !v'.good
    requires |a| <= |b| && (canB ==> canA)
    ensures Wrote(v, v', b, canB)
  {
  }

  /**
   AMFOutputStream. `mem` is the memory of all buffers the zero-copy stream has
   handed out, of which the last `size` bytes are not written yet; `supply` holds
   the buffers its Next() can still hand out, with whatever junk they contain.
   putn takes its length as an int; `overrun` tells that it was given one that does not
   fit, and nothing more is said of a stream where that happened.
   */
  class OutputStream {
    var good: bool
    var size: nat
    var mem: bytes
    var supply: seq<bytes>
    var pushed: nat
    ghost var overrun: bool

    ghost predicate Valid()
      reads this
    {
      size <= |mem| && pushed == |Written()|
    }

    /** The bytes put so far. */
    ghost function Written(): bytes
      reads this
    {
      if size <= |mem| then mem[..|mem| - size] else []
    }

    ghost function Seen(): View
      reads this
    {
      View(good && !overrun, Written(), Room())
    }

    /** How many more bytes the buffers can take. */
    ghost function Room(): nat
      reads this
    {
      size + |Join(supply)|
    }

    constructor (supply: seq<bytes>)
      ensures Valid() && good && !overrun && Written() == [] && Room() == |Join(supply)|
    {
      good, size, mem, pushed := true, 0, [], 0;
      overrun := false;
      this.supply := supply;
    }

    /** ZeroCopyOutputStream::Next. */
    method Next() returns (more: bool)
      requires size == 0
      modifies this
      ensures size <= |mem| && Seen() == old(Seen()) && pushed == old(pushed) && overrun == old(overrun)
      ensures more ==> |supply| < |old(supply)|
      ensures !more ==> Room() == 0
    {
      more := supply != [];
      if more {
        size, mem, supply := |supply[0]|, mem + supply[0], supply[1..];
      }
    }

    /** memcpy to _data, advancing it. */
    method Fill(src: bytes)
      requires |src| <= size <= |mem|
      modifies this
      ensures size == old(size) - |src| && size <= |mem|
      ensures Seen() == After(old(Seen()), src)
      ensures pushed == old(pushed) && supply == old(supply) && overrun == old(overrun)
    {
      var at := |mem| - size;
      mem := mem[..at] + src + mem[at + |src|..];
      size := size - |src|;
    }

    /** One turn of putn's loop that fills the current buffer and moves on. */
    method FillAndNext(todo: bytes) returns (more: bool)
      requires size < |todo| && size <= |mem|
      modifies this
      ensures size <= |mem| && pushed == old(pushed) && overrun == old(overrun)
      ensures Seen() == After(old(Seen()), todo[..old(size)])
      ensures After(Seen(), todo[old(size)..]) == After(old(Seen()), todo)
      ensures more ==> |supply| < |old(supply)|
      ensures !more ==> Room() == 0
    {
      AfterThen(Seen(), todo[..size], todo[size..]);
      assert todo[..size] + todo[size..] == todo;
      Fill(todo[..size]);
      more := Next();
    }

    /** putn */
    method Putn(src: bytes)
      requires Valid()
      modifies this
      ensures Valid() && overrun == (old(overrun) || |src| >= INT_LIMIT)
      ensures |src| < INT_LIMIT ==> Seen() == After(old(Seen()), src)
    {
      overrun := overrun || |src| >= INT_LIMIT;
      CopyAll(src);
    }

    /** The loop of putn. */
    method CopyAll(src: bytes)
      requires Valid()
      modifies this
      ensures Valid() && Seen() == After(old(Seen()), src) && overrun == old(overrun)
    {
      var todo := src;
      while true
        invariant size <= |mem| && |todo| <= |src| && overrun == old(overrun)
        invariant After(Seen(), todo) == After(old(Seen()), src)
        invariant pushed == |Written()| - (|src| - |todo|)
        decreases |supply|
      {
        if |todo| <= size {
          Fill(todo);
          pushed := pushed + |src|;
          return;
        }
        var filled := size;
        var more := FillAndNext(todo);
        todo := todo[filled..];
        if !more {
          AfterFull(Seen(), todo);
          break;
        }
      }
      size, good := 0, false;
      pushed := pushed + (|src| - |todo|);
    }

    method PutU8(val: byte)
      requires Valid()
      modifies this
      ensures Valid() && Seen() == After(old(Seen()), [val]) && overrun == old(overrun)
    {
      ghost var start := Seen();
      while true
        invariant Valid() && Seen() == start && overrun == old(overrun)
        decreases |supply|
      {
        if size > 0 {
          Fill([val]);
          pushed := pushed + 1;
          return;
        }
        var more := Next();
        if !more {
          break;
        }
      }
      size := 0;
      good := false;
    }

    /** put_u16, put_u32 and put_u64, for k = 2, 4, 8. */
    method PutWord(val: nat, k: nat)
      requires Valid() && k <= 8
      modifies this
      ensures Valid() && Seen() == After(old(Seen()), ToBigEndian(val, k)) && overrun == old(overrun)
    {
      Putn(ToBigEndian(val, k));
    }

    method SetBad()
      requires Valid()
      modifies this`good
      ensures Valid() && !good
    {
      good := false;
    }

    /** done(): a good stream hands its unwritten tail back, a bad one keeps it. */
    method Done()
      requires Valid()
      modifies this
      ensures Valid() && good == old(good) && Written() == old(Written()) && supply == old(supply)
      ensures overrun == old(overrun)
      ensures good ==> mem == Written() && size == 0
      ensures !good ==> mem == old(mem)
    {
      if good && size != 0 {
        mem := mem[..|mem| - size];
        size := 0;
      }
    }
  }
}

/** Any sequence of puts on an output stream. */
module AmfPuts {
  import opened Bytes
  import opened AmfStream

  datatype Put = Byte(val: byte) | Word(word: nat, k: nat) | Block(src: bytes)

  function ImageOf(p: Put): bytes {
    match p
    case Byte(val) => [val]
    case Word(word, k) => ToBigEndian(word, k)
    case Block(src) => src
  }

  function Concat(ps: seq<Put>): bytes {
    if ps == [] then [] else Concat(ps[..|ps| - 1]) + ImageOf(ps[|ps| - 1])
  }

  /** put_u16, put_u32 and put_u64 are the only words. */
  predicate WordsOnly(ps: seq<Put>) {
    forall i :: 0 <= i < |ps| && ps[i].Word? ==> ps[i].k <= 8
  }

  /** No block is longer than an int holds. */
  predicate IntBlocks(ps: seq<Put>) {
    forall i :: 0 <= i < |ps| && ps[i].Block? ==> |ps[i].src| < INT_LIMIT
  }

  method PutOne(p: Put, stream: OutputStream)
    requires stream.Valid() && (p.Word? ==> p.k <= 8)
    modifies stream
    ensures stream.Valid() && stream.overrun == (old(stream.overrun) || (p.Block? && |p.src| >= INT_LIMIT))
    ensures !stream.overrun ==> stream.Seen() == After(old(stream.Seen()), ImageOf(p))
  {
    match p
    case Byte(val) => stream.PutU8(val);
    case Word(word, k) => stream.PutWord(word, k);
    case Block(src) => stream.Putn(src);
  }

  lemma ConcatStep(ps: seq<Put>, i: nat)
    requires i < |ps|
    ensures Concat(ps[..i + 1]) == Concat(ps[..i]) + ImageOf(ps[i])
    ensures IntBlocks(ps[..i + 1]) <==> IntBlocks(ps[..i]) && (ps[i].Block? ==> |ps[i].src| < INT_LIMIT)
  {
    assert ps[..i + 1] == ps[..i] + [ps[i]];
    assert ps[..i + 1][..i] == ps[..i];
  }

  /** The puts took a stream that was not overrun from v to v'. */
  predicate PutSo(v: View, v': View, overrun: bool, ps: seq<Put>) {
    (overrun <==> !IntBlocks(ps)) && (!overrun ==> v' == After(v, Concat(ps)))
  }

  lemma PutTurn(v: View, v1: View, over1: bool, v2: View, over2: bool, ps: seq<Put>, i: nat)
    requires i < |ps| && PutSo(v, v1, over1, ps[..i])
    requires over2 <==> over1 || (ps[i].Block? && |ps[i].src| >= INT_LIMIT)
    requires !over2 ==> v2 == After(v1, ImageOf(ps[i]))
    ensures PutSo(v, v2, over2, ps[..i + 1])
  {
    ConcatStep(ps, i);
    AfterThen(v, Concat(ps[..i]), ImageOf(ps[i]));
  }

  method PutEach(ps: seq<Put>, stream: OutputStream)
    requires stream.Valid() && !stream.overrun && WordsOnly(ps)
    modifies stream
    ensures stream.Valid() && PutSo(old(stream.Seen()), stream.Seen(), stream.overrun, ps)
  {
    ghost var v := stream.Seen();
    NoPuts(v);
    for i := 0 to |ps|
      invariant stream.Valid() && PutSo(v, stream.Seen(), stream.overrun, ps[..i])
    {
      ghost var v1, over := stream.Seen(), stream.overrun;
      PutOne(ps[i], stream);
      PutTurn(v, v1, over, stream.Seen(), stream.overrun, ps, i);
    }
    assert ps[..|ps|] == ps;
  }

  lemma NoPuts(v: View)
    ensures PutSo(v, v, false, [])
  {
    assert v.written + Take([], v.room) == v.written;
  }

  /**
   Puts and then done(), over any supply of buffers, no block longer than an int holds. The stream is good
   exactly if there was room; then the bytes kept are all that was put, in order. Good or not, pushed_bytes
   is what there was room for.
   */
  method PutAll(ps: seq<Put>, supply: seq<bytes>) returns (good: bool, kept: bytes, pushed: nat)
    requires WordsOnly(ps)
    ensures IntBlocks(ps) ==> (good <==> |Concat(ps)| <= |Join(supply)|)
    ensures IntBlocks(ps) && good ==> kept == Concat(ps)
    ensures IntBlocks(ps) ==> pushed == |Take(Concat(ps), |Join(supply)|)|
  {
    var stream := new OutputStream(supply);
    PutEach(ps, stream);
    pushed := stream.pushed;
    stream.Done();
    good, kept := stream.good, stream.mem;
  }
}
