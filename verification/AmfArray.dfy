/** AMFArray: four inline slots and a deque, kept as one sequence. */
module AmfArray {
  import opened AmfValue

  const INLINE: nat := 4

  class AMFArray {
    var size: nat
    const slots: array<Field>
    var more: seq<Field>

    /** The deque holds exactly the overflow, and inline slots not in use are undefined. */
    ghost predicate Valid()
      reads this, slots
    {
      && slots.Length == INLINE
      && |more| == (if size <= INLINE then 0 else size - INLINE)
      && forall i :: size <= i < INLINE ==> slots[i] == Undefined
    }

    ghost function Contents(): (s: seq<Field>)
      requires Valid()
      reads this, slots
      ensures |s| == size
    {
      slots[..if size < INLINE then size else INLINE] + more
    }

    constructor ()
      ensures Valid() && fresh(slots) && Contents() == []
    {
      size, more := 0, [];
      slots := new Field[INLINE](_ => Undefined);
    }

    /** The copy constructor. */
    constructor Copy(rhs: AMFArray)
      requires rhs.Valid()
      ensures Valid() && fresh(slots) && Contents() == rhs.Contents()
    {
      size := rhs.size;
      more := [];
      slots := new Field[INLINE](_ => Undefined);
      new;
      var inline := if size < INLINE then size else INLINE;
      for i := 0 to inline
        invariant size == rhs.size && more == [] && slots.Length == INLINE && fresh(slots)
        invariant slots[..i] == rhs.slots[..i]
        invariant forall j :: i <= j < INLINE ==> slots[j] == Undefined
      {
        slots[i] := rhs.slots[i];
      }
      if size > INLINE {
        more := rhs.more;
      }
    }

    /** operator[] for reading. */
    function At(i: nat): (f: Field)
      requires Valid() && i < size
      reads this, slots
      ensures f == Contents()[i]
    {
      if i < INLINE then slots[i] else more[i - INLINE]
    }

    /** Assigning through operator[]. */
    method Set(i: nat, f: Field)
      requires Valid() && i < size
      modifies this, slots
      ensures Valid() && Contents() == old(Contents())[i := f]
    {
      if i < INLINE {
        slots[i] := f;
      } else {
        more := more[i - INLINE := f];
      }
    }

    /** AddField: the new field, at the returned index, is undefined. */
    method AddField() returns (i: nat)
      requires Valid()
      modifies this
      ensures Valid() && i == old(size) && Contents() == old(Contents()) + [Undefined]
    {
      i := size;
      if size < INLINE {
        size := size + 1;
        return;
      }
      if size - INLINE < |more| {
        // Reusing an element of the deque: never, it holds no more than the overflow.
        assert false;
      }
      more := more + [Undefined];
      size := size + 1;
    }

    /** AddNumber, AddString and the others: a new field, then its setter. */
    method Add(f: Field)
      requires Valid()
      modifies this, slots
      ensures Valid() && Contents() == old(Contents()) + [f]
    {
      var i := AddField();
      Set(i, f);
    }

    method RemoveLastField()
      requires Valid()
      modifies this, slots
      ensures Valid()
      ensures Contents() == if old(size) == 0 then [] else old(Contents())[..old(size) - 1]
    {
      if size == 0 {
        return;
      }
      if size <= INLINE {
        size := size - 1;
        slots[size] := Undefined;
        return;
      }
      more := more[..|more| - 1];
      size := size - 1;
    }

    method Clear()
      requires Valid()
      modifies this, slots
      ensures Valid() && Contents() == []
    {
      var inline := if size < INLINE then size else INLINE;
      for i := 0 to inline
        invariant slots.Length == INLINE && size == old(size)
        invariant forall j :: 0 <= j < i ==> slots[j] == Undefined
        invariant forall j :: size <= j < INLINE ==> slots[j] == Undefined
      {
        slots[i] := Undefined;
      }
      size := 0;
      more := [];
    }

    /** AMFField::operator=, which clears the field before it reads the other one. */
    method AssignField(i: nat, rhs: AMFArray)
      requires Valid() && rhs.Valid() && i < size && i < rhs.size
      requires rhs == this || rhs.slots != slots
      modifies this, slots
      ensures Valid() && rhs.Valid() && size == old(size) && rhs.size == old(rhs.size)
      ensures Contents() == old(Contents())[i := if rhs == this then Undefined else old(rhs.Contents())[i]]
      ensures rhs != this ==> rhs.Contents() == old(rhs.Contents())
    {
      Set(i, Undefined);
      Set(i, rhs.At(i));
    }

    /**
     operator=. The loop that removes the surplus compares a growing index with the
     shrinking size, so it stops half way; and assigning an array to itself clears it.
     */
    method Assign(rhs: AMFArray)
      requires Valid() && rhs.Valid()
      requires rhs == this || rhs.slots != slots
      modifies this, slots
      ensures Valid()
      ensures rhs != this ==>
                Contents() == Assigned(old(Contents()), rhs.Contents()) && rhs.Contents() == old(rhs.Contents())
      ensures rhs == this ==> Contents() == seq(old(size), _ => Undefined)
    {
      if size < rhs.size {
        Rebuild(rhs);
        return;
      }
      if rhs == this {
        ClearEach();
        RemoveSurplus(rhs.size);
      } else {
        ghost var was, from, n := Contents(), rhs.Contents(), rhs.size;
        AssignEach(rhs);
        RemoveSurplus(rhs.size);
        SurplusLeft(was, from, n);
      }
    }

    /** The loop over the common part, from another array. */
    method AssignEach(rhs: AMFArray)
      requires Valid() && rhs.Valid() && rhs != this && rhs.slots != slots && rhs.size <= size
      modifies this, slots
      ensures Valid() && rhs.Valid() && rhs.size == old(rhs.size) && size == old(size)
      ensures rhs.Contents() == old(rhs.Contents())
      ensures Contents() == rhs.Contents() + old(Contents())[rhs.size..]
    {
      ghost var was, from := Contents(), rhs.Contents();
      for i := 0 to rhs.size
        invariant Valid() && rhs.Valid() && size == old(size) && rhs.size == old(rhs.size)
        invariant rhs.Contents() == from
        invariant forall j :: 0 <= j < size ==> Contents()[j] == if j < i then from[j] else was[j]
      {
        AssignField(i, rhs);
      }
    }

    /** The same loop when both arrays are this one. */
    method ClearEach()
      requires Valid()
      modifies this, slots
      ensures Valid() && size == old(size) && Contents() == seq(old(size), _ => Undefined)
    {
      ghost var was := Contents();
      for i := 0 to size
        invariant Valid() && size == old(size)
        invariant forall j :: 0 <= j < size ==> Contents()[j] == if j < i then Undefined else was[j]
      {
        AssignField(i, this);
      }
    }

    /** Destruction and copy construction in place. */
    method Rebuild(rhs: AMFArray)
      requires Valid() && rhs.Valid() && rhs != this && rhs.slots != slots
      modifies this, slots
      ensures Valid() && rhs.Valid()
      ensures Contents() == rhs.Contents() == old(rhs.Contents())
    {
      Clear();
      var inline := if rhs.size < INLINE then rhs.size else INLINE;
      for i := 0 to inline
        invariant slots.Length == INLINE && more == [] && rhs.Valid() && rhs.Contents() == old(rhs.Contents())
        invariant rhs.slots[..] == old(rhs.slots[..]) && rhs.size == old(rhs.size) && rhs.more == old(rhs.more)
        invariant slots[..i] == rhs.slots[..i]
        invariant forall j :: i <= j < INLINE ==> slots[j] == Undefined
      {
        slots[i] := rhs.slots[i];
      }
      size := rhs.size;
      if size > INLINE {
        more := rhs.more;
      }
    }

    /** for (i = from; i < _size; ++i) RemoveLastField() */
    method RemoveSurplus(from: nat)
      requires Valid() && from <= size
      modifies this, slots
      ensures Valid() && Contents() == old(Contents())[..from + (old(size) - from) / 2]
    {
      var i := from;
      while i < size
        invariant Valid() && from <= i && size <= old(size)
        invariant i - from == old(size) - size && i <= size + 1
        invariant Contents() == old(Contents())[..size]
        decreases size
      {
        RemoveLastField();
        i := i + 1;
      }
    }
  }

  /** What assigning b to an array of contents a leaves in it. */
  function Assigned(a: seq<Field>, b: seq<Field>): seq<Field> {
    if |a| <= |b| then b else b + a[|b|..|b| + (|a| - |b|) / 2]
  }

  lemma SurplusLeft(a: seq<Field>, b: seq<Field>, n: nat)
    requires n == |b| <= |a|
    ensures (b + a[n..])[..n + (|a| - n) / 2] == Assigned(a, b)
  {
    var k := (|a| - n) / 2;
    assert (b + a[n..])[..n + k] == b + a[n..][..k];
    assert a[n..][..k] == a[n..n + k];
  }

  /** Assignment is exact if and only if at most one element has to go. */
  lemma AssignedExactly(a: seq<Field>, b: seq<Field>)
    ensures Assigned(a, b) == b <==> |a| <= |b| + 1
  {
    if |a| == |b| + 1 {
      assert a[|b|..|b|] == [];
    } else if |a| > |b| + 1 {
      assert |Assigned(a, b)| > |b|;
    }
  }

  /** Two elements too many are already one too many to be assigned away. */
  lemma AssignedKeepsOne()
    ensures Assigned([Null, Null, Boolean(true)], [Null]) == [Null, Null]
  {
  }
}

/** ReadAMFArray into an AMFArray: chunks, bytes, trees and the container together. */
module AmfArrayDecoder {
  import opened Bytes
  import opened AmfStream
  import opened AmfValue
  import Reader = AmfReader
  import opened AmfDecoder
  import opened AmfArray

  method ReadArrayInto(cfg: Limits, stream: InputStream, arr: AMFArray) returns (ok: bool)
    requires arr.Valid()
    modifies stream, arr, arr.slots
    ensures arr.Valid() && Conserved(stream)
    ensures Reader.ArrayRead(ok, arr.Contents(), stream.Rest())
         == Reader.ReadArray(cfg, old(stream.Rest()), old(arr.Contents()))
  {
    var n, m := stream.CutU8();
    if n != 1 {
      return false;
    }
    if m != STRICT_ARRAY {
      return m == NULL;
    }
    ok := ReadBodyInto(cfg, stream, arr);
  }

  method ReadBodyInto(cfg: Limits, stream: InputStream, arr: AMFArray) returns (ok: bool)
    requires arr.Valid()
    modifies stream, arr, arr.slots
    ensures arr.Valid() && Conserved(stream)
    ensures Reader.ArrayRead(ok, arr.Contents(), stream.Rest())
         == Reader.ReadArrayBody(cfg, old(stream.Rest()), 0, old(arr.Contents()))
  {
    if 0 > cfg.maxDepth {
      return false;
    }
    var n, count := stream.CutWord(4);
    if n != 4 || !Reader.Fits(count, cfg.maxArray) {
      return false;
    }
    ok := ReadItemsInto(cfg, stream, arr, count);
  }

  /** The counted loop, which fills the array in place. */
  method ReadItemsInto(cfg: Limits, stream: InputStream, arr: AMFArray, count: nat) returns (ok: bool)
    requires arr.Valid()
    modifies stream, arr, arr.slots
    ensures arr.Valid() && Conserved(stream)
    ensures Reader.ArrayRead(ok, arr.Contents(), stream.Rest())
         == Reader.ReadItems(cfg, old(stream.Rest()), 0, old(arr.Contents()), count)
  {
    ghost var left: nat, items := count, arr.Contents();
    ghost var want := Reader.ReadItems(cfg, stream.Rest(), 0, items, left);
    for i := 0 to count
      invariant arr.Valid() && items == arr.Contents() && Conserved(stream) && left == count - i
      invariant want == Reader.ReadItems(cfg, stream.Rest(), 0, items, left)
    {
      ItemTurn(cfg, stream.Rest(), items, left);
      var read, field := ReadValue(cfg, stream, 0, Undefined);
      items := Reader.Append(items, field);
      if field.Some? {
        arr.Add(field.value);
      }
      if !read {
        return false;
      }
      left := left - 1;
    }
    ok := true;
  }

  lemma ItemTurn(cfg: Limits, s: bytes, fs: seq<Field>, left: nat)
    requires left > 0
    ensures var r, v := Reader.ReadItems(cfg, s, 0, fs, left), Reader.ReadValue(cfg, s, 0, Undefined);
            var fs' := Reader.Append(fs, v.field);
            r == if v.ok then Reader.ReadItems(cfg, v.rest, 0, fs', left - 1) else Reader.ArrayRead(false, fs', v.rest)
  {
  }
}
