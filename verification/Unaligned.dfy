/** Slices of little-endian words at any address, as packed structs contain them. */
module Unaligned {
  import opened Bytes
  import opened Ucs2

  lemma {:induction false} MulMonotone(a: nat, b: nat, c: nat)
    requires a <= b
    ensures a * c <= b * c
  {
    if c == 0 {
    } else {
      MulMonotone(a, b, c - 1);
    }
  }

  /** `len` elements of `elemSize` bytes each, starting at address `at` of the memory. */
  datatype UnalignedSlice = UnalignedSlice(mem: seq<Byte>, at: nat, elemSize: nat, len: nat)
  {
    ghost predicate Valid() {
      elemSize > 0 && at + len * elemSize <= |mem|
    }

    lemma InBounds(i: nat)
      requires Valid() && i < len
      ensures at + (i + 1) * elemSize <= |mem|
      ensures (i + 1) * elemSize == i * elemSize + elemSize
    {
      MulMonotone(i + 1, len, elemSize);
    }

    /** `read_unaligned` of one element. */
    function ElementAt(i: nat): (v: nat)
      requires Valid() && i < len
    {
      InBounds(i);
      LeValue(mem[at + i * elemSize..at + (i + 1) * elemSize])
    }

    /** An element is the word whose little-endian bytes lie at its place. */
    lemma {:induction false} ElementBytes(i: nat)
      requires Valid() && i < len
      ensures at + (i + 1) * elemSize <= |mem| && (i + 1) * elemSize == i * elemSize + elemSize
      ensures LeBytes(ElementAt(i), elemSize) == mem[at + i * elemSize..at + (i + 1) * elemSize]
    {
      InBounds(i);
      LeBytesOfValue(mem[at + i * elemSize..at + (i + 1) * elemSize]);
    }

    function Get(i: nat): (r: Option<nat>)
      requires Valid()
    {
      if i < len then Some(ElementAt(i)) else None
    }

    /** The slice as a plain sequence. */
    function Elements(): (s: seq<nat>)
      requires Valid()
      ensures |s| == len
    {
      seq(len, i requires 0 <= i < len => ElementAt(i))
    }
  }

  /** `copy_to` and `copy_to_maybe_uninit`: a length mismatch panics, otherwise every slot is written. */
  method CopyTo(src: UnalignedSlice, dest: array<Option<nat>>) returns (panicked: bool)
    requires src.Valid()
    modifies dest
    ensures panicked <==> dest.Length != src.len
    ensures !panicked ==> forall i :: 0 <= i < src.len ==> dest[i] == Some(src.Elements()[i])
    ensures panicked ==> dest[..] == old(dest[..])
  {
    if dest.Length != src.len {
      return true;
    }
    for i := 0 to dest.Length
      invariant forall k :: 0 <= k < i ==> dest[k] == Some(src.Elements()[k])
    {
      dest[i] := Some(src.ElementAt(i));
    }
    panicked := false;
  }

  /**
    `to_vec`: the copy goes to all the spare capacity of a new vector.  A
    vector may reserve more than was asked for, and then the copy panics.
   */
  method ToVec(src: UnalignedSlice, capacity: nat) returns (r: Option<seq<nat>>)
    requires src.Valid() && capacity >= src.len
    ensures r == if capacity == src.len then Some(src.Elements()) else None
  {
    var spare := new Option<nat>[capacity](_ => None);
    var panicked := CopyTo(src, spare);
    if panicked {
      return None;
    }
    var v: seq<nat> := [];
    for i := 0 to src.len
      invariant v == src.Elements()[..i]
    {
      v := v + [spare[i].value];
    }
    assert src.Elements()[..src.len] == src.Elements();
    r := Some(v);
  }

  // ----- UCS-2 in memory

  /** The bytes of a u16 slice. */
  function U16Bytes(s: seq<U16>): (bytes: seq<Byte>)
    ensures |bytes| == 2 * |s|
  {
    if s == [] then [] else U16Bytes(s[..|s| - 1]) + LeBytes(s[|s| - 1], 2)
  }

  lemma {:induction false} U16At(s: seq<U16>, i: nat)
    requires i < |s|
    ensures LeValue(U16Bytes(s)[2 * i..2 * i + 2]) == s[i]
  {
    var n := |s| - 1;
    var init := U16Bytes(s[..n]);
    if i == n {
      assert U16Bytes(s)[2 * i..2 * i + 2] == LeBytes(s[n], 2);
      assert Pow256(2) == 0x10000;
      LeValueOfBytes(s[n], 2);
    } else {
      U16At(s[..n], i);
      SliceOfPrefix(init, U16Bytes(s), 2 * i, 2 * i + 2);
    }
  }

  /** Reading the memory of a u16 slice at any address gives the slice back. */
  lemma {:induction false} ReadU16Slice(mem: seq<Byte>, at: nat, s: seq<U16>)
    requires at + 2 * |s| <= |mem| && mem[at..at + 2 * |s|] == U16Bytes(s)
    ensures UnalignedSlice(mem, at, 2, |s|).Valid()
    ensures UnalignedSlice(mem, at, 2, |s|).Elements() == s
  {
    var u := UnalignedSlice(mem, at, 2, |s|);
    forall i | 0 <= i < |s|
      ensures u.ElementAt(i) == s[i]
    {
      U16At(s, i);
      SliceOfSlice(mem, at, at + 2 * |s|, 2 * i, 2 * i + 2);
    }
  }
}
