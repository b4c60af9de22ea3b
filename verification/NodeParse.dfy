/**
  The reading half of the generator: the `TryFrom` conversion of a device path
  node to a packed struct, the accessors, and their round trips with the
  builder.
 */
module NodeParse {
  import opened Bytes
  import opened NodeSpec
  import opened NodeBuild

  datatype NodeConversionError = DifferentType | InvalidLength | UnsupportedType

  /** A packed struct reference: the node's bytes and the element count of the trailing slice. */
  datatype Packed = Packed(bytes: seq<Byte>, dstLen: nat)

  /** A device path node: a header whose length field is the length of the node. */
  predicate ValidNode(bytes: seq<Byte>) {
    |bytes| >= HEADER_SIZE && LeValue(bytes[2..4]) == |bytes|
  }

  /** The generated `TryFrom<&DevicePathNode>`. */
  function TryFrom(node: Node, bytes: seq<Byte>): (r: Result<Packed, NodeConversionError>)
    requires ValidNode(bytes)
  {
    if bytes[0] != node.deviceType || bytes[1] != node.subType then Err(DifferentType)
    else if node.IsDst() then
      var elemSize := node.fields[|node.fields| - 1].ty.base.Size();
      if |bytes| < node.staticSize then Err(InvalidLength)
      else
        var dstSize := |bytes| - node.staticSize;
        if dstSize % elemSize != 0 then Err(InvalidLength) else Ok(Packed(bytes, dstSize / elemSize))
    else if |bytes| != node.staticSize then Err(InvalidLength)
    else Ok(Packed(bytes, 0))
  }

  /** A node of this length has `n` elements in its trailing slice. */
  predicate HasElements(node: Node, n: nat, length: nat)
    requires node.IsDst()
  {
    length == node.staticSize + n * node.fields[|node.fields| - 1].ty.base.Size()
  }

  /**
    What is accepted: the right types, and a length that is the static size
    and, for a specification that ends with a slice, any number of elements
    more.  Otherwise the first thing that is wrong is reported.
   */
  lemma TryFromAccepts(node: Node, bytes: seq<Byte>)
    requires ValidNode(bytes)
    ensures TryFrom(node, bytes) == Err(DifferentType) <==> !(bytes[0] == node.deviceType && bytes[1] == node.subType)
    ensures TryFrom(node, bytes).Ok? <==>
              && bytes[0] == node.deviceType && bytes[1] == node.subType
              && (|bytes| == node.staticSize || (node.IsDst() && exists n: nat :: HasElements(node, n, |bytes|)))
    ensures TryFrom(node, bytes) != Err(UnsupportedType)
    ensures TryFrom(node, bytes).Ok? ==> TryFrom(node, bytes).value.bytes == bytes
  {
    if node.IsDst() && |bytes| >= node.staticSize {
      var e, d := node.fields[|node.fields| - 1].ty.base.Size(), |bytes| - node.staticSize;
      if d % e == 0 {
        DivMul(d, e);
        assert HasElements(node, d / e, |bytes|);
      }
      forall n: nat | HasElements(node, n, |bytes|)
        ensures d % e == 0
      {
        WholeElements(n, e);
      }
    }
  }

  ghost predicate Accepted(node: Node, p: Packed) {
    ValidNode(p.bytes) && TryFrom(node, p.bytes) == Ok(p)
  }

  /** Length in bytes of field `i` of a packed struct that has no group. */
  function FieldLength(node: Node, p: Packed, i: nat): nat
    requires i < |node.fields|
  {
    if node.fields[i].IsSlice() then p.dstLen * node.fields[i].ty.base.Size() else node.fields[i].ty.StaticSize()
  }

  lemma DivMul(n: nat, e: nat)
    requires e in {1, 2, 4, 8, 16} && n % e == 0
    ensures (n / e) * e == n
  {
  }

  lemma FieldInBounds(node: Node, p: Packed, i: nat)
    requires node.WellFormed() && Accepted(node, p) && i < |node.fields|
    requires !(node.fields[i].IsSlice() && node.HasDstGroup())
    ensures node.Offset(i) + FieldLength(node, p, i) <= |p.bytes|
    ensures node.fields[i].IsSlice() ==> node.Offset(i) + FieldLength(node, p, i) == |p.bytes|
  {
    if node.fields[i].IsSlice() {
      LoneSliceIsLast(node, i);
      DivMul(|p.bytes| - node.staticSize, node.fields[i].ty.base.Size());
    } else {
      FixedSizeMonotone(node, i + 1, |node.fields|);
    }
  }

  /** The autogenerated accessor: a copy of a fixed field, or the trailing slice. */
  function Get(node: Node, p: Packed, i: nat): (s: seq<Byte>)
    requires node.WellFormed() && Accepted(node, p) && i < |node.fields|
    requires !(node.fields[i].IsSlice() && node.HasDstGroup())
    ensures |s| == FieldLength(node, p, i)
  {
    FieldInBounds(node, p, i);
    p.bytes[node.Offset(i)..node.Offset(i) + FieldLength(node, p, i)]
  }

  /** The combined `data: [u8]` field of a group: as many bytes as the conversion counted elements. */
  function GroupData(node: Node, p: Packed): (s: seq<Byte>)
    requires node.WellFormed() && Accepted(node, p) && node.HasDstGroup() && node.IsDst()
  {
    GroupInBounds(node, p);
    p.bytes[node.staticSize..node.staticSize + p.dstLen]
  }

  lemma GroupInBounds(node: Node, p: Packed)
    requires node.WellFormed() && Accepted(node, p) && node.IsDst()
    ensures node.staticSize + p.dstLen <= |p.bytes|
  {
    var e := node.fields[|node.fields| - 1].ty.base.Size();
    DivMul(|p.bytes| - node.staticSize, e);
  }

  // ----- Reading back what was built

  lemma {:induction false} FieldsUpToPrefix(node: Node, v: BuildValue, i: nat, n: nat)
    requires HasShape(node, v) && i <= n <= |node.fields|
    ensures FieldsUpTo(node, v, i) <= FieldsUpTo(node, v, n)
  {
    if i == n {
    } else {
      FieldsUpToPrefix(node, v, i, n - 1);
      PrefixOfJoin(FieldsUpTo(node, v, i), FieldsUpTo(node, v, n - 1), FieldBytes(node, v, n - 1));
    }
  }

  lemma FieldInFields(node: Node, v: BuildValue, i: nat)
    requires HasShape(node, v) && i < |node.fields|
    ensures |FieldsUpTo(node, v, i + 1)| == |FieldsUpTo(node, v, i)| + |FieldBytes(node, v, i)|
    ensures |FieldsUpTo(node, v, i + 1)| <= |FieldsUpTo(node, v, |node.fields|)|
    ensures FieldsUpTo(node, v, |node.fields|)[|FieldsUpTo(node, v, i)|..|FieldsUpTo(node, v, i + 1)|]
              == FieldBytes(node, v, i)
  {
    FieldsUpToPrefix(node, v, i + 1, |node.fields|);
    SliceOfPrefix(FieldsUpTo(node, v, i + 1), FieldsUpTo(node, v, |node.fields|),
                  |FieldsUpTo(node, v, i)|, |FieldsUpTo(node, v, i + 1)|);
  }

  lemma ImageIsValidNode(node: Node, v: BuildValue)
    requires node.WellFormed() && ValueOk(node, v) && SizeInBytes(node, v).Ok?
    ensures ValidNode(Image(node, v))
    ensures |Image(node, v)| == SizeInBytes(node, v).value
    ensures Image(node, v)[0] == node.deviceType && Image(node, v)[1] == node.subType
    ensures Image(node, v)[HEADER_SIZE..] == FieldsUpTo(node, v, |node.fields|)
  {
    SizeIsImageLength(node, v);
    var n := |Image(node, v)|;
    assert Pow256(2) == 65536;
    LeValueOfBytes(n, 2);
    assert Image(node, v)[2..4] == LeBytes(n, 2);
  }

  /** The trailing slice of a built node without a group holds whole elements. */
  lemma BuiltSliceIsWhole(node: Node, v: BuildValue)
    requires node.WellFormed() && ValueOk(node, v) && node.IsDst() && !node.HasDstGroup()
    ensures |Image(node, v)| >= node.staticSize
    ensures (|Image(node, v)| - node.staticSize) % node.fields[|node.fields| - 1].ty.base.Size() == 0
  {
    var last := |node.fields| - 1;
    ImageLength(node, v);
    LoneSliceIsLast(node, last);
    NoSliceBytesBefore(node, v, last);
    assert FieldAdmissible(node, v, last);
  }

  /** A built node without a group is accepted. */
  lemma BuiltNodeIsAccepted(node: Node, v: BuildValue)
    requires node.WellFormed() && ValueOk(node, v) && SizeInBytes(node, v).Ok? && !node.HasDstGroup()
    ensures ValidNode(Image(node, v)) && TryFrom(node, Image(node, v)).Ok?
  {
    ImageIsValidNode(node, v);
    if node.IsDst() {
      BuiltSliceIsWhole(node, v);
    } else {
      ImageLength(node, v);
    }
  }

  /**
    Parsing a built node succeeds and every accessor returns the bytes that
    the builder was given for its field.
   */
  lemma AccessorsReadWhatWasBuilt(node: Node, v: BuildValue, i: nat)
    requires node.WellFormed() && ValueOk(node, v) && SizeInBytes(node, v).Ok? && i < |node.fields|
    requires ValidNode(Image(node, v)) && TryFrom(node, Image(node, v)).Ok?
    requires !(node.fields[i].IsSlice() && node.HasDstGroup())
    ensures Get(node, TryFrom(node, Image(node, v)).value, i) == FieldBytes(node, v, i)
  {
    BuiltFieldLength(node, v, TryFrom(node, Image(node, v)).value, i);
    if FieldBytes(node, v, i) != [] {
      BuiltFieldOffset(node, v, i);
      FieldInImage(node, v, i);
    }
  }

  lemma FieldInImage(node: Node, v: BuildValue, i: nat)
    requires node.WellFormed() && ValueOk(node, v) && SizeInBytes(node, v).Ok? && i < |node.fields|
    ensures var a := HEADER_SIZE + |FieldsUpTo(node, v, i)|;
            && a + |FieldBytes(node, v, i)| <= |Image(node, v)|
            && Image(node, v)[a..a + |FieldBytes(node, v, i)|] == FieldBytes(node, v, i)
  {
    ImageIsValidNode(node, v);
    FieldInFields(node, v, i);
    SliceOfSuffix(Image(node, v), HEADER_SIZE, |FieldsUpTo(node, v, i)|, |FieldsUpTo(node, v, i + 1)|);
  }

  lemma BuiltFieldOffset(node: Node, v: BuildValue, i: nat)
    requires node.WellFormed() && ValueOk(node, v) && i < |node.fields| && FieldBytes(node, v, i) != []
    requires !(node.fields[i].IsSlice() && node.HasDstGroup())
    ensures node.Offset(i) == HEADER_SIZE + |FieldsUpTo(node, v, i)|
  {
    FieldStarts(node, v, i);
    InPlaceBefore(node, v, |node.fields|, i);
    assert FieldAdmissible(node, v, i);
  }

  lemma BuiltFieldLength(node: Node, v: BuildValue, p: Packed, i: nat)
    requires node.WellFormed() && ValueOk(node, v) && i < |node.fields|
    requires SizeInBytes(node, v).Ok? && p.bytes == Image(node, v) && Accepted(node, p)
    requires !(node.fields[i].IsSlice() && node.HasDstGroup())
    ensures FieldLength(node, p, i) == |FieldBytes(node, v, i)|
  {
    assert FieldAdmissible(node, v, i);
    if node.fields[i].IsSlice() {
      ImageIsValidNode(node, v);
      FieldInBounds(node, p, i);
      LoneSliceIsLast(node, i);
      FieldStarts(node, v, i);
    }
  }

  /** As many bytes as there are elements: all of them exactly when an element is one byte or there is none. */
  lemma DataCoversIff(image: seq<Byte>, at: nat, count: nat, e: nat)
    requires at + count <= |image| && count * e == |image| - at && e > 0
    ensures image[at..at + count] == image[at..] <==> e == 1 || image[at..] == []
  {
    if image[at..at + count] == image[at..] && e > 1 {
      assert count == count * e;
      assert count == 0 || count * e > count;
    }
  }

  /**
    A group is read through one byte slice whose length is counted in elements
    of the last field.  The conversion accepts a built group exactly when its
    slices fill whole elements of the last field, and `data` then covers all
    of them exactly when that element is one byte (or there is no data).
   */
  lemma GroupReadsBackExactlyForBytes(node: Node, v: BuildValue)
    requires node.WellFormed() && ValueOk(node, v) && SizeInBytes(node, v).Ok?
    requires node.HasDstGroup() && node.IsDst()
    ensures ValidNode(Image(node, v)) && node.staticSize <= |Image(node, v)|
    ensures var e := node.fields[|node.fields| - 1].ty.base.Size();
            var slices := Image(node, v)[node.staticSize..];
            && (TryFrom(node, Image(node, v)).Ok? <==> |slices| % e == 0)
            && (TryFrom(node, Image(node, v)).Ok? ==>
                  (GroupData(node, TryFrom(node, Image(node, v)).value) == slices <==> e == 1 || slices == []))
  {
    ImageIsValidNode(node, v);
    ImageLength(node, v);
    var image := Image(node, v);
    var e := node.fields[|node.fields| - 1].ty.base.Size();
    if TryFrom(node, image).Ok? {
      var p := TryFrom(node, image).value;
      GroupInBounds(node, p);
      DivMul(|image| - node.staticSize, e);
      DataCoversIff(image, node.staticSize, p.dstLen, e);
    }
  }

  /** A group of two u16 slices, each holding one element. */
  const WORD_GROUP: Node := Node(1, 1, [Plain(Slice(U16)), Plain(Slice(U16))], 4)
  const WORD_GROUP_VALUE: BuildValue := BuildValue([[1, 0], [2, 0]], [[], []], [0, 0])

  /** Of the four bytes in that group only two can be read back. */
  lemma WordGroupIsTruncated()
    ensures WORD_GROUP.WellFormed() && WORD_GROUP.HasDstGroup() && WORD_GROUP.IsDst()
    ensures ValueOk(WORD_GROUP, WORD_GROUP_VALUE) && SizeInBytes(WORD_GROUP, WORD_GROUP_VALUE) == Ok(8)
    ensures var image := Image(WORD_GROUP, WORD_GROUP_VALUE);
            && ValidNode(image) && TryFrom(WORD_GROUP, image).Ok?
            && |GroupData(WORD_GROUP, TryFrom(WORD_GROUP, image).value)| == 2
  {
    assert WORD_GROUP.FixedSize(1) == 0;
    assert WORD_GROUP.SliceCount(1) == 1;
    assert DynamicSizeUpTo(WORD_GROUP, WORD_GROUP_VALUE, 1) == 2;
    ImageIsValidNode(WORD_GROUP, WORD_GROUP_VALUE);
  }

  // ----- Rebuilding what was parsed

  /** Byte `k` of the node belongs to a hidden field. */
  ghost predicate IsHiddenByte(node: Node, k: nat) {
    exists i :: 0 <= i < |node.fields| && node.fields[i].hidden
        && node.Offset(i) <= k < node.Offset(i) + node.fields[i].ty.StaticSize()
  }

  ghost function ZeroHidden(node: Node, bytes: seq<Byte>): (s: seq<Byte>)
    ensures |s| == |bytes|
  {
    seq(|bytes|, k requires 0 <= k < |bytes| => if IsHiddenByte(node, k) then 0 else bytes[k])
  }

  /** The builder value that copies every visible field through its accessor. */
  function FromAccessors(node: Node, p: Packed): (v: BuildValue)
    requires node.WellFormed() && Accepted(node, p) && !node.HasDstGroup()
    ensures HasShape(node, v)
  {
    BuildValue(seq(|node.fields|, i requires 0 <= i < |node.fields| => Get(node, p, i)),
               seq(|node.fields|, _ => []),
               seq(|node.fields|, _ => 0))
  }

  ghost predicate NoCustomBuild(node: Node) {
    forall i :: 0 <= i < |node.fields| ==> !node.fields[i].customBuild && !node.fields[i].customBuildSize
  }

  lemma HiddenByteOfField(node: Node, p: Packed, i: nat, k: nat)
    requires node.WellFormed() && Accepted(node, p) && i < |node.fields| && !node.HasDstGroup() && NoCustomBuild(node)
    requires node.Offset(i) <= k < node.Offset(i) + FieldLength(node, p, i)
    ensures IsHiddenByte(node, k) <==> node.fields[i].hidden
  {
    if node.fields[i].hidden {
      assert node.Offset(i) <= k < node.Offset(i) + node.fields[i].ty.StaticSize();
    } else {
      forall j | 0 <= j < |node.fields| && node.fields[j].hidden
        ensures !(node.Offset(j) <= k < node.Offset(j) + node.fields[j].ty.StaticSize())
      {
        if j < i {
          FixedSizeMonotone(node, j + 1, i);
        } else {
          if node.fields[i].IsSlice() {
            LoneSliceIsLast(node, i);
          }
          FixedSizeMonotone(node, i + 1, j);
        }
      }
    }
  }

  /** The bytes the builder takes for a field are the parsed ones, zeroed if the field is hidden. */
  lemma RebuiltField(node: Node, p: Packed, i: nat)
    requires node.WellFormed() && Accepted(node, p) && !node.HasDstGroup() && NoCustomBuild(node)
    requires i < |node.fields|
    ensures node.Offset(i) + FieldLength(node, p, i) <= |p.bytes|
    ensures FieldBytes(node, FromAccessors(node, p), i)
              == ZeroHidden(node, p.bytes)[node.Offset(i)..node.Offset(i) + FieldLength(node, p, i)]
  {
    FieldInBounds(node, p, i);
    var a, n := node.Offset(i), FieldLength(node, p, i);
    forall k | a <= k < a + n
      ensures IsHiddenByte(node, k) == node.fields[i].hidden
    {
      HiddenByteOfField(node, p, i, k);
    }
    ZeroHiddenSlice(node, p.bytes, a, a + n, node.fields[i].hidden);
  }

  lemma ZeroHiddenSlice(node: Node, bytes: seq<Byte>, a: nat, b: nat, hidden: bool)
    requires a <= b <= |bytes|
    requires forall k :: a <= k < b ==> IsHiddenByte(node, k) == hidden
    ensures ZeroHidden(node, bytes)[a..b] == if hidden then Zeros(b - a) else bytes[a..b]
  {
    var z := ZeroHidden(node, bytes);
    forall k | 0 <= k < b - a
      ensures z[a..b][k] == if hidden then 0 else bytes[a..b][k]
    {
      assert IsHiddenByte(node, a + k) == hidden;
    }
  }

  /** Where field `i` starts, the end of the node when there is no such field. */
  function FieldStart(node: Node, p: Packed, i: nat): nat
    requires i <= |node.fields|
  {
    if i == |node.fields| then |p.bytes| else node.Offset(i)
  }

  lemma NextFieldStart(node: Node, p: Packed, i: nat)
    requires node.WellFormed() && Accepted(node, p) && !node.HasDstGroup() && i < |node.fields|
    ensures HEADER_SIZE <= FieldStart(node, p, i)
    ensures FieldStart(node, p, i) + FieldLength(node, p, i) == FieldStart(node, p, i + 1) <= |p.bytes|
  {
    FieldInBounds(node, p, i);
    if node.fields[i].IsSlice() {
      LoneSliceIsLast(node, i);
    }
  }

  ghost predicate FieldIsSlice(node: Node, v: BuildValue, z: seq<Byte>, starts: seq<nat>, k: nat)
    requires HasShape(node, v) && |starts| == |node.fields| + 1 && k < |node.fields|
  {
    starts[k] <= starts[k + 1] <= |z| && FieldBytes(node, v, k) == z[starts[k]..starts[k + 1]]
  }

  /** Fields that are consecutive slices of one sequence join up to a slice of it. */
  lemma {:induction false} FieldsAreSlices(node: Node, v: BuildValue, z: seq<Byte>, starts: seq<nat>, i: nat)
    requires HasShape(node, v) && |starts| == |node.fields| + 1 && i <= |node.fields|
    requires starts[0] <= |z| && forall k :: 0 <= k < |node.fields| ==> FieldIsSlice(node, v, z, starts, k)
    ensures starts[0] <= starts[i] <= |z| && FieldsUpTo(node, v, i) == z[starts[0]..starts[i]]
  {
    if i == 0 {
    } else {
      FieldsAreSlices(node, v, z, starts, i - 1);
      assert FieldIsSlice(node, v, z, starts, i - 1);
      JoinSlices(z, starts[0], starts[i - 1], starts[i]);
    }
  }

  lemma {:induction false} FieldStartsAfterHeader(node: Node, p: Packed)
    requires node.WellFormed() && Accepted(node, p) && !node.HasDstGroup()
    ensures FieldStart(node, p, 0) == HEADER_SIZE
  {
    if |node.fields| == 0 {
      assert node.staticSize == HEADER_SIZE;
    }
  }

  /**
    The builder accepts what the accessors of a parsed node return, and gives
    the same bytes, except that hidden fields become zero.
   */
  lemma RebuildParsedNode(node: Node, p: Packed)
    requires node.WellFormed() && Accepted(node, p) && !node.HasDstGroup() && NoCustomBuild(node)
    ensures ValueOk(node, FromAccessors(node, p))
    ensures SizeInBytes(node, FromAccessors(node, p)) == Ok(|p.bytes|)
    ensures Image(node, FromAccessors(node, p)) == ZeroHidden(node, p.bytes)
  {
    RebuiltImage(node, p);
    AccessorsAreRegular(node, p);
    SizeIsImageLength(node, FromAccessors(node, p));
    LengthFieldIsU16(p.bytes);
  }

  lemma RebuiltImage(node: Node, p: Packed)
    requires node.WellFormed() && Accepted(node, p) && !node.HasDstGroup() && NoCustomBuild(node)
    ensures Image(node, FromAccessors(node, p)) == ZeroHidden(node, p.bytes)
  {
    RebuiltFields(node, p);
    RebuiltHeader(node, p);
    JoinSlices(ZeroHidden(node, p.bytes), 0, HEADER_SIZE, |p.bytes|);
  }

  lemma RebuiltFields(node: Node, p: Packed)
    requires node.WellFormed() && Accepted(node, p) && !node.HasDstGroup() && NoCustomBuild(node)
    ensures FieldsUpTo(node, FromAccessors(node, p), |node.fields|) == ZeroHidden(node, p.bytes)[HEADER_SIZE..|p.bytes|]
  {
    var starts := seq(|node.fields| + 1, i requires 0 <= i <= |node.fields| => FieldStart(node, p, i));
    FieldStartsAfterHeader(node, p);
    forall k | 0 <= k < |node.fields|
      ensures FieldIsSlice(node, FromAccessors(node, p), ZeroHidden(node, p.bytes), starts, k)
    {
      NextFieldStart(node, p, k);
      RebuiltField(node, p, k);
    }
    FieldsAreSlices(node, FromAccessors(node, p), ZeroHidden(node, p.bytes), starts, |node.fields|);
  }

  lemma LengthFieldIsU16(bytes: seq<Byte>)
    requires ValidNode(bytes)
    ensures |bytes| <= U16_MAX
  {
    assert |bytes[2..4]| == 2 && Pow256(2) == 0x1_0000;
    LeBytesOfValue(bytes[2..4]);
  }

  lemma AccessorIsAdmissible(node: Node, p: Packed, i: nat)
    requires node.WellFormed() && Accepted(node, p) && !node.HasDstGroup() && NoCustomBuild(node)
    requires i < |node.fields|
    ensures FieldAdmissible(node, FromAccessors(node, p), i)
  {
    var v := FromAccessors(node, p);
    assert v.plain[i] == Get(node, p, i) && v.custom[i] == [];
    if node.fields[i].IsSlice() {
      WholeElements(p.dstLen, node.fields[i].ty.base.Size());
    }
  }

  lemma WholeElements(n: nat, e: nat)
    requires e in {1, 2, 4, 8, 16}
    ensures (n * e) % e == 0
  {
    if e == 2 {
      assert (n * 2) % 2 == 0;
    } else if e == 4 {
      assert (n * 4) % 4 == 0;
    } else if e == 8 {
      assert (n * 8) % 8 == 0;
    } else if e == 16 {
      assert (n * 16) % 16 == 0;
    }
  }

  lemma AccessorsAreRegular(node: Node, p: Packed)
    requires node.WellFormed() && Accepted(node, p) && !node.HasDstGroup() && NoCustomBuild(node)
    ensures ValueOk(node, FromAccessors(node, p))
  {
    forall i | 0 <= i < |node.fields|
      ensures FieldAdmissible(node, FromAccessors(node, p), i)
    {
      AccessorIsAdmissible(node, p, i);
    }
    forall i | 0 <= i < |node.fields| && node.fields[i].IsSlice()
      ensures i == |node.fields| - 1
    {
      LoneSliceIsLast(node, i);
    }
    SoundIsRegular(node, FromAccessors(node, p));
  }

  /** Parse, read every field and run the generated builder: the bytes of the node, with hidden fields zeroed. */
  method Rebuild(node: Node, p: Packed, out: array<MaybeUninit>)
    requires node.WellFormed() && Accepted(node, p) && !node.HasDstGroup() && NoCustomBuild(node)
    requires out.Length == |p.bytes| && forall k :: 0 <= k < out.Length ==> out[k].None?
    modifies out
    ensures Holds(out, 0, ZeroHidden(node, p.bytes))
  {
    RebuildParsedNode(node, p);
    WriteData(node, FromAccessors(node, p), out, 0);
  }

  lemma RebuiltHeader(node: Node, p: Packed)
    requires node.WellFormed() && Accepted(node, p)
    ensures ZeroHidden(node, p.bytes)[0..HEADER_SIZE] == Header(node.deviceType, node.subType, |p.bytes|)
  {
    HeaderIsVisible(node);
    ZeroHiddenSlice(node, p.bytes, 0, HEADER_SIZE, false);
    HeaderOf(p.bytes);
  }

  lemma HeaderIsVisible(node: Node)
    ensures forall k :: 0 <= k < HEADER_SIZE ==> !IsHiddenByte(node, k)
  {
  }

  lemma HeaderOf(bytes: seq<Byte>)
    requires ValidNode(bytes)
    ensures bytes[0..HEADER_SIZE] == Header(bytes[0], bytes[1], |bytes|)
  {
    LeBytesOfValue(bytes[2..4]);
    assert |bytes[2..4]| == 2;
    assert bytes[0..HEADER_SIZE] == [bytes[0], bytes[1]] + bytes[2..4];
  }
}
