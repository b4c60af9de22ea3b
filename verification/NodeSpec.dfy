/**
  Device path node specifications: the field list that the generator works on,
  the sizes it computes, and what it means for a specification to be accepted.
 */
module NodeSpec {
  import opened Bytes

  const HEADER_SIZE: nat := 4

  /** The base types the generator knows; every byte pattern is a valid value. */
  datatype BaseType =
    | U8 | U16 | U32 | U64
    | Guid | IpAddress | MemoryType
    | BmcInterfaceType
    | BluetoothLeAddressType | DnsAddressType | InfinibandResourceFlags
    | Ipv4AddressOrigin | Ipv6AddressOrigin | IscsiLoginOptions | IscsiProtocol
    | MasterSlave | Parity | PrimarySecondary
    | RestServiceAccessMode | RestServiceType | StopBits
    | PartitionFormat | RamDiskType | SignatureType
  {
    function Size(): (n: nat)
      ensures n in {1, 2, 4, 8, 16}
    {
      match this
      case U16 | IscsiLoginOptions | IscsiProtocol => 2
      case U32 | MemoryType | InfinibandResourceFlags => 4
      case U64 => 8
      case Guid | IpAddress | RamDiskType => 16
      case _ => 1
    }
  }

  datatype PackedType = Base(base: BaseType) | Array(base: BaseType, len: nat) | Slice(base: BaseType)
  {
    function SizeInBytes(): (n: Option<nat>)
      ensures n.None? <==> Slice?
    {
      match this
      case Base(base) => Some(base.Size())
      case Array(base, len) => Some(base.Size() * len)
      case Slice(_) => None
    }

    /** Contribution to the static size: slices count as zero bytes. */
    function StaticSize(): nat {
      match SizeInBytes()
      case Some(n) => n
      case None => 0
    }
  }

  datatype Field = Field(
    hidden: bool,
    ty: PackedType,
    customBuild: bool,
    customBuildSize: bool)
  {
    predicate IsSlice() { ty.Slice? }
  }

  /** A visible field with no `node` attribute. */
  function Plain(ty: PackedType): Field {
    Field(false, ty, false, false)
  }

  datatype Node = Node(deviceType: Byte, subType: Byte, fields: seq<Field>, staticSize: nat)
  {
    /** Static bytes of the first `i` fields. */
    function FixedSize(i: nat): (n: nat)
      requires i <= |fields|
    {
      if i == 0 then 0 else FixedSize(i - 1) + fields[i - 1].ty.StaticSize()
    }

    /** Offset of field `i` in the packed structure, slices being at its end. */
    function Offset(i: nat): (n: nat)
      requires i <= |fields|
    {
      HEADER_SIZE + FixedSize(i)
    }

    predicate IsDst() {
      |fields| > 0 && fields[|fields| - 1].IsSlice()
    }

    function SliceCount(i: nat): nat
      requires i <= |fields|
    {
      if i == 0 then 0 else SliceCount(i - 1) + (if fields[i - 1].IsSlice() then 1 else 0)
    }

    predicate HasDstGroup() {
      SliceCount(|fields|) > 1
    }

    /**
      The slices that the compiler accepts: the packed struct can only be
      unsized at its end, so a specification with a slice ends with one, and
      a hidden slice is no field of the builder, so a build and a size
      function must stand in for it.
     */
    ghost predicate SlicesOk() {
      forall i :: 0 <= i < |fields| && fields[i].IsSlice() ==>
        && IsDst()
        && (fields[i].hidden ==> fields[i].customBuild && fields[i].customBuildSize && !HasDstGroup())
    }

    /** What the generator asserts of a specification and the compiler demands of its output. */
    ghost predicate WellFormed() {
      && staticSize == Offset(|fields|) <= U16_MAX
      && SlicesOk()
    }

    /** Field `i` is a slice and field `j` has bytes at a constant offset. */
    predicate Splits(i: nat, j: nat)
      requires i < |fields| && j < |fields|
    {
      fields[i].IsSlice() && !fields[j].IsSlice() && fields[j].ty.StaticSize() > 0
    }

    /**
      Specifications whose builder is right for every value whose size is a
      u16: a field with bytes follows a slice only if the node has no room for
      an element of that slice, and next to a slice no fixed-size field has a
      size function unless the node has no room at all.
     */
    ghost predicate Safe() {
      && (forall i, j :: 0 <= i < j < |fields| && Splits(i, j) ==> staticSize + fields[i].ty.base.Size() > U16_MAX)
      && (IsDst() && staticSize < U16_MAX ==>
            forall i :: 0 <= i < |fields| && !fields[i].IsSlice() ==> !fields[i].customBuildSize)
    }

    /** The usual ones: slices come last, and next to a slice no fixed-size field has a size function. */
    ghost predicate Sound() {
      && (forall i, j :: 0 <= i < j < |fields| ==> !Splits(i, j))
      && (IsDst() ==> forall i :: 0 <= i < |fields| && !fields[i].IsSlice() ==> !fields[i].customBuildSize)
    }
  }

  /**
    The size check of the generator: the sum of the header and of all the
    fixed-size fields, computed by one pass over the fields.
   */
  method CalculateStaticSize(node: Node) returns (size: Option<nat>)
    ensures size == if node.Offset(|node.fields|) <= U16_MAX then Some(node.Offset(|node.fields|)) else None
  {
    var accum := HEADER_SIZE;
    for i := 0 to |node.fields|
      invariant accum == node.Offset(i)
    {
      accum := accum + node.fields[i].ty.StaticSize();
    }
    size := if accum <= U16_MAX then Some(accum) else None;
  }

  /** A specification of nothing but fixed-size fields of these types, and perhaps a trailing slice. */
  function Spec(types: seq<PackedType>, staticSize: nat): Node {
    Node(0, 0, seq(|types|, i requires 0 <= i < |types| => Plain(types[i])), staticSize)
  }

  lemma {:induction false} SpecSize(types: seq<PackedType>, n: nat, k: nat)
    requires k <= |types|
    ensures Spec(types, n).FixedSize(k) == SumOf(types[..k])
  {
    if k == 0 {
    } else {
      SpecSize(types, n, k - 1);
      assert types[..k][..k - 1] == types[..k - 1];
    }
  }

  function SumOf(types: seq<PackedType>): nat {
    if types == [] then 0 else SumOf(types[..|types| - 1]) + types[|types| - 1].StaticSize()
  }

  lemma {:induction false} SumOfMore(types: seq<PackedType>, ty: PackedType)
    ensures SumOf(types + [ty]) == SumOf(types) + ty.StaticSize()
  {
    assert (types + [ty])[..|types|] == types;
  }

  /** The fields of a node, up to five. */
  datatype Five = Five(a: PackedType, b: PackedType, c: PackedType, d: PackedType, e: PackedType)
  {
    function Types(): seq<PackedType> { [a, b, c, d, e] }

    /** The node of these fields passes the size check. */
    ghost predicate Checks(n: nat) { Spec(Types(), n).Offset(5) == n }

    function Sum(): nat {
      4 + a.StaticSize() + b.StaticSize() + c.StaticSize() + d.StaticSize() + e.StaticSize()
    }
  }

  lemma {:induction false} FiveFields(f: Five, n: nat)
    ensures f.Checks(n) <==> n == f.Sum()
  {
    SpecSize(f.Types(), n, 5);
    assert f.Types()[..5] == [] + [f.a] + [f.b] + [f.c] + [f.d] + [f.e];
    SumOfMore([], f.a);
    SumOfMore([] + [f.a], f.b);
    SumOfMore([] + [f.a] + [f.b], f.c);
    SumOfMore([] + [f.a] + [f.b] + [f.c], f.d);
    SumOfMore([] + [f.a] + [f.b] + [f.c] + [f.d], f.e);
  }

  /** Stands for no field. */
  const NONE: PackedType := Array(U8, 0)

  /** Nodes of the specification file that between them use the base types other than plain integers. */
  datatype SpecNode = MemoryMapped | HardwareVendor | Bmc | Atapi | Iscsi | Infiniband
    | Uart | BluetoothLe | Dns | RestServiceNode | RamDisk
  {
    function Fields(): Five {
      match this
      case MemoryMapped => Five(Base(MemoryType), Base(U64), Base(U64), NONE, NONE)
      case HardwareVendor => Five(Base(Guid), Slice(U8), NONE, NONE, NONE)
      case Bmc => Five(Base(BmcInterfaceType), Base(U64), NONE, NONE, NONE)
      case Atapi => Five(Base(PrimarySecondary), Base(MasterSlave), Base(U16), NONE, NONE)
      case Iscsi => Five(Base(IscsiProtocol), Base(IscsiLoginOptions), Array(U8, 8), Base(U16), Slice(U8))
      case Infiniband => Five(Base(InfinibandResourceFlags), Array(U8, 16), Base(U64), Base(U64), Base(U64))
      case Uart => Five(Base(U32), Base(U64), Base(U8), Base(Parity), Base(StopBits))
      case BluetoothLe => Five(Array(U8, 6), Base(BluetoothLeAddressType), NONE, NONE, NONE)
      case Dns => Five(Base(DnsAddressType), Slice(IpAddress), NONE, NONE, NONE)
      case RestServiceNode => Five(Base(RestServiceType), Base(RestServiceAccessMode), Slice(U8), NONE, NONE)
      case RamDisk => Five(Base(U64), Base(U64), Base(RamDiskType), Base(U16), NONE)
    }

    /** The `static_size` that the file states. */
    function Stated(): nat {
      match this
      case MemoryMapped => 24
      case HardwareVendor => 20
      case Bmc => 13
      case Atapi => 8
      case Iscsi => 18
      case Infiniband => 48
      case Uart => 19
      case BluetoothLe => 11
      case Dns => 5
      case RestServiceNode => 6
      case RamDisk => 38
    }
  }

  /** The base types have the sizes that the specification file counts on: those nodes pass the size check. */
  lemma {:induction false} SpecFileSizes(node: SpecNode)
    ensures node.Fields().Checks(node.Stated())
  {
    StatedSum(node);
    FiveFields(node.Fields(), node.Stated());
  }

  lemma {:induction false} StatedSum(node: SpecNode)
    ensures node.Fields().Sum() == node.Stated()
  {
    if node.MemoryMapped? || node.HardwareVendor? || node.Bmc? || node.Atapi? {
      HardwareSums(node);
    } else if node.Iscsi? || node.Infiniband? || node.Uart? {
      LongSums(node);
    } else {
      OtherSums(node);
    }
  }

  lemma {:induction false} HardwareSums(node: SpecNode)
    requires node.MemoryMapped? || node.HardwareVendor? || node.Bmc? || node.Atapi?
    ensures node.Fields().Sum() == node.Stated()
  {
  }

  lemma {:induction false} LongSums(node: SpecNode)
    requires node.Iscsi? || node.Infiniband? || node.Uart?
    ensures node.Fields().Sum() == node.Stated()
  {
  }

  lemma {:induction false} OtherSums(node: SpecNode)
    requires node.BluetoothLe? || node.Dns? || node.RestServiceNode? || node.RamDisk?
    ensures node.Fields().Sum() == node.Stated()
  {
  }

  lemma {:induction false} FixedSizeMonotone(node: Node, i: nat, j: nat)
    requires i <= j <= |node.fields|
    ensures node.FixedSize(i) <= node.FixedSize(j)
  {
    if i == j {
    } else {
      FixedSizeMonotone(node, i, j - 1);
    }
  }

  lemma {:induction false} SlicesCounted(node: Node, i: nat, j: nat)
    requires i < j <= |node.fields| && node.fields[i].IsSlice()
    ensures node.SliceCount(j) > node.SliceCount(i)
  {
    if i + 1 == j {
    } else {
      SlicesCounted(node, i, j - 1);
    }
  }

  /** With at most one slice, nothing follows a slice and no other comes before it. */
  lemma LoneSliceIsLast(node: Node, i: nat)
    requires node.SlicesOk() && i < |node.fields| && node.fields[i].IsSlice() && !node.HasDstGroup()
    ensures i == |node.fields| - 1
    ensures forall k :: 0 <= k < i ==> !node.fields[k].IsSlice()
  {
    var last := |node.fields| - 1;
    if i < last {
      SlicesCounted(node, i, last);
    }
    forall k | 0 <= k < i
      ensures !node.fields[k].IsSlice()
    {
      if node.fields[k].IsSlice() {
        SlicesCounted(node, k, last);
      }
    }
  }
}
