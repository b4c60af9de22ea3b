/**
  Nodes with hand-written build or get code: HardDrive, RestService and
  FilePath, as instances of the generated code.
 */
module CustomNodes {
  import opened Bytes
  import opened NodeSpec
  import opened NodeBuild
  import opened NodeParse
  import opened Ucs2
  import opened Unaligned

  // ----- HardDrive

  datatype PartitionSignature =
    | NoSignature
    | Mbr(mbr: seq<Byte>)
    | GuidSignature(guid: seq<Byte>)
    | Unknown(signatureType: Byte, signature: seq<Byte>)
  {
    ghost predicate Ok() {
      match this
      case NoSignature => true
      case Mbr(mbr) => |mbr| == 4
      case GuidSignature(guid) => |guid| == 16
      case Unknown(_, signature) => |signature| == 16
    }
  }

  const HARD_DRIVE: Node := Node(0x04, 0x01,
    [Plain(Base(U32)), Plain(Base(U64)), Plain(Base(U64)),
     Field(false, Array(U8, 16), true, false),
     Plain(Base(PartitionFormat)),
     Field(false, Base(U8), true, false)], 42)

  datatype HardDrive = HardDrive(
    partitionNumber: seq<Byte>, partitionStart: seq<Byte>, partitionSize: seq<Byte>,
    signature: PartitionSignature, format: Byte)
  {
    ghost predicate Ok() {
      |partitionNumber| == 4 && |partitionStart| == 8 && |partitionSize| == 8 && signature.Ok()
    }

    /** `build_partition_signature`. */
    function BuildPartitionSignature(): (s: seq<Byte>) {
      match signature
      case NoSignature => Zeros(16)
      case Mbr(mbr) => mbr + Zeros(12)
      case GuidSignature(guid) => guid
      case Unknown(_, sig) => sig
    }

    /** `build_signature_type`. */
    function BuildSignatureType(): Byte {
      match signature
      case NoSignature => 0
      case Mbr(_) => 1
      case GuidSignature(_) => 2
      case Unknown(signatureType, _) => signatureType
    }

    function Value(): BuildValue {
      BuildValue([partitionNumber, partitionStart, partitionSize, [], [format], []],
                 [[], [], [], BuildPartitionSignature(), [], [BuildSignatureType()]],
                 [0, 0, 0, 0, 0, 0])
    }
  }

  /** The getter `partition_signature`, on the two raw fields. */
  function ReadSignature(signature: seq<Byte>, signatureType: Byte): PartitionSignature
    requires |signature| == 16
  {
    if signatureType == 0 then NoSignature
    else if signatureType == 1 then Mbr(signature[..4])
    else if signatureType == 2 then GuidSignature(signature)
    else Unknown(signatureType, signature)
  }

  lemma HardDriveIsWellFormed()
    ensures HARD_DRIVE.WellFormed() && !HARD_DRIVE.HasDstGroup()
  {
    assert HARD_DRIVE.FixedSize(1) == 4;
    assert HARD_DRIVE.FixedSize(2) == 12;
    assert HARD_DRIVE.FixedSize(3) == 20;
    assert HARD_DRIVE.FixedSize(4) == 36;
    assert HARD_DRIVE.FixedSize(5) == 37;
    assert HARD_DRIVE.SliceCount(3) == 0;
    assert HARD_DRIVE.SliceCount(5) == 0;
  }

  lemma HardDriveFields(h: HardDrive)
    requires h.Ok()
    ensures ValueOk(HARD_DRIVE, h.Value()) && SizeInBytes(HARD_DRIVE, h.Value()).Ok?
    ensures FieldBytes(HARD_DRIVE, h.Value(), 3) == h.BuildPartitionSignature()
    ensures FieldBytes(HARD_DRIVE, h.Value(), 5) == [h.BuildSignatureType()]
  {
    HardDriveIsWellFormed();
    SoundIsRegular(HARD_DRIVE, h.Value());
  }

  /** A signature reads back as built, except an `Unknown` one whose type number is taken. */
  lemma HardDriveSignatureRoundTripIff(h: HardDrive)
    requires h.Ok()
    ensures HARD_DRIVE.WellFormed() && !HARD_DRIVE.HasDstGroup()
    ensures var image := Image(HARD_DRIVE, h.Value());
            && ValidNode(image) && TryFrom(HARD_DRIVE, image).Ok?
            && var p := TryFrom(HARD_DRIVE, image).value;
            (ReadSignature(Get(HARD_DRIVE, p, 3), Get(HARD_DRIVE, p, 5)[0]) == h.signature
             <==> !(h.signature.Unknown? && h.signature.signatureType <= 2))
  {
    HardDriveIsWellFormed();
    HardDriveFields(h);
    BuiltNodeIsAccepted(HARD_DRIVE, h.Value());
    AccessorsReadWhatWasBuilt(HARD_DRIVE, h.Value(), 3);
    AccessorsReadWhatWasBuilt(HARD_DRIVE, h.Value(), 5);
    SignatureRoundTrip(h);
  }

  /** An `Unknown` signature of type zero reads back as no signature. */
  lemma UnknownTypeZeroIsLost()
    ensures var h := HardDrive(Zeros(4), Zeros(8), Zeros(8), Unknown(0, Zeros(16)), 2);
            h.Ok() && ReadSignature(h.BuildPartitionSignature(), h.BuildSignatureType()) == NoSignature != h.signature
  {
  }

  lemma SignatureRoundTrip(h: HardDrive)
    requires h.Ok()
    ensures |h.BuildPartitionSignature()| == 16
    ensures ReadSignature(h.BuildPartitionSignature(), h.BuildSignatureType()) == h.signature
            <==> !(h.signature.Unknown? && h.signature.signatureType <= 2)
  {
    if h.signature.Mbr? {
      assert (h.signature.mbr + Zeros(12))[..4] == h.signature.mbr;
    }
  }

  /** The bytes of a built node: the signature, padded with zeros, the format and the type of the signature. */
  lemma HardDriveSignatureOnWire(h: HardDrive)
    requires h.Ok()
    ensures var image := Image(HARD_DRIVE, h.Value());
            && |image| == 42 && image[40] == h.format
            && match h.signature
               case NoSignature => image[24..40] == Zeros(16) && image[41] == 0
               case Mbr(mbr) => image[24..28] == mbr && image[28..40] == Zeros(12) && image[41] == 1
               case GuidSignature(guid) => image[24..40] == guid && image[41] == 2
               case Unknown(n, signature) => image[24..40] == signature && image[41] == n
  {
    var image := Image(HARD_DRIVE, h.Value());
    HardDriveIsWellFormed();
    HardDriveFields(h);
    BuiltNodeIsAccepted(HARD_DRIVE, h.Value());
    ImageIsValidNode(HARD_DRIVE, h.Value());
    AccessorsReadWhatWasBuilt(HARD_DRIVE, h.Value(), 3);
    AccessorsReadWhatWasBuilt(HARD_DRIVE, h.Value(), 4);
    AccessorsReadWhatWasBuilt(HARD_DRIVE, h.Value(), 5);
    HardDriveOffsets(TryFrom(HARD_DRIVE, image).value);
    SignatureRoundTrip(h);
    if h.signature.Mbr? {
      SliceOfSlice(image, 24, 40, 0, 4);
      SliceOfSlice(image, 24, 40, 4, 16);
    }
  }

  lemma HardDriveOffsets(p: Packed)
    requires Accepted(HARD_DRIVE, p)
    ensures HARD_DRIVE.WellFormed() && !HARD_DRIVE.HasDstGroup() && |p.bytes| == 42
    ensures Get(HARD_DRIVE, p, 3) == p.bytes[24..40]
    ensures Get(HARD_DRIVE, p, 4) == p.bytes[40..41]
    ensures Get(HARD_DRIVE, p, 5) == p.bytes[41..42]
  {
    HardDriveIsWellFormed();
    assert HARD_DRIVE.FixedSize(3) == 20;
    assert HARD_DRIVE.FixedSize(4) == 36;
    assert HARD_DRIVE.FixedSize(5) == 37;
  }

  /** What any accepted node reads as: its last byte tells how the signature is to be taken. */
  lemma HardDriveSignatureFromWire(p: Packed)
    requires Accepted(HARD_DRIVE, p)
    ensures HARD_DRIVE.WellFormed() && !HARD_DRIVE.HasDstGroup() && |p.bytes| == 42
    ensures var signature := ReadSignature(Get(HARD_DRIVE, p, 3), Get(HARD_DRIVE, p, 5)[0]);
            && (p.bytes[41] == 0 ==> signature == NoSignature)
            && (p.bytes[41] == 1 ==> signature == Mbr(p.bytes[24..28]))
            && (p.bytes[41] == 2 ==> signature == GuidSignature(p.bytes[24..40]))
            && (p.bytes[41] > 2 ==> signature == Unknown(p.bytes[41], p.bytes[24..40]))
  {
    HardDriveOffsets(p);
    SliceOfSlice(p.bytes, 24, 40, 0, 4);
  }

  // ----- RestService

  const VENDOR: Byte := 0xff
  const GUID_SIZE: nat := 16

  const REST_SERVICE: Node := Node(0x03, 33,
    [Plain(Base(RestServiceType)), Plain(Base(RestServiceAccessMode)),
     Field(false, Slice(U8), true, true)], 6)

  datatype VendorData = VendorData(guid: seq<Byte>, data: seq<Byte>)

  datatype RestService = RestService(serviceType: Byte, accessMode: Byte, vendor: Option<VendorData>)
  {
    ghost predicate Ok() {
      vendor.Some? ==> |vendor.value.guid| == GUID_SIZE
    }

    /** The size and build functions assert that vendor data comes with the vendor service type. */
    predicate Panics() {
      vendor.Some? && serviceType != VENDOR
    }

    /** `build_size_vendor_guid_and_data`. */
    function BuildSize(): (n: nat)
      requires Ok() && !Panics()
      ensures n == |BuildBytes()|
    {
      if vendor.Some? then GUID_SIZE + |vendor.value.data| else 0
    }

    /** What `build_vendor_guid_and_data` is to write. */
    function BuildBytes(): seq<Byte> {
      if vendor.Some? then vendor.value.guid + vendor.value.data else []
    }

    function Value(): BuildValue
      requires Ok() && !Panics()
    {
      BuildValue([[serviceType], [accessMode], []], [[], [], BuildBytes()], [0, 0, BuildSize()])
    }
  }

  /** `build_vendor_guid_and_data`: the GUID, then data for all that is left of the buffer. */
  method BuildVendorGuidAndData(r: RestService, out: array<MaybeUninit>, offset: nat)
    requires r.Ok() && !r.Panics() && offset + r.BuildSize() == out.Length
    requires forall k :: offset <= k < out.Length ==> out[k].None?
    modifies out
    ensures Holds(out, offset, r.BuildBytes())
    ensures forall k :: 0 <= k < offset ==> out[k] == old(out[k])
  {
    if r.vendor.Some? {
      var src := r.vendor.value;
      Store(out, offset, src.guid);
      var dataLen := out.Length - (offset + GUID_SIZE);
      Store(out, offset + GUID_SIZE, src.data[..dataLen]);
      assert src.data[..dataLen] == src.data;
      HoldsJoin(out, offset, src.guid, src.data);
    }
  }

  /** The getter `vendor_guid_and_data`, on the raw fields. */
  function ReadVendor(serviceType: Byte, raw: seq<Byte>): Option<VendorData> {
    if serviceType == VENDOR && |raw| >= GUID_SIZE then Some(VendorData(raw[..GUID_SIZE], raw[GUID_SIZE..])) else None
  }

  lemma RestServiceIsWellFormed()
    ensures REST_SERVICE.WellFormed() && !REST_SERVICE.HasDstGroup() && REST_SERVICE.IsDst()
  {
    assert REST_SERVICE.FixedSize(1) == 1;
    assert REST_SERVICE.FixedSize(2) == 2;
    assert REST_SERVICE.SliceCount(2) == 0;
  }

  lemma RestServiceFields(r: RestService)
    requires r.Ok() && !r.Panics()
    ensures ValueOk(REST_SERVICE, r.Value())
    ensures FieldBytes(REST_SERVICE, r.Value(), 0) == [r.serviceType]
    ensures FieldBytes(REST_SERVICE, r.Value(), 2) == r.BuildBytes()
    ensures SizeInBytes(REST_SERVICE, r.Value()).Ok? <==> 6 + |r.BuildBytes()| <= U16_MAX
  {
    RestServiceIsWellFormed();
    assert DynamicSizeUpTo(REST_SERVICE, r.Value(), 1) == 0;
    assert DynamicSizeUpTo(REST_SERVICE, r.Value(), 2) == 0;
    SoundIsRegular(REST_SERVICE, r.Value());
  }

  /** Vendor data of any length reads back with its GUID, and none reads back as none. */
  lemma RestServiceVendorRoundTrip(r: RestService)
    requires r.Ok() && !r.Panics() && 6 + |r.BuildBytes()| <= U16_MAX
    ensures REST_SERVICE.WellFormed() && !REST_SERVICE.HasDstGroup()
    ensures var image := Image(REST_SERVICE, r.Value());
            && ValidNode(image) && TryFrom(REST_SERVICE, image).Ok?
            && var p := TryFrom(REST_SERVICE, image).value;
            ReadVendor(Get(REST_SERVICE, p, 0)[0], Get(REST_SERVICE, p, 2)) == r.vendor
  {
    RestServiceIsWellFormed();
    RestServiceFields(r);
    BuiltNodeIsAccepted(REST_SERVICE, r.Value());
    AccessorsReadWhatWasBuilt(REST_SERVICE, r.Value(), 0);
    AccessorsReadWhatWasBuilt(REST_SERVICE, r.Value(), 2);
    if r.vendor.Some? {
      var raw := r.BuildBytes();
      assert raw[..GUID_SIZE] == r.vendor.value.guid && raw[GUID_SIZE..] == r.vendor.value.data;
    }
  }

  /**
    What any accepted node reads as: vendor data exactly when the service type
    says so and there are bytes for a GUID, whatever else follows.
   */
  lemma RestServiceVendorFromWire(p: Packed)
    requires Accepted(REST_SERVICE, p)
    ensures REST_SERVICE.WellFormed() && !REST_SERVICE.HasDstGroup() && |p.bytes| >= 6
    ensures ReadVendor(Get(REST_SERVICE, p, 0)[0], Get(REST_SERVICE, p, 2)) ==
              if p.bytes[4] == 0xff && |p.bytes| >= 22 then Some(VendorData(p.bytes[6..22], p.bytes[22..])) else None
  {
    RestServiceIsWellFormed();
    FieldInBounds(REST_SERVICE, p, 2);
    assert REST_SERVICE.FixedSize(2) == 2;
    var raw := Get(REST_SERVICE, p, 2);
    assert raw == p.bytes[6..];
    if |p.bytes| >= 22 {
      assert raw[..16] == p.bytes[6..22] && raw[16..] == p.bytes[22..];
    }
  }

  // ----- FilePath

  const FILE_PATH: Node := Node(0x04, 0x04, [Plain(Slice(U16))], 4)

  function FilePathValue(path: seq<U16>): BuildValue {
    BuildValue([U16Bytes(path)], [[]], [0])
  }

  lemma FilePathIsWellFormed()
    ensures FILE_PATH.WellFormed() && !FILE_PATH.HasDstGroup() && FILE_PATH.IsDst()
  {
    assert FILE_PATH.FixedSize(1) == 0;
    assert FILE_PATH.SliceCount(1) == 1;
  }

  lemma {:induction false} FilePathFields(path: seq<U16>)
    requires 4 + 2 * |path| <= U16_MAX
    ensures ValueOk(FILE_PATH, FilePathValue(path)) && SizeInBytes(FILE_PATH, FilePathValue(path)).Ok?
    ensures FieldBytes(FILE_PATH, FilePathValue(path), 0) == U16Bytes(path)
  {
    FilePathIsWellFormed();
    assert DynamicSizeUpTo(FILE_PATH, FilePathValue(path), 1) == 2 * |path|;
    SoundIsRegular(FILE_PATH, FilePathValue(path));
  }

  /** The accessor `path_name`: the trailing slice, wherever the node lies in memory. */
  function PathName(mem: seq<Byte>, at: nat, p: Packed): (s: UnalignedSlice)
    requires Accepted(FILE_PATH, p) && at + |p.bytes| <= |mem|
  {
    UnalignedSlice(mem, at + FILE_PATH.Offset(0), 2, p.dstLen)
  }

  /**
    Build a FilePath node from a string, place it at any address, parse it and
    convert `path_name` to an owned string: the original string comes back.
   */
  lemma {:induction false} FilePathRoundTrip(path: seq<U16>, mem: seq<Byte>, at: nat)
    requires IsCStr16(path) && 4 + 2 * |path| <= U16_MAX
    requires var image := Image(FILE_PATH, FilePathValue(path));
             at + |image| <= |mem| && mem[at..at + |image|] == image
    ensures var image := Image(FILE_PATH, FilePathValue(path));
            && ValidNode(image) && TryFrom(FILE_PATH, image).Ok?
            && var slice := PathName(mem, at, TryFrom(FILE_PATH, image).value);
            && slice.Valid() && slice.Elements() == path
            && WithNul(path) == Ok(path)
  {
    FilePathImage(path);
    ReadPathName(path, mem, at, Image(FILE_PATH, FilePathValue(path)));
    WithNulAcceptsExactlyCStr16(path);
  }

  lemma {:induction false} ReadPathName(path: seq<U16>, mem: seq<Byte>, at: nat, image: seq<Byte>)
    requires ValidNode(image) && TryFrom(FILE_PATH, image) == Ok(Packed(image, |path|))
    requires |image| == 4 + 2 * |path| && image[4..4 + 2 * |path|] == U16Bytes(path)
    requires at + |image| <= |mem| && mem[at..at + |image|] == image
    ensures var slice := PathName(mem, at, Packed(image, |path|));
            slice.Valid() && slice.Elements() == path
  {
    SliceOfSlice(mem, at, at + |image|, 4, 4 + 2 * |path|);
    ReadU16Slice(mem, at + 4, path);
  }

  lemma {:induction false} FilePathImage(path: seq<U16>)
    requires 4 + 2 * |path| <= U16_MAX
    ensures var image := Image(FILE_PATH, FilePathValue(path));
            && ValidNode(image) && TryFrom(FILE_PATH, image) == Ok(Packed(image, |path|))
            && |image| == 4 + 2 * |path| && image[4..4 + 2 * |path|] == U16Bytes(path)
  {
    FilePathIsWellFormed();
    FilePathFields(path);
    ImageIsValidNode(FILE_PATH, FilePathValue(path));
    FieldInFields(FILE_PATH, FilePathValue(path), 0);
    assert FieldsUpTo(FILE_PATH, FilePathValue(path), 1) == U16Bytes(path);
  }

  /** The same through the methods: `path_name().to_cstring16()`. */
  method PathNameToCString16(slice: UnalignedSlice, ghost path: seq<U16>) returns (r: Result<seq<U16>, WithNulError>)
    requires slice.Valid() && slice.Elements() == path && IsCStr16(path)
    ensures r == Ok(path)
  {
    var v := ToVec(slice, slice.len);
    var codes: seq<U16> := v.value;
    r := FromU16WithNul(codes);
    WithNulAcceptsExactlyCStr16(codes);
  }
}
