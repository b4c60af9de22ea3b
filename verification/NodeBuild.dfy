/**
  The builder half of the generator.  From a node specification it emits the
  statements of `write_data`; running those statements on an uninitialised
  buffer must produce the node image: the header, then every field in order.
 */
module NodeBuild {
  import opened Bytes
  import opened NodeSpec

  datatype BuildError = BufferTooSmall | NodeTooBig

  /** A byte of a buffer that starts out uninitialised. */
  type MaybeUninit = Option<Byte>

  /**
    A value of the generated builder struct.  `plain[i]` is the memory of the
    builder's own field `i`, `custom[i]` is what `build_<field>` returns or
    writes, and `customSize[i]` is what `build_size_<field>` returns.
   */
  datatype BuildValue = BuildValue(plain: seq<seq<Byte>>, custom: seq<seq<Byte>>, customSize: seq<nat>)

  ghost predicate HasShape(node: Node, v: BuildValue) {
    |v.plain| == |v.custom| == |v.customSize| == |node.fields|
  }

  /** The bytes that belong at field `i`: the reference meaning of one field. */
  function FieldBytes(node: Node, v: BuildValue, i: nat): (s: seq<Byte>)
    requires HasShape(node, v) && i < |node.fields|
  {
    var f := node.fields[i];
    if f.hidden && !f.IsSlice() then Zeros(f.ty.StaticSize())
    else if f.customBuild && !(f.IsSlice() && node.HasDstGroup()) then v.custom[i]
    else v.plain[i]
  }

  /** The bytes of the first `i` fields, in specification order. */
  function FieldsUpTo(node: Node, v: BuildValue, i: nat): (s: seq<Byte>)
    requires HasShape(node, v) && i <= |node.fields|
  {
    if i == 0 then [] else FieldsUpTo(node, v, i - 1) + FieldBytes(node, v, i - 1)
  }

  function Header(deviceType: Byte, subType: Byte, length: nat): (h: seq<Byte>)
    ensures |h| == HEADER_SIZE
  {
    [deviceType, subType] + LeBytes(length, 2)
  }

  /** The node on the wire. */
  function Image(node: Node, v: BuildValue): (s: seq<Byte>)
    requires HasShape(node, v)
  {
    var body := FieldsUpTo(node, v, |node.fields|);
    Header(node.deviceType, node.subType, HEADER_SIZE + |body|) + body
  }

  /** The size term that the generator emits for a field, if any. */
  function DynamicSize(node: Node, v: BuildValue, i: nat): (n: nat)
    requires HasShape(node, v) && i < |node.fields|
  {
    if node.fields[i].customBuildSize then v.customSize[i]
    else if node.fields[i].IsSlice() then |v.plain[i]|
    else 0
  }

  function DynamicSizeUpTo(node: Node, v: BuildValue, i: nat): (n: nat)
    requires HasShape(node, v) && i <= |node.fields|
  {
    if i == 0 then 0 else DynamicSizeUpTo(node, v, i - 1) + DynamicSize(node, v, i - 1)
  }

  /** The generated `size_in_bytes`. */
  function SizeInBytes(node: Node, v: BuildValue): (r: Result<nat, BuildError>)
    requires HasShape(node, v)
  {
    var size := if node.IsDst() then node.staticSize + DynamicSizeUpTo(node, v, |node.fields|) else node.staticSize;
    if size <= U16_MAX then Ok(size) else Err(NodeTooBig)
  }

  /**
    A builder value the Rust types admit: fixed-size fields have their size,
    slices hold whole elements, and the size and build functions of one slice
    agree.
   */
  ghost predicate Admissible(node: Node, v: BuildValue) {
    HasShape(node, v) && forall i :: 0 <= i < |node.fields| ==> FieldAdmissible(node, v, i)
  }

  predicate FieldAdmissible(node: Node, v: BuildValue, i: nat)
    requires HasShape(node, v) && i < |node.fields|
  {
    if node.fields[i].IsSlice()
    then && DynamicSize(node, v, i) == |FieldBytes(node, v, i)|
         && |v.plain[i]| % node.fields[i].ty.base.Size() == 0
         && |v.custom[i]| % node.fields[i].ty.base.Size() == 0
    else |FieldBytes(node, v, i)| == node.fields[i].ty.StaticSize()
  }

  /** Bytes of the slices among the first `i` fields. */
  function SliceBytes(node: Node, v: BuildValue, i: nat): (n: nat)
    requires HasShape(node, v) && i <= |node.fields|
  {
    if i == 0 then 0
    else SliceBytes(node, v, i - 1) + if node.fields[i - 1].IsSlice() then |FieldBytes(node, v, i - 1)| else 0
  }

  /** What the size functions of fixed-size fields add to a size that already counts those fields. */
  function ExtraSize(node: Node, v: BuildValue, i: nat): (n: nat)
    requires HasShape(node, v) && i <= |node.fields|
  {
    if i == 0 then 0
    else ExtraSize(node, v, i - 1) + if node.fields[i - 1].IsSlice() then 0 else DynamicSize(node, v, i - 1)
  }

  /** No bytes of a slice come before field `i` if it has bytes at a constant offset. */
  predicate InPlace(node: Node, v: BuildValue, i: nat)
    requires HasShape(node, v) && i < |node.fields|
  {
    !node.fields[i].IsSlice() && node.fields[i].ty.StaticSize() > 0 ==> SliceBytes(node, v, i) == 0
  }

  ghost predicate InPlaceUpTo(node: Node, v: BuildValue, n: nat)
    requires HasShape(node, v) && n <= |node.fields|
  {
    n == 0 || (InPlaceUpTo(node, v, n - 1) && InPlace(node, v, n - 1))
  }

  lemma {:induction false} InPlaceBefore(node: Node, v: BuildValue, n: nat, i: nat)
    requires HasShape(node, v) && i < n <= |node.fields| && InPlaceUpTo(node, v, n)
    ensures InPlace(node, v, i)
  {
    if i == n - 1 {
    } else {
      InPlaceBefore(node, v, n - 1, i);
    }
  }

  /** The values for which the generated code is right: every field is in place and the size counts nothing twice. */
  ghost predicate Regular(node: Node, v: BuildValue)
    requires HasShape(node, v)
  {
    && (node.IsDst() ==> ExtraSize(node, v, |node.fields|) == 0)
    && InPlaceUpTo(node, v, |node.fields|)
  }

  ghost predicate ValueOk(node: Node, v: BuildValue) {
    Admissible(node, v) && Regular(node, v)
  }

  // ----- The emitted statements

  datatype Stmt =
    | InitGroupOffset
    | CopySlice(offset: nat, field: nat, inGroup: bool)
    | AdvanceGroup(field: nat)
    | CustomSlice(offset: nat, field: nat)
    | ZeroFill(offset: nat, len: nat)
    | StoreFixed(offset: nat, field: nat, viaBuildFunc: bool)

  /** The statements for one field whose constant offset is `offset`. */
  function GenField(node: Node, i: nat, offset: nat): seq<Stmt>
    requires i < |node.fields|
  {
    var f := node.fields[i];
    if f.IsSlice() then
      if node.HasDstGroup() then
        [CopySlice(offset, i, true)] + if i == |node.fields| - 1 then [] else [AdvanceGroup(i)]
      else if f.customBuild then [CustomSlice(offset, i)]
      else [CopySlice(offset, i, false)]
    else if f.hidden then [ZeroFill(offset, f.ty.StaticSize())]
    else [StoreFixed(offset, i, f.customBuild)]
  }

  function GenUpTo(node: Node, i: nat): seq<Stmt>
    requires i <= |node.fields|
  {
    if i == 0 then if node.HasDstGroup() then [InitGroupOffset] else []
    else GenUpTo(node, i - 1) + GenField(node, i - 1, node.Offset(i - 1))
  }

  /** The generator: one pass over the fields with a running constant offset. */
  method GenerateWriteData(node: Node) returns (stmts: seq<Stmt>)
    ensures stmts == GenUpTo(node, |node.fields|)
  {
    stmts := if node.HasDstGroup() then [InitGroupOffset] else [];
    var fieldOffset := HEADER_SIZE;
    for i := 0 to |node.fields|
      invariant fieldOffset == node.Offset(i)
      invariant stmts == GenUpTo(node, i)
    {
      stmts := stmts + GenField(node, i, fieldOffset);
      match node.fields[i].ty.SizeInBytes() {
        case Some(size) => fieldOffset := fieldOffset + size;
        case None =>
      }
    }
  }

  // ----- What running the statements does

  ghost predicate StmtOk(node: Node, s: Stmt) {
    match s
    case CopySlice(_, i, _) => i < |node.fields|
    case AdvanceGroup(i) => i < |node.fields|
    case CustomSlice(_, i) => i < |node.fields|
    case StoreFixed(_, i, _) => i < |node.fields|
    case _ => true
  }

  /** Where a statement writes, and what. */
  function Target(s: Stmt, group: nat): nat {
    match s
    case CopySlice(offset, _, inGroup) => if inGroup then offset + group else offset
    case CustomSlice(offset, _) => offset
    case ZeroFill(offset, _) => offset
    case StoreFixed(offset, _, _) => offset
    case _ => 0
  }

  function Payload(node: Node, v: BuildValue, s: Stmt): (data: seq<Byte>)
    requires HasShape(node, v) && StmtOk(node, s)
  {
    match s
    case CopySlice(_, i, _) =>
      if DynamicSize(node, v, i) <= |v.plain[i]| then v.plain[i][..DynamicSize(node, v, i)] else []
    case CustomSlice(_, i) => v.custom[i]
    case ZeroFill(_, len) => Zeros(len)
    case StoreFixed(_, i, viaBuildFunc) => if viaBuildFunc then v.custom[i] else v.plain[i]
    case _ => []
  }

  function NextGroup(node: Node, v: BuildValue, s: Stmt, group: nat): nat
    requires HasShape(node, v) && StmtOk(node, s)
  {
    match s
    case InitGroupOffset => 0
    case AdvanceGroup(i) => group + |v.plain[i]|
    case _ => group
  }

  ghost predicate ProgramOk(node: Node, stmts: seq<Stmt>) {
    forall k :: 0 <= k < |stmts| ==> StmtOk(node, stmts[k])
  }

  /**
    A run of the emitted statements: the group offset variable, the bytes
    written so far, and whether every write of some bytes began where the one
    before it ended (the header being the first).
   */
  datatype Trace = Trace(seamless: bool, group: nat, written: seq<Byte>)

  function Step(node: Node, v: BuildValue, t: Trace, s: Stmt): Trace
    requires HasShape(node, v) && StmtOk(node, s)
  {
    Trace(t.seamless && (Payload(node, v, s) != [] ==> Target(s, t.group) == HEADER_SIZE + |t.written|),
          NextGroup(node, v, s, t.group),
          t.written + Payload(node, v, s))
  }

  function Run(node: Node, v: BuildValue, stmts: seq<Stmt>): (t: Trace)
    requires HasShape(node, v) && ProgramOk(node, stmts)
  {
    if stmts == [] then Trace(true, 0, [])
    else Step(node, v, Run(node, v, stmts[..|stmts| - 1]), stmts[|stmts| - 1])
  }

  lemma {:induction false} RunStep(node: Node, v: BuildValue, stmts: seq<Stmt>, s: Stmt)
    requires HasShape(node, v) && ProgramOk(node, stmts) && StmtOk(node, s)
    ensures ProgramOk(node, stmts + [s])
    ensures Run(node, v, stmts + [s]) == Step(node, v, Run(node, v, stmts), s)
  {
    assert (stmts + [s])[..|stmts|] == stmts;
  }

  /** Every prefix of a seamless run is seamless and has written a prefix of the output. */
  lemma {:induction false} RunPrefix(node: Node, v: BuildValue, stmts: seq<Stmt>, k: nat)
    requires HasShape(node, v) && ProgramOk(node, stmts) && k <= |stmts|
    requires Run(node, v, stmts).seamless
    ensures Run(node, v, stmts[..k]).seamless
    ensures Run(node, v, stmts[..k]).written <= Run(node, v, stmts).written
  {
    if k == |stmts| {
      assert stmts[..k] == stmts;
    } else {
      var init := stmts[..|stmts| - 1];
      RunPrefix(node, v, init, k);
      assert init[..k] == stmts[..k];
    }
  }

  /** Store bytes that were not initialised before: the target is in range and untouched. */
  method Store(out: array<MaybeUninit>, at: nat, data: seq<Byte>)
    requires at + |data| <= out.Length
    requires forall k :: at <= k < at + |data| ==> out[k].None?
    modifies out
    ensures Holds(out, at, data)
    ensures forall k :: 0 <= k < at || at + |data| <= k < out.Length ==> out[k] == old(out[k])
  {
    for i := 0 to |data|
      invariant forall k :: at <= k < at + i ==> out[k] == Some(data[k - at])
      invariant forall k :: 0 <= k < at || at + i <= k < out.Length ==> out[k] == old(out[k])
    {
      out[at + i] := Some(data[i]);
    }
  }

  ghost predicate Holds(out: array<MaybeUninit>, pos: nat, data: seq<Byte>)
    reads out
    requires pos + |data| <= out.Length
  {
    forall k :: pos <= k < pos + |data| ==> out[k] == Some(data[k - pos])
  }

  /**
    Run the emitted statements after the header of a node that starts at
    `base`; every write finds its bytes uninitialised.
   */
  method Execute(node: Node, v: BuildValue, stmts: seq<Stmt>, out: array<MaybeUninit>, base: nat)
    requires HasShape(node, v) && ProgramOk(node, stmts)
    requires Run(node, v, stmts).seamless
    requires base + HEADER_SIZE + |Run(node, v, stmts).written| <= out.Length
    requires forall k :: base + HEADER_SIZE <= k < out.Length ==> out[k].None?
    modifies out
    ensures Holds(out, base + HEADER_SIZE, Run(node, v, stmts).written)
    ensures forall k :: 0 <= k < base + HEADER_SIZE ==> out[k] == old(out[k])
    ensures forall k :: base + HEADER_SIZE + |Run(node, v, stmts).written| <= k < out.Length ==> out[k].None?
  {
    var group := 0;
    for i := 0 to |stmts|
      invariant Run(node, v, stmts[..i]).seamless && Run(node, v, stmts[..i]).group == group
      invariant Untouched(out, base, Run(node, v, stmts[..i]).written)
      invariant forall k :: 0 <= k < base + HEADER_SIZE ==> out[k] == old(out[k])
    {
      NextStatement(node, v, stmts, i);
      group := Perform(node, v, stmts[i], out, base, group, Run(node, v, stmts[..i]));
    }
    assert stmts[..|stmts|] == stmts;
  }

  /** The bytes written so far are in place behind the header, and nothing after them has been initialised. */
  ghost predicate Untouched(out: array<MaybeUninit>, base: nat, written: seq<Byte>)
    reads out
  {
    && base + HEADER_SIZE + |written| <= out.Length
    && Holds(out, base + HEADER_SIZE, written)
    && forall k :: base + HEADER_SIZE + |written| <= k < out.Length ==> out[k].None?
  }

  /** Run one statement. */
  method Perform(node: Node, v: BuildValue, s: Stmt, out: array<MaybeUninit>, base: nat, group: nat, ghost t: Trace)
    returns (group': nat)
    requires HasShape(node, v) && StmtOk(node, s) && t.group == group && Untouched(out, base, t.written)
    requires Payload(node, v, s) != [] ==> Target(s, group) == HEADER_SIZE + |t.written|
    requires base + HEADER_SIZE + |t.written| + |Payload(node, v, s)| <= out.Length
    modifies out
    ensures group' == Step(node, v, t, s).group && Untouched(out, base, Step(node, v, t, s).written)
    ensures forall k :: 0 <= k < base + HEADER_SIZE ==> out[k] == old(out[k])
  {
    var data := Payload(node, v, s);
    if data != [] {
      Store(out, base + Target(s, group), data);
    }
    group' := NextGroup(node, v, s, group);
  }

  lemma {:induction false} NextStatement(node: Node, v: BuildValue, stmts: seq<Stmt>, i: nat)
    requires HasShape(node, v) && ProgramOk(node, stmts) && i < |stmts| && Run(node, v, stmts).seamless
    ensures var t, s := Run(node, v, stmts[..i]), stmts[i];
            && Run(node, v, stmts[..i + 1]) == Step(node, v, t, s)
            && (Payload(node, v, s) != [] ==> Target(s, t.group) == HEADER_SIZE + |t.written|)
            && |t.written| + |Payload(node, v, s)| <= |Run(node, v, stmts).written|
  {
    RunPrefix(node, v, stmts, i + 1);
    assert stmts[..i + 1] == stmts[..i] + [stmts[i]];
    RunStep(node, v, stmts[..i], stmts[i]);
  }

  // ----- Correctness of the generated program

  /** The value of the group offset variable before the statements of field `i`. */
  function GroupAt(node: Node, v: BuildValue, i: nat): nat
    requires HasShape(node, v) && i <= |node.fields|
  {
    if i == 0 then 0
    else if node.fields[i - 1].IsSlice() && node.HasDstGroup() && i < |node.fields|
    then GroupAt(node, v, i - 1) + |v.plain[i - 1]|
    else GroupAt(node, v, i - 1)
  }

  lemma {:induction false} FieldsUpToLength(node: Node, v: BuildValue, i: nat)
    requires Admissible(node, v) && i <= |node.fields|
    ensures |FieldsUpTo(node, v, i)| == node.FixedSize(i) + SliceBytes(node, v, i)
  {
    if i == 0 {
    } else {
      FieldsUpToLength(node, v, i - 1);
      assert FieldAdmissible(node, v, i - 1);
    }
  }

  lemma {:induction false} SizeTerms(node: Node, v: BuildValue, i: nat)
    requires Admissible(node, v) && i <= |node.fields|
    ensures DynamicSizeUpTo(node, v, i) == SliceBytes(node, v, i) + ExtraSize(node, v, i)
  {
    if i == 0 {
    } else {
      SizeTerms(node, v, i - 1);
      assert FieldAdmissible(node, v, i - 1);
    }
  }

  lemma {:induction false} NoSliceBytesBefore(node: Node, v: BuildValue, i: nat)
    requires HasShape(node, v) && i <= |node.fields|
    requires forall k :: 0 <= k < i ==> !node.fields[k].IsSlice()
    ensures SliceBytes(node, v, i) == 0
  {
    if i == 0 {
    } else {
      NoSliceBytesBefore(node, v, i - 1);
    }
  }

  lemma {:induction false} GroupOffset(node: Node, v: BuildValue, i: nat)
    requires Admissible(node, v) && i < |node.fields| && node.HasDstGroup()
    ensures GroupAt(node, v, i) == SliceBytes(node, v, i)
  {
    if i == 0 {
    } else {
      GroupOffset(node, v, i - 1);
      assert FieldAdmissible(node, v, i - 1);
    }
  }

  /** Where the statements of field `i` write: the constant offset, plus the group offset inside a group. */
  function WritePosition(node: Node, v: BuildValue, i: nat): nat
    requires HasShape(node, v) && i < |node.fields|
  {
    node.Offset(i) + if node.fields[i].IsSlice() && node.HasDstGroup() then GroupAt(node, v, i) else 0
  }

  /** That is where the earlier fields end, except that a fixed-size field ignores the slices before it. */
  lemma FieldStarts(node: Node, v: BuildValue, i: nat)
    requires node.WellFormed() && Admissible(node, v) && i < |node.fields|
    ensures HEADER_SIZE + |FieldsUpTo(node, v, i)|
              == WritePosition(node, v, i) + if node.fields[i].IsSlice() then 0 else SliceBytes(node, v, i)
  {
    FieldsUpToLength(node, v, i);
    if node.fields[i].IsSlice() {
      if node.HasDstGroup() {
        GroupOffset(node, v, i);
      } else {
        LoneSliceIsLast(node, i);
        NoSliceBytesBefore(node, v, i);
      }
    }
  }

  /** The statements of one field, run where the field belongs, write exactly the bytes of the field. */
  lemma {:induction false} FieldStatements(node: Node, v: BuildValue, i: nat, before: seq<Stmt>)
    requires node.WellFormed() && Admissible(node, v) && i < |node.fields| && InPlace(node, v, i)
    requires ProgramOk(node, before)
    requires Run(node, v, before) == Trace(true, GroupAt(node, v, i), FieldsUpTo(node, v, i))
    ensures ProgramOk(node, before + GenField(node, i, node.Offset(i)))
    ensures Run(node, v, before + GenField(node, i, node.Offset(i)))
              == Trace(true, GroupAt(node, v, i + 1), FieldsUpTo(node, v, i + 1))
  {
    var stmts := GenField(node, i, node.Offset(i));
    FirstStatement(node, v, i);
    RunStep(node, v, before, stmts[0]);
    if |stmts| == 1 {
      assert stmts == [stmts[0]];
    } else {
      RunStep(node, v, before + [stmts[0]], stmts[1]);
      assert before + stmts == before + [stmts[0]] + [stmts[1]];
      assert FieldsUpTo(node, v, i + 1) + [] == FieldsUpTo(node, v, i + 1);
    }
  }

  /** Its first statement writes the bytes of the field, at the write position. */
  lemma {:induction false} FirstStatement(node: Node, v: BuildValue, i: nat)
    requires node.WellFormed() && Admissible(node, v) && i < |node.fields|
    ensures var s := GenField(node, i, node.Offset(i))[0];
            && StmtOk(node, s)
            && Payload(node, v, s) == FieldBytes(node, v, i)
            && Target(s, GroupAt(node, v, i)) == WritePosition(node, v, i)
            && NextGroup(node, v, s, GroupAt(node, v, i)) == GroupAt(node, v, i)
            && (InPlace(node, v, i) && Payload(node, v, s) != [] ==>
                  WritePosition(node, v, i) == HEADER_SIZE + |FieldsUpTo(node, v, i)|)
  {
    assert FieldAdmissible(node, v, i);
    FieldStarts(node, v, i);
  }

  lemma {:induction false} PrologueRun(node: Node, v: BuildValue)
    requires HasShape(node, v)
    ensures CorrectUpTo(node, v, 0)
  {
    if node.HasDstGroup() {
      RunStep(node, v, [], InitGroupOffset);
      assert [] + [InitGroupOffset] == GenUpTo(node, 0);
    }
  }

  /** The statements of the first `i` fields write the bytes of those fields, without gap or overlap. */
  ghost predicate CorrectUpTo(node: Node, v: BuildValue, i: nat)
    requires HasShape(node, v) && i <= |node.fields|
  {
    && ProgramOk(node, GenUpTo(node, i))
    && Run(node, v, GenUpTo(node, i)) == Trace(true, GroupAt(node, v, i), FieldsUpTo(node, v, i))
  }

  lemma {:induction false} CorrectStep(node: Node, v: BuildValue, i: nat)
    requires node.WellFormed() && Admissible(node, v) && i < |node.fields|
    requires InPlace(node, v, i) && CorrectUpTo(node, v, i)
    ensures CorrectUpTo(node, v, i + 1)
  {
    FieldStatements(node, v, i, GenUpTo(node, i));
  }

  /** As long as fields are in place, the program writes them one after the other, without gap or overlap. */
  lemma {:induction false} GeneratedCodeCorrect(node: Node, v: BuildValue, i: nat)
    requires node.WellFormed() && Admissible(node, v) && i <= |node.fields|
    requires InPlaceUpTo(node, v, i)
    ensures CorrectUpTo(node, v, i)
  {
    if i == 0 {
      PrologueRun(node, v);
    } else {
      GeneratedCodeCorrect(node, v, i - 1);
      CorrectStep(node, v, i - 1);
    }
  }

  /** The header and the bytes of all the fields, counted. */
  lemma ImageLength(node: Node, v: BuildValue)
    requires node.WellFormed() && Admissible(node, v)
    ensures |Image(node, v)| == node.staticSize + SliceBytes(node, v, |node.fields|)
    ensures !node.IsDst() ==> SliceBytes(node, v, |node.fields|) == 0
  {
    FieldsUpToLength(node, v, |node.fields|);
    if !node.IsDst() {
      NoSliceBytesBefore(node, v, |node.fields|);
    }
  }

  /** `size_in_bytes` is the length of the image, and fails exactly when that length is not a u16. */
  lemma SizeIsImageLength(node: Node, v: BuildValue)
    requires node.WellFormed() && ValueOk(node, v)
    ensures SizeInBytes(node, v) ==
              if |Image(node, v)| <= U16_MAX then Ok(|Image(node, v)|) else Err(NodeTooBig)
  {
    ImageLength(node, v);
    SizeTerms(node, v, |node.fields|);
  }

  /**
    The generated `write_data`: given `size_in_bytes` uninitialised bytes at
    `base` it stores the whole image there, each byte once, and nothing else.
   */
  method WriteData(node: Node, v: BuildValue, out: array<MaybeUninit>, base: nat)
    requires node.WellFormed() && ValueOk(node, v) && SizeInBytes(node, v).Ok?
    requires base + SizeInBytes(node, v).value <= out.Length
    requires forall k :: base <= k < out.Length ==> out[k].None?
    modifies out
    ensures SizeInBytes(node, v).value == |Image(node, v)|
    ensures Holds(out, base, Image(node, v))
    ensures forall k :: 0 <= k < base ==> out[k] == old(out[k])
    ensures forall k :: base + |Image(node, v)| <= k < out.Length ==> out[k].None?
  {
    var stmts := GenerateWriteData(node);
    WholeProgram(node, v);
    var header := Header(node.deviceType, node.subType, SizeInBytes(node, v).value);
    Store(out, base, header);
    Execute(node, v, stmts, out, base);
    HoldsJoin(out, base, header, Run(node, v, stmts).written);
  }

  /** The two results above, for the program as a whole. */
  lemma WholeProgram(node: Node, v: BuildValue)
    requires node.WellFormed() && ValueOk(node, v) && SizeInBytes(node, v).Ok?
    ensures var stmts := GenUpTo(node, |node.fields|);
            && ProgramOk(node, stmts)
            && Run(node, v, stmts).seamless
            && SizeInBytes(node, v).value == HEADER_SIZE + |Run(node, v, stmts).written|
            && Image(node, v) ==
                 Header(node.deviceType, node.subType, SizeInBytes(node, v).value) + Run(node, v, stmts).written
  {
    SizeIsImageLength(node, v);
    GeneratedCodeCorrect(node, v, |node.fields|);
  }

  lemma HoldsJoin(out: array<MaybeUninit>, at: nat, a: seq<Byte>, b: seq<Byte>)
    requires at + |a| + |b| <= out.Length
    requires Holds(out, at, a) && Holds(out, at + |a|, b)
    ensures Holds(out, at, a + b)
  {
  }

  // ----- For which values and specifications that is so

  /** How many statements of a program write byte `k` of the node. */
  function Hits(node: Node, v: BuildValue, stmts: seq<Stmt>, k: nat): (n: nat)
    requires HasShape(node, v) && ProgramOk(node, stmts)
  {
    if stmts == [] then 0
    else
      var init, s := stmts[..|stmts| - 1], stmts[|stmts| - 1];
      var at := Target(s, Run(node, v, init).group);
      Hits(node, v, init, k) + if at <= k < at + |Payload(node, v, s)| then 1 else 0
  }

  lemma {:induction false} SeamlessHits(node: Node, v: BuildValue, stmts: seq<Stmt>, k: nat)
    requires HasShape(node, v) && ProgramOk(node, stmts) && Run(node, v, stmts).seamless && k >= HEADER_SIZE
    ensures Hits(node, v, stmts, k) == if k < HEADER_SIZE + |Run(node, v, stmts).written| then 1 else 0
  {
    if stmts == [] {
    } else {
      SeamlessHits(node, v, stmts[..|stmts| - 1], k);
    }
  }

  lemma {:induction false} HitsStep(node: Node, v: BuildValue, stmts: seq<Stmt>, s: Stmt, k: nat)
    requires HasShape(node, v) && ProgramOk(node, stmts) && StmtOk(node, s)
    ensures ProgramOk(node, stmts + [s])
    ensures var at := Target(s, Run(node, v, stmts).group);
            Hits(node, v, stmts + [s], k) ==
              Hits(node, v, stmts, k) + if at <= k < at + |Payload(node, v, s)| then 1 else 0
  {
    assert (stmts + [s])[..|stmts|] == stmts;
  }

  lemma {:induction false} HitsGrow(node: Node, v: BuildValue, stmts: seq<Stmt>, n: nat, k: nat)
    requires HasShape(node, v) && ProgramOk(node, stmts) && n <= |stmts|
    ensures Hits(node, v, stmts[..n], k) <= Hits(node, v, stmts, k)
  {
    if n < |stmts| {
      var init := stmts[..|stmts| - 1];
      HitsGrow(node, v, init, n, k);
      assert init[..n] == stmts[..n];
    } else {
      assert stmts[..n] == stmts;
    }
  }

  lemma {:induction false} GenOk(node: Node, n: nat)
    requires n <= |node.fields|
    ensures ProgramOk(node, GenUpTo(node, n))
  {
    if n == 0 {
    } else {
      GenOk(node, n - 1);
      GenFieldOk(node, n - 1, node.Offset(n - 1));
      ProgramsJoin(node, GenUpTo(node, n - 1), GenField(node, n - 1, node.Offset(n - 1)));
    }
  }

  lemma GenFieldOk(node: Node, i: nat, offset: nat)
    requires i < |node.fields|
    ensures ProgramOk(node, GenField(node, i, offset))
  {
  }

  lemma ProgramsJoin(node: Node, a: seq<Stmt>, b: seq<Stmt>)
    requires ProgramOk(node, a) && ProgramOk(node, b)
    ensures ProgramOk(node, a + b)
  {
  }

  lemma {:induction false} GenPrefix(node: Node, i: nat, n: nat)
    requires i <= n <= |node.fields|
    ensures GenUpTo(node, i) <= GenUpTo(node, n)
  {
    if i == n {
    } else {
      GenPrefix(node, i, n - 1);
      PrefixOfJoin(GenUpTo(node, i), GenUpTo(node, n - 1), GenField(node, n - 1, node.Offset(n - 1)));
    }
  }

  lemma PrefixOfJoin<T>(a: seq<T>, b: seq<T>, c: seq<T>)
    requires a <= b
    ensures a <= b + c
  {
  }

  /** The generated code writes every byte behind the header and before the end of the node once, and no other. */
  ghost predicate WritesOnce(node: Node, v: BuildValue)
    requires HasShape(node, v) && SizeInBytes(node, v).Ok? && ProgramOk(node, GenUpTo(node, |node.fields|))
  {
    forall k: nat :: k >= HEADER_SIZE ==>
      Hits(node, v, GenUpTo(node, |node.fields|), k) == if k < SizeInBytes(node, v).value then 1 else 0
  }

  /** A field that is not in place overwrites a byte of the slices before it. */
  lemma OverwritesIfNotInPlace(node: Node, v: BuildValue, i: nat)
    requires node.WellFormed() && Admissible(node, v) && i < |node.fields| && !InPlace(node, v, i)
    requires InPlaceUpTo(node, v, i)
    ensures ProgramOk(node, GenUpTo(node, |node.fields|))
    ensures Hits(node, v, GenUpTo(node, |node.fields|), node.Offset(i)) >= 2
  {
    GeneratedCodeCorrect(node, v, i);
    FieldStarts(node, v, i);
    SeamlessHits(node, v, GenUpTo(node, i), node.Offset(i));
    assert FieldAdmissible(node, v, i);
    FirstStatement(node, v, i);
    var before, all := GenUpTo(node, i), GenUpTo(node, |node.fields|);
    var s := GenField(node, i, node.Offset(i))[0];
    FieldInProgram(node, i, before, s, all);
    PrefixHits(node, v, before, s, all, node.Offset(i));
  }

  /** The first statement of field `i` follows those of the fields before it. */
  lemma {:induction false} FieldInProgram(node: Node, i: nat, before: seq<Stmt>, s: Stmt, all: seq<Stmt>)
    requires i < |node.fields| && before == GenUpTo(node, i) && all == GenUpTo(node, |node.fields|)
    requires s == GenField(node, i, node.Offset(i))[0]
    ensures ProgramOk(node, all)
    ensures |before| < |all| && all[..|before| + 1] == before + [s]
  {
    GenOk(node, |node.fields|);
    GenFieldPrefix(node, i);
    PrefixOfField(before, GenField(node, i, node.Offset(i)), all);
  }

  lemma {:induction false} GenFieldPrefix(node: Node, i: nat)
    requires i < |node.fields|
    ensures GenUpTo(node, i) + GenField(node, i, node.Offset(i)) <= GenUpTo(node, |node.fields|)
  {
    GenPrefix(node, i + 1, |node.fields|);
  }

  lemma {:induction false} PrefixOfField(before: seq<Stmt>, field: seq<Stmt>, all: seq<Stmt>)
    requires before + field <= all && field != []
    ensures all[..|before| + 1] == before + [field[0]]
  {
  }

  /** Byte `k` is written by a statement on top of what the statements before it write. */
  lemma {:induction false} PrefixHits(node: Node, v: BuildValue, before: seq<Stmt>, s: Stmt, all: seq<Stmt>, k: nat)
    requires HasShape(node, v) && ProgramOk(node, before) && StmtOk(node, s) && ProgramOk(node, all)
    requires |before| < |all| && all[..|before| + 1] == before + [s]
    requires var at := Target(s, Run(node, v, before).group); at <= k < at + |Payload(node, v, s)|
    ensures Hits(node, v, all, k) > Hits(node, v, before, k)
  {
    HitsStep(node, v, before, s, k);
    HitsGrow(node, v, all, |before| + 1, k);
  }

  /** The first field that is not in place. */
  lemma FirstNotInPlace(node: Node, v: BuildValue) returns (i: nat)
    requires HasShape(node, v) && !InPlaceUpTo(node, v, |node.fields|)
    ensures i < |node.fields| && !InPlace(node, v, i)
    ensures InPlaceUpTo(node, v, i)
  {
    i := 0;
    while i < |node.fields| && InPlace(node, v, i)
      invariant i <= |node.fields| && InPlaceUpTo(node, v, i)
    {
      i := i + 1;
    }
  }

  /**
    For every specification that compiles and every value that the types
    admit and whose size is a u16, `write_data` initialises each byte of its
    buffer exactly once if and only if the value is regular.
   */
  lemma WritesOnceIff(node: Node, v: BuildValue)
    requires node.WellFormed() && Admissible(node, v) && SizeInBytes(node, v).Ok?
    ensures ProgramOk(node, GenUpTo(node, |node.fields|))
    ensures WritesOnce(node, v) <==> Regular(node, v)
  {
    var all := GenUpTo(node, |node.fields|);
    GenOk(node, |node.fields|);
    if InPlaceUpTo(node, v, |node.fields|) {
      GeneratedCodeCorrect(node, v, |node.fields|);
      ImageLength(node, v);
      SizeTerms(node, v, |node.fields|);
      forall k: nat | k >= HEADER_SIZE
        ensures Hits(node, v, all, k) == if k < |Image(node, v)| then 1 else 0
      {
        SeamlessHits(node, v, all, k);
      }
      if !Regular(node, v) {
        assert Hits(node, v, all, |Image(node, v)|) == 0;
      }
    } else {
      var i := FirstNotInPlace(node, v);
      OverwritesIfNotInPlace(node, v, i);
    }
  }

  lemma {:induction false} SoundSliceBytes(node: Node, v: BuildValue, i: nat)
    requires Admissible(node, v) && node.Sound() && i < |node.fields|
    ensures InPlace(node, v, i)
  {
    if !node.fields[i].IsSlice() && node.fields[i].ty.StaticSize() > 0 {
      forall k | 0 <= k < i
        ensures !node.fields[k].IsSlice()
      {
        assert !node.Splits(k, i);
      }
      NoSliceBytesBefore(node, v, i);
    }
  }

  lemma {:induction false} NoExtraSize(node: Node, v: BuildValue, i: nat)
    requires HasShape(node, v) && i <= |node.fields|
    requires forall k :: 0 <= k < |node.fields| && !node.fields[k].IsSlice() ==> !node.fields[k].customBuildSize
    ensures ExtraSize(node, v, i) == 0
  {
    if i == 0 {
    } else {
      NoExtraSize(node, v, i - 1);
    }
  }

  lemma {:induction false} SoundInPlace(node: Node, v: BuildValue, n: nat)
    requires Admissible(node, v) && node.Sound() && n <= |node.fields|
    ensures InPlaceUpTo(node, v, n)
  {
    if n == 0 {
    } else {
      SoundInPlace(node, v, n - 1);
      SoundSliceBytes(node, v, n - 1);
    }
  }

  lemma SoundIsRegular(node: Node, v: BuildValue)
    requires Admissible(node, v) && node.Sound()
    ensures ValueOk(node, v)
  {
    SoundInPlace(node, v, |node.fields|);
    if node.IsDst() {
      NoExtraSize(node, v, |node.fields|);
    }
  }

  /**
    A value in which only field `hot` adds to the size: one element if it is a
    slice, else a size function answering one.
   */
  function Sample(node: Node, hot: nat): (v: BuildValue)
    ensures Admissible(node, v)
  {
    var bytes := seq(|node.fields|, i requires 0 <= i < |node.fields| => Zeros(SampleSize(node, hot, i)));
    BuildValue(bytes, bytes,
               seq(|node.fields|, i requires 0 <= i < |node.fields| =>
                     if node.fields[i].IsSlice() then SampleSize(node, hot, i) else if i == hot then 1 else 0))
  }

  function SampleSize(node: Node, hot: nat, i: nat): nat
    requires i < |node.fields|
  {
    if !node.fields[i].IsSlice() then node.fields[i].ty.StaticSize()
    else if i == hot then node.fields[i].ty.base.Size()
    else 0
  }

  lemma {:induction false} SampleSums(node: Node, hot: nat, n: nat)
    requires hot < |node.fields| && n <= |node.fields|
    ensures var v := Sample(node, hot);
            var size := if hot < n then DynamicSize(node, v, hot) else 0;
            && SliceBytes(node, v, n) == (if node.fields[hot].IsSlice() then size else 0)
            && ExtraSize(node, v, n) == (if node.fields[hot].IsSlice() then 0 else size)
  {
    if n == 0 {
    } else {
      SampleSums(node, hot, n - 1);
      SampleTerms(node, hot, n - 1);
    }
  }

  lemma SampleTerms(node: Node, hot: nat, i: nat)
    requires hot < |node.fields| && i < |node.fields|
    ensures var v := Sample(node, hot);
            && (node.fields[i].IsSlice() ==> |FieldBytes(node, v, i)| == DynamicSize(node, v, i))
            && (i != hot ==> DynamicSize(node, v, i) == 0)
  {
    assert FieldAdmissible(node, Sample(node, hot), i);
  }

  /**
    For every specification that compiles: `write_data` is right about all
    values that it is ever given if and only if the specification is safe.
   */
  lemma AllValuesIff(node: Node)
    requires node.WellFormed()
    ensures ProgramOk(node, GenUpTo(node, |node.fields|))
    ensures (forall v :: Admissible(node, v) && SizeInBytes(node, v).Ok? ==> WritesOnce(node, v)) <==> node.Safe()
  {
    GenOk(node, |node.fields|);
    if node.Safe() {
      forall v | Admissible(node, v) && SizeInBytes(node, v).Ok?
        ensures WritesOnce(node, v)
      {
        SafeIsRegular(node, v);
        WritesOnceIff(node, v);
      }
    } else {
      var v := UnsafeValue(node);
      WritesOnceIff(node, v);
    }
  }

  /** An unsafe specification has a value of valid size that is not regular. */
  lemma UnsafeValue(node: Node) returns (v: BuildValue)
    requires node.WellFormed() && !node.Safe()
    ensures Admissible(node, v) && SizeInBytes(node, v).Ok? && !Regular(node, v)
  {
    var n := |node.fields|;
    if i, j :| 0 <= i < j < n && node.Splits(i, j) && node.staticSize + node.fields[i].ty.base.Size() <= U16_MAX {
      v := Sample(node, i);
      SampleSums(node, i, n);
      SampleSums(node, i, j);
      SizeTerms(node, v, n);
      SampleSlice(node, i);
      NotInPlace(node, v, j);
    } else {
      var i :| 0 <= i < n && !node.fields[i].IsSlice() && node.fields[i].customBuildSize;
      v := Sample(node, i);
      SampleSums(node, i, n);
      SizeTerms(node, v, n);
    }
  }

  lemma SampleSlice(node: Node, hot: nat)
    requires hot < |node.fields| && node.fields[hot].IsSlice()
    ensures DynamicSize(node, Sample(node, hot), hot) == node.fields[hot].ty.base.Size()
  {
  }

  lemma NotInPlace(node: Node, v: BuildValue, j: nat)
    requires HasShape(node, v) && j < |node.fields| && !InPlace(node, v, j)
    ensures !Regular(node, v)
  {
    if InPlaceUpTo(node, v, |node.fields|) {
      InPlaceBefore(node, v, |node.fields|, j);
    }
  }

  /** Bytes of slices before a field come from one of them, as at least one element. */
  lemma {:induction false} SliceWithBytes(node: Node, v: BuildValue, j: nat) returns (i: nat)
    requires Admissible(node, v) && j <= |node.fields| && SliceBytes(node, v, j) > 0
    ensures i < j && node.fields[i].IsSlice() && node.fields[i].ty.base.Size() <= SliceBytes(node, v, j)
  {
    assert FieldAdmissible(node, v, j - 1);
    if node.fields[j - 1].IsSlice() && FieldBytes(node, v, j - 1) != [] {
      i := j - 1;
      WholeElement(|FieldBytes(node, v, i)|, node.fields[i].ty.base.Size());
    } else {
      i := SliceWithBytes(node, v, j - 1);
    }
  }

  lemma WholeElement(n: nat, e: nat)
    requires e > 0 && n > 0 && n % e == 0
    ensures e <= n
  {
  }

  lemma {:induction false} SliceBytesMonotone(node: Node, v: BuildValue, i: nat, j: nat)
    requires HasShape(node, v) && i <= j <= |node.fields|
    ensures SliceBytes(node, v, i) <= SliceBytes(node, v, j)
  {
    if i == j {
    } else {
      SliceBytesMonotone(node, v, i, j - 1);
    }
  }

  lemma SafeInPlace(node: Node, v: BuildValue, j: nat)
    requires node.WellFormed() && node.Safe() && Admissible(node, v) && SizeInBytes(node, v).Ok? && j < |node.fields|
    ensures InPlace(node, v, j)
  {
    if !InPlace(node, v, j) {
      var i := SliceWithBytes(node, v, j);
      assert node.Splits(i, j);
      SliceBytesMonotone(node, v, j, |node.fields|);
      SizeTerms(node, v, |node.fields|);
    }
  }

  lemma {:induction false} SafeInPlaceUpTo(node: Node, v: BuildValue, n: nat)
    requires node.WellFormed() && node.Safe() && Admissible(node, v) && SizeInBytes(node, v).Ok? && n <= |node.fields|
    ensures InPlaceUpTo(node, v, n)
  {
    if n == 0 {
    } else {
      SafeInPlaceUpTo(node, v, n - 1);
      SafeInPlace(node, v, n - 1);
    }
  }

  lemma SafeIsRegular(node: Node, v: BuildValue)
    requires node.WellFormed() && node.Safe() && Admissible(node, v) && SizeInBytes(node, v).Ok?
    ensures Regular(node, v)
  {
    SafeInPlaceUpTo(node, v, |node.fields|);
    if node.IsDst() {
      SizeTerms(node, v, |node.fields|);
      if node.staticSize < U16_MAX {
        NoExtraSize(node, v, |node.fields|);
      }
    }
  }

  /** A byte between two slices of bytes. */
  const SPLIT_GROUP: Node := Node(1, 1, [Plain(Slice(U8)), Plain(Base(U8)), Plain(Slice(U8))], 5)
  const SPLIT_VALUE: BuildValue := BuildValue([[7], [8], []], [[], [], []], [0, 0, 0])

  lemma SplitGroupIsAdmitted()
    ensures SPLIT_GROUP.WellFormed() && Admissible(SPLIT_GROUP, SPLIT_VALUE)
              && SizeInBytes(SPLIT_GROUP, SPLIT_VALUE) == Ok(6)
    ensures InPlace(SPLIT_GROUP, SPLIT_VALUE, 0) && !InPlace(SPLIT_GROUP, SPLIT_VALUE, 1) && SPLIT_GROUP.Offset(1) == 4
  {
    assert SPLIT_GROUP.FixedSize(1) == 0 && SPLIT_GROUP.FixedSize(2) == 1;
    assert DynamicSizeUpTo(SPLIT_GROUP, SPLIT_VALUE, 2) == 1;
    assert SliceBytes(SPLIT_GROUP, SPLIT_VALUE, 1) == 1;
  }

  /** The slice and the byte behind it are both written at offset four. */
  lemma SplitGroupOverwrites()
    ensures SPLIT_GROUP.WellFormed() && Admissible(SPLIT_GROUP, SPLIT_VALUE)
              && SizeInBytes(SPLIT_GROUP, SPLIT_VALUE) == Ok(6)
    ensures ProgramOk(SPLIT_GROUP, GenUpTo(SPLIT_GROUP, |SPLIT_GROUP.fields|))
    ensures Hits(SPLIT_GROUP, SPLIT_VALUE, GenUpTo(SPLIT_GROUP, |SPLIT_GROUP.fields|), 4) >= 2
  {
    SplitGroupIsAdmitted();
    OverwritesIfNotInPlace(SPLIT_GROUP, SPLIT_VALUE, 1);
  }

  /** A byte with a size function that answers three, before a slice. */
  const SIZED_BYTE: Node := Node(1, 1, [Field(false, Base(U8), false, true), Plain(Slice(U8))], 5)
  const SIZED_VALUE: BuildValue := BuildValue([[7], [8]], [[], []], [3, 0])

  /** The node is six bytes long and `size_in_bytes` says nine, so three bytes stay uninitialised. */
  lemma SizedByteLeavesGap()
    ensures SIZED_BYTE.WellFormed() && Admissible(SIZED_BYTE, SIZED_VALUE)
              && SizeInBytes(SIZED_BYTE, SIZED_VALUE) == Ok(9)
    ensures ProgramOk(SIZED_BYTE, GenUpTo(SIZED_BYTE, 2))
    ensures forall k :: 6 <= k < 9 ==> Hits(SIZED_BYTE, SIZED_VALUE, GenUpTo(SIZED_BYTE, 2), k) == 0
  {
    assert SIZED_BYTE.FixedSize(1) == 1;
    assert DynamicSizeUpTo(SIZED_BYTE, SIZED_VALUE, 1) == 3;
    assert SliceBytes(SIZED_BYTE, SIZED_VALUE, 1) == 0;
    assert SliceBytes(SIZED_BYTE, SIZED_VALUE, 2) == 1;
    GeneratedCodeCorrect(SIZED_BYTE, SIZED_VALUE, 2);
    ImageLength(SIZED_BYTE, SIZED_VALUE);
    forall k | 6 <= k < 9
      ensures Hits(SIZED_BYTE, SIZED_VALUE, GenUpTo(SIZED_BYTE, 2), k) == 0
    {
      SeamlessHits(SIZED_BYTE, SIZED_VALUE, GenUpTo(SIZED_BYTE, 2), k);
    }
  }
}
