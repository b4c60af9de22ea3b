/**
  Whole device paths: the builder that writes nodes one after the other, the
  conversion from bytes, and the node and instance iterators.
 */
module DevicePaths {
  import opened Bytes
  import opened NodeSpec
  import opened NodeBuild
  import opened NodeParse

  const END: Byte := 0x7f
  const END_ENTIRE: Node := Node(END, 0xff, [], 4)
  const END_ENTIRE_BYTES: seq<Byte> := [0x7f, 0xff, 4, 0]

  function Concat(nodes: seq<seq<Byte>>): (s: seq<Byte>) {
    if nodes == [] then [] else nodes[0] + Concat(nodes[1..])
  }

  lemma {:induction false} ConcatAppend(a: seq<seq<Byte>>, b: seq<seq<Byte>>)
    ensures Concat(a + b) == Concat(a) + Concat(b)
  {
    if a == [] {
      assert a + b == b;
    } else {
      ConcatAppend(a[1..], b);
      assert (a + b)[1..] == a[1..] + b;
      Assoc(a[0], Concat(a[1..]), Concat(b));
    }
  }

  lemma ConcatOne(n: seq<Byte>)
    ensures Concat([n]) == n
  {
    assert Concat([n]) == n + Concat([]);
  }

  lemma {:induction false} AppendNode(nodes: seq<seq<Byte>>, n: seq<Byte>)
    ensures Concat(nodes + [n]) == Concat(nodes) + n
    ensures AllValid(nodes) && ValidNode(n) ==> AllValid(nodes + [n])
  {
    ConcatAppend(nodes, [n]);
    ConcatOne(n);
  }

  ghost predicate AllValid(nodes: seq<seq<Byte>>) {
    forall i :: 0 <= i < |nodes| ==> ValidNode(nodes[i])
  }

  predicate IsEnd(n: seq<Byte>)
    requires ValidNode(n)
  {
    n[0] == END
  }

  predicate IsEndEntire(n: seq<Byte>)
    requires ValidNode(n)
  {
    n[0] == END && n[1] == 0xff
  }

  /** The length field of a node at the start of some bytes. */
  function LengthField(bytes: seq<Byte>): nat
    requires |bytes| >= HEADER_SIZE
  {
    LeValue(bytes[2..4])
  }

  lemma FirstNode(n: seq<Byte>, rest: seq<Byte>)
    requires ValidNode(n)
    ensures |n + rest| >= HEADER_SIZE && LengthField(n + rest) == |n|
    ensures (n + rest)[..|n|] == n && (n + rest)[|n|..] == rest
  {
    assert (n + rest)[2..4] == n[2..4];
  }

  // ----- Node iterators

  datatype StopCondition = AnyEndNode | EndEntireNode | NoMoreNodes

  predicate StopsAt(stop: StopCondition, n: seq<Byte>)
    requires ValidNode(n)
  {
    match stop
    case AnyEndNode => IsEnd(n)
    case EndEntireNode => IsEndEntire(n)
    case NoMoreNodes => false
  }

  /** The nodes before the first one that stops the iteration. */
  function Before(nodes: seq<seq<Byte>>, stop: StopCondition): (r: seq<seq<Byte>>)
    requires AllValid(nodes)
    ensures r <= nodes
  {
    if nodes == [] || StopsAt(stop, nodes[0]) then [] else [nodes[0]] + Before(nodes[1..], stop)
  }

  class NodeIterator {
    var nodes: seq<Byte>
    const stop: StopCondition
    /** The nodes that are left. */
    ghost var rest: seq<seq<Byte>>

    ghost predicate Valid()
      reads this
    {
      AllValid(rest) && nodes == Concat(rest)
    }

    constructor (nodes: seq<Byte>, stop: StopCondition, ghost rest: seq<seq<Byte>>)
      requires AllValid(rest) && nodes == Concat(rest)
      ensures Valid() && this.stop == stop && this.rest == rest
    {
      this.nodes, this.stop, this.rest := nodes, stop, rest;
    }

    method Next() returns (r: Option<seq<Byte>>)
      requires Valid()
      modifies this`nodes, this`rest
      ensures Valid()
      ensures if old(rest) == [] || StopsAt(stop, old(rest)[0]) then r == None && rest == []
              else r == Some(old(rest)[0]) && rest == old(rest)[1..]
      ensures old(rest) != [] ==>
                (r.None? <==>
                   match stop
                   case AnyEndNode => old(rest)[0][0] == 0x7f
                   case EndEntireNode => old(rest)[0][0] == 0x7f && old(rest)[0][1] == 0xff
                   case NoMoreNodes => false)
    {
      if nodes == [] {
        assert rest == [];
        return None;
      }
      FirstNode(rest[0], Concat(rest[1..]));
      var size := LengthField(nodes);
      var node := nodes[..size];
      if StopsAt(stop, node) {
        nodes, rest := [], [];
        return None;
      }
      nodes, rest := nodes[size..], rest[1..];
      r := Some(node);
    }
  }

  /** All the nodes that an iterator yields. */
  method Collect(iter: NodeIterator) returns (r: seq<seq<Byte>>)
    requires iter.Valid()
    modifies iter
    ensures r == Before(old(iter.rest), iter.stop)
  {
    r := [];
    ghost var all := iter.rest;
    var next := iter.Next();
    while next.Some?
      invariant iter.Valid() && AllValid(all)
      invariant next.Some? ==> ValidNode(next.value) && !StopsAt(iter.stop, next.value)
                               && r + [next.value] + Before(iter.rest, iter.stop) == Before(all, iter.stop)
      invariant next.None? ==> r == Before(all, iter.stop)
      decreases next.Some?, |iter.rest|
    {
      r := r + [next.value];
      ghost var rest := iter.rest;
      next := iter.Next();
      if next.Some? {
        Assoc(r, [next.value], Before(iter.rest, iter.stop));
      } else {
        assert r + [] == r;
      }
    }
  }

  // ----- Paths from bytes

  /** A complete path: valid nodes of which the last, and only the last, ends the path. */
  ghost predicate IsPath(nodes: seq<seq<Byte>>) {
    && AllValid(nodes) && nodes != []
    && forall i :: 0 <= i < |nodes| ==> (IsEndEntire(nodes[i]) <==> i == |nodes| - 1)
  }

  /** Size of the path at the start of some bytes; the subtraction in `from_ffi_ptr` panics on a length below four. */
  datatype PathSize = PathOk(size: nat) | PathInvalidLength | PathPanic

  function SizeOf(bytes: seq<Byte>): (r: PathSize)
    ensures r.PathOk? ==> r.size <= |bytes|
    decreases |bytes|
  {
    if |bytes| < HEADER_SIZE || LengthField(bytes) > |bytes| then PathInvalidLength
    else if LengthField(bytes) < HEADER_SIZE then PathPanic
    else if bytes[0] == END && bytes[1] == 0xff then PathOk(LengthField(bytes))
    else
      match SizeOf(bytes[LengthField(bytes)..])
      case PathOk(n) => PathOk(LengthField(bytes) + n)
      case other => other
  }

  /** `DevicePath::size_in_bytes_from_slice`. */
  method SizeInBytesFromSlice(input: seq<Byte>) returns (r: PathSize)
    ensures r == SizeOf(input)
  {
    var bytes := input;
    var total := 0;
    while true
      invariant total + |bytes| == |input|
      invariant SizeOf(input) == match SizeOf(bytes) case PathOk(n) => PathOk(total + n) case other => other
      decreases |bytes|
    {
      if |bytes| < HEADER_SIZE || LengthField(bytes) > |bytes| {
        return PathInvalidLength;
      }
      if LengthField(bytes) < HEADER_SIZE {
        return PathPanic;
      }
      var size := LengthField(bytes);
      total := total + size;
      if total > |input| {
        return PathInvalidLength;
      }
      if bytes[0] == END && bytes[1] == 0xff {
        return PathOk(total);
      }
      bytes := bytes[size..];
    }
  }

  /** The nodes of the path at the start of some bytes. */
  function NodesOf(bytes: seq<Byte>): (nodes: seq<seq<Byte>>)
    requires SizeOf(bytes).PathOk?
    decreases |bytes|
  {
    var first := bytes[..LengthField(bytes)];
    if bytes[0] == END && bytes[1] == 0xff then [first] else [first] + NodesOf(bytes[|first|..])
  }

  lemma PathCons(n: seq<Byte>, rest: seq<seq<Byte>>)
    requires ValidNode(n) && !IsEndEntire(n)
    ensures IsPath(rest) ==> IsPath([n] + rest)
    ensures Concat([n] + rest) == n + Concat(rest)
  {
    assert ([n] + rest)[1..] == rest;
  }

  lemma PathTail(nodes: seq<seq<Byte>>)
    requires IsPath(nodes)
    ensures IsEndEntire(nodes[0]) <==> |nodes| == 1
    ensures |nodes| > 1 ==> IsPath(nodes[1..])
    ensures nodes == [nodes[0]] + nodes[1..]
  {
  }

  /** Whatever is accepted is a path. */
  lemma {:induction false} AcceptedIsPath(bytes: seq<Byte>)
    requires SizeOf(bytes).PathOk?
    ensures IsPath(NodesOf(bytes)) && Concat(NodesOf(bytes)) == bytes[..SizeOf(bytes).size]
    decreases |bytes|
  {
    var size := LengthField(bytes);
    var first := bytes[..size];
    assert first[2..4] == bytes[2..4];
    if bytes[0] == END && bytes[1] == 0xff {
      ConcatOne(first);
    } else {
      AcceptedIsPath(bytes[size..]);
      PathCons(first, NodesOf(bytes[size..]));
      SliceOfSuffix(bytes, size, 0, SizeOf(bytes[size..]).size);
      JoinSlices(bytes, 0, size, SizeOf(bytes).size);
    }
  }

  lemma {:induction false} SizeStep(n: seq<Byte>, rest: seq<Byte>)
    requires ValidNode(n)
    ensures IsEndEntire(n) ==> SizeOf(n + rest) == PathOk(|n|) && NodesOf(n + rest) == [n]
    ensures !IsEndEntire(n) && SizeOf(rest).PathOk? ==>
              && SizeOf(n + rest) == PathOk(|n| + SizeOf(rest).size)
              && NodesOf(n + rest) == [n] + NodesOf(rest)
  {
    FirstNode(n, rest);
  }

  /** Every path is accepted, whatever follows it. */
  lemma {:induction false} PathIsAccepted(nodes: seq<seq<Byte>>, tail: seq<Byte>)
    requires IsPath(nodes)
    ensures SizeOf(Concat(nodes) + tail) == PathOk(|Concat(nodes)|)
    ensures NodesOf(Concat(nodes) + tail) == nodes
    decreases |nodes|
  {
    PathTail(nodes);
    var rest := Concat(nodes[1..]) + tail;
    SizeStep(nodes[0], rest);
    assert Concat(nodes) + tail == nodes[0] + rest;
    if |nodes| > 1 {
      PathIsAccepted(nodes[1..], tail);
      assert SizeOf(rest) == PathOk(|Concat(nodes[1..])|);
    } else {
      assert Concat(nodes[1..]) == [];
    }
  }

  /** Complete nodes before the end of the path, and what follows them. */
  ghost predicate StartsWith(bytes: seq<Byte>, nodes: seq<seq<Byte>>, rest: seq<Byte>) {
    && AllValid(nodes) && (forall i :: 0 <= i < |nodes| ==> !IsEndEntire(nodes[i]))
    && bytes == Concat(nodes) + rest
  }

  /** Too few bytes for a header, or for the length in it. */
  predicate CutShort(rest: seq<Byte>) {
    |rest| < 4 || LeValue(rest[2..4]) > |rest|
  }

  /** A length that does not even cover the header. */
  predicate TooShort(rest: seq<Byte>) {
    4 <= |rest| && LeValue(rest[2..4]) <= |rest| && LeValue(rest[2..4]) < 4
  }

  lemma {:induction false} SizeAfterNodes(bytes: seq<Byte>, nodes: seq<seq<Byte>>, rest: seq<Byte>)
    requires StartsWith(bytes, nodes, rest) && (CutShort(rest) || TooShort(rest))
    ensures SizeOf(bytes) == if CutShort(rest) then PathInvalidLength else PathPanic
    decreases |nodes|
  {
    if nodes == [] {
      assert bytes == rest;
    } else {
      var tail := Concat(nodes[1..]) + rest;
      Assoc(nodes[0], Concat(nodes[1..]), rest);
      FirstNode(nodes[0], tail);
      SizeAfterNodes(tail, nodes[1..], rest);
    }
  }

  /** Bytes that are not accepted are complete nodes and then something that is none. */
  lemma {:induction false} WhereItFails(bytes: seq<Byte>) returns (nodes: seq<seq<Byte>>, rest: seq<Byte>)
    requires !SizeOf(bytes).PathOk?
    ensures StartsWith(bytes, nodes, rest) && if SizeOf(bytes).PathPanic? then TooShort(rest) else CutShort(rest)
    decreases |bytes|
  {
    if |bytes| < HEADER_SIZE || LengthField(bytes) > |bytes| || LengthField(bytes) < HEADER_SIZE {
      nodes, rest := [], bytes;
      assert Concat(nodes) + rest == bytes;
    } else {
      var size := LengthField(bytes);
      var first := bytes[..size];
      assert first[2..4] == bytes[2..4];
      nodes, rest := WhereItFails(bytes[size..]);
      assert ([first] + nodes)[1..] == nodes;
      Assoc(first, Concat(nodes), rest);
      assert bytes == first + bytes[size..];
      nodes := [first] + nodes;
    }
  }

  /**
    What becomes of any bytes: they are accepted exactly when they start with
    a path; the length is invalid exactly when, behind some complete nodes,
    there are too few bytes for a header or for the length in it; and the
    subtraction panics exactly when that length does not cover the header.
   */
  lemma {:induction false} PathSizeIff(bytes: seq<Byte>)
    ensures SizeOf(bytes).PathOk? <==> exists nodes, tail :: IsPath(nodes) && bytes == Concat(nodes) + tail
    ensures SizeOf(bytes) == PathInvalidLength <==>
              exists nodes, rest :: StartsWith(bytes, nodes, rest) && CutShort(rest)
    ensures SizeOf(bytes) == PathPanic <==>
              exists nodes, rest :: StartsWith(bytes, nodes, rest) && TooShort(rest)
  {
    forall nodes, rest | StartsWith(bytes, nodes, rest) && (CutShort(rest) || TooShort(rest))
      ensures SizeOf(bytes) == if CutShort(rest) then PathInvalidLength else PathPanic
    {
      SizeAfterNodes(bytes, nodes, rest);
    }
    forall nodes, tail | IsPath(nodes) && bytes == Concat(nodes) + tail
      ensures SizeOf(bytes).PathOk?
    {
      PathIsAccepted(nodes, tail);
    }
    if SizeOf(bytes).PathOk? {
      AcceptedIsPath(bytes);
      var size := SizeOf(bytes).size;
      assert bytes == Concat(NodesOf(bytes)) + bytes[size..];
    } else {
      var nodes, rest := WhereItFails(bytes);
    }
  }

  // ----- The builder

  /** What can be pushed: a generated builder node, or a copy of an existing node. */
  datatype Item = Built(node: Node, value: BuildValue) | Copied(bytes: seq<Byte>)
  {
    ghost predicate Ok() {
      match this
      case Built(node, value) => node.WellFormed() && ValueOk(node, value)
      case Copied(bytes) => ValidNode(bytes)
    }

    function Size(): Result<nat, BuildError>
      requires Ok()
    {
      match this
      case Built(node, value) => SizeInBytes(node, value)
      case Copied(bytes) => Result.Ok(LengthField(bytes))
    }

    function Bytes(): seq<Byte>
      requires Ok()
    {
      match this
      case Built(node, value) => Image(node, value)
      case Copied(bytes) => bytes
    }
  }

  lemma ItemIsNode(item: Item)
    requires item.Ok() && item.Size().Ok?
    ensures ValidNode(item.Bytes()) && item.Size() == Ok(|item.Bytes()|)
  {
    if item.Built? {
      ImageIsValidNode(item.node, item.value);
    }
  }

  /** `write_data` of either kind of item. */
  method WriteItem(item: Item, buf: array<MaybeUninit>, at: nat)
    requires item.Ok() && item.Size().Ok? && at + item.Size().value <= buf.Length
    requires forall k :: at <= k < buf.Length ==> buf[k].None?
    modifies buf
    ensures item.Size() == Result.Ok(|item.Bytes()|)
    ensures Holds(buf, at, item.Bytes())
    ensures forall k :: 0 <= k < at ==> buf[k] == old(buf[k])
    ensures forall k :: at + |item.Bytes()| <= k < buf.Length ==> buf[k].None?
  {
    match item {
      case Built(node, value) => WriteData(node, value, buf, at);
      case Copied(bytes) => Store(buf, at, bytes);
    }
  }

  /** Read initialised bytes. */
  method AssumeInit(buf: array<MaybeUninit>, n: nat, ghost data: seq<Byte>) returns (s: seq<Byte>)
    requires n == |data| <= buf.Length && Holds(buf, 0, data)
    ensures s == data
  {
    s := [];
    for i := 0 to n
      invariant s == data[..i]
    {
      s := s + [buf[i].value];
    }
  }

  /** A longer buffer with the same initialised bytes. */
  method Grow(buf: array<MaybeUninit>, n: nat, capacity: nat, ghost data: seq<Byte>) returns (grown: array<MaybeUninit>)
    requires n == |data| <= buf.Length <= capacity && Holds(buf, 0, data)
    ensures fresh(grown) && grown.Length == capacity && Holds(grown, 0, data)
    ensures forall k :: n <= k < capacity ==> grown[k].None?
  {
    grown := new MaybeUninit[capacity](_ => None);
    for i := 0 to n
      invariant forall k :: 0 <= k < i ==> grown[k] == Some(data[k])
      invariant forall k :: i <= k < capacity ==> grown[k].None?
    {
      grown[i] := buf[i];
    }
  }

  /** A buffer of fixed size, or a vector and what it reserves beyond the request, given its length and the request. */
  datatype Storage = Buf | Vec(spare: (nat, nat) -> nat)

  class DevicePathBuilder {
    const storage: Storage
    /** The buffer, or all the capacity of the vector. */
    var buf: array<MaybeUninit>
    /** The offset, or the length of the vector. */
    var offset: nat
    ghost var pushed: seq<seq<Byte>>

    ghost predicate Valid()
      reads this, buf
    {
      && AllValid(pushed) && offset == |Concat(pushed)| <= buf.Length
      && Holds(buf, 0, Concat(pushed))
      && forall k :: offset <= k < buf.Length ==> buf[k].None?
    }

    /** How many bytes fit, if that is limited. */
    function Limit(): Option<nat>
      reads this
    {
      if storage.Buf? then Some(buf.Length) else None
    }

    constructor WithBuf(buf: array<MaybeUninit>)
      requires forall k :: 0 <= k < buf.Length ==> buf[k].None?
      ensures Valid() && pushed == [] && this.buf == buf && Limit() == Some(buf.Length)
    {
      storage := Storage.Buf;
      this.buf, offset, pushed := buf, 0, [];
    }

    /** The vector is cleared before use, so only its capacity matters. */
    constructor WithVec(capacity: nat, spare: (nat, nat) -> nat)
      ensures Valid() && pushed == [] && fresh(buf) && Limit() == None
    {
      storage := Vec(spare);
      buf := new MaybeUninit[capacity](_ => None);
      offset, pushed := 0, [];
    }

    /** `Vec::reserve`: room for more bytes behind the initialised ones. */
    method Reserve(additional: nat)
      requires Valid() && storage.Vec?
      modifies this`buf
      ensures Valid() && offset + additional <= buf.Length && (buf == old(buf) || fresh(buf))
    {
      if buf.Length - offset < additional {
        buf := Grow(buf, offset, offset + additional + storage.spare(offset, additional), Concat(pushed));
      }
    }

    /** Add a node if it fits.  A node that ends the path is not rejected. */
    method Push(item: Item) returns (error: Option<BuildError>)
      requires Valid() && item.Ok()
      modifies this`buf, this`offset, this`pushed, buf
      ensures Valid() && Limit() == old(Limit()) && (buf == old(buf) || fresh(buf))
      ensures error == if item.Size().Err? then Some(item.Size().error)
                       else if old(Limit()).Some? && old(offset) + |item.Bytes()| > old(Limit()).value
                       then Some(BufferTooSmall)
                       else None
      ensures pushed == if error.None? then old(pushed) + [item.Bytes()] else old(pushed)
    {
      if item.Size().Err? {
        return Some(item.Size().error);
      }
      ItemIsNode(item);
      var size := item.Size().value;
      if storage.Vec? {
        Reserve(size);
      } else if offset + size > buf.Length {
        return Some(BufferTooSmall);
      }
      WriteItem(item, buf, offset);
      Advance(size, item.Bytes());
      error := None;
    }

    /** Account for a node that has been written at the offset. */
    method Advance(size: nat, ghost bytes: seq<Byte>)
      requires AllValid(pushed) && offset == |Concat(pushed)|
      requires ValidNode(bytes) && |bytes| == size && offset + size <= buf.Length
      requires Holds(buf, 0, Concat(pushed)) && Holds(buf, offset, bytes)
      requires forall k :: offset + size <= k < buf.Length ==> buf[k].None?
      modifies this`offset, this`pushed
      ensures Valid() && pushed == old(pushed) + [bytes]
    {
      HoldsJoin(buf, 0, Concat(pushed), bytes);
      AppendNode(pushed, bytes);
      offset := offset + size;
      pushed := pushed + [bytes];
    }

    /** Add the end node and return the bytes of the path. */
    method Finalize() returns (r: Result<seq<Byte>, BuildError>)
      requires Valid()
      modifies this`buf, this`offset, this`pushed, buf
      ensures Valid()
      ensures r == if old(Limit()).Some? && old(offset) + 4 > old(Limit()).value then Err(BufferTooSmall)
                   else Ok(old(Concat(pushed)) + END_ENTIRE_BYTES)
      ensures r.Ok? ==> pushed == old(pushed) + [END_ENTIRE_BYTES]
    {
      var end := Built(END_ENTIRE, BuildValue([], [], []));
      EndEntireImage();
      AppendNode(pushed, END_ENTIRE_BYTES);
      var error := Push(end);
      if error.Some? {
        return Err(error.value);
      }
      var data := AssumeInit(buf, offset, Concat(pushed));
      r := Ok(data);
    }
  }

  lemma EndEntireImage()
    ensures END_ENTIRE.WellFormed() && ValueOk(END_ENTIRE, BuildValue([], [], []))
    ensures SizeInBytes(END_ENTIRE, BuildValue([], [], [])) == Ok(4)
    ensures Image(END_ENTIRE, BuildValue([], [], [])) == END_ENTIRE_BYTES
    ensures ValidNode(END_ENTIRE_BYTES) && IsEndEntire(END_ENTIRE_BYTES)
  {
    assert FieldsUpTo(END_ENTIRE, BuildValue([], [], []), 0) == [];
    assert LeBytes(4, 2) == [4, 0];
    assert LeValue([4, 0]) == 4 by {
      assert LeValue([0]) == 0;
      assert [4, 0][1..] == [0];
    }
    assert END_ENTIRE_BYTES[2..4] == [4, 0];
  }

  ghost predicate AllOk(items: seq<Item>) {
    forall i :: 0 <= i < |items| ==> items[i].Ok()
  }

  function Images(items: seq<Item>): (r: seq<seq<Byte>>)
    requires AllOk(items)
    ensures |r| == |items|
  {
    seq(|items|, i requires 0 <= i < |items| => items[i].Bytes())
  }

  /** Every node has a size, and together with the end node they do not exceed the limit, if there is one. */
  ghost predicate Fits(items: seq<Item>, limit: Option<nat>)
    requires AllOk(items)
  {
    && (forall i :: 0 <= i < |items| ==> items[i].Size().Ok?)
    && (limit.Some? ==> |Concat(Images(items))| + 4 <= limit.value)
  }

  lemma {:induction false} ConcatPrefix(nodes: seq<seq<Byte>>, k: nat)
    requires k <= |nodes|
    ensures |Concat(nodes[..k])| <= |Concat(nodes)|
  {
    ConcatAppend(nodes[..k], nodes[k..]);
    assert nodes[..k] + nodes[k..] == nodes;
  }

  /** Push every item and finalize: the path is built exactly when everything fits. */
  method BuildPath(items: seq<Item>, builder: DevicePathBuilder) returns (r: Result<seq<Byte>, BuildError>)
    requires AllOk(items) && builder.Valid() && builder.pushed == []
    modifies builder, builder.buf
    ensures r.Ok? <==> Fits(items, old(builder.Limit()))
    ensures r.Err? && (forall i :: 0 <= i < |items| ==> items[i].Size().Ok?) ==> r.error == BufferTooSmall
    ensures r.Ok? ==> AllValid(Images(items)) && r.value == Concat(Images(items)) + END_ENTIRE_BYTES
  {
    var error := PushAll(items, builder);
    if error.Some? {
      return Err(error.value);
    }
    r := builder.Finalize();
  }

  /** Push every item until one does not fit. */
  method PushAll(items: seq<Item>, builder: DevicePathBuilder) returns (error: Option<BuildError>)
    requires AllOk(items) && builder.Valid() && builder.pushed == []
    modifies builder, builder.buf
    ensures builder.Valid() && builder.Limit() == old(builder.Limit())
              && (builder.buf == old(builder.buf) || fresh(builder.buf))
    ensures error.None? ==> builder.pushed == Images(items) && forall k :: 0 <= k < |items| ==> items[k].Size().Ok?
    ensures error.Some? ==> !Fits(items, old(builder.Limit()))
    ensures error.Some? && (forall i :: 0 <= i < |items| ==> items[i].Size().Ok?) ==> error.value == BufferTooSmall
  {
    ghost var images := Images(items);
    for i := 0 to |items|
      invariant builder.Valid() && builder.Limit() == old(builder.Limit())
                && (builder.buf == old(builder.buf) || fresh(builder.buf))
      invariant builder.pushed == images[..i]
      invariant forall k :: 0 <= k < i ==> items[k].Size().Ok?
    {
      error := builder.Push(items[i]);
      if error.Some? {
        TooLong(images, i);
        return;
      }
      assert images[..i + 1] == images[..i] + [images[i]];
    }
    assert images[..|items|] == images;
    error := None;
  }

  lemma {:induction false} TooLong(nodes: seq<seq<Byte>>, i: nat)
    requires i < |nodes|
    ensures |Concat(nodes[..i])| + |nodes[i]| <= |Concat(nodes)|
  {
    assert nodes[..i + 1] == nodes[..i] + [nodes[i]];
    AppendNode(nodes[..i], nodes[i]);
    ConcatPrefix(nodes, i + 1);
  }

  // ----- Reading back a built path

  lemma {:induction false} BeforeEnd(nodes: seq<seq<Byte>>)
    requires AllValid(nodes)
    ensures AllValid(nodes + [END_ENTIRE_BYTES])
    ensures Before(nodes + [END_ENTIRE_BYTES], EndEntireNode) == Before(nodes, EndEntireNode)
  {
    EndEntireImage();
    if nodes == [] {
    } else {
      BeforeEnd(nodes[1..]);
      assert (nodes + [END_ENTIRE_BYTES])[1..] == nodes[1..] + [END_ENTIRE_BYTES];
    }
  }

  lemma {:induction false} BeforeIsAllIff(nodes: seq<seq<Byte>>, stop: StopCondition)
    requires AllValid(nodes)
    ensures Before(nodes, stop) == nodes <==> forall i :: 0 <= i < |nodes| ==> !StopsAt(stop, nodes[i])
  {
    if nodes == [] {
    } else {
      BeforeIsAllIff(nodes[1..], stop);
      if !StopsAt(stop, nodes[0]) {
        assert nodes == [nodes[0]] + nodes[1..];
        assert Before(nodes, stop)[1..] == Before(nodes[1..], stop);
      }
    }
  }

  /**
    Build a path, then iterate over its nodes: the pushed nodes come back
    exactly when none of them ends the path; otherwise the iteration stops in
    front of the first one that does.
   */
  method BuildAndIterate(items: seq<Item>, builder: DevicePathBuilder) returns (r: Option<seq<seq<Byte>>>)
    requires AllOk(items) && builder.Valid() && builder.pushed == []
    modifies builder, builder.buf
    ensures r.Some? <==> Fits(items, old(builder.Limit()))
    ensures r.Some? ==>
              && AllValid(Images(items))
              && r.value == Before(Images(items), EndEntireNode)
              && (r.value == Images(items) <==>
                    forall i :: 0 <= i < |items| ==> !(Images(items)[i][0] == 0x7f && Images(items)[i][1] == 0xff))
  {
    var path := BuildPath(items, builder);
    if path.Err? {
      return None;
    }
    ghost var images := Images(items);
    BeforeEnd(images);
    AppendNode(images, END_ENTIRE_BYTES);
    BeforeIsAllIff(images, EndEntireNode);
    var iter := new NodeIterator(path.value, EndEntireNode, images + [END_ENTIRE_BYTES]);
    var nodes := Collect(iter);
    r := Some(nodes);
  }

  /** The smallest path that does not come back: the builder takes an end node and no node is read back. */
  method PushedEndNodeIsLost(builder: DevicePathBuilder) returns (r: Option<seq<seq<Byte>>>)
    requires builder.Valid() && builder.pushed == []
    modifies builder, builder.buf
    ensures r == if old(builder.Limit()).None? || old(builder.Limit()).value >= 8 then Some([]) else None
  {
    EndEntireImage();
    var items := [Copied(END_ENTIRE_BYTES)];
    assert Images(items) == [END_ENTIRE_BYTES];
    ConcatOne(END_ENTIRE_BYTES);
    r := BuildAndIterate(items, builder);
  }

  /** A path built without end nodes is accepted by the conversion from bytes, in full. */
  lemma {:induction false} BuiltPathIsAccepted(nodes: seq<seq<Byte>>, tail: seq<Byte>)
    requires AllValid(nodes) && forall i :: 0 <= i < |nodes| ==> !IsEndEntire(nodes[i])
    ensures SizeOf(Concat(nodes) + END_ENTIRE_BYTES + tail) == PathOk(|Concat(nodes)| + 4)
    ensures NodesOf(Concat(nodes) + END_ENTIRE_BYTES + tail) == nodes + [END_ENTIRE_BYTES]
  {
    EndEntireImage();
    AppendNode(nodes, END_ENTIRE_BYTES);
    PathIsAccepted(nodes + [END_ENTIRE_BYTES], tail);
  }
}
