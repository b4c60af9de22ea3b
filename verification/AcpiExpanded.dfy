/**
  The Expanded ACPI node keeps three null-terminated strings in one byte
  slice.  The getters cut it at the first three nulls.
 */
module AcpiExpanded {
  import opened Bytes
  import opened NodeSpec
  import opened NodeBuild
  import opened NodeParse

  predicate NoNul(s: seq<Byte>) {
    forall i :: 0 <= i < |s| ==> s[i] != 0
  }

  /** Ends with its only null. */
  predicate Terminated(s: seq<Byte>) {
    |s| > 0 && s[|s| - 1] == 0 && NoNul(s[..|s| - 1])
  }

  // ----- Reference: cutting after the first null

  function FirstNul(data: seq<Byte>): (i: nat)
    ensures i <= |data|
  {
    if data == [] || data[0] == 0 then 0 else 1 + FirstNul(data[1..])
  }

  lemma {:induction false} FirstNulIsFirst(data: seq<Byte>)
    ensures NoNul(data[..FirstNul(data)])
    ensures FirstNul(data) < |data| ==> data[FirstNul(data)] == 0
  {
    if data == [] || data[0] == 0 {
    } else {
      FirstNulIsFirst(data[1..]);
      var i := FirstNul(data[1..]);
      assert data[..i + 1] == [data[0]] + data[1..][..i];
    }
  }

  /** The data up to and including the first null, all of it if there is none. */
  function Head(data: seq<Byte>): (s: seq<Byte>) {
    if FirstNul(data) < |data| then data[..FirstNul(data) + 1] else data
  }

  function Rest(data: seq<Byte>): (s: seq<Byte>)
    ensures Head(data) + s == data
  {
    data[|Head(data)|..]
  }

  /** The substring with the given index. */
  function Segment(data: seq<Byte>, index: nat): seq<Byte> {
    if index == 0 then Head(data)
    else if index == 1 then Head(Rest(data))
    else Head(Rest(Rest(data)))
  }

  // ----- The code

  /** The next item of the iterator over the positions of nulls, which stands at `from`. */
  function NextNul(data: seq<Byte>, from: nat): (r: Option<nat>)
    requires from <= |data|
    ensures r.Some? ==> from <= r.value < |data|
  {
    var i := FirstNul(data[from..]);
    if from + i == |data| then None else Some(from + i)
  }

  /** Where the iterator stands after that: behind the null, or at the end. */
  function After(data: seq<Byte>, n: Option<nat>): (end: nat)
    requires n.Some? ==> n.value < |data|
    ensures end <= |data|
  {
    if n.Some? then n.value + 1 else |data|
  }

  /** `acpi_expanded_null_indices`. */
  function NullIndices(data: seq<Byte>): (r: (Option<nat>, Option<nat>, Option<nat>))
    ensures r.0.Some? ==> r.0.value < |data|
    ensures r.1.Some? ==> r.1.value < |data|
    ensures r.2.Some? ==> r.2.value < |data|
    ensures (r.0.None? ==> r.1.None?) && (r.1.None? ==> r.2.None?)
  {
    var n0 := NextNul(data, 0);
    var n1 := NextNul(data, After(data, n0));
    var n2 := NextNul(data, After(data, n1));
    (n0, n1, n2)
  }

  lemma {:induction false} NextNulIsNext(data: seq<Byte>, from: nat)
    requires from <= |data|
    ensures var n := NextNul(data, from);
            && (n.Some? ==> data[n.value] == 0)
            && (forall i :: from <= i < |data| && data[i] == 0 ==> n.Some? && n.value <= i)
  {
    FirstNulIsFirst(data[from..]);
    var k := FirstNul(data[from..]);
    assert forall i :: from <= i < from + k ==> data[i] == data[from..][..k][i - from];
  }

  /** The positions are those of the first three nulls, in order, and no null before the last is missed. */
  lemma {:induction false} NullIndicesAreTheFirstNuls(data: seq<Byte>)
    ensures var (n0, n1, n2) := NullIndices(data);
            && (n0.Some? ==> data[n0.value] == 0)
            && (n1.Some? ==> n0.Some? && n0.value < n1.value && data[n1.value] == 0)
            && (n2.Some? ==> n1.Some? && n1.value < n2.value && data[n2.value] == 0)
            && forall i :: 0 <= i < |data| && data[i] == 0 ==>
                 n0 == Some(i) || n1 == Some(i) || n2 == Some(i) || (n2.Some? && n2.value < i)
  {
    var (n0, n1, n2) := NullIndices(data);
    NextNulIsNext(data, 0);
    NextNulIsNext(data, After(data, n0));
    NextNulIsNext(data, After(data, n1));
  }

  lemma {:induction false} HeadIsPrefix(rest: seq<Byte>)
    ensures |Head(rest)| <= |rest| && Head(rest) == rest[..|Head(rest)|] && Rest(rest) == rest[|Head(rest)|..]
    ensures |Head(rest)| == if FirstNul(rest) < |rest| then FirstNul(rest) + 1 else |rest|
  {
  }

  lemma {:induction false} Cut(data: seq<Byte>, from: nat, rest: seq<Byte>)
    requires from <= |data| && rest == data[from..]
    ensures var end := After(data, NextNul(data, from));
            from <= end <= |data| && Head(rest) == data[from..end] && Rest(rest) == data[end..]
  {
    HeadIsPrefix(rest);
    SliceOfSuffix(data, from, 0, |Head(rest)|);
    assert rest[|Head(rest)|..] == data[from + |Head(rest)|..];
  }

  /** The three segments lie one after the other, each ending behind its null or at the end. */
  lemma {:induction false} SegmentsByNuls(data: seq<Byte>)
    ensures var (n0, n1, n2) := NullIndices(data);
            var e0, e1, e2 := After(data, n0), After(data, n1), After(data, n2);
            && e0 <= e1 <= e2
            && Segment(data, 0) == data[0..e0]
            && Segment(data, 1) == data[e0..e1]
            && Segment(data, 2) == data[e1..e2]
  {
    var (n0, n1, n2) := NullIndices(data);
    Cut(data, 0, data);
    Cut(data, After(data, n0), Rest(data));
    Cut(data, After(data, n1), Rest(Rest(data)));
  }

  /** Where the substring with the given index begins and ends. */
  function Bounds(data: seq<Byte>, n0: Option<nat>, n1: Option<nat>, n2: Option<nat>, index: nat): (nat, nat)
    requires (n0.Some? ==> n0.value < |data|) && (n1.Some? ==> n1.value < |data|) && (n2.Some? ==> n2.value < |data|)
  {
    if index == 0 then (0, After(data, n0))
    else if index == 1 then (After(data, n0), After(data, n1))
    else (After(data, n1), After(data, n2))
  }

  /** The bounds that `get_acpi_expanded_substr` computes from the positions of the nulls. */
  method SubstrBounds(data: seq<Byte>, n0: Option<nat>, n1: Option<nat>, n2: Option<nat>, stringIndex: nat)
    returns (start: nat, end: nat)
    requires stringIndex < 3
    requires (n0.Some? ==> n0.value < |data|) && (n1.Some? ==> n1.value < |data|) && (n2.Some? ==> n2.value < |data|)
    requires (n0.None? ==> n1.None?) && (n1.None? ==> n2.None?)
    ensures (start, end) == Bounds(data, n0, n1, n2, stringIndex)
  {
    start := |data|;
    end := start;
    match stringIndex {
      case 0 =>
        start := 0;
        if n0.Some? {
          end := n0.value + 1;
        }
      case 1 =>
        if n0.Some? {
          start := n0.value + 1;
          if n1.Some? {
            end := n1.value + 1;
          }
        }
      case _ =>
        if n1.Some? {
          start := n1.value + 1;
          if n2.Some? {
            end := n2.value + 1;
          }
        }
    }
  }

  lemma {:induction false} SegmentByBounds(data: seq<Byte>, index: nat)
    requires index < 3
    ensures var (n0, n1, n2) := NullIndices(data);
            var (start, end) := Bounds(data, n0, n1, n2, index);
            start <= end <= |data| && Segment(data, index) == data[start..end]
  {
    SegmentsByNuls(data);
    if index == 0 {
      assert Segment(data, index) == Segment(data, 0);
    } else if index == 1 {
      assert Segment(data, index) == Segment(data, 1);
    } else {
      assert Segment(data, index) == Segment(data, 2);
    }
  }

  /** `get_acpi_expanded_substr`. */
  method GetSubstr(data: seq<Byte>, stringIndex: nat) returns (s: seq<Byte>)
    requires stringIndex < 3
    ensures s == Segment(data, stringIndex)
  {
    SegmentByBounds(data, stringIndex);
    var (n0, n1, n2) := NullIndices(data);
    var start, end := SubstrBounds(data, n0, n1, n2, stringIndex);
    s := if start <= end <= |data| then data[start..end] else [];
  }

  // ----- Properties

  /** Three segments cover a prefix of the data: all of it unless bytes follow the third null. */
  lemma {:induction false} SegmentsCoverPrefix(data: seq<Byte>)
    ensures Segment(data, 0) + Segment(data, 1) + Segment(data, 2) <= data
    ensures Segment(data, 0) + Segment(data, 1) + Segment(data, 2) == data <==>
              NullIndices(data).2.None? || NullIndices(data).2.value == |data| - 1
  {
    var (n0, n1, n2) := NullIndices(data);
    SegmentsByNuls(data);
    JoinSlices(data, 0, After(data, n0), After(data, n1));
    JoinSlices(data, 0, After(data, n1), After(data, n2));
  }

  /**
    When three strings come back from their concatenation: each has no null
    but a last one, and a string without its null is followed by empty ones.
   */
  predicate Recoverable(a: seq<Byte>, b: seq<Byte>, c: seq<Byte>) {
    && (Terminated(a) || (NoNul(a) && b == [] && c == []))
    && (Terminated(b) || (NoNul(b) && c == []))
    && (Terminated(c) || NoNul(c))
  }

  lemma {:induction false} FirstNulUnique(s: seq<Byte>, i: nat)
    requires i <= |s| && NoNul(s[..i]) && (i < |s| ==> s[i] == 0)
    ensures FirstNul(s) == i
  {
    FirstNulIsFirst(s);
  }

  lemma {:induction false} HeadOfTerminated(x: seq<Byte>, y: seq<Byte>)
    requires Terminated(x)
    ensures Head(x + y) == x && Rest(x + y) == y
  {
    assert (x + y)[..|x| - 1] == x[..|x| - 1];
    FirstNulUnique(x + y, |x| - 1);
  }

  lemma {:induction false} HeadOfUnterminated(x: seq<Byte>)
    requires NoNul(x)
    ensures Head(x) == x && Rest(x) == []
  {
    assert x[..|x|] == x;
    FirstNulUnique(x, |x|);
  }

  lemma {:induction false} HeadShape(data: seq<Byte>)
    ensures Terminated(Head(data)) || (NoNul(Head(data)) && Rest(data) == [])
  {
    FirstNulIsFirst(data);
    var i := FirstNul(data);
    assert data[..|data|] == data;
    assert i < |data| ==> Head(data)[..i] == data[..i];
  }

  lemma {:induction false} CutOff(a: seq<Byte>, rest: seq<Byte>)
    ensures Head(a + rest) == a <==> Terminated(a) || (NoNul(a) && rest == [])
    ensures Head(a + rest) == a ==> Rest(a + rest) == rest
  {
    if Head(a + rest) == a {
      HeadShape(a + rest);
    }
    if Terminated(a) {
      HeadOfTerminated(a, rest);
    } else if NoNul(a) && rest == [] {
      assert a + rest == a;
      HeadOfUnterminated(a);
    }
  }

  lemma {:induction false} LastTwoRecoverIff(b: seq<Byte>, c: seq<Byte>)
    ensures Head(b + c) == b && Head(Rest(b + c)) == c <==>
              (Terminated(b) || (NoNul(b) && c == [])) && (Terminated(c) || NoNul(c))
  {
    assert c + [] == c;
    CutOff(b, c);
    CutOff(c, []);
  }

  /** The getters give back exactly the recoverable triples of strings. */
  lemma {:induction false} SegmentsRecoverIff(a: seq<Byte>, b: seq<Byte>, c: seq<Byte>)
    ensures var data := a + b + c;
            Segment(data, 0) == a && Segment(data, 1) == b && Segment(data, 2) == c <==> Recoverable(a, b, c)
  {
    Assoc(a, b, c);
    assert b + c == [] <==> b == [] && c == [];
    CutOff(a, b + c);
    LastTwoRecoverIff(b, c);
  }

  /** A first string without its null takes the second one with it. */
  lemma MissingNulMergesStrings()
    ensures !Recoverable([65], [66, 0], [0])
    ensures Segment([65] + [66, 0] + [0], 0) == [65, 66, 0]
  {
    var data := [65] + [66, 0] + [0];
    assert Terminated([65, 66, 0]);
    assert data == [65, 66, 0] + [0];
    HeadOfTerminated([65, 66, 0], [0]);
  }

  // ----- The node

  const EXPANDED: Node := Node(0x02, 0x02,
    [Plain(Base(U32)), Plain(Base(U32)), Plain(Base(U32)),
     Field(false, Slice(U8), false, false),
     Field(false, Slice(U8), false, false),
     Field(false, Slice(U8), false, false)], 16)

  /** A builder value of the node: numeric ids, then the three strings. */
  function Value(hid: seq<Byte>, uid: seq<Byte>, cid: seq<Byte>, a: seq<Byte>, b: seq<Byte>, c: seq<Byte>): BuildValue {
    BuildValue([hid, uid, cid, a, b, c], [[], [], [], [], [], []], [0, 0, 0, 0, 0, 0])
  }

  lemma ExpandedIsWellFormed()
    ensures EXPANDED.WellFormed() && EXPANDED.HasDstGroup() && EXPANDED.IsDst()
  {
    assert EXPANDED.FixedSize(1) == 4;
    assert EXPANDED.FixedSize(2) == 8;
    assert EXPANDED.FixedSize(3) == 12;
    assert EXPANDED.FixedSize(4) == 12;
    assert EXPANDED.FixedSize(5) == 12;
    assert EXPANDED.SliceCount(3) == 0;
    assert EXPANDED.SliceCount(5) == 2;
  }

  ghost predicate ValueFits(hid: seq<Byte>, uid: seq<Byte>, cid: seq<Byte>, a: seq<Byte>, b: seq<Byte>, c: seq<Byte>) {
    |hid| == |uid| == |cid| == 4 && 16 + |a| + |b| + |c| <= U16_MAX
  }

  lemma ExpandedFields(v: BuildValue)
    requires HasShape(EXPANDED, v)
    ensures forall i :: 0 <= i < 6 ==> FieldBytes(EXPANDED, v, i) == v.plain[i]
  {
  }

  lemma ExpandedBody(v: BuildValue)
    requires HasShape(EXPANDED, v)
    ensures FieldsUpTo(EXPANDED, v, 3) == v.plain[0] + v.plain[1] + v.plain[2]
    ensures FieldsUpTo(EXPANDED, v, 6) == FieldsUpTo(EXPANDED, v, 3) + (v.plain[3] + v.plain[4] + v.plain[5])
  {
    ExpandedFields(v);
    assert FieldsUpTo(EXPANDED, v, 1) == v.plain[0];
    assert FieldsUpTo(EXPANDED, v, 2) == v.plain[0] + v.plain[1];
    assert FieldsUpTo(EXPANDED, v, 4) == FieldsUpTo(EXPANDED, v, 3) + v.plain[3];
    assert FieldsUpTo(EXPANDED, v, 5) == FieldsUpTo(EXPANDED, v, 3) + v.plain[3] + v.plain[4];
    assert FieldsUpTo(EXPANDED, v, 6) == FieldsUpTo(EXPANDED, v, 5) + v.plain[5];
  }

  lemma {:induction false} ExpandedValueOk(hid: seq<Byte>, uid: seq<Byte>, cid: seq<Byte>,
                                           a: seq<Byte>, b: seq<Byte>, c: seq<Byte>)
    requires ValueFits(hid, uid, cid, a, b, c)
    ensures var v := Value(hid, uid, cid, a, b, c);
            && ValueOk(EXPANDED, v)
            && SizeInBytes(EXPANDED, v).Ok?
            && |Image(EXPANDED, v)| == 16 + |a| + |b| + |c|
            && Image(EXPANDED, v)[16..] == a + b + c
  {
    var v := Value(hid, uid, cid, a, b, c);
    ExpandedFields(v);
    ExpandedIsWellFormed();
    ExpandedBody(v);
    SoundIsRegular(EXPANDED, v);
    SizeIsImageLength(EXPANDED, v);
    assert Image(EXPANDED, v)[16..] == a + b + c;
  }

  /**
    Build the node and read it: the numeric ids come back, and the three
    string getters give back what was built exactly when the strings are
    recoverable.
   */
  lemma ExpandedRoundTrip(hid: seq<Byte>, uid: seq<Byte>, cid: seq<Byte>, a: seq<Byte>, b: seq<Byte>, c: seq<Byte>)
    requires ValueFits(hid, uid, cid, a, b, c)
    ensures EXPANDED.WellFormed() && EXPANDED.HasDstGroup() && EXPANDED.IsDst()
    ensures var v := Value(hid, uid, cid, a, b, c);
            && ValueOk(EXPANDED, v)
            && ValidNode(Image(EXPANDED, v)) && TryFrom(EXPANDED, Image(EXPANDED, v)).Ok?
            && var p := TryFrom(EXPANDED, Image(EXPANDED, v)).value;
            && Get(EXPANDED, p, 0) == hid && Get(EXPANDED, p, 1) == uid && Get(EXPANDED, p, 2) == cid
            && var data := GroupData(EXPANDED, p);
            (Segment(data, 0) == a && Segment(data, 1) == b && Segment(data, 2) == c <==> Recoverable(a, b, c))
  {
    var v := Value(hid, uid, cid, a, b, c);
    ExpandedIsWellFormed();
    ExpandedValueOk(hid, uid, cid, a, b, c);
    GroupReadsBackExactlyForBytes(EXPANDED, v);
    ExpandedFields(v);
    AccessorsReadWhatWasBuilt(EXPANDED, v, 0);
    AccessorsReadWhatWasBuilt(EXPANDED, v, 1);
    AccessorsReadWhatWasBuilt(EXPANDED, v, 2);
    SegmentsRecoverIff(a, b, c);
  }
}
