/** Splitting a device path into its instances, each ending with an end node. */
module PathInstances {
  import opened Bytes
  import opened DevicePaths
  import opened NodeParse

  /** Number of nodes up to and including the first end node. */
  function InstanceLen(nodes: seq<seq<Byte>>): (k: nat)
    requires AllValid(nodes)
    ensures k <= |nodes| && (nodes != [] ==> k > 0)
    ensures forall i :: 0 <= i < k - 1 ==> !IsEnd(nodes[i])
    ensures k < |nodes| ==> IsEnd(nodes[k - 1])
  {
    if nodes == [] then 0 else if IsEnd(nodes[0]) then 1 else 1 + InstanceLen(nodes[1..])
  }

  /** The nodes of each instance in turn. */
  function Instances(nodes: seq<seq<Byte>>): (r: seq<seq<seq<Byte>>>)
    requires AllValid(nodes)
    decreases |nodes|
  {
    if nodes == [] then [] else [nodes[..InstanceLen(nodes)]] + Instances(nodes[InstanceLen(nodes)..])
  }

  function Flatten(instances: seq<seq<seq<Byte>>>): seq<seq<Byte>> {
    if instances == [] then [] else instances[0] + Flatten(instances[1..])
  }

  /** Nothing is lost or reordered: the instances, one after the other, are the path. */
  lemma {:induction false} InstancesPartitionPath(nodes: seq<seq<Byte>>)
    requires AllValid(nodes)
    ensures Flatten(Instances(nodes)) == nodes
    decreases |nodes|
  {
    if nodes == [] {
    } else {
      var k := InstanceLen(nodes);
      InstancesPartitionPath(nodes[k..]);
      assert nodes == nodes[..k] + nodes[k..];
    }
  }

  lemma {:induction false} LaterInstance(nodes: seq<seq<Byte>>, k: nat, j: nat)
    requires AllValid(nodes) && nodes != [] && k == InstanceLen(nodes) && 0 < j < |Instances(nodes)|
    ensures 0 < k < |nodes| && nodes[k..][|nodes| - k - 1] == nodes[|nodes| - 1]
    ensures j - 1 < |Instances(nodes[k..])| && Instances(nodes)[j] == Instances(nodes[k..])[j - 1]
  {
    assert nodes[k..] == [] <==> k == |nodes|;
  }

  /** In a path whose last node is an end node, every instance has exactly one end node, its last. */
  lemma {:induction false} InstancesEndOnce(nodes: seq<seq<Byte>>, j: nat)
    requires AllValid(nodes) && nodes != [] && nodes[|nodes| - 1][0] == 0x7f
    requires j < |Instances(nodes)|
    ensures var inst := Instances(nodes)[j];
            && inst != [] && AllValid(inst)
            && forall i :: 0 <= i < |inst| ==> (inst[i][0] == 0x7f <==> i == |inst| - 1)
    decreases |nodes|
  {
    var k := InstanceLen(nodes);
    if j == 0 {
    } else {
      LaterInstance(nodes, k, j);
      InstancesEndOnce(nodes[k..], j - 1);
    }
  }

  class InstanceIterator {
    var remaining: Option<seq<Byte>>
    /** The nodes that are left. */
    ghost var rest: seq<seq<Byte>>

    ghost predicate Valid()
      reads this
    {
      && AllValid(rest)
      && remaining == if rest == [] then None else Some(Concat(rest))
    }

    constructor (path: seq<Byte>, ghost nodes: seq<seq<Byte>>)
      requires AllValid(nodes) && nodes != [] && path == Concat(nodes)
      ensures Valid() && rest == nodes
    {
      remaining, rest := Some(path), nodes;
    }

    /** Add up node lengths to the first end node, then split there. */
    method Next() returns (r: Option<seq<Byte>>)
      requires Valid()
      modifies this
      ensures Valid()
      ensures if old(rest) == [] then r == None && rest == []
              else r == Some(Concat(old(rest)[..InstanceLen(old(rest))])) && rest == old(rest)[InstanceLen(old(rest))..]
    {
      if remaining.None? {
        return None;
      }
      var path := remaining.value;
      var size := InstanceSize(path, rest);
      ghost var k := InstanceLen(rest);
      ConcatAppend(rest[..k], rest[k..]);
      assert rest == rest[..k] + rest[k..];
      var head, tail := path[..size], path[size..];
      assert head == Concat(rest[..k]) && tail == Concat(rest[k..]);
      EmptyConcat(rest[k..]);
      remaining := if tail == [] then None else Some(tail);
      rest := rest[k..];
      r := Some(head);
    }
  }

  lemma EmptyConcat(nodes: seq<seq<Byte>>)
    requires AllValid(nodes)
    ensures Concat(nodes) == [] <==> nodes == []
  {
  }

  /** Bytes up to and including the first end node. */
  method InstanceSize(path: seq<Byte>, ghost nodes: seq<seq<Byte>>) returns (size: nat)
    requires AllValid(nodes) && path == Concat(nodes)
    ensures size == |Concat(nodes[..InstanceLen(nodes)])|
  {
    size := 0;
    var iter := new NodeIterator(path, NoMoreNodes, nodes);
    var node := iter.Next();
    ghost var seen := 0;
    while node.Some?
      invariant iter.Valid() && iter.stop == NoMoreNodes && seen <= |nodes|
      invariant node.Some? ==> seen < |nodes| && node.value == nodes[seen] && iter.rest == nodes[seen + 1..]
      invariant node.None? ==> seen == |nodes|
      invariant size == |Concat(nodes[..seen])|
      invariant forall i :: 0 <= i < seen ==> !IsEnd(nodes[i])
      decreases |nodes| - seen
    {
      assert nodes[..seen + 1] == nodes[..seen] + [nodes[seen]];
      AppendNode(nodes[..seen], nodes[seen]);
      size := size + LengthField(node.value);
      if IsEnd(node.value) {
        InstanceLenIs(nodes, seen + 1);
        return;
      }
      seen := seen + 1;
      node := iter.Next();
    }
    InstanceLenIs(nodes, |nodes|);
  }

  lemma {:induction false} InstanceLenIs(nodes: seq<seq<Byte>>, k: nat)
    requires AllValid(nodes) && k <= |nodes| && (nodes != [] ==> k > 0)
    requires forall i :: 0 <= i < k - 1 ==> !IsEnd(nodes[i])
    requires k < |nodes| ==> IsEnd(nodes[k - 1])
    ensures InstanceLen(nodes) == k
  {
  }

  /** All the instances that the iterator yields. */
  method CollectInstances(iter: InstanceIterator) returns (r: seq<seq<Byte>>)
    requires iter.Valid()
    modifies iter
    ensures |r| == |Instances(old(iter.rest))|
    ensures forall j :: 0 <= j < |r| ==> r[j] == Concat(Instances(old(iter.rest))[j])
  {
    r := [];
    ghost var all := Instances(iter.rest);
    while iter.remaining.Some?
      invariant iter.Valid() && |r| <= |all| && Instances(iter.rest) == all[|r|..]
      invariant forall j :: 0 <= j < |r| ==> r[j] == Concat(all[j])
      decreases |iter.rest|
    {
      assert all[|r|..][1..] == all[|r| + 1..];
      var next := iter.Next();
      r := r + [next.value];
    }
  }

  // ----- A path of two instances

  const END_INSTANCE_BYTES: seq<Byte> := [0x7f, 1, 4, 0]

  /** Nodes in front of an end node, in the middle or at the end of a path. */
  ghost predicate Ordinary(nodes: seq<seq<Byte>>) {
    AllValid(nodes) && forall i :: 0 <= i < |nodes| ==> nodes[i][0] != 0x7f
  }

  lemma EndInstanceIsValid()
    ensures ValidNode(END_INSTANCE_BYTES)
  {
    assert END_INSTANCE_BYTES[2..4] == [4, 0];
    assert LeValue([4, 0]) == 4 by {
      assert LeValue([0]) == 0;
      assert [4, 0][1..] == [0];
    }
  }

  lemma {:induction false} OneInstance(a: seq<seq<Byte>>, end: seq<Byte>, rest: seq<seq<Byte>>)
    requires Ordinary(a) && ValidNode(end) && end[0] == 0x7f && AllValid(rest)
    ensures AllValid(a + [end]) && AllValid(a + [end] + rest)
    ensures Instances(a + [end] + rest) == [a + [end]] + Instances(rest)
    ensures Before(a + [end], AnyEndNode) == a
  {
    var all := a + [end] + rest;
    InstanceLenIs(all, |a| + 1);
    assert all[..|a| + 1] == a + [end] && all[|a| + 1..] == rest;
    BeforeFirstEnd(a, end);
  }

  lemma {:induction false} BeforeFirstEnd(a: seq<seq<Byte>>, end: seq<Byte>)
    requires Ordinary(a) && ValidNode(end) && end[0] == 0x7f
    ensures AllValid(a + [end]) && Before(a + [end], AnyEndNode) == a
  {
    if a == [] {
    } else {
      BeforeFirstEnd(a[1..], end);
      assert (a + [end])[1..] == a[1..] + [end];
    }
  }

  /**
    Read a path of two instances: the iterator over instances yields their
    bytes, and the iterator over the nodes of each stops in front of its end
    node.
   */
  method ReadTwoInstances(path: seq<Byte>, ghost a: seq<seq<Byte>>, ghost b: seq<seq<Byte>>)
    returns (instances: seq<seq<Byte>>, nodes: seq<seq<seq<Byte>>>)
    requires Ordinary(a) && Ordinary(b)
    requires path == Concat(a) + [0x7f, 1, 4, 0] + Concat(b) + [0x7f, 0xff, 4, 0]
    ensures instances == [Concat(a) + [0x7f, 1, 4, 0], Concat(b) + [0x7f, 0xff, 4, 0]]
    ensures nodes == [a, b]
  {
    ghost var first, second := a + [END_INSTANCE_BYTES], b + [END_ENTIRE_BYTES];
    EndInstanceIsValid();
    EndEntireImage();
    OneInstance(a, END_INSTANCE_BYTES, second);
    OneInstance(b, END_ENTIRE_BYTES, []);
    assert second + [] == second;
    AppendNode(a, END_INSTANCE_BYTES);
    AppendNode(b, END_ENTIRE_BYTES);
    ConcatAppend(first, second);
    Assoc(Concat(first), Concat(b), END_ENTIRE_BYTES);
    var iter := new InstanceIterator(path, first + second);
    instances := CollectInstances(iter);
    assert Instances(first + second) == [first, second];
    var left := new NodeIterator(instances[0], AnyEndNode, first);
    var leftNodes := Collect(left);
    var right := new NodeIterator(instances[1], AnyEndNode, second);
    var rightNodes := Collect(right);
    nodes := [leftNodes, rightNodes];
  }
}
