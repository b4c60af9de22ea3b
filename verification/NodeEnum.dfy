/** The conversion of a device path node to the enum of all node types. */
module NodeEnum {
  import opened Bytes
  import opened NodeSpec
  import opened NodeParse

  predicate Matches(node: Node, bytes: seq<Byte>)
    requires ValidNode(bytes)
  {
    bytes[0] == node.deviceType && bytes[1] == node.subType
  }

  /** No two arms have the same type and subtype. */
  ghost predicate DistinctTypes(nodes: seq<Node>) {
    forall i, j :: 0 <= i < j < |nodes| ==>
        (nodes[i].deviceType, nodes[i].subType) != (nodes[j].deviceType, nodes[j].subType)
  }

  /** The nodes of all groups, in the order of the match arms. */
  function Arms(groups: seq<seq<Node>>): seq<Node> {
    if groups == [] then [] else groups[0] + Arms(groups[1..])
  }

  /** The generated match: the first arm whose pattern fits decides, and its conversion may fail. */
  function ToEnum(arms: seq<Node>, bytes: seq<Byte>): (r: Result<(nat, Packed), NodeConversionError>)
    requires ValidNode(bytes)
  {
    if arms == [] then Err(UnsupportedType)
    else if Matches(arms[0], bytes) then
      match TryFrom(arms[0], bytes)
      case Ok(p) => Ok((0, p))
      case Err(e) => Err(e)
    else
      match ToEnum(arms[1..], bytes)
      case Ok((i, p)) => Ok((i + 1, p))
      case Err(e) => Err(e)
  }

  /** With distinct types the matching arm is unique and alone decides. */
  lemma {:induction false} MatchingArmDecides(arms: seq<Node>, bytes: seq<Byte>, i: nat)
    requires ValidNode(bytes) && DistinctTypes(arms) && i < |arms| && Matches(arms[i], bytes)
    ensures ToEnum(arms, bytes) ==
              match TryFrom(arms[i], bytes)
              case Ok(p) => Ok((i, p))
              case Err(e) => Err(e)
  {
    if i == 0 {
    } else {
      MatchingArmDecides(arms[1..], bytes, i - 1);
    }
  }

  lemma {:induction false} NoArmMatches(arms: seq<Node>, bytes: seq<Byte>)
    requires ValidNode(bytes) && forall i :: 0 <= i < |arms| ==> !Matches(arms[i], bytes)
    ensures ToEnum(arms, bytes) == Err(UnsupportedType)
  {
    if arms == [] {
    } else {
      NoArmMatches(arms[1..], bytes);
    }
  }

  // ----- Groups

  /** Where the arms of group `g` start. */
  function Start(groups: seq<seq<Node>>, g: nat): nat
    requires g <= |groups|
  {
    if g == 0 then 0 else |groups[0]| + Start(groups[1..], g - 1)
  }

  ghost predicate InGroups(groups: seq<seq<Node>>, g: nat, k: nat) {
    g < |groups| && k < |groups[g]|
  }

  /** Every node of every group has an arm. */
  lemma {:induction false} ArmAt(groups: seq<seq<Node>>, g: nat, k: nat)
    requires InGroups(groups, g, k)
    ensures Start(groups, g) + k < |Arms(groups)| && Arms(groups)[Start(groups, g) + k] == groups[g][k]
  {
    if g == 0 {
    } else {
      ArmAt(groups[1..], g - 1, k);
    }
  }

  /** Every arm is that of a node of some group. */
  lemma {:induction false} NodeOfArm(groups: seq<seq<Node>>, i: nat) returns (g: nat, k: nat)
    requires i < |Arms(groups)|
    ensures InGroups(groups, g, k) && i == Start(groups, g) + k && Arms(groups)[i] == groups[g][k]
  {
    if i < |groups[0]| {
      g, k := 0, i;
    } else {
      g, k := NodeOfArm(groups[1..], i - |groups[0]|);
      g := g + 1;
    }
  }

  /** No two nodes of the groups have the same type and subtype. */
  ghost predicate DistinctPairs(groups: seq<seq<Node>>) {
    forall g: nat, k: nat, h: nat, l: nat :: InGroups(groups, g, k) && InGroups(groups, h, l) && (g, k) != (h, l) ==>
      groups[g][k].deviceType != groups[h][l].deviceType || groups[g][k].subType != groups[h][l].subType
  }

  lemma {:induction false} ArmsAreDistinct(groups: seq<seq<Node>>)
    requires DistinctPairs(groups)
    ensures DistinctTypes(Arms(groups))
  {
    var arms := Arms(groups);
    forall i, j | 0 <= i < j < |arms|
      ensures (arms[i].deviceType, arms[i].subType) != (arms[j].deviceType, arms[j].subType)
    {
      var g, k := NodeOfArm(groups, i);
      var h, l := NodeOfArm(groups, j);
      assert (g, k) != (h, l);
    }
  }

  ghost predicate HasTypes(groups: seq<seq<Node>>, bytes: seq<Byte>, g: nat, k: nat)
    requires ValidNode(bytes)
  {
    && InGroups(groups, g, k)
    && bytes[0] == groups[g][k].deviceType && bytes[1] == groups[g][k].subType
  }

  ghost predicate Accepts(groups: seq<seq<Node>>, bytes: seq<Byte>, g: nat, k: nat)
    requires ValidNode(bytes)
  {
    InGroups(groups, g, k) && TryFrom(groups[g][k], bytes).Ok?
  }

  /**
    A result that yields the variant of a node of some group exactly when
    that node's own conversion accepts, an unsupported type exactly when no
    node of any group has the type and subtype, and an invalid length exactly
    when one has them but its conversion does not accept.
   */
  ghost predicate Agrees(groups: seq<seq<Node>>, bytes: seq<Byte>, r: Result<(nat, Packed), NodeConversionError>)
    requires ValidNode(bytes)
  {
    && (forall g: nat, k: nat, p :: InGroups(groups, g, k) ==>
          (r == Ok((Start(groups, g) + k, p)) <==> TryFrom(groups[g][k], bytes) == Ok(p)))
    && (r.Ok? <==> exists g: nat, k: nat :: Accepts(groups, bytes, g, k))
    && (r == Err(UnsupportedType) <==> forall g: nat, k: nat :: !HasTypes(groups, bytes, g, k))
    && (r == Err(InvalidLength) <==>
          exists g: nat, k: nat :: HasTypes(groups, bytes, g, k) && !Accepts(groups, bytes, g, k))
  }

  lemma {:induction false} EnumAgreesWithVariants(groups: seq<seq<Node>>, bytes: seq<Byte>)
    requires ValidNode(bytes) && DistinctPairs(groups)
    ensures Agrees(groups, bytes, ToEnum(Arms(groups), bytes))
  {
    if g: nat, k: nat :| HasTypes(groups, bytes, g, k) {
      MatchedNode(groups, bytes, g, k);
      MatchedAgrees(groups, bytes, g, k, ToEnum(Arms(groups), bytes));
    } else {
      NoNodeMatches(groups, bytes);
    }
  }

  lemma {:induction false} MatchedAgrees(groups: seq<seq<Node>>, bytes: seq<Byte>, g: nat, k: nat,
                      r: Result<(nat, Packed), NodeConversionError>)
    requires ValidNode(bytes) && DistinctPairs(groups) && HasTypes(groups, bytes, g, k)
    requires r == if Accepts(groups, bytes, g, k) then Ok((Start(groups, g) + k, TryFrom(groups[g][k], bytes).value))
                  else Err(InvalidLength)
    ensures Agrees(groups, bytes, r)
  {
    OthersDoNotMatch(groups, bytes, g, k);
    forall h: nat, l: nat, p | InGroups(groups, h, l)
      ensures r == Ok((Start(groups, h) + l, p)) <==> TryFrom(groups[h][l], bytes) == Ok(p)
    {
      assert (h, l) != (g, k) ==> TryFrom(groups[h][l], bytes).Err?;
    }
  }

  /** The node with the type and subtype decides. */
  lemma {:induction false} MatchedNode(groups: seq<seq<Node>>, bytes: seq<Byte>, g: nat, k: nat)
    requires ValidNode(bytes) && DistinctPairs(groups) && HasTypes(groups, bytes, g, k)
    ensures ToEnum(Arms(groups), bytes) ==
              if Accepts(groups, bytes, g, k) then Ok((Start(groups, g) + k, TryFrom(groups[g][k], bytes).value))
              else Err(InvalidLength)
  {
    ArmsAreDistinct(groups);
    ArmAt(groups, g, k);
    MatchingArmDecides(Arms(groups), bytes, Start(groups, g) + k);
  }

  lemma {:induction false} NoNodeMatches(groups: seq<seq<Node>>, bytes: seq<Byte>)
    requires ValidNode(bytes) && forall g: nat, k: nat :: !HasTypes(groups, bytes, g, k)
    ensures ToEnum(Arms(groups), bytes) == Err(UnsupportedType)
    ensures forall g: nat, k: nat :: !Accepts(groups, bytes, g, k)
    ensures forall g: nat, k: nat :: InGroups(groups, g, k) ==> TryFrom(groups[g][k], bytes).Err?
  {
    forall i | 0 <= i < |Arms(groups)|
      ensures !Matches(Arms(groups)[i], bytes)
    {
      var g, k := NodeOfArm(groups, i);
      assert !HasTypes(groups, bytes, g, k);
    }
    NoArmMatches(Arms(groups), bytes);
    forall g: nat, k: nat
      ensures !Accepts(groups, bytes, g, k)
      ensures InGroups(groups, g, k) ==> TryFrom(groups[g][k], bytes).Err?
    {
      assert !HasTypes(groups, bytes, g, k);
    }
  }

  lemma {:induction false} OthersDoNotMatch(groups: seq<seq<Node>>, bytes: seq<Byte>, g: nat, k: nat)
    requires ValidNode(bytes) && DistinctPairs(groups) && HasTypes(groups, bytes, g, k)
    ensures forall h: nat, l: nat :: InGroups(groups, h, l) && (h, l) != (g, k) ==>
              && !HasTypes(groups, bytes, h, l) && !Accepts(groups, bytes, h, l)
              && TryFrom(groups[h][l], bytes).Err? && Start(groups, h) + l != Start(groups, g) + k
  {
    forall h: nat, l: nat | InGroups(groups, h, l) && (h, l) != (g, k)
      ensures && !HasTypes(groups, bytes, h, l) && !Accepts(groups, bytes, h, l)
              && TryFrom(groups[h][l], bytes).Err? && Start(groups, h) + l != Start(groups, g) + k
    {
      ArmAt(groups, g, k);
      ArmAt(groups, h, l);
    }
  }
}
