/**
 * The eight-slot node table of a room. Slots are never compacted: a member
 * leaving only clears its slot's `isConnected`, and a joiner takes the
 * lowest slot whose `isConnected` is zero. `nodeCount` is meant to be the
 * number of occupied slots.
 */
module NodeTable {
  import opened Bytes
  import opened LdnTypes

  predicate Occupied(n: NodeInfo) {
    n.isConnected != 0
  }

  /** The number of occupied slots. */
  function ConnectedCount(nodes: seq<NodeInfo>): (c: nat)
    ensures c <= |nodes|
  {
    if nodes == [] then 0
    else ConnectedCount(nodes[..|nodes| - 1]) + (if Occupied(nodes[|nodes| - 1]) then 1 else 0)
  }

  /** The lowest free slot, or -1 when every slot is occupied. */
  function FirstEmpty(nodes: seq<NodeInfo>): (k: int)
    ensures -1 <= k < |nodes|
    ensures k == -1 <==> forall j :: 0 <= j < |nodes| ==> Occupied(nodes[j])
    ensures k >= 0 ==> !Occupied(nodes[k]) && forall j :: 0 <= j < k ==> Occupied(nodes[j])
  {
    if nodes == [] then -1
    else if !Occupied(nodes[0]) then 0
    else
      var k := FirstEmpty(nodes[1..]);
      assert forall j :: 1 <= j < |nodes| ==> nodes[j] == nodes[1..][j - 1];
      if k == -1 then -1 else k + 1
  }

  /** A table with every slot occupied counts all its slots. */
  lemma {:induction false} AllOccupiedCount(nodes: seq<NodeInfo>)
    requires forall j :: 0 <= j < |nodes| ==> Occupied(nodes[j])
    ensures ConnectedCount(nodes) == |nodes|
  {
    if nodes != [] {
      AllOccupiedCount(nodes[..|nodes| - 1]);
    }
  }

  /** While fewer slots are occupied than exist, a free slot is found. */
  lemma FreeSlotExists(nodes: seq<NodeInfo>)
    requires ConnectedCount(nodes) < |nodes|
    ensures 0 <= FirstEmpty(nodes)
  {
    if FirstEmpty(nodes) == -1 {
      AllOccupiedCount(nodes);
    }
  }

  /** Overwriting one slot changes the count by what leaves and what arrives. */
  lemma {:induction false} CountAfterWrite(nodes: seq<NodeInfo>, k: nat, n: NodeInfo)
    requires k < |nodes|
    ensures ConnectedCount(nodes[k := n]) ==
      ConnectedCount(nodes) - (if Occupied(nodes[k]) then 1 else 0) + (if Occupied(n) then 1 else 0)
  {
    var last := |nodes| - 1;
    var after := nodes[k := n];
    assert after[..last] == if k == last then nodes[..last] else nodes[..last][k := n];
    if k < last {
      CountAfterWrite(nodes[..last], k, n);
    }
  }

  // ---- Removing a member's address: the corrected table update ----

  /** Whether slot `n` is an occupied slot of the member at `ip`. */
  predicate Holds(n: NodeInfo, ip: u32) {
    Occupied(n) && n.ipv4Address == ip
  }

  /** The number of occupied slots holding `ip`. */
  function HoldingCount(nodes: seq<NodeInfo>, ip: u32): (c: nat)
    ensures c <= ConnectedCount(nodes)
  {
    if nodes == [] then 0
    else HoldingCount(nodes[..|nodes| - 1], ip) + (if Holds(nodes[|nodes| - 1], ip) then 1 else 0)
  }

  /** Slot `n` after the member at `ip` leaves. */
  function Vacate(n: NodeInfo, ip: u32): NodeInfo {
    if Holds(n, ip) then n.(isConnected := 0) else n
  }

  /** The table after the member at `ip` leaves: each of its occupied slots, over all eight, is cleared. */
  function ClearAddress(nodes: seq<NodeInfo>, ip: u32): (r: seq<NodeInfo>)
    ensures |r| == |nodes|
  {
    seq(|nodes|, i requires 0 <= i < |nodes| => Vacate(nodes[i], ip))
  }

  /** After the update no occupied slot holds `ip`, and every slot that did not hold it is unchanged. */
  lemma ClearAddressClears(nodes: seq<NodeInfo>, ip: u32)
    ensures forall i :: 0 <= i < |nodes| ==> !Holds(ClearAddress(nodes, ip)[i], ip)
    ensures forall i :: 0 <= i < |nodes| && !Holds(nodes[i], ip) ==> ClearAddress(nodes, ip)[i] == nodes[i]
    ensures forall i :: 0 <= i < |nodes| && Holds(nodes[i], ip) ==> ClearAddress(nodes, ip)[i] == nodes[i].(isConnected := 0)
  {}

  /** The number of occupied slots drops by exactly the number that held `ip`. */
  lemma {:induction false} ClearAddressCount(nodes: seq<NodeInfo>, ip: u32)
    ensures ConnectedCount(ClearAddress(nodes, ip)) == ConnectedCount(nodes) - HoldingCount(nodes, ip)
  {
    if nodes != [] {
      var last := |nodes| - 1;
      assert ClearAddress(nodes, ip)[..last] == ClearAddress(nodes[..last], ip);
      ClearAddressCount(nodes[..last], ip);
    }
  }

  /** Clearing the first `i` slots and then slot `i` clears the first `i + 1`. */
  lemma ClearPrefixStep(nodes: seq<NodeInfo>, i: nat, ip: u32)
    requires i < |nodes|
    ensures (ClearAddress(nodes[..i], ip) + nodes[i..])[i := Vacate(nodes[i], ip)]
      == ClearAddress(nodes[..i + 1], ip) + nodes[i + 1..]
  {}

  /** Clearing a prefix counts the holders of that prefix. */
  lemma HoldingPrefixStep(nodes: seq<NodeInfo>, i: nat, ip: u32)
    requires i < |nodes|
    ensures HoldingCount(nodes[..i + 1], ip) == HoldingCount(nodes[..i], ip) + (if Holds(nodes[i], ip) then 1 else 0)
  {
    assert nodes[..i + 1][..i] == nodes[..i];
  }

  /** A prefix holds the address no more often than the whole table. */
  lemma {:induction false} HoldingPrefixBound(nodes: seq<NodeInfo>, n: nat, ip: u32)
    requires n <= |nodes|
    ensures HoldingCount(nodes[..n], ip) <= HoldingCount(nodes, ip)
    decreases |nodes|
  {
    if n < |nodes| {
      var last := |nodes| - 1;
      assert nodes[..last][..n] == nodes[..n];
      HoldingPrefixBound(nodes[..last], n, ip);
    } else {
      assert nodes[..n] == nodes;
    }
  }

  // ---- Removing a member's address as the room does it ----

  /** The number of slots below `n` whose address is `ip`, occupied or not. */
  function MatchesBelow(nodes: seq<NodeInfo>, n: nat, ip: u32): nat
    requires n <= |nodes|
  {
    if n == 0 then 0
    else MatchesBelow(nodes, n - 1, ip) + (if nodes[n - 1].ipv4Address == ip then 1 else 0)
  }

  /**
   * The table and count the room's update leaves: only the slots below the
   * `nodeCount` read at entry are inspected, and each of them whose address
   * is `ip`, occupied or not, is cleared and decrements the byte count.
   */
  function RemoveAsWritten(nodes: seq<NodeInfo>, nodeCount: byte, ip: u32): (r: (seq<NodeInfo>, byte))
    requires nodeCount <= |nodes|
    ensures |r.0| == |nodes|
    ensures forall i :: nodeCount <= i < |nodes| ==> r.0[i] == nodes[i]
  {
    (seq(|nodes|, i requires 0 <= i < |nodes| =>
       if i < nodeCount && nodes[i].ipv4Address == ip then nodes[i].(isConnected := 0) else nodes[i]),
     (nodeCount - MatchesBelow(nodes, nodeCount, ip)) % 256)
  }

  /**
   * The loop of the room's update, on values: it walks the slots below the
   * entry count and clears and counts down each slot whose address is `ip`.
   */
  method RemoveFromInfoAsWritten(nodes: seq<NodeInfo>, nodeCount: byte, ip: u32)
    returns (table: seq<NodeInfo>, count: byte)
    requires nodeCount <= |nodes|
    ensures (table, count) == RemoveAsWritten(nodes, nodeCount, ip)
  {
    table := nodes;
    count := nodeCount;
    var i := 0;
    while i < nodeCount
      invariant 0 <= i <= nodeCount && |table| == |nodes|
      invariant forall j :: 0 <= j < |nodes| ==>
        table[j] == if j < i && nodes[j].ipv4Address == ip then nodes[j].(isConnected := 0) else nodes[j]
      invariant count == (nodeCount - MatchesBelow(nodes, i, ip)) % 256
    {
      if table[i].ipv4Address == ip {
        count := (count - 1) % 256;
        table := table[i := table[i].(isConnected := 0)];
      }
      i := i + 1;
    }
    assert table == RemoveAsWritten(nodes, nodeCount, ip).0;
  }

  /** A table with no occupied slot counts none. */
  lemma {:induction false} NoneOccupiedCount(nodes: seq<NodeInfo>)
    requires forall j :: 0 <= j < |nodes| ==> !Occupied(nodes[j])
    ensures ConnectedCount(nodes) == 0
  {
    if nodes != [] {
      NoneOccupiedCount(nodes[..|nodes| - 1]);
    }
  }

  /** Owner in slot 0, a departed member's cleared slot 1, and member B at 10.114.0.4 in slot 2. */
  function AfterFirstLeaves(): seq<NodeInfo> {
    seq(8, _ => EmptyNode)
      [0 := EmptyNode.(ipv4Address := 0x0a72_0002, isConnected := 1)]
      [1 := EmptyNode.(ipv4Address := 0x0a72_0003, nodeId := 1)]
      [2 := EmptyNode.(ipv4Address := 0x0a72_0004, isConnected := 1, nodeId := 2)]
  }

  /**
   * Three members joined slots 0, 1 and 2 and the one in slot 1 left, so the
   * count is 2. When B in slot 2 leaves, the room's update does not look at
   * slot 2: B stays listed as connected and the count stays 2, while the
   * corrected update clears B's slot and leaves one occupied slot.
   */
  lemma DepartedMemberStaysListed()
    ensures var nodes := AfterFirstLeaves();
      && ConnectedCount(nodes) == 2
      && Holds(RemoveAsWritten(nodes, 2, 0x0a72_0004).0[2], 0x0a72_0004)
      && RemoveAsWritten(nodes, 2, 0x0a72_0004).1 == 2
      && !Holds(ClearAddress(nodes, 0x0a72_0004)[2], 0x0a72_0004)
      && ConnectedCount(ClearAddress(nodes, 0x0a72_0004)) == 1
  {
    var empty := seq(8, _ => EmptyNode);
    var n0 := EmptyNode.(ipv4Address := 0x0a72_0002, isConnected := 1);
    var n1 := EmptyNode.(ipv4Address := 0x0a72_0003, nodeId := 1);
    var n2 := EmptyNode.(ipv4Address := 0x0a72_0004, isConnected := 1, nodeId := 2);
    NoneOccupiedCount(empty);
    CountAfterWrite(empty, 0, n0);
    CountAfterWrite(empty[0 := n0], 1, n1);
    CountAfterWrite(empty[0 := n0][1 := n1], 2, n2);
    var nodes := AfterFirstLeaves();
    assert MatchesBelow(nodes, 2, 0x0a72_0004) == 0;
    var cleared := ClearAddress(nodes, 0x0a72_0004);
    assert cleared == nodes[2 := n2.(isConnected := 0)];
    CountAfterWrite(nodes, 2, n2.(isConnected := 0));
  }

  /**
   * A member with a reserved address left slot 2 and rejoined into slot 1,
   * so slot 2 is a cleared slot that still carries the address; B sits in
   * slot 3 and the count is 3. When the member leaves again, the room's update
   * counts the stale slot too and leaves a count of 1 for two occupied slots.
   */
  lemma StaleSlotCountedTwice()
    ensures var nodes := seq(8, _ => EmptyNode)
        [0 := EmptyNode.(ipv4Address := 0x0a72_0002, isConnected := 1)]
        [1 := EmptyNode.(ipv4Address := 0x0a72_0009, isConnected := 1, nodeId := 1)]
        [2 := EmptyNode.(ipv4Address := 0x0a72_0009, nodeId := 2)]
        [3 := EmptyNode.(ipv4Address := 0x0a72_0005, isConnected := 1, nodeId := 3)];
      && ConnectedCount(nodes) == 3
      && RemoveAsWritten(nodes, 3, 0x0a72_0009).1 == 1
      && ConnectedCount(RemoveAsWritten(nodes, 3, 0x0a72_0009).0) == 2
      && ConnectedCount(ClearAddress(nodes, 0x0a72_0009)) == 2
  {
    var empty := seq(8, _ => EmptyNode);
    var n0 := EmptyNode.(ipv4Address := 0x0a72_0002, isConnected := 1);
    var n1 := EmptyNode.(ipv4Address := 0x0a72_0009, isConnected := 1, nodeId := 1);
    var n2 := EmptyNode.(ipv4Address := 0x0a72_0009, nodeId := 2);
    var n3 := EmptyNode.(ipv4Address := 0x0a72_0005, isConnected := 1, nodeId := 3);
    NoneOccupiedCount(empty);
    CountAfterWrite(empty, 0, n0);
    CountAfterWrite(empty[0 := n0], 1, n1);
    CountAfterWrite(empty[0 := n0][1 := n1], 2, n2);
    CountAfterWrite(empty[0 := n0][1 := n1][2 := n2], 3, n3);
    var nodes := empty[0 := n0][1 := n1][2 := n2][3 := n3];
    assert MatchesBelow(nodes, 1, 0x0a72_0009) == 0;
    assert MatchesBelow(nodes, 2, 0x0a72_0009) == 1;
    assert MatchesBelow(nodes, 3, 0x0a72_0009) == 2;
    var left := nodes[1 := n1.(isConnected := 0)];
    CountAfterWrite(nodes, 1, n1.(isConnected := 0));
    assert RemoveAsWritten(nodes, 3, 0x0a72_0009).0 == left[2 := n2.(isConnected := 0)];
    CountAfterWrite(left, 2, n2.(isConnected := 0));
    assert ClearAddress(nodes, 0x0a72_0009) == left;
  }

  /** The corrected update keeps the count equal to the number of occupied slots. */
  lemma ClearAddressKeepsCount(nodes: seq<NodeInfo>, nodeCount: nat, ip: u32)
    requires nodeCount == ConnectedCount(nodes)
    ensures nodeCount - HoldingCount(nodes, ip) == ConnectedCount(ClearAddress(nodes, ip))
    ensures nodeCount - HoldingCount(nodes, ip) >= 0
  {
    ClearAddressCount(nodes, ip);
  }
}
