/**
 * The virtual DHCP allocator that gives each room member a fake IPv4
 * address inside the room's subnet. Addresses are unsigned 32-bit integers.
 *
 * The allocator is modelled for a prefix subnet mask (all ones, then
 * `hostBits` zeros, with at least two host bits) and a base address aligned
 * to it: the only configuration rooms create. Under that configuration the
 * bitwise cursor arithmetic is proved equal to "next address in the subnet,
 * wrapping around".
 */
module Dhcp {
  import opened Bytes

  /** One static reservation: an address and the MAC it belongs to. */
  datatype AddressEntry = AddressEntry(ipv4: u32, macAddress: seq<byte>)

  /** How many entries come before the first zero address: the reservation list proper. */
  function ListedCount(entries: seq<AddressEntry>): (n: nat)
    ensures n <= |entries|
    ensures forall j :: 0 <= j < n ==> entries[j].ipv4 != 0
    ensures n == |entries| || entries[n].ipv4 == 0
  {
    if entries == [] || entries[0].ipv4 == 0 then 0 else 1 + ListedCount(entries[1..])
  }

  /** The reserved addresses. */
  function ReservedSet(entries: seq<AddressEntry>): set<u32> {
    set j | 0 <= j < ListedCount(entries) :: entries[j].ipv4
  }

  /** The address reserved for `mac`: the first listed entry with that MAC, or 0. */
  function LookupReserved(entries: seq<AddressEntry>, mac: seq<byte>): (r: u32)
    ensures r != 0 <==> exists j :: 0 <= j < ListedCount(entries) && entries[j].macAddress == mac
    ensures r != 0 ==> r in ReservedSet(entries)
  {
    if entries == [] || entries[0].ipv4 == 0 then 0
    else if entries[0].macAddress == mac then entries[0].ipv4
    else
      var r := LookupReserved(entries[1..], mac);
      assert forall j :: 0 <= j < ListedCount(entries[1..]) ==> entries[1..][j] == entries[j + 1];
      assert r != 0 ==> r in ReservedSet(entries) by {
        if r != 0 {
          var j :| 0 <= j < ListedCount(entries[1..]) && entries[1..][j].ipv4 == r;
          assert entries[j + 1].ipv4 == r;
        }
      }
      r
  }

  /** Inside the subnet, `base | ((ip + 1) & ~mask)` is `ip + 1`. */
  lemma StepInside(base: nat, k: nat, off: nat)
    requires Aligned(base, k) && off + 1 < Pow2(k) && base + Pow2(k) <= 0x1_0000_0000
    ensures BitOr(base, BitAnd((base + off + 1) % 0x1_0000_0000, Pow2(k) - 1)) == base + off + 1
  {
    assert (base + off + 1) % 0x1_0000_0000 == base + off + 1;
    AndLowBits(base, off + 1, k);
    OrAligned(base, off + 1, k);
  }

  /** From the broadcast address, `base | ((ip + 1) & ~mask)` is the network address, even across 2^32. */
  lemma StepWrap(base: nat, k: nat)
    requires Aligned(base, k) && base + Pow2(k) <= 0x1_0000_0000
    ensures BitOr(base, BitAnd((base + Pow2(k)) % 0x1_0000_0000, Pow2(k) - 1)) == base
  {
    if base + Pow2(k) < 0x1_0000_0000 {
      assert (base + Pow2(k)) % 0x1_0000_0000 == base + Pow2(k);
      AlignedStep(base, k);
      AndLowBits(base + Pow2(k), 0, k);
    } else {
      assert (base + Pow2(k)) % 0x1_0000_0000 == 0;
    }
  }

  /** Among the |v| + 1 integers from `lo` on, one is not in `v` (pigeonhole). */
  lemma {:induction false} Avoid(v: seq<int>, lo: int)
    ensures exists c :: lo <= c <= lo + |v| && c !in v
    decreases |v|
  {
    if lo + |v| in v {
      var j :| 0 <= j < |v| && v[j] == lo + |v|;
      var w := v[..j] + v[j + 1..];
      Avoid(w, lo);
      var c :| lo <= c <= lo + |w| && c !in w;
      assert c !in v by {
        forall i | 0 <= i < |v| && i != j
          ensures v[i] != c
        {
          if i < j {
            assert v[i] == w[i];
          } else {
            assert v[i] == w[i - 1];
          }
        }
      }
    }
  }

  /** The listed reserved addresses, in list order. */
  function ListedAddresses(entries: seq<AddressEntry>): (r: seq<int>)
    ensures |r| == ListedCount(entries) && |r| <= |entries|
    ensures forall a :: a in ReservedSet(entries) ==> a in r
  {
    var n := ListedCount(entries);
    var r := seq(n, j requires 0 <= j < n => entries[j].ipv4 as int);
    assert forall a :: a in ReservedSet(entries) ==> a in r by {
      forall a | a in ReservedSet(entries)
        ensures a in r
      {
        var j :| 0 <= j < n && entries[j].ipv4 == a;
        assert r[j] == a;
      }
    }
    r
  }

  class VirtualDhcp {
    const baseAddress: u32
    const subnetMask: u32
    const invSubnetMask: u32
    const config: seq<AddressEntry>
    /** The number of zero bits of the prefix mask. */
    ghost const hostBits: nat

    var nextIp: u32
    var takenIps: set<u32>
    var reservedIps: set<u32>
    var hasReservedIps: bool

    /** The subnet is a prefix mask with at least two host bits and the base is aligned to it. */
    ghost predicate Subnet() {
      && 2 <= hostBits <= 32
      && subnetMask == 0x1_0000_0000 - Pow2(hostBits)
      && invSubnetMask == BitNot32(subnetMask)
      && Aligned(baseAddress, hostBits)
      && |config| == 8
    }

    /** The number of addresses in the subnet. */
    ghost function Size(): nat {
      Pow2(hostBits)
    }

    ghost predicate InSubnet(ip: int) {
      baseAddress <= ip < baseAddress + Size()
    }

    /** An address of the subnet that is neither the network nor the broadcast address. */
    ghost predicate IsHost(ip: int) {
      baseAddress < ip < baseAddress + Size() - 1
    }

    /** The host after `ip`, going round past the broadcast and network addresses. */
    ghost function NextHost(ip: int): int {
      if ip - baseAddress + 1 < Size() - 1 then ip + 1 else baseAddress + 1
    }

    ghost predicate Valid()
      reads this
    {
      && Subnet()
      && IsHost(nextIp)
      && reservedIps == ReservedSet(config)
      && reservedIps <= takenIps
      && hasReservedIps == (ListedCount(config) > 0)
    }

    /** Some host address is free. */
    ghost predicate HasFreeHost()
      reads this
    {
      exists t: int {:trigger IsHost(t)} :: IsHost(t) && t !in takenIps
    }

    /** `base | ~mask`: the last address of the subnet. */
    function BroadcastAddress(): (r: u32)
      ensures Subnet() ==> r == baseAddress + Size() - 1
    {
      Pow2Of32();
      BitOrBelow(baseAddress, invSubnetMask, 32);
      BroadcastIsLast();
      BitOr(baseAddress, invSubnetMask)
    }

    lemma BroadcastIsLast()
      ensures Subnet() ==> BitOr(baseAddress, invSubnetMask) == baseAddress + Size() - 1
    {
      if Subnet() {
        Pow2Of32();
        AlignedBelow(baseAddress, hostBits, 32);
        OrAligned(baseAddress, invSubnetMask, hostBits);
      }
    }

    /** `IsIpValid`: the address is not the network or the broadcast address. */
    function IsIpValid(ip: u32): (r: bool)
      ensures Subnet() && InSubnet(ip) ==> (r <==> IsHost(ip))
    {
      ip != baseAddress && ip != BroadcastAddress()
    }

    /** One step of the cursor: `base | ((ip + 1) & ~mask)`, with 32-bit wrap-around. */
    function Candidate(ip: u32): (r: u32)
    {
      var x := BitAnd((ip + 1) % 0x1_0000_0000, invSubnetMask);
      Pow2Of32();
      BitAndBelow((ip + 1) % 0x1_0000_0000, invSubnetMask);
      BitOrBelow(baseAddress, x, 32);
      BitOr(baseAddress, x)
    }

    /** The subnet lies below 2^32. */
    lemma SubnetFits()
      requires Subnet()
      ensures baseAddress + Size() <= 0x1_0000_0000
    {
      Pow2Of32();
      AlignedBelow(baseAddress, hostBits, 32);
    }

    /** `~mask` selects exactly the host bits. */
    lemma MaskIsLowBits()
      requires Subnet()
      ensures invSubnetMask == Size() - 1
    {}

    /** The cursor step is "the next address of the subnet, wrapping to the network address". */
    lemma CandidateIsSuccessor(ip: u32)
      requires Subnet() && InSubnet(ip)
      ensures Candidate(ip) == if ip + 1 < baseAddress + Size() then ip + 1 else baseAddress
    {
      SubnetFits();
      var mask := Pow2(hostBits) - 1;
      MaskIsLowBits();
      if ip + 1 < baseAddress + Size() {
        StepInside(baseAddress, hostBits, ip - baseAddress);
        assert Candidate(ip) == BitOr(baseAddress, BitAnd((ip + 1) % 0x1_0000_0000, mask));
      } else {
        assert ip + 1 == baseAddress + Pow2(hostBits);
        StepWrap(baseAddress, hostBits);
        assert Candidate(ip) == BitOr(baseAddress, BitAnd((ip + 1) % 0x1_0000_0000, mask));
      }
    }

    /** The do-while of `CycleNextIp`: step at least once, then until the address is a host. */
    method CycleNextIp()
      requires Subnet() && InSubnet(nextIp)
      modifies this`nextIp
      ensures IsHost(nextIp) && nextIp == NextHost(old(nextIp))
    {
      ghost var start := nextIp;
      Pow2AtLeast4(hostBits);
      CandidateIsSuccessor(nextIp);
      nextIp := Candidate(nextIp);
      while !IsIpValid(nextIp)
        invariant InSubnet(nextIp)
        invariant IsHost(nextIp) ==> nextIp == NextHost(start)
        invariant !IsHost(nextIp) ==> NextHost(start) == baseAddress + 1
        decreases if nextIp == baseAddress + Size() - 1 then 2 else if nextIp == baseAddress then 1 else 0
      {
        CandidateIsSuccessor(nextIp);
        nextIp := Candidate(nextIp);
      }
    }

    /** The cyclic distance from host `h` forward to host `t`. */
    ghost function Distance(h: int, t: int): int {
      if t >= h then t - h else t - h + (Size() - 2)
    }

    lemma DistanceDecreases(h: int, t: int)
      requires Subnet() && IsHost(h) && IsHost(t) && h != t
      ensures 0 <= Distance(NextHost(h), t) < Distance(h, t)
    {}

    /** The first entries of `config`, before the first zero address, become taken and reserved. */
    method PopulateWithList()
      requires |config| == 8
      modifies this`takenIps, this`reservedIps, this`hasReservedIps
      ensures takenIps == old(takenIps) + ReservedSet(config)
      ensures reservedIps == old(reservedIps) + ReservedSet(config)
      ensures hasReservedIps == (old(hasReservedIps) || ListedCount(config) > 0)
    {
      var i := 0;
      while i < 8
        invariant 0 <= i <= ListedCount(config)
        invariant takenIps == old(takenIps) + set j | 0 <= j < i :: config[j].ipv4
        invariant reservedIps == old(reservedIps) + set j | 0 <= j < i :: config[j].ipv4
        invariant hasReservedIps == (old(hasReservedIps) || i > 0)
      {
        var address := config[i];
        if address.ipv4 == 0 {
          break;
        }
        takenIps := takenIps + {address.ipv4};
        reservedIps := reservedIps + {address.ipv4};
        hasReservedIps := true;
        i := i + 1;
      }
      assert i == ListedCount(config);
    }

    constructor (baseAddress: u32, subnetMask: u32, dhcpConfig: seq<AddressEntry>, ghost hostBits: nat)
      requires 2 <= hostBits <= 32 && subnetMask == 0x1_0000_0000 - Pow2(hostBits)
      requires Aligned(baseAddress, hostBits)
      requires |dhcpConfig| == 8
      ensures Valid()
      ensures this.baseAddress == baseAddress && this.subnetMask == subnetMask && config == dhcpConfig && this.hostBits == hostBits
      ensures nextIp == baseAddress + 1
      ensures takenIps == ReservedSet(dhcpConfig) && reservedIps == ReservedSet(dhcpConfig)
    {
      this.baseAddress := baseAddress;
      this.subnetMask := subnetMask;
      this.invSubnetMask := BitNot32(subnetMask);
      this.config := dhcpConfig;
      this.hostBits := hostBits;
      Pow2AtLeast4(hostBits);
      Pow2Of32();
      AlignedBelow(baseAddress, hostBits, 32);
      this.nextIp := baseAddress + 1;
      this.takenIps := {};
      this.reservedIps := {};
      this.hasReservedIps := false;
      new;
      PopulateWithList();
    }

    /** `ReservedIpLookup`: scans the list up to the first zero address for the MAC. */
    method ReservedIpLookup(macAddress: seq<byte>) returns (r: u32)
      requires |config| == 8
      ensures r == LookupReserved(config, macAddress)
    {
      var i := 0;
      while i < 8
        invariant 0 <= i <= ListedCount(config)
        invariant LookupReserved(config, macAddress) == LookupReserved(config[i..], macAddress)
      {
        var address := config[i];
        if address.ipv4 == 0 {
          return 0;
        }
        if address.macAddress == macAddress {
          return address.ipv4;
        }
        assert config[i..][1..] == config[i + 1..];
        i := i + 1;
      }
      return 0;
    }

    /**
     * A reserved MAC gets its reserved address and nothing changes. Any
     * other MAC gets the first free host from the cursor on, which becomes
     * taken, and the cursor moves to the host after it. With every host taken
     * the source loops forever, hence the precondition.
     */
    method RequestIpV4(macAddress: seq<byte>) returns (ip: u32)
      requires Valid()
      requires LookupReserved(config, macAddress) == 0 ==> HasFreeHost()
      modifies this`nextIp, this`takenIps
      ensures Valid()
      ensures LookupReserved(config, macAddress) != 0 ==>
        ip == LookupReserved(config, macAddress) && takenIps == old(takenIps) && nextIp == old(nextIp)
      ensures LookupReserved(config, macAddress) == 0 ==>
        && IsHost(ip) && ip !in old(takenIps) && ip !in reservedIps
        && takenIps == old(takenIps) + {ip}
        && nextIp == NextHost(ip)
    {
      if hasReservedIps {
        var reservedIp := ReservedIpLookup(macAddress);
        if reservedIp != 0 {
          return reservedIp;
        }
      }
      assert LookupReserved(config, macAddress) == 0;
      ghost var t: int :| IsHost(t) && t !in takenIps;
      while nextIp in takenIps
        invariant Valid() && takenIps == old(takenIps)
        decreases Distance(nextIp, t)
      {
        DistanceDecreases(nextIp, t);
        CycleNextIp();
      }
      ip := nextIp;
      takenIps := takenIps + {ip};
      CycleNextIp();
    }

    /** Releases a dynamic address; a reserved one stays taken. */
    method ReturnIpV4(ip: u32)
      requires Valid()
      modifies this`takenIps
      ensures Valid()
      ensures takenIps == if ip in reservedIps then old(takenIps) else old(takenIps) - {ip}
    {
      if ip !in reservedIps {
        takenIps := takenIps - {ip};
      }
    }

    /**
     * With only the (at most eight) reserved addresses taken, a subnet of at
     * least 16 addresses still has a free host.
     */
    lemma FreshAllocatorHasFreeHost()
      requires Valid() && hostBits >= 4 && takenIps == ReservedSet(config)
      ensures HasFreeHost()
    {
      var v := ListedAddresses(config);
      Avoid(v, baseAddress + 1);
      var c :| baseAddress + 1 <= c <= baseAddress + 1 + |v| && c !in v;
      assert Pow2(hostBits) >= 16 by {
        Pow2Add(4, hostBits - 4);
        assert Pow2(4) == 16;
      }
      assert IsHost(c);
    }

    /** Two dynamic requests with no release between them never get the same address. */
    method RequestTwice(mac1: seq<byte>, mac2: seq<byte>) returns (ip1: u32, ip2: u32)
      requires Valid()
      requires LookupReserved(config, mac1) == 0 && LookupReserved(config, mac2) == 0
      requires exists a: int, b: int {:trigger IsHost(a), IsHost(b)} ::
        a != b && IsHost(a) && IsHost(b) && a !in takenIps && b !in takenIps
      modifies this`nextIp, this`takenIps
      ensures Valid()
      ensures ip1 != ip2 && IsHost(ip1) && IsHost(ip2)
      ensures takenIps == old(takenIps) + {ip1, ip2}
    {
      ghost var a: int, b: int :| a != b && IsHost(a) && IsHost(b) && a !in takenIps && b !in takenIps;
      ip1 := RequestIpV4(mac1);
      assert IsHost(if a == ip1 then b else a);
      ip2 := RequestIpV4(mac2);
    }
  }
}
