/**
 * The registry that gives each client a virtual MAC address unique among all
 * the addresses it has ever minted, and remembers which client id got which.
 * The random generator is a parameter: `draws` is the sequence of 6-byte
 * values `Random.NextBytes` would produce.
 */
module MacAddressMemory {
  import opened Bytes
  import Hex

  type Mac = s: seq<byte> | |s| == 6 witness [0, 0, 0, 0, 0, 0]

  /** The index of the first draw whose hex rendering is not yet reserved. */
  function FirstFresh(draws: seq<Mac>, reserved: set<string>): (k: nat)
    requires exists i :: 0 <= i < |draws| && Hex.ToHexString(draws[i]) !in reserved
    ensures k < |draws| && Hex.ToHexString(draws[k]) !in reserved
    ensures forall i :: 0 <= i < k ==> Hex.ToHexString(draws[i]) in reserved
  {
    if Hex.ToHexString(draws[0]) !in reserved then 0
    else
      var k := FirstFresh(draws[1..], reserved);
      assert forall i :: 1 <= i < |draws| ==> draws[i] == draws[1..][i - 1];
      k + 1
  }

  /** The renderings of the minted MACs, one per MAC. */
  function Renderings(minted: seq<Mac>): set<string> {
    set i | 0 <= i < |minted| :: Hex.ToHexString(minted[i])
  }

  /** A MAC whose rendering is not reserved is new, and minting it reserves exactly its rendering. */
  lemma MintKeepsRenderings(minted: seq<Mac>, reserved: set<string>, mac: Mac)
    requires reserved == Renderings(minted)
    requires Hex.ToHexString(mac) !in reserved
    ensures forall j :: 0 <= j < |minted| ==> minted[j] != mac
    ensures reserved + {Hex.ToHexString(mac)} == Renderings(minted + [mac])
  {
    forall j | 0 <= j < |minted|
      ensures minted[j] != mac
    {
      assert Hex.ToHexString(minted[j]) in reserved;
    }
    var after := minted + [mac];
    assert Hex.ToHexString(after[|minted|]) in Renderings(after);
    forall s | s in Renderings(after)
      ensures s in reserved + {Hex.ToHexString(mac)}
    {
      var i :| 0 <= i < |after| && s == Hex.ToHexString(after[i]);
      if i < |minted| {
        assert after[i] == minted[i];
      }
    }
    forall s | s in reserved
      ensures s in Renderings(after)
    {
      var i :| 0 <= i < |minted| && s == Hex.ToHexString(minted[i]);
      assert after[i] == minted[i];
    }
  }

  /** The registry's invariant over its three parts. */
  predicate Consistent(reserved: set<string>, idToAddress: map<string, Mac>, minted: seq<Mac>) {
    && reserved == Renderings(minted)
    && (forall i, j :: 0 <= i < j < |minted| ==> minted[i] != minted[j])
    && (forall id :: id in idToAddress ==> idToAddress[id] in minted)
  }

  /** Minting a MAC whose rendering is not reserved keeps the invariant. */
  lemma MintStaysConsistent(reserved: set<string>, idToAddress: map<string, Mac>, minted: seq<Mac>, mac: Mac)
    requires Consistent(reserved, idToAddress, minted)
    requires Hex.ToHexString(mac) !in reserved
    ensures forall j :: 0 <= j < |minted| ==> minted[j] != mac
    ensures Consistent(reserved + {Hex.ToHexString(mac)}, idToAddress, minted + [mac])
  {
    MintKeepsRenderings(minted, reserved, mac);
    var after := minted + [mac];
    assert forall j :: 0 <= j < |minted| ==> after[j] == minted[j];
    assert forall v :: v in minted ==> v in after;
  }

  class MemoryRegistry {
    var reservedAddresses: set<string>
    var idToAddress: map<string, Mac>
    /** Every MAC minted so far, in order. */
    ghost var minted: seq<Mac>

    ghost predicate Valid()
      reads this
    {
      Consistent(reservedAddresses, idToAddress, minted)
    }

    constructor ()
      ensures Valid() && reservedAddresses == {} && idToAddress == map[] && minted == []
    {
      reservedAddresses := {};
      idToAddress := map[];
      minted := [];
    }

    /**
     * Draws until the hex rendering is not reserved, then reserves it: the
     * MAC differs from every MAC minted before.
     */
    method GetNewMac(draws: seq<Mac>) returns (mac: Mac)
      requires Valid()
      requires exists i :: 0 <= i < |draws| && Hex.ToHexString(draws[i]) !in reservedAddresses
      modifies this`reservedAddresses, this`minted
      ensures Valid()
      ensures mac == draws[FirstFresh(draws, old(reservedAddresses))]
      ensures Hex.ToHexString(mac) !in old(reservedAddresses)
      ensures forall i :: 0 <= i < |old(minted)| ==> old(minted)[i] != mac
      ensures reservedAddresses == old(reservedAddresses) + {Hex.ToHexString(mac)}
      ensures minted == old(minted) + [mac]
    {
      ghost var k := FirstFresh(draws, reservedAddresses);
      var i := 0;
      var stringMac;
      mac := draws[i];
      stringMac := Hex.ToHexString(mac);
      while stringMac in reservedAddresses
        invariant 0 <= i <= k
        invariant mac == draws[i] && stringMac == Hex.ToHexString(mac)
        decreases k - i
      {
        i := i + 1;
        mac := draws[i];
        stringMac := Hex.ToHexString(mac);
      }
      assert i == k;
      MintStaysConsistent(reservedAddresses, idToAddress, minted, mac);
      reservedAddresses := reservedAddresses + {stringMac};
      minted := minted + [mac];
    }

    /**
     * Returns the MAC stored for `id` when it equals the one the client
     * supplied, a freshly minted one otherwise, and stores the result under
     * `newId` only when `newId` has no entry yet.
     */
    method TryFind(id: string, macAddress: seq<byte>, newId: string, draws: seq<Mac>) returns (result: Mac)
      requires Valid()
      requires (id in idToAddress && idToAddress[id] == macAddress) ||
        exists i :: 0 <= i < |draws| && Hex.ToHexString(draws[i]) !in reservedAddresses
      modifies this`reservedAddresses, this`minted, this`idToAddress
      ensures Valid()
      ensures id in old(idToAddress) && old(idToAddress)[id] == macAddress ==>
        result == macAddress && reservedAddresses == old(reservedAddresses) && minted == old(minted)
      ensures !(id in old(idToAddress) && old(idToAddress)[id] == macAddress) ==>
        && result == draws[FirstFresh(draws, old(reservedAddresses))]
        && result !in old(minted)
        && reservedAddresses == old(reservedAddresses) + {Hex.ToHexString(result)}
      ensures old(reservedAddresses) <= reservedAddresses
      ensures idToAddress == if newId in old(idToAddress) then old(idToAddress) else old(idToAddress)[newId := result]
    {
      if id !in idToAddress || idToAddress[id] != macAddress {
        result := GetNewMac(draws);
      } else {
        result := idToAddress[id];
      }
      if newId !in idToAddress {
        idToAddress := idToAddress[newId := result];
      }
    }
  }
}
