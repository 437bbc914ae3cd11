/**
  Two places where the subnet helpers do not compute what their comments
  and output labels promise, each shown on the code as written (in module
  Subnet) and paired with the intended definition and its proved property.
*/
module Findings {
  import opened Wrappers
  import opened Bytes
  import opened IP
  import opened Subnet

  // Host counts of wide IPv6 networks.

  /**
    The number of addresses of a network, without the 64-bit shift of
    getTotalHosts: 2^h for h host bits.
  */
  function AddressCount(n: Network): (count: nat)
    ensures count >= 1
  {
    Pow2(HostLen(n))
  }

  /** AddressCount counts every address from the network to the broadcast address. */
  lemma AddressCountRange(n: Network)
    requires Plain(n)
    ensures AddressCount(n) == Value(Broadcast(n)) - Value(n.ip) + 1
  {
    BroadcastValue(n);
  }

  /** AddressCount agrees with getTotalHosts exactly where the count fits in 64 bits. */
  lemma AddressCountAgrees(n: Network)
    ensures HostLen(n) < 64 <==> AddressCount(n) == TotalHosts(n)
  {
    if HostLen(n) < 64 {
      TotalHostsExact(n);
    } else {
      Pow2ModPow2(HostLen(n), 64);
    }
  }

  /** getTotalHosts reports 0 addresses for ::/64, a network of 2^64 addresses. */
  lemma Slash64TotalHosts()
    ensures WellFormed(IPNet(Zeros(16), PrefixMask(64, 16)))
    ensures TotalHosts(IPNet(Zeros(16), PrefixMask(64, 16))) == 0
    ensures AddressCount(IPNet(Zeros(16), PrefixMask(64, 16))) == Pow2(64)
  {
    ZeroNetwork(64, 16);
    var n: Network := IPNet(Zeros(16), PrefixMask(64, 16));
    IPv6WideHostCounts(n);
  }

  // Last usable address of ::/80.

  /**
    The last usable address as intended: the broadcast address minus one
    for an IPv4 network, the broadcast address itself for an IPv6 one. The
    choice is made on the network's own address, not on the broadcast.
  */
  function LastUsableIntended(n: Network): (last: seq<bv8>)
    ensures |last| == |Broadcast(n)|
  {
    if To4(n.ip).None? then Broadcast(n) else Pred(Broadcast(n))
  }

  /**
    For an IPv6 network that is not IPv4-mapped, the intended last usable
    address is the top of the network's block: the network address plus
    2^h - 1 for h host bits.
  */
  lemma LastUsableIntendedIPv6(n: Network)
    requires Plain(n) && To4(n.ip).None?
    ensures |LastUsableIntended(n)| == 16
    ensures Value(LastUsableIntended(n)) == Value(n.ip) + Pow2(HostLen(n)) - 1
  {
    BroadcastValue(n);
  }

  /** Decrementing a non-empty byte sequence always changes it. */
  lemma PredChanges(b: seq<bv8>)
    requires b != []
    ensures Pred(b) != b
  {
    var k := |b| - 1;
    if b[k] == 0 {
      assert Pred(b)[k] == 0xFF;
    } else {
      assert Pred(b)[k] == b[k] - 1;
    }
  }

  /**
    getLastUsableIP departs from the intended result exactly for the IPv6
    networks whose broadcast address has a 4-byte form.
  */
  lemma LastUsableDiffers(n: Network)
    ensures LastUsableIntended(n) != LastUsable(n) <==>
              To4(n.ip).None? && To4(Broadcast(n)).Some?
  {
    var b := Broadcast(n);
    assert |b| == |View(n.ip)|;
    if To4(n.ip).None? && To4(b).Some? {
      PredChanges(b);
    }
  }

  /**
    For a network with an IPv4 form, the intended last usable address is
    what getLastUsableIP returns: one below the broadcast address, modulo 2^32.
  */
  lemma LastUsableIntendedIPv4(n: Network)
    requires To4(n.ip).Some?
    ensures LastUsableIntended(n) == LastUsable(n)
    ensures Value(LastUsableIntended(n)) == (Value(Broadcast(n)) - 1) % Pow2(32)
  {
    var b := Broadcast(n);
    assert |b| == 4;
    PredValue(b);
  }

  /**
    An IPv6 network of prefix length 80 whose first ten bytes are zero (that
    is, ::/80): its broadcast address ::ffff:255.255.255.255 looks like an
    IPv4-mapped address, so getLastUsableIP decrements it although the
    network is IPv6, while the intended last usable address is the broadcast.
  */
  lemma Slash80LastUsable(n: Network)
    requires |n.ip| == 16 && PrefixLen(n) == 80
    requires forall i :: 0 <= i < 10 ==> n.ip[i] == 0
    ensures To4(n.ip).None?
    ensures Broadcast(n) == V4InV6Prefix + [0xFF, 0xFF, 0xFF, 0xFF]
    ensures LastUsable(n) == V4InV6Prefix + [0xFF, 0xFF, 0xFF, 0xFE]
    ensures LastUsableIntended(n) == Broadcast(n) != LastUsable(n)
  {
    assert BitsInByte(80, 10) == 0;
    assert n.mask[10] == 0;
    assert n.ip[10] == 0;
    assert View(n.ip) == n.ip;
    var b: seq<bv8> := V4InV6Prefix + [0xFF, 0xFF, 0xFF, 0xFF];
    V4InV6PrefixBytes();
    forall i | 0 <= i < 16
      ensures Broadcast(n)[i] == b[i]
    {
      OrNotAt(n.ip, n.mask, i);
      if i < 10 {
        assert BitsInByte(80, i) == 8;
      } else {
        assert BitsInByte(80, i) == 0;
      }
    }
    assert Broadcast(n) == b;
    assert b[..12] == V4InV6Prefix;
    assert Pred(b) == b[..15] + [0xFE];
    assert b[..15] + [0xFE] == V4InV6Prefix + [0xFF, 0xFF, 0xFF, 0xFE];
    assert b[15] != (V4InV6Prefix + [0xFF, 0xFF, 0xFF, 0xFE])[15];
  }

  /** ::/80 is a network ParseCIDR can return, so the case above occurs. */
  lemma Slash80Occurs()
    ensures WellFormed(IPNet(Zeros(16), PrefixMask(80, 16)))
    ensures Ones(PrefixMask(80, 16)) == 80
  {
    ZeroNetwork(80, 16);
  }
}
