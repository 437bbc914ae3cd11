/**
  The subnet helpers of the cidr command: broadcast address, first and last
  usable address, total and usable host counts. Each loop of the Go code is
  a method proved against a specification function, and the arithmetic
  meaning of those functions is proved as lemmas.
*/
module Subnet {
  import opened Wrappers
  import opened Bytes
  import opened IP

  /** Byte-wise `a[i] | ^m[i]` over the bytes of `a`. */
  function OrNot(a: seq<bv8>, m: seq<bv8>): (r: seq<bv8>)
    requires |a| <= |m|
    ensures |r| == |a|
  {
    if a == [] then [] else OrNot(a[..|a| - 1], m) + [a[|a| - 1] | !m[|a| - 1]]
  }

  /** Byte `i` of OrNot(a, m) is `a[i] | ^m[i]`. */
  lemma {:induction false} OrNotAt(a: seq<bv8>, m: seq<bv8>, i: int)
    requires |a| <= |m| && 0 <= i < |a|
    ensures OrNot(a, m)[i] == a[i] | !m[i]
  {
    if i < |a| - 1 {
      OrNotAt(a[..|a| - 1], m, i);
    }
  }

  /** The broadcast address: every bit outside the mask set. */
  function Broadcast(n: Network): (r: seq<bv8>)
  {
    OrNot(View(n.ip), n.mask)
  }

  /** First usable address: the IPv4 network plus one; an IPv6 network itself. */
  function FirstUsable(n: Network): (r: seq<bv8>)
  {
    match To4(n.ip)
    case None => n.ip
    case Some(v) => Succ(v)
  }

  /**
    Last usable address: the broadcast address minus one when the broadcast
    address has a 4-byte form, the broadcast address itself otherwise.
  */
  function LastUsable(n: Network): (r: seq<bv8>)
  {
    LastOf(Broadcast(n))
  }

  /** The step of getLastUsableIP after the broadcast address is known. */
  function LastOf(b: seq<bv8>): (r: seq<bv8>)
  {
    if To4(b).None? then b else Pred(b)
  }

  method GetBroadcastIP(n: Network) returns (broadcast: seq<bv8>)
    ensures broadcast == Broadcast(n)
  {
    var ip := To4(n.ip);
    var v: seq<bv8>;
    if ip.None? {
      v := To16(n.ip);
    } else {
      v := ip.value;
    }
    assert v == View(n.ip);
    broadcast := FillBroadcast(v, n.mask);
  }

  /** The loop of getBroadcastIP: a fresh slice whose byte `i` is `v[i] | ^mask[i]`. */
  method FillBroadcast(v: seq<bv8>, mask: seq<bv8>) returns (broadcast: seq<bv8>)
    requires |v| <= |mask|
    ensures broadcast == OrNot(v, mask)
  {
    var b := new bv8[|v|];
    for i := 0 to |v|
      invariant b[..i] == OrNot(v[..i], mask)
    {
      b[i] := v[i] | !mask[i];
      OrNotStep(v, mask, i);
      assert b[..i + 1] == b[..i] + [b[i]];
    }
    assert b[..] == b[..|v|] && v == v[..|v|];
    broadcast := b[..];
  }

  lemma OrNotStep(v: seq<bv8>, m: seq<bv8>, i: int)
    requires 0 <= i < |v| <= |m|
    ensures OrNot(v[..i + 1], m) == OrNot(v[..i], m) + [v[i] | !m[i]]
  {
    assert v[..i + 1][..i] == v[..i];
  }

  /** The carry loop of getFirstUsableIP: add one to `a` in place, big-endian. */
  method Increment(a: array<bv8>)
    modifies a
    ensures a[..] == Succ(old(a[..]))
  {
    ghost var v := a[..];
    var i := a.Length - 1;
    while i >= 0
      invariant -1 <= i < a.Length
      invariant forall k :: 0 <= k <= i ==> a[k] == v[k]
      invariant forall k :: i < k < a.Length ==> a[k] == 0 && v[k] == 0xFF
    {
      a[i] := a[i] + 1;
      if a[i] > 0 {
        break;
      }
      i := i - 1;
    }
    SuccShape(v, i);
  }

  /** The borrow loop of getLastUsableIP: subtract one from `a` in place, big-endian. */
  method Decrement(a: array<bv8>)
    modifies a
    ensures a[..] == Pred(old(a[..]))
  {
    ghost var v := a[..];
    var i := a.Length - 1;
    while i >= 0
      invariant -1 <= i < a.Length
      invariant forall k :: 0 <= k <= i ==> a[k] == v[k]
      invariant forall k :: i < k < a.Length ==> a[k] == 0xFF && v[k] == 0
    {
      a[i] := a[i] - 1;
      if a[i] < 255 {
        break;
      }
      i := i - 1;
    }
    PredShape(v, i);
  }

  method GetFirstUsableIP(n: Network) returns (first: seq<bv8>)
    ensures first == FirstUsable(n)
    ensures To4(n.ip).None? ==> first == n.ip
    ensures To4(n.ip).Some? ==>
      |first| == 4 && Value(first) == (Value(To4(n.ip).value) + 1) % Pow2(32)
  {
    var ip := To4(n.ip);
    if ip.None? {
      return n.ip;
    }
    var v := ip.value;
    var a := new bv8[|v|](k requires 0 <= k < |v| => v[k]);
    assert a[..] == v;
    Increment(a);
    first := a[..];
    SuccValue(v);
  }

  method GetLastUsableIP(n: Network) returns (last: seq<bv8>)
    ensures last == LastUsable(n)
    ensures To4(Broadcast(n)).None? ==> last == Broadcast(n)
    ensures To4(Broadcast(n)).Some? ==>
      Value(last) == (Value(Broadcast(n)) - 1) % Pow2(8 * |Broadcast(n)|)
  {
    var broadcast := GetBroadcastIP(n);
    last := LastFromBroadcast(broadcast);
  }

  /**
    The rest of getLastUsableIP once the broadcast address is known: an
    address without a 4-byte form is returned as it is; otherwise a copy of
    it is decremented in place, keeping its length.
  */
  method LastFromBroadcast(broadcast: seq<bv8>) returns (last: seq<bv8>)
    ensures last == LastOf(broadcast)
    ensures To4(broadcast).Some? ==>
      |last| == |broadcast| && Value(last) == (Value(broadcast) - 1) % Pow2(8 * |broadcast|)
  {
    if To4(broadcast).None? {
      return broadcast;
    }
    var a := new bv8[|broadcast|](k requires 0 <= k < |broadcast| => broadcast[k]);
    assert a[..] == broadcast;
    Decrement(a);
    last := a[..];
    PredValue(broadcast);
  }

  /** Go's `uint64(1) << s`: a power of two, or zero once the bit is shifted out. */
  function ShiftOne64(s: nat): (r: nat)
    ensures r == Pow2(s) % Pow2(64)
  {
    Pow2ModPow2(s, 64);
    if s < 64 then Pow2(s) else 0
  }

  /**
    getTotalHosts: `1 << uint(bits - ones)` on a uint64, with `ones, bits`
    from Mask.Size. The uint conversion reads the difference modulo 2^64.
  */
  function TotalHosts(n: Network): (total: nat)
    ensures total < Pow2(64)
    ensures total == Pow2(8 * |n.ip| - PrefixLen(n)) % Pow2(64)
  {
    var size := MaskSize(n.mask);
    MaskSizeOfPrefixMask(n.mask, PrefixLen(n));
    Pow2Mono(8, 64);
    assert Pow2(8) == 256;
    ModBelow(size.1 - size.0, Pow2(64));
    ShiftOne64((size.1 - size.0) % Pow2(64))
  }

  /** getUsableHosts: the total less the network and broadcast addresses, never below zero. */
  function UsableHosts(n: Network): (usable: nat)
    ensures usable <= TotalHosts(n)
    ensures TotalHosts(n) > 2 ==> usable + 2 == TotalHosts(n)
    ensures TotalHosts(n) <= 2 ==> usable == 0
  {
    var total := TotalHosts(n);
    if total <= 2 then 0 else total - 2
  }

  /** `x | ^m` on a byte whose bits outside the mask `m` of `q` leading ones are clear. */
  lemma ByteBroadcast(x: bv8, q: nat)
    requires q <= 8
    requires x & PrefixByte(q) == x
    ensures (x | !PrefixByte(q)) as int == x as int + Pow2(8 - q) - 1
    ensures x as int % Pow2(8 - q) == 0
  {
    var hm := !PrefixByte(q);
    assert x & hm == 0;
    match q
    case 0 => assert Pow2(8) == 256; HostBits(x, hm, 256);
    case 1 => assert Pow2(7) == 128; HostBits(x, hm, 128);
    case 2 => assert Pow2(6) == 64; HostBits(x, hm, 64);
    case 3 => assert Pow2(5) == 32; HostBits(x, hm, 32);
    case 4 => assert Pow2(4) == 16; HostBits(x, hm, 16);
    case 5 => assert Pow2(3) == 8; HostBits(x, hm, 8);
    case 6 => assert Pow2(2) == 4; HostBits(x, hm, 4);
    case 7 => assert Pow2(1) == 2; HostBits(x, hm, 2);
    case 8 => assert Pow2(0) == 1; HostBits(x, hm, 1);
  }

  /** Setting the low bits `hm` (a block of ones) of a byte where they are clear adds them. */
  lemma HostBits(x: bv8, hm: bv8, c: nat)
    requires hm as int + 1 == c
    requires hm & (hm + 1) == 0
    requires x & hm == 0
    ensures (x | hm) as int == x as int + c - 1
    ensures x as int % c == 0
  {
    assert x | hm == x + hm;
    assert x <= !hm;
    assert (x + hm) as int == x as int + hm as int;
  }

  /** The mask bytes before `|a|` are those of a prefix mask of `p` bits. */
  predicate MaskBytesUpTo(m: seq<bv8>, p: nat, len: nat)
    requires len <= |m|
  {
    forall i :: 0 <= i < len ==> m[i] == PrefixByte(BitsInByte(p, i))
  }

  /** Bytes fully inside the prefix are left alone. */
  lemma {:induction false} OrNotFullMask(a: seq<bv8>, m: seq<bv8>, p: nat)
    requires |a| <= |m| && 8 * |a| <= p && MaskBytesUpTo(m, p, |a|)
    ensures OrNot(a, m) == a
  {
    if a != [] {
      var k := |a| - 1;
      assert BitsInByte(p, k) == 8;
      OrNotFullMask(a[..k], m, p);
    }
  }

  /** The last byte is all host bits: it becomes 0xFF. */
  lemma OrNotValueHostByte(a': seq<bv8>, m: seq<bv8>, p: nat)
    requires |a'| < |m| && p <= 8 * |a'|
    requires Value(OrNot(a', m)) == Value(a') + Pow2(8 * |a'| - p) - 1
    requires Value(a') % Pow2(8 * |a'| - p) == 0
    ensures Value(OrNot(a', m) + [0xFF]) == Value(a' + [0]) + Pow2(8 * |a'| + 8 - p) - 1
    ensures Value(a' + [0]) % Pow2(8 * |a'| + 8 - p) == 0
  {
    var h := 8 * |a'| - p;
    ValueSnoc(OrNot(a', m), 0xFF);
    ValueSnoc(a', 0);
    Pow2Byte(h);
    assert 8 * |a'| + 8 - p == h + 8;
    MulMod(Value(a'), Pow2(h), 256);
  }

  /** The last byte holds the boundary: only its low `8 - q` bits are host bits. */
  lemma OrNotValueBoundaryByte(a': seq<bv8>, x: bv8, q: nat)
    requires 0 < q <= 8 && x & PrefixByte(q) == x
    ensures Value(a' + [x | !PrefixByte(q)]) == Value(a' + [x]) + Pow2(8 - q) - 1
    ensures Value(a' + [x]) % Pow2(8 - q) == 0
  {
    var h := 8 - q;
    ByteBroadcast(x, q);
    ValueSnoc(a', x | !PrefixByte(q));
    ValueSnoc(a', x);
    Pow2Add(q, h);
    assert Pow2(8) == 256;
    BlockArith(Value(a'), x as int, Pow2(h), Pow2(q));
  }

  lemma BlockArith(v: int, x: int, d: int, e: int)
    requires d > 0 && e > 0 && e * d == 256 && x % d == 0
    ensures (v * 256 + x) % d == 0
  {
    ModMultiple(e, d);
    ModAddScaled(v, 256, x, d);
  }

  /** The case of OrNotValue where the last byte holds the prefix boundary. */
  lemma OrNotValueBoundary(a: seq<bv8>, m: seq<bv8>, p: nat)
    requires 0 < |a| <= |m| && 8 * (|a| - 1) < p <= 8 * |a| && MaskBytesUpTo(m, p, |a|)
    requires a[|a| - 1] & m[|a| - 1] == a[|a| - 1]
    ensures Value(OrNot(a, m)) == Value(a) + Pow2(8 * |a| - p) - 1
    ensures Value(a) % Pow2(8 * |a| - p) == 0
  {
    var k := |a| - 1;
    var a', x, q := a[..k], a[k], p - 8 * k;
    BoundaryShape(a, m, p);
    OrNotValueBoundaryByte(a', x, q);
    assert 8 * |a| - p == 8 - q;
  }

  /** Below the boundary byte every bit is kept; in it, the low `8 - q` bits are set. */
  lemma BoundaryShape(a: seq<bv8>, m: seq<bv8>, p: nat)
    requires 0 < |a| <= |m| && 8 * (|a| - 1) < p <= 8 * |a| && MaskBytesUpTo(m, p, |a|)
    requires a[|a| - 1] & m[|a| - 1] == a[|a| - 1]
    ensures var q := p - 8 * (|a| - 1);
      0 < q <= 8 && a[|a| - 1] & PrefixByte(q) == a[|a| - 1] &&
      OrNot(a, m) == a[..|a| - 1] + [a[|a| - 1] | !PrefixByte(q)] &&
      Value(OrNot(a, m)) == Value(a[..|a| - 1] + [a[|a| - 1] | !PrefixByte(q)]) &&
      Value(a) == Value(a[..|a| - 1] + [a[|a| - 1]])
  {
    var k := |a| - 1;
    var a', q := a[..k], p - 8 * k;
    assert BitsInByte(p, k) == q && m[k] == PrefixByte(q);
    OrNotFullMask(a', m, p);
    ValueSnoc(a', a[k]);
  }

  /**
    Setting every bit outside a prefix mask of `p` bits adds 2^h - 1 to the
    value of an address whose host bits are clear, where h = 8 * width - p
    is the number of host bits; such an address is a multiple of 2^h.
  */
  lemma {:induction false} OrNotValue(a: seq<bv8>, m: seq<bv8>, p: nat)
    requires |a| <= |m| && p <= 8 * |a| && MaskBytesUpTo(m, p, |a|)
    requires forall i :: 0 <= i < |a| ==> a[i] & m[i] == a[i]
    ensures Value(OrNot(a, m)) == Value(a) + Pow2(8 * |a| - p) - 1
    ensures Value(a) % Pow2(8 * |a| - p) == 0
  {
    if a != [] {
      var k := |a| - 1;
      if p <= 8 * k {
        var a', x, y := a[..k], a[k], m[k];
        assert a == a' + [x];
        assert BitsInByte(p, k) == 0;
        assert y == 0 && x == 0 && x | !y == 0xFF;
        OrNotValue(a', m, p);
        OrNotValueHostByte(a', m, p);
      } else {
        OrNotValueBoundary(a, m, p);
      }
    }
  }

  /** The number of host bits of a network: its width minus its prefix length. */
  function HostLen(n: Network): (h: nat)
    ensures h <= 8 * |n.ip|
  {
    8 * |n.ip| - PrefixLen(n)
  }

  lemma BroadcastOfPlain(n: Network)
    requires Plain(n)
    ensures Broadcast(n) == OrNot(n.ip, n.mask)
  {
  }

  /**
    The broadcast address of a network keeps the first `p` bits of the
    network address and sets all the others: the network address is a
    multiple of 2^h, where h is the number of host bits, and the broadcast
    address is the network's plus 2^h - 1.
  */
  lemma BroadcastValue(n: Network)
    requires Plain(n)
    ensures Value(n.ip) % Pow2(HostLen(n)) == 0
    ensures Value(Broadcast(n)) == Value(n.ip) + Pow2(HostLen(n)) - 1
  {
    BroadcastOfPlain(n);
    OrNotValueOfNetwork(n);
  }

  lemma OrNotValueOfNetwork(n: Network)
    ensures Value(n.ip) % Pow2(HostLen(n)) == 0
    ensures Value(OrNot(n.ip, n.mask)) == Value(n.ip) + Pow2(HostLen(n)) - 1
  {
    OrNotValue(n.ip, n.mask, PrefixLen(n));
  }

  /** LastInBlock for a block end given by name, kept apart from the address reasoning. */
  lemma BlockEnds(v: int, b: int, d: int)
    requires d > 0 && v % d == 0 && b == v + d - 1
    ensures b / d == v / d && b % d == d - 1
  {
    LastInBlock(v, d);
  }

  /**
    The network and broadcast addresses agree on the prefix (their values
    have the same quotient by 2^h) and the broadcast address has every host
    bit set.
  */
  lemma BroadcastSameBlock(n: Network)
    requires Plain(n)
    ensures Value(Broadcast(n)) / Pow2(HostLen(n)) == Value(n.ip) / Pow2(HostLen(n))
    ensures Value(Broadcast(n)) % Pow2(HostLen(n)) == Pow2(HostLen(n)) - 1
  {
    BroadcastValue(n);
    BlockEnds(Value(n.ip), Value(Broadcast(n)), Pow2(HostLen(n)));
  }

  /** A 4-byte network address is its own IPv4 form. */
  lemma To4OfFourBytes(ip: seq<bv8>)
    requires |ip| == 4
    ensures To4(ip) == Some(ip) && View(ip) == ip
  {
  }

  /** Below 2^64, getTotalHosts is exactly 2^h. */
  lemma TotalHostsExact(n: Network)
    requires HostLen(n) < 64
    ensures TotalHosts(n) == Pow2(HostLen(n))
  {
    Pow2Mono(HostLen(n) + 1, 64);
    ModBelow(Pow2(HostLen(n)), Pow2(64));
  }

  /** An IPv4 network of at least 4 addresses has room above its network address. */
  lemma IPv4NetworkBelowBroadcast(n: Network)
    requires |n.ip| == 4 && PrefixLen(n) <= 30
    ensures Value(n.ip) + 3 <= Value(Broadcast(n)) < Pow2(32)
  {
    To4OfFourBytes(n.ip);
    BroadcastValue(n);
    ValueBound(Broadcast(n));
    Pow2Mono(2, HostLen(n));
    assert Pow2(2) == 4;
  }

  lemma IPv4FirstUsableValue(n: Network)
    requires |n.ip| == 4 && PrefixLen(n) <= 30
    ensures Value(FirstUsable(n)) == Value(n.ip) + 1
  {
    IPv4NetworkBelowBroadcast(n);
    FirstUsableOfFourBytes(n);
    SuccNoWrap(n.ip);
  }

  lemma FirstUsableOfFourBytes(n: Network)
    requires |n.ip| == 4
    ensures FirstUsable(n) == Succ(n.ip)
  {
    To4OfFourBytes(n.ip);
  }

  lemma IPv4LastUsableValue(n: Network)
    requires |n.ip| == 4 && PrefixLen(n) <= 30
    ensures Value(LastUsable(n)) == Value(Broadcast(n)) - 1
  {
    var b := Broadcast(n);
    assert |b| == 4;
    To4OfFourBytes(b);
    IPv4NetworkBelowBroadcast(n);
    PredNoWrap(b);
  }

  /**
    For an IPv4 network of prefix length at most 30, the usable range runs
    from the network address plus one to the broadcast address minus one,
    and it holds exactly UsableHosts addresses, two fewer than TotalHosts.
  */
  lemma IPv4UsableRange(n: Network)
    requires |n.ip| == 4 && PrefixLen(n) <= 30
    ensures Value(FirstUsable(n)) == Value(n.ip) + 1
    ensures Value(LastUsable(n)) == Value(Broadcast(n)) - 1
    ensures Value(LastUsable(n)) - Value(FirstUsable(n)) + 1 == UsableHosts(n)
    ensures UsableHosts(n) + 2 == TotalHosts(n)
  {
    To4OfFourBytes(n.ip);
    IPv4FirstUsableValue(n);
    IPv4LastUsableValue(n);
    BroadcastValue(n);
    TotalHostsExact(n);
    Pow2Mono(2, HostLen(n));
    assert Pow2(2) == 4;
  }

  /**
    A /31 IPv4 network: two addresses and no usable host; getFirstUsableIP
    lands on the broadcast address and getLastUsableIP on the network address.
  */
  lemma IPv4PointToPoint(n: Network)
    requires |n.ip| == 4 && PrefixLen(n) == 31
    ensures TotalHosts(n) == 2 && UsableHosts(n) == 0
    ensures Value(FirstUsable(n)) == Value(Broadcast(n))
    ensures Value(LastUsable(n)) == Value(n.ip)
  {
    var b := Broadcast(n);
    To4OfFourBytes(n.ip);
    To4OfFourBytes(b);
    BroadcastValue(n);
    assert Pow2(1) == 2;
    TotalHostsExact(n);
    ValueBound(b);
    FirstUsableOfFourBytes(n);
    SuccNoWrap(n.ip);
    PredNoWrap(b);
  }

  /**
    A /32 IPv4 network is a single address: it is its own broadcast address,
    there are no usable hosts, and the increment and decrement wrap around
    at the ends of the address space.
  */
  lemma IPv4SingleHost(n: Network)
    requires |n.ip| == 4 && PrefixLen(n) == 32
    ensures TotalHosts(n) == 1 && UsableHosts(n) == 0
    ensures Broadcast(n) == n.ip
    ensures Value(FirstUsable(n)) == (Value(n.ip) + 1) % Pow2(32)
    ensures Value(LastUsable(n)) == (Value(n.ip) - 1) % Pow2(32)
  {
    To4OfFourBytes(n.ip);
    BroadcastOfPlain(n);
    OrNotFullMask(n.ip, n.mask, 32);
    TotalHostsExact(n);
    FirstUsableOfFourBytes(n);
    SuccValue(n.ip);
    PredValue(n.ip);
  }

  /**
    An IPv6 network of prefix length at most 64 has 2^64 or more addresses;
    the 64-bit shift of getTotalHosts overflows to zero, and so does the
    usable count.
  */
  lemma IPv6WideHostCounts(n: Network)
    requires |n.ip| == 16 && PrefixLen(n) <= 64
    ensures TotalHosts(n) == 0 && UsableHosts(n) == 0
  {
    Pow2ModPow2(HostLen(n), 64);
  }

  /**
    Whenever the count fits in 64 bits, TotalHosts is the number of
    addresses from the network address to the broadcast address inclusive.
  */
  lemma TotalHostsCountsRange(n: Network)
    requires Plain(n) && HostLen(n) < 64
    ensures TotalHosts(n) == Value(Broadcast(n)) - Value(n.ip) + 1
  {
    BroadcastValue(n);
    TotalHostsExact(n);
  }
}
