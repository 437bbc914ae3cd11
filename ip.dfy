/**
  The parts of Go's net package that the subnet helpers rely on: an IP
  network as ParseCIDR returns it, the 4-byte and 16-byte views of an
  address (`To4`, `To16`), and the prefix length of a mask (`Mask.Size`).
*/
module IP {
  import opened Wrappers
  import opened Bytes

  /** A network: its (already masked) address and its mask, both as bytes. */
  datatype IPNet = IPNet(ip: seq<bv8>, mask: seq<bv8>)

  /** The twelve bytes that prefix an IPv4 address embedded in IPv6. */
  const V4InV6Prefix: seq<bv8> := [0, 0, 0, 0, 0, 0, 0, 0, 0, 0, 0xFF, 0xFF]

  /**
    The 4-byte form of an address: a 4-byte address itself, the low four
    bytes of an IPv4-mapped 16-byte address, and nothing otherwise.
  */
  function To4(ip: seq<bv8>): (r: Option<seq<bv8>>)
    ensures r.Some? ==> |ip| >= 4 && r.value == ip[|ip| - 4..]
    ensures r.Some? <==> |ip| == 4 || (|ip| == 16 && ip[..12] == V4InV6Prefix)
  {
    if |ip| == 4 then Some(ip)
    else if |ip| == 16 && ip[..12] == V4InV6Prefix then Some(ip[12..])
    else None
  }

  /** The 16-byte form of an address; empty (Go's nil) for any other length. */
  function To16(ip: seq<bv8>): (r: seq<bv8>)
  {
    if |ip| == 4 then V4InV6Prefix + ip
    else if |ip| == 16 then ip
    else []
  }

  /**
    The bytes the broadcast computation works on: the 4-byte form when
    there is one, the 16-byte form otherwise.
  */
  function View(ip: seq<bv8>): (r: seq<bv8>)
    ensures |ip| == 4 || |ip| == 16 ==> |r| <= |ip| && (|r| == 4 || r == ip)
    ensures To4(ip).Some? ==> r == To4(ip).value
    ensures To4(ip).None? ==> r == To16(ip)
  {
    match To4(ip)
    case Some(v) => v
    case None => To16(ip)
  }

  /** The mask byte that has its `q` most significant bits set. */
  function PrefixByte(q: nat): bv8
    requires q <= 8
  {
    match q
    case 0 => 0x00 case 1 => 0x80 case 2 => 0xC0 case 3 => 0xE0 case 4 => 0xF0
    case 5 => 0xF8 case 6 => 0xFC case 7 => 0xFE case _ => 0xFF
  }

  /** Number of leading one bits of a byte. */
  function LeadingOnes(b: bv8): (q: nat)
    ensures q <= 8
  {
    if b == 0xFF then 8 else if b >= 0xFE then 7 else if b >= 0xFC then 6
    else if b >= 0xF8 then 5 else if b >= 0xF0 then 4 else if b >= 0xE0 then 3
    else if b >= 0xC0 then 2 else if b >= 0x80 then 1 else 0
  }

  /** How many of the first `p` bits of an address fall into byte `i`. */
  function BitsInByte(p: int, i: int): (q: nat)
    ensures q <= 8
  {
    if p >= 8 * i + 8 then 8 else if p <= 8 * i then 0 else p - 8 * i
  }

  /** `m` is the mask whose first `p` bits are ones and whose other bits are zeros. */
  predicate IsPrefixMask(m: seq<bv8>, p: nat)
  {
    p <= 8 * |m| && forall i :: 0 <= i < |m| ==> m[i] == PrefixByte(BitsInByte(p, i))
  }

  /** The number of leading one bits of a mask. */
  function Ones(m: seq<bv8>): (r: nat)
  {
    if m == [] then 0
    else if m[0] == 0xFF then 8 + Ones(m[1..])
    else LeadingOnes(m[0])
  }

  /** A mask whose one bits are all leading. */
  predicate IsCanonical(m: seq<bv8>)
  {
    IsPrefixMask(m, Ones(m))
  }

  /**
    Mask.Size: the number of leading ones and the number of bits of a
    canonical mask, and (0, 0) for a mask whose ones are not all leading.
  */
  function MaskSize(m: seq<bv8>): (r: (int, int))
  {
    if IsCanonical(m) then (Ones(m), 8 * |m|) else (0, 0)
  }

  /** The one-bit count of a prefix mask is its prefix length. */
  lemma {:induction false} OnesOfPrefixMask(m: seq<bv8>, p: nat)
    requires IsPrefixMask(m, p)
    ensures Ones(m) == p
  {
    if m != [] {
      if p >= 8 {
        assert m[0] == 0xFF;
        forall i | 0 <= i < |m[1..]|
          ensures m[1..][i] == PrefixByte(BitsInByte(p - 8, i))
        {
          assert BitsInByte(p - 8, i) == BitsInByte(p, i + 1);
        }
        OnesOfPrefixMask(m[1..], p - 8);
      } else {
        assert m[0] == PrefixByte(p);
      }
    }
  }

  /** Mask.Size of the mask of prefix length `p` over `|m|` bytes is (p, 8 * |m|). */
  lemma MaskSizeOfPrefixMask(m: seq<bv8>, p: nat)
    requires IsPrefixMask(m, p)
    ensures MaskSize(m) == (p, 8 * |m|)
  {
    OnesOfPrefixMask(m, p);
  }

  /**
    What ParseCIDR guarantees of the network it returns: a 4-byte (IPv4
    syntax) or 16-byte (IPv6 syntax) address, a canonical mask of the same
    length, and an address with every host bit cleared.
  */
  predicate WellFormed(n: IPNet)
  {
    (|n.ip| == 4 || |n.ip| == 16) && |n.mask| == |n.ip| && IsCanonical(n.mask) &&
    forall i :: 0 <= i < |n.ip| ==> n.ip[i] & n.mask[i] == n.ip[i]
  }

  type Network = n: IPNet | WellFormed(n) witness IPNet([0, 0, 0, 0], [0, 0, 0, 0])

  /** The prefix length of a network. */
  function PrefixLen(n: Network): (p: nat)
    ensures p <= 8 * |n.ip| && IsPrefixMask(n.mask, p)
  {
    Ones(n.mask)
  }

  /** A network whose address is used as it is stored (IPv4, or IPv6 that is not IPv4-mapped). */
  predicate Plain(n: Network)
  {
    View(n.ip) == n.ip
  }

  /** The bytes of V4InV6Prefix: ten zeros, then two 0xFF bytes. */
  lemma V4InV6PrefixBytes()
    ensures forall i :: 0 <= i < 10 ==> V4InV6Prefix[i] == 0
    ensures V4InV6Prefix[10] == 0xFF && V4InV6Prefix[11] == 0xFF
  {
  }

  /** The mask of `len` bytes whose first `p` bits are ones (Go's CIDRMask). */
  function PrefixMask(p: nat, len: nat): (m: seq<bv8>)
    requires p <= 8 * len
    ensures |m| == len && IsPrefixMask(m, p)
  {
    seq(len, i requires 0 <= i < len => PrefixByte(BitsInByte(p, i)))
  }

  /** The all-zeros address of `len` bytes. */
  function Zeros(len: nat): (z: seq<bv8>)
    ensures |z| == len && forall i :: 0 <= i < len ==> z[i] == 0
  {
    seq(len, _ => 0)
  }

  /** The zero address under any prefix mask of its length is a network of that prefix length. */
  lemma ZeroNetwork(p: nat, len: nat)
    requires (len == 4 || len == 16) && p <= 8 * len
    ensures WellFormed(IPNet(Zeros(len), PrefixMask(p, len)))
    ensures Ones(PrefixMask(p, len)) == p
  {
    OnesOfPrefixMask(PrefixMask(p, len), p);
  }
}
