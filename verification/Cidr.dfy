/**
 CIDR membership as `config.rs` computes it: build a mask by shifting, mask both
 addresses, compare.  Machine words are bit sequences, most significant bit first,
 so that one proof covers the 32-bit and the 128-bit function.
 */
module Cidr {

  type Word = seq<bool>

  newtype Octet = x: int | 0 <= x < 256

  datatype IpAddr = V4(octets: seq<Octet>) | V6(octets: seq<Octet>) {
    /** An address value as the operating system hands it over. */
    predicate Valid() {
      |octets| == if V4? then 4 else 16
    }
  }

  datatype IpCidr = IpCidr(addr: IpAddr, prefixLen: nat)

  function Pow2(n: nat): (p: nat)
    ensures p > 0
  {
    if n == 0 then 1 else 2 * Pow2(n - 1)
  }

  /** The number a word stands for. */
  function Value(w: Word): nat {
    if w == [] then 0 else 2 * Value(w[..|w| - 1]) + (if w[|w| - 1] then 1 else 0)
  }

  function And(a: Word, b: Word): (r: Word)
    requires |a| == |b|
  {
    seq(|a|, i requires 0 <= i < |a| => a[i] && b[i])
  }

  function AllOnes(width: nat): Word {
    seq(width, _ => true)
  }

  /** `<<` on a fixed-width word: high bits fall off, zeros come in. */
  function ShiftLeft(w: Word, k: nat): Word
    requires k <= |w|
  {
    w[k..] + seq(k, _ => false)
  }

  const OCTET_WIDTH: nat := 8

  function OctetBits(o: nat, width: nat): (w: Word)
    ensures |w| == width
    decreases width
  {
    if width == 0 then [] else OctetBits(o / 2, width - 1) + [o % 2 == 1]
  }

  /** `from_be_bytes`. */
  function FromBeBytes(octets: seq<Octet>): (w: Word)
    ensures |w| == OCTET_WIDTH * |octets|
  {
    if octets == [] then []
    else FromBeBytes(octets[..|octets| - 1]) + OctetBits(octets[|octets| - 1] as nat, OCTET_WIDTH)
  }

  /** The same number in plain base-256 arithmetic. */
  function BigEndian(octets: seq<Octet>): nat {
    if octets == [] then 0
    else 256 * BigEndian(octets[..|octets| - 1]) + octets[|octets| - 1] as nat
  }

  /** The common text of `ipv4_in_prefix` and `ipv6_in_prefix`; the width is the words' own. */
  predicate InPrefix(network: Word, addr: Word, prefixLen: nat)
    requires |network| == |addr|
  {
    var width := |network|;
    if prefixLen == 0 then true
    else
      var mask := if prefixLen >= width then AllOnes(width) else ShiftLeft(AllOnes(width), width - prefixLen);
      And(network, mask) == And(addr, mask)
  }

  predicate Contains(block: IpCidr, ip: IpAddr)
    requires block.addr.Valid() && ip.Valid()
  {
    match (block.addr, ip)
    case (V4(network), V4(addr)) => InPrefix(FromBeBytes(network), FromBeBytes(addr), block.prefixLen)
    case (V6(network), V6(addr)) => InPrefix(FromBeBytes(network), FromBeBytes(addr), block.prefixLen)
    case _ => false
  }

  function Width(ip: IpAddr): nat {
    if ip.V4? then 32 else 128
  }

  function HostBits(ip: IpAddr, prefixLen: nat): nat {
    if prefixLen >= Width(ip) then 0 else Width(ip) - prefixLen
  }

  /** The prefix of section 3.1 of RFC 4632: the address divided by the block size. */
  function Prefix(ip: IpAddr, prefixLen: nat): nat {
    Quotient(BigEndian(ip.octets), Pow2(HostBits(ip, prefixLen)))
  }

  function Quotient(n: nat, d: nat): nat
    requires d > 0
  {
    n / d
  }

  lemma {:induction false} OctetBitsValue(o: nat, width: nat)
    requires o < Pow2(width)
    ensures Value(OctetBits(o, width)) == o
    decreases width
  {
    if width == 0 {
    } else {
      var w := OctetBits(o, width);
      assert w[..|w| - 1] == OctetBits(o / 2, width - 1);
      OctetBitsValue(o / 2, width - 1);
    }
  }

  lemma {:induction false} ValueConcat(a: Word, b: Word)
    ensures Value(a + b) == Value(a) * Pow2(|b|) + Value(b)
    decreases |b|
  {
    if b == [] {
      assert a + b == a;
    } else {
      var b' := b[..|b| - 1];
      assert (a + b)[..|a + b| - 1] == a + b';
      ValueConcat(a, b');
      assert Value(a) * Pow2(|b|) == 2 * (Value(a) * Pow2(|b'|));
    }
  }

  lemma {:induction false} ValueBound(w: Word)
    ensures Value(w) < Pow2(|w|)
    decreases |w|
  {
    if w == [] {
    } else {
      ValueBound(w[..|w| - 1]);
    }
  }

  /** Words of one width are equal exactly when their numbers are. */
  lemma {:induction false} ValueInjective(a: Word, b: Word)
    requires |a| == |b|
    ensures Value(a) == Value(b) <==> a == b
    decreases |a|
  {
    if a == [] {
    } else {
      var n := |a| - 1;
      ValueInjective(a[..n], b[..n]);
      assert a == a[..n] + [a[n]] && b == b[..n] + [b[n]];
    }
  }

  lemma Pow2Eight()
    ensures Pow2(OCTET_WIDTH) == 256
  {
    assert Pow2(4) == 16;
  }

  lemma AppendOctet(hi: Word, o: nat)
    requires o < 256
    ensures Value(hi + OctetBits(o, OCTET_WIDTH)) == 256 * Value(hi) + o
  {
    Pow2Eight();
    var width, bits := OCTET_WIDTH, OctetBits(o, OCTET_WIDTH);
    OctetBitsValue(o, width);
    ValueConcat(hi, bits);
  }

  lemma {:induction false} FromBeBytesValue(octets: seq<Octet>)
    ensures Value(FromBeBytes(octets)) == BigEndian(octets)
    decreases |octets|
  {
    if octets == [] {
    } else {
      var init := octets[..|octets| - 1];
      FromBeBytesValue(init);
      AppendOctet(FromBeBytes(init), octets[|octets| - 1] as nat);
    }
  }

  /** Dropping the low bits of a word is dividing its number. */
  lemma {:induction false} TakeIsDivision(w: Word, p: nat)
    requires p <= |w|
    ensures Value(w[..p]) == Quotient(Value(w), Pow2(|w| - p))
  {
    var hi, lo := w[..p], w[p..];
    assert w == hi + lo;
    ValueConcat(hi, lo);
    ValueBound(lo);
    DivisionOfSum(Value(hi), Pow2(|lo|), Value(lo));
  }

  lemma Multiples(d: nat, a: int, b: int)
    requires a < b
    ensures d * a + d <= d * b
  {
    assert d * b == d * a + d * (b - a);
    assert d * (b - a) == d + d * (b - a - 1);
  }

  lemma DivisionOfSum(q: nat, d: nat, r: nat)
    requires r < d
    ensures (q * d + r) / d == q
  {
    var n := q * d + r;
    var x := n / d;
    assert d * x <= n < d * x + d;
    if x < q {
      Multiples(d, x, q);
    } else if x > q {
      Multiples(d, q, x);
    }
  }

  /** A mask of `p` leading ones. */
  predicate LeadingOnes(mask: Word, p: nat) {
    forall i :: 0 <= i < |mask| ==> mask[i] == (i < p)
  }

  lemma ShiftedMask(width: nat, p: nat)
    requires p <= width
    ensures |ShiftLeft(AllOnes(width), width - p)| == width && LeadingOnes(ShiftLeft(AllOnes(width), width - p), p)
  {
  }

  /** Masked words are equal exactly when their first `p` bits are. */
  lemma MaskedEquality(a: Word, b: Word, mask: Word, p: nat)
    requires |a| == |b| == |mask| && p <= |a| && LeadingOnes(mask, p)
    ensures And(a, mask) == And(b, mask) <==> a[..p] == b[..p]
  {
    var x, y := And(a, mask), And(b, mask);
    if x == y {
      forall i | 0 <= i < p ensures a[..p][i] == b[..p][i] {
        assert x[i] == a[i] && y[i] == b[i];
      }
    }
    if a[..p] == b[..p] {
      forall i | 0 <= i < |a| ensures x[i] == y[i] {
        if i < p { assert a[..p][i] == a[i] && b[..p][i] == b[i]; }
      }
    }
  }

  /** Masking compares exactly the first `prefixLen` bits. */
  lemma MaskComparesPrefix(a: Word, b: Word, prefixLen: nat)
    requires |a| == |b|
    ensures InPrefix(a, b, prefixLen) <==>
              var p := if prefixLen >= |a| then |a| else prefixLen; a[..p] == b[..p]
  {
    var width := |a|;
    if prefixLen >= width {
      MaskedEquality(a, b, AllOnes(width), width);
    } else {
      ShiftedMask(width, prefixLen);
      MaskedEquality(a, b, ShiftLeft(AllOnes(width), width - prefixLen), prefixLen);
    }
  }

  /** Main result: the masks compute prefix equality, for both address families and every prefix length. */
  lemma ContainsIsPrefixEquality(block: IpCidr, ip: IpAddr)
    requires block.addr.Valid() && ip.Valid()
    ensures Contains(block, ip) <==>
              block.addr.V4? == ip.V4? && Prefix(block.addr, block.prefixLen) == Prefix(ip, block.prefixLen)
  {
    if block.addr.V4? == ip.V4? {
      var a, b := FromBeBytes(block.addr.octets), FromBeBytes(ip.octets);
      var p := if block.prefixLen >= |a| then |a| else block.prefixLen;
      MaskComparesPrefix(a, b, block.prefixLen);
      ValueInjective(a[..p], b[..p]);
      TakeIsDivision(a, p);
      TakeIsDivision(b, p);
      FromBeBytesValue(block.addr.octets);
      FromBeBytesValue(ip.octets);
    }
  }

  /** Whether two addresses share their first `prefixLen` bits. */
  lemma LongerPrefixRefines(a: Word, b: Word, short: nat, long: nat)
    requires |a| == |b| && short <= long
    ensures InPrefix(a, b, long) ==> InPrefix(a, b, short)
  {
    MaskComparesPrefix(a, b, short);
    MaskComparesPrefix(a, b, long);
    var s := if short >= |a| then |a| else short;
    var l := if long >= |a| then |a| else long;
    assert a[..s] == a[..l][..s] && b[..s] == b[..l][..s];
  }

  /** Lengthening the prefix of one network only shrinks it. */
  lemma LongerBlockIsSmaller(network: IpAddr, short: nat, long: nat, ip: IpAddr)
    requires network.Valid() && ip.Valid() && short <= long
    ensures Contains(IpCidr(network, long), ip) ==> Contains(IpCidr(network, short), ip)
  {
    if network.V4? == ip.V4? {
      LongerPrefixRefines(FromBeBytes(network.octets), FromBeBytes(ip.octets), short, long);
    }
  }

  lemma OverlappingBlocksNest(wide: IpCidr, narrow: IpCidr, shared: IpAddr, ip: IpAddr)
    requires wide.addr.Valid() && narrow.addr.Valid() && shared.Valid() && ip.Valid()
    requires wide.prefixLen <= narrow.prefixLen
    requires Contains(wide, shared) && Contains(narrow, shared)
    ensures Contains(narrow, ip) ==> Contains(wide, ip)
  {
    if Contains(narrow, ip) {
      var narrowAsWide := IpCidr(narrow.addr, wide.prefixLen);
      LongerBlockIsSmaller(narrow.addr, wide.prefixLen, narrow.prefixLen, ip);
      LongerBlockIsSmaller(narrow.addr, wide.prefixLen, narrow.prefixLen, shared);
      ContainsIsPrefixEquality(narrowAsWide, ip);
      ContainsIsPrefixEquality(narrowAsWide, shared);
      ContainsIsPrefixEquality(wide, shared);
      ContainsIsPrefixEquality(wide, ip);
    }
  }

  /** Any two blocks are nested, the longer prefix inside the shorter, or disjoint. */
  lemma BlocksNestOrAreDisjoint(wide: IpCidr, narrow: IpCidr)
    requires wide.addr.Valid() && narrow.addr.Valid()
    requires wide.prefixLen <= narrow.prefixLen
    ensures (forall ip: IpAddr | ip.Valid() :: Contains(narrow, ip) ==> Contains(wide, ip))
         || (forall ip: IpAddr | ip.Valid() :: !(Contains(narrow, ip) && Contains(wide, ip)))
  {
    if shared: IpAddr :| shared.Valid() && Contains(narrow, shared) && Contains(wide, shared) {
      forall ip: IpAddr | ip.Valid() ensures Contains(narrow, ip) ==> Contains(wide, ip) {
        OverlappingBlocksNest(wide, narrow, shared, ip);
      }
    }
  }
}
