/** IP addresses as byte strings, the integers they denote, and the prefix masks of CIDR notation
    (section 3.1 of RFC 4632, section 2.3 of RFC 4291). */
module Addresses {
  type Bytes = seq<bv8>

  function Pow2(n: nat): (p: nat)
    ensures p > 0
  {
    if n == 0 then 1 else 2 * Pow2(n - 1)
  }

  /** Network byte order: the first byte is the most significant one. */
  function Value(bytes: Bytes): nat {
    if bytes == [] then 0 else Value(bytes[..|bytes| - 1]) * 256 + bytes[|bytes| - 1] as nat
  }

  /** The byte whose k low bits are set. */
  function LowOnes(k: nat): bv8
    requires k <= 8
  {
    if k == 0 then 0 else 2 * LowOnes(k - 1) + 1
  }

  /** How many of the bits of byte i lie past a prefix of `ones` bits. */
  function HostBitsIn(ones: nat, i: nat): (k: nat)
    ensures k <= 8
  {
    if ones >= 8 * (i + 1) then 0 else if ones <= 8 * i then 8 else 8 * (i + 1) - ones
  }

  /** net.CIDRMask: `ones` leading one bits, then zeros; the prefix may end inside a byte. */
  function CIDRMask(ones: nat, length: nat): (mask: Bytes)
    requires ones <= 8 * length
    ensures |mask| == length
  {
    seq(length, i requires 0 <= i < length => !LowOnes(HostBitsIn(ones, i)))
  }

  /** The bytes of an address with everything past the prefix cleared. */
  function Masked(ip: Bytes, ones: nat): (r: Bytes)
    requires ones <= 8 * |ip|
    ensures |r| == |ip|
  {
    var mask := CIDRMask(ones, |ip|);
    seq(|ip|, i requires 0 <= i < |ip| => ip[i] & mask[i])
  }

  /** The bytes of an address with everything past the prefix set. */
  function Filled(ip: Bytes, ones: nat): (r: Bytes)
    requires ones <= 8 * |ip|
    ensures |r| == |ip|
  {
    var mask := CIDRMask(ones, |ip|);
    seq(|ip|, i requires 0 <= i < |ip| => ip[i] | !mask[i])
  }

  // ---------------------------------------------------------------- bytes and integers

  /** The multiple of p at or below v. */
  function Block(v: nat, p: nat): nat
    requires p > 0
  {
    v / p * p
  }

  lemma HalfOf(b: bv8)
    ensures (b / 2) as nat == b as nat / 2
  {
  }

  lemma TwiceOf(b: bv8)
    requires b < 128
    ensures (2 * b) as nat == 2 * (b as nat)
    ensures (2 * b + 1) as nat == 2 * (b as nat) + 1
  {
  }

  lemma ShiftedMask(b: bv8, low: bv8)
    requires low < 128
    ensures b & !(2 * low + 1) == 2 * ((b / 2) & !low)
    ensures b | (2 * low + 1) == 2 * ((b / 2) | low) + 1
    ensures (b / 2) & !low < 128 && (b / 2) | low < 128
  {
  }

  lemma LowOnesOfPartialByte(k: nat)
    requires k < 8
    ensures LowOnes(k) < 128
  {
    assert LowOnes(2) == 2 * LowOnes(1) + 1;
    assert LowOnes(4) == 2 * LowOnes(3) + 1;
    assert LowOnes(6) == 2 * LowOnes(5) + 1;
  }

  /** A byte with its k low bits cleared, and with them set, as numbers. */
  function ClearLow(b: bv8, k: nat): nat
    requires k <= 8
  {
    (b & !LowOnes(k)) as nat
  }

  function SetLow(b: bv8, k: nat): nat
    requires k <= 8
  {
    (b | LowOnes(k)) as nat
  }

  /** Masking a byte is masking its upper half one bit shorter. */
  lemma HalvedMask(b: bv8, k: nat)
    requires 0 < k <= 8
    ensures ClearLow(b, k) == 2 * ClearLow(b / 2, k - 1)
    ensures SetLow(b, k) == 2 * SetLow(b / 2, k - 1) + 1
  {
    LowOnesOfPartialByte(k - 1);
    HalvedMaskOf(b, LowOnes(k - 1));
  }

  lemma HalvedMaskOf(b: bv8, low: bv8)
    requires low < 128
    ensures (b & !(2 * low + 1)) as nat == 2 * ((b / 2) & !low) as nat
    ensures (b | (2 * low + 1)) as nat == 2 * ((b / 2) | low) as nat + 1
  {
    ShiftedMask(b, low);
    TwiceOf((b / 2) & !low);
    TwiceOf((b / 2) | low);
  }

  lemma NothingMasked(b: bv8)
    ensures ClearLow(b, 0) == SetLow(b, 0) == b as nat
  {
    assert b & !0 == b && b | 0 == b;
  }

  lemma OnlyZeroMultiple(x: int, p: int)
    requires p > 0 && -p < x * p < p
    ensures x == 0
  {
  }

  lemma QuotientIs(v: nat, p: nat, q: nat, r: nat)
    requires p > 0 && v == q * p + r && r < p
    ensures v / p == q && v % p == r && Block(v, p) == q * p
  {
    var d, m := v / p, v % p;
    assert v == d * p + m && 0 <= m < p;
    assert (q - d) * p == m - r;
    OnlyZeroMultiple(q - d, p);
  }

  /** Clearing a scaled number is scaling the cleared one. */
  lemma ScaledBlock(v: nat, low: nat, c: nat, p: nat)
    requires low < c && p > 0
    ensures c * p > 0
    ensures Block(v * c + low, c * p) == Block(v, p) * c
  {
    var q, r := v / p, v % p;
    assert v == q * p + r;
    calc {
      v * c + low;
      (q * p + r) * c + low;
      q * (c * p) + (r * c + low);
    }
    assert r * c + low < c * p by {
      assert (r + 1) * c <= p * c;
    }
    QuotientIs(v * c + low, c * p, q, r * c + low);
    assert q * (c * p) == q * p * c;
  }

  lemma HalvedBlock(v: nat, k: nat)
    requires k > 0
    ensures Block(v, Pow2(k)) == 2 * Block(v / 2, Pow2(k - 1))
  {
    ScaledBlock(v / 2, v % 2, 2, Pow2(k - 1));
  }

  lemma {:induction false} ClearedByte(b: bv8, k: nat)
    requires k <= 8
    ensures ClearLow(b, k) == Block(b as nat, Pow2(k))
  {
    if k == 0 {
      NothingMasked(b);
    } else {
      ClearedByte(b / 2, k - 1);
      HalfOf(b);
      HalvedMask(b, k);
      HalvedBlock(b as nat, k);
    }
  }

  lemma {:induction false} FilledByte(b: bv8, k: nat)
    requires k <= 8
    ensures SetLow(b, k) == ClearLow(b, k) + Pow2(k) - 1
  {
    if k == 0 {
      NothingMasked(b);
    } else {
      FilledByte(b / 2, k - 1);
      HalvedMask(b, k);
    }
  }

  // ---------------------------------------------------------------- whole addresses

  lemma {:induction false} Pow2Sum(a: nat, b: nat)
    ensures Pow2(a + b) == Pow2(a) * Pow2(b)
  {
    if a == 0 {
    } else {
      Pow2Sum(a - 1, b);
    }
  }

  lemma {:induction false} Pow2Monotone(a: nat, b: nat)
    requires a <= b
    ensures Pow2(a) <= Pow2(b)
  {
    if a < b {
      Pow2Monotone(a, b - 1);
    }
  }

  lemma ByteRange()
    ensures Pow2(8) == 256
  {
    assert Pow2(2) == 2 * Pow2(1);
    assert Pow2(4) == 2 * Pow2(3);
    assert Pow2(6) == 2 * Pow2(5);
    assert Pow2(8) == 2 * Pow2(7);
  }

  lemma MaskedAt(ip: Bytes, ones: nat, i: nat)
    requires ones <= 8 * |ip| && i < |ip|
    ensures Masked(ip, ones)[i] as nat == ClearLow(ip[i], HostBitsIn(ones, i))
    ensures Filled(ip, ones)[i] as nat == SetLow(ip[i], HostBitsIn(ones, i))
  {
    assert !!LowOnes(HostBitsIn(ones, i)) == LowOnes(HostBitsIn(ones, i));
  }

  lemma MaskedFront(ip: Bytes, ones: nat)
    requires ip != [] && ones <= 8 * |ip|
    ensures var last := |ip| - 1;
            var shorter := if ones <= 8 * last then ones else 8 * last;
            && Masked(ip, ones)[..last] == Masked(ip[..last], shorter)
            && Filled(ip, ones)[..last] == Filled(ip[..last], shorter)
  {
  }

  lemma WholeMultiple(m: nat, b: nat, p: nat)
    requires p > 0
    ensures Block(m * p + b, p) == m * p + Block(b, p)
  {
    QuotientIs(m * p + b, p, m + b / p, b % p);
  }

  lemma Reassociate(a: nat, b: nat, c: nat)
    ensures a * (b * c) == a * b * c
  {
  }

  lemma BlockPastByte(v: nat, b: nat, k: nat)
    requires k <= 8
    ensures Block(v * 256 + b, Pow2(k)) == v * 256 + Block(b, Pow2(k))
  {
    var c, p := Pow2(8 - k), Pow2(k);
    assert c * p == 256 by {
      ByteRange();
      Pow2Sum(8 - k, k);
    }
    Reassociate(v, c, p);
    WholeMultiple(v * c, b, p);
  }

  lemma BlockAcrossByte(v: nat, b: nat, h: nat)
    requires h >= 8 && b < 256
    ensures Block(v * 256 + b, Pow2(h)) == Block(v, Pow2(h - 8)) * 256
  {
    ByteRange();
    Pow2Sum(8, h - 8);
    ScaledBlock(v, b, 256, Pow2(h - 8));
  }

  lemma NothingPastFullPrefix(v: nat)
    ensures Block(v, Pow2(0)) == v
  {
  }

  lemma ValueLast(bytes: Bytes, front: Bytes, last: nat)
    requires bytes != [] && bytes[..|bytes| - 1] == front && bytes[|bytes| - 1] as nat == last
    ensures Value(bytes) == Value(front) * 256 + last
  {
  }

  function ShorterPrefix(ip: Bytes, ones: nat): nat
    requires ip != []
  {
    if ones <= 8 * (|ip| - 1) then ones else 8 * (|ip| - 1)
  }

  /** What one more byte adds to a masked address. */
  lemma MaskedStep(ip: Bytes, ones: nat, b: nat, k: nat)
    requires ip != [] && ones <= 8 * |ip|
    requires b == ip[|ip| - 1] as nat && k == HostBitsIn(ones, |ip| - 1)
    ensures Value(Masked(ip, ones)) ==
            Value(Masked(ip[..|ip| - 1], ShorterPrefix(ip, ones))) * 256 + Block(b, Pow2(k))
  {
    MaskedFront(ip, ones);
    MaskedAt(ip, ones, |ip| - 1);
    ClearedByte(ip[|ip| - 1], k);
    ValueLast(Masked(ip, ones), Masked(ip[..|ip| - 1], ShorterPrefix(ip, ones)), Block(b, Pow2(k)));
  }

  lemma FilledStep(ip: Bytes, ones: nat, b: nat, k: nat)
    requires ip != [] && ones <= 8 * |ip|
    requires b == ip[|ip| - 1] as nat && k == HostBitsIn(ones, |ip| - 1)
    ensures Value(Filled(ip, ones)) ==
            Value(Filled(ip[..|ip| - 1], ShorterPrefix(ip, ones))) * 256 + Block(b, Pow2(k)) + Pow2(k) - 1
  {
    MaskedFront(ip, ones);
    MaskedAt(ip, ones, |ip| - 1);
    ClearedByte(ip[|ip| - 1], k);
    FilledByte(ip[|ip| - 1], k);
    ValueLast(Filled(ip, ones), Filled(ip[..|ip| - 1], ShorterPrefix(ip, ones)), Block(b, Pow2(k)) + Pow2(k) - 1);
  }

  /** A byte that lies past the prefix altogether. */
  lemma BlockOfAllBits(v: nat, b: nat, h: nat)
    requires h >= 8 && b < 256
    ensures Block(v * 256 + b, Pow2(h)) == Block(v, Pow2(h - 8)) * 256 + Block(b, Pow2(8))
  {
    BlockAcrossByte(v, b, h);
    ByteRange();
    QuotientIs(b, 256, 0, b);
  }

  lemma BlockOfLowBits(v: nat, b: nat, k: nat)
    requires k <= 8
    ensures Block(v * 256 + b, Pow2(k)) == Block(v, Pow2(0)) * 256 + Block(b, Pow2(k))
  {
    BlockPastByte(v, b, k);
    NothingPastFullPrefix(v);
  }

  /** Clearing the host bits of the bytes rounds the address down to a multiple of the block size. */
  lemma {:induction false} MaskedValue(ip: Bytes, ones: nat)
    requires ones <= 8 * |ip|
    ensures Value(Masked(ip, ones)) == Block(Value(ip), Pow2(8 * |ip| - ones))
  {
    if ip == [] {
      NothingPastFullPrefix(0);
    } else {
      var front, b, k := ip[..|ip| - 1], ip[|ip| - 1] as nat, HostBitsIn(ones, |ip| - 1);
      MaskedValue(front, ShorterPrefix(ip, ones));
      MaskedStep(ip, ones, b, k);
      ValueLast(ip, front, b);
      if ones <= 8 * |front| {
        BlockOfAllBits(Value(front), b, 8 * |ip| - ones);
      } else {
        BlockOfLowBits(Value(front), b, k);
      }
    }
  }

  lemma PowerPastByte(h: nat)
    requires h >= 8
    ensures Pow2(h) == 256 * Pow2(h - 8)
  {
    ByteRange();
    Pow2Sum(8, h - 8);
  }

  /** Setting the host bits of the bytes gives the last address of the block. */
  lemma {:induction false} FilledValue(ip: Bytes, ones: nat)
    requires ones <= 8 * |ip|
    ensures Value(Filled(ip, ones)) == Value(Masked(ip, ones)) + Pow2(8 * |ip| - ones) - 1
  {
    if ip == [] {
    } else {
      var front, b, k := ip[..|ip| - 1], ip[|ip| - 1] as nat, HostBitsIn(ones, |ip| - 1);
      FilledValue(front, ShorterPrefix(ip, ones));
      MaskedStep(ip, ones, b, k);
      FilledStep(ip, ones, b, k);
      if ones <= 8 * |front| {
        PowerPastByte(8 * |ip| - ones);
        PowerPastByte(8);
      }
    }
  }

  lemma SameByte(x: bv8, y: bv8)
    requires x as nat == y as nat
    ensures x == y
  {
  }

  lemma SameDigits(v: nat, w: nat, x: nat, y: nat)
    requires v * 256 + x == w * 256 + y && x < 256 && y < 256
    ensures v == w && x == y
  {
  }

  /** Addresses of one length with the same value are the same. */
  lemma {:induction false} ValueInjective(a: Bytes, b: Bytes)
    requires |a| == |b| && Value(a) == Value(b)
    ensures a == b
  {
    if a == [] {
    } else {
      var last := |a| - 1;
      SameDigits(Value(a[..last]), Value(b[..last]), a[last] as nat, b[last] as nat);
      SameByte(a[last], b[last]);
      ValueInjective(a[..last], b[..last]);
      assert a == a[..last] + [a[last]] && b == b[..last] + [b[last]];
    }
  }

  // ---------------------------------------------------------------- parts of an address

  lemma {:induction false} ValueBelow(bytes: Bytes)
    ensures Value(bytes) < Pow2(8 * |bytes|)
  {
    if bytes == [] {
    } else {
      ValueBelow(bytes[..|bytes| - 1]);
      PowerPastByte(8 * |bytes|);
    }
  }

  lemma ScaleByByte(a: nat, p: nat, b: nat, q: nat)
    requires q == 256 * p
    ensures a * p * 256 + b == a * q + b
  {
  }

  lemma {:induction false} ValueConcat(a: Bytes, b: Bytes)
    ensures Value(a + b) == Value(a) * Pow2(8 * |b|) + Value(b)
    decreases |b|
  {
    if b == [] {
      assert a + b == a;
    } else {
      var front, last := b[..|b| - 1], b[|b| - 1] as nat;
      assert (a + b)[..|a + b| - 1] == a + front;
      ValueConcat(a, front);
      ValueLast(a + b, a + front, last);
      ValueLast(b, front, last);
      PowerPastByte(8 * |b|);
      ScaleByByte(Value(a), Pow2(8 * |front|), Value(b), Pow2(8 * |b|));
    }
  }
}
