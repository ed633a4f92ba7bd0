/** From a CIDR to the addresses of a libvirt network: the range it spans, the address of the host and
    the range served by DHCP, computed on byte slices. */
module Subnets {
  import opened Wrappers
  import opened Addresses

  /** A parsed network; its mask is given by its Size(): the prefix length and the number of bits. */
  datatype IPNet = IPNet(ip: Bytes, ones: nat, bits: nat)

  function Mask(n: IPNet): Bytes
    requires n.ones <= n.bits && n.bits % 8 == 0
  {
    CIDRMask(n.ones, n.bits / 8)
  }

  /** What net.ParseCIDR returns: 4 or 16 bytes with the host bits cleared. */
  predicate Parsed(n: IPNet) {
    && (|n.ip| == 4 || |n.ip| == 16)
    && n.bits == 8 * |n.ip| && n.ones <= n.bits
    && Masked(n.ip, n.ones) == n.ip
  }

  /** An IPv4 address written in 16 bytes (::ffff:a.b.c.d). */
  predicate Mapped(ip: Bytes) {
    |ip| == 16 && (forall i :: 0 <= i < 10 ==> ip[i] == 0) && ip[10] == 255 && ip[11] == 255
  }

  /** To4 where it succeeds, To16 otherwise. */
  function Unmapped(ip: Bytes): Bytes {
    if Mapped(ip) then ip[12..] else ip
  }

  const V4_IN_V6 := 0xFFFF_0000_0000

  lemma MappingPrefix(front: Bytes)
    requires |front| == 12
    ensures Value(front) == 0xFFFF
            <==> (forall i :: 0 <= i < 10 ==> front[i] == 0) && front[10] == 255 && front[11] == 255
  {
    var mapping: Bytes := [0, 0, 0, 0, 0, 0, 0, 0, 0, 0, 255, 255];
    MappingValue(mapping);
    if Value(front) == 0xFFFF { ValueInjective(front, mapping); }
    if (forall i :: 0 <= i < 10 ==> front[i] == 0) && front[10] == 255 && front[11] == 255 {
      assert front == mapping;
    }
  }

  lemma {:induction false} ValueOfZeros(zeros: Bytes)
    requires forall i :: 0 <= i < |zeros| ==> zeros[i] == 0
    ensures Value(zeros) == 0
  {
    if zeros == [] {
    } else {
      ValueOfZeros(zeros[..|zeros| - 1]);
    }
  }

  lemma MappingValue(mapping: Bytes)
    requires mapping == [0, 0, 0, 0, 0, 0, 0, 0, 0, 0, 255, 255]
    ensures Value(mapping) == 0xFFFF
  {
    var zeros := mapping[..10];
    ValueOfZeros(zeros);
    ValueLast(mapping[..11], zeros, 255);
    ValueLast(mapping, mapping[..11], 255);
  }

  lemma Pow32()
    ensures Pow2(32) == 0x1_0000_0000
  {
    ByteRange();
    Pow2Sum(8, 8);
    Pow2Sum(16, 16);
  }

  lemma InTopHalf(v: nat, low: nat)
    requires low < 0x1_0000_0000
    ensures v == 0xFFFF <==> V4_IN_V6 <= v * 0x1_0000_0000 + low < V4_IN_V6 + 0x1_0000_0000
  {
  }

  /** The mapped addresses are those of ::ffff:0:0/96, and the IPv4 address of one is its offset there. */
  lemma MappedIsBlock(ip: Bytes)
    requires |ip| == 16
    ensures Mapped(ip) <==> V4_IN_V6 <= Value(ip) < V4_IN_V6 + 0x1_0000_0000
    ensures Mapped(ip) ==> |Unmapped(ip)| == 4 && Value(Unmapped(ip)) == Value(ip) - V4_IN_V6
  {
    var front, low := ip[..12], ip[12..];
    assert ip == front + low;
    ValueConcat(front, low);
    ValueBelow(low);
    Pow32();
    MappingPrefix(front);
    InTopHalf(Value(front), Value(low));
  }

  /** IP.Mask of the net package; no bytes at all stand for nil. */
  function MaskIP(ip: Bytes, mask: Bytes): Bytes {
    var m := if |mask| == 16 && |ip| == 4 && (forall i :: 0 <= i < 12 ==> mask[i] == 255) then mask[12..] else mask;
    var a := if |m| == 4 then Unmapped(ip) else ip;
    if |a| != |m| then [] else seq(|a|, i requires 0 <= i < |a| => a[i] & m[i])
  }

  /** The prefix that leaves at most 16 host bits. */
  function PrefixWithMax16Bits(ones: nat, bits: nat): nat
    requires ones <= bits
  {
    if bits - ones > 16 then if bits == 128 then 128 - 16 else 32 - 16 else ones
  }

  function LastBytes(network: IPNet, netIP: Bytes): (r: Bytes)
    requires Parsed(network) && |netIP| <= network.bits / 8
  {
    var mask := CIDRMask(PrefixWithMax16Bits(network.ones, network.bits), network.bits / 8);
    seq(|netIP|, i requires 0 <= i < |netIP| => netIP[i] | !mask[i])
  }

  function FirstIP(network: IPNet): Bytes
    requires Parsed(network)
  {
    MaskIP(Unmapped(network.ip), Mask(network))
  }

  function LastIP(network: IPNet): Bytes
    requires Parsed(network)
  {
    LastBytes(network, Unmapped(network.ip))
  }

  method GetLastIP(network: IPNet, netIP: Bytes) returns (lastIP: array<bv8>)
    requires Parsed(network) && |netIP| <= network.bits / 8
    ensures fresh(lastIP) && lastIP[..] == LastBytes(network, netIP)
  {
    lastIP := new bv8[|netIP|];
    var intMask := CIDRMask(PrefixWithMax16Bits(network.ones, network.bits), network.bits / 8);
    for i := 0 to |netIP|
      invariant forall j :: 0 <= j < i ==> lastIP[j] == LastBytes(network, netIP)[j]
    {
      lastIP[i] := netIP[i] | !intMask[i];
    }
  }

  method NetworkRange(network: IPNet) returns (firstIP: array<bv8>, lastIP: array<bv8>)
    requires Parsed(network)
    ensures fresh(firstIP) && fresh(lastIP) && firstIP != lastIP
    ensures firstIP[..] == FirstIP(network) && lastIP[..] == LastIP(network)
  {
    var netIP := Unmapped(network.ip);
    var masked := MaskIP(netIP, Mask(network));
    firstIP := new bv8[|masked|](i requires 0 <= i < |masked| => masked[i]);
    lastIP := GetLastIP(network, netIP);
  }

  // ---------------------------------------------------------------- the range

  function HostBits(n: IPNet): nat
    requires n.ones <= n.bits
  {
    n.bits - n.ones
  }

  /** libvirt takes at most 2^16 addresses a subnet. */
  function RangeSize(n: IPNet): nat
    requires n.ones <= n.bits
  {
    Pow2(if HostBits(n) < 16 then HostBits(n) else 16)
  }

  ghost predicate RangeIsExact(n: IPNet)
    requires Parsed(n)
  {
    var base := Unmapped(n.ip);
    && |FirstIP(n)| == |LastIP(n)| == |base|
    && Value(FirstIP(n)) == Value(base)
    && Value(LastIP(n)) == Value(base) + RangeSize(n) - 1
  }

  lemma OddByte(b: bv8, x: bv8)
    ensures b & !(2 * x + 1) != 255
  {
  }

  /** A byte with host bits in it is not 255 once they are cleared. */
  lemma ClearedByteIsNotFull(ip: Bytes, ones: nat, i: nat)
    requires ones <= 8 * |ip| && i < |ip|
    ensures Masked(ip, ones)[i] == 255 ==> HostBitsIn(ones, i) == 0
  {
    var k := HostBitsIn(ones, i);
    if k > 0 { OddByte(ip[i], LowOnes(k - 1)); }
  }

  /** A mapped network has the 96 bits of the mapping in its prefix. */
  lemma MappedPrefix(n: IPNet)
    requires Parsed(n) && Mapped(n.ip)
    ensures n.ones >= 96
  {
    ClearedByteIsNotFull(n.ip, n.ones, 11);
  }

  lemma MaskedOfFullPrefix(b: bv8)
    ensures b & !LowOnes(0) == b && b | !!LowOnes(0) == b
  {
  }

  /** The addresses of a mapped network: both ends of the range are the network address. */
  lemma MappedRange(n: IPNet)
    requires Parsed(n) && Mapped(n.ip)
    ensures FirstIP(n) == LastIP(n) == n.ip[12..]
  {
    MappedPrefix(n);
    var base := n.ip[12..];
    assert !LowOnes(0) == 255;
    forall i | 0 <= i < 4 ensures LastIP(n)[i] == base[i] { MaskedOfFullPrefix(base[i]); }
    assert forall i :: 0 <= i < 12 ==> Mask(n)[i] == 255;
    forall i | 0 <= i < 4 ensures base[i] & Mask(n)[12 + i] == base[i] {
      assert Masked(n.ip, n.ones)[12 + i] == n.ip[12 + i];
    }
  }

  lemma UnmappedRange(n: IPNet)
    requires Parsed(n) && !Mapped(n.ip)
    ensures FirstIP(n) == n.ip
    ensures LastIP(n) == Filled(n.ip, PrefixWithMax16Bits(n.ones, n.bits))
  {
    assert FirstIP(n) == Masked(n.ip, n.ones) by {
      assert |Mask(n)| == |n.ip|;
    }
  }

  /** Clearing fewer host bits leaves a network address alone. */
  lemma CoarserBlock(v: nat, h: nat, m: nat)
    requires m <= h && Block(v, Pow2(h)) == v
    ensures Block(v, Pow2(m)) == v
  {
    Pow2Sum(h - m, m);
    Reassociate(v / Pow2(h), Pow2(h - m), Pow2(m));
    QuotientIs(v, Pow2(m), v / Pow2(h) * Pow2(h - m), 0);
  }

  lemma NetworkIsBlock(n: IPNet)
    requires Parsed(n)
    ensures Block(Value(n.ip), Pow2(HostBits(n))) == Value(n.ip)
  {
    MaskedValue(n.ip, n.ones);
  }

  lemma FilledBlock(ip: Bytes, prefix: nat, m: nat)
    requires prefix + m == 8 * |ip| && Block(Value(ip), Pow2(m)) == Value(ip)
    ensures Value(Filled(ip, prefix)) == Value(ip) + Pow2(m) - 1
  {
    MaskedValue(ip, prefix);
    FilledValue(ip, prefix);
  }

  lemma FilledRange(n: IPNet)
    requires Parsed(n)
    ensures Value(Filled(n.ip, PrefixWithMax16Bits(n.ones, n.bits))) == Value(n.ip) + RangeSize(n) - 1
  {
    var m := if HostBits(n) < 16 then HostBits(n) else 16;
    NetworkIsBlock(n);
    CoarserBlock(Value(n.ip), HostBits(n), m);
    FilledBlock(n.ip, PrefixWithMax16Bits(n.ones, n.bits), m);
  }

  /** The two ends of every parsed network, masks that split a byte included. */
  lemma RangeOfUnmapped(n: IPNet)
    requires Parsed(n) && !Mapped(n.ip)
    ensures RangeIsExact(n)
  {
    UnmappedRange(n);
    FilledRange(n);
  }

  /** The computed range is the real one exactly when the network is not IPv4-mapped, single addresses aside. */
  lemma RangeIsExactIffNotMapped(n: IPNet)
    requires Parsed(n)
    ensures RangeIsExact(n) <==> !Mapped(n.ip) || HostBits(n) == 0
  {
    if Mapped(n.ip) {
      MappedRange(n);
    } else {
      RangeOfUnmapped(n);
    }
  }

  // ---------------------------------------------------------------- host address and DHCP range

  datatype Family = IPv4 | IPv6

  datatype DhcpRange = DhcpRange(start: Bytes, end: Bytes)

  datatype NetworkIP = NetworkIP(address: Bytes, prefix: nat, family: Family, dhcp: Option<DhcpRange>)

  datatype ConfigError = BadAddress | TooStrict(available: int)

  const MINIMUM_SUBNET_BITS := 3
  const RESERVED_IPS := 3

  /** Adding to the last byte only, as Go does, wrapping at 256. */
  function Bumped(bytes: Bytes, delta: bv8): (r: Bytes)
    requires bytes != []
    ensures |r| == |bytes|
  {
    bytes[|bytes| - 1 := bytes[|bytes| - 1] + delta]
  }

  function AcceptedConfig(n: IPNet): (NetworkIP, DhcpRange)
    requires Parsed(n) && FirstIP(n) != []
  {
    var host := Bumped(FirstIP(n), 1);
    (NetworkIP(host, n.ones, if n.bits == 128 then IPv6 else IPv4, None),
     DhcpRange(Bumped(host, 1), Bumped(LastIP(n), 255)))
  }

  lemma FirstIPNotNil(n: IPNet)
    requires Parsed(n)
    ensures |FirstIP(n)| == |LastIP(n)| == |Unmapped(n.ip)| > 0
  {
    if Mapped(n.ip) { MappedRange(n); } else { UnmappedRange(n); }
  }

  /** It parses and has three host bits or more. */
  predicate Acceptable(address: Option<IPNet>)
    requires address.Some? ==> Parsed(address.value)
  {
    address.Some? && HostBits(address.value) >= 3
  }

  function IPConfig(address: Option<IPNet>): Result<(NetworkIP, DhcpRange), ConfigError>
    requires address.Some? ==> Parsed(address.value)
  {
    if address.None? then Err(BadAddress)
    else
      var n := address.value;
      FirstIPNotNil(n);
      if HostBits(n) < MINIMUM_SUBNET_BITS then Err(TooStrict(Pow2(HostBits(n)) - RESERVED_IPS))
      else Ok(AcceptedConfig(n))
  }

  /** `address` is the parsed CIDR, None when it does not parse. */
  method GetNetworkIPConfig(address: Option<IPNet>) returns (r: Result<(NetworkIP, DhcpRange), ConfigError>)
    requires address.Some? ==> Parsed(address.value)
    ensures r == IPConfig(address)
    ensures r.Ok? <==> Acceptable(address)
    ensures r.Err? ==> r.error == if address.None? then BadAddress else TooStrict(Pow2(HostBits(address.value)) - 3)
  {
    if address.None? {
      return Err(BadAddress);
    }
    var ipNet := address.value;
    var family := if ipNet.bits == 16 * 8 then IPv6 else IPv4;
    var subnetBits := ipNet.bits - ipNet.ones;
    if subnetBits < MINIMUM_SUBNET_BITS {
      var available := Pow2(subnetBits) - RESERVED_IPS;
      return Err(TooStrict(available));
    }
    var start, end := NetworkRange(ipNet);
    FirstIPNotNil(ipNet);
    BumpInPlace(start, 1);
    var dni := NetworkIP(start[..], ipNet.ones, family, None);
    BumpInPlace(start, 1);
    BumpInPlace(end, 255);
    r := Ok((dni, DhcpRange(start[..], end[..])));
  }

  /** The ++ and -- (adding 255) on the last byte of a slice. */
  method BumpInPlace(bytes: array<bv8>, delta: bv8)
    requires bytes.Length > 0
    modifies bytes
    ensures bytes[..] == Bumped(old(bytes[..]), delta)
  {
    bytes[bytes.Length - 1] := bytes[bytes.Length - 1] + delta;
  }

  /** Host at network + 1, DHCP from network + 2 to the last address but one. */
  ghost predicate LayoutIsRight(n: IPNet, config: (NetworkIP, DhcpRange)) {
    var base, host, dhcp := Unmapped(n.ip), config.0, config.1;
    && n.ones <= n.bits
    && |host.address| == |dhcp.start| == |dhcp.end| == |base|
    && host.prefix == n.ones
    && Value(host.address) == Value(base) + 1
    && Value(dhcp.start) == Value(base) + 2
    && Value(dhcp.end) == Value(base) + RangeSize(n) - 2
  }

  lemma BumpUp(bytes: Bytes)
    requires bytes != [] && bytes[|bytes| - 1] < 255
    ensures Value(Bumped(bytes, 1)) == Value(bytes) + 1
  {
    assert Bumped(bytes, 1)[..|bytes| - 1] == bytes[..|bytes| - 1];
  }

  lemma BumpDown(bytes: Bytes)
    requires bytes != []
    ensures var last := bytes[|bytes| - 1];
            Value(Bumped(bytes, 255)) == if last > 0 then Value(bytes) - 1 else Value(bytes) + 255
  {
    assert Bumped(bytes, 255)[..|bytes| - 1] == bytes[..|bytes| - 1];
  }

  /** A network with three host bits or more has an address divisible by eight. */
  lemma NetworkIsMultipleOfEight(n: IPNet)
    requires Parsed(n) && HostBits(n) >= MINIMUM_SUBNET_BITS
    ensures Value(n.ip) % 8 == 0 && n.ip[|n.ip| - 1] as nat % 8 == 0
  {
    NetworkIsBlock(n);
    CoarserBlock(Value(n.ip), HostBits(n), 3);
    assert Pow2(3) == 8 by { assert Pow2(2) == 4; }
    assert Value(n.ip) % 8 == 0 by { MultipleOfEight(Value(n.ip) / 8); }
    LastDigitOfMultiple(Value(n.ip[..|n.ip| - 1]), n.ip[|n.ip| - 1] as nat);
  }

  lemma MultipleOfEight(a: nat)
    ensures (a * 8) % 8 == 0 == (8 * a) % 8
  {
  }

  lemma LastDigitOfMultiple(front: nat, last: nat)
    requires (front * 256 + last) % 8 == 0
    ensures last % 8 == 0
  {
    var q := (front * 256 + last) / 8;
    assert last == 8 * (q - 32 * front);
  }

  lemma RangeSizeIsMultipleOfEight(n: IPNet)
    requires n.ones <= n.bits && HostBits(n) >= MINIMUM_SUBNET_BITS
    ensures RangeSize(n) % 8 == 0 && 8 <= RangeSize(n) <= 65536
  {
    PowerIsMultipleOfEight(if HostBits(n) < 16 then HostBits(n) else 16);
  }

  lemma PowerIsMultipleOfEight(m: nat)
    requires 3 <= m <= 16
    ensures Pow2(m) % 8 == 0 && 8 <= Pow2(m) <= 65536
  {
    assert Pow2(3) == 8 by { assert Pow2(2) == 4; }
    Pow2Sum(m - 3, 3);
    MultipleOfEight(Pow2(m - 3));
    Pow2Monotone(3, m);
    Pow2Monotone(m, 16);
    assert Pow2(16) == 65536 by {
      ByteRange();
      Pow2Sum(8, 8);
    }
  }

  lemma LastByteParity(bytes: Bytes)
    requires bytes != []
    ensures Value(bytes) % 2 == bytes[|bytes| - 1] as nat % 2
  {
    EvenFront(Value(bytes[..|bytes| - 1]), bytes[|bytes| - 1] as nat);
  }

  lemma EvenFront(front: nat, last: nat)
    ensures (front * 256 + last) % 2 == last % 2
  {
    assert front * 256 + last == 2 * (front * 128) + last;
  }

  lemma HostAfterNetwork(n: IPNet)
    requires Parsed(n) && HostBits(n) >= MINIMUM_SUBNET_BITS
    ensures Value(Bumped(n.ip, 1)) == Value(n.ip) + 1
    ensures Value(Bumped(Bumped(n.ip, 1), 1)) == Value(n.ip) + 2
  {
    NetworkIsMultipleOfEight(n);
    BumpUp(n.ip);
    BumpUp(Bumped(n.ip, 1));
  }

  lemma EndBeforeLast(n: IPNet)
    requires Parsed(n) && HostBits(n) >= MINIMUM_SUBNET_BITS && !Mapped(n.ip)
    ensures LastIP(n) != [] && Value(Bumped(LastIP(n), 255)) == Value(n.ip) + RangeSize(n) - 2
  {
    FirstIPNotNil(n);
    RangeOfUnmapped(n);
    NetworkIsMultipleOfEight(n);
    RangeSizeIsMultipleOfEight(n);
    LastByteParity(LastIP(n));
    BumpDown(LastIP(n));
  }

  lemma LayoutOfUnmapped(n: IPNet)
    requires Parsed(n) && HostBits(n) >= MINIMUM_SUBNET_BITS && !Mapped(n.ip)
    ensures IPConfig(Some(n)).Ok? && LayoutIsRight(n, IPConfig(Some(n)).value)
  {
    FirstIPNotNil(n);
    UnmappedRange(n);
    HostAfterNetwork(n);
    EndBeforeLast(n);
  }

  lemma LayoutOfMapped(n: IPNet)
    requires Parsed(n) && HostBits(n) >= MINIMUM_SUBNET_BITS && Mapped(n.ip)
    ensures IPConfig(Some(n)).Ok? && !LayoutIsRight(n, IPConfig(Some(n)).value)
  {
    FirstIPNotNil(n);
    MappedRange(n);
    RangeSizeIsMultipleOfEight(n);
    BumpDown(n.ip[12..]);
  }

  /** Every CIDR with three host bits or more is accepted; its layout is the intended one, no byte wrapping
      around, exactly when it is not IPv4-mapped. */
  lemma LayoutIsRightIffNotMapped(n: IPNet)
    requires Parsed(n)
    ensures IPConfig(Some(n)).Ok? <==> HostBits(n) >= 3
    ensures IPConfig(Some(n)).Ok? ==> (LayoutIsRight(n, IPConfig(Some(n)).value) <==> !Mapped(n.ip))
  {
    FirstIPNotNil(n);
    if HostBits(n) >= MINIMUM_SUBNET_BITS {
      if Mapped(n.ip) { LayoutOfMapped(n); } else { LayoutOfUnmapped(n); }
    }
  }

  /** The DHCP range is not empty, lies inside the subnet, holds at most 65533 addresses, and leaves out
      the network address, the host and the last address of the range. */
  lemma DhcpRangeIsSane(n: IPNet)
    requires Parsed(n) && !Mapped(n.ip) && IPConfig(Some(n)).Ok?
    ensures var config := IPConfig(Some(n)).value;
            var network, host := Value(n.ip), Value(config.0.address);
            var start, end := Value(config.1.start), Value(config.1.end);
            && network < host < start <= end < Value(LastIP(n))
            && Value(LastIP(n)) < network + Pow2(HostBits(n))
            && end - start + 1 <= 65533
  {
    LayoutValues(n);
    RangeOfUnmapped(n);
    RangeInsideSubnet(n);
  }

  lemma LayoutValues(n: IPNet)
    requires Parsed(n) && !Mapped(n.ip) && IPConfig(Some(n)).Ok?
    ensures HostBits(n) >= MINIMUM_SUBNET_BITS
    ensures var config := IPConfig(Some(n)).value;
            && Value(config.0.address) == Value(n.ip) + 1
            && Value(config.1.start) == Value(n.ip) + 2
            && Value(config.1.end) == Value(n.ip) + RangeSize(n) - 2
  {
    LayoutIsRightIffNotMapped(n);
  }

  /** Host and DHCP range keep the network's prefix. */
  lemma LayoutKeepsPrefix(n: IPNet)
    requires Parsed(n) && !Mapped(n.ip) && IPConfig(Some(n)).Ok?
    ensures var config, p := IPConfig(Some(n)).value, Pow2(HostBits(n));
            && Block(Value(config.0.address), p) == Value(n.ip)
            && Block(Value(config.1.start), p) == Block(Value(config.1.end), p) == Value(n.ip)
  {
    LayoutValues(n);
    RangeInsideSubnet(n);
  }

  lemma RangeInsideSubnet(n: IPNet)
    requires Parsed(n) && HostBits(n) >= MINIMUM_SUBNET_BITS
    ensures 8 <= RangeSize(n) <= 65536 && RangeSize(n) <= Pow2(HostBits(n))
    ensures var network, p := Value(n.ip), Pow2(HostBits(n));
            Block(network + 1, p) == Block(network + 2, p) == Block(network + RangeSize(n) - 2, p) == network
  {
    var network, p, size := Value(n.ip), Pow2(HostBits(n)), RangeSize(n);
    assert 8 <= size <= 65536 by { RangeSizeIsMultipleOfEight(n); }
    assert Block(network, p) == network by { NetworkIsBlock(n); }
    assert size <= p by { Pow2Monotone(if HostBits(n) < 16 then HostBits(n) else 16, HostBits(n)); }
    InsideBlock(network, p, 1);
    InsideBlock(network, p, 2);
    InsideBlock(network, p, size - 2);
  }

  lemma InsideBlock(base: nat, p: nat, offset: nat)
    requires p > 0 && Block(base, p) == base && offset < p
    ensures Block(base + offset, p) == base
  {
    QuotientIs(base + offset, p, base / p, offset);
  }

  // ---------------------------------------------------------------- all addresses of a network

  /** Whether addresses get a DHCP range: the user's word, and by default the network mode. */
  predicate DhcpEnabled(mode: string, byUser: Option<bool>) {
    match byUser
    case Some(enabled) => enabled
    case None => mode == "none" || mode == "nat" || mode == "route" || mode == "open"
  }

  function WithDhcp(config: (NetworkIP, DhcpRange), enabled: bool): NetworkIP {
    config.0.(dhcp := if enabled then Some(config.1) else None)
  }

  /** One entry an address, in order; the first bad address fails them all. */
  function NetworkIPs(addresses: seq<Option<IPNet>>, enabled: bool): (r: Result<seq<NetworkIP>, ConfigError>)
    requires forall a :: a in addresses && a.Some? ==> Parsed(a.value)
  {
    if addresses == [] then Ok([])
    else
      match IPConfig(addresses[0])
      case Err(error) => Err(error)
      case Ok(config) =>
        match NetworkIPs(addresses[1..], enabled)
        case Err(error) => Err(error)
        case Ok(rest) => Ok([WithDhcp(config, enabled)] + rest)
  }

  /** `done` entries, then those of the addresses left, or their error. */
  function WithRest(done: seq<NetworkIP>, left: seq<Option<IPNet>>, enabled: bool): Result<seq<NetworkIP>, ConfigError>
    requires forall a :: a in left && a.Some? ==> Parsed(a.value)
  {
    match NetworkIPs(left, enabled)
    case Err(error) => Err(error)
    case Ok(rest) => Ok(done + rest)
  }

  lemma CollectOne(done: seq<NetworkIP>, left: seq<Option<IPNet>>, enabled: bool)
    requires left != [] && forall a :: a in left && a.Some? ==> Parsed(a.value)
    ensures WithRest(done, left, enabled) ==
            match IPConfig(left[0])
            case Err(error) => Err(error)
            case Ok(config) => WithRest(done + [WithDhcp(config, enabled)], left[1..], enabled)
  {
    match IPConfig(left[0])
    case Err(error) =>
    case Ok(config) =>
      match NetworkIPs(left[1..], enabled)
      case Err(error) =>
      case Ok(rest) =>
        var one := [WithDhcp(config, enabled)];
        assert done + (one + rest) == done + one + rest;
  }

  lemma CollectNone(ips: seq<NetworkIP>, left: seq<Option<IPNet>>, enabled: bool)
    requires forall a :: a in left && a.Some? ==> Parsed(a.value)
    ensures WithRest([], left, enabled) == NetworkIPs(left, enabled)
    ensures WithRest(ips, [], enabled) == Ok(ips)
  {
    assert ips + [] == ips;
    match NetworkIPs(left, enabled)
    case Err(error) =>
    case Ok(rest) => assert [] + rest == rest;
  }

  // ---------------------------------------------------------------- what an entry holds

  /** The entry of an accepted CIDR: family by its length, its prefix, and a DHCP range exactly if addresses
      are served; where the CIDR is not IPv4-mapped, host and range are where they should be. */
  ghost predicate EntryFits(n: IPNet, entry: NetworkIP, served: bool)
    requires Parsed(n)
  {
    && entry.prefix == n.ones
    && (entry.family == IPv4 <==> |n.ip| == 4)
    && (entry.dhcp.Some? <==> served)
    && (!Mapped(n.ip) ==>
          && |entry.address| == |n.ip| && Value(entry.address) == Value(n.ip) + 1
          && (served ==> RangeFits(n, entry.dhcp.value)))
  }

  /** From network + 2 to the last of at most 2^16 addresses but one. */
  ghost predicate RangeFits(n: IPNet, range: DhcpRange)
    requires Parsed(n)
  {
    && |range.start| == |range.end| == |n.ip|
    && Value(range.start) == Value(n.ip) + 2
    && Value(range.end) == Value(n.ip) + Pow2(if HostBits(n) < 16 then HostBits(n) else 16) - 2
  }

  lemma EntryOfCidr(n: IPNet, enabled: bool)
    requires Parsed(n) && Acceptable(Some(n))
    ensures IPConfig(Some(n)).Ok? && EntryFits(n, WithDhcp(IPConfig(Some(n)).value, enabled), enabled)
  {
    LayoutIsRightIffNotMapped(n);
    FirstIPNotNil(n);
  }

  lemma RefusalOfCidr(address: Option<IPNet>)
    requires address.Some? ==> Parsed(address.value)
    ensures IPConfig(address).Ok? <==> Acceptable(address)
    ensures IPConfig(address).Err? ==>
              IPConfig(address).error ==
              if address.None? then BadAddress else TooStrict(Pow2(HostBits(address.value)) - 3)
  {
  }

  /** The first address that is not acceptable, and its error. */
  ghost predicate IsRefused(addresses: seq<Option<IPNet>>, i: nat, error: ConfigError)
    requires forall a :: a in addresses && a.Some? ==> Parsed(a.value)
  {
    && i < |addresses| && !Acceptable(addresses[i])
    && (forall j :: 0 <= j < i ==> Acceptable(addresses[j]))
    && error == if addresses[i].None? then BadAddress else TooStrict(Pow2(HostBits(addresses[i].value)) - 3)
  }

  ghost predicate EntriesFit(addresses: seq<Option<IPNet>>, entries: seq<NetworkIP>, served: bool)
    requires forall a :: a in addresses && a.Some? ==> Parsed(a.value)
  {
    && |entries| == |addresses|
    && forall i :: 0 <= i < |addresses| ==>
         Acceptable(addresses[i]) && EntryFits(addresses[i].value, entries[i], served)
  }

  lemma EntriesFitFirst(addresses: seq<Option<IPNet>>, first: NetworkIP, rest: seq<NetworkIP>, served: bool)
    requires forall a :: a in addresses && a.Some? ==> Parsed(a.value)
    requires addresses != [] && Acceptable(addresses[0]) && EntryFits(addresses[0].value, first, served)
    requires EntriesFit(addresses[1..], rest, served)
    ensures EntriesFit(addresses, [first] + rest, served)
  {
    forall i | 0 <= i < |addresses|
      ensures Acceptable(addresses[i]) && EntryFits(addresses[i].value, ([first] + rest)[i], served)
    {
      if i > 0 { assert addresses[1..][i - 1] == addresses[i]; }
    }
  }

  lemma RefusedLater(addresses: seq<Option<IPNet>>, i: nat, error: ConfigError)
    requires forall a :: a in addresses && a.Some? ==> Parsed(a.value)
    requires addresses != [] && Acceptable(addresses[0]) && IsRefused(addresses[1..], i, error)
    ensures IsRefused(addresses, i + 1, error)
  {
    forall j | 0 <= j < i + 1 ensures Acceptable(addresses[j]) {
      if j > 0 { assert addresses[1..][j - 1] == addresses[j]; }
    }
  }

  lemma {:induction false} NetworkIPsFit(addresses: seq<Option<IPNet>>, enabled: bool)
    requires forall a :: a in addresses && a.Some? ==> Parsed(a.value)
    ensures match NetworkIPs(addresses, enabled)
            case Ok(entries) => EntriesFit(addresses, entries, enabled)
            case Err(error) => exists i: nat :: IsRefused(addresses, i, error)
  {
    if addresses == [] {
    } else {
      RefusalOfCidr(addresses[0]);
      if !Acceptable(addresses[0]) {
        var error := IPConfig(addresses[0]).error;
        assert NetworkIPs(addresses, enabled) == Err(error);
        assert IsRefused(addresses, 0, error);
      } else {
        EntryOfCidr(addresses[0].value, enabled);
        NetworkIPsFit(addresses[1..], enabled);
        match NetworkIPs(addresses[1..], enabled)
        case Ok(rest) => EntriesFitFirst(addresses, WithDhcp(IPConfig(addresses[0]).value, enabled), rest, enabled);
        case Err(error) =>
          var i: nat :| IsRefused(addresses[1..], i, error);
          RefusedLater(addresses, i, error);
          assert NetworkIPs(addresses, enabled) == Err(error);
      }
    }
  }

  /** `mode` is in lower case. Addresses are served if the user says so, and by default in four modes. */
  method GetIPsFromResource(addresses: seq<Option<IPNet>>, mode: string, dhcpByUser: Option<bool>)
    returns (r: Result<seq<NetworkIP>, ConfigError>)
    requires forall a :: a in addresses && a.Some? ==> Parsed(a.value)
    ensures r == NetworkIPs(addresses, DhcpEnabled(mode, dhcpByUser))
    ensures r.Ok? ==>
              EntriesFit(addresses, r.value,
                         dhcpByUser == Some(true) || (dhcpByUser.None? && mode in {"none", "nat", "route", "open"}))
    ensures r.Err? ==> exists i: nat :: IsRefused(addresses, i, r.error)
  {
    NetworkIPsFit(addresses, DhcpEnabled(mode, dhcpByUser));
    if |addresses| == 0 {
      return Ok([]);
    }
    var dhcpEnabled := mode == "none" || mode == "nat" || mode == "route" || mode == "open";
    var ips: seq<NetworkIP> := [];
    ghost var enabled := DhcpEnabled(mode, dhcpByUser);
    ghost var left := addresses;
    CollectNone(ips, left, enabled);
    for i := 0 to |addresses|
      invariant dhcpByUser.None? ==> dhcpEnabled == enabled
      invariant left == addresses[i..]
      invariant WithRest(ips, left, enabled) == NetworkIPs(addresses, enabled)
    {
      CollectOne(ips, left, enabled);
      left := left[1..];
      var config := GetNetworkIPConfig(addresses[i]);
      if config.Err? {
        return Err(config.error);
      }
      var (dni, dhcp) := config.value;
      if dhcpByUser.Some? {
        dhcpEnabled := dhcpByUser.value;
      }
      if dhcpEnabled {
        dni := dni.(dhcp := Some(dhcp));
      } else {
        dni := dni.(dhcp := None);
      }
      ips := ips + [dni];
    }
    assert left == [];
    CollectNone(ips, addresses, enabled);
    r := Ok(ips);
  }

  // ---------------------------------------------------------------- a CIDR that goes wrong

  /** "::ffff:10.0.0.0/120" is accepted, and neither its range nor its layout is right. */
  lemma MappedCidrGoesWrong(n: IPNet)
    requires n == IPNet([0, 0, 0, 0, 0, 0, 0, 0, 0, 0, 255, 255, 10, 0, 0, 0], 120, 128)
    ensures Parsed(n) && Mapped(n.ip) && IPConfig(Some(n)).Ok?
    ensures !RangeIsExact(n) && !LayoutIsRight(n, IPConfig(Some(n)).value)
  {
    PrefixOfMappedCidr(n.ip);
    RangeIsExactIffNotMapped(n);
    LayoutIsRightIffNotMapped(n);
  }

  lemma PrefixOfMappedCidr(ip: Bytes)
    requires |ip| == 16 && ip[15] == 0
    ensures Masked(ip, 120) == ip
  {
    var mask := CIDRMask(120, 16);
    forall i | 0 <= i < 16 ensures ip[i] & mask[i] == ip[i] { MaskOfMapped(ip[i], i); }
  }

  lemma MaskOfMapped(b: bv8, i: nat)
    requires i < 16 && (i == 15 ==> b == 0)
    ensures b & CIDRMask(120, 16)[i] == b
  {
    if i < 15 { MaskedOfFullPrefix(b); }
  }
}
