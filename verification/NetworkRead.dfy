/** Reading networks back: the CIDR behind each host address, and which subnet an address belongs to. */
module NetworkRead {
  import opened Wrappers
  import opened Addresses
  import opened Subnets

  /** A CIDR as it is printed: the bytes of the address, no bytes for nil, and the prefix. */
  datatype PrintedCidr = PrintedCidr(network: Bytes, prefix: nat)

  /** net.CIDRMask is nil when the prefix does not fit. */
  function CheckedCIDRMask(ones: nat, bits: nat): Bytes {
    if bits % 8 == 0 && ones <= bits then CIDRMask(ones, bits / 8) else []
  }

  /** The CIDR of one entry; an IPv4 address is told by To4, whatever the entry's family says. */
  function ReadAddress(ip: NetworkIP): PrintedCidr {
    var bits := if |ip.address| == 4 || Mapped(ip.address) then 32 else 128;
    PrintedCidr(MaskIP(ip.address, CheckedCIDRMask(ip.prefix, bits)), ip.prefix)
  }

  function ReadAddresses(ips: seq<NetworkIP>): (r: seq<PrintedCidr>)
    ensures |r| == |ips| && forall i :: 0 <= i < |ips| ==> r[i] == ReadAddress(ips[i])
  {
    seq(|ips|, i requires 0 <= i < |ips| => ReadAddress(ips[i]))
  }

  /** An address of no other length stands for text that does not parse. */
  predicate ParsesAsIP(address: Bytes) {
    |address| == 4 || |address| == 16
  }

  datatype AddressError = UnparsableAddress(index: nat)

  /** The loop of the network read. */
  method ReadNetworkAddresses(ips: seq<NetworkIP>) returns (r: Result<seq<PrintedCidr>, AddressError>)
    ensures r.Ok? <==> forall i :: 0 <= i < |ips| ==> ParsesAsIP(ips[i].address)
    ensures r.Ok? ==> r.value == ReadAddresses(ips)
    ensures r.Err? ==>
              && r.error.index < |ips| && !ParsesAsIP(ips[r.error.index].address)
              && forall i :: 0 <= i < r.error.index ==> ParsesAsIP(ips[i].address)
  {
    var addresses := [];
    for i := 0 to |ips|
      invariant forall j :: 0 <= j < i ==> ParsesAsIP(ips[j].address)
      invariant |addresses| == i && forall j :: 0 <= j < i ==> addresses[j] == ReadAddress(ips[j])
    {
      var addr := ips[i].address;
      if !ParsesAsIP(addr) {
        return Err(UnparsableAddress(i));
      }
      var bits := 16 * 8;
      if |addr| == 4 || Mapped(addr) {
        bits := 4 * 8;
      }
      var mask := CheckedCIDRMask(ips[i].prefix, bits);
      addresses := addresses + [PrintedCidr(MaskIP(addr, mask), ips[i].prefix)];
    }
    r := Ok(addresses);
  }

  /** What is read of any entry that parses: the number of its address, in IPv4 where it is one, rounded down
      to its prefix; nil where the prefix does not fit. */
  lemma ReadAddressMeans(entry: NetworkIP)
    requires ParsesAsIP(entry.address)
    ensures var a, read := Unmapped(entry.address), ReadAddress(entry);
            && read.prefix == entry.prefix
            && if entry.prefix <= 8 * |a| then
                 && |read.network| == |a|
                 && Value(read.network) == Block(Value(a), Pow2(8 * |a| - entry.prefix))
               else read.network == []
  {
    var a := Unmapped(entry.address);
    if entry.prefix <= 8 * |a| {
      MaskedValue(a, entry.prefix);
      assert ReadAddress(entry).network == Masked(a, entry.prefix);
    }
  }

  /** The canonical form of a configured CIDR. */
  function Canonical(n: IPNet): PrintedCidr {
    PrintedCidr(n.ip, n.ones)
  }

  lemma BumpedInsideSubnet(n: IPNet)
    requires Parsed(n) && HostBits(n) >= MINIMUM_SUBNET_BITS
    ensures Masked(Bumped(n.ip, 1), n.ones) == n.ip
    ensures Mapped(Bumped(n.ip, 1)) <==> Mapped(n.ip)
  {
    HostAfterNetwork(n);
    MaskedValue(n.ip, n.ones);
    MaskedValue(Bumped(n.ip, 1), n.ones);
    Pow2Monotone(1, HostBits(n));
    assert Pow2(1) == 2;
    InsideBlock(Value(n.ip), Pow2(HostBits(n)), 1);
    ValueInjective(Masked(Bumped(n.ip, 1), n.ones), n.ip);
  }

  /** Masking the host address chosen at creation with the stored prefix gives back the canonical CIDR
      exactly when the network is not IPv4-mapped. */
  lemma AddressRoundTrip(n: IPNet, enabled: bool)
    requires Parsed(n) && IPConfig(Some(n)).Ok?
    ensures ReadAddress(WithDhcp(IPConfig(Some(n)).value, enabled)) == Canonical(n) <==> !Mapped(n.ip)
  {
    FirstIPNotNil(n);
    if Mapped(n.ip) {
      MappedPrefix(n);
      MappedRange(n);
    } else {
      UnmappedRange(n);
      BumpedInsideSubnet(n);
      var host := Bumped(n.ip, 1);
      assert MaskIP(host, CIDRMask(n.ones, |host|)) == Masked(host, n.ones);
    }
  }

  /** CIDRs that are accepted at creation. */
  ghost predicate Accepted(nets: seq<IPNet>) {
    forall n :: n in nets ==> Parsed(n) && IPConfig(Some(n)).Ok?
  }

  function Parseds(nets: seq<IPNet>): (r: seq<Option<IPNet>>)
    ensures |r| == |nets| && forall i :: 0 <= i < |nets| ==> r[i] == Some(nets[i])
  {
    seq(|nets|, i requires 0 <= i < |nets| => Some(nets[i]))
  }

  function Canonicals(nets: seq<IPNet>): (r: seq<PrintedCidr>)
    ensures |r| == |nets| && forall i :: 0 <= i < |nets| ==> r[i] == Canonical(nets[i])
  {
    seq(|nets|, i requires 0 <= i < |nets| => Canonical(nets[i]))
  }

  /** The network entry of each accepted CIDR. */
  ghost function Entries(nets: seq<IPNet>, enabled: bool): (r: seq<NetworkIP>)
    requires Accepted(nets)
    ensures |r| == |nets| && forall i :: 0 <= i < |nets| ==> r[i] == WithDhcp(IPConfig(Some(nets[i])).value, enabled)
  {
    seq(|nets|, i requires 0 <= i < |nets| => WithDhcp(IPConfig(Some(nets[i])).value, enabled))
  }

  /** Creating a network from accepted CIDRs makes these entries. */
  lemma {:induction false} CreatedEntries(nets: seq<IPNet>, enabled: bool)
    requires Accepted(nets)
    ensures NetworkIPs(Parseds(nets), enabled) == Ok(Entries(nets, enabled))
  {
    if nets == [] {
    } else {
      CreatedEntries(nets[1..], enabled);
      assert Parseds(nets)[1..] == Parseds(nets[1..]);
      assert Entries(nets, enabled) == [WithDhcp(IPConfig(Some(nets[0])).value, enabled)] + Entries(nets[1..], enabled);
    }
  }

  /** Creating a network from accepted addresses and reading it back gives the canonical addresses, in
      order, exactly when none of them is IPv4-mapped. */
  lemma AddressesRoundTrip(nets: seq<IPNet>, enabled: bool)
    requires Accepted(nets)
    ensures forall i :: 0 <= i < |nets| ==> ParsesAsIP(Entries(nets, enabled)[i].address)
    ensures ReadAddresses(Entries(nets, enabled)) == Canonicals(nets)
            <==> forall i :: 0 <= i < |nets| ==> !Mapped(nets[i].ip)
  {
    var read := ReadAddresses(Entries(nets, enabled));
    forall i | 0 <= i < |nets| ensures read[i] == Canonicals(nets)[i] <==> !Mapped(nets[i].ip) {
      AddressRoundTrip(nets[i], enabled);
    }
    forall i | 0 <= i < |nets| ensures ParsesAsIP(Entries(nets, enabled)[i].address) { FirstIPNotNil(nets[i]); }
  }

  // ---------------------------------------------------------------- which subnet

  /** "address/prefix" of a network entry, parsed: None when it does not parse. */
  function SubnetOf(ip: NetworkIP): (r: Option<IPNet>)
    ensures r.Some? ==> Parsed(r.value)
  {
    if ParsesAsIP(ip.address) && ip.prefix <= 8 * |ip.address| then
      MaskingTwice(ip.address, ip.prefix);
      Some(IPNet(Masked(ip.address, ip.prefix), ip.prefix, 8 * |ip.address|))
    else None
  }

  lemma MaskingTwice(ip: Bytes, ones: nat)
    requires ones <= 8 * |ip|
    ensures Masked(Masked(ip, ones), ones) == Masked(ip, ones)
  {
    var mask := CIDRMask(ones, |ip|);
    forall i | 0 <= i < |ip| ensures Masked(Masked(ip, ones), ones)[i] == Masked(ip, ones)[i] {
      AndTwice(ip[i], mask[i]);
    }
  }

  lemma AndTwice(b: bv8, m: bv8)
    ensures (b & m) & m == b & m
  {
  }

  /** Equal under a mask. */
  predicate Agree(a: Bytes, b: Bytes, mask: Bytes)
    requires |a| == |b|
  {
    |mask| == |a| && forall i :: 0 <= i < |a| ==> a[i] & mask[i] == b[i] & mask[i]
  }

  /** IPNet.Contains for a 4- or 16-byte address, or none: compare the masked bytes of equal-length forms. */
  predicate Contains(n: IPNet, ip: Bytes)
    requires Parsed(n)
  {
    var number, x := Unmapped(n.ip), Unmapped(ip);
    var mask := if |number| == 4 && |Mask(n)| == 16 then Mask(n)[12..] else Mask(n);
    |x| == |number| && Agree(number, x, mask)
  }

  datatype IdxError = NoNetwork | BadEntry(index: nat)

  /** What the search may return: the least index whose subnet contains the address; -1 without an error
      only if no subnet does; an error at the first entry that does not parse, if nothing was found before it. */
  ghost predicate IsNetworkIdx(entries: seq<NetworkIP>, ip: Bytes, xmlIdx: int, err: Option<IdxError>) {
    match err
    case Some(NoNetwork) => false
    case Some(BadEntry(bad)) =>
      && xmlIdx == -1
      && bad < |entries| && SubnetOf(entries[bad]).None?
      && forall j :: 0 <= j < bad ==> Misses(entries[j], ip)
    case None =>
      if xmlIdx == -1 then forall j :: 0 <= j < |entries| ==> Misses(entries[j], ip)
      else
        && 0 <= xmlIdx < |entries|
        && SubnetOf(entries[xmlIdx]).Some? && Contains(SubnetOf(entries[xmlIdx]).value, ip)
        && forall j :: 0 <= j < xmlIdx ==> Misses(entries[j], ip)
  }

  /** The entry parses and its subnet does not contain the address. */
  predicate Misses(entry: NetworkIP, ip: Bytes) {
    SubnetOf(entry).Some? && !Contains(SubnetOf(entry).value, ip)
  }

  lemma SameMaskedBytes(number: Bytes, x: Bytes, ones: nat)
    requires |number| == |x| && ones <= 8 * |x| && Masked(number, ones) == number
    ensures Masked(x, ones) == number <==> Block(Value(x), Pow2(8 * |x| - ones)) == Value(number)
  {
    MaskedValue(x, ones);
    if Value(Masked(x, ones)) == Value(number) { ValueInjective(Masked(x, ones), number); }
  }

  lemma MappedMask(n: IPNet)
    requires Parsed(n) && Mapped(n.ip)
    ensures n.ones >= 96 && Mask(n)[12..] == CIDRMask(n.ones - 96, 4)
    ensures Masked(n.ip[12..], n.ones - 96) == n.ip[12..]
  {
    MappedPrefix(n);
    assert Mask(n)[12..] == CIDRMask(n.ones - 96, 4);
    forall i | 0 <= i < 4 ensures Masked(n.ip[12..], n.ones - 96)[i] == n.ip[12..][i] {
      assert Masked(n.ip, n.ones)[12 + i] == n.ip[12 + i];
    }
  }

  lemma AgreeIsMasked(a: Bytes, b: Bytes, ones: nat)
    requires |a| == |b| && ones <= 8 * |a|
    ensures Agree(a, b, CIDRMask(ones, |a|)) <==> Masked(a, ones) == Masked(b, ones)
  {
    var mask := CIDRMask(ones, |a|);
    if Masked(a, ones) == Masked(b, ones) {
      forall i | 0 <= i < |a| ensures a[i] & mask[i] == b[i] & mask[i] {
        assert Masked(a, ones)[i] == Masked(b, ones)[i];
      }
    }
  }

  lemma AgreeIsSameBlock(number: Bytes, x: Bytes, ones: nat)
    requires |number| == |x| && ones <= 8 * |x| && Masked(number, ones) == number
    ensures Agree(number, x, CIDRMask(ones, |x|)) <==> Block(Value(x), Pow2(8 * |x| - ones)) == Value(number)
  {
    AgreeIsMasked(number, x, ones);
    SameMaskedBytes(number, x, ones);
  }

  /** Containment compares whole blocks of addresses, IPv4 with IPv4 and IPv6 with IPv6. */
  lemma ContainsIsSameBlock(n: IPNet, ip: Bytes)
    requires Parsed(n)
    ensures Contains(n, ip) <==>
            && |Unmapped(ip)| == |Unmapped(n.ip)|
            && Block(Value(Unmapped(ip)), Pow2(HostBits(n))) == Value(Unmapped(n.ip))
  {
    var number, x := Unmapped(n.ip), Unmapped(ip);
    if |x| == |number| {
      if Mapped(n.ip) {
        MappedMask(n);
        AgreeIsSameBlock(number, x, n.ones - 96);
      } else {
        AgreeIsSameBlock(number, x, n.ones);
      }
    }
  }

  /** An address as a number of its family: mapped IPv4 addresses are IPv4 addresses. */
  function NumberOf(length: nat, v: nat): (nat, nat) {
    if length == 16 && V4_IN_V6 <= v < V4_IN_V6 + 0x1_0000_0000 then (4, v - V4_IN_V6) else (length, v)
  }

  /** The entry is an address and a prefix that fits it. */
  predicate IsSubnet(entry: NetworkIP) {
    ParsesAsIP(entry.address) && entry.prefix <= 8 * |entry.address|
  }

  /** The address is of the family of the entry's subnet and in its block. */
  predicate Covers(entry: NetworkIP, ip: Bytes)
    requires IsSubnet(entry)
  {
    var p := Pow2(8 * |entry.address| - entry.prefix);
    var net := NumberOf(|entry.address|, Block(Value(entry.address), p));
    var x := NumberOf(|ip|, Value(ip));
    x.0 == net.0 && Block(x.1, p) == net.1
  }

  lemma NumberOfUnmapped(ip: Bytes)
    ensures NumberOf(|ip|, Value(ip)) == (|Unmapped(ip)|, Value(Unmapped(ip)))
  {
    if |ip| == 16 { MappedIsBlock(ip); }
  }

  lemma SubnetNumbers(entry: NetworkIP)
    requires IsSubnet(entry)
    ensures SubnetOf(entry).Some?
    ensures var n, h := SubnetOf(entry).value, 8 * |entry.address| - entry.prefix;
            n.ones <= n.bits && HostBits(n) == h && |n.ip| == |entry.address|
            && Value(n.ip) == Block(Value(entry.address), Pow2(h))
  {
    MaskedValue(entry.address, entry.prefix);
  }

  lemma ContainsNumber(n: IPNet, ip: Bytes)
    requires Parsed(n)
    ensures var x, net := NumberOf(|ip|, Value(ip)), NumberOf(|n.ip|, Value(n.ip));
            Contains(n, ip) <==> x.0 == net.0 && Block(x.1, Pow2(HostBits(n))) == net.1
  {
    NumberOfUnmapped(n.ip);
    NumberOfUnmapped(ip);
    ContainsIsSameBlock(n, ip);
  }

  lemma ContainsIsCovers(entry: NetworkIP, ip: Bytes)
    ensures SubnetOf(entry).Some? <==> IsSubnet(entry)
    ensures IsSubnet(entry) ==> (Contains(SubnetOf(entry).value, ip) <==> Covers(entry, ip))
  {
    if IsSubnet(entry) {
      SubnetNumbers(entry);
      ContainsNumber(SubnetOf(entry).value, ip);
    }
  }

  /** The result of the search in numbers: the least entry that covers the address. */
  ghost predicate IsLeastCovering(entries: seq<NetworkIP>, ip: Bytes, xmlIdx: int, err: Option<IdxError>) {
    var found := match err
                 case None => if xmlIdx == -1 then |entries| else xmlIdx
                 case Some(NoNetwork) => |entries|
                 case Some(BadEntry(bad)) => bad;
    && 0 <= found <= |entries|
    && (forall j :: 0 <= j < found ==> IsSubnet(entries[j]) && !Covers(entries[j], ip))
    && match err
       case Some(NoNetwork) => false
       case Some(BadEntry(_)) => xmlIdx == -1 && found < |entries| && !IsSubnet(entries[found])
       case None => xmlIdx == -1 || (found < |entries| && IsSubnet(entries[found]) && Covers(entries[found], ip))
  }

  lemma SearchMeans(entries: seq<NetworkIP>, ip: Bytes, xmlIdx: int, err: Option<IdxError>)
    requires IsNetworkIdx(entries, ip, xmlIdx, err)
    ensures IsLeastCovering(entries, ip, xmlIdx, err)
  {
    forall j | 0 <= j < |entries|
      ensures SubnetOf(entries[j]).Some? <==> IsSubnet(entries[j])
      ensures IsSubnet(entries[j]) ==> (Contains(SubnetOf(entries[j]).value, ip) <==> Covers(entries[j], ip))
    {
      ContainsIsCovers(entries[j], ip);
    }
  }

  /** `network` is None for a nil definition; `ip` is what net.ParseIP made of the address. */
  method GetNetworkIdx(network: Option<seq<NetworkIP>>, ip: Bytes) returns (xmlIdx: int, err: Option<IdxError>)
    ensures match network
            case None => xmlIdx == -1 && err == Some(NoNetwork)
            case Some(entries) => IsNetworkIdx(entries, ip, xmlIdx, err) && IsLeastCovering(entries, ip, xmlIdx, err)
  {
    xmlIdx, err := -1, None;
    if network.None? {
      return -1, Some(NoNetwork);
    }
    for idx := 0 to |network.value|
      invariant xmlIdx == -1 && err.None?
      invariant forall j :: 0 <= j < idx ==> Misses(network.value[j], ip)
    {
      var netw := SubnetOf(network.value[idx]);
      if netw.None? {
        SearchMeans(network.value, ip, -1, Some(BadEntry(idx)));
        return -1, Some(BadEntry(idx));
      }
      if Contains(netw.value, ip) {
        xmlIdx := idx;
        break;
      }
    }
    SearchMeans(network.value, ip, xmlIdx, err);
  }

  /** The addresses of a subnet, as numbers. */
  ghost predicate InSubnet(n: IPNet, length: nat, v: nat) {
    && n.ones <= n.bits
    && length == |n.ip| && Value(n.ip) <= v < Value(n.ip) + Pow2(HostBits(n))
  }

  ghost predicate Disjoint(a: IPNet, b: IPNet) {
    forall length: nat, v: nat :: !(InSubnet(a, length, v) && InSubnet(b, length, v))
  }

  lemma SameBlockIsInSubnet(n: IPNet, ip: Bytes)
    requires Parsed(n) && |ip| == |n.ip|
    ensures Block(Value(ip), Pow2(HostBits(n))) == Value(n.ip) <==> InSubnet(n, |ip|, Value(ip))
  {
    MaskedValue(n.ip, n.ones);
    SameBlock(Value(ip), Pow2(HostBits(n)), Value(n.ip));
  }

  lemma SameBlock(v: nat, p: nat, base: nat)
    requires p > 0 && Block(base, p) == base
    ensures Block(v, p) == base <==> base <= v < base + p
  {
    assert v == v / p * p + v % p;
    if base <= v < base + p { InsideBlock(base, p, v - base); }
  }

  /** The subnet of an entry made from a CIDR is the network of that CIDR. */
  lemma EntrySubnet(n: IPNet, enabled: bool)
    requires Parsed(n) && !Mapped(n.ip) && IPConfig(Some(n)).Ok?
    ensures SubnetOf(WithDhcp(IPConfig(Some(n)).value, enabled)) == Some(n)
  {
    FirstIPNotNil(n);
    UnmappedRange(n);
    BumpedInsideSubnet(n);
  }

  /** Accepted CIDRs, none IPv4-mapped, no two sharing an address. */
  ghost predicate DisjointSubnets(nets: seq<IPNet>) {
    && Accepted(nets)
    && (forall n :: n in nets ==> !Mapped(n.ip))
    && (forall a, b :: 0 <= a < b < |nets| ==> Disjoint(nets[a], nets[b]))
  }

  lemma DhcpAddressIsInOneEntry(nets: seq<IPNet>, enabled: bool, i: nat, ip: Bytes, j: nat)
    requires DisjointSubnets(nets)
    requires i < |nets| && j < |nets| && InDhcpRange(nets[i], ip)
    ensures SubnetOf(Entries(nets, enabled)[j]).Some?
    ensures Contains(SubnetOf(Entries(nets, enabled)[j]).value, ip) <==> j == i
  {
    var x := Unmapped(ip);
    var n, m := nets[i], nets[j];
    assert n in nets && m in nets;
    EntrySubnet(m, enabled);
    ContainsIsSameBlock(m, ip);
    DhcpRangeIsSane(n);
    assert InSubnet(n, |x|, Value(x));
    if |x| == |m.ip| { SameBlockIsInSubnet(m, x); }
  }

  ghost predicate InDhcpRange(n: IPNet, ip: Bytes)
    requires Parsed(n) && IPConfig(Some(n)).Ok?
  {
    var range := IPConfig(Some(n)).value.1;
    |Unmapped(ip)| == |n.ip| && Value(range.start) <= Value(Unmapped(ip)) <= Value(range.end)
  }

  /** On a network created from pairwise disjoint subnets, the search for an address of the i-th DHCP
      range returns i. */
  lemma DhcpAddressMapsToItsEntry(nets: seq<IPNet>, enabled: bool, i: nat, ip: Bytes, xmlIdx: int,
                                  err: Option<IdxError>)
    requires DisjointSubnets(nets)
    requires i < |nets| && InDhcpRange(nets[i], ip)
    requires IsNetworkIdx(Entries(nets, enabled), ip, xmlIdx, err)
    ensures xmlIdx == i && err.None?
  {
    DhcpAddressIsInOneEntry(nets, enabled, i, ip, i);
    if err.Some? {
      DhcpAddressIsInOneEntry(nets, enabled, i, ip, err.value.index);
    } else if xmlIdx != -1 {
      DhcpAddressIsInOneEntry(nets, enabled, i, ip, xmlIdx);
    }
  }
}
