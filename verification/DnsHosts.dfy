/** DNS hosts of a network: the (ip, hostname) pairs of the configuration and the entries of libvirt,
    one per IP. */
module DnsHosts {
  import opened Wrappers
  import opened GoStrings

  /** One "hosts" block. A set of them is enumerated in some order. */
  datatype HostPair = HostPair(ip: string, hostname: string)

  datatype DnsHost = DnsHost(ip: string, hostnames: seq<string>)

  // ---------------------------------------------------------------- grouping

  function Ips(pairs: seq<HostPair>): set<string> {
    set p | p in pairs :: p.ip
  }

  /** The hostnames given for an IP, in order. */
  function NamesOf(pairs: seq<HostPair>, ip: string): seq<string> {
    if pairs == [] then []
    else
      var last := pairs[|pairs| - 1];
      NamesOf(pairs[..|pairs| - 1], ip) + if last.ip == ip then [last.hostname] else []
  }

  /** Hostnames in enumeration order, as the create path leaves them. */
  function Collected(pairs: seq<HostPair>): map<string, seq<string>> {
    map ip | ip in Ips(pairs) :: NamesOf(pairs, ip)
  }

  function SortEach(table: map<string, seq<string>>): (r: map<string, seq<string>>)
    ensures r.Keys == table.Keys
  {
    map ip | ip in table :: Sorted(table[ip])
  }

  /** Hostnames sorted, as the update path has them. */
  function Grouped(pairs: seq<HostPair>): map<string, seq<string>> {
    SortEach(Collected(pairs))
  }

  ghost predicate DistinctIps(entries: seq<DnsHost>) {
    forall i, j :: 0 <= i < j < |entries| ==> entries[i].ip != entries[j].ip
  }

  /** The entries are those of the table, one per IP, in some order. */
  ghost predicate Lists(entries: seq<DnsHost>, table: map<string, seq<string>>) {
    && DistinctIps(entries)
    && (forall e :: e in entries ==> e.ip in table && table[e.ip] == e.hostnames)
    && (forall ip :: ip in table ==> DnsHost(ip, table[ip]) in entries)
  }

  lemma NamesGrow(pairs: seq<HostPair>, i: nat, ip: string)
    requires i < |pairs|
    ensures NamesOf(pairs[..i + 1], ip) ==
            NamesOf(pairs[..i], ip) + if pairs[i].ip == ip then [pairs[i].hostname] else []
    ensures Ips(pairs[..i + 1]) == Ips(pairs[..i]) + {pairs[i].ip}
  {
    assert pairs[..i + 1] == pairs[..i] + [pairs[i]];
  }

  lemma {:induction false} NamesOfAbsentIp(pairs: seq<HostPair>, ip: string)
    ensures NamesOf(pairs, ip) == [] <==> ip !in Ips(pairs)
  {
    if pairs == [] {
    } else {
      var last := |pairs| - 1;
      assert pairs == pairs[..last] + [pairs[last]];
      NamesOfAbsentIp(pairs[..last], ip);
    }
  }

  /** Appending a hostname to what its IP has so far. */
  function WithHostname(byIp: map<string, seq<string>>, p: HostPair): map<string, seq<string>> {
    byIp[p.ip := (if p.ip in byIp then byIp[p.ip] else []) + [p.hostname]]
  }

  lemma CollectedGrows(pairs: seq<HostPair>, i: nat)
    requires i < |pairs|
    ensures Collected(pairs[..i + 1]) == WithHostname(Collected(pairs[..i]), pairs[i])
  {
    var after, expected := Collected(pairs[..i + 1]), WithHostname(Collected(pairs[..i]), pairs[i]);
    forall ip: string
      ensures ip in after <==> ip in expected
      ensures ip in after ==> after[ip] == expected[ip]
    {
      NamesGrow(pairs, i, ip);
      NamesOfAbsentIp(pairs[..i], ip);
    }
  }

  /** The entries are those of some IPs of the table. */
  ghost predicate ListsSome(entries: seq<DnsHost>, table: map<string, seq<string>>, ips: set<string>) {
    && DistinctIps(entries)
    && (forall e :: e in entries ==> e.ip in table && e.ip in ips && table[e.ip] == e.hostnames)
    && (forall ip :: ip in table && ip in ips ==> DnsHost(ip, table[ip]) in entries)
  }

  lemma ListOneMore(entries: seq<DnsHost>, table: map<string, seq<string>>, ips: set<string>, ip: string)
    requires ListsSome(entries, table, ips) && ip in table && ip !in ips
    ensures ListsSome(entries + [DnsHost(ip, table[ip])], table, ips + {ip})
  {
    var entry := DnsHost(ip, table[ip]);
    assert entry in entries + [entry];
  }

  /** The update path: IPs are visited in an arbitrary order, hostnames are sorted. */
  method ParseNetworkDNSHostsChange(pairs: seq<HostPair>) returns (entries: seq<DnsHost>)
    ensures Lists(entries, Grouped(pairs))
    ensures forall e :: e in entries ==> InOrder(e.hostnames)
  {
    var mapEntries: map<string, seq<string>> := map[];
    for i := 0 to |pairs|
      invariant mapEntries == Collected(pairs[..i])
    {
      CollectedGrows(pairs, i);
      mapEntries := WithHostname(mapEntries, pairs[i]);
    }
    assert pairs[..|pairs|] == pairs;
    entries := [];
    ghost var table := SortEach(mapEntries);
    var unvisited := mapEntries.Keys;
    ghost var visited: set<string> := {};
    while unvisited != {}
      invariant visited + unvisited == table.Keys && visited !! unvisited
      invariant ListsSome(entries, table, visited)
      invariant forall e :: e in entries ==> InOrder(e.hostnames)
      decreases unvisited
    {
      var ip :| ip in unvisited;
      ListOneMore(entries, table, visited, ip);
      SortedIsInOrder(mapEntries[ip]);
      entries := entries + [DnsHost(ip, Sorted(mapEntries[ip]))];
      visited, unvisited := visited + {ip}, unvisited - {ip};
    }
  }

  datatype DnsError = UnparsableAddress(address: string)

  /** The first pair whose address does not parse. */
  ghost predicate IsFirstUnparsable(pairs: seq<HostPair>, parses: set<string>, i: nat) {
    i < |pairs| && pairs[i].ip !in parses && forall j :: 0 <= j < i ==> pairs[j].ip in parses
  }

  /** The create path: addresses must parse, hostnames keep their order. */
  method GetDNSHostsFromResource(pairs: seq<HostPair>, parses: set<string>) returns (r: Result<seq<DnsHost>, DnsError>)
    ensures r.Ok? <==> forall i :: 0 <= i < |pairs| ==> pairs[i].ip in parses
    ensures r.Ok? ==> Lists(r.value, Collected(pairs))
    ensures r.Err? ==> exists i: nat :: IsFirstUnparsable(pairs, parses, i) && r.error == UnparsableAddress(pairs[i].ip)
  {
    var dnsHostsMap: map<string, seq<string>> := map[];
    for i := 0 to |pairs|
      invariant forall j :: 0 <= j < i ==> pairs[j].ip in parses
      invariant dnsHostsMap == Collected(pairs[..i])
    {
      var address := pairs[i].ip;
      if address !in parses {
        assert IsFirstUnparsable(pairs, parses, i);
        return Err(UnparsableAddress(address));
      }
      CollectedGrows(pairs, i);
      dnsHostsMap := WithHostname(dnsHostsMap, pairs[i]);
    }
    assert pairs[..|pairs|] == pairs;
    var dnsHosts: seq<DnsHost> := [];
    var unvisited := dnsHostsMap.Keys;
    ghost var visited: set<string> := {};
    while unvisited != {}
      invariant visited + unvisited == dnsHostsMap.Keys && visited !! unvisited
      invariant ListsSome(dnsHosts, dnsHostsMap, visited)
      decreases unvisited
    {
      var ip :| ip in unvisited;
      ListOneMore(dnsHosts, dnsHostsMap, visited, ip);
      dnsHosts := dnsHosts + [DnsHost(ip, dnsHostsMap[ip])];
      visited, unvisited := visited + {ip}, unvisited - {ip};
    }
    r := Ok(dnsHosts);
  }

  // ---------------------------------------------------------------- flattening

  function PairsOf(entry: DnsHost): (r: seq<HostPair>)
    ensures |r| == |entry.hostnames| && forall i :: 0 <= i < |r| ==> r[i] == HostPair(entry.ip, entry.hostnames[i])
  {
    seq(|entry.hostnames|, i requires 0 <= i < |entry.hostnames| => HostPair(entry.ip, entry.hostnames[i]))
  }

  /** The pairs of all entries, entry by entry. */
  function Flatten(entries: seq<DnsHost>): seq<HostPair> {
    if entries == [] then [] else Flatten(entries[..|entries| - 1]) + PairsOf(entries[|entries| - 1])
  }

  /** The DNS loop of the network read. */
  method FlattenHosts(hosts: seq<DnsHost>) returns (hostsBlock: seq<HostPair>)
    ensures hostsBlock == Flatten(hosts)
  {
    hostsBlock := [];
    for i := 0 to |hosts|
      invariant hostsBlock == Flatten(hosts[..i])
    {
      assert hosts[..i + 1][..i] == hosts[..i];
      var host := hosts[i];
      ghost var before := hostsBlock;
      for j := 0 to |host.hostnames|
        invariant hostsBlock == before + PairsOf(host)[..j]
      {
        hostsBlock := hostsBlock + [HostPair(host.ip, host.hostnames[j])];
      }
    }
    assert hosts[..|hosts|] == hosts;
  }
}
