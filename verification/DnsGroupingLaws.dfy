/** Grouping the configured pairs by IP and flattening libvirt's entries undo each other. */
module DnsGroupingLaws {
  import opened GoStrings
  import opened DnsHosts

  lemma {:induction false} NamesMultiplicity(pairs: seq<HostPair>, ip: string, hostname: string)
    ensures multiset(NamesOf(pairs, ip))[hostname] == multiset(pairs)[HostPair(ip, hostname)]
  {
    if pairs == [] {
    } else {
      var last := |pairs| - 1;
      assert pairs == pairs[..last] + [pairs[last]];
      NamesMultiplicity(pairs[..last], ip, hostname);
    }
  }

  lemma NamesOfRearranged(a: seq<HostPair>, b: seq<HostPair>, ip: string)
    requires multiset(a) == multiset(b)
    ensures multiset(NamesOf(a, ip)) == multiset(NamesOf(b, ip))
  {
    forall hostname: string ensures multiset(NamesOf(a, ip))[hostname] == multiset(NamesOf(b, ip))[hostname] {
      NamesMultiplicity(a, ip, hostname);
      NamesMultiplicity(b, ip, hostname);
    }
  }

  lemma IpsRearranged(a: seq<HostPair>, b: seq<HostPair>)
    requires multiset(a) == multiset(b)
    ensures Ips(a) == Ips(b)
  {
    assert forall p :: p in a <==> p in multiset(a);
    assert forall p :: p in b <==> p in multiset(b);
  }

  /** The grouping does not depend on the order in which the set of pairs is enumerated. */
  lemma GroupingForgetsOrder(a: seq<HostPair>, b: seq<HostPair>)
    requires multiset(a) == multiset(b)
    ensures Grouped(a) == Grouped(b)
  {
    IpsRearranged(a, b);
    forall ip | ip in Ips(a) ensures Grouped(a)[ip] == Grouped(b)[ip] {
      NamesOfRearranged(a, b, ip);
      SortForgetsOrder(NamesOf(a, ip), NamesOf(b, ip));
    }
  }

  /** The create path and the update path agree but for the order of the hostnames of an IP. */
  lemma CreateAgreesWithUpdate(pairs: seq<HostPair>)
    ensures Collected(pairs).Keys == Grouped(pairs).Keys
    ensures forall ip :: ip in Collected(pairs) ==> multiset(Collected(pairs)[ip]) == multiset(Grouped(pairs)[ip])
  {
    forall ip | ip in Collected(pairs) ensures multiset(Collected(pairs)[ip]) == multiset(Grouped(pairs)[ip]) {
      SortedSorts(NamesOf(pairs, ip));
    }
  }

  // ---------------------------------------------------------------- flatten after group

  /** One entry is flattened hostname by hostname. */
  lemma FlattenOne(entry: DnsHost)
    ensures Flatten([entry]) == PairsOf(entry)
  {
    assert Flatten([]) + PairsOf(entry) == PairsOf(entry);
  }

  /** Entries are flattened one after the other. */
  lemma {:induction false} FlattenGoesInOrder(a: seq<DnsHost>, b: seq<DnsHost>)
    ensures Flatten(a + b) == Flatten(a) + Flatten(b)
  {
    if b == [] {
      assert a + b == a;
    } else {
      var front, last := b[..|b| - 1], b[|b| - 1];
      assert (a + b)[..|a + b| - 1] == a + front;
      FlattenGoesInOrder(a, front);
      assert Flatten(a) + Flatten(front) + PairsOf(last) == Flatten(a) + (Flatten(front) + PairsOf(last));
    }
  }

  lemma {:induction false} NamesOfConcat(a: seq<HostPair>, b: seq<HostPair>, ip: string)
    ensures NamesOf(a + b, ip) == NamesOf(a, ip) + NamesOf(b, ip)
    decreases |b|
  {
    if b == [] {
      assert a + b == a;
    } else {
      var last := |b| - 1;
      assert (a + b)[..|a + b| - 1] == a + b[..last];
      NamesOfConcat(a, b[..last], ip);
    }
  }

  lemma {:induction false} NamesOfSingle(ip: string, names: seq<string>, other: string)
    ensures NamesOf(PairsOf(DnsHost(ip, names)), other) == if other == ip then names else []
  {
    if names == [] {
    } else {
      var last := |names| - 1;
      assert PairsOf(DnsHost(ip, names))[..last] == PairsOf(DnsHost(ip, names[..last]));
      NamesOfSingle(ip, names[..last], other);
      assert names == names[..last] + [names[last]];
    }
  }

  lemma FlattenLast(front: seq<DnsHost>, last: DnsHost, ip: string)
    ensures NamesOf(Flatten(front + [last]), ip) ==
            NamesOf(Flatten(front), ip) + if last.ip == ip then last.hostnames else []
  {
    assert (front + [last])[..|front|] == front;
    NamesOfConcat(Flatten(front), PairsOf(last), ip);
    NamesOfSingle(last.ip, last.hostnames, ip);
  }

  lemma FrontIsDistinct(front: seq<DnsHost>, last: DnsHost)
    requires DistinctIps(front + [last])
    ensures DistinctIps(front) && forall e :: e in front ==> e.ip != last.ip
  {
    var entries := front + [last];
    assert entries[|front|] == last && forall i :: 0 <= i < |front| ==> entries[i] == front[i];
    forall i, j | 0 <= i < j < |front| ensures front[i].ip != front[j].ip { assert entries[i].ip != entries[j].ip; }
  }

  /** The names flattened under an IP are those of its entry, in order; entries have one IP each. */
  lemma {:induction false} NamesOfFlattened(entries: seq<DnsHost>, ip: string)
    requires DistinctIps(entries)
    ensures forall e :: e in entries && e.ip == ip ==> NamesOf(Flatten(entries), ip) == e.hostnames
    ensures (forall e :: e in entries ==> e.ip != ip) ==> NamesOf(Flatten(entries), ip) == []
  {
    if entries == [] {
    } else {
      var front, last := entries[..|entries| - 1], entries[|entries| - 1];
      assert entries == front + [last];
      FrontIsDistinct(front, last);
      NamesOfFlattened(front, ip);
      FlattenLast(front, last, ip);
    }
  }

  /** Flattening the grouped entries gives back the pairs, each as often as it was configured. */
  lemma FlattenUndoesGrouping(pairs: seq<HostPair>, entries: seq<DnsHost>)
    requires Lists(entries, Grouped(pairs))
    ensures multiset(Flatten(entries)) == multiset(pairs)
  {
    forall p: HostPair ensures multiset(Flatten(entries))[p] == multiset(pairs)[p] {
      NamesMultiplicity(pairs, p.ip, p.hostname);
      NamesMultiplicity(Flatten(entries), p.ip, p.hostname);
      NamesOfFlattened(entries, p.ip);
      NamesOfAbsentIp(pairs, p.ip);
      SortedSorts(NamesOf(pairs, p.ip));
      if p.ip in Grouped(pairs) {
        assert DnsHost(p.ip, Grouped(pairs)[p.ip]) in entries;
      }
    }
  }

  // ---------------------------------------------------------------- group after flatten

  lemma IpsOfFlattened(entries: seq<DnsHost>, ip: string)
    requires DistinctIps(entries)
    requires forall e :: e in entries ==> e.hostnames != []
    ensures ip in Ips(Flatten(entries)) <==> exists e :: e in entries && e.ip == ip
  {
    NamesOfAbsentIp(Flatten(entries), ip);
    NamesOfFlattened(entries, ip);
  }

  /** A table with one entry per IP, each with sorted hostnames and at least one of them, is what grouping
      its flattened pairs gives. */
  lemma GroupingUndoesFlatten(entries: seq<DnsHost>)
    requires DistinctIps(entries)
    requires forall e :: e in entries ==> e.hostnames != [] && IsSorted(e.hostnames)
    ensures Lists(entries, Grouped(Flatten(entries)))
  {
    var pairs := Flatten(entries);
    forall ip: string
      ensures ip in Grouped(pairs) <==> exists e :: e in entries && e.ip == ip
      ensures forall e :: e in entries && e.ip == ip ==> ip in Grouped(pairs) && Grouped(pairs)[ip] == e.hostnames
    {
      IpsOfFlattened(entries, ip);
      NamesOfFlattened(entries, ip);
      forall e | e in entries && e.ip == ip ensures Grouped(pairs)[ip] == e.hostnames { SortIsIdempotent(e.hostnames); }
    }
    forall ip | ip in Grouped(pairs) ensures DnsHost(ip, Grouped(pairs)[ip]) in entries {
      var e :| e in entries && e.ip == ip;
      assert e == DnsHost(ip, Grouped(pairs)[ip]);
    }
  }
}
