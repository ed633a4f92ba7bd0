/** What a failed reconciliation of DNS hosts leaves behind can be read back and brought to any new table. */
module DnsRecovery {
  import opened GoStrings
  import opened DnsGroupingLaws
  import opened DnsHosts
  import opened DnsUpdate
  import opened DnsUpdateLaws

  ghost predicate HasNames(entries: seq<DnsHost>) {
    forall e :: e in entries ==> e.hostnames != []
  }

  /** A live table is the grouping of what is read from it, in whatever order libvirt has the hostnames. */
  lemma ReadBackIsLive(entries: seq<DnsHost>)
    requires DistinctIps(entries) && HasNames(entries)
    ensures Live(entries, Grouped(Flatten(entries)))
  {
    forall ip: string ensures ip in IpSet(entries) <==> ip in Ips(Flatten(entries)) {
      IpsOfFlattened(entries, ip);
    }
    forall e | e in entries ensures multiset(e.hostnames) == multiset(Grouped(Flatten(entries))[e.ip]) {
      NamesOfFlattened(entries, e.ip);
      SortedSorts(e.hostnames);
      assert e.ip in IpSet(entries);
    }
  }

  lemma GroupsHaveNames(pairs: seq<HostPair>, ip: string)
    requires ip in Grouped(pairs)
    ensures |multiset(Grouped(pairs)[ip])| > 0
  {
    NamesOfAbsentIp(pairs, ip);
    SortedSorts(NamesOf(pairs, ip));
  }

  lemma StoppedTableHasNames(oldPairs: seq<HostPair>, newPairs: seq<HostPair>, before: seq<DnsHost>,
                             hosts: seq<DnsHost>)
    requires Live(before, Grouped(oldPairs))
    requires Between(before, Grouped(oldPairs), Grouped(newPairs), hosts)
    ensures HasNames(hosts)
  {
    forall e | e in hosts ensures e.hostnames != [] {
      if e in before {
        GroupsHaveNames(oldPairs, e.ip);
      } else {
        GroupsHaveNames(newPairs, e.ip);
      }
      assert |multiset(e.hostnames)| > 0;
    }
  }

  /** Wherever an update stops: once the table it left is read back, in any order, a further update to any
      pairs is refused nothing and reaches their table. */
  lemma RecoversAfterFailure(oldPairs: seq<HostPair>, newPairs: seq<HostPair>, plan: seq<Op>, sent: seq<Op>,
                             before: seq<DnsHost>, read: seq<HostPair>, next: seq<HostPair>, retry: seq<Op>)
    requires Live(before, Grouped(oldPairs))
    requires IsPlan(plan, oldPairs, newPairs) && sent <= plan
    ensures Run(before, sent).Some?
    ensures multiset(read) == multiset(Flatten(Run(before, sent).value)) && IsPlan(retry, read, next) ==>
              && Run(Run(before, sent).value, retry).Some?
              && Live(Run(Run(before, sent).value, retry).value, Grouped(next))
  {
    EveryPrefixIsSane(oldPairs, newPairs, plan, sent, before);
    var hosts := Run(before, sent).value;
    if multiset(read) == multiset(Flatten(hosts)) && IsPlan(retry, read, next) {
      StoppedTableHasNames(oldPairs, newPairs, before, hosts);
      ReadBackIsLive(hosts);
      GroupingForgetsOrder(read, Flatten(hosts));
      UpdateReachesNewTable(read, next, retry, hosts);
    }
  }
}
