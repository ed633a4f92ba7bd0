/** What the reconciliation of DNS hosts does to the live table, after every operation and in the end. */
module DnsUpdateLaws {
  import opened Wrappers
  import opened DnsHosts
  import opened DnsUpdate

  function IpSet(entries: seq<DnsHost>): set<string> {
    set e | e in entries :: e.ip
  }

  /** The live table holds the given entries, one per IP, up to the order of entries and of hostnames. */
  ghost predicate Live(hosts: seq<DnsHost>, table: map<string, seq<string>>) {
    && DistinctIps(hosts)
    && IpSet(hosts) == table.Keys
    && forall e :: e in hosts ==> e.ip in table && multiset(e.hostnames) == multiset(table[e.ip])
  }

  // ---------------------------------------------------------------- single operations

  lemma {:induction false} WithoutIpKeeps(hosts: seq<DnsHost>, ip: string)
    ensures forall e :: e in WithoutIp(hosts, ip) <==> e in hosts && e.ip != ip
  {
    if hosts == [] {
    } else {
      WithoutIpKeeps(hosts[1..], ip);
      assert hosts == [hosts[0]] + hosts[1..];
    }
  }

  lemma {:induction false} WithoutIpDistinct(hosts: seq<DnsHost>, ip: string)
    requires DistinctIps(hosts)
    ensures DistinctIps(WithoutIp(hosts, ip))
  {
    if hosts == [] {
    } else {
      WithoutIpDistinct(hosts[1..], ip);
      WithoutIpKeeps(hosts[1..], ip);
      var rest := WithoutIp(hosts[1..], ip);
      forall j | 0 <= j < |rest| ensures rest[j].ip != hosts[0].ip { assert rest[j] in hosts[1..]; }
    }
  }

  lemma {:induction false} CountOfDistinctIp(hosts: seq<DnsHost>, ip: string)
    requires DistinctIps(hosts)
    ensures CountIp(hosts, ip) == if ip in IpSet(hosts) then 1 else 0
  {
    if hosts == [] {
    } else {
      CountOfDistinctIp(hosts[1..], ip);
      assert hosts == [hosts[0]] + hosts[1..];
      assert IpSet(hosts) == {hosts[0].ip} + IpSet(hosts[1..]);
      assert hosts[0].ip !in IpSet(hosts[1..]);
    }
  }

  /** The table once the entries of `gone` were deleted and those of `come` added. */
  ghost predicate Updated(before: seq<DnsHost>, gone: seq<DnsHost>, come: seq<DnsHost>, hosts: seq<DnsHost>) {
    && DistinctIps(hosts)
    && forall e :: e in hosts <==> (e in before && e.ip !in IpSet(gone)) || e in come
  }

  lemma AfterDelete(before: seq<DnsHost>, gone: seq<DnsHost>, hosts: seq<DnsHost>, x: DnsHost)
    requires Updated(before, gone, [], hosts)
    requires x.ip in IpSet(before) && x.ip !in IpSet(gone)
    ensures Apply(hosts, Delete(x.ip)).Some?
    ensures Updated(before, gone + [x], [], Apply(hosts, Delete(x.ip)).value)
  {
    var e :| e in before && e.ip == x.ip;
    assert e in hosts;
    CountOfDistinctIp(hosts, x.ip);
    WithoutIpKeeps(hosts, x.ip);
    WithoutIpDistinct(hosts, x.ip);
    assert IpSet(gone + [x]) == IpSet(gone) + {x.ip};
  }

  lemma AfterAdd(before: seq<DnsHost>, gone: seq<DnsHost>, come: seq<DnsHost>, hosts: seq<DnsHost>, x: DnsHost)
    requires Updated(before, gone, come, hosts)
    requires x.ip !in IpSet(before) - IpSet(gone) && x.ip !in IpSet(come)
    ensures Apply(hosts, Add(x)) == Some(hosts + [x])
    ensures Updated(before, gone, come + [x], hosts + [x])
  {
    assert x.ip !in IpSet(hosts);
    CountOfDistinctIp(hosts, x.ip);
    forall i | 0 <= i < |hosts| ensures hosts[i].ip != x.ip { assert hosts[i] in hosts; }
  }

  // ---------------------------------------------------------------- the entries that change

  lemma {:induction false} MissingIsDifference(a: seq<DnsHost>, b: seq<DnsHost>)
    ensures forall e :: e in Missing(a, b) <==> e in a && e !in b
  {
    if a == [] {
    } else {
      var last := |a| - 1;
      MissingIsDifference(a[..last], b);
      assert a == a[..last] + [a[last]];
    }
  }

  lemma {:induction false} MissingIsDistinct(a: seq<DnsHost>, b: seq<DnsHost>)
    requires DistinctIps(a)
    ensures DistinctIps(Missing(a, b))
  {
    if a == [] {
    } else {
      var last := |a| - 1;
      MissingIsDistinct(a[..last], b);
      MissingIsDifference(a[..last], b);
      var front := Missing(a[..last], b);
      forall j | 0 <= j < |front| ensures front[j].ip != a[last].ip { assert front[j] in a[..last]; }
    }
  }

  lemma FreshInPrefix(entries: seq<DnsHost>, k: nat)
    requires DistinctIps(entries) && k < |entries|
    ensures entries[k].ip !in IpSet(entries[..k])
    ensures entries[..k + 1] == entries[..k] + [entries[k]]
  {
  }

  lemma {:induction false} DeletesAreAccepted(before: seq<DnsHost>, gone: seq<DnsHost>, k: nat)
    requires DistinctIps(before) && DistinctIps(gone) && IpSet(gone) <= IpSet(before)
    requires k <= |gone|
    ensures Run(before, Deletes(gone)[..k]).Some?
    ensures Updated(before, gone[..k], [], Run(before, Deletes(gone)[..k]).value)
  {
    if k == 0 {
    } else {
      var i := k - 1;
      DeletesAreAccepted(before, gone, i);
      FreshInPrefix(gone, i);
      assert gone[i].ip in IpSet(gone);
      AfterDelete(before, gone[..i], Run(before, Deletes(gone)[..i]).value, gone[i]);
      assert Deletes(gone)[..k] == Deletes(gone)[..i] + [Delete(gone[i].ip)];
      RunOneMore(before, Deletes(gone)[..i], Delete(gone[i].ip));
    }
  }

  lemma {:induction false} AddsAreAccepted(before: seq<DnsHost>, gone: seq<DnsHost>, come: seq<DnsHost>,
                                           hosts: seq<DnsHost>, k: nat)
    requires Updated(before, gone, [], hosts)
    requires DistinctIps(come) && IpSet(come) !! (IpSet(before) - IpSet(gone))
    requires k <= |come|
    ensures Run(hosts, Adds(come)[..k]).Some?
    ensures Updated(before, gone, come[..k], Run(hosts, Adds(come)[..k]).value)
  {
    if k == 0 {
    } else {
      var i := k - 1;
      AddsAreAccepted(before, gone, come, hosts, i);
      FreshInPrefix(come, i);
      assert come[i].ip in IpSet(come);
      AfterAdd(before, gone, come[..i], Run(hosts, Adds(come)[..i]).value, come[i]);
      assert Adds(come)[..k] == Adds(come)[..i] + [Add(come[i])];
      RunOneMore(hosts, Adds(come)[..i], Add(come[i]));
    }
  }

  // ---------------------------------------------------------------- the whole plan

  /** An IP whose sorted hostname list is the same in both tables. */
  predicate Kept(a: map<string, seq<string>>, b: map<string, seq<string>>, ip: string) {
    ip in a && ip in b && a[ip] == b[ip]
  }

  lemma ChangedEntries(a: map<string, seq<string>>, b: map<string, seq<string>>, o: seq<DnsHost>, n: seq<DnsHost>)
    requires Lists(o, a) && Lists(n, b)
    ensures DistinctIps(Missing(o, n)) && DistinctIps(Missing(n, o))
    ensures IpSet(Missing(o, n)) == set ip | ip in a && !Kept(a, b, ip)
    ensures IpSet(Missing(n, o)) == set ip | ip in b && !Kept(a, b, ip)
    ensures forall e :: e in Missing(n, o) <==> e.ip in b && b[e.ip] == e.hostnames && !Kept(a, b, e.ip)
  {
    MissingIsDistinct(o, n);
    MissingIsDistinct(n, o);
    MissingIsDifference(o, n);
    MissingIsDifference(n, o);
    forall ip: string
      ensures ip in IpSet(Missing(o, n)) <==> ip in a && !Kept(a, b, ip)
      ensures ip in IpSet(Missing(n, o)) <==> ip in b && !Kept(a, b, ip)
    {
      if ip in a && !Kept(a, b, ip) { assert DnsHost(ip, a[ip]) in Missing(o, n); }
      if ip in b && !Kept(a, b, ip) { assert DnsHost(ip, b[ip]) in Missing(n, o); }
    }
  }

  /** What changes fits the table: the entries to delete are there, those to add are then not. */
  lemma ChangesFit(a: map<string, seq<string>>, b: map<string, seq<string>>, o: seq<DnsHost>, n: seq<DnsHost>,
                   before: seq<DnsHost>)
    requires Lists(o, a) && Lists(n, b) && Live(before, a)
    ensures DistinctIps(Missing(o, n)) && DistinctIps(Missing(n, o))
    ensures IpSet(Missing(o, n)) <= IpSet(before)
    ensures IpSet(Missing(n, o)) !! (IpSet(before) - IpSet(Missing(o, n)))
  {
    ChangedEntries(a, b, o, n);
  }

  lemma DeletesThenAdds(before: seq<DnsHost>, gone: seq<DnsHost>, come: seq<DnsHost>, m: nat)
    requires DistinctIps(before) && DistinctIps(gone) && IpSet(gone) <= IpSet(before)
    requires DistinctIps(come) && IpSet(come) !! (IpSet(before) - IpSet(gone))
    requires m <= |come|
    ensures Run(before, Deletes(gone) + Adds(come)[..m]).Some?
    ensures Updated(before, gone, come[..m], Run(before, Deletes(gone) + Adds(come)[..m]).value)
  {
    DeletesAreAccepted(before, gone, |gone|);
    assert gone[..|gone|] == gone && Deletes(gone)[..|gone|] == Deletes(gone);
    AddsAreAccepted(before, gone, come, Run(before, Deletes(gone)).value, m);
    RunConcat(before, Deletes(gone), Adds(come)[..m]);
  }

  lemma PlanPrefix(o: seq<DnsHost>, n: seq<DnsHost>, k: nat)
    requires k <= |Plan(o, n)|
    ensures Plan(o, n)[..k] ==
            if k <= |Missing(o, n)| then Deletes(Missing(o, n))[..k]
            else Deletes(Missing(o, n)) + Adds(Missing(n, o))[..k - |Missing(o, n)|]
  {
  }

  /** The table after the first k operations. */
  lemma PrefixOfPlan(a: map<string, seq<string>>, b: map<string, seq<string>>, o: seq<DnsHost>, n: seq<DnsHost>,
                     before: seq<DnsHost>, k: nat)
    requires Lists(o, a) && Lists(n, b) && Live(before, a)
    requires k <= |Plan(o, n)|
    ensures Run(before, Plan(o, n)[..k]).Some?
    ensures var gone, come := Missing(o, n), Missing(n, o);
            var hosts := Run(before, Plan(o, n)[..k]).value;
            if k <= |gone| then Updated(before, gone[..k], [], hosts)
            else Updated(before, gone, come[..k - |gone|], hosts)
  {
    var gone, come := Missing(o, n), Missing(n, o);
    ChangesFit(a, b, o, n, before);
    PlanPrefix(o, n, k);
    if k <= |gone| {
      DeletesAreAccepted(before, gone, k);
    } else {
      DeletesThenAdds(before, gone, come, k - |gone|);
    }
  }

  /** Between the old table and the new one: one entry per IP, every entry an old live one or a new one,
      and no entry that both tables share ever missing. */
  ghost predicate Between(before: seq<DnsHost>, a: map<string, seq<string>>, b: map<string, seq<string>>,
                          hosts: seq<DnsHost>)
  {
    && DistinctIps(hosts)
    && (forall e :: e in hosts ==> e in before || (e.ip in b && b[e.ip] == e.hostnames))
    && (forall e :: e in before && Kept(a, b, e.ip) ==> e in hosts)
  }

  /** If the live table is the old one, no operation is refused, and the table stays sane after every one
      of them, hence wherever a failure stops the update. */
  lemma EveryPrefixIsSane(oldPairs: seq<HostPair>, newPairs: seq<HostPair>, plan: seq<Op>, sent: seq<Op>,
                          before: seq<DnsHost>)
    requires Live(before, Grouped(oldPairs))
    requires IsPlan(plan, oldPairs, newPairs) && sent <= plan
    ensures Run(before, sent).Some?
    ensures Between(before, Grouped(oldPairs), Grouped(newPairs), Run(before, sent).value)
  {
    var a, b := Grouped(oldPairs), Grouped(newPairs);
    var o, n :| Lists(o, a) && Lists(n, b) && plan == Plan(o, n);
    PrefixOfPlan(a, b, o, n, before, |sent|);
    assert plan[..|sent|] == sent;
    BetweenFromAfter(a, b, o, n, before, |sent|);
  }

  lemma BetweenFromAfter(a: map<string, seq<string>>, b: map<string, seq<string>>, o: seq<DnsHost>, n: seq<DnsHost>,
                         before: seq<DnsHost>, k: nat)
    requires Lists(o, a) && Lists(n, b) && Live(before, a)
    requires k <= |Plan(o, n)|
    requires Run(before, Plan(o, n)[..k]).Some?
    ensures Between(before, a, b, Run(before, Plan(o, n)[..k]).value)
  {
    var gone, come := Missing(o, n), Missing(n, o);
    ChangedEntries(a, b, o, n);
    PrefixOfPlan(a, b, o, n, before, k);
    var g := if k <= |gone| then gone[..k] else gone;
    var c := if k <= |gone| then [] else come[..k - |gone|];
    assert forall e :: e in g ==> e in gone;
    assert forall e :: e in c ==> e in come;
    assert IpSet(g) <= IpSet(gone);
  }

  /** An entry of the updated table is a new one, or a live one the new table keeps. */
  lemma EntryOfUpdated(a: map<string, seq<string>>, b: map<string, seq<string>>, o: seq<DnsHost>, n: seq<DnsHost>,
                       before: seq<DnsHost>, after: seq<DnsHost>, e: DnsHost)
    requires Lists(o, a) && Lists(n, b) && Live(before, a)
    requires Updated(before, Missing(o, n), Missing(n, o), after) && e in after
    ensures e.ip in b && multiset(e.hostnames) == multiset(b[e.ip])
  {
    ChangedEntries(a, b, o, n);
    if e !in Missing(n, o) { assert e in before && Kept(a, b, e.ip); }
  }

  lemma NewIpIsInUpdated(a: map<string, seq<string>>, b: map<string, seq<string>>, o: seq<DnsHost>, n: seq<DnsHost>,
                         before: seq<DnsHost>, after: seq<DnsHost>, ip: string)
    requires Lists(o, a) && Lists(n, b) && Live(before, a)
    requires Updated(before, Missing(o, n), Missing(n, o), after) && ip in b
    ensures ip in IpSet(after)
  {
    ChangedEntries(a, b, o, n);
    if Kept(a, b, ip) {
      assert ip in IpSet(before);
      var e :| e in before && e.ip == ip;
      assert e in after;
    } else {
      assert DnsHost(ip, b[ip]) in Missing(n, o);
      assert DnsHost(ip, b[ip]) in after;
    }
  }

  lemma UpdatedIsLive(a: map<string, seq<string>>, b: map<string, seq<string>>, o: seq<DnsHost>, n: seq<DnsHost>,
                      before: seq<DnsHost>, after: seq<DnsHost>)
    requires Lists(o, a) && Lists(n, b) && Live(before, a)
    requires Updated(before, Missing(o, n), Missing(n, o), after)
    ensures Live(after, b)
  {
    forall e | e in after ensures e.ip in b && multiset(e.hostnames) == multiset(b[e.ip]) {
      EntryOfUpdated(a, b, o, n, before, after, e);
    }
    forall ip | ip in b ensures ip in IpSet(after) {
      NewIpIsInUpdated(a, b, o, n, before, after, ip);
    }
  }

  /** If every operation succeeds, the live table becomes the new one. */
  lemma UpdateReachesNewTable(oldPairs: seq<HostPair>, newPairs: seq<HostPair>, plan: seq<Op>, before: seq<DnsHost>)
    requires Live(before, Grouped(oldPairs))
    requires IsPlan(plan, oldPairs, newPairs)
    ensures Run(before, plan).Some? && Live(Run(before, plan).value, Grouped(newPairs))
  {
    var a, b := Grouped(oldPairs), Grouped(newPairs);
    var o, n :| Lists(o, a) && Lists(n, b) && plan == Plan(o, n);
    WholePlanRuns(a, b, o, n, before);
    UpdatedIsLive(a, b, o, n, before, Run(before, plan).value);
  }

  lemma WholePlanRuns(a: map<string, seq<string>>, b: map<string, seq<string>>, o: seq<DnsHost>, n: seq<DnsHost>,
                      before: seq<DnsHost>)
    requires Lists(o, a) && Lists(n, b) && Live(before, a)
    ensures Run(before, Plan(o, n)).Some?
    ensures Updated(before, Missing(o, n), Missing(n, o), Run(before, Plan(o, n)).value)
  {
    var gone, come := Missing(o, n), Missing(n, o);
    ChangesFit(a, b, o, n, before);
    DeletesThenAdds(before, gone, come, |come|);
    assert come[..|come|] == come && Adds(come)[..|come|] == Adds(come);
  }

  /** Exactly the IPs whose sorted hostname list changed are touched: deleted if they were there, added if
      they are to be there. */
  lemma OnlyChangedIpsAreTouched(oldPairs: seq<HostPair>, newPairs: seq<HostPair>, plan: seq<Op>)
    requires IsPlan(plan, oldPairs, newPairs)
    ensures var a, b := Grouped(oldPairs), Grouped(newPairs);
            && (forall ip :: Delete(ip) in plan <==> ip in a && !Kept(a, b, ip))
            && (forall e :: Add(e) in plan <==> e.ip in b && b[e.ip] == e.hostnames && !Kept(a, b, e.ip))
  {
    var a, b := Grouped(oldPairs), Grouped(newPairs);
    var o, n :| Lists(o, a) && Lists(n, b) && plan == Plan(o, n);
    ChangedEntries(a, b, o, n);
    OperationsOf(Missing(o, n), Missing(n, o));
  }

  lemma OperationsOf(gone: seq<DnsHost>, come: seq<DnsHost>)
    ensures forall ip :: Delete(ip) in Deletes(gone) + Adds(come) <==> ip in IpSet(gone)
    ensures forall e :: Add(e) in Deletes(gone) + Adds(come) <==> e in come
  {
    var plan := Deletes(gone) + Adds(come);
    forall ip ensures Delete(ip) in plan <==> ip in IpSet(gone) {
      if ip in IpSet(gone) {
        var i :| 0 <= i < |gone| && gone[i].ip == ip;
        assert plan[i] == Delete(ip);
      }
    }
    forall e ensures Add(e) in plan <==> e in come {
      if e in come {
        var i :| 0 <= i < |come| && come[i] == e;
        assert plan[|gone| + i] == Add(e);
      }
    }
  }
}
