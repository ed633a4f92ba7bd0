/** Bringing the DNS hosts of a live network from the old set of pairs to the new one. */
module DnsUpdate {
  import opened Wrappers
  import opened DnsHosts

  /** The two network updates used; a delete names the IP only. */
  datatype Op = Delete(ip: string) | Add(entry: DnsHost)

  function CountIp(hosts: seq<DnsHost>, ip: string): nat {
    if hosts == [] then 0 else (if hosts[0].ip == ip then 1 else 0) + CountIp(hosts[1..], ip)
  }

  function WithoutIp(hosts: seq<DnsHost>, ip: string): seq<DnsHost> {
    if hosts == [] then [] else (if hosts[0].ip == ip then [] else [hosts[0]]) + WithoutIp(hosts[1..], ip)
  }

  /** libvirt accepts a delete that matches exactly one entry and an addition that matches none. */
  function Apply(hosts: seq<DnsHost>, op: Op): Option<seq<DnsHost>> {
    match op
    case Delete(ip) => if CountIp(hosts, ip) == 1 then Some(WithoutIp(hosts, ip)) else None
    case Add(entry) => if CountIp(hosts, entry.ip) == 0 then Some(hosts + [entry]) else None
  }

  /** All operations one after the other, if every one of them is accepted. */
  function Run(hosts: seq<DnsHost>, ops: seq<Op>): Option<seq<DnsHost>> {
    if ops == [] then Some(hosts)
    else
      match Run(hosts, ops[..|ops| - 1])
      case None => None
      case Some(between) => Apply(between, ops[|ops| - 1])
  }

  // ---------------------------------------------------------------- the operations sent

  /** The entries of a that are not among those of b, in order. */
  function Missing(a: seq<DnsHost>, b: seq<DnsHost>): seq<DnsHost> {
    if a == [] then []
    else Missing(a[..|a| - 1], b) + if a[|a| - 1] in b then [] else [a[|a| - 1]]
  }

  function Deletes(entries: seq<DnsHost>): (ops: seq<Op>)
    ensures |ops| == |entries| && forall i :: 0 <= i < |ops| ==> ops[i] == Delete(entries[i].ip)
  {
    seq(|entries|, i requires 0 <= i < |entries| => Delete(entries[i].ip))
  }

  function Adds(entries: seq<DnsHost>): (ops: seq<Op>)
    ensures |ops| == |entries| && forall i :: 0 <= i < |ops| ==> ops[i] == Add(entries[i])
  {
    seq(|entries|, i requires 0 <= i < |entries| => Add(entries[i]))
  }

  /** Deletes of the old entries that must go, then additions of the new ones. */
  function Plan(oldEntries: seq<DnsHost>, newEntries: seq<DnsHost>): seq<Op> {
    Deletes(Missing(oldEntries, newEntries)) + Adds(Missing(newEntries, oldEntries))
  }

  /** The plan for one of the enumerations of the grouped entries. */
  ghost predicate IsPlan(plan: seq<Op>, oldPairs: seq<HostPair>, newPairs: seq<HostPair>) {
    exists o, n :: Lists(o, Grouped(oldPairs)) && Lists(n, Grouped(newPairs)) && plan == Plan(o, n)
  }

  // ---------------------------------------------------------------- the live network

  class LiveNetwork {
    var hosts: seq<DnsHost>

    constructor (hosts: seq<DnsHost>)
      ensures this.hosts == hosts
    {
      this.hosts := hosts;
    }

    /** A network update: it may fail for reasons of its own, and then changes nothing. */
    method NetworkUpdate(op: Op) returns (ok: bool)
      modifies this
      ensures ok ==> Apply(old(hosts), op) == Some(hosts)
      ensures !ok ==> hosts == old(hosts)
    {
      if * {
        return false;
      }
      var applied := Apply(hosts, op);
      if applied.None? {
        return false;
      }
      hosts := applied.value;
      ok := true;
    }

    /** The search both loops start with. */
    static method IsListed(entries: seq<DnsHost>, entry: DnsHost) returns (found: bool)
      ensures found <==> entry in entries
    {
      found := false;
      for i := 0 to |entries|
        invariant !found && entry !in entries[..i]
      {
        if entries[i] == entry {
          found := true;
          break;
        }
      }
    }

    /** The first loop: the old entries that must go. It stops at the first update that fails. */
    method DeleteOld(oldEntries: seq<DnsHost>, newEntries: seq<DnsHost>) returns (ok: bool, ghost sent: seq<Op>)
      modifies this
      ensures sent <= Deletes(Missing(oldEntries, newEntries))
      ensures ok <==> sent == Deletes(Missing(oldEntries, newEntries))
      ensures Run(old(hosts), sent) == Some(hosts)
    {
      ok, sent := true, [];
      for i := 0 to |oldEntries|
        invariant sent == Deletes(Missing(oldEntries[..i], newEntries))
        invariant Run(old(hosts), sent) == Some(hosts)
      {
        MissingGrows(oldEntries, newEntries, i);
        var found := IsListed(newEntries, oldEntries[i]);
        if found {
          continue;
        }
        ok := NetworkUpdate(Delete(oldEntries[i].ip));
        if !ok {
          return;
        }
        RunOneMore(old(hosts), sent, Delete(oldEntries[i].ip));
        sent := sent + [Delete(oldEntries[i].ip)];
      }
      assert oldEntries[..|oldEntries|] == oldEntries;
      ok := true;
    }

    /** The second loop: the new entries that must come. */
    method AddNew(oldEntries: seq<DnsHost>, newEntries: seq<DnsHost>) returns (ok: bool, ghost sent: seq<Op>)
      modifies this
      ensures sent <= Adds(Missing(newEntries, oldEntries))
      ensures ok <==> sent == Adds(Missing(newEntries, oldEntries))
      ensures Run(old(hosts), sent) == Some(hosts)
    {
      ok, sent := true, [];
      for i := 0 to |newEntries|
        invariant sent == Adds(Missing(newEntries[..i], oldEntries))
        invariant Run(old(hosts), sent) == Some(hosts)
      {
        MissingGrows(newEntries, oldEntries, i);
        var found := IsListed(oldEntries, newEntries[i]);
        if found {
          continue;
        }
        ok := NetworkUpdate(Add(newEntries[i]));
        if !ok {
          return;
        }
        RunOneMore(old(hosts), sent, Add(newEntries[i]));
        sent := sent + [Add(newEntries[i])];
      }
      assert newEntries[..|newEntries|] == newEntries;
      ok := true;
    }

    /** `sent` are the operations of `plan` carried out; all of them exactly when no update failed. */
    method UpdateDNSHosts(oldPairs: seq<HostPair>, newPairs: seq<HostPair>, hasChange: bool)
      returns (ok: bool, ghost plan: seq<Op>, ghost sent: seq<Op>)
      modifies this
      ensures !hasChange ==> ok && hosts == old(hosts)
      ensures hasChange ==>
                && IsPlan(plan, oldPairs, newPairs)
                && sent <= plan && (ok <==> sent == plan)
                && Run(old(hosts), sent) == Some(hosts)
    {
      ok, plan, sent := true, [], [];
      if hasChange {
        var oldEntries := ParseNetworkDNSHostsChange(oldPairs);
        var newEntries := ParseNetworkDNSHostsChange(newPairs);
        plan := Plan(oldEntries, newEntries);
        ok, sent := DeleteOld(oldEntries, newEntries);
        if ok {
          ghost var deleted, added := sent, [];
          ok, added := AddNew(oldEntries, newEntries);
          RunConcat(old(hosts), deleted, added);
          sent := deleted + added;
        } else {
          assert sent != plan by { assert |sent| < |Deletes(Missing(oldEntries, newEntries))|; }
        }
      }
    }
  }

  lemma MissingGrows(a: seq<DnsHost>, b: seq<DnsHost>, i: nat)
    requires i < |a|
    ensures Missing(a[..i + 1], b) == Missing(a[..i], b) + if a[i] in b then [] else [a[i]]
    ensures Missing(a[..i + 1], b) <= Missing(a, b)
  {
    assert a[..i + 1][..i] == a[..i];
    MissingPrefix(a, b, i + 1);
  }

  lemma {:induction false} MissingPrefix(a: seq<DnsHost>, b: seq<DnsHost>, i: nat)
    requires i <= |a|
    ensures Missing(a[..i], b) <= Missing(a, b)
    decreases |a|
  {
    if i == |a| {
      assert a[..i] == a;
    } else {
      assert a[..|a| - 1][..i] == a[..i];
      MissingPrefix(a[..|a| - 1], b, i);
    }
  }

  lemma RunOneMore(hosts: seq<DnsHost>, ops: seq<Op>, op: Op)
    ensures Run(hosts, ops + [op]) ==
            match Run(hosts, ops) case None => None case Some(between) => Apply(between, op)
  {
    assert (ops + [op])[..|ops|] == ops;
  }

  lemma {:induction false} RunConcat(hosts: seq<DnsHost>, a: seq<Op>, b: seq<Op>)
    ensures Run(hosts, a + b) == match Run(hosts, a) case None => None case Some(between) => Run(between, b)
    decreases |b|
  {
    if b == [] {
      assert a + b == a;
    } else {
      var last := |b| - 1;
      assert (a + b)[..|a + b| - 1] == a + b[..last];
      RunConcat(hosts, a, b[..last]);
    }
  }
}
