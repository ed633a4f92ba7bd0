/** When the target names of a domain's disks are pairwise distinct. */
module DiskNames {
  import opened Wrappers
  import opened DiskLetters
  import opened DomainDisks

  function Names(disks: seq<Disk>): (r: seq<string>)
    ensures |r| == |disks| && forall i :: 0 <= i < |disks| ==> r[i] == disks[i].target.dev
  {
    seq(|disks|, i requires 0 <= i < |disks| => disks[i].target.dev)
  }

  ghost predicate Distinct(names: seq<string>) {
    forall i, j :: 0 <= i < j < |names| ==> names[i] != names[j]
  }

  lemma {:induction false} CountsAreMonotone(env: Env, cfgs: seq<DiskConfig>, i: nat, j: nat)
    requires i <= j <= |cfgs|
    ensures CountIsos(env, cfgs[..i]) <= CountIsos(env, cfgs[..j])
    ensures CountScsis(cfgs[..i]) <= CountScsis(cfgs[..j])
    decreases j
  {
    if i < j {
      CountsAreMonotone(env, cfgs, i, j - 1);
      CountsGrow(env, cfgs, j - 1);
    }
  }

  lemma SameLetters(prefix: string, i: nat, j: nat)
    requires prefix + DiskLetterForIndex(i) == prefix + DiskLetterForIndex(j)
    ensures i == j
  {
    var s, t := prefix + DiskLetterForIndex(i), prefix + DiskLetterForIndex(j);
    assert DiskLetterForIndex(i) == s[|prefix|..] == t[|prefix|..] == DiskLetterForIndex(j);
    LettersInjective(i, j);
  }

  /** Names of one list never collide: the three counters use three prefixes, and each disk moves its own. */
  lemma ListNamesAreDistinct(env: Env, cfgs: seq<DiskConfig>, random: seq<string>)
    requires |random| == |cfgs| == Buildable(env, cfgs)
    ensures Distinct(Names(Built(env, cfgs, random, |cfgs|)))
  {
    var disks := Built(env, cfgs, random, |cfgs|);
    forall i, j | 0 <= i < j < |cfgs| ensures disks[i].target.dev != disks[j].target.dev {
      CountsGrow(env, cfgs, i);
      CountsAreMonotone(env, cfgs, i + 1, j);
      var s, t := disks[i].target.dev, disks[j].target.dev;
      if s == t {
        assert s[0] == t[0];
        if IsIso(env, cfgs[i]) {
          SameLetters("hd", CountIsos(env, cfgs[..i]), CountIsos(env, cfgs[..j]));
        } else if cfgs[i].scsi {
          SameLetters("sd", CountScsis(cfgs[..i]), CountScsis(cfgs[..j]));
        } else {
          SameLetters("vd", i, j);
        }
      }
    }
  }

  /** The disk at list position 1 keeps its virtio name. */
  predicate SecondDiskIsVirtio(env: Env, cfgs: seq<DiskConfig>) {
    |cfgs| > 1 && !cfgs[1].scsi && !IsIso(env, cfgs[1])
  }

  lemma FixedLetters()
    ensures DiskLetterForIndex(1) == "b" && DiskLetterForIndex(3) == "d"
  {
  }

  lemma NamedVdb(env: Env, cfgs: seq<DiskConfig>, random: seq<string>, i: nat)
    requires |random| == |cfgs| == Buildable(env, cfgs) && i < |cfgs|
    ensures Built(env, cfgs, random, |cfgs|)[i].target.dev == "vdb" <==> i == 1 && SecondDiskIsVirtio(env, cfgs)
  {
    FixedLetters();
    var name := Built(env, cfgs, random, |cfgs|)[i].target.dev;
    if name == "vdb" {
      assert name[0] == 'v';
      assert name == "vd" + DiskLetterForIndex(i) == "vd" + DiskLetterForIndex(1);
      SameLetters("vd", i, 1);
    }
  }

  lemma IgnitionNameIsTaken(env: Env, cfgs: seq<DiskConfig>, random: seq<string>)
    requires |random| == |cfgs| == Buildable(env, cfgs)
    ensures "vdb" in Names(Built(env, cfgs, random, |cfgs|)) <==> SecondDiskIsVirtio(env, cfgs)
  {
    var names := Names(Built(env, cfgs, random, |cfgs|));
    forall i | 0 <= i < |cfgs| ensures names[i] == "vdb" <==> i == 1 && SecondDiskIsVirtio(env, cfgs) {
      NamedVdb(env, cfgs, random, i);
    }
    if SecondDiskIsVirtio(env, cfgs) { assert names[1] == "vdb"; }
  }

  lemma {:induction false} IsoWithCount(env: Env, cfgs: seq<DiskConfig>, k: nat, n: nat) returns (i: nat)
    requires n <= |cfgs| && k < CountIsos(env, cfgs[..n])
    ensures i < n && IsIso(env, cfgs[i]) && CountIsos(env, cfgs[..i]) == k
    decreases n
  {
    CountsGrow(env, cfgs, n - 1);
    if k < CountIsos(env, cfgs[..n - 1]) {
      i := IsoWithCount(env, cfgs, k, n - 1);
    } else {
      i := n - 1;
    }
  }

  lemma NamedHdd(env: Env, cfgs: seq<DiskConfig>, random: seq<string>, i: nat)
    requires |random| == |cfgs| == Buildable(env, cfgs) && i < |cfgs|
    ensures Built(env, cfgs, random, |cfgs|)[i].target.dev == "hdd"
            <==> IsIso(env, cfgs[i]) && CountIsos(env, cfgs[..i]) == 3
  {
    FixedLetters();
    var name, count := Built(env, cfgs, random, |cfgs|)[i].target.dev, CountIsos(env, cfgs[..i]);
    if name == "hdd" {
      assert name[0] == 'h';
      assert name == "hd" + DiskLetterForIndex(count) == "hd" + DiskLetterForIndex(3);
      SameLetters("hd", count, 3);
    }
  }

  lemma CloudInitNameIsTaken(env: Env, cfgs: seq<DiskConfig>, random: seq<string>)
    requires |random| == |cfgs| == Buildable(env, cfgs)
    ensures "hdd" in Names(Built(env, cfgs, random, |cfgs|)) <==> CountIsos(env, cfgs) > 3
  {
    var names := Names(Built(env, cfgs, random, |cfgs|));
    assert cfgs[..|cfgs|] == cfgs;
    if CountIsos(env, cfgs) > 3 {
      var i := IsoWithCount(env, cfgs, 3, |cfgs|);
      NamedHdd(env, cfgs, random, i);
      assert names[i] == "hdd";
    }
    if "hdd" in names {
      var i :| 0 <= i < |names| && names[i] == "hdd";
      NamedHdd(env, cfgs, random, i);
      CountsGrow(env, cfgs, i);
      CountsAreMonotone(env, cfgs, i + 1, |cfgs|);
    }
  }

  lemma DistinctFirst(name: string, names: seq<string>)
    ensures Distinct([name] + names) <==> name !in names && Distinct(names)
  {
    var all := [name] + names;
    assert forall i :: 0 <= i < |names| ==> all[i + 1] == names[i];
    if name in names {
      var i :| 0 <= i < |names| && names[i] == name;
      assert all[0] == all[i + 1];
    }
    if Distinct(all) {
      forall i, j | 0 <= i < j < |names| ensures names[i] != names[j] { assert all[i + 1] != all[j + 1]; }
    }
  }

  lemma DistinctLast(names: seq<string>, name: string)
    ensures Distinct(names + [name]) <==> name !in names && Distinct(names)
  {
    var all := names + [name];
    assert forall i :: 0 <= i < |names| ==> all[i] == names[i];
    if name in names {
      var i :| 0 <= i < |names| && names[i] == name;
      assert all[i] == all[|names|];
    }
    if Distinct(all) {
      forall i, j | 0 <= i < j < |names| ensures names[i] != names[j] { assert all[i] != all[j]; }
    }
  }

  /** The names of everything but the cloud-init CD. */
  function ListedNames(env: Env, cfgs: seq<DiskConfig>, random: seq<string>, ignition: bool): seq<string>
    requires |random| == |cfgs| == Buildable(env, cfgs)
  {
    var names := Names(Built(env, cfgs, random, |cfgs|));
    if ignition then ["vdb"] + names else names
  }

  lemma ListedNamesAreDistinctIff(env: Env, cfgs: seq<DiskConfig>, random: seq<string>, ignition: bool)
    requires |random| == |cfgs| == Buildable(env, cfgs)
    ensures Distinct(ListedNames(env, cfgs, random, ignition)) <==> !ignition || !SecondDiskIsVirtio(env, cfgs)
    ensures "hdd" in ListedNames(env, cfgs, random, ignition) <==> CountIsos(env, cfgs) > 3
  {
    ListNamesAreDistinct(env, cfgs, random);
    IgnitionNameIsTaken(env, cfgs, random);
    CloudInitNameIsTaken(env, cfgs, random);
    DistinctFirst("vdb", Names(Built(env, cfgs, random, |cfgs|)));
  }

  lemma NamesConcat(a: seq<Disk>, b: seq<Disk>)
    ensures Names(a + b) == Names(a) + Names(b)
  {
  }

  lemma NameOfOne(disk: Disk)
    ensures Names([disk]) == [disk.target.dev]
  {
  }

  lemma NamesOfAll(env: Env, cfgs: seq<DiskConfig>, random: seq<string>, ignition: Option<string>,
                   cloudinit: Option<string>)
    requires |random| == |cfgs| == Buildable(env, cfgs)
    ensures Names(AllDisks(env, cfgs, random, ignition, cloudinit)) ==
            ListedNames(env, cfgs, random, ignition.Some?) + if cloudinit.None? then [] else ["hdd"]
  {
    var first := match ignition case None => [] case Some(key) => [IgnitionDisk(key)];
    var listed := Built(env, cfgs, random, |cfgs|);
    var last := match cloudinit case None => [] case Some(path) => [CloudInitDisk(path)];
    NamesConcat(first, listed);
    NamesConcat(first + listed, last);
    if ignition.Some? { NameOfOne(IgnitionDisk(ignition.value)); }
    if cloudinit.Some? { NameOfOne(CloudInitDisk(cloudinit.value)); }
  }

  /** Over every definition the provider can create: the names are pairwise distinct exactly when the
      ignition disk meets no virtio disk at list position 1 and the cloud-init CD meets at most three
      other CDs. */
  lemma NamesAreDistinctIff(env: Env, cfgs: seq<DiskConfig>, random: seq<string>, ignition: Option<string>,
                            cloudinit: Option<string>)
    requires |random| == |cfgs| == Buildable(env, cfgs)
    ensures Distinct(Names(AllDisks(env, cfgs, random, ignition, cloudinit)))
            <==> && (ignition.None? || !SecondDiskIsVirtio(env, cfgs))
                 && (cloudinit.None? || CountIsos(env, cfgs) <= 3)
  {
    var listed := ListedNames(env, cfgs, random, ignition.Some?);
    ListedNamesAreDistinctIff(env, cfgs, random, ignition.Some?);
    NamesOfAll(env, cfgs, random, ignition, cloudinit);
    DistinctLast(listed, "hdd");
    assert listed + [] == listed;
  }

  // ---------------------------------------------------------------- definitions with a collision

  function NoEnv(): Env {
    Env(map[], map[], map[], map[])
  }

  /** Two block devices, the second of which is named "vdb" as the ignition disk is. */
  lemma IgnitionCollides(cfg: DiskConfig)
    requires cfg == DiskConfig(false, "", "", "", "", "/dev/sda")
    ensures Buildable(NoEnv(), [cfg, cfg]) == 2
    ensures !Distinct(Names(AllDisks(NoEnv(), [cfg, cfg], ["", ""], Some("key"), None)))
  {
    assert [cfg, cfg][1..] == [cfg];
    NamesAreDistinctIff(NoEnv(), [cfg, cfg], ["", ""], Some("key"), None);
  }

  /** Four ISO images, the fourth of which is named "hdd" as the cloud-init CD is. */
  lemma CloudInitCollides(cfg: DiskConfig)
    requires cfg == DiskConfig(false, "", "", "", "a.iso", "")
    ensures Buildable(NoEnv(), [cfg, cfg, cfg, cfg]) == 4
    ensures !Distinct(Names(AllDisks(NoEnv(), [cfg, cfg, cfg, cfg], ["", "", "", ""], None, Some("/c.iso"))))
  {
    var cfgs := [cfg, cfg, cfg, cfg];
    assert cfgs[1..] == [cfg, cfg, cfg] && cfgs[1..][1..] == [cfg, cfg] && cfgs[1..][1..][1..] == [cfg];
    CountsGrow(NoEnv(), cfgs, 0);
    CountsGrow(NoEnv(), cfgs, 1);
    CountsGrow(NoEnv(), cfgs, 2);
    CountsGrow(NoEnv(), cfgs, 3);
    assert cfgs[..4] == cfgs;
    NamesAreDistinctIff(NoEnv(), cfgs, ["", "", "", ""], None, Some("/c.iso"));
  }
}
