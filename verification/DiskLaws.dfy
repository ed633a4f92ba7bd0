/** What every disk of a definition is, field by field, and what the identifiers in its configuration mean. */
module DiskLaws {
  import opened Wrappers
  import opened DiskLetters
  import opened DomainDisks

  ghost predicate EndsIn(s: string, suffix: string) {
    exists front :: s == front + suffix
  }

  lemma HasSuffixIsEndsIn(s: string, suffix: string)
    ensures HasSuffix(s, suffix) <==> EndsIn(s, suffix)
  {
    if HasSuffix(s, suffix) { assert s == s[..|s| - |suffix|] + suffix; }
  }

  /** The block names no volume and its URL's path, or without a URL its file, ends in ".iso". */
  ghost predicate IsIsoImage(env: Env, cfg: DiskConfig) {
    && cfg.volumeId == ""
    && if cfg.url != "" then cfg.url in env.urls && EndsIn(env.urls[cfg.url].path, ".iso") else EndsIn(cfg.file, ".iso")
  }

  lemma IsIsoIsImage(env: Env, cfg: DiskConfig)
    ensures IsIso(env, cfg) <==> IsIsoImage(env, cfg)
  {
    HasSuffixIsEndsIn(cfg.file, ".iso");
    if cfg.url in env.urls { HasSuffixIsEndsIn(env.urls[cfg.url].path, ".iso"); }
    if cfg.file == "" { assert !HasSuffix(cfg.file, ".iso"); }
  }

  /** The first attribute that is set says where a disk comes from. */
  ghost predicate ComesFrom(env: Env, cfg: DiskConfig, source: Source) {
    if cfg.volumeId != "" then
      && cfg.volumeId in env.volumes && env.volumes[cfg.volumeId].pool.Some?
      && source == VolumeSource(env.volumes[cfg.volumeId].pool.value, env.volumes[cfg.volumeId].name)
    else if cfg.url != "" then
      && cfg.url in env.urls && source.NetworkSource?
      && source.protocol == env.urls[cfg.url].scheme && source.name == env.urls[cfg.url].path
      && |source.hosts| == 1 && source.hosts[0].name == env.urls[cfg.url].hostname
      && source.hosts[0].port == env.urls[cfg.url].port
    else if cfg.file != "" then source == FileSource(cfg.file)
    else if cfg.blockDevice != "" then source == BlockSource(cfg.blockDevice)
    else source == NoSource
  }

  /** The disk of a block at list position i after so many ISO images and SCSI blocks. */
  ghost predicate DiskFits(env: Env, cfg: DiskConfig, i: nat, isos: nat, scsis: nat, random: string, disk: Disk) {
    && disk.device == (if IsIsoImage(env, cfg) then "cdrom" else "disk")
    && disk.target.bus == (if IsIsoImage(env, cfg) then "ide" else if cfg.scsi then "scsi" else "virtio")
    && disk.target.dev == (if IsIsoImage(env, cfg) then "hd" + DiskLetterForIndex(isos)
                           else if cfg.scsi then "sd" + DiskLetterForIndex(scsis)
                           else "vd" + DiskLetterForIndex(i))
    && disk.driver in {"qcow2", "raw"}
    && (disk.driver == "qcow2"
        <==> cfg.volumeId != "" && cfg.volumeId in env.volumes && env.volumes[cfg.volumeId].format == Some("qcow2"))
    && ComesFrom(env, cfg, disk.source)
    && (cfg.scsi ==> disk.wwn == if cfg.wwn != "" then cfg.wwn else random)
    && (!cfg.scsi ==> disk.wwn == "")
    && disk.serial == "" && !disk.readOnly
  }

  lemma DiskOfBlock(env: Env, cfg: DiskConfig, i: nat, isos: nat, scsis: nat, random: string)
    requires ErrorOf(env, cfg).None?
    ensures DiskFits(env, cfg, i, isos, scsis, random, DiskFor(env, cfg, i, isos, scsis, random))
  {
    IsIsoIsImage(env, cfg);
  }

  // ---------------------------------------------------------------- counting

  ghost function IsosBefore(env: Env, cfgs: seq<DiskConfig>, i: nat): set<int> {
    set k | 0 <= k < i && k < |cfgs| && IsIsoImage(env, cfgs[k])
  }

  ghost function ScsisBefore(cfgs: seq<DiskConfig>, i: nat): set<int> {
    set k | 0 <= k < i && k < |cfgs| && cfgs[k].scsi
  }

  lemma IsosOneMore(env: Env, cfgs: seq<DiskConfig>, i: nat)
    requires i < |cfgs|
    ensures |IsosBefore(env, cfgs, i + 1)| == |IsosBefore(env, cfgs, i)| + if IsIsoImage(env, cfgs[i]) then 1 else 0
  {
    var before := IsosBefore(env, cfgs, i);
    if IsIsoImage(env, cfgs[i]) {
      assert IsosBefore(env, cfgs, i + 1) == before + {i};
    } else {
      assert IsosBefore(env, cfgs, i + 1) == before;
    }
  }

  lemma ScsisOneMore(cfgs: seq<DiskConfig>, i: nat)
    requires i < |cfgs|
    ensures |ScsisBefore(cfgs, i + 1)| == |ScsisBefore(cfgs, i)| + if cfgs[i].scsi then 1 else 0
  {
    var before := ScsisBefore(cfgs, i);
    if cfgs[i].scsi {
      assert ScsisBefore(cfgs, i + 1) == before + {i};
    } else {
      assert ScsisBefore(cfgs, i + 1) == before;
    }
  }

  lemma {:induction false} CountsAreSizes(env: Env, cfgs: seq<DiskConfig>, i: nat)
    requires i <= |cfgs|
    ensures CountIsos(env, cfgs[..i]) == |IsosBefore(env, cfgs, i)|
    ensures CountScsis(cfgs[..i]) == |ScsisBefore(cfgs, i)|
  {
    if i == 0 {
      assert IsosBefore(env, cfgs, 0) == {} && ScsisBefore(cfgs, 0) == {};
    } else {
      CountsAreSizes(env, cfgs, i - 1);
      CountsGrow(env, cfgs, i - 1);
      IsIsoIsImage(env, cfgs[i - 1]);
      IsosOneMore(env, cfgs, i - 1);
      ScsisOneMore(cfgs, i - 1);
    }
  }

  // ---------------------------------------------------------------- whole definitions

  /** Every disk of every definition the provider can create: the ignition disk first, then the listed disks,
      each named after how many ISO images and SCSI blocks come before it, then the cloud-init CD. */
  lemma DefinitionFits(env: Env, cfgs: seq<DiskConfig>, random: seq<string>, ignition: Option<string>,
                       cloudinit: Option<string>, j: nat)
    requires |random| == |cfgs| == Buildable(env, cfgs) && j < |cfgs|
    ensures var disks, first := AllDisks(env, cfgs, random, ignition, cloudinit), if ignition.Some? then 1 else 0;
            && |disks| == first + |cfgs| + (if cloudinit.Some? then 1 else 0)
            && DiskFits(env, cfgs[j], j, |IsosBefore(env, cfgs, j)|, |ScsisBefore(cfgs, j)|, random[j],
                        disks[first + j])
  {
    CountsAreSizes(env, cfgs, j);
    DiskOfBlock(env, cfgs[j], j, CountIsos(env, cfgs[..j]), CountScsis(cfgs[..j]), random[j]);
  }

  lemma FixedDisksFit(env: Env, cfgs: seq<DiskConfig>, random: seq<string>, ignition: Option<string>,
                      cloudinit: Option<string>)
    requires |random| == |cfgs| == Buildable(env, cfgs)
    ensures var disks := AllDisks(env, cfgs, random, ignition, cloudinit);
            && (ignition.Some? ==>
                  && disks[0].device == "disk" && disks[0].target == Target("virtio", "vdb") && disks[0].driver == "raw"
                  && disks[0].source == FileSource(ignition.value)
                  && disks[0].serial == "ignition" && disks[0].readOnly)
            && (cloudinit.Some? ==>
                  var cd := disks[|disks| - 1];
                  && cd.device == "cdrom" && cd.target == Target("ide", "hdd") && cd.driver == "raw"
                  && cd.source == FileSource(cloudinit.value) && cd.serial == "cloudinit" && !cd.readOnly)
  {
  }

  /** A SCSI controller is needed exactly if some block asks for SCSI. */
  lemma {:induction false} SomeScsi(cfgs: seq<DiskConfig>)
    ensures CountScsis(cfgs) > 0 <==> exists i :: 0 <= i < |cfgs| && cfgs[i].scsi
  {
    if cfgs == [] {
    } else {
      var front := cfgs[..|cfgs| - 1];
      SomeScsi(front);
      if exists i :: 0 <= i < |cfgs| && cfgs[i].scsi {
        var i :| 0 <= i < |cfgs| && cfgs[i].scsi;
        if i < |front| { assert front[i].scsi; }
      }
    }
  }

  // ---------------------------------------------------------------- errors and identifiers

  /** A block fails exactly on a volume that is not there, in no pool or without a description, in this
      order, or on a URL that does not parse. */
  lemma ErrorsOfBlock(env: Env, cfg: DiskConfig, error: DiskError)
    ensures ErrorOf(env, cfg) == Some(error) <==>
            || (cfg.volumeId != "" && cfg.volumeId !in env.volumes && error == UnknownVolume(cfg.volumeId))
            || (cfg.volumeId != "" && cfg.volumeId in env.volumes
                && env.volumes[cfg.volumeId].pool.None? && error == NoPool(cfg.volumeId))
            || (cfg.volumeId != "" && cfg.volumeId in env.volumes && env.volumes[cfg.volumeId].pool.Some?
                && env.volumes[cfg.volumeId].format.None? && error == NoDescription(cfg.volumeId))
            || (cfg.volumeId == "" && cfg.url != "" && cfg.url !in env.urls && error == BadUrl(cfg.url))
  {
  }

  /** The volume key in a Terraform id is what stands before its first ';'. */
  lemma {:induction false} KeyBeforeSemicolon(id: string, key: string)
    ensures VolumeKeyOfId(id) == Some(key) <==> ';' !in key && key + ";" <= id
    ensures VolumeKeyOfId(id).None? <==> ';' !in id
  {
    if id == "" {
    } else if id[0] == ';' {
      if key != "" { assert key + ";" <= id ==> key[0] == (key + ";")[0] == id[0]; }
    } else {
      KeyBeforeSemicolon(id[1..], if key == "" then "" else key[1..]);
      assert id == [id[0]] + id[1..];
      if key != "" {
        assert key == [key[0]] + key[1..];
        assert key + ";" == [key[0]] + (key[1..] + ";");
      }
    }
  }
}
