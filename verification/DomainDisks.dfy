/** The disks of a domain definition: those of the "disk" list, the ignition block disk that may come
    before them and the cloud-init CD that may come after them. */
module DomainDisks {
  import opened Wrappers
  import opened DiskLetters
  import opened Urls

  /** One "disk" block; an empty string is an attribute that is not set. */
  datatype DiskConfig =
    DiskConfig(scsi: bool, wwn: string, volumeId: string, url: string, file: string, blockDevice: string)

  /** A volume; None is what cannot be read of it. A volume without a format has the empty one. */
  datatype VolumeInfo = VolumeInfo(pool: Option<string>, name: string, path: Option<string>, format: Option<string>)

  /** What the outside answers: volumes by key, by pool and name and by path, and URLs that parse. */
  datatype Env = Env(volumes: map<string, VolumeInfo>, keyByName: map<(string, string), string>,
                     keyByPath: map<string, string>, urls: map<string, Url>)

  datatype Host = Host(name: string, port: string)

  datatype Source =
    | NoSource
    | VolumeSource(pool: string, volume: string)
    | NetworkSource(protocol: string, name: string, hosts: seq<Host>)
    | FileSource(file: string)
    | BlockSource(dev: string)

  datatype Target = Target(bus: string, dev: string)

  datatype Disk =
    Disk(device: string, target: Target, driver: string, source: Source, wwn: string, serial: string, readOnly: bool)

  datatype DiskError =
    | UnknownVolume(key: string)
    | NoPool(key: string)
    | NoDescription(key: string)
    | NoPath(key: string)
    | BadUrl(url: string)
    | BadTerraformId(id: string)
    | UnsupportedArch(arch: string)
    | BadFilesystem(index: nat)

  predicate HasSuffix(s: string, suffix: string) {
    |s| >= |suffix| && s[|s| - |suffix|..] == suffix
  }

  lemma IsoIsNotQcow2(s: string)
    requires HasSuffix(s, ".iso")
    ensures !HasSuffix(s, ".qcow2")
  {
    assert s[|s| - 4..][3] == 'o';
  }

  // ---------------------------------------------------------------- one disk of the list

  /** The attribute that decides where a disk comes from. */
  datatype Kind = FromVolume | FromUrl | FromFile | FromBlock | FromNothing

  function KindOf(cfg: DiskConfig): Kind {
    if cfg.volumeId != "" then FromVolume
    else if cfg.url != "" then FromUrl
    else if cfg.file != "" then FromFile
    else if cfg.blockDevice != "" then FromBlock
    else FromNothing
  }

  function ErrorOf(env: Env, cfg: DiskConfig): Option<DiskError> {
    if KindOf(cfg) == FromVolume then
      if cfg.volumeId !in env.volumes then Some(UnknownVolume(cfg.volumeId))
      else if env.volumes[cfg.volumeId].pool.None? then Some(NoPool(cfg.volumeId))
      else if env.volumes[cfg.volumeId].format.None? then Some(NoDescription(cfg.volumeId))
      else None
    else if KindOf(cfg) == FromUrl && cfg.url !in env.urls then Some(BadUrl(cfg.url))
    else None
  }

  /** Images ending in ".iso" become CD drives. */
  predicate IsIso(env: Env, cfg: DiskConfig) {
    match KindOf(cfg)
    case FromUrl => cfg.url in env.urls && HasSuffix(env.urls[cfg.url].path, ".iso")
    case FromFile => HasSuffix(cfg.file, ".iso")
    case _ => false
  }

  function SourceOf(env: Env, cfg: DiskConfig): Source
    requires ErrorOf(env, cfg).None?
  {
    match KindOf(cfg)
    case FromVolume => VolumeSource(env.volumes[cfg.volumeId].pool.value, env.volumes[cfg.volumeId].name)
    case FromUrl =>
      var url := env.urls[cfg.url];
      NetworkSource(url.scheme, url.path, [Host(url.hostname, url.port)])
    case FromFile => FileSource(cfg.file)
    case FromBlock => BlockSource(cfg.blockDevice)
    case FromNothing => NoSource
  }

  function CountIsos(env: Env, cfgs: seq<DiskConfig>): nat {
    if cfgs == [] then 0
    else CountIsos(env, cfgs[..|cfgs| - 1]) + if IsIso(env, cfgs[|cfgs| - 1]) then 1 else 0
  }

  function CountScsis(cfgs: seq<DiskConfig>): nat {
    if cfgs == [] then 0
    else CountScsis(cfgs[..|cfgs| - 1]) + if cfgs[|cfgs| - 1].scsi then 1 else 0
  }

  /** CD drives count CD drives, SCSI disks count SCSI disks (CD drives asking for SCSI included), all
      others are named by their list position. */
  function TargetFor(env: Env, cfg: DiskConfig, i: nat, isos: nat, scsis: nat): Target {
    if IsIso(env, cfg) then Target("ide", "hd" + DiskLetterForIndex(isos))
    else if cfg.scsi then Target("scsi", "sd" + DiskLetterForIndex(scsis))
    else Target("virtio", "vd" + DiskLetterForIndex(i))
  }

  function DriverOf(env: Env, cfg: DiskConfig): string
    requires ErrorOf(env, cfg).None?
  {
    if KindOf(cfg) == FromVolume && env.volumes[cfg.volumeId].format.value == "qcow2" then "qcow2" else "raw"
  }

  /** `random` is the world-wide name drawn for a SCSI disk that does not give one. */
  function DiskFor(env: Env, cfg: DiskConfig, i: nat, isos: nat, scsis: nat, random: string): Disk
    requires ErrorOf(env, cfg).None?
  {
    Disk(if IsIso(env, cfg) then "cdrom" else "disk",
         TargetFor(env, cfg, i, isos, scsis),
         DriverOf(env, cfg),
         SourceOf(env, cfg),
         if !cfg.scsi then "" else if cfg.wwn != "" then cfg.wwn else random,
         "", false)
  }

  /** The disk at list position i, named by what came before it in the list. */
  function BuiltDisk(env: Env, cfgs: seq<DiskConfig>, i: nat, random: string): Disk
    requires i < |cfgs| && ErrorOf(env, cfgs[i]).None?
  {
    DiskFor(env, cfgs[i], i, CountIsos(env, cfgs[..i]), CountScsis(cfgs[..i]), random)
  }

  /** How many disks are built before the first error. */
  function Buildable(env: Env, cfgs: seq<DiskConfig>): (k: nat)
    ensures k <= |cfgs|
    ensures forall i :: 0 <= i < k ==> ErrorOf(env, cfgs[i]).None?
    ensures k < |cfgs| ==> ErrorOf(env, cfgs[k]).Some?
  {
    if cfgs == [] || ErrorOf(env, cfgs[0]).Some? then 0 else 1 + Buildable(env, cfgs[1..])
  }

  /** The first k disks of the list. */
  function Built(env: Env, cfgs: seq<DiskConfig>, random: seq<string>, k: nat): (r: seq<Disk>)
    requires k <= |cfgs| == |random| && forall i :: 0 <= i < k ==> ErrorOf(env, cfgs[i]).None?
    ensures |r| == k && forall i :: 0 <= i < k ==> r[i] == BuiltDisk(env, cfgs, i, random[i])
  {
    seq(k, i requires 0 <= i < k => BuiltDisk(env, cfgs, i, random[i]))
  }

  // ---------------------------------------------------------------- the two fixed disks

  /** The part of a terraform id before the first ';'. */
  function VolumeKeyOfId(id: string): Option<string> {
    if id == "" then None
    else if id[0] == ';' then Some("")
    else match VolumeKeyOfId(id[1..])
      case None => None
      case Some(key) => Some([id[0]] + key)
  }

  predicate UsesFirmwareConfig(arch: string) {
    arch == "i686" || arch == "x86_64" || arch == "aarch64"
  }

  predicate UsesIgnitionDisk(arch: string) {
    arch == "s390" || arch == "s390x" || arch == "ppc64" || arch == "ppc64le"
  }

  function IgnitionDisk(key: string): Disk {
    Disk("disk", Target("virtio", "vdb"), "raw", FileSource(key), "", "ignition", true)
  }

  function CloudInitDisk(path: string): Disk {
    Disk("cdrom", Target("ide", "hdd"), "raw", FileSource(path), "", "cloudinit", false)
  }

  // ---------------------------------------------------------------- building the definition

  lemma CountsGrow(env: Env, cfgs: seq<DiskConfig>, i: nat)
    requires i < |cfgs|
    ensures CountIsos(env, cfgs[..i + 1]) == CountIsos(env, cfgs[..i]) + if IsIso(env, cfgs[i]) then 1 else 0
    ensures CountScsis(cfgs[..i + 1]) == CountScsis(cfgs[..i]) + if cfgs[i].scsi then 1 else 0
  {
    assert cfgs[..i + 1][..i] == cfgs[..i];
  }

  lemma BuiltGrows(env: Env, cfgs: seq<DiskConfig>, random: seq<string>, i: nat)
    requires i < |cfgs| == |random| && forall j :: 0 <= j <= i ==> ErrorOf(env, cfgs[j]).None?
    ensures Built(env, cfgs, random, i + 1) == Built(env, cfgs, random, i) + [BuiltDisk(env, cfgs, i, random[i])]
  {
  }

  /** The first i disks of the list are built, and the counters count them. */
  ghost predicate ListDone(env: Env, cfgs: seq<DiskConfig>, random: seq<string>, i: nat, built: seq<Disk>, isos: nat,
                           scsis: nat)
  {
    && i <= Buildable(env, cfgs) && |random| == |cfgs|
    && built == Built(env, cfgs, random, i)
    && isos == CountIsos(env, cfgs[..i]) && scsis == CountScsis(cfgs[..i])
  }

  /** The disks up to the first error, and that error. */
  ghost predicate ListEnds(env: Env, cfgs: seq<DiskConfig>, random: seq<string>, built: seq<Disk>,
                           err: Option<DiskError>)
  {
    && |random| == |cfgs|
    && built == Built(env, cfgs, random, Buildable(env, cfgs))
    && err == if Buildable(env, cfgs) < |cfgs| then ErrorOf(env, cfgs[Buildable(env, cfgs)]) else None
  }

  lemma ErrorIsFirst(env: Env, cfgs: seq<DiskConfig>, random: seq<string>, i: nat, built: seq<Disk>, isos: nat,
                     scsis: nat)
    requires ListDone(env, cfgs, random, i, built, isos, scsis) && i < |cfgs| && ErrorOf(env, cfgs[i]).Some?
    ensures ListEnds(env, cfgs, random, built, ErrorOf(env, cfgs[i]))
  {
  }

  lemma AllDone(env: Env, cfgs: seq<DiskConfig>, random: seq<string>, built: seq<Disk>, isos: nat, scsis: nat)
    requires ListDone(env, cfgs, random, |cfgs|, built, isos, scsis)
    ensures ListEnds(env, cfgs, random, built, None) && scsis == CountScsis(cfgs)
  {
    assert cfgs[..|cfgs|] == cfgs;
  }

  lemma ListStep(env: Env, cfgs: seq<DiskConfig>, random: seq<string>, i: nat, built: seq<Disk>, isos: nat, scsis: nat)
    requires ListDone(env, cfgs, random, i, built, isos, scsis) && i < |cfgs| && ErrorOf(env, cfgs[i]).None?
    ensures ListDone(env, cfgs, random, i + 1, built + [DiskFor(env, cfgs[i], i, isos, scsis, random[i])],
                     isos + (if IsIso(env, cfgs[i]) then 1 else 0), scsis + if cfgs[i].scsi then 1 else 0)
  {
    CountsGrow(env, cfgs, i);
    BuiltGrows(env, cfgs, random, i);
  }

  /** One turn of the loop over the list: the disk is first named, then given its source, and a CD drive
      renamed. */
  method BuildDisk(env: Env, cfg: DiskConfig, i: nat, isos: nat, scsis: nat, random: string)
    returns (disk: Disk, numOfISOs: nat, err: Option<DiskError>)
    ensures err == ErrorOf(env, cfg)
    ensures err.None? ==> disk == DiskFor(env, cfg, i, isos, scsis, random)
    ensures err.None? ==> numOfISOs == isos + if IsIso(env, cfg) then 1 else 0
  {
    numOfISOs, err := isos, None;
    disk := Disk("disk", Target("virtio", "vd" + DiskLetterForIndex(i)), "raw", NoSource, "", "", false);
    if cfg.scsi {
      disk := disk.(target := Target("scsi", "sd" + DiskLetterForIndex(scsis)));
      disk := disk.(wwn := if cfg.wwn != "" then cfg.wwn else random);
    }
    if cfg.volumeId != "" {
      if cfg.volumeId !in env.volumes {
        err := Some(UnknownVolume(cfg.volumeId));
        return;
      }
      var volume := env.volumes[cfg.volumeId];
      if volume.pool.None? {
        err := Some(NoPool(cfg.volumeId));
        return;
      }
      if volume.format.None? {
        err := Some(NoDescription(cfg.volumeId));
        return;
      }
      if volume.format.value == "qcow2" {
        disk := disk.(driver := "qcow2");
      }
      if volume.format.value == "raw" {
        disk := disk.(driver := "raw");
      }
      disk := disk.(source := VolumeSource(volume.pool.value, volume.name));
    } else if cfg.url != "" {
      if cfg.url !in env.urls {
        err := Some(BadUrl(cfg.url));
        return;
      }
      var url := env.urls[cfg.url];
      disk := disk.(source := NetworkSource(url.scheme, url.path, [Host(url.hostname, url.port)]));
      if HasSuffix(url.path, ".iso") {
        IsoIsNotQcow2(url.path);
        disk := disk.(device := "cdrom", target := Target("ide", "hd" + DiskLetterForIndex(numOfISOs)), driver := "");
        numOfISOs := numOfISOs + 1;
      }
      if !HasSuffix(url.path, ".qcow2") {
        disk := disk.(driver := "raw");
      }
    } else if cfg.file != "" {
      disk := disk.(source := FileSource(cfg.file));
      if HasSuffix(cfg.file, ".iso") {
        disk := disk.(device := "cdrom", driver := "raw");
        disk := disk.(target := Target("ide", "hd" + DiskLetterForIndex(numOfISOs)));
        numOfISOs := numOfISOs + 1;
      }
      if !HasSuffix(cfg.file, ".qcow2") {
        disk := disk.(driver := "raw");
      }
    } else if cfg.blockDevice != "" {
      disk := disk.(source := BlockSource(cfg.blockDevice), driver := "raw");
    }
  }

  /** One "filesystem" block. */
  datatype FilesystemConfig = FilesystemConfig(accessmode: string, source: string, target: string, readonly: bool)

  /** How many filesystems come before the first that lacks its source or target. */
  function Mountable(cfgs: seq<FilesystemConfig>): (k: nat)
    ensures k <= |cfgs|
    ensures forall i :: 0 <= i < k ==> cfgs[i].source != "" && cfgs[i].target != ""
    ensures k < |cfgs| ==> cfgs[k].source == "" || cfgs[k].target == ""
  {
    if cfgs == [] || cfgs[0].source == "" || cfgs[0].target == "" then 0 else 1 + Mountable(cfgs[1..])
  }

  class DomainDef {
    var disks: seq<Disk>
    var controllers: seq<(string, string)>
    var qemuArgs: seq<string>
    var filesystems: seq<FilesystemConfig>

    constructor ()
      ensures disks == [] && controllers == [] && qemuArgs == [] && filesystems == []
    {
      disks, controllers, qemuArgs, filesystems := [], [], [], [];
    }

    method SetCoreOSIgnition(ignition: string, fwCfgName: string, arch: string) returns (err: Option<DiskError>)
      modifies this`disks, this`qemuArgs
      ensures ignition == "" ==> err == None && disks == old(disks)
      ensures ignition != "" && VolumeKeyOfId(ignition).None? ==>
                err == Some(BadTerraformId(ignition)) && disks == old(disks)
      ensures ignition != "" && VolumeKeyOfId(ignition).Some? && arch in {"i686", "x86_64", "aarch64"} ==>
                err == None && disks == old(disks)
      ensures ignition != "" && VolumeKeyOfId(ignition).Some? && arch in {"s390", "s390x", "ppc64", "ppc64le"} ==>
                err == None && disks == old(disks) + [IgnitionDisk(VolumeKeyOfId(ignition).value)]
      ensures ignition != "" && VolumeKeyOfId(ignition).Some?
              && arch !in {"i686", "x86_64", "aarch64", "s390", "s390x", "ppc64", "ppc64le"} ==>
                err == Some(UnsupportedArch(arch)) && disks == old(disks)
      ensures qemuArgs ==
              if ignition != "" && VolumeKeyOfId(ignition).Some? && arch in {"i686", "x86_64", "aarch64"}
                 && fwCfgName != "" then
                ["-fw_cfg", "name=" + fwCfgName + ",file=" + VolumeKeyOfId(ignition).value]
              else old(qemuArgs)
    {
      err := None;
      if ignition != "" {
        var key := VolumeKeyOfId(ignition);
        if key.None? {
          return Some(BadTerraformId(ignition));
        }
        if UsesFirmwareConfig(arch) {
          if fwCfgName != "" {
            qemuArgs := ["-fw_cfg", "name=" + fwCfgName + ",file=" + key.value];
          }
        } else if UsesIgnitionDisk(arch) {
          disks := disks + [IgnitionDisk(key.value)];
        } else {
          err := Some(UnsupportedArch(arch));
        }
      }
    }

    /** Every entry needs a source and a target. */
    method SetFilesystems(cfgs: seq<FilesystemConfig>) returns (err: Option<DiskError>)
      modifies this`filesystems
      ensures filesystems == old(filesystems) + cfgs[..Mountable(cfgs)]
      ensures err == if Mountable(cfgs) < |cfgs| then Some(BadFilesystem(Mountable(cfgs))) else None
    {
      for i := 0 to |cfgs|
        invariant i <= Mountable(cfgs) && filesystems == old(filesystems) + cfgs[..i]
      {
        if cfgs[i].source == "" || cfgs[i].target == "" {
          return Some(BadFilesystem(i));
        }
        filesystems := filesystems + [cfgs[i]];
      }
      err := None;
    }

    /** `random` supplies one world-wide name a disk, used where a SCSI disk gives none. */
    method SetDisks(env: Env, cfgs: seq<DiskConfig>, random: seq<string>) returns (err: Option<DiskError>)
      requires |random| == |cfgs|
      modifies this`disks, this`controllers
      ensures disks == old(disks) + Built(env, cfgs, random, Buildable(env, cfgs))
      ensures err == if Buildable(env, cfgs) < |cfgs| then ErrorOf(env, cfgs[Buildable(env, cfgs)]) else None
      ensures controllers ==
              old(controllers) + if err.None? && CountScsis(cfgs) > 0 then [("scsi", "virtio-scsi")] else []
    {
      var scsiDisk := false;
      var numOfISOs := 0;
      var numOfSCSIs := 0;
      ghost var built: seq<Disk> := [];
      for i := 0 to |cfgs|
        invariant ListDone(env, cfgs, random, i, built, numOfISOs, numOfSCSIs)
        invariant disks == old(disks) + built
        invariant scsiDisk == (numOfSCSIs > 0)
        invariant controllers == old(controllers)
      {
        var disk, isos;
        disk, isos, err := BuildDisk(env, cfgs[i], i, numOfISOs, numOfSCSIs, random[i]);
        if err.Some? {
          ErrorIsFirst(env, cfgs, random, i, built, numOfISOs, numOfSCSIs);
          return;
        }
        ListStep(env, cfgs, random, i, built, numOfISOs, numOfSCSIs);
        built, numOfISOs := built + [disk], isos;
        if cfgs[i].scsi {
          scsiDisk := true;
          numOfSCSIs := numOfSCSIs + 1;
        }
        disks := disks + [disk];
      }
      AllDone(env, cfgs, random, built, numOfISOs, numOfSCSIs);
      if scsiDisk {
        controllers := controllers + [("scsi", "virtio-scsi")];
      }
      err := None;
    }

    method SetCloudinit(env: Env, cloudinit: string) returns (err: Option<DiskError>)
      modifies this`disks
      ensures cloudinit == "" ==> err == None && disks == old(disks)
      ensures cloudinit != "" && VolumeKeyOfId(cloudinit).None? ==>
                err == Some(BadTerraformId(cloudinit)) && disks == old(disks)
      ensures cloudinit != "" && VolumeKeyOfId(cloudinit).Some? ==>
                var key := VolumeKeyOfId(cloudinit).value;
                if key !in env.volumes then err == Some(UnknownVolume(key)) && disks == old(disks)
                else if env.volumes[key].path.None? then err == Some(NoPath(key)) && disks == old(disks)
                else err == None && disks == old(disks) + [CloudInitDisk(env.volumes[key].path.value)]
    {
      err := None;
      if cloudinit != "" {
        var key := VolumeKeyOfId(cloudinit);
        if key.None? {
          return Some(BadTerraformId(cloudinit));
        }
        if key.value !in env.volumes {
          return Some(UnknownVolume(key.value));
        }
        var path := env.volumes[key.value].path;
        if path.None? {
          return Some(NoPath(key.value));
        }
        disks := disks + [CloudInitDisk(path.value)];
      }
    }
  }

  /** Whether the ignition configuration becomes a block disk. */
  predicate AddsIgnitionDisk(ignition: string, arch: string) {
    ignition != "" && VolumeKeyOfId(ignition).Some? && UsesIgnitionDisk(arch)
  }

  /** All disks of a definition, in the order the create function adds them. */
  function AllDisks(env: Env, cfgs: seq<DiskConfig>, random: seq<string>, ignition: Option<string>,
                    cloudinit: Option<string>): seq<Disk>
    requires |random| == |cfgs| == Buildable(env, cfgs)
  {
    (match ignition case None => [] case Some(key) => [IgnitionDisk(key)])
    + Built(env, cfgs, random, |cfgs|)
    + (match cloudinit case None => [] case Some(path) => [CloudInitDisk(path)])
  }

  /** No step of domain creation from the ignition configuration to the cloud-init CD fails. */
  predicate CanCreate(env: Env, cfgs: seq<DiskConfig>, filesystems: seq<FilesystemConfig>, ignition: string,
                      arch: string, cloudinit: string)
  {
    && (ignition != "" ==> VolumeKeyOfId(ignition).Some? && (UsesFirmwareConfig(arch) || UsesIgnitionDisk(arch)))
    && Buildable(env, cfgs) == |cfgs|
    && Mountable(filesystems) == |filesystems|
    && (cloudinit != "" ==>
          && VolumeKeyOfId(cloudinit).Some? && VolumeKeyOfId(cloudinit).value in env.volumes
          && env.volumes[VolumeKeyOfId(cloudinit).value].path.Some?)
  }

  /** These steps of domain creation; an error abandons the definition. */
  method CreateDisks(env: Env, cfgs: seq<DiskConfig>, random: seq<string>, filesystems: seq<FilesystemConfig>,
                     ignition: string, fwCfgName: string, arch: string, cloudinit: string)
    returns (def: DomainDef, err: Option<DiskError>)
    requires |random| == |cfgs|
    ensures fresh(def)
    ensures err.None? <==> CanCreate(env, cfgs, filesystems, ignition, arch, cloudinit)
    ensures err.None? ==>
              def.disks == AllDisks(env, cfgs, random,
                                    if AddsIgnitionDisk(ignition, arch) then VolumeKeyOfId(ignition) else None,
                                    if cloudinit == "" then None else env.volumes[VolumeKeyOfId(cloudinit).value].path)
    ensures err.None? ==> def.filesystems == filesystems
  {
    def := new DomainDef();
    err := def.SetCoreOSIgnition(ignition, fwCfgName, arch);
    if err.Some? {
      return;
    }
    assert def.disks == if AddsIgnitionDisk(ignition, arch) then [IgnitionDisk(VolumeKeyOfId(ignition).value)] else [];
    err := def.SetDisks(env, cfgs, random);
    if err.Some? {
      return;
    }
    err := def.SetFilesystems(filesystems);
    if err.Some? {
      return;
    }
    err := def.SetCloudinit(env, cloudinit);
  }
}
