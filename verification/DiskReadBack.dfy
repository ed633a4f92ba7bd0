/** Reading the disks of a domain definition back into "disk" blocks. */
module DiskReadBack {
  import opened Wrappers
  import opened DomainDisks
  import opened Urls

  datatype ReadSource = ReadUrl(url: Url) | ReadFile(file: string) | ReadBlock(dev: string) | ReadVolume(key: string)

  datatype ReadEntry = ReadEntry(source: ReadSource, scsi: bool, wwn: string)

  /** NilSource stands for the nil pointer a disk without a source, or a CD without a file, runs into. */
  datatype ReadError =
    | NoHosts
    | UnreadableUrl(source: Source)
    | NilSource
    | UnknownPath(path: string)
    | UnknownName(pool: string, volume: string)

  function ReadSourceOf(env: Env, disk: Disk): Result<Option<ReadSource>, ReadError> {
    if disk.source.NoSource? then Err(NilSource)
    else if disk.source.NetworkSource? then
      var s := disk.source;
      if s.hosts == [] then Err(NoHosts)
      else
        match Reread(s.protocol, s.hosts[0].name, s.hosts[0].port, s.name)
        case None => Err(UnreadableUrl(s))
        case Some(url) => Ok(Some(ReadUrl(url)))
    else if disk.device == "cdrom" then
      if disk.serial == "cloudinit" then Ok(None)
      else if disk.source.FileSource? then Ok(Some(ReadFile(disk.source.file)))
      else Err(NilSource)
    else
      match disk.source
      case BlockSource(dev) => Ok(Some(ReadBlock(dev)))
      case FileSource(file) =>
        if file in env.keyByPath then Ok(Some(ReadVolume(env.keyByPath[file]))) else Err(UnknownPath(file))
      case VolumeSource(pool, volume) =>
        if (pool, volume) in env.keyByName then Ok(Some(ReadVolume(env.keyByName[(pool, volume)])))
        else Err(UnknownName(pool, volume))
  }

  /** The entry of one disk; none for the CD of the cloud-init resource. */
  function ReadDisk(env: Env, disk: Disk): Result<Option<ReadEntry>, ReadError> {
    match ReadSourceOf(env, disk)
    case Err(error) => Err(error)
    case Ok(None) => Ok(None)
    case Ok(Some(source)) =>
      var scsi := disk.target.bus == "scsi";
      Ok(Some(ReadEntry(source, scsi, if scsi then disk.wwn else "")))
  }

  /** All entries, in order; the first error fails the read. */
  function ReadAll(env: Env, disks: seq<Disk>): Result<seq<ReadEntry>, ReadError> {
    if disks == [] then Ok([])
    else
      match ReadAll(env, disks[..|disks| - 1])
      case Err(error) => Err(error)
      case Ok(entries) =>
        match ReadDisk(env, disks[|disks| - 1])
        case Err(error) => Err(error)
        case Ok(None) => Ok(entries)
        case Ok(Some(entry)) => Ok(entries + [entry])
  }

  lemma {:induction false} FirstErrorStays(env: Env, disks: seq<Disk>, i: nat)
    requires i <= |disks| && ReadAll(env, disks[..i]).Err?
    ensures ReadAll(env, disks) == ReadAll(env, disks[..i])
    decreases |disks|
  {
    if i == |disks| {
      assert disks[..i] == disks;
    } else {
      assert disks[..|disks| - 1][..i] == disks[..i];
      FirstErrorStays(env, disks[..|disks| - 1], i);
    }
  }

  lemma ReadOneMore(env: Env, disks: seq<Disk>, disk: Disk)
    ensures ReadAll(env, disks + [disk]) ==
            match ReadAll(env, disks)
            case Err(error) => Err(error)
            case Ok(entries) =>
              match ReadDisk(env, disk)
              case Err(error) => Err(error)
              case Ok(None) => Ok(entries)
              case Ok(Some(entry)) => Ok(entries + [entry])
  {
    assert (disks + [disk])[..|disks|] == disks;
  }

  /** The disk loop of the domain read. */
  method ReadDisks(env: Env, diskDefs: seq<Disk>) returns (r: Result<seq<ReadEntry>, ReadError>)
    ensures r == ReadAll(env, diskDefs)
  {
    var disks: seq<ReadEntry> := [];
    for i := 0 to |diskDefs|
      invariant ReadAll(env, diskDefs[..i]) == Ok(disks)
    {
      var diskDef := diskDefs[i];
      ReadOneMore(env, diskDefs[..i], diskDef);
      assert diskDefs[..i + 1] == diskDefs[..i] + [diskDef];
      var source := ReadSourceOf(env, diskDef);
      if source.Err? {
        FirstErrorStays(env, diskDefs, i + 1);
        return Err(source.error);
      }
      if source.value.None? {
        continue;
      }
      var disk := ReadEntry(source.value.value, false, "");
      if diskDef.target.bus == "scsi" {
        disk := disk.(scsi := true, wwn := diskDef.wwn);
      }
      disks := disks + [disk];
    }
    assert diskDefs[..|diskDefs|] == diskDefs;
    r := Ok(disks);
  }

  // ---------------------------------------------------------------- configuration, definition, configuration

  /** Every volume is found under its pool and name again. */
  ghost predicate FindsVolumesByName(env: Env) {
    forall key :: key in env.volumes && env.volumes[key].pool.Some? ==>
      var at := (env.volumes[key].pool.value, env.volumes[key].name);
      at in env.keyByName && env.keyByName[at] == key
  }

  /** Exactly one of the four source attributes is set. */
  predicate NamesOneSource(cfg: DiskConfig) {
    match KindOf(cfg)
    case FromVolume => cfg.url == "" && cfg.file == "" && cfg.blockDevice == ""
    case FromUrl => cfg.file == "" && cfg.blockDevice == ""
    case FromFile => cfg.blockDevice == ""
    case FromBlock => true
    case FromNothing => false
  }

  /** A block the read function can give back: one source, files only as CDs, and URLs only with a scheme,
      nothing but host, port and path, and nothing in these that parsing them a second time would take for
      something else. */
  predicate Readable(env: Env, cfg: DiskConfig) {
    && NamesOneSource(cfg)
    && (KindOf(cfg) == FromFile ==> HasSuffix(cfg.file, ".iso"))
    && (KindOf(cfg) == FromUrl ==> cfg.url in env.urls && Survives(env.urls[cfg.url]))
  }

  /** The entry says what the block said; "scsi" is kept, except that a CD is never a SCSI disk. */
  predicate Faithful(env: Env, cfg: DiskConfig, entry: ReadEntry) {
    && NamesOneSource(cfg)
    && (match entry.source
        case ReadVolume(key) => KindOf(cfg) == FromVolume && cfg.volumeId == key
        case ReadUrl(url) => KindOf(cfg) == FromUrl && cfg.url in env.urls && env.urls[cfg.url] == url
        case ReadFile(file) => KindOf(cfg) == FromFile && cfg.file == file
        case ReadBlock(dev) => KindOf(cfg) == FromBlock && cfg.blockDevice == dev)
    && entry.scsi == (cfg.scsi && !IsIso(env, cfg))
    && (entry.scsi && cfg.wwn != "" ==> entry.wwn == cfg.wwn)
  }

  ghost predicate RoundTrips(env: Env, cfgs: seq<DiskConfig>, read: Result<seq<ReadEntry>, ReadError>) {
    read.Ok? && |read.value| == |cfgs| && forall i :: 0 <= i < |cfgs| ==> Faithful(env, cfgs[i], read.value[i])
  }

  /** One disk is read back faithfully exactly when its block is readable. */
  lemma DiskRoundTrip(env: Env, cfgs: seq<DiskConfig>, i: nat, random: string)
    requires FindsVolumesByName(env)
    requires i < |cfgs| && ErrorOf(env, cfgs[i]).None?
    ensures var read := ReadDisk(env, BuiltDisk(env, cfgs, i, random));
            && read != Ok(None)
            && (Readable(env, cfgs[i]) <==> read.Ok? && Faithful(env, cfgs[i], read.value.value))
  {
    if KindOf(cfgs[i]) == FromUrl { SurvivesIff(env.urls[cfgs[i].url]); }
  }

  /** The world-wide name of a SCSI disk is read back, the drawn one where the block gives none; others have
      none to read. */
  lemma WwnIsRead(env: Env, cfgs: seq<DiskConfig>, i: nat, random: string)
    requires i < |cfgs| && ErrorOf(env, cfgs[i]).None?
    ensures var read := ReadDisk(env, BuiltDisk(env, cfgs, i, random));
            read.Ok? && read.value.Some? ==>
              read.value.value.wwn ==
              if !read.value.value.scsi then "" else if cfgs[i].wwn != "" then cfgs[i].wwn else random
  {
  }

  /** A file that is no ISO image is looked up as the volume with its path, and so is the ignition disk. */
  lemma FilesAreLookedUp(env: Env, disk: Disk, file: string)
    requires disk.device == "disk" && disk.source == FileSource(file)
    ensures file in env.keyByPath ==>
              && ReadDisk(env, disk).Ok? && ReadDisk(env, disk).value.Some?
              && ReadDisk(env, disk).value.value.source == ReadVolume(env.keyByPath[file])
    ensures file !in env.keyByPath ==> ReadDisk(env, disk) == Err(UnknownPath(file))
  {
  }

  /** A disk cannot be read exactly if it has no source, or is a CD with neither a file nor a URL, or names a
      URL without a host or one that does not parse, or a file or a volume libvirt does not know. */
  lemma ErrorsOfRead(env: Env, disk: Disk, error: ReadError)
    ensures ReadDisk(env, disk) == Err(error) <==>
            match error
            case NilSource =>
              || disk.source == NoSource
              || (disk.device == "cdrom" && disk.serial != "cloudinit"
                  && (disk.source.VolumeSource? || disk.source.BlockSource?))
            case NoHosts => disk.source.NetworkSource? && disk.source.hosts == []
            case UnreadableUrl(s) =>
              && disk.source == s && s.NetworkSource? && s.hosts != []
              && Reread(s.protocol, s.hosts[0].name, s.hosts[0].port, s.name).None?
            case UnknownPath(path) =>
              disk.device != "cdrom" && disk.source == FileSource(path) && path !in env.keyByPath
            case UnknownName(pool, volume) =>
              disk.device != "cdrom" && disk.source == VolumeSource(pool, volume) && (pool, volume) !in env.keyByName
  {
  }

  /** Where every disk gives an entry or an error, entries and disks correspond. */
  lemma {:induction false} EntriesMatchDisks(env: Env, disks: seq<Disk>)
    requires forall i :: 0 <= i < |disks| ==> ReadDisk(env, disks[i]) != Ok(None)
    ensures ReadAll(env, disks).Ok? <==> forall i :: 0 <= i < |disks| ==> ReadDisk(env, disks[i]).Ok?
    ensures ReadAll(env, disks).Ok? ==>
              && |ReadAll(env, disks).value| == |disks|
              && forall i :: 0 <= i < |disks| ==> ReadDisk(env, disks[i]) == Ok(Some(ReadAll(env, disks).value[i]))
  {
    if disks == [] {
    } else {
      var front := disks[..|disks| - 1];
      EntriesMatchDisks(env, front);
      assert forall i :: 0 <= i < |front| ==> front[i] == disks[i];
    }
  }

  lemma CloudInitIsInvisible(env: Env, disks: seq<Disk>, path: string)
    ensures ReadAll(env, disks + [CloudInitDisk(path)]) == ReadAll(env, disks)
  {
    ReadOneMore(env, disks, CloudInitDisk(path));
  }

  lemma ListDisksAreVisible(env: Env, cfgs: seq<DiskConfig>, random: seq<string>)
    requires FindsVolumesByName(env)
    requires |random| == |cfgs| == Buildable(env, cfgs)
    ensures forall i :: 0 <= i < |cfgs| ==> ReadDisk(env, Built(env, cfgs, random, |cfgs|)[i]) != Ok(None)
  {
    forall i | 0 <= i < |cfgs| ensures ReadDisk(env, Built(env, cfgs, random, |cfgs|)[i]) != Ok(None) {
      DiskRoundTrip(env, cfgs, i, random[i]);
    }
  }

  /** Entry by entry, where entries and disks correspond. */
  lemma EachReadBackIff(env: Env, cfgs: seq<DiskConfig>, random: seq<string>, i: nat)
    requires FindsVolumesByName(env)
    requires |random| == |cfgs| == Buildable(env, cfgs) && i < |cfgs|
    ensures var read := ReadDisk(env, Built(env, cfgs, random, |cfgs|)[i]);
            && read != Ok(None)
            && (Readable(env, cfgs[i]) <==> read.Ok? && Faithful(env, cfgs[i], read.value.value))
  {
    DiskRoundTrip(env, cfgs, i, random[i]);
  }

  lemma ListRoundTripsIff(env: Env, cfgs: seq<DiskConfig>, random: seq<string>)
    requires FindsVolumesByName(env)
    requires |random| == |cfgs| == Buildable(env, cfgs)
    ensures RoundTrips(env, cfgs, ReadAll(env, Built(env, cfgs, random, |cfgs|)))
            <==> forall i :: 0 <= i < |cfgs| ==> Readable(env, cfgs[i])
  {
    var disks := Built(env, cfgs, random, |cfgs|);
    ListDisksAreVisible(env, cfgs, random);
    EntriesMatchDisks(env, disks);
    var read := ReadAll(env, disks);
    if forall i :: 0 <= i < |cfgs| ==> Readable(env, cfgs[i]) {
      forall i | 0 <= i < |disks| ensures ReadDisk(env, disks[i]).Ok? { EachReadBackIff(env, cfgs, random, i); }
      forall i | 0 <= i < |cfgs| ensures Faithful(env, cfgs[i], read.value[i]) {
        EachReadBackIff(env, cfgs, random, i);
      }
    }
    if RoundTrips(env, cfgs, read) {
      forall i | 0 <= i < |cfgs| ensures Readable(env, cfgs[i]) { EachReadBackIff(env, cfgs, random, i); }
    }
  }

  /** The ignition disk comes back as one volume too many, or not at all. */
  lemma IgnitionDiskIsOneTooMany(env: Env, cfgs: seq<DiskConfig>, random: seq<string>, key: string)
    requires FindsVolumesByName(env)
    requires |random| == |cfgs| == Buildable(env, cfgs)
    ensures !RoundTrips(env, cfgs, ReadAll(env, [IgnitionDisk(key)] + Built(env, cfgs, random, |cfgs|)))
  {
    var listed := Built(env, cfgs, random, |cfgs|);
    var disks := [IgnitionDisk(key)] + listed;
    ListDisksAreVisible(env, cfgs, random);
    forall j | 0 <= j < |disks| ensures ReadDisk(env, disks[j]) != Ok(None) {
      if j > 0 { assert disks[j] == listed[j - 1]; }
    }
    EntriesMatchDisks(env, disks);
  }

  lemma WithoutCloudInit(env: Env, cfgs: seq<DiskConfig>, random: seq<string>, ignition: Option<string>)
    requires FindsVolumesByName(env)
    requires |random| == |cfgs| == Buildable(env, cfgs)
    ensures RoundTrips(env, cfgs, ReadAll(env, AllDisks(env, cfgs, random, ignition, None)))
            <==> ignition.None? && forall i :: 0 <= i < |cfgs| ==> Readable(env, cfgs[i])
  {
    match ignition
    case None =>
      assert AllDisks(env, cfgs, random, ignition, None) == Built(env, cfgs, random, |cfgs|);
      ListRoundTripsIff(env, cfgs, random);
    case Some(key) =>
      assert AllDisks(env, cfgs, random, ignition, None) == [IgnitionDisk(key)] + Built(env, cfgs, random, |cfgs|);
      IgnitionDiskIsOneTooMany(env, cfgs, random, key);
  }

  /** Over every definition the provider can create: reading it gives the list back, entry by entry,
      exactly when there is no ignition disk and every block is readable. A cloud-init CD makes no
      difference. */
  lemma DisksRoundTripIff(env: Env, cfgs: seq<DiskConfig>, random: seq<string>, ignition: Option<string>,
                          cloudinit: Option<string>)
    requires FindsVolumesByName(env)
    requires |random| == |cfgs| == Buildable(env, cfgs)
    ensures RoundTrips(env, cfgs, ReadAll(env, AllDisks(env, cfgs, random, ignition, cloudinit)))
            <==> ignition.None? && forall i :: 0 <= i < |cfgs| ==> Readable(env, cfgs[i])
  {
    WithoutCloudInit(env, cfgs, random, ignition);
    if cloudinit.Some? {
      var visible := AllDisks(env, cfgs, random, ignition, None);
      assert AllDisks(env, cfgs, random, ignition, cloudinit) == visible + [CloudInitDisk(cloudinit.value)];
      CloudInitIsInvisible(env, visible, cloudinit.value);
    }
  }

  // ---------------------------------------------------------------- definitions that are not read back

  /** A file that is no ISO image is taken for a volume. */
  lemma FileIsReadAsVolume(env: Env, cfg: DiskConfig)
    requires FindsVolumesByName(env)
    requires cfg == DiskConfig(false, "", "", "", "/a.qcow2", "")
    ensures Buildable(env, [cfg]) == 1
    ensures !RoundTrips(env, [cfg], ReadAll(env, AllDisks(env, [cfg], [""], None, None)))
  {
    assert [cfg][1..] == [];
    assert !Readable(env, [cfg][0]);
    DisksRoundTripIff(env, [cfg], [""], None, None);
  }

  /** "https://h/a.iso?x=1" loses its query when the disk is defined. */
  lemma QueryIsLost(env: Env, cfg: DiskConfig, url: Url)
    requires FindsVolumesByName(env)
    requires cfg == DiskConfig(false, "", "", "https://h/a.iso?x=1", "", "")
    requires url == Url("https", "", None, "h", "", "/a.iso", Some("x=1"), "")
    requires cfg.url in env.urls && env.urls[cfg.url] == url
    ensures Buildable(env, [cfg]) == 1
    ensures !RoundTrips(env, [cfg], ReadAll(env, AllDisks(env, [cfg], [""], None, None)))
  {
    assert [cfg][1..] == [];
    assert !Readable(env, [cfg][0]);
    DisksRoundTripIff(env, [cfg], [""], None, None);
  }

  /** The path of "https://h/a%23b.iso" ends before its escaped '#' when it is read. */
  lemma EscapedPathIsCut(env: Env, cfg: DiskConfig, url: Url)
    requires FindsVolumesByName(env)
    requires cfg == DiskConfig(false, "", "", "https://h/a%23b.iso", "", "")
    requires url == Url("https", "", None, "h", "", "/a#b.iso", None, "")
    requires cfg.url in env.urls && env.urls[cfg.url] == url
    ensures Buildable(env, [cfg]) == 1
    ensures !RoundTrips(env, [cfg], ReadAll(env, AllDisks(env, [cfg], [""], None, None)))
  {
    assert [cfg][1..] == [];
    assert url.path[2] == '#';
    assert !Readable(env, [cfg][0]);
    DisksRoundTripIff(env, [cfg], [""], None, None);
  }
}
