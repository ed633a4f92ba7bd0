# A model of the libvirt provider's algorithms

The provider turns Terraform resources into calls on libvirt. Most of it copies fields; this project models the parts
that compute or coordinate something, and proves what they are for.

**The keyed lock and its clients.** `MutexStore.dfy` has the store of mutexes as a class. `LockProtocol.dfy` takes its
calls apart into atomic steps of any number of threads on any number of keys, with an inductive invariant.
`LibvirtTables.dfy` holds libvirt's tables of pools and volumes, whose calls may fail at any time, and a record of every
request: what was asked and answered, and which mutexes of the client were taken at that moment. `PoolCalls.dfy` has the
provider's calls that create and delete pools and volumes, as methods on those tables; the contract of each gives its
requests, one by one, with the keys locked during each. `PoolClients.dfy` interleaves the same calls, step by step, over
the lock protocol. `PoolCallsLaws.dfy` shows that what a method does alone is one of those interleavings.
`PoolHistory.dfy` says which histories of effects are possible and which are legal for a careful sequential client. The
main theorem is that the effects of every interleaving are a possible history that ends in the actual tables, and a
legal one if and only if no client that was misled by a failing lookup defined a pool; single definition, agreement on
volume keys and single deletion follow, the latter two for every run. `PoolProgress.dfy` shows that every run is finite
and cannot stop before all clients are done.

**DNS hosts.** `DnsHosts.dfy` groups and flattens pairs of address and hostname, `DnsGroupingLaws.dfy` shows that these
undo each other and forget the order of enumeration. `DnsUpdate.dfy` reconciles a live network; `DnsUpdateLaws.dfy`
describes the live table after every prefix of the operations sent, and `DnsRecovery.dfy` shows that an update that
stopped anywhere can be read back and continued.

**Subnets.** `Addresses.dfy` connects byte slices with integers, for masks that split a byte too. `Subnets.dfy` has the
address range and the DHCP layout on byte arrays, `NetworkRead.dfy` the way back from a libvirt network to CIDRs and the
search for the subnet of an address. Prefix notation is that of section 3.1 of RFC 4632 and section 2.3 of RFC 4291.

**Disks.** `DiskLetters.dfy` is the letter suffix, `DomainDisks.dfy` the disks of a domain definition, `DiskLaws.dfy`
what each of them is, field by field, `DiskNames.dfy` when their names collide, `DiskReadBack.dfy` when reading the
definition gives the configuration back. Reading puts URLs together from their parts and parses them again; `Urls.dfy`
says which of them survive that.

**Kernel command line and machine names.** `KernelCmdline.dfy` and `KernelCmdlineLaws.dfy` relate the greedy parser and
the sorting printer, `KernelCmdlineStability.dfy` says which lines a second pass leaves alone; `MachineNames.dfy`
relates canonical and original machine names. `GoStrings.dfy` has the sorting, splitting and joining of strings they
use.

## Where the code and its intention part

Each of these is stated as an exact condition, with a lemma at an input that fails it.

- An IPv4-mapped IPv6 CIDR (`::ffff:a.b.c.d/n`) makes `getLastIP` index a 16-byte mask with the bytes of a 4-byte
  address. The range, the layout and the read-back are right if and only if a CIDR is not of this form (single addresses
  aside, for the range).
- A pool create takes every error of its lookup for "no such pool". Whether that matters is up to libvirt, so whether it
  accepts a second pool of one name is a parameter, `acceptsDuplicates`. If it refuses, every run is sequential and pool
  names are unique, whichever lookups fail. If it accepts, a run is sequential if and only if no client whose lookup
  failed over an existing pool went on to define it, and such a run can be reached from all tables with a pool.
- The ignition block disk is always `vdb` and the cloud-init CD always `hdd`: they collide with the second listed disk
  and with a fourth ISO image.
- Only ISO images given by `file` are read back as files: any other file is read back as a volume, as is the ignition
  block disk. A URL is read back, by its parts, only if it has a scheme, no user, query or fragment, which are lost when
  the disk is defined, and neither its decoded path nor its host holds what a second parse would take for an escape, a
  query, a fragment or brackets.
- A machine listed only under a domain of a guest need not come back from its canonical name, because the way back looks
  at the arch level only.
- A kernel argument whose key is `_` is printed without its key. Keyless arguments are printed apart by the first pass
  and together by the second, so a line settles at once if and only if no argument as printed has the key `_` and no
  keyed argument sorts between keyless ones or between the first of them and all of them joined.

## Model

| member | source | states |
|---|---|---|
| `MutexStore.MutexKV.Get` | libvirt/helper/mutexkv/mutexkv.go:35-44 | returns the mutex bound to the key, binding a fresh unlocked one if there was none and no other key otherwise; distinct keys keep distinct mutexes |
| `MutexStore.MutexKV.Lock` | libvirt/helper/mutexkv/mutexkv.go:21-25 | the key's mutex ends locked, no other binding or mutex changes, and the caller is told to wait exactly if it was taken before |
| `MutexStore.MutexKV.Unlock` | libvirt/helper/mutexkv/mutexkv.go:28-32 | the key's mutex ends unlocked and the store is as it was |
| `MutexStore.MutexKV.constructor` | libvirt/helper/mutexkv/mutexkv.go:47-51 | an empty store |
| `MutexStore.LockThenUnlock` | libvirt/helper/mutexkv/mutexkv.go:21-32 | a lock and unlock of one key leaves every other key's mutex as it was |
| `LockProtocol.StepKeepsInv` | libvirt/helper/mutexkv/mutexkv.go:21-44 | every step of any thread keeps the invariant: one holder a mutex, one thread in the store, injective bindings, what each thread found is still bound |
| `LockProtocol.RunHasInv` | libvirt/helper/mutexkv/mutexkv.go:21-51 | every state of every run, for any number of threads and keys, has the invariant |
| `LockProtocol.MutualExclusion` | libvirt/helper/mutexkv/mutexkv.go:21-32 | at no time of any run do two threads hold one key, and no Unlock meets an unlocked mutex |
| `LockProtocol.BindingsAreForever` | libvirt/helper/mutexkv/mutexkv.go:35-44 | once bound, a key keeps its mutex for the rest of the run, and no other key gets it |
| `LockProtocol.ReleaseFindsItsMutex` | libvirt/helper/mutexkv/mutexkv.go:28-32 | Unlock looks up the very mutex its Lock took and finds it locked |
| `LockProtocol.StoreHolderCanMove` | libvirt/helper/mutexkv/mutexkv.go:35-44 | whoever holds the store's own mutex has a next step, so that mutex is never held while blocked |
| `LibvirtTables.Libvirt.VolCreateXML` | libvirt/resource_libvirt_volume.go:243-247 | what the create call of libvirt is taken to do: make the volume under an unused key of its pool, or say that it is there, or fail and change nothing |
| `LibvirtTables.Libvirt.PoolDefineXML` | libvirt/resource_libvirt_pool.go:124-128 | what the define call of libvirt is taken to do: add a pool with a new identity, refuse a taken name unless it accepts duplicates, or fail and change nothing |
| `PoolCalls.CreatePool` | libvirt/resource_libvirt_pool.go:77-163 | every request, from the lookup to the last wait, is made while exactly the mutex of the pool's name is taken: look up, define, build, autostart, start, refresh, wait, each only after the one before it was done, and the lookup the other way round; with the stylesheet's answer these decide the result; for each result, the tables after: one new pool of the name (also when it then fails to start), or nothing changed; the lock is released; the effect is a path of client steps |
| `PoolCalls.DeletePool` | libvirt/resource_libvirt_pool.go:227-275 | the lookup is made with nothing locked, every later request while exactly the mutex of the pool's name is taken: state, stop only an active pool, delete its storage, undefine, wait; their answers decide the result; success implies that the pool is gone, with its volumes, and that nothing else changed; a pool that is not there counts as deleted; each error names what was left; the lock is released |
| `PoolCalls.CreateVolume` | libvirt/resource_libvirt_volume.go:85-277 | every request is made while exactly the mutex of the pool's name is taken: look up the pool, refresh it, make the volume or look up the one in the way, upload if there is a source, wait; their answers decide the result; success returns a key under which the named volume is in the named pool: the one that was there, with nothing changed, or a new one; the lock is released |
| `PoolCalls.MakeOrAdopt` | libvirt/resource_libvirt_volume.go:243-257 | creates the volume, or adopts exactly the one that is in the way, under the pool's mutex |
| `PoolCalls.DeleteVolume` | libvirt/volume.go:66-121 | the volume and its pool are looked up with nothing locked, every later request is made while exactly the mutex of that pool's name is taken: refresh, describe, delete, wait; their answers decide the result, and a volume found gone counts as deleted; success means that the key is gone and nothing else is, whether it was there or not; an error names what was left; the lock is released |
| `PoolCalls.PoolCreatePath` | libvirt/resource_libvirt_pool.go:91-162 | what a pool create does to the tables is a path of the client steps that are interleaved |
| `PoolCalls.VolumeCreatePath` | libvirt/resource_libvirt_volume.go:97-276 | the same for a volume create, made or adopted |
| `PoolCallsLaws.CallIsARun` | libvirt/resource_libvirt_pool.go:77-163 | every path of a call is a run of the interleaved system with that client alone, from and to the same tables |
| `PoolClients.EffectsAreUnderTheirLock` | libvirt/volume.go:91-120 | every change to a pool's tables happens while its caller, and only its caller, holds the mutex of that pool's name |
| `PoolClients.ActKeepsSysInv` | libvirt/resource_libvirt_pool.go:91-162 | what a client has checked under its lock stays true, whatever the others do, until it unlocks |
| `PoolClients.HistoryExplainsTables` | libvirt/resource_libvirt_pool.go:91-128 | over every interleaving, whichever calls fail, the effects in order are a possible history that ends in the actual tables, and the names doubled in it are exactly those misled clients defined |
| `PoolClients.SequentialIffNoneMisled` | libvirt/resource_libvirt_pool.go:91-128 | over every interleaving, the effects in order are a legal sequential history if and only if no client misled by its lookup defined a pool |
| `PoolClients.RefusalMakesRunsSequential` | libvirt/resource_libvirt_pool.go:94-128 | if libvirt refuses a second pool of one name, every run is a legal sequential history with unique pool names, whichever lookups fail |
| `PoolClients.OnePoolAName` | libvirt/resource_libvirt_pool.go:94-99 | a name that no misled client defined belongs to one pool at most in every reachable state, whatever happened to other names |
| `PoolClients.OneDefineBetweenDeletes` | libvirt/resource_libvirt_pool.go:96-128 | between two pools defined under one name the first was undefined, unless a misled client defined that name |
| `PoolClients.ConcurrentCreatesAgree` | libvirt/resource_libvirt_volume.go:97-257 | in every run, successful creates of one volume of one pool end with one key, the later adopting, unless it was deleted between them |
| `PoolClients.CreatesByPoolNameAgree` | libvirt/resource_libvirt_volume.go:97-257 | the same for creates that give the pool by name, unless a misled client defined that name |
| `PoolClients.ConcurrentDeletesTakeEffectOnce` | libvirt/volume.go:91-121 | in every run, of the deletes of one key at most one takes effect until the key is made again |
| `PoolClients.AdoptionFindsItsVolume` | libvirt/resource_libvirt_volume.go:245-252 | in every reachable state, a create that met an existing volume can still find it |
| `PoolClients.FailedLookupDefinesTwice` | libvirt/resource_libvirt_pool.go:94-99 | where libvirt accepts duplicates: from any reachable state where a create is about to look up a pool that exists, a failing lookup leads to two pools of one name and to no legal history |
| `PoolClients.FailedLookupIsReachable` | libvirt/resource_libvirt_pool.go:94-128 | such a state is reached from all tables that have the pool, by one client alone |
| `PoolHistory.LegalIffNothingDoubled` | libvirt/resource_libvirt_pool.go:94-128 | a possible history is legal, event by event, if and only if no name was doubled in it, and then leads to the actual tables |
| `PoolHistory.DefineOnceBetweenDeletes` | libvirt/resource_libvirt_pool.go:94-128 | a name that is not doubled is defined again only after its pool was undefined |
| `PoolHistory.CreatesAgree` | libvirt/resource_libvirt_volume.go:243-257 | in a possible history two creates of one volume share a key unless it was removed between them |
| `PoolHistory.DeleteOnceBetweenCreates` | libvirt/volume.go:111-118 | in a possible history a key is deleted twice only if it was made between |
| `PoolProgress.NoDeadlock` | libvirt/helper/mutexkv/mutexkv.go:21-44 | in every state with the invariant and an unfinished client, some client has an enabled step |
| `PoolProgress.RunsAreBounded` | libvirt/resource_libvirt_volume.go:97-276 | however clients interleave and calls fail, a run has at most fifteen steps a client |
| `PoolProgress.StuckRunsAreFinished` | libvirt/resource_libvirt_pool.go:249-274 | a run that cannot go on has finished every client and left every mutex free |
| `DnsHosts.ParseNetworkDNSHostsChange` | libvirt/network_dns.go:88-145 | one entry for each address, holding its hostnames in bytewise order, whatever the order in which addresses are visited |
| `DnsHosts.GetDNSHostsFromResource` | libvirt/network_dns.go:149-176 | fails exactly if an address does not parse, naming the first; else one entry for each address with its hostnames in order |
| `DnsHosts.FlattenHosts` | libvirt/resource_libvirt_network.go:619-628 | one pair for each hostname of each entry, in order |
| `DnsGroupingLaws.FlattenGoesInOrder` | libvirt/resource_libvirt_network.go:619-628 | entries are flattened one after the other |
| `DnsGroupingLaws.GroupingForgetsOrder` | libvirt/network_dns.go:94-142 | the grouping depends on the pairs only, not on the order in which they are enumerated |
| `DnsGroupingLaws.CreateAgreesWithUpdate` | libvirt/network_dns.go:149-176 | the create path and the update path group alike, up to the order of hostnames |
| `DnsGroupingLaws.FlattenUndoesGrouping` | libvirt/resource_libvirt_network.go:619-628 | flattening grouped entries gives back the pairs, each as often as configured |
| `DnsGroupingLaws.GroupingUndoesFlatten` | libvirt/network_dns.go:94-142 | grouping flattened entries gives them back, for one nonempty sorted entry an address |
| `DnsUpdate.LiveNetwork.UpdateDNSHosts` | libvirt/network_dns.go:17-86 | sends a prefix of a plan, the whole of it exactly on success; the live table is what those operations make of it; without a change nothing is sent |
| `DnsUpdate.LiveNetwork.DeleteOld` | libvirt/network_dns.go:34-57 | deletes by address each old entry that is no new entry, up to the first refusal |
| `DnsUpdate.LiveNetwork.AddNew` | libvirt/network_dns.go:59-82 | adds each new entry that is no old entry, up to the first refusal |
| `DnsUpdateLaws.EveryPrefixIsSane` | libvirt/network_dns.go:34-82 | started from the old table, no operation is refused, and after every prefix the table has one entry an address, only old or new entries, and all entries common to both |
| `DnsUpdateLaws.UpdateReachesNewTable` | libvirt/network_dns.go:34-82 | the whole plan turns the old table into the new one, up to order |
| `DnsUpdateLaws.OnlyChangedIpsAreTouched` | libvirt/network_dns.go:34-82 | the addresses deleted and added are exactly those whose sorted hostnames changed |
| `DnsRecovery.ReadBackIsLive` | libvirt/resource_libvirt_network.go:619-628 | a live table is the grouping of the pairs read from it, whatever the order of its hostnames |
| `DnsRecovery.RecoversAfterFailure` | libvirt/network_dns.go:17-86 | wherever an update stops, reading the table back in any order and updating it to any pairs is refused nothing and reaches their table |
| `Addresses.MaskedValue` | libvirt/utils_net.go:71-71 | masking the bytes of an address rounds the number down to a multiple of two to the host bits, for any prefix |
| `Addresses.FilledValue` | libvirt/utils_net.go:57-59 | setting the complement of the mask gives the last number of that block, for any prefix |
| `Addresses.ValueInjective` | libvirt/utils_net.go:57-59 | equal numbers of equal length are equal bytes |
| `Subnets.GetLastIP` | libvirt/utils_net.go:50-62 | the fresh slice it fills holds the address with the host bits of the 16-bit mask set |
| `Subnets.NetworkRange` | libvirt/utils_net.go:65-72 | the two fresh slices it returns are the first and last address of the range |
| `Subnets.RangeIsExactIffNotMapped` | libvirt/utils_net.go:34-72 | as integers, first is the network and last is network + 2^min(host bits, 16) - 1, for all parsed CIDRs but the IPv4-mapped ones, and for those only without host bits |
| `Subnets.GetNetworkIPConfig` | libvirt/network.go:106-155 | succeeds exactly for CIDRs that parse and have three host bits or more; otherwise the error, with the number of addresses left; the entry and range are those of the in-place byte arithmetic |
| `Subnets.BumpInPlace` | libvirt/network.go:133-143 | changes the last byte, wrapping, and no other |
| `Subnets.LayoutIsRightIffNotMapped` | libvirt/network.go:106-155 | accepted exactly with three host bits or more; host = net+1, DHCP = net+2 to net+2^min(h,16)-2, no byte wrapping, exactly for CIDRs that are not IPv4-mapped |
| `Subnets.DhcpRangeIsSane` | libvirt/network.go:118-152 | the DHCP range is nonempty, inside the subnet, at most 65533 addresses, without network, host and last address |
| `Subnets.LayoutKeepsPrefix` | libvirt/network.go:130-152 | host and both ends of the DHCP range have the network's own prefix |
| `Subnets.MappedCidrGoesWrong` | libvirt/utils_net.go:50-62 | `::ffff:10.0.0.0/120` is accepted, and neither its range nor its layout is right |
| `Subnets.GetIPsFromResource` | libvirt/network.go:50-104 | one entry an address in order: host address the network + 1, its prefix and family, and, exactly if the user says so or says nothing and the mode is none, nat, route or open, the DHCP range from the network + 2 to the network + 2^min(h,16) - 2; the first bad address fails all with its error |
| `Subnets.NetworkIPsFit` | libvirt/network.go:50-104 | the entries of all accepted lists have these numbers, or the error is that of the first address refused |
| `Subnets.MappedIsBlock` | libvirt/utils_net.go:50-62 | the addresses with a 4-byte form are those of ::ffff:0:0/96, and that form is the offset in it |
| `NetworkRead.ReadNetworkAddresses` | libvirt/resource_libvirt_network.go:553-574 | the masked address and prefix of each entry, in order, or the first entry whose address does not parse |
| `NetworkRead.ReadAddressMeans` | libvirt/resource_libvirt_network.go:556-571 | what is read of any entry that parses is its number, as IPv4 where it is one, rounded down to its prefix |
| `NetworkRead.AddressRoundTrip` | libvirt/network.go:130-140 | masking the host address chosen at creation gives the canonical CIDR back, exactly if it is not IPv4-mapped |
| `NetworkRead.CreatedEntries` | libvirt/network.go:63-103 | a list of accepted CIDRs makes exactly their entries, in order |
| `NetworkRead.AddressesRoundTrip` | libvirt/resource_libvirt_network.go:553-574 | reading the entries made from a list of accepted CIDRs gives their canonical forms in order, exactly if none is IPv4-mapped |
| `NetworkRead.GetNetworkIdx` | libvirt/network_def.go:107-127 | the least index whose subnet contains the address, byte for byte and as numbers; -1 without error only if none does; an error only for no network or at the first entry that does not parse |
| `NetworkRead.ContainsIsSameBlock` | libvirt/network_def.go:120-123 | byte-wise containment is membership of the number in the subnet's block, for IPv4-mapped subnets and addresses too |
| `NetworkRead.ContainsIsCovers` | libvirt/network_def.go:115-123 | an entry parses exactly if its prefix fits its address, and its subnet contains an address exactly if the two have one family and the address rounds down to the same number |
| `NetworkRead.SearchMeans` | libvirt/network_def.go:107-127 | what the search returns in bytes is the least covering entry in numbers |
| `NetworkRead.DhcpAddressIsInOneEntry` | libvirt/network_def.go:114-124 | with pairwise disjoint subnets, an address of one DHCP range is contained in that entry's subnet and no other |
| `NetworkRead.DhcpAddressMapsToItsEntry` | libvirt/network_def.go:107-127 | so the search for an address of the i-th DHCP range returns i |
| `DiskLetters.DecodeEncode` | libvirt/utils.go:21-32 | decoding the letters of an index gives the index back |
| `DiskLetters.EncodeDecode` | libvirt/utils.go:21-32 | every nonempty lower-case word is the letters of the index it decodes to |
| `DiskLetters.LettersAreOrdered` | libvirt/utils.go:21-32 | indices are ordered as their letters, by length, then alphabetically |
| `DomainDisks.BuildDisk` | libvirt/domain.go:461-595 | one turn of the loop: the disk for its position and counters, which `DiskLaws` describes, or the error of a volume that is missing, in no pool or without a description, or of a bad URL; the ISO counter moves for ISO images only |
| `DomainDisks.DomainDef.SetDisks` | libvirt/domain.go:456-607 | appends the disks up to the first that fails, and a SCSI controller exactly if one is needed |
| `DomainDisks.DomainDef.SetCoreOSIgnition` | libvirt/domain.go:217-276 | by architecture, the seven names given one by one: a firmware argument, one block disk, or an error; nothing without ignition |
| `DomainDisks.DomainDef.SetFilesystems` | libvirt/domain.go:609-643 | appends the filesystems up to the first without source or target |
| `DomainDisks.DomainDef.SetCloudinit` | libvirt/domain.go:645-659 | appends the CD of the volume found, or fails and appends nothing |
| `DomainDisks.CreateDisks` | libvirt/resource_libvirt_domain.go:527-541 | succeeds exactly if every step can, and then the definition has the ignition disk, the listed disks and the CD, in this order, and the filesystems |
| `DiskLaws.DefinitionFits` | libvirt/domain.go:456-595 | over all definitions, a listed disk is a CD on the ide bus exactly for ISO images, else on the scsi or virtio bus as it asks; its name counts the ISO images, the SCSI blocks or the blocks before it; its driver is qcow2 exactly if it names a volume of that format and raw otherwise; its source is the first attribute set; a SCSI disk has its world-wide name or the drawn one, others none |
| `DiskLaws.FixedDisksFit` | libvirt/domain.go:182-276 | over all definitions, the ignition disk is first, read-only, virtio and `vdb`; the cloud-init CD is last, ide and `hdd` |
| `DiskLaws.SomeScsi` | libvirt/domain.go:597-604 | the SCSI controller is added exactly if some block asks for SCSI |
| `DiskLaws.ErrorsOfBlock` | libvirt/domain.go:481-529 | a block fails exactly on a volume that is missing, in no pool or not described, in this order, or on a URL that does not parse |
| `DiskLaws.KeyBeforeSemicolon` | libvirt/coreos_ignition_def.go:114-120 | the volume key of an id is what stands before its first semicolon, and an id without one has none |
| `DiskNames.ListNamesAreDistinct` | libvirt/domain.go:456-595 | names given by the list alone never collide |
| `DiskNames.IgnitionNameIsTaken` | libvirt/domain.go:251-269 | the list uses `vdb` exactly if its second disk stays a virtio disk |
| `DiskNames.CloudInitNameIsTaken` | libvirt/domain.go:182-197 | the list uses `hdd` exactly if it has four ISO images or more |
| `DiskNames.NamesAreDistinctIff` | libvirt/resource_libvirt_domain.go:527-541 | over all definitions, names are pairwise distinct if and only if neither fixed name is taken |
| `DiskNames.IgnitionCollides` | libvirt/domain.go:251-269 | an ignition disk and two block devices have colliding names |
| `DiskNames.CloudInitCollides` | libvirt/domain.go:182-197 | a cloud-init CD and four ISO images have colliding names |
| `Urls.SurvivesIff` | libvirt/resource_libvirt_domain.go:884-891 | scheme, host, port and path of a URL, put together and parsed again, give all parts of that URL if and only if it has a scheme, no other parts, and nothing in host or path is taken for something else |
| `Urls.UnescapeEscaped` | libvirt/resource_libvirt_domain.go:884-891 | the second parse decodes every percent-encoded path to its bytes, with upper- or lower-case digits |
| `Urls.PathComesApart` | libvirt/resource_libvirt_domain.go:884-891 | the second parse cuts a path at its first hash sign, and what is before it at its first question mark |
| `Urls.BracketsComeOff` | libvirt/resource_libvirt_domain.go:884-891 | the second parse takes brackets off a host |
| `DiskReadBack.ReadDisks` | libvirt/resource_libvirt_domain.go:879-945 | one entry for each disk but the cloud-init CD, in order, URLs by their parts, or the first error |
| `DiskReadBack.DiskRoundTrip` | libvirt/resource_libvirt_domain.go:879-945 | where volumes are found again by their pool and name: a listed disk is read back with its kind, value (a URL by all its parts) and SCSI setting exactly if it names one source, a file only as ISO image and a URL only if its parts survive |
| `DiskReadBack.WwnIsRead` | libvirt/resource_libvirt_domain.go:937-942 | a SCSI disk is read with its world-wide name, drawn ones too; others with none |
| `DiskReadBack.FilesAreLookedUp` | libvirt/resource_libvirt_domain.go:909-921 | a file of a disk that is no CD is looked up as the volume with that path, and the read fails if there is none |
| `DiskReadBack.ErrorsOfRead` | libvirt/resource_libvirt_domain.go:879-935 | which disks cannot be read, and with which error |
| `DiskReadBack.CloudInitIsInvisible` | libvirt/resource_libvirt_domain.go:898-903 | a cloud-init CD makes no difference to what is read |
| `DiskReadBack.IgnitionDiskIsOneTooMany` | libvirt/domain.go:251-269 | with an ignition block disk the list is never read back |
| `DiskReadBack.DisksRoundTripIff` | libvirt/resource_libvirt_domain.go:879-945 | where volumes are found again by their pool and name, over all definitions: reading gives the list back entry by entry, URLs by all their parts, if and only if there is no ignition disk and every block is readable |
| `DiskReadBack.FileIsReadAsVolume` | libvirt/resource_libvirt_domain.go:909-921 | a `.qcow2` file is not read back |
| `DiskReadBack.QueryIsLost` | libvirt/domain.go:531-542 | `https://h/a.iso?x=1` is not read back |
| `DiskReadBack.EscapedPathIsCut` | libvirt/resource_libvirt_domain.go:884-891 | `https://h/a%23b.iso` is not read back |
| `KernelCmdline.SplitKernelCmdLine` | libvirt/utils_domain_def.go:77-112 | one map for each greedy run of tokens without a repeated key, then the keyless tokens under `_` |
| `KernelCmdlineLaws.ParserIsGreedy` | libvirt/utils_domain_def.go:77-112 | for every line: the keyed tokens divided into runs that each end only where a key would repeat, a map a run with exactly its keys and values, and last one map of the keyless tokens joined, if there are any |
| `KernelCmdline.SetCmdlineArgs` | libvirt/domain.go:349-365 | the line joins all arguments of all maps in bytewise order, whatever the order in which each map is visited |
| `KernelCmdline.ArgumentCount` | libvirt/domain.go:351-361 | every key of a map gives exactly one argument |
| `GoStrings.StrLeIsBytewise` | libvirt/domain.go:363-363 | the order sorted by is decided by the first byte in which two strings differ, or by which is a prefix of the other |
| `KernelCmdlineLaws.PrintedTokens` | libvirt/domain.go:349-365 | for every line, reading and printing keeps its tokens, each `_=x` shown as `x` |
| `KernelCmdlineLaws.TokensKeptIffNoReservedKey` | libvirt/utils_domain_def.go:77-112 | the tokens are kept with their multiplicities if and only if none has the key `_` |
| `KernelCmdlineLaws.ReservedKeyIsLost` | libvirt/domain.go:354-359 | `_=x` comes back as `x` |
| `KernelCmdlineStability.StableIff` | libvirt/utils_domain_def.go:77-112 | reading and printing twice is reading and printing once if and only if no token as printed has the key `_` and no keyed argument stands between keyless ones, apart or joined |
| `KernelCmdlineStability.NormalFormIsStable` | libvirt/utils_domain_def.go:77-112 | every line without a key `_` is stable after one pass |
| `KernelCmdlineStability.StableOnlyIfShownKeysAreFree` | libvirt/domain.go:354-359 | a line is stable only if no token as printed has the key `_` |
| `KernelCmdlineStability.UnsettledLines` | libvirt/utils_domain_def.go:77-112 | no line `_=x y z` is stable where y is keyed and sorts between the keyless x and z |
| `KernelCmdlineStability.UnsettledLine` | libvirt/utils_domain_def.go:77-112 | `_=a b=1 z` is one of them |
| `KernelCmdlineLaws.ValuesKeepTheirOrder` | libvirt/utils_domain_def.go:87-105 | each other key keeps all its values in order across the list of maps |
| `KernelCmdlineLaws.GreedyIsDivision` | libvirt/utils_domain_def.go:96-105 | the greedy runs divide the tokens into contiguous runs without a repeated key |
| `KernelCmdlineLaws.FewestMaps` | libvirt/utils_domain_def.go:83-105 | no such division has fewer runs than the parser has maps |
| `MachineNames.RoundTripIff` | libvirt/utils_domain_def.go:24-72 | with the first guest of the architecture and type, for every machine whose canonical name is found on any level, and unique nonempty names at the arch level: canonical, original and canonical again is canonical once if and only if an arch entry is an alias of that name, or the name is listed, arch level first, as its own canonical name |
| `MachineNames.DomainMachineIsLost` | libvirt/utils_domain_def.go:50-71 | a machine listed under a domain only, whose canonical name is listed nowhere, does not come back |
| `MachineNames.CanonicalSurvivesRoundTrip` | libvirt/utils_domain_def.go:24-72 | canonical, original and canonical again is canonical once, for every machine of the arch level of the first guest of the architecture and type, and unique nonempty names |
| `MachineNames.OriginalOfCanonical` | libvirt/utils_domain_def.go:60-72 | at the first guest of the architecture and type, the way back ends at the starting name exactly if no other entry takes precedence as its alias |
| `MachineNames.GuestIsFirstThatFits` | libvirt/utils_domain_def.go:13-22 | the guest found is the first with both the architecture and the type, and the error means that there is none |
| `MachineNames.CanonicalIsFirstListed` | libvirt/utils_domain_def.go:24-58 | the canonical name is that of the first entry of the machine's name, the arch level before the domains |
| `MachineNames.OriginalIsFirstAlias` | libvirt/utils_domain_def.go:60-72 | the original name is that of the first arch entry that is an alias of it, or the name itself |

## Left out

- libvirt itself: its calls are taken to fail or to do what `LibvirtTables.dfy` and `DnsUpdate.Apply` say. A DNS delete
  is accepted for exactly one matching entry and an addition for none; a volume create is refused for an existing
  volume; keys of pools with different names never coincide, a pool keeps its name, undefining a pool takes its volumes
  with it, and a volume handle stands for its key. Whether libvirt refuses a second pool of one name is a parameter.
- Other programs that change libvirt's tables, and stylesheets that rename what is created.
- PoolClients.HistoryExplainsTables: the calls after an effect (build, start, upload, wait) are one step that changes no
  table, and refreshing a pool does not discover volumes; locked sections are modelled on values, thread by thread,
  beside the methods of `PoolCalls`, which run alone.
- PoolCalls.CreateVolume: whether the settings, the image, the base volume and the stylesheet of a new volume are
  accepted is one parameter; sizes and formats are not modelled.
- PoolCalls.CreatePool: whether the stylesheet can be applied is a parameter.
- Retries of a refresh and repeated looks while waiting count as one request each; the read that follows a create, still
  under its lock, changes no table and is not modelled.
- Subnets.GetIPsFromResource: the mode is taken in lower case, as the provider makes it.
- Cloud-init and ignition uploads are clients of the interleaved model (libvirt/cloudinit_def.go:57-122,
  libvirt/coreos_ignition_def.go:33-104) without a method of their own.
- Waits return or time out; that libvirt calls and waits end is assumed, as in `PoolProgress`.
- MutexStore.MutexKV.Lock: says when the caller waits; waiting itself, and others running meanwhile, is in
  `LockProtocol`.
- MutexStore.MutexKV.Get: runs while no other call has the store's own mutex; waiting for it is in `LockProtocol`.
- MutexStore.MutexKV.Unlock: likewise runs while no other call has the store's own mutex.
- DomainDisks.BuildDisk: a random world-wide name is a parameter.
- Parsing and printing of addresses and CIDRs: models start from bytes and prefixes. Zones of IPv6 addresses in
  networks.
- The first parse of a URL and its printing after the second: models start from its parts and end there. The printed
  text can differ from the configured one where the parts agree: without a port it has an empty one, as in
  `https://h:/a`.
- A DNS hosts value that is not a set of string maps, which the schema rules out.
- Connections, transfers, XML, schemas, diagnostics, images, domain settings that copy one field, DHCP host updates, and
  the connection URI: these parts compute and coordinate nothing, or rest on code that is not here.
