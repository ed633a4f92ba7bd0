/** Canonical and original machine names in the host capabilities. */
module MachineNames {
  import opened Wrappers

  /** An empty canonical name means the entry is not an alias. */
  datatype Machine = Machine(name: string, canonical: string)

  datatype Guest = Guest(arch: string, osType: string, machines: seq<Machine>, domains: seq<seq<Machine>>)

  datatype LookupError = NoGuest | NoMachine

  type Caps = seq<Guest>

  function GetGuestForArchType(caps: Caps, arch: string, virtType: string): Result<Guest, LookupError> {
    if caps == [] then Err(NoGuest)
    else if caps[0].arch == arch && caps[0].osType == virtType then Ok(caps[0])
    else GetGuestForArchType(caps[1..], arch, virtType)
  }

  /** The canonical name of the first entry with the given name; empty when there is none. */
  function LookupMachine(machines: seq<Machine>, target: string): string {
    if machines == [] then ""
    else if machines[0].name == target then
      if machines[0].canonical != "" then machines[0].canonical else machines[0].name
    else LookupMachine(machines[1..], target)
  }

  function LookupInDomains(domains: seq<seq<Machine>>, target: string): string {
    if domains == [] then ""
    else if LookupMachine(domains[0], target) != "" then LookupMachine(domains[0], target)
    else LookupInDomains(domains[1..], target)
  }

  function GetCanonicalMachineName(caps: Caps, arch: string, virtType: string, target: string)
    : Result<string, LookupError>
  {
    match GetGuestForArchType(caps, arch, virtType)
    case Err(error) => Err(error)
    case Ok(guest) =>
      var name := LookupMachine(guest.machines, target);
      if name != "" then Ok(name)
      else
        var inDomains := LookupInDomains(guest.domains, target);
        if inDomains != "" then Ok(inDomains) else Err(NoMachine)
  }

  /** The first entry whose canonical name is the target; the target itself when there is none. */
  function FirstAlias(machines: seq<Machine>, target: string): string {
    if machines == [] then target
    else if machines[0].canonical != "" && machines[0].canonical == target then machines[0].name
    else FirstAlias(machines[1..], target)
  }

  function GetOriginalMachineName(caps: Caps, arch: string, virtType: string, target: string)
    : Result<string, LookupError>
  {
    match GetGuestForArchType(caps, arch, virtType)
    case Err(error) => Err(error)
    case Ok(guest) => Ok(FirstAlias(guest.machines, target))
  }

  // ---------------------------------------------------------------- laws

  /** Guest g is the first for an architecture and an OS type. */
  ghost predicate IsGuestFor(caps: Caps, arch: string, virtType: string, g: nat) {
    && g < |caps| && caps[g].arch == arch && caps[g].osType == virtType
    && forall k :: 0 <= k < g ==> !(caps[k].arch == arch && caps[k].osType == virtType)
  }

  lemma {:induction false} FirstGuest(caps: Caps, arch: string, virtType: string, g: nat)
    requires IsGuestFor(caps, arch, virtType, g)
    ensures GetGuestForArchType(caps, arch, virtType) == Ok(caps[g])
  {
    if g == 0 {
    } else {
      assert !(caps[0].arch == arch && caps[0].osType == virtType);
      assert caps[1..][g - 1] == caps[g];
      FirstGuest(caps[1..], arch, virtType, g - 1);
    }
  }

  lemma {:induction false} NoGuestFits(caps: Caps, arch: string, virtType: string)
    requires forall k :: 0 <= k < |caps| ==> !(caps[k].arch == arch && caps[k].osType == virtType)
    ensures GetGuestForArchType(caps, arch, virtType) == Err(NoGuest)
  {
    if caps == [] {
    } else {
      assert !(caps[0].arch == arch && caps[0].osType == virtType);
      NoGuestFits(caps[1..], arch, virtType);
    }
  }

  lemma {:induction false} FindGuest(caps: Caps, arch: string, virtType: string) returns (g: nat)
    requires exists k :: 0 <= k < |caps| && caps[k].arch == arch && caps[k].osType == virtType
    ensures IsGuestFor(caps, arch, virtType, g)
  {
    if caps[0].arch == arch && caps[0].osType == virtType {
      g := 0;
    } else {
      var k :| 0 <= k < |caps| && caps[k].arch == arch && caps[k].osType == virtType;
      assert caps[1..][k - 1] == caps[k];
      g := FindGuest(caps[1..], arch, virtType);
      g := g + 1;
      forall l | 0 <= l < g ensures !(caps[l].arch == arch && caps[l].osType == virtType) {
        if l > 0 { assert caps[1..][l - 1] == caps[l]; }
      }
    }
  }

  /** The guest that is found is the first with both the architecture and the type; an error means there is
      none. */
  lemma GuestIsFirstThatFits(caps: Caps, arch: string, virtType: string, guest: Guest)
    ensures GetGuestForArchType(caps, arch, virtType) == Ok(guest)
            <==> exists g: nat :: IsGuestFor(caps, arch, virtType, g) && caps[g] == guest
    ensures GetGuestForArchType(caps, arch, virtType) == Err(NoGuest)
            <==> forall k :: 0 <= k < |caps| ==> !(caps[k].arch == arch && caps[k].osType == virtType)
  {
    if forall k :: 0 <= k < |caps| ==> !(caps[k].arch == arch && caps[k].osType == virtType) {
      NoGuestFits(caps, arch, virtType);
    } else {
      var g := FindGuest(caps, arch, virtType);
      FirstGuest(caps, arch, virtType, g);
      forall h: nat | IsGuestFor(caps, arch, virtType, h) ensures h == g { }
    }
  }

  ghost predicate UniqueMachines(machines: seq<Machine>) {
    && (forall i :: 0 <= i < |machines| ==> machines[i].name != "")
    && (forall i, j :: 0 <= i < j < |machines| ==> machines[i].name != machines[j].name)
  }

  ghost predicate HasMachine(machines: seq<Machine>, name: string) {
    exists i :: 0 <= i < |machines| && machines[i].name == name
  }

  function CanonicalOf(m: Machine): string {
    if m.canonical != "" then m.canonical else m.name
  }

  lemma {:induction false} LookupFindsFirst(machines: seq<Machine>, name: string, j: nat)
    requires j < |machines| && machines[j].name == name
    requires forall k :: 0 <= k < j ==> machines[k].name != name
    ensures LookupMachine(machines, name) == CanonicalOf(machines[j])
  {
    if j == 0 {
    } else {
      assert machines[1..][j - 1] == machines[j];
      LookupFindsFirst(machines[1..], name, j - 1);
    }
  }

  lemma {:induction false} LookupFindsNothing(machines: seq<Machine>, name: string)
    requires !HasMachine(machines, name)
    ensures LookupMachine(machines, name) == ""
  {
    if machines == [] {
    } else {
      assert machines[0].name != name;
      assert forall i :: 0 <= i < |machines| - 1 ==> machines[1..][i] == machines[i + 1];
      LookupFindsNothing(machines[1..], name);
    }
  }

  ghost predicate IsFirstAlias(machines: seq<Machine>, target: string, i: nat) {
    && i < |machines| && machines[i].canonical == target
    && forall j :: 0 <= j < i ==> machines[j].canonical != target
  }

  ghost predicate NoAlias(machines: seq<Machine>, target: string) {
    forall j :: 0 <= j < |machines| ==> machines[j].canonical != target
  }

  lemma {:induction false} FirstAliasIsFirst(machines: seq<Machine>, target: string)
    requires target != ""
    ensures NoAlias(machines, target) ==> FirstAlias(machines, target) == target
    ensures forall i: nat :: IsFirstAlias(machines, target, i) ==> FirstAlias(machines, target) == machines[i].name
    ensures NoAlias(machines, target) || exists i: nat :: IsFirstAlias(machines, target, i)
  {
    if machines != [] && machines[0].canonical != target {
      var rest := machines[1..];
      FirstAliasIsFirst(rest, target);
      forall i: nat | IsFirstAlias(machines, target, i) ensures FirstAlias(machines, target) == machines[i].name {
        assert IsFirstAlias(rest, target, i - 1);
      }
      if !NoAlias(rest, target) {
        var i: nat :| IsFirstAlias(rest, target, i);
        assert IsFirstAlias(machines, target, i + 1);
      }
    } else if machines != [] {
      assert IsFirstAlias(machines, target, 0);
    }
  }

  /** The lists of a guest in the order they are searched. */
  function Levels(guest: Guest): seq<seq<Machine>> {
    [guest.machines] + guest.domains
  }

  /** The first entry of a name in the first list that has it. */
  ghost predicate IsFirstListed(levels: seq<seq<Machine>>, name: string, i: nat, j: nat) {
    && i < |levels| && j < |levels[i]| && levels[i][j].name == name
    && (forall k :: 0 <= k < j ==> levels[i][k].name != name)
    && (forall l :: 0 <= l < i ==> !HasMachine(levels[l], name))
  }

  lemma {:induction false} FirstOfName(machines: seq<Machine>, name: string) returns (j: nat)
    requires HasMachine(machines, name)
    ensures j < |machines| && machines[j].name == name && forall k :: 0 <= k < j ==> machines[k].name != name
  {
    if machines[0].name == name {
      j := 0;
    } else {
      var i :| 0 <= i < |machines| && machines[i].name == name;
      assert machines[1..][i - 1].name == name;
      j := FirstOfName(machines[1..], name);
      j := j + 1;
    }
  }

  lemma {:induction false} SearchFindsFirst(levels: seq<seq<Machine>>, name: string, i: nat, j: nat)
    requires name != "" && IsFirstListed(levels, name, i, j)
    ensures LookupInDomains(levels, name) == CanonicalOf(levels[i][j]) != ""
  {
    if i == 0 {
      LookupFindsFirst(levels[0], name, j);
    } else {
      LookupFindsNothing(levels[0], name);
      assert levels[1..][i - 1] == levels[i];
      SearchFindsFirst(levels[1..], name, i - 1, j);
    }
  }

  lemma {:induction false} SearchFindsNothing(levels: seq<seq<Machine>>, name: string) returns (i: nat, j: nat)
    requires name != ""
    ensures LookupInDomains(levels, name) != "" ==> IsFirstListed(levels, name, i, j)
  {
    i, j := 0, 0;
    if levels == [] {
    } else if HasMachine(levels[0], name) {
      j := FirstOfName(levels[0], name);
    } else {
      LookupFindsNothing(levels[0], name);
      i, j := SearchFindsNothing(levels[1..], name);
      i := i + 1;
      if LookupInDomains(levels, name) != "" {
        forall l | 0 <= l < i ensures !HasMachine(levels[l], name) {
          if l > 0 { assert levels[1..][l - 1] == levels[l]; }
        }
      }
    }
  }

  lemma CanonicalIsSearch(caps: Caps, arch: string, virtType: string, g: nat, m: string)
    requires IsGuestFor(caps, arch, virtType, g)
    ensures var name := LookupInDomains(Levels(caps[g]), m);
            GetCanonicalMachineName(caps, arch, virtType, m) == if name != "" then Ok(name) else Err(NoMachine)
  {
    FirstGuest(caps, arch, virtType, g);
    assert Levels(caps[g])[1..] == caps[g].domains;
  }

  /** The canonical name is that of the first entry of the machine's name, the arch level being searched
      before the domains; an error means that there is none. */
  lemma CanonicalIsFirstListed(caps: Caps, arch: string, virtType: string, g: nat, m: string)
    requires IsGuestFor(caps, arch, virtType, g) && m != ""
    ensures forall i: nat, j: nat :: IsFirstListed([caps[g].machines] + caps[g].domains, m, i, j) ==>
              var entry := ([caps[g].machines] + caps[g].domains)[i][j];
              GetCanonicalMachineName(caps, arch, virtType, m) ==
              Ok(if entry.canonical != "" then entry.canonical else entry.name)
    ensures GetCanonicalMachineName(caps, arch, virtType, m) == Err(NoMachine)
            || exists i: nat, j: nat :: IsFirstListed([caps[g].machines] + caps[g].domains, m, i, j)
  {
    CanonicalIsSearch(caps, arch, virtType, g, m);
    var k, l := SearchFindsNothing(Levels(caps[g]), m);
    forall i: nat, j: nat | IsFirstListed(Levels(caps[g]), m, i, j)
      ensures GetCanonicalMachineName(caps, arch, virtType, m) == Ok(CanonicalOf(Levels(caps[g])[i][j]))
    {
      SearchFindsFirst(Levels(caps[g]), m, i, j);
    }
  }

  /** Some entry of the arch level is an alias of the name, or the name is listed as its own canonical one. */
  ghost predicate ComesBack(guest: Guest, c: string) {
    || (exists i :: 0 <= i < |guest.machines| && guest.machines[i].canonical == c)
    || (exists i: nat, j: nat :: IsFirstListed(Levels(guest), c, i, j) && CanonicalOf(Levels(guest)[i][j]) == c)
  }

  /** For every machine the canonical name of which is found, on whatever level: going back to an original
      name and to its canonical name again ends at the same canonical name exactly under this condition. */
  lemma RoundTripIff(caps: Caps, arch: string, virtType: string, g: nat, m: string, c: string)
    requires IsGuestFor(caps, arch, virtType, g) && UniqueMachines(caps[g].machines)
    requires GetCanonicalMachineName(caps, arch, virtType, m) == Ok(c)
    ensures GetOriginalMachineName(caps, arch, virtType, c).Ok?
    ensures var o := GetOriginalMachineName(caps, arch, virtType, c).value;
            GetCanonicalMachineName(caps, arch, virtType, o) == Ok(c) <==> ComesBack(caps[g], c)
  {
    var guest := caps[g];
    FirstGuest(caps, arch, virtType, g);
    FirstAliasIsFirst(guest.machines, c);
    if !NoAlias(guest.machines, c) {
      var i: nat :| IsFirstAlias(guest.machines, c, i);
      LookupFindsFirst(guest.machines, guest.machines[i].name, i);
    } else {
      CanonicalIsSearch(caps, arch, virtType, g, c);
      OwnNameIff(guest, c);
    }
  }

  lemma OwnNameIff(guest: Guest, c: string)
    requires c != "" && NoAlias(guest.machines, c)
    ensures LookupInDomains(Levels(guest), c) == c <==> ComesBack(guest, c)
  {
    var i, j := SearchFindsNothing(Levels(guest), c);
    if LookupInDomains(Levels(guest), c) == c { SearchFindsFirst(Levels(guest), c, i, j); }
    forall k: nat, l: nat | IsFirstListed(Levels(guest), c, k, l)
      ensures LookupInDomains(Levels(guest), c) == CanonicalOf(Levels(guest)[k][l])
    {
      SearchFindsFirst(Levels(guest), c, k, l);
    }
  }

  /** A machine known to a domain of the guest only, which does not come back: "pc" has the canonical name
      "pc-1", which is listed nowhere. */
  lemma DomainMachineIsLost(caps: Caps)
    requires caps == [Guest("x86_64", "hvm", [], [[Machine("pc", "pc-1")]])]
    ensures GetCanonicalMachineName(caps, "x86_64", "hvm", "pc") == Ok("pc-1")
    ensures GetOriginalMachineName(caps, "x86_64", "hvm", "pc-1") == Ok("pc-1")
    ensures GetCanonicalMachineName(caps, "x86_64", "hvm", "pc-1") == Err(NoMachine)
  {
    var pc := Machine("pc", "pc-1");
    assert [pc][1..] == [] && [[pc]][1..] == [];
  }

  /** Going to the canonical name, back to an original one and to its canonical name again is the same
      as going there once, for a machine of the arch level; hence the way there and back is idempotent. */
  lemma CanonicalSurvivesRoundTrip(caps: Caps, arch: string, virtType: string, g: nat, m: string)
    requires IsGuestFor(caps, arch, virtType, g)
    requires UniqueMachines(caps[g].machines) && HasMachine(caps[g].machines, m)
    ensures var c := GetCanonicalMachineName(caps, arch, virtType, m);
            && c.Ok?
            && var o := GetOriginalMachineName(caps, arch, virtType, c.value);
            && o.Ok?
            && GetCanonicalMachineName(caps, arch, virtType, o.value) == c
  {
    var guest := caps[g];
    FirstGuest(caps, arch, virtType, g);
    var i: nat :| i < |guest.machines| && guest.machines[i].name == m;
    LookupFindsFirst(guest.machines, m, i);
    var c := CanonicalOf(guest.machines[i]);
    if c == m { assert IsFirstListed(Levels(guest), m, 0, i); }
    RoundTripIff(caps, arch, virtType, g, m, c);
  }

  /** The way back goes to the first alias of a name on the arch level, or nowhere. */
  lemma OriginalIsFirstAlias(caps: Caps, arch: string, virtType: string, g: nat, c: string)
    requires IsGuestFor(caps, arch, virtType, g) && c != ""
    ensures NoAlias(caps[g].machines, c) ==> GetOriginalMachineName(caps, arch, virtType, c) == Ok(c)
    ensures forall i: nat :: IsFirstAlias(caps[g].machines, c, i) ==>
              GetOriginalMachineName(caps, arch, virtType, c) == Ok(caps[g].machines[i].name)
  {
    FirstGuest(caps, arch, virtType, g);
    FirstAliasIsFirst(caps[g].machines, c);
  }

  /** The way back ends at the name it started from exactly when no earlier entry is an alias of the same
      canonical name and, for an entry that is no alias itself, no entry is an alias of it. */
  lemma OriginalOfCanonical(caps: Caps, arch: string, virtType: string, g: nat, i: nat)
    requires IsGuestFor(caps, arch, virtType, g)
    requires UniqueMachines(caps[g].machines) && i < |caps[g].machines|
    ensures var machines := caps[g].machines;
            var m := machines[i];
            GetOriginalMachineName(caps, arch, virtType, CanonicalOf(m)) == Ok(m.name)
            <==> if m.canonical != "" then forall j :: 0 <= j < i ==> machines[j].canonical != m.canonical
                 else forall j :: 0 <= j < |machines| && j != i ==> machines[j].canonical != m.name
  {
    var machines := caps[g].machines;
    var c := CanonicalOf(machines[i]);
    FirstGuest(caps, arch, virtType, g);
    FirstAliasIsFirst(machines, c);
    if !NoAlias(machines, c) {
      var j: nat :| IsFirstAlias(machines, c, j);
    }
  }
}
