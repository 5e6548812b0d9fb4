/**
  The registry of shared memory.  Identifiers map to a descriptor object, which the registry
  owns, and to the region it describes; registering can map a second identifier to a region
  that is already known, so writes through one are seen through the other.
 */
module MemoryRegistry {
  import opened Options
  import opened Counting

  /** What an identifier stands for: the address of its descriptor and its region, none where mapping it failed. */
  datatype MemoryInfo = MemoryInfo(address: nat, region: Option<nat>)

  /** Regions with their bytes, the entries by identifier, and the descriptors taken over and freed so far. */
  datatype Memory = Memory(regions: seq<string>, infos: seq<MemoryInfo>, taken: seq<nat>, freed: seq<nat>)

  const EMPTY := Memory([], [], [], [])

  predicate WellFormed(m: Memory) {
    forall i :: 0 <= i < |m.infos| && m.infos[i].region.Some? ==> m.infos[i].region.value < |m.regions|
  }

  function Splice(bytes: string, start: nat, data: string): string
    requires start + |data| <= |bytes|
  {
    bytes[..start] + data + bytes[start + |data|..]
  }

  /** Actions on the registry; a write goes through an identifier. */
  datatype Action =
    | Allocates(address: nat, bytes: string)
    | AllocatesUnmapped(address: nat)
    | Registers(address: nat, region: nat)
    | FailsToMap(address: nat)
    | Writes(id: nat, start: nat, data: string)

  /** An identifier with a region, and the bytes from `start` on inside it. */
  predicate Inside(m: Memory, id: int, start: nat, length: nat)
    requires WellFormed(m)
  {
    0 <= id < |m.infos| ==> m.infos[id].region.Some? && start + length <= |m.regions[m.infos[id].region.value]|
  }

  /** What the callers must keep to: known regions, and writes inside a mapped region. */
  predicate Allowed(m: Memory, a: Action) {
    match a
    case Allocates(_, _) => true
    case AllocatesUnmapped(_) => true
    case Registers(_, region) => region < |m.regions|
    case FailsToMap(_) => true
    case Writes(id, start, data) => WellFormed(m) && Inside(m, id, start, |data|)
  }

  function Step(m: Memory, a: Action): Memory
    requires Allowed(m, a)
  {
    match a
    case Allocates(address, bytes) =>
      m.(regions := m.regions + [bytes], infos := m.infos + [MemoryInfo(address, Some(|m.regions|))],
         taken := m.taken + [address])
    case AllocatesUnmapped(address) =>
      m.(infos := m.infos + [MemoryInfo(address, None)], taken := m.taken + [address])
    case Registers(address, region) =>
      m.(infos := m.infos + [MemoryInfo(address, Some(region))], taken := m.taken + [address])
    case FailsToMap(address) =>
      m.(taken := m.taken + [address], freed := m.freed + [address])
    case Writes(id, start, data) =>
      if id < |m.infos| then
        var r := m.infos[id].region.value;
        m.(regions := m.regions[r := Splice(m.regions[r], start, data)])
      else m
  }

  // ---- The driver ---------------------------------------------------------------------------------------

  class VtsHidlMemoryDriver {
    var table: map<int, MemoryInfo>
    var regions: seq<string>
    ghost var infos: seq<MemoryInfo>
    ghost var taken: seq<nat>
    ghost var freed: seq<nat>

    ghost function Value(): Memory
      reads this
    {
      Memory(regions, infos, taken, freed)
    }

    ghost predicate Valid()
      reads this
    {
      && WellFormed(Value()) && |table| == |infos|
      && (forall id :: id in table <==> 0 <= id < |infos|)
      && (forall id :: 0 <= id < |infos| ==> table[id] == infos[id])
    }

    constructor ()
      ensures Valid() && Value() == EMPTY
    {
      table, regions, infos, taken, freed := map[], [], [], [], [];
    }

    /** Gives the next identifier to an entry; the table never shrinks. */
    method Insert(info: MemoryInfo) returns (id: int)
      requires Valid() && (info.region.Some? ==> info.region.value < |regions|)
      modifies this`table, this`infos, this`taken
      ensures Valid() && id == |old(infos)|
      ensures Value() == old(Value()).(infos := old(infos) + [info], taken := old(taken) + [info.address])
    {
      id := |table|;
      assert id !in table;
      table := table[id := info];
      assert table.Keys == old(table).Keys + {id};
      infos := infos + [info];
      taken := taken + [info.address];
    }

    /** Maps a new region with the given contents under a new descriptor, or fails; a failure to map is not noticed. */
    method Allocate(address: nat, bytes: string, success: bool, mapped: bool) returns (id: int)
      requires Valid()
      modifies this
      ensures Valid()
      ensures !success ==> id == -1 && Value() == old(Value())
      ensures success ==>
                && id == |old(infos)|
                && Value() == Step(old(Value()),
                                   if mapped then Allocates(address, bytes) else AllocatesUnmapped(address))
    {
      if !success { return -1; }
      var region := None;
      if mapped {
        region := Some(|regions|);
        regions := regions + [bytes];
      }
      id := Insert(MemoryInfo(address, region));
    }

    /** Takes over a descriptor; `region` is none when it cannot be mapped, and then the descriptor is freed at once. */
    method RegisterHidlMemory(address: nat, region: Option<nat>) returns (id: int)
      requires Valid() && (region.Some? ==> region.value < |regions|)
      modifies this`table, this`infos, this`taken, this`freed
      ensures Valid()
      ensures region == None ==> id == -1 && Value() == Step(old(Value()), FailsToMap(address))
      ensures region.Some? ==> id == |old(infos)| && Value() == Step(old(Value()), Registers(address, region.value))
    {
      if region == None {
        taken, freed := taken + [address], freed + [address];
        return -1;
      }
      id := Insert(MemoryInfo(address, region));
    }

    method FindMemory(id: int) returns (info: Option<MemoryInfo>)
      requires Valid()
      ensures info == if 0 <= id < |infos| then Some(infos[id]) else None
    {
      if id !in table { return None; }
      return Some(table[id]);
    }

    method GetHidlMemoryAddress(id: int) returns (address: Option<nat>)
      requires Valid()
      ensures address == if 0 <= id < |infos| then Some(infos[id].address) else None
    {
      var info := FindMemory(id);
      if info == None { return None; }
      return Some(info.value.address);
    }

    method UpdateBytes(id: int, start: nat, data: string) returns (ok: bool)
      requires Valid() && Inside(Value(), id, start, |data|)
      modifies this`regions
      ensures Valid() && (ok <==> 0 <= id < |infos|)
      ensures 0 <= id ==> Value() == Step(old(Value()), Writes(id, start, data))
      ensures id < 0 ==> Value() == old(Value())
    {
      var info := FindMemory(id);
      if info == None { return false; }
      var r := info.value.region.value;
      regions := regions[r := Splice(regions[r], start, data)];
      return true;
    }

    method ReadBytes(id: int, start: nat, length: nat) returns (ok: bool, data: string)
      requires Valid() && Inside(Value(), id, start, length)
      ensures ok <==> 0 <= id < |infos|
      ensures ok ==> data == regions[infos[id].region.value][start..start + length]
    {
      var info := FindMemory(id);
      if info == None { return false, ""; }
      return true, regions[info.value.region.value][start..start + length];
    }
  }

  // ---- Runs -----------------------------------------------------------------------------------------------

  /** A run, latest action last. */
  datatype Trace = Start | Then(before: Trace, action: Action)

  predicate Legal(t: Trace) {
    t.Start? || (Legal(t.before) && Allowed(After(t.before), t.action))
  }

  function After(t: Trace): Memory
    decreases t, 0
  {
    if t.Start? then EMPTY
    else
      var m := After(t.before);
      if Allowed(m, t.action) then Step(m, t.action) else m
  }

  // What a run means, from its actions alone.

  /** Regions made so far: one for each mapped allocation. */
  function Allocations(t: Trace): nat {
    if t.Start? then 0 else Allocations(t.before) + if t.action.Allocates? then 1 else 0
  }

  /** Identifiers given out so far. */
  function Identifiers(t: Trace): nat {
    if t.Start? then 0
    else
      var a := t.action;
      Identifiers(t.before) + if a.Allocates? || a.AllocatesUnmapped? || a.Registers? then 1 else 0
  }

  /** The region behind an identifier: a new one for an allocation, the one mapped for a registration. */
  function RegionOf(t: Trace, id: nat): Option<nat> {
    if t.Start? then None
    else if id != Identifiers(t.before) then RegionOf(t.before, id)
    else match t.action
      case Allocates(_, _) => Some(Allocations(t.before))
      case Registers(_, region) => Some(region)
      case _ => None
  }

  /**
    The byte at offset `o` of region `r` that a reader should see: the last one written there
    through any identifier of the region, and the initial one if there was none.
   */
  function LastWritten(t: Trace, r: nat, o: nat): Option<char> {
    if t.Start? then None
    else match t.action
      case Allocates(_, bytes) =>
        if r != Allocations(t.before) then LastWritten(t.before, r, o)
        else if o < |bytes| then Some(bytes[o]) else None
      case Writes(id, start, data) =>
        if RegionOf(t.before, id) == Some(r) && start <= o < start + |data| then Some(data[o - start])
        else LastWritten(t.before, r, o)
      case _ => LastWritten(t.before, r, o)
  }

  lemma {:induction false} NoRegionYet(t: Trace, id: nat)
    requires id >= Identifiers(t)
    ensures RegionOf(t, id) == None
  {
    if t.Then? {
      NoRegionYet(t.before, id);
    }
  }

  /** After every legal run the table holds the regions that the actions gave to the identifiers. */
  lemma {:induction false} TableFollowsActions(t: Trace)
    requires Legal(t)
    ensures |After(t).regions| == Allocations(t) && |After(t).infos| == Identifiers(t)
    ensures forall id :: 0 <= id < Identifiers(t) ==> After(t).infos[id].region == RegionOf(t, id)
  {
    hide Splice;
    if t.Then? {
      TableFollowsActions(t.before);
      var n := Identifiers(t.before);
      forall id | 0 <= id < Identifiers(t)
        ensures After(t).infos[id].region == RegionOf(t, id)
      {
        assert id < n ==> After(t).infos[id] == After(t.before).infos[id];
      }
    }
  }

  /** After every legal run each region holds, byte by byte, what was last written to it through any identifier. */
  lemma {:induction false} RegionsHoldLastWrites(t: Trace, r: nat, o: nat)
    requires Legal(t) && r < |After(t).regions| && o < |After(t).regions[r]|
    ensures LastWritten(t, r, o) == Some(After(t).regions[r][o])
    decreases t
  {
    hide Splice;
    var m := After(t.before);
    StepOnRegion(m, t.action, r, o);
    TableFollowsActions(t.before);
    if t.action.Writes? {
      NoRegionOf(t.before, t.action.id);
    }
    if !(t.action.Allocates? && r == |m.regions|) {
      RegionsHoldLastWrites(t.before, r, o);
    }
  }

  lemma NoRegionOf(t: Trace, id: nat)
    ensures id >= Identifiers(t) ==> RegionOf(t, id) == None
  {
    if id >= Identifiers(t) {
      NoRegionYet(t, id);
    }
  }

  lemma SpliceAt(bytes: string, start: nat, data: string, o: nat)
    requires start + |data| <= |bytes| && o < |bytes|
    ensures |Splice(bytes, start, data)| == |bytes|
    ensures Splice(bytes, start, data)[o] == if start <= o < start + |data| then data[o - start] else bytes[o]
  {
  }

  /** What one action does to one byte of one region. */
  lemma StepOnRegion(m: Memory, a: Action, r: nat, o: nat)
    requires Allowed(m, a) && r < |Step(m, a).regions| && o < |Step(m, a).regions[r]|
    ensures r < |m.regions| || (a.Allocates? && r == |m.regions|)
    ensures r < |m.regions| ==> |Step(m, a).regions[r]| == |m.regions[r]|
    ensures Step(m, a).regions[r][o] ==
            if r == |m.regions| then a.bytes[o]
            else if a.Writes? && a.id < |m.infos| && m.infos[a.id].region == Some(r)
                    && a.start <= o < a.start + |a.data|
            then a.data[o - a.start] else m.regions[r][o]
  {
    if a.Writes? && a.id < |m.infos| && m.infos[a.id].region == Some(r) {
      assert |Splice(m.regions[r], a.start, a.data)| == |m.regions[r]|;
      SpliceAt(m.regions[r], a.start, a.data, o);
    }
  }

  lemma {:induction false} AlwaysWellFormed(t: Trace)
    requires Legal(t)
    ensures WellFormed(After(t))
  {
    if t.Then? {
      AlwaysWellFormed(t.before);
    }
  }

  /** Bytes of a region after a run. */
  function Contents(t: Trace, id: nat): (bytes: string)
    requires Legal(t) && RegionOf(t, id).Some?
  {
    TableFollowsActions(t);
    NoRegionOf(t, id);
    AlwaysWellFormed(t);
    After(t).regions[RegionOf(t, id).value]
  }

  /** A read through any identifier returns, byte by byte, what was last written to its region. */
  lemma ReadSeesLastWrites(t: Trace, id: nat, start: nat, length: nat, k: nat)
    requires Legal(t) && RegionOf(t, id).Some?
    requires start + length <= |Contents(t, id)| && k < length
    ensures Some(Contents(t, id)[start..start + length][k]) == LastWritten(t, RegionOf(t, id).value, start + k)
  {
    TableFollowsActions(t);
    NoRegionOf(t, id);
    AlwaysWellFormed(t);
    RegionsHoldLastWrites(t, RegionOf(t, id).value, start + k);
  }

  /** A new allocation has a region of its own, which holds its bytes; earlier identifiers keep their regions. */
  lemma AllocationIsFresh(t: Trace, address: nat, bytes: string, other: nat)
    requires Legal(t) && other < Identifiers(t)
    ensures var u, id := Then(t, Allocates(address, bytes)), Identifiers(t);
            && Legal(u) && RegionOf(u, id).Some? && Contents(u, id) == bytes
            && RegionOf(u, other) == RegionOf(t, other) && RegionOf(u, other) != RegionOf(u, id)
  {
    TableFollowsActions(t);
    AlwaysWellFormed(t);
    assert After(t).infos[other].region == RegionOf(t, other);
  }

  /** A registered identifier reads the region it was mapped to, like every other identifier of that region. */
  lemma RegistrationShares(t: Trace, address: nat, other: nat)
    requires Legal(t) && RegionOf(t, other).Some?
    ensures var u, id := Then(t, Registers(address, RegionOf(t, other).value)), Identifiers(t);
            && Legal(u) && RegionOf(u, id) == RegionOf(u, other) == RegionOf(t, other)
            && Contents(u, id) == Contents(t, other)
  {
    TableFollowsActions(t);
    NoRegionOf(t, other);
    AlwaysWellFormed(t);
  }

  /** A write touches no other region and changes no length. */
  lemma WriteIsLocal(m: Memory, id: nat, start: nat, data: string, r: nat)
    requires WellFormed(m) && Allowed(m, Writes(id, start, data)) && r < |m.regions|
    ensures var n := Step(m, Writes(id, start, data));
            && |n.regions| == |m.regions| && |n.regions[r]| == |m.regions[r]|
            && (id >= |m.infos| || m.infos[id].region != Some(r) ==> n.regions[r] == m.regions[r])
  {
  }

  // ---- Ownership of descriptors ---------------------------------------------------------------------------

  /** The addresses of the descriptors in the table. */
  function Addresses(infos: seq<MemoryInfo>): (s: seq<nat>)
    ensures |s| == |infos|
  {
    if infos == [] then [] else Addresses(infos[..|infos| - 1]) + [infos[|infos| - 1].address]
  }

  /** The destructor frees every descriptor in the table. */
  function Destroy(m: Memory): Memory {
    m.(infos := [], freed := m.freed + Addresses(m.infos))
  }

  /** Everything taken over has been freed or is in the table. */
  ghost predicate Accounted(m: Memory) {
    forall x :: Count(m.taken, x) == Count(m.freed, x) + Count(Addresses(m.infos), x)
  }

  lemma AddressesAppend(infos: seq<MemoryInfo>, info: MemoryInfo)
    ensures Addresses(infos + [info]) == Addresses(infos) + [info.address]
  {
    assert (infos + [info])[..|infos|] == infos;
  }

  /** The entry an action adds, if it adds one. */
  function Entry(m: Memory, a: Action): MemoryInfo
    requires !a.Writes?
  {
    MemoryInfo(a.address,
               if a.Registers? then Some(a.region) else if a.Allocates? then Some(|m.regions|) else None)
  }

  lemma StepKeepsAccounts(m: Memory, a: Action)
    requires Accounted(m) && Allowed(m, a)
    ensures Accounted(Step(m, a))
  {
    hide Addresses;
    hide Count;
    hide WellFormed;
    forall x
      ensures Count(Step(m, a).taken, x) == Count(Step(m, a).freed, x) + Count(Addresses(Step(m, a).infos), x)
    {
      if !a.Writes? {
        CountAppend(m.taken, [a.address], x);
        CountAppend(m.freed, [a.address], x);
        CountAppend(Addresses(m.infos), [a.address], x);
        AddressesAppend(m.infos, Entry(m, a));
      }
    }
  }

  lemma {:induction false} AlwaysAccounted(t: Trace)
    ensures Accounted(After(t))
  {
    hide Accounted;
    if t.Then? {
      AlwaysAccounted(t.before);
      if Allowed(After(t.before), t.action) {
        StepKeepsAccounts(After(t.before), t.action);
      }
    } else {
      EmptyAccounted();
    }
  }

  lemma EmptyAccounted()
    ensures Accounted(EMPTY)
  {
  }

  /** Over a whole life no descriptor is freed twice if and only if no address was registered or allocated twice. */
  lemma FreedOnceIffFresh(t: Trace)
    ensures Distinct(Destroy(After(t)).freed) <==> Distinct(After(t).taken)
  {
    var m := After(t);
    AlwaysAccounted(t);
    forall x
      ensures Count(Destroy(m).freed, x) == Count(m.taken, x)
    {
      CountAppend(m.freed, Addresses(m.infos), x);
    }
    DistinctAlike(Destroy(m).freed, m.taken);
  }

  lemma {:induction false} AddressesAt(infos: seq<MemoryInfo>, id: nat)
    requires id < |infos|
    ensures Addresses(infos)[id] == infos[id].address
    decreases |infos|
  {
    if id < |infos| - 1 {
      AddressesAt(infos[..|infos| - 1], id);
    }
  }

  /** Registering the address that the registry itself gave out frees that descriptor twice, whether or not it maps. */
  lemma OwnAddressFreedTwice(t: Trace, id: nat, a: Action)
    requires id < |After(t).infos| && Allowed(After(t), a)
    requires (a.Registers? || a.FailsToMap?) && a.address == After(t).infos[id].address
    ensures !Distinct(Destroy(After(Then(t, a))).freed)
  {
    var m := After(t);
    AlwaysAccounted(t);
    AddressesAt(m.infos, id);
    assert a.address in Addresses(m.infos);
    assert Count(m.taken, a.address) > 0;
    var i :| 0 <= i < |m.taken| && m.taken[i] == a.address;
    var taken := After(Then(t, a)).taken;
    assert taken == m.taken + [a.address];
    assert taken[i] == taken[|m.taken|];
    FreedOnceIffFresh(Then(t, a));
  }
}
