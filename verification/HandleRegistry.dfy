/**
  The registry of handle objects.  Each critical section is one step.  A slot is never
  erased: unregistering takes the object out and leaves the slot empty, so the number of
  slots is always the next identifier.
 */
module HandleRegistry {
  import opened Options
  import opened Counting

  /** Slots by identifier, and the addresses handed in and freed so far. */
  datatype Registry = Registry(slots: seq<Option<nat>>, taken: seq<nat>, freed: seq<nat>)

  const EMPTY := Registry([], [], [])

  /** A raw address as an owned object; zero is the null pointer. */
  function Object(address: nat): Option<nat> {
    if address == 0 then None else Some(address)
  }

  /** The object of a slot as a list. */
  function Held(slot: Option<nat>): seq<nat> {
    match slot case None => [] case Some(address) => [address]
  }

  function Register(g: Registry, address: nat): Registry {
    Registry(g.slots + [Object(address)], g.taken + Held(Object(address)), g.freed)
  }

  function Find(g: Registry, id: int): Option<nat> {
    if 0 <= id < |g.slots| then g.slots[id] else None
  }

  /** Takes the object out of its slot and frees it. */
  function Unregister(g: Registry, id: int): Registry {
    match Find(g, id)
    case None => g
    case Some(address) => g.(slots := g.slots[id := None], freed := g.freed + [address])
  }

  /** The objects still owned, by identifier. */
  function Owned(slots: seq<Option<nat>>): seq<nat> {
    if slots == [] then []
    else Owned(slots[..|slots| - 1]) + Held(slots[|slots| - 1])
  }

  /** The destructor frees whatever is left. */
  function Destroy(g: Registry): Registry {
    Registry([], g.taken, g.freed + Owned(g.slots))
  }

  // ---- The driver ------------------------------------------------------------------------------------

  class VtsHidlHandleDriver {
    var handles: map<int, Option<nat>>
    ghost var taken: seq<nat>
    ghost var freed: seq<nat>
    ghost var slots: seq<Option<nat>>

    /** The table holds exactly the identifiers below its size. */
    ghost predicate Valid()
      reads this
    {
      && |handles| == |slots|
      && (forall id :: id in handles <==> 0 <= id < |slots|)
      && (forall id :: 0 <= id < |slots| ==> handles[id] == slots[id])
    }

    ghost function Value(): Registry
      reads this
    {
      Registry(slots, taken, freed)
    }

    constructor ()
      ensures Valid() && Value() == EMPTY
    {
      handles, taken, freed, slots := map[], [], [], [];
    }

    /** Registers a handle object; `address` is none when creating it failed. */
    method Insert(address: Option<nat>) returns (id: int)
      requires Valid()
      modifies this
      ensures Valid()
      ensures address == None ==> id == -1 && Value() == old(Value())
      ensures address.Some? ==> id == |old(slots)| && Value() == Register(old(Value()), address.value)
    {
      if address == None { return -1; }
      id := |handles|;
      assert id !in handles;
      handles := handles[id := Object(address.value)];
      assert handles.Keys == old(handles).Keys + {id};
      slots := slots + [Object(address.value)];
      taken := taken + Held(Object(address.value));
    }

    method FindHandle(id: int, release: bool) returns (address: Option<nat>)
      requires Valid()
      modifies this`handles, this`slots
      ensures Valid()
      ensures address == Find(old(Value()), id)
      ensures slots == if release && address.Some? then old(slots)[id := None] else old(slots)
    {
      if id !in handles { return None; }
      address := handles[id];
      if release {
        handles := handles[id := None];
        assert handles.Keys == old(handles).Keys;
        slots := slots[id := None];
      }
    }

    method UnregisterHidlHandle(id: int) returns (ok: bool)
      requires Valid()
      modifies this
      ensures Valid()
      ensures ok <==> Find(old(Value()), id).Some?
      ensures Value() == Unregister(old(Value()), id)
    {
      var address := FindHandle(id, true);
      if address == None { return false; }
      freed := freed + [address.value];
      return true;
    }
  }

  // ---- Runs --------------------------------------------------------------------------------------------

  datatype Action = Registers(address: nat) | Unregisters(id: int)

  function Step(g: Registry, a: Action): Registry {
    match a
    case Registers(address) => Register(g, address)
    case Unregisters(id) => Unregister(g, id)
  }

  function Run(g: Registry, actions: seq<Action>): Registry
    decreases |actions|
  {
    if actions == [] then g else Run(Step(g, actions[0]), actions[1..])
  }

  /** Everything handed in has been freed or is still owned. */
  ghost predicate Accounted(g: Registry) {
    forall x :: Count(g.taken, x) == Count(g.freed, x) + Count(Owned(g.slots), x)
  }

  lemma OwnedAppend(slots: seq<Option<nat>>, slot: Option<nat>)
    ensures Owned(slots + [slot]) == Owned(slots) + Held(slot)
  {
    assert (slots + [slot])[..|slots|] == slots;
  }

  lemma {:induction false} OwnedAfterRelease(slots: seq<Option<nat>>, id: nat, x: nat)
    requires id < |slots|
    ensures Count(Owned(slots), x) == Count(Owned(slots[id := None]), x) + Count(Held(slots[id]), x)
    decreases |slots|
  {
    hide Owned;
    hide Count;
    var last := |slots| - 1;
    var front := slots[..last];
    assert slots == front + [slots[last]];
    OwnedAppend(front, slots[last]);
    CountAppend(Owned(front), Held(slots[last]), x);
    if id == last {
      assert slots[id := None] == front + [None];
      OwnedAppend(front, None);
      assert Owned(front) + [] == Owned(front);
    } else {
      OwnedAfterRelease(front, id, x);
      assert slots[id := None] == front[id := None] + [slots[last]];
      OwnedAppend(front[id := None], slots[last]);
      CountAppend(Owned(front[id := None]), Held(slots[last]), x);
    }
  }

  lemma StepKeepsAccounts(g: Registry, a: Action)
    requires Accounted(g)
    ensures Accounted(Step(g, a))
  {
    hide Owned;
    hide Count;
    var h := Step(g, a);
    forall x
      ensures Count(h.taken, x) == Count(h.freed, x) + Count(Owned(h.slots), x)
    {
      match a
      case Registers(address) =>
        OwnedAppend(g.slots, Object(address));
        CountAppend(g.taken, Held(Object(address)), x);
        CountAppend(Owned(g.slots), Held(Object(address)), x);
      case Unregisters(id) =>
        if Find(g, id).Some? {
          OwnedAfterRelease(g.slots, id, x);
          CountAppend(g.freed, [g.slots[id].value], x);
        }
    }
  }

  lemma {:induction false} RunKeepsAccounts(g: Registry, actions: seq<Action>)
    requires Accounted(g)
    ensures Accounted(Run(g, actions))
    decreases |actions|
  {
    hide Accounted;
    if actions != [] {
      StepKeepsAccounts(g, actions[0]);
      RunKeepsAccounts(Step(g, actions[0]), actions[1..]);
    }
  }

  /** Over a whole life, each address is freed exactly as often as it was handed in. */
  lemma FreedAsOftenAsTaken(actions: seq<Action>, x: nat)
    ensures var g := Destroy(Run(EMPTY, actions));
            Count(g.freed, x) == Count(g.taken, x)
  {
    var g := Run(EMPTY, actions);
    assert Accounted(EMPTY);
    RunKeepsAccounts(EMPTY, actions);
    CountAppend(g.freed, Owned(g.slots), x);
  }

  /** No object is freed twice if and only if no address was handed in twice. */
  lemma FreedOnceIffFresh(actions: seq<Action>)
    ensures var g := Destroy(Run(EMPTY, actions));
            Distinct(g.freed) <==> Distinct(g.taken)
  {
    var g := Destroy(Run(EMPTY, actions));
    forall x ensures Count(g.freed, x) == Count(g.taken, x) {
      FreedAsOftenAsTaken(actions, x);
    }
    DistinctAlike(g.freed, g.taken);
  }

  /** An empty slot stays empty, so an unregistered identifier is never found again. */
  lemma {:induction false} EmptySlotStays(g: Registry, actions: seq<Action>, id: nat)
    requires id < |g.slots| && g.slots[id] == None
    ensures Find(Run(g, actions), id) == None && id < |Run(g, actions).slots|
    decreases |actions|
  {
    if actions != [] {
      EmptySlotStays(Step(g, actions[0]), actions[1..], id);
    }
  }

  lemma UnregisteredNeverFound(g: Registry, id: nat, actions: seq<Action>)
    requires id < |g.slots|
    ensures Find(Run(Unregister(g, id), actions), id) == None
  {
    EmptySlotStays(Unregister(g, id), actions, id);
  }

  /** A slot keeps its object until it is unregistered, and only that empties it; identifiers are never reused. */
  lemma {:induction false} SlotKeepsObject(g: Registry, actions: seq<Action>, id: nat)
    requires id < |g.slots|
    ensures id < |Run(g, actions).slots|
    ensures Run(g, actions).slots[id] == if Unregisters(id) in actions then None else g.slots[id]
    decreases |actions|
  {
    if actions != [] {
      SlotKeepsObject(Step(g, actions[0]), actions[1..], id);
      assert actions == [actions[0]] + actions[1..];
    }
  }

  /** A registered object is found under the next identifier until that is unregistered, whatever else happens. */
  lemma RegisteredIsFound(g: Registry, address: nat, actions: seq<Action>)
    requires address != 0
    ensures Find(Run(Register(g, address), actions), |g.slots|)
         == if Unregisters(|g.slots|) in actions then None else Some(address)
  {
    SlotKeepsObject(Register(g, address), actions, |g.slots|);
  }
}
