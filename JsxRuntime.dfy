/**
 * The registration side of the JSX hook registry: `jPatches` maps an element
 * type to a three-slot record `[before, after, instead]`, each slot absent or
 * a set of hooks. Hooks are opaque identifiers `H`; element types are keys `T`.
 */
module JsxRuntime {
  import opened Wrappers

  /** The three slots of a registry record, at indices 0, 1 and 2. */
  datatype Slot = Before | After | Instead

  /** The value of one registry record: each slot absent or a set of hooks. */
  datatype Entry<H> = Entry(before: Option<set<H>>, after: Option<set<H>>, instead: Option<set<H>>) {

    function Get(slot: Slot): Option<set<H>> {
      match slot
      case Before => before
      case After => after
      case Instead => instead
    }

    function With(slot: Slot, hooks: Option<set<H>>): (e: Entry<H>)
      ensures e.Get(slot) == hooks
      ensures forall other :: other != slot ==> e.Get(other) == Get(other)
    {
      match slot
      case Before => this.(before := hooks)
      case After => this.(after := hooks)
      case Instead => this.(instead := hooks)
    }

    /** Every hook of the record, whatever its slot. */
    function All(): set<H> {
      before.GetOr({}) + after.GetOr({}) + instead.GetOr({})
    }

    /** The test of `attemptCleanup`: every slot is absent or has size 0. */
    predicate Unused(): (r: bool)
      ensures r <==> before.GetOr({}) == {} && after.GetOr({}) == {} && instead.GetOr({}) == {}
    {
      |before.GetOr({})| == 0 && |after.GetOr({})| == 0 && |instead.GetOr({})| == 0
    }
  }

  lemma EntryEquality<H>(e: Entry<H>, f: Entry<H>)
    requires forall slot :: e.Get(slot) == f.Get(slot)
    ensures e == f
  {
    assert e.Get(Before) == f.Get(Before) && e.Get(After) == f.Get(After) && e.Get(Instead) == f.Get(Instead);
  }

  /** The record a first registration starts from: all three slots absent. */
  function NoSlots<H>(): Entry<H> {
    Entry(None, None, None)
  }

  /** The invariant the registry keeps: no record without a hook survives. */
  ghost predicate NoUnusedEntries<T, H>(jp: map<T, Entry<H>>) {
    forall t :: t in jp ==> !jp[t].Unused()
  }

  lemma UnusedIsNoHooks<H>(e: Entry<H>)
    ensures e.Unused() <==> e.All() == {}
    ensures e.Unused() <==> forall slot :: e.Get(slot).GetOr({}) == {}
  {
    assert e.Get(Before) == e.before && e.Get(After) == e.after && e.Get(Instead) == e.instead;
  }

  /** The registry after `etype` gains `hook` in `slot`, the slot (and the record) created on demand. */
  function Registered<T, H>(jp: map<T, Entry<H>>, etype: T, slot: Slot, hook: H): (r: map<T, Entry<H>>)
    ensures etype in r
    ensures r[etype].Get(slot) == Some((if etype in jp then jp[etype].Get(slot).GetOr({}) else {}) + {hook})
    ensures etype !in jp ==> forall other :: other != slot ==> r[etype].Get(other) == None
    ensures etype in jp ==> forall other :: other != slot ==> r[etype].Get(other) == jp[etype].Get(other)
    ensures forall t :: t in jp && t != etype ==> t in r && r[t] == jp[t]
    ensures forall t :: t in r && t != etype ==> t in jp
  {
    var e := if etype in jp then jp[etype] else NoSlots();
    jp[etype := e.With(slot, Some(e.Get(slot).GetOr({}) + {hook}))]
  }

  /**
   * The registry after a successful unpatch: `hook` leaves its slot, and the
   * record of `etype` is dropped exactly when no hook is left in it.
   */
  function Unregistered<T, H>(jp: map<T, Entry<H>>, etype: T, slot: Slot, hook: H): (r: map<T, Entry<H>>)
    requires etype in jp && jp[etype].Get(slot).Some?
    ensures etype !in r <==>
      jp[etype].Get(slot).value <= {hook} && forall other :: other != slot ==> jp[etype].Get(other).GetOr({}) == {}
    ensures etype in r ==> r[etype].Get(slot) == Some(jp[etype].Get(slot).value - {hook})
    ensures etype in r ==> forall other :: other != slot ==> r[etype].Get(other) == jp[etype].Get(other)
    ensures forall t :: t in jp && t != etype ==> t in r && r[t] == jp[t]
    ensures forall t :: t in r && t != etype ==> t in jp
  {
    var e := jp[etype].With(slot, Some(jp[etype].Get(slot).value - {hook}));
    UnusedIsNoHooks(e);
    if e.Unused() then jp - {etype} else jp[etype := e]
  }

  lemma RegisteredKeepsEntriesUsed<T, H>(jp: map<T, Entry<H>>, etype: T, slot: Slot, hook: H)
    requires NoUnusedEntries(jp)
    ensures NoUnusedEntries(Registered(jp, etype, slot, hook))
  {
    var r := Registered(jp, etype, slot, hook);
    forall t | t in r
      ensures !r[t].Unused()
    {
      if t == etype {
        assert hook in r[etype].All();
        UnusedIsNoHooks(r[etype]);
      } else {
        assert t in jp - {etype};
      }
    }
  }

  lemma UnregisteredKeepsEntriesUsed<T, H>(jp: map<T, Entry<H>>, etype: T, slot: Slot, hook: H)
    requires NoUnusedEntries(jp)
    requires etype in jp && jp[etype].Get(slot).Some?
    ensures NoUnusedEntries(Unregistered(jp, etype, slot, hook))
  {
    var r := Unregistered(jp, etype, slot, hook);
    forall t | t in r
      ensures !r[t].Unused()
    {
      if t == etype {
        var e := jp[etype].With(slot, Some(jp[etype].Get(slot).value - {hook}));
        assert r[etype] == e;
        UnusedIsNoHooks(e);
      } else {
        assert t in jp - {etype};
      }
    }
  }

  /** Registering the same hook twice for the same type and slot leaves one copy. */
  lemma RegisterIdempotent<T, H>(jp: map<T, Entry<H>>, etype: T, slot: Slot, hook: H)
    ensures Registered(Registered(jp, etype, slot, hook), etype, slot, hook) == Registered(jp, etype, slot, hook)
  {
    var once := Registered(jp, etype, slot, hook);
    var twice := Registered(once, etype, slot, hook);
    assert twice[etype].Get(slot) == once[etype].Get(slot);
    forall other ensures twice[etype].Get(other) == once[etype].Get(other) { }
    assert twice[etype] == once[etype];
    assert twice - {etype} == once - {etype};
  }

  /**
   * Registering a hook on a type that has no record and unpatching it again
   * leaves no trace: the next registration is a first registration.
   */
  lemma RegisterThenUnregisterRestores<T, H>(jp: map<T, Entry<H>>, etype: T, slot: Slot, hook: H)
    requires etype !in jp
    ensures var r := Registered(jp, etype, slot, hook);
      Unregistered(r, etype, slot, hook) == jp
  {
    var r := Registered(jp, etype, slot, hook);
    assert r[etype].All() == {hook} by {
      forall other | other != slot ensures r[etype].Get(other) == None { }
      forall sl ensures r[etype].Get(sl) == NoSlots<H>().With(slot, Some({hook})).Get(sl) {
        if sl == slot {
          assert {} + {hook} == {hook};
        } else {
          assert NoSlots<H>().Get(sl) == None;
        }
      }
      EntryEquality(r[etype], NoSlots<H>().With(slot, Some({hook})));
    }
    var u := Unregistered(r, etype, slot, hook);
    assert etype !in u;
    assert u - {etype} == jp - {etype} == jp;
  }

  /**
   * A registry record as stored: each slot absent or the allocation number of
   * the `Set` object it holds (see `JsxPatches.sets`).
   */
  datatype Patches = Patches(before: Option<nat>, after: Option<nat>, instead: Option<nat>) {

    function Get(slot: Slot): Option<nat> {
      match slot
      case Before => before
      case After => after
      case Instead => instead
    }

    function With(slot: Slot, id: nat): (p: Patches)
      ensures p.Get(slot) == Some(id)
      ensures forall other :: other != slot ==> p.Get(other) == Get(other)
    {
      match slot
      case Before => this.(before := Some(id))
      case After => this.(after := Some(id))
      case Instead => this.(instead := Some(id))
    }
  }

  /** The value of a stored record against the store of sets. */
  function EntryOf<H>(p: Patches, store: seq<set<H>>): (e: Entry<H>)
    requires InStore(p, store)
    ensures forall slot :: e.Get(slot) == MembersOf(p.Get(slot), store)
  {
    Entry(MembersOf(p.Get(Before), store), MembersOf(p.Get(After), store), MembersOf(p.Get(Instead), store))
  }

  function MembersOf<H>(o: Option<nat>, store: seq<set<H>>): Option<set<H>>
    requires o.Some? ==> o.value < |store|
  {
    if o.Some? then Some(store[o.value]) else None
  }

  ghost predicate InStore<H>(p: Patches, store: seq<set<H>>) {
    forall slot :: p.Get(slot).Some? ==> p.Get(slot).value < |store|
  }

  /** A record none of whose slots is set `k` keeps its value when set `k` changes or a set is allocated. */
  lemma EntryOfFrame<H>(p: Patches, store: seq<set<H>>, store': seq<set<H>>, k: nat)
    requires InStore(p, store) && |store| <= |store'|
    requires forall slot :: p.Get(slot) != Some(k)
    requires forall id :: 0 <= id < |store| && id != k ==> store'[id] == store[id]
    ensures InStore(p, store') && EntryOf(p, store') == EntryOf(p, store)
  {
    EntryEquality(EntryOf(p, store'), EntryOf(p, store));
  }

  /** Each slot of each record holds a set allocated for exactly that type and slot. */
  ghost predicate SlotsOwned<T, H>(jp: map<T, Patches>, store: seq<set<H>>, owner: seq<(T, Slot)>) {
    && |owner| == |store|
    && forall t, slot :: t in jp && jp[t].Get(slot).Some? ==>
         jp[t].Get(slot).value < |store| && owner[jp[t].Get(slot).value] == (t, slot)
  }

  /** Set `id` is live while it is still the slot it was allocated for. */
  ghost predicate IsLive<T>(jp: map<T, Patches>, owner: seq<(T, Slot)>, id: nat)
    requires id < |owner|
  {
    owner[id].0 in jp && jp[owner[id].0].Get(owner[id].1) == Some(id)
  }

  /**
   * The registry invariant: slots hold their own sets, a set dropped with its
   * record is empty (nothing can refill it), and no record without a hook survives.
   */
  ghost predicate StoreValid<T, H>(jp: map<T, Patches>, store: seq<set<H>>, owner: seq<(T, Slot)>) {
    SlotsOwned(jp, store, owner) && OrphansEmpty(jp, store, owner) && AllUsed(jp, store)
  }

  /** A set that is no longer in its slot (its record was dropped) is empty. */
  ghost predicate OrphansEmpty<T, H>(jp: map<T, Patches>, store: seq<set<H>>, owner: seq<(T, Slot)>) {
    forall id :: 0 <= id < |store| && id < |owner| && store[id] != {} ==> IsLive(jp, owner, id)
  }

  /** Every record holds a hook. */
  ghost predicate AllUsed<T, H>(jp: map<T, Patches>, store: seq<set<H>>) {
    forall t :: t in jp ==> InStore(jp[t], store) && !EntryOf(jp[t], store).Unused()
  }

  /** The registry as a map from element type to record value. */
  ghost function StoreContents<T, H>(jp: map<T, Patches>, store: seq<set<H>>): (c: map<T, Entry<H>>)
    requires forall t :: t in jp ==> InStore(jp[t], store)
    ensures c.Keys == jp.Keys
  {
    map t | t in jp :: EntryOf(jp[t], store)
  }

  /** Whether registering in `slot` of `etype` has to allocate a new set. */
  predicate NeedsSet<T>(jp: map<T, Patches>, etype: T, slot: Slot) {
    etype !in jp || jp[etype].Get(slot).None?
  }

  /** The records after the lazy allocation: a new set, numbered `next`, in `slot` of `etype` if it had none. */
  function WithSlot<T>(jp: map<T, Patches>, next: nat, etype: T, slot: Slot): (r: map<T, Patches>)
    ensures etype in r && r[etype].Get(slot).Some?
  {
    if etype !in jp then jp[etype := Patches(None, None, None).With(slot, next)]
    else if jp[etype].Get(slot).None? then jp[etype := jp[etype].With(slot, next)]
    else jp
  }

  /**
   * One registration step on the stored values: the lazy allocation of
   * `WithSlot`, then `hook` added to the set the slot holds.
   */
  ghost predicate RegisterStep<T, H>(
    jp: map<T, Patches>, store: seq<set<H>>, owner: seq<(T, Slot)>, etype: T, slot: Slot, hook: H,
    jp': map<T, Patches>, store': seq<set<H>>, owner': seq<(T, Slot)>)
  {
    && jp' == WithSlot(jp, |store|, etype, slot)
    && owner' == (if NeedsSet(jp, etype, slot) then owner + [(etype, slot)] else owner)
    && var mid := if NeedsSet(jp, etype, slot) then store + [{}] else store;
       var id := jp'[etype].Get(slot).value;
       id < |mid| && store' == mid[id := mid[id] + {hook}]
  }

  /** The lazy allocation gives the new set number to the slot it was made for and to no other. */
  lemma RegisterOwned<T, H>(
    jp: map<T, Patches>, store: seq<set<H>>, owner: seq<(T, Slot)>, etype: T, slot: Slot, hook: H,
    jp': map<T, Patches>, store': seq<set<H>>, owner': seq<(T, Slot)>)
    requires SlotsOwned(jp, store, owner)
    requires RegisterStep(jp, store, owner, etype, slot, hook, jp', store', owner')
    ensures SlotsOwned(jp', store', owner') && owner <= owner'
    ensures |store'| == |store| + (if NeedsSet(jp, etype, slot) then 1 else 0)
    ensures forall k :: 0 <= k < |store| && Some(k) != jp'[etype].Get(slot) ==> store'[k] == store[k]
  {
  }

  /** Records of other types keep their value across a registration. */
  lemma RegisterKeepsOthers<T, H>(
    jp: map<T, Patches>, store: seq<set<H>>, owner: seq<(T, Slot)>, etype: T, slot: Slot, hook: H,
    jp': map<T, Patches>, store': seq<set<H>>, owner': seq<(T, Slot)>)
    requires SlotsOwned(jp, store, owner)
    requires RegisterStep(jp, store, owner, etype, slot, hook, jp', store', owner')
    ensures forall t :: t in jp' && t != etype ==>
      t in jp && InStore(jp[t], store) && InStore(jp'[t], store') && EntryOf(jp'[t], store') == EntryOf(jp[t], store)
  {
    var id := jp'[etype].Get(slot).value;
    RegisterOwned(jp, store, owner, etype, slot, hook, jp', store', owner');
    forall t | t in jp' && t != etype
      ensures t in jp && InStore(jp[t], store) && InStore(jp'[t], store') && EntryOf(jp'[t], store') == EntryOf(jp[t], store)
    {
      assert jp'[t] == jp[t];
      forall sl ensures jp'[t].Get(sl) != Some(id) {
        if jp'[t].Get(sl).Some? {
          assert owner'[jp'[t].Get(sl).value] == (t, sl);
        }
      }
      EntryOfFrame(jp'[t], store, store', id);
    }
  }

  /** The record of the registered type gains the hook in its slot and keeps its other slots. */
  lemma RegisterUpdatesEntry<T, H>(
    jp: map<T, Patches>, store: seq<set<H>>, owner: seq<(T, Slot)>, etype: T, slot: Slot, hook: H,
    jp': map<T, Patches>, store': seq<set<H>>, owner': seq<(T, Slot)>)
    requires SlotsOwned(jp, store, owner)
    requires RegisterStep(jp, store, owner, etype, slot, hook, jp', store', owner')
    ensures InStore(jp'[etype], store')
    ensures var e := if etype in jp then EntryOf(jp[etype], store) else NoSlots();
      EntryOf(jp'[etype], store') == e.With(slot, Some(e.Get(slot).GetOr({}) + {hook}))
  {
    RegisterOwned(jp, store, owner, etype, slot, hook, jp', store', owner');
    var e := if etype in jp then EntryOf(jp[etype], store) else NoSlots();
    var f := e.With(slot, Some(e.Get(slot).GetOr({}) + {hook}));
    forall sl ensures EntryOf(jp'[etype], store').Get(sl) == f.Get(sl) {
      if sl != slot && etype in jp {
        assert jp'[etype].Get(sl) == jp[etype].Get(sl);
        if jp[etype].Get(sl).Some? {
          assert owner[jp[etype].Get(sl).value] == (etype, sl);
        }
      }
    }
    EntryEquality(EntryOf(jp'[etype], store'), f);
  }

  /** Registration only fills a set that is in its slot, so every dropped set stays empty. */
  lemma RegisterKeepsOrphansEmpty<T, H>(
    jp: map<T, Patches>, store: seq<set<H>>, owner: seq<(T, Slot)>, etype: T, slot: Slot, hook: H,
    jp': map<T, Patches>, store': seq<set<H>>, owner': seq<(T, Slot)>)
    requires SlotsOwned(jp, store, owner) && OrphansEmpty(jp, store, owner)
    requires RegisterStep(jp, store, owner, etype, slot, hook, jp', store', owner')
    ensures OrphansEmpty(jp', store', owner')
  {
    RegisterOwned(jp, store, owner, etype, slot, hook, jp', store', owner');
    var id := jp'[etype].Get(slot).value;
    forall k | 0 <= k < |store'| && k < |owner'| && store'[k] != {}
      ensures IsLive(jp', owner', k)
    {
      if k != id {
        assert store[k] != {} && IsLive(jp, owner, k);
      }
    }
  }

  /** Registration leaves no record without a hook: the registered record now holds one. */
  lemma RegisterKeepsUsed<T, H>(
    jp: map<T, Patches>, store: seq<set<H>>, owner: seq<(T, Slot)>, etype: T, slot: Slot, hook: H,
    jp': map<T, Patches>, store': seq<set<H>>, owner': seq<(T, Slot)>)
    requires SlotsOwned(jp, store, owner) && AllUsed(jp, store)
    requires RegisterStep(jp, store, owner, etype, slot, hook, jp', store', owner')
    ensures AllUsed(jp', store')
  {
    RegisterKeepsOthers(jp, store, owner, etype, slot, hook, jp', store', owner');
    RegisterUpdatesEntry(jp, store, owner, etype, slot, hook, jp', store', owner');
    var e := EntryOf(jp'[etype], store');
    assert hook in e.Get(slot).value;
    UnusedIsNoHooks(e);
  }

  /** Registration keeps the invariant. */
  lemma RegisterKeepsValid<T, H>(
    jp: map<T, Patches>, store: seq<set<H>>, owner: seq<(T, Slot)>, etype: T, slot: Slot, hook: H,
    jp': map<T, Patches>, store': seq<set<H>>, owner': seq<(T, Slot)>)
    requires StoreValid(jp, store, owner)
    requires RegisterStep(jp, store, owner, etype, slot, hook, jp', store', owner')
    ensures StoreValid(jp', store', owner')
  {
    RegisterOwned(jp, store, owner, etype, slot, hook, jp', store', owner');
    RegisterKeepsOrphansEmpty(jp, store, owner, etype, slot, hook, jp', store', owner');
    RegisterKeepsUsed(jp, store, owner, etype, slot, hook, jp', store', owner');
  }

  /** Registration changes the registry's value as `Registered` says. */
  lemma RegisterUpdatesContents<T, H>(
    jp: map<T, Patches>, store: seq<set<H>>, owner: seq<(T, Slot)>, etype: T, slot: Slot, hook: H,
    jp': map<T, Patches>, store': seq<set<H>>, owner': seq<(T, Slot)>)
    requires SlotsOwned(jp, store, owner)
    requires RegisterStep(jp, store, owner, etype, slot, hook, jp', store', owner')
    ensures forall t :: t in jp' ==> InStore(jp'[t], store')
    ensures StoreContents(jp', store') == Registered(StoreContents(jp, store), etype, slot, hook)
  {
    RegisterKeepsOthers(jp, store, owner, etype, slot, hook, jp', store', owner');
    RegisterUpdatesEntry(jp, store, owner, etype, slot, hook, jp', store', owner');
    var before := StoreContents(jp, store);
    var after := Registered(before, etype, slot, hook);
    var now := StoreContents(jp', store');
    assert now.Keys == after.Keys;
    forall t | t in now ensures now[t] == after[t] {
      if t == etype {
        assert etype in jp ==> before[etype] == EntryOf(jp[etype], store);
      }
    }
  }

  /** One successful unpatch on the stored values: the hook leaves the captured set, then the cleanup check. */
  ghost predicate UnpatchStep<T, H>(
    jp: map<T, Patches>, store: seq<set<H>>, owner: seq<(T, Slot)>, u: Unpatch<T, H>,
    jp': map<T, Patches>, store': seq<set<H>>)
  {
    && u.hooks < |owner| && owner[u.hooks] == (u.etype, u.slot)
    && u.hooks < |store| && u.hook in store[u.hooks]
    && store' == store[u.hooks := store[u.hooks] - {u.hook}]
    && u.etype in jp && InStore(jp[u.etype], store')
    && jp' == (if EntryOf(jp[u.etype], store').Unused() then jp - {u.etype} else jp)
  }

  /** The record of the unpatched type loses the hook from the captured slot, and nothing else. */
  lemma UnpatchUpdatesEntry<T, H>(
    jp: map<T, Patches>, store: seq<set<H>>, owner: seq<(T, Slot)>, u: Unpatch<T, H>,
    jp': map<T, Patches>, store': seq<set<H>>)
    requires SlotsOwned(jp, store, owner)
    requires UnpatchStep(jp, store, owner, u, jp', store') && IsLive(jp, owner, u.hooks)
    ensures InStore(jp[u.etype], store) && jp[u.etype].Get(u.slot) == Some(u.hooks)
    ensures var e := EntryOf(jp[u.etype], store);
      EntryOf(jp[u.etype], store') == e.With(u.slot, Some(e.Get(u.slot).value - {u.hook}))
  {
    var e := EntryOf(jp[u.etype], store);
    var f := e.With(u.slot, Some(e.Get(u.slot).value - {u.hook}));
    forall sl ensures EntryOf(jp[u.etype], store').Get(sl) == f.Get(sl) {
      if sl != u.slot && jp[u.etype].Get(sl).Some? {
        assert owner[jp[u.etype].Get(sl).value] == (u.etype, sl);
      }
    }
    EntryEquality(EntryOf(jp[u.etype], store'), f);
  }

  /** Records of other types keep their value across an unpatch. */
  lemma UnpatchKeepsOthers<T, H>(
    jp: map<T, Patches>, store: seq<set<H>>, owner: seq<(T, Slot)>, u: Unpatch<T, H>,
    jp': map<T, Patches>, store': seq<set<H>>)
    requires SlotsOwned(jp, store, owner)
    requires UnpatchStep(jp, store, owner, u, jp', store')
    ensures forall t :: t in jp' && t != u.etype ==>
      t in jp && InStore(jp'[t], store') && EntryOf(jp'[t], store') == EntryOf(jp[t], store)
  {
    forall t | t in jp' && t != u.etype
      ensures t in jp && InStore(jp'[t], store') && EntryOf(jp'[t], store') == EntryOf(jp[t], store)
    {
      forall sl ensures jp'[t].Get(sl) != Some(u.hooks) {
        if jp'[t].Get(sl).Some? {
          assert owner[jp'[t].Get(sl).value] == (t, sl);
        }
      }
      EntryOfFrame(jp'[t], store, store', u.hooks);
    }
  }

  /** A successful unpatch keeps the invariant: a set it empties with its record dropped is empty. */
  lemma UnpatchKeepsValid<T, H>(
    jp: map<T, Patches>, store: seq<set<H>>, owner: seq<(T, Slot)>, u: Unpatch<T, H>,
    jp': map<T, Patches>, store': seq<set<H>>)
    requires StoreValid(jp, store, owner)
    requires UnpatchStep(jp, store, owner, u, jp', store')
    ensures StoreValid(jp', store', owner)
  {
    assert IsLive(jp, owner, u.hooks);
    UnpatchUpdatesEntry(jp, store, owner, u, jp', store');
    UnpatchKeepsOthers(jp, store, owner, u, jp', store');
    var e := EntryOf(jp[u.etype], store');
    UnusedIsNoHooks(e);
    forall k | 0 <= k < |store'| && store'[k] != {}
      ensures IsLive(jp', owner, k)
    {
      assert store[k] != {} && IsLive(jp, owner, k);
      if owner[k].0 == u.etype {
        assert e.Get(owner[k].1) == Some(store'[k]);
      }
    }
  }

  /**
   * A successful unpatch changes the registry's value as `Unregistered` says;
   * the record it found the hook in was still there.
   */
  lemma UnpatchUpdatesContents<T, H>(
    jp: map<T, Patches>, store: seq<set<H>>, owner: seq<(T, Slot)>, u: Unpatch<T, H>,
    jp': map<T, Patches>, store': seq<set<H>>)
    requires SlotsOwned(jp, store, owner)
    requires UnpatchStep(jp, store, owner, u, jp', store') && IsLive(jp, owner, u.hooks)
    ensures var c := StoreContents(jp, store);
      u.etype in c && c[u.etype].Get(u.slot).Some?
    ensures forall t :: t in jp' ==> InStore(jp'[t], store')
    ensures StoreContents(jp', store') == Unregistered(StoreContents(jp, store), u.etype, u.slot, u.hook)
  {
    UnpatchUpdatesEntry(jp, store, owner, u, jp', store');
    UnpatchKeepsOthers(jp, store, owner, u, jp', store');
    var before := StoreContents(jp, store);
    var e := EntryOf(jp[u.etype], store');
    UnusedIsNoHooks(e);
    var after := Unregistered(before, u.etype, u.slot, u.hook);
    var now := StoreContents(jp', store');
    assert now.Keys == after.Keys;
    forall t | t in now ensures now[t] == after[t] {
    }
  }

  /**
   * What an unpatch closure captures: the element type, the slot, the very
   * `Set` object the hook went into (by allocation number), and the hook.
   */
  datatype Unpatch<T, H> = Unpatch(etype: T, slot: Slot, hooks: nat, hook: H)

  /**
   * The `jPatches` map. The `Set` objects it has allocated are kept in `sets`,
   * indexed by allocation number, so that a set dropped with its record keeps
   * its identity for the closures that still hold it.
   */
  class JsxPatches<T(==), H(==)> {
    var jPatches: map<T, Patches>
    var sets: seq<set<H>>
    // the type and slot each set was allocated for
    ghost var owner: seq<(T, Slot)>

    ghost predicate Valid()
      reads this
    {
      StoreValid(jPatches, sets, owner)
    }

    /** The registry as a map from element type to record value. */
    ghost function Contents(): (c: map<T, Entry<H>>)
      reads this
      requires Valid()
      ensures NoUnusedEntries(c)
    {
      StoreContents(jPatches, sets)
    }

    /** A handle is valid for this registry when its set was allocated here for its type and slot. */
    ghost predicate Handles(u: Unpatch<T, H>)
      reads this
    {
      u.hooks < |owner| && owner[u.hooks] == (u.etype, u.slot)
    }

    /** Allocation only appends: every set keeps its number, and only the set at `except` may change. */
    ghost predicate Extends(oldSets: seq<set<H>>, oldOwner: seq<(T, Slot)>, except: nat)
      reads this
    {
      && |oldSets| <= |sets| && oldOwner <= owner
      && forall id :: 0 <= id < |oldSets| && id != except ==> sets[id] == oldSets[id]
    }

    constructor ()
      ensures Valid() && Contents() == map[] && sets == []
    {
      jPatches := map[];
      sets := [];
      owner := [];
    }

    /**
     * The lazy allocation at the head of `beforeJSX` and its siblings: the
     * record of `etype` is created with only `slot` set, or `slot` is added to
     * it, when missing; `id` is the set that slot then holds.
     */
    method SlotSet(etype: T, slot: Slot) returns (id: nat)
      requires Valid()
      modifies this
      ensures jPatches == WithSlot(old(jPatches), old(|sets|), etype, slot)
      ensures sets == if NeedsSet(old(jPatches), etype, slot) then old(sets) + [{}] else old(sets)
      ensures owner == if NeedsSet(old(jPatches), etype, slot) then old(owner) + [(etype, slot)] else old(owner)
      ensures Some(id) == jPatches[etype].Get(slot) && id < |sets|
    {
      if etype !in jPatches {
        jPatches := jPatches[etype := Patches(None, None, None).With(slot, |sets|)];
        sets, owner := sets + [{}], owner + [(etype, slot)];
      } else if jPatches[etype].Get(slot).None? {
        jPatches := jPatches[etype := jPatches[etype].With(slot, |sets|)];
        sets, owner := sets + [{}], owner + [(etype, slot)];
      } else {
        assert jPatches[etype].Get(slot).value < |sets|;
      }
      id := jPatches[etype].Get(slot).value;
    }

    /** The shared body of `beforeJSX`, `afterJSX` and `insteadJSX`. */
    method Register(etype: T, slot: Slot, hook: H) returns (u: Unpatch<T, H>)
      requires Valid()
      modifies this
      ensures Valid()
      ensures Contents() == Registered(old(Contents()), etype, slot, hook)
      ensures u.etype == etype && u.slot == slot && u.hook == hook && Handles(u)
      ensures Contents()[etype].Get(slot) == Some(sets[u.hooks])
      ensures Extends(old(sets), old(owner), u.hooks)
      ensures etype !in old(Contents()) ==> u.hooks >= old(|sets|)
      // a slot's set is allocated only when missing; a present set, even an empty one, is reused
      ensures jPatches == WithSlot(old(jPatches), old(|sets|), etype, slot)
      ensures u.hooks == if NeedsSet(old(jPatches), etype, slot) then old(|sets|) else old(jPatches)[etype].Get(slot).value
    {
      ghost var oldP, oldSets, oldOwner := jPatches, sets, owner;
      var hooks := SlotSet(etype, slot);
      sets := sets[hooks := sets[hooks] + {hook}];
      u := Unpatch(etype, slot, hooks, hook);
      RegisterKeepsValid(oldP, oldSets, oldOwner, etype, slot, hook, jPatches, sets, owner);
      RegisterUpdatesContents(oldP, oldSets, oldOwner, etype, slot, hook, jPatches, sets, owner);
      RegisterOwned(oldP, oldSets, oldOwner, etype, slot, hook, jPatches, sets, owner);
    }

    /** The cleanup check: drop the record of `etype` once no slot holds a hook. */
    method AttemptCleanup(etype: T)
      requires etype in jPatches && InStore(jPatches[etype], sets)
      modifies this`jPatches
      ensures jPatches == if EntryOf(old(jPatches[etype]), sets).Unused() then old(jPatches) - {etype} else old(jPatches)
    {
      if EntryOf(jPatches[etype], sets).Unused() {
        jPatches := jPatches - {etype};
      }
    }

    /**
     * Calls an unpatch closure: removes the hook from the captured set and,
     * only if it was there, runs the cleanup check.
     */
    method RunUnpatch(u: Unpatch<T, H>) returns (res: bool)
      requires Valid() && Handles(u)
      modifies this
      ensures Valid() && owner == old(owner) && |sets| == old(|sets|)
      ensures res == (u.hook in old(sets)[u.hooks])
      ensures !res ==> jPatches == old(jPatches) && sets == old(sets)
      // a successful removal finds the record still there, which the cleanup check's lookup relies on
      ensures res ==> u.etype in old(Contents()) && old(Contents())[u.etype].Get(u.slot).Some?
      ensures Contents() == if res then Unregistered(old(Contents()), u.etype, u.slot, u.hook) else old(Contents())
      ensures u.hook !in sets[u.hooks]
      ensures Extends(old(sets), old(owner), u.hooks)
      // the record is kept as it was, sets and all, or dropped
      ensures jPatches == old(jPatches) || jPatches == old(jPatches) - {u.etype}
    {
      ghost var oldP, oldSets := jPatches, sets;
      // `set.delete(patch)`: reports whether the hook was there; deleting an absent hook changes nothing
      res := u.hook in sets[u.hooks];
      if res {
        sets := sets[u.hooks := sets[u.hooks] - {u.hook}];
        assert IsLive(jPatches, owner, u.hooks);
        AttemptCleanup(u.etype);
        UnpatchKeepsValid(oldP, oldSets, owner, u, jPatches, sets);
        UnpatchUpdatesContents(oldP, oldSets, owner, u, jPatches, sets);
      }
    }

    /** `afterJSX`: registers a hook run after an element of `etype` is created. */
    method AfterJSX(etype: T, patch: H) returns (u: Unpatch<T, H>)
      requires Valid()
      modifies this
      ensures Valid()
      ensures Contents() == Registered(old(Contents()), etype, After, patch)
      ensures u == Unpatch(etype, After, u.hooks, patch) && Handles(u)
      ensures Contents()[etype].Get(After) == Some(sets[u.hooks])
      ensures Extends(old(sets), old(owner), u.hooks)
      ensures etype !in old(Contents()) ==> u.hooks >= old(|sets|)
      ensures jPatches == WithSlot(old(jPatches), old(|sets|), etype, After)
      ensures u.hooks == if NeedsSet(old(jPatches), etype, After) then old(|sets|) else old(jPatches)[etype].Get(After).value
    {
      u := Register(etype, After, patch);
    }

    /** `beforeJSX`: registers a hook run on the arguments before an element of `etype` is created. */
    method BeforeJSX(etype: T, patch: H) returns (u: Unpatch<T, H>)
      requires Valid()
      modifies this
      ensures Valid()
      ensures Contents() == Registered(old(Contents()), etype, Before, patch)
      ensures u == Unpatch(etype, Before, u.hooks, patch) && Handles(u)
      ensures Contents()[etype].Get(Before) == Some(sets[u.hooks])
      ensures Extends(old(sets), old(owner), u.hooks)
      ensures etype !in old(Contents()) ==> u.hooks >= old(|sets|)
      ensures jPatches == WithSlot(old(jPatches), old(|sets|), etype, Before)
      ensures u.hooks == if NeedsSet(old(jPatches), etype, Before) then old(|sets|) else old(jPatches)[etype].Get(Before).value
    {
      u := Register(etype, Before, patch);
    }

    /** `insteadJSX`: registers a hook that may replace the creation of an element of `etype`. */
    method InsteadJSX(etype: T, patch: H) returns (u: Unpatch<T, H>)
      requires Valid()
      modifies this
      ensures Valid()
      ensures Contents() == Registered(old(Contents()), etype, Instead, patch)
      ensures u == Unpatch(etype, Instead, u.hooks, patch) && Handles(u)
      ensures Contents()[etype].Get(Instead) == Some(sets[u.hooks])
      ensures Extends(old(sets), old(owner), u.hooks)
      ensures etype !in old(Contents()) ==> u.hooks >= old(|sets|)
      ensures jPatches == WithSlot(old(jPatches), old(|sets|), etype, Instead)
      ensures u.hooks == if NeedsSet(old(jPatches), etype, Instead) then old(|sets|) else old(jPatches)[etype].Get(Instead).value
    {
      u := Register(etype, Instead, patch);
    }
  }

  /**
   * A client: a hook registered on a fresh type, unpatched twice. The first
   * call succeeds and drops the record; the second reports no removal. A
   * stale handle does not reach the set a later registration allocates.
   */
  method UnpatchTwiceClient<T(==), H(==)>(etype: T, hook: H)
  {
    var registry := new JsxPatches<T, H>();
    var u := registry.BeforeJSX(etype, hook);
    var first := registry.RunUnpatch(u);
    assert first;
    RegisterThenUnregisterRestores(map[], etype, Before, hook);
    assert registry.Contents() == map[];
    var second := registry.RunUnpatch(u);
    assert !second && registry.Contents() == map[];
    var v := registry.BeforeJSX(etype, hook);
    var third := registry.RunUnpatch(u);
    assert !third && etype in registry.Contents();
  }

  /**
   * A client: while another slot keeps the record alive, the emptied set
   * stays in its slot, so a later registration of the same hook goes into
   * it again and the old handle removes that registration too.
   */
  method ReusedSetClient<T(==), H(==)>(etype: T, hook: H, other: H)
  {
    var registry := new JsxPatches<T, H>();
    var u1 := registry.BeforeJSX(etype, hook);
    var u2 := registry.AfterJSX(etype, other);
    var first := registry.RunUnpatch(u1);
    assert first;
    assert registry.Contents()[etype].Get(After) == Some({other});
    assert etype in registry.jPatches;
    var u3 := registry.BeforeJSX(etype, hook);
    assert u3.hooks == u1.hooks;
    var second := registry.RunUnpatch(u1);
    assert second;
  }
}
