/**
 * The settings registries of the Discord settings module: `sSections` (keyed
 * settings sections, in key order), `sConfig` (keyed settings items),
 * `sSubscriptions` (callbacks waiting for the settings modules to load), the
 * operations that register into them and the closures that undo those
 * registrations, and the two navigation-state tests.
 */
module Settings {
  import opened Wrappers

  /** No key occurs twice. */
  predicate Distinct(keys: seq<string>) {
    forall i, j :: 0 <= i < j < |keys| ==> keys[i] != keys[j]
  }

  /** `keys` with `key` taken out, the others in their order. */
  function Without(keys: seq<string>, key: string): (r: seq<string>)
    ensures forall k :: k in r <==> k in keys && k != key
    ensures Distinct(keys) ==> Distinct(r)
    ensures key !in keys ==> r == keys
  {
    if keys == [] then []
    else
      var rest := Without(keys[1..], key);
      assert Distinct(keys) ==> Distinct(keys[1..]) && keys[0] !in keys[1..];
      if keys[0] == key then rest else [keys[0]] + rest
  }

  /** Deleting a key keeps the other keys in their order: only its one occurrence leaves. */
  lemma {:induction false} WithoutRemovesTheOccurrence(keys: seq<string>, key: string, i: nat)
    requires Distinct(keys) && i < |keys| && keys[i] == key
    ensures Without(keys, key) == keys[..i] + keys[i + 1..]
    decreases i
  {
    if i > 0 {
      assert Distinct(keys[1..]);
      WithoutRemovesTheOccurrence(keys[1..], key, i - 1);
      assert keys[1..][..i - 1] + keys[1..][i..] == keys[1..i] + keys[i + 1..];
      assert keys[..i] == [keys[0]] + keys[1..i];
    } else {
      assert key !in keys[1..];
    }
  }

  /** Deleting a key that registration had just appended gives back the key order from before. */
  lemma {:induction false} RemoveAppendedKey(keys: seq<string>, key: string)
    requires key !in keys
    ensures Without(keys + [key], key) == keys
    decreases |keys|
  {
    if keys == [] {
      assert [] + [key] == [key];
    } else {
      assert (keys + [key])[1..] == keys[1..] + [key];
      RemoveAppendedKey(keys[1..], key);
      assert [keys[0]] + keys[1..] == keys;
    }
  }

  /**
   * Registering under new keys and undoing gives back the registry from
   * before: a section key leaves the map and the key order, and the items of
   * a record over new keys leave `sConfig`.
   */
  lemma UndoRestoresNewKeys<Item>(
    sections: map<string, SettingsSection>, order: seq<string>, key: string, section: SettingsSection,
    config: map<string, Item>, record: map<string, Item>)
    requires key !in sections && (forall k :: k in order <==> k in sections)
    requires record.Keys !! config.Keys
    ensures sections[key := section] - {key} == sections
    ensures Without(order + [key], key) == order
    ensures (config + record) - record.Keys == config
  {
    RemoveAppendedKey(order, key);
  }

  /** The values of `m` at `keys`, in the order of `keys` (what `Object.values` lists). */
  function ValuesOf<V>(keys: seq<string>, m: map<string, V>): (r: seq<V>)
    requires forall i :: 0 <= i < |keys| ==> keys[i] in m
    ensures |r| == |keys|
    ensures forall i :: 0 <= i < |keys| ==> r[i] == m[keys[i]]
  {
    if keys == [] then [] else [m[keys[0]]] + ValuesOf(keys[1..], m)
  }

  /**
   * `delete settings[i]` on a JavaScript array: position `i` becomes a hole
   * (read back as `undefined`) and the length stays; an index past the end
   * changes nothing.
   */
  function Deleted(settings: seq<Option<string>>, i: int): (r: seq<Option<string>>)
    ensures |r| == |settings|
    ensures forall j :: 0 <= j < |r| ==> r[j] == (if j == i then None else settings[j])
  {
    if 0 <= i < |settings| then settings[i := None] else settings
  }

  /** Undoing an append right away leaves a hole where the item was, at the new last position. */
  lemma UndoAppendLeavesHole(settings: seq<Option<string>>, item: string)
    ensures var pushed := settings + [Some(item)];
      |pushed| == |settings| + 1 && pushed[|pushed| - 1] == Some(item)
    ensures Deleted(settings + [Some(item)], |settings| + 1 - 1) == settings + [None]
  {
    var d := Deleted(settings + [Some(item)], |settings|);
    assert forall j :: 0 <= j < |d| ==> d[j] == (settings + [None])[j];
  }

  /**
   * A settings section. Its `settings` array is changed in place by
   * `addSettingsItemToSection` and its undo; a hole or `undefined` entry is
   * `None`. `index` is where the section wants to go in the overview.
   */
  class SettingsSection {
    const labelText: string  // the `label` field (`label` is a Dafny keyword)
    var settings: seq<Option<string>>
    const index: Option<int>

    constructor (labelText: string, settings: seq<Option<string>>, index: Option<int>)
      ensures this.labelText == labelText && this.settings == settings && this.index == index
    {
      this.labelText := labelText;
      this.settings := settings;
      this.index := index;
    }

    /** `settings.push(item)`: appends and returns the new length. */
    method Push(item: string) returns (newLength: nat)
      modifies this
      ensures settings == old(settings) + [Some(item)]
      ensures newLength == |settings|
    {
      settings := settings + [Some(item)];
      newLength := |settings|;
    }

    /** `delete settings[i]`. */
    method DeleteAt(i: int)
      modifies this
      ensures settings == Deleted(old(settings), i)
    {
      if 0 <= i < |settings| {
        settings := settings[i := None];
      }
    }
  }

  /** What `onSettingsModulesLoaded` returns: a no-op, or the closure that drops the subscription. */
  datatype Unsubscribe<Sub> = Noop | Remove(subscription: Sub)

  /** The outcome of `addSettingsItemToSection`: the undo closure's captures, or the error thrown. */
  datatype AddOutcome = Pushed(section: SettingsSection, newLength: nat) | Thrown(message: string)

  /** The message of the error thrown for a section key that is not registered. */
  function MissingSectionMessage(key: string): (m: string)
    ensures |m| == |key| + 25
    ensures m[9..9 + |key|] == key
  {
    "Section \"" + key + "\" does not exist"
  }

  /** The message names its key: two missing keys never give the same message. */
  lemma MissingSectionMessageNamesKey(a: string, b: string)
    ensures MissingSectionMessage(a) == MissingSectionMessage(b) ==> a == b
  {
    if MissingSectionMessage(a) == MissingSectionMessage(b) {
      assert |a| == |b|;
      assert a == MissingSectionMessage(a)[9..9 + |a|];
    }
  }

  /**
   * The module's registries. `sectionOrder` is the key order of `sSections`
   * (the order `Object.keys` and `Object.values` list them in: insertion order).
   * `loaded` is the start module's `sLoaded` flag.
   */
  class SettingsRegistry<Item, Sub(==)> {
    var loaded: bool
    var sSubscriptions: set<Sub>
    var sSections: map<string, SettingsSection>
    var sectionOrder: seq<string>
    var sConfig: map<string, Item>

    /** The key order lists each registered section key once. */
    ghost predicate Valid()
      reads this
    {
      && Distinct(sectionOrder)
      && (forall k :: k in sectionOrder <==> k in sSections)
    }

    /** `Object.values(sSections)`. */
    function SectionValues(): (r: seq<SettingsSection>)
      reads this
      requires Valid()
      ensures |r| == |sectionOrder|
      ensures forall i :: 0 <= i < |r| ==> r[i] == sSections[sectionOrder[i]]
      ensures forall s :: s in sSections.Values ==> s in r
    {
      var r := ValuesOf(sectionOrder, sSections);
      assert forall s :: s in sSections.Values ==> s in r by {
        forall s | s in sSections.Values ensures s in r {
          var k :| k in sSections && sSections[k] == s;
          var i :| 0 <= i < |sectionOrder| && sectionOrder[i] == k;
          assert r[i] == s;
        }
      }
      r
    }

    constructor (loaded: bool)
      ensures Valid() && this.loaded == loaded
      ensures sSubscriptions == {} && sSections == map[] && sectionOrder == [] && sConfig == map[]
    {
      this.loaded := loaded;
      sSubscriptions := {};
      sSections := map[];
      sectionOrder := [];
      sConfig := map[];
    }

    /**
     * `onSettingsModulesLoaded`: once loaded, the subscription is called at
     * once (`calledNow`) and a no-op comes back; before that, it is added to
     * the subscriptions and the closure that removes it comes back.
     */
    method OnSettingsModulesLoaded(subscription: Sub) returns (calledNow: bool, unsubscribe: Unsubscribe<Sub>)
      modifies this`sSubscriptions
      ensures calledNow == loaded
      ensures loaded ==> unsubscribe == Noop && sSubscriptions == old(sSubscriptions)
      ensures !loaded ==> unsubscribe == Remove(subscription) && sSubscriptions == old(sSubscriptions) + {subscription}
    {
      if loaded {
        return true, Noop;
      }
      sSubscriptions := sSubscriptions + {subscription};
      return false, Remove(subscription);
    }

    /** Calls the closure `OnSettingsModulesLoaded` returned. */
    method RunUnsubscribe(unsubscribe: Unsubscribe<Sub>)
      modifies this`sSubscriptions
      ensures sSubscriptions == if unsubscribe.Remove? then old(sSubscriptions) - {unsubscribe.subscription} else old(sSubscriptions)
    {
      if unsubscribe.Remove? {
        sSubscriptions := sSubscriptions - {unsubscribe.subscription};
      }
    }

    /** `registerSettingsSection`: stores the section under `key`; a new key goes last in key order. */
    method RegisterSettingsSection(key: string, section: SettingsSection)
      requires Valid()
      modifies this`sSections, this`sectionOrder
      ensures Valid()
      ensures sSections == old(sSections)[key := section]
      ensures sectionOrder == if key in old(sSections) then old(sectionOrder) else old(sectionOrder) + [key]
    {
      if key !in sSections {
        sectionOrder := sectionOrder + [key];
      }
      sSections := sSections[key := section];
    }

    /** The closure `registerSettingsSection` returns: deletes `key`, whatever is stored under it now. */
    method UnregisterSettingsSection(key: string)
      requires Valid()
      modifies this`sSections, this`sectionOrder
      ensures Valid()
      ensures sSections == old(sSections) - {key}
      ensures sectionOrder == Without(old(sectionOrder), key)
    {
      sSections := sSections - {key};
      sectionOrder := Without(sectionOrder, key);
    }

    /** `registerSettingsItem`: stores the item under `key`. */
    method RegisterSettingsItem(key: string, item: Item)
      modifies this`sConfig
      ensures sConfig == old(sConfig)[key := item]
    {
      sConfig := sConfig[key := item];
    }

    /** The closure `registerSettingsItem` returns: deletes `key`, whatever is stored under it now. */
    method UnregisterSettingsItem(key: string)
      modifies this`sConfig
      ensures sConfig == old(sConfig) - {key}
    {
      sConfig := sConfig - {key};
    }

    /** `registerSettingsItems`: `Object.assign(sConfig, record)`, the record's values winning. */
    method RegisterSettingsItems(record: map<string, Item>)
      modifies this`sConfig
      ensures sConfig == old(sConfig) + record
      ensures forall k :: k in record ==> k in sConfig && sConfig[k] == record[k]
      ensures forall k :: k in old(sConfig) && k !in record ==> k in sConfig && sConfig[k] == old(sConfig)[k]
    {
      sConfig := sConfig + record;
    }

    /** The closure `registerSettingsItems` returns: deletes every key of the record, one at a time. */
    method UnregisterSettingsItems(record: map<string, Item>)
      modifies this`sConfig
      ensures sConfig == old(sConfig) - record.Keys
    {
      var pending := record.Keys;
      while pending != {}
        invariant pending <= record.Keys
        invariant sConfig == old(sConfig) - (record.Keys - pending)
        decreases |pending|
      {
        var key :| key in pending;
        sConfig := sConfig - {key};
        pending := pending - {key};
      }
    }

    /**
     * `addSettingsItemToSection`: appends `item` to the section under `key`;
     * throws when there is none, changing nothing.
     */
    method AddSettingsItemToSection(key: string, item: string) returns (r: AddOutcome)
      modifies sSections.Values
      ensures key !in sSections <==> r.Thrown?
      ensures r.Thrown? ==> r.message == MissingSectionMessage(key)
      ensures r.Pushed? ==>
        && r.section == sSections[key]
        && r.section.settings == old(r.section.settings) + [Some(item)]
        && r.newLength == |r.section.settings|
      ensures forall s :: s in sSections.Values && !(r.Pushed? && s == r.section) ==> s.settings == old(s.settings)
    {
      if key !in sSections {
        return Thrown(MissingSectionMessage(key));
      }
      var section := sSections[key];
      var newLength := section.Push(item);
      return Pushed(section, newLength);
    }
  }

  /** The closure `addSettingsItemToSection` returns: clears the appended position, keeping the length. */
  method UndoAddSettingsItem(section: SettingsSection, newLength: nat)
    modifies section
    ensures section.settings == Deleted(old(section.settings), newLength - 1)
    ensures |section.settings| == |old(section.settings)|
  {
    section.DeleteAt(newLength - 1);
  }

  /** A route of a navigation state, with its `name` when it has one. */
  datatype Route = Route(name: Option<string>)

  /**
   * A navigation state as the navigation tests see it: `routes` is `None`
   * when it is not an array; an entry is `None` when it is `undefined`.
   */
  datatype NavigationState = NavigationState(routes: Option<seq<Option<Route>>>)

  /** `isNavigationMainState`: `routes` is an array of more than one route. */
  predicate IsNavigationMainState(state: NavigationState): (r: bool)
    ensures r ==> state.routes.Some? && |state.routes.value| >= 2
    ensures state.routes.None? ==> !r
    ensures state.routes.Some? && |state.routes.value| <= 1 ==> !r
  {
    state.routes.Some? && |state.routes.value| > 1
  }

  /**
   * `isNavigationSettingsState`: `routes` is an array whose first route is
   * named `overview` (the `OVERVIEW` settings section). Reading past the end
   * or through an `undefined` route gives `undefined`, which is no name.
   */
  predicate IsNavigationSettingsState(state: NavigationState, overview: string): (r: bool)
    ensures r ==> state.routes.Some? && |state.routes.value| > 0 && state.routes.value[0].Some?
    ensures state.routes.None? ==> !r
    ensures state.routes.Some? && |state.routes.value| > 0 && state.routes.value[0].None? ==> !r
  {
    && state.routes.Some?
    && |state.routes.value| > 0
    && state.routes.value[0].Some?
    && state.routes.value[0].value.name == Some(overview)
  }

  /** The first route's name, read the optional-chaining way (`routes[0]?.name`). */
  function FirstRouteName(routes: seq<Option<Route>>): (name: Option<string>)
    ensures name.Some? ==> |routes| > 0 && routes[0].Some? && routes[0].value.name == name
    ensures |routes| == 0 ==> name.None?
  {
    if |routes| == 0 || routes[0].None? then None else routes[0].value.name
  }

  /** The settings test is exactly "an array whose first route's name is the overview". */
  lemma SettingsStateByFirstName(state: NavigationState, overview: string)
    ensures IsNavigationSettingsState(state, overview) <==>
      state.routes.Some? && FirstRouteName(state.routes.value) == Some(overview)
  {
  }

  /**
   * A client of the registries: the undo of an earlier registration deletes a
   * key even after it was registered again, and appending to a section then
   * undoing leaves a hole.
   */
  method SettingsClient(section: SettingsSection, other: SettingsSection, item: string)
    modifies section
  {
    var registry := new SettingsRegistry<string, nat>(false);
    registry.RegisterSettingsSection("revenge", section);
    registry.RegisterSettingsSection("revenge", other);
    assert registry.sectionOrder == ["revenge"];
    registry.UnregisterSettingsSection("revenge");
    assert "revenge" !in registry.sSections && registry.sectionOrder == [];

    registry.RegisterSettingsSection("revenge", section);
    var before := section.settings;
    var r := registry.AddSettingsItemToSection("revenge", item);
    assert r.Pushed? && r.section == section;
    UndoAddSettingsItem(r.section, r.newLength);
    UndoAppendLeavesHole(before, item);
    assert section.settings == before + [None];

    var missing := registry.AddSettingsItemToSection("missing", item);
    assert missing == Thrown(MissingSectionMessage("missing"));

    registry.RegisterSettingsItems(map["a" := "x", "b" := "y"]);
    registry.UnregisterSettingsItems(map["a" := "x", "b" := "y"]);
    assert registry.sConfig == map[];
  }
}
