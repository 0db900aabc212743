# Revenge JSX hook registry and settings registries, in Dafny

This project models three pieces of bookkeeping from the Revenge mod for
Discord and proves properties of the model.

- **The JSX hook registry** (`JsxRuntime.dfy`). `beforeJSX`, `afterJSX` and
  `insteadJSX` register a hook for an element type in `jPatches`. That map
  takes each element type to a three-slot record `[before, after, instead]`,
  and each slot is absent or a `Set` of hooks. Each call creates the record
  or the slot lazily and returns an unpatch closure. The closure deletes the
  hook from the very `Set` it went into. Only when that deletion succeeds
  does it run `attemptCleanup`, which drops the record once no slot holds a
  hook.
  - The class `JsxPatches` holds the registry. Stored records (`Patches`)
    refer to their sets by allocation number into `sets`. This keeps the
    identity of JavaScript `Set` objects: a closure kept after its record was
    dropped still refers to the old, empty set, never to one allocated later.
  - `Contents()` is the registry seen as a map from type to `Entry` values.
    The methods are proved against the pure functions `Registered` and
    `Unregistered`.
  - The class invariant `StoreValid` has three parts:
    - every slot holds its own set;
    - every set dropped with its record is empty;
    - no record without a hook survives.
- **The settings registries** (`Settings.dfy`):
  - `sSections`, with its key order kept in `sectionOrder`;
  - `sConfig` and `sSubscriptions`;
  - the register operations and the closures that undo them;
  - the "already loaded, so call now; otherwise subscribe" rule of
    `onSettingsModulesLoaded`;
  - `addSettingsItemToSection`, which throws on a missing section and whose
    undo leaves a hole in the array;
  - the two navigation-state tests.

  Sections are objects (`SettingsSection`), because the undo closure and the
  overview screen share them.
- **Custom-section splicing** (`SettingsPlugin.dfy`). This is the body of
  the `after` callback on the settings overview screen. The custom sections
  are inserted into the rendered `sections` array in place, in key order:
  - a section whose `index` is falsy goes to the front;
  - any other section goes through `splice(index, 0, section)`, with the
    clamping that JavaScript's `splice` applies.

  A guard skips the splice when the first item of the first custom section
  is already shown. The method is proved against the function `Spliced` and
  the whole-render function `Overview`. The lemmas show that:
  - the length grows by the number of custom sections;
  - nothing is lost;
  - the original sections keep their relative order;
  - a second render is a no-op when the first custom section has an item;
  - when it has none and no section has a hole, a second render splices
    again.

`Wrappers.dfy` holds `Option`, which stands for JavaScript's `undefined`
wherever the source uses it.

## Model

| member | source | states |
|---|---|---|
| `JsxRuntime.Registered` | lib/react/src/jsx-runtime/index.ts:34-42 | The registry after a registration. The type's relevant slot holds its old hooks plus the new one. A new record has the other two slots absent, not empty. An existing record keeps its other slots. Every other type's record is unchanged, and no other key appears. |
| `JsxRuntime.Unregistered` | lib/react/src/jsx-runtime/index.ts:104-107 | The registry after a successful unpatch. The hook leaves its slot, other slots and other types are unchanged, and the record is gone exactly when every slot is absent or empty. |
| `JsxRuntime.Entry.Unused` | lib/react/src/jsx-runtime/index.ts:106 | The cleanup test "no slot has a size" holds exactly when each slot is absent or an empty set. |
| `JsxRuntime.UnusedIsNoHooks` | lib/react/src/jsx-runtime/index.ts:106 | The cleanup test ("no slot has a size") holds exactly when the record holds no hook in any slot. |
| `JsxRuntime.RegisteredKeepsEntriesUsed` | lib/react/src/jsx-runtime/index.ts:33-48 | Registration keeps the invariant that no record without a hook exists. |
| `JsxRuntime.UnregisteredKeepsEntriesUsed` | lib/react/src/jsx-runtime/index.ts:104-108 | A successful unpatch followed by the cleanup check keeps that invariant. |
| `JsxRuntime.RegisterIdempotent` | lib/react/src/jsx-runtime/index.ts:42 | Registering the same hook twice for the same type and slot gives the same registry as registering it once (set semantics). |
| `JsxRuntime.RegisterThenUnregisterRestores` | lib/react/src/jsx-runtime/index.ts:61-75 | On a type without a record, registering then unpatching gives back the original registry, with the record deleted. |
| `JsxRuntime.WithSlot` | lib/react/src/jsx-runtime/index.ts:34-40 | After the lazy allocation, the type has a record and its slot holds a set. |
| `JsxRuntime.RegisterOwned` | lib/react/src/jsx-runtime/index.ts:35-38 | A newly allocated set goes to exactly the slot it was made for. No other set changes except the one the hook is added to. |
| `JsxRuntime.RegisterKeepsOthers` | lib/react/src/jsx-runtime/index.ts:34-42 | The records of all other types keep their value across a registration. |
| `JsxRuntime.RegisterUpdatesEntry` | lib/react/src/jsx-runtime/index.ts:34-42 | The registered type's record gains the hook in its slot. Its other slots keep their value, or are absent if the record is new. |
| `JsxRuntime.RegisterKeepsOrphansEmpty` | lib/react/src/jsx-runtime/index.ts:40-42 | Registration fills only a set that is still in its slot, so every dropped set stays empty. |
| `JsxRuntime.RegisterKeepsUsed` | lib/react/src/jsx-runtime/index.ts:40-42 | After registration the registered record holds a hook, and no record is left without one. |
| `JsxRuntime.RegisterKeepsValid` | lib/react/src/jsx-runtime/index.ts:33-48 | Registration keeps the whole registry invariant. |
| `JsxRuntime.RegisterUpdatesContents` | lib/react/src/jsx-runtime/index.ts:33-48 | The stored registry's value after registration is `Registered` of its value before. |
| `JsxRuntime.UnpatchUpdatesEntry` | lib/react/src/jsx-runtime/index.ts:44 | Deleting from the captured set changes only the captured slot of that type's record. |
| `JsxRuntime.UnpatchKeepsOthers` | lib/react/src/jsx-runtime/index.ts:44-45 | An unpatch leaves the records of all other types unchanged. |
| `JsxRuntime.UnpatchKeepsValid` | lib/react/src/jsx-runtime/index.ts:104-108 | A successful unpatch followed by the cleanup check keeps the registry invariant. |
| `JsxRuntime.UnpatchUpdatesContents` | lib/react/src/jsx-runtime/index.ts:104-107 | A successful removal finds the type's record still present, with the slot set, so the `!` on the lookup is safe. The value afterwards is `Unregistered` of the value before. |
| `JsxRuntime.JsxPatches.SlotSet` | lib/react/src/jsx-runtime/index.ts:61-67 | Implements the lazy allocation as `WithSlot` says. A new set is numbered after all existing ones. |
| `JsxRuntime.JsxPatches.Register` | lib/react/src/jsx-runtime/index.ts:61-74 | Keeps the invariant and changes `Contents()` to `Registered(old(Contents()), …)`. The returned handle names the same type, slot, hook and set. Only that set changes. A set is allocated, numbered after all existing ones, only when the slot is missing. A set already in the slot, even an empty one, is reused, and the handle captures it. |
| `JsxRuntime.JsxPatches.AttemptCleanup` | lib/react/src/jsx-runtime/index.ts:104-108 | Deletes the type's record exactly when every slot is absent or has size 0. Otherwise the map is unchanged. |
| `JsxRuntime.JsxPatches.RunUnpatch` | lib/react/src/jsx-runtime/index.ts:70-74 | Returns whether the hook was in the captured set. A false call leaves the registry as it was. A true call finds the record still present and changes `Contents()` to `Unregistered(…)`. Afterwards the hook is not in the captured set, so an immediate second call returns false. The record is either kept exactly as it was, with the same sets, or dropped. So a later call returns false unless the same hook was registered again into the set the kept record still holds (`ReusedSetClient`). |
| `JsxRuntime.JsxPatches.AfterJSX` | lib/react/src/jsx-runtime/index.ts:33-48 | `Register` in the `after` slot (index 1), with the same guarantees: the slot's present set is reused and a new one is allocated only when the slot is missing. |
| `JsxRuntime.JsxPatches.BeforeJSX` | lib/react/src/jsx-runtime/index.ts:57-75 | `Register` in the `before` slot (index 0), with the same guarantees: the slot's present set is reused and a new one is allocated only when the slot is missing. |
| `JsxRuntime.JsxPatches.InsteadJSX` | lib/react/src/jsx-runtime/index.ts:84-102 | `Register` in the `instead` slot (index 2), with the same guarantees: the slot's present set is reused and a new one is allocated only when the slot is missing. |
| `Settings.SettingsRegistry.OnSettingsModulesLoaded` | lib/discord/src/modules/settings/index.ts:32-44 | When loaded, the subscription is called now, is not stored, and a no-op comes back. Otherwise it is added to `sSubscriptions`, and the closure that removes it comes back. |
| `Settings.SettingsRegistry.RunUnsubscribe` | lib/discord/src/modules/settings/index.ts:41-43 | The returned closure removes exactly that subscription. The no-op changes nothing. |
| `Settings.SettingsRegistry.RegisterSettingsSection` | lib/discord/src/modules/settings/index.ts:53-54 | `sSections[key]` is the section and other keys are unchanged. A new key goes last in key order, and a re-registered key keeps its place. |
| `Settings.SettingsRegistry.UnregisterSettingsSection` | lib/discord/src/modules/settings/index.ts:55-57 | The key is deleted even if it was re-registered in the meantime, and it leaves the key order. Nothing else changes. |
| `Settings.Without` | lib/discord/src/modules/settings/index.ts:56 | The key order after the delete holds exactly the other keys, still without repeats. |
| `Settings.WithoutRemovesTheOccurrence` | lib/discord/src/modules/settings/index.ts:56 | Deleting a key takes out only its one occurrence and keeps the other keys in their relative order, as JavaScript key order does after `delete`. |
| `Settings.RemoveAppendedKey` | lib/discord/src/modules/settings/index.ts:54-56 | Deleting a new key right after registering it gives back the key order from before. |
| `Settings.UndoRestoresNewKeys` | lib/discord/src/modules/settings/index.ts:53-85 | Registering a new section key, or a record over new item keys, and then running the undo gives back the map from before. For a section the key order comes back too. |
| `Settings.SettingsRegistry.RegisterSettingsItem` | lib/discord/src/modules/settings/index.ts:67-68 | `sConfig[key]` is the item and other keys are unchanged. |
| `Settings.SettingsRegistry.UnregisterSettingsItem` | lib/discord/src/modules/settings/index.ts:69-71 | Deletes the key, whatever is stored under it now. |
| `Settings.SettingsRegistry.RegisterSettingsItems` | lib/discord/src/modules/settings/index.ts:80-81 | Every key of the record maps to the record's value, overriding earlier values. Other keys are kept. |
| `Settings.SettingsRegistry.UnregisterSettingsItems` | lib/discord/src/modules/settings/index.ts:82-84 | The delete loop removes exactly the record's keys from `sConfig`. |
| `Settings.MissingSectionMessage` | lib/discord/src/modules/settings/index.ts:96 | The error text for a missing section is the key between the fixed prefix `Section "` and suffix `" does not exist`. |
| `Settings.MissingSectionMessageNamesKey` | lib/discord/src/modules/settings/index.ts:96 | Two different missing keys never give the same message, so the message identifies the key. |
| `Settings.SettingsRegistry.AddSettingsItemToSection` | lib/discord/src/modules/settings/index.ts:94-98 | A missing section throws ``Section "key" does not exist`` and no section changes. Otherwise the item is appended to that section's `settings`, the new length is returned, and every other section is unchanged. |
| `Settings.SettingsSection.Push` | lib/discord/src/modules/settings/index.ts:98 | `push` appends the item and returns the new length. |
| `Settings.SettingsSection.DeleteAt` | lib/discord/src/modules/settings/index.ts:100 | `delete settings[i]` turns position `i` into a hole. |
| `Settings.UndoAddSettingsItem` | lib/discord/src/modules/settings/index.ts:99-101 | The undo clears position `newLength - 1` and keeps the length. |
| `Settings.Deleted` | lib/discord/src/modules/settings/index.ts:100 | A JavaScript array delete keeps the length and empties only the one position. An index past the end changes nothing. |
| `Settings.UndoAppendLeavesHole` | lib/discord/src/modules/settings/index.ts:98-101 | Appending then undoing at once leaves the old array plus one hole at the end, not the old array. |
| `Settings.IsNavigationMainState` | lib/discord/src/modules/settings/index.ts:161-163 | A main state needs `routes` to be an array of at least two routes. A non-array, an empty array or a single route never passes. |
| `Settings.IsNavigationSettingsState` | lib/discord/src/modules/settings/index.ts:165-171 | A settings state needs `routes` to be an array with a defined first route. A non-array, or an array whose first route is `undefined`, never passes. |
| `Settings.FirstRouteName` | lib/discord/src/modules/settings/index.ts:168 | `routes[0]?.name`: a name only when a first route exists and has one. |
| `Settings.SettingsStateByFirstName` | lib/discord/src/modules/settings/index.ts:165-171 | The settings-state test holds exactly when `routes` is an array and its first route's name is the overview constant. |
| `Settings.SettingsRegistry.SectionValues` | src/plugins/init/settings/index.ts:58 | `Object.values(customSections)` lists the registered sections in key order, each of them. |
| `SettingsPlugin.SpliceStart` | src/plugins/init/settings/index.ts:60 | The start position of `splice`. A negative index counts from the end and is clamped at 0. An index past the length is clamped to the length. |
| `SettingsPlugin.InsertPosition` | src/plugins/init/settings/index.ts:59-60 | A falsy `index` (absent or 0) puts the section at the front. Otherwise it goes at the splice start. |
| `SettingsPlugin.Insert` | src/plugins/init/settings/index.ts:59-60 | One `unshift` or `splice(index, 0, section)` makes the array exactly one longer. |
| `SettingsPlugin.InsertShape` | src/plugins/init/settings/index.ts:59-60 | After one insertion the section sits at `InsertPosition`, the elements before it are unchanged, and those after it move up by one. |
| `SettingsPlugin.InsertContents` | src/plugins/init/settings/index.ts:59-60 | One insertion adds the inserted section to the array's multiset and loses nothing. |
| `SettingsPlugin.Spliced` | src/plugins/init/settings/index.ts:58-60 | The custom sections are inserted one by one in key order. The array grows by exactly the number of custom sections. |
| `SettingsPlugin.FindIndex` | src/plugins/init/settings/index.ts:54-56 | `findIndex` and `includes` give the first section holding the item, or -1 when no section holds it. |
| `SettingsPlugin.FirstItem` | src/plugins/init/settings/index.ts:52 | The destructured first item is the section's first entry (a hole reads as `undefined`), and `undefined` for an empty section. |
| `SettingsPlugin.InsertAll` | src/plugins/init/settings/index.ts:58-60 | The `for...of` loop with `unshift` or `splice` produces `Spliced` of the array it started from. |
| `SettingsPlugin.Overview` | src/plugins/init/settings/index.ts:46-60 | A render either leaves `sections` as it was or gives `Spliced` of it: all the custom sections are inserted, never only some. When each case happens is stated by `OverviewUnchanged` and `OverviewSplices`. |
| `SettingsPlugin.AfterSettingsOverview` | src/plugins/init/settings/index.ts:34-62 | Returns the very tree it was given. `sections` becomes `Overview(old sections, custom sections)`: unchanged without custom sections or once the first custom item is shown, otherwise spliced. If the first custom section has an item, the result is a fixpoint for the next render. |
| `SettingsPlugin.SplicedContents` | src/plugins/init/settings/index.ts:58-60 | The spliced array is the original sections plus the custom sections, as a multiset. |
| `SettingsPlugin.InsertKeepsOrder` | src/plugins/init/settings/index.ts:59-60 | One insertion moves every original section after the insertion point up by one, keeping all of them in order. |
| `SettingsPlugin.SplicedKeepsOrder` | src/plugins/init/settings/index.ts:58-60 | The original sections appear in the result in their relative order, at the positions `Positions` gives. |
| `SettingsPlugin.OverviewIdempotent` | src/plugins/init/settings/index.ts:51-60 | When the first custom section has a first item, a second render changes nothing. |
| `SettingsPlugin.OverviewRepeatsForEmptyFirstSection` | src/plugins/init/settings/index.ts:51-60 | When the first custom section has no items and no section has a hole, a second render splices all custom sections in again. |
| `SettingsPlugin.OverviewSplices` | src/plugins/init/settings/index.ts:53-60 | When the guard lets the splice through, the length grows by the number of custom sections, nothing is lost and the original order is kept. |
| `SettingsPlugin.OverviewUnchanged` | src/plugins/init/settings/index.ts:46-57 | Without custom sections, or once a shown section includes the first custom item, `sections` is unchanged. |

## Left out

- JSX dispatch: the factory wrapper that reads `jPatches` and runs the hooks is in `./_internal`, which is not part of this model. Hooks are opaque identifiers and are never called.
- Hook order: a `Set` is modelled as a mathematical set, so the insertion order of hooks within a slot is not modelled. The order only matters to the dispatch.
- Element types are opaque keys with equality. `Map` key identity means exactly that here.
- `JsxRuntime.JsxPatches.RunUnpatch`: calls `delete` only when the hook is present. Deleting an absent element changes nothing, so the model does not have to perform it.
- `refreshSettingsOverviewScreen` is left out: navigation dispatch, `requestAnimationFrame` scheduling and `findInTree` are outside the model. `isSettingsModulesLoaded` is the field `loaded`.
- `sLoaded` is imported from the start module, which is not part of this model. The model reads the flag as the field `loaded` and never flips it; what runs the stored subscriptions is not modelled.
- `Settings.SettingsRegistry.OnSettingsModulesLoaded`: the immediate call of the subscription is reported as `calledNow`, because functions are not called in the model. Subscriptions are identifiers.
- `OVERVIEW` from `Constants.UserSettingsSections` is a parameter of the settings-state test. The constants module is not part of this model.
- The navigation tests take `routes` already classified: not an array, or an array of routes that may be `undefined`. Other JavaScript values of `state` are not modelled.
- Key order of `sSections` is insertion order. JavaScript lists integer-like keys first in numeric order, which is not modelled.
- `Settings.SettingsRegistry.UnregisterSettingsItems`: `for...in` also visits inherited enumerable properties, which is not modelled. The record is a value, so later changes to the caller's object are not seen by the undo.
- `SettingsPlugin.InsertPosition`: an `index` is an integer or absent. `NaN`, fractional numbers and non-number values are not modelled.
- A section registered as a falsy value (`undefined`) is not modelled, so the first custom section exists exactly when a key is registered.
- Plumbing around the splice is left out: `waitForModules`, the `after` patcher, `registerPlugin` and the `require('./register')` side effect. `PluginCard.tsx`, the logging plugin and the developer-kit constants are outside the core.
- The section's `label` field is named `labelText`, because `label` is a Dafny keyword.
