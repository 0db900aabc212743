/**
 * The settings plugin's patch of the settings overview screen: after the
 * screen renders, the registered custom sections are spliced into the
 * `sections` array of the rendered tree, unless an earlier render already
 * did so.
 */
module SettingsPlugin {
  import opened Wrappers
  import opened Settings

  /** The rendered overview: its `props.sections` array, changed in place. */
  class OverviewTree {
    var sections: seq<SettingsSection>

    constructor (sections: seq<SettingsSection>)
      ensures this.sections == sections
    {
      this.sections := sections;
    }
  }

  /**
   * The start position `Array.prototype.splice` uses for a requested `index`
   * on an array of `len` elements: a negative index counts from the end, and
   * either way the position is clamped to `0..len`.
   */
  function SpliceStart(len: nat, index: int): (p: nat)
    ensures p <= len
    ensures 0 <= index <= len ==> p == index
    ensures index > len ==> p == len
    ensures index < 0 ==> p == if len + index < 0 then 0 else len + index
  {
    if index < 0 then (if len + index < 0 then 0 else len + index)
    else if index > len then len
    else index
  }

  /** `!section.index`: the index is absent or zero. */
  predicate FalsyIndex(index: Option<int>) {
    index.None? || index.value == 0
  }

  /** Where one custom section goes: the front for a falsy index, else the splice start. */
  function InsertPosition(sections: seq<SettingsSection>, section: SettingsSection): (p: nat)
    ensures p <= |sections|
    ensures FalsyIndex(section.index) ==> p == 0
    ensures !FalsyIndex(section.index) ==> p == SpliceStart(|sections|, section.index.value)
  {
    if FalsyIndex(section.index) then 0 else SpliceStart(|sections|, section.index.value)
  }

  /** The array after inserting one custom section where `InsertPosition` says. */
  function Insert(sections: seq<SettingsSection>, section: SettingsSection): (r: seq<SettingsSection>)
    ensures |r| == |sections| + 1
  {
    var p := InsertPosition(sections, section);
    sections[..p] + [section] + sections[p..]
  }

  /**
   * One insertion puts the section at `InsertPosition`, keeps the elements
   * before it and moves those after it up by one.
   */
  lemma InsertShape(sections: seq<SettingsSection>, section: SettingsSection)
    ensures var p := InsertPosition(sections, section);
      var r := Insert(sections, section);
      r[p] == section && r[..p] == sections[..p] && r[p + 1..] == sections[p..]
  {
  }

  /**
   * The array after inserting `customs` one by one, in their order; it grows
   * by exactly the number of custom sections.
   */
  function Spliced(sections: seq<SettingsSection>, customs: seq<SettingsSection>): (r: seq<SettingsSection>)
    ensures |r| == |sections| + |customs|
    decreases |customs|
  {
    if customs == [] then sections
    else Insert(Spliced(sections, customs[..|customs| - 1]), customs[|customs| - 1])
  }

  /**
   * `sections.findIndex(section => section.settings.includes(item))`: the
   * first section holding `item`, or -1. A hole reads as `undefined`, so it
   * matches a missing item.
   */
  function FindIndex(sections: seq<SettingsSection>, item: Option<string>): (i: int)
    reads sections
    ensures -1 <= i < |sections|
    ensures 0 <= i ==> item in sections[i].settings && forall j :: 0 <= j < i ==> item !in sections[j].settings
    ensures i < 0 ==> forall j :: 0 <= j < |sections| ==> item !in sections[j].settings
    decreases |sections|
  {
    if |sections| == 0 then -1
    else if item in sections[0].settings then 0
    else
      var k := FindIndex(sections[1..], item);
      if k < 0 then -1 else k + 1
  }

  /** The first item of a section (`const [firstCustomItem] = section.settings`), `undefined` for none. */
  function FirstItem(section: SettingsSection): (item: Option<string>)
    reads section
    ensures |section.settings| == 0 ==> item.None?
    ensures |section.settings| > 0 ==> item == section.settings[0]
  {
    if |section.settings| > 0 then section.settings[0] else None
  }

  /**
   * The effect of one render on `sections`, given the custom sections in key
   * order: nothing without custom sections or once the first custom section's
   * first item is already shown; otherwise all of them spliced in.
   */
  function Overview(sections: seq<SettingsSection>, customs: seq<SettingsSection>): (r: seq<SettingsSection>)
    reads sections, customs
    ensures r == sections || r == Spliced(sections, customs)
  {
    if customs == [] then sections
    else if FindIndex(sections, FirstItem(customs[0])) < 0 then Spliced(sections, customs)
    else sections
  }

  /**
   * The `after` callback on the overview screen: splices the registered
   * sections into the rendered tree's `sections`, in place, and returns the
   * very tree it was given.
   */
  method AfterSettingsOverview<Item, Sub(==)>(tree: OverviewTree, registry: SettingsRegistry<Item, Sub>)
    returns (r: OverviewTree)
    requires registry.Valid()
    modifies tree
    ensures r == tree
    ensures tree.sections == Overview(old(tree.sections), registry.SectionValues())
    // the next render finds the sections already spliced
    ensures registry.sectionOrder != [] && |registry.sSections[registry.sectionOrder[0]].settings| > 0 ==>
      Overview(tree.sections, registry.SectionValues()) == tree.sections
  {
    if |registry.sectionOrder| == 0 {
      return tree;
    }
    ghost var original := tree.sections;
    var firstCustomSection := registry.sSections[registry.sectionOrder[0]];
    var firstCustomItem := if |firstCustomSection.settings| > 0 then firstCustomSection.settings[0] else None;
    if FindIndex(tree.sections, firstCustomItem) < 0 {
      InsertAll(tree, registry.SectionValues());
    }
    if |firstCustomSection.settings| > 0 {
      OverviewIdempotent(original, registry.SectionValues());
    }
    return tree;
  }

  /**
   * The loop over `Object.values(customSections)`: a falsy index goes to the
   * front (`unshift`), any other through `splice(index, 0, section)`.
   */
  method InsertAll(tree: OverviewTree, customs: seq<SettingsSection>)
    modifies tree
    ensures tree.sections == Spliced(old(tree.sections), customs)
  {
    ghost var original := tree.sections;
    var i := 0;
    while i < |customs|
      invariant 0 <= i <= |customs|
      invariant tree.sections == Spliced(original, customs[..i])
    {
      var section := customs[i];
      if section.index.None? || section.index.value == 0 {
        tree.sections := [section] + tree.sections;
      } else {
        var start := SpliceStart(|tree.sections|, section.index.value);
        tree.sections := tree.sections[..start] + [section] + tree.sections[start..];
      }
      assert customs[..i + 1][..i] == customs[..i];
      i := i + 1;
    }
    assert customs[..|customs|] == customs;
  }

  /** One insertion adds the inserted section and loses nothing. */
  lemma InsertContents(t: seq<SettingsSection>, c: SettingsSection)
    ensures multiset(Insert(t, c)) == multiset(t) + multiset{c}
  {
    var p := InsertPosition(t, c);
    assert Insert(t, c) == t[..p] + [c] + t[p..];
    assert t == t[..p] + t[p..];
  }

  /** Splicing adds the custom sections and loses nothing. */
  lemma {:induction false} SplicedContents(sections: seq<SettingsSection>, customs: seq<SettingsSection>)
    ensures multiset(Spliced(sections, customs)) == multiset(sections) + multiset(customs)
    decreases |customs|
  {
    if customs != [] {
      var init := customs[..|customs| - 1];
      var last := customs[|customs| - 1];
      SplicedContents(sections, init);
      InsertContents(Spliced(sections, init), last);
      assert customs == init + [last];
    }
  }

  /**
   * `pos` places the elements of `s` in `t` in their order: element `i` of
   * `s` sits at `pos[i]` of `t`, and the positions increase.
   */
  ghost predicate Embeds(pos: seq<nat>, s: seq<SettingsSection>, t: seq<SettingsSection>) {
    && |pos| == |s|
    && (forall i :: 0 <= i < |pos| ==> pos[i] < |t| && t[pos[i]] == s[i])
    && (forall i, j :: 0 <= i < j < |pos| ==> pos[i] < pos[j])
  }

  /** The positions after an insertion at `p`: those from `p` on move up by one. */
  function Shifted(pos: seq<nat>, p: nat): (r: seq<nat>)
    ensures |r| == |pos|
    ensures forall i :: 0 <= i < |pos| ==> r[i] == if pos[i] < p then pos[i] else pos[i] + 1
  {
    seq(|pos|, i requires 0 <= i < |pos| => if pos[i] < p then pos[i] else pos[i] + 1)
  }

  /** Where each original section ends up after splicing. */
  function Positions(sections: seq<SettingsSection>, customs: seq<SettingsSection>): seq<nat>
    decreases |customs|
  {
    if customs == [] then seq(|sections|, i requires 0 <= i < |sections| => i)
    else
      var init := customs[..|customs| - 1];
      Shifted(Positions(sections, init), InsertPosition(Spliced(sections, init), customs[|customs| - 1]))
  }

  /** One insertion keeps every embedding, shifted past the inserted section. */
  lemma InsertKeepsOrder(pos: seq<nat>, s: seq<SettingsSection>, t: seq<SettingsSection>, c: SettingsSection)
    requires Embeds(pos, s, t)
    ensures Embeds(Shifted(pos, InsertPosition(t, c)), s, Insert(t, c))
  {
    var p := InsertPosition(t, c);
    var t' := Insert(t, c);
    assert forall k :: 0 <= k < p ==> t'[k] == t[k];
    assert forall k :: p <= k < |t| ==> t'[k + 1] == t[k];
  }

  /** Splicing keeps the original sections in their relative order. */
  lemma {:induction false} SplicedKeepsOrder(sections: seq<SettingsSection>, customs: seq<SettingsSection>)
    ensures Embeds(Positions(sections, customs), sections, Spliced(sections, customs))
    decreases |customs|
  {
    if customs == [] {
    } else {
      var init := customs[..|customs| - 1];
      SplicedKeepsOrder(sections, init);
      InsertKeepsOrder(Positions(sections, init), sections, Spliced(sections, init), customs[|customs| - 1]);
    }
  }

  /**
   * A render after a splicing render changes nothing when the first custom
   * section has a first item (even a hole): that section is now shown, so
   * the "already spliced" test finds its first item.
   */
  lemma OverviewIdempotent(sections: seq<SettingsSection>, customs: seq<SettingsSection>)
    requires customs != [] && |customs[0].settings| > 0
    ensures Overview(Overview(sections, customs), customs) == Overview(sections, customs)
  {
    var once := Overview(sections, customs);
    if FindIndex(sections, FirstItem(customs[0])) < 0 {
      SplicedContents(sections, customs);
      assert customs[0] in multiset(once);
      var k :| 0 <= k < |once| && once[k] == customs[0];
      assert FirstItem(customs[0]) in once[k].settings;
    }
  }

  /**
   * Without a first item the test cannot tell: when the first custom section
   * is empty and no section shown or added has a hole, `undefined` is never
   * found, so every render splices all custom sections in again.
   */
  lemma {:induction false} OverviewRepeatsForEmptyFirstSection(sections: seq<SettingsSection>, customs: seq<SettingsSection>)
    requires customs != [] && customs[0].settings == []
    requires forall i :: 0 <= i < |sections| ==> None !in sections[i].settings
    requires forall i :: 0 <= i < |customs| ==> None !in customs[i].settings
    ensures |Overview(sections, customs)| == |sections| + |customs|
    ensures |Overview(Overview(sections, customs), customs)| == |sections| + 2 * |customs|
  {
    var once := Spliced(sections, customs);
    assert FindIndex(sections, None) < 0;
    SplicedContents(sections, customs);
    forall k | 0 <= k < |once| ensures None !in once[k].settings {
      assert once[k] in multiset(sections) + multiset(customs);
      if once[k] in multiset(sections) {
        var i :| 0 <= i < |sections| && sections[i] == once[k];
      } else {
        var i :| 0 <= i < |customs| && customs[i] == once[k];
      }
    }
    assert FindIndex(once, None) < 0;
  }

  /** A render that splices grows the array by the number of custom sections and keeps the originals in order. */
  lemma OverviewSplices(sections: seq<SettingsSection>, customs: seq<SettingsSection>)
    requires customs != [] && FindIndex(sections, FirstItem(customs[0])) < 0
    ensures |Overview(sections, customs)| == |sections| + |customs|
    ensures multiset(Overview(sections, customs)) == multiset(sections) + multiset(customs)
    ensures Embeds(Positions(sections, customs), sections, Overview(sections, customs))
  {
    SplicedContents(sections, customs);
    SplicedKeepsOrder(sections, customs);
  }

  /** A render changes nothing without custom sections, or once the first custom section's first item is shown. */
  lemma OverviewUnchanged(sections: seq<SettingsSection>, customs: seq<SettingsSection>)
    requires customs == [] || exists i :: 0 <= i < |sections| && FirstItem(customs[0]) in sections[i].settings
    ensures Overview(sections, customs) == sections
  {
  }
}
