/**
  The instant layer of the global plugin. The toggle gesture switches the
  mode on: every gesture of every stored item (in both keyboard layouts) is
  then bound to `runInstantItem`, the toggle gestures to `toggleInstantMode`
  and Escape to `exitInstantMode`. Whatever gesture comes next is handled and
  the layer is switched off again, so the layer serves exactly one gesture.
*/
module InstantMode {
  import opened Wrappers
  import opened Ascii
  import opened Gestures
  import opened Store
  import opened Manager
  import opened Ini

  /** The scripts the plugin binds gestures to. */
  datatype ScriptName = ToggleInstantMode | ExitInstantMode | RunInstantItem

  /** What the user hears: the spoken messages and the error tone. */
  datatype Feedback =
    | NoCommandsConfigured
    | ShortOn
    | OnWithCount(count: nat)
    | ShortOff
    | LongOff
    | NoCommandAssigned
    | Tone(frequency: nat, duration: nat)

  // ---------------------------------------------------------------------------
  // The gesture table built by `buildInstantGestures`

  /** The layout variants of each gesture of a list, in order. */
  function LayoutLists(gestures: seq<string>): (r: seq<seq<string>>)
    ensures |r| == |gestures|
  {
    if gestures == [] then []
    else LayoutLists(gestures[..|gestures| - 1]) + [ExpandGestureLayouts(gestures[|gestures| - 1])]
  }

  /** The variants listed for a gesture are its layout variants. */
  lemma {:induction false} LayoutListsGet(gestures: seq<string>, i: int)
    requires 0 <= i < |gestures|
    ensures LayoutLists(gestures)[i] == ExpandGestureLayouts(gestures[i])
  {
    var n := |gestures| - 1;
    if i < n {
      assert gestures[..n][i] == gestures[i];
      LayoutListsGet(gestures[..n], i);
    }
  }

  lemma LayoutListsAppend(gestures: seq<string>, g: string)
    ensures LayoutLists(gestures + [g]) == LayoutLists(gestures) + [ExpandGestureLayouts(g)]
  {
    assert (gestures + [g])[..|gestures|] == gestures;
  }

  /** The layout variants of one more gesture of a list. */
  lemma LayoutListsStep(gestures: seq<string>, j: int)
    requires 0 <= j < |gestures|
    ensures LayoutLists(gestures[..j + 1]) == LayoutLists(gestures[..j]) + [ExpandGestureLayouts(gestures[j])]
  {
    assert gestures[..j + 1] == gestures[..j] + [gestures[j]];
    LayoutListsAppend(gestures[..j], gestures[j]);
  }

  /** The lower-cased layout variants of a list of expansions. */
  function LoweredKeys(expansions: seq<string>): set<string> {
    if expansions == [] then {}
    else LoweredKeys(expansions[..|expansions| - 1]) + {Lower(expansions[|expansions| - 1])}
  }

  /** Every key a list of gestures is reachable under, given the layout
      variants of each gesture: each variant, lower-cased. */
  function GestureKeySet(layouts: seq<seq<string>>): set<string> {
    if layouts == [] then {}
    else GestureKeySet(layouts[..|layouts| - 1]) + LoweredKeys(layouts[|layouts| - 1])
  }

  /** The keys an item answers to in the instant layer. */
  function KeysOf(it: Item): set<string> {
    GestureKeySet(LayoutLists(it.gestures))
  }

  /** The innermost loop: each expansion, lower-cased, mapped to `it`. */
  function WithKeys(m: map<string, Item>, expansions: seq<string>, it: Item): map<string, Item> {
    if expansions == [] then m
    else
      var last := expansions[|expansions| - 1];
      WithKeys(m, expansions[..|expansions| - 1], it)[Lower(last) := it]
  }

  /** The middle loop: the variants of each gesture of `it`, in order. */
  function WithItemGestures(m: map<string, Item>, layouts: seq<seq<string>>, it: Item): map<string, Item> {
    if layouts == [] then m
    else WithKeys(WithItemGestures(m, layouts[..|layouts| - 1], it), layouts[|layouts| - 1], it)
  }

  lemma WithItemGesturesAppend(m: map<string, Item>, layouts: seq<seq<string>>, variants: seq<string>, it: Item)
    ensures WithItemGestures(m, layouts + [variants], it) == WithKeys(WithItemGestures(m, layouts, it), variants, it)
  {
    assert (layouts + [variants])[..|layouts|] == layouts;
  }

  /** `gestureToItem`: the outer loop over the listed items, a later item
      overwriting an earlier one under the same key. */
  function GestureTable(items: seq<Item>): map<string, Item> {
    if items == [] then map[]
    else
      var last := items[|items| - 1];
      WithItemGestures(GestureTable(items[..|items| - 1]), LayoutLists(last.gestures), last)
  }

  /** `loadedCommandCount`: the number of distinct item names in the table. */
  function CommandCount(table: map<string, Item>): nat {
    |set it | it in table.Values :: it.name|
  }

  /** The bindings outside the instant layer: each toggle gesture to
      `toggleInstantMode`. */
  function ToggleBindings(toggles: seq<string>): map<string, ScriptName> {
    map g | g in toggles :: ToggleInstantMode
  }

  /** The bindings of the instant layer: Escape leaves it, a toggle gesture
      toggles it, and every other key of the table runs its item; nothing
      else is bound. */
  ghost predicate IsLayer(instantGestures: map<string, ScriptName>, table: map<string, Item>,
                          toggles: seq<string>)
  {
    && (forall k :: k in instantGestures <==> k in table || k in toggles || k == "kb:escape")
    && "kb:escape" in instantGestures && instantGestures["kb:escape"] == ExitInstantMode
    && (forall k :: k in toggles && k != "kb:escape" ==> instantGestures[k] == ToggleInstantMode)
    && (forall k :: k in table && k !in toggles && k != "kb:escape" ==> instantGestures[k] == RunInstantItem)
  }

  lemma LoweredKeysAppend(expansions: seq<string>, e: string)
    ensures LoweredKeys(expansions + [e]) == LoweredKeys(expansions) + {Lower(e)}
  {
    assert (expansions + [e])[..|expansions|] == expansions;
  }

  /** Each expansion, lower-cased, is a key. */
  lemma {:induction false} LoweredKeysHas(expansions: seq<string>, e: string)
    requires e in expansions
    ensures Lower(e) in LoweredKeys(expansions)
  {
    var n := |expansions| - 1;
    if e != expansions[n] {
      var j :| 0 <= j < |expansions| && expansions[j] == e;
      assert expansions[..n][j] == e;
      LoweredKeysHas(expansions[..n], e);
    }
  }

  /** Every key is the lower-cased form of some expansion. */
  lemma {:induction false} LoweredKeysSource(expansions: seq<string>, k: string) returns (e: string)
    requires k in LoweredKeys(expansions)
    ensures e in expansions && Lower(e) == k
  {
    var n := |expansions| - 1;
    if k == Lower(expansions[n]) {
      e := expansions[n];
    } else {
      e := LoweredKeysSource(expansions[..n], k);
      var j :| 0 <= j < n && expansions[..n][j] == e;
      assert expansions[j] == e;
    }
  }

  lemma GestureKeySetAppend(layouts: seq<seq<string>>, variants: seq<string>)
    ensures GestureKeySet(layouts + [variants]) == GestureKeySet(layouts) + LoweredKeys(variants)
  {
    assert (layouts + [variants])[..|layouts|] == layouts;
  }

  /** A key of a prefix of the gestures is a key of all of them. */
  lemma {:induction false} GestureKeySetPrefix(layouts: seq<seq<string>>, m: nat, k: string)
    requires m <= |layouts| && k in GestureKeySet(layouts[..m])
    ensures k in GestureKeySet(layouts)
  {
    if m < |layouts| {
      var init := layouts[..|layouts| - 1];
      assert init[..m] == layouts[..m];
      GestureKeySetPrefix(init, m, k);
    } else {
      assert layouts[..m] == layouts;
    }
  }

  /** Each layout variant of each listed gesture, lower-cased, is a key. */
  lemma GestureKeySetHas(layouts: seq<seq<string>>, i: int, e: string)
    requires 0 <= i < |layouts| && e in layouts[i]
    ensures Lower(e) in GestureKeySet(layouts)
  {
    var prefix := layouts[..i + 1];
    assert prefix[..i] == layouts[..i] && prefix[i] == layouts[i];
    LoweredKeysHas(layouts[i], e);
    assert Lower(e) in GestureKeySet(prefix);
    GestureKeySetPrefix(layouts, i + 1, Lower(e));
  }

  /** Every key comes from a layout variant of some listed gesture. */
  lemma {:induction false} GestureKeySetSource(layouts: seq<seq<string>>, k: string) returns (i: int, e: string)
    requires k in GestureKeySet(layouts)
    ensures 0 <= i < |layouts| && e in layouts[i] && Lower(e) == k
  {
    var init, last := layouts[..|layouts| - 1], layouts[|layouts| - 1];
    if k in LoweredKeys(last) {
      i := |layouts| - 1;
      e := LoweredKeysSource(last, k);
    } else {
      i, e := GestureKeySetSource(init, k);
      assert init[i] == layouts[i];
    }
  }

  /** An item answers to the lower-cased form of each layout variant of each
      of its gestures, and to nothing else. */
  lemma KeysOfHas(it: Item, i: int, e: string)
    requires 0 <= i < |it.gestures| && e in ExpandGestureLayouts(it.gestures[i])
    ensures Lower(e) in KeysOf(it)
  {
    LayoutListsGet(it.gestures, i);
    GestureKeySetHas(LayoutLists(it.gestures), i, e);
  }

  lemma KeysOfSource(it: Item, k: string) returns (i: int, e: string)
    requires k in KeysOf(it)
    ensures 0 <= i < |it.gestures| && e in ExpandGestureLayouts(it.gestures[i]) && Lower(e) == k
  {
    i, e := GestureKeySetSource(LayoutLists(it.gestures), k);
    LayoutListsGet(it.gestures, i);
  }

  lemma {:induction false} WithKeysGet(m: map<string, Item>, expansions: seq<string>, it: Item, k: string)
    ensures k in WithKeys(m, expansions, it) <==> k in m || k in LoweredKeys(expansions)
    ensures k in WithKeys(m, expansions, it) ==>
      WithKeys(m, expansions, it)[k] == if k in LoweredKeys(expansions) then it else m[k]
  {
    if expansions != [] {
      var init, last := expansions[..|expansions| - 1], expansions[|expansions| - 1];
      assert expansions == init + [last];
      LoweredKeysAppend(init, last);
      WithKeysGet(m, init, it, k);
    }
  }

  lemma {:induction false} WithItemGesturesGet(m: map<string, Item>, layouts: seq<seq<string>>, it: Item,
                                               k: string)
    ensures k in WithItemGestures(m, layouts, it) <==> k in m || k in GestureKeySet(layouts)
    ensures k in WithItemGestures(m, layouts, it) ==>
      WithItemGestures(m, layouts, it)[k] == if k in GestureKeySet(layouts) then it else m[k]
  {
    if layouts != [] {
      var init, last := layouts[..|layouts| - 1], layouts[|layouts| - 1];
      assert layouts == init + [last];
      GestureKeySetAppend(init, last);
      WithItemGesturesGet(m, init, it, k);
      WithKeysGet(WithItemGestures(m, init, it), last, it, k);
    }
  }

  /** `items[i]` is the last listed item that answers to key `k`. */
  ghost predicate LastToAnswer(items: seq<Item>, k: string, i: int) {
    && 0 <= i < |items|
    && k in KeysOf(items[i])
    && forall j :: i < j < |items| ==> k !in KeysOf(items[j])
  }

  /** Every key a listed item answers to is in the table. */
  lemma {:induction false} GestureTableHas(items: seq<Item>, k: string, i: int)
    requires 0 <= i < |items| && k in KeysOf(items[i])
    ensures k in GestureTable(items)
  {
    var init, last := items[..|items| - 1], items[|items| - 1];
    WithItemGesturesGet(GestureTable(init), LayoutLists(last.gestures), last, k);
    if i < |init| {
      assert init[i] == items[i];
      GestureTableHas(init, k, i);
    }
  }

  /** A key of the table maps to the last listed item that answers to it. */
  lemma {:induction false} GestureTableSource(items: seq<Item>, k: string) returns (i: int)
    requires k in GestureTable(items)
    ensures LastToAnswer(items, k, i) && GestureTable(items)[k] == items[i]
  {
    var init, last := items[..|items| - 1], items[|items| - 1];
    WithItemGesturesGet(GestureTable(init), LayoutLists(last.gestures), last, k);
    if k in KeysOf(last) {
      i := |items| - 1;
    } else {
      i := GestureTableSource(init, k);
      LastToAnswerExtend(items, k, i);
    }
  }

  lemma LastToAnswerExtend(items: seq<Item>, k: string, i: int)
    requires items != [] && k !in KeysOf(items[|items| - 1])
    requires LastToAnswer(items[..|items| - 1], k, i)
    ensures LastToAnswer(items, k, i)
  {
    var init := items[..|items| - 1];
    assert items[i] == init[i];
    forall j | i < j < |items| ensures k !in KeysOf(items[j]) {
      if j < |init| {
        assert init[j] == items[j];
      }
    }
  }

  /** Conversely, the last listed item that answers to a key is the one the
      key maps to. */
  lemma GestureTableValue(items: seq<Item>, k: string, i: int)
    requires LastToAnswer(items, k, i)
    ensures k in GestureTable(items) && GestureTable(items)[k] == items[i]
  {
    GestureTableHas(items, k, i);
    var i' := GestureTableSource(items, k);
    assert i' == i;
  }

  /** A list of gestures answers to no key exactly when every gesture is blank. */
  lemma KeysOfEmpty(it: Item)
    ensures KeysOf(it) == {} <==> forall i :: 0 <= i < |it.gestures| ==> Strip(it.gestures[i]) == ""
  {
    if KeysOf(it) != {} {
      var k :| k in KeysOf(it);
      var i, e := KeysOfSource(it, k);
    }
    if exists i :: 0 <= i < |it.gestures| && Strip(it.gestures[i]) != "" {
      var i :| 0 <= i < |it.gestures| && Strip(it.gestures[i]) != "";
      KeysOfHas(it, i, ExpandGestureLayouts(it.gestures[i])[0]);
    }
  }

  /** The table is empty exactly when no listed gesture has a non-blank name. */
  lemma GestureTableEmpty(items: seq<Item>)
    ensures GestureTable(items) == map[] <==>
      forall i, j :: 0 <= i < |items| && 0 <= j < |items[i].gestures| ==> Strip(items[i].gestures[j]) == ""
  {
    if GestureTable(items) != map[] {
      var k :| k in GestureTable(items);
      var i := GestureTableSource(items, k);
      KeysOfEmpty(items[i]);
    }
    if exists i, j :: 0 <= i < |items| && 0 <= j < |items[i].gestures| && Strip(items[i].gestures[j]) != "" {
      var i, j :| 0 <= i < |items| && 0 <= j < |items[i].gestures| && Strip(items[i].gestures[j]) != "";
      KeysOfEmpty(items[i]);
      var k :| k in KeysOf(items[i]);
      GestureTableHas(items, k, i);
    }
  }

  /** No command is counted exactly when the table is empty. */
  lemma CommandCountZero(table: map<string, Item>)
    ensures CommandCount(table) == 0 <==> table == map[]
  {
    if table != map[] {
      var k :| k in table;
      var names := set it | it in table.Values :: it.name;
      assert table[k] in table.Values;
      assert table[k].name in names;
      assert |names| > 0;
    }
  }

  /** A stored gesture in canonical form is reachable in both layouts: each
      variant is a key of the table, and each variant's identifier normalizes
      back to the stored gesture, which is itself a key. When no later item
      claims the gesture, it leads to this item. */
  lemma CanonicalGestureReachable(items: seq<Item>, i: nat, g: string, id: string)
    requires i < |items| && g in items[i].gestures && IsCanonical(g)
    requires id in ExpandGestureLayouts(g)
    ensures id in GestureTable(items)
    ensures NormalizeGestureIdentifier(id) == g && g in GestureTable(items)
    ensures (forall j :: i < j < |items| ==> g !in KeysOf(items[j])) ==> GestureTable(items)[g] == items[i]
  {
    CanonicalVariantsLeadBack(g);
    CanonicalFacts(g);
    LowerFixesLower(id);
    LowerFixesLower(g);
    assert ExpandGestureLayouts(g)[0] == g;
    var j :| 0 <= j < |items[i].gestures| && items[i].gestures[j] == g;
    KeysOfHas(items[i], j, id);
    KeysOfHas(items[i], j, g);
    GestureTableHas(items, id, i);
    GestureTableHas(items, g, i);
    if forall j :: i < j < |items| ==> g !in KeysOf(items[j]) {
      GestureTableValue(items, g, i);
    }
  }

  // ---------------------------------------------------------------------------
  // Looking gestures up

  /** `script_runInstantItem`'s search: the item of the first identifier
      whose normalized form is a key of the table. */
  function ItemFor(table: map<string, Item>, identifiers: seq<string>): (r: Option<Item>)
    ensures r.None? <==> forall i :: 0 <= i < |identifiers| ==> NormalizeGestureIdentifier(identifiers[i]) !in table
    ensures r.Some? ==> r.value in table.Values
  {
    if identifiers == [] then None
    else
      var key := NormalizeGestureIdentifier(identifiers[0]);
      if key in table then Some(table[key])
      else ItemFor(table, identifiers[1..])
  }

  /** The item found is the one of the first identifier that is in the table. */
  lemma {:induction false} ItemForFirst(table: map<string, Item>, identifiers: seq<string>, i: int)
    requires 0 <= i < |identifiers| && NormalizeGestureIdentifier(identifiers[i]) in table
    requires forall j :: 0 <= j < i ==> NormalizeGestureIdentifier(identifiers[j]) !in table
    ensures ItemFor(table, identifiers) == Some(table[NormalizeGestureIdentifier(identifiers[i])])
  {
    if i > 0 {
      var rest := identifiers[1..];
      assert NormalizeGestureIdentifier(identifiers[0]) !in table;
      forall j | 0 <= j < i - 1 ensures NormalizeGestureIdentifier(rest[j]) !in table {
        assert rest[j] == identifiers[j + 1];
      }
      assert rest[i - 1] == identifiers[i];
      ItemForFirst(table, rest, i - 1);
    }
  }

  /** The host's choice of script for a gesture: the binding of its first
      bound identifier. */
  function ScriptFor(bindings: map<string, ScriptName>, identifiers: seq<string>): (r: Option<ScriptName>)
    ensures r.None? <==> forall i :: 0 <= i < |identifiers| ==> identifiers[i] !in bindings
    ensures r.Some? ==> r.value in bindings.Values
  {
    if identifiers == [] then None
    else if identifiers[0] in bindings then Some(bindings[identifiers[0]])
    else ScriptFor(bindings, identifiers[1..])
  }

  /** The script chosen is the binding of the first bound identifier. */
  lemma {:induction false} ScriptForFirst(bindings: map<string, ScriptName>, identifiers: seq<string>, i: int)
    requires 0 <= i < |identifiers| && identifiers[i] in bindings
    requires forall j :: 0 <= j < i ==> identifiers[j] !in bindings
    ensures ScriptFor(bindings, identifiers) == Some(bindings[identifiers[i]])
  {
    if i > 0 {
      var rest := identifiers[1..];
      assert identifiers[0] !in bindings;
      forall j | 0 <= j < i - 1 ensures rest[j] !in bindings {
        assert rest[j] == identifiers[j + 1];
      }
      assert rest[i - 1] == identifiers[i];
      ScriptForFirst(bindings, rest, i - 1);
    }
  }

  // ---------------------------------------------------------------------------
  // The plugin

  class GlobalPlugin {
    const configManager: ConfigManager
    var verbosityLevel: string
    var instantMode: bool
    var gestureToItem: map<string, Item>
    var loadedCommandCount: nat
    /** The plugin's gesture bindings as the host holds them. */
    var bindings: map<string, ScriptName>
    /** Messages spoken and tones played, oldest first. */
    var feedback: seq<Feedback>
    /** Items handed to the executor to be opened, oldest first. */
    var launched: seq<Item>

    /** Outside the layer only toggle gestures are bound; inside it Escape
        leaves the layer and at least one command is loaded. */
    predicate Valid()
      reads this, configManager
    {
      && configManager.Valid()
      && IsVerbosity(verbosityLevel)
      && loadedCommandCount == CommandCount(gestureToItem)
      && (!instantMode ==> forall k :: k in bindings ==> bindings[k] == ToggleInstantMode)
      && (instantMode ==> loadedCommandCount > 0
                          && "kb:escape" in bindings && bindings["kb:escape"] == ExitInstantMode)
    }

    /** `__init__` (outside secure mode): the mode is off, the class's own
        toggle gesture is bound, and the verbosity is read from the store. */
    constructor (initial: Disk)
      requires initial.Stored? ==> WellFormed(initial.config)
      ensures Valid()
      ensures !instantMode && gestureToItem == map[] && loadedCommandCount == 0
      ensures bindings == ToggleBindings(["kb:NVDA+e"])
      ensures feedback == [] && launched == []
      ensures configManager.disk == DiskAfterLoad(EnsuredFile(initial))
      ensures verbosityLevel == VerbosityLevel(LoadedConfig(EnsuredFile(initial)))
      ensures fresh(configManager)
    {
      verbosityLevel := "beginner";
      instantMode := false;
      gestureToItem := map[];
      loadedCommandCount := 0;
      bindings := ToggleBindings(["kb:NVDA+e"]);
      feedback := [];
      launched := [];
      configManager := new ConfigManager(initial);
      new;
      CommandCountZero(gestureToItem);
      var level := configManager.GetVerbosityLevel();
      SetVerbosityLevel(level);
    }

    /** `setVerbosityLevel`: an unknown level is read as "beginner". */
    method SetVerbosityLevel(value: string)
      modifies this
      ensures verbosityLevel == ClampVerbosity(value)
      ensures instantMode == old(instantMode) && bindings == old(bindings)
      ensures gestureToItem == old(gestureToItem) && loadedCommandCount == old(loadedCommandCount)
      ensures feedback == old(feedback) && launched == old(launched)
    {
      var level := value;
      if !IsVerbosity(level) {
        level := "beginner";
      }
      verbosityLevel := level;
    }

    predicate IsAdvancedVerbosity()
      reads this
    {
      verbosityLevel == "advanced"
    }

    /** The host's `clearGestureBindings`. */
    method ClearGestureBindings()
      modifies this
      ensures bindings == map[]
      ensures instantMode == old(instantMode) && verbosityLevel == old(verbosityLevel)
      ensures gestureToItem == old(gestureToItem) && loadedCommandCount == old(loadedCommandCount)
      ensures feedback == old(feedback) && launched == old(launched)
    {
      bindings := map[];
    }

    /** The host's `bindGestures`: each gesture bound, replacing any earlier
        binding of the same gesture. */
    method BindGestures(gestureMap: map<string, ScriptName>)
      modifies this
      ensures bindings == old(bindings) + gestureMap
      ensures instantMode == old(instantMode) && verbosityLevel == old(verbosityLevel)
      ensures gestureToItem == old(gestureToItem) && loadedCommandCount == old(loadedCommandCount)
      ensures feedback == old(feedback) && launched == old(launched)
    {
      bindings := bindings + gestureMap;
    }

    /** `clearGestureBindings` followed by `bindGestures`: the bindings become
        exactly `gestureMap`. */
    method Rebind(gestureMap: map<string, ScriptName>)
      modifies this
      ensures bindings == gestureMap
      ensures instantMode == old(instantMode) && verbosityLevel == old(verbosityLevel)
      ensures gestureToItem == old(gestureToItem) && loadedCommandCount == old(loadedCommandCount)
      ensures feedback == old(feedback) && launched == old(launched)
    {
      ClearGestureBindings();
      BindGestures(gestureMap);
      assert bindings == gestureMap;
    }

    /** `buildInstantGestures`: rebuilds `gestureToItem` and the command count
        from the stored items and returns the layer's bindings. */
    method BuildInstantGestures(toggles: seq<string>) returns (instantGestures: map<string, ScriptName>)
      requires configManager.Valid()
      modifies this, configManager
      ensures configManager.Valid()
      ensures configManager.disk == DiskAfterLoad(old(configManager.disk))
      ensures gestureToItem == GestureTable(ItemsOf(LoadedConfig(old(configManager.disk))))
      ensures loadedCommandCount == CommandCount(gestureToItem)
      ensures IsLayer(instantGestures, gestureToItem, toggles)
      ensures instantMode == old(instantMode) && verbosityLevel == old(verbosityLevel)
      ensures bindings == old(bindings) && feedback == old(feedback) && launched == old(launched)
    {
      var items := configManager.GetItems();
      var table := TableOf(items);
      gestureToItem := table;
      loadedCommandCount := CommandCount(table);
      instantGestures := LayerGestures(table, toggles);
    }

    /** The outer loop that fills `gestureToItem`, over the listed items. */
    static method TableOf(items: seq<Item>) returns (table: map<string, Item>)
      ensures table == GestureTable(items)
    {
      table := map[];
      for i := 0 to |items|
        invariant table == GestureTable(items[..i])
      {
        assert items[..i + 1][..i] == items[..i];
        table := AddItemGestures(table, items[i].gestures, items[i]);
      }
      assert items[..|items|] == items;
    }

    /** The middle loop, over the gestures of one item. */
    static method AddItemGestures(m: map<string, Item>, gestures: seq<string>, item: Item)
      returns (table: map<string, Item>)
      ensures table == WithItemGestures(m, LayoutLists(gestures), item)
    {
      table := m;
      for j := 0 to |gestures|
        invariant table == WithItemGestures(m, LayoutLists(gestures[..j]), item)
      {
        var variants := ExpandGestureLayouts(gestures[j]);
        LayoutListsStep(gestures, j);
        WithItemGesturesAppend(m, LayoutLists(gestures[..j]), variants, item);
        table := AddKeys(table, variants, item);
      }
      assert gestures[..|gestures|] == gestures;
    }

    /** The inner loop, over the layout variants of one gesture. */
    static method AddKeys(m: map<string, Item>, expansions: seq<string>, item: Item)
      returns (table: map<string, Item>)
      ensures table == WithKeys(m, expansions, item)
    {
      table := m;
      for k := 0 to |expansions|
        invariant table == WithKeys(m, expansions[..k], item)
      {
        assert expansions[..k + 1][..k] == expansions[..k];
        table := table[Lower(expansions[k]) := item];
      }
      assert expansions[..|expansions|] == expansions;
    }

    /** The layer's bindings: every key of the table to `runInstantItem`,
        then the toggle gestures, then Escape, each overwriting the last. */
    static method LayerGestures(table: map<string, Item>, toggles: seq<string>)
      returns (instantGestures: map<string, ScriptName>)
      ensures IsLayer(instantGestures, table, toggles)
    {
      instantGestures := map[];
      var pending := table.Keys;
      while pending != {}
        invariant pending <= table.Keys
        invariant instantGestures == map k | k in table.Keys - pending :: RunInstantItem
        decreases pending
      {
        var gesture :| gesture in pending;
        instantGestures := instantGestures[gesture := RunInstantItem];
        pending := pending - {gesture};
      }
      for i := 0 to |toggles|
        invariant forall k :: k in instantGestures <==> k in table || k in toggles[..i]
        invariant forall k :: k in toggles[..i] ==> instantGestures[k] == ToggleInstantMode
        invariant forall k :: k in table && k !in toggles[..i] ==> instantGestures[k] == RunInstantItem
      {
        assert toggles[..i + 1] == toggles[..i] + [toggles[i]];
        instantGestures := instantGestures[toggles[i] := ToggleInstantMode];
      }
      assert toggles[..|toggles|] == toggles;
      instantGestures := instantGestures["kb:escape" := ExitInstantMode];
    }

    /** `activateInstantMode`: with no command loaded the mode stays off and
        only the toggle gestures are bound; otherwise the layer's bindings
        replace all others. */
    method ActivateInstantMode(speak: bool, toggles: seq<string>)
      requires Valid()
      modifies this, configManager
      ensures Valid()
      ensures configManager.disk == DiskAfterLoad(old(configManager.disk))
      ensures gestureToItem == GestureTable(ItemsOf(LoadedConfig(old(configManager.disk))))
      ensures instantMode <==> loadedCommandCount > 0
      ensures instantMode <==> gestureToItem != map[]
      ensures !instantMode ==> bindings == ToggleBindings(toggles)
      ensures !instantMode ==> feedback == old(feedback) + (if speak then [NoCommandsConfigured] else [])
      ensures instantMode ==> IsLayer(bindings, gestureToItem, toggles)
      ensures instantMode ==>
        feedback == old(feedback)
             + (if !speak then [] else if IsAdvancedVerbosity() then [ShortOn] else [OnWithCount(loadedCommandCount)])
      ensures verbosityLevel == old(verbosityLevel) && launched == old(launched)
    {
      var instantGestures := BuildInstantGestures(toggles);
      CommandCountZero(gestureToItem);
      if loadedCommandCount <= 0 {
        instantMode := false;
        Rebind(ToggleBindings(toggles));
        if speak {
          feedback := feedback + [NoCommandsConfigured];
        }
        return;
      }
      instantMode := true;
      Rebind(instantGestures);
      if speak {
        if IsAdvancedVerbosity() {
          feedback := feedback + [ShortOn];
        } else {
          feedback := feedback + [OnWithCount(loadedCommandCount)];
        }
      }
    }

    /** `deactivateInstantMode`: outside the layer it does nothing; inside, it
        leaves the layer and binds only the toggle gestures. */
    method DeactivateInstantMode(speak: bool, toggles: seq<string>)
      requires Valid()
      modifies this
      ensures Valid()
      ensures !old(instantMode) ==> bindings == old(bindings) && feedback == old(feedback)
      ensures old(instantMode) ==> bindings == ToggleBindings(toggles)
      ensures old(instantMode) ==>
        feedback == old(feedback) + (if !speak then [] else if IsAdvancedVerbosity() then [ShortOff] else [LongOff])
      ensures !instantMode
      ensures verbosityLevel == old(verbosityLevel) && launched == old(launched)
      ensures gestureToItem == old(gestureToItem) && loadedCommandCount == old(loadedCommandCount)
    {
      if !instantMode {
        return;
      }
      instantMode := false;
      Rebind(ToggleBindings(toggles));
      if speak {
        if IsAdvancedVerbosity() {
          feedback := feedback + [ShortOff];
        } else {
          feedback := feedback + [LongOff];
        }
      }
    }

    /** `finishInstantLayer`: leaves the layer silently. */
    method FinishInstantLayer(toggles: seq<string>)
      requires Valid()
      modifies this
      ensures Valid()
      ensures !instantMode
      ensures old(instantMode) ==> bindings == ToggleBindings(toggles)
      ensures !old(instantMode) ==> bindings == old(bindings)
      ensures feedback == old(feedback) && launched == old(launched)
      ensures verbosityLevel == old(verbosityLevel)
      ensures gestureToItem == old(gestureToItem) && loadedCommandCount == old(loadedCommandCount)
    {
      if instantMode {
        DeactivateInstantMode(false, toggles);
      }
    }

    /** `onConfigChanged`: inside the layer the bindings are rebuilt from the
        store (and the layer is left if no command remains). */
    method OnConfigChanged(toggles: seq<string>)
      requires Valid()
      modifies this, configManager
      ensures Valid()
      ensures !old(instantMode) ==> !instantMode && bindings == old(bindings)
      ensures !old(instantMode) ==> configManager.disk == old(configManager.disk)
      ensures !old(instantMode) ==> gestureToItem == old(gestureToItem)
      ensures old(instantMode) ==> configManager.disk == DiskAfterLoad(old(configManager.disk))
      ensures old(instantMode) ==> gestureToItem == GestureTable(ItemsOf(LoadedConfig(old(configManager.disk))))
      ensures old(instantMode) ==> (instantMode <==> loadedCommandCount > 0)
      ensures old(instantMode) && instantMode ==> IsLayer(bindings, gestureToItem, toggles)
      ensures old(instantMode) && !instantMode ==> bindings == ToggleBindings(toggles)
      ensures feedback == old(feedback) && launched == old(launched)
      ensures verbosityLevel == old(verbosityLevel)
    {
      if instantMode {
        ActivateInstantMode(false, toggles);
      }
    }

    /** `terminate`: leaves the layer silently. */
    method Terminate(toggles: seq<string>)
      requires Valid()
      modifies this
      ensures Valid()
      ensures !instantMode
      ensures old(instantMode) ==> bindings == ToggleBindings(toggles)
      ensures !old(instantMode) ==> bindings == old(bindings)
      ensures feedback == old(feedback) && launched == old(launched)
      ensures verbosityLevel == old(verbosityLevel)
      ensures gestureToItem == old(gestureToItem) && loadedCommandCount == old(loadedCommandCount)
    {
      DeactivateInstantMode(false, toggles);
    }

    /** `queueRunItemExecution`: the item handed to the executor. */
    method QueueRunItemExecution(item: Item)
      modifies this
      ensures launched == old(launched) + [item]
      ensures instantMode == old(instantMode) && verbosityLevel == old(verbosityLevel)
      ensures bindings == old(bindings) && feedback == old(feedback)
      ensures gestureToItem == old(gestureToItem) && loadedCommandCount == old(loadedCommandCount)
    {
      launched := launched + [item];
    }

    /** The search of `script_runInstantItem`. */
    method FindItem(identifiers: seq<string>) returns (item: Option<Item>)
      ensures item == ItemFor(gestureToItem, identifiers)
    {
      item := None;
      var i := 0;
      while i < |identifiers|
        invariant 0 <= i <= |identifiers|
        invariant ItemFor(gestureToItem, identifiers) == ItemFor(gestureToItem, identifiers[i..])
        invariant item == None
      {
        var normalized := NormalizeGestureIdentifier(identifiers[i]);
        assert identifiers[i..][0] == identifiers[i] && identifiers[i..][1..] == identifiers[i + 1..];
        if normalized in gestureToItem {
          item := Some(gestureToItem[normalized]);
          return;
        }
        i := i + 1;
      }
    }

    /** `script_runInstantItem`: the item of the first identifier found is
        handed to the executor; nothing happens when none is found. */
    method ScriptRunInstantItem(identifiers: seq<string>)
      modifies this
      ensures launched == old(launched) + match ItemFor(old(gestureToItem), identifiers)
                                          case Some(it) => [it]
                                          case None => []
      ensures instantMode == old(instantMode) && verbosityLevel == old(verbosityLevel)
      ensures bindings == old(bindings) && feedback == old(feedback)
      ensures gestureToItem == old(gestureToItem) && loadedCommandCount == old(loadedCommandCount)
    {
      var item := FindItem(identifiers);
      if item.None? {
        return;
      }
      QueueRunItemExecution(item.value);
    }

    /** `script_invalidKey`: a tone, preceded by a message for beginners. */
    method ScriptInvalidKey()
      modifies this
      ensures feedback == old(feedback)
        + (if IsAdvancedVerbosity() then [] else [NoCommandAssigned]) + [Tone(250, 50)]
      ensures instantMode == old(instantMode) && verbosityLevel == old(verbosityLevel)
      ensures bindings == old(bindings) && launched == old(launched)
      ensures gestureToItem == old(gestureToItem) && loadedCommandCount == old(loadedCommandCount)
    {
      if IsAdvancedVerbosity() {
        feedback := feedback + [Tone(250, 50)];
        return;
      }
      feedback := feedback + [NoCommandAssigned];
      feedback := feedback + [Tone(250, 50)];
    }

    /** `script_toggleInstantMode`: inside the layer it leaves it, speaking;
        outside, it enters it, speaking, or says no command is configured. */
    method ScriptToggleInstantMode(toggles: seq<string>)
      requires Valid()
      modifies this, configManager
      ensures Valid()
      ensures launched == old(launched) && verbosityLevel == old(verbosityLevel)
      ensures old(instantMode) ==> !instantMode && bindings == ToggleBindings(toggles)
      ensures old(instantMode) ==>
        feedback == old(feedback) + [if IsAdvancedVerbosity() then ShortOff else LongOff]
      ensures old(instantMode) ==> configManager.disk == old(configManager.disk)
      ensures old(instantMode) ==> gestureToItem == old(gestureToItem)
      ensures !old(instantMode) ==> configManager.disk == DiskAfterLoad(old(configManager.disk))
      ensures !old(instantMode) ==> gestureToItem == GestureTable(ItemsOf(LoadedConfig(old(configManager.disk))))
      ensures !old(instantMode) ==> (instantMode <==> loadedCommandCount > 0)
      ensures !old(instantMode) && !instantMode ==>
        bindings == ToggleBindings(toggles) && feedback == old(feedback) + [NoCommandsConfigured]
      ensures !old(instantMode) && instantMode ==> IsLayer(bindings, gestureToItem, toggles)
      ensures !old(instantMode) && instantMode ==>
        feedback == old(feedback) + [if IsAdvancedVerbosity() then ShortOn else OnWithCount(loadedCommandCount)]
    {
      if instantMode {
        DeactivateInstantMode(true, toggles);
      } else {
        ActivateInstantMode(true, toggles);
      }
    }

    /** `script_exitInstantMode`. */
    method ScriptExitInstantMode(toggles: seq<string>)
      requires Valid()
      modifies this
      ensures Valid()
      ensures !instantMode
      ensures launched == old(launched) && verbosityLevel == old(verbosityLevel)
      ensures gestureToItem == old(gestureToItem) && loadedCommandCount == old(loadedCommandCount)
      ensures old(instantMode) ==> bindings == ToggleBindings(toggles)
      ensures old(instantMode) ==>
        feedback == old(feedback) + [if IsAdvancedVerbosity() then ShortOff else LongOff]
      ensures !old(instantMode) ==> bindings == old(bindings) && feedback == old(feedback)
    {
      DeactivateInstantMode(true, toggles);
    }

    /** One gesture pressed: the host asks `getScript` for a script and runs
        it. Outside the layer the bound script runs as it is; inside, an
        unbound gesture gets `script_invalidKey`, and the script is wrapped so
        that `finishInstantLayer` runs after it. */
    method ExecuteGesture(identifiers: seq<string>, toggles: seq<string>)
      requires Valid()
      modifies this, configManager
      ensures Valid()
      ensures verbosityLevel == old(verbosityLevel)
      // Outside the layer: only a toggle gesture is bound, and it switches the layer on.
      ensures !old(instantMode) ==> launched == old(launched)
      ensures !old(instantMode) && ScriptFor(old(bindings), identifiers).None? ==>
        !instantMode && bindings == old(bindings) && feedback == old(feedback)
        && configManager.disk == old(configManager.disk)
      ensures !old(instantMode) && ScriptFor(old(bindings), identifiers).Some? ==>
        && configManager.disk == DiskAfterLoad(old(configManager.disk))
        && gestureToItem == GestureTable(ItemsOf(LoadedConfig(old(configManager.disk))))
        && (instantMode <==> loadedCommandCount > 0)
      ensures !old(instantMode) && ScriptFor(old(bindings), identifiers).Some? && !instantMode ==>
        bindings == ToggleBindings(toggles) && feedback == old(feedback) + [NoCommandsConfigured]
      ensures !old(instantMode) && ScriptFor(old(bindings), identifiers).Some? && instantMode ==>
        && IsLayer(bindings, gestureToItem, toggles)
        && feedback == old(feedback) + [if IsAdvancedVerbosity() then ShortOn else OnWithCount(loadedCommandCount)]
      // Inside the layer: whatever was pressed, the layer is left with only the
      // toggle gestures bound, and the store is not touched.
      ensures old(instantMode) ==> !instantMode && bindings == ToggleBindings(toggles)
      ensures old(instantMode) ==> configManager.disk == old(configManager.disk)
      ensures old(instantMode) ==> gestureToItem == old(gestureToItem)
      ensures old(instantMode) && ScriptFor(old(bindings), identifiers).None? ==>
        feedback == old(feedback) + (if IsAdvancedVerbosity() then [] else [NoCommandAssigned]) + [Tone(250, 50)]
      ensures old(instantMode) && ScriptFor(old(bindings), identifiers) in {Some(ToggleInstantMode), Some(ExitInstantMode)} ==>
        feedback == old(feedback) + [if IsAdvancedVerbosity() then ShortOff else LongOff]
      ensures old(instantMode) && ScriptFor(old(bindings), identifiers) == Some(RunInstantItem) ==>
        feedback == old(feedback)
      ensures old(instantMode) && ScriptFor(old(bindings), identifiers) != Some(RunInstantItem) ==>
        launched == old(launched)
      ensures old(instantMode) && ScriptFor(old(bindings), identifiers) == Some(RunInstantItem) ==>
        launched == old(launched) + match ItemFor(old(gestureToItem), identifiers)
                                     case Some(it) => [it]
                                     case None => []
    {
      var script := ScriptFor(bindings, identifiers);
      if !instantMode {
        if script.Some? {
          assert script.value == ToggleInstantMode;
          ScriptToggleInstantMode(toggles);
        }
        return;
      }
      RunLayerScript(script, identifiers, toggles);
    }

    /** The wrapped script `getScript` returns inside the layer, run: the
        bound script, or `script_invalidKey` when there is none, followed by
        `finishInstantLayer`. */
    method RunLayerScript(script: Option<ScriptName>, identifiers: seq<string>, toggles: seq<string>)
      requires Valid() && instantMode
      modifies this
      ensures Valid()
      ensures !instantMode && bindings == ToggleBindings(toggles)
      ensures verbosityLevel == old(verbosityLevel)
      ensures gestureToItem == old(gestureToItem) && loadedCommandCount == old(loadedCommandCount)
      ensures script.None? ==>
        feedback == old(feedback) + (if IsAdvancedVerbosity() then [] else [NoCommandAssigned]) + [Tone(250, 50)]
      ensures script in {Some(ToggleInstantMode), Some(ExitInstantMode)} ==>
        feedback == old(feedback) + [if IsAdvancedVerbosity() then ShortOff else LongOff]
      ensures script == Some(RunInstantItem) ==> feedback == old(feedback)
      ensures script != Some(RunInstantItem) ==> launched == old(launched)
      ensures script == Some(RunInstantItem) ==>
        launched == old(launched) + match ItemFor(old(gestureToItem), identifiers)
                                     case Some(it) => [it]
                                     case None => []
    {
      match script {
        case None =>
          ScriptInvalidKey();
        case Some(ToggleInstantMode) =>
          // `script_toggleInstantMode` inside the layer
          DeactivateInstantMode(true, toggles);
        case Some(ExitInstantMode) =>
          ScriptExitInstantMode(toggles);
        case Some(RunInstantItem) =>
          ScriptRunInstantItem(identifiers);
      }
      FinishInstantLayer(toggles);
    }
  }
}
