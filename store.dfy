/**
  The item store (`ConfigManager`): items, the gestures bound to them, program
  arguments and the verbosity setting, kept in one INI file with the sections
  Websites, Programs, Folders, Files (name -> path), Gestures (gesture -> name),
  Arguments (name -> argument string) and Settings.

  Every operation reads the whole file, edits the parsed value and writes it
  back. The functions in this module state what each edit does to that value;
  the class `ConfigManager` at the end performs the edits step by step on the
  file and is proved to produce exactly these values.
*/
module Store {
  import opened Wrappers
  import opened Ascii
  import opened Ini

  /** The four kinds of item; each lives in its own section. */
  datatype ItemType = Websites | Programs | Folders | Files

  function SectionOf(t: ItemType): string {
    match t
    case Websites => "Websites"
    case Programs => "Programs"
    case Folders => "Folders"
    case Files => "Files"
  }

  /** The type sections in the order the store lists them. */
  const TypeOrder: seq<ItemType> := [Websites, Programs, Folders, Files]

  /** The names of the type sections, in the same order. */
  const TypeSections: seq<string> := ["Websites", "Programs", "Folders", "Files"]

  /** All sections of a complete configuration file. */
  const ConfigSections: seq<string> :=
    ["Websites", "Programs", "Folders", "Files", "Gestures", "Arguments", "Settings"]

  predicate HasAllSections(c: Config) {
    "Websites" in c && "Programs" in c && "Folders" in c && "Files" in c
    && "Gestures" in c && "Arguments" in c && "Settings" in c
  }

  /** The options of the section of type `t` (none when the section is absent). */
  function Section(c: Config, t: ItemType): Entries {
    if SectionOf(t) in c then c[SectionOf(t)] else []
  }

  // ---------------------------------------------------------------------------
  // Loading

  /** What is at the configuration path. `Unreadable` is a file that cannot
      be opened, or whose text the INI parser rejects. */
  datatype Disk = Missing | Unreadable | Stored(config: Config)

  /** The file written when there is none, or when it cannot be parsed: the
      seven sections, all empty. */
  function EmptyConfig(): (c: Config)
    ensures HasAllSections(c) && WellFormed(c)
    ensures forall s :: s in c ==> c[s] == []
  {
    map["Websites" := [], "Programs" := [], "Folders" := [], "Files" := [],
        "Gestures" := [], "Arguments" := [], "Settings" := []]
  }

  /** The value `loadConfigSafe` parses: a missing file is first created empty;
      one that cannot be opened, or that the INI parser rejects, is replaced
      by the empty configuration. */
  function ParsedConfig(d: Disk): Config {
    match d
    case Stored(c) => c
    case _ => EmptyConfig()
  }

  /** The file once `loadConfigSafe` has run: only a missing file, or one that
      cannot be opened or parsed, is rewritten. */
  function DiskAfterLoad(d: Disk): Disk {
    Stored(ParsedConfig(d))
  }

  /** `sections` added, each empty, where the configuration lacks them, in order. */
  function AddMissingSections(c: Config, sections: seq<string>): Config {
    if sections == [] then c
    else
      var c' := AddMissingSections(c, sections[..|sections| - 1]);
      var s := sections[|sections| - 1];
      if s in c' then c' else c'[s := []]
  }


  /** Adding missing sections keeps every existing section and creates the
      others empty. */
  lemma {:induction false} AddMissingSectionsFacts(c: Config, sections: seq<string>)
    ensures var r := AddMissingSections(c, sections);
      && (forall s :: s in sections ==> s in r)
      && (forall s :: s in c ==> s in r && r[s] == c[s])
      && (forall s :: s in r ==> s in c || s in sections)
      && (forall s :: s in r && s !in c ==> r[s] == [])
  {
    if sections != [] {
      var init := sections[..|sections| - 1];
      AddMissingSectionsFacts(c, init);
      forall s | s in sections ensures s in init || s == sections[|sections| - 1] {
        var i :| 0 <= i < |sections| && sections[i] == s;
        if i < |sections| - 1 {
          assert init[i] == s;
        }
      }
    }
  }

  /** The value `loadOrCreateConfig` returns. */
  function LoadedConfig(d: Disk): (r: Config)
    ensures HasAllSections(r)
  {
    AddedSectionsComplete(ParsedConfig(d));
    AddMissingSections(ParsedConfig(d), ConfigSections)
  }

  lemma AddedSectionsComplete(c: Config)
    ensures HasAllSections(AddMissingSections(c, ConfigSections))
  {
    AddMissingSectionsFacts(c, ConfigSections);
    assert "Websites" in ConfigSections && "Programs" in ConfigSections;
    assert "Folders" in ConfigSections && "Files" in ConfigSections;
    assert "Gestures" in ConfigSections && "Arguments" in ConfigSections;
    assert "Settings" in ConfigSections;
  }

  /** `loadOrCreateConfig` always yields all seven sections with unique option
      names; a missing file, or one that cannot be opened or parsed, yields exactly
      the empty configuration,
      and a readable one keeps every section it had. */
  lemma LoadedConfigFacts(d: Disk)
    requires d.Stored? ==> WellFormed(d.config)
    ensures HasAllSections(LoadedConfig(d)) && WellFormed(LoadedConfig(d))
    ensures !d.Stored? ==> LoadedConfig(d) == EmptyConfig()
    ensures d.Stored? ==> forall s :: s in d.config ==> s in LoadedConfig(d) && LoadedConfig(d)[s] == d.config[s]
  {
    var c := ParsedConfig(d);
    AddMissingSectionsFacts(c, ConfigSections);
    var r := LoadedConfig(d);
    forall s | s in r ensures UniqueKeys(r[s]) {
      if s !in c {
        assert r[s] == [];
      }
    }
    if !d.Stored? {
      ConfigSectionsPresent(c);
      AddMissingSectionsNone(c, ConfigSections);
    }
  }

  /** A complete configuration has every section of `ConfigSections`. */
  lemma ConfigSectionsPresent(c: Config)
    requires HasAllSections(c)
    ensures forall s :: s in ConfigSections ==> s in c
  {
  }

  /** Adding sections that are all present changes nothing. */
  lemma {:induction false} AddMissingSectionsNone(c: Config, sections: seq<string>)
    requires forall s :: s in sections ==> s in c
    ensures AddMissingSections(c, sections) == c
  {
    if sections != [] {
      var init := sections[..|sections| - 1];
      forall s | s in init ensures s in c {
        var i :| 0 <= i < |init| && init[i] == s;
        assert sections[i] == s;
      }
      AddMissingSectionsNone(c, init);
      assert sections[|sections| - 1] in sections;
    }
  }

  // ---------------------------------------------------------------------------
  // Edits

  /** `removeGesturesForName`: the names of the gestures bound to `name` are
      collected, then each of those options is removed. */
  function WithoutGesturesFor(c: Config, name: string): (r: Config)
    ensures r.Keys == c.Keys
  {
    if "Gestures" in c then
      var gs := c["Gestures"];
      c["Gestures" := DropKeys(gs, Elements(KeysMappedTo(gs, name)))]
    else c
  }

  /** After `removeGesturesForName` no gesture is bound to `name`, every other
      gesture binding is kept, and nothing outside Gestures changes. */
  lemma WithoutGesturesForGet(c: Config, name: string, s: string, k: string)
    requires WellFormed(c)
    ensures Get(WithoutGesturesFor(c, name), s, k)
         == if s == "Gestures" && Get(c, s, k) == Some(name) then None else Get(c, s, k)
  {
    if "Gestures" in c {
      DropKeysMappedTo(c["Gestures"], name);
      DropValueLookup(c["Gestures"], name, k);
    }
  }

  /** Removing the gestures of `name` keeps the option names unique, and it
      filters the Gestures section by value, keeping the order of the rest. */
  lemma WithoutGesturesForKeeps(c: Config, name: string)
    requires WellFormed(c)
    ensures WellFormed(WithoutGesturesFor(c, name))
    ensures "Gestures" in c ==> WithoutGesturesFor(c, name)["Gestures"] == DropValue(c["Gestures"], name)
  {
    if "Gestures" in c {
      DropKeysMappedTo(c["Gestures"], name);
      DropValueUnique(c["Gestures"], name);
    }
  }

  /** The Arguments entry an item of type `t` gets: the stripped argument string,
      for a program whose arguments are not blank. */
  function StoredArguments(t: ItemType, arguments: string): Option<string> {
    if t == Programs && Strip(arguments) != "" then Some(Strip(arguments)) else None
  }

  /** The Arguments entry of `name` removed, then written again for a program
      with non-blank arguments. */
  function WithArguments(c: Config, name: string, t: ItemType, arguments: string): (r: Config)
    requires "Arguments" in c
    ensures r.Keys == c.Keys
    ensures WellFormed(c) ==> WellFormed(r)
    ensures "Gestures" in c ==> r["Gestures"] == c["Gestures"]
  {
    var c1 := RemoveOption(c, "Arguments", name);
    if t == Programs && Strip(arguments) != "" then SetOption(c1, "Arguments", name, Strip(arguments))
    else c1
  }

  lemma GetWithArguments(c: Config, name: string, t: ItemType, arguments: string, s: string, k: string)
    requires "Arguments" in c
    ensures Get(WithArguments(c, name, t, arguments), s, k)
         == if (s, k) == ("Arguments", name) then StoredArguments(t, arguments) else Get(c, s, k)
  {
    var c1 := RemoveOption(c, "Arguments", name);
    GetRemoveOption(c, "Arguments", name, s, k);
    if t == Programs && Strip(arguments) != "" {
      GetSetOption(c1, "Arguments", name, Strip(arguments), s, k);
    }
  }

  /** `gesture` bound to `name`, when it is not empty. */
  function PutGesture(es: Entries, gesture: string, name: string): Entries {
    if gesture != "" then Put(es, gesture, name) else es
  }

  function WithGesture(c: Config, gesture: string, name: string): (r: Config)
    requires "Gestures" in c
    ensures r.Keys == c.Keys
    ensures WellFormed(c) ==> WellFormed(r)
    ensures r["Gestures"] == PutGesture(c["Gestures"], gesture, name)
  {
    if gesture != "" then SetOption(c, "Gestures", gesture, name) else c
  }

  lemma GetWithGesture(c: Config, gesture: string, name: string, s: string, k: string)
    requires "Gestures" in c
    ensures Get(WithGesture(c, gesture, name), s, k)
         == if s == "Gestures" && k == gesture && gesture != "" then Some(name) else Get(c, s, k)
  {
    if gesture != "" {
      GetSetOption(c, "Gestures", gesture, name, s, k);
    }
  }

  /** `addItem(name, t, path, gesture, arguments)` applied to a loaded
      configuration. */
  function AddedItem(c: Config, name: string, t: ItemType, path: string, gesture: string,
                     arguments: string): Config
    requires HasAllSections(c)
  {
    var c1 := SetOption(c, SectionOf(t), name, path);
    var c2 := WithArguments(WithoutGesturesFor(c1, name), name, t, arguments);
    WithGesture(c2, gesture, name)
  }

  /** What `addItem` leaves under each option: the item's path in its type
      section; an Arguments entry exactly for a program with non-blank
      arguments, holding them stripped; `gesture` (when non-empty) bound to the
      item and every other gesture of the item unbound; every other option as
      it was. */
  lemma {:induction false} AddedItemGet(c: Config, name: string, t: ItemType, path: string,
                                        gesture: string, arguments: string, s: string, k: string)
    requires HasAllSections(c) && WellFormed(c)
    ensures Get(AddedItem(c, name, t, path, gesture, arguments), s, k)
         == if s == "Gestures" then
              (if k == gesture && gesture != "" then Some(name)
               else if Get(c, s, k) == Some(name) then None
               else Get(c, s, k))
            else if (s, k) == (SectionOf(t), name) then Some(path)
            else if (s, k) == ("Arguments", name) then StoredArguments(t, arguments)
            else Get(c, s, k)
  {
    var c1 := SetOption(c, SectionOf(t), name, path);
    GetSetOption(c, SectionOf(t), name, path, s, k);
    var c2 := WithoutGesturesFor(c1, name);
    WithoutGesturesForGet(c1, name, s, k);
    var c3 := WithArguments(c2, name, t, arguments);
    GetWithArguments(c2, name, t, arguments, s, k);
    GetWithGesture(c3, gesture, name, s, k);
  }

  /** The Gestures section after `addItem`: the item's old gestures dropped,
      then `gesture` set. */
  lemma AddedItemGestures(c: Config, name: string, t: ItemType, path: string, gesture: string,
                          arguments: string)
    requires HasAllSections(c) && WellFormed(c)
    ensures WellFormed(AddedItem(c, name, t, path, gesture, arguments))
    ensures AddedItem(c, name, t, path, gesture, arguments)["Gestures"]
         == PutGesture(DropValue(c["Gestures"], name), gesture, name)
  {
    var c1 := SetOption(c, SectionOf(t), name, path);
    assert c1["Gestures"] == c["Gestures"];
    WithoutGesturesForKeeps(c1, name);
  }

  /** After `addItem` the item has its path, its argument entry under the
      Programs rule, and no gesture other than `gesture`; the file keeps its
      sections and its unique option names. */
  lemma AddedItemFacts(c: Config, name: string, t: ItemType, path: string, gesture: string,
                       arguments: string)
    requires HasAllSections(c) && WellFormed(c)
    ensures AddedItem(c, name, t, path, gesture, arguments).Keys == c.Keys
    ensures WellFormed(AddedItem(c, name, t, path, gesture, arguments))
    ensures Get(AddedItem(c, name, t, path, gesture, arguments), SectionOf(t), name) == Some(path)
    ensures Get(AddedItem(c, name, t, path, gesture, arguments), "Arguments", name)
         == StoredArguments(t, arguments)
    ensures gesture != "" ==>
      Get(AddedItem(c, name, t, path, gesture, arguments), "Gestures", gesture) == Some(name)
    ensures forall g ::
      (Get(AddedItem(c, name, t, path, gesture, arguments), "Gestures", g) == Some(name)
       ==> g == gesture && gesture != "")
  {
    AddedItemGestures(c, name, t, path, gesture, arguments);
    AddedItemGet(c, name, t, path, gesture, arguments, SectionOf(t), name);
    AddedItemGet(c, name, t, path, gesture, arguments, "Arguments", name);
    AddedItemGet(c, name, t, path, gesture, arguments, "Gestures", gesture);
    forall g ensures
      Get(AddedItem(c, name, t, path, gesture, arguments), "Gestures", g) == Some(name)
      ==> g == gesture && gesture != "" {
      AddedItemGet(c, name, t, path, gesture, arguments, "Gestures", g);
    }
  }

  /** One of the four type sections. */
  predicate IsTypeSection(s: string) {
    s == "Websites" || s == "Programs" || s == "Folders" || s == "Files"
  }

  /** The option `name` removed from each of `sections` that exists, in order. */
  function RemoveFromSections(c: Config, sections: seq<string>, name: string): (r: Config)
    ensures r.Keys == c.Keys
    ensures WellFormed(c) ==> WellFormed(r)
  {
    if sections == [] then c
    else
      var c' := RemoveFromSections(c, sections[..|sections| - 1], name);
      var s := sections[|sections| - 1];
      if s in c' then RemoveOption(c', s, name) else c'
  }

  /** One more section handled by the loop of `updateItem` or `deleteItem`. */
  lemma RemoveFromSectionsAppend(c: Config, sections: seq<string>, s: string, name: string)
    ensures RemoveFromSections(c, sections + [s], name) ==
      var c' := RemoveFromSections(c, sections, name);
      if s in c' then RemoveOption(c', s, name) else c'
  {
    assert (sections + [s])[..|sections|] == sections;
  }

  lemma {:induction false} RemoveFromSectionsGet(c: Config, sections: seq<string>, name: string,
                                                 s: string, k: string)
    ensures Get(RemoveFromSections(c, sections, name), s, k)
         == if k == name && s in sections then None else Get(c, s, k)
  {
    if sections != [] {
      var init := sections[..|sections| - 1];
      var last := sections[|sections| - 1];
      RemoveFromSectionsGet(c, init, name, s, k);
      var c' := RemoveFromSections(c, init, name);
      if last in c' {
        GetRemoveOption(c', last, name, s, k);
      }
      assert sections == init + [last];
      assert s in sections <==> s in init || s == last;
    }
  }

  /** A section not listed is left as it is. */
  lemma {:induction false} RemoveFromSectionsKeeps(c: Config, sections: seq<string>, name: string,
                                                   s: string)
    requires s in c && s !in sections
    ensures RemoveFromSections(c, sections, name)[s] == c[s]
  {
    if sections != [] {
      var init := sections[..|sections| - 1];
      assert sections == init + [sections[|sections| - 1]];
      RemoveFromSectionsKeeps(c, init, name, s);
    }
  }

  lemma SectionOfIsTypeSection(t: ItemType)
    ensures IsTypeSection(SectionOf(t))
  {
  }

  lemma TypeSectionsAreTypeSections(s: string)
    ensures s in TypeSections <==> IsTypeSection(s)
  {
  }

  /** `updateItem(oldName, name, t, path, gesture, arguments)` applied to a
      loaded configuration. */
  function UpdatedItem(c: Config, oldName: string, name: string, t: ItemType, path: string,
                       gesture: string, arguments: string): Config
    requires HasAllSections(c)
  {
    var c1 := SetOption(RemoveFromSections(c, TypeSections, oldName), SectionOf(t), name, path);
    var c2 := WithArguments(RemoveOption(c1, "Arguments", oldName), name, t, arguments);
    WithGesture(WithoutGesturesFor(WithoutGesturesFor(c2, oldName), name), gesture, name)
  }

  /** What `updateItem` leaves under each option: `oldName` gone from every type
      section and from Arguments (unless it is `name` itself, which is
      rewritten); the new path under `name` in the type section of `t`; the
      Arguments entry of `name` under the Programs rule; no gesture bound to
      `oldName`, only `gesture` bound to `name`; everything else as before. */
  lemma {:induction false} UpdatedItemGet(c: Config, oldName: string, name: string, t: ItemType,
                                          path: string, gesture: string, arguments: string,
                                          s: string, k: string)
    requires HasAllSections(c) && WellFormed(c)
    ensures Get(UpdatedItem(c, oldName, name, t, path, gesture, arguments), s, k)
         == if s == "Gestures" then
              (if k == gesture && gesture != "" then Some(name)
               else if Get(c, s, k) == Some(oldName) || Get(c, s, k) == Some(name) then None
               else Get(c, s, k))
            else if (s, k) == (SectionOf(t), name) then Some(path)
            else if (s, k) == ("Arguments", name) then StoredArguments(t, arguments)
            else if k == oldName && (s == "Arguments" || IsTypeSection(s)) then None
            else Get(c, s, k)
  {
    var c0 := RemoveFromSections(c, TypeSections, oldName);
    RemoveFromSectionsGet(c, TypeSections, oldName, s, k);
    TypeSectionsAreTypeSections(s);
    var c1 := SetOption(c0, SectionOf(t), name, path);
    GetSetOption(c0, SectionOf(t), name, path, s, k);
    var c1a := RemoveOption(c1, "Arguments", oldName);
    GetRemoveOption(c1, "Arguments", oldName, s, k);
    var c2 := WithArguments(c1a, name, t, arguments);
    GetWithArguments(c1a, name, t, arguments, s, k);
    var c3 := WithoutGesturesFor(c2, oldName);
    WithoutGesturesForGet(c2, oldName, s, k);
    WithoutGesturesForKeeps(c2, oldName);
    var c4 := WithoutGesturesFor(c3, name);
    WithoutGesturesForGet(c3, name, s, k);
    GetWithGesture(c4, gesture, name, s, k);
  }

  /** The Gestures section after `updateItem`: the gestures of both names
      dropped, then `gesture` set. */
  lemma UpdatedItemGestures(c: Config, oldName: string, name: string, t: ItemType, path: string,
                            gesture: string, arguments: string)
    requires HasAllSections(c) && WellFormed(c)
    ensures WellFormed(UpdatedItem(c, oldName, name, t, path, gesture, arguments))
    ensures UpdatedItem(c, oldName, name, t, path, gesture, arguments)["Gestures"]
         == PutGesture(DropValue(DropValue(c["Gestures"], oldName), name), gesture, name)
  {
    var gs := c["Gestures"];
    var c0 := RemoveFromSections(c, TypeSections, oldName);
    RemoveFromSectionsKeeps(c, TypeSections, oldName, "Gestures");
    var c1 := SetOption(c0, SectionOf(t), name, path);
    assert c1["Gestures"] == gs;
    var c2 := WithArguments(RemoveOption(c1, "Arguments", oldName), name, t, arguments);
    assert c2["Gestures"] == gs;
    WithoutGesturesForKeeps(c2, oldName);
    WithoutGesturesForKeeps(WithoutGesturesFor(c2, oldName), name);
  }

  /** After `updateItem` the item is under `name` with its new path and its
      argument entry under the Programs rule, and `oldName` is gone from
      Arguments. */
  lemma UpdatedItemPlaced(c: Config, oldName: string, name: string, t: ItemType, path: string,
                          gesture: string, arguments: string)
    requires HasAllSections(c) && WellFormed(c)
    ensures var r := UpdatedItem(c, oldName, name, t, path, gesture, arguments);
      && Get(r, SectionOf(t), name) == Some(path)
      && Get(r, "Arguments", name) == StoredArguments(t, arguments)
      && (oldName != name ==> Get(r, "Arguments", oldName) == None)
  {
    UpdatedItemGet(c, oldName, name, t, path, gesture, arguments, SectionOf(t), name);
    UpdatedItemGet(c, oldName, name, t, path, gesture, arguments, "Arguments", name);
    UpdatedItemGet(c, oldName, name, t, path, gesture, arguments, "Arguments", oldName);
  }

  /** After `updateItem` the only gesture bound to `name` is `gesture`, and no
      gesture is bound to `oldName` unless it is `name` itself. */
  lemma UpdatedItemBound(c: Config, oldName: string, name: string, t: ItemType, path: string,
                         gesture: string, arguments: string)
    requires HasAllSections(c) && WellFormed(c)
    ensures gesture != "" ==>
      Get(UpdatedItem(c, oldName, name, t, path, gesture, arguments), "Gestures", gesture) == Some(name)
    ensures forall g ::
      (Get(UpdatedItem(c, oldName, name, t, path, gesture, arguments), "Gestures", g) == Some(name)
       ==> g == gesture && gesture != "")
    ensures forall g ::
      (Get(UpdatedItem(c, oldName, name, t, path, gesture, arguments), "Gestures", g) == Some(oldName)
       ==> oldName == name && g == gesture)
  {
    UpdatedItemGet(c, oldName, name, t, path, gesture, arguments, "Gestures", gesture);
    forall g ensures Get(UpdatedItem(c, oldName, name, t, path, gesture, arguments), "Gestures", g) == Some(name)
      ==> g == gesture && gesture != "" {
      UpdatedItemGet(c, oldName, name, t, path, gesture, arguments, "Gestures", g);
    }
    forall g ensures Get(UpdatedItem(c, oldName, name, t, path, gesture, arguments), "Gestures", g) == Some(oldName)
      ==> oldName == name && g == gesture {
      UpdatedItemGet(c, oldName, name, t, path, gesture, arguments, "Gestures", g);
    }
  }

  /** `deleteItem(name)` applied to a loaded configuration. */
  function DeletedItem(c: Config, name: string): Config {
    var c1 := RemoveFromSections(c, TypeSections, name);
    var c2 := if "Arguments" in c1 then RemoveOption(c1, "Arguments", name) else c1;
    WithoutGesturesFor(c2, name)
  }

  /** After `deleteItem(name)`: `name` is absent from the four type sections
      and from Arguments, no gesture is bound to it, and every other option of
      every section is as it was. */
  lemma {:induction false} DeletedItemGet(c: Config, name: string, s: string, k: string)
    requires WellFormed(c)
    ensures Get(DeletedItem(c, name), s, k)
         == if k == name && (IsTypeSection(s) || s == "Arguments") then None
            else if s == "Gestures" && Get(c, s, k) == Some(name) then None
            else Get(c, s, k)
  {
    var c1 := RemoveFromSections(c, TypeSections, name);
    RemoveFromSectionsGet(c, TypeSections, name, s, k);
    TypeSectionsAreTypeSections(s);
    var c2 := if "Arguments" in c1 then RemoveOption(c1, "Arguments", name) else c1;
    if "Arguments" in c1 {
      GetRemoveOption(c1, "Arguments", name, s, k);
    }
    WithoutGesturesForGet(c2, name, s, k);
  }

  lemma DeletedItemWellFormed(c: Config, name: string)
    requires WellFormed(c)
    ensures WellFormed(DeletedItem(c, name))
  {
    var c1 := RemoveFromSections(c, TypeSections, name);
    var c2 := if "Arguments" in c1 then RemoveOption(c1, "Arguments", name) else c1;
    WithoutGesturesForKeeps(c2, name);
  }

  /** The Gestures section after `deleteItem`: the item's gestures dropped. */
  lemma DeletedItemGestures(c: Config, name: string)
    requires WellFormed(c) && "Gestures" in c
    ensures WellFormed(DeletedItem(c, name))
    ensures DeletedItem(c, name)["Gestures"] == DropValue(c["Gestures"], name)
  {
    var c1 := RemoveFromSections(c, TypeSections, name);
    RemoveFromSectionsKeeps(c, TypeSections, name, "Gestures");
    var c2 := if "Arguments" in c1 then RemoveOption(c1, "Arguments", name) else c1;
    assert c2["Gestures"] == c["Gestures"];
    WithoutGesturesForKeeps(c2, name);
  }

  // ---------------------------------------------------------------------------
  // Verbosity

  /** The two verbosity levels. */
  predicate IsVerbosity(v: string) {
    v == "beginner" || v == "advanced"
  }

  /** A verbosity level kept as it is; anything else read as "beginner". */
  function ClampVerbosity(v: string): (r: string)
    ensures IsVerbosity(r)
    ensures IsVerbosity(v) <==> r == v
    ensures !IsVerbosity(v) ==> r == "beginner"
  {
    if IsVerbosity(v) then v else "beginner"
  }

  /** `getVerbosityLevel`: the stored setting, trimmed and lower-cased, with
      "beginner" for a missing or unknown value. */
  function VerbosityLevel(c: Config): (r: string)
    ensures IsVerbosity(r)
    ensures Get(c, "Settings", "verbosity").None? ==> r == "beginner"
    ensures Get(c, "Settings", "verbosity").Some? ==>
      var v := Lower(Strip(Get(c, "Settings", "verbosity").value));
      (IsVerbosity(v) ==> r == v) && (!IsVerbosity(v) ==> r == "beginner")
  {
    var raw := match Get(c, "Settings", "verbosity")
               case Some(v) => v
               case None => "beginner";
    ClampVerbosity(Lower(Strip(raw)))
  }

  /** `setVerbosityLevel(value)`: the value trimmed, lower-cased and clamped,
      stored as the Settings option "verbosity". */
  function WithVerbosity(c: Config, value: string): Config {
    var c1 := if "Settings" in c then c else c["Settings" := []];
    SetOption(c1, "Settings", "verbosity", ClampVerbosity(Lower(Strip(value))))
  }

  /** The two levels are their own trimmed, lower-case forms. */
  lemma VerbosityIsCanonical(v: string)
    requires IsVerbosity(v)
    ensures Lower(Strip(v)) == v
  {
    assert IsStripped(v);
    assert IsLower(v);
    LowerFixesLower(v);
  }

  /** Reading the verbosity back after setting it gives the clamped value; a
      valid level survives unchanged; no other option is touched. */
  lemma {:induction false} VerbosityRoundTrip(c: Config, value: string)
    ensures VerbosityLevel(WithVerbosity(c, value)) == ClampVerbosity(Lower(Strip(value)))
    ensures IsVerbosity(value) ==> VerbosityLevel(WithVerbosity(c, value)) == value
    ensures forall s, k :: (s, k) != ("Settings", "verbosity") ==>
      Get(WithVerbosity(c, value), s, k) == Get(c, s, k)
  {
    var c1 := if "Settings" in c then c else c["Settings" := []];
    var v := ClampVerbosity(Lower(Strip(value)));
    GetSetOption(c1, "Settings", "verbosity", v, "Settings", "verbosity");
    VerbosityIsCanonical(v);
    if IsVerbosity(value) {
      VerbosityIsCanonical(value);
    }
    forall s, k | (s, k) != ("Settings", "verbosity")
      ensures Get(WithVerbosity(c, value), s, k) == Get(c, s, k) {
      GetSetOption(c1, "Settings", "verbosity", v, s, k);
      assert Get(c1, s, k) == Get(c, s, k);
    }
  }

  // ---------------------------------------------------------------------------
  // Listing

  /** One entry of `getItems`. */
  datatype Item = Item(name: string, itemType: ItemType, path: string, arguments: string,
                       gestures: seq<string>)

  /** The argument string stored for `name`, or "" (`argumentMap.get(name, "")`). */
  function ArgumentOf(c: Config, name: string): string {
    match Get(c, "Arguments", name)
    case Some(a) => a
    case None => ""
  }

  /** The gestures bound to `name`, in file order (`gestureMap.get(name, [])`). */
  function GesturesOf(c: Config, name: string): seq<string> {
    if "Gestures" in c then KeysMappedTo(c["Gestures"], name) else []
  }

  /** The item stored under option `e` of the section of type `t`. */
  function ItemAt(c: Config, t: ItemType, e: (string, string)): Item {
    Item(e.0, t, e.1, ArgumentOf(c, e.0), GesturesOf(c, e.0))
  }

  /** The items of one type section, in file order. */
  function SectionItems(c: Config, t: ItemType): seq<Item> {
    var es := Section(c, t);
    seq(|es|, i requires 0 <= i < |es| => ItemAt(c, t, es[i]))
  }

  /** The items of the first `n` type sections, in the listing order. */
  function ItemsUpTo(c: Config, n: nat): seq<Item>
    requires n <= |TypeOrder|
  {
    if n == 0 then [] else ItemsUpTo(c, n - 1) + SectionItems(c, TypeOrder[n - 1])
  }

  /** `getItems`: Websites, then Programs, Folders and Files, each in file order. */
  function ItemsOf(c: Config): seq<Item> {
    ItemsUpTo(c, |TypeOrder|)
  }

  /** `it` is what the store holds for its name: its path under its type,
      its argument string and its gestures. */
  predicate Stores(c: Config, it: Item) {
    Get(c, SectionOf(it.itemType), it.name) == Some(it.path)
    && it.arguments == ArgumentOf(c, it.name)
    && it.gestures == GesturesOf(c, it.name)
  }

  lemma GetSection(c: Config, t: ItemType, k: string)
    ensures Get(c, SectionOf(t), k) == Lookup(Section(c, t), k)
  {
  }

  lemma SectionOfInjective(t: ItemType, u: ItemType)
    ensures SectionOf(t) == SectionOf(u) <==> t == u
  {
  }

  lemma SectionItemsMembers(c: Config, t: ItemType, it: Item)
    requires WellFormed(c)
    ensures it in SectionItems(c, t) <==> it.itemType == t && Stores(c, it)
  {
    var es := Section(c, t);
    var items := SectionItems(c, t);
    if it in items {
      var i :| 0 <= i < |items| && items[i] == it;
      assert es[i] in es;
      if SectionOf(t) in c {
        LookupIn(es, it.name, it.path);
      }
    }
    if it.itemType == t && Stores(c, it) {
      assert SectionOf(t) in c;
      LookupIn(es, it.name, it.path);
      var i :| 0 <= i < |es| && es[i] == (it.name, it.path);
      assert items[i] == it;
    }
  }

  lemma {:induction false} ItemsUpToMembers(c: Config, n: nat, it: Item)
    requires n <= |TypeOrder|
    requires WellFormed(c)
    ensures it in ItemsUpTo(c, n) <==> it.itemType in TypeOrder[..n] && Stores(c, it)
  {
    if n > 0 {
      ItemsUpToMembers(c, n - 1, it);
      SectionItemsMembers(c, TypeOrder[n - 1], it);
      assert TypeOrder[..n] == TypeOrder[..n - 1] + [TypeOrder[n - 1]];
    }
  }

  /** A listed item's path is stored under its name in its type section. */
  lemma ListedIsStored(c: Config, it: Item)
    requires WellFormed(c) && it in ItemsOf(c)
    ensures Get(c, SectionOf(it.itemType), it.name) == Some(it.path)
  {
    ItemsOfMembers(c, it);
  }

  /** `getItems` lists exactly the items the store holds: one per option of
      each type section, carrying that name's arguments and gestures. */
  lemma ItemsOfMembers(c: Config, it: Item)
    requires WellFormed(c)
    ensures it in ItemsOf(c) <==> Stores(c, it)
  {
    ItemsUpToMembers(c, |TypeOrder|, it);
    assert TypeOrder[..|TypeOrder|] == TypeOrder;
    assert it.itemType in TypeOrder by {
      match it.itemType
      case Websites => assert TypeOrder[0] == Websites;
      case Programs => assert TypeOrder[1] == Programs;
      case Folders => assert TypeOrder[2] == Folders;
      case Files => assert TypeOrder[3] == Files;
    }
  }

  /** `getAllNames`: the option names of the four type sections. */
  function AllNames(c: Config): set<string> {
    Names(Section(c, Websites)) + Names(Section(c, Programs))
    + Names(Section(c, Folders)) + Names(Section(c, Files))
  }

  /** The names `getAllNames` returns are the names of the listed items. */
  lemma AllNamesOfItems(c: Config, n: string)
    requires WellFormed(c)
    ensures n in AllNames(c) <==> exists it :: it in ItemsOf(c) && it.name == n
  {
    if n in AllNames(c) {
      var t := AllNamesSection(c, n);
      NamesHasKey(Section(c, t), n);
      var it := Item(n, t, Lookup(Section(c, t), n).value, ArgumentOf(c, n), GesturesOf(c, n));
      ItemsOfMembers(c, it);
    }
    if exists it :: it in ItemsOf(c) && it.name == n {
      var it :| it in ItemsOf(c) && it.name == n;
      ItemsOfMembers(c, it);
      NamesHasKey(Section(c, it.itemType), n);
      SectionNamesInAll(c, it.itemType, n);
    }
  }

  /** A name of `getAllNames` comes from one of the type sections. */
  lemma AllNamesSection(c: Config, n: string) returns (t: ItemType)
    requires n in AllNames(c)
    ensures n in Names(Section(c, t))
  {
    if n in Names(Section(c, Websites)) {
      t := Websites;
    } else if n in Names(Section(c, Programs)) {
      t := Programs;
    } else if n in Names(Section(c, Folders)) {
      t := Folders;
    } else {
      t := Files;
    }
  }

  lemma SectionNamesInAll(c: Config, t: ItemType, n: string)
    requires n in Names(Section(c, t))
    ensures n in AllNames(c)
  {
  }

  /** Gesture names lower-cased -> item name, the later option winning. */
  function LoweredNames(es: Entries): map<string, string> {
    if es == [] then map[]
    else
      var last := es[|es| - 1];
      LoweredNames(es[..|es| - 1])[Lower(last.0) := last.1]
  }

  /** `getGestureToNameMap`. */
  function GestureToName(c: Config): map<string, string> {
    if "Gestures" in c then LoweredNames(c["Gestures"]) else map[]
  }

  /** The keys of the gesture map are the lower-cased bound gestures. */
  lemma {:induction false} LoweredNamesKeys(es: Entries, k: string)
    ensures k in LoweredNames(es) <==> exists g :: HasKey(es, g) && Lower(g) == k
  {
    if es != [] {
      var init, last := es[..|es| - 1], es[|es| - 1];
      assert es == init + [last];
      LoweredNamesKeys(init, k);
      forall g ensures HasKey(es, g) <==> HasKey(init, g) || g == last.0 {
        LookupAppend(init, last, g);
      }
    }
  }

  /** A bound gesture that no other bound gesture matches once lower-cased is
      mapped to the name it is bound to. */
  lemma {:induction false} LoweredNamesValue(es: Entries, g: string)
    requires UniqueKeys(es)
    requires HasKey(es, g)
    requires forall g' :: HasKey(es, g') && Lower(g') == Lower(g) ==> g' == g
    ensures Lower(g) in LoweredNames(es) && LoweredNames(es)[Lower(g)] == Lookup(es, g).value
  {
    var init, last := es[..|es| - 1], es[|es| - 1];
    assert es == init + [last];
    LookupAppend(init, last, g);
    if last.0 == g {
      assert (g, last.1) in es;
      LookupIn(es, g, last.1);
    } else {
      LookupAppend(init, last, last.0);
      UniqueKeysPrefix(es, |es| - 1);
      forall g' | HasKey(init, g') && Lower(g') == Lower(g) ensures g' == g {
        LookupAppend(init, last, g');
      }
      LoweredNamesValue(init, g);
    }
  }

  // ---------------------------------------------------------------------------
  // What the edits do to the listing

  /** The text `getItems` shows as the arguments of an item just written. */
  function ArgumentText(t: ItemType, arguments: string): string {
    match StoredArguments(t, arguments)
    case Some(a) => a
    case None => ""
  }

  /** The gestures `getItems` shows for an item just written with `gesture`. */
  function GestureList(gesture: string): seq<string> {
    if gesture == "" then [] else [gesture]
  }

  /** The item named by the gesture list of a configuration in which exactly
      `gesture` (or nothing, when it is "") is bound to `name`. */
  lemma GesturesOfSingle(c: Config, name: string, gesture: string)
    requires WellFormed(c) && "Gestures" in c
    requires gesture != "" ==> Get(c, "Gestures", gesture) == Some(name)
    requires forall g :: Get(c, "Gestures", g) == Some(name) ==> g == gesture && gesture != ""
    ensures GesturesOf(c, name) == GestureList(gesture)
  {
    var gs := c["Gestures"];
    assert forall g :: Get(c, "Gestures", g) == Lookup(gs, g);
    if gesture == "" {
      KeysMappedToNone(gs, name);
    } else {
      KeysMappedToSingle(gs, name, gesture);
    }
  }

  /** Round trip of `addItem` through `getItems`: when no other type section
      holds the name (the dialog refuses such a name), the listing shows the
      item exactly as written, and no other item of that name. */
  lemma AddedItemListed(c: Config, name: string, t: ItemType, path: string, gesture: string,
                        arguments: string)
    requires HasAllSections(c) && WellFormed(c)
    requires forall u :: u != t ==> !HasKey(Section(c, u), name)
    ensures var it := Item(name, t, path, ArgumentText(t, arguments), GestureList(gesture));
      it in ItemsOf(AddedItem(c, name, t, path, gesture, arguments))
    ensures forall it :: (it in ItemsOf(AddedItem(c, name, t, path, gesture, arguments)) && it.name == name
                          ==> it == Item(name, t, path, ArgumentText(t, arguments), GestureList(gesture)))
  {
    var r := AddedItem(c, name, t, path, gesture, arguments);
    var item := Item(name, t, path, ArgumentText(t, arguments), GestureList(gesture));
    AddedItemFacts(c, name, t, path, gesture, arguments);
    GesturesOfSingle(r, name, gesture);
    ItemsOfMembers(r, item);
    forall it | it in ItemsOf(r) && it.name == name ensures it == item {
      ItemsOfMembers(r, it);
      if it.itemType != t {
        AddedItemOtherSections(c, name, t, path, gesture, arguments, it.itemType);
        assert false;
      }
    }
  }

  /** Under the same condition, the name is in no other type section after
      `addItem`. */
  lemma AddedItemOtherSections(c: Config, name: string, t: ItemType, path: string, gesture: string,
                               arguments: string, u: ItemType)
    requires HasAllSections(c) && WellFormed(c)
    requires forall u :: u != t ==> !HasKey(Section(c, u), name)
    requires u != t
    ensures Get(AddedItem(c, name, t, path, gesture, arguments), SectionOf(u), name) == None
  {
    SectionOfInjective(u, t);
    AddedItemGet(c, name, t, path, gesture, arguments, SectionOf(u), name);
    GetSection(c, u, name);
  }

  /** `addItem` leaves every other item as it was listed, provided `gesture`
      was free or already the item's own (the dialog refuses a gesture taken
      by another item). */
  lemma AddedItemKeepsOthers(c: Config, name: string, t: ItemType, path: string, gesture: string,
                             arguments: string, it: Item)
    requires HasAllSections(c) && WellFormed(c)
    requires gesture == "" || Get(c, "Gestures", gesture).None? || Get(c, "Gestures", gesture) == Some(name)
    requires it.name != name
    ensures it in ItemsOf(AddedItem(c, name, t, path, gesture, arguments)) <==> it in ItemsOf(c)
  {
    var r := AddedItem(c, name, t, path, gesture, arguments);
    AddedItemFacts(c, name, t, path, gesture, arguments);
    ItemsOfMembers(c, it);
    ItemsOfMembers(r, it);
    SectionOfInjective(it.itemType, t);
    AddedItemGet(c, name, t, path, gesture, arguments, SectionOf(it.itemType), it.name);
    AddedItemGet(c, name, t, path, gesture, arguments, "Arguments", it.name);
    AddedItemGestures(c, name, t, path, gesture, arguments);
    var gs := c["Gestures"];
    KeysMappedToDropValue(gs, name, it.name);
    if gesture != "" {
      DropValueLookup(gs, name, gesture);
      KeysMappedToPut(DropValue(gs, name), gesture, name, it.name);
    }
  }

  /** Round trip of `updateItem` through `getItems`: the listing shows the
      item as rewritten. */
  lemma UpdatedItemListed(c: Config, oldName: string, name: string, t: ItemType, path: string,
                          gesture: string, arguments: string)
    requires HasAllSections(c) && WellFormed(c)
    ensures var it := Item(name, t, path, ArgumentText(t, arguments), GestureList(gesture));
      it in ItemsOf(UpdatedItem(c, oldName, name, t, path, gesture, arguments))
  {
    var r := UpdatedItem(c, oldName, name, t, path, gesture, arguments);
    UpdatedItemGestures(c, oldName, name, t, path, gesture, arguments);
    UpdatedItemPlaced(c, oldName, name, t, path, gesture, arguments);
    UpdatedItemBound(c, oldName, name, t, path, gesture, arguments);
    GesturesOfSingle(r, name, gesture);
    ItemsOfMembers(r, Item(name, t, path, ArgumentText(t, arguments), GestureList(gesture)));
  }

  /** When the new name is the old one or is not yet taken (as the dialog
      demands), `updateItem` leaves no other item of that name. */
  lemma UpdatedItemUnique(c: Config, oldName: string, name: string, t: ItemType, path: string,
                          gesture: string, arguments: string, it: Item)
    requires HasAllSections(c) && WellFormed(c)
    requires name == oldName || name !in AllNames(c)
    requires it in ItemsOf(UpdatedItem(c, oldName, name, t, path, gesture, arguments))
    requires it.name == name
    ensures it.itemType == t
  {
    var r := UpdatedItem(c, oldName, name, t, path, gesture, arguments);
    UpdatedItemGestures(c, oldName, name, t, path, gesture, arguments);
    ItemsOfMembers(r, it);
    if it.itemType != t {
      SectionOfInjective(it.itemType, t);
      UpdatedItemGet(c, oldName, name, t, path, gesture, arguments, SectionOf(it.itemType), name);
      GetSection(c, it.itemType, name);
      if name != oldName {
        NamesHasKey(Section(c, it.itemType), name);
      }
      assert false;
    }
  }

  /** ... and the item listed under that name is the rewritten one. */
  lemma UpdatedItemOnly(c: Config, oldName: string, name: string, t: ItemType, path: string,
                        gesture: string, arguments: string, it: Item)
    requires HasAllSections(c) && WellFormed(c)
    requires name == oldName || name !in AllNames(c)
    requires it in ItemsOf(UpdatedItem(c, oldName, name, t, path, gesture, arguments))
    requires it.name == name
    ensures it == Item(name, t, path, ArgumentText(t, arguments), GestureList(gesture))
  {
    var r := UpdatedItem(c, oldName, name, t, path, gesture, arguments);
    UpdatedItemUnique(c, oldName, name, t, path, gesture, arguments, it);
    UpdatedItemGestures(c, oldName, name, t, path, gesture, arguments);
    UpdatedItemPlaced(c, oldName, name, t, path, gesture, arguments);
    UpdatedItemBound(c, oldName, name, t, path, gesture, arguments);
    GesturesOfSingle(r, name, gesture);
    ItemsOfMembers(r, it);
  }

  lemma UpdatedItemWellFormed(c: Config, oldName: string, name: string, t: ItemType, path: string,
                              gesture: string, arguments: string)
    requires HasAllSections(c) && WellFormed(c)
    ensures WellFormed(UpdatedItem(c, oldName, name, t, path, gesture, arguments))
  {
    UpdatedItemGestures(c, oldName, name, t, path, gesture, arguments);
  }

  /** After a rename no item is listed under the old name. */
  lemma UpdatedItemRenamed(c: Config, oldName: string, name: string, t: ItemType, path: string,
                           gesture: string, arguments: string, it: Item)
    requires HasAllSections(c) && WellFormed(c)
    requires oldName != name
    requires it in ItemsOf(UpdatedItem(c, oldName, name, t, path, gesture, arguments))
    ensures it.name != oldName
  {
    var r := UpdatedItem(c, oldName, name, t, path, gesture, arguments);
    var s := SectionOf(it.itemType);
    assert Get(r, s, oldName) == None by {
      SectionOfIsTypeSection(it.itemType);
      UpdatedItemGet(c, oldName, name, t, path, gesture, arguments, s, oldName);
    }
    UpdatedItemWellFormed(c, oldName, name, t, path, gesture, arguments);
    ListedIsStored(r, it);
  }

  /** `updateItem` leaves every item of a third name as it was listed,
      provided `gesture` was free or held by the item being edited. */
  lemma UpdatedItemKeepsOthers(c: Config, oldName: string, name: string, t: ItemType, path: string,
                               gesture: string, arguments: string, it: Item)
    requires HasAllSections(c) && WellFormed(c)
    requires gesture == "" || Get(c, "Gestures", gesture).None?
      || Get(c, "Gestures", gesture) == Some(name) || Get(c, "Gestures", gesture) == Some(oldName)
    requires it.name != name && it.name != oldName
    ensures it in ItemsOf(UpdatedItem(c, oldName, name, t, path, gesture, arguments)) <==> it in ItemsOf(c)
  {
    var r := UpdatedItem(c, oldName, name, t, path, gesture, arguments);
    UpdatedItemGestures(c, oldName, name, t, path, gesture, arguments);
    ItemsOfMembers(c, it);
    ItemsOfMembers(r, it);
    SectionOfInjective(it.itemType, t);
    UpdatedItemGet(c, oldName, name, t, path, gesture, arguments, SectionOf(it.itemType), it.name);
    UpdatedItemGet(c, oldName, name, t, path, gesture, arguments, "Arguments", it.name);
    var gs := c["Gestures"];
    var d1 := DropValue(gs, oldName);
    KeysMappedToDropValue(gs, oldName, it.name);
    KeysMappedToDropValue(d1, name, it.name);
    if gesture != "" {
      DropValueUnique(gs, oldName);
      DropValueLookup(gs, oldName, gesture);
      DropValueLookup(d1, name, gesture);
      KeysMappedToPut(DropValue(d1, name), gesture, name, it.name);
    }
  }

  /** `deleteItem(name)` through `getItems`: the listing loses every item of
      that name and keeps every other item as it was. */
  lemma DeletedItemListed(c: Config, name: string, it: Item)
    requires WellFormed(c)
    ensures it in ItemsOf(DeletedItem(c, name)) <==> it in ItemsOf(c) && it.name != name
  {
    var r := DeletedItem(c, name);
    DeletedItemWellFormed(c, name);
    ItemsOfMembers(c, it);
    ItemsOfMembers(r, it);
    DeletedItemGet(c, name, SectionOf(it.itemType), it.name);
    DeletedItemGet(c, name, "Arguments", it.name);
    if it.name != name && "Gestures" in c {
      DeletedItemGestures(c, name);
      KeysMappedToDropValue(c["Gestures"], name, it.name);
    }
  }

  // ---------------------------------------------------------------------------
  // The dictionaries `getItems` builds

  /** `gestureMap`: each name -> the gestures bound to it, appended in file
      order. */
  function GestureLists(es: Entries): map<string, seq<string>> {
    if es == [] then map[]
    else
      var m := GestureLists(es[..|es| - 1]);
      var e := es[|es| - 1];
      m[e.1 := (if e.1 in m then m[e.1] else []) + [e.0]]
  }

  /** `argumentMap`: each name -> its argument text, a later option
      overwriting an earlier one. */
  function LastValues(es: Entries): map<string, string> {
    if es == [] then map[]
    else
      var e := es[|es| - 1];
      LastValues(es[..|es| - 1])[e.0 := e.1]
  }

  /** Looking a name up in `gestureMap`, with [] when it is absent, gives the
      gestures bound to it. */
  lemma {:induction false} GestureListsGet(es: Entries, name: string)
    ensures (if name in GestureLists(es) then GestureLists(es)[name] else []) == KeysMappedTo(es, name)
  {
    if es != [] {
      var init, e := es[..|es| - 1], es[|es| - 1];
      assert es == init + [e];
      GestureListsGet(init, name);
      KeysMappedToAppend(init, [e], name);
      KeysMappedToOne(e, name);
    }
  }

  /** The last option of a section with unique names is not named earlier. */
  lemma {:induction false} UniqueKeysLast(es: Entries)
    requires UniqueKeys(es) && es != []
    ensures !HasKey(es[..|es| - 1], es[|es| - 1].0)
  {
    if |es| > 1 {
      var t := es[1..];
      assert t[..|t| - 1] == es[..|es| - 1][1..];
      assert t[|t| - 1] == es[|es| - 1];
      UniqueKeysLast(t);
      assert t == t[..|t| - 1] + [t[|t| - 1]];
      LookupAppend(t[..|t| - 1], t[|t| - 1], t[|t| - 1].0);
    }
  }

  /** With unique names, looking a name up in `argumentMap`, with "" when it
      is absent, gives the option's value. */
  lemma {:induction false} LastValuesGet(es: Entries, name: string)
    requires UniqueKeys(es)
    ensures name in LastValues(es) <==> HasKey(es, name)
    ensures name in LastValues(es) ==> LastValues(es)[name] == Lookup(es, name).value
  {
    if es != [] {
      var init, e := es[..|es| - 1], es[|es| - 1];
      assert es == init + [e];
      UniqueKeysPrefix(es, |es| - 1);
      UniqueKeysLast(es);
      LastValuesGet(init, name);
      LookupAppend(init, e, name);
    }
  }

  /** `argumentMap` of a configuration. */
  function ArgumentTable(c: Config): map<string, string> {
    if "Arguments" in c then LastValues(c["Arguments"]) else map[]
  }

  /** `gestureMap` of a configuration. */
  function GestureTableOf(c: Config): map<string, seq<string>> {
    if "Gestures" in c then GestureLists(c["Gestures"]) else map[]
  }

  /** The two dictionaries answer for each name what the store holds for it. */
  lemma TablesGet(c: Config, name: string)
    requires WellFormed(c)
    ensures (if name in ArgumentTable(c) then ArgumentTable(c)[name] else "") == ArgumentOf(c, name)
    ensures (if name in GestureTableOf(c) then GestureTableOf(c)[name] else []) == GesturesOf(c, name)
  {
    if "Arguments" in c {
      LastValuesGet(c["Arguments"], name);
    }
    if "Gestures" in c {
      GestureListsGet(c["Gestures"], name);
    }
  }

  /** The names of the first `n` type sections. */
  function NamesUpTo(c: Config, n: nat): set<string>
    requires n <= |TypeOrder|
  {
    if n == 0 then {} else NamesUpTo(c, n - 1) + Names(Section(c, TypeOrder[n - 1]))
  }

  lemma NamesUpToAll(c: Config)
    ensures NamesUpTo(c, |TypeOrder|) == AllNames(c)
  {
    assert NamesUpTo(c, 1) == Names(Section(c, Websites));
    assert NamesUpTo(c, 2) == NamesUpTo(c, 1) + Names(Section(c, Programs));
    assert NamesUpTo(c, 3) == NamesUpTo(c, 2) + Names(Section(c, Folders));
  }

  lemma NamesAppend(es: Entries, e: (string, string))
    ensures Names(es + [e]) == Names(es) + {e.0}
  {
    assert forall x :: x in es + [e] <==> x in es || x == e;
  }
}
