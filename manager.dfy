/**
  `ConfigManager`: the object that owns the configuration file. Each public
  operation reads the file (recreating it when it is missing, cannot be opened or
  cannot be parsed),
  adds the sections it lacks, edits the parsed value step by step and writes
  it back. Each method is proved to leave the file holding exactly the value
  the matching function of module Store describes, so the lemmas proved there
  about `AddedItem`, `UpdatedItem`, `DeletedItem`, `WithVerbosity` and
  `ItemsOf` are facts about these methods.
*/
module Manager {
  import opened Wrappers
  import opened Ascii
  import opened Ini
  import opened Store

  /** The file once `ensureConfigFile` has run: a missing file is created with
      the seven sections, all empty. */
  function EnsuredFile(d: Disk): (r: Disk)
    ensures !r.Missing?
    ensures !d.Missing? ==> r == d
  {
    if d.Missing? then Stored(EmptyConfig()) else d
  }

  class ConfigManager {
    /** The configuration file. */
    var disk: Disk

    /** A stored file has unique option names in every section, as the parser
        demands of any file it reads. */
    predicate Valid()
      reads this
    {
      disk.Stored? ==> WellFormed(disk.config)
    }

    constructor (initial: Disk)
      requires initial.Stored? ==> WellFormed(initial.config)
      ensures Valid()
      ensures disk == EnsuredFile(initial)
    {
      if initial.Missing? {
        disk := Stored(EmptyConfig());
      } else {
        disk := initial;
      }
    }

    /** `loadConfigSafe`: the parsed file; a missing file is first created, and
        one that cannot be opened or that the INI parser rejects is
        overwritten with the empty configuration. */
    method LoadConfigSafe() returns (config: Config)
      requires Valid()
      modifies this
      ensures Valid()
      ensures disk == DiskAfterLoad(old(disk))
      ensures config == ParsedConfig(old(disk))
    {
      if disk.Missing? {
        disk := Stored(EmptyConfig());
      }
      if disk.Stored? {
        config := disk.config;
      } else {
        config := EmptyConfig();
        disk := Stored(config);
      }
    }

    /** `loadOrCreateConfig`: the parsed file with every missing section
        added, empty, in the order of the section list. */
    method LoadOrCreateConfig() returns (config: Config)
      requires Valid()
      modifies this
      ensures Valid()
      ensures disk == DiskAfterLoad(old(disk))
      ensures config == LoadedConfig(old(disk))
      ensures HasAllSections(config) && WellFormed(config)
    {
      config := LoadConfigSafe();
      ghost var parsed := config;
      for i := 0 to |ConfigSections|
        invariant config == AddMissingSections(parsed, ConfigSections[..i])
      {
        var section := ConfigSections[i];
        assert ConfigSections[..i + 1][..i] == ConfigSections[..i];
        if section !in config {
          config := config[section := []];
        }
      }
      assert ConfigSections[..|ConfigSections|] == ConfigSections;
      LoadedConfigFacts(old(disk));
    }

    /** `saveConfig`: the file now holds `config`. */
    method SaveConfig(config: Config)
      requires WellFormed(config)
      modifies this
      ensures Valid()
      ensures disk == Stored(config)
    {
      disk := Stored(config);
    }

    /** `removeGesturesForName`: every gesture bound to `name` unbound. */
    static method RemoveGesturesForName(config: Config, name: string) returns (r: Config)
      ensures r == WithoutGesturesFor(config, name)
    {
      r := config;
      if "Gestures" !in config {
        return;
      }
      var gestures := config["Gestures"];
      var toRemove := GesturesBoundTo(gestures, name);
      r := RemoveGestures(config, toRemove);
    }

    /** The first loop of `removeGesturesForName`: the gestures bound to
        `name`, in file order. */
    static method GesturesBoundTo(gestures: Entries, name: string) returns (toRemove: seq<string>)
      ensures toRemove == KeysMappedTo(gestures, name)
    {
      toRemove := [];
      for i := 0 to |gestures|
        invariant toRemove == KeysMappedTo(gestures[..i], name)
      {
        var (gesture, mappedName) := gestures[i];
        assert gestures[..i + 1] == gestures[..i] + [gestures[i]];
        KeysMappedToAppend(gestures[..i], [gestures[i]], name);
        if mappedName == name {
          toRemove := toRemove + [gesture];
        }
      }
      assert gestures[..|gestures|] == gestures;
    }

    /** The second loop of `removeGesturesForName`: each listed gesture removed
        from the "Gestures" section. */
    static method RemoveGestures(config: Config, toRemove: seq<string>) returns (r: Config)
      requires "Gestures" in config
      ensures r == config["Gestures" := DropKeys(config["Gestures"], Elements(toRemove))]
    {
      var gestures := config["Gestures"];
      r := config;
      DropKeysNone(gestures);
      assert Elements(toRemove[..0]) == {};
      assert config["Gestures" := gestures] == config;
      for j := 0 to |toRemove|
        invariant "Gestures" in r
        invariant r == config["Gestures" := DropKeys(gestures, Elements(toRemove[..j]))]
      {
        DropAfterDropKeys(gestures, Elements(toRemove[..j]), toRemove[j]);
        assert toRemove[..j + 1] == toRemove[..j] + [toRemove[j]];
        ElementsAppend(toRemove[..j], toRemove[j]);
        r := RemoveOption(r, "Gestures", toRemove[j]);
      }
      assert toRemove[..|toRemove|] == toRemove;
    }

    /** `getItems`: the items of the four type sections in order, each with
        its argument text and its gestures. */
    method GetItems() returns (items: seq<Item>)
      requires Valid()
      modifies this
      ensures Valid()
      ensures disk == DiskAfterLoad(old(disk))
      ensures items == ItemsOf(LoadedConfig(old(disk)))
    {
      var config := LoadOrCreateConfig();
      items := ListItems(config);
    }

    /** The body of `getItems` once the file is loaded: the two dictionaries,
        then one entry per option of each type section. */
    static method ListItems(config: Config) returns (items: seq<Item>)
      requires WellFormed(config)
      ensures items == ItemsOf(config)
    {
      var gestureMap := GestureMapOf(config);
      var argumentMap := ArgumentMapOf(config);
      items := [];
      for i := 0 to |TypeOrder|
        invariant items == ItemsUpTo(config, i)
      {
        var t := TypeOrder[i];
        if SectionOf(t) !in config {
          assert SectionItems(config, t) == [];
          continue;
        }
        var listed := ListSection(config, t, gestureMap, argumentMap);
        items := items + listed;
      }
    }

    /** The inner loop of `getItems`: one entry per option of a type section
        that is present. */
    static method ListSection(config: Config, t: ItemType, gestureMap: map<string, seq<string>>,
                              argumentMap: map<string, string>) returns (listed: seq<Item>)
      requires WellFormed(config) && SectionOf(t) in config
      requires gestureMap == GestureTableOf(config) && argumentMap == ArgumentTable(config)
      ensures listed == SectionItems(config, t)
    {
      var entries := config[SectionOf(t)];
      ghost var expected := SectionItems(config, t);
      listed := [];
      for j := 0 to |entries|
        invariant listed == expected[..j]
      {
        var (name, path) := entries[j];
        TablesGet(config, name);
        assert expected[..j + 1] == expected[..j] + [ItemAt(config, t, entries[j])];
        listed := listed + [Item(name, t, path,
                                 if name in argumentMap then argumentMap[name] else "",
                                 if name in gestureMap then gestureMap[name] else [])];
      }
      assert expected[..|entries|] == expected;
    }

    /** `gestureMap` of `getItems`: name -> its gestures in file order. */
    static method GestureMapOf(config: Config) returns (gestureMap: map<string, seq<string>>)
      ensures gestureMap == GestureTableOf(config)
    {
      gestureMap := map[];
      if "Gestures" in config {
        var gestures := config["Gestures"];
        for i := 0 to |gestures|
          invariant gestureMap == GestureLists(gestures[..i])
        {
          var (gesture, name) := gestures[i];
          assert gestures[..i + 1][..i] == gestures[..i];
          gestureMap := gestureMap[name := (if name in gestureMap then gestureMap[name] else []) + [gesture]];
        }
        assert gestures[..|gestures|] == gestures;
      }
    }

    /** `argumentMap` of `getItems`: name -> argument text. */
    static method ArgumentMapOf(config: Config) returns (argumentMap: map<string, string>)
      ensures argumentMap == ArgumentTable(config)
    {
      argumentMap := map[];
      if "Arguments" in config {
        var arguments := config["Arguments"];
        for i := 0 to |arguments|
          invariant argumentMap == LastValues(arguments[..i])
        {
          var (name, argumentText) := arguments[i];
          assert arguments[..i + 1][..i] == arguments[..i];
          argumentMap := argumentMap[name := argumentText];
        }
        assert arguments[..|arguments|] == arguments;
      }
    }

    /** `getAllNames`: the option names of the four type sections. */
    method GetAllNames() returns (allNames: set<string>)
      requires Valid()
      modifies this
      ensures Valid()
      ensures disk == DiskAfterLoad(old(disk))
      ensures allNames == AllNames(LoadedConfig(old(disk)))
    {
      var config := LoadOrCreateConfig();
      allNames := NamesIn(config);
    }

    /** The body of `getAllNames` once the file is loaded. */
    static method NamesIn(config: Config) returns (allNames: set<string>)
      ensures allNames == AllNames(config)
    {
      allNames := {};
      for i := 0 to |TypeOrder|
        invariant allNames == NamesUpTo(config, i)
      {
        var t := TypeOrder[i];
        if SectionOf(t) !in config {
          continue;
        }
        var entries := config[SectionOf(t)];
        for j := 0 to |entries|
          invariant allNames == NamesUpTo(config, i) + Names(entries[..j])
        {
          assert entries[..j + 1] == entries[..j] + [entries[j]];
          NamesAppend(entries[..j], entries[j]);
          allNames := allNames + {entries[j].0};
        }
        assert entries[..|entries|] == entries;
      }
      NamesUpToAll(config);
    }

    /** `getGestureToNameMap`: lower-cased gesture -> the name bound to it. */
    method GetGestureToNameMap() returns (gestureMap: map<string, string>)
      requires Valid()
      modifies this
      ensures Valid()
      ensures disk == DiskAfterLoad(old(disk))
      ensures gestureMap == GestureToName(LoadedConfig(old(disk)))
    {
      var config := LoadOrCreateConfig();
      gestureMap := GestureNamesIn(config);
    }

    /** The body of `getGestureToNameMap` once the file is loaded. */
    static method GestureNamesIn(config: Config) returns (gestureMap: map<string, string>)
      ensures gestureMap == GestureToName(config)
    {
      gestureMap := map[];
      if "Gestures" in config {
        var gestures := config["Gestures"];
        for i := 0 to |gestures|
          invariant gestureMap == LoweredNames(gestures[..i])
        {
          var (gesture, name) := gestures[i];
          assert gestures[..i + 1][..i] == gestures[..i];
          gestureMap := gestureMap[Lower(gesture) := name];
        }
        assert gestures[..|gestures|] == gestures;
      }
    }

    /** `addItem`. */
    method AddItem(name: string, itemType: ItemType, path: string, gesture: string, arguments: string)
      requires Valid()
      modifies this
      ensures Valid()
      ensures disk == Stored(AddedItem(LoadedConfig(old(disk)), name, itemType, path, gesture, arguments))
    {
      var config := LoadOrCreateConfig();
      ghost var loaded := config;
      if SectionOf(itemType) !in config {
        config := config[SectionOf(itemType) := []];
      }
      config := SetOption(config, SectionOf(itemType), name, path);
      config := RemoveGesturesForName(config, name);
      if "Arguments" in config {
        config := RemoveOption(config, "Arguments", name);
      }
      if itemType == Programs && Strip(arguments) != "" {
        config := SetOption(config, "Arguments", name, Strip(arguments));
      }
      if gesture != "" {
        config := SetOption(config, "Gestures", gesture, name);
      }
      AddedItemGestures(loaded, name, itemType, path, gesture, arguments);
      SaveConfig(config);
    }

    /** The first loop of `updateItem`: `oldName` removed from each type
        section that has it. */
    static method RemoveFromTypeSectionsHaving(config: Config, oldName: string) returns (r: Config)
      ensures r == RemoveFromSections(config, TypeSections, oldName)
    {
      r := config;
      for i := 0 to |TypeSections|
        invariant r == RemoveFromSections(config, TypeSections[..i], oldName)
      {
        var section := TypeSections[i];
        assert TypeSections[..i + 1] == TypeSections[..i] + [section];
        RemoveFromSectionsAppend(config, TypeSections[..i], section, oldName);
        r := RemoveIfHaving(r, section, oldName);
      }
      assert TypeSections[..|TypeSections|] == TypeSections;
    }

    /** The body of that loop: the option is removed only from a section
        that exists and holds it, which is the same as removing it from any
        section that exists. */
    static method RemoveIfHaving(config: Config, section: string, key: string) returns (r: Config)
      ensures r == if section in config then RemoveOption(config, section, key) else config
    {
      r := config;
      if section in config && HasKey(config[section], key) {
        r := RemoveOption(config, section, key);
      } else if section in config {
        RemoveOptionMissing(config, section, key);
      }
    }

    /** `updateItem`. */
    method UpdateItem(oldName: string, name: string, itemType: ItemType, path: string,
                      gesture: string, arguments: string)
      requires Valid()
      modifies this
      ensures Valid()
      ensures disk == Stored(UpdatedItem(LoadedConfig(old(disk)), oldName, name, itemType, path,
                                         gesture, arguments))
    {
      var config := LoadOrCreateConfig();
      ghost var loaded := config;
      config := RemoveFromTypeSectionsHaving(config, oldName);
      if SectionOf(itemType) !in config {
        config := config[SectionOf(itemType) := []];
      }
      config := SetOption(config, SectionOf(itemType), name, path);
      if "Arguments" in config {
        config := RemoveOption(config, "Arguments", oldName);
        config := RemoveOption(config, "Arguments", name);
      }
      if itemType == Programs && Strip(arguments) != "" {
        config := SetOption(config, "Arguments", name, Strip(arguments));
      }
      config := RemoveGesturesForName(config, oldName);
      config := RemoveGesturesForName(config, name);
      if gesture != "" {
        config := SetOption(config, "Gestures", gesture, name);
      }
      UpdatedItemGestures(loaded, oldName, name, itemType, path, gesture, arguments);
      SaveConfig(config);
    }

    /** The first loop of `deleteItem`: `name` removed from each type section
        present. */
    static method RemoveFromTypeSections(config: Config, name: string) returns (r: Config)
      ensures r == RemoveFromSections(config, TypeSections, name)
    {
      r := config;
      for i := 0 to |TypeSections|
        invariant r == RemoveFromSections(config, TypeSections[..i], name)
      {
        var section := TypeSections[i];
        assert TypeSections[..i + 1] == TypeSections[..i] + [section];
        RemoveFromSectionsAppend(config, TypeSections[..i], section, name);
        r := RemoveIfSection(r, section, name);
      }
      assert TypeSections[..|TypeSections|] == TypeSections;
    }

    /** The body of that loop. */
    static method RemoveIfSection(config: Config, section: string, key: string) returns (r: Config)
      ensures r == if section in config then RemoveOption(config, section, key) else config
    {
      r := config;
      if section in config {
        r := RemoveOption(config, section, key);
      }
    }

    /** `deleteItem`. */
    method DeleteItem(name: string)
      requires Valid()
      modifies this
      ensures Valid()
      ensures disk == Stored(DeletedItem(LoadedConfig(old(disk)), name))
    {
      var config := LoadOrCreateConfig();
      ghost var loaded := config;
      config := RemoveFromTypeSections(config, name);
      if "Arguments" in config {
        config := RemoveOption(config, "Arguments", name);
      }
      config := RemoveGesturesForName(config, name);
      DeletedItemWellFormed(loaded, name);
      SaveConfig(config);
    }

    /** `getVerbosityLevel`. */
    method GetVerbosityLevel() returns (value: string)
      requires Valid()
      modifies this
      ensures Valid()
      ensures disk == DiskAfterLoad(old(disk))
      ensures value == VerbosityLevel(LoadedConfig(old(disk)))
    {
      var config := LoadOrCreateConfig();
      if "Settings" !in config {
        config := config["Settings" := []];
      }
      var raw := match Get(config, "Settings", "verbosity")
                 case Some(v) => v
                 case None => "beginner";
      value := Lower(Strip(raw));
      if !IsVerbosity(value) {
        value := "beginner";
      }
    }

    /** `setVerbosityLevel`. */
    method SetVerbosityLevel(value: string)
      requires Valid()
      modifies this
      ensures Valid()
      ensures disk == Stored(WithVerbosity(LoadedConfig(old(disk)), value))
    {
      var config := LoadOrCreateConfig();
      if "Settings" !in config {
        config := config["Settings" := []];
      }
      var level := Lower(Strip(value));
      if !IsVerbosity(level) {
        level := "beginner";
      }
      config := SetOption(config, "Settings", "verbosity", level);
      SaveConfig(config);
    }
  }
}
