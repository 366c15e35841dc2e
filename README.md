# instantAccess: a verified model of the instant layer and its store

instantAccess is an NVDA global plugin. It stores named launch items (a website,
a program with optional arguments, a folder or a file), each with at most one
keyboard shortcut, in an INI file. Pressing the toggle gesture (NVDA+E by
default) switches on a one-shot *instant layer*. In that layer every stored
shortcut, in both the desktop and the laptop keyboard layout, runs its item;
the toggle gesture switches the layer off, and Escape leaves it. Whatever
gesture comes next is handled, and then the layer is switched off again.

The Dafny project models the core of `addon/globalPlugins/instantAccess.py`:

- `gestures.dfy` (module `Gestures`): the four pure gesture helpers. These are
  the display form, the canonical stored form (`"kb:" + key`, trimmed and
  lower-cased), the two keyboard-layout variants of a stored gesture, and the
  normalisation of a dispatched identifier back to the stored form.
- `ascii.dfy` (module `Ascii`): the Python string operations these helpers use
  (`strip`, `lower`, `startswith`, `find`), over ASCII.
- `ini.dfy` (module `Ini`): the parsed configuration as the code uses it. Each
  section is an ordered list of `(option, value)` pairs with case-sensitive,
  unique option names. Setting an option keeps its place or appends it, and
  removing an option deletes it.
- `store.dfy` (module `Store`): a function for every `ConfigManager` operation
  on the parsed configuration: load, add, update, delete, list, names, the
  gesture-to-name map and verbosity. Lemmas state what each one does to every
  option and to the listed items.
- `manager.dfy` (module `Manager`): the `ConfigManager` class. The file is a
  field: missing, a file that cannot be opened or that configparser rejects,
  or stored with its parsed contents. Every method
  edits a local copy of the configuration step by step, with the source's
  loops, and is proved to write exactly the value the matching `Store`
  function describes.
- `plugin.dfy` (module `InstantMode`): the `GlobalPlugin` class. Its state is
  the mode flag, `gestureToItem`, `loadedCommandCount`, the host's binding
  table, a log of spoken messages and tones, and the list of items handed to
  the executor. A specification of the gesture table comes with lemmas about
  which keys it holds and which item wins a key.

The host's gesture dispatch is the function `ScriptFor`: the binding of the
first bound identifier of the gesture. The plugin's toggle gestures, read from
the host in the source, are a parameter `toggles` of every operation that
needs them. The configuration file is the `disk` field of `ConfigManager`.

Where the code and its description differ, the model follows the code:

- The layer refuses to switch on when no *loaded command* exists, that is
  when no stored item has a non-blank shortcut. Items without a shortcut do
  not count.
- "No commands configured." is spoken at every verbosity, not only for
  beginners.
- An unbound key inside the layer always gives the tone. Beginners hear the
  message "This gesture has no command assigned." before it.

## Model

| member | source | states |
|---|---|---|
| Gestures.FormatGestureForDisplay | addon/globalPlugins/instantAccess.py:93-99 | the display form is never longer than the stored gesture |
| Gestures.DisplayOfNormalized | addon/globalPlugins/instantAccess.py:93-111 | a normalized gesture is displayed as its key without `kb:`, and a non-empty one never displays as empty |
| Gestures.NormalizeGesture | addon/globalPlugins/instantAccess.py:102-111 | the result is empty or canonical: `kb:` followed by a non-empty, trimmed, lower-case key |
| Gestures.NormalizeFixesCanonical | addon/globalPlugins/instantAccess.py:102-111 | a canonical gesture is left unchanged by normalization |
| Gestures.NormalizeIdempotent | addon/globalPlugins/instantAccess.py:102-111 | normalizing twice gives the same result as normalizing once |
| Gestures.CanonicalFacts | addon/globalPlugins/instantAccess.py:102-111 | a canonical gesture is trimmed and lower-case, starts with `kb:` and is `kb:` followed by its key |
| Gestures.HasKbPrefixIsStartsWith | addon/globalPlugins/instantAccess.py:186 | a step of the proofs about the cited lines, not a promise of the source: the prefix test used for layouts holds exactly when the lower-cased gesture starts with `kb:` |
| Gestures.ExpandGestureLayouts | addon/globalPlugins/instantAccess.py:182-188 | no variants exactly for a blank gesture; otherwise the trimmed gesture comes first, with at most one more |
| Gestures.ExpandOtherGesture | addon/globalPlugins/instantAccess.py:182-188 | a blank gesture has no variants, and a non-keyboard gesture only its trimmed self |
| Gestures.ExpandKeyboardGesture | addon/globalPlugins/instantAccess.py:182-199 | a trimmed lower-case `kb:` gesture expands to itself and its `kb(laptop):` form; both are lower-case and normalize back to the gesture |
| Gestures.CanonicalVariantsLeadBack | addon/globalPlugins/instantAccess.py:182-199 | a canonical stored gesture has exactly two layout variants, each lower-case and each normalizing back to it |
| Gestures.NormalizeGestureIdentifier | addon/globalPlugins/instantAccess.py:191-199 | a normalized identifier is lower-case |
| Gestures.IdentifierOfTrimmedLower | addon/globalPlugins/instantAccess.py:191-199 | on a trimmed lower-case identifier, a `kb(<layout>):` qualifier is replaced by `kb:` and anything else is kept |
| Gestures.LaptopQualifierEnds | addon/globalPlugins/instantAccess.py:194-197 | in a `kb(laptop):` identifier the qualifier's closing `):` is found at index 9 |
| Gestures.LaptopVariantNormalizes | addon/globalPlugins/instantAccess.py:182-199 | the laptop variant of a trimmed lower-case `kb:` gesture is lower-case and normalizes back to the `kb:` form |
| Gestures.NormalizeIdentifierIdempotent | addon/globalPlugins/instantAccess.py:191-199 | normalizing an identifier twice gives the same result as once |
| Ini.SetOption | addon/globalPlugins/instantAccess.py:347 | `config.set` keeps the set of sections, and unique option names stay unique |
| Ini.GetSetOption | addon/globalPlugins/instantAccess.py:347 | after `config.set` the option reads the new value and every other option is unchanged |
| Ini.RemoveOption | addon/globalPlugins/instantAccess.py:341 | `remove_option` keeps the set of sections, and unique option names stay unique |
| Ini.GetRemoveOption | addon/globalPlugins/instantAccess.py:341 | after `remove_option` the option is absent and every other option is unchanged |
| Ini.RemoveOptionMissing | addon/globalPlugins/instantAccess.py:359-361 | removing an option a section does not hold changes nothing, so the `has_option` guard changes nothing |
| Ini.KeysMappedToSound | addon/globalPlugins/instantAccess.py:336-339 | a gesture is collected for removal exactly when it is bound to the name |
| Ini.DropKeysMappedTo | addon/globalPlugins/instantAccess.py:333-341 | removing the collected gestures one by one leaves exactly the bindings to other names, in order |
| Ini.DropValueRemovesAll | addon/globalPlugins/instantAccess.py:333-341 | afterwards no gesture is bound to the name |
| Ini.DropValueLookup | addon/globalPlugins/instantAccess.py:333-341 | afterwards a gesture bound to the name is unbound and every other gesture keeps its binding |
| Ini.KeysMappedToDropValue | addon/globalPlugins/instantAccess.py:333-341 | removing one name's gestures leaves every other name's gestures, in order |
| Store.EmptyConfig | addon/globalPlugins/instantAccess.py:66-68 | the freshly created configuration has all seven sections, each empty |
| Store.AddMissingSectionsFacts | addon/globalPlugins/instantAccess.py:280-282 | adding missing sections adds each listed section as an empty one and keeps every existing section unchanged |
| Store.LoadedConfig | addon/globalPlugins/instantAccess.py:278-283 | the loaded configuration has all seven sections |
| Store.LoadedConfigFacts | addon/globalPlugins/instantAccess.py:73-84 | a missing file, or one that cannot be opened or that configparser rejects, loads as the empty configuration; a stored one keeps every section it had |
| Store.AddMissingSectionsNone | addon/globalPlugins/instantAccess.py:278-283 | adding sections that are all present changes nothing |
| Store.WithoutGesturesFor | addon/globalPlugins/instantAccess.py:333-341 | removing a name's gestures keeps the set of sections |
| Store.WithoutGesturesForGet | addon/globalPlugins/instantAccess.py:333-341 | exactly the gestures bound to the name are unbound; every other option is unchanged |
| Store.WithoutGesturesForKeeps | addon/globalPlugins/instantAccess.py:333-341 | the `Gestures` section becomes its bindings to other names, in order |
| Store.WithArguments | addon/globalPlugins/instantAccess.py:349-352 | rewriting a name's arguments keeps the sections and the gesture bindings |
| Store.GetWithArguments | addon/globalPlugins/instantAccess.py:349-352 | the name's arguments become the trimmed text for a program with non-blank arguments and are absent otherwise; nothing else changes |
| Store.WithGesture | addon/globalPlugins/instantAccess.py:353-354 | binding the shortcut keeps the sections, and the `Gestures` section gains the binding only when a shortcut is given |
| Store.GetWithGesture | addon/globalPlugins/instantAccess.py:353-354 | a given shortcut is bound to the name and nothing else changes |
| Store.AddedItemGet | addon/globalPlugins/instantAccess.py:343-355 | after `addItem`, every option: the path under the type section, the arguments, the shortcut bound to the name, the name's old shortcuts unbound, everything else unchanged |
| Store.AddedItemGestures | addon/globalPlugins/instantAccess.py:343-355 | after `addItem` the `Gestures` section is the old bindings to other names plus the new shortcut |
| Store.AddedItemFacts | addon/globalPlugins/instantAccess.py:343-355 | after `addItem` the item's path and arguments are stored, its shortcut is bound to it, and no other gesture is bound to it |
| Store.AddedItemListed | addon/globalPlugins/instantAccess.py:291-313 | when no other type section holds the name, the added item is listed with its path, arguments and shortcut, and it is the only listed item of that name |
| Store.AddedItemOtherSections | addon/globalPlugins/instantAccess.py:343-355 | when no other type section held the name, no other type section holds it after `addItem` |
| Store.AddedItemKeepsOthers | addon/globalPlugins/instantAccess.py:343-355 | when the shortcut was free or already the item's own, adding an item lists every other item exactly as before |
| Store.RemoveFromSections | addon/globalPlugins/instantAccess.py:378-380 | removing a name from the type sections keeps the set of sections and unique option names |
| Store.RemoveFromSectionsGet | addon/globalPlugins/instantAccess.py:378-380 | the name is absent from every listed section and nothing else changes |
| Store.RemoveFromSectionsAppend | addon/globalPlugins/instantAccess.py:359-361 | a step of the proofs about the cited lines, not a promise of the source: handling one more type section removes the name from it when it exists and from nothing else |
| Store.RemoveFromSectionsKeeps | addon/globalPlugins/instantAccess.py:378-380 | sections not listed are unchanged |
| Store.TypeSectionsAreTypeSections | addon/globalPlugins/instantAccess.py:35 | a step of the proofs about the cited lines, not a promise of the source: the type sections are exactly Websites, Programs, Folders and Files |
| Store.UpdatedItemGet | addon/globalPlugins/instantAccess.py:357-374 | after `updateItem`, every option: the old name leaves every type section and `Arguments`, the new entry and arguments are stored, the shortcuts of both names are unbound except the new shortcut, and everything else is unchanged |
| Store.UpdatedItemGestures | addon/globalPlugins/instantAccess.py:370-373 | after `updateItem` the `Gestures` section is the bindings to names other than the old and the new, plus the new shortcut |
| Store.UpdatedItemPlaced | addon/globalPlugins/instantAccess.py:357-374 | after `updateItem` the path and arguments are stored under the new name, and a renamed item's old arguments are gone |
| Store.UpdatedItemBound | addon/globalPlugins/instantAccess.py:370-373 | after `updateItem` the new shortcut is the only gesture bound to the new name, and nothing stays bound to a replaced old name |
| Store.UpdatedItemListed | addon/globalPlugins/instantAccess.py:357-374 | the updated item is listed with its new type, path, arguments and shortcut |
| Store.UpdatedItemUnique | addon/globalPlugins/instantAccess.py:357-374 | when the new name was free or unchanged, every listed item of that name has the new type |
| Store.UpdatedItemOnly | addon/globalPlugins/instantAccess.py:357-374 | when the new name was free or unchanged, the updated item is the only listed item of that name |
| Store.UpdatedItemRenamed | addon/globalPlugins/instantAccess.py:357-374 | after a rename no listed item carries the old name |
| Store.UpdatedItemWellFormed | addon/globalPlugins/instantAccess.py:357-374 | `updateItem` keeps option names unique in every section |
| Store.UpdatedItemKeepsOthers | addon/globalPlugins/instantAccess.py:357-374 | when the shortcut was free or belonged to the old or the new name, every other item is listed exactly as before |
| Store.DeletedItemGet | addon/globalPlugins/instantAccess.py:376-384 | after `deleteItem` the name is in no type section and has no arguments, its gestures are unbound, and nothing else changes |
| Store.DeletedItemWellFormed | addon/globalPlugins/instantAccess.py:376-384 | `deleteItem` keeps option names unique |
| Store.DeletedItemGestures | addon/globalPlugins/instantAccess.py:376-384 | after `deleteItem` the `Gestures` section is its bindings to other names, in order |
| Store.DeletedItemListed | addon/globalPlugins/instantAccess.py:376-384 | the items listed after `deleteItem` are exactly the previous ones with a different name |
| Store.ClampVerbosity | addon/globalPlugins/instantAccess.py:391-392 | the result is a known verbosity level; it equals the input exactly when the input already is one, and is `beginner` otherwise |
| Store.VerbosityLevel | addon/globalPlugins/instantAccess.py:386-393 | the level read is `beginner` or `advanced`: `beginner` when none is stored; otherwise the stored value trimmed and lower-cased when that is a known level, and `beginner` when it is not |
| Store.VerbosityIsCanonical | addon/globalPlugins/instantAccess.py:399-401 | a known level is unchanged by trimming and lower-casing |
| Store.VerbosityRoundTrip | addon/globalPlugins/instantAccess.py:386-403 | the level read after storing a value is the clamped, trimmed and lower-cased value (the value itself when it is a known level), and every other option is unchanged |
| Store.GetSection | addon/globalPlugins/instantAccess.py:305 | a step of the proofs about the cited lines, not a promise of the source: reading an option of a type section agrees with the section's entries |
| Store.SectionOfInjective | addon/globalPlugins/instantAccess.py:35 | a step of the proofs about the cited lines, not a promise of the source: different item types use different sections |
| Store.SectionItemsMembers | addon/globalPlugins/instantAccess.py:302-312 | the items built from one type section are exactly the stored items of that type |
| Store.ItemsUpToMembers | addon/globalPlugins/instantAccess.py:302-313 | the items of the first n type sections are exactly the stored items of those types |
| Store.ItemsOfMembers | addon/globalPlugins/instantAccess.py:291-313 | an item is listed exactly when its path is stored under its type and its arguments and gestures are the stored ones |
| Store.ListedIsStored | addon/globalPlugins/instantAccess.py:305-312 | a listed item's path is the one stored under its name in its type section |
| Store.AllNamesOfItems | addon/globalPlugins/instantAccess.py:315-323 | a name is in `getAllNames` exactly when some listed item has it |
| Store.AllNamesSection | addon/globalPlugins/instantAccess.py:318-322 | a name of `getAllNames` comes from one of the four type sections |
| Store.LoweredNamesKeys | addon/globalPlugins/instantAccess.py:325-331 | the keys of the gesture-to-name map are exactly the lower-cased bound gestures |
| Store.LoweredNamesValue | addon/globalPlugins/instantAccess.py:325-331 | a bound gesture that no other bound gesture equals once lower-cased maps to its name |
| Store.GesturesOfSingle | addon/globalPlugins/instantAccess.py:295-297 | when exactly the given shortcut is bound to a name, the name's gesture list is that shortcut alone |
| Store.GestureListsGet | addon/globalPlugins/instantAccess.py:295-297 | the accumulated map gives each name its bound gestures, in file order |
| Store.LastValuesGet | addon/globalPlugins/instantAccess.py:298-300 | the argument map holds exactly the stored names, each with its stored arguments |
| Store.UniqueKeysLast | addon/globalPlugins/instantAccess.py:298-300 | with unique option names, the last option's name does not occur earlier |
| Store.TablesGet | addon/globalPlugins/instantAccess.py:293-311 | the lookups `argumentMap.get(name, "")` and `gestureMap.get(name, [])` agree with the stored arguments and gestures |
| Store.NamesUpToAll | addon/globalPlugins/instantAccess.py:315-323 | the names collected over all four type sections are all stored item names |
| Manager.EnsuredFile | addon/globalPlugins/instantAccess.py:62-70 | after `ensureConfigFile` the file exists, and an existing file is left alone |
| Manager.ConfigManager.constructor | addon/globalPlugins/instantAccess.py:274-276 | the file exists afterwards, and an existing one is unchanged |
| Manager.ConfigManager.LoadConfigSafe | addon/globalPlugins/instantAccess.py:73-84 | returns the stored configuration, or the empty one for a missing file or one that cannot be opened or that configparser rejects, and then the file holds what was returned |
| Manager.ConfigManager.LoadOrCreateConfig | addon/globalPlugins/instantAccess.py:278-283 | returns the loaded configuration with all seven sections and unique option names |
| Manager.ConfigManager.SaveConfig | addon/globalPlugins/instantAccess.py:285-286 | the file holds the configuration written |
| Manager.ConfigManager.RemoveGesturesForName | addon/globalPlugins/instantAccess.py:333-341 | the two loops unbind exactly the gestures bound to the name |
| Manager.ConfigManager.GesturesBoundTo | addon/globalPlugins/instantAccess.py:336-339 | the first loop collects exactly the gestures bound to the name, in file order |
| Manager.ConfigManager.RemoveGestures | addon/globalPlugins/instantAccess.py:340-341 | the second loop removes exactly the collected gestures from the `Gestures` section and leaves every other section alone |
| Manager.ConfigManager.GetItems | addon/globalPlugins/instantAccess.py:291-313 | returns exactly the listing of the loaded configuration |
| Manager.ConfigManager.ListItems | addon/globalPlugins/instantAccess.py:292-313 | the nested loops produce every stored item, type section by type section, in file order |
| Manager.ConfigManager.ListSection | addon/globalPlugins/instantAccess.py:305-312 | the inner loop lists one item per option of a present type section, with the name's stored arguments and gestures, in file order |
| Manager.ConfigManager.GestureMapOf | addon/globalPlugins/instantAccess.py:295-297 | the loop collects each name's bound gestures in file order |
| Manager.ConfigManager.ArgumentMapOf | addon/globalPlugins/instantAccess.py:298-300 | the loop maps each name to its stored arguments |
| Manager.ConfigManager.GetAllNames | addon/globalPlugins/instantAccess.py:315-323 | returns exactly the names in the four type sections of the loaded configuration |
| Manager.ConfigManager.NamesIn | addon/globalPlugins/instantAccess.py:317-323 | the loop collects every name of the four type sections |
| Manager.ConfigManager.GetGestureToNameMap | addon/globalPlugins/instantAccess.py:325-331 | returns the lower-cased gesture-to-name map of the loaded configuration |
| Manager.ConfigManager.GestureNamesIn | addon/globalPlugins/instantAccess.py:327-331 | the loop maps each lower-cased gesture to its name, a later duplicate overwriting an earlier one |
| Manager.ConfigManager.AddItem | addon/globalPlugins/instantAccess.py:343-355 | the file holds exactly the loaded configuration with the item added, as `AddedItem` describes |
| Manager.ConfigManager.RemoveFromTypeSectionsHaving | addon/globalPlugins/instantAccess.py:359-361 | the guarded loop removes the old name from every type section |
| Manager.ConfigManager.RemoveIfHaving | addon/globalPlugins/instantAccess.py:360-361 | removing the old name only where the section holds it has the same effect as removing it from every present section |
| Manager.ConfigManager.UpdateItem | addon/globalPlugins/instantAccess.py:357-374 | the file holds exactly the loaded configuration with the item updated, as `UpdatedItem` describes |
| Manager.ConfigManager.RemoveFromTypeSections | addon/globalPlugins/instantAccess.py:378-380 | the loop removes the name from every type section |
| Manager.ConfigManager.RemoveIfSection | addon/globalPlugins/instantAccess.py:379-380 | the name is removed from the section when the section exists, and nothing changes otherwise |
| Manager.ConfigManager.DeleteItem | addon/globalPlugins/instantAccess.py:376-384 | the file holds exactly the loaded configuration with the item deleted |
| Manager.ConfigManager.GetVerbosityLevel | addon/globalPlugins/instantAccess.py:386-393 | returns the stored level trimmed, lower-cased and clamped to a known one |
| Manager.ConfigManager.SetVerbosityLevel | addon/globalPlugins/instantAccess.py:395-403 | the file holds the loaded configuration with the clamped level stored |
| InstantMode.WithKeysGet | addon/globalPlugins/instantAccess.py:914-915 | the innermost loop maps each lower-cased variant to the item and keeps every other key |
| InstantMode.WithItemGesturesGet | addon/globalPlugins/instantAccess.py:913-915 | one item's loops map every key the item answers to to the item and keep every other key |
| InstantMode.GestureKeySetHas | addon/globalPlugins/instantAccess.py:913-915 | each variant listed for a gesture, lower-cased, is a key of the list |
| InstantMode.GestureKeySetSource | addon/globalPlugins/instantAccess.py:913-915 | every key of a list of variant lists is a lower-cased variant listed for one of its gestures |
| InstantMode.GestureKeySetPrefix | addon/globalPlugins/instantAccess.py:913-915 | a key reachable through the first gestures of an item stays reachable once the later gestures are added |
| InstantMode.LayoutListsGet | addon/globalPlugins/instantAccess.py:913-914 | the variants listed for each gesture are exactly its layout variants |
| InstantMode.LayoutListsAppend | addon/globalPlugins/instantAccess.py:913-914 | a step of the proofs about the cited lines, not a promise of the source: one more gesture appends exactly its layout variants |
| InstantMode.LayoutListsStep | addon/globalPlugins/instantAccess.py:913-914 | the variants of the first j+1 gestures are those of the first j plus those of gesture j |
| InstantMode.KeysOfHas | addon/globalPlugins/instantAccess.py:913-915 | each lower-cased layout variant of each gesture of an item is a key the item answers to |
| InstantMode.KeysOfSource | addon/globalPlugins/instantAccess.py:913-915 | every key an item answers to is a lower-cased layout variant of one of its gestures |
| InstantMode.WithItemGesturesAppend | addon/globalPlugins/instantAccess.py:913-915 | a step of the proofs about the cited lines, not a promise of the source: one more gesture of the middle loop adds exactly its variants through the innermost loop |
| InstantMode.KeysOfEmpty | addon/globalPlugins/instantAccess.py:913-915 | an item answers to no key exactly when all its gestures are blank |
| InstantMode.GestureTableHas | addon/globalPlugins/instantAccess.py:909-915 | every key a listed item answers to is in `gestureToItem` |
| InstantMode.GestureTableSource | addon/globalPlugins/instantAccess.py:909-915 | every key of `gestureToItem` maps to the last listed item that answers to it |
| InstantMode.GestureTableValue | addon/globalPlugins/instantAccess.py:909-915 | the last listed item that answers to a key is the one the key maps to |
| InstantMode.LastToAnswerExtend | addon/globalPlugins/instantAccess.py:912-915 | a step of the proofs about the cited lines, not a promise of the source: an item stays the last to answer a key when an item that does not answer it is appended |
| InstantMode.GestureTableEmpty | addon/globalPlugins/instantAccess.py:909-916 | `gestureToItem` is empty exactly when every stored gesture is blank |
| InstantMode.CommandCountZero | addon/globalPlugins/instantAccess.py:916 | `loadedCommandCount` is zero exactly when `gestureToItem` is empty |
| InstantMode.CanonicalGestureReachable | addon/globalPlugins/instantAccess.py:909-915 | both layout variants of a canonical stored gesture are keys, each normalizes back to the gesture, and the gesture leads to its item unless a later item claims it |
| InstantMode.LoweredKeysAppend | addon/globalPlugins/instantAccess.py:914-915 | a step of the proofs about the cited lines, not a promise of the source: one more variant adds exactly its lower-cased form to the keys |
| InstantMode.LoweredKeysHas | addon/globalPlugins/instantAccess.py:914-915 | each variant, lower-cased, is a key |
| InstantMode.LoweredKeysSource | addon/globalPlugins/instantAccess.py:914-915 | every key is the lower-cased form of some variant |
| InstantMode.GestureKeySetAppend | addon/globalPlugins/instantAccess.py:913-915 | a step of the proofs about the cited lines, not a promise of the source: one more gesture adds exactly its lower-cased variants to the keys |
| InstantMode.ItemFor | addon/globalPlugins/instantAccess.py:993-998 | no item is found exactly when no identifier normalizes to a key; a found item is one of the table's items |
| InstantMode.ItemForFirst | addon/globalPlugins/instantAccess.py:993-998 | the item found is the one of the first identifier whose normalized form is a key |
| InstantMode.ScriptFor | addon/globalPlugins/instantAccess.py:892-893 | no script exactly when no identifier is bound; a found script is one of the bound ones |
| InstantMode.ScriptForFirst | addon/globalPlugins/instantAccess.py:892-893 | the script found is the binding of the first bound identifier |
| InstantMode.GlobalPlugin.constructor | addon/globalPlugins/instantAccess.py:828-839 | starts outside the layer with an empty table, only the class's toggle gesture bound, and the stored verbosity |
| InstantMode.GlobalPlugin.SetVerbosityLevel | addon/globalPlugins/instantAccess.py:864-867 | the level becomes the value when it is a known level and `beginner` otherwise; nothing else changes |
| InstantMode.GlobalPlugin.ClearGestureBindings | addon/globalPlugins/instantAccess.py:929 | the binding table becomes empty |
| InstantMode.GlobalPlugin.BindGestures | addon/globalPlugins/instantAccess.py:930 | the given bindings are added, replacing earlier bindings of the same gestures |
| InstantMode.GlobalPlugin.Rebind | addon/globalPlugins/instantAccess.py:929-930 | clearing the bindings and then binding a map leaves exactly that map bound, and nothing else of the plugin changes |
| InstantMode.GlobalPlugin.BuildInstantGestures | addon/globalPlugins/instantAccess.py:909-923 | `gestureToItem` becomes the table of the stored items and the count its number of distinct names; the result binds Escape to exit, each toggle gesture to toggle, each other key to run, and nothing else |
| InstantMode.GlobalPlugin.TableOf | addon/globalPlugins/instantAccess.py:911-915 | the three nested loops build exactly the gesture table of the items |
| InstantMode.GlobalPlugin.AddItemGestures | addon/globalPlugins/instantAccess.py:913-915 | the loop over one item's gestures adds exactly that item's keys |
| InstantMode.GlobalPlugin.AddKeys | addon/globalPlugins/instantAccess.py:914-915 | the loop over one gesture's variants adds exactly their lower-cased forms |
| InstantMode.GlobalPlugin.LayerGestures | addon/globalPlugins/instantAccess.py:917-923 | Escape overrides a toggle gesture and both override an item key; no other gesture is bound |
| InstantMode.GlobalPlugin.ActivateInstantMode | addon/globalPlugins/instantAccess.py:925-945 | the layer is on exactly when some command is loaded; with none, only the toggle gestures are bound and "No commands configured." is spoken; otherwise the layer's bindings replace all others and the on message matches the verbosity |
| InstantMode.GlobalPlugin.DeactivateInstantMode | addon/globalPlugins/instantAccess.py:947-959 | outside the layer nothing changes; inside, the layer is switched off, only the toggle gestures are bound and the off message matches the verbosity |
| InstantMode.GlobalPlugin.FinishInstantLayer | addon/globalPlugins/instantAccess.py:961-963 | the layer is off afterwards, silently |
| InstantMode.GlobalPlugin.OnConfigChanged | addon/globalPlugins/instantAccess.py:858-862 | outside the layer nothing is rebound and the file is not touched; inside, the file is loaded as on activation, the table is rebuilt from it, and the layer stays on with the layer bindings exactly when commands remain, otherwise only the toggle gestures stay bound; nothing is spoken |
| InstantMode.GlobalPlugin.Terminate | addon/globalPlugins/instantAccess.py:846-856 | the layer is off afterwards, silently; if it was on only the toggle gestures stay bound, otherwise the bindings are untouched; table, count and verbosity are unchanged |
| InstantMode.GlobalPlugin.QueueRunItemExecution | addon/globalPlugins/instantAccess.py:875-878 | the item is handed to the executor |
| InstantMode.GlobalPlugin.FindItem | addon/globalPlugins/instantAccess.py:993-998 | the search loop returns the item of the first identifier found in the table |
| InstantMode.GlobalPlugin.ScriptRunInstantItem | addon/globalPlugins/instantAccess.py:987-1001 | the item found, if any, is handed to the executor; nothing else changes |
| InstantMode.GlobalPlugin.ScriptInvalidKey | addon/globalPlugins/instantAccess.py:965-971 | a 250 Hz, 50 ms tone, preceded by "This gesture has no command assigned." unless the verbosity is advanced |
| InstantMode.GlobalPlugin.ScriptToggleInstantMode | addon/globalPlugins/instantAccess.py:978-982 | inside the layer it switches it off, binds only the toggle gestures and speaks the off message for the verbosity; outside, the file is loaded, the table rebuilt, and the layer comes on with its bindings and the on message exactly when commands exist, otherwise "no commands" is spoken and only the toggles stay bound |
| InstantMode.GlobalPlugin.ScriptExitInstantMode | addon/globalPlugins/instantAccess.py:984-985 | the layer is off afterwards; if it was on, only the toggle gestures stay bound and the off message for the verbosity is spoken; otherwise nothing changes |
| InstantMode.GlobalPlugin.ExecuteGesture | addon/globalPlugins/instantAccess.py:890-896 | outside the layer an unbound gesture changes nothing and a bound one switches the layer on as the toggle does; inside, any gesture leaves the layer off with only the toggle gestures bound and the file untouched, with the invalid-key message and tone for an unbound gesture, the off message for toggle or escape, silence for an item, and the item its identifiers find handed to the executor only for a gesture bound to run |
| InstantMode.GlobalPlugin.RunLayerScript | addon/globalPlugins/instantAccess.py:890-896 | the wrapped script run inside the layer: the bound script, or the invalid-key script when none is bound, then `finishInstantLayer`; afterwards the layer is off with only the toggle gestures bound, with the feedback and executor list of each branch |

## Left out

- The settings panel, the item dialog, the shortcut capture dialog, export and
  import of settings: they are user interface, not part of this model.
- `executeInstantItem`, `runItemTask`, `expandPath`: they start programs and
  open files, so the model records the item handed to the executor instead.
- The executor's threads, `wx.CallAfter` and the order in which queued work
  runs: concurrency is not modelled.
- Speech and tones are logged as values in `feedback`. The difference between
  a queued tone (advanced verbosity) and an immediate one is not modelled.
- Secure mode, in which the plugin does nothing, and the panel callbacks set
  in `__init__`: they are host wiring.
- `validateGestureName`, `getKeyNameFromEvent` and `buildGestureNameFromEvent`:
  they ask the host about key names.
- `getToggleGestures` asks the host for the current toggle gestures; the
  model takes them as the parameter `toggles`.
- The host's normalisation of gesture identifiers when binding: bindings are
  keyed by the exact strings the plugin passes.
- The `identifier` fallback of `script_runInstantItem`: the model takes the
  identifiers list only.
- The INI text format, file paths and directory creation, and configparser's
  `%` interpolation and DEFAULT section: the file is modelled by its parsed
  value.
- The error path of `%` interpolation in `addItem` and `updateItem`
  (`addon/globalPlugins/instantAccess.py:343-374`): configparser's `set`
  raises `ValueError` for a value holding a lone `%`, such as a path written
  with `%APPDATA%` for `expandPath` to expand, and the item is then not
  stored. The model stores every value as given.
- A configuration file that is not valid UTF-8: `open(...).read_file` raises
  `UnicodeDecodeError`, which `loadConfigSafe` does not catch, so the error
  reaches the caller and the file is not reset. The model's `Unreadable` file
  covers only the errors that are caught (`OSError` and `configparser.Error`).
- Unicode: `strip` and `lower` are modelled over ASCII only.
- `buildVars.py` is not part of this model.
- Store.UpdatedItemPlaced: it does not state that the old name leaves every
  type section; that fact is in Store.UpdatedItemGet, kept pointwise because
  the quantified form is too costly to prove.
