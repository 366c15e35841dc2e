/**
  The value a `configparser.ConfigParser` holds once the add-on's INI file has
  been read: a map from section name to that section's options in file order.
  Option names are case-sensitive (the add-on sets `optionxform = str`), and the
  parser never yields two options of one name in a section.
*/
module Ini {
  import opened Wrappers

  /** The options of one section, as (name, value) pairs in file order. */
  type Entries = seq<(string, string)>

  /** Section name -> options. */
  type Config = map<string, Entries>

  /** The value of option `key`, if the section has one. */
  function Lookup(es: Entries, key: string): Option<string> {
    if es == [] then None
    else if es[0].0 == key then Some(es[0].1)
    else Lookup(es[1..], key)
  }

  predicate HasKey(es: Entries, key: string) {
    Lookup(es, key).Some?
  }

  /** No two options of a section share a name. */
  predicate UniqueKeys(es: Entries) {
    es == [] || (!HasKey(es[1..], es[0].0) && UniqueKeys(es[1..]))
  }

  /** Every section has unique option names, as the parser guarantees. */
  predicate WellFormed(c: Config) {
    forall s :: s in c ==> UniqueKeys(c[s])
  }

  /** `section[key] = value`: an existing option keeps its place, a new one is
      appended. */
  function Put(es: Entries, key: string, value: string): Entries {
    if es == [] then [(key, value)]
    else if es[0].0 == key then [(key, value)] + es[1..]
    else [es[0]] + Put(es[1..], key, value)
  }

  /** `del section[key]`, doing nothing when there is no such option. */
  function Drop(es: Entries, key: string): Entries {
    if es == [] then []
    else if es[0].0 == key then Drop(es[1..], key)
    else [es[0]] + Drop(es[1..], key)
  }

  /** The options whose name is not in `keys`, in order. */
  function DropKeys(es: Entries, keys: set<string>): Entries {
    if es == [] then []
    else (if es[0].0 in keys then [] else [es[0]]) + DropKeys(es[1..], keys)
  }

  /** The options whose value is not `value`, in order. */
  function DropValue(es: Entries, value: string): Entries {
    if es == [] then []
    else (if es[0].1 == value then [] else [es[0]]) + DropValue(es[1..], value)
  }

  /** The names of the options whose value is `value`, in order. */
  function KeysMappedTo(es: Entries, value: string): seq<string> {
    if es == [] then []
    else (if es[0].1 == value then [es[0].0] else []) + KeysMappedTo(es[1..], value)
  }

  lemma KeysMappedToOne(e: (string, string), value: string)
    ensures KeysMappedTo([e], value) == if e.1 == value then [e.0] else []
  {
    assert [e][1..] == [];
  }

  /** Setting an option changes that option and no other. */
  lemma {:induction false} PutLookup(es: Entries, key: string, value: string, k: string)
    ensures Lookup(Put(es, key, value), k) == if k == key then Some(value) else Lookup(es, k)
  {
    if es != [] && es[0].0 != key {
      PutLookup(es[1..], key, value, k);
    }
  }

  lemma {:induction false} PutUnique(es: Entries, key: string, value: string)
    requires UniqueKeys(es)
    ensures UniqueKeys(Put(es, key, value))
  {
    if es != [] && es[0].0 != key {
      PutUnique(es[1..], key, value);
      PutLookup(es[1..], key, value, es[0].0);
    }
  }

  lemma PutFacts(es: Entries, key: string, value: string)
    ensures forall k :: Lookup(Put(es, key, value), k) == if k == key then Some(value) else Lookup(es, k)
    ensures UniqueKeys(es) ==> UniqueKeys(Put(es, key, value))
  {
    forall k ensures Lookup(Put(es, key, value), k) == if k == key then Some(value) else Lookup(es, k) {
      PutLookup(es, key, value, k);
    }
    if UniqueKeys(es) {
      PutUnique(es, key, value);
    }
  }

  /** Removing an option removes that option and no other. */
  lemma {:induction false} DropLookup(es: Entries, key: string, k: string)
    ensures Lookup(Drop(es, key), k) == if k == key then None else Lookup(es, k)
  {
    if es != [] {
      DropLookup(es[1..], key, k);
    }
  }

  lemma {:induction false} DropUnique(es: Entries, key: string)
    requires UniqueKeys(es)
    ensures UniqueKeys(Drop(es, key))
  {
    if es != [] {
      DropUnique(es[1..], key);
      DropLookup(es[1..], key, es[0].0);
    }
  }

  lemma DropFacts(es: Entries, key: string)
    ensures forall k :: Lookup(Drop(es, key), k) == if k == key then None else Lookup(es, k)
    ensures UniqueKeys(es) ==> UniqueKeys(Drop(es, key))
  {
    forall k ensures Lookup(Drop(es, key), k) == if k == key then None else Lookup(es, k) {
      DropLookup(es, key, k);
    }
    if UniqueKeys(es) {
      DropUnique(es, key);
    }
  }

  /** With unique names, filtering by value removes exactly the options that
      held that value. */
  lemma {:induction false} DropValueLookup(es: Entries, value: string, k: string)
    requires UniqueKeys(es)
    ensures Lookup(DropValue(es, value), k)
         == if Lookup(es, k) == Some(value) then None else Lookup(es, k)
  {
    if es != [] {
      var e, t := es[0], es[1..];
      DropValueLookup(t, value, k);
      if e.1 != value {
        var r := [e] + DropValue(t, value);
        assert DropValue(es, value) == r;
        assert r[0] == e && r[1..] == DropValue(t, value);
      } else {
        assert DropValue(es, value) == DropValue(t, value);
      }
    }
  }

  lemma {:induction false} DropValueUnique(es: Entries, value: string)
    requires UniqueKeys(es)
    ensures UniqueKeys(DropValue(es, value))
  {
    if es != [] {
      var e, t := es[0], es[1..];
      DropValueUnique(t, value);
      DropValueLookup(t, value, e.0);
      if e.1 != value {
        var r := [e] + DropValue(t, value);
        assert DropValue(es, value) == r;
        assert r[0] == e && r[1..] == DropValue(t, value);
      } else {
        assert DropValue(es, value) == DropValue(t, value);
      }
    }
  }

  /** No option keeps a value that was filtered out. */
  lemma {:induction false} DropValueRemovesAll(es: Entries, value: string)
    ensures KeysMappedTo(DropValue(es, value), value) == []
  {
    if es != [] {
      var e, t := es[0], es[1..];
      DropValueRemovesAll(t, value);
      if e.1 != value {
        var r := [e] + DropValue(t, value);
        assert DropValue(es, value) == r;
        assert r[0] == e && r[1..] == DropValue(t, value);
      } else {
        assert DropValue(es, value) == DropValue(t, value);
      }
    }
  }

  lemma {:induction false} KeysMappedToAppend(a: Entries, b: Entries, value: string)
    ensures KeysMappedTo(a + b, value) == KeysMappedTo(a, value) + KeysMappedTo(b, value)
  {
    if a != [] {
      assert (a + b)[0] == a[0] && (a + b)[1..] == a[1..] + b;
      KeysMappedToAppend(a[1..], b, value);
      var head := if a[0].1 == value then [a[0].0] else [];
      calc {
        KeysMappedTo(a + b, value);
        head + KeysMappedTo(a[1..] + b, value);
        head + (KeysMappedTo(a[1..], value) + KeysMappedTo(b, value));
        (head + KeysMappedTo(a[1..], value)) + KeysMappedTo(b, value);
        KeysMappedTo(a, value) + KeysMappedTo(b, value);
      }
    } else {
      assert a + b == b;
    }
  }

  /** Every name listed by KeysMappedTo is an option holding that value. */
  lemma {:induction false} KeysMappedToSound(es: Entries, value: string, k: string)
    requires UniqueKeys(es)
    ensures k in KeysMappedTo(es, value) <==> Lookup(es, k) == Some(value)
  {
    if es != [] {
      KeysMappedToSound(es[1..], value, k);
    }
  }

  lemma {:induction false} DropKeysNone(es: Entries)
    ensures DropKeys(es, {}) == es
  {
    if es != [] {
      DropKeysNone(es[1..]);
    }
  }

  /** Dropping one more option from what is left after dropping a set of names
      is dropping the enlarged set. */
  lemma {:induction false} DropAfterDropKeys(es: Entries, keys: set<string>, key: string)
    ensures Drop(DropKeys(es, keys), key) == DropKeys(es, keys + {key})
  {
    if es != [] {
      DropAfterDropKeys(es[1..], keys, key);
      var rest := DropKeys(es[1..], keys);
      if es[0].0 in keys {
        assert DropKeys(es, keys) == rest;
      } else {
        assert DropKeys(es, keys) == [es[0]] + rest;
      }
    }
  }

  /** Only the names that occur in the section matter to DropKeys. */
  lemma {:induction false} DropKeysOnlyPresent(es: Entries, keys: set<string>, other: set<string>)
    requires forall k :: HasKey(es, k) ==> (k in keys <==> k in other)
    ensures DropKeys(es, keys) == DropKeys(es, other)
  {
    if es != [] {
      assert HasKey(es, es[0].0);
      forall k | HasKey(es[1..], k) ensures k in keys <==> k in other {
        assert k != es[0].0 ==> HasKey(es, k);
      }
      DropKeysOnlyPresent(es[1..], keys, other);
    }
  }

  /** The elements of a list of names, as a set. */
  function Elements(s: seq<string>): set<string> {
    set x | x in s
  }

  lemma ElementsAppend(s: seq<string>, x: string)
    ensures Elements(s + [x]) == Elements(s) + {x}
  {
    assert forall y :: y in s + [x] <==> y in s || y == x;
  }

  /** With unique names, dropping the names mapped to `value` is dropping the
      options with value `value`. */
  lemma {:induction false} DropKeysMappedTo(es: Entries, value: string)
    requires UniqueKeys(es)
    ensures DropKeys(es, Elements(KeysMappedTo(es, value))) == DropValue(es, value)
  {
    if es != [] {
      var e, t := es[0], es[1..];
      var keys := Elements(KeysMappedTo(es, value));
      var tailKeys := Elements(KeysMappedTo(t, value));
      assert e.0 !in tailKeys by {
        KeysMappedToSound(t, value, e.0);
      }
      assert KeysMappedTo(es, value) == (if e.1 == value then [e.0] else []) + KeysMappedTo(t, value);
      assert keys == (if e.1 == value then {e.0} else {}) + tailKeys;
      DropKeysOnlyPresent(t, keys, tailKeys);
      DropKeysMappedTo(t, value);
    }
  }

  /** With unique names, a pair is an option of the section exactly when
      looking its name up gives its value. */
  lemma {:induction false} LookupIn(es: Entries, k: string, v: string)
    requires UniqueKeys(es)
    ensures (k, v) in es <==> Lookup(es, k) == Some(v)
  {
    if es != [] {
      LookupIn(es[1..], k, v);
      assert (k, v) in es <==> es[0] == (k, v) || (k, v) in es[1..];
    }
  }

  /** Looking a name up in a section with one more option at its end. */
  lemma {:induction false} LookupAppend(es: Entries, e: (string, string), k: string)
    ensures Lookup(es + [e], k)
         == if HasKey(es, k) then Lookup(es, k) else if e.0 == k then Some(e.1) else None
  {
    if es == [] {
      assert es + [e] == [e];
      assert [e][1..] == [];
    } else {
      assert (es + [e])[0] == es[0] && (es + [e])[1..] == es[1..] + [e];
      LookupAppend(es[1..], e, k);
    }
  }

  /** Removing an option the section does not have changes nothing. */
  lemma {:induction false} DropMissing(es: Entries, key: string)
    requires !HasKey(es, key)
    ensures Drop(es, key) == es
  {
    if es != [] {
      DropMissing(es[1..], key);
    }
  }

  /** No option holds `value`: no name is listed for it. */
  lemma {:induction false} KeysMappedToNone(es: Entries, value: string)
    requires forall k :: Lookup(es, k) != Some(value)
    requires UniqueKeys(es)
    ensures KeysMappedTo(es, value) == []
  {
    if KeysMappedTo(es, value) != [] {
      var k := KeysMappedTo(es, value)[0];
      KeysMappedToSound(es, value, k);
    }
  }

  /** Exactly one option holds `value`: its name is the only one listed. */
  lemma {:induction false} KeysMappedToSingle(es: Entries, value: string, key: string)
    requires UniqueKeys(es)
    requires Lookup(es, key) == Some(value)
    requires forall k :: k != key ==> Lookup(es, k) != Some(value)
    ensures KeysMappedTo(es, value) == [key]
  {
    var e, t := es[0], es[1..];
    if e.0 == key {
      forall k ensures Lookup(t, k) != Some(value) {
        if k != key {
          assert Lookup(es, k) == Lookup(t, k);
        }
      }
      KeysMappedToNone(t, value);
    } else {
      assert Lookup(es, e.0) == Some(e.1);
      forall k | k != key ensures Lookup(t, k) != Some(value) {
        if k != e.0 {
          assert Lookup(es, k) == Lookup(t, k);
        }
      }
      KeysMappedToSingle(t, value, key);
    }
  }

  /** Filtering out one value leaves the names listed for any other value. */
  lemma {:induction false} KeysMappedToDropValue(es: Entries, value: string, other: string)
    requires other != value
    ensures KeysMappedTo(DropValue(es, value), other) == KeysMappedTo(es, other)
  {
    if es != [] {
      var e, t := es[0], es[1..];
      KeysMappedToDropValue(t, value, other);
      if e.1 != value {
        var r := [e] + DropValue(t, value);
        assert DropValue(es, value) == r;
        assert r[0] == e && r[1..] == DropValue(t, value);
      } else {
        assert DropValue(es, value) == DropValue(t, value);
      }
    }
  }

  /** Setting an option that did not hold `other` to a value other than
      `other` leaves the names listed for `other`. */
  lemma {:induction false} KeysMappedToPut(es: Entries, key: string, value: string, other: string)
    requires other != value
    requires Lookup(es, key) != Some(other)
    ensures KeysMappedTo(Put(es, key, value), other) == KeysMappedTo(es, other)
  {
    if es == [] {
      assert KeysMappedTo([(key, value)], other) == [] + KeysMappedTo([], other);
    } else {
      var e, t := es[0], es[1..];
      if e.0 == key {
        var r := [(key, value)] + t;
        assert r[0] == (key, value) && r[1..] == t;
      } else {
        KeysMappedToPut(t, key, value, other);
        var r := [e] + Put(t, key, value);
        assert r[0] == e && r[1..] == Put(t, key, value);
      }
    }
  }

  lemma {:induction false} PrefixHasKey(es: Entries, n: nat, k: string)
    requires n <= |es|
    ensures HasKey(es[..n], k) ==> HasKey(es, k)
  {
    if n > 0 && es[0].0 != k {
      assert es[..n][1..] == es[1..][..n - 1];
      PrefixHasKey(es[1..], n - 1, k);
    }
  }

  /** The first options of a section also have unique names. */
  lemma {:induction false} UniqueKeysPrefix(es: Entries, n: nat)
    requires UniqueKeys(es) && n <= |es|
    ensures UniqueKeys(es[..n])
  {
    if n > 0 {
      assert es[..n][1..] == es[1..][..n - 1];
      PrefixHasKey(es[1..], n - 1, es[0].0);
      UniqueKeysPrefix(es[1..], n - 1);
    }
  }

  /** The option names of a section, as a set. */
  function Names(es: Entries): set<string> {
    set e | e in es :: e.0
  }

  lemma {:induction false} NamesHasKey(es: Entries, k: string)
    ensures k in Names(es) <==> HasKey(es, k)
  {
    if es != [] {
      NamesHasKey(es[1..], k);
      assert Names(es) == {es[0].0} + Names(es[1..]);
    }
  }

  /** `config.get(section, key)` with a missing section or option read as None. */
  function Get(c: Config, section: string, key: string): Option<string> {
    if section in c then Lookup(c[section], key) else None
  }

  /** `config.set(section, key, value)`. */
  function SetOption(c: Config, section: string, key: string, value: string): (r: Config)
    requires section in c
    ensures r.Keys == c.Keys
    ensures WellFormed(c) ==> WellFormed(r)
  {
    PutFacts(c[section], key, value);
    c[section := Put(c[section], key, value)]
  }

  /** `config.remove_option(section, key)`. */
  function RemoveOption(c: Config, section: string, key: string): (r: Config)
    requires section in c
    ensures r.Keys == c.Keys
    ensures WellFormed(c) ==> WellFormed(r)
  {
    DropFacts(c[section], key);
    c[section := Drop(c[section], key)]
  }

  /** After `config.set` the option holds the new value and every other option
      of every section is as it was. */
  lemma GetSetOption(c: Config, section: string, key: string, value: string, s: string, k: string)
    requires section in c
    ensures Get(SetOption(c, section, key, value), s, k)
         == if (s, k) == (section, key) then Some(value) else Get(c, s, k)
  {
    PutLookup(c[section], key, value, k);
  }

  /** After `config.remove_option` the option is gone and every other option of
      every section is as it was. */
  lemma GetRemoveOption(c: Config, section: string, key: string, s: string, k: string)
    requires section in c
    ensures Get(RemoveOption(c, section, key), s, k)
         == if (s, k) == (section, key) then None else Get(c, s, k)
  {
    DropLookup(c[section], key, k);
  }

  /** Removing an option the section does not have leaves the configuration
      as it was. */
  lemma RemoveOptionMissing(c: Config, section: string, key: string)
    requires section in c && !HasKey(c[section], key)
    ensures RemoveOption(c, section, key) == c
  {
    DropMissing(c[section], key);
  }
}
