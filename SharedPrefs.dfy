/**
 Android's `SharedPreferences`: a durable key-value store of one
 application, read with typed getters that return a default for a
 missing key, and written through an editor whose `apply()` commits
 all its puts at once.
 */
module SharedPrefs {
  import opened Wrappers
  import opened JavaLong

  /** The kinds of value a preferences file holds (floats are not modelled). */
  datatype PrefValue =
    | StringPref(s: string)
    | IntPref(i: Int)
    | LongPref(n: Long)
    | BoolPref(b: bool)
    | StringSetPref(ss: set<string>)

  /** `getString(key, defValue)`; a key of another type would throw `ClassCastException`. */
  function StringOr(m: map<string, PrefValue>, key: string, defValue: Option<string>): (r: Option<string>)
    requires key in m ==> m[key].StringPref?
    ensures key in m ==> r == Some(m[key].s)
    ensures key !in m ==> r == defValue
  {
    if key in m then Some(m[key].s) else defValue
  }

  /** `getLong(key, defValue)`; a key of another type would throw `ClassCastException`. */
  function LongOr(m: map<string, PrefValue>, key: string, defValue: Long): (r: Long)
    requires key in m ==> m[key].LongPref?
    ensures key in m ==> m[key] == LongPref(r)
    ensures key !in m ==> r == defValue
  {
    if key in m then m[key].n else defValue
  }

  class Preferences {
    var entries: map<string, PrefValue>

    constructor (initial: map<string, PrefValue>)
      ensures entries == initial
    {
      entries := initial;
    }

    function GetString(key: string, defValue: Option<string>): (r: Option<string>)
      reads this
      requires key in entries ==> entries[key].StringPref?
      ensures key in entries ==> r.Some? && entries[key] == StringPref(r.value)
      ensures key !in entries ==> r == defValue
    {
      StringOr(entries, key, defValue)
    }

    function GetLong(key: string, defValue: Long): (r: Long)
      reads this
      requires key in entries ==> entries[key].LongPref?
      ensures key in entries ==> entries[key] == LongPref(r)
      ensures key !in entries ==> r == defValue
    {
      LongOr(entries, key, defValue)
    }

    /** `edit().put…(…)….apply()`: the editor's puts replace their keys, all other keys stay. */
    method Apply(edits: map<string, PrefValue>)
      modifies this
      ensures entries == old(entries) + edits
    {
      entries := entries + edits;
    }
  }
}
