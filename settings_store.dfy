/** The settings store (`LFO_Database`): a key/value table with a unique key and
    replace-on-save, a memoised "table exists" flag and a memoised copy of all settings. */
module SettingsStore {
  import opened Php

  /** One row of `lfo_settings`; values are modelled after `maybe_unserialize`. */
  datatype Row = Row(key: string, value: Value)

  /** The `UNIQUE KEY setting_key`. */
  predicate UniqueKeys(rows: seq<Row>)
  {
    forall i, j :: 0 <= i < j < |rows| ==> rows[i].key != rows[j].key
  }

  /** `SELECT setting_value ... WHERE setting_key = key`: the value of the row with that key. */
  function Lookup(rows: seq<Row>, key: string): Option<Value>
  {
    if rows == [] then None
    else if rows[0].key == key then Some(rows[0].value)
    else Lookup(rows[1..], key)
  }

  /** A key is found iff some row has it, and the value found is that row's. */
  lemma {:induction false} LookupSpec(rows: seq<Row>, key: string)
    ensures Lookup(rows, key).Some? <==> exists k :: 0 <= k < |rows| && rows[k].key == key
    ensures Lookup(rows, key).Some? ==> Row(key, Lookup(rows, key).value) in rows
  {
    if rows != [] && rows[0].key != key {
      LookupSpec(rows[1..], key);
      if Lookup(rows, key).None? {
        forall k | 0 <= k < |rows| ensures rows[k].key != key {
          if k > 0 {
            assert rows[k] == rows[1..][k - 1];
          }
        }
      } else {
        var k :| 0 <= k < |rows[1..]| && rows[1..][k].key == key;
        assert rows[k + 1].key == key;
      }
    }
  }

  /** Under unique keys a lookup finds exactly the row that is stored. */
  lemma {:induction false} LookupUnique(rows: seq<Row>, key: string, value: Value)
    requires UniqueKeys(rows)
    ensures Lookup(rows, key) == Some(value) <==> Row(key, value) in rows
  {
    if rows != [] {
      if rows[0].key == key {
        assert forall k :: 0 < k < |rows| ==> rows[k].key != key;
      } else {
        assert Row(key, value) in rows <==> Row(key, value) in rows[1..];
        LookupUnique(rows[1..], key, value);
      }
    }
  }

  /** MySQL `REPLACE`: any row with the key goes, then the new row is inserted. */
  function Replace(rows: seq<Row>, key: string, value: Value): seq<Row>
  {
    Filter(rows, (row: Row) => row.key != key) + [Row(key, value)]
  }

  /** A save keeps the key unique, so the table has exactly one row for it. */
  lemma ReplaceUnique(rows: seq<Row>, key: string, value: Value)
    requires UniqueKeys(rows)
    ensures UniqueKeys(Replace(rows, key, value))
  {
    var keep := (row: Row) => row.key != key;
    var distinct := (a: Row, b: Row) => a.key != b.key;
    var kept := Filter(rows, keep);
    var r := Replace(rows, key, value);
    FilterPairwise(rows, keep, distinct);
    FilterSpec(rows, keep);
    assert forall i, j :: 0 <= i < j < |kept| ==> distinct(kept[i], kept[j]);
    forall i, j | 0 <= i < j < |r|
      ensures r[i].key != r[j].key
    {
      if j == |kept| {
        assert r[i] == kept[i] && kept[i] in kept;
      } else {
        assert r[i] == kept[i] && r[j] == kept[j];
      }
    }
  }

  /** After a save the key holds the new value, every other key keeps its value, and the key
      stays unique. */
  lemma ReplaceSpec(rows: seq<Row>, key: string, value: Value, other: string)
    requires UniqueKeys(rows)
    ensures UniqueKeys(Replace(rows, key, value))
    ensures Lookup(Replace(rows, key, value), key) == Some(value)
    ensures other != key ==> Lookup(Replace(rows, key, value), other) == Lookup(rows, other)
  {
    var keep := (row: Row) => row.key != key;
    var kept := Filter(rows, keep);
    var r := Replace(rows, key, value);
    ReplaceUnique(rows, key, value);
    assert r[|kept|] == Row(key, value);
    LookupUnique(r, key, value);
    if other != key {
      ReplaceOther(rows, key, value, other);
    }
  }

  lemma ReplaceOther(rows: seq<Row>, key: string, value: Value, other: string)
    requires UniqueKeys(rows) && UniqueKeys(Replace(rows, key, value)) && other != key
    ensures Lookup(Replace(rows, key, value), other) == Lookup(rows, other)
  {
    var keep := (row: Row) => row.key != key;
    var kept := Filter(rows, keep);
    var r := Replace(rows, key, value);
    FilterSpec(rows, keep);
    LookupSpec(rows, other);
    match Lookup(rows, other)
    case None =>
      forall k | 0 <= k < |r|
        ensures r[k].key != other
      {
        if k < |kept| {
          assert r[k] == kept[k] && kept[k] in kept;
        }
      }
      LookupSpec(r, other);
    case Some(v) =>
      LookupUnique(rows, other, v);
      assert Row(other, v) in kept;
      assert Row(other, v) in r;
      LookupUnique(r, other, v);
  }

  /** Saving a key twice is the same as saving its latest value once. */
  lemma SaveTwice(rows: seq<Row>, key: string, v1: Value, v2: Value)
    ensures Replace(Replace(rows, key, v1), key, v2) == Replace(rows, key, v2)
  {
    var keep := (row: Row) => row.key != key;
    var kept := Filter(rows, keep);
    FilterConcat(kept, [Row(key, v1)], keep);
    assert Filter([Row(key, v1)], keep) == [];
    FilterSpec(rows, keep);
    assert forall k :: 0 <= k < |kept| ==> kept[k] in kept;
    FilterKeepsAll(kept, keep);
    assert kept + [] == kept;
  }

  /** The map `get_all_settings` builds from the rows in table order: rows whose key is
      PHP-empty ("" or "0") are skipped, and a later row would replace an earlier one. */
  function Visible(rows: seq<Row>): map<string, Value>
  {
    if rows == [] then map[]
    else
      var last := rows[|rows| - 1];
      var before := Visible(rows[..|rows| - 1]);
      if EmptyString(last.key) then before else before[last.key := last.value]
  }

  lemma {:induction false} LookupAppend(rows: seq<Row>, row: Row, key: string)
    ensures Lookup(rows + [row], key) == OrElse(Lookup(rows, key), if row.key == key then Some(row.value) else None)
  {
    if rows != [] {
      assert (rows + [row])[1..] == rows[1..] + [row];
      LookupAppend(rows[1..], row, key);
    }
  }

  /** `get_all_settings` and `get_setting` agree: a non-empty key is in the map exactly when
      it is stored, with the stored value; an empty key never is. */
  lemma {:induction false} VisibleSpec(rows: seq<Row>, key: string)
    requires UniqueKeys(rows)
    ensures key in Visible(rows) <==> !EmptyString(key) && Lookup(rows, key).Some?
    ensures key in Visible(rows) ==> Visible(rows)[key] == Lookup(rows, key).value
  {
    if rows != [] {
      var init := rows[..|rows| - 1];
      var last := rows[|rows| - 1];
      assert rows == init + [last];
      VisibleSpec(init, key);
      LookupAppend(init, last, key);
      if last.key == key {
        LookupSpec(init, key);
        assert forall k :: 0 <= k < |init| ==> init[k] == rows[k];
      }
    }
  }

  /** The next `get_all_settings` after a successful save shows the saved value. */
  lemma SavedValueVisible(rows: seq<Row>, key: string, value: Value)
    requires UniqueKeys(rows) && !EmptyString(key)
    ensures key in Visible(Replace(rows, key, value)) && Visible(Replace(rows, key, value))[key] == value
  {
    ReplaceSpec(rows, key, value, key);
    VisibleSpec(Replace(rows, key, value), key);
  }

  /** The loop of `get_all_settings` over the query result. */
  method BuildSettings(rows: seq<Row>) returns (settings: map<string, Value>)
    ensures settings == Visible(rows)
  {
    settings := map[];
    var i := 0;
    while i < |rows|
      invariant 0 <= i <= |rows|
      invariant settings == Visible(rows[..i])
    {
      assert rows[..i + 1][..i] == rows[..i];
      var row := rows[i];
      if !EmptyString(row.key) {
        settings := settings[row.key := row.value];
      }
      i := i + 1;
    }
    assert rows[..i] == rows;
  }

  // ================================================================ defaults

  /** The defaults `initialize_defaults` seeds, in order; `logo_link_url` is the site's home URL. */
  function Defaults(homeUrl: string): seq<(string, Value)>
  {
    [ ("enable_plugin", Str("1")),
      ("use_default_styles", Str("1")),
      ("custom_css", Str("")),
      ("custom_js", Str("")),
      ("logo_url", Str("")),
      ("logo_link_url", Str(homeUrl)),
      ("hide_login_errors", Str("0")),
      ("custom_error_message", Str("Invalid credentials.")),
      ("disable_language_switcher", Str("0")),
      ("disable_privacy_link", Str("0")),
      ("disable_back_to_site", Str("0")),
      ("logout_redirect_url", Str("")),
      ("logout_skip_confirmation", Str("0")),
      ("login_redirect_subscriber", Str("")),
      ("hide_session_expire", Str("0")),
      ("role_exceptions", List([])),
      ("ip_allowlist", List([])),
      ("cleanup_on_uninstall", Str("1")) ]
  }

  predicate DistinctKeys(defaults: seq<(string, Value)>)
  {
    forall i, j :: 0 <= i < j < |defaults| ==> defaults[i].0 != defaults[j].0
  }

  lemma DefaultsDistinct(homeUrl: string)
    ensures |Defaults(homeUrl)| == 18 && DistinctKeys(Defaults(homeUrl))
  {
  }

  /** The first `i` rounds of `initialize_defaults` on an available table: a default is saved
      only when `get_setting` finds nothing for its key, and a refused save is skipped. */
  function Seeded(rows: seq<Row>, defaults: seq<(string, Value)>, i: nat, accepted: nat -> bool): seq<Row>
    requires i <= |defaults|
  {
    if i == 0 then rows
    else
      var prev := Seeded(rows, defaults, i - 1, accepted);
      var (key, value) := defaults[i - 1];
      if Lookup(prev, key).None? && accepted(i - 1) then Replace(prev, key, value) else prev
  }

  lemma {:induction false} SeededUnique(rows: seq<Row>, defaults: seq<(string, Value)>, i: nat, accepted: nat -> bool)
    requires UniqueKeys(rows) && i <= |defaults|
    ensures UniqueKeys(Seeded(rows, defaults, i, accepted))
  {
    if i > 0 {
      SeededUnique(rows, defaults, i - 1, accepted);
      var prev := Seeded(rows, defaults, i - 1, accepted);
      ReplaceUnique(prev, defaults[i - 1].0, defaults[i - 1].1);
    }
  }

  /** A stored value survives seeding. */
  lemma {:induction false} SeededKeepsStored(rows: seq<Row>, defaults: seq<(string, Value)>, i: nat, accepted: nat -> bool, key: string)
    requires UniqueKeys(rows) && i <= |defaults| && Lookup(rows, key).Some?
    ensures Lookup(Seeded(rows, defaults, i, accepted), key) == Lookup(rows, key)
  {
    if i > 0 {
      SeededKeepsStored(rows, defaults, i - 1, accepted, key);
      SeededStep(rows, defaults, i, accepted, key);
    }
  }

  /** A key that no default names is left as it was. */
  lemma {:induction false} SeededUntouched(rows: seq<Row>, defaults: seq<(string, Value)>, i: nat, accepted: nat -> bool, key: string)
    requires UniqueKeys(rows) && i <= |defaults|
    requires forall j :: 0 <= j < i ==> defaults[j].0 != key
    ensures Lookup(Seeded(rows, defaults, i, accepted), key) == Lookup(rows, key)
  {
    if i > 0 {
      SeededUntouched(rows, defaults, i - 1, accepted, key);
      SeededStep(rows, defaults, i, accepted, key);
    }
  }

  /** A missing key named by the `j`-th default ends up with that default exactly when its
      save went through. */
  lemma {:induction false} SeededWrites(rows: seq<Row>, defaults: seq<(string, Value)>, i: nat, accepted: nat -> bool, j: nat)
    requires UniqueKeys(rows) && DistinctKeys(defaults) && j < i <= |defaults|
    requires Lookup(rows, defaults[j].0).None?
    ensures Lookup(Seeded(rows, defaults, i, accepted), defaults[j].0) == if accepted(j) then Some(defaults[j].1) else None
  {
    var key := defaults[j].0;
    SeededStep(rows, defaults, i, accepted, key);
    if i - 1 == j {
      SeededUntouched(rows, defaults, i - 1, accepted, key);
    } else {
      SeededWrites(rows, defaults, i - 1, accepted, j);
    }
  }

  /** One round of seeding, seen from one key. */
  lemma SeededStep(rows: seq<Row>, defaults: seq<(string, Value)>, i: nat, accepted: nat -> bool, key: string)
    requires UniqueKeys(rows) && 0 < i <= |defaults|
    ensures var prev := Seeded(rows, defaults, i - 1, accepted);
            var (k, v) := defaults[i - 1];
      Lookup(Seeded(rows, defaults, i, accepted), key) ==
        if k == key && Lookup(prev, k).None? && accepted(i - 1) then Some(v) else Lookup(prev, key)
  {
    SeededUnique(rows, defaults, i - 1, accepted);
    var prev := Seeded(rows, defaults, i - 1, accepted);
    var (k, v) := defaults[i - 1];
    if Lookup(prev, k).None? && accepted(i - 1) {
      ReplaceSpec(prev, k, v, key);
    }
  }

  /** Seeding keeps keys unique, never overwrites a stored value, writes no key outside the
      defaults, and gives a missing default key its default value when that save went through. */
  lemma SeededSpec(rows: seq<Row>, defaults: seq<(string, Value)>, i: nat, accepted: nat -> bool, key: string)
    requires UniqueKeys(rows) && DistinctKeys(defaults) && i <= |defaults|
    ensures UniqueKeys(Seeded(rows, defaults, i, accepted))
    ensures Lookup(rows, key).Some? ==> Lookup(Seeded(rows, defaults, i, accepted), key) == Lookup(rows, key)
    ensures (forall j :: 0 <= j < i ==> defaults[j].0 != key) ==>
      Lookup(Seeded(rows, defaults, i, accepted), key) == Lookup(rows, key)
    ensures forall j :: 0 <= j < i && defaults[j].0 == key && Lookup(rows, key).None? ==>
      Lookup(Seeded(rows, defaults, i, accepted), key) == (if accepted(j) then Some(defaults[j].1) else None)
  {
    SeededUnique(rows, defaults, i, accepted);
    if Lookup(rows, key).Some? {
      SeededKeepsStored(rows, defaults, i, accepted, key);
    }
    if forall j :: 0 <= j < i ==> defaults[j].0 != key {
      SeededUntouched(rows, defaults, i, accepted, key);
    }
    forall j | 0 <= j < i && defaults[j].0 == key && Lookup(rows, key).None?
      ensures Lookup(Seeded(rows, defaults, i, accepted), key) == (if accepted(j) then Some(defaults[j].1) else None)
    {
      SeededWrites(rows, defaults, i, accepted, j);
    }
  }

  // ================================================================ the table check

  /** `ensure_table_exists` on the (verified flag, table present) pair: a memoised answer is
      returned as is; otherwise the table is created when missing and the answer memoised. */
  function TableCheck(verified: Option<bool>, present: bool, creatable: bool): (r: (Option<bool>, bool))
    ensures r.0.Some?
    ensures r.0.value == r.1 || verified.Some?
  {
    if verified.Some? then (verified, present)
    else (Some(present || creatable), present || creatable)
  }

  /** After the first call the answer never changes. */
  lemma TableCheckMemoised(verified: Option<bool>, present: bool, creatable: bool)
    ensures var (v, p) := TableCheck(verified, present, creatable);
      TableCheck(v, p, creatable) == (v, p)
  {
  }

  /** The table as the database sees it: whether it exists, its rows, and whether creating it
      (`dbDelta`) would succeed. It is shared by every `Database` object of a site. */
  class SettingsTable {
    var present: bool
    var rows: seq<Row>
    const creatable: bool

    ghost predicate Valid()
      reads this
    {
      UniqueKeys(rows) && (!present ==> rows == [])
    }

    constructor (creatable: bool)
      ensures Valid() && !present && rows == [] && this.creatable == creatable
    {
      present, rows := false, [];
      this.creatable := creatable;
    }
  }

  class Database {
    const table: SettingsTable
    /** `settings_cache`: `None` stands for PHP `null`. */
    var cache: Option<map<string, Value>>
    /** `table_verified`. */
    var verified: Option<bool>

    /** A memoised "exists" answer is true only of an existing table, and a cached copy always
        equals what the table holds. */
    ghost predicate Valid()
      reads this, table
    {
      && table.Valid()
      && (verified == Some(true) ==> table.present)
      && (cache.Some? ==> cache.value == Visible(table.rows))
    }

    constructor (table: SettingsTable)
      requires table.Valid()
      ensures Valid() && this.table == table && cache == None && verified == None
    {
      this.table := table;
      cache, verified := None, None;
    }

    /** `create_tables`: `CREATE TABLE IF NOT EXISTS`, keeping any rows. */
    method CreateTables()
      requires Valid()
      modifies table`present
      ensures Valid()
      ensures table.present == (old(table.present) || table.creatable)
    {
      if table.creatable {
        table.present := true;
      }
    }

    method EnsureTableExists() returns (ok: bool)
      requires Valid()
      modifies this`verified, table`present
      ensures Valid()
      ensures (verified, table.present) == TableCheck(old(verified), old(table.present), table.creatable)
      ensures verified == Some(ok)
    {
      if verified.Some? {
        return verified.value;
      }
      if !table.present {
        CreateTables();
      }
      ok := table.present;
      verified := Some(ok);
    }

    /** `get_setting`; a `None` default stands for PHP `false`. */
    method GetSetting(key: string, default: Option<Value>) returns (r: Option<Value>)
      requires Valid()
      modifies this`verified, table`present
      ensures Valid()
      ensures (verified, table.present) == TableCheck(old(verified), old(table.present), table.creatable)
      ensures r == if verified == Some(true) then OrElse(Lookup(table.rows, key), default) else default
    {
      var ok := EnsureTableExists();
      if !ok {
        return default;
      }
      var value := Lookup(table.rows, key);
      if value.None? {
        return default;
      }
      return value;
    }

    /** `get_all_settings`; `queryOk` is whether `get_results` returned an array. */
    method GetAllSettings(queryOk: bool) returns (r: map<string, Value>)
      requires Valid()
      modifies this`cache, this`verified, table`present
      ensures Valid()
      ensures old(cache).Some? ==>
        r == old(cache).value && cache == old(cache) && verified == old(verified) && table.present == old(table.present)
      ensures old(cache).None? ==>
        && (verified, table.present) == TableCheck(old(verified), old(table.present), table.creatable)
        && (if verified == Some(true) && queryOk then r == Visible(table.rows) && cache == Some(r)
            else r == map[] && cache == None)
    {
      if cache.Some? {
        return cache.value;
      }
      var ok := EnsureTableExists();
      if !ok {
        return map[];
      }
      if !queryOk {
        return map[];
      }
      var settings := BuildSettings(table.rows);
      cache := Some(settings);
      return settings;
    }

    /** `save_setting`; `accepted` is whether `$wpdb->replace` succeeded. */
    method SaveSetting(key: string, value: Value, accepted: bool) returns (ok: bool)
      requires Valid()
      modifies this`cache, this`verified, table
      ensures Valid()
      ensures (verified, table.present) == TableCheck(old(verified), old(table.present), table.creatable)
      ensures ok == (verified == Some(true) && accepted)
      ensures ok ==> table.rows == Replace(old(table.rows), key, value) && cache == None
      ensures !ok ==> table.rows == old(table.rows) && cache == old(cache)
    {
      var available := EnsureTableExists();
      if !available {
        return false;
      }
      if !accepted {
        return false;
      }
      ReplaceSpec(table.rows, key, value, key);
      table.rows := Replace(table.rows, key, value);
      cache := None;
      ok := true;
    }

    /** `initialize_defaults`; `accepted(i)` is whether the save of the `i`-th default succeeded. */
    method InitializeDefaults(homeUrl: string, accepted: nat -> bool)
      requires Valid()
      modifies this`cache, this`verified, table
      ensures Valid()
      ensures (verified, table.present) == TableCheck(old(verified), old(table.present), table.creatable)
      ensures table.rows == if verified == Some(true) then Seeded(old(table.rows), Defaults(homeUrl), 18, accepted)
                            else old(table.rows)
    {
      DefaultsDistinct(homeUrl);
      SeedDefaults(Defaults(homeUrl), accepted);
    }

    /** The loop of `initialize_defaults` over any list of defaults: each key is saved only when
        `get_setting` returns false for it. */
    method SeedDefaults(defaults: seq<(string, Value)>, accepted: nat -> bool)
      requires Valid()
      requires |defaults| > 0
      modifies this`cache, this`verified, table
      ensures Valid()
      ensures (verified, table.present) == TableCheck(old(verified), old(table.present), table.creatable)
      ensures table.rows == if verified == Some(true) then Seeded(old(table.rows), defaults, |defaults|, accepted)
                            else old(table.rows)
    {
      ghost var start := table.rows;
      ghost var check := TableCheck(verified, table.present, table.creatable);
      SeedOne(defaults[0].0, defaults[0].1, accepted(0));
      assert table.rows == if verified == Some(true) then Seeded(start, defaults, 1, accepted) else start;
      var i := 1;
      while i < |defaults|
        invariant 1 <= i <= |defaults|
        invariant Valid()
        invariant (verified, table.present) == check
        invariant table.rows == if verified == Some(true) then Seeded(start, defaults, i, accepted) else start
      {
        SeedOne(defaults[i].0, defaults[i].1, accepted(i));
        assert table.rows == if verified == Some(true) then Seeded(start, defaults, i + 1, accepted) else start;
        i := i + 1;
      }
    }

    /** One round of `initialize_defaults`: save the default only when `get_setting` finds nothing. */
    method SeedOne(key: string, value: Value, accepted: bool)
      requires Valid()
      modifies this`cache, this`verified, table
      ensures Valid()
      ensures (verified, table.present) == TableCheck(old(verified), old(table.present), table.creatable)
      ensures table.rows == if verified == Some(true) && Lookup(old(table.rows), key).None? && accepted
                            then Replace(old(table.rows), key, value) else old(table.rows)
    {
      var current := GetSetting(key, None);
      if current.None? {
        var _ := SaveSetting(key, value, accepted);
      }
    }

    /** `activate`: a fresh object creates the table and seeds the defaults. */
    static method Activate(table: SettingsTable, homeUrl: string, accepted: nat -> bool)
      requires table.Valid()
      modifies table
      ensures table.Valid()
      ensures table.present == (old(table.present) || table.creatable)
      ensures table.rows == if table.present then Seeded(old(table.rows), Defaults(homeUrl), 18, accepted) else old(table.rows)
    {
      var db := new Database(table);
      db.CreateTables();
      db.InitializeDefaults(homeUrl, accepted);
    }

    /** `uninstall`: the table is dropped only when `cleanup_on_uninstall` reads exactly '1'
        (the default when it is missing or the table is unavailable). */
    static method Uninstall(table: SettingsTable)
      requires table.Valid()
      modifies table
      ensures table.Valid()
      ensures var present := old(table.present) || table.creatable;
        if CleanupWanted(old(table.rows), present) then !table.present && table.rows == []
        else table.present == present && table.rows == old(table.rows)
    {
      var db := new Database(table);
      var cleanup := db.GetSetting("cleanup_on_uninstall", Some(Str("1")));
      if cleanup != Some(Str("1")) {
        return;
      }
      table.present, table.rows := false, [];
    }
  }

  /** What `uninstall` reads for `cleanup_on_uninstall`, compared strictly with '1'. */
  function CleanupWanted(rows: seq<Row>, present: bool): bool
  {
    (if present then OrElse(Lookup(rows, "cleanup_on_uninstall"), Some(Str("1"))) else Some(Str("1"))) == Some(Str("1"))
  }

  /** The table is dropped by default, kept when the flag is stored as anything but '1'
      (including an array, which is never identical to '1'). */
  lemma CleanupWantedSpec(rows: seq<Row>, present: bool, v: Value)
    requires UniqueKeys(rows)
    ensures !present ==> CleanupWanted(rows, present)
    ensures (forall k :: 0 <= k < |rows| ==> rows[k].key != "cleanup_on_uninstall") ==> CleanupWanted(rows, present)
    ensures present && Row("cleanup_on_uninstall", v) in rows ==> (CleanupWanted(rows, present) <==> v == Str("1"))
  {
    LookupUnique(rows, "cleanup_on_uninstall", v);
    LookupSpec(rows, "cleanup_on_uninstall");
  }
}
