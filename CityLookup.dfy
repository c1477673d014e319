/** City names for Pinellas County tax districts (app.py:250-329): the
    built-in code table, its extension with the city names found in the
    city-lookup file, the lookup that expands a code into a city name, and
    the choice of a zoning-map link for a city. */
module CityLookup {
  import opened Wrappers
  import opened Strings

  /** What an empty code expands to. */
  const Unincorporated := "Unincorporated Pinellas"

  /** The table key of a code or name: trimmed, then upper-cased. */
  function CityKey(s: string): string {
    Upper(Strip(s))
  }

  /** The key of the by-name index: trimmed, then lower-cased. */
  function NameKey(s: string): string {
    Lower(Strip(s))
  }

  // ---------------------------------------------------------------------------
  // expand_city_name
  // ---------------------------------------------------------------------------

  /** `expand_city_name` over a given table: total, with a default for the
      empty code, the table's value for a known code, and the code itself,
      untouched, otherwise. */
  function ExpandCityName(table: map<string, string>, code: string): (city: string)
    ensures code == [] ==> city == Unincorporated
    ensures code != [] && CityKey(code) in table ==> city == table[CityKey(code)]
    ensures code != [] && CityKey(code) !in table ==> city == code
  {
    if code == [] then Unincorporated
    else
      var key := CityKey(code);
      if key in table then table[key] else code
  }

  /** A name that expands to itself under `table`: non-empty, equal to the
      title-cased form of its own key, and mapped to itself by the table
      when its key is there at all. */
  predicate StableName(table: map<string, string>, name: string) {
    && name != []
    && Title(CityKey(name)) == name
    && (CityKey(name) in table ==> table[CityKey(name)] == name)
  }

  /** Every value of the table, and the default, expands to itself. */
  predicate StableTable(table: map<string, string>) {
    && StableName(table, Unincorporated)
    && forall k :: k in table ==> StableName(table, table[k])
  }

  /** Expanding a name that is already expanded changes nothing; the lookup
      form expands the stored city again (app.py:591, app.py:605), which is
      therefore harmless. */
  lemma {:induction false} ExpandCityNameIdempotent(table: map<string, string>, code: string)
    requires StableTable(table)
    ensures ExpandCityName(table, ExpandCityName(table, code)) == ExpandCityName(table, code)
  {
    var city := ExpandCityName(table, code);
    if code == [] {
      assert StableName(table, Unincorporated);
    } else if CityKey(code) in table {
      assert StableName(table, table[CityKey(code)]);
    }
  }

  // ---------------------------------------------------------------------------
  // Facts about keys
  // ---------------------------------------------------------------------------

  /** A key is its own key. */
  lemma CityKeyIdempotent(s: string)
    ensures CityKey(CityKey(s)) == CityKey(s)
  {
    var t := Strip(s);
    CaseKeepsSpace(t);
    assert Stripped(Upper(t));
    UpperIdempotent(t);
  }

  /** Title-casing a key and taking the key again gives the key back. */
  lemma CityKeyOfTitle(n: string)
    requires CityKey(n) == n
    ensures CityKey(Title(n)) == n
  {
    CaseKeepsSpace(n);
    assert Stripped(n);
    assert Stripped(Title(n));
    UpperOfTitle(n);
    assert Upper(n) == n;
  }

  // ---------------------------------------------------------------------------
  // The city-lookup file
  // ---------------------------------------------------------------------------

  /** A value of the city-lookup file: an object, read as its string-valued
      fields, or anything else (`isinstance(v, dict)` fails). */
  datatype LookupValue = Meta(fields: map<string, string>) | NotAnObject

  /** `meta.get("type") == "city_app"` on an object. */
  predicate IsCityApp(v: LookupValue) {
    v.Meta? && "type" in v.fields && v.fields["type"] == "city_app"
  }

  /** `CITY_NAMES_FROM_LOOKUP`: the key of every name whose value is a city
      app. `entries` are the items of the loaded `CITY_LOOKUP` dictionary in
      its order, so their names are distinct. */
  function CityAppNames(entries: seq<(string, LookupValue)>): set<string> {
    set i | 0 <= i < |entries| && IsCityApp(entries[i].1) :: CityKey(entries[i].0)
  }

  /** Those names are keys already: trimmed and upper-case. */
  lemma CityAppNamesAreKeys(entries: seq<(string, LookupValue)>)
    ensures forall n :: n in CityAppNames(entries) ==> CityKey(n) == n
    ensures forall i :: 0 <= i < |entries| && IsCityApp(entries[i].1) ==> CityKey(entries[i].0) in CityAppNames(entries)
  {
    forall n | n in CityAppNames(entries) ensures CityKey(n) == n {
      var i :| 0 <= i < |entries| && IsCityApp(entries[i].1) && n == CityKey(entries[i].0);
      CityKeyIdempotent(entries[i].0);
    }
  }

  // ---------------------------------------------------------------------------
  // Extending the table (the setdefault loop)
  // ---------------------------------------------------------------------------

  /** What `table.setdefault(n, value(n))` for every `n` in `names` leaves
      behind: the old keys and the new names, every old entry as it was, and
      every name that was not a key mapped to `value(n)`. */
  predicate SetDefaultAll(table: map<string, string>, names: set<string>, value: string -> string, r: map<string, string>) {
    && r.Keys == table.Keys + names
    && (forall k :: k in table ==> r[k] == table[k])
    && (forall k :: k in names && k !in table ==> r[k] == value(k))
  }

  /** One `setdefault` call extends the result for the names handled so far
      to one name more. */
  lemma SetDefaultStep(table: map<string, string>, done: set<string>, value: string -> string, r: map<string, string>, n: string)
    requires SetDefaultAll(table, done, value, r)
    ensures SetDefaultAll(table, done + {n}, value, if n in r then r else r[n := value(n)])
  {
  }

  /** The loop of app.py:302-303, `table.setdefault(n, n.title())`, in
      whatever order the set yields its names. */
  method ExtendCityMap(table: map<string, string>, names: set<string>) returns (r: map<string, string>)
    ensures SetDefaultAll(table, names, Title, r)
  {
    r := table;
    var todo := names;
    ghost var done: set<string> := {};
    while todo != {}
      invariant done + todo == names
      invariant SetDefaultAll(table, done, Title, r)
      decreases todo
    {
      var n :| n in todo;
      SetDefaultStep(table, done, Title, r, n);
      r := if n in r then r else r[n := Title(n)];
      todo := todo - {n};
      done := done + {n};
    }
  }

  /** Extending a stable table with non-empty keys keeps it stable, so a
      city name that has been expanded once expands to itself again. */
  lemma ExtendKeepsStable(table: map<string, string>, names: set<string>, r: map<string, string>)
    requires StableTable(table)
    requires forall n :: n in names ==> n != [] && CityKey(n) == n
    requires SetDefaultAll(table, names, Title, r)
    ensures StableTable(r)
  {
    KeptNameStable(table, names, r, Unincorporated);
    forall k | k in r ensures StableName(r, r[k]) {
      if k in table {
        KeptNameStable(table, names, r, table[k]);
      } else {
        NewNameStable(table, names, r, k);
      }
    }
  }

  /** A name stable under the old table stays stable under the extended one. */
  lemma KeptNameStable(table: map<string, string>, names: set<string>, r: map<string, string>, v: string)
    requires StableName(table, v)
    requires SetDefaultAll(table, names, Title, r)
    ensures StableName(r, v)
  {
  }

  /** A name the extension adds is mapped to its title-cased form, which is
      stable. */
  lemma NewNameStable(table: map<string, string>, names: set<string>, r: map<string, string>, k: string)
    requires k != [] && CityKey(k) == k
    requires k in names && k !in table
    requires SetDefaultAll(table, names, Title, r)
    ensures StableName(r, r[k])
  {
    CityKeyOfTitle(k);
    assert |Title(k)| == |k|;
  }

  // ---------------------------------------------------------------------------
  // The by-name index and the map link
  // ---------------------------------------------------------------------------

  /** Entry `e` is an object filed under key `k` by `key`. */
  predicate IndexedAs(e: (string, LookupValue), key: string -> string, k: string) {
    e.1.Meta? && key(e.0) == k
  }

  /** Entry `i` is the last one filed under `k`. */
  predicate LastIndexedAs(entries: seq<(string, LookupValue)>, key: string -> string, i: nat, k: string) {
    && i < |entries|
    && IndexedAs(entries[i], key, k)
    && forall j :: i < j < |entries| ==> !IndexedAs(entries[j], key, k)
  }

  /** A dictionary comprehension `{key(n): v for n, v in entries if
      isinstance(v, dict)}` over the items of the loaded dictionary, in its
      order; two distinct names can still share a key, and then the later
      item wins. */
  function IndexBy(entries: seq<(string, LookupValue)>, key: string -> string): map<string, map<string, string>> {
    if entries == [] then map[]
    else
      var last := entries[|entries| - 1];
      var rest := IndexBy(entries[..|entries| - 1], key);
      if last.1.Meta? then rest[key(last.0) := last.1.fields] else rest
  }

  /** `CITY_LOOKUP_BY_NAME`: the objects of the file under their trimmed,
      lower-cased names. */
  function NameIndex(entries: seq<(string, LookupValue)>): map<string, map<string, string>> {
    IndexBy(entries, NameKey)
  }

  /** The city name a lookup-file name is given in the table, `title()` of
      its key, has the same by-name key as the lookup-file name itself. */
  lemma TitledNameKey(n: string)
    ensures NameKey(Title(CityKey(n))) == NameKey(n)
  {
    var t := Strip(n);
    var k := CityKey(n);
    CaseKeepsSpace(t);
    assert Stripped(k);
    CaseKeepsSpace(k);
    assert Stripped(Title(k));
    LowerOfCase(k);
    LowerOfCase(t);
  }

  /** Every city a `city_app` entry adds to the table is found again by
      `_get_city_map_url` (app.py:307-308): its title-cased name is a key of
      the by-name index. */
  lemma LookupCityFound(entries: seq<(string, LookupValue)>, i: nat)
    requires i < |entries| && IsCityApp(entries[i].1)
    ensures NameKey(Title(CityKey(entries[i].0))) in NameIndex(entries)
  {
    TitledNameKey(entries[i].0);
    IndexByKeys(entries, NameKey);
    assert IndexedAs(entries[i], NameKey, NameKey(entries[i].0));
  }

  /** The index holds exactly the keys of the objects in the file. */
  lemma {:induction false} IndexByKeys(entries: seq<(string, LookupValue)>, key: string -> string)
    ensures forall k :: k in IndexBy(entries, key) <==> exists i :: 0 <= i < |entries| && IndexedAs(entries[i], key, k)
  {
    if entries != [] {
      var init := entries[..|entries| - 1];
      IndexByKeys(init, key);
      forall k | k !in IndexBy(entries, key) ensures forall i :: 0 <= i < |entries| ==> !IndexedAs(entries[i], key, k) {
        assert k !in IndexBy(init, key);
        forall i | 0 <= i < |entries| - 1 ensures !IndexedAs(entries[i], key, k) {
          assert init[i] == entries[i];
        }
      }
      forall k | k in IndexBy(entries, key) && !IndexedAs(entries[|entries| - 1], key, k)
        ensures exists i :: 0 <= i < |entries| && IndexedAs(entries[i], key, k)
      {
        assert k in IndexBy(init, key);
        var i :| 0 <= i < |init| && IndexedAs(init[i], key, k);
        assert init[i] == entries[i];
      }
    }
  }

  /** Where two names share a key, the later entry wins. */
  lemma {:induction false} IndexByLastWins(entries: seq<(string, LookupValue)>, key: string -> string, k: string)
    requires k in IndexBy(entries, key)
    ensures exists i: nat :: LastIndexedAs(entries, key, i, k) && IndexBy(entries, key)[k] == entries[i].1.fields
  {
    var init := entries[..|entries| - 1];
    var last := entries[|entries| - 1];
    if IndexedAs(last, key, k) {
      assert LastIndexedAs(entries, key, |entries| - 1, k);
    } else {
      assert k in IndexBy(init, key) && IndexBy(entries, key)[k] == IndexBy(init, key)[k];
      IndexByLastWins(init, key, k);
      var i: nat :| LastIndexedAs(init, key, i, k) && IndexBy(init, key)[k] == init[i].1.fields;
      assert entries[i] == init[i];
      assert LastIndexedAs(entries, key, i, k) by {
        forall j | i < j < |entries| ensures !IndexedAs(entries[j], key, k) {
          if j < |init| {
            assert entries[j] == init[j];
          }
        }
      }
    }
  }

  /** The keys `_get_city_map_url` tries, in order of preference. */
  const MapUrlKeys: seq<string> := [
    "zoning_flu_app",
    "zoning_lookup_app",
    "zoning_app",
    "gis_viewer_app",
    "future_land_use_2045_app",
    "open_data_hub",
    "mapserver"
  ]

  /** `meta.get(k)` is truthy: present and non-empty. */
  predicate Hit(meta: map<string, string>, k: string) {
    k in meta && meta[k] != []
  }

  /** `_get_city_map_url`: nothing for an empty name or a name without a
      non-empty object in the index; otherwise the value of the first key in
      `MapUrlKeys` that the object holds with a non-empty value, if any.
      `index` stands for `CITY_LOOKUP_BY_NAME`, that is `NameIndex` of the
      loaded items; `LookupCityFound` says which names it holds. */
  method GetCityMapUrl(index: map<string, map<string, string>>, city: string) returns (url: Option<string>)
    ensures url.None? <==>
      city == [] || NameKey(city) !in index || forall j :: 0 <= j < |MapUrlKeys| ==> !Hit(index[NameKey(city)], MapUrlKeys[j])
    ensures url.Some? ==>
      exists j :: 0 <= j < |MapUrlKeys| && Hit(index[NameKey(city)], MapUrlKeys[j])
        && url.value == index[NameKey(city)][MapUrlKeys[j]]
        && forall j' :: 0 <= j' < j ==> !Hit(index[NameKey(city)], MapUrlKeys[j'])
  {
    if city == [] {
      return None;
    }
    var key := NameKey(city);
    if key !in index || index[key] == map[] {
      return None;
    }
    var meta := index[key];
    var j := 0;
    while j < |MapUrlKeys|
      invariant 0 <= j <= |MapUrlKeys|
      invariant forall j' :: 0 <= j' < j ==> !Hit(meta, MapUrlKeys[j'])
    {
      var k := MapUrlKeys[j];
      if k in meta && meta[k] != [] {
        return Some(meta[k]);
      }
      j := j + 1;
    }
    return None;
  }
}
