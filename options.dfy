/** The options routes over the `wp_options` table: read, write, delete, bulk read
    and a prefix-filtered, name-ordered, size-limited listing.

    The table maps an option name to its stored value and autoload flag. The host
    functions the routes call (`get_option`, `update_option`, `delete_option`) are
    modelled by what they do to that table, including their refusal of an empty
    (or "0") option name. */
module Options {
  import opened Envelope
  import opened PhpArray
  import opened PhpString

  datatype StoredOption = StoredOption(value: Value, autoload: string)

  type OptionTable = map<string, StoredOption>

  /** `option_exists`: a row with this name is in the table. */
  predicate OptionExists(table: OptionTable, key: string)
  {
    key in table
  }

  /** `get_option($key)` with its default `false`; an empty or "0" name reads as false. */
  function GetOptionValue(table: OptionTable, key: string): (v: Value)
    ensures !FalsyString(key) && key in table ==> v == table[key].value
    ensures key !in table ==> v == Bool(false)
  {
    if FalsyString(key) || key !in table then Bool(false) else table[key].value
  }

  /** `update_option($key, $value, $autoload)`: refuses an empty or "0" name; leaves
      the table alone when `get_option` already reads `$value`, which for a missing
      row is its default `false`; otherwise stores the value with the autoload flag,
      adding the row if it is missing. */
  function UpdateOption(table: OptionTable, key: string, value: Value, autoload: string): (t: OptionTable)
    ensures FalsyString(key) ==> t == table
    ensures !FalsyString(key) && GetOptionValue(table, key) == value ==> t == table
    ensures !FalsyString(key) && GetOptionValue(table, key) != value ==>
              key in t && t[key].value == value && t[key].autoload == autoload
    ensures !FalsyString(key) ==> GetOptionValue(t, key) == value
    ensures forall k :: k != key ==> (k in t <==> k in table) && (k in table ==> t[k] == table[k])
  {
    if FalsyString(key) || GetOptionValue(table, key) == value then table
    else table[key := StoredOption(value, autoload)]
  }

  datatype OptionEntry = OptionEntry(key: string, value: Value)

  /** `get_option` route: 404 `option_not_found` exactly when no row has the
      sanitized name; otherwise the name and what `get_option` reads. */
  method GetOption(table: OptionTable, keyParam: string) returns (r: Response<OptionEntry>)
    ensures r.Err? <==> !OptionExists(table, SanitizeKey(keyParam))
    ensures r.Err? ==> r == Err("option_not_found", NotFound)
    ensures r.Ok? ==> r.data == OptionEntry(SanitizeKey(keyParam), GetOptionValue(table, SanitizeKey(keyParam)))
  {
    var key := SanitizeKey(keyParam);
    var value := GetOptionValue(table, key);
    if value == Bool(false) && !OptionExists(table, key) {
      return Err("option_not_found", NotFound);
    }
    r := Ok(OptionEntry(key, value));
  }

  /** A key the option routes accept (`[a-zA-Z0-9_-]+`) reaches the table lower-cased
      and otherwise intact. */
  lemma RouteKeyReachesTable(keyParam: string)
    requires RouteKey(keyParam)
    ensures SanitizeKey(keyParam) == Lower(keyParam) && |SanitizeKey(keyParam)| == |keyParam| > 0
  {
    SanitizeRouteKey(keyParam);
  }

  datatype SetResult = SetResult(key: string, value: Value, created: bool)

  function AutoloadFlag(autoload: bool): string
  {
    if autoload then "yes" else "no"
  }

  /** `set_option` as written: `created` is asked of the table after the write. */
  method SetOptionAsWritten(table: OptionTable, keyParam: string, value: Value, autoload: bool)
    returns (r: SetResult, table': OptionTable)
    ensures table' == UpdateOption(table, SanitizeKey(keyParam), value, AutoloadFlag(autoload))
    ensures r.key == SanitizeKey(keyParam) && r.value == value
    ensures r.created <==> !OptionExists(table', r.key)
  {
    var key := SanitizeKey(keyParam);
    table' := UpdateOption(table, key, value, AutoloadFlag(autoload));
    r := SetResult(key, value, !OptionExists(table', key));
  }

  /** As written, `created` is false for every name the write accepts, in particular
      for an option the call has just added, unless the value is `false` on a missing
      option (see CreatedAsWrittenOnFalse). */
  lemma CreatedAsWrittenIsFalse(table: OptionTable, key: string, value: Value, autoload: string)
    requires !FalsyString(key)
    requires !(key !in table && value == Bool(false))
    ensures OptionExists(UpdateOption(table, key, value, autoload), key)
  {
  }

  /** Writing `false` to a missing option writes nothing, so as written `created` is
      true although no option was created. */
  lemma CreatedAsWrittenOnFalse(table: OptionTable, key: string, autoload: string)
    requires key !in table
    ensures UpdateOption(table, key, Bool(false), autoload) == table
    ensures !OptionExists(UpdateOption(table, key, Bool(false), autoload), key)
  {
  }

  /** `set_option` with `created` asked before the write: it reports whether the call
      added the option. */
  method SetOption(table: OptionTable, keyParam: string, value: Value, autoload: bool)
    returns (r: SetResult, table': OptionTable)
    ensures table' == UpdateOption(table, SanitizeKey(keyParam), value, AutoloadFlag(autoload))
    ensures r.key == SanitizeKey(keyParam) && r.value == value
    ensures r.created <==> !OptionExists(table, r.key) && OptionExists(table', r.key)
    ensures !FalsyString(r.key) ==> (r.created <==> !OptionExists(table, r.key) && value != Bool(false))
  {
    var key := SanitizeKey(keyParam);
    var existed := OptionExists(table, key);
    table' := UpdateOption(table, key, value, AutoloadFlag(autoload));
    r := SetResult(key, value, !existed && OptionExists(table', key));
  }

  datatype DeleteResult = DeleteResult(deleted: bool, key: string)

  /** `delete_option` route: 404 when no row has the sanitized name; otherwise the row
      is removed (unless the name is one `delete_option` refuses) and every other row
      is kept. */
  method DeleteOption(table: OptionTable, keyParam: string) returns (r: Response<DeleteResult>, table': OptionTable)
    ensures !OptionExists(table, SanitizeKey(keyParam)) ==> r == Err("option_not_found", NotFound) && table' == table
    ensures OptionExists(table, SanitizeKey(keyParam)) ==>
      var key := SanitizeKey(keyParam);
      && r == Ok(DeleteResult(!FalsyString(key), key))
      && (!FalsyString(key) ==> !OptionExists(table', key))
      && (FalsyString(key) ==> table' == table)
    ensures forall k :: k != SanitizeKey(keyParam) ==> (k in table' <==> k in table) && (k in table' ==> table'[k] == table[k])
  {
    var key := SanitizeKey(keyParam);
    if !OptionExists(table, key) {
      return Err("option_not_found", NotFound), table;
    }
    var deleted := !FalsyString(key);
    table' := if deleted then table - {key} else table;
    r := Ok(DeleteResult(deleted, key));
  }

  // ------------------------------------------------------------- bulk get

  /** The requested keys after `sanitize_key`, in request order. */
  function SanitizedKeys(keys: seq<string>): (r: seq<string>)
    ensures |r| == |keys| && forall i :: 0 <= i < |keys| ==> r[i] == SanitizeKey(keys[i])
  {
    seq(|keys|, i requires 0 <= i < |keys| => SanitizeKey(keys[i]))
  }

  /** `bulk_get_options`: `$results[$key] = get_option($key)` for each sanitized key, so
      a repeated key keeps its first place and the keys are exactly the distinct
      sanitized ones. */
  method BulkGetOptions(table: OptionTable, keys: seq<string>) returns (results: Assoc<string, Value>)
    ensures results.Valid()
    ensures forall k :: k in results.vals <==> k in SanitizedKeys(keys)
    ensures forall k :: k in results.vals ==> results.vals[k] == GetOptionValue(table, k)
    ensures |results.keys| <= |keys|
  {
    var sanitized := SanitizedKeys(keys);
    results := Empty();
    var i := 0;
    while i < |keys|
      invariant 0 <= i <= |keys|
      invariant results.Valid()
      invariant forall k :: k in results.vals <==> k in sanitized[..i]
      invariant forall k :: k in results.vals ==> results.vals[k] == GetOptionValue(table, k)
      invariant |results.keys| <= i
    {
      var key := SanitizeKey(keys[i]);
      assert sanitized[..i + 1] == sanitized[..i] + [key];
      results := results.Put(key, GetOptionValue(table, key));
      i := i + 1;
    }
    assert sanitized[..i] == sanitized;
  }

  // ------------------------------------------------------------- listing

  /** `m` is the least element of `s` in byte order. */
  predicate IsLeast(s: set<string>, m: string)
  {
    m in s && forall x :: x in s ==> x == m || StrLt(m, x)
  }

  lemma {:induction false} LeastExists(s: set<string>)
    requires s != {}
    ensures exists m :: IsLeast(s, m)
    decreases |s|
  {
    if forall y :: y !in s { assert false; }
    var y :| y in s;
    if s != {y} {
      LeastExists(s - {y});
      var m :| IsLeast(s - {y}, m);
      StrLtTotal(y, m);
      if StrLt(y, m) {
        forall x | x in s ensures x == y || StrLt(y, x) {
          if x != y && x != m {
            assert x in s - {y};
            StrLtTransitive(y, m, x);
          }
        }
        assert IsLeast(s, y);
      } else {
        forall x | x in s ensures x == m || StrLt(m, x) {
          if x != y { assert x in s - {y}; }
        }
        assert IsLeast(s, m);
      }
    } else {
      assert IsLeast(s, y);
    }
  }

  lemma LeastUnique(s: set<string>)
    ensures forall a, b :: IsLeast(s, a) && IsLeast(s, b) ==> a == b
  {
    forall a, b | IsLeast(s, a) && IsLeast(s, b) ensures a == b {
      if a != b {
        assert StrLt(a, b) && StrLt(b, a);
        StrLtTransitive(a, b, a);
        StrLtIrreflexive(a);
      }
    }
  }

  function Least(s: set<string>): (m: string)
    requires s != {}
    ensures IsLeast(s, m)
  {
    LeastExists(s);
    LeastUnique(s);
    var m :| IsLeast(s, m);
    m
  }

  function Min(a: int, b: int): int { if a <= b then a else b }

  /** `ORDER BY name ASC LIMIT n` over the names in `s`. */
  function TakeSmallest(s: set<string>, n: nat): (r: seq<string>)
    ensures |r| == Min(n, |s|)
    ensures forall i :: 0 <= i < |r| ==> r[i] in s
    ensures forall i, j :: 0 <= i < j < |r| ==> StrLt(r[i], r[j])
    ensures forall x, i :: x in s && x !in r && 0 <= i < |r| ==> StrLt(r[i], x)
    decreases n
  {
    if n == 0 || s == {} then []
    else
      var m := Least(s);
      var rest := TakeSmallest(s - {m}, n - 1);
      var r := [m] + rest;
      assert forall i :: 0 <= i < |rest| ==> StrLt(m, rest[i]);
      assert forall x, i :: x in s && x !in r && 0 <= i < |r| ==> StrLt(r[i], x) by {
        forall x, i | x in s && x !in r && 0 <= i < |r| ensures StrLt(r[i], x) {
          if i > 0 { assert r[i] == rest[i - 1]; }
        }
      }
      r
  }

  datatype ListedOption = ListedOption(key: string, value: Value, autoload: bool)

  datatype OptionList = OptionList(options: seq<ListedOption>, count: nat)

  /** The rows the query selects: all of them, or with a truthy prefix those whose
      name matches `LIKE 'prefix%'` (an `_` in the prefix matches any character). */
  function Selected(table: OptionTable, prefix: string): set<string>
  {
    set k | k in table && (FalsyString(prefix) || LikePrefix(prefix, k))
  }

  /** One listed entry per name, in the order given. */
  function Rows(table: OptionTable, names: seq<string>): (o: seq<ListedOption>)
    requires forall x :: x in names ==> x in table
    ensures |o| == |names|
    ensures forall i :: 0 <= i < |o| ==>
              o[i] == ListedOption(names[i], table[names[i]].value, table[names[i]].autoload == "yes")
  {
    if names == [] then []
    else [ListedOption(names[0], table[names[0]].value, table[names[0]].autoload == "yes")] + Rows(table, names[1..])
  }

  /** `list_options`: the selected rows in ascending name order, at most
      `absint(per_page)` of them, the smallest names first; each entry reports its
      value and whether its autoload flag is 'yes'. */
  function ListOptions(table: OptionTable, prefixParam: string, perPageParam: int): (r: OptionList)
    ensures var sel := Selected(table, SanitizeKey(prefixParam));
            && r.count == |r.options| == Min(AbsInt(perPageParam), |sel|)
            && (forall i :: 0 <= i < |r.options| ==>
                  var o := r.options[i];
                  && o.key in sel
                  && o.value == table[o.key].value
                  && (o.autoload <==> table[o.key].autoload == "yes"))
            && (forall i, j :: 0 <= i < j < |r.options| ==> StrLt(r.options[i].key, r.options[j].key))
            && (forall x, i :: x in sel && 0 <= i < |r.options| && (forall j :: 0 <= j < |r.options| ==> r.options[j].key != x)
                  ==> StrLt(r.options[i].key, x))
  {
    var sel := Selected(table, SanitizeKey(prefixParam));
    var names := TakeSmallest(sel, AbsInt(perPageParam));
    var options := Rows(table, names);
    assert forall j :: 0 <= j < |names| ==> names[j] == options[j].key;
    forall x, i | x in sel && 0 <= i < |options| && (forall j :: 0 <= j < |options| ==> options[j].key != x)
      ensures StrLt(options[i].key, x)
    {
      assert x !in names;
    }
    OptionList(options, |options|)
  }

  /** With a truthy prefix every listed name matches it; with an empty or "0" prefix
      nothing is filtered. */
  lemma ListedNamesMatch(table: OptionTable, prefixParam: string, perPageParam: int)
    ensures var prefix := SanitizeKey(prefixParam);
            var r := ListOptions(table, prefixParam, perPageParam);
            && (!FalsyString(prefix) ==> forall i :: 0 <= i < |r.options| ==> LikePrefix(prefix, r.options[i].key))
            && (FalsyString(prefix) ==> Selected(table, prefix) == table.Keys)
  {
  }
}
