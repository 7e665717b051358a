/** Sidebar and widget bookkeeping of the widgets endpoint.

    The host keeps two kinds of state that these routes read, change and write back:
    the `sidebars_widgets` table (sidebar id -> ordered list of widget ids such as
    `text-2`) and one `widget_<type>` option per widget type (instance number ->
    settings). Each route copies them into a local PHP array, changes the copy and
    writes it back; the methods below take the state as a value and return the new one. */
module Widgets {
  import opened Envelope
  import opened PhpArray
  import opened PhpString

  type Settings = map<string, Value>

  /** The option `widget_<type>`: numbered instances, plus the keys that are not
      numeric (such as `_multiwidget`), which the instance numbering ignores. */
  datatype Instances = Instances(numbered: map<int, Settings>, other: map<string, Value>)

  /** One entry of the widget factory. */
  datatype WidgetType = WidgetType(idBase: string, name: string)

  /** `sidebars_widgets`: sidebar ids in table order, each with its ordered widget ids. */
  type SidebarTable = Assoc<string, seq<string>>

  /** Everything the widget routes read or write. `options` is keyed by widget type:
      the entry for `t` is the option `widget_t`. */
  datatype WidgetSite = WidgetSite(
    registered: set<string>,
    factory: seq<WidgetType>,
    sidebars: SidebarTable,
    options: map<string, Instances>)

  /** A parsed widget id `type-N`. */
  datatype WidgetRef = WidgetRef(idBase: string, number: nat)

  /** What `get_widget_data` returns. */
  datatype WidgetData = WidgetData(id: string, idBase: string, name: string, settings: Settings)

  /** What `get_widget` returns: the widget data and the first sidebar listing it. */
  datatype WidgetView = WidgetView(widget: WidgetData, sidebarId: Option<string>)

  /** What `move_widget` returns. */
  datatype Moved = Moved(widgetId: string, fromSidebar: string, toSidebar: string)

  // ------------------------------------------------------------ widget ids

  /** The pattern `^(.+)-(\d+)$` matches `id` with its `-` at index `i`. */
  ghost predicate SplitsAt(id: string, i: int)
  {
    1 <= i < |id| - 1 && id[i] == '-' && AllDigits(id[i + 1..])
  }

  /** No `-` follows the split point: the tail after it is all digits. */
  lemma DigitsAfterSplit(id: string, i: int, k: int)
    requires 0 <= i < k < |id| && AllDigits(id[i + 1..])
    ensures IsDigit(id[k]) && id[k] != '-'
  {
    assert id[k] == id[i + 1..][k - i - 1];
  }

  /** At most one index can serve as the split, so the greedy `(.+)` makes no choice. */
  lemma SplitUnique(id: string, i: int, j: int)
    requires SplitsAt(id, i) && SplitsAt(id, j)
    ensures i == j
  {
    if i < j {
      DigitsAfterSplit(id, i, j);
    } else if j < i {
      DigitsAfterSplit(id, j, i);
    }
  }

  function LastIndexOf(s: string, c: char): (r: Option<nat>)
    ensures r.Some? ==> r.value < |s| && s[r.value] == c && forall j :: r.value < j < |s| ==> s[j] != c
    ensures r.None? ==> forall j :: 0 <= j < |s| ==> s[j] != c
  {
    if s == [] then None
    else if s[|s| - 1] == c then Some(|s| - 1)
    else LastIndexOf(s[..|s| - 1], c)
  }

  /** `preg_match('/^(.+)-(\d+)$/', $id)` followed by `(int) $matches[2]`, which
      saturates at `PHP_INT_MAX`. */
  function ParseWidgetId(id: string): (r: Option<WidgetRef>)
    ensures r.None? <==> forall i :: !SplitsAt(id, i)
    ensures forall i :: SplitsAt(id, i) ==> r == Some(WidgetRef(id[..i], DigitsToInt(id[i + 1..])))
  {
    match LastIndexOf(id, '-')
    case None => None
    case Some(i) =>
      if 1 <= i && i + 1 < |id| && AllDigits(id[i + 1..]) then
        assert SplitsAt(id, i);
        Some(WidgetRef(id[..i], DigitsToInt(id[i + 1..])))
      else
        assert forall j :: !SplitsAt(id, j) by {
          forall j | SplitsAt(id, j) ensures false {
            if j < i { DigitsAfterSplit(id, j, i); }
          }
        }
        None
  }

  /** `$widget_type . '-' . $next_number`. */
  function FormatWidgetId(idBase: string, n: int): string
  {
    idBase + "-" + IntToString(n)
  }

  /** Formatting a non-empty type and a number PHP's integers can hold, then
      parsing, gives both back. */
  lemma WidgetIdRoundTrip(idBase: string, n: nat)
    requires idBase != [] && n <= PhpIntMax
    ensures ParseWidgetId(FormatWidgetId(idBase, n)) == Some(WidgetRef(idBase, n))
  {
    var id := FormatWidgetId(idBase, n);
    var i := |idBase|;
    assert id[..i] == idBase;
    assert id[i + 1..] == NatToString(n);
    assert SplitsAt(id, i);
  }

  /** A number too large for PHP's integers parses as `PHP_INT_MAX`, so ids that
      differ only in such numbers name the same instance. */
  lemma ParseSaturates(idBase: string, digits: string)
    requires idBase != [] && digits != [] && AllDigits(digits) && DigitsValue(digits) > PhpIntMax
    ensures ParseWidgetId(idBase + "-" + digits) == Some(WidgetRef(idBase, PhpIntMax))
  {
    var id := idBase + "-" + digits;
    var i := |idBase|;
    assert id[..i] == idBase;
    assert id[i + 1..] == digits;
    assert SplitsAt(id, i);
  }

  /** An id with no `-`, or whose last `-` is not followed by digits only, does not parse. */
  lemma ParseRejects(id: string)
    ensures '-' !in id ==> ParseWidgetId(id).None?
    ensures |id| > 0 && id[|id| - 1] == '-' ==> ParseWidgetId(id).None?
  {
  }

  // ----------------------------------------------------- instance numbers

  lemma {:induction false} MaxExists(s: set<int>)
    requires s != {}
    ensures exists m :: m in s && forall x :: x in s ==> x <= m
    decreases |s|
  {
    if forall y :: y !in s { assert false; }
    var y :| y in s;
    if s != {y} {
      MaxExists(s - {y});
      var m :| m in s - {y} && forall x :: x in s - {y} ==> x <= m;
      if y > m {
        forall x | x in s ensures x <= y { if x != y { assert x in s - {y}; } }
      } else {
        forall x | x in s ensures x <= m { if x != y { assert x in s - {y}; } }
      }
    } else {
      assert forall x :: x in s ==> x <= y;
    }
  }

  /** `max()` of a non-empty set of instance numbers. */
  function MaxOf(s: set<int>): (m: int)
    requires s != {}
    ensures m in s && forall x :: x in s ==> x <= m
  {
    MaxExists(s);
    var m :| m in s && forall x :: x in s ==> x <= m;
    m
  }

  /** `empty($numbers) ? 1 : max($numbers) + 1` over the numeric keys of the option. */
  function NextInstanceNumber(inst: Instances): (n: int)
    ensures n !in inst.numbered
    ensures inst.numbered == map[] ==> n == 1
    ensures inst.numbered != map[] ==> n - 1 in inst.numbered && forall k :: k in inst.numbered ==> k < n
  {
    if inst.numbered == map[] then 1 else MaxOf(inst.numbered.Keys) + 1
  }

  /** `get_option('widget_' . $type, [])`. */
  function InstancesOf(options: map<string, Instances>, idBase: string): Instances
  {
    if idBase in options then options[idBase] else Instances(map[], map[])
  }

  /** The first factory entry whose `id_base` is `idBase` (the `foreach ... break` search). */
  function FindType(factory: seq<WidgetType>, idBase: string): (r: Option<WidgetType>)
    ensures r.None? <==> forall i :: 0 <= i < |factory| ==> factory[i].idBase != idBase
    ensures r.Some? ==> exists i :: 0 <= i < |factory| && factory[i] == r.value && r.value.idBase == idBase
                                    && forall j :: 0 <= j < i ==> factory[j].idBase != idBase
  {
    if factory == [] then None
    else if factory[0].idBase == idBase then Some(factory[0])
    else
      var r := FindType(factory[1..], idBase);
      assert r.Some? ==> exists i :: 0 <= i < |factory| && factory[i] == r.value && forall j :: 0 <= j < i ==> factory[j].idBase != idBase by {
        if r.Some? {
          var i :| 0 <= i < |factory| - 1 && factory[1..][i] == r.value && forall j :: 0 <= j < i ==> factory[1..][j].idBase != idBase;
          assert factory[i + 1] == r.value;
          assert forall j :: 0 <= j < i + 1 ==> factory[j].idBase != idBase by {
            forall j | 0 <= j < i + 1 ensures factory[j].idBase != idBase {
              if j > 0 { assert factory[j] == factory[1..][j - 1]; }
            }
          }
        }
      }
      r
  }

  /** `get_widget_data`: parse the id, look up the instance, and name it after the
      first factory widget of its type, or after the type itself when there is none. */
  function GetWidgetData(site: WidgetSite, id: string): (r: Option<WidgetData>)
    ensures ParseWidgetId(id).None? ==> r.None?
    ensures ParseWidgetId(id).Some? ==>
      var ref := ParseWidgetId(id).value;
      var inst := InstancesOf(site.options, ref.idBase);
      && (r.Some? <==> ref.number in inst.numbered)
      && (r.Some? ==> r.value.id == id && r.value.idBase == ref.idBase && r.value.settings == inst.numbered[ref.number])
      && (r.Some? ==> var w := FindType(site.factory, ref.idBase);
                      r.value.name == if w.Some? then w.value.name else ref.idBase)
  {
    match ParseWidgetId(id)
    case None => None
    case Some(ref) =>
      var inst := InstancesOf(site.options, ref.idBase);
      if ref.number !in inst.numbered then None
      else
        var name := match FindType(site.factory, ref.idBase)
          case Some(w) => w.name
          case None => ref.idBase;
        Some(WidgetData(id, ref.idBase, name, inst.numbered[ref.number]))
  }

  // ------------------------------------------------------ list operations

  function Min(a: int, b: int): int { if a <= b then a else b }

  /** Where the new id lands: `array_splice($list, $position, 0, ...)` for a position
      that is given and non-negative (clamped to the end), otherwise `$list[] = ...`. */
  function InsertIndex(len: nat, position: Option<int>): (k: nat)
    ensures k <= len
  {
    if position.Some? && position.value >= 0 then Min(position.value, len) else len
  }

  function InsertAt(s: seq<string>, position: Option<int>, x: string): (r: seq<string>)
    ensures |r| == |s| + 1
    ensures multiset(r) == multiset(s) + multiset{x}
    ensures r[InsertIndex(|s|, position)] == x
    ensures r[..InsertIndex(|s|, position)] == s[..InsertIndex(|s|, position)]
    ensures r[InsertIndex(|s|, position) + 1..] == s[InsertIndex(|s|, position)..]
  {
    var k := InsertIndex(|s|, position);
    assert s == s[..k] + s[k..];
    s[..k] + [x] + s[k..]
  }

  /** `array_search`: the index of the first occurrence of `x`. */
  function IndexOf(s: seq<string>, x: string): (i: nat)
    requires x in s
    ensures i < |s| && s[i] == x && x !in s[..i]
  {
    if s[0] == x then 0
    else
      var i := IndexOf(s[1..], x);
      assert s[..i + 1] == [s[0]] + s[1..][..i];
      i + 1
  }

  /** `array_search` + `unset` + `array_values`: drop the first occurrence of `x`. */
  function RemoveFirst(s: seq<string>, x: string): (r: seq<string>)
    ensures x !in s ==> r == s
    ensures x in s ==> |r| == |s| - 1 && multiset(r) == multiset(s) - multiset{x}
    ensures x in s ==> r == s[..IndexOf(s, x)] + s[IndexOf(s, x) + 1..]
  {
    if x !in s then s
    else
      var i := IndexOf(s, x);
      assert s == s[..i] + [s[i]] + s[i + 1..];
      s[..i] + s[i + 1..]
  }

  /** `$sidebars_widgets[$id] ?? []`. */
  function ListOf(t: SidebarTable, sid: string): seq<string>
  {
    if sid in t.vals then t.vals[sid] else []
  }

  /** The index, in table order, of the first sidebar whose list contains `id`. */
  function FirstSidebarIndex(keys: seq<string>, vals: map<string, seq<string>>, id: string): (r: Option<nat>)
    requires forall k :: k in keys ==> k in vals
    ensures r.None? <==> forall i :: 0 <= i < |keys| ==> id !in vals[keys[i]]
    ensures r.Some? ==> r.value < |keys| && id in vals[keys[r.value]]
                        && forall j :: 0 <= j < r.value ==> id !in vals[keys[j]]
  {
    if keys == [] then None
    else if id in vals[keys[0]] then Some(0)
    else
      match FirstSidebarIndex(keys[1..], vals, id)
      case None =>
        assert forall i :: 0 <= i < |keys| ==> id !in vals[keys[i]] by {
          forall i | 0 <= i < |keys| ensures id !in vals[keys[i]] {
            if i > 0 { assert keys[i] == keys[1..][i - 1]; }
          }
        }
        None
      case Some(i) =>
        assert forall j :: 0 <= j < i + 1 ==> id !in vals[keys[j]] by {
          forall j | 0 <= j < i + 1 ensures id !in vals[keys[j]] {
            if j > 0 { assert keys[j] == keys[1..][j - 1]; }
          }
        }
        Some(i + 1)
  }

  /** The sidebar `get_widget` reports and `move_widget` takes the widget from. */
  function FirstSidebarWith(t: SidebarTable, id: string): (r: Option<string>)
    requires t.Valid()
    ensures r.None? <==> forall k :: k in t.vals ==> id !in t.vals[k]
    ensures r.Some? ==> r.value in t.vals && id in t.vals[r.value]
  {
    match FirstSidebarIndex(t.keys, t.vals, id)
    case None =>
      assert forall k :: k in t.vals ==> id !in t.vals[k] by {
        forall k | k in t.vals ensures id !in t.vals[k] {
          var i :| 0 <= i < |t.keys| && t.keys[i] == k;
        }
      }
      None
    case Some(i) => Some(t.keys[i])
  }

  // --------------------------------------------------------- table updates

  /** `delete_widget`'s loop: drop the first occurrence of `id` from every list. */
  function RemoveEverywhere(t: SidebarTable, id: string): (r: SidebarTable)
    requires t.Valid()
    ensures r.Valid() && r.keys == t.keys
    ensures forall k :: k in t.vals ==> r.vals[k] == RemoveFirst(t.vals[k], id)
  {
    Assoc(t.keys, map k | k in t.vals :: RemoveFirst(t.vals[k], id))
  }

  /** Create the target list if it is missing, then insert `id` into it. */
  function InsertInto(t: SidebarTable, target: string, position: Option<int>, id: string): (r: SidebarTable)
    requires t.Valid()
    ensures r.Valid()
    ensures r.vals == t.vals[target := InsertAt(ListOf(t, target), position, id)]
    ensures r.keys == if target in t.vals then t.keys else t.keys + [target]
  {
    var t1 := if target in t.vals then t else t.Put(target, []);
    t1.Put(target, InsertAt(ListOf(t, target), position, id))
  }

  /** `move_widget`'s table update: take `id` out of the first sidebar listing it,
      then insert it into the target. */
  function MovedTable(t: SidebarTable, id: string, target: string, position: Option<int>): (r: SidebarTable)
    requires t.Valid() && FirstSidebarWith(t, id).Some?
    ensures r.Valid()
  {
    var src := FirstSidebarWith(t, id).value;
    InsertInto(t.Put(src, RemoveFirst(t.vals[src], id)), target, position, id)
  }

  /** Drop instance `ref.number` from the option of `ref.idBase`, if it is there. */
  function DropInstance(options: map<string, Instances>, ref: WidgetRef): (r: map<string, Instances>)
    ensures ref.idBase in options && ref.number in options[ref.idBase].numbered ==>
      r == options[ref.idBase := options[ref.idBase].(numbered := options[ref.idBase].numbered - {ref.number})]
    ensures !(ref.idBase in options && ref.number in options[ref.idBase].numbered) ==> r == options
  {
    if ref.idBase in options && ref.number in options[ref.idBase].numbered then
      var inst := options[ref.idBase];
      options[ref.idBase := inst.(numbered := inst.numbered - {ref.number})]
    else options
  }

  /** `array_merge($old, $new)` on string-keyed settings: the given keys take their
      new values, every other key keeps its old one. */
  function MergeSettings(current: Settings, given: Settings): (r: Settings)
    ensures r.Keys == current.Keys + given.Keys
    ensures forall k :: k in given ==> r[k] == given[k]
    ensures forall k :: k in current && k !in given ==> r[k] == current[k]
  {
    current + given
  }

  // ------------------------------------------------------- entry counting

  /** Number of widget entries over the listed sidebars. */
  function SumLens(keys: seq<string>, vals: map<string, seq<string>>): nat
    requires forall k :: k in keys ==> k in vals
  {
    if keys == [] then 0 else |vals[keys[0]]| + SumLens(keys[1..], vals)
  }

  function TotalEntries(t: SidebarTable): nat
    requires t.Valid()
  {
    SumLens(t.keys, t.vals)
  }

  lemma {:induction false} SumLensUpdate(keys: seq<string>, vals: map<string, seq<string>>, k: string, v: seq<string>)
    requires forall x :: x in keys ==> x in vals
    requires forall i, j :: 0 <= i < j < |keys| ==> keys[i] != keys[j]
    ensures k in keys ==> SumLens(keys, vals[k := v]) == SumLens(keys, vals) - |vals[k]| + |v|
    ensures k !in keys ==> SumLens(keys, vals[k := v]) == SumLens(keys, vals)
  {
    if keys != [] {
      SumLensUpdate(keys[1..], vals, k, v);
      if keys[0] == k {
        assert k !in keys[1..] by {
          forall i | 0 <= i < |keys| - 1 ensures keys[1..][i] != k { assert keys[1..][i] == keys[i + 1]; }
        }
      }
    }
  }

  lemma {:induction false} SumLensAppend(keys: seq<string>, vals: map<string, seq<string>>, k: string)
    requires forall x :: x in keys ==> x in vals
    requires k in vals
    ensures SumLens(keys + [k], vals) == SumLens(keys, vals) + |vals[k]|
  {
    if keys != [] {
      assert (keys + [k])[1..] == keys[1..] + [k];
      SumLensAppend(keys[1..], vals, k);
    }
  }

  /** Inserting one id, into an existing or a new sidebar, adds exactly one entry. */
  lemma InsertIntoAddsOne(t: SidebarTable, target: string, position: Option<int>, id: string)
    requires t.Valid()
    ensures TotalEntries(InsertInto(t, target, position, id)) == TotalEntries(t) + 1
  {
    var v := InsertAt(ListOf(t, target), position, id);
    var r := InsertInto(t, target, position, id);
    if target in t.vals {
      SumLensUpdate(t.keys, t.vals, target, v);
    } else {
      SumLensUpdate(t.keys, t.vals, target, v);
      SumLensAppend(t.keys, t.vals[target := v], target);
    }
  }

  /** Moving a widget neither creates nor loses an entry. */
  lemma MovePreservesTotal(t: SidebarTable, id: string, target: string, position: Option<int>)
    requires t.Valid() && FirstSidebarWith(t, id).Some?
    ensures TotalEntries(MovedTable(t, id, target, position)) == TotalEntries(t)
  {
    var src := FirstSidebarWith(t, id).value;
    var t1 := t.Put(src, RemoveFirst(t.vals[src], id));
    SumLensUpdate(t.keys, t.vals, src, RemoveFirst(t.vals[src], id));
    InsertIntoAddsOne(t1, target, position, id);
  }

  /** After a move, the target lists the id at the requested place; a sidebar that is
      neither the source nor the target is untouched. */
  lemma MoveEffect(t: SidebarTable, id: string, target: string, position: Option<int>)
    requires t.Valid() && FirstSidebarWith(t, id).Some?
    ensures var r := MovedTable(t, id, target, position);
            var src := FirstSidebarWith(t, id).value;
            var before := if target == src then RemoveFirst(t.vals[src], id) else ListOf(t, target);
            && r.vals[target] == InsertAt(before, position, id)
            && r.vals[target][InsertIndex(|before|, position)] == id
            && (src != target ==> r.vals[src] == RemoveFirst(t.vals[src], id))
            && (forall k :: k in t.vals && k != src && k != target ==> r.vals[k] == t.vals[k])
  {
    var src := FirstSidebarWith(t, id).value;
    var t1 := t.Put(src, RemoveFirst(t.vals[src], id));
    var before := if target == src then RemoveFirst(t.vals[src], id) else ListOf(t, target);
    assert ListOf(t1, target) == before;
    var r := InsertInto(t1, target, position, id);
    assert r == MovedTable(t, id, target, position);
    assert r.vals == t1.vals[target := InsertAt(before, position, id)];
  }

  /** Deleting drops exactly one entry from each sidebar that listed the id, and
      leaves every other sidebar as it was. */
  lemma RemoveEverywhereEffect(t: SidebarTable, id: string)
    requires t.Valid()
    ensures var r := RemoveEverywhere(t, id);
            forall k :: k in t.vals ==>
              && (id in t.vals[k] ==> |r.vals[k]| == |t.vals[k]| - 1
                                      && multiset(r.vals[k]) == multiset(t.vals[k]) - multiset{id})
              && (id !in t.vals[k] ==> r.vals[k] == t.vals[k])
  {
  }

  // ------------------------------------------------------------- the routes

  /** `get_widget`: 404 unless the id parses to an existing instance; otherwise the
      widget data and the first sidebar (in table order) whose list holds the id. */
  method GetWidget(site: WidgetSite, widgetId: string) returns (r: Response<WidgetView>)
    requires site.sidebars.Valid()
    ensures GetWidgetData(site, widgetId).None? <==> r == Err("not_found", NotFound)
    ensures GetWidgetData(site, widgetId).Some? ==> r.Ok?
    ensures r.Ok? ==> r.data == WidgetView(GetWidgetData(site, widgetId).value, FirstSidebarWith(site.sidebars, widgetId))
  {
    var data := GetWidgetData(site, widgetId);
    if data.None? {
      return Err("not_found", NotFound);
    }
    var keys, vals := site.sidebars.keys, site.sidebars.vals;
    var sidebarId: Option<string> := None;
    var i := 0;
    while i < |keys|
      invariant 0 <= i <= |keys|
      invariant forall j :: 0 <= j < i ==> widgetId !in vals[keys[j]]
    {
      if widgetId in vals[keys[i]] {
        sidebarId := Some(keys[i]);
        break;
      }
      i := i + 1;
    }
    r := Ok(WidgetView(data.value, sidebarId));
  }

  /** `add_widget`: both parameters go through `sanitize_key`; then 404 for an
      unregistered sidebar, then 400 for an unknown type;
      otherwise store the settings under the next instance number and insert
      `type-N` into the sidebar's list. */
  method AddWidget(site: WidgetSite, sidebarParam: string, typeParam: string, settings: Option<Settings>, position: Option<int>)
    returns (r: Response<string>, site': WidgetSite)
    requires site.sidebars.Valid()
    ensures site'.sidebars.Valid()
    ensures var sidebarId := SanitizeKey(sidebarParam);
      sidebarId !in site.registered ==> r == Err("not_found", NotFound) && site' == site
    ensures var sidebarId, widgetType := SanitizeKey(sidebarParam), SanitizeKey(typeParam);
      sidebarId in site.registered && FindType(site.factory, widgetType).None? ==>
      r == Err("invalid_type", BadRequest) && site' == site
    ensures var sidebarId, widgetType := SanitizeKey(sidebarParam), SanitizeKey(typeParam);
      sidebarId in site.registered && FindType(site.factory, widgetType).Some? ==>
      var inst := InstancesOf(site.options, widgetType);
      var n := NextInstanceNumber(inst);
      var id := FormatWidgetId(widgetType, n);
      var stored := if settings.Some? then settings.value else map[];
      && r == Ok(id)
      && site'.options == site.options[widgetType := inst.(numbered := inst.numbered[n := stored])]
      && site'.sidebars == InsertInto(site.sidebars, sidebarId, position, id)
      && site'.registered == site.registered && site'.factory == site.factory
  {
    var sidebarId := SanitizeKey(sidebarParam);
    var widgetType := SanitizeKey(typeParam);
    if sidebarId !in site.registered {
      return Err("not_found", NotFound), site;
    }
    var widgetClass := FindType(site.factory, widgetType);
    if widgetClass.None? {
      return Err("invalid_type", BadRequest), site;
    }
    var instances := InstancesOf(site.options, widgetType);
    var nextNumber := NextInstanceNumber(instances);
    instances := instances.(numbered := instances.numbered[nextNumber := if settings.Some? then settings.value else map[]]);
    var options := site.options[widgetType := instances];

    var widgetId := FormatWidgetId(widgetType, nextNumber);
    var sidebars := site.sidebars;
    if sidebarId !in sidebars.vals {
      sidebars := sidebars.Put(sidebarId, []);
    }
    sidebars := sidebars.Put(sidebarId, InsertAt(sidebars.vals[sidebarId], position, widgetId));
    r := Ok(widgetId);
    site' := site.(sidebars := sidebars, options := options);
  }

  /** `update_widget`: 400 for an id that does not parse, 404 for a missing instance;
      otherwise merge the given settings (when they are an array) into the instance. */
  method UpdateWidget(site: WidgetSite, widgetId: string, settings: Option<Settings>)
    returns (r: Response<string>, site': WidgetSite)
    ensures ParseWidgetId(widgetId).None? ==> r == Err("invalid_format", BadRequest) && site' == site
    ensures ParseWidgetId(widgetId).Some? ==>
      var ref := ParseWidgetId(widgetId).value;
      var inst := InstancesOf(site.options, ref.idBase);
      && (ref.number !in inst.numbered ==> r == Err("not_found", NotFound) && site' == site)
      && (ref.number in inst.numbered ==>
            && r == Ok(widgetId)
            && site' == if settings.None? then site
                        else site.(options := site.options[ref.idBase :=
                               inst.(numbered := inst.numbered[ref.number := MergeSettings(inst.numbered[ref.number], settings.value)])]))
  {
    var parsed := ParseWidgetId(widgetId);
    if parsed.None? {
      return Err("invalid_format", BadRequest), site;
    }
    var ref := parsed.value;
    var instances := InstancesOf(site.options, ref.idBase);
    if ref.number !in instances.numbered {
      return Err("not_found", NotFound), site;
    }
    site' := site;
    if settings.Some? {
      instances := instances.(numbered := instances.numbered[ref.number := MergeSettings(instances.numbered[ref.number], settings.value)]);
      site' := site.(options := site.options[ref.idBase := instances]);
    }
    r := Ok(widgetId);
  }

  /** `delete_widget`: 400 for an id that does not parse; 404 with nothing changed
      when no sidebar lists it; otherwise drop its first occurrence from every
      sidebar and drop its instance if the option holds it. */
  method DeleteWidget(site: WidgetSite, widgetId: string) returns (r: Response<string>, site': WidgetSite)
    requires site.sidebars.Valid()
    ensures site'.sidebars.Valid()
    ensures ParseWidgetId(widgetId).None? ==> r == Err("invalid_format", BadRequest) && site' == site
    ensures ParseWidgetId(widgetId).Some? && FirstSidebarWith(site.sidebars, widgetId).None? ==>
      r == Err("not_found", NotFound) && site' == site
    ensures ParseWidgetId(widgetId).Some? && FirstSidebarWith(site.sidebars, widgetId).Some? ==>
      && r == Ok(widgetId)
      && site' == site.(sidebars := RemoveEverywhere(site.sidebars, widgetId),
                        options := DropInstance(site.options, ParseWidgetId(widgetId).value))
  {
    var parsed := ParseWidgetId(widgetId);
    if parsed.None? {
      return Err("invalid_format", BadRequest), site;
    }
    var lists, found := RemoveFromSidebars(site.sidebars, widgetId);
    if !found {
      return Err("not_found", NotFound), site;
    }
    r := Ok(widgetId);
    site' := site.(sidebars := Assoc(site.sidebars.keys, lists), options := DropInstance(site.options, parsed.value));
  }

  /** `delete_widget`'s loop over the sidebars: drop the first occurrence of `id` from
      each list, noting whether any list held it. */
  method RemoveFromSidebars(t: SidebarTable, id: string) returns (lists: map<string, seq<string>>, found: bool)
    requires t.Valid()
    ensures lists == RemoveEverywhere(t, id).vals
    ensures found <==> exists k :: k in t.vals && id in t.vals[k]
  {
    lists := t.vals;
    found := false;
    var i := 0;
    while i < |t.keys|
      invariant 0 <= i <= |t.keys|
      invariant RemovedUpTo(t, id, i, lists, found)
    {
      var sid := t.keys[i];
      ghost var listsBefore, foundBefore := lists, found;
      if id in lists[sid] {
        lists := lists[sid := RemoveFirst(lists[sid], id)];
        found := true;
      }
      RemoveStep(t, id, i, listsBefore, foundBefore, lists, found);
      i := i + 1;
    }
    RemovedFromAll(t, id, lists, found);
  }

  /** The loop's state after the first `i` sidebars in table order. */
  ghost predicate RemovedUpTo(t: SidebarTable, id: string, i: nat, lists: map<string, seq<string>>, found: bool)
    requires t.Valid() && i <= |t.keys|
  {
    && lists.Keys == t.vals.Keys
    && (forall j :: 0 <= j < i ==> lists[t.keys[j]] == RemoveFirst(t.vals[t.keys[j]], id))
    && (forall j :: i <= j < |t.keys| ==> lists[t.keys[j]] == t.vals[t.keys[j]])
    && (found <==> exists j :: 0 <= j < i && id in t.vals[t.keys[j]])
  }

  /** One more sidebar. */
  lemma RemoveStep(t: SidebarTable, id: string, i: nat, lists: map<string, seq<string>>, found: bool,
                   lists': map<string, seq<string>>, found': bool)
    requires t.Valid() && i < |t.keys|
    requires RemovedUpTo(t, id, i, lists, found)
    requires var sid := t.keys[i];
             && (id in lists[sid] ==> lists' == lists[sid := RemoveFirst(lists[sid], id)] && found')
             && (id !in lists[sid] ==> lists' == lists && found' == found)
    ensures RemovedUpTo(t, id, i + 1, lists', found')
  {
    var sid := t.keys[i];
    assert lists[sid] == t.vals[sid];
    if id !in lists[sid] {
      assert RemoveFirst(t.vals[sid], id) == t.vals[sid];
    }
    forall j | 0 <= j < |t.keys| && j != i ensures lists'[t.keys[j]] == lists[t.keys[j]] {
      assert t.keys[j] != sid;
    }
  }

  /** Once the loop has visited every sidebar in table order, it has visited every
      sidebar. */
  lemma RemovedFromAll(t: SidebarTable, id: string, lists: map<string, seq<string>>, found: bool)
    requires t.Valid()
    requires RemovedUpTo(t, id, |t.keys|, lists, found)
    ensures lists == RemoveEverywhere(t, id).vals
    ensures found <==> exists k :: k in t.vals && id in t.vals[k]
  {
    forall k | k in t.vals ensures lists[k] == RemoveFirst(t.vals[k], id) && (id in t.vals[k] ==> found) {
      var j :| 0 <= j < |t.keys| && t.keys[j] == k;
    }
  }

  /** `move_widget`'s search: the first sidebar whose list holds the id loses its
      first copy of it, and the search stops there; `source` names that sidebar. */
  method TakeFromFirstSidebar(t: SidebarTable, id: string) returns (t': SidebarTable, source: Option<string>)
    requires t.Valid()
    ensures t'.Valid()
    ensures source == FirstSidebarWith(t, id)
    ensures source.None? ==> t' == t
    ensures source.Some? ==> t' == t.Put(source.value, RemoveFirst(t.vals[source.value], id))
  {
    var keys := t.keys;
    t', source := t, None;
    var i := 0;
    while i < |keys|
      invariant 0 <= i <= |keys|
      invariant forall j :: 0 <= j < i ==> id !in t.vals[keys[j]]
    {
      var sid := keys[i];
      if id in t.vals[sid] {
        assert FirstSidebarIndex(keys, t.vals, id) == Some(i);
        t' := t.Put(sid, RemoveFirst(t.vals[sid], id));
        source := Some(sid);
        return;
      }
      i := i + 1;
    }
    assert FirstSidebarIndex(keys, t.vals, id).None?;
  }

  /** `move_widget`: the target goes through `sanitize_key`; then 404 for an
      unregistered target, then 404 when no sidebar lists
      the id; otherwise take it out of the first sidebar listing it and insert it
      into the target (creating the target's list if needed). */
  method MoveWidget(site: WidgetSite, widgetId: string, targetParam: string, position: Option<int>)
    returns (r: Response<Moved>, site': WidgetSite)
    requires site.sidebars.Valid()
    ensures site'.sidebars.Valid()
    ensures SanitizeKey(targetParam) !in site.registered ==> r == Err("not_found", NotFound) && site' == site
    ensures SanitizeKey(targetParam) in site.registered && FirstSidebarWith(site.sidebars, widgetId).None? ==>
      r == Err("not_found", NotFound) && site' == site
    ensures var target := SanitizeKey(targetParam);
      target in site.registered && FirstSidebarWith(site.sidebars, widgetId).Some? ==>
      && r == Ok(Moved(widgetId, FirstSidebarWith(site.sidebars, widgetId).value, target))
      && site' == site.(sidebars := MovedTable(site.sidebars, widgetId, target, position))
  {
    var target := SanitizeKey(targetParam);
    if target !in site.registered {
      return Err("not_found", NotFound), site;
    }
    var sidebars, source := TakeFromFirstSidebar(site.sidebars, widgetId);
    if source.None? {
      return Err("not_found", NotFound), site;
    }
    if target !in sidebars.vals {
      sidebars := sidebars.Put(target, []);
    }
    sidebars := sidebars.Put(target, InsertAt(sidebars.vals[target], position, widgetId));
    r := Ok(Moved(widgetId, source.value, target));
    site' := site.(sidebars := sidebars);
  }

  /** `reorder_widgets`: the sidebar id goes through `sanitize_key`; then 404 for an
      unregistered sidebar; 400 if some requested id is
      not in the sidebar's current list; otherwise the list becomes the request. */
  method ReorderWidgets(site: WidgetSite, sidebarParam: string, widgetIds: seq<string>)
    returns (r: Response<seq<string>>, site': WidgetSite)
    requires site.sidebars.Valid()
    ensures site'.sidebars.Valid()
    ensures SanitizeKey(sidebarParam) !in site.registered ==> r == Err("not_found", NotFound) && site' == site
    ensures var sidebarId := SanitizeKey(sidebarParam);
      sidebarId in site.registered ==>
      && (r.Err? <==> exists i :: 0 <= i < |widgetIds| && widgetIds[i] !in ListOf(site.sidebars, sidebarId))
      && (r.Err? ==> r == Err("invalid_widget", BadRequest) && site' == site)
      && (r.Ok? ==> r.data == widgetIds && site' == site.(sidebars := site.sidebars.Put(sidebarId, widgetIds)))
  {
    var sidebarId := SanitizeKey(sidebarParam);
    if sidebarId !in site.registered {
      return Err("not_found", NotFound), site;
    }
    var current := ListOf(site.sidebars, sidebarId);
    var i := 0;
    while i < |widgetIds|
      invariant 0 <= i <= |widgetIds|
      invariant forall j :: 0 <= j < i ==> widgetIds[j] in current
    {
      if widgetIds[i] !in current {
        return Err("invalid_widget", BadRequest), site;
      }
      i := i + 1;
    }
    r := Ok(widgetIds);
    site' := site.(sidebars := site.sidebars.Put(sidebarId, widgetIds));
  }

  /** A successful reorder only rearranges, repeats or drops ids the sidebar already
      listed, and no other sidebar changes. */
  lemma ReorderedListWasPresent(t: SidebarTable, sidebarId: string, widgetIds: seq<string>)
    requires t.Valid()
    requires forall i :: 0 <= i < |widgetIds| ==> widgetIds[i] in ListOf(t, sidebarId)
    ensures var r := t.Put(sidebarId, widgetIds);
            && (forall x :: x in r.vals[sidebarId] ==> x in ListOf(t, sidebarId))
            && (forall k :: k in t.vals && k != sidebarId ==> r.vals[k] == t.vals[k])
  {
  }
}
