/** The navigation-menu routes: the location map (theme location to menu id) seen
    from both sides, the validated assignment of a menu to a location, and the item
    data handed to `wp_update_nav_menu_item` when an item is added or updated.

    The theme mod `nav_menu_locations` is a PHP array from location slug to menu
    term id; the registered locations are an array from slug to description. The
    host call that stores a menu item is a parameter: its answer (the new item id or
    a WP_Error) is given, and the model states what data the route sends it. */
module Menus {
  import opened Envelope
  import opened PhpArray
  import opened PhpString
  import opened Request

  datatype Menu = Menu(termId: int, name: string, slug: string, count: nat)

  type Locations = Assoc<string, int>

  /** `wp_get_nav_menu_object($id)` finds a menu. */
  predicate MenuExists(menus: seq<Menu>, id: int)
  {
    exists m :: m in menus && m.termId == id
  }

  // ------------------------------------------------------------- location views

  /** `array_keys($locations, $id)`: the locations assigned to `id`, in the array's order. */
  function KeysWithValue(keys: seq<string>, vals: map<string, int>, id: int): (r: seq<string>)
    requires forall k :: k in keys ==> k in vals
    ensures forall l :: l in r <==> l in keys && vals[l] == id
    ensures |r| <= |keys|
  {
    if keys == [] then []
    else
      var rest := KeysWithValue(keys[..|keys| - 1], vals, id);
      var k := keys[|keys| - 1];
      assert forall l :: l in keys <==> l in keys[..|keys| - 1] || l == k;
      if vals[k] == id then rest + [k] else rest
  }

  /** Distinct keys give a list of distinct locations. */
  lemma {:induction false} KeysWithValueDistinct(keys: seq<string>, vals: map<string, int>, id: int)
    requires forall k :: k in keys ==> k in vals
    requires Distinct(keys)
    ensures Distinct(KeysWithValue(keys, vals, id))
  {
    if keys != [] {
      var init := keys[..|keys| - 1];
      var k := keys[|keys| - 1];
      KeysWithValueDistinct(init, vals, id);
      var rest := KeysWithValue(init, vals, id);
      assert k !in init by {
        forall i | 0 <= i < |init| ensures init[i] != k {
          assert keys[i] == init[i];
        }
      }
      assert k !in rest;
      var r := KeysWithValue(keys, vals, id);
      assert r == if vals[k] == id then rest + [k] else rest;
      if vals[k] == id {
        forall i, j | 0 <= i < j < |r| ensures r[i] != r[j] {
          if j == |rest| {
            assert r[j] == k && r[i] == rest[i] && rest[i] in rest;
          } else {
            assert r[i] == rest[i] && r[j] == rest[j];
          }
        }
      }
    }
  }

  function MenuLocations(locations: Locations, id: int): (r: seq<string>)
    requires locations.Valid()
    ensures forall l :: l in r <==> l in locations.vals && locations.vals[l] == id
    ensures Distinct(r)
  {
    KeysWithValueDistinct(locations.keys, locations.vals, id);
    KeysWithValue(locations.keys, locations.vals, id)
  }

  datatype MenuSummary = MenuSummary(id: int, name: string, slug: string, count: nat, locations: seq<string>)

  /** `list_menus`: every menu, in order, with the locations assigned to it. */
  function ListMenus(menus: seq<Menu>, locations: Locations): (r: seq<MenuSummary>)
    requires locations.Valid()
    ensures |r| == |menus|
    ensures forall i :: 0 <= i < |menus| ==>
      && r[i].id == menus[i].termId && r[i].name == menus[i].name
      && r[i].slug == menus[i].slug && r[i].count == menus[i].count
    ensures forall i, l :: 0 <= i < |menus| ==>
      (l in r[i].locations <==> l in locations.vals && locations.vals[l] == menus[i].termId)
    ensures forall i :: 0 <= i < |menus| ==> Distinct(r[i].locations)
  {
    seq(|menus|, i requires 0 <= i < |menus| =>
      var m := menus[i];
      MenuSummary(m.termId, m.name, m.slug, m.count, MenuLocations(locations, m.termId)))
  }

  datatype LocationEntry = LocationEntry(location: string, description: string, menuId: Option<int>)

  /** `get_locations`: one entry per registered location, in registration order, with
      its assigned menu id or null. */
  function GetLocations(registered: Assoc<string, string>, current: Locations): (r: seq<LocationEntry>)
    requires registered.Valid()
    ensures |r| == |registered.keys|
    ensures forall j :: 0 <= j < |r| ==>
      var l := registered.keys[j];
      && r[j].location == l && r[j].description == registered.vals[l]
      && (r[j].menuId.Some? <==> l in current.vals)
      && (r[j].menuId.Some? ==> r[j].menuId.value == current.vals[l])
  {
    seq(|registered.keys|, j requires 0 <= j < |registered.keys| =>
      var l := registered.keys[j];
      LocationEntry(l, registered.vals[l], if l in current.vals then Some(current.vals[l]) else None))
  }

  /** The two views agree: a registered location is listed under a menu exactly when
      `get_locations` reports that menu's id for it. */
  lemma ViewsAgree(menus: seq<Menu>, registered: Assoc<string, string>, locations: Locations, i: nat, j: nat)
    requires locations.Valid() && registered.Valid()
    requires i < |menus| && j < |registered.keys|
    ensures registered.keys[j] in ListMenus(menus, locations)[i].locations
        <==> GetLocations(registered, locations)[j].menuId == Some(menus[i].termId)
  {
    var l := registered.keys[j];
    var e := GetLocations(registered, locations)[j];
    assert e.location == l;
    if e.menuId == Some(menus[i].termId) {
      assert l in locations.vals && locations.vals[l] == menus[i].termId;
    }
  }

  /** Menus with distinct ids never share a location. */
  lemma LocationUnderOneMenu(menus: seq<Menu>, locations: Locations, i: nat, j: nat, l: string)
    requires locations.Valid()
    requires i < j < |menus| && menus[i].termId != menus[j].termId
    ensures !(l in ListMenus(menus, locations)[i].locations && l in ListMenus(menus, locations)[j].locations)
  {
    var r := ListMenus(menus, locations);
    if l in r[i].locations {
      assert locations.vals[l] == menus[i].termId;
    }
  }

  // ------------------------------------------------------------- assign_location

  datatype Assignment = Assignment(location: string, menuId: nat, wasAssigned: bool)

  /** `assign_location`: an unregistered location is refused with 400 before the menu
      is looked at; a positive id naming no menu is refused with 404; id 0 clears the
      location. On success only that location's entry changes. */
  method AssignLocation(menus: seq<Menu>, registered: Assoc<string, string>, locations: Locations,
                        menuIdParam: int, locationParam: string)
    returns (r: Response<Assignment>, locations': Locations)
    requires locations.Valid()
    ensures var loc := SanitizeKey(locationParam);
      loc !in registered.vals ==> r == Err("invalid_location", BadRequest) && locations' == locations
    ensures var loc := SanitizeKey(locationParam); var id := AbsInt(menuIdParam);
      loc in registered.vals && id > 0 && !MenuExists(menus, id) ==>
        r == Err("not_found", NotFound) && locations' == locations
    ensures var loc := SanitizeKey(locationParam); var id := AbsInt(menuIdParam);
      r.Ok? <==> loc in registered.vals && (id == 0 || MenuExists(menus, id))
    ensures r.Ok? ==> r.data == Assignment(SanitizeKey(locationParam), AbsInt(menuIdParam), true)
    ensures locations'.Valid()
    ensures r.Ok? ==> locations'.vals == locations.vals[SanitizeKey(locationParam) := AbsInt(menuIdParam)]
    ensures r.Ok? ==> locations'.keys == (if SanitizeKey(locationParam) in locations.vals then locations.keys
                                          else locations.keys + [SanitizeKey(locationParam)])
  {
    var menuId := AbsInt(menuIdParam);
    var location := SanitizeKey(locationParam);
    if location !in registered.vals {
      return Err("invalid_location", BadRequest), locations;
    }
    if menuId > 0 && !MenuExists(menus, menuId) {
      return Err("not_found", NotFound), locations;
    }
    locations' := locations.Put(location, menuId);
    r := Ok(Assignment(location, menuId, true));
  }

  /** After assigning `id` to `loc`, `loc` is listed under exactly the menus with that
      id, and every other location is listed where it was before. */
  lemma AssignmentListed(menus: seq<Menu>, locations: Locations, loc: string, id: int, i: nat, l: string)
    requires locations.Valid() && i < |menus|
    ensures var after := ListMenus(menus, locations.Put(loc, id));
      loc in after[i].locations <==> menus[i].termId == id
    ensures l != loc ==>
      (l in ListMenus(menus, locations.Put(loc, id))[i].locations <==> l in ListMenus(menus, locations)[i].locations)
  {
    var after := locations.Put(loc, id);
    assert after.vals[loc] == id;
    if l != loc {
      assert (l in after.vals <==> l in locations.vals) && (l in after.vals ==> after.vals[l] == locations.vals[l]);
    }
  }

  // ------------------------------------------------------------- menu items

  /** The `$item_data` array handed to `wp_update_nav_menu_item`. */
  type ItemData = map<string, Value>

  const TitleKey := "menu-item-title"
  const StatusKey := "menu-item-status"
  const ParentKey := "menu-item-parent-id"
  const TypeKey := "menu-item-type"
  const UrlKey := "menu-item-url"
  const ObjectKey := "menu-item-object"
  const ObjectIdKey := "menu-item-object-id"
  const PositionKey := "menu-item-position"

  /** The parameters of `add_menu_item`; `None` is a parameter the request lacks.
      The route's defaults, 'custom' for `object_type` and 0 for `parent`, lead to
      the same item data as a missing parameter: a missing type also takes the
      custom-link branch, and `absint` of a missing parent is 0. */
  datatype AddItemRequest = AddItemRequest(
    id: int, title: Option<string>, parent: Option<int>, objectType: Option<string>,
    url: Option<string>, objectName: Option<string>, objectId: Option<int>, position: Option<int>)

  datatype ItemCreated = ItemCreated(id: int, menuId: nat, created: bool)

  /** `add_menu_item`: 404 when the menu is missing and nothing is sent; otherwise the
      item data built from the request is sent, and the host's answer is passed on. */
  method AddMenuItem(menus: seq<Menu>, req: AddItemRequest, stored: Response<int>)
    returns (r: Response<ItemCreated>, sent: Option<ItemData>)
    ensures sent.Some? <==> MenuExists(menus, AbsInt(req.id))
    ensures sent.None? ==> r == Err("not_found", NotFound)
    ensures sent.Some? && stored.Err? ==> r == Err(stored.code, stored.status)
    ensures sent.Some? && stored.Ok? ==> r == Ok(ItemCreated(stored.data, AbsInt(req.id), true))
    // always present: title, status 'publish', non-negative parent
    ensures sent.Some? ==> var d := sent.value;
      && TitleKey in d && d[TitleKey] == Str(TextParam(req.title))
      && StatusKey in d && d[StatusKey] == Str("publish")
      && ParentKey in d && d[ParentKey].Int? && d[ParentKey].i == IntParam(req.parent) >= 0
    // 'custom', or no usable type: a custom link carrying the URL
    ensures sent.Some? && (req.objectType == Some("custom") || req.objectType.None? || FalsyString(req.objectType.value)) ==>
      var d := sent.value;
      && TypeKey in d && d[TypeKey] == Str("custom")
      && UrlKey in d && d[UrlKey] == Str(TextParam(req.url))
      && ObjectKey !in d && ObjectIdKey !in d
    // 'post_type' and 'taxonomy': the object and its id, no URL
    ensures sent.Some? && (req.objectType == Some("post_type") || req.objectType == Some("taxonomy")) ==>
      var d := sent.value;
      && TypeKey in d && d[TypeKey] == Str(req.objectType.value)
      && ObjectKey in d && d[ObjectKey] == Str(SanitizeKey(TextParam(req.objectName)))
      && ObjectIdKey in d && d[ObjectIdKey] == Int(IntParam(req.objectId))
      && UrlKey !in d
    // any other type: no type, URL or object at all
    ensures (&& sent.Some? && req.objectType.Some? && !FalsyString(req.objectType.value)
             && req.objectType.value !in {"custom", "post_type", "taxonomy"}) ==>
      var d := sent.value;
      TypeKey !in d && UrlKey !in d && ObjectKey !in d && ObjectIdKey !in d
    ensures sent.Some? ==> (PositionKey in sent.value <==> req.position.Some?)
    ensures sent.Some? && req.position.Some? ==> sent.value[PositionKey] == Int(AbsInt(req.position.value))
    ensures sent.Some? ==> sent.value.Keys <= {TitleKey, StatusKey, ParentKey, TypeKey, UrlKey, ObjectKey, ObjectIdKey, PositionKey}
  {
    var menuId := AbsInt(req.id);
    if !MenuExists(menus, menuId) {
      return Err("not_found", NotFound), None;
    }
    var data: ItemData := map[];
    data := data[TitleKey := Str(TextParam(req.title))];
    data := data[StatusKey := Str("publish")];
    data := data[ParentKey := Int(IntParam(req.parent))];
    var objectType := req.objectType;
    if objectType == Some("custom") || objectType.None? || FalsyString(objectType.value) {
      data := data[TypeKey := Str("custom")];
      data := data[UrlKey := Str(TextParam(req.url))];
    } else if objectType == Some("post_type") {
      data := data[TypeKey := Str("post_type")];
      data := data[ObjectKey := Str(SanitizeKey(TextParam(req.objectName)))];
      data := data[ObjectIdKey := Int(IntParam(req.objectId))];
    } else if objectType == Some("taxonomy") {
      data := data[TypeKey := Str("taxonomy")];
      data := data[ObjectKey := Str(SanitizeKey(TextParam(req.objectName)))];
      data := data[ObjectIdKey := Int(IntParam(req.objectId))];
    }
    if req.position.Some? {
      data := data[PositionKey := Int(AbsInt(req.position.value))];
    }
    sent := Some(data);
    r := if stored.Err? then Err(stored.code, stored.status) else Ok(ItemCreated(stored.data, menuId, true));
  }

  /** A post: its type and the ids of the `nav_menu` terms it belongs to. */
  datatype Post = Post(postType: string, menus: seq<int>)

  /** The parameters of `update_menu_item`; `None` is a parameter the request lacks. */
  datatype UpdateItemRequest = UpdateItemRequest(
    itemId: int, title: Option<string>, url: Option<string>, parent: Option<int>, position: Option<int>)

  /** What `update_menu_item` hands to `wp_update_nav_menu_item`. */
  datatype ItemUpdate = ItemUpdate(menuId: int, itemId: nat, data: ItemData)

  datatype ItemUpdated = ItemUpdated(id: nat, updated: bool)

  /** `update_menu_item`: 404 unless the post exists and is a `nav_menu_item`;
      otherwise the update carries the item's first menu (0 when it has none) and
      exactly the fields the request provides. */
  method UpdateMenuItem(posts: map<nat, Post>, req: UpdateItemRequest, stored: Response<int>)
    returns (r: Response<ItemUpdated>, sent: Option<ItemUpdate>)
    ensures var id := AbsInt(req.itemId);
      sent.None? <==> id !in posts || posts[id].postType != "nav_menu_item"
    ensures sent.None? ==> r == Err("not_found", NotFound)
    ensures sent.Some? ==> var id := AbsInt(req.itemId); var u := sent.value;
      && u.itemId == id
      && u.menuId == (if posts[id].menus != [] then posts[id].menus[0] else 0)
    ensures sent.Some? && stored.Err? ==> r == Err(stored.code, stored.status)
    ensures sent.Some? && stored.Ok? ==> r == Ok(ItemUpdated(AbsInt(req.itemId), true))
    ensures sent.Some? ==> var d := sent.value.data;
      && d.Keys <= {TitleKey, UrlKey, ParentKey, PositionKey}
      && (TitleKey in d <==> req.title.Some?) && (req.title.Some? ==> d[TitleKey] == Str(req.title.value))
      && (UrlKey in d <==> req.url.Some?) && (req.url.Some? ==> d[UrlKey] == Str(req.url.value))
      && (ParentKey in d <==> req.parent.Some?) && (req.parent.Some? ==> d[ParentKey] == Int(AbsInt(req.parent.value)))
      && (PositionKey in d <==> req.position.Some?) && (req.position.Some? ==> d[PositionKey] == Int(AbsInt(req.position.value)))
  {
    var itemId := AbsInt(req.itemId);
    if itemId !in posts || posts[itemId].postType != "nav_menu_item" {
      return Err("not_found", NotFound), None;
    }
    var terms := posts[itemId].menus;
    var menuId := if terms != [] then terms[0] else 0;
    var data: ItemData := map[];
    if req.title.Some? {
      data := data[TitleKey := Str(req.title.value)];
    }
    if req.url.Some? {
      data := data[UrlKey := Str(req.url.value)];
    }
    if req.parent.Some? {
      data := data[ParentKey := Int(AbsInt(req.parent.value))];
    }
    if req.position.Some? {
      data := data[PositionKey := Int(AbsInt(req.position.value))];
    }
    sent := Some(ItemUpdate(menuId, itemId, data));
    r := if stored.Err? then Err(stored.code, stored.status) else Ok(ItemUpdated(itemId, true));
  }
}
