# mcp-endpoints: a verified model of the bookkeeping routes

The WordPress plugin *mcp-endpoints* exposes site administration as REST routes.
Most of its routes hand one call to WordPress and wrap the answer. A few keep books
of their own, and those are what this project models in Dafny:

- **widgets:** the sidebar table and the per-type instance maps;
- **health:** the site-health score, the plugin counts and the cron view;
- **database:** the search/replace pass, table optimisation and revision clean-up;
- **options:** the option table routes;
- **menus:** the menu location map and menu-item data;
- **media:** the media-library routes.

Every route answers through the plugin's envelope: either a payload (`Ok`) or a
WP_Error with a code and an HTTP status (`Err`, module `Envelope`).

Host state is passed to each route as a plain value, and the route returns the new
state. This covers:

- the `sidebars_widgets` option;
- the `widget_<type>` options;
- the options table;
- the cron array;
- database tables;
- `nav_menu_locations`;
- posts.

The endpoint classes hold no state of their own. Each route copies the host data into
a local PHP array, changes it step by step and writes it back. The model therefore
uses methods with local variables and loops where the PHP loops, and functions where
the PHP only computes. Each method is tied by its `ensures` to a specification
function, and lemmas prove what the routes promise about those functions.

PHP's ordered arrays are `PhpArray.Assoc`: the keys in insertion order plus a map, so
that an existing key keeps its place. The small PHP and WordPress helpers the routes
rely on are modelled in `PhpString`:

- `sanitize_key`, `absint` and `strtoupper`;
- string truthiness;
- `LIKE 'prefix%'` and MySQL `REPLACE()`;
- byte order.

## Model

| member | source | states |
|---|---|---|
| PhpString.SanitizeKey | includes/endpoints/class-options-endpoint.php:89 | the result of `sanitize_key` holds only `[a-z0-9_-]` and is never longer than the key |
| PhpString.SanitizeKeyIdempotent | includes/endpoints/class-options-endpoint.php:89 | sanitizing a sanitized key changes nothing |
| PhpString.SanitizeRouteKey | includes/endpoints/class-options-endpoint.php:12 | a key matching the route pattern `[a-zA-Z0-9_-]+` is only lower-cased by `sanitize_key` |
| PhpString.ReplaceAllAbsent | includes/endpoints/class-database-endpoint.php:119 | `REPLACE()` leaves a value without the search string unchanged |
| PhpString.ReplaceAllSelf | includes/endpoints/class-database-endpoint.php:119 | replacing a string by itself changes nothing |
| PhpString.LikePrefixWidens | includes/endpoints/class-options-endpoint.php:140 | every name that starts with the prefix matches `LIKE 'prefix%'`, since `_` is a one-character wildcard |
| PhpString.StrLtTransitive | includes/endpoints/class-options-endpoint.php:147 | the byte order used for `ORDER BY option_name` is transitive |
| PhpString.StrLtTotal | includes/endpoints/class-options-endpoint.php:147 | any two distinct names are ordered one way or the other |
| PhpArray.Assoc.Put | includes/endpoints/class-menus-endpoint.php:350 | `$a[$k] = $v` keeps keys distinct; an existing key keeps its place and a new key is appended |
| Widgets.SplitUnique | includes/endpoints/class-widgets-endpoint.php:416 | `^(.+)-(\d+)$` can split an id at only one hyphen, so greediness does not matter |
| Widgets.ParseWidgetId | includes/endpoints/class-widgets-endpoint.php:416-422 | parsing fails iff there is no valid split; otherwise it gives the base before the split and the number after it, saturated at `PHP_INT_MAX` as `(int)` does |
| Widgets.WidgetIdRoundTrip | includes/endpoints/class-widgets-endpoint.php:225 | for a non-empty base and any N up to `PHP_INT_MAX`, parsing `base-N` gives back `(base, N)` |
| Widgets.ParseSaturates | includes/endpoints/class-widgets-endpoint.php:421 | a number beyond `PHP_INT_MAX` parses as `PHP_INT_MAX`, so such ids all name the same instance |
| PhpString.DigitsToInt | includes/endpoints/class-widgets-endpoint.php:421 | `(int)` of a digit string is its value when that fits in 64 bits and `PHP_INT_MAX` otherwise |
| Widgets.ParseRejects | includes/endpoints/class-widgets-endpoint.php:251-254 | an id with no hyphen, or one ending in a hyphen, does not parse |
| Widgets.NextInstanceNumber | includes/endpoints/class-widgets-endpoint.php:215-218 | the number is 1 with no numeric keys and max+1 otherwise, so it is never an existing key |
| Widgets.FindType | includes/endpoints/class-widgets-endpoint.php:199-205 | the first factory widget with that id base, or none iff no widget has it |
| Widgets.GetWidgetData | includes/endpoints/class-widgets-endpoint.php:412-447 | null for an unparsable id or a missing instance; otherwise the id, the base, the stored settings and the name of the first factory widget of that type, or the type itself when there is none |
| Widgets.InsertAt | includes/endpoints/class-widgets-endpoint.php:232-236 | the list grows by exactly the new id, which lands at the insertion index; the entries before and after it keep their order |
| Widgets.RemoveFirst | includes/endpoints/class-widgets-endpoint.php:298-301 | removes exactly the first occurrence and keeps the rest in order; a list without the id is unchanged |
| Widgets.FirstSidebarWith | includes/endpoints/class-widgets-endpoint.php:171-180 | the first sidebar in table order whose list holds the id, or none iff no list holds it |
| Widgets.RemoveEverywhere | includes/endpoints/class-widgets-endpoint.php:296-305 | every sidebar loses the first occurrence of the id, in table order |
| Widgets.InsertInto | includes/endpoints/class-widgets-endpoint.php:228-236 | only the target list changes, and a missing target list is created empty first |
| Widgets.DropInstance | includes/endpoints/class-widgets-endpoint.php:314-319 | the settings entry is removed only if present; other instances and types are unchanged |
| Widgets.MergeSettings | includes/endpoints/class-widgets-endpoint.php:270 | `array_merge`: the given keys override, the other current keys are kept, and nothing else appears |
| Widgets.InsertIntoAddsOne | includes/endpoints/class-widgets-endpoint.php:228-236 | an insertion adds exactly one entry across all sidebars |
| Widgets.MovePreservesTotal | includes/endpoints/class-widgets-endpoint.php:343-369 | a move keeps the total number of widget entries across all sidebars |
| Widgets.MoveEffect | includes/endpoints/class-widgets-endpoint.php:343-369 | a move removes the id from the first sidebar holding it, inserts it into the target at the position, and leaves every other sidebar alone |
| Widgets.RemoveEverywhereEffect | includes/endpoints/class-widgets-endpoint.php:296-305 | every list holding the id shrinks by one copy of it, and other lists are unchanged |
| Widgets.RemoveFromSidebars | includes/endpoints/class-widgets-endpoint.php:296-305 | the sidebar loop removes the first copy of the id from every list, as the table-wide removal does, and reports found iff some list held the id |
| Widgets.GetWidget | includes/endpoints/class-widgets-endpoint.php:161-183 | 404 iff there is no widget data; otherwise always a success, carrying the data and the first sidebar holding the id, or null |
| Widgets.AddWidget | includes/endpoints/class-widgets-endpoint.php:185-245 | on the sanitized sidebar id and type: 404 for an unknown sidebar before 400 for an unknown type; otherwise the settings are stored under the next number and `type-N` is inserted into the sidebar |
| Widgets.UpdateWidget | includes/endpoints/class-widgets-endpoint.php:247-278 | 400 for an unparsable id, 404 for a missing instance; otherwise the settings are merged only when given |
| Widgets.DeleteWidget | includes/endpoints/class-widgets-endpoint.php:280-325 | 400 for an unparsable id, 404 with nothing changed when no sidebar lists it; otherwise removed from every sidebar and its settings dropped |
| Widgets.TakeFromFirstSidebar | includes/endpoints/class-widgets-endpoint.php:342-354 | the search stops at the first sidebar in table order whose list holds the id, which loses its first copy of it; with no such sidebar nothing changes |
| Widgets.MoveWidget | includes/endpoints/class-widgets-endpoint.php:327-379 | 404 for an unknown (sanitized) target, then 404 for an id in no sidebar; otherwise the sidebar table becomes the moved table |
| Widgets.ReorderWidgets | includes/endpoints/class-widgets-endpoint.php:381-410 | 404 for an unknown (sanitized) sidebar; 400 iff some requested id is not in its list; otherwise only that sidebar's list becomes the request |
| Widgets.ReorderedListWasPresent | includes/endpoints/class-widgets-endpoint.php:395-402 | after a reorder every listed id was already in the sidebar, and other sidebars are unchanged |
| Health.GetHealth | includes/endpoints/class-health-endpoint.php:57-121 | update count = core upgrade (0 or 1) + plugin updates + theme updates; each issue iff its condition, in fixed order; score = max(0, 100 − 10·issues) |
| Health.StatusBands | includes/endpoints/class-health-endpoint.php:89-90 | good iff at most 2 issues, warning iff 3 or 4, critical iff 5 or more; with at most 3 issues the score is in {70, 80, 90, 100} and never clamped |
| Health.PluginsHealth | includes/endpoints/class-health-endpoint.php:202-234 | one row per installed plugin: active iff listed active, update iff its file has an update response; inactive = total − count(active) |
| Health.InactiveCountsRows | includes/endpoints/class-health-endpoint.php:224-232 | when the active list is distinct and installed, total − count(active) equals the number of inactive rows |
| Health.ScheduleName | includes/endpoints/class-health-endpoint.php:248 | the schedule is the stored one, or "single" when it is missing or falsy |
| Health.TableEventsCount | includes/endpoints/class-health-endpoint.php:240-254 | flattening gives exactly one event per (timestamp, hook, key) entry |
| Health.EntryHasEvent | includes/endpoints/class-health-endpoint.php:240-254 | every cron entry appears as an event |
| Health.FlattenCron | includes/endpoints/class-health-endpoint.php:240-254 | the three nested loops produce the flattened event list |
| Health.FlattenHooks | includes/endpoints/class-health-endpoint.php:242-253 | the hook loop of one timestamp produces that timestamp's events in hook order |
| Health.FlattenEntries | includes/endpoints/class-health-endpoint.php:243-252 | the entry loop of one hook produces one event per entry, in entry order |
| Health.SortByTime | includes/endpoints/class-health-endpoint.php:257 | `usort` by timestamp gives a non-decreasing permutation of the events |
| Health.SortByTimeStable | includes/endpoints/class-health-endpoint.php:257 | events with equal timestamps keep their relative order |
| Health.InsertByTimeStable | includes/endpoints/class-health-endpoint.php:257 | one insertion step keeps equal-timestamp events in order |
| Health.GetCronStatus | includes/endpoints/class-health-endpoint.php:236-265 | `total_events` = number of entries; the events are the first min(50, total) of the sorted list, sorted |
| Health.FirstFiring | includes/endpoints/class-health-endpoint.php:273-281 | the first entry of the first timestamp with a non-empty entry list for the hook, or none iff there is no such timestamp |
| Health.RunCron | includes/endpoints/class-health-endpoint.php:267-291 | 404 iff nothing fires; otherwise exactly the first firing entry runs |
| Health.FirstFiringSkips | includes/endpoints/class-health-endpoint.php:273-281 | timestamps where the hook does not fire can be skipped without changing which entry fires |
| Database.LikeFilter | includes/endpoints/class-database-endpoint.php:88 | `SHOW TABLES LIKE 'prefix%'` keeps exactly the matching names |
| Database.OptimizeTables | includes/endpoints/class-database-endpoint.php:143-158 | every prefixed table is listed whatever the per-table result, and count = length |
| Database.CountMatches | includes/endpoints/class-database-endpoint.php:109-115 | the count is at most the row count, and 0 iff no row contains the search string |
| Database.ReplaceInColumn | includes/endpoints/class-database-endpoint.php:117-124 | matching rows get `REPLACE()` in that column only; other rows are untouched |
| Database.CountOtherColumn | includes/endpoints/class-database-endpoint.php:109-124 | rewriting one column does not change the count of another |
| Database.ApplyColumnsUntouched | includes/endpoints/class-database-endpoint.php:117-124 | a row with no match in any text column is untouched |
| Database.ApplyColumnsValue | includes/endpoints/class-database-endpoint.php:117-124 | each text column of each row holds `REPLACE()` of its old value when it contained the search string |
| Database.ApplyTableRows | includes/endpoints/class-database-endpoint.php:104-124 | after the column loop, rows without a match are untouched and matching text columns are replaced |
| Database.ProcessStep | includes/endpoints/class-database-endpoint.php:94-132 | how the table loop extends by one table: skip a table with count 0, else record its count and, in a real run, rewrite it |
| Database.ScanTable | includes/endpoints/class-database-endpoint.php:97-126 | the column loop computes the table's count and, in a real run, the rewritten rows |
| Database.ReplaceInTable | includes/endpoints/class-database-endpoint.php:97-131 | one table pass: its count, and the table rewritten only in a real run with a positive count |
| Database.SearchReplace | includes/endpoints/class-database-endpoint.php:74-141 | an empty or "0" search gives 400 `empty_search` with nothing changed; otherwise the report and data follow the table loop over the given or prefixed tables |
| Database.DryRunLeavesData | includes/endpoints/class-database-endpoint.php:117 | a dry run changes no table |
| Database.ReportedCounts | includes/endpoints/class-database-endpoint.php:128-131 | with each table named once, a table is reported iff its count is positive, with that count, and `total_changes` is the sum of the reported counts |
| Database.DryRunReportsSame | includes/endpoints/class-database-endpoint.php:117-131 | with each table named once, a dry run reports exactly what a real run would |
| Database.RealRunRewrites | includes/endpoints/class-database-endpoint.php:117-124 | in a real run, unnamed tables are unchanged and each named table with a positive count holds the replaced data |
| Database.KeptAndDropPartition | includes/endpoints/class-database-endpoint.php:206 | a parent's revisions split into the first `keep` (kept) and the rest (deleted) |
| Database.DeletedCount | includes/endpoints/class-database-endpoint.php:194-211 | deleted = Σ max(0, n_p − keep) over parents other than 0 |
| Database.PrunedAll | includes/endpoints/class-database-endpoint.php:194-211 | afterwards parent 0 keeps all its revisions and every other parent keeps its first `keep` |
| Database.DeleteSurplus | includes/endpoints/class-database-endpoint.php:206-210 | the inner loop deletes exactly the revisions after the first `keep` |
| Database.CleanRevisions | includes/endpoints/class-database-endpoint.php:182-218 | keep = absint(param); the surviving revisions, the deleted list and `deleted` = its length = the excess |
| Options.GetOptionValue | includes/endpoints/class-options-endpoint.php:91 | a stored value for a present key, and false for an absent one |
| Options.UpdateOption | includes/endpoints/class-options-endpoint.php:108 | a falsy name, or a value `get_option` already reads (`false` for a missing option), leaves the table alone; otherwise the value is stored with the given autoload flag; afterwards `get_option` reads the value; other rows are unchanged |
| Options.GetOption | includes/endpoints/class-options-endpoint.php:88-101 | 404 `option_not_found` iff no row has the sanitized name; otherwise the name and its value |
| Options.RouteKeyReachesTable | includes/endpoints/class-options-endpoint.php:12 | a key the route accepts reaches the table lower-cased, non-empty and otherwise intact |
| Options.SetOptionAsWritten | includes/endpoints/class-options-endpoint.php:103-115 | the write as in the source, with `created` asked of the table after the write |
| Options.CreatedAsWrittenIsFalse | includes/endpoints/class-options-endpoint.php:113 | after a write under a name `update_option` accepts, other than `false` to a missing option, the option exists, so `created` as written is false even when the call added it |
| Options.CreatedAsWrittenOnFalse | includes/endpoints/class-options-endpoint.php:108-113 | writing `false` to a missing option changes nothing, so `created` as written is true although nothing was created |
| Options.SetOption | includes/endpoints/class-options-endpoint.php:103-115 | the table is `update_option`'s result with autoload 'yes' iff the flag is set; `created` is true iff the option was absent and now exists, that is, for an accepted name, iff it was absent and the value is not `false` |
| Options.DeleteOption | includes/endpoints/class-options-endpoint.php:117-130 | 404 when absent; otherwise the row is removed and every other row is unchanged |
| Options.BulkGetOptions | includes/endpoints/class-options-endpoint.php:166-178 | the keys are exactly the sanitized requested keys, duplicates collapsed, each with its value |
| Options.TakeSmallest | includes/endpoints/class-options-endpoint.php:147-148 | `ORDER BY ... LIMIT n`: min(n, size) names in strictly ascending order, each smaller than every name left out |
| Options.ListOptions | includes/endpoints/class-options-endpoint.php:132-164 | at most per_page selected rows, ascending by name, the smallest first; autoload true iff 'yes'; count = number of entries |
| Options.ListedNamesMatch | includes/endpoints/class-options-endpoint.php:139-141 | with a truthy prefix every listed name matches `prefix%`; with a falsy one nothing is filtered |
| Menus.KeysWithValue | includes/endpoints/class-menus-endpoint.php:104 | `array_keys($locations, $id)` holds exactly the locations assigned to the id |
| Menus.KeysWithValueDistinct | includes/endpoints/class-menus-endpoint.php:104 | the listed locations are distinct |
| Menus.ListMenus | includes/endpoints/class-menus-endpoint.php:98-118 | one entry per menu, in order, whose locations are exactly those assigned to its id |
| Menus.GetLocations | includes/endpoints/class-menus-endpoint.php:120-137 | one entry per registered location with its assigned menu id, or null when unassigned |
| Menus.ViewsAgree | includes/endpoints/class-menus-endpoint.php:103-131 | a location is listed under a menu iff `get_locations` reports that menu's id for it |
| Menus.LocationUnderOneMenu | includes/endpoints/class-menus-endpoint.php:103-111 | menus with different ids never share a location |
| Menus.AssignLocation | includes/endpoints/class-menus-endpoint.php:336-358 | 400 for an unregistered location before 404 for a positive id naming no menu; id 0 is accepted; on success only that location's entry changes |
| Menus.AssignmentListed | includes/endpoints/class-menus-endpoint.php:349-351 | after an assignment the location is listed under exactly the menus with that id, and every other location stays where it was |
| Menus.AddMenuItem | includes/endpoints/class-menus-endpoint.php:237-280 | 404 with nothing sent for a missing menu; 'custom' or falsy type gives a custom link with URL, 'post_type' and 'taxonomy' give the object and its id, any other type gives no type; parent is absint; position only when given |
| Menus.UpdateMenuItem | includes/endpoints/class-menus-endpoint.php:282-319 | 404 unless the post is a `nav_menu_item`; the update carries its first menu (or 0) and exactly the provided fields |
| Media.ListMediaQuery | includes/endpoints/class-media-endpoint.php:97-113 | on the parameters with the route's defaults filled in: absint of per_page and page, the sanitized orderby, order ASC iff it upper-cases to "ASC", else DESC; MIME and search filters only when present and truthy |
| Media.PlainListQuery | includes/endpoints/class-media-endpoint.php:17-22 | a request with no parameters queries 20 attachments per page, page 1, ordered by date, descending, unfiltered |
| Media.AscendingSpellings | includes/endpoints/class-media-endpoint.php:104 | the ascending orders are exactly the eight upper/lower-case spellings of "asc" |
| Media.OrderStable | includes/endpoints/class-media-endpoint.php:104 | feeding the chosen order back in chooses it again |
| Media.PostFields | includes/endpoints/class-media-endpoint.php:221-231 | the post data holds the id and one field per selected value, and nothing else |
| Media.PostFieldsCount | includes/endpoints/class-media-endpoint.php:233 | `count($post_data) > 1` iff some field besides the id is selected |
| Media.UpdateMedia | includes/endpoints/class-media-endpoint.php:213-245 | 404 for a non-attachment; the post is updated only if title, caption or description is present, with exactly those; alt is written on its own |
| Media.UpdateAttachmentData | includes/endpoints/class-media-endpoint.php:425-445 | only non-empty values are written, so "" or "0" never overwrites; the post update happens only if one of them is non-empty |
| Media.DeletionsClosedForm | includes/endpoints/class-media-endpoint.php:275-290 | the id at position i is deleted iff it is an attachment, the host agrees, and it did not occur earlier; missing and non-attachment ids always fail and are never deleted; exactly the deleted posts are gone |
| Media.PickPartition | includes/endpoints/class-media-endpoint.php:275-295 | every id lands in exactly one of `deleted` and `failed` |
| Media.DeletedOnce | includes/endpoints/class-media-endpoint.php:275-295 | no id is reported deleted twice |
| Media.BulkDeleteMedia | includes/endpoints/class-media-endpoint.php:268-297 | `deleted` and `failed` are the run's ids in request order, the posts are what the run leaves, and `deleted_count` = the number deleted |
| Media.TallyContents | includes/endpoints/class-media-endpoint.php:346-351 | `by_type` holds exactly the rows' types; with one row per type its keys are the types in row order, each with its row's count |
| Media.RegenerateThumbnails | includes/endpoints/class-media-endpoint.php:299-333 | 404 for a missing attachment, then 400 for a non-image, then 404 for a missing file; only then the host result passes through |
| Media.GetStats | includes/endpoints/class-media-endpoint.php:335-351 | `total` is the sum of all rows; with one row per type, `by_type` lists each type with its count and `total` is its sum |
| Media.SumMatchesRows | includes/endpoints/class-media-endpoint.php:348-351 | summing a table that agrees with every row over the rows' types gives the rows' total |

## Left out

- Host functions:
  - `sanitize_text_field`, `sanitize_textarea_field` and `esc_url_raw` are treated as the identity.
  - `sanitize_key` is modelled on ASCII only.
  - The request parameters are strings or integers; loose PHP comparisons of other types are not modelled.
- Route registration, the permission callbacks and the plugin bootstrap. They are wiring with no bookkeeping of their own.
  - The bootstrap only registers the plugins, themes, core, database and options classes.
  - The widgets, health, menus and media routes are modelled as their code reads, as if registered.
- Read-only views that only project host data are not part of this model:
  - widgets `list_sidebars`, `get_sidebar_widgets` and `list_widget_types`;
  - menus `get_menu`, `create_menu`, `update_menu`, `delete_menu` and `delete_menu_item`;
  - media `get_media`, `delete_media` and `format_media`, and `list_media`'s result rows.
- Left out as I/O or as calls into code the model cannot see:
  - database `get_tables`, whose sizes are floating point;
  - `clean_comments` and upload/sideload;
  - the upload-directory info;
  - the floating-point megabyte sizes in `get_stats`;
  - `get_debug_info`, `get_php_info` and the `next_run` date formatting;
  - running the cron hook (`do_action_ref_array`);
  - the `OPTIMIZE TABLE` result.
- Widgets.NextInstanceNumber: the instance map keeps integer keys, negative ones included, in the numbering, and files string keys (such as `_multiwidget`) apart. A string key that `is_numeric` accepts but PHP does not turn into an integer key, such as "1.5" or "1e3", counts in `max()` in the source but not in the model. With an instance numbered `PHP_INT_MAX`, `max + 1` is a float in PHP and the new id is not a `type-N` id; the model's unbounded integers give `PHP_INT_MAX + 1`.
- Widgets.ParseWidgetId: PCRE `$` also matches before a final newline; ids ending in a newline are not modelled.
- Widgets.MergeSettings: `array_merge` renumbers integer keys; setting keys are modelled as strings.
- Health.SortByTime: `usort` is stable since PHP 8.0, and the model is a stable insertion sort; the comparator's integer subtraction is taken as exact.
- Health.PluginsHealth: `inactive` is total − count(active_plugins) as written. It counts inactive rows only when the active list is distinct and installed (Health.InactiveCountsRows); a stale entry in `active_plugins` makes it smaller.
- Database.ReportedCounts: with a table named twice in `tables`, its count is taken again on the already rewritten data (0 unless a replaced value still contains the search string) or on the same data in a dry run, so a dry run counts it twice. The lemmas state the properties for distinct names, and the model keeps the source's behaviour for repeats.
- Database.SearchReplace: the search string is escaped with `esc_like`, so `LIKE '%search%'` is a substring test; it is modelled as a case-sensitive one, and case-insensitive collations are left out. A column's type is text-like by a case-insensitive test for `char`, `text` or `blob`.
- Database.CleanRevisions: the revision lists come from the database newest first (`ORDER BY post_modified DESC`); the model takes that order as given, and `wp_delete_post_revision` is taken to succeed.
- Options.UpdateOption: the stored value is compared by equality; the serialisation round trip, the `pre_update_option` filters and autoload normalisation are left out.
- Options.ListOptions: names are ordered byte-wise; a case-insensitive database collation is not modelled.
- Menus.UpdateMenuItem: the first read of the menu id from post meta is overwritten at once and has no effect; it is not modelled.
- Media.BulkDeleteMedia: whether `wp_delete_attachment` succeeds is a parameter (the ids it refuses); a deleted post is removed at once, as with media trash off.
- Media.RegenerateThumbnails: the metadata regeneration and write are host calls; their result is a parameter.

## Findings

| source | as written | input that shows it | evidently intended | confidence | as-written member | corrected member |
|---|---|---|---|---|---|---|
| includes/endpoints/class-options-endpoint.php:113 | `created` is computed after `update_option`, as "the option does not exist now" | set `blogname2` to "x" on a table without it: the option is added, yet `created` is false; set it to `false` instead: nothing is written, yet `created` is true | `created` is true exactly when the call added the option | high (not executed) | Options.SetOptionAsWritten, Options.CreatedAsWrittenIsFalse, Options.CreatedAsWrittenOnFalse | Options.SetOption |
