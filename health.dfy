/** The health endpoint's own arithmetic: the update count, the issue list with its
    score and status, the per-plugin health rows, the flattened and time-ordered
    cron event list, and the lookup `run_cron` does before firing a hook.
    What the host reports (update transients, `WP_DEBUG`, `is_ssl()`, the cron array,
    the installed and active plugins) is passed in as plain data. */
module Health {
  import opened Envelope
  import opened PhpArray
  import opened PhpString

  // ------------------------------------------------------------ get_health

  /** What `get_health` reads from the host. `coreUpdates` holds the `response` field
      of each entry of `get_core_updates()`; the two maps are the `response` arrays
      of the plugin and theme update transients (file or slug -> offered version). */
  datatype HealthInputs = HealthInputs(
    coreUpdates: seq<string>,
    pluginUpdates: map<string, string>,
    themeUpdates: map<string, string>,
    debug: bool,
    ssl: bool)

  datatype Issue = DebugEnabled | NotHttps | UpdatesAvailable(count: nat)

  datatype Status = Good | Warning | Critical

  datatype HealthReport = HealthReport(
    status: Status,
    score: int,
    coreUpdate: bool,
    updatesTotal: nat,
    pluginUpdates: nat,
    themeUpdates: nat,
    issues: seq<Issue>)

  /** The first core update offers an upgrade. */
  predicate CoreUpgrade(inp: HealthInputs)
  {
    inp.coreUpdates != [] && inp.coreUpdates[0] == "upgrade"
  }

  /** The fixed order in which the issues are reported. */
  function Rank(i: Issue): nat
  {
    match i
    case DebugEnabled => 0
    case NotHttps => 1
    case UpdatesAvailable(_) => 2
  }

  function HealthScore(issueCount: nat): int
  {
    100 - 10 * issueCount
  }

  function HealthStatus(score: int): Status
  {
    if score >= 80 then Good else if score >= 60 then Warning else Critical
  }

  function Max(a: int, b: int): int { if a >= b then a else b }

  /** `get_health`: count the offered updates, collect the issues in their fixed
      order, derive score and status. */
  method GetHealth(inp: HealthInputs) returns (r: HealthReport)
    ensures r.coreUpdate == CoreUpgrade(inp)
    ensures r.pluginUpdates == |inp.pluginUpdates| && r.themeUpdates == |inp.themeUpdates|
    ensures r.updatesTotal == (if CoreUpgrade(inp) then 1 else 0) + |inp.pluginUpdates| + |inp.themeUpdates|
    ensures DebugEnabled in r.issues <==> inp.debug
    ensures NotHttps in r.issues <==> !inp.ssl
    ensures UpdatesAvailable(r.updatesTotal) in r.issues <==> r.updatesTotal > 0
    ensures forall i :: i in r.issues ==> i == DebugEnabled || i == NotHttps || i == UpdatesAvailable(r.updatesTotal)
    ensures forall i, j :: 0 <= i < j < |r.issues| ==> Rank(r.issues[i]) < Rank(r.issues[j])
    ensures |r.issues| <= 3
    ensures r.score == Max(0, HealthScore(|r.issues|)) && r.status == HealthStatus(HealthScore(|r.issues|))
  {
    var updateCount: nat := 0;
    if CoreUpgrade(inp) {
      updateCount := updateCount + 1;
    }
    updateCount := updateCount + |inp.pluginUpdates|;
    updateCount := updateCount + |inp.themeUpdates|;

    var issues: seq<Issue> := [];
    if inp.debug {
      issues := issues + [DebugEnabled];
    }
    if !inp.ssl {
      issues := issues + [NotHttps];
    }
    if updateCount > 0 {
      issues := issues + [UpdatesAvailable(updateCount)];
    }

    var score := HealthScore(|issues|);
    r := HealthReport(HealthStatus(score), Max(0, score), CoreUpgrade(inp), updateCount,
                      |inp.pluginUpdates|, |inp.themeUpdates|, issues);
  }

  /** The status bands by number of issues: good up to two, warning for three or four,
      critical from five. With the at most three issues `get_health` can raise, the
      score is one of 100, 90, 80, 70, it is never clamped, and 'critical' never occurs. */
  lemma StatusBands(k: nat)
    ensures HealthStatus(HealthScore(k)) == Good <==> k <= 2
    ensures HealthStatus(HealthScore(k)) == Warning <==> 3 <= k <= 4
    ensures HealthStatus(HealthScore(k)) == Critical <==> k >= 5
    ensures k <= 3 ==> HealthScore(k) in {70, 80, 90, 100} && Max(0, HealthScore(k)) == HealthScore(k)
  {
  }

  // ------------------------------------------------------ get_plugins_health

  datatype Plugin = Plugin(file: string, name: string, version: string)

  datatype PluginRow = PluginRow(
    file: string,
    name: string,
    version: string,
    active: bool,
    updateAvailable: bool,
    newVersion: Option<string>)

  datatype PluginsReport = PluginsReport(
    plugins: seq<PluginRow>,
    total: nat,
    active: nat,
    inactive: int,
    updatesAvailable: nat)

  /** `get_plugins_health`: one row per installed plugin, in the order `get_plugins()`
      lists them; `active` counts the `active_plugins` option, not the rows. */
  method PluginsHealth(installed: seq<Plugin>, activePlugins: seq<string>, updates: map<string, string>)
    returns (r: PluginsReport)
    ensures |r.plugins| == |installed|
    ensures forall i :: 0 <= i < |installed| ==>
      var row := r.plugins[i];
      && row.file == installed[i].file && row.name == installed[i].name && row.version == installed[i].version
      && (row.active <==> installed[i].file in activePlugins)
      && (row.updateAvailable <==> installed[i].file in updates)
      && row.newVersion == (if installed[i].file in updates then Some(updates[installed[i].file]) else None)
    ensures r.total == |installed| && r.active == |activePlugins|
    ensures r.inactive == |installed| - |activePlugins|
    ensures r.updatesAvailable == |updates|
  {
    var plugins: seq<PluginRow> := [];
    var i := 0;
    while i < |installed|
      invariant 0 <= i <= |installed|
      invariant |plugins| == i
      invariant forall j :: 0 <= j < i ==>
        var row := plugins[j];
        && row.file == installed[j].file && row.name == installed[j].name && row.version == installed[j].version
        && (row.active <==> installed[j].file in activePlugins)
        && (row.updateAvailable <==> installed[j].file in updates)
        && row.newVersion == (if installed[j].file in updates then Some(updates[installed[j].file]) else None)
    {
      var p := installed[i];
      var needsUpdate := p.file in updates;
      plugins := plugins + [PluginRow(p.file, p.name, p.version, p.file in activePlugins, needsUpdate,
                                      if needsUpdate then Some(updates[p.file]) else None)];
      i := i + 1;
    }
    r := PluginsReport(plugins, |plugins|, |activePlugins|, |plugins| - |activePlugins|, |updates|);
  }

  function Files(rows: seq<PluginRow>): (s: seq<string>)
    ensures |s| == |rows| && forall i :: 0 <= i < |rows| ==> s[i] == rows[i].file
  {
    if rows == [] then [] else Files(rows[..|rows| - 1]) + [rows[|rows| - 1].file]
  }

  /** Number of rows marked inactive. */
  function CountInactive(rows: seq<PluginRow>): nat
  {
    if rows == [] then 0
    else CountInactive(rows[..|rows| - 1]) + (if rows[|rows| - 1].active then 0 else 1)
  }

  /** Files of the rows marked active. */
  function ActiveSet(rows: seq<PluginRow>): (a: set<string>)
    ensures forall f :: f in a <==> exists i :: 0 <= i < |rows| && rows[i].active && rows[i].file == f
  {
    if rows == [] then {}
    else
      var prefix := rows[..|rows| - 1];
      var a := ActiveSet(prefix) + (if rows[|rows| - 1].active then {rows[|rows| - 1].file} else {});
      assert forall i :: 0 <= i < |prefix| ==> prefix[i] == rows[i];
      a
  }

  lemma {:induction false} InactiveIsRowsMinusActiveSet(rows: seq<PluginRow>)
    requires Distinct(Files(rows))
    ensures CountInactive(rows) == |rows| - |ActiveSet(rows)|
  {
    if rows != [] {
      var prefix := rows[..|rows| - 1];
      var last := rows[|rows| - 1];
      assert Files(prefix) == Files(rows)[..|rows| - 1];
      InactiveIsRowsMinusActiveSet(prefix);
      if last.active {
        assert last.file !in ActiveSet(prefix) by {
          forall i | 0 <= i < |prefix| ensures prefix[i].file != last.file {
            assert Files(rows)[i] == prefix[i].file && Files(rows)[|rows| - 1] == last.file;
          }
        }
      }
    }
  }

  lemma {:induction false} DistinctSetCard(s: seq<string>)
    requires Distinct(s)
    ensures |set x | x in s| == |s|
  {
    if s != [] {
      var prefix := s[..|s| - 1];
      DistinctSetCard(prefix);
      assert (set x | x in s) == (set x | x in prefix) + {s[|s| - 1]};
      assert s[|s| - 1] !in prefix;
    }
  }

  /** When `active_plugins` names each active plugin once and only installed plugins,
      `inactive` is the number of rows marked inactive. Otherwise (a stale or repeated
      entry) the subtraction can undercount and even go negative. */
  lemma InactiveCountsRows(installed: seq<Plugin>, activePlugins: seq<string>, rows: seq<PluginRow>)
    requires |rows| == |installed|
    requires forall i :: 0 <= i < |installed| ==>
      rows[i].file == installed[i].file && (rows[i].active <==> installed[i].file in activePlugins)
    requires Distinct(Files(rows))
    requires Distinct(activePlugins)
    requires forall f :: f in activePlugins ==> exists i :: 0 <= i < |installed| && installed[i].file == f
    ensures CountInactive(rows) == |installed| - |activePlugins|
  {
    InactiveIsRowsMinusActiveSet(rows);
    assert ActiveSet(rows) == set x | x in activePlugins;
    DistinctSetCard(activePlugins);
  }

  // --------------------------------------------------------- get_cron_status

  /** One scheduled entry under a hook: its key, schedule name (absent for a
      single event), interval and arguments. */
  datatype CronData = CronData(key: string, schedule: Option<string>, interval: Option<int>, args: seq<Value>)

  datatype HookEntries = HookEntries(hook: string, entries: seq<CronData>)

  /** One timestamp of the cron array with its hooks, in array order. */
  datatype CronSlot = CronSlot(timestamp: int, hooks: seq<HookEntries>)

  type CronTable = seq<CronSlot>

  datatype Event = Event(hook: string, timestamp: int, schedule: string, interval: Option<int>, args: seq<Value>)

  datatype CronStatus = CronStatus(events: seq<Event>, totalEvents: nat)

  /** `$data['schedule'] ?: 'single'`. */
  function ScheduleName(s: Option<string>): (n: string)
    ensures s.Some? && !FalsyString(s.value) ==> n == s.value
    ensures (s.None? || FalsyString(s.value)) ==> n == "single"
  {
    if s.None? || FalsyString(s.value) then "single" else s.value
  }

  function MakeEvent(t: int, hook: string, d: CronData): Event
  {
    Event(hook, t, ScheduleName(d.schedule), d.interval, d.args)
  }

  /** The events of one hook's entries at one timestamp. */
  function EntryEvents(t: int, hook: string, ds: seq<CronData>): (es: seq<Event>)
    ensures |es| == |ds|
    ensures forall k :: 0 <= k < |ds| ==> es[k] == MakeEvent(t, hook, ds[k])
  {
    if ds == [] then [] else EntryEvents(t, hook, ds[..|ds| - 1]) + [MakeEvent(t, hook, ds[|ds| - 1])]
  }

  function HookEvents(t: int, hs: seq<HookEntries>): seq<Event>
  {
    if hs == [] then [] else HookEvents(t, hs[..|hs| - 1]) + EntryEvents(t, hs[|hs| - 1].hook, hs[|hs| - 1].entries)
  }

  /** The flattened cron array: timestamps in array order, hooks in array order,
      entries in array order. */
  function TableEvents(crons: CronTable): seq<Event>
  {
    if crons == [] then [] else TableEvents(crons[..|crons| - 1]) + HookEvents(crons[|crons| - 1].timestamp, crons[|crons| - 1].hooks)
  }

  function HookEntryCount(hs: seq<HookEntries>): nat
  {
    if hs == [] then 0 else HookEntryCount(hs[..|hs| - 1]) + |hs[|hs| - 1].entries|
  }

  /** Number of (timestamp, hook, key) triples in the cron array. */
  function EntryCount(crons: CronTable): nat
  {
    if crons == [] then 0 else EntryCount(crons[..|crons| - 1]) + HookEntryCount(crons[|crons| - 1].hooks)
  }

  lemma {:induction false} HookEventsCount(t: int, hs: seq<HookEntries>)
    ensures |HookEvents(t, hs)| == HookEntryCount(hs)
  {
    if hs != [] { HookEventsCount(t, hs[..|hs| - 1]); }
  }

  /** Flattening yields exactly one event per (timestamp, hook, key). */
  lemma {:induction false} TableEventsCount(crons: CronTable)
    ensures |TableEvents(crons)| == EntryCount(crons)
  {
    if crons != [] {
      TableEventsCount(crons[..|crons| - 1]);
      HookEventsCount(crons[|crons| - 1].timestamp, crons[|crons| - 1].hooks);
    }
  }

  /** Each entry of the cron array becomes an event carrying its timestamp and hook. */
  lemma {:induction false} EntryHasEvent(crons: CronTable, i: nat, j: nat, k: nat)
    requires i < |crons| && j < |crons[i].hooks| && k < |crons[i].hooks[j].entries|
    ensures MakeEvent(crons[i].timestamp, crons[i].hooks[j].hook, crons[i].hooks[j].entries[k]) in TableEvents(crons)
  {
    var n := |crons|;
    if i == n - 1 {
      HookHasEvent(crons[i].timestamp, crons[i].hooks, j, k);
    } else {
      EntryHasEvent(crons[..n - 1], i, j, k);
    }
  }

  lemma {:induction false} HookHasEvent(t: int, hs: seq<HookEntries>, j: nat, k: nat)
    requires j < |hs| && k < |hs[j].entries|
    ensures MakeEvent(t, hs[j].hook, hs[j].entries[k]) in HookEvents(t, hs)
  {
    var n := |hs|;
    if j == n - 1 {
      assert EntryEvents(t, hs[j].hook, hs[j].entries)[k] == MakeEvent(t, hs[j].hook, hs[j].entries[k]);
    } else {
      HookHasEvent(t, hs[..n - 1], j, k);
    }
  }

  /** The three nested `foreach` loops that build `$events`: the outer one over
      timestamps, here; the two inner ones in `FlattenHooks` and `FlattenEntries`. */
  method FlattenCron(crons: CronTable) returns (events: seq<Event>)
    ensures events == TableEvents(crons)
  {
    events := [];
    var i := 0;
    while i < |crons|
      invariant 0 <= i <= |crons|
      invariant events == TableEvents(crons[..i])
    {
      var hookEvents := FlattenHooks(crons[i].timestamp, crons[i].hooks);
      assert crons[..i + 1][..i] == crons[..i];
      events := events + hookEvents;
      i := i + 1;
    }
    assert crons[..i] == crons;
  }

  /** The loop over the hooks of one timestamp. */
  method FlattenHooks(t: int, hooks: seq<HookEntries>) returns (events: seq<Event>)
    ensures events == HookEvents(t, hooks)
  {
    events := [];
    var j := 0;
    while j < |hooks|
      invariant 0 <= j <= |hooks|
      invariant events == HookEvents(t, hooks[..j])
    {
      var entryEvents := FlattenEntries(t, hooks[j].hook, hooks[j].entries);
      assert hooks[..j + 1][..j] == hooks[..j];
      events := events + entryEvents;
      j := j + 1;
    }
    assert hooks[..j] == hooks;
  }

  /** The loop over the entries (one per argument hash) of one hook. */
  method FlattenEntries(t: int, hook: string, entries: seq<CronData>) returns (events: seq<Event>)
    ensures events == EntryEvents(t, hook, entries)
  {
    events := [];
    var k := 0;
    while k < |entries|
      invariant 0 <= k <= |entries|
      invariant events == EntryEvents(t, hook, entries[..k])
    {
      assert entries[..k + 1][..k] == entries[..k];
      events := events + [MakeEvent(t, hook, entries[k])];
      k := k + 1;
    }
    assert entries[..k] == entries;
  }

  /** Non-decreasing timestamps. */
  predicate SortedByTime(s: seq<Event>)
  {
    forall i, j :: 0 <= i < j < |s| ==> s[i].timestamp <= s[j].timestamp
  }

  /** The events with timestamp `t`, in their order in `s`. */
  function AtTime(s: seq<Event>, t: int): seq<Event>
  {
    if s == [] then [] else AtTime(s[..|s| - 1], t) + (if s[|s| - 1].timestamp == t then [s[|s| - 1]] else [])
  }

  lemma AtTimeAppend(s: seq<Event>, x: Event, t: int)
    ensures AtTime(s + [x], t) == AtTime(s, t) + (if x.timestamp == t then [x] else [])
  {
    assert (s + [x])[..|s|] == s;
  }

  /** Place `e` after every element of the sorted `s` whose timestamp is not later. */
  function InsertByTime(s: seq<Event>, e: Event): (r: seq<Event>)
    requires SortedByTime(s)
    ensures |r| == |s| + 1
    ensures SortedByTime(r)
    ensures multiset(r) == multiset(s) + multiset{e}
  {
    if s == [] || s[|s| - 1].timestamp <= e.timestamp then s + [e]
    else
      var last := s[|s| - 1];
      var prefix := s[..|s| - 1];
      assert s == prefix + [last];
      var r' := InsertByTime(prefix, e);
      NotLaterThan(prefix, e, r', last.timestamp);
      SortedAppend(r', last);
      r' + [last]
  }

  /** Adding `e` to events no later than `t` and rearranging them keeps them no later
      than `t`, when `e` is not later either. */
  lemma NotLaterThan(s: seq<Event>, e: Event, r: seq<Event>, t: int)
    requires forall i :: 0 <= i < |s| ==> s[i].timestamp <= t
    requires e.timestamp <= t
    requires multiset(r) == multiset(s) + multiset{e}
    ensures forall i :: 0 <= i < |r| ==> r[i].timestamp <= t
  {
    forall i | 0 <= i < |r| ensures r[i].timestamp <= t {
      assert r[i] in multiset(r);
      if r[i] != e {
        assert r[i] in multiset(s);
        var k :| 0 <= k < |s| && s[k] == r[i];
      }
    }
  }

  lemma SortedAppend(s: seq<Event>, x: Event)
    requires SortedByTime(s)
    requires forall i :: 0 <= i < |s| ==> s[i].timestamp <= x.timestamp
    ensures SortedByTime(s + [x])
  {
  }

  /** Appending an event strictly later than `e` to both sides keeps the events at
      time `t` related as before. */
  lemma StableStep(prefix: seq<Event>, last: Event, e: Event, r: seq<Event>, t: int)
    requires e.timestamp < last.timestamp
    requires AtTime(r, t) == AtTime(prefix, t) + (if e.timestamp == t then [e] else [])
    ensures AtTime(r + [last], t) == AtTime(prefix + [last], t) + (if e.timestamp == t then [e] else [])
  {
    AtTimeAppend(r, last, t);
    AtTimeAppend(prefix, last, t);
    if last.timestamp == t {
      assert e.timestamp != t;
      assert AtTime(r, t) == AtTime(prefix, t);
      assert AtTime(r + [last], t) == AtTime(prefix, t) + [last];
    } else {
      assert AtTime(r + [last], t) == AtTime(r, t);
      assert AtTime(prefix + [last], t) == AtTime(prefix, t);
    }
  }

  /** Inserting keeps the events of every timestamp in their order and puts `e` last
      among the events of its own timestamp. */
  lemma {:induction false} InsertByTimeStable(s: seq<Event>, e: Event, t: int)
    requires SortedByTime(s)
    ensures AtTime(InsertByTime(s, e), t) == AtTime(s, t) + (if e.timestamp == t then [e] else [])
  {
    if s == [] || s[|s| - 1].timestamp <= e.timestamp {
      AtTimeAppend(s, e, t);
    } else {
      var last := s[|s| - 1];
      var prefix := s[..|s| - 1];
      assert s == prefix + [last];
      var r' := InsertByTime(prefix, e);
      assert InsertByTime(s, e) == r' + [last];
      InsertByTimeStable(prefix, e, t);
      StableStep(prefix, last, e, r', t);
    }
  }

  /** `usort($events, fn($a, $b) => $a['timestamp'] - $b['timestamp'])`, modelled as
      insertion sort, which is stable like `usort` since PHP 8.0. */
  function SortByTime(s: seq<Event>): (r: seq<Event>)
    ensures |r| == |s|
    ensures SortedByTime(r)
    ensures multiset(r) == multiset(s)
  {
    if s == [] then []
    else
      var r := InsertByTime(SortByTime(s[..|s| - 1]), s[|s| - 1]);
      assert s == s[..|s| - 1] + [s[|s| - 1]];
      r
  }

  /** The sort is stable: the events of each timestamp keep their flattened order. */
  lemma {:induction false} SortByTimeStable(s: seq<Event>, t: int)
    ensures AtTime(SortByTime(s), t) == AtTime(s, t)
  {
    if s != [] {
      var prefix := s[..|s| - 1];
      SortByTimeStable(prefix, t);
      InsertByTimeStable(SortByTime(prefix), s[|s| - 1], t);
    }
  }

  const EventLimit: nat := 50

  /** `get_cron_status`: flatten, sort by timestamp, report the first fifty events
      and the total. */
  method GetCronStatus(crons: CronTable) returns (r: CronStatus)
    ensures r.totalEvents == |TableEvents(crons)| == EntryCount(crons)
    ensures |r.events| == if r.totalEvents < EventLimit then r.totalEvents else EventLimit
    ensures r.events == SortByTime(TableEvents(crons))[..|r.events|]
    ensures SortedByTime(r.events)
  {
    var events := FlattenCron(crons);
    TableEventsCount(crons);
    var sorted := SortByTime(events);
    var n := if |sorted| < EventLimit then |sorted| else EventLimit;
    r := CronStatus(sorted[..n], |events|);
  }

  // ---------------------------------------------------------------- run_cron

  /** `$hooks[$hook]` when `isset`: the entries under the hook. */
  function HookLookup(hs: seq<HookEntries>, hook: string): (r: Option<seq<CronData>>)
    ensures r.None? <==> forall j :: 0 <= j < |hs| ==> hs[j].hook != hook
    ensures r.Some? ==> exists j :: 0 <= j < |hs| && hs[j].hook == hook && hs[j].entries == r.value
  {
    if hs == [] then None
    else if hs[0].hook == hook then Some(hs[0].entries)
    else
      var r := HookLookup(hs[1..], hook);
      if r.Some? then
        var j :| 0 <= j < |hs| - 1 && hs[1..][j].hook == hook && hs[1..][j].entries == r.value;
        assert hs[j + 1] == hs[1..][j];
        r
      else
        assert forall j :: 0 <= j < |hs| ==> hs[j].hook != hook by {
          forall j | 0 <= j < |hs| ensures hs[j].hook != hook {
            if j > 0 { assert hs[j] == hs[1..][j - 1]; }
          }
        }
        r
  }

  /** At this timestamp the hook has at least one entry to fire. */
  predicate Fires(slot: CronSlot, hook: string)
  {
    var l := HookLookup(slot.hooks, hook);
    l.Some? && l.value != []
  }

  /** The arguments of the event `run_cron` fires: the first entry of the hook at the
      first timestamp (in array order) that has one. */
  function FirstFiring(crons: CronTable, hook: string): (r: Option<seq<Value>>)
    ensures r.None? <==> forall i :: 0 <= i < |crons| ==> !Fires(crons[i], hook)
    ensures r.Some? ==> exists i :: 0 <= i < |crons| && Fires(crons[i], hook)
                          && (forall j :: 0 <= j < i ==> !Fires(crons[j], hook))
                          && r.value == HookLookup(crons[i].hooks, hook).value[0].args
  {
    if crons == [] then None
    else if Fires(crons[0], hook) then Some(HookLookup(crons[0].hooks, hook).value[0].args)
    else
      var r := FirstFiring(crons[1..], hook);
      if r.Some? then
        var i :| 0 <= i < |crons| - 1 && Fires(crons[1..][i], hook)
                 && (forall j :: 0 <= j < i ==> !Fires(crons[1..][j], hook))
                 && r.value == HookLookup(crons[1..][i].hooks, hook).value[0].args;
        assert crons[i + 1] == crons[1..][i];
        assert forall j :: 0 <= j < i + 1 ==> !Fires(crons[j], hook) by {
          forall j | 0 <= j < i + 1 ensures !Fires(crons[j], hook) {
            if j > 0 { assert crons[j] == crons[1..][j - 1]; }
          }
        }
        r
      else
        assert forall i :: 0 <= i < |crons| ==> !Fires(crons[i], hook) by {
          forall i | 0 <= i < |crons| ensures !Fires(crons[i], hook) {
            if i > 0 { assert crons[i] == crons[1..][i - 1]; }
          }
        }
        r
  }

  /** `run_cron`: find the first entry of the hook and fire it (`fired` holds the
      arguments handed to `do_action_ref_array`); 404 when no timestamp has one. */
  method RunCron(crons: CronTable, hook: string) returns (r: Response<string>, fired: Option<seq<Value>>)
    ensures r.Err? <==> forall i :: 0 <= i < |crons| ==> !Fires(crons[i], hook)
    ensures r.Err? ==> r == Err("not_found", NotFound) && fired.None?
    ensures r.Ok? ==> r.data == hook && fired == FirstFiring(crons, hook) && fired.Some?
  {
    fired := None;
    var found := false;
    var i := 0;
    while i < |crons|
      invariant 0 <= i <= |crons|
      invariant !found
      invariant forall j :: 0 <= j < i ==> !Fires(crons[j], hook)
    {
      var entries := HookLookup(crons[i].hooks, hook);
      if entries.Some? && entries.value != [] {
        found := true;
        fired := Some(entries.value[0].args);
        break;
      }
      i := i + 1;
    }
    if !found {
      return Err("not_found", NotFound), None;
    }
    assert FirstFiring(crons[i..], hook) == fired;
    FirstFiringSkips(crons, hook, i);
    r := Ok(hook);
  }

  /** Timestamps that do not fire can be skipped. */
  lemma {:induction false} FirstFiringSkips(crons: CronTable, hook: string, i: nat)
    requires i <= |crons|
    requires forall j :: 0 <= j < i ==> !Fires(crons[j], hook)
    ensures FirstFiring(crons, hook) == FirstFiring(crons[i..], hook)
  {
    if i > 0 {
      assert crons[1..][i - 1..] == crons[i..];
      FirstFiringSkips(crons[1..], hook, i - 1);
    }
  }
}
