/** The order in which plugins run for each method. */
module PluginOrder {
  import opened Wrappers

  const HIGH := 0
  const REGULAR := 1
  const ASYNC := 2

  /** What a plugin declares. Whether its declaration is valid is taken as given. */
  datatype Plugin = Plugin(name: string, priorities: map<string, int>, valid: bool)

  datatype MethodLists = MethodLists(sync: seq<string>, async: seq<string>)

  type Buckets = map<string, map<int, seq<string>>>

  // ----- the order

  predicate Declares(plugin: Plugin, rpc: string, priority: int) {
    rpc in plugin.priorities && plugin.priorities[rpc] == priority
  }

  /** The plugins with a priority for a method, in order of registration. */
  function Selected(plugins: seq<Plugin>, rpc: string, priority: int): seq<string> {
    if plugins == [] then []
    else
      var last := plugins[|plugins| - 1];
      Selected(plugins[..|plugins| - 1], rpc, priority) + if Declares(last, rpc, priority) then [last.name] else []
  }

  function ListsFor(plugins: seq<Plugin>, rpc: string): MethodLists {
    MethodLists(Selected(plugins, rpc, HIGH) + Selected(plugins, rpc, REGULAR), Selected(plugins, rpc, ASYNC))
  }

  /** Some plugin declares the method. */
  predicate Declared(plugins: seq<Plugin>, rpc: string) {
    plugins != [] &&
    (rpc in plugins[|plugins| - 1].priorities || Declared(plugins[..|plugins| - 1], rpc))
  }

  // ----- building it

  function Bucket(buckets: Buckets, rpc: string, priority: int): seq<string> {
    if rpc in buckets && priority in buckets[rpc] then buckets[rpc][priority] else []
  }

  method Append(buckets: Buckets, rpc: string, priority: int, name: string) returns (r: Buckets)
    ensures r.Keys == buckets.Keys + {rpc}
    ensures forall q, p :: Bucket(r, q, p) == Bucket(buckets, q, p) + if q == rpc && p == priority then [name] else []
  {
    r := buckets;
    if rpc !in r {
      r := r[rpc := map[]];
    }
    r := r[rpc := r[rpc][priority := Bucket(r, rpc, priority) + [name]]];
  }

  /** Adds a plugin to its bucket for each of its methods. */
  method AddPlugin(buckets: Buckets, plugin: Plugin) returns (r: Buckets)
    ensures r.Keys == buckets.Keys + plugin.priorities.Keys
    ensures forall rpc, p :: Bucket(r, rpc, p)
                             == Bucket(buckets, rpc, p) + if Declares(plugin, rpc, p) then [plugin.name] else []
  {
    hide Bucket;
    r := buckets;
    var left := plugin.priorities.Keys;
    while left != {}
      invariant left <= plugin.priorities.Keys
      invariant r.Keys == buckets.Keys + (plugin.priorities.Keys - left)
      invariant forall rpc, p :: Bucket(r, rpc, p)
                                 == Bucket(buckets, rpc, p) + if Declares(plugin, rpc, p) && rpc !in left then [plugin.name] else []
      decreases left
    {
      var rpc :| rpc in left;
      var priority := plugin.priorities[rpc];
      left := left - {rpc};
      r := Append(r, rpc, priority, plugin.name);
    }
  }

  /** Joins the buckets of a method, from the highest priority to the lowest. */
  method Consolidate(buckets: Buckets, rpc: string) returns (lists: MethodLists)
    ensures lists == MethodLists(Bucket(buckets, rpc, HIGH) + Bucket(buckets, rpc, REGULAR), Bucket(buckets, rpc, ASYNC))
  {
    lists := MethodLists([], []);
    var priority := HIGH;
    while priority <= ASYNC
      invariant HIGH <= priority <= ASYNC + 1
      invariant lists.sync == (if priority > HIGH then Bucket(buckets, rpc, HIGH) else [])
                              + if priority > REGULAR then Bucket(buckets, rpc, REGULAR) else []
      invariant lists.async == if priority > ASYNC then Bucket(buckets, rpc, ASYNC) else []
    {
      if priority < ASYNC {
        lists := lists.(sync := lists.sync + Bucket(buckets, rpc, priority));
      } else {
        lists := lists.(async := lists.async + Bucket(buckets, rpc, priority));
      }
      priority := priority + 1;
    }
  }

  method FillBuckets(plugins: seq<Plugin>) returns (r: Option<Buckets>)
    ensures r.None? <==> exists p :: p in plugins && !p.valid
    ensures r.Some? ==>
              && (forall rpc :: rpc in r.value <==> Declared(plugins, rpc))
              && (forall rpc, p :: Bucket(r.value, rpc, p) == Selected(plugins, rpc, p))
  {
    hide Declares;
    var buckets: Buckets := map[];
    for i := 0 to |plugins|
      invariant forall k :: 0 <= k < i ==> plugins[k].valid
      invariant forall rpc :: rpc in buckets <==> Declared(plugins[..i], rpc)
      invariant forall rpc, p :: Bucket(buckets, rpc, p) == Selected(plugins[..i], rpc, p)
    {
      hide Bucket;
      if !plugins[i].valid {
        return None;
      }
      assert plugins[..i + 1][..i] == plugins[..i];
      buckets := AddPlugin(buckets, plugins[i]);
    }
    assert plugins[..|plugins|] == plugins;
    return Some(buckets);
  }

  method PrioritizedMethods(plugins: seq<Plugin>) returns (r: Option<map<string, MethodLists>>)
    ensures r.None? <==> exists p :: p in plugins && !p.valid
    ensures r.Some? ==>
              && (forall rpc :: rpc in r.value <==> Declared(plugins, rpc))
              && (forall rpc :: rpc in r.value ==> r.value[rpc] == ListsFor(plugins, rpc))
  {
    hide Bucket, Selected, Declared;
    var filled := FillBuckets(plugins);
    if filled.None? {
      return None;
    }
    var buckets := filled.value;
    var left, lists: map<string, MethodLists> := buckets.Keys, map[];
    while left != {}
      invariant left <= buckets.Keys && lists.Keys == buckets.Keys - left
      invariant forall rpc :: rpc in lists ==> lists[rpc] == ListsFor(plugins, rpc)
      decreases left
    {
      var rpc :| rpc in left;
      left := left - {rpc};
      var current := Consolidate(buckets, rpc);
      lists := lists[rpc := current];
    }
    return Some(lists);
  }

  // ----- every plugin runs once

  lemma {:induction false} SelectedCount(plugins: seq<Plugin>, rpc: string, priority: int, k: nat)
    requires k < |plugins|
    requires forall i, j :: 0 <= i < j < |plugins| ==> plugins[i].name != plugins[j].name
    ensures multiset(Selected(plugins, rpc, priority))[plugins[k].name] == if Declares(plugins[k], rpc, priority) then 1 else 0
  {
    hide Declares;
    var front, last := plugins[..|plugins| - 1], plugins[|plugins| - 1];
    if k == |front| {
      SelectedNames(front, rpc, priority, last.name);
    } else {
      SelectedCount(front, rpc, priority, k);
    }
  }

  lemma {:induction false} SelectedNames(plugins: seq<Plugin>, rpc: string, priority: int, name: string)
    requires forall i :: 0 <= i < |plugins| ==> plugins[i].name != name
    ensures name !in Selected(plugins, rpc, priority)
  {
    if plugins != [] {
      SelectedNames(plugins[..|plugins| - 1], rpc, priority, name);
    }
  }

  /** Among plugins with different names, each runs exactly once for a method that it declares
      with one of the three priorities, and not at all for any other. */
  lemma RunsOnce(plugins: seq<Plugin>, rpc: string, k: nat)
    requires k < |plugins|
    requires forall i, j :: 0 <= i < j < |plugins| ==> plugins[i].name != plugins[j].name
    ensures var lists, p := ListsFor(plugins, rpc), plugins[k];
            multiset(lists.sync + lists.async)[p.name]
            == if rpc in p.priorities && HIGH <= p.priorities[rpc] <= ASYNC then 1 else 0
  {
    SelectedCount(plugins, rpc, HIGH, k);
    SelectedCount(plugins, rpc, REGULAR, k);
    SelectedCount(plugins, rpc, ASYNC, k);
    var lists := ListsFor(plugins, rpc);
    assert multiset(lists.sync + lists.async)
        == multiset(Selected(plugins, rpc, HIGH)) + multiset(Selected(plugins, rpc, REGULAR)) + multiset(Selected(plugins, rpc, ASYNC));
  }

  /** Selecting goes plugin by plugin, in order. */
  lemma {:induction false} SelectedInOrder(a: seq<Plugin>, b: seq<Plugin>, rpc: string, priority: int)
    ensures Selected(a + b, rpc, priority) == Selected(a, rpc, priority) + Selected(b, rpc, priority)
    decreases |b|
  {
    hide Declares;
    if b == [] {
      assert a + b == a;
    } else {
      var front, last := b[..|b| - 1], b[|b| - 1];
      SelectedInOrder(a, front, rpc, priority);
      assert (a + b)[..|a + b| - 1] == a + front && (a + b)[|a + b| - 1] == last;
    }
  }

  lemma SelectedOne(p: Plugin, rpc: string, priority: int)
    ensures Selected([p], rpc, priority) == if rpc in p.priorities && p.priorities[rpc] == priority then [p.name] else []
  {
    assert [p][..0] == [];
  }

  /** Among plugins with different names, the asynchronous ones are exactly those declared so, with
      priority 2, and the synchronous ones those with priority 0, in front, and 1, behind. */
  lemma RunsWhereDeclared(plugins: seq<Plugin>, rpc: string, k: nat)
    requires k < |plugins|
    requires forall i, j :: 0 <= i < j < |plugins| ==> plugins[i].name != plugins[j].name
    ensures var lists, p := ListsFor(plugins, rpc), plugins[k];
            && (p.name in lists.async <==> rpc in p.priorities && p.priorities[rpc] == 2)
            && (p.name in lists.sync <==> rpc in p.priorities && 0 <= p.priorities[rpc] <= 1)
            && lists.sync == Selected(plugins, rpc, 0) + Selected(plugins, rpc, 1)
            && (p.name in Selected(plugins, rpc, 0) <==> rpc in p.priorities && p.priorities[rpc] == 0)
  {
    SelectedCount(plugins, rpc, HIGH, k);
    SelectedCount(plugins, rpc, REGULAR, k);
    SelectedCount(plugins, rpc, ASYNC, k);
  }

  lemma {:induction false} DeclaredIff(plugins: seq<Plugin>, rpc: string)
    ensures Declared(plugins, rpc) <==> exists p :: p in plugins && rpc in p.priorities
  {
    if plugins != [] {
      var front, last := plugins[..|plugins| - 1], plugins[|plugins| - 1];
      DeclaredIff(front, rpc);
      assert plugins == front + [last];
      assert last in plugins && forall p :: p in front ==> p in plugins;
    }
  }
}
