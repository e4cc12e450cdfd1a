/** Collecting the outputs of build targets in batches. */
module BatchedOutputs {
  import opened Wrappers

  /** Output paths by mnemonic. */
  type Row = map<string, seq<string>>

  /** Rows by target label. */
  type Table = map<string, Row>

  datatype Target = Target(id: nat, name: string)

  datatype Action = Action(target: nat, mnemonic: string, outputs: seq<nat>)

  // ----- path fragments

  /** A piece of a path; parent zero stands for no parent. */
  datatype Fragment = Fragment(id: nat, name: string, parent: nat)

  function Labels(fragments: seq<Fragment>): map<nat, string> {
    if fragments == [] then map[]
    else
      var last := fragments[|fragments| - 1];
      Labels(fragments[..|fragments| - 1])[last.id := last.name]
  }

  function Parents(fragments: seq<Fragment>): (parents: map<nat, nat>)
    ensures forall id :: id in parents ==> parents[id] != 0
  {
    if fragments == [] then map[]
    else
      var last, before := fragments[|fragments| - 1], Parents(fragments[..|fragments| - 1]);
      if last.parent != 0 then before[last.id := last.parent] else before
  }

  /** The ids from the root of a fragment's chain of parents down to the fragment. */
  predicate IsChain(parents: map<nat, nat>, chain: seq<nat>, id: nat) {
    if id == 0 then chain == []
    else
      && |chain| > 0 && chain[|chain| - 1] == id && chain[0] !in parents
      && forall i :: 1 <= i < |chain| ==> chain[i] in parents && parents[chain[i]] == chain[i - 1] && chain[i] != 0
  }

  function Join(parts: seq<string>): string {
    if parts == [] then ""
    else if |parts| == 1 then parts[0]
    else parts[0] + "/" + Join(parts[1..])
  }

  /** Labels are separated by one slash each. */
  lemma {:induction false} JoinSeparates(a: seq<string>, b: seq<string>)
    requires a != [] && b != []
    ensures Join(a + b) == Join(a) + "/" + Join(b)
    decreases |a|
  {
    if |a| == 1 {
      assert (a + b)[1..] == b;
    } else {
      assert (a + b)[1..] == a[1..] + b;
      JoinSeparates(a[1..], b);
    }
  }

  lemma JoinOne(part: string)
    ensures Join([part]) == part && Join([]) == ""
  {
  }

  /** The labels from root to leaf, if every fragment on the way has one. */
  function ChainPath(labels: map<nat, string>, chain: seq<nat>): Option<string> {
    if forall i :: 0 <= i < |chain| ==> chain[i] in labels
    then Some(Join(seq(|chain|, i requires 0 <= i < |chain| => labels[chain[i]])))
    else None
  }

  /** A chain without its leaf is the parent's chain. */
  lemma ChainOfParent(parents: map<nat, nat>, chain: seq<nat>, id: nat)
    requires IsChain(parents, chain, id) && id != 0
    requires forall k :: k in parents ==> parents[k] != 0
    ensures id in parents ==> |chain| > 1 && IsChain(parents, chain[..|chain| - 1], parents[id])
    ensures id !in parents ==> |chain| == 1
  {
    if |chain| > 1 {
      var i := |chain| - 1;
      assert chain[i] in parents && parents[chain[i]] == chain[i - 1];
    }
  }

  function Reversed(s: seq<string>): seq<string> {
    seq(|s|, i requires 0 <= i < |s| => s[|s| - 1 - i])
  }

  /** Climbs from a fragment to its root. */
  method BuildPath(labels: map<nat, string>, parents: map<nat, nat>, id: nat, ghost chain: seq<nat>)
    returns (path: Option<string>)
    requires IsChain(parents, chain, id)
    requires forall k :: k in parents ==> parents[k] != 0
    ensures path == ChainPath(labels, chain)
  {
    var parts: seq<string>, current := [], id;
    ghost var left := chain;
    while current != 0
      invariant IsChain(parents, left, current)
      invariant left <= chain && |parts| == |chain| - |left|
      invariant forall i :: |left| <= i < |chain| ==> chain[i] in labels && parts[|chain| - 1 - i] == labels[chain[i]]
      decreases |left|
    {
      ChainOfParent(parents, left, current);
      assert left[|left| - 1] == chain[|left| - 1];
      if current !in labels {
        return None;
      }
      parts := parts + [labels[current]];
      left := left[..|left| - 1];
      current := if current in parents then parents[current] else 0;
    }
    assert Reversed(parts) == seq(|chain|, i requires 0 <= i < |chain| => labels[chain[i]]);
    return Some(Join(Reversed(parts)));
  }

  /** Builds the paths of all fragments, in whatever order the workers complete them; a worker
      may skip a fragment whose path is already there. */
  method BuildPaths(fragments: seq<Fragment>, completed: seq<Fragment>, skips: seq<bool>, ghost chains: map<nat, seq<nat>>)
    returns (paths: Option<map<nat, string>>)
    requires forall f :: f in fragments ==> f.id in chains && IsChain(Parents(fragments), chains[f.id], f.id)
    requires multiset(completed) == multiset(fragments) && |skips| == |completed|
    ensures paths.None? <==> exists f :: f in fragments && ChainPath(Labels(fragments), chains[f.id]).None?
    ensures paths.Some? ==>
              && (forall id :: id in paths.value <==> exists f :: f in fragments && f.id == id)
              && (forall f :: f in fragments ==> Some(paths.value[f.id]) == ChainPath(Labels(fragments), chains[f.id]))
  {
    hide IsChain, ChainPath, Labels, Parents;
    var labels, parents := Labels(fragments), Parents(fragments);
    assert forall f :: f in fragments ==> f in multiset(completed);
    var done: map<nat, string> := map[];
    for n := 0 to |completed|
      invariant forall i :: 0 <= i < n ==> completed[i].id in done
      invariant forall id :: id in done ==> exists f :: f in fragments && f.id == id
      invariant forall f :: f in fragments && f.id in done ==> Some(done[f.id]) == ChainPath(labels, chains[f.id])
    {
      var f := completed[n];
      assert f in multiset(completed) && f in multiset(fragments);
      if skips[n] && f.id in done {
        continue;
      }
      var path := BuildPath(labels, parents, f.id, chains[f.id]);
      if path.None? {
        return None;
      }
      done := done[f.id := path.value];
    }
    return Some(done);
  }

  // ----- outputs of a target

  datatype Context = Context(outputs: map<nat, map<string, seq<nat>>>, artifacts: map<nat, nat>, paths: map<nat, string>)

  /** The outputs of all of a target's actions with a mnemonic, in order. */
  function OutputsOf(actions: seq<Action>, target: nat, mnemonic: string): seq<nat> {
    if actions == [] then []
    else
      var last := actions[|actions| - 1];
      OutputsOf(actions[..|actions| - 1], target, mnemonic)
      + if last.target == target && last.mnemonic == mnemonic then last.outputs else []
  }

  /** The target has an action with the mnemonic. */
  predicate Declared(actions: seq<Action>, target: nat, mnemonic: string) {
    actions != [] &&
    var last := actions[|actions| - 1];
    (last.target == target && last.mnemonic == mnemonic) || Declared(actions[..|actions| - 1], target, mnemonic)
  }

  predicate Grouped<T>(grouped: map<nat, map<string, T>>, target: nat, mnemonic: string) {
    target in grouped && mnemonic in grouped[target]
  }

  /** What a target has for a mnemonic so far. */
  function GroupOf(grouped: map<nat, map<string, seq<nat>>>, target: nat, mnemonic: string): Option<seq<nat>> {
    if Grouped(grouped, target, mnemonic) then Some(grouped[target][mnemonic]) else None
  }

  /** Adds the outputs of one action to its group. */
  method GroupAction(grouped: map<nat, map<string, seq<nat>>>, a: Action) returns (r: map<nat, map<string, seq<nat>>>)
    ensures forall t, m :: GroupOf(r, t, m) ==
                           if t == a.target && m == a.mnemonic then
                             Some((if GroupOf(grouped, t, m) == None then [] else GroupOf(grouped, t, m).value) + a.outputs)
                           else GroupOf(grouped, t, m)
  {
    r := grouped;
    if a.target !in r {
      r := r[a.target := map[]];
    }
    if a.mnemonic !in r[a.target] {
      r := r[a.target := r[a.target][a.mnemonic := []]];
    }
    r := r[a.target := r[a.target][a.mnemonic := r[a.target][a.mnemonic] + a.outputs]];
  }

  /** The group that the actions give a target and a mnemonic. */
  function GroupIn(actions: seq<Action>, target: nat, mnemonic: string): Option<seq<nat>> {
    if Declared(actions, target, mnemonic) then Some(OutputsOf(actions, target, mnemonic)) else None
  }

  lemma {:induction false} UndeclaredHasNone(actions: seq<Action>, target: nat, mnemonic: string)
    requires !Declared(actions, target, mnemonic)
    ensures OutputsOf(actions, target, mnemonic) == []
  {
    if actions != [] {
      UndeclaredHasNone(actions[..|actions| - 1], target, mnemonic);
    }
  }

  lemma GroupOfNext(actions: seq<Action>, i: nat, t: nat, m: string)
    requires i < |actions|
    ensures GroupIn(actions[..i + 1], t, m) ==
            var before, a := GroupIn(actions[..i], t, m), actions[i];
            if t == a.target && m == a.mnemonic then Some((if before == None then [] else before.value) + a.outputs)
            else before
  {
    assert actions[..i + 1][..i] == actions[..i];
    assert OutputsOf(actions[..i], t, m) + [] == OutputsOf(actions[..i], t, m);
    if !Declared(actions[..i], t, m) {
      UndeclaredHasNone(actions[..i], t, m);
    }
  }

  method GroupActions(actions: seq<Action>) returns (grouped: map<nat, map<string, seq<nat>>>)
    ensures forall t, m :: Grouped(grouped, t, m) <==> Declared(actions, t, m)
    ensures forall t, m :: Grouped(grouped, t, m) ==> grouped[t][m] == OutputsOf(actions, t, m)
  {
    grouped := map[];
    for i := 0 to |actions|
      invariant forall t, m :: GroupOf(grouped, t, m) == GroupIn(actions[..i], t, m)
    {
      hide GroupOf, GroupIn;
      grouped := GroupAction(grouped, actions[i]);
      forall t, m ensures GroupOf(grouped, t, m) == GroupIn(actions[..i + 1], t, m) {
        GroupOfNext(actions, i, t, m);
      }
    }
    assert actions[..|actions|] == actions;
    forall t, m ensures Grouped(grouped, t, m) <==> Declared(actions, t, m)
                ensures Grouped(grouped, t, m) ==> grouped[t][m] == OutputsOf(actions, t, m) {
      assert GroupOf(grouped, t, m) == GroupIn(actions, t, m);
    }
  }

  /** Some output that is an artifact has no path. */
  predicate Fails(ctx: Context, outputs: seq<nat>) {
    exists o :: o in outputs && o in ctx.artifacts && ctx.artifacts[o] !in ctx.paths
  }

  /** The paths of the outputs that are artifacts. */
  function PathsOf(ctx: Context, outputs: seq<nat>): seq<string> {
    if outputs == [] then []
    else
      var last := outputs[|outputs| - 1];
      PathsOf(ctx, outputs[..|outputs| - 1])
      + if last in ctx.artifacts && ctx.artifacts[last] in ctx.paths then [ctx.paths[ctx.artifacts[last]]] else []
  }

  predicate TargetFails(ctx: Context, target: Target) {
    target.id in ctx.outputs && exists m :: m in ctx.outputs[target.id] && Fails(ctx, ctx.outputs[target.id][m])
  }

  /** A target's row: its mnemonics that have paths. */
  function RowOf(ctx: Context, target: Target): (row: Row)
    ensures forall m :: m in row ==> row[m] != []
  {
    if target.id !in ctx.outputs then map[]
    else
      var outputs := ctx.outputs[target.id];
      map m | m in outputs && PathsOf(ctx, outputs[m]) != [] :: PathsOf(ctx, outputs[m])
  }

  method ResolvePaths(ctx: Context, outputs: seq<nat>) returns (paths: Option<seq<string>>)
    ensures paths == if Fails(ctx, outputs) then None else Some(PathsOf(ctx, outputs))
  {
    var found: seq<string> := [];
    for i := 0 to |outputs|
      invariant found == PathsOf(ctx, outputs[..i]) && !Fails(ctx, outputs[..i])
    {
      assert outputs[..i + 1][..i] == outputs[..i] && outputs[..i + 1] == outputs[..i] + [outputs[i]];
      if outputs[i] in ctx.artifacts {
        if ctx.artifacts[outputs[i]] !in ctx.paths {
          return None;
        }
        found := found + [ctx.paths[ctx.artifacts[outputs[i]]]];
      }
    }
    assert outputs[..|outputs|] == outputs;
    return Some(found);
  }

  method TargetRow(ctx: Context, target: Target) returns (row: Option<Row>)
    ensures row == if TargetFails(ctx, target) then None else Some(RowOf(ctx, target))
  {
    hide Fails, PathsOf;
    if target.id !in ctx.outputs {
      return Some(map[]);
    }
    var outputs := ctx.outputs[target.id];
    var left, found: Row := outputs.Keys, map[];
    while left != {}
      invariant left <= outputs.Keys
      invariant forall m :: m in outputs && m !in left ==> !Fails(ctx, outputs[m])
      invariant forall m :: m in found <==> m in outputs && m !in left && PathsOf(ctx, outputs[m]) != []
      invariant forall m :: m in found ==> found[m] == PathsOf(ctx, outputs[m])
      decreases left
    {
      var m :| m in left;
      left := left - {m};
      var paths := ResolvePaths(ctx, outputs[m]);
      if paths.None? {
        return None;
      }
      if paths.value != [] {
        found := found[m := paths.value];
      }
    }
    assert found == RowOf(ctx, target);
    return Some(found);
  }

  // ----- batches and their merge

  function Cell(row: Row, m: string): seq<string> {
    if m in row then row[m] else []
  }

  function RowAt(table: Table, name: string): Row {
    if name in table then table[name] else map[]
  }

  function Extend(a: Row, b: Row): Row {
    map m | m in a.Keys + b.Keys :: Cell(a, m) + Cell(b, m)
  }

  /** One table added to another, row by row and cell by cell. */
  function Merge(a: Table, b: Table): Table {
    map name | name in a.Keys + b.Keys :: Extend(RowAt(a, name), RowAt(b, name))
  }

  /** Within a batch, a later target takes the place of an earlier one with the same label. */
  function BatchTable(ctx: Context, batch: seq<Target>): Table {
    if batch == [] then map[]
    else
      var last, table := batch[|batch| - 1], BatchTable(ctx, batch[..|batch| - 1]);
      if RowOf(ctx, last) == map[] then table else table[last.name := RowOf(ctx, last)]
  }

  function Min(a: nat, b: nat): nat {
    if a <= b then a else b
  }

  /** The table after the batches of the remaining targets are merged in. */
  function MergeBatches(ctx: Context, table: Table, targets: seq<Target>, size: nat): Table
    requires size > 0
    decreases |targets|
  {
    if targets == [] then table
    else
      var n := Min(size, |targets|);
      MergeBatches(ctx, Merge(table, BatchTable(ctx, targets[..n])), targets[n..], size)
  }

  method ProcessBatch(ctx: Context, batch: seq<Target>) returns (table: Option<Table>)
    ensures table.None? <==> exists t :: t in batch && TargetFails(ctx, t)
    ensures table.Some? ==> table.value == BatchTable(ctx, batch)
  {
    hide TargetFails, RowOf;
    var found: Table := map[];
    for i := 0 to |batch|
      invariant found == BatchTable(ctx, batch[..i])
      invariant forall k :: 0 <= k < i ==> !TargetFails(ctx, batch[k])
    {
      assert batch[..i + 1][..i] == batch[..i];
      var row := TargetRow(ctx, batch[i]);
      if row.None? {
        return None;
      }
      if row.value != map[] {
        found := found[batch[i].name := row.value];
      }
    }
    assert batch[..|batch|] == batch;
    return Some(found);
  }

  method MergeRow(row: Row, more: Row) returns (r: Row)
    ensures r == Extend(row, more)
  {
    var left := more.Keys;
    r := row;
    while left != {}
      invariant left <= more.Keys
      invariant r.Keys == row.Keys + (more.Keys - left)
      invariant forall m :: m in r ==> r[m] == Cell(row, m) + if m in left then [] else Cell(more, m)
      decreases left
    {
      var m :| m in left;
      left := left - {m};
      if m !in r {
        r := r[m := []];
      }
      r := r[m := r[m] + more[m]];
    }
  }

  method MergeTable(table: Table, more: Table) returns (r: Table)
    ensures r == Merge(table, more)
  {
    hide Extend;
    var left := more.Keys;
    r := table;
    while left != {}
      invariant left <= more.Keys
      invariant r.Keys == table.Keys + (more.Keys - left)
      invariant forall n :: n in r ==> r[n] == MergedRow(table, more, left, n)
      decreases left
    {
      var n :| n in left;
      left := left - {n};
      var row := MergeRow(if n in r then r[n] else map[], more[n]);
      r := r[n := row];
    }
    forall n | n in r ensures r[n] == Extend(RowAt(table, n), RowAt(more, n)) {
      ExtendEmpty(RowAt(table, n));
    }
  }

  /** The row of a label while some labels are left to merge. */
  function MergedRow(table: Table, more: Table, left: set<string>, n: string): Row {
    if n in more && n !in left then Extend(RowAt(table, n), more[n]) else RowAt(table, n)
  }

  lemma ExtendEmpty(row: Row)
    ensures Extend(row, map[]) == row && Extend(map[], row) == row
  {
    assert forall m :: m in row ==> row[m] + [] == row[m] && [] + row[m] == row[m];
    assert Extend(row, map[]) == row;
    assert Extend(map[], row) == row;
  }

  function BatchSize(count: nat, workers: nat): (size: nat)
    requires workers > 0
    ensures size > 0
  {
    if count / (workers * 2) > 1 then count / (workers * 2) else 1
  }

  /** Collects the outputs of all targets with a number of workers. */
  method AllOutputs(ctx: Context, targets: seq<Target>, workers: nat) returns (table: Option<Table>)
    requires workers > 0
    ensures table.None? <==> exists t :: t in targets && TargetFails(ctx, t)
    ensures table.Some? ==> table.value == MergeBatches(ctx, map[], targets, BatchSize(|targets|, workers))
    ensures table.Some? ==>
              ((forall name, m :: At(table.value, name, m) == InTurn(ctx, targets, name, m))
               <==> DistinctInBatches(ctx, targets, BatchSize(|targets|, workers)))
  {
    hide TargetFails, Merge, BatchTable, BatchSize, DistinctInBatches, InTurn, At;
    BatchedIffDistinct(ctx, targets, BatchSize(|targets|, workers));
    var size := BatchSize(|targets|, workers);
    var merged: Table, i := map[], 0;
    while i < |targets|
      invariant 0 <= i <= |targets|
      invariant MergeBatches(ctx, merged, targets[i..], size) == MergeBatches(ctx, map[], targets, size)
      invariant forall k :: 0 <= k < i ==> !TargetFails(ctx, targets[k])
    {
      var n := Min(size, |targets| - i);
      var batch := targets[i..i + n];
      assert targets[i..][..n] == batch && targets[i..][n..] == targets[i + n..];
      var result := ProcessBatch(ctx, batch);
      if result.None? {
        var t :| t in batch && TargetFails(ctx, t);
        assert t in targets;
        return None;
      }
      forall k | i <= k < i + n ensures !TargetFails(ctx, targets[k]) {
        assert targets[k] == batch[k - i];
      }
      merged := MergeTable(merged, result.value);
      i := i + n;
    }
    assert targets[i..] == [];
    return Some(merged);
  }

  // ----- what batching may lose

  function At(table: Table, name: string, m: string): seq<string> {
    Cell(RowAt(table, name), m)
  }

  /** All paths of the targets with a label, in order: what one pass over the targets collects. */
  function InTurn(ctx: Context, targets: seq<Target>, name: string, m: string): seq<string> {
    if targets == [] then []
    else
      var last := targets[|targets| - 1];
      InTurn(ctx, targets[..|targets| - 1], name, m) + if last.name == name then Cell(RowOf(ctx, last), m) else []
  }

  lemma {:induction false} InTurnConcat(ctx: Context, a: seq<Target>, b: seq<Target>, name: string, m: string)
    ensures InTurn(ctx, a + b, name, m) == InTurn(ctx, a, name, m) + InTurn(ctx, b, name, m)
  {
    hide RowOf, Cell;
    if b == [] {
      assert a + b == a;
    } else {
      assert (a + b)[..|a + b| - 1] == a + b[..|b| - 1];
      InTurnConcat(ctx, a, b[..|b| - 1], name, m);
    }
  }

  /** No two targets of the batch that have outputs share a label. */
  predicate Distinct(ctx: Context, batch: seq<Target>) {
    forall i, j :: 0 <= i < j < |batch| && RowOf(ctx, batch[i]) != map[] && RowOf(ctx, batch[j]) != map[]
                   ==> batch[i].name != batch[j].name
  }

  predicate DistinctInBatches(ctx: Context, targets: seq<Target>, size: nat)
    requires size > 0
    decreases |targets|
  {
    targets == [] ||
    var n := Min(size, |targets|);
    Distinct(ctx, targets[..n]) && DistinctInBatches(ctx, targets[n..], size)
  }

  lemma MergeAt(a: Table, b: Table, name: string, m: string)
    ensures At(Merge(a, b), name, m) == At(a, name, m) + At(b, name, m)
  {
  }

  lemma {:induction false} AbsentInBatch(ctx: Context, batch: seq<Target>, name: string, m: string)
    requires forall i :: 0 <= i < |batch| && RowOf(ctx, batch[i]) != map[] ==> batch[i].name != name
    ensures name !in BatchTable(ctx, batch) && InTurn(ctx, batch, name, m) == []
  {
    if batch != [] {
      AbsentInBatch(ctx, batch[..|batch| - 1], name, m);
    }
  }

  /** A batch without shared labels loses nothing. */
  lemma {:induction false} DistinctBatchKeepsAll(ctx: Context, batch: seq<Target>, name: string, m: string)
    requires Distinct(ctx, batch)
    ensures At(BatchTable(ctx, batch), name, m) == InTurn(ctx, batch, name, m)
  {
    if batch != [] {
      var front, last := batch[..|batch| - 1], batch[|batch| - 1];
      DistinctBatchKeepsAll(ctx, front, name, m);
      if last.name == name && RowOf(ctx, last) != map[] {
        AbsentInBatch(ctx, front, name, m);
      }
    }
  }

  lemma {:induction false} BatchAddsNothing(ctx: Context, batch: seq<Target>, name: string, m: string)
    ensures |At(BatchTable(ctx, batch), name, m)| <= |InTurn(ctx, batch, name, m)|
  {
    if batch != [] {
      BatchAddsNothing(ctx, batch[..|batch| - 1], name, m);
    }
  }

  lemma {:induction false} InTurnHas(ctx: Context, batch: seq<Target>, i: nat, m: string)
    requires i < |batch| && m in RowOf(ctx, batch[i])
    ensures InTurn(ctx, batch, batch[i].name, m) != []
  {
    hide RowOf;
    assert RowOf(ctx, batch[i])[m] != [];
    if i < |batch| - 1 {
      InTurnHas(ctx, batch[..|batch| - 1], i, m);
    }
  }

  /** The earlier of two targets that share a label is lost. */
  lemma {:induction false} EarlierIsLost(ctx: Context, batch: seq<Target>, i: nat, j: nat, m: string)
    requires i < j < |batch| && m in RowOf(ctx, batch[i])
    requires batch[i].name == batch[j].name && RowOf(ctx, batch[j]) != map[]
    ensures |At(BatchTable(ctx, batch), batch[i].name, m)| < |InTurn(ctx, batch, batch[i].name, m)|
  {
    hide RowOf;
    var front, last := batch[..|batch| - 1], batch[|batch| - 1];
    if last.name == batch[i].name && RowOf(ctx, last) != map[] {
      InTurnHas(ctx, front, i, m);
    } else {
      EarlierIsLost(ctx, front, i, j, m);
    }
  }

  lemma {:induction false} MergedAddsNothing(ctx: Context, table: Table, targets: seq<Target>, size: nat, name: string, m: string)
    requires size > 0
    ensures |At(MergeBatches(ctx, table, targets, size), name, m)| <= |At(table, name, m)| + |InTurn(ctx, targets, name, m)|
    decreases |targets|
  {
    hide At, BatchTable, Merge, InTurn;
    if targets == [] {
    } else {
      var n := Min(size, |targets|);
      var batch, rest := targets[..n], targets[n..];
      var next := Merge(table, BatchTable(ctx, batch));
      MergedAddsNothing(ctx, next, rest, size, name, m);
      MergeAt(table, BatchTable(ctx, batch), name, m);
      BatchAddsNothing(ctx, batch, name, m);
      InTurnConcat(ctx, batch, rest, name, m);
      assert batch + rest == targets;
    }
  }

  /** Without shared labels in a batch, batches collect what one pass collects. */
  lemma {:induction false} DistinctKeepsAll(ctx: Context, table: Table, targets: seq<Target>, size: nat, name: string, m: string)
    requires size > 0 && DistinctInBatches(ctx, targets, size)
    ensures At(MergeBatches(ctx, table, targets, size), name, m) == At(table, name, m) + InTurn(ctx, targets, name, m)
    decreases |targets|
  {
    hide At, BatchTable, Merge, Distinct;
    if targets != [] {
      hide InTurn;
      var n := Min(size, |targets|);
      var batch, rest := targets[..n], targets[n..];
      DistinctKeepsAll(ctx, Merge(table, BatchTable(ctx, batch)), rest, size, name, m);
      MergeAt(table, BatchTable(ctx, batch), name, m);
      DistinctBatchKeepsAll(ctx, batch, name, m);
      InTurnConcat(ctx, batch, rest, name, m);
      assert batch + rest == targets;
    }
  }

  /** A shared label in a batch loses paths. */
  lemma {:induction false} SharedLosesPaths(ctx: Context, table: Table, targets: seq<Target>, size: nat) returns (name: string, m: string)
    requires size > 0 && !DistinctInBatches(ctx, targets, size)
    ensures |At(MergeBatches(ctx, table, targets, size), name, m)| < |At(table, name, m)| + |InTurn(ctx, targets, name, m)|
    decreases |targets|
  {
    hide At, BatchTable, Merge, InTurn, RowOf;
    var n := Min(size, |targets|);
    var batch, rest := targets[..n], targets[n..];
    var next := Merge(table, BatchTable(ctx, batch));
    if Distinct(ctx, batch) {
      name, m := SharedLosesPaths(ctx, next, rest, size);
      BatchAddsNothing(ctx, batch, name, m);
    } else {
      var i, j :| 0 <= i < j < |batch| && RowOf(ctx, batch[i]) != map[] && RowOf(ctx, batch[j]) != map[] && batch[i].name == batch[j].name;
      m :| m in RowOf(ctx, batch[i]);
      name := batch[i].name;
      EarlierIsLost(ctx, batch, i, j, m);
      MergedAddsNothing(ctx, next, rest, size, name, m);
    }
    MergeAt(table, BatchTable(ctx, batch), name, m);
    InTurnConcat(ctx, batch, rest, name, m);
    assert batch + rest == targets;
  }

  /** Batches collect what one pass over the targets collects exactly when no batch holds two
      targets with outputs and the same label. */
  lemma BatchedIffDistinct(ctx: Context, targets: seq<Target>, size: nat)
    requires size > 0
    ensures (forall name, m :: At(MergeBatches(ctx, map[], targets, size), name, m) == InTurn(ctx, targets, name, m))
            <==> DistinctInBatches(ctx, targets, size)
  {
    hide MergeBatches, InTurn, DistinctInBatches;
    if DistinctInBatches(ctx, targets, size) {
      forall name, m ensures At(MergeBatches(ctx, map[], targets, size), name, m) == InTurn(ctx, targets, name, m) {
        DistinctKeepsAll(ctx, map[], targets, size, name, m);
      }
    } else {
      var name, m := SharedLosesPaths(ctx, map[], targets, size);
    }
  }

  // ----- the number of workers

  /** Every row and every cell of the table holds something. */
  predicate Full(table: Table) {
    forall name :: name in table ==> table[name] != map[] && forall m :: m in table[name] ==> table[name][m] != []
  }

  lemma {:induction false} BatchIsFull(ctx: Context, batch: seq<Target>)
    ensures Full(BatchTable(ctx, batch))
  {
    hide RowOf;
    if batch != [] {
      BatchIsFull(ctx, batch[..|batch| - 1]);
    }
  }

  lemma MergeIsFull(a: Table, b: Table)
    requires Full(a) && Full(b)
    ensures Full(Merge(a, b))
  {
    forall name | name in Merge(a, b)
      ensures Merge(a, b)[name] != map[] && forall m :: m in Merge(a, b)[name] ==> Merge(a, b)[name][m] != []
    {
      var x, y := RowAt(a, name), RowAt(b, name);
      var m :| m in x.Keys + y.Keys;
      assert m in Extend(x, y);
    }
  }

  lemma {:induction false} MergedIsFull(ctx: Context, table: Table, targets: seq<Target>, size: nat)
    requires size > 0 && Full(table)
    ensures Full(MergeBatches(ctx, table, targets, size))
    decreases |targets|
  {
    hide Full, Merge, BatchTable;
    if targets != [] {
      var n := Min(size, |targets|);
      BatchIsFull(ctx, targets[..n]);
      MergeIsFull(table, BatchTable(ctx, targets[..n]));
      MergedIsFull(ctx, Merge(table, BatchTable(ctx, targets[..n])), targets[n..], size);
    }
  }

  /** Full tables with the same cells are the same. */
  lemma SameCells(a: Table, b: Table)
    requires Full(a) && Full(b) && forall name, m :: At(a, name, m) == At(b, name, m)
    ensures a == b
  {
    forall name ensures name in a <==> name in b {
      if name in a {
        var m :| m in a[name];
        assert At(a, name, m) != [];
      }
      if name in b {
        var m :| m in b[name];
        assert At(b, name, m) != [];
      }
    }
    forall name | name in a ensures a[name] == b[name] {
      forall m ensures m in a[name] <==> m in b[name] {
        assert At(a, name, m) == At(b, name, m);
      }
      forall m | m in a[name] ensures a[name][m] == b[name][m] {
        assert At(a, name, m) == At(b, name, m);
      }
    }
  }

  lemma {:induction false} DistinctInAllBatches(ctx: Context, targets: seq<Target>, size: nat)
    requires size > 0 && Distinct(ctx, targets)
    ensures DistinctInBatches(ctx, targets, size)
    decreases |targets|
  {
    if targets != [] {
      var n := Min(size, |targets|);
      DistinctInAllBatches(ctx, targets[n..], size);
    }
  }

  /** With distinct labels, the collected table is the same for every number of workers. */
  lemma SameForAllWorkers(ctx: Context, targets: seq<Target>, workers: nat, workers': nat)
    requires workers > 0 && workers' > 0 && Distinct(ctx, targets)
    ensures MergeBatches(ctx, map[], targets, BatchSize(|targets|, workers))
            == MergeBatches(ctx, map[], targets, BatchSize(|targets|, workers'))
  {
    hide MergeBatches, InTurn, DistinctInBatches, Distinct, BatchSize, At;
    var size, size' := BatchSize(|targets|, workers), BatchSize(|targets|, workers');
    DistinctInAllBatches(ctx, targets, size);
    DistinctInAllBatches(ctx, targets, size');
    BatchedIffDistinct(ctx, targets, size);
    BatchedIffDistinct(ctx, targets, size');
    MergedIsFull(ctx, map[], targets, size);
    MergedIsFull(ctx, map[], targets, size');
    SameCells(MergeBatches(ctx, map[], targets, size), MergeBatches(ctx, map[], targets, size'));
  }

  // ----- from fragments to the table

  datatype Artifact = Artifact(id: nat, fragment: nat)

  function FragmentOf(artifacts: seq<Artifact>): map<nat, nat> {
    if artifacts == [] then map[]
    else
      var last := artifacts[|artifacts| - 1];
      FragmentOf(artifacts[..|artifacts| - 1])[last.id := last.fragment]
  }

  /** A path of some output of a target with a mnemonic. */
  ghost predicate IsOutputPath(ctx: Context, target: Target, m: string, path: string) {
    && target.id in ctx.outputs && m in ctx.outputs[target.id]
    && exists o :: o in ctx.outputs[target.id][m] && o in ctx.artifacts && ctx.artifacts[o] in ctx.paths
                   && ctx.paths[ctx.artifacts[o]] == path
  }

  lemma {:induction false} PathsComeFrom(ctx: Context, outputs: seq<nat>, path: string)
    requires path in PathsOf(ctx, outputs)
    ensures exists o :: o in outputs && o in ctx.artifacts && ctx.artifacts[o] in ctx.paths && ctx.paths[ctx.artifacts[o]] == path
  {
    var front, last := outputs[..|outputs| - 1], outputs[|outputs| - 1];
    if path in PathsOf(ctx, front) {
      PathsComeFrom(ctx, front, path);
      var o :| o in front && o in ctx.artifacts && ctx.artifacts[o] in ctx.paths && ctx.paths[ctx.artifacts[o]] == path;
      assert o in outputs;
    } else {
      assert last in outputs;
    }
  }

  lemma RowComesFrom(ctx: Context, target: Target, m: string, path: string)
    requires path in Cell(RowOf(ctx, target), m)
    ensures IsOutputPath(ctx, target, m, path)
  {
    hide PathsOf;
    PathsComeFrom(ctx, ctx.outputs[target.id][m], path);
  }

  /** Some target with the label has the path for the mnemonic. */
  ghost predicate SomeTargetHas(ctx: Context, targets: seq<Target>, name: string, m: string, path: string) {
    exists t :: t in targets && t.name == name && path in Cell(RowOf(ctx, t), m)
  }

  lemma {:induction false} BatchComesFrom(ctx: Context, batch: seq<Target>, name: string, m: string, path: string)
    requires path in At(BatchTable(ctx, batch), name, m)
    ensures SomeTargetHas(ctx, batch, name, m, path)
  {
    hide RowOf;
    if batch != [] {
      var front, last := batch[..|batch| - 1], batch[|batch| - 1];
      if last.name == name && RowOf(ctx, last) != map[] {
        assert last in batch;
      } else {
        BatchComesFrom(ctx, front, name, m, path);
        var t :| t in front && t.name == name && path in Cell(RowOf(ctx, t), m);
        assert t in batch;
      }
    }
  }

  lemma {:induction false} MergedComesFrom(ctx: Context, table: Table, targets: seq<Target>, size: nat, name: string, m: string, path: string)
    requires size > 0 && path in At(MergeBatches(ctx, table, targets, size), name, m)
    ensures path in At(table, name, m) || SomeTargetHas(ctx, targets, name, m, path)
    decreases |targets|
  {
    hide At, BatchTable, Merge, RowOf, Cell;
    if targets != [] {
      var n := Min(size, |targets|);
      var batch, rest := targets[..n], targets[n..];
      MergedComesFrom(ctx, Merge(table, BatchTable(ctx, batch)), rest, size, name, m, path);
      MergeAt(table, BatchTable(ctx, batch), name, m);
      if path in At(BatchTable(ctx, batch), name, m) {
        BatchComesFrom(ctx, batch, name, m, path);
        PartHas(ctx, targets, batch, name, m, path);
      } else if path !in At(table, name, m) {
        PartHas(ctx, targets, rest, name, m, path);
      }
    }
  }

  lemma PartHas(ctx: Context, targets: seq<Target>, part: seq<Target>, name: string, m: string, path: string)
    requires SomeTargetHas(ctx, part, name, m, path) && forall t :: t in part ==> t in targets
    ensures SomeTargetHas(ctx, targets, name, m, path)
  {
  }

  /** The path is made of the labels from the root of an artifact's fragment down to it, and the
      artifact is an output of a target with the label, by an action with the mnemonic. */
  ghost predicate IsOutputOf(
    fragments: seq<Fragment>, chains: map<nat, seq<nat>>, artifacts: seq<Artifact>, actions: seq<Action>, targets: seq<Target>,
    name: string, m: string, path: string)
  {
    exists t, o ::
      && t in targets && t.name == name && o in OutputsOf(actions, t.id, m) && o in FragmentOf(artifacts)
      && FragmentOf(artifacts)[o] in chains && Some(path) == ChainPath(Labels(fragments), chains[FragmentOf(artifacts)[o]])
  }

  /** Some fragment has a chain with a missing label, or some output of a target is an artifact of a
      fragment that is not there. */
  ghost predicate IsIncomplete(
    fragments: seq<Fragment>, chains: map<nat, seq<nat>>, artifacts: seq<Artifact>, actions: seq<Action>, targets: seq<Target>)
  {
    || (exists f :: f in fragments && f.id in chains && ChainPath(Labels(fragments), chains[f.id]).None?)
    || (exists t, m, o :: t in targets && o in OutputsOf(actions, t.id, m) && IsStray(fragments, artifacts, o))
  }

  /** The output is an artifact of a fragment that is not there. */
  ghost predicate IsStray(fragments: seq<Fragment>, artifacts: seq<Artifact>, o: nat) {
    o in FragmentOf(artifacts) && forall f :: f in fragments ==> f.id != FragmentOf(artifacts)[o]
  }

  lemma {:induction false} PathsAreThere(ctx: Context, outputs: seq<nat>, o: nat)
    requires o in outputs && o in ctx.artifacts && ctx.artifacts[o] in ctx.paths
    ensures ctx.paths[ctx.artifacts[o]] in PathsOf(ctx, outputs)
  {
    var front, last := outputs[..|outputs| - 1], outputs[|outputs| - 1];
    assert outputs == front + [last];
    if o != last {
      PathsAreThere(ctx, front, o);
    }
  }

  lemma {:induction false} InTurnHasAll(ctx: Context, targets: seq<Target>, t: Target, m: string, path: string)
    requires t in targets && path in Cell(RowOf(ctx, t), m)
    ensures path in InTurn(ctx, targets, t.name, m)
  {
    hide RowOf, Cell;
    var front, last := targets[..|targets| - 1], targets[|targets| - 1];
    assert targets == front + [last];
    if t != last {
      InTurnHasAll(ctx, front, t, m, path);
    }
  }

  /** The context describes the answer of the query. */
  ghost predicate Describes(ctx: Context, fragments: seq<Fragment>, chains: map<nat, seq<nat>>, artifacts: seq<Artifact>, actions: seq<Action>) {
    && ctx.artifacts == FragmentOf(artifacts)
    && (forall i, n :: Grouped(ctx.outputs, i, n) <==> Declared(actions, i, n))
    && (forall i, n :: Grouped(ctx.outputs, i, n) ==> ctx.outputs[i][n] == OutputsOf(actions, i, n))
    && (forall id :: id in ctx.paths <==> exists f :: f in fragments && f.id == id)
    && (forall f :: f in fragments ==> f.id in chains && Some(ctx.paths[f.id]) == ChainPath(Labels(fragments), chains[f.id]))
  }

  lemma OutputIsGrouped(ctx: Context, fragments: seq<Fragment>, chains: map<nat, seq<nat>>, artifacts: seq<Artifact>, actions: seq<Action>, t: Target, m: string, o: nat)
    requires Describes(ctx, fragments, chains, artifacts, actions) && o in OutputsOf(actions, t.id, m)
    ensures Grouped(ctx.outputs, t.id, m) && o in ctx.outputs[t.id][m]
  {
    hide ChainPath, Labels, FragmentOf, OutputsOf;
    if !Declared(actions, t.id, m) {
      UndeclaredHasNone(actions, t.id, m);
    }
  }

  lemma FailsIffStray(ctx: Context, fragments: seq<Fragment>, chains: map<nat, seq<nat>>, artifacts: seq<Artifact>, actions: seq<Action>, t: Target)
    requires Describes(ctx, fragments, chains, artifacts, actions)
    ensures TargetFails(ctx, t) <==> exists m, o :: o in OutputsOf(actions, t.id, m) && IsStray(fragments, artifacts, o)
  {
    hide ChainPath, Labels, FragmentOf, OutputsOf, Declared;
    if TargetFails(ctx, t) {
      var m :| m in ctx.outputs[t.id] && Fails(ctx, ctx.outputs[t.id][m]);
      assert Grouped(ctx.outputs, t.id, m);
      var o :| o in ctx.outputs[t.id][m] && o in ctx.artifacts && ctx.artifacts[o] !in ctx.paths;
      assert IsStray(fragments, artifacts, o);
    }
    if m, o :| o in OutputsOf(actions, t.id, m) && IsStray(fragments, artifacts, o) {
      OutputIsGrouped(ctx, fragments, chains, artifacts, actions, t, m, o);
      assert Fails(ctx, ctx.outputs[t.id][m]);
    }
  }

  /** No two targets share a label. */
  predicate HaveOwnLabels(targets: seq<Target>) {
    forall i, j :: 0 <= i < j < |targets| ==> targets[i].name != targets[j].name
  }

  lemma OutputIsInTable(
    ctx: Context, fragments: seq<Fragment>, chains: map<nat, seq<nat>>, artifacts: seq<Artifact>, actions: seq<Action>, targets: seq<Target>,
    size: nat, t: Target, m: string, o: nat)
    requires size > 0 && HaveOwnLabels(targets) && Describes(ctx, fragments, chains, artifacts, actions)
    requires t in targets && o in OutputsOf(actions, t.id, m) && o in FragmentOf(artifacts) && !TargetFails(ctx, t)
    ensures FragmentOf(artifacts)[o] in chains && ChainPath(Labels(fragments), chains[FragmentOf(artifacts)[o]]).Some?
    ensures ChainPath(Labels(fragments), chains[FragmentOf(artifacts)[o]]).value
            in At(MergeBatches(ctx, map[], targets, size), t.name, m)
  {
    hide ChainPath, Labels, FragmentOf, OutputsOf, Declared, MergeBatches, InTurn, PathsOf;
    OutputIsGrouped(ctx, fragments, chains, artifacts, actions, t, m, o);
    assert !Fails(ctx, ctx.outputs[t.id][m]);
    assert ctx.artifacts[o] in ctx.paths;
    var path := ctx.paths[ctx.artifacts[o]];
    var f :| f in fragments && f.id == ctx.artifacts[o];
    PathsAreThere(ctx, ctx.outputs[t.id][m], o);
    assert path in Cell(RowOf(ctx, t), m);
    InTurnHasAll(ctx, targets, t, m, path);
    assert Distinct(ctx, targets);
    DistinctInAllBatches(ctx, targets, size);
    DistinctKeepsAll(ctx, map[], targets, size, t.name, m);
  }

  /** Every output of a target that is an artifact has its path in its cell. */
  ghost predicate HoldsAllOutputs(
    table: Table, fragments: seq<Fragment>, chains: map<nat, seq<nat>>, artifacts: seq<Artifact>, actions: seq<Action>, targets: seq<Target>)
  {
    forall t, m, o :: t in targets && o in OutputsOf(actions, t.id, m) && o in FragmentOf(artifacts) ==>
      && FragmentOf(artifacts)[o] in chains
      && var path := ChainPath(Labels(fragments), chains[FragmentOf(artifacts)[o]]);
      path.Some? && path.value in At(table, t.name, m)
  }

  /** From the answer of a build query to the outputs of its targets: there is none exactly when the
      answer is incomplete; every path in the table is the labels from root to leaf of an output that
      belongs there; and if no two targets share a label, every output is in its cell. */
  method CollectOutputs(
    fragments: seq<Fragment>, artifacts: seq<Artifact>, actions: seq<Action>, targets: seq<Target>, workers: nat,
    completed: seq<Fragment>, skips: seq<bool>, ghost chains: map<nat, seq<nat>>)
    returns (table: Option<Table>)
    requires workers > 0
    requires forall f :: f in fragments ==> f.id in chains && IsChain(Parents(fragments), chains[f.id], f.id)
    requires multiset(completed) == multiset(fragments) && |skips| == |completed|
    ensures table.None? <==> IsIncomplete(fragments, chains, artifacts, actions, targets)
    ensures table.Some? ==>
              forall name, m, path :: path in At(table.value, name, m) ==>
                IsOutputOf(fragments, chains, artifacts, actions, targets, name, m, path)
    ensures table.Some? && HaveOwnLabels(targets) ==>
              HoldsAllOutputs(table.value, fragments, chains, artifacts, actions, targets)
  {
    hide IsChain, ChainPath, Labels, Parents, OutputsOf, FragmentOf, Declared, MergeBatches, BatchSize, RowOf, At, Cell, IsOutputOf, TargetFails;
    var paths := BuildPaths(fragments, completed, skips, chains);
    if paths.None? {
      return None;
    }
    var grouped := GroupActions(actions);
    var ctx := Context(grouped, FragmentOf(artifacts), paths.value);
    assert Describes(ctx, fragments, chains, artifacts, actions);
    table := AllOutputs(ctx, targets, workers);
    WhenIncomplete(ctx, fragments, chains, artifacts, actions, targets);
    if table.Some? {
      TableIsRight(ctx, fragments, chains, artifacts, actions, targets, BatchSize(|targets|, workers));
    }
  }

  lemma WhenIncomplete(ctx: Context, fragments: seq<Fragment>, chains: map<nat, seq<nat>>, artifacts: seq<Artifact>, actions: seq<Action>, targets: seq<Target>)
    requires Describes(ctx, fragments, chains, artifacts, actions)
    ensures IsIncomplete(fragments, chains, artifacts, actions, targets) <==> exists t :: t in targets && TargetFails(ctx, t)
  {
    hide ChainPath, Labels, OutputsOf, FragmentOf, Declared, TargetFails, IsStray;
    forall t ensures TargetFails(ctx, t) <==> exists m, o :: o in OutputsOf(actions, t.id, m) && IsStray(fragments, artifacts, o) {
      FailsIffStray(ctx, fragments, chains, artifacts, actions, t);
    }
  }

  lemma TableIsRight(ctx: Context, fragments: seq<Fragment>, chains: map<nat, seq<nat>>, artifacts: seq<Artifact>, actions: seq<Action>, targets: seq<Target>, size: nat)
    requires size > 0 && Describes(ctx, fragments, chains, artifacts, actions) && forall t :: t in targets ==> !TargetFails(ctx, t)
    ensures var table := MergeBatches(ctx, map[], targets, size);
            && (forall name, m, path :: path in At(table, name, m) ==>
                  IsOutputOf(fragments, chains, artifacts, actions, targets, name, m, path))
            && (HaveOwnLabels(targets) ==> HoldsAllOutputs(table, fragments, chains, artifacts, actions, targets))
  {
    hide ChainPath, Labels, OutputsOf, FragmentOf, Declared, MergeBatches, RowOf, At, Cell, IsOutputOf, TargetFails, HaveOwnLabels;
    var table := MergeBatches(ctx, map[], targets, size);
    forall name, m, path | path in At(table, name, m)
      ensures IsOutputOf(fragments, chains, artifacts, actions, targets, name, m, path)
    {
      MergedComesFrom(ctx, map[], targets, size, name, m, path);
      NothingAt(name, m);
      var t :| t in targets && t.name == name && path in Cell(RowOf(ctx, t), m);
      RowComesFrom(ctx, t, m, path);
      OutputPathIs(fragments, chains, artifacts, actions, targets, ctx, t, m, path);
    }
    if HaveOwnLabels(targets) {
      forall t, m, o | t in targets && o in OutputsOf(actions, t.id, m) && o in FragmentOf(artifacts)
        ensures FragmentOf(artifacts)[o] in chains
        ensures var path := ChainPath(Labels(fragments), chains[FragmentOf(artifacts)[o]]);
                path.Some? && path.value in At(table, t.name, m)
      {
        OutputIsInTable(ctx, fragments, chains, artifacts, actions, targets, size, t, m, o);
      }
    }
  }

  lemma NothingAt(name: string, m: string)
    ensures At(map[], name, m) == []
  {
  }

  lemma OutputPathIs(
    fragments: seq<Fragment>, chains: map<nat, seq<nat>>, artifacts: seq<Artifact>, actions: seq<Action>, targets: seq<Target>,
    ctx: Context, t: Target, m: string, path: string)
    requires t in targets && IsOutputPath(ctx, t, m, path) && Describes(ctx, fragments, chains, artifacts, actions)
    ensures IsOutputOf(fragments, chains, artifacts, actions, targets, t.name, m, path)
  {
    hide ChainPath, Labels, OutputsOf, FragmentOf, Declared;
    assert Grouped(ctx.outputs, t.id, m);
    var o :| o in ctx.outputs[t.id][m] && o in ctx.artifacts && ctx.artifacts[o] in ctx.paths && ctx.paths[ctx.artifacts[o]] == path;
    var f :| f in fragments && f.id == ctx.artifacts[o];
  }

  // ----- the tables that the paths are made from

  /** With ids of their own, fragments have their own labels and parents. */
  lemma {:induction false} FragmentsKeepTheirs(fragments: seq<Fragment>, f: Fragment)
    requires f in fragments && forall i, j :: 0 <= i < j < |fragments| ==> fragments[i].id != fragments[j].id
    ensures f.id in Labels(fragments) && Labels(fragments)[f.id] == f.name
    ensures f.id in Parents(fragments) <==> f.parent != 0
    ensures f.id in Parents(fragments) ==> Parents(fragments)[f.id] == f.parent
  {
    var front, last := fragments[..|fragments| - 1], fragments[|fragments| - 1];
    assert fragments == front + [last];
    if f == last {
      NoSuchParent(front, f.id);
    } else {
      var k :| 0 <= k < |fragments| && fragments[k] == f;
      assert f in front && f.id != last.id;
      FragmentsKeepTheirs(front, f);
    }
  }

  lemma {:induction false} NoSuchParent(fragments: seq<Fragment>, id: nat)
    requires forall i :: 0 <= i < |fragments| ==> fragments[i].id != id
    ensures id !in Parents(fragments)
  {
    if fragments != [] {
      NoSuchParent(fragments[..|fragments| - 1], id);
    }
  }

  lemma {:induction false} ArtifactsKeepTheirs(artifacts: seq<Artifact>, a: Artifact)
    requires a in artifacts && forall i, j :: 0 <= i < j < |artifacts| ==> artifacts[i].id != artifacts[j].id
    ensures a.id in FragmentOf(artifacts) && FragmentOf(artifacts)[a.id] == a.fragment
  {
    var front, last := artifacts[..|artifacts| - 1], artifacts[|artifacts| - 1];
    assert artifacts == front + [last];
    if a != last {
      var k :| 0 <= k < |artifacts| && artifacts[k] == a;
      assert a in front && a.id != last.id;
      ArtifactsKeepTheirs(front, a);
    }
  }

  /** The outputs of a target for a mnemonic are those of its actions with it. */
  lemma {:induction false} OutputsIff(actions: seq<Action>, target: nat, mnemonic: string, o: nat)
    ensures o in OutputsOf(actions, target, mnemonic) <==>
            exists a :: a in actions && a.target == target && a.mnemonic == mnemonic && o in a.outputs
  {
    if actions != [] {
      var front, last := actions[..|actions| - 1], actions[|actions| - 1];
      OutputsIff(front, target, mnemonic, o);
      assert actions == front + [last];
      assert last in actions && forall a :: a in front ==> a in actions;
    }
  }
}
