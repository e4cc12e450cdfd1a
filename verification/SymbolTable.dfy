/** The meaning of the symbol prefix tree: a flat table from descriptor paths to what the node
    at that path holds. Every operation of the tree is a simple operation on this table. */
module SymbolTable {
  import opened Wrappers

  datatype Descriptor = Descriptor(name: string, suffix: int, disambiguator: string)

  type Path = seq<Descriptor>

  datatype SymbolInformation = SymbolInformation(symbol: string, documentation: seq<string>)

  datatype SymbolVersion = SymbolVersion(info: SymbolInformation, documentPath: string)

  datatype NodeValue = NodeValue(versions: map<string, SymbolVersion>, revision: int)

  type Table = map<Path, NodeValue>

  /** A parsed symbol to add: where it goes, under which version, and at which revision. */
  datatype Symbol = Symbol(path: Path, version: string, entry: SymbolVersion, revision: int)

  const EMPTY_TABLE: Table := map[[] := NodeValue(map[], 0)]

  function Front(p: Path): Path
    requires p != []
  {
    p[..|p| - 1]
  }

  function Last(p: Path): Descriptor
    requires p != []
  {
    p[|p| - 1]
  }

  function Child(p: Path, d: Descriptor): (c: Path)
    ensures c != [] && Front(c) == p && Last(c) == d && p < c
  {
    p + [d]
  }

  lemma ChildOfFront(p: Path)
    requires p != []
    ensures Child(Front(p), Last(p)) == p && Front(p) < p
  {
  }

  /** The root and, with every path, the path above it. */
  ghost predicate Closed(t: Table) {
    [] in t && forall p :: p in t && p != [] ==> Front(p) in t
  }

  // ----- the operations

  /** A path below the root on the way to, or at, a symbol's path. */
  predicate OnPath(p: Path, path: Path) {
    p != [] && p <= path
  }

  function Prefixes(path: Path): (s: set<Path>)
    ensures forall p :: p in s <==> OnPath(p, path)
  {
    var s := set i | 1 <= i <= |path| :: path[..i];
    assert forall p :: OnPath(p, path) ==> p == path[..|p|];
    s
  }

  function VersionsAt(t: Table, p: Path): map<string, SymbolVersion> {
    if p in t then t[p].versions else map[]
  }

  /** Every node on the path takes the symbol's revision; the last one also takes its entry. */
  function Add(t: Table, s: Symbol): Table {
    map p | p in t.Keys + Prefixes(s.path) ::
      if OnPath(p, s.path) then
        NodeValue(if p == s.path then VersionsAt(t, p)[s.version := s.entry] else VersionsAt(t, p), s.revision)
      else t[p]
  }

  /** The part of adding a symbol that concerns the nodes on the way to it. */
  function AddWay(t: Table, way: Path, revision: int): Table {
    map p | p in t.Keys + Prefixes(way) :: if OnPath(p, way) then NodeValue(VersionsAt(t, p), revision) else t[p]
  }

  /** The table after the first descriptors of a symbol have been handled. */
  function AddUpTo(t: Table, s: Symbol, i: nat): Table
    requires i <= |s.path|
  {
    if i < |s.path| then AddWay(t, s.path[..i], s.revision) else Add(t, s)
  }

  function AddAll(t: Table, symbols: seq<Symbol>): Table {
    if symbols == [] then t
    else Add(AddAll(t, symbols[..|symbols| - 1]), symbols[|symbols| - 1])
  }

  function Max(a: int, b: int): int {
    if a < b then b else a
  }

  /** The newer entry of a version wins, and so does the larger revision. */
  function MergeValue(a: NodeValue, b: NodeValue): NodeValue {
    NodeValue(a.versions + b.versions, Max(a.revision, b.revision))
  }

  /** Union of two tables, preferring the second; the root keeps its own value. */
  function Merge(t: Table, other: Table): Table {
    map p | p in t.Keys + other.Keys ::
      if p !in other then t[p]
      else if p !in t then other[p]
      else if p == [] then t[p]
      else MergeValue(t[p], other[p])
  }

  /** The union taken below a path that both tables hold. */
  function MergeBelow(t: Table, other: Table, at: Path): Table {
    map p | p in t.Keys + other.Keys ::
      if p !in other then t[p]
      else if p !in t then other[p]
      else if p == at then t[p]
      else MergeValue(t[p], other[p])
  }

  lemma MergeFromRoot(t: Table, other: Table)
    ensures MergeBelow(t, other, []) == Merge(t, other)
  {
  }

  /** The rows below a path, apart from those under children still to be handled. */
  function Handled(t: Table, at: Path, left: set<Descriptor>): Table {
    map p | p in t && (p == at || (at < p && p[|at|] !in left)) :: t[p]
  }

  function RowsFrom(t: Table, c: Path): Table {
    map p | p in t && c <= p :: t[p]
  }

  lemma MergeNext(t: Table, other: Table, at: Path, left: set<Descriptor>, d: Descriptor)
    requires d in left && forall p :: p in other ==> at <= p
    ensures MergeBelow(MergeBelow(t, Handled(other, at, left), at), RowsFrom(other, Child(at, d)), at)
            == MergeBelow(t, Handled(other, at, left - {d}), at)
  {
    var rows, done := RowsFrom(other, Child(at, d)), Handled(other, at, left);
    HandleNext(other, at, left, d);
    MergeTwice(t, done, rows, at);
  }

  lemma HandleNext(other: Table, at: Path, left: set<Descriptor>, d: Descriptor)
    requires d in left && forall p :: p in other ==> at <= p
    ensures RowsFrom(other, Child(at, d)).Keys !! Handled(other, at, left).Keys && at !in RowsFrom(other, Child(at, d))
    ensures Handled(other, at, left) + RowsFrom(other, Child(at, d)) == Handled(other, at, left - {d})
  {
    var c := Child(at, d);
    assert forall p :: p in other ==> (c <= p <==> at < p && p[|at|] == d);
  }

  lemma MergeTwice(t: Table, a: Table, b: Table, at: Path)
    requires a.Keys !! b.Keys && at !in b
    ensures MergeBelow(MergeBelow(t, a, at), b, at) == MergeBelow(t, a + b, at)
  {
    var left, right := MergeBelow(MergeBelow(t, a, at), b, at), MergeBelow(t, a + b, at);
    assert left.Keys == right.Keys;
    forall p | p in left ensures left[p] == right[p] {
      assert p in a ==> p !in b;
    }
  }

  /** An old node that some version of the document wrote to. */
  predicate IsStale(v: NodeValue, doc: string, revision: int) {
    v.revision < revision && exists k :: k in v.versions && v.versions[k].documentPath == doc
  }

  /** A stale node lies on the way from the start node down to the path. */
  ghost predicate Doomed(t: Table, at: Path, doc: string, revision: int, p: Path) {
    exists q :: q in t && at < q && q <= p && IsStale(t[q], doc, revision)
  }

  ghost function Prune(t: Table, at: Path, doc: string, revision: int): Table {
    map p | p in t && !Doomed(t, at, doc, revision, p) :: t[p]
  }

  /** Pruned below the children handled so far. */
  ghost function PrunedSoFar(t: Table, at: Path, doc: string, revision: int, left: set<Descriptor>): Table {
    map p | p in t && !(at < p && p[|at|] !in left && Doomed(t, at, doc, revision, p)) :: t[p]
  }

  /** Dropping a stale child drops what is doomed below it. */
  lemma PruneStaleChild(t: Table, at: Path, doc: string, revision: int, left: set<Descriptor>, d: Descriptor, kept: Table)
    requires d in left && Child(at, d) in t && IsStale(t[Child(at, d)], doc, revision)
    requires forall p :: p in kept <==> p in PrunedSoFar(t, at, doc, revision, left) && !(Child(at, d) <= p)
    requires forall p :: p in kept ==> kept[p] == PrunedSoFar(t, at, doc, revision, left)[p]
    ensures kept == PrunedSoFar(t, at, doc, revision, left - {d})
  {
    var c := Child(at, d);
    hide IsStale;
    forall p | p in t ensures (at < p && p[|at|] == d <==> c <= p) && (c <= p ==> Doomed(t, at, doc, revision, p)) {
      BelowChild(at, d, p);
      assert at < c;
    }
  }

  lemma BelowChild(at: Path, d: Descriptor, p: Path)
    ensures at < p && p[|at|] == d <==> Child(at, d) <= p
  {
  }

  /** Pruning below a child that stays drops what is doomed below it. */
  lemma PruneKeptChild(t: Table, at: Path, doc: string, revision: int, left: set<Descriptor>, d: Descriptor)
    requires d in left && Child(at, d) in t && !IsStale(t[Child(at, d)], doc, revision)
    ensures Prune(PrunedSoFar(t, at, doc, revision, left), Child(at, d), doc, revision)
            == PrunedSoFar(t, at, doc, revision, left - {d})
  {
    var now := PrunedSoFar(t, at, doc, revision, left);
    var c := Child(at, d);
    forall p | p in now
      ensures Doomed(now, c, doc, revision, p) <==> at < p && p[|at|] == d && Doomed(t, at, doc, revision, p)
    {
      DoomedBelow(t, now, at, doc, revision, left, d, p);
    }
  }

  lemma DoomedBelow(t: Table, now: Table, at: Path, doc: string, revision: int, left: set<Descriptor>, d: Descriptor, p: Path)
    requires d in left && Child(at, d) in t && !IsStale(t[Child(at, d)], doc, revision)
    requires now == PrunedSoFar(t, at, doc, revision, left) && p in now
    ensures Doomed(now, Child(at, d), doc, revision, p) <==> at < p && p[|at|] == d && Doomed(t, at, doc, revision, p)
  {
    hide IsStale;
    var c := Child(at, d);
    if Doomed(now, c, doc, revision, p) {
      var q :| q in now && c < q && q <= p && IsStale(now[q], doc, revision);
      assert at < q && q in t;
    }
    if at < p && p[|at|] == d && Doomed(t, at, doc, revision, p) {
      var q :| q in t && at < q && q <= p && IsStale(t[q], doc, revision);
      assert q[|at|] == d && c <= q && q != c;
      assert q in now && c < q;
    }
  }

  /** Byte order of strings. */
  predicate StringAtMost(a: string, b: string) {
    a == [] || (b != [] && (a[0] < b[0] || (a[0] == b[0] && StringAtMost(a[1..], b[1..]))))
  }

  datatype LookupError = NoDescriptors

  /** The entry of the asked version or, failing that, of the smallest one. */
  ghost predicate IsLookup(t: Table, path: Path, version: string, r: Result<Option<SymbolVersion>, LookupError>) {
    if path == [] then r == Err(NoDescriptors)
    else if path !in t || t[path].versions == map[] || version == "" then r == Ok(None)
    else if version in t[path].versions then r == Ok(Some(t[path].versions[version]))
    else
      exists v :: v in t[path].versions && r == Ok(Some(t[path].versions[v]))
                  && forall w :: w in t[path].versions ==> StringAtMost(v, w)
  }

  // ----- a symbol table is built the same way in one go or through a local table

  /** The same paths with the same versions, whatever the revisions. */
  ghost predicate SameSymbols(a: Table, b: Table) {
    a.Keys == b.Keys && forall p :: p in a ==> a[p].versions == b[p].versions
  }

  lemma AddThenMerge(t: Table, local: Table, s: Symbol)
    requires [] in t && [] in local
    ensures SameSymbols(Merge(t, Add(local, s)), Add(Merge(t, local), s))
    ensures (forall p :: p in t ==> t[p].revision <= s.revision) ==>
              Merge(t, Add(local, s)) == Add(Merge(t, local), s)
  {
    var a, b := Merge(t, Add(local, s)), Add(Merge(t, local), s);
    assert a.Keys == b.Keys;
    forall p | p in a
      ensures a[p].versions == b[p].versions
      ensures p in t && t[p].revision <= s.revision ==> a[p] == b[p]
      ensures p !in t ==> a[p] == b[p]
    {
      hide Merge, Add;
      AddThenMergeRow(t, local, s, p);
    }
  }

  lemma AddThenMergeRow(t: Table, local: Table, s: Symbol, p: Path)
    requires [] in t && [] in local && p in Merge(t, Add(local, s)) && p in Add(Merge(t, local), s)
    ensures var a, b := Merge(t, Add(local, s))[p], Add(Merge(t, local), s)[p];
            && a.versions == b.versions
            && (p !in t || t[p].revision <= s.revision ==> a == b)
  {
    AddRow(local, s, p);
    AddRow(Merge(t, local), s, p);
    MergeRow(t, local, p);
    MergeRow(t, Add(local, s), p);
    hide OnPath, Add, Merge;
    if p in t && p !in local {
      assert t[p].versions + map[] == t[p].versions;
    }
    if p in t && p == s.path {
      UnionWith(t[p].versions, VersionsAt(local, p), s.version, s.entry);
    }
  }

  /** The row at a path after adding a symbol. */
  lemma AddRow(t: Table, s: Symbol, p: Path)
    ensures OnPath(p, s.path) ==> p != []
    ensures p in Add(t, s) <==> p in t || OnPath(p, s.path)
    ensures p in Add(t, s) ==>
              Add(t, s)[p] ==
              if !OnPath(p, s.path) then t[p]
              else NodeValue(if p == s.path then VersionsAt(t, p)[s.version := s.entry] else VersionsAt(t, p), s.revision)
  {
  }

  lemma AddWayRow(t: Table, way: Path, revision: int, p: Path)
    ensures p in AddWay(t, way, revision) <==> p in t || OnPath(p, way)
    ensures p in AddWay(t, way, revision) ==>
              AddWay(t, way, revision)[p] == if OnPath(p, way) then NodeValue(VersionsAt(t, p), revision) else t[p]
  {
  }

  /** The row at a path after merging. */
  lemma MergeRow(t: Table, other: Table, p: Path)
    ensures p in Merge(t, other) <==> p in t || p in other
    ensures p in Merge(t, other) ==>
              Merge(t, other)[p] ==
              if p !in other then t[p] else if p !in t then other[p]
              else if p == [] then t[p] else MergeValue(t[p], other[p])
  {
  }

  lemma UnionWith(a: map<string, SymbolVersion>, b: map<string, SymbolVersion>, version: string, entry: SymbolVersion)
    ensures a + b[version := entry] == (a + b)[version := entry]
  {
  }

  lemma AddRespectsSymbols(a: Table, b: Table, s: Symbol)
    requires SameSymbols(a, b)
    ensures SameSymbols(Add(a, s), Add(b, s))
  {
  }

  lemma MergeWithEmpty(t: Table)
    requires [] in t
    ensures Merge(t, EMPTY_TABLE) == t
  {
    assert Merge(t, EMPTY_TABLE).Keys == t.Keys;
  }

  lemma {:induction false} AddKeepsRoot(t: Table, symbols: seq<Symbol>)
    requires [] in t
    ensures [] in AddAll(t, symbols)
  {
    if symbols != [] {
      AddKeepsRoot(t, symbols[..|symbols| - 1]);
    }
  }

  /** Loading symbols into a local table and merging it gives the same symbols, path by path and
      version by version, as adding them to the table one by one. */
  lemma {:induction false} LoadThenMerge(t: Table, symbols: seq<Symbol>)
    requires [] in t
    ensures SameSymbols(Merge(t, AddAll(EMPTY_TABLE, symbols)), AddAll(t, symbols))
  {
    if symbols == [] {
      MergeWithEmpty(t);
    } else {
      hide Add, Merge;
      var front, s := symbols[..|symbols| - 1], symbols[|symbols| - 1];
      var local := AddAll(EMPTY_TABLE, front);
      LoadThenMerge(t, front);
      AddKeepsRoot(EMPTY_TABLE, front);
      AddThenMerge(t, local, s);
      AddRespectsSymbols(Merge(t, local), AddAll(t, front), s);
    }
  }

  /** With revisions not below those of the table, the two agree in the revisions too. */
  lemma {:induction false} LoadThenMergeExactly(t: Table, symbols: seq<Symbol>)
    requires [] in t
    requires forall p, i :: p in t && 0 <= i < |symbols| ==> t[p].revision <= symbols[i].revision
    ensures Merge(t, AddAll(EMPTY_TABLE, symbols)) == AddAll(t, symbols)
  {
    if symbols == [] {
      MergeWithEmpty(t);
    } else {
      hide Add, Merge;
      var front, s := symbols[..|symbols| - 1], symbols[|symbols| - 1];
      LoadThenMergeExactly(t, front);
      AddKeepsRoot(EMPTY_TABLE, front);
      AddThenMerge(t, AddAll(EMPTY_TABLE, front), s);
    }
  }

  /** Tables with the same symbols answer every lookup alike. */
  lemma SameSymbolsSameLookups(a: Table, b: Table, path: Path, version: string, r: Result<Option<SymbolVersion>, LookupError>)
    requires SameSymbols(a, b)
    ensures IsLookup(a, path, version, r) <==> IsLookup(b, path, version, r)
  {
  }

  // ----- revisions never increase downwards

  ghost predicate RevisionOrdered(t: Table) {
    forall p :: p in t && p != [] && Front(p) != [] && Front(p) in t ==> t[p].revision <= t[Front(p)].revision
  }

  lemma AddKeepsOrder(t: Table, s: Symbol)
    requires Closed(t) && RevisionOrdered(t) && forall p :: p in t ==> t[p].revision <= s.revision
    ensures Closed(Add(t, s)) && RevisionOrdered(Add(t, s))
    ensures forall p :: p in Add(t, s) ==> Add(t, s)[p].revision <= s.revision
  {
    forall p | p in Add(t, s) && p != []
      ensures Front(p) in Add(t, s)
    {
      if OnPath(p, s.path) && Front(p) != [] {
        assert OnPath(Front(p), s.path);
      }
    }
  }

  lemma MergeKeepsOrder(t: Table, other: Table)
    requires Closed(t) && Closed(other) && RevisionOrdered(t) && RevisionOrdered(other)
    ensures Closed(Merge(t, other)) && RevisionOrdered(Merge(t, other))
  {
  }

  lemma PruneKeepsOrder(t: Table, at: Path, doc: string, revision: int)
    requires Closed(t) && RevisionOrdered(t)
    ensures Closed(Prune(t, at, doc, revision)) && RevisionOrdered(Prune(t, at, doc, revision))
  {
    forall p | p in t && p != [] && Doomed(t, at, doc, revision, Front(p))
      ensures Doomed(t, at, doc, revision, p)
    {
      var q :| q in t && at < q && q <= Front(p) && IsStale(t[q], doc, revision);
      assert q <= p;
    }
    if Doomed(t, at, doc, revision, []) {
      assert false;
    }
  }

  lemma {:induction false} AncestorsAreNewer(t: Table, q: Path, p: Path)
    requires Closed(t) && RevisionOrdered(t) && p in t && q != [] && q <= p
    ensures q in t && t[p].revision <= t[q].revision
    decreases |p|
  {
    if q != p {
      assert q <= Front(p);
      AncestorsAreNewer(t, q, Front(p));
    }
  }

  /** Although pruning drops whole subtrees, it never drops a node of the current revision. */
  lemma PruneSparesCurrent(t: Table, at: Path, doc: string, revision: int, p: Path)
    requires Closed(t) && RevisionOrdered(t) && p in t && t[p].revision >= revision
    ensures p in Prune(t, at, doc, revision) && Prune(t, at, doc, revision)[p] == t[p]
  {
    if Doomed(t, at, doc, revision, p) {
      var q :| q in t && at < q && q <= p && IsStale(t[q], doc, revision);
      AncestorsAreNewer(t, q, p);
      assert false;
    }
  }

  /** What pruning leaves: exactly the rows on whose way from the start node no node has both a lower
      revision and a version written by the document, as they were. */
  lemma PrunedIff(t: Table, at: Path, doc: string, revision: int, p: Path)
    ensures p in Prune(t, at, doc, revision) <==>
            p in t && forall q :: q in t && at < q <= p && t[q].revision < revision ==>
                        forall v :: v in t[q].versions ==> t[q].versions[v].documentPath != doc
    ensures p in Prune(t, at, doc, revision) ==> Prune(t, at, doc, revision)[p] == t[p]
  {
  }

  /** Pruning is complete: a second call changes nothing. */
  lemma PruneTwice(t: Table, at: Path, doc: string, revision: int)
    ensures Prune(Prune(t, at, doc, revision), at, doc, revision) == Prune(t, at, doc, revision)
  {
    var once := Prune(t, at, doc, revision);
    assert forall p :: p in once ==> !Doomed(once, at, doc, revision, p);
  }

  // ----- whole histories of an index

  /** An index file is loaded into a local table and merged, or a subtree is pruned. */
  datatype Step = Load(symbols: seq<Symbol>) | PruneFrom(at: Path, doc: string, revision: int)

  /** Revisions are read from a counter that only grows. */
  predicate Nondecreasing(symbols: seq<Symbol>) {
    && (forall i, j :: 0 <= i < j < |symbols| ==> symbols[i].revision <= symbols[j].revision)
    && (forall i :: 0 <= i < |symbols| ==> 0 <= symbols[i].revision)
  }

  ghost function Run(steps: seq<Step>): Table {
    if steps == [] then EMPTY_TABLE else
      var t := Run(steps[..|steps| - 1]);
      match steps[|steps| - 1]
      case Load(symbols) => Merge(t, AddAll(EMPTY_TABLE, symbols))
      case PruneFrom(at, doc, revision) => Prune(t, at, doc, revision)
  }

  lemma {:induction false} LocalTableOrdered(symbols: seq<Symbol>)
    requires Nondecreasing(symbols)
    ensures Closed(AddAll(EMPTY_TABLE, symbols)) && RevisionOrdered(AddAll(EMPTY_TABLE, symbols))
    ensures forall p :: p in AddAll(EMPTY_TABLE, symbols) ==>
              AddAll(EMPTY_TABLE, symbols)[p].revision <= if symbols == [] then 0 else symbols[|symbols| - 1].revision
  {
    if symbols != [] {
      hide Add;
      var front := symbols[..|symbols| - 1];
      LocalTableOrdered(front);
      AddKeepsOrder(AddAll(EMPTY_TABLE, front), symbols[|symbols| - 1]);
    }
  }

  /** Through every history of loads and prunings, whatever the order in which concurrent loads
      are merged, parents are at least as new as their children. */
  lemma {:induction false} RunKeepsOrder(steps: seq<Step>)
    requires forall i :: 0 <= i < |steps| && steps[i].Load? ==> Nondecreasing(steps[i].symbols)
    ensures Closed(Run(steps)) && RevisionOrdered(Run(steps))
  {
    if steps != [] {
      hide Merge, Prune, AddAll;
      var front, step := steps[..|steps| - 1], steps[|steps| - 1];
      RunKeepsOrder(front);
      match step
      case Load(symbols) =>
        LocalTableOrdered(symbols);
        MergeKeepsOrder(Run(front), AddAll(EMPTY_TABLE, symbols));
      case PruneFrom(at, doc, revision) =>
        PruneKeepsOrder(Run(front), at, doc, revision);
    }
  }

  /** Hence in every reachable table, pruning spares whatever is current. */
  lemma RunSparesCurrent(steps: seq<Step>, at: Path, doc: string, revision: int, p: Path)
    requires forall i :: 0 <= i < |steps| && steps[i].Load? ==> Nondecreasing(steps[i].symbols)
    requires p in Run(steps) && Run(steps)[p].revision >= revision
    ensures p in Prune(Run(steps), at, doc, revision)
  {
    hide Run;
    RunKeepsOrder(steps);
    PruneSparesCurrent(Run(steps), at, doc, revision, p);
  }

  // ----- what a lookup finds after a load

  /** The entry of the last of the symbols with a path and a version. */
  function LastEntry(symbols: seq<Symbol>, path: Path, version: string): Option<SymbolVersion> {
    if symbols == [] then None
    else
      var last := symbols[|symbols| - 1];
      if last.path == path && last.version == version then Some(last.entry)
      else LastEntry(symbols[..|symbols| - 1], path, version)
  }

  /** The versions at a path are those of the symbols added there, each with the last entry added, and
      those that were there before. */
  lemma {:induction false} VersionsFollowSymbols(t: Table, symbols: seq<Symbol>, path: Path, version: string)
    requires path != []
    ensures var versions, added := VersionsAt(AddAll(t, symbols), path), LastEntry(symbols, path, version);
            && (version in versions <==> added.Some? || version in VersionsAt(t, path))
            && (version in versions ==> versions[version] == if added.Some? then added.value else VersionsAt(t, path)[version])
  {
    if symbols != [] {
      var front, last := symbols[..|symbols| - 1], symbols[|symbols| - 1];
      VersionsFollowSymbols(t, front, path, version);
      AddRow(AddAll(t, front), last, path);
      hide Add;
    }
  }

  /** After a load, a lookup finds the entry last added under its path and version; failing that, the
      one last added under the smallest version; and nothing where no symbol was added. */
  lemma LookupFindsLastAdded(symbols: seq<Symbol>, path: Path, version: string, r: Result<Option<SymbolVersion>, LookupError>)
    requires path != [] && version != "" && IsLookup(AddAll(EMPTY_TABLE, symbols), path, version, r)
    ensures LastEntry(symbols, path, version).Some? ==> r == Ok(LastEntry(symbols, path, version))
    ensures LastEntry(symbols, path, version) == None && (exists v :: LastEntry(symbols, path, v).Some?) ==>
              exists v :: LastEntry(symbols, path, v).Some? && r == Ok(LastEntry(symbols, path, v))
                          && forall w :: LastEntry(symbols, path, w).Some? ==> StringAtMost(v, w)
    ensures (forall v :: LastEntry(symbols, path, v) == None) ==> r == Ok(None)
  {
    hide AddAll, LastEntry, StringAtMost;
    var t := AddAll(EMPTY_TABLE, symbols);
    forall v
      ensures v in VersionsAt(t, path) <==> LastEntry(symbols, path, v).Some?
      ensures v in VersionsAt(t, path) ==> Some(VersionsAt(t, path)[v]) == LastEntry(symbols, path, v)
    {
      VersionsFollowSymbols(EMPTY_TABLE, symbols, path, v);
    }
    if v :| LastEntry(symbols, path, v).Some? {
      assert v in t[path].versions;
    }
  }

  /** The revision of a node is that of the last symbol added at or below it. */
  lemma AddSetsRevisions(t: Table, s: Symbol, p: Path)
    ensures p in Add(t, s) <==> p in t || (p != [] && p <= s.path)
    ensures p in Add(t, s) ==> Add(t, s)[p].revision == if p != [] && p <= s.path then s.revision else t[p].revision
  {
    AddRow(t, s, p);
  }
}
