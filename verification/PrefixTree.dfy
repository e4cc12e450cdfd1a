/** The symbol prefix tree as linked nodes that are changed in place. Each method is proved
    against the flat table of module SymbolTable. */
module PrefixTree {
  import opened Wrappers
  import opened SymbolTable

  class Node {
    var parent: Node?
    var children: map<Descriptor, Node>
    var versions: map<string, SymbolVersion>
    var revision: int

    constructor (parent: Node?, revision: int)
      ensures this.parent == parent && children == map[] && versions == map[] && this.revision == revision
    {
      this.parent, children, versions, this.revision := parent, map[], map[], revision;
    }
  }

  /** Which node stands at which path. */
  type Layout = map<Path, Node>

  /** No node stands at two paths. */
  ghost predicate Distinct(nodes: Layout) {
    forall p, q :: p in nodes && q in nodes && nodes[p] == nodes[q] ==> p == q
  }

  /** The links of a node: the node above and the nodes below. */
  datatype Links = Links(parent: Node?, children: map<Descriptor, Node>)

  ghost function LinksOf(nodes: Layout): (links: map<Path, Links>)
    reads nodes.Values`parent, nodes.Values`children
    ensures links.Keys == nodes.Keys
  {
    map p | p in nodes :: Links(nodes[p].parent, nodes[p].children)
  }

  /** The node above holds this one under its last descriptor, and this one points back. */
  ghost predicate UpLinked(nodes: Layout, links: map<Path, Links>, p: Path)
    requires p in nodes && p != [] && links.Keys == nodes.Keys
  {
    && Front(p) in nodes
    && links[p].parent == nodes[Front(p)]
    && Last(p) in links[Front(p)].children
    && links[Front(p)].children[Last(p)] == nodes[p]
  }

  /** Every child of the node stands in the layout. */
  ghost predicate DownLinked(nodes: Layout, links: map<Path, Links>, p: Path)
    requires p in nodes && links.Keys == nodes.Keys
  {
    forall d :: d in links[p].children ==> Child(p, d) in nodes
  }

  /** From a path on, nodes are linked exactly as the layout says, in both directions. */
  ghost predicate Linked(nodes: Layout, links: map<Path, Links>, at: Path): (yes: bool)
    ensures yes ==> at in nodes && links.Keys == nodes.Keys
  {
    && links.Keys == nodes.Keys
    && at in nodes && Distinct(nodes)
    && (forall p :: p in nodes && at < p ==> UpLinked(nodes, links, p))
    && (forall p :: p in nodes && at <= p ==> DownLinked(nodes, links, p))
  }

  ghost predicate LinkedFrom(nodes: Layout, at: Path): (yes: bool)
    reads nodes.Values`parent, nodes.Values`children
    ensures yes ==> at in nodes
  {
    Linked(nodes, LinksOf(nodes), at)
  }

  ghost predicate Tree(nodes: Layout): (yes: bool)
    reads nodes.Values`parent, nodes.Values`children
    ensures yes ==> [] in nodes
  {
    LinkedFrom(nodes, [])
  }

  ghost function Value(n: Node): NodeValue
    reads n`versions, n`revision
  {
    NodeValue(n.versions, n.revision)
  }

  /** The table that a layout stands for. */
  ghost function TableOf(nodes: Layout): (t: Table)
    reads nodes.Values`versions, nodes.Values`revision
    ensures t.Keys == nodes.Keys
  {
    map p | p in nodes :: Value(nodes[p])
  }

  lemma TreeIsClosed(nodes: Layout)
    requires Tree(nodes)
    ensures Closed(TableOf(nodes))
  {
    forall p | p in nodes && p != [] ensures Front(p) in nodes {
      assert UpLinked(nodes, LinksOf(nodes), p);
    }
  }

  /** A path whose node is missing has no nodes below it. */
  lemma NothingBelow(nodes: Layout, links: map<Path, Links>, c: Path)
    requires Linked(nodes, links, []) && c !in nodes
    ensures forall p :: p in nodes ==> !(c <= p)
  {
    forall p | p in nodes ensures !(c <= p) {
      AncestorsPresent(nodes, links, [], c, p);
    }
  }

  lemma {:induction false} AncestorsPresent(nodes: Layout, links: map<Path, Links>, at: Path, c: Path, p: Path)
    requires Linked(nodes, links, at) && p in nodes && at <= c
    ensures c <= p ==> c in nodes
    decreases |p|
  {
    if c <= p && c != p {
      assert c <= Front(p) && UpLinked(nodes, links, p);
      AncestorsPresent(nodes, links, at, c, Front(p));
    }
  }

  lemma HasChild(nodes: Layout, links: map<Path, Links>, at: Path, p: Path, d: Descriptor)
    requires Linked(nodes, links, at) && at <= p && p in nodes
    ensures d in links[p].children <==> Child(p, d) in nodes
    ensures d in links[p].children ==> links[p].children[d] == nodes[Child(p, d)]
  {
    assert DownLinked(nodes, links, p);
    assert Child(p, d) in nodes ==> UpLinked(nodes, links, Child(p, d));
  }

  /** The layout holds the nodes of both parts and no others. */
  ghost predicate IsUnion(all: Layout, nodes: Layout, part: Layout) {
    && all.Keys == nodes.Keys + part.Keys
    && (forall p :: p in nodes ==> all[p] == nodes[p])
    && (forall p :: p in part ==> all[p] == part[p])
  }

  /** One tree, a linked part for a free descriptor below one of its nodes, and the result of
      hanging the part there: two links are new, all others are as they were. */
  ghost predicate Grafted(nodes: Layout, links: map<Path, Links>, part: Layout, partLinks: map<Path, Links>,
                          all: Layout, allLinks: map<Path, Links>, at: Path, d: Descriptor)
  {
    && Linked(nodes, links, []) && at in nodes && Child(at, d) !in nodes
    && Linked(part, partLinks, Child(at, d)) && (forall p :: p in part ==> Child(at, d) <= p)
    && IsUnion(all, nodes, part) && Distinct(all) && allLinks.Keys == all.Keys
    && (forall p :: p in nodes && p != at ==> allLinks[p] == links[p])
    && (forall p :: p in part && p != Child(at, d) ==> allLinks[p] == partLinks[p])
    && allLinks[at] == Links(links[at].parent, links[at].children[d := part[Child(at, d)]])
    && allLinks[Child(at, d)] == Links(nodes[at], partLinks[Child(at, d)].children)
  }

  lemma GraftKeepsTree(nodes: Layout, links: map<Path, Links>, part: Layout, partLinks: map<Path, Links>,
                       all: Layout, allLinks: map<Path, Links>, at: Path, d: Descriptor)
    requires Grafted(nodes, links, part, partLinks, all, allLinks, at, d)
    ensures Linked(all, allLinks, [])
  {
    hide Linked, UpLinked, DownLinked;
    assert [] in all && allLinks.Keys == all.Keys by {
      RootIn(nodes, links);
    }
    forall p | p in all && [] < p ensures UpLinked(all, allLinks, p) {
      if p in nodes {
        GraftKeepsOldLink(nodes, links, part, partLinks, all, allLinks, at, d, p);
      } else {
        GraftKeepsPartLink(nodes, links, part, partLinks, all, allLinks, at, d, p);
      }
    }
    forall p | p in all ensures DownLinked(all, allLinks, p) {
      GraftDownLinked(nodes, links, part, partLinks, all, allLinks, at, d, p);
    }
    IsLinked(all, allLinks, []);
  }

  lemma RootIn(nodes: Layout, links: map<Path, Links>)
    requires Linked(nodes, links, [])
    ensures [] in nodes && Distinct(nodes)
  {
  }

  lemma IsLinked(nodes: Layout, links: map<Path, Links>, at: Path)
    requires links.Keys == nodes.Keys && at in nodes && Distinct(nodes)
    requires forall p :: p in nodes && at < p ==> UpLinked(nodes, links, p)
    requires forall p :: p in nodes && at <= p ==> DownLinked(nodes, links, p)
    ensures Linked(nodes, links, at)
  {
  }

  lemma GraftKeepsOldLink(nodes: Layout, links: map<Path, Links>, part: Layout, partLinks: map<Path, Links>,
                          all: Layout, allLinks: map<Path, Links>, at: Path, d: Descriptor, p: Path)
    requires Grafted(nodes, links, part, partLinks, all, allLinks, at, d)
    requires p in nodes && p != []
    ensures UpLinked(all, allLinks, p)
  {
    hide Linked, Distinct;
    UpLinkedAt(nodes, links, [], p);
    ChildOfFront(p);
  }

  lemma GraftKeepsPartLink(nodes: Layout, links: map<Path, Links>, part: Layout, partLinks: map<Path, Links>,
                           all: Layout, allLinks: map<Path, Links>, at: Path, d: Descriptor, p: Path)
    requires Grafted(nodes, links, part, partLinks, all, allLinks, at, d)
    requires p in part
    ensures UpLinked(all, allLinks, p)
  {
    hide Linked, Distinct;
    var c := Child(at, d);
    if p != c {
      UpLinkedAt(part, partLinks, c, p);
      NotInTree(nodes, links, c, Front(p));
    }
  }

  lemma GraftDownLinked(nodes: Layout, links: map<Path, Links>, part: Layout, partLinks: map<Path, Links>,
                        all: Layout, allLinks: map<Path, Links>, at: Path, d: Descriptor, p: Path)
    requires Grafted(nodes, links, part, partLinks, all, allLinks, at, d)
    requires p in all
    ensures DownLinked(all, allLinks, p)
  {
    if p in nodes {
      assert DownLinked(nodes, links, p);
    } else {
      assert DownLinked(part, partLinks, p);
    }
  }

  lemma UpLinkedAt(nodes: Layout, links: map<Path, Links>, at: Path, p: Path)
    requires Linked(nodes, links, at) && p in nodes && at < p
    ensures UpLinked(nodes, links, p)
  {
  }

  lemma NotInTree(nodes: Layout, links: map<Path, Links>, c: Path, p: Path)
    requires Linked(nodes, links, []) && c !in nodes && c <= p
    ensures p !in nodes
  {
    NothingBelow(nodes, links, c);
  }

  // ----- adding

  /** The child of a node for a descriptor, created when missing, with the new revision and,
      for the last descriptor of a symbol, the symbol's entry. */
  method AddChild(t: Node, d: Descriptor, entry: Option<SymbolVersion>, version: string, revision: int,
                  ghost nodes: Layout, ghost at: Path)
    returns (child: Node, isNew: bool, ghost after: Layout)
    requires Tree(nodes) && at in nodes && nodes[at] == t
    modifies nodes.Values
    ensures Tree(after) && after.Keys == nodes.Keys + {Child(at, d)} && child == after[Child(at, d)]
    ensures forall p :: p in nodes ==> after[p] == nodes[p]
    ensures forall p :: p in after && p !in nodes ==> fresh(after[p])
    ensures forall p :: p in nodes && p != Child(at, d) ==> Value(nodes[p]) == old(Value(nodes[p]))
    ensures isNew <==> Child(at, d) !in nodes
    ensures child.revision == revision
    ensures child.versions == var v := if isNew then map[] else old(nodes[Child(at, d)].versions);
                              if entry.Some? then v[version := entry.value] else v
  {
    hide Linked, Tree;
    ChildOfTree(nodes, at, d);
    child, isNew, after := FindOrAttach(t, d, revision, nodes, at);
    Update(child, entry, version, revision);
  }

  /** In a tree, a node has exactly the children that the layout says, and stands nowhere else. */
  lemma ChildOfTree(nodes: Layout, at: Path, d: Descriptor)
    requires Tree(nodes) && at in nodes
    ensures d in nodes[at].children <==> Child(at, d) in nodes
    ensures Child(at, d) in nodes ==>
              nodes[at].children[d] == nodes[Child(at, d)] && forall p :: p in nodes && p != Child(at, d) ==> nodes[p] != nodes[Child(at, d)]
  {
    hide Linked;
    HasChild(nodes, LinksOf(nodes), [], at, d);
    DistinctPart(nodes, LinksOf(nodes), []);
  }

  method FindOrAttach(t: Node, d: Descriptor, revision: int, ghost nodes: Layout, ghost at: Path)
    returns (child: Node, isNew: bool, ghost after: Layout)
    requires Tree(nodes) && at in nodes && nodes[at] == t
    modifies t`children
    ensures Tree(after) && after == nodes[Child(at, d) := child]
    ensures isNew <==> Child(at, d) !in nodes
    ensures isNew ==> fresh(child) && child.versions == map[]
    ensures !isNew ==> child == nodes[Child(at, d)]
  {
    hide Linked, Tree;
    ChildOfTree(nodes, at, d);
    isNew := d !in t.children;
    if isNew {
      child := Attach(t, d, revision, nodes, at);
      after := nodes[Child(at, d) := child];
    } else {
      child := t.children[d];
      after := nodes;
      assert nodes[Child(at, d) := child] == nodes;
    }
  }

  /** Gives a node its revision and, if there is one, an entry. */
  method Update(n: Node, entry: Option<SymbolVersion>, version: string, revision: int)
    modifies n`versions, n`revision
    ensures n.revision == revision
    ensures n.versions == if entry.Some? then old(n.versions)[version := entry.value] else old(n.versions)
  {
    n.revision := revision;
    if entry.Some? {
      n.versions := n.versions[version := entry.value];
    }
  }

  method Attach(t: Node, d: Descriptor, revision: int, ghost nodes: Layout, ghost at: Path) returns (n: Node)
    requires Tree(nodes) && at in nodes && nodes[at] == t && Child(at, d) !in nodes
    modifies t`children
    ensures fresh(n) && Tree(nodes[Child(at, d) := n])
    ensures n.versions == map[] && n.revision == revision
  {
    hide Linked;
    ghost var links := LinksOf(nodes);
    ghost var c := Child(at, d);
    DistinctPart(nodes, links, []);
    n := new Node(t, revision);
    t.children := t.children[d := n];
    ghost var part, all := map[c := n], nodes[c := n];
    SingleLinked(c, n, Links(t, map[]));
    assert forall p :: p in nodes && p != at ==> nodes[p] != t;
    GraftKeepsTree(nodes, links, part, map[c := Links(t, map[])], all, LinksOf(all), at, d);
  }

  lemma SingleLinked(c: Path, n: Node, links: Links)
    requires links.children == map[]
    ensures Linked(map[c := n], map[c := links], c)
  {
  }

  /** One round of adding a symbol: the next descriptor of its path. */
  method AddDescriptor(node: Node, s: Symbol, i: nat, ghost nodes: Layout, ghost before: Table)
    returns (child: Node, isNew: bool, ghost after: Layout)
    requires Tree(nodes) && i < |s.path| && s.path[..i] in nodes && node == nodes[s.path[..i]]
    requires TableOf(nodes) == AddUpTo(before, s, i)
    modifies nodes.Values
    ensures Tree(after) && after.Keys == nodes.Keys + {s.path[..i + 1]} && child == after[s.path[..i + 1]]
    ensures forall p :: p in nodes ==> after[p] == nodes[p]
    ensures forall p :: p in after && p !in nodes ==> fresh(after[p])
    ensures TableOf(after) == AddUpTo(before, s, i + 1)
    ensures isNew <==> s.path[..i + 1] !in before
  {
    hide Linked, Tree, AddWay, Add;
    ghost var at, table := s.path[..i], TableOf(nodes);
    ghost var next := Child(at, s.path[i]);
    assert next == s.path[..i + 1];
    WayKeys(before, at, s.revision, next);
    if i == |s.path| - 1 {
      child, isNew, after := AddChild(node, s.path[i], Some(s.entry), s.version, s.revision, nodes, at);
      assert next == s.path;
      AddLast(before, s, table, TableOf(after));
    } else {
      child, isNew, after := AddChild(node, s.path[i], None, s.version, s.revision, nodes, at);
      AddStep(before, s.path, i, s.revision, table, TableOf(after));
    }
  }

  /** Adds a symbol to the tree rooted at a node; a symbol that does not parse is ignored. */
  method AddSymbol(t: Node, symbol: Option<Symbol>, ghost nodes: Layout)
    returns (node: Node?, isNew: bool, ghost after: Layout)
    requires Tree(nodes) && nodes[[]] == t
    modifies nodes.Values
    ensures Tree(after) && nodes.Keys <= after.Keys && forall p :: p in nodes ==> after[p] == nodes[p]
    ensures forall p :: p in after && p !in nodes ==> fresh(after[p])
    ensures symbol == None ==> node == null && !isNew && TableOf(after) == old(TableOf(nodes))
    ensures symbol.Some? ==> TableOf(after) == Add(old(TableOf(nodes)), symbol.value)
    ensures symbol.Some? ==> symbol.value.path in after && node == after[symbol.value.path]
    ensures symbol.Some? ==> (isNew <==> symbol.value.path !in nodes)
  {
    hide Linked, Tree, TableOf, AddUpTo, Add, AddWay;
    after := nodes;
    if symbol == None {
      return null, false, nodes;
    }
    var s := symbol.value;
    ghost var before := TableOf(nodes);
    node, isNew := t, false;
    StartOfWay(before, s);
    for i := 0 to |s.path|
      invariant Tree(after) && nodes.Keys <= after.Keys && forall p :: p in nodes ==> after[p] == nodes[p]
      invariant forall p :: p in after && p !in nodes ==> fresh(after[p])
      invariant s.path[..i] in after && node == after[s.path[..i]]
      invariant isNew <==> s.path[..i] !in nodes
      invariant TableOf(after) == AddUpTo(before, s, i)
    {
      node, isNew, after := AddDescriptor(node, s, i, after, before);
    }
    EndOfWay(before, s);
  }

  lemma StartOfWay(t: Table, s: Symbol)
    ensures AddUpTo(t, s, 0) == t && s.path[..0] == []
  {
  }

  lemma EndOfWay(t: Table, s: Symbol)
    ensures AddUpTo(t, s, |s.path|) == Add(t, s) && s.path[..|s.path|] == s.path
  {
  }

  lemma WayKeys(t: Table, at: Path, revision: int, next: Path)
    requires at < next
    ensures next in AddWay(t, at, revision) <==> next in t
  {
  }

  /** The paths on the way to a path are those on the way to the path above, and the path. */
  lemma OnPathNext(path: Path, i: nat)
    requires i < |path|
    ensures forall p :: OnPath(p, path[..i + 1]) <==> OnPath(p, path[..i]) || p == path[..i + 1]
  {
    forall p ensures OnPath(p, path[..i + 1]) <==> OnPath(p, path[..i]) || p == path[..i + 1] {
      if p <= path[..i + 1] && |p| <= i {
        assert p <= path[..i];
      }
    }
  }

  lemma AddStep(t: Table, path: Path, i: nat, revision: int, now: Table, after: Table)
    requires i < |path| && now == AddWay(t, path[..i], revision)
    requires after.Keys == now.Keys + {path[..i + 1]}
    requires forall p :: p in now && p != path[..i + 1] ==> after[p] == now[p]
    requires after[path[..i + 1]] == NodeValue(VersionsAt(now, path[..i + 1]), revision)
    ensures after == AddWay(t, path[..i + 1], revision)
  {
    var way := path[..i + 1];
    OnPathNext(path, i);
    assert !OnPath(way, path[..i]);
    hide OnPath;
    assert after.Keys == AddWay(t, way, revision).Keys;
  }

  lemma AddLast(t: Table, s: Symbol, now: Table, after: Table)
    requires s.path != [] && now == AddWay(t, s.path[..|s.path| - 1], s.revision)
    requires after.Keys == now.Keys + {s.path}
    requires forall p :: p in now && p != s.path ==> after[p] == now[p]
    requires after[s.path] == NodeValue(VersionsAt(now, s.path)[s.version := s.entry], s.revision)
    ensures after == Add(t, s)
  {
    var front := s.path[..|s.path| - 1];
    OnPathNext(s.path, |s.path| - 1);
    assert s.path[..|s.path|] == s.path;
    assert !OnPath(s.path, front);
    hide OnPath, Add, AddWay;
    forall p
      ensures p in after <==> p in Add(t, s)
      ensures p in after ==> after[p] == Add(t, s)[p]
    {
      AddRow(t, s, p);
      AddWayRow(t, front, s.revision, p);
    }
  }

  // ----- reading

  /** The node at a path, or null. */
  method GetNode(t: Node, path: Path, ghost nodes: Layout) returns (node: Node?)
    requires Tree(nodes) && nodes[[]] == t
    ensures node == if path in nodes then nodes[path] else null
  {
    hide Linked;
    ghost var links := LinksOf(nodes);
    node := t;
    assert path[..0] == [];
    for i := 0 to |path|
      invariant path[..i] in nodes && node == nodes[path[..i]]
    {
      HasChild(nodes, links, [], path[..i], path[i]);
      assert Child(path[..i], path[i]) == path[..i + 1];
      if path[i] !in node.children {
        if path in nodes {
          AncestorsPresent(nodes, links, [], path[..i + 1], path);
        }
        return null;
      }
      node := node.children[path[i]];
    }
    assert path[..|path|] == path;
  }

  lemma {:induction false} StringOrderTotal(a: string, b: string)
    ensures StringAtMost(a, b) || StringAtMost(b, a)
  {
    if a != [] && b != [] && a[0] == b[0] {
      StringOrderTotal(a[1..], b[1..]);
    }
  }

  lemma {:induction false} StringOrderTransitive(a: string, b: string, c: string)
    requires StringAtMost(a, b) && StringAtMost(b, c)
    ensures StringAtMost(a, c)
  {
    if a != [] && a[0] == b[0] == c[0] {
      StringOrderTransitive(a[1..], b[1..], c[1..]);
    }
  }

  /** The version that sorting puts first. */
  method FirstVersion(versions: map<string, SymbolVersion>) returns (first: string)
    requires versions != map[]
    ensures first in versions && forall v :: v in versions ==> StringAtMost(first, v)
  {
    var left := versions.Keys;
    assert exists v :: v in left;
    first :| first in left;
    while left != {}
      invariant left <= versions.Keys && first in versions
      invariant forall v :: v in versions && v !in left ==> StringAtMost(first, v)
    {
      var next :| next in left;
      StringOrderTotal(first, next);
      StringOrderTotal(next, next);
      if !StringAtMost(first, next) {
        forall v | v in versions && v !in left ensures StringAtMost(next, v) {
          StringOrderTransitive(next, first, v);
        }
        first := next;
      }
      left := left - {next};
    }
  }

  /** Looks a symbol up by its descriptors; a version that is not there falls back to the first. */
  method GetSymbolInformation(t: Node, path: Path, version: string, ghost nodes: Layout)
    returns (r: Result<Option<SymbolVersion>, LookupError>)
    requires Tree(nodes) && nodes[[]] == t
    ensures IsLookup(TableOf(nodes), path, version, r)
  {
    if path == [] {
      return Err(NoDescriptors);
    }
    var node := GetNode(t, path, nodes);
    if node == null || node.versions == map[] || version == "" {
      return Ok(None);
    }
    if version in node.versions {
      return Ok(Some(node.versions[version]));
    }
    var first := FirstVersion(node.versions);
    return Ok(Some(node.versions[first]));
  }

  // ----- merging

  /** Copies the entries of another version map over one's own. */
  method MergeVersions(versions: map<string, SymbolVersion>, other: map<string, SymbolVersion>)
    returns (r: map<string, SymbolVersion>)
    ensures r == versions + other
  {
    r := versions;
    var left := other.Keys;
    while left != {}
      invariant left <= other.Keys
      invariant r == versions + (map v | v in other && v !in left :: other[v])
    {
      var v :| v in left;
      r := r[v := other[v]];
      left := left - {v};
    }
    assert (map v | v in other && v !in left :: other[v]) == other;
  }

  /** Takes over the entries and, if newer, the revision of another node. */
  method MergeSymbol(existing: Node, child: Node)
    modifies existing`versions, existing`revision
    ensures existing != child ==> Value(existing) == MergeValue(old(Value(existing)), Value(child))
  {
    existing.versions := MergeVersions(existing.versions, child.versions);
    if child.revision > existing.revision {
      existing.revision := child.revision;
    }
  }

  /** The nodes from a path on. */
  ghost function Part(nodes: Layout, c: Path): (part: Layout)
    ensures forall p :: p in part <==> p in nodes && c <= p
    ensures forall p :: p in part ==> part[p] == nodes[p]
  {
    map p | p in nodes && c <= p :: nodes[p]
  }

  /** No node is in both layouts. */
  ghost predicate Apart(a: Layout, b: Layout) {
    forall p, q :: p in a && q in b ==> a[p] != b[q]
  }

  /** Takes over a whole part of another tree, whose top is the child. */
  method TakeChild(t: Node, d: Descriptor, child: Node, ghost nodes: Layout, ghost part: Layout, ghost at: Path)
    returns (ghost all: Layout)
    requires Tree(nodes) && at in nodes && nodes[at] == t && Child(at, d) !in nodes
    requires LinkedFrom(part, Child(at, d)) && part[Child(at, d)] == child
    requires Apart(nodes, part) && forall p :: p in part ==> Child(at, d) <= p
    modifies t`children, child`parent
    ensures Tree(all) && IsUnion(all, nodes, part) && nodes.Keys !! part.Keys
  {
    hide Linked;
    ghost var links, partLinks := LinksOf(nodes), LinksOf(part);
    ghost var c := Child(at, d);
    NothingBelow(nodes, links, c);
    all := nodes + part;
    child.parent := t;
    t.children := t.children[d := child];
    assert IsUnion(all, nodes, part);
    assert Distinct(nodes) && Distinct(part) && Distinct(all) by {
      DistinctPart(nodes, links, []);
      DistinctPart(part, partLinks, c);
    }
    GraftKeepsTree(nodes, links, part, partLinks, all, LinksOf(all), at, d);
  }

  lemma DistinctPart(part: Layout, links: map<Path, Links>, c: Path)
    requires Linked(part, links, c)
    ensures Distinct(part)
  {
  }

  /** A part of a linked layout is linked. */
  lemma PartLinked(nodes: Layout, links: map<Path, Links>, at: Path, c: Path, partLinks: map<Path, Links>)
    requires Linked(nodes, links, at) && c in nodes && at <= c
    requires partLinks.Keys == Part(nodes, c).Keys
    requires forall p :: p in partLinks ==> partLinks[p] == links[p]
    ensures Linked(Part(nodes, c), partLinks, c)
  {
    var part := Part(nodes, c);
    forall p | p in part && c < p ensures UpLinked(part, partLinks, p) {
      assert UpLinked(nodes, links, p) && c <= Front(p);
    }
    forall p | p in part && c <= p ensures DownLinked(part, partLinks, p) {
      assert DownLinked(nodes, links, p);
    }
  }

  /** Merges one child of the other tree, with all that is below it. */
  method MergeChild(t: Node, d: Descriptor, child: Node, ghost nodes: Layout, ghost part: Layout, ghost at: Path)
    returns (ghost all: Layout)
    requires Tree(nodes) && at in nodes && nodes[at] == t
    requires LinkedFrom(part, Child(at, d)) && part[Child(at, d)] == child
    requires Apart(nodes, part) && forall p :: p in part ==> Child(at, d) <= p
    modifies nodes.Values, part.Values
    ensures Tree(all) && IsMerged(all, nodes, part)
    ensures TableOf(all) == MergeBelow(old(TableOf(nodes)), old(TableOf(part)), at)
    decreases part.Keys, 2
  {
    hide Linked, Apart, MergeBelow, IsMerged;
    HasChild(nodes, LinksOf(nodes), [], at, d);
    if d !in t.children {
      all := TakeMissing(t, d, child, nodes, part, at);
    } else {
      all := MergeExisting(t.children[d], child, nodes, part, at, Child(at, d));
    }
  }

  method TakeMissing(t: Node, d: Descriptor, child: Node, ghost nodes: Layout, ghost part: Layout, ghost at: Path)
    returns (ghost all: Layout)
    requires Tree(nodes) && at in nodes && nodes[at] == t && Child(at, d) !in nodes
    requires LinkedFrom(part, Child(at, d)) && part[Child(at, d)] == child
    requires Apart(nodes, part) && forall p :: p in part ==> Child(at, d) <= p
    modifies t`children, child`parent
    ensures Tree(all) && IsMerged(all, nodes, part)
    ensures TableOf(all) == MergeBelow(old(TableOf(nodes)), old(TableOf(part)), at)
  {
    hide Tree, LinkedFrom, LinksOf, Apart, MergeBelow, IsMerged;
    all := TakeChild(t, d, child, nodes, part, at);
    UnionIsMerged(all, nodes, part);
    MergeDisjoint(TableOf(nodes), TableOf(part), at, TableOf(all));
  }

  method MergeExisting(existing: Node, child: Node, ghost nodes: Layout, ghost part: Layout, ghost at: Path, ghost c: Path)
    returns (ghost all: Layout)
    requires Tree(nodes) && c in nodes && nodes[c] == existing && at < c
    requires LinkedFrom(part, c) && part[c] == child
    requires Apart(nodes, part) && forall p :: p in part ==> c <= p
    modifies nodes.Values, part.Values
    ensures Tree(all) && IsMerged(all, nodes, part)
    ensures TableOf(all) == MergeBelow(old(TableOf(nodes)), old(TableOf(part)), at)
    decreases part.Keys, 1
  {
    hide Tree, LinkedFrom, LinksOf, Apart, MergeBelow, IsMerged;
    ghost var table, rows := TableOf(nodes), TableOf(part);
    UpdateOne(nodes, part, c);
    MergeSymbol(existing, child);
    assert TableOf(part) == rows;
    ghost var updated := TableOf(nodes);
    assert updated == table[c := MergeValue(table[c], rows[c])];
    all := MergeInto(existing, child, nodes, part, c);
    MergeTop(table, rows, at, c, updated);
  }

  lemma UnionIsMerged(all: Layout, nodes: Layout, part: Layout)
    requires IsUnion(all, nodes, part)
    ensures IsMerged(all, nodes, part)
  {
  }

  lemma UpdateOne(nodes: Layout, part: Layout, c: Path)
    requires Tree(nodes) && Apart(nodes, part) && c in nodes && c in part
    ensures forall p :: p in nodes && p != c ==> nodes[p] != nodes[c]
    ensures forall q :: q in part ==> part[q] != nodes[c]
  {
  }

  /** The merged layout: the nodes of the first tree stay, those only in the second are taken. */
  ghost predicate IsMerged(all: Layout, nodes: Layout, other: Layout) {
    && all.Keys == nodes.Keys + other.Keys
    && (forall p :: p in nodes ==> all[p] == nodes[p])
    && (forall p :: p in other && p !in nodes ==> all[p] == other[p])
  }

  lemma MergeDisjoint(t: Table, rows: Table, at: Path, all: Table)
    requires t.Keys !! rows.Keys && all.Keys == t.Keys + rows.Keys
    requires (forall p :: p in t ==> all[p] == t[p]) && (forall p :: p in rows ==> all[p] == rows[p])
    ensures all == MergeBelow(t, rows, at)
  {
  }

  lemma MergeTop(t: Table, rows: Table, at: Path, c: Path, updated: Table)
    requires c in t && c in rows && at !in rows
    requires updated == t[c := MergeValue(t[c], rows[c])]
    ensures MergeBelow(updated, rows, c) == MergeBelow(t, rows, at)
  {
  }

  /** A node as it was found. */
  ghost predicate Intact(n: Node, links: Links, value: NodeValue)
    reads n
  {
    Links(n.parent, n.children) == links && Value(n) == value
  }

  lemma AllIntact(nodes: Layout)
    ensures forall p :: p in nodes ==>
              Intact(nodes[p], LinksOf(nodes)[p], TableOf(nodes)[p]) && LinksOf(nodes)[p].children == nodes[p].children
  {
  }

  /** Merges the children of the other node into this one, in any order. */
  method MergeInto(t: Node, other: Node, ghost nodes: Layout, ghost others: Layout, ghost at: Path)
    returns (ghost all: Layout)
    requires Tree(nodes) && at in nodes && nodes[at] == t
    requires LinkedFrom(others, at) && others[at] == other
    requires Apart(nodes, others) && forall p :: p in others ==> at <= p
    modifies nodes.Values, others.Values
    ensures Tree(all) && IsMerged(all, nodes, others)
    ensures TableOf(all) == MergeBelow(old(TableOf(nodes)), old(TableOf(others)), at)
    decreases others.Keys, 0
  {
    hide Linked, Tree, TableOf, LinksOf, Apart, MergeBelow, IsMerged, Progress, Handled, RowsFrom, Distinct;
    ghost var table, rows, links := TableOf(nodes), TableOf(others), LinksOf(others);
    all := nodes;
    var left := other.children.Keys;
    AllIntact(others);
    MergeStart(table, rows, at, others, links);
    ProgressStart(nodes, others, at, left);
    DistinctPart(others, links, at);
    while left != {}
      invariant left <= links[at].children.Keys && Intact(other, links[at], rows[at])
      invariant Tree(all) && at in all && all[at] == t && Progress(all, nodes, others, at, left)
      invariant TableOf(all) == MergeBelow(table, Handled(rows, at, left), at)
      invariant forall q :: q in others && IsPending(q, at, left) ==> Intact(others[q], links[q], rows[q])
    {
      var d :| d in left;
      var child := other.children[d];
      ghost var c, prior := Child(at, d), all;
      ghost var part := Part(others, c);
      NextPart(others, links, rows, at, left, d);
      ProgressApart(all, nodes, others, at, left, d);
      all := MergeChild(t, d, child, all, part, at);
      MergeNext(table, rows, at, left, d);
      ProgressStep(all, prior, nodes, others, at, left, d);
      left := left - {d};
    }
    MergeEnd(rows, at);
    ProgressEnd(all, nodes, others, at, table, rows);
  }

  /** Between rounds: the first tree's nodes are in place, and the others come from the second
      tree, below children already handled. */
  ghost predicate Progress(all: Layout, nodes: Layout, others: Layout, at: Path, left: set<Descriptor>) {
    && (forall p :: p in nodes ==> p in all && all[p] == nodes[p])
    && (forall p :: p in all && p !in nodes ==> p in others && all[p] == others[p] && at < p && p[|at|] !in left)
  }

  lemma ProgressStart(nodes: Layout, others: Layout, at: Path, left: set<Descriptor>)
    ensures Progress(nodes, nodes, others, at, left)
  {
  }

  /** What is below the next child is a linked part with the rows it had. */
  lemma NextPart(others: Layout, links: map<Path, Links>, rows: Table, at: Path, left: set<Descriptor>, d: Descriptor)
    requires Linked(others, links, at) && rows.Keys == others.Keys && d in left && d in links[at].children
    requires forall q :: q in others && IsPending(q, at, left) ==> Intact(others[q], links[q], rows[q])
    ensures var c := Child(at, d);
            && LinkedFrom(Part(others, c), c) && Part(others, c)[c] == links[at].children[d]
            && TableOf(Part(others, c)) == RowsFrom(rows, c)
  {
    hide Linked, RowsFrom;
    var c := Child(at, d);
    var part := Part(others, c);
    assert forall q :: q in part ==> IsPending(q, at, left);
    HasChild(others, links, at, at, d);
    PartLinked(others, links, at, c, LinksOf(part));
    PartTable(rows, c, TableOf(part));
  }

  lemma PartTable(rows: Table, c: Path, table: Table)
    requires forall p :: p in table <==> p in rows && c <= p
    requires forall p :: p in table ==> table[p] == rows[p]
    ensures table == RowsFrom(rows, c)
  {
  }

  /** The next part shares no node with the tree built so far, nor with what comes later. */
  lemma ProgressApart(all: Layout, nodes: Layout, others: Layout, at: Path, left: set<Descriptor>, d: Descriptor)
    requires Progress(all, nodes, others, at, left) && Apart(nodes, others) && Distinct(others) && d in left
    ensures Apart(all, Part(others, Child(at, d)))
    ensures forall q :: q in others && IsPending(q, at, left - {d}) ==>
              others[q] !in all.Values && others[q] !in Part(others, Child(at, d)).Values
    ensures all.Values <= nodes.Values + others.Values && Part(others, Child(at, d)).Values <= others.Values
  {
  }

  lemma ProgressStep(all: Layout, prior: Layout, nodes: Layout, others: Layout, at: Path, left: set<Descriptor>, d: Descriptor)
    requires Progress(prior, nodes, others, at, left) && d in left
    requires IsMerged(all, prior, Part(others, Child(at, d)))
    ensures Progress(all, nodes, others, at, left - {d})
  {
  }

  lemma ProgressEnd(all: Layout, nodes: Layout, others: Layout, at: Path, table: Table, rows: Table)
    requires Progress(all, nodes, others, at, {}) && table.Keys == nodes.Keys && rows.Keys == others.Keys
    requires all.Keys == MergeBelow(table, rows, at).Keys
    ensures IsMerged(all, nodes, others)
  {
  }

  /** Not yet reached: the other node itself, or below one of the children left. */
  ghost predicate IsPending(q: Path, at: Path, left: set<Descriptor>) {
    q == at || (at < q && q[|at|] in left)
  }

  lemma MergeStart(t: Table, rows: Table, at: Path, others: Layout, links: map<Path, Links>)
    requires Linked(others, links, at) && rows.Keys == others.Keys && at in t
    ensures MergeBelow(t, Handled(rows, at, links[at].children.Keys), at) == t
  {
    hide Linked;
    forall q | q in others && at < q ensures q[|at|] in links[at].children {
      AncestorsPresent(others, links, at, q[..|at| + 1], q);
      assert q[..|at| + 1] == Child(at, q[|at|]);
      HasChild(others, links, at, at, q[|at|]);
    }
    assert forall q :: q in Handled(rows, at, links[at].children.Keys) ==> q == at;
  }

  lemma MergeEnd(rows: Table, at: Path)
    requires forall p :: p in rows ==> at <= p
    ensures Handled(rows, at, {}) == rows
  {
  }

  /** Merges another tree into this one; the nodes of the other tree are taken over, with their
      links, or copied into existing ones. */
  method Merge(t: Node, other: Node, ghost nodes: Layout, ghost others: Layout) returns (ghost all: Layout)
    requires Tree(nodes) && nodes[[]] == t && Tree(others) && others[[]] == other && Apart(nodes, others)
    modifies nodes.Values, others.Values
    ensures Tree(all) && IsMerged(all, nodes, others)
    ensures TableOf(all) == SymbolTable.Merge(old(TableOf(nodes)), old(TableOf(others)))
  {
    MergeFromRoot(TableOf(nodes), TableOf(others));
    all := MergeInto(t, other, nodes, others, []);
  }

  /** Loads the symbols of an index file: they are collected in a local tree, which is then
      merged. Lookups are as if the symbols had been added one by one. */
  method LoadIndex(t: Node, symbols: seq<Symbol>, ghost nodes: Layout) returns (ghost all: Layout)
    requires Tree(nodes) && nodes[[]] == t
    modifies nodes.Values
    ensures Tree(all) && forall p :: p in nodes ==> p in all && all[p] == nodes[p]
    ensures TableOf(all) == SymbolTable.Merge(old(TableOf(nodes)), AddAll(EMPTY_TABLE, symbols))
    ensures SameSymbols(TableOf(all), AddAll(old(TableOf(nodes)), symbols))
  {
    hide Tree, TableOf, LinksOf, AddAll, SameSymbols, SymbolTable.Merge;
    var local, locals := BuildLocal(symbols);
    all := Merge(t, local, nodes, locals);
    LoadThenMerge(old(TableOf(nodes)), symbols);
  }

  method BuildLocal(symbols: seq<Symbol>) returns (local: Node, ghost locals: Layout)
    ensures Tree(locals) && locals[[]] == local && forall p :: p in locals ==> fresh(locals[p])
    ensures TableOf(locals) == AddAll(EMPTY_TABLE, symbols)
  {
    hide Linked, Tree, TableOf, Add;
    local, locals := EmptyTree();
    for i := 0 to |symbols|
      invariant Tree(locals) && locals[[]] == local && forall p :: p in locals ==> fresh(locals[p])
      invariant TableOf(locals) == AddAll(EMPTY_TABLE, symbols[..i])
    {
      var node, isNew;
      node, isNew, locals := AddSymbol(local, Some(symbols[i]), locals);
      assert symbols[..i + 1][..i] == symbols[..i];
    }
    assert symbols[..|symbols|] == symbols;
  }

  method EmptyTree() returns (root: Node, ghost nodes: Layout)
    ensures fresh(root) && nodes == map[[] := root] && Tree(nodes) && TableOf(nodes) == EMPTY_TABLE
  {
    hide Linked;
    root := new Node(null, 0);
    nodes := map[[] := root];
    SingleLinked([], root, Links(null, map[]));
    assert LinksOf(nodes) == map[[] := Links(null, map[])];
  }

  // ----- pruning

  /** Some version of the node was written by the document. */
  method HoldsDocument(versions: map<string, SymbolVersion>, doc: string) returns (found: bool)
    ensures found <==> exists v :: v in versions && versions[v].documentPath == doc
  {
    var left := versions.Keys;
    while left != {}
      invariant left <= versions.Keys
      invariant forall v :: v in versions && v !in left ==> versions[v].documentPath != doc
    {
      var v :| v in left;
      if versions[v].documentPath == doc {
        return true;
      }
      left := left - {v};
    }
    return false;
  }

  /** The nodes that are not below a path. */
  ghost function Without(nodes: Layout, c: Path): (rest: Layout)
    ensures forall p :: p in rest <==> p in nodes && !(c <= p)
    ensures forall p :: p in rest ==> rest[p] == nodes[p]
  {
    map p | p in nodes && !(c <= p) :: nodes[p]
  }

  lemma CutKeepsTree(nodes: Layout, links: map<Path, Links>, at: Path, d: Descriptor, rest: Layout, restLinks: map<Path, Links>)
    requires Linked(nodes, links, []) && at in nodes && [] in rest
    requires rest == Without(nodes, Child(at, d)) && restLinks.Keys == rest.Keys
    requires forall p :: p in rest && p != at ==> restLinks[p] == links[p]
    requires restLinks[at] == Links(links[at].parent, links[at].children - {d})
    ensures Linked(rest, restLinks, [])
  {
    hide Linked, UpLinked, DownLinked;
    DistinctPart(nodes, links, []);
    forall p | p in rest && [] < p ensures UpLinked(rest, restLinks, p) {
      UpLinkedAt(nodes, links, [], p);
      CutUpLinked(nodes, links, at, d, rest, restLinks, p);
    }
    forall p | p in rest ensures DownLinked(rest, restLinks, p) {
      DownLinkedAt(nodes, links, p);
      CutDownLinked(nodes, links, at, d, rest, restLinks, p);
    }
    IsLinked(rest, restLinks, []);
  }

  lemma DownLinkedAt(nodes: Layout, links: map<Path, Links>, p: Path)
    requires Linked(nodes, links, []) && p in nodes
    ensures DownLinked(nodes, links, p)
  {
  }

  lemma CutUpLinked(nodes: Layout, links: map<Path, Links>, at: Path, d: Descriptor, rest: Layout, restLinks: map<Path, Links>, p: Path)
    requires links.Keys == nodes.Keys && at in nodes && rest == Without(nodes, Child(at, d)) && restLinks.Keys == rest.Keys
    requires forall q :: q in rest && q != at ==> restLinks[q] == links[q]
    requires restLinks[at] == Links(links[at].parent, links[at].children - {d})
    requires p in rest && p != [] && UpLinked(nodes, links, p)
    ensures UpLinked(rest, restLinks, p)
  {
    ChildOfFront(p);
  }

  lemma CutDownLinked(nodes: Layout, links: map<Path, Links>, at: Path, d: Descriptor, rest: Layout, restLinks: map<Path, Links>, p: Path)
    requires links.Keys == nodes.Keys && at in nodes && rest == Without(nodes, Child(at, d)) && restLinks.Keys == rest.Keys
    requires forall q :: q in rest && q != at ==> restLinks[q] == links[q]
    requires restLinks[at] == Links(links[at].parent, links[at].children - {d})
    requires p in rest && DownLinked(nodes, links, p)
    ensures DownLinked(rest, restLinks, p)
  {
    forall e | e in restLinks[p].children ensures Child(p, e) in rest {
      OnlyItself(p, e, Child(at, d));
    }
  }

  /** A child of a node outside a part is outside too, unless it is the part's top. */
  lemma OnlyItself(p: Path, e: Descriptor, c: Path)
    requires c != [] && !(c <= p)
    ensures c <= Child(p, e) ==> Front(c) == p && Last(c) == e
  {
    if c <= Child(p, e) {
      assert c == Child(p, e);
    }
  }

  /** Removes a child and with it all that is below. */
  method DropChild(t: Node, d: Descriptor, ghost nodes: Layout, ghost at: Path) returns (ghost rest: Layout)
    requires Tree(nodes) && at in nodes && nodes[at] == t && d in t.children
    modifies t`children
    ensures rest == Without(nodes, Child(at, d)) && Tree(rest)
  {
    hide Linked;
    ghost var links := LinksOf(nodes);
    DistinctPart(nodes, links, []);
    t.children := t.children - {d};
    rest := Without(nodes, Child(at, d));
    CutKeepsTree(nodes, links, at, d, rest, LinksOf(rest));
  }

  /** Removes, below a node, every node that is older than the revision and was written by the
      document, together with all that is below it. */
  method PruneNodes(t: Node, doc: string, revision: int, ghost nodes: Layout, ghost at: Path) returns (ghost kept: Layout)
    requires Tree(nodes) && at in nodes && nodes[at] == t
    modifies nodes.Values`children
    ensures Tree(kept) && Within(kept, nodes)
    ensures TableOf(kept) == Prune(old(TableOf(nodes)), at, doc, revision)
    ensures RevisionOrdered(old(TableOf(nodes))) ==> forall p :: p in nodes && old(nodes[p].revision) >= revision ==> p in kept
    decreases Part(nodes, at).Keys, 0
  {
    hide Tree, TableOf, LinksOf, Within, PrunedSoFar, Prune, RevisionOrdered;
    kept := nodes;
    ghost var table := TableOf(nodes);
    if RevisionOrdered(table) {
      CurrentNodesStay(nodes, at, doc, revision);
    }
    var left := t.children.Keys;
    PruneStart(nodes, at, doc, revision);
    while left != {}
      invariant Tree(kept) && at in kept && kept[at] == t && Within(kept, nodes)
      invariant TableOf(kept) == PrunedSoFar(table, at, doc, revision, left)
      invariant forall d :: d in left ==> Child(at, d) in table
    {
      var d :| d in left;
      ghost var prior := kept;
      SmallerPart(nodes, kept, at, Child(at, d));
      kept := PruneChild(t, d, doc, revision, kept, at, table, left);
      left := left - {d};
      WithinStep(kept, prior, nodes, at);
      SoFarKeepsStart(table, at, doc, revision, left);
    }
    PruneEnd(table, at, doc, revision);
  }

  /** In a tree whose parents are at least as new as their children, no current node goes. */
  lemma CurrentNodesStay(nodes: Layout, at: Path, doc: string, revision: int)
    requires Tree(nodes) && RevisionOrdered(TableOf(nodes))
    ensures forall p :: p in nodes && nodes[p].revision >= revision ==> p in Prune(TableOf(nodes), at, doc, revision)
  {
    hide Prune, RevisionOrdered, Tree;
    TreeIsClosed(nodes);
    forall p | p in nodes && nodes[p].revision >= revision ensures p in Prune(TableOf(nodes), at, doc, revision) {
      PruneSparesCurrent(TableOf(nodes), at, doc, revision, p);
    }
  }

  lemma WithinStep(kept: Layout, prior: Layout, nodes: Layout, at: Path)
    requires Within(kept, prior) && Within(prior, nodes)
    ensures Within(kept, nodes) && (at in kept ==> kept[at] == prior[at])
  {
  }

  ghost predicate Within(kept: Layout, nodes: Layout) {
    forall p :: p in kept ==> p in nodes && kept[p] == nodes[p]
  }

  /** One round of pruning: the child goes, or is pruned in turn. */
  method PruneChild(t: Node, d: Descriptor, doc: string, revision: int,
                    ghost nodes: Layout, ghost at: Path, ghost table: Table, ghost left: set<Descriptor>)
    returns (ghost kept: Layout)
    requires Tree(nodes) && at in nodes && nodes[at] == t
    requires TableOf(nodes) == PrunedSoFar(table, at, doc, revision, left) && d in left && Child(at, d) in table
    modifies nodes.Values`children
    ensures Tree(kept) && Within(kept, nodes)
    ensures TableOf(kept) == PrunedSoFar(table, at, doc, revision, left - {d})
    decreases Part(nodes, Child(at, d)).Keys, 1
  {
    hide Tree, TableOf, LinksOf, Within, PrunedSoFar, Prune;
    ghost var c := Child(at, d);
    SoFarKeeps(table, at, doc, revision, left, d);
    NodeAt(nodes, at, d);
    var child := t.children[d];
    var shouldDelete := false;
    if child.revision < revision {
      shouldDelete := HoldsDocument(child.versions, doc);
    }
    if shouldDelete {
      kept := DropChild(t, d, nodes, at);
      WithoutTable(nodes, c);
      PruneStaleChild(table, at, doc, revision, left, d, TableOf(kept));
    } else {
      kept := PruneNodes(child, doc, revision, nodes, c);
      PruneKeptChild(table, at, doc, revision, left, d);
    }
  }

  lemma WithoutTable(nodes: Layout, c: Path)
    ensures Within(Without(nodes, c), nodes)
    ensures forall p :: p in TableOf(Without(nodes, c)) <==> p in TableOf(nodes) && !(c <= p)
    ensures forall p :: p in TableOf(Without(nodes, c)) ==> TableOf(Without(nodes, c))[p] == TableOf(nodes)[p]
  {
  }

  /** A child that the layout knows is the node's child, and its row is its value. */
  lemma NodeAt(nodes: Layout, at: Path, d: Descriptor)
    requires Tree(nodes) && at in nodes && Child(at, d) in nodes
    ensures d in nodes[at].children && nodes[at].children[d] == nodes[Child(at, d)]
    ensures TableOf(nodes)[Child(at, d)] == Value(nodes[Child(at, d)])
  {
    hide Linked;
    HasChild(nodes, LinksOf(nodes), [], at, d);
  }

  lemma SmallerPart(nodes: Layout, kept: Layout, at: Path, c: Path)
    requires at in nodes && at < c && Within(kept, nodes)
    ensures Part(kept, c).Keys < Part(nodes, at).Keys && kept.Values <= nodes.Values
  {
    assert at in Part(nodes, at) && at !in Part(kept, c);
  }

  lemma PruneStart(nodes: Layout, at: Path, doc: string, revision: int)
    requires Tree(nodes) && at in nodes
    ensures TableOf(nodes) == PrunedSoFar(TableOf(nodes), at, doc, revision, nodes[at].children.Keys)
    ensures forall d :: d in nodes[at].children ==> Child(at, d) in TableOf(nodes)
    ensures Within(nodes, nodes)
  {
    hide Linked, Doomed;
    var links := LinksOf(nodes);
    forall q | q in nodes && at < q ensures q[|at|] in links[at].children {
      AncestorsPresent(nodes, links, [], q[..|at| + 1], q);
      assert q[..|at| + 1] == Child(at, q[|at|]);
      HasChild(nodes, links, [], at, q[|at|]);
    }
    forall d | d in links[at].children ensures Child(at, d) in nodes {
      HasChild(nodes, links, [], at, d);
    }
  }

  lemma SoFarKeeps(t: Table, at: Path, doc: string, revision: int, left: set<Descriptor>, d: Descriptor)
    requires d in left && Child(at, d) in t
    ensures Child(at, d) in PrunedSoFar(t, at, doc, revision, left)
    ensures PrunedSoFar(t, at, doc, revision, left)[Child(at, d)] == t[Child(at, d)]
  {
  }

  lemma SoFarKeepsStart(t: Table, at: Path, doc: string, revision: int, left: set<Descriptor>)
    requires at in t
    ensures at in PrunedSoFar(t, at, doc, revision, left)
  {
  }

  lemma PruneEnd(t: Table, at: Path, doc: string, revision: int)
    ensures PrunedSoFar(t, at, doc, revision, {}) == Prune(t, at, doc, revision)
  {
    forall p | Doomed(t, at, doc, revision, p) ensures at < p {
    }
  }
}
