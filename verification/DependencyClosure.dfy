/** Depth-limited collection of a target's dependencies, in which exports ignore the limit. */
module DependencyClosure {
  import opened Wrappers
  import opened Counting

  datatype Rule = Rule(exports: seq<string>, directDeps: seq<string>)

  type Graph = map<string, Rule>

  // ----- the search

  /** The list that the search answers with when its calls nest at most `fuel` deep; none if they
      nest deeper. */
  function Dfs(g: Graph, target: string, depth: int, fuel: nat): Option<seq<string>>
    decreases fuel, 0
  {
    if fuel == 0 then None
    else if target !in g then Some([])
    else
      var exported := DfsAll(g, g[target].exports, depth - 1, fuel - 1);
      if depth < 0 || exported == None then exported
      else if depth == 0 then Some(exported.value + [target])
      else
        var direct := DfsAll(g, g[target].directDeps, depth - 1, fuel - 1);
        if direct == None then None else Some(exported.value + [target] + direct.value)
  }

  /** Each of the targets followed by what the search answers for it. */
  function DfsAll(g: Graph, targets: seq<string>, depth: int, fuel: nat): Option<seq<string>>
    decreases fuel, |targets| + 1
  {
    if targets == [] then Some([])
    else
      var last := targets[|targets| - 1];
      var front := DfsAll(g, targets[..|targets| - 1], depth, fuel);
      var below := Dfs(g, last, depth, fuel);
      if front == None || below == None then None else Some(front.value + [last] + below.value)
  }

  /** The search as a loop over exports and a loop over direct dependencies. The bound on
      nesting is there for the proof alone. */
  method CollectDependencies(g: Graph, target: string, depth: int, ghost fuel: nat) returns (result: seq<string>)
    requires Dfs(g, target, depth, fuel).Some?
    ensures Some(result) == Dfs(g, target, depth, fuel)
    ensures forall x :: x in result <==> (x == target && target in g && depth >= 0) || Reaches(g, target, depth, x)
    decreases fuel
  {
    hide Dfs, DfsAll, Reaches;
    DfsUnfold(g, target, depth, fuel);
    DfsFindsExactly(g, target, depth, fuel);
    result := [];
    if target !in g {
      return;
    }
    var exports, deps := g[target].exports, g[target].directDeps;
    assert exports[..|exports|] == exports && deps[..|deps|] == deps;
    assert exports[..0] == [] && deps[..0] == [];
    for i := 0 to |exports|
      invariant Some(result) == DfsAll(g, exports[..i], depth - 1, fuel - 1)
    {
      NextOf(g, exports, depth - 1, fuel - 1, i);
      var below := CollectDependencies(g, exports[i], depth - 1, fuel - 1);
      result := result + [exports[i]] + below;
    }
    if depth < 0 {
      return;
    }
    result := result + [target];
    if depth == 0 {
      return;
    }
    ghost var sofar := result;
    for i := 0 to |deps|
      invariant DfsAll(g, deps[..i], depth - 1, fuel - 1).Some?
      invariant result == sofar + DfsAll(g, deps[..i], depth - 1, fuel - 1).value
    {
      NextOf(g, deps, depth - 1, fuel - 1, i);
      var below := CollectDependencies(g, deps[i], depth - 1, fuel - 1);
      result := result + [deps[i]] + below;
    }
  }

  /** The search at a target, in terms of the searches at its exports and direct dependencies. */
  lemma DfsUnfold(g: Graph, target: string, depth: int, fuel: nat)
    requires Dfs(g, target, depth, fuel).Some?
    ensures fuel > 0 && (target !in g ==> Dfs(g, target, depth, fuel) == Some([]))
    ensures target in g ==>
              var exported, direct :=
                DfsAll(g, g[target].exports, depth - 1, fuel - 1), DfsAll(g, g[target].directDeps, depth - 1, fuel - 1);
              && exported.Some? && (depth > 0 ==> direct.Some?)
              && Dfs(g, target, depth, fuel).value ==
                 if depth < 0 then exported.value
                 else if depth == 0 then exported.value + [target]
                 else exported.value + [target] + direct.value
    ensures fuel > 0 && DfsAll(g, [], depth - 1, fuel - 1) == Some([])
  {
    hide DfsAll;
    NoTargets(g, depth - 1, fuel - 1);
  }

  lemma NoTargets(g: Graph, depth: int, fuel: nat)
    ensures DfsAll(g, [], depth, fuel) == Some([])
  {
  }

  lemma {:induction false} NextOf(g: Graph, targets: seq<string>, depth: int, fuel: nat, i: nat)
    requires DfsAll(g, targets, depth, fuel).Some? && i < |targets|
    ensures DfsAll(g, targets[..i], depth, fuel).Some? && Dfs(g, targets[i], depth, fuel).Some?
    ensures DfsAll(g, targets[..i + 1], depth, fuel)
            == Some(DfsAll(g, targets[..i], depth, fuel).value + [targets[i]] + Dfs(g, targets[i], depth, fuel).value)
    decreases |targets|
  {
    hide Dfs;
    if i < |targets| - 1 {
      var front := targets[..|targets| - 1];
      NextOf(g, front, depth, fuel, i);
      assert front[..i] == targets[..i] && front[..i + 1] == targets[..i + 1];
    } else {
      assert targets[..i + 1] == targets;
    }
  }

  /** The search answers, and lists x along with the target. */
  predicate Lists(g: Graph, target: string, depth: int, fuel: nat, x: string) {
    Dfs(g, target, depth, fuel).Some? && (x == target || x in Dfs(g, target, depth, fuel).value)
  }

  /** A search over several targets fails to answer exactly when it fails for one of them. */
  lemma {:induction false} AllAnswer(g: Graph, targets: seq<string>, depth: int, fuel: nat)
    ensures DfsAll(g, targets, depth, fuel).None? <==> exists t :: t in targets && Dfs(g, t, depth, fuel).None?
    decreases |targets|
  {
    hide Dfs;
    if targets != [] {
      var front, last := targets[..|targets| - 1], targets[|targets| - 1];
      AllAnswer(g, front, depth, fuel);
      assert targets == front + [last];
      if t :| t in front && Dfs(g, t, depth, fuel).None? {
        assert t in targets;
      }
      if Dfs(g, last, depth, fuel).None? {
        assert last in targets;
      }
    }
  }

  /** It answers with the targets and what is found below each. */
  lemma {:induction false} AllList(g: Graph, targets: seq<string>, depth: int, fuel: nat, x: string)
    requires DfsAll(g, targets, depth, fuel).Some?
    ensures x in DfsAll(g, targets, depth, fuel).value <==> exists t :: t in targets && Lists(g, t, depth, fuel, x)
    decreases |targets|
  {
    hide Dfs;
    if targets != [] {
      var front, last := targets[..|targets| - 1], targets[|targets| - 1];
      AllList(g, front, depth, fuel, x);
      assert targets == front + [last];
      if t :| t in front && Lists(g, t, depth, fuel, x) {
        assert t in targets;
      }
      if Lists(g, last, depth, fuel, x) {
        assert last in targets;
      }
    }
  }

  // ----- routes

  /** The step from one target to another may be taken with this much depth left. */
  predicate Edge(g: Graph, a: string, b: string, depth: int) {
    a in g && (b in g[a].exports || (depth > 0 && b in g[a].directDeps))
  }

  /** A route from a target: every step is an export, or a direct dependency among the first
      `depth` steps. */
  predicate Route(g: Graph, target: string, depth: int, p: seq<string>) {
    && |p| > 0 && p[0] == target
    && forall i :: 0 <= i < |p| - 1 ==> Edge(g, p[i], p[i + 1], depth - i)
  }

  lemma RouteTail(g: Graph, target: string, depth: int, p: seq<string>)
    requires Route(g, target, depth, p) && |p| > 1
    ensures Edge(g, target, p[1], depth) && Route(g, p[1], depth - 1, p[1..])
  {
    var q := p[1..];
    forall i | 0 <= i < |q| - 1 ensures Edge(g, q[i], q[i + 1], depth - 1 - i) {
      assert Edge(g, p[i + 1], p[i + 2], depth - (i + 1));
    }
  }

  lemma RouteCons(g: Graph, target: string, depth: int, p: seq<string>)
    requires |p| > 0 && Edge(g, target, p[0], depth) && Route(g, p[0], depth - 1, p)
    ensures Route(g, target, depth, [target] + p)
  {
    var q := [target] + p;
    forall i | 0 <= i < |q| - 1 ensures Edge(g, q[i], q[i + 1], depth - i) {
      if i > 0 {
        assert Edge(g, p[i - 1], p[i], depth - 1 - (i - 1));
      }
    }
  }

  /** A route of at least one step leads to x. */
  ghost predicate Reaches(g: Graph, target: string, depth: int, x: string) {
    exists p :: Route(g, target, depth, p) && |p| > 1 && p[|p| - 1] == x
  }

  /** What a route reaches is a next target or reached from one. */
  lemma ReachesStep(g: Graph, target: string, depth: int, x: string)
    ensures Reaches(g, target, depth, x) <==>
            exists t :: Edge(g, target, t, depth) && (x == t || Reaches(g, t, depth - 1, x))
  {
    hide Edge;
    if Reaches(g, target, depth, x) {
      var p :| Route(g, target, depth, p) && |p| > 1 && p[|p| - 1] == x;
      RouteTail(g, target, depth, p);
      if |p| > 2 {
        var q := p[1..];
        assert Route(g, p[1], depth - 1, q) && |q| > 1 && q[|q| - 1] == x;
      }
    }
    if t :| Edge(g, target, t, depth) && (x == t || Reaches(g, t, depth - 1, x)) {
      var q := [t];
      if x != t {
        q :| Route(g, t, depth - 1, q) && |q| > 1 && q[|q| - 1] == x;
      }
      assert Route(g, t, depth - 1, q);
      RouteCons(g, target, depth, q);
      assert ([target] + q)[|[target] + q| - 1] == x;
    }
  }

  /** The search is over the targets that one step leads to. */
  lemma DfsAnswers(g: Graph, target: string, depth: int, fuel: nat)
    requires fuel > 0
    ensures Dfs(g, target, depth, fuel).None? <==>
            exists t :: Edge(g, target, t, depth) && Dfs(g, t, depth - 1, fuel - 1).None?
  {
    hide DfsAll;
    if target in g {
      AllAnswer(g, g[target].exports, depth - 1, fuel - 1);
      AllAnswer(g, g[target].directDeps, depth - 1, fuel - 1);
      if t :| t in g[target].exports && Dfs(g, t, depth - 1, fuel - 1).None? {
        assert Edge(g, target, t, depth);
      }
      if depth > 0 {
        if t :| t in g[target].directDeps && Dfs(g, t, depth - 1, fuel - 1).None? {
          assert Edge(g, target, t, depth);
        }
      }
    }
  }

  lemma DfsLists(g: Graph, target: string, depth: int, fuel: nat, x: string)
    requires Dfs(g, target, depth, fuel).Some?
    ensures fuel > 0
    ensures x in Dfs(g, target, depth, fuel).value <==>
            || (x == target && target in g && depth >= 0)
            || exists t :: Edge(g, target, t, depth) && Lists(g, t, depth - 1, fuel - 1, x)
  {
    hide DfsAll, Lists;
    if target in g {
      AllList(g, g[target].exports, depth - 1, fuel - 1, x);
      if t :| t in g[target].exports && Lists(g, t, depth - 1, fuel - 1, x) {
        assert Edge(g, target, t, depth);
      }
      if depth > 0 {
        AllList(g, g[target].directDeps, depth - 1, fuel - 1, x);
        if t :| t in g[target].directDeps && Lists(g, t, depth - 1, fuel - 1, x) {
          assert Edge(g, target, t, depth);
        }
      }
    }
  }

  /** The search finds exactly what routes reach, and the target itself if it is in the graph and
      the depth is not negative. */
  lemma {:induction false} DfsFindsReachable(g: Graph, target: string, depth: int, fuel: nat, x: string)
    requires Dfs(g, target, depth, fuel).Some?
    ensures x in Dfs(g, target, depth, fuel).value <==>
            (x == target && target in g && depth >= 0) || Reaches(g, target, depth, x)
    decreases fuel
  {
    DfsAnswers(g, target, depth, fuel);
    DfsLists(g, target, depth, fuel, x);
    ReachesStep(g, target, depth, x);
    forall t | Edge(g, target, t, depth)
      ensures Lists(g, t, depth - 1, fuel - 1, x) <==> x == t || Reaches(g, t, depth - 1, x)
    {
      DfsFindsReachable(g, t, depth - 1, fuel - 1, x);
    }
    hide Dfs, Edge, Reaches;
  }

  lemma DfsFindsExactly(g: Graph, target: string, depth: int, fuel: nat)
    requires Dfs(g, target, depth, fuel).Some?
    ensures forall x :: x in Dfs(g, target, depth, fuel).value <==>
                        (x == target && target in g && depth >= 0) || Reaches(g, target, depth, x)
  {
    hide Dfs, Reaches;
    forall x
      ensures x in Dfs(g, target, depth, fuel).value <==>
              (x == target && target in g && depth >= 0) || Reaches(g, target, depth, x)
    {
      DfsFindsReachable(g, target, depth, fuel, x);
    }
  }

  /** A deeper search finds no less. */
  lemma DeeperFindsMore(g: Graph, target: string, depth: int, fuel: nat, depth': int, fuel': nat, x: string)
    requires depth <= depth'
    requires Dfs(g, target, depth, fuel).Some? && Dfs(g, target, depth', fuel').Some?
    requires x in Dfs(g, target, depth, fuel).value
    ensures x in Dfs(g, target, depth', fuel').value
  {
    hide Dfs;
    DfsFindsReachable(g, target, depth, fuel, x);
    DfsFindsReachable(g, target, depth', fuel', x);
    if Reaches(g, target, depth, x) {
      var p :| Route(g, target, depth, p) && |p| > 1 && p[|p| - 1] == x;
      assert Route(g, target, depth', p) by {
        forall i | 0 <= i < |p| - 1 ensures Edge(g, p[i], p[i + 1], depth' - i) {
          assert Edge(g, p[i], p[i + 1], depth - i);
        }
      }
    }
  }

  // ----- when the search ends

  /** The search ends when its calls nest only finitely deep. */
  ghost predicate Ends(g: Graph, target: string, depth: int) {
    exists fuel: nat :: Dfs(g, target, depth, fuel).Some?
  }

  /** A route goes round a cycle of exports. */
  predicate GoesRound(g: Graph, p: seq<string>, i: nat, j: nat) {
    && i < j < |p| && p[i] == p[j]
    && forall k :: i <= k < j ==> p[k] in g && p[k + 1] in g[p[k]].exports
  }

  ghost predicate MeetsExportCycle(g: Graph, target: string, depth: int) {
    exists p, i, j :: Route(g, target, depth, p) && GoesRound(g, p, i, j)
  }

  /** Calls nest one deeper than a bound exactly when some route is longer than it. */
  lemma {:induction false} NestingIsRouteLength(g: Graph, target: string, depth: int, fuel: nat)
    ensures Dfs(g, target, depth, fuel).None? <==> exists p :: Route(g, target, depth, p) && |p| == fuel + 1
    decreases fuel
  {
    if fuel == 0 {
      assert Route(g, target, depth, [target]);
    } else {
      DfsAnswers(g, target, depth, fuel);
      if t :| Edge(g, target, t, depth) && Dfs(g, t, depth - 1, fuel - 1).None? {
        NestingIsRouteLength(g, t, depth - 1, fuel - 1);
        var p :| Route(g, t, depth - 1, p) && |p| == fuel;
        RouteCons(g, target, depth, p);
      }
      if p :| Route(g, target, depth, p) && |p| == fuel + 1 {
        RouteTail(g, target, depth, p);
        NestingIsRouteLength(g, p[1], depth - 1, fuel - 1);
        assert Edge(g, target, p[1], depth) && Dfs(g, p[1], depth - 1, fuel - 1).None?;
      }
    }
  }

  function Positive(depth: int): nat {
    if depth < 0 then 0 else depth
  }

  /** Past the depth, every step of a route is an export. */
  lemma ExportsBeyondDepth(g: Graph, target: string, depth: int, p: seq<string>, i: nat)
    requires Route(g, target, depth, p) && Positive(depth) <= i < |p| - 1
    ensures p[i] in g && p[i + 1] in g[p[i]].exports
  {
    assert Edge(g, p[i], p[i + 1], depth - i);
  }

  /** A route with more steps than the depth and the graph's targets together goes round. */
  lemma LongRouteGoesRound(g: Graph, target: string, depth: int, p: seq<string>)
    requires Route(g, target, depth, p) && |p| > Positive(depth) + |g| + 1
    ensures MeetsExportCycle(g, target, depth)
  {
    hide Route, Positive;
    var d := Positive(depth);
    var s := p[d..|p| - 1];
    forall i | 0 <= i < |s| ensures s[i] in g.Keys {
      ExportsBeyondDepth(g, target, depth, p, d + i);
    }
    assert |g.Keys| == |g|;
    Pigeonhole(s, g.Keys);
    var i, j :| 0 <= i < j < |s| && s[i] == s[j];
    forall k | d + i <= k < d + j ensures p[k] in g && p[k + 1] in g[p[k]].exports {
      ExportsBeyondDepth(g, target, depth, p, k);
    }
    assert GoesRound(g, p, d + i, d + j);
  }

  /** A route that goes round can go round again. */
  lemma RoundAgain(g: Graph, target: string, depth: int, p: seq<string>, i: nat, j: nat)
    requires Route(g, target, depth, p) && GoesRound(g, p, i, j) && j == |p| - 1
    ensures var q := p + p[i + 1..]; Route(g, target, depth, q) && GoesRound(g, q, j, |q| - 1)
  {
    var q := p + p[i + 1..];
    assert forall k :: j <= k < |q| ==> q[k] == p[k - j + i];
    forall k | 0 <= k < |q| - 1 ensures Edge(g, q[k], q[k + 1], depth - k) {
      if k < j {
        assert Edge(g, p[k], p[k + 1], depth - k);
      }
    }
  }

  lemma {:induction false} RoutesOfAnyLength(g: Graph, target: string, depth: int, p: seq<string>, i: nat, j: nat, n: nat)
    requires Route(g, target, depth, p) && GoesRound(g, p, i, j) && j == |p| - 1
    ensures exists q :: Route(g, target, depth, q) && |q| == n + 1
    decreases n - |p|
  {
    if n < |p| {
      var q := p[..n + 1];
      assert Route(g, target, depth, q) by {
        forall k | 0 <= k < |q| - 1 ensures Edge(g, q[k], q[k + 1], depth - k) {
          assert Edge(g, p[k], p[k + 1], depth - k);
        }
      }
    } else {
      RoundAgain(g, target, depth, p, i, j);
      var q := p + p[i + 1..];
      RoutesOfAnyLength(g, target, depth, q, j, |q| - 1, n);
    }
  }

  /** The search ends exactly when no route goes round a cycle of exports, and then its calls nest
      no deeper than the depth and the number of targets together. */
  lemma EndsIffNoExportCycle(g: Graph, target: string, depth: int)
    ensures Ends(g, target, depth) <==> !MeetsExportCycle(g, target, depth)
    ensures Ends(g, target, depth) ==> Dfs(g, target, depth, Positive(depth) + |g| + 1).Some?
  {
    hide Dfs, Route, Edge, GoesRound;
    var bound := Positive(depth) + |g| + 1;
    NestingIsRouteLength(g, target, depth, bound);
    if Dfs(g, target, depth, bound).None? {
      var p :| Route(g, target, depth, p) && |p| == bound + 1;
      LongRouteGoesRound(g, target, depth, p);
    }
    if MeetsExportCycle(g, target, depth) {
      CycleNeverEnds(g, target, depth);
    }
  }

  lemma CycleNeverEnds(g: Graph, target: string, depth: int)
    requires MeetsExportCycle(g, target, depth)
    ensures !Ends(g, target, depth)
  {
    hide Dfs, Edge;
    var p, i, j :| Route(g, target, depth, p) && GoesRound(g, p, i, j);
    var q := p[..j + 1];
    assert Route(g, target, depth, q) by {
      forall k | 0 <= k < |q| - 1 ensures Edge(g, q[k], q[k + 1], depth - k) {
        assert Edge(g, p[k], p[k + 1], depth - k);
      }
    }
    assert GoesRound(g, q, i, j);
    forall fuel: nat ensures Dfs(g, target, depth, fuel).None? {
      RoutesOfAnyLength(g, target, depth, q, i, j, fuel);
      NestingIsRouteLength(g, target, depth, fuel);
    }
  }

  /** A target that exports itself is searched for ever, even at depth zero. */
  lemma SelfExportNeverEnds()
    ensures !Ends(map["a" := Rule(["a"], [])], "a", 0)
  {
    var g := map["a" := Rule(["a"], [])];
    hide Ends;
    assert Edge(g, "a", "a", 0);
    assert Route(g, "a", 0, ["a", "a"]) && GoesRound(g, ["a", "a"], 0, 1);
    EndsIffNoExportCycle(g, "a", 0);
  }

  /** A numbering in which every export is below what exports it rules out all cycles, so the
      search ends from every target and at every depth. */
  lemma RankedEnds(g: Graph, rank: map<string, nat>, target: string, depth: int)
    requires g.Keys <= rank.Keys
    requires forall t, e :: t in g && e in g[t].exports && e in g ==> rank[e] < rank[t]
    ensures Ends(g, target, depth)
  {
    EndsIffNoExportCycle(g, target, depth);
    if p, i, j :| Route(g, target, depth, p) && GoesRound(g, p, i, j) {
      RankFalls(g, rank, p, i, j);
    }
  }

  lemma {:induction false} RankFalls(g: Graph, rank: map<string, nat>, p: seq<string>, i: nat, j: nat)
    requires g.Keys <= rank.Keys
    requires forall t, e :: t in g && e in g[t].exports && e in g ==> rank[e] < rank[t]
    requires i < j < |p| && p[j] in g
    requires forall k :: i <= k < j ==> p[k] in g && p[k + 1] in g[p[k]].exports
    ensures rank[p[j]] < rank[p[i]]
    decreases j - i
  {
    if i + 1 < j {
      RankFalls(g, rank, p, i + 1, j);
    }
  }
}
