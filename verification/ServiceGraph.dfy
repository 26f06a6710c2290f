/**
 The dependency graph of a service container, and the depth-first search that
 `validate` runs over it.
 */
module ServiceGraph {
  import opened Prelude

  /** Each registered name, with the dependencies it declares. */
  type Graph = map<string, seq<string>>

  predicate Edge(g: Graph, a: string, b: string) {
    a in g && b in g[a]
  }

  /** Every declared dependency is itself registered. */
  ghost predicate Closed(g: Graph) {
    forall a, b :: Edge(g, a, b) ==> b in g
  }

  ghost predicate Walk(g: Graph, p: seq<string>) {
    && p != []
    && forall i :: 0 <= i < |p| - 1 ==> Edge(g, p[i], p[i + 1])
  }

  function Last(p: seq<string>): string
    requires p != []
  {
    p[|p| - 1]
  }

  /** No walk along at least one edge returns to where it started. */
  ghost predicate Acyclic(g: Graph) {
    forall p :: Walk(g, p) && |p| >= 2 ==> p[0] != Last(p)
  }

  /** What a circularity report has to be: a walk whose last name already occurs earlier in it. */
  ghost predicate CycleReport(g: Graph, p: seq<string>) {
    Walk(g, p) && Last(p) in p[..|p| - 1]
  }

  /** A part of the graph that no edge leaves and on which no cycle starts. */
  ghost predicate Settled(g: Graph, part: set<string>) {
    && (forall a, b :: a in part && Edge(g, a, b) ==> b in part)
    && (forall p :: Walk(g, p) && |p| >= 2 && p[0] in part ==> p[0] != Last(p))
  }

  lemma WalkOne(g: Graph, name: string)
    ensures Walk(g, [] + [name])
  {
  }

  lemma WalkExtend(g: Graph, p: seq<string>, b: string)
    requires Walk(g, p) && Edge(g, Last(p), b)
    ensures Walk(g, p + [b])
  {
    var q := p + [b];
    forall i | 0 <= i < |q| - 1 ensures Edge(g, q[i], q[i + 1]) {
      if i < |p| - 1 {
        assert Edge(g, p[i], p[i + 1]);
      }
    }
  }

  lemma {:induction false} WalkStays(g: Graph, part: set<string>, p: seq<string>)
    requires Walk(g, p) && p[0] in part
    requires forall a, b :: a in part && Edge(g, a, b) ==> b in part
    ensures Last(p) in part
  {
    if |p| > 1 {
      var q := p[..|p| - 1];
      assert Walk(g, q);
      WalkStays(g, part, q);
      assert Edge(g, p[|p| - 2], p[|p| - 1]);
    }
  }

  /** Once everything a name depends on is settled, so is the name. */
  lemma SettleOne(g: Graph, part: set<string>, name: string)
    requires Settled(g, part)
    requires forall b :: Edge(g, name, b) ==> b in part
    ensures Settled(g, part + {name})
  {
    forall p | Walk(g, p) && |p| >= 2 && p[0] in part + {name} ensures p[0] != Last(p) {
      if p[0] !in part {
        var q := p[1..];
        assert Edge(g, p[0], p[1]);
        assert forall i :: 0 <= i < |q| - 1 ==> Edge(g, q[i], q[i + 1]) by {
          forall i | 0 <= i < |q| - 1 ensures Edge(g, q[i], q[i + 1]) {
            assert Edge(g, p[i + 1], p[i + 1 + 1]);
          }
        }
        WalkStays(g, part, q);
      }
    }
  }

  lemma AllSettled(g: Graph, part: set<string>)
    requires Settled(g, part) && g.Keys <= part
    ensures Acyclic(g)
  {
    forall p | Walk(g, p) && |p| >= 2 ensures p[0] != Last(p) {
      assert Edge(g, p[0], p[1]);
    }
  }

  /** What a report ends with is a cycle. */
  lemma ReportedCycle(g: Graph, p: seq<string>) returns (q: seq<string>)
    requires CycleReport(g, p)
    ensures Walk(g, q) && |q| >= 2 && q[0] == Last(q) == Last(p)
  {
    var i :| 0 <= i < |p| - 1 && p[i] == Last(p);
    q := p[i..];
    forall j | 0 <= j < |q| - 1 ensures Edge(g, q[j], q[j + 1]) {
      assert Edge(g, p[i + j], p[i + j + 1]);
    }
  }

  /** A report is evidence of a cycle. */
  lemma ReportRefutes(g: Graph, p: seq<string>)
    requires CycleReport(g, p)
    ensures !Acyclic(g)
  {
    var q := ReportedCycle(g, p);
  }

  /** Numbering the names so that every edge goes to a smaller number rules cycles out. */
  lemma {:induction false} RankDecreases(g: Graph, rank: map<string, int>, p: seq<string>)
    requires forall a, b :: Edge(g, a, b) ==> a in rank && b in rank && rank[b] < rank[a]
    requires Walk(g, p) && |p| >= 2
    ensures p[0] in rank && Last(p) in rank && rank[Last(p)] < rank[p[0]]
  {
    var q := p[..|p| - 1];
    assert Edge(g, p[|p| - 2], p[|p| - 1]);
    if |q| >= 2 {
      assert Walk(g, q) by {
        forall i | 0 <= i < |q| - 1 ensures Edge(g, q[i], q[i + 1]) {
          assert Edge(g, p[i], p[i + 1]);
        }
      }
      RankDecreases(g, rank, q);
    }
  }

  datatype Visited = Clear | Circular(path: seq<string>)

  /** The two sets that the closure inside `validate` captures. */
  class CycleSearch {
    const g: Graph
    var visited: set<string>
    var visiting: set<string>

    constructor (g: Graph)
      ensures this.g == g && Valid() && visited == {} && visiting == {}
    {
      this.g := g;
      visited, visiting := {}, {};
    }

    ghost predicate Valid()
      reads this
    {
      Settled(g, visited) && visited !! visiting
    }

    /**
     Either everything reachable from `name` joins the settled part and the
     path is as it was, or the report extends the path walked so far.
     */
    method Visit(name: string, path: seq<string>) returns (r: Visited)
      requires Valid() && visiting == Elems(path) && Walk(g, path + [name])
      modifies this
      ensures r.Clear? ==> Valid() && visiting == old(visiting)
      ensures r.Clear? ==> visited >= old(visited) + {name}
      ensures r.Circular? ==> CycleReport(g, r.path) && path + [name] <= r.path
      decreases g.Keys - visiting
    {
      hide Settled, Walk;
      if name in visited {
        return Clear;
      }
      if name in visiting {
        assert (path + [name])[..|path|] == path;
        return Circular(path + [name]);
      }
      visiting := visiting + {name};
      if name in g {
        var deps := g[name];
        ElemsAppend(path, name);
        for i := 0 to |deps|
          invariant Valid() && visiting == old(visiting) + {name}
          invariant visited >= old(visited)
          invariant forall j :: 0 <= j < i ==> deps[j] in visited
        {
          assert Edge(g, name, deps[i]);
          WalkExtend(g, path + [name], deps[i]);
          r := Visit(deps[i], path + [name]);
          if r.Circular? {
            return;
          }
        }
      }
      SettleOne(g, visited, name);
      visiting := visiting - {name};
      visited := visited + {name};
      r := Clear;
    }
  }

  datatype Validation =
    | Validated
    | Missing(name: string, dep: string)
    | Cyclic(path: seq<string>)

  /** The names before `name` declare nothing unregistered, and neither do the dependencies before `dep`. */
  ghost predicate FirstMissing(g: Graph, order: seq<string>, name: string, dep: string) {
    exists i, j ::
      && 0 <= i < |order| && order[i] == name && name in g
      && 0 <= j < |g[name]| && g[name][j] == dep && dep !in g
      && (forall k, b :: 0 <= k < i && Edge(g, order[k], b) ==> b in g)
      && (forall k :: 0 <= k < j ==> g[name][k] in g)
  }

  /** The first half of `validate`: every declared dependency is looked up, in order. */
  method FindMissing(g: Graph, order: seq<string>) returns (r: Option<(string, string)>)
    requires g.Keys == Elems(order)
    ensures r.None? <==> Closed(g)
    ensures r.Some? ==> FirstMissing(g, order, r.value.0, r.value.1)
  {
    for i := 0 to |order|
      invariant forall k, b :: 0 <= k < i && Edge(g, order[k], b) ==> b in g
    {
      var name := order[i];
      assert name in Elems(order);
      for j := 0 to |g[name]|
        invariant forall k :: 0 <= k < j ==> g[name][k] in g
      {
        if g[name][j] !in g {
          assert Edge(g, name, g[name][j]);
          return Some((name, g[name][j]));
        }
      }
    }
    forall a, b | Edge(g, a, b) ensures b in g {
      assert a in Elems(order);
    }
    r := None;
  }

  /** The second half of `validate`: the search is started from every name. */
  method FindCycle(g: Graph, order: seq<string>) returns (r: Visited)
    requires g.Keys == Elems(order)
    ensures r.Clear? <==> Acyclic(g)
    ensures r.Circular? ==> CycleReport(g, r.path)
  {
    hide Walk, Settled, Acyclic, CycleReport;
    var search := new CycleSearch(g);
    for i := 0 to |order|
      invariant search.g == g && search.Valid() && search.visiting == {}
      invariant Elems(order[..i]) <= search.visited
    {
      ElemsAppend(order[..i], order[i]);
      assert order[..i + 1] == order[..i] + [order[i]];
      WalkOne(g, order[i]);
      r := search.Visit(order[i], []);
      if r.Circular? {
        ReportRefutes(g, r.path);
        return;
      }
    }
    assert order[..|order|] == order;
    AllSettled(g, search.visited);
    r := Clear;
  }

  /** `validate`: it passes exactly the graphs that are closed and acyclic. */
  method Validate(g: Graph, order: seq<string>) returns (r: Validation)
    requires g.Keys == Elems(order)
    ensures r.Validated? <==> Closed(g) && Acyclic(g)
    ensures r.Missing? <==> !Closed(g)
    ensures r.Missing? ==> FirstMissing(g, order, r.name, r.dep)
    ensures r.Cyclic? ==> CycleReport(g, r.path)
  {
    var missing := FindMissing(g, order);
    if missing.Some? {
      return Missing(missing.value.0, missing.value.1);
    }
    var cycle := FindCycle(g, order);
    r := if cycle.Circular? then Cyclic(cycle.path) else Validated;
  }
}
