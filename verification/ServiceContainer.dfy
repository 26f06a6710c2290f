/** The container itself: mutable fields, each method proved against ServiceResolution. */
module ServiceContainers {
  import opened Prelude
  import opened ServiceGraph
  import S = ServiceResolution

  class ServiceContainer {
    var services: map<string, S.Registration>
    var names: seq<string>      // the key order of the `services` Map
    var resolving: seq<string>
    var builds: nat
    ghost var log: seq<S.Happening>

    ghost function View(): S.State
      reads this
    {
      S.State(services, resolving, builds, log)
    }

    ghost predicate Valid()
      reads this
    {
      Elems(names) == services.Keys
    }

    constructor ()
      ensures Valid() && View() == S.EMPTY
    {
      services, names, resolving, builds, log := map[], [], [], 0, [];
    }

    /** `Map.set` keeps the position of a key that is already there. */
    method SetService(name: string, reg: S.Registration)
      requires Valid()
      modifies this
      ensures Valid() && View() == S.Register(old(View()), name, reg)
      ensures names == old(names) + (if name in old(names) then [] else [name])
    {
      ElemsAppend(names, name);
      assert name in services.Keys <==> name in Elems(names);
      if name !in services {
        names := names + [name];
      }
      services := services[name := reg];
      log := log + [S.Resets(name, reg.instance)];
    }

    method RegisterSingleton(name: string, factory: S.Factory, dependencies: seq<string>)
      requires Valid()
      modifies this
      ensures Valid() && View() == S.Apply(old(View()), S.RegisterSingleton(name, factory, dependencies))
    {
      SetService(name, S.Registration(true, dependencies, factory, None));
    }

    method RegisterTransient(name: string, factory: S.Factory, dependencies: seq<string>)
      requires Valid()
      modifies this
      ensures Valid() && View() == S.Apply(old(View()), S.RegisterTransient(name, factory, dependencies))
    {
      SetService(name, S.Registration(false, dependencies, factory, None));
    }

    method RegisterInstance(name: string, value: Option<S.Instance>)
      requires Valid()
      modifies this
      ensures Valid() && View() == S.Apply(old(View()), S.RegisterInstance(name, value))
    {
      SetService(name, S.Registration(true, [], S.Always(value), value));
    }

    method DisposeInstance(name: string)
      requires Valid()
      modifies this
      ensures Valid() && View() == S.Apply(old(View()), S.DisposeInstance(name))
    {
      if name in services {
        var reg := services[name].(instance := None);
        services := services[name := reg];
        log := log + [S.Resets(name, None)];
      }
    }

    method Clear()
      requires Valid()
      modifies this
      ensures Valid() && View() == S.Apply(old(View()), S.Clear)
    {
      services, names, resolving := map[], [], [];
    }

    /**
     `resolve`, with its `try`/`finally`. On a container that `validate`
     accepts it can only fail because a factory threw.
     */
    method Resolve(name: string) returns (r: S.Result)
      requires Valid()
      modifies this
      ensures Valid() && names == old(names)
      ensures (View(), r) == S.Resolve(old(View()), name)
      ensures S.Explained(old(View()), name, View(), r)
      ensures S.Accepted(old(View()), name) && r.Err? ==> r.error.FactoryThrew?
      decreases services.Keys - Elems(resolving), 0
    {
      ghost var s := View();
      S.ResolveExplained(s, name);
      if S.Accepted(s, name) {
        S.ValidatedResolves(s, name);
      }
      hide S.Explained;
      if name !in services {
        return S.Err(S.NotRegistered(name));
      }
      var reg := services[name];
      if reg.singleton && reg.instance.Some? {
        return S.Ok(reg.instance);
      }
      if name in resolving {
        return S.Err(S.CircularDependency(resolving + [name]));
      }
      ElemsAppend(resolving, name);
      S.RemoveLast(resolving, name);
      resolving := resolving + [name];
      S.UsesKeep(View(), reg.factory, name);
      var gathered := RunUses(reg.factory);
      match gathered {
        case Failed(error) => r := S.Err(error);
        case Got(values) => r := Build(name, values);
      }
      resolving := S.Remove(resolving, name);
    }

    /** What a factory does first: its uses, one after the other. */
    method RunUses(f: S.Factory) returns (gathered: S.Gathered)
      requires Valid()
      modifies this
      ensures Valid() && names == old(names)
      ensures (View(), gathered) == S.RunUses(old(View()), f, [])
      decreases services.Keys - Elems(resolving), 1
    {
      ghost var s := View();
      var got := [];
      var next := f.Next(got);
      while next.Some?
        invariant Valid() && names == old(names) && services.Keys == old(services.Keys) && resolving == old(resolving)
        invariant next == f.Next(got) && S.RunUses(View(), f, got) == S.RunUses(s, f, [])
        decreases f.limit - |got|
      {
        var r := Resolve(next.value.dep);
        if r.Err? && next.value.Need? {
          return S.Failed(r.error);
        }
        got := got + [r.Seen()];
        next := f.Next(got);
      }
      gathered := S.Got(got);
    }

    /** What a factory does last, and the caching of its result. */
    method Build(name: string, got: seq<Option<S.Instance>>) returns (r: S.Result)
      requires Valid() && name in services
      modifies this
      ensures Valid() && names == old(names) && resolving == old(resolving)
      ensures (View().(resolving := S.Remove(resolving, name)), r) == S.Build(old(View()), name, got)
    {
      var reg := services[name];
      var outcome := reg.factory.build(got, builds);
      builds := builds + 1;
      match outcome
      case Throws =>
        r := S.Err(S.FactoryThrew(name));
      case Returns(v) =>
        if reg.singleton {
          services := services[name := reg.(instance := v)];
        }
        log := log + [S.Settles(name, v)];
        r := S.Ok(v);
    }

    /** `tryResolve`: any failure reads as undefined. */
    method TryResolve(name: string) returns (v: Option<S.Instance>)
      requires Valid()
      modifies this
      ensures Valid()
      ensures var (t, r) := S.Resolve(old(View()), name); View() == t && v == if r.Ok? then r.value else None
    {
      var r := Resolve(name);
      v := r.Seen();
    }

    method Validate() returns (r: Validation)
      requires Valid()
      ensures r.Validated? <==> Closed(S.GraphOf(View())) && Acyclic(S.GraphOf(View()))
      ensures r.Missing? ==> FirstMissing(S.GraphOf(View()), names, r.name, r.dep)
      ensures r.Cyclic? ==> CycleReport(S.GraphOf(View()), r.path)
    {
      r := ServiceGraph.Validate(map n | n in services :: services[n].dependencies, names);
    }
  }

  // -- The container of the server -----------------------------------

  /** The services `createContainer` registers, with what each declares. */
  const BROWSERLESS: Graph := map[
    "config" := [],
    "token" := ["config"],
    "hooks" := [],
    "webhooks" := ["config"],
    "monitoring" := ["config"],
    "fileSystem" := ["config"],
    "sessionRegistry" := [],
    "videoManager" := [],
    "sessionCoordinator" := ["videoManager"],
    "browserManager" := ["config", "hooks", "fileSystem", "videoManager"],
    "limiter" := ["config", "monitoring", "webhooks", "hooks"],
    "router" := ["config", "browserManager", "limiter"]
  ]

  type Builder = (seq<Option<S.Instance>>, nat) -> S.Outcome

  /** A factory that needs the given services, in order, and then builds from them. */
  function InOrder(deps: seq<string>, build: Builder): S.Factory {
    S.Factory(|deps|, got => if |got| < |deps| then Some(S.Need(deps[|got|])) else None, build)
  }

  /** The factory needs the given services, in order, and builds from what it got. */
  ghost predicate BuildsFrom(f: S.Factory, deps: seq<string>, build: Builder) {
    && (forall got :: f.Next(got) == if |got| < |deps| then Some(S.Need(deps[|got|])) else None)
    && f.build == build
  }

  /** Every service is a singleton nobody has built, and its factory needs what it declares, unless it is overridden. */
  ghost predicate BuiltAsDeclared(s: S.State, overridden: set<string>, build: string -> Builder) {
    forall n :: n in s.services ==>
      && s.services[n].singleton && s.services[n].instance.None?
      && BuildsFrom(s.services[n].factory, if n in overridden then [] else s.services[n].dependencies, build(n))
  }

  lemma InOrderBuilds(deps: seq<string>, build: Builder)
    ensures BuildsFrom(InOrder(deps, build), deps, build)
    ensures forall got :: var next := InOrder(deps, build).Next(got); next.Some? ==> next.value.dep in deps
  {
  }

  lemma AddKeeps(s: S.State, name: string, deps: seq<string>, overridden: set<string>, build: string -> Builder)
    requires S.Declared(s) && BuiltAsDeclared(s, overridden, build)
    ensures var factory := InOrder(if name in overridden then [] else deps, build(name));
            var t := S.Apply(s, S.RegisterSingleton(name, factory, deps));
            && S.Declared(t) && BuiltAsDeclared(t, overridden, build) && S.GraphOf(t) == S.GraphOf(s)[name := deps]
            && t.resolving == s.resolving
  {
    InOrderBuilds(if name in overridden then [] else deps, build(name));
    hide InOrder, BuildsFrom;
  }

  /**
   One `registerSingleton` of `createContainer`, and what it adds to the graph.
   A factory that is given a ready-made service resolves nothing.
   */
  method Add(c: ServiceContainer, name: string, deps: seq<string>, overridden: set<string>, build: string -> Builder)
    requires c.Valid() && S.Declared(c.View()) && c.resolving == [] && BuiltAsDeclared(c.View(), overridden, build)
    modifies c
    ensures c.Valid() && S.Declared(c.View()) && c.resolving == [] && BuiltAsDeclared(c.View(), overridden, build)
    ensures S.GraphOf(c.View()) == old(S.GraphOf(c.View()))[name := deps]
  {
    var factory := InOrder(if name in overridden then [] else deps, build(name));
    AddKeeps(c.View(), name, deps, overridden, build);
    hide BuiltAsDeclared, S.Declared, S.GraphOf, InOrder;
    c.RegisterSingleton(name, factory, deps);
  }

  /** `createContainer`: every service it registers is accepted, whichever services were passed in. */
  method CreateContainer(overridden: set<string>, build: string -> Builder) returns (c: ServiceContainer)
    ensures fresh(c) && c.Valid()
    ensures S.GraphOf(c.View()) == BROWSERLESS
    ensures forall n :: n in BROWSERLESS ==> S.Accepted(c.View(), n)
    ensures BuiltAsDeclared(c.View(), overridden, build)
  {
    hide BuildsFrom, BuiltAsDeclared;
    c := new ServiceContainer();
    NothingBuilt(c.View(), overridden, build);
    assert S.GraphOf(c.View()) == map[];
    Add(c, "config", [], overridden, build);
    Add(c, "token", ["config"], overridden, build);
    Add(c, "hooks", [], overridden, build);
    Add(c, "webhooks", ["config"], overridden, build);
    Add(c, "monitoring", ["config"], overridden, build);
    Add(c, "fileSystem", ["config"], overridden, build);
    Add(c, "sessionRegistry", [], overridden, build);
    Add(c, "videoManager", [], overridden, build);
    Add(c, "sessionCoordinator", ["videoManager"], overridden, build);
    Add(c, "browserManager", ["config", "hooks", "fileSystem", "videoManager"], overridden, build);
    Add(c, "limiter", ["config", "monitoring", "webhooks", "hooks"], overridden, build);
    Add(c, "router", ["config", "browserManager", "limiter"], overridden, build);
    BrowserlessValidates();
    forall n | n in BROWSERLESS ensures S.Accepted(c.View(), n) {
      assert n in S.GraphOf(c.View());
    }
  }

  lemma NothingBuilt(s: S.State, overridden: set<string>, build: string -> Builder)
    requires s.services == map[]
    ensures BuiltAsDeclared(s, overridden, build)
  {
  }

  lemma BrowserlessValidates()
    ensures Closed(BROWSERLESS) && Acyclic(BROWSERLESS)
  {
    var rank: map<string, int> := map[
      "config" := 0, "hooks" := 0, "sessionRegistry" := 0, "videoManager" := 0,
      "token" := 1, "webhooks" := 1, "monitoring" := 1, "fileSystem" := 1, "sessionCoordinator" := 1,
      "browserManager" := 2, "limiter" := 2, "router" := 3
    ];
    assert forall a, b :: Edge(BROWSERLESS, a, b) ==> a in rank && b in rank && rank[b] < rank[a];
    forall p | Walk(BROWSERLESS, p) && |p| >= 2 ensures p[0] != Last(p) {
      RankDecreases(BROWSERLESS, rank, p);
    }
  }
}
