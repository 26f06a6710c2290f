/**
 What `resolve` and the registration calls mean: functions on the state of a
 container, and the laws that hold over every sequence of calls.
 */
module ServiceResolution {
  import opened Prelude
  import opened ServiceGraph

  /** The identity of a service object. */
  type Instance = nat

  /** How one factory call ends; `undefined` is a normal return. */
  datatype Outcome = Returns(value: Option<Instance>) | Throws

  /** A factory asks the container for a service through `resolve` or through `tryResolve`. */
  datatype Use = Need(dep: string) | Try(dep: string)

  /**
   A factory asks for one service after the other, `limit` of them at most, and
   then builds. Which it asks for next depends on what it has got so far, and so
   does what it builds; that may also differ from call to call, so it depends on
   the number of builds before it.
   */
  datatype Factory = Factory(
    limit: nat,
    choose: seq<Option<Instance>> -> Option<Use>,
    build: (seq<Option<Instance>>, nat) -> Outcome)
  {
    function Next(got: seq<Option<Instance>>): Option<Use> {
      if |got| < limit then choose(got) else None
    }

    ghost predicate Reaches(got: seq<Option<Instance>>) {
      forall i :: 0 <= i < |got| ==> Next(got[..i]).Some?
    }
  }

  datatype Registration = Registration(
    singleton: bool,
    dependencies: seq<string>,
    factory: Factory,
    instance: Option<Instance>)

  /** `Settles` is a factory return, `Resets` a registration or a disposal. */
  datatype Happening =
    | Settles(name: string, value: Option<Instance>)
    | Resets(name: string, preset: Option<Instance>)

  datatype Error =
    | NotRegistered(name: string)
    | CircularDependency(chain: seq<string>)
    | FactoryThrew(name: string)

  datatype Result = Ok(value: Option<Instance>) | Err(error: Error) {
    /** What the factory sees: `tryResolve` reads every failure as undefined. */
    function Seen(): Option<Instance> {
      if Ok? then value else None
    }
  }

  /** How the uses of a factory end: with all it asked for, or at the first `resolve` that throws. */
  datatype Gathered = Got(values: seq<Option<Instance>>) | Failed(error: Error)

  /** `resolving` is the `Set` of names under construction in insertion order. */
  datatype State = State(
    services: map<string, Registration>,
    resolving: seq<string>,
    builds: nat,
    log: seq<Happening>)

  function Remove(s: seq<string>, name: string): seq<string> {
    if s == [] then []
    else if s[|s| - 1] == name then Remove(s[..|s| - 1], name)
    else Remove(s[..|s| - 1], name) + [s[|s| - 1]]
  }

  lemma {:induction false} RemoveAbsent(s: seq<string>, name: string)
    requires name !in s
    ensures Remove(s, name) == s
  {
    if s != [] {
      RemoveAbsent(s[..|s| - 1], name);
    }
  }

  lemma RemoveLast(s: seq<string>, name: string)
    requires name !in s
    ensures Remove(s + [name], name) == s
  {
    assert (s + [name])[..|s|] == s;
    RemoveAbsent(s, name);
  }

  /**
   `resolve`. However it ends, and on any graph, it terminates and leaves
   `resolving` and the set of registered names as they were.
   */
  function Resolve(s: State, name: string): (res: (State, Result))
    ensures res.0.resolving == s.resolving
    ensures res.0.services.Keys == s.services.Keys
    decreases s.services.Keys - Elems(s.resolving), 0
  {
    if name !in s.services then
      (s, Err(NotRegistered(name)))
    else
      var reg := s.services[name];
      if reg.singleton && reg.instance.Some? then
        (s, Ok(reg.instance))
      else if name in s.resolving then
        (s, Err(CircularDependency(s.resolving + [name])))
      else
        ElemsAppend(s.resolving, name);
        RemoveLast(s.resolving, name);
        var (s1, gathered) := RunUses(s.(resolving := s.resolving + [name]), reg.factory, []);
        match gathered
        case Failed(error) => (s1.(resolving := Remove(s1.resolving, name)), Err(error))
        case Got(values) => Build(s1, name, values)
  }

  /** The factory's own work once its uses are done, and the `finally` block. */
  function Build(s: State, name: string, got: seq<Option<Instance>>): (State, Result)
    requires name in s.services
  {
    var s1 := s.(resolving := Remove(s.resolving, name), builds := s.builds + 1);
    var reg := s.services[name];
    match reg.factory.build(got, s.builds)
    case Throws => (s1, Err(FactoryThrew(name)))
    case Returns(v) =>
      var services := if reg.singleton then s.services[name := reg.(instance := v)] else s.services;
      (s1.(services := services, log := s.log + [Settles(name, v)]), Ok(v))
  }

  /** The uses of one factory from where it has got so far. */
  function RunUses(s: State, f: Factory, got: seq<Option<Instance>>): (res: (State, Gathered))
    ensures res.0.resolving == s.resolving
    ensures res.0.services.Keys == s.services.Keys
    decreases s.services.Keys - Elems(s.resolving), 1 + f.limit - |got|
  {
    match f.Next(got)
    case None => (s, Got(got))
    case Some(use) =>
      var (s1, r) := Resolve(s, use.dep);
      if r.Err? && use.Need? then (s1, Failed(r.error))
      else RunUses(s1, f, got + [r.Seen()])
  }

  // -- What resolution leaves alone ----------------------------------

  /** The values of `name` since it was last registered or disposed of: a preset one, then each defined build. */
  ghost function Values(log: seq<Happening>, name: string): seq<Instance> {
    if log == [] then []
    else
      var rest := Values(log[..|log| - 1], name);
      match log[|log| - 1]
      case Settles(n, v) => if n == name && v.Some? then rest + [v.value] else rest
      case Resets(n, preset) =>
        if n != name then rest else if preset.Some? then [preset.value] else []
  }

  lemma ValuesSnoc(log: seq<Happening>, h: Happening, name: string)
    ensures h.name != name ==> Values(log + [h], name) == Values(log, name)
    ensures h.Settles? && h.name == name ==>
              Values(log + [h], name) == Values(log, name) + (if h.value.Some? then [h.value.value] else [])
    ensures h.Resets? && h.name == name ==>
              Values(log + [h], name) == (if h.preset.Some? then [h.preset.value] else [])
  {
    assert (log + [h])[..|log|] == log;
  }

  /** The registration but for its cached instance. */
  ghost predicate SameButInstance(a: Registration, b: Registration) {
    && a.singleton == b.singleton && a.dependencies == b.dependencies
    && a.factory == b.factory
  }

  /** What a resolution may do: fill in missing singleton instances of names that are not under construction. */
  ghost predicate Advances(s: State, t: State) {
    && s.services.Keys == t.services.Keys
    && (forall n :: n in s.services ==> SameButInstance(s.services[n], t.services[n]))
    && (forall n :: n in s.services && s.services[n].instance.Some? && s.services[n].singleton ==>
          t.services[n].instance == s.services[n].instance)
    && (forall n :: n in s.services && n in s.resolving ==>
          t.services[n] == s.services[n] && Values(t.log, n) == Values(s.log, n))
  }

  /** Each singleton's cached instance is its one and only value. */
  ghost predicate Coherent(s: State) {
    forall n :: n in s.services && s.services[n].singleton ==>
      Values(s.log, n) == (match s.services[n].instance case None => [] case Some(v) => [v])
  }

  lemma {:induction false} ResolveAdvances(s: State, name: string)
    ensures Advances(s, Resolve(s, name).0)
    ensures Coherent(s) ==> Coherent(Resolve(s, name).0)
    decreases s.services.Keys - Elems(s.resolving), 0
  {
    hide Coherent, Values, Advances, Build;
    if name in s.services && !(s.services[name].singleton && s.services[name].instance.Some?) && name !in s.resolving {
      ElemsAppend(s.resolving, name);
      var s0 := s.(resolving := s.resolving + [name]);
      UsesAdvance(s0, s.services[name].factory, []);
      SameStoreSameCoherence(s, s0);
      var (s1, gathered) := RunUses(s0, s.services[name].factory, []);
      match gathered {
        case Got(values) =>
          BuildCompletes(s, s0, s1, name, values);
        case Failed(_) =>
          var t := Resolve(s, name).0;
          SameStoreSameCoherence(s1, t);
          AbortAdvances(s, s0, s1, t, name);
      }
    } else {
      AdvancesReflexive(s);
    }
  }

  lemma AdvancesReflexive(s: State)
    ensures Advances(s, s)
  {
  }

  lemma AbortAdvances(s: State, s0: State, s1: State, t: State, name: string)
    requires s0 == s.(resolving := s.resolving + [name])
    requires Advances(s0, s1) && t.services == s1.services && t.log == s1.log
    ensures Advances(s, t)
  {
  }

  lemma BuildCompletes(s: State, s0: State, s1: State, name: string, got: seq<Option<Instance>>)
    requires name in s.services && name !in s.resolving
    requires s.services[name].singleton ==> s.services[name].instance.None?
    requires s0 == s.(resolving := s.resolving + [name]) && Advances(s0, s1)
    ensures name in s1.services && Advances(s, Build(s1, name, got).0)
    ensures Coherent(s1) ==> Coherent(Build(s1, name, got).0)
  {
    hide Coherent, Values, Build;
    assert name in s0.resolving;
    BuildAdvances(s1, name, got);
  }

  lemma SameStoreSameCoherence(s: State, t: State)
    requires s.services == t.services && s.log == t.log
    ensures Coherent(s) ==> Coherent(t)
  {
  }

  lemma SettlingTouchesOne(log: seq<Happening>, name: string, v: Option<Instance>)
    ensures forall n :: n != name ==> Values(log + [Settles(name, v)], n) == Values(log, n)
    ensures Values(log + [Settles(name, v)], name) == Values(log, name) + (if v.Some? then [v.value] else [])
  {
    hide Values;
    forall n ensures n != name ==> Values(log + [Settles(name, v)], n) == Values(log, n) {
      ValuesSnoc(log, Settles(name, v), n);
    }
    ValuesSnoc(log, Settles(name, v), name);
  }

  lemma BuildAdvances(s: State, name: string, got: seq<Option<Instance>>)
    requires name in s.services
    requires s.services[name].singleton ==> s.services[name].instance.None?
    ensures var t := Build(s, name, got).0;
            && s.services.Keys == t.services.Keys
            && (forall n :: n in s.services ==> SameButInstance(s.services[n], t.services[n]))
            && (forall n :: n in s.services && n != name ==>
                  t.services[n] == s.services[n] && Values(t.log, n) == Values(s.log, n))
    ensures Coherent(s) ==> Coherent(Build(s, name, got).0)
  {
    hide Values, Remove;
    match s.services[name].factory.build(got, s.builds)
    case Throws =>
    case Returns(v) => SettlingTouchesOne(s.log, name, v);
  }

  lemma {:induction false} UsesAdvance(s: State, f: Factory, got: seq<Option<Instance>>)
    ensures Advances(s, RunUses(s, f, got).0)
    ensures Coherent(s) ==> Coherent(RunUses(s, f, got).0)
    decreases s.services.Keys - Elems(s.resolving), 1 + f.limit - |got|
  {
    if f.Next(got).Some? {
      var use := f.Next(got).value;
      ResolveAdvances(s, use.dep);
      var (s1, r) := Resolve(s, use.dep);
      if !(r.Err? && use.Need?) {
        UsesAdvance(s1, f, got + [r.Seen()]);
      }
    }
  }

  lemma UsesKeep(s: State, f: Factory, name: string)
    requires name in s.services && name in s.resolving
    ensures RunUses(s, f, []).0.services[name] == s.services[name]
  {
    UsesAdvance(s, f, []);
  }

  /** A transient service, and a singleton not cached yet, is built by every resolution that succeeds. */
  lemma UncachedIsBuilt(s: State, name: string)
    requires name in s.services && !(s.services[name].singleton && s.services[name].instance.Some?)
    requires Resolve(s, name).1.Ok?
    ensures var (t, r) := Resolve(s, name); t.log != [] && t.log[|t.log| - 1] == Settles(name, r.value)
  {
    hide Build, Remove;
    ElemsAppend(s.resolving, name);
    var (s1, gathered) := RunUses(s.(resolving := s.resolving + [name]), s.services[name].factory, []);
    BuildLogs(s1, name, gathered.values);
  }

  lemma BuildLogs(s: State, name: string, got: seq<Option<Instance>>)
    requires name in s.services && Build(s, name, got).1.Ok?
    ensures var (t, r) := Build(s, name, got); t.log == s.log + [Settles(name, r.value)]
  {
  }

  // -- What a factory is given ---------------------------------------

  /**
   A factory's exchange with the container: what it asked for at each moment was
   resolved then and there. `resolve` gives the value and does not come back with
   a failure; `tryResolve` gives undefined for a failure.
   */
  ghost predicate Conversation(f: Factory, got: seq<Option<Instance>>, moments: seq<State>) {
    && |moments| == |got| + 1
    && forall i :: 0 <= i < |got| ==>
         f.Next(got[..i]).Some? && Answers(moments[i], f.Next(got[..i]).value, got[i], moments[i + 1])
  }

  ghost predicate Answers(s: State, use: Use, answer: Option<Instance>, t: State) {
    var (after, r) := Resolve(s, use.dep);
    && t == after
    && match r
       case Ok(v) => answer == v
       case Err(_) => use.Try? && answer == None
  }

  /**
   How a resolution that calls the factory ends, from the last moment of its
   exchange: with what it builds from what it got, with its own exception, or
   with the failure of a service it needed.
   */
  ghost predicate Concludes(
    name: string, f: Factory, got: seq<Option<Instance>>, last: State, t: State, r: Result)
  {
    match f.Next(got)
    case Some(use) =>
      var (after, failure) := Resolve(last, use.dep);
      use.Need? && failure.Err? && r == failure && t.services == after.services
    case None =>
      match f.build(got, last.builds)
      case Throws => r == Err(FactoryThrew(name)) && t.services == last.services
      case Returns(v) =>
        && r == Ok(v) && name in last.services
        && var reg := last.services[name];
        && t.services == if reg.singleton then last.services[name := reg.(instance := v)] else last.services
  }

  /** What it means that resolving `name` in `s` gives `r` and leads to `t`. */
  ghost predicate Explained(s: State, name: string, t: State, r: Result) {
    if name !in s.services then t == s && r == Err(NotRegistered(name))
    else if s.services[name].singleton && s.services[name].instance.Some? then
      t == s && r == Ok(s.services[name].instance)
    else if name in s.resolving then t == s && r == Err(CircularDependency(s.resolving + [name]))
    else
      exists got, moments ::
        && Conversation(s.services[name].factory, got, moments)
        && moments[0] == s.(resolving := s.resolving + [name])
        && Concludes(name, s.services[name].factory, got, moments[|got|], t, r)
  }

  lemma ConversationSnoc(f: Factory, got: seq<Option<Instance>>, moments: seq<State>, v: Option<Instance>, t: State)
    requires Conversation(f, got, moments) && f.Next(got).Some?
    requires Answers(moments[|got|], f.Next(got).value, v, t)
    ensures Conversation(f, got + [v], moments + [t])
  {
    hide Answers;
    var more, longer := got + [v], moments + [t];
    assert more[..|got|] == got;
    forall i | 0 <= i < |more|
      ensures more[..i] == (if i < |got| then got[..i] else got) && longer[i] == moments[i]
    {
    }
  }

  /** A run of the factory from some point of its exchange completes it. */
  lemma {:induction false} UsesConverse(s: State, f: Factory, got: seq<Option<Instance>>, moments: seq<State>)
    returns (all: seq<Option<Instance>>, more: seq<State>)
    requires Conversation(f, got, moments) && moments[|got|] == s
    ensures Conversation(f, all, more) && more[0] == moments[0]
    ensures match RunUses(s, f, got).1
            case Got(values) => values == all && f.Next(all).None? && RunUses(s, f, got).0 == more[|all|]
            case Failed(error) =>
              && f.Next(all).Some? && f.Next(all).value.Need?
              && Resolve(more[|all|], f.Next(all).value.dep) == (RunUses(s, f, got).0, Err(error))
    decreases f.limit - |got|
  {
    hide Resolve, Conversation;
    all, more := got, moments;
    if f.Next(got).Some? {
      var use := f.Next(got).value;
      var (t, r) := Resolve(s, use.dep);
      if !(r.Err? && use.Need?) {
        ConversationSnoc(f, got, moments, r.Seen(), t);
        ConversationLength(f, got, moments);
        all, more := UsesConverse(t, f, got + [r.Seen()], moments + [t]);
      }
    }
  }

  lemma ConversationLength(f: Factory, got: seq<Option<Instance>>, moments: seq<State>)
    requires Conversation(f, got, moments)
    ensures |moments| == |got| + 1
  {
  }

  /** Every resolution is explained: in particular a factory is given what its dependencies resolve to. */
  lemma ResolveExplained(s: State, name: string)
    ensures var (t, r) := Resolve(s, name); Explained(s, name, t, r)
  {
    if name in s.services && !(s.services[name].singleton && s.services[name].instance.Some?) && name !in s.resolving {
      ElemsAppend(s.resolving, name);
      var s0, f := s.(resolving := s.resolving + [name]), s.services[name].factory;
      assert Conversation(f, [], [s0]);
      var got, moments := UsesConverse(s0, f, [], [s0]);
      UsesKeep(s0, f, name);
      hide Conversation, RunUses, Remove;
      var (t, r) := Resolve(s, name);
      assert Concludes(name, f, got, moments[|got|], t, r);
    }
  }

  /** A singleton that is cached when the factory starts is what the factory is given for it. */
  lemma {:induction false} CachedIsGiven(
    f: Factory, got: seq<Option<Instance>>, moments: seq<State>, dep: string, v: Instance, i: nat)
    requires Conversation(f, got, moments) && i < |got|
    requires var s := moments[0]; dep in s.services && s.services[dep].singleton && s.services[dep].instance == Some(v)
    requires f.Next(got[..i]).value.dep == dep
    ensures got[i] == Some(v)
  {
    StillCached(f, got, moments, dep, v, i);
    var use := f.Next(got[..i]).value;
    assert Answers(moments[i], use, got[i], moments[i + 1]);
    assert Resolve(moments[i], use.dep) == (moments[i], Ok(Some(v)));
  }

  lemma {:induction false} StillCached(
    f: Factory, got: seq<Option<Instance>>, moments: seq<State>, dep: string, v: Instance, i: nat)
    requires Conversation(f, got, moments) && i <= |got|
    requires var s := moments[0]; dep in s.services && s.services[dep].singleton && s.services[dep].instance == Some(v)
    ensures var s := moments[i]; dep in s.services && s.services[dep].singleton && s.services[dep].instance == Some(v)
  {
    if i > 0 {
      StillCached(f, got, moments, dep, v, i - 1);
      var use := f.Next(got[..i - 1]).value;
      assert Answers(moments[i - 1], use, got[i - 1], moments[i]);
      ResolveAdvances(moments[i - 1], use.dep);
      hide Resolve, Conversation;
    }
  }

  /** What each error says is so: a name nobody registered, a factory that threw, or a chain that closes. */
  ghost predicate Genuine(s: State, path: seq<string>, error: Error) {
    match error
    case NotRegistered(n) => n !in s.services
    case FactoryThrew(n) => n in s.services && exists got, k :: s.services[n].factory.build(got, k).Throws?
    case CircularDependency(chain) =>
      && path <= chain && chain != [] && chain[|chain| - 1] in chain[..|chain| - 1]
      && forall n :: n in chain[|path|..] ==> n in s.services
  }

  lemma {:induction false} ErrorsAreGenuine(s: State, name: string)
    requires Resolve(s, name).1.Err?
    ensures Genuine(s, s.resolving, Resolve(s, name).1.error)
    decreases s.services.Keys - Elems(s.resolving), 0
  {
    if name in s.services && !(s.services[name].singleton && s.services[name].instance.Some?) {
      if name in s.resolving {
        assert (s.resolving + [name])[..|s.resolving|] == s.resolving;
      } else {
        ElemsAppend(s.resolving, name);
        var s0 := s.(resolving := s.resolving + [name]);
        UsesAdvance(s0, s.services[name].factory, []);
        var (s1, gathered) := RunUses(s0, s.services[name].factory, []);
        if gathered.Failed? {
          UseErrorsAreGenuine(s0, s.services[name].factory, []);
          GenuineFromHere(s, name, gathered.error);
        } else {
          assert s.services[name].factory.build(gathered.values, s1.builds).Throws?;
        }
      }
    }
  }

  lemma GenuineFromHere(s: State, name: string, error: Error)
    requires name in s.services && Genuine(s, s.resolving + [name], error)
    ensures Genuine(s, s.resolving, error)
  {
    if error.CircularDependency? {
      var chain := error.chain;
      assert chain[|s.resolving|] == (s.resolving + [name])[|s.resolving|] == name;
      assert chain[|s.resolving|..] == [name] + chain[|s.resolving| + 1..];
      assert s.resolving <= s.resolving + [name];
    }
  }

  lemma {:induction false} UseErrorsAreGenuine(s: State, f: Factory, got: seq<Option<Instance>>)
    requires RunUses(s, f, got).1.Failed?
    ensures Genuine(s, s.resolving, RunUses(s, f, got).1.error)
    decreases s.services.Keys - Elems(s.resolving), 1 + f.limit - |got|
  {
    var use := f.Next(got).value;
    var (s1, r) := Resolve(s, use.dep);
    if r.Err? && use.Need? {
      ErrorsAreGenuine(s, use.dep);
    } else {
      UseErrorsAreGenuine(s1, f, got + [r.Seen()]);
      ResolveAdvances(s, use.dep);
      GenuineAsBefore(s, s1, RunUses(s, f, got).1.error);
    }
  }

  lemma GenuineAsBefore(s: State, t: State, error: Error)
    requires Advances(s, t) && t.resolving == s.resolving && Genuine(t, t.resolving, error)
    ensures Genuine(s, s.resolving, error)
  {
  }

  // -- Histories of calls on one container ---------------------------

  datatype Call =
    | RegisterSingleton(name: string, factory: Factory, dependencies: seq<string>)
    | RegisterTransient(name: string, factory: Factory, dependencies: seq<string>)
    | RegisterInstance(name: string, value: Option<Instance>)
    | ResolveService(name: string)
    | DisposeInstance(name: string)
    | Clear

  function Always(value: Option<Instance>): Factory {
    Factory(0, _ => None, (_, _) => Returns(value))
  }

  function Register(s: State, name: string, reg: Registration): State {
    s.(services := s.services[name := reg], log := s.log + [Resets(name, reg.instance)])
  }

  function Apply(s: State, call: Call): State {
    match call
    case RegisterSingleton(name, factory, deps) =>
      Register(s, name, Registration(true, deps, factory, None))
    case RegisterTransient(name, factory, deps) =>
      Register(s, name, Registration(false, deps, factory, None))
    case RegisterInstance(name, value) =>
      Register(s, name, Registration(true, [], Always(value), value))
    case ResolveService(name) =>
      Resolve(s, name).0
    case DisposeInstance(name) =>
      if name in s.services then Register(s, name, s.services[name].(instance := None)) else s
    case Clear =>
      s.(services := map[], resolving := [])
  }

  const EMPTY := State(map[], [], 0, [])

  function Run(s: State, calls: seq<Call>): State {
    if calls == [] then s else Apply(Run(s, calls[..|calls| - 1]), calls[|calls| - 1])
  }

  lemma ResettingTouchesOne(log: seq<Happening>, name: string, preset: Option<Instance>)
    ensures forall n :: n != name ==> Values(log + [Resets(name, preset)], n) == Values(log, n)
    ensures Values(log + [Resets(name, preset)], name) == if preset.Some? then [preset.value] else []
  {
    hide Values;
    forall n ensures n != name ==> Values(log + [Resets(name, preset)], n) == Values(log, n) {
      ValuesSnoc(log, Resets(name, preset), n);
    }
    ValuesSnoc(log, Resets(name, preset), name);
  }

  lemma RegisterCoheres(s: State, name: string, reg: Registration)
    requires Coherent(s)
    ensures Coherent(Register(s, name, reg))
  {
    ResettingTouchesOne(s.log, name, reg.instance);
    hide Values;
  }

  lemma ApplyCoheres(s: State, call: Call)
    requires Coherent(s) && s.resolving == []
    ensures Coherent(Apply(s, call)) && Apply(s, call).resolving == []
  {
    hide Coherent, Resolve;
    match call
    case RegisterSingleton(name, factory, deps) =>
      RegisterCoheres(s, name, Registration(true, deps, factory, None));
    case RegisterTransient(name, factory, deps) =>
      RegisterCoheres(s, name, Registration(false, deps, factory, None));
    case RegisterInstance(name, value) =>
      RegisterCoheres(s, name, Registration(true, [], Always(value), value));
    case ResolveService(name) => ResolveAdvances(s, name);
    case DisposeInstance(name) =>
      if name in s.services {
        RegisterCoheres(s, name, s.services[name].(instance := None));
      }
    case Clear => NothingCoheres(Apply(s, call));
  }

  lemma NothingCoheres(s: State)
    requires s.services == map[]
    ensures Coherent(s)
  {
  }

  /** A singleton factory yields a defined value at most once between two resets, whatever the graph. */
  lemma {:induction false} SingletonsBuiltOnce(calls: seq<Call>)
    ensures Coherent(Run(EMPTY, calls))
    ensures Run(EMPTY, calls).resolving == []
    ensures var s := Run(EMPTY, calls);
            forall n :: n in s.services && s.services[n].singleton ==> |Values(s.log, n)| <= 1
  {
    hide Apply, Values;
    if calls == [] {
      NothingCoheres(EMPTY);
    } else {
      var last := |calls| - 1;
      SingletonsBuiltOnce(calls[..last]);
      ApplyCoheres(Run(EMPTY, calls[..last]), calls[last]);
    }
  }

  /** No call in the list registers, disposes of or clears `name`. */
  ghost predicate LeavesAlone(calls: seq<Call>, name: string) {
    forall c :: c in calls ==> !c.Clear? && (!c.ResolveService? ==> c.name != name)
  }

  /** Once a singleton has resolved to an object, every later resolution returns that object and builds nothing. */
  lemma {:induction false} SameInstanceEverAfter(s: State, name: string, v: Instance, calls: seq<Call>)
    requires name in s.services && s.services[name].singleton
    requires Resolve(s, name).1 == Ok(Some(v))
    requires LeavesAlone(calls, name)
    ensures var t := Run(Resolve(s, name).0, calls);
            Resolve(t, name) == (t, Ok(Some(v)))
  {
    var s1 := Resolve(s, name).0;
    ResolveAdvances(s, name);
    CachedStaysCached(s1, name, v, calls);
  }

  lemma {:induction false} CachedStaysCached(s: State, name: string, v: Instance, calls: seq<Call>)
    requires name in s.services && s.services[name].singleton && s.services[name].instance == Some(v)
    requires LeavesAlone(calls, name)
    ensures var t := Run(s, calls);
            name in t.services && t.services[name].singleton && t.services[name].instance == Some(v)
  {
    if calls != [] {
      var last := |calls| - 1;
      CachedStaysCached(s, name, v, calls[..last]);
      var t := Run(s, calls[..last]);
      if calls[last].ResolveService? {
        ResolveAdvances(t, calls[last].name);
      }
    }
  }

  // -- What the registration calls promise ----------------------------

  lemma {:induction false} StaysRegistered(s: State, name: string, calls: seq<Call>)
    requires name in s.services && LeavesAlone(calls, name)
    ensures var t := Run(s, calls); name in t.services && SameButInstance(s.services[name], t.services[name])
    ensures s.resolving == [] ==> Run(s, calls).resolving == []
  {
    if calls != [] {
      var last := |calls| - 1;
      StaysRegistered(s, name, calls[..last]);
      var t := Run(s, calls[..last]);
      if calls[last].ResolveService? {
        ResolveAdvances(t, calls[last].name);
      }
    }
  }

  /** A singleton is shared: whatever it first resolves to, it resolves to from then on. */
  lemma SingletonIsShared(s: State, name: string, f: Factory, deps: seq<string>, calls: seq<Call>, more: seq<Call>)
    requires LeavesAlone(calls, name) && LeavesAlone(more, name)
    ensures var t := Run(Apply(s, RegisterSingleton(name, f, deps)), calls);
            && name in t.services && t.services[name].factory == f && t.services[name].dependencies == deps
            && var (u, r) := Resolve(t, name);
            r.Ok? && r.value.Some? ==> Resolve(Run(u, more), name) == (Run(u, more), r)
  {
    var s1 := Apply(s, RegisterSingleton(name, f, deps));
    StaysRegistered(s1, name, calls);
    var t := Run(s1, calls);
    var (u, r) := Resolve(t, name);
    if r.Ok? && r.value.Some? {
      SameInstanceEverAfter(t, name, r.value.value, more);
    }
  }

  /** A transient service is built for each resolution, however often it has been resolved before. */
  lemma TransientIsBuilt(s: State, name: string, f: Factory, deps: seq<string>, calls: seq<Call>)
    requires LeavesAlone(calls, name)
    ensures var t := Run(Apply(s, RegisterTransient(name, f, deps)), calls);
            && name in t.services && t.services[name].factory == f && t.services[name].dependencies == deps
            && var (u, r) := Resolve(t, name);
            r.Ok? ==>
              && u.log != [] && u.log[|u.log| - 1] == Settles(name, r.value)
              && exists got, k :: f.Next(got).None? && f.build(got, k) == Returns(r.value)
  {
    var s1 := Apply(s, RegisterTransient(name, f, deps));
    StaysRegistered(s1, name, calls);
    var t := Run(s1, calls);
    var (u, r) := Resolve(t, name);
    if r.Ok? {
      UncachedIsBuilt(t, name);
      ResolveExplained(t, name);
      BuiltFromValues(t, name);
    }
  }

  /** An uncached service resolves to what its factory makes of what it was given. */
  lemma BuiltFromValues(s: State, name: string)
    requires name in s.services && !(s.services[name].singleton && s.services[name].instance.Some?)
    requires Resolve(s, name).1.Ok?
    ensures exists got: seq<Option<Instance>>, moments: seq<State> ::
              && Conversation(s.services[name].factory, got, moments)
              && moments[0] == s.(resolving := s.resolving + [name])
              && s.services[name].factory.Next(got).None?
              && s.services[name].factory.build(got, moments[|got|].builds) == Returns(Resolve(s, name).1.value)
  {
    hide Resolve, Conversation;
    ResolveExplained(s, name);
  }

  /** A registered instance is what the name resolves to, from then on if it is defined. */
  lemma InstanceIsGiven(s: State, name: string, value: Option<Instance>, calls: seq<Call>)
    requires s.resolving == [] && LeavesAlone(calls, name)
    ensures Resolve(Apply(s, RegisterInstance(name, value)), name).1 == Ok(value)
    ensures var t := Run(Apply(s, RegisterInstance(name, value)), calls);
            value.Some? ==> Resolve(t, name) == (t, Ok(value))
  {
    if value.Some? {
      CachedStaysCached(Apply(s, RegisterInstance(name, value)), name, value.value, calls);
    }
  }

  /** A disposed singleton is built by its next resolution, from the same factory. */
  lemma DisposedIsBuilt(s: State, name: string)
    requires name in s.services
    ensures var t := Apply(s, DisposeInstance(name));
            && name in t.services && SameButInstance(s.services[name], t.services[name])
            && (forall n :: n != name && n in s.services ==> n in t.services && t.services[n] == s.services[n])
            && var (u, r) := Resolve(t, name);
            r.Ok? ==> u.log != [] && u.log[|u.log| - 1] == Settles(name, r.value)
  {
    var t := Apply(s, DisposeInstance(name));
    if Resolve(t, name).1.Ok? {
      UncachedIsBuilt(t, name);
    }
  }

  /** A cleared container knows no name. */
  lemma ClearedKnowsNothing(s: State, name: string)
    ensures Resolve(Apply(s, Call.Clear), name).1 == Err(NotRegistered(name))
  {
  }

  // -- What `validate` guarantees ------------------------------------

  function GraphOf(s: State): Graph {
    map n | n in s.services :: s.services[n].dependencies
  }

  /** Whatever it gets, each factory asks only for dependencies it declares. */
  ghost predicate Declared(s: State) {
    forall n, got :: n in s.services && s.services[n].factory.Next(got).Some? ==>
      s.services[n].factory.Next(got).value.dep in s.services[n].dependencies
  }

  ghost predicate NeverThrows(s: State) {
    forall n, got, k :: n in s.services ==> s.services[n].factory.build(got, k).Returns?
  }

  /** What `validate` establishes, for a call of `resolve` from outside any factory. */
  ghost predicate Accepted(s: State, name: string) {
    && Closed(GraphOf(s)) && Acyclic(GraphOf(s)) && Declared(s)
    && s.resolving == [] && name in s.services
  }

  lemma AdvanceKeepsGraph(s: State, t: State)
    requires Advances(s, t)
    ensures GraphOf(t) == GraphOf(s)
    ensures Declared(s) ==> Declared(t)
    ensures NeverThrows(s) ==> NeverThrows(t)
  {
  }

  /**
   Within a settled part of the registered names, resolving a service fails only
   if some factory itself throws: never for a missing name and never for a
   cycle, whatever is singleton, transient or already cached.
   */
  lemma {:induction false} SettledResolves(s: State, name: string, part: set<string>)
    requires Settled(GraphOf(s), part) && part <= s.services.Keys && Declared(s)
    requires name in part && Walk(GraphOf(s), s.resolving + [name])
    ensures var r := Resolve(s, name).1; r.Err? ==> r.error.FactoryThrew?
    ensures NeverThrows(s) ==> Resolve(s, name).1.Ok?
    decreases s.services.Keys - Elems(s.resolving), 0
  {
    var g := GraphOf(s);
    if name in s.resolving {
      assert (s.resolving + [name])[..|s.resolving|] == s.resolving;
      var cycle := ReportedCycle(g, s.resolving + [name]);
    } else {
      ElemsAppend(s.resolving, name);
      var s0 := s.(resolving := s.resolving + [name]);
      SettledUsesResolve(s0, s.services[name].factory, [], part);
      UsesAdvance(s0, s.services[name].factory, []);
    }
  }

  lemma {:induction false} SettledUsesResolve(s: State, f: Factory, got: seq<Option<Instance>>, part: set<string>)
    requires Settled(GraphOf(s), part) && part <= s.services.Keys && Declared(s)
    requires Walk(GraphOf(s), s.resolving) && Last(s.resolving) in part
    requires forall g :: f.Next(g).Some? ==> Edge(GraphOf(s), Last(s.resolving), f.Next(g).value.dep)
    ensures var r := RunUses(s, f, got).1; r.Failed? ==> r.error.FactoryThrew?
    ensures NeverThrows(s) ==> RunUses(s, f, got).1.Got?
    decreases s.services.Keys - Elems(s.resolving), 1 + f.limit - |got|
  {
    if f.Next(got).Some? {
      var dep := f.Next(got).value.dep;
      WalkExtend(GraphOf(s), s.resolving, dep);
      SettledResolves(s, dep, part);
      ResolveAdvances(s, dep);
      var (s1, r) := Resolve(s, dep);
      AdvanceKeepsGraph(s, s1);
      SettledUsesResolve(s1, f, got + [r.Seen()], part);
    }
  }

  lemma AllSettles(g: Graph)
    requires Closed(g) && Acyclic(g)
    ensures Settled(g, g.Keys)
  {
  }

  /** So on a container that `validate` accepts, it fails for no registered service in any other way. */
  lemma ValidatedResolves(s: State, name: string)
    requires Closed(GraphOf(s)) && Acyclic(GraphOf(s)) && Declared(s)
    requires name in s.services && Walk(GraphOf(s), s.resolving + [name])
    ensures var r := Resolve(s, name).1; r.Err? ==> r.error.FactoryThrew?
    ensures NeverThrows(s) ==> Resolve(s, name).1.Ok?
  {
    AllSettles(GraphOf(s));
    SettledResolves(s, name, s.services.Keys);
  }

  ghost predicate Asks(f: Factory, got: seq<Option<Instance>>, dep: string) {
    exists i :: 0 <= i < |got| && f.Next(got[..i]) == Some(Need(dep))
  }

  /** Whatever it gets, the factory insists, through `resolve`, on each of these before it builds. */
  ghost predicate InsistsOn(f: Factory, deps: seq<string>) {
    forall got :: f.Reaches(got) ==>
      match f.Next(got)
      case Some(use) => use.Need?
      case None => forall d :: d in deps ==> Asks(f, got, d)
  }

  /** Each factory insists on everything it declares. */
  ghost predicate Demanding(s: State) {
    forall n :: n in s.services ==> InsistsOn(s.services[n].factory, s.services[n].dependencies)
  }

  ghost function Cached(s: State): set<string> {
    set n | n in s.services && s.services[n].singleton && s.services[n].instance.Some?
  }

  /** A settled set of registered names that accounts for everything resolved so far. */
  ghost predicate Accounts(s: State, part: set<string>) {
    Settled(GraphOf(s), part) && part <= s.services.Keys && Cached(s) <= part
  }

  lemma {:induction false} SuccessSettles(s: State, name: string, part: set<string>) returns (more: set<string>)
    requires Demanding(s) && Accounts(s, part) && Resolve(s, name).1.Ok?
    ensures part <= more && name in more && Accounts(Resolve(s, name).0, more)
    decreases s.services.Keys - Elems(s.resolving), 0
  {
    hide Build, Remove, Settled;
    var reg := s.services[name];
    if reg.singleton && reg.instance.Some? {
      assert name in Cached(s);
      more := part;
    } else {
      ElemsAppend(s.resolving, name);
      var s0 := s.(resolving := s.resolving + [name]);
      assert GraphOf(s0) == GraphOf(s) && Cached(s0) == Cached(s);
      var (s1, gathered) := RunUses(s0, reg.factory, []);
      var after := SuccessfulUsesSettle(s0, reg.factory, [], reg.dependencies, part);
      UsesAdvance(s0, reg.factory, []);
      AdvanceKeepsGraph(s0, s1);
      BuildSettles(s1, name, gathered.values, after);
      more := after + {name};
    }
  }

  lemma BuildSettles(s: State, name: string, got: seq<Option<Instance>>, part: set<string>)
    requires name in s.services && Accounts(s, part)
    requires forall d :: d in s.services[name].dependencies ==> d in part
    ensures Accounts(Build(s, name, got).0, part + {name})
  {
    var t := Build(s, name, got).0;
    assert GraphOf(t) == GraphOf(s);
    SettleOne(GraphOf(s), part, name);
    assert Cached(t) <= Cached(s) + {name};
  }

  /** The dependencies a factory has asked for so far, by what it has got. */
  ghost predicate AskedWithin(f: Factory, got: seq<Option<Instance>>, part: set<string>) {
    f.Reaches(got) && forall i :: 0 <= i < |got| ==> f.Next(got[..i]).value.dep in part
  }

  lemma AskedOneMore(f: Factory, got: seq<Option<Instance>>, v: Option<Instance>, part: set<string>)
    requires AskedWithin(f, got, part) && f.Next(got).Some? && f.Next(got).value.dep in part
    ensures AskedWithin(f, got + [v], part)
  {
    forall i | 0 <= i < |got + [v]|
      ensures f.Next((got + [v])[..i]).Some? && f.Next((got + [v])[..i]).value.dep in part
    {
      assert (got + [v])[..i] == if i == |got| then got else got[..i];
    }
  }

  lemma {:induction false} SuccessfulUsesSettle(
    s: State, f: Factory, got: seq<Option<Instance>>, deps: seq<string>, part: set<string>) returns (more: set<string>)
    requires Demanding(s) && Accounts(s, part) && InsistsOn(f, deps) && AskedWithin(f, got, part)
    requires RunUses(s, f, got).1.Got?
    ensures part <= more && Accounts(RunUses(s, f, got).0, more)
    ensures forall d :: d in deps ==> d in more
    decreases s.services.Keys - Elems(s.resolving), 1 + f.limit - |got|
  {
    more := part;
    match f.Next(got) {
      case None =>
        forall d | d in deps ensures d in more {
          assert Asks(f, got, d);
        }
      case Some(use) =>
        more := SuccessSettles(s, use.dep, part);
        ResolveAdvances(s, use.dep);
        var (s1, r) := Resolve(s, use.dep);
        AskedOneMore(f, got, r.Seen(), more);
        more := SuccessfulUsesSettle(s1, f, got + [r.Seen()], deps, more);
    }
  }

  /**
   In a container that has built nothing yet, and whose factories insist on just
   what they declare and do not throw, a service resolves if and only if all it
   depends on is registered and free of cycles, whatever else is in the container.
   */
  lemma ResolvesExactly(s: State, name: string)
    requires s.resolving == [] && Cached(s) == {}
    requires Declared(s) && Demanding(s) && NeverThrows(s)
    ensures Resolve(s, name).1.Ok? <==>
            exists part :: name in part && part <= s.services.Keys && Settled(GraphOf(s), part)
  {
    var g := GraphOf(s);
    if part :| name in part && part <= s.services.Keys && Settled(g, part) {
      assert Walk(g, s.resolving + [name]);
      SettledResolves(s, name, part);
    }
    if Resolve(s, name).1.Ok? {
      assert Accounts(s, {});
      var part := SuccessSettles(s, name, {});
      ResolveAdvances(s, name);
      AdvanceKeepsGraph(s, Resolve(s, name).0);
      assert name in part && part <= s.services.Keys && Settled(g, part);
    }
  }

  /** `validate` is exact: in such a container it accepts if and only if every service resolves. */
  lemma ValidateIsExact(s: State)
    requires s.resolving == [] && Cached(s) == {}
    requires Declared(s) && Demanding(s) && NeverThrows(s)
    ensures (forall n :: n in s.services ==> Resolve(s, n).1.Ok?) <==> Closed(GraphOf(s)) && Acyclic(GraphOf(s))
  {
    var g := GraphOf(s);
    hide Resolve, GraphOf, Settled, Demanding, Declared, NeverThrows;
    forall n
      ensures Resolve(s, n).1.Ok? <==> exists part :: n in part && part <= s.services.Keys && Settled(g, part)
    {
      ResolvesExactly(s, n);
    }
    assert g.Keys == s.services.Keys by {
      GraphKeys(s);
    }
    if Closed(g) && Acyclic(g) {
      AllSettles(g);
    }
    if forall n :: n in s.services ==> Resolve(s, n).1.Ok? {
      EverywhereSettled(g);
    }
  }

  lemma GraphKeys(s: State)
    ensures GraphOf(s).Keys == s.services.Keys
  {
  }

  lemma EverywhereSettled(g: Graph)
    requires forall n :: n in g ==> exists part :: n in part && part <= g.Keys && Settled(g, part)
    ensures Closed(g) && Acyclic(g)
  {
    forall a, b | Edge(g, a, b) ensures b in g {
      var part :| a in part && part <= g.Keys && Settled(g, part);
    }
    forall p | Walk(g, p) && |p| >= 2 ensures p[0] != Last(p) {
      assert Edge(g, p[0], p[1]);
      var part :| p[0] in part && part <= g.Keys && Settled(g, part);
    }
  }
}
