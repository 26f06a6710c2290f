/**
 Exactly which schemas keep their meaning when they are flattened, for schemas
 that only put claims together; and examples of those that do not.
 */
module SchemaClaims {
  import opened Prelude
  import opened SchemaFlatten
  import opened SchemaMeaning

  // -- Claims about places -----------------------------------------------

  /** A place in an instance: the instance itself, or one under a member of an object or an item of an array. */
  datatype Path = Here | Member(name: string, rest: Path) | Position(i: nat, rest: Path)

  function PlaceAt(inst: Json, path: Path): Option<Json>
    decreases path
  {
    match path
    case Here => Some(inst)
    case Member(name, rest) =>
      var present := if inst.Obj? then Lookup(inst.entries, name) else None;
      if present.Some? then PlaceAt(present.value, rest) else None
    case Position(i, rest) =>
      if inst.Arr? && i < |inst.items| then PlaceAt(inst.items[i], rest) else None
  }

  /** What can be claimed of a place: that there is none, or that a data keyword holds there. */
  datatype Claim = Never | Keyword(d: Entry)

  ghost predicate HoldsAt(r: Reading, path: Path, c: Claim, inst: Json) {
    var place := PlaceAt(inst, path);
    place.Some? ==> c.Keyword? && r.data(c.d.key, c.d.value, place.value)
  }

  /**
   Schemas that put claims together, and nothing else: under `anyOf`, `oneOf`,
   `not` and conditions, a lost claim may make no difference.
   */
  ghost predicate Conjunctive(schema: Json)
    decreases schema, 0
  {
    match schema
    case Bool(_) => true
    case Obj(entries) => forall e :: e in entries ==> ConjunctiveEntry(e)
    case _ => false
  }

  ghost predicate ConjunctiveEntry(e: Entry)
    decreases e, 1
  {
    match KindOf(e.key, e.value)
    case AllOf | Tuple => forall s :: s in e.value.items ==> Conjunctive(s)
    case Items | AdditionalItems | AdditionalProperties => Conjunctive(e.value)
    case Properties | Patterns =>
      UniqueKeys(e.value.entries) && forall p :: p in e.value.entries ==> ConjunctiveProperty(p)
    case Data => true
    case _ => false
  }

  ghost predicate ConjunctiveProperty(p: Entry)
    decreases p, 1
  {
    Conjunctive(p.value)
  }

  type Matcher = (string, string) -> bool

  /**
   `Before`: what the schema claims as it stands. `After`: what is left of that
   when wrappers are opened into the object around them, so that later entries
   override earlier ones and all see one another, and data is rewritten.
   */
  datatype Time = Before | After

  ghost predicate Says(t: Time, m: Matcher, schema: Json, path: Path, c: Claim)
    decreases schema, 0
  {
    match schema
    case Bool(b) => !b && path.Here? && c.Never?
    case Obj(entries) =>
      if t.Before? then
        exists e :: e in entries && Counts(e.key, entries) && SaysEntry(t, m, entries, e, path, c)
      else
        var merged := Spread(entries);
        exists w :: w in merged && Stays(merged, w) && Counts(w.key, merged) && SaysEntry(t, m, merged, w, path, c)
    case _ => false
  }

  ghost predicate SaysEntry(t: Time, m: Matcher, own: seq<Entry>, e: Entry, path: Path, c: Claim)
    decreases e, 1
  {
    match KindOf(e.key, e.value)
    case AllOf => exists s :: s in e.value.items && Says(t, m, s, path, c)
    case Items => path.Position? && Says(t, m, e.value, path.rest, c)
    case Tuple => path.Position? && path.i < |e.value.items| && Says(t, m, e.value.items[path.i], path.rest, c)
    case AdditionalItems =>
      path.Position? && TupleLength(own).Some? && TupleLength(own).value <= path.i && Says(t, m, e.value, path.rest, c)
    case Properties =>
      path.Member? && exists p :: p in e.value.entries && p.key == path.name && SaysProperty(t, m, p, path.rest, c)
    case Patterns =>
      path.Member? && exists p :: p in e.value.entries && m(p.key, path.name) && SaysProperty(t, m, p, path.rest, c)
    case AdditionalProperties => path.Member? && IsAdditional(m, own, path.name) && Says(t, m, e.value, path.rest, c)
    case Data => path.Here? && c == Keyword(if t.Before? then e else Flat(e))
    case _ => false
  }

  ghost predicate SaysProperty(t: Time, m: Matcher, p: Entry, path: Path, c: Claim)
    decreases p, 1
  {
    Says(t, m, p.value, path, c)
  }

  /** An instance that is accepted satisfies all that is said of it. */
  lemma {:induction false} SaidHolds(r: Reading, schema: Json, path: Path, c: Claim, inst: Json)
    requires Says(Before, r.matches, schema, path, c) && Accepts(r, schema, inst)
    ensures HoldsAt(r, path, c, inst)
    decreases schema, 0
  {
    if schema.Obj? {
      var own := schema.entries;
      var e :| e in own && Counts(e.key, own) && SaysEntry(Before, r.matches, own, e, path, c);
      SaidEntryHolds(r, own, e, path, c, inst);
    }
  }

  lemma {:induction false} SaidEntryHolds(r: Reading, own: seq<Entry>, e: Entry, path: Path, c: Claim, inst: Json)
    requires e in own && SaysEntry(Before, r.matches, own, e, path, c) && Holds(r, own, e, inst)
    ensures HoldsAt(r, path, c, inst)
    decreases e, 1
  {
    KindIsKept(e);
    hide KindOf;
    match KindOf(e.key, e.value)
    case AllOf =>
      var s :| s in e.value.items && Says(Before, r.matches, s, path, c);
      SaidHolds(r, s, path, c, inst);
    case Items | AdditionalItems =>
      if inst.Arr? && path.i < |inst.items| {
        SaidHolds(r, e.value, path.rest, c, inst.items[path.i]);
      }
    case Tuple =>
      if inst.Arr? && path.i < |inst.items| {
        SaidHolds(r, e.value.items[path.i], path.rest, c, inst.items[path.i]);
      }
    case Properties | Patterns => SaidMemberHolds(r, own, e, path, c, inst);
    case AdditionalProperties =>
      if inst.Obj? && Lookup(inst.entries, path.name).Some? {
        SaidHolds(r, e.value, path.rest, c, Lookup(inst.entries, path.name).value);
      }
    case Data =>
  }

  lemma {:induction false} SaidMemberHolds(r: Reading, own: seq<Entry>, e: Entry, path: Path, c: Claim, inst: Json)
    requires KindOf(e.key, e.value) in {Properties, Patterns}
    requires e in own && SaysEntry(Before, r.matches, own, e, path, c) && Holds(r, own, e, inst)
    ensures HoldsAt(r, path, c, inst)
    decreases e, 0
  {
    KindIsKept(e);
    var p :| p in e.value.entries && SaysProperty(Before, r.matches, p, path.rest, c)
             && if KindOf(e.key, e.value) == Properties then p.key == path.name else r.matches(p.key, path.name);
    hide KindOf;
    if inst.Obj? && Lookup(inst.entries, path.name).Some? {
      var x := Lookup(inst.entries, path.name).value;
      assert PropertyHolds(r, p, inst) || PatternHolds(r, p, inst);
      assert Accepts(r, p.value, x);
      SaidPropertyHolds(r, p, path.rest, c, x);
    }
  }

  lemma {:induction false} SaidPropertyHolds(r: Reading, p: Entry, path: Path, c: Claim, x: Json)
    requires SaysProperty(Before, r.matches, p, path, c) && Accepts(r, p.value, x)
    ensures HoldsAt(r, path, c, x)
    decreases p, 0
  {
    SaidHolds(r, p.value, path, c, x);
  }

  /** One that is not accepted fails something that is said of it. */
  lemma {:induction false} FailsSomewhere(r: Reading, schema: Json, inst: Json) returns (path: Path, c: Claim)
    requires Conjunctive(schema) && !Accepts(r, schema, inst)
    ensures Says(Before, r.matches, schema, path, c) && !HoldsAt(r, path, c, inst)
    decreases schema, 0
  {
    if schema.Bool? {
      path, c := Here, Never;
    } else {
      var own := schema.entries;
      var e :| e in own && Counts(e.key, own) && !Holds(r, own, e, inst);
      path, c := EntryFailsSomewhere(r, own, e, inst);
    }
  }

  lemma {:induction false} EntryFailsSomewhere(r: Reading, own: seq<Entry>, e: Entry, inst: Json)
    returns (path: Path, c: Claim)
    requires e in own && ConjunctiveEntry(e) && !Holds(r, own, e, inst)
    ensures SaysEntry(Before, r.matches, own, e, path, c) && !HoldsAt(r, path, c, inst)
    decreases e, 1
  {
    KindIsKept(e);
    hide KindOf;
    match KindOf(e.key, e.value)
    case AllOf =>
      var s :| s in e.value.items && !Accepts(r, s, inst);
      path, c := FailsSomewhere(r, s, inst);
    case Items | Tuple | AdditionalItems => path, c := ItemFailsSomewhere(r, own, e, inst);
    case Properties | Patterns => path, c := MemberFailsSomewhere(r, own, e, inst);
    case AdditionalProperties =>
      var n :| Lookup(inst.entries, n).Some? && IsAdditional(r.matches, own, n)
               && !Accepts(r, e.value, Lookup(inst.entries, n).value);
      path, c := FailsSomewhere(r, e.value, Lookup(inst.entries, n).value);
      path := Member(n, path);
    case Data =>
      path, c := Here, Keyword(e);
  }

  lemma {:induction false} ItemFailsSomewhere(r: Reading, own: seq<Entry>, e: Entry, inst: Json)
    returns (path: Path, c: Claim)
    requires KindOf(e.key, e.value) in {Items, Tuple, AdditionalItems}
    requires e in own && ConjunctiveEntry(e) && !Holds(r, own, e, inst)
    ensures SaysEntry(Before, r.matches, own, e, path, c) && !HoldsAt(r, path, c, inst)
    decreases e, 0
  {
    KindIsKept(e);
    hide KindOf, Says, Accepts, Conjunctive, TupleLength;
    if KindOf(e.key, e.value) == Tuple {
      var i :| 0 <= i < |e.value.items| && i < |inst.items| && !Accepts(r, e.value.items[i], inst.items[i]);
      path, c := FailsSomewhere(r, e.value.items[i], inst.items[i]);
      path := Position(i, path);
    } else {
      var from := if KindOf(e.key, e.value) == Items then 0 else TupleLength(own).value;
      var i :| from <= i < |inst.items| && !Accepts(r, e.value, inst.items[i]);
      path, c := FailsSomewhere(r, e.value, inst.items[i]);
      path := Position(i, path);
    }
  }

  lemma {:induction false} MemberFailsSomewhere(r: Reading, own: seq<Entry>, e: Entry, inst: Json)
    returns (path: Path, c: Claim)
    requires KindOf(e.key, e.value) in {Properties, Patterns}
    requires e in own && ConjunctiveEntry(e) && !Holds(r, own, e, inst)
    ensures SaysEntry(Before, r.matches, own, e, path, c) && !HoldsAt(r, path, c, inst)
    decreases e, 0
  {
    KindIsKept(e);
    var p, n;
    if KindOf(e.key, e.value) == Properties {
      p :| p in e.value.entries && !PropertyHolds(r, p, inst);
      n := p.key;
    } else {
      p :| p in e.value.entries && !PatternHolds(r, p, inst);
      n :| Lookup(inst.entries, n).Some? && r.matches(p.key, n) && !Accepts(r, p.value, Lookup(inst.entries, n).value);
    }
    hide KindOf;
    path, c := PropertyFailsSomewhere(r, p, Lookup(inst.entries, n).value);
    path := Member(n, path);
  }

  lemma {:induction false} PropertyFailsSomewhere(r: Reading, p: Entry, x: Json) returns (path: Path, c: Claim)
    requires ConjunctiveProperty(p) && !Accepts(r, p.value, x)
    ensures SaysProperty(Before, r.matches, p, path, c) && !HoldsAt(r, path, c, x)
    decreases p, 0
  {
    path, c := FailsSomewhere(r, p.value, x);
  }

  // -- What can be told from outside -------------------------------------

  /** The smallest instance with a place `path`, and `null` there. */
  function At(path: Path): Json {
    match path
    case Here => Null
    case Member(name, rest) => Obj([Entry(name, At(rest))])
    case Position(i, rest) => Arr(seq(i, _ => Num(0.0)) + [At(rest)])
  }

  lemma {:induction false} PlacesAt(path: Path, p: Path)
    ensures PlaceAt(At(path), p) == Some(Null) <==> p == path
    decreases path
  {
    match path
    case Here =>
    case Member(name, rest) =>
      if p.Member? {
        assert Lookup(At(path).entries, p.name) == if p.name == name then Some(At(rest)) else None;
        PlacesAt(rest, p.rest);
      }
    case Position(i, rest) =>
      if p.Position? && p.i <= i {
        assert At(path).items[p.i] == if p.i == i then At(rest) else Num(0.0);
        PlacesAt(rest, p.rest);
      }
  }

  /** An instance with a place `path` has all the places that `At(path)` has. */
  lemma {:induction false} AtIsSmallest(inst: Json, path: Path, p: Path)
    requires PlaceAt(inst, path).Some? && PlaceAt(At(path), p).Some?
    ensures PlaceAt(inst, p).Some?
    decreases path
  {
    match path
    case Here =>
    case Member(name, rest) =>
      if p.Member? {
        assert Lookup(At(path).entries, p.name) == if p.name == name then Some(At(rest)) else None;
        AtIsSmallest(Lookup(inst.entries, name).value, rest, p.rest);
      }
    case Position(i, rest) =>
      if p.Position? {
        assert At(path).items[p.i] == if p.i == i then At(rest) else Num(0.0);
        if p.i == i {
          AtIsSmallest(inst.items[i], rest, p.rest);
        }
      }
  }

  /** What the schema comes to for a place: what it says of it, and anything at all if the place cannot be there. */
  ghost predicate Demands(t: Time, m: Matcher, schema: Json, path: Path, c: Claim) {
    Says(t, m, schema, path, c) || RulesOut(t, m, schema, path)
  }

  ghost predicate RulesOut(t: Time, m: Matcher, schema: Json, path: Path) {
    exists p :: PlaceAt(At(path), p).Some? && Says(t, m, schema, p, Never)
  }

  lemma DemandHolds(r: Reading, schema: Json, path: Path, c: Claim, inst: Json)
    requires Demands(Before, r.matches, schema, path, c) && Accepts(r, schema, inst)
    ensures HoldsAt(r, path, c, inst)
  {
    hide Says, Accepts, PlaceAt, At;
    if Says(Before, r.matches, schema, path, c) {
      SaidHolds(r, schema, path, c, inst);
    } else if PlaceAt(inst, path).Some? {
      var p :| PlaceAt(At(path), p).Some? && Says(Before, r.matches, schema, p, Never);
      AtIsSmallest(inst, path, p);
      SaidHolds(r, schema, p, Never, inst);
    }
  }

  /** The reading under which everything holds, except that `c`, if it is a keyword, rejects `null`. */
  ghost function Rejecting(m: Matcher, c: Claim): Reading {
    Reading((k: string, v: Json, inst: Json) => !(c == Keyword(Entry(k, v)) && inst == Null),
            (k, s, inst) => true, (k, s, inst) => true, m)
  }

  lemma RejectingMatches(m: Matcher, c: Claim)
    ensures Rejecting(m, c).matches == m
  {
  }

  /** What a schema demands of a place can be told from whether it accepts the smallest instance that has it. */
  lemma DemandIsVisible(m: Matcher, schema: Json, path: Path, c: Claim)
    requires Conjunctive(schema)
    ensures Accepts(Rejecting(m, c), schema, At(path)) <==> !Demands(Before, m, schema, path, c)
  {
    var r, inst := Rejecting(m, c), At(path);
    PlacesAt(path, path);
    if Demands(Before, m, schema, path, c) && Accepts(r, schema, inst) {
      DemandHolds(r, schema, path, c, inst);
    }
    if !Accepts(r, schema, inst) {
      var p, d := FailsSomewhere(r, schema, inst);
      PlacesAt(path, p);
      hide Says, Accepts, At, PlaceAt, Conjunctive;
      assert d.Keyword? ==> p == path && d == c;
    }
  }

  lemma SameDemandsSameMeaning(r: Reading, a: Json, b: Json, inst: Json)
    requires Conjunctive(a)
    requires forall path, c :: Demands(Before, r.matches, a, path, c) ==> Demands(Before, r.matches, b, path, c)
    requires Accepts(r, b, inst)
    ensures Accepts(r, a, inst)
  {
    hide Says, Accepts, Conjunctive, HoldsAt;
    if !Accepts(r, a, inst) {
      var path, c := FailsSomewhere(r, a, inst);
      assert Demands(Before, r.matches, a, path, c);
      DemandHolds(r, b, path, c, inst);
    }
  }

  // -- What flattening leaves --------------------------------------------

  lemma ConjunctiveWrapsObject(e: Entry)
    requires ConjunctiveEntry(e) && IsWrapper(e.key, e.value)
    ensures WrapsObject(e)
  {
    assert Conjunctive(e.value.items[0]);
  }

  lemma {:induction false} SpreadIsConjunctive(entries: seq<Entry>)
    requires forall e :: e in entries ==> ConjunctiveEntry(e)
    ensures forall w :: w in Spread(entries) ==> ConjunctiveEntry(w) && !IsWrapper(w.key, w.value)
    decreases entries, 1
  {
    if entries != [] {
      assert entries[|entries| - 1] in entries;
      SpreadIsConjunctive(entries[..|entries| - 1]);
      SpreadEntryIsConjunctive(entries[|entries| - 1]);
    }
  }

  lemma {:induction false} SpreadEntryIsConjunctive(e: Entry)
    requires ConjunctiveEntry(e)
    ensures forall w :: w in SpreadEntry(e) ==> ConjunctiveEntry(w) && !IsWrapper(w.key, w.value)
    decreases e, 2
  {
    if IsWrapper(e.key, e.value) {
      KindIsKept(e);
      ConjunctiveWrapsObject(e);
      assert Conjunctive(e.value.items[0]);
      SpreadIsConjunctive(e.value.items[0].entries);
    }
  }

  lemma FlattenedObject(entries: seq<Entry>)
    requires Conjunctive(Obj(entries))
    ensures forall w :: w in Spread(entries) ==> ConjunctiveEntry(w)
    ensures forall c :: c in FlattenEntries(entries) <==>
              exists w :: w in Spread(entries) && Stays(Spread(entries), w) && c == Flat(w)
    ensures Mirrors(FlattenEntries(entries), Spread(entries))
  {
    SpreadIsConjunctive(entries);
    FlattenedEntries(entries);
    FlattenedMirrors(entries);
  }

  lemma {:induction false} FlattenConjunctive(schema: Json)
    requires Conjunctive(schema)
    ensures Conjunctive(Flatten(schema))
    decreases schema, 0
  {
    if schema.Obj? {
      FlattenedObject(schema.entries);
      hide Spread, FlattenEntries, Flat, Stays, ConjunctiveEntry, Mirrors;
      forall w | w in Spread(schema.entries) ensures ConjunctiveEntry(Flat(w)) {
        FlattenConjunctiveEntry(w);
      }
      assert Flatten(schema) == Obj(FlattenEntries(schema.entries));
    }
  }

  lemma {:induction false} FlattenConjunctiveEntry(e: Entry)
    requires ConjunctiveEntry(e)
    ensures ConjunctiveEntry(Flat(e))
    decreases e, 1
  {
    KindIsKept(e);
    hide KindOf;
    match KindOf(e.key, e.value)
    case AllOf | Tuple =>
      forall s | s in Flatten(e.value).items ensures Conjunctive(s) {
        var i :| 0 <= i < |e.value.items| && s == Flatten(e.value.items[i]);
        FlattenConjunctive(e.value.items[i]);
      }
    case Items | AdditionalItems | AdditionalProperties => FlattenConjunctive(e.value);
    case Properties | Patterns =>
      FlattenedConjunctiveProperties(e.value.entries);
      forall p | p in e.value.entries ensures ConjunctiveProperty(Flat(p)) {
        FlattenConjunctiveProperty(p);
      }
    case Data =>
  }

  lemma {:induction false} FlattenConjunctiveProperty(p: Entry)
    requires ConjunctiveProperty(p)
    ensures ConjunctiveProperty(Flat(p))
    decreases p, 0
  {
    FlattenConjunctive(p.value);
  }

  lemma FlattenedConjunctiveProperties(properties: seq<Entry>)
    requires UniqueKeys(properties) && forall p :: p in properties ==> ConjunctiveProperty(p)
    ensures UniqueKeys(FlattenEntries(properties))
    ensures forall c :: c in FlattenEntries(properties) <==> exists p :: p in properties && c == Flat(p)
    ensures (set e | e in FlattenEntries(properties) :: e.key) == (set e | e in properties :: e.key)
  {
    forall p | p in properties ensures !IsWrapper(p.key, p.value) {
      assert ConjunctiveProperty(p) && Conjunctive(p.value);
    }
    FlattenedProperties(properties);
    FlattenEntriesWellFormed(properties);
    NamesAreKept(properties);
  }

  lemma ConjunctiveNames(flat: seq<Entry>, own: seq<Entry>, key: string)
    requires key in {"properties", "patternProperties"}
    requires Mirrors(flat, own) && forall w :: w in own ==> ConjunctiveEntry(w)
    ensures NamesUnder(flat, key) == NamesUnder(own, key)
  {
    var value := Final(own, key);
    if value.Some? && value.value.Obj? {
      assert ConjunctiveEntry(Entry(key, value.value));
      NamesKind(key, value.value);
      FlattenedConjunctiveProperties(value.value.entries);
    }
  }

  lemma NamesKind(key: string, value: Json)
    requires key in {"properties", "patternProperties"} && value.Obj?
    ensures KindOf(key, value) in {Properties, Patterns}
  {
  }

  lemma ConjunctiveSight(flat: seq<Entry>, own: seq<Entry>)
    requires Mirrors(flat, own) && forall w :: w in own ==> ConjunctiveEntry(w)
    ensures TupleLength(flat) == TupleLength(own)
    ensures forall m: Matcher, name :: IsAdditional(m, flat, name) == IsAdditional(m, own, name)
    ensures forall key :: Counts(key, flat) == Counts(key, own)
  {
    ConjunctiveNames(flat, own, "properties");
    ConjunctiveNames(flat, own, "patternProperties");
    hide ConjunctiveEntry;
  }

  /** The flattened schema says what is left of the schema when its wrappers are opened. */
  lemma {:induction false} FlattenSays(m: Matcher, schema: Json, path: Path, c: Claim)
    requires Conjunctive(schema)
    ensures Says(Before, m, Flatten(schema), path, c) <==> Says(After, m, schema, path, c)
    decreases schema, 0
  {
    if schema.Obj? {
      var merged, flat := Spread(schema.entries), FlattenEntries(schema.entries);
      FlattenedObject(schema.entries);
      ConjunctiveSight(flat, merged);
      hide Spread, FlattenEntries, SaysEntry, ConjunctiveEntry, Stays, Mirrors, Counts, IsAdditional, TupleLength;
      forall w | w in merged
        ensures SaysEntry(Before, m, flat, Flat(w), path, c) <==> SaysEntry(After, m, merged, w, path, c)
      {
        FlattenSaysEntry(m, merged, flat, w, path, c);
      }
      assert Flatten(schema) == Obj(flat);
      SameSayings(m, merged, flat, path, c);
    }
  }

  lemma SameSayings(m: Matcher, merged: seq<Entry>, flat: seq<Entry>, path: Path, c: Claim)
    requires forall e :: e in flat <==> exists w :: w in merged && Stays(merged, w) && e == Flat(w)
    requires forall key :: Counts(key, flat) == Counts(key, merged)
    requires forall w :: w in merged ==>
               (SaysEntry(Before, m, flat, Flat(w), path, c) <==> SaysEntry(After, m, merged, w, path, c))
    ensures (exists e :: e in flat && Counts(e.key, flat) && SaysEntry(Before, m, flat, e, path, c))
            <==> (exists w :: w in merged && Stays(merged, w) && Counts(w.key, merged)
                              && SaysEntry(After, m, merged, w, path, c))
  {
    hide SaysEntry, Stays, Counts, Flatten;
    if e :| e in flat && Counts(e.key, flat) && SaysEntry(Before, m, flat, e, path, c) {
      var w :| w in merged && Stays(merged, w) && e == Flat(w);
      assert Counts(w.key, merged) && SaysEntry(After, m, merged, w, path, c);
    }
    if w :| w in merged && Stays(merged, w) && Counts(w.key, merged) && SaysEntry(After, m, merged, w, path, c) {
      assert Flat(w) in flat && Counts(Flat(w).key, flat) && SaysEntry(Before, m, flat, Flat(w), path, c);
    }
  }

  lemma {:induction false} FlattenSaysEntry(
    m: Matcher, own: seq<Entry>, flat: seq<Entry>, e: Entry, path: Path, c: Claim)
    requires ConjunctiveEntry(e)
    requires TupleLength(flat) == TupleLength(own)
    requires forall name :: IsAdditional(m, flat, name) == IsAdditional(m, own, name)
    ensures SaysEntry(Before, m, flat, Flat(e), path, c) <==> SaysEntry(After, m, own, e, path, c)
    decreases e, 1
  {
    KindIsKept(e);
    hide KindOf, TupleLength, IsAdditional, Says, Conjunctive;
    match KindOf(e.key, e.value)
    case AllOf =>
      assert Flat(e).value.items == FlattenItems(e.value.items);
      FlattenSaysAll(m, e.value.items, path, c);
    case Items | AdditionalItems | AdditionalProperties =>
      if !path.Here? {
        FlattenSays(m, e.value, path.rest, c);
      }
    case Tuple =>
      assert Flat(e).value.items == FlattenItems(e.value.items);
      if path.Position? && path.i < |e.value.items| {
        assert e.value.items[path.i] in e.value.items;
        FlattenSays(m, e.value.items[path.i], path.rest, c);
      }
    case Properties | Patterns => FlattenSaysMember(m, own, flat, e, path, c);
    case Data =>
  }

  lemma {:induction false} FlattenSaysAll(m: Matcher, items: seq<Json>, path: Path, c: Claim)
    requires forall s :: s in items ==> Conjunctive(s)
    ensures (exists s :: s in FlattenItems(items) && Says(Before, m, s, path, c))
            <==> (exists s :: s in items && Says(After, m, s, path, c))
    decreases items, 0
  {
    var flat := FlattenItems(items);
    forall i | 0 <= i < |items| ensures Says(Before, m, flat[i], path, c) <==> Says(After, m, items[i], path, c) {
      assert items[i] in items;
      FlattenSays(m, items[i], path, c);
    }
    hide *;
    if s :| s in flat && Says(Before, m, s, path, c) {
      var i :| 0 <= i < |flat| && flat[i] == s;
      assert items[i] in items && Says(After, m, items[i], path, c);
    }
    if s :| s in items && Says(After, m, s, path, c) {
      var i :| 0 <= i < |items| && items[i] == s;
      assert flat[i] in flat && Says(Before, m, flat[i], path, c);
    }
  }

  lemma {:induction false} FlattenSaysMember(
    m: Matcher, own: seq<Entry>, flat: seq<Entry>, e: Entry, path: Path, c: Claim)
    requires KindOf(e.key, e.value) in {Properties, Patterns} && ConjunctiveEntry(e)
    ensures SaysEntry(Before, m, flat, Flat(e), path, c) <==> SaysEntry(After, m, own, e, path, c)
    decreases e, 0
  {
    KindIsKept(e);
    hide KindOf;
    var properties := e.value.entries;
    FlattenedConjunctiveProperties(properties);
    assert Flat(e).value == Obj(FlattenEntries(properties));
    if path.Member? {
      hide FlattenEntries, SaysProperty, ConjunctiveProperty;
      forall p | p in properties
        ensures Flat(p) in FlattenEntries(properties)
        ensures SaysProperty(Before, m, Flat(p), path.rest, c) <==> SaysProperty(After, m, p, path.rest, c)
      {
        FlattenSaysProperty(m, p, path.rest, c);
      }
    }
  }

  lemma {:induction false} FlattenSaysProperty(m: Matcher, p: Entry, path: Path, c: Claim)
    requires ConjunctiveProperty(p)
    ensures SaysProperty(Before, m, Flat(p), path, c) <==> SaysProperty(After, m, p, path, c)
    decreases p, 0
  {
    FlattenSays(m, p.value, path, c);
  }

  lemma FlattenDemands(m: Matcher, schema: Json, path: Path, c: Claim)
    requires Conjunctive(schema)
    ensures Demands(Before, m, Flatten(schema), path, c) <==> Demands(After, m, schema, path, c)
  {
    hide Says, Flatten, Conjunctive;
    forall p, d ensures Says(Before, m, Flatten(schema), p, d) <==> Says(After, m, schema, p, d) {
      FlattenSays(m, schema, p, d);
    }
  }

  /**
   Flattening keeps the meaning, whatever the data keywords mean, if and only if
   opening the wrappers leaves every demand and adds none: nothing said only by
   an overridden entry, nothing new under a keyword that looks at its siblings,
   no data rewritten.
   */
  lemma MeaningKeptExactly(m: Matcher, schema: Json)
    requires Conjunctive(schema)
    ensures (forall path, c :: Demands(Before, m, schema, path, c) <==> Demands(After, m, schema, path, c))
            <==> forall r: Reading, inst :: r.matches == m ==>
                   (Accepts(r, Flatten(schema), inst) <==> Accepts(r, schema, inst))
  {
    var flat := Flatten(schema);
    FlattenConjunctive(schema);
    hide *;
    forall path, c ensures Demands(Before, m, flat, path, c) <==> Demands(After, m, schema, path, c) {
      FlattenDemands(m, schema, path, c);
    }
    if forall path, c :: Demands(Before, m, schema, path, c) <==> Demands(After, m, schema, path, c) {
      forall r: Reading, inst | r.matches == m ensures Accepts(r, flat, inst) <==> Accepts(r, schema, inst) {
        if Accepts(r, flat, inst) {
          SameDemandsSameMeaning(r, schema, flat, inst);
        }
        if Accepts(r, schema, inst) {
          SameDemandsSameMeaning(r, flat, schema, inst);
        }
      }
    } else {
      var path, c :| Demands(Before, m, schema, path, c) != Demands(After, m, schema, path, c);
      ChangeIsVisible(m, schema, path, c);
      RejectingMatches(m, c);
    }
  }

  /** Where a demand is lost or added, the smallest instance with that place can tell. */
  lemma ChangeIsVisible(m: Matcher, schema: Json, path: Path, c: Claim)
    requires Conjunctive(schema)
    ensures Demands(Before, m, schema, path, c) != Demands(After, m, schema, path, c) <==>
            Accepts(Rejecting(m, c), Flatten(schema), At(path)) != Accepts(Rejecting(m, c), schema, At(path))
  {
    hide *;
    FlattenConjunctive(schema);
    FlattenDemands(m, schema, path, c);
    DemandIsVisible(m, schema, path, c);
    DemandIsVisible(m, Flatten(schema), path, c);
  }

  // -- Data keywords only ------------------------------------------------

  predicate IsData(e: Entry) {
    KindOf(e.key, e.value) == Data && e.key != "$ref"
  }

  lemma {:induction false} DataSaysBefore(m: Matcher, entries: seq<Entry>, path: Path, c: Claim)
    requires forall w :: w in Spread(entries) ==> IsData(w)
    ensures Conjunctive(Obj(entries))
    ensures Says(Before, m, Obj(entries), path, c) <==> path.Here? && c.Keyword? && c.d in Spread(entries)
    decreases entries, 1
  {
    forall e | e in entries
      ensures ConjunctiveEntry(e) && e.key != "$ref"
      ensures SaysEntry(Before, m, entries, e, path, c) <==> path.Here? && c.Keyword? && c.d in SpreadEntry(e)
    {
      forall w | w in SpreadEntry(e) ensures IsData(w) {
        SpreadSplit(entries, w);
      }
      DataEntrySaysBefore(m, entries, e, path, c);
    }
    forall e | e in entries ensures Counts(e.key, entries) {
    }
    if c.Keyword? {
      SpreadSplit(entries, c.d);
    }
  }

  lemma {:induction false} DataEntrySaysBefore(m: Matcher, own: seq<Entry>, e: Entry, path: Path, c: Claim)
    requires forall w :: w in SpreadEntry(e) ==> IsData(w)
    ensures ConjunctiveEntry(e) && e.key != "$ref"
    ensures SaysEntry(Before, m, own, e, path, c) <==> path.Here? && c.Keyword? && c.d in SpreadEntry(e)
    decreases e, 2
  {
    if WrapsObject(e) {
      KindIsKept(e);
      var inner := e.value.items[0];
      assert forall s :: s in e.value.items <==> s == inner;
      DataSaysBefore(m, inner.entries, path, c);
    } else {
      assert e in SpreadEntry(e);
    }
  }

  lemma DataSaysAfter(m: Matcher, entries: seq<Entry>, path: Path, c: Claim)
    requires forall w :: w in Spread(entries) ==> IsData(w)
    ensures Says(After, m, Obj(entries), path, c) <==>
            path.Here? && exists w :: w in Spread(entries) && Stays(Spread(entries), w) && c == Keyword(Flat(w))
  {
    forall w | w in Spread(entries)
      ensures Counts(w.key, Spread(entries))
      ensures SaysEntry(After, m, Spread(entries), w, path, c) <==> path.Here? && c == Keyword(Flat(w))
    {
      DataEntryAfter(m, Spread(entries), w, path, c);
    }
    hide SaysEntry, Counts, Spread, IsData, Stays, Flat;
  }

  lemma DataEntryAfter(m: Matcher, own: seq<Entry>, e: Entry, path: Path, c: Claim)
    requires IsData(e) && forall w :: w in own ==> IsData(w)
    ensures Counts(e.key, own)
    ensures SaysEntry(After, m, own, e, path, c) <==> path.Here? && c == Keyword(Flat(e))
  {
  }

  /** The same key always with the same value, and none that flattening rewrites. */
  ghost predicate OneValueEach(spread: seq<Entry>) {
    forall a, b :: a in spread && b in spread && a.key == b.key ==> b.value == Flatten(a.value)
  }

  lemma OneValueExactly(spread: seq<Entry>)
    ensures OneValueEach(spread) <==>
            forall d :: d in spread <==> exists w :: w in spread && Stays(spread, w) && d == Flat(w)
  {
    hide Final, Flatten;
    forall d | d in spread ensures exists w :: w in spread && Stays(spread, w) && w.key == d.key {
      FinalOccurs(spread, d.key);
      assert Stays(spread, Entry(d.key, Final(spread, d.key).value));
    }
    if OneValueEach(spread) {
      forall d ensures d in spread <==> exists w :: w in spread && Stays(spread, w) && d == Flat(w) {
        if w :| w in spread && Stays(spread, w) && d == Flat(w) {
          assert w.value == Flatten(w.value);
        }
        if d in spread {
          var w :| w in spread && Stays(spread, w) && w.key == d.key;
          assert d == Flat(w);
        }
      }
    }
  }

  lemma DataDemandsAreSaid(t: Time, m: Matcher, entries: seq<Entry>, path: Path, c: Claim)
    requires forall w :: w in Spread(entries) ==> IsData(w)
    ensures Demands(t, m, Obj(entries), path, c) == Says(t, m, Obj(entries), path, c)
  {
    hide Says, Spread, IsData, PlaceAt, At;
    forall p ensures !Says(t, m, Obj(entries), p, Never) {
      DataSaysBefore(m, entries, p, Never);
      DataSaysAfter(m, entries, p, Never);
    }
  }

  lemma DataDemandsBefore(m: Matcher, entries: seq<Entry>, path: Path, c: Claim)
    requires forall w :: w in Spread(entries) ==> IsData(w)
    ensures Demands(Before, m, Obj(entries), path, c) <==> path.Here? && c.Keyword? && c.d in Spread(entries)
  {
    hide *;
    DataDemandsAreSaid(Before, m, entries, path, c);
    DataSaysBefore(m, entries, path, c);
  }

  lemma DataDemandsAfter(m: Matcher, entries: seq<Entry>, path: Path, c: Claim)
    requires forall w :: w in Spread(entries) ==> IsData(w)
    ensures Demands(After, m, Obj(entries), path, c) <==>
            path.Here? && c.Keyword? && c.d in Remaining(Spread(entries))
  {
    hide *;
    DataDemandsAreSaid(After, m, entries, path, c);
    DataSaysAfter(m, entries, path, c);
    RemainingIs(Spread(entries));
  }

  /** The entries that stay, flattened. */
  ghost function Remaining(spread: seq<Entry>): set<Entry> {
    set w | w in spread && Stays(spread, w) :: Flat(w)
  }

  lemma RemainingIs(spread: seq<Entry>)
    ensures forall d :: d in Remaining(spread) <==> exists w :: w in spread && Stays(spread, w) && d == Flat(w)
  {
    hide Final, Flatten;
  }

  lemma DataDemands(m: Matcher, entries: seq<Entry>)
    requires forall w :: w in Spread(entries) ==> IsData(w)
    ensures Conjunctive(Obj(entries))
    ensures OneValueEach(Spread(entries)) <==> forall path, c ::
              Demands(Before, m, Obj(entries), path, c) <==> Demands(After, m, Obj(entries), path, c)
  {
    var schema, spread := Obj(entries), Spread(entries);
    hide *;
    DataSaysBefore(m, entries, Here, Never);
    OneValueExactly(spread);
    RemainingIs(spread);
    if OneValueEach(spread) {
      forall path, c ensures Demands(Before, m, schema, path, c) <==> Demands(After, m, schema, path, c) {
        DataDemandsBefore(m, entries, path, c);
        DataDemandsAfter(m, entries, path, c);
      }
    } else {
      var d :| (d in spread) != (d in Remaining(spread));
      DataDemandsBefore(m, entries, Here, Keyword(d));
      DataDemandsAfter(m, entries, Here, Keyword(d));
    }
  }

  /** For data keywords in wrappers of any depth: if and only if no key has two values and no value is rewritten. */
  lemma DataKeptExactly(entries: seq<Entry>)
    requires forall w :: w in Spread(entries) ==> IsData(w)
    ensures (forall a, b :: a in Spread(entries) && b in Spread(entries) && a.key == b.key ==>
               b.value == Flatten(a.value))
            <==> forall r: Reading, inst :: Accepts(r, Flatten(Obj(entries)), inst) <==> Accepts(r, Obj(entries), inst)
  {
    var m: Matcher := (pattern, name) => false;
    assert OneValueEach(Spread(entries)) <==> forall a, b ::
      a in Spread(entries) && b in Spread(entries) && a.key == b.key ==> b.value == Flatten(a.value);
    hide *;
    DataDemands(m, entries);
    MeaningKeptExactly(m, Obj(entries));
    if OneValueEach(Spread(entries)) {
      forall r: Reading, inst ensures Accepts(r, Flatten(Obj(entries)), inst) <==> Accepts(r, Obj(entries), inst) {
        DataDemands(r.matches, entries);
        MeaningKeptExactly(r.matches, Obj(entries));
      }
    }
  }

  // -- Examples ----------------------------------------------------------

  /** Under `anyOf` a loss may make no difference: beside an alternative that accepts everything, none does. */
  lemma AnyOfHidesLoss(r: Reading, schema: Json, inst: Json)
    ensures var either := Obj([Entry("anyOf", Arr([Bool(true), schema]))]);
            Accepts(r, Flatten(either), inst) && Accepts(r, either, inst)
  {
    var e := Entry("anyOf", Arr([Bool(true), schema]));
    assert "anyOf"[1] != "allOf"[1];
    OneEntry(e);
    assert e.value.items[0] == Bool(true) == Flat(e).value.items[0] && KindOf(e.key, e.value) == AnyOf;
    assert Bool(true) in e.value.items && Bool(true) in Flat(e).value.items;
    assert Accepts(r, Bool(true), inst);
    assert Holds(r, [e], e, inst) && Holds(r, [Flat(e)], Flat(e), inst);
  }

  function Wrapped(outer: Entry, inner: Entry): seq<Entry> {
    [outer, Entry("allOf", Arr([Obj([inner])]))]
  }

  lemma WrappedIsSet(outer: Entry, inner: Entry)
    requires !IsWrapper(outer.key, outer.value) && !IsWrapper(inner.key, inner.value)
    requires Flatten(outer.value) == outer.value && Flatten(inner.value) == inner.value
    ensures FlattenEntries(Wrapped(outer, inner)) == if inner.key == outer.key then [inner] else [outer, inner]
  {
    var wrapper := Entry("allOf", Arr([Obj([inner])]));
    OneEntry(outer);
    OneEntry(inner);
    assert Contribution(wrapper) == [inner];
    assert [outer, wrapper][..1] == [outer];
    SetAllOne([outer], inner);
    if inner.key != outer.key {
      SetNewKey([outer], inner.key, inner.value);
    }
  }

  /** The standard meaning of `const`, and of `type` for two types; everything else holds. */
  ghost function StandardReading(): Reading {
    Reading((k: string, v: Json, inst: Json) =>
              && (k == "const" ==> inst == v)
              && (k == "type" ==> (v == Str("string") ==> inst.Str?) && (v == Str("number") ==> inst.Num?)),
            (k, s, inst) => true, (k, s, inst) => true, (pattern, name) => false)
  }

  lemma Rejects(r: Reading, own: seq<Entry>, e: Entry, inst: Json)
    requires e in own && Counts(e.key, own) && !Holds(r, own, e, inst)
    ensures !Accepts(r, Obj(own), inst)
  {
  }

  lemma AcceptsAll(r: Reading, own: seq<Entry>, inst: Json)
    requires forall e :: e in own && Counts(e.key, own) ==> Holds(r, own, e, inst)
    ensures Accepts(r, Obj(own), inst)
  {
  }

  lemma FinalOfTwo(a: Entry, b: Entry, key: string)
    ensures Final([a, b], key) == if b.key == key then Some(b.value) else if a.key == key then Some(a.value) else None
  {
    assert [a, b][..1] == [a] && [a][..0] == [];
  }

  lemma TypesOfNumbers(own: seq<Entry>, n: real)
    ensures var e := Entry("type", Str("string")); e in own ==> !Holds(StandardReading(), own, e, Num(n))
    ensures var e := Entry("type", Str("number")); e in own ==> Holds(StandardReading(), own, e, Num(n))
  {
    assert "string"[0] != "number"[0];
  }

  /** Of two types only the wrapped one is kept: no value is both a string and a number, but numbers pass. */
  lemma ClashExample()
    ensures var schema := Obj(Wrapped(Entry("type", Str("string")), Entry("type", Str("number"))));
            Accepts(StandardReading(), Flatten(schema), Num(5.0)) && !Accepts(StandardReading(), schema, Num(5.0))
  {
    var outer, inner := Entry("type", Str("string")), Entry("type", Str("number"));
    var own := Wrapped(outer, inner);
    WrappedIsSet(outer, inner);
    FinalOfTwo(outer, own[1], "$ref");
    hide Holds, Accepts, StandardReading, FlattenEntries, Final;
    TypesOfNumbers(own, 5.0);
    Rejects(StandardReading(), own, outer, Num(5.0));
    TypesOfNumbers([inner], 5.0);
    AcceptsAll(StandardReading(), [inner], Num(5.0));
  }

  lemma OnlyMember(name: string, x: Json, n: string)
    ensures Lookup([Entry(name, x)], n) == if n == name then Some(x) else None
  {
  }

  lemma NoOtherMembers(r: Reading, own: seq<Entry>, name: string, x: Json)
    requires Entry("additionalProperties", Bool(false)) in own
    ensures Holds(r, own, Entry("additionalProperties", Bool(false)), Obj([Entry(name, x)])) <==>
            !IsAdditional(r.matches, own, name)
  {
    hide IsAdditional;
    forall n ensures Lookup([Entry(name, x)], n) == if n == name then Some(x) else None {
      OnlyMember(name, x, n);
    }
  }

  lemma SiblingSight(m: Matcher, outer: Entry, a: Entry)
    requires outer.key == "additionalProperties"
    ensures var inner := Entry("properties", Obj([a]));
            && IsAdditional(m, Wrapped(outer, inner), a.key) && !IsAdditional(m, [outer, inner], a.key)
            && (forall key :: Counts(key, Wrapped(outer, inner)) && Counts(key, [outer, inner]))
  {
    var inner := Entry("properties", Obj([a]));
    forall key
      ensures Final(Wrapped(outer, inner), key).Some? ==> key in {"additionalProperties", "allOf"}
      ensures Final([outer, inner], key) == if key == "properties" then Some(inner.value)
                                            else if key == outer.key then Some(outer.value) else None
    {
      FinalOfTwo(outer, Wrapped(outer, inner)[1], key);
      FinalOfTwo(outer, inner, key);
    }
    hide Final;
    assert a in inner.value.entries && a.key in NamesUnder([outer, inner], "properties");
  }

  /**
   No key is set twice, and still: `additionalProperties` sees the properties of
   the wrapper only once they are beside it.
   */
  lemma SiblingExample(r: Reading)
    ensures var inner := Entry("properties", Obj([Entry("a", Obj([]))]));
            var schema := Obj(Wrapped(Entry("additionalProperties", Bool(false)), inner));
            var inst := Obj([Entry("a", Null)]);
            Accepts(r, Flatten(schema), inst) && !Accepts(r, schema, inst)
  {
    var a := Entry("a", Obj([]));
    var outer, inner := Entry("additionalProperties", Bool(false)), Entry("properties", Obj([a]));
    var own, flat, inst := Wrapped(outer, inner), [outer, inner], Obj([Entry("a", Null)]);
    OneEntry(a);
    WrappedIsSet(outer, inner);
    assert Flatten(Obj(own)) == Obj(flat);
    hide Accepts, Flatten, FlattenEntries, Final, IsAdditional, NamesUnder, Counts;
    SiblingSight(r.matches, outer, a);
    NoOtherMembers(r, own, "a", Null);
    NoOtherMembers(r, flat, "a", Null);
    AnythingIsAllowed(r, flat, a, inst);
    hide Holds;
    Rejects(r, own, outer, inst);
    AcceptsAll(r, flat, inst);
  }

  lemma AnythingIsAllowed(r: Reading, own: seq<Entry>, p: Entry, inst: Json)
    requires p.value == Obj([]) && Entry("properties", Obj([p])) in own
    ensures Holds(r, own, Entry("properties", Obj([p])), inst)
  {
    assert forall x :: Accepts(r, p.value, x);
  }

  lemma RefsHold(own: seq<Entry>, ref: Json, inst: Json)
    requires Entry("$ref", ref) in own
    ensures Holds(StandardReading(), own, Entry("$ref", ref), inst)
  {
    assert "$ref"[0] == '$';
    assert KindOf("$ref", ref) == Data;
    hide KindOf;
  }

  /** Beside a wrapped `$ref` other keywords count; once it is among them they do not. */
  lemma RefExample(ref: string)
    ensures var schema := Obj(Wrapped(Entry("type", Str("string")), Entry("$ref", Str(ref))));
            Accepts(StandardReading(), Flatten(schema), Num(5.0)) && !Accepts(StandardReading(), schema, Num(5.0))
  {
    var outer, inner := Entry("type", Str("string")), Entry("$ref", Str(ref));
    var own, flat := Wrapped(outer, inner), [outer, inner];
    WrappedIsSet(outer, inner);
    FinalOfTwo(outer, own[1], "$ref");
    FinalOfTwo(outer, inner, "$ref");
    assert Flatten(Obj(own)) == Obj(flat);
    hide Holds, Accepts, StandardReading, Flatten, FlattenEntries, Final;
    RefsHold(flat, Str(ref), Num(5.0));
    TypesOfNumbers(own, 5.0);
    Rejects(StandardReading(), own, outer, Num(5.0));
    AcceptsAll(StandardReading(), flat, Num(5.0));
  }

  lemma ConstHolds(own: seq<Entry>, v: Json, inst: Json)
    requires Entry("const", v) in own
    ensures Holds(StandardReading(), own, Entry("const", v), inst) <==> inst == v
  {
  }

  /** A wrapper inside data is flattened too: the one value that `const` asks for is no longer it. */
  lemma ConstExample()
    ensures var wanted := Obj([Entry("allOf", Arr([Obj([])]))]);
            var schema := Obj([Entry("const", wanted)]);
            Accepts(StandardReading(), schema, wanted) && !Accepts(StandardReading(), Flatten(schema), wanted)
  {
    var wrapper := Entry("allOf", Arr([Obj([])]));
    var wanted := Obj([wrapper]);
    var e := Entry("const", wanted);
    assert [wrapper][..0] == [] && Contribution(wrapper) == [];
    assert Flatten(wanted) == Obj([]);
    OneEntry(e);
    assert Final([Flat(e)], "$ref") == None;
    hide Holds, Accepts, StandardReading, FlattenEntries, Final;
    ConstHolds([e], wanted, wanted);
    ConstHolds([Flat(e)], Obj([]), wanted);
    AcceptsAll(StandardReading(), [e], wanted);
    Rejects(StandardReading(), [Flat(e)], Flat(e), wanted);
  }
}
