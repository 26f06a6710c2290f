/**
 What a JSON schema accepts, by draft-07, and a class of schemas, with any of its
 keywords, that flattening leaves with the same meaning.
 */
module SchemaMeaning {
  import opened Prelude
  import opened SchemaFlatten

  // -- What a schema accepts ----------------------------------------------

  /**
   How a value is seen by a keyword with a meaning of its own: a subschema
   through the instances it accepts, any other value as it stands.
   */
  datatype Seen = Subschema(accepted: iset<Json>) | Value(value: Json)

  /**
   The meaning of the keywords that draft-07 does not apply to parts of the
   instance in a fixed way, and of patterns.
   */
  datatype Reading = Reading(
    data: (string, Json, Json) -> bool,
    one: (string, Seen, Json) -> bool,
    named: (string, iset<(string, Seen)>, Json) -> bool,
    matches: (string, string) -> bool)

  predicate IsSchema(j: Json) {
    j.Obj? || j.Bool?
  }

  /** How a keyword is read, given the shape of its value. */
  datatype Kind =
    | AllOf | AnyOf | OneOf | Not | If | Then | Else
    | Items | Tuple | AdditionalItems
    | Properties | Patterns | AdditionalProperties
    | One | Named | Data

  function KindOf(key: string, value: Json): Kind {
    if key == "allOf" && value.Arr? then AllOf
    else if key == "anyOf" && value.Arr? then AnyOf
    else if key == "oneOf" && value.Arr? then OneOf
    else if key == "not" then Not
    else if key == "if" then If
    else if key == "then" then Then
    else if key == "else" then Else
    else if key == "items" then if value.Arr? then Tuple else Items
    else if key == "additionalItems" then AdditionalItems
    else if key == "properties" && value.Obj? then Properties
    else if key == "patternProperties" && value.Obj? then Patterns
    else if key == "additionalProperties" then AdditionalProperties
    else if key == "contains" || key == "propertyNames" then One
    else if (key == "dependencies" || key == "definitions") && value.Obj? then Named
    else Data
  }

  lemma KindIsKept(e: Entry)
    ensures KindOf(e.key, Flatten(e.value)) == KindOf(e.key, e.value)
    ensures IsWrapper(e.key, e.value) ==> KindOf(e.key, e.value) == AllOf
    ensures KindOf(e.key, e.value) in {AllOf, AnyOf, OneOf, Tuple} ==> e.value.Arr?
    ensures KindOf(e.key, e.value) in {Properties, Patterns, Named} ==> e.value.Obj?
  {
  }

  // -- What some keywords see of the object they are in ------------------

  /** Beside `$ref` every other keyword is ignored. */
  predicate Counts(key: string, own: seq<Entry>) {
    key == "$ref" || Final(own, "$ref").None?
  }

  function NamesUnder(own: seq<Entry>, key: string): set<string> {
    match Final(own, key)
    case Some(Obj(entries)) => set e | e in entries :: e.key
    case _ => {}
  }

  /** A member that neither `properties` nor a pattern in the same object speaks of. */
  ghost predicate IsAdditional(matches: (string, string) -> bool, own: seq<Entry>, name: string) {
    && name !in NamesUnder(own, "properties")
    && forall p :: p in NamesUnder(own, "patternProperties") ==> !matches(p, name)
  }

  /** Where the additional items begin; without an `items` array there are none. */
  function TupleLength(own: seq<Entry>): Option<nat> {
    match Final(own, "items")
    case Some(Arr(items)) => Some(|items|)
    case _ => None
  }

  // -- Every keyword is an assertion about the instance ------------------

  ghost predicate Accepts(r: Reading, schema: Json, inst: Json)
    decreases schema, 0
  {
    match schema
    case Bool(b) => b
    case Obj(entries) => forall e :: e in entries && Counts(e.key, entries) ==> Holds(r, entries, e, inst)
    case _ => true
  }

  ghost predicate Holds(r: Reading, own: seq<Entry>, e: Entry, inst: Json)
    requires e in own
    decreases own, 0
  {
    match KindOf(e.key, e.value)
    case AllOf => forall s :: s in e.value.items ==> Accepts(r, s, inst)
    case AnyOf => exists s :: s in e.value.items && Accepts(r, s, inst)
    case OneOf => HowMany(r, e.value.items, inst) == 1
    case Not => !Accepts(r, e.value, inst)
    case If => true
    case Then => Final(own, "if").Some? && Accepts(r, Final(own, "if").value, inst) ==> Accepts(r, e.value, inst)
    case Else => Final(own, "if").Some? && !Accepts(r, Final(own, "if").value, inst) ==> Accepts(r, e.value, inst)
    case Items => inst.Arr? ==> forall x :: x in inst.items ==> Accepts(r, e.value, x)
    case Tuple => inst.Arr? ==> EachHolds(r, e.value.items, inst.items)
    case AdditionalItems =>
      inst.Arr? && TupleLength(own).Some? ==>
        forall i :: TupleLength(own).value <= i < |inst.items| ==> Accepts(r, e.value, inst.items[i])
    case Properties => inst.Obj? ==> forall p :: p in e.value.entries ==> PropertyHolds(r, p, inst)
    case Patterns => inst.Obj? ==> forall p :: p in e.value.entries ==> PatternHolds(r, p, inst)
    case AdditionalProperties =>
      inst.Obj? ==>
        forall n :: Lookup(inst.entries, n).Some? && IsAdditional(r.matches, own, n) ==>
          Accepts(r, e.value, Lookup(inst.entries, n).value)
    case One => r.one(e.key, SeenAs(r, e.value), inst)
    case Named => r.named(e.key, SeenUnder(r, e.value.entries), inst)
    case Data => r.data(e.key, e.value, inst)
  }

  ghost predicate PropertyHolds(r: Reading, p: Entry, inst: Json)
    requires inst.Obj?
    decreases p, 1
  {
    var present := Lookup(inst.entries, p.key);
    present.Some? ==> Accepts(r, p.value, present.value)
  }

  ghost predicate PatternHolds(r: Reading, p: Entry, inst: Json)
    requires inst.Obj?
    decreases p, 1
  {
    forall n :: Lookup(inst.entries, n).Some? && r.matches(p.key, n) ==>
      Accepts(r, p.value, Lookup(inst.entries, n).value)
  }

  ghost predicate EachHolds(r: Reading, schemas: seq<Json>, insts: seq<Json>)
    decreases schemas, 1
  {
    forall i :: 0 <= i < |schemas| && i < |insts| ==> Accepts(r, schemas[i], insts[i])
  }

  ghost function HowMany(r: Reading, schemas: seq<Json>, inst: Json): nat
    decreases schemas, 1
  {
    if schemas == [] then 0
    else HowMany(r, schemas[..|schemas| - 1], inst) + (if Accepts(r, schemas[|schemas| - 1], inst) then 1 else 0)
  }

  ghost function SeenAs(r: Reading, value: Json): Seen
    decreases value, 1
  {
    if IsSchema(value) then Subschema(iset x | Accepts(r, value, x)) else Value(value)
  }

  ghost function SeenPair(r: Reading, p: Entry): (string, Seen)
    decreases p, 1
  {
    (p.key, SeenAs(r, p.value))
  }

  ghost function SeenUnder(r: Reading, entries: seq<Entry>): iset<(string, Seen)>
    decreases entries, 1
  {
    iset p | p in entries :: SeenPair(r, p)
  }

  // -- Schemas whose meaning flattening keeps -----------------------------

  /** Keys that are set twice are set to what flattens to one value: opened wrappers and their siblings do not clash. */
  ghost predicate ClashFree(spread: seq<Entry>) {
    forall a, b :: a in spread && b in spread && a.key == b.key ==> Flat(a) == Flat(b)
  }

  /** All that a keyword sees of the object it is in. */
  datatype Sight = Sight(
    counts: bool, names: set<string>, patterns: set<string>, tuple: Option<nat>, condition: Option<Json>)

  function SightOf(key: string, own: seq<Entry>): Sight {
    Sight(
      Counts(key, own),
      if key == "additionalProperties" then NamesUnder(own, "properties") else {},
      if key == "additionalProperties" then NamesUnder(own, "patternProperties") else {},
      if key == "additionalItems" then TupleLength(own) else None,
      if key == "then" || key == "else" then Final(own, "if") else None)
  }

  /** Each of these entries, and those in opened wrappers, sees in its own object what it would see in `merged`. */
  predicate SeesSame(entries: seq<Entry>, own: seq<Entry>, merged: seq<Entry>)
    decreases entries, 1
  {
    forall e :: e in entries ==> EntrySeesSame(e, own, merged)
  }

  predicate EntrySeesSame(e: Entry, own: seq<Entry>, merged: seq<Entry>)
    decreases e, 2
  {
    if WrapsObject(e) then
      Counts(e.key, own) && SeesSame(e.value.items[0].entries, e.value.items[0].entries, merged)
    else
      SightOf(e.key, own) == SightOf(e.key, merged)
  }

  /**
   Subschemas are schemas, merging clashes nowhere and changes nothing that a
   keyword sees, and data values contain nothing to flatten.
   */
  ghost predicate Clean(schema: Json)
    decreases schema, 0
  {
    match schema
    case Bool(_) => true
    case Obj(entries) =>
      && ClashFree(Spread(entries)) && SeesSame(entries, entries, Spread(entries))
      && forall w :: w in Spread(entries) ==> CleanEntry(w)
    case _ => false
  }

  ghost predicate CleanEntry(e: Entry)
    decreases e, 1
  {
    match KindOf(e.key, e.value)
    case AllOf | AnyOf | OneOf | Tuple => forall s :: s in e.value.items ==> Clean(s)
    case Not | If | Then | Else | Items | AdditionalItems | AdditionalProperties | One => Clean(e.value)
    case Properties | Patterns => UniqueKeys(e.value.entries) && forall p :: p in e.value.entries ==> CleanProperty(p)
    case Named => UniqueKeys(e.value.entries) && forall p :: p in e.value.entries ==> CleanNamed(p)
    case Data => Flatten(e.value) == e.value
  }

  ghost predicate CleanProperty(p: Entry)
    decreases p, 1
  {
    Clean(p.value)
  }

  ghost predicate CleanNamed(p: Entry)
    decreases p, 1
  {
    if IsSchema(p.value) then Clean(p.value) else !IsWrapper(p.key, p.value) && Flatten(p.value) == p.value
  }

  lemma SameSight(r: Reading, own: seq<Entry>, merged: seq<Entry>, e: Entry, inst: Json)
    requires e in own && e in merged && SightOf(e.key, own) == SightOf(e.key, merged)
    ensures Counts(e.key, own) == Counts(e.key, merged)
    ensures Holds(r, own, e, inst) == Holds(r, merged, e, inst)
  {
  }

  lemma WrapperMeaning(r: Reading, own: seq<Entry>, e: Entry, inst: Json)
    requires e in own && IsWrapper(e.key, e.value)
    ensures Holds(r, own, e, inst) <==> Accepts(r, e.value.items[0], inst)
  {
    KindIsKept(e);
    hide KindOf, Accepts;
    assert forall s :: s in e.value.items <==> s == e.value.items[0];
  }

  /** An object accepts what satisfies all the entries of its spread, if these see the same there. */
  lemma {:induction false} SpreadMeaning(
    r: Reading, entries: seq<Entry>, own: seq<Entry>, merged: seq<Entry>, inst: Json)
    requires (forall e :: e in entries ==> e in own) && (forall w :: w in Spread(entries) ==> w in merged)
    requires SeesSame(entries, own, merged)
    ensures (forall e :: e in entries && Counts(e.key, own) ==> Holds(r, own, e, inst))
            <==> (forall w :: w in Spread(entries) && Counts(w.key, merged) ==> Holds(r, merged, w, inst))
    decreases entries, 1
  {
    if entries != [] {
      var init, e := entries[..|entries| - 1], entries[|entries| - 1];
      assert forall x :: x in entries <==> x in init || x == e;
      SpreadMeaning(r, init, own, merged, inst);
      SpreadEntryMeaning(r, e, own, merged, inst);
    }
  }

  lemma {:induction false} SpreadEntryMeaning(r: Reading, e: Entry, own: seq<Entry>, merged: seq<Entry>, inst: Json)
    requires e in own && EntrySeesSame(e, own, merged) && forall w :: w in SpreadEntry(e) ==> w in merged
    ensures (Counts(e.key, own) ==> Holds(r, own, e, inst))
            <==> (forall w :: w in SpreadEntry(e) && Counts(w.key, merged) ==> Holds(r, merged, w, inst))
    decreases e, 2
  {
    if WrapsObject(e) {
      hide Holds, Counts, SightOf;
      var inner := e.value.items[0];
      SpreadMeaning(r, inner.entries, inner.entries, merged, inst);
      WrapperMeaning(r, own, e, inst);
    } else {
      assert SpreadEntry(e) == [e];
      SameSight(r, own, merged, e, inst);
      hide Holds, SightOf, Counts;
    }
  }

  lemma CleanWrapsObject(e: Entry)
    requires CleanEntry(e) && IsWrapper(e.key, e.value)
    ensures WrapsObject(e)
  {
    assert Clean(e.value.items[0]);
  }

  lemma ClashFreeKeepsAll(entries: seq<Entry>)
    requires ClashFree(Spread(entries)) && forall w :: w in Spread(entries) ==> !IsWrapper(w.key, w.value)
    ensures forall c :: c in FlattenEntries(entries) <==> exists w :: w in Spread(entries) && c == Flat(w)
  {
    FlattenedEntries(entries);
    hide Spread, FlattenEntries, Flat, Final, IsWrapper;
    forall w | w in Spread(entries)
      ensures exists last :: last in Spread(entries) && Stays(Spread(entries), last) && Flat(w) == Flat(last)
    {
      FinalOccurs(Spread(entries), w.key);
      var last := Entry(w.key, Final(Spread(entries), w.key).value);
      assert Stays(Spread(entries), last) && Flat(w) == Flat(last);
    }
  }

  /** Flattening a clean schema changes nothing about which instances it accepts. */
  lemma {:induction false} FlattenKeepsMeaning(r: Reading, schema: Json, inst: Json)
    requires Clean(schema)
    ensures Accepts(r, Flatten(schema), inst) <==> Accepts(r, schema, inst)
    decreases schema, 0
  {
    if schema.Obj? {
      var entries := schema.entries;
      hide Holds, Spread, CleanEntry, FlattenEntries, IsWrapper, ClashFree, SeesSame, Counts, Final, Mirrors;
      forall w | w in Spread(entries) ensures !IsWrapper(w.key, w.value) {
        if IsWrapper(w.key, w.value) {
          CleanWrapsObject(w);
        }
      }
      SpreadMeaning(r, entries, entries, Spread(entries), inst);
      ClashFreeKeepsAll(entries);
      FlattenedMirrors(entries);
      forall w | w in Spread(entries)
        ensures Flat(w) in FlattenEntries(entries)
        ensures Counts(w.key, FlattenEntries(entries)) == Counts(w.key, Spread(entries))
        ensures Holds(r, FlattenEntries(entries), Flat(w), inst) <==> Holds(r, Spread(entries), w, inst)
      {
        SameCounts(FlattenEntries(entries), Spread(entries), w.key);
        EntryKeepsMeaning(r, entries, FlattenEntries(entries), w, inst);
      }
      assert Flatten(schema) == Obj(FlattenEntries(entries));
    }
  }

  lemma SameCounts(flat: seq<Entry>, own: seq<Entry>, key: string)
    requires Mirrors(flat, own)
    ensures Counts(key, flat) == Counts(key, own)
  {
  }

  lemma {:induction false} EntryKeepsMeaning(r: Reading, entries: seq<Entry>, flat: seq<Entry>, e: Entry, inst: Json)
    requires e in Spread(entries) && Flat(e) in flat && Mirrors(flat, Spread(entries))
    requires forall w :: w in Spread(entries) ==> CleanEntry(w)
    ensures Holds(r, flat, Flat(e), inst) <==> Holds(r, Spread(entries), e, inst)
    decreases entries, 1
  {
    hide Spread, Mirrors, Final, Holds, KindOf, CleanEntry;
    match KindOf(e.key, e.value)
    case AllOf | AnyOf | OneOf | Tuple => ListKeepsMeaning(r, Spread(entries), flat, e, inst);
    case If | Data => FixedKeepsMeaning(r, Spread(entries), flat, e, inst);
    case Not | Items | AdditionalItems | AdditionalProperties | One =>
      AppliedKeepsMeaning(r, entries, flat, e, inst);
    case Then | Else => ConditionKeepsMeaning(r, entries, flat, e, inst);
    case Properties | Patterns => PropertiesKeepMeaning(r, Spread(entries), flat, e, inst);
    case Named => NamedKeepsMeaning(r, Spread(entries), flat, e, inst);
  }

  lemma {:induction false} AppliedKeepsMeaning(r: Reading, entries: seq<Entry>, flat: seq<Entry>, e: Entry, inst: Json)
    requires e in Spread(entries) && Flat(e) in flat && Mirrors(flat, Spread(entries))
    requires forall w :: w in Spread(entries) ==> CleanEntry(w)
    requires KindOf(e.key, e.value) in {Not, Items, AdditionalItems, AdditionalProperties, One}
    ensures Holds(r, flat, Flat(e), inst) <==> Holds(r, Spread(entries), e, inst)
    decreases e, 0
  {
    hide KindOf, Spread, Mirrors, IsAdditional, TupleLength, NamesUnder, Clean, CleanEntry, Flatten, Final;
    KindIsKept(e);
    SameNames(flat, Spread(entries));
    CleanValue(e);
    forall x ensures Accepts(r, Flatten(e.value), x) <==> Accepts(r, e.value, x) {
      FlattenKeepsMeaning(r, e.value, x);
    }
    SameSeen(r, e.value, Flatten(e.value));
  }

  lemma SameSeen(r: Reading, v: Json, w: Json)
    requires IsSchema(v) && IsSchema(w) && forall x :: Accepts(r, w, x) <==> Accepts(r, v, x)
    ensures SeenAs(r, v) == SeenAs(r, w)
  {
    hide Accepts;
    assert (iset x | Accepts(r, v, x)) == (iset x | Accepts(r, w, x));
  }

  lemma {:induction false} ConditionKeepsMeaning(
    r: Reading, entries: seq<Entry>, flat: seq<Entry>, e: Entry, inst: Json)
    requires e in Spread(entries) && Flat(e) in flat && Mirrors(flat, Spread(entries))
    requires forall w :: w in Spread(entries) ==> CleanEntry(w)
    requires KindOf(e.key, e.value) in {Then, Else}
    ensures Holds(r, flat, Flat(e), inst) <==> Holds(r, Spread(entries), e, inst)
    decreases entries, 0
  {
    hide KindOf, Spread, Mirrors, Accepts, Flatten, Final, Clean, CleanEntry;
    KindIsKept(e);
    CleanValue(e);
    FlattenKeepsMeaning(r, e.value, inst);
    var condition := Final(Spread(entries), "if");
    MirrorsAt(flat, Spread(entries), "if");
    if condition.Some? {
      IfKind(condition.value);
      CleanValue(Entry("if", condition.value));
      FlattenKeepsMeaning(r, condition.value, inst);
    }
  }

  lemma CleanValue(e: Entry)
    requires CleanEntry(e)
    requires KindOf(e.key, e.value) in {Not, If, Then, Else, Items, AdditionalItems, AdditionalProperties, One}
    ensures Clean(e.value) && IsSchema(e.value)
  {
  }

  lemma IfKind(value: Json)
    ensures KindOf("if", value) == If
  {
  }

  /** Names and lengths are kept by flattening, so what keywords see of them is. */
  lemma SameNames(flat: seq<Entry>, own: seq<Entry>)
    requires Mirrors(flat, own) && forall w :: w in own ==> CleanEntry(w)
    ensures NamesUnder(flat, "properties") == NamesUnder(own, "properties")
    ensures NamesUnder(flat, "patternProperties") == NamesUnder(own, "patternProperties")
    ensures TupleLength(flat) == TupleLength(own)
    ensures forall matches, name :: IsAdditional(matches, flat, name) == IsAdditional(matches, own, name)
  {
    forall key | key in {"properties", "patternProperties"} ensures NamesUnder(flat, key) == NamesUnder(own, key) {
      var value := Final(own, key);
      if value.Some? && value.value.Obj? {
        assert CleanEntry(Entry(key, value.value));
        CleanNames(key, value.value.entries);
      }
    }
  }

  lemma CleanNames(key: string, properties: seq<Entry>)
    requires key in {"properties", "patternProperties"} && CleanEntry(Entry(key, Obj(properties)))
    ensures (set e | e in FlattenEntries(properties) :: e.key) == (set e | e in properties :: e.key)
  {
    assert KindOf(key, Obj(properties)) in {Properties, Patterns};
    hide KindOf, Flatten, FlattenEntries;
    forall p | p in properties ensures !IsWrapper(p.key, p.value) {
      assert CleanProperty(p) && Clean(p.value);
    }
    NamesAreKept(properties);
  }

  lemma FixedKeepsMeaning(r: Reading, own: seq<Entry>, flat: seq<Entry>, e: Entry, inst: Json)
    requires e in own && Flat(e) in flat
    requires KindOf(e.key, e.value) in {If, Data} && CleanEntry(e)
    ensures Holds(r, flat, Flat(e), inst) <==> Holds(r, own, e, inst)
  {
    KindIsKept(e);
    hide KindOf;
  }

  lemma {:induction false} ListKeepsMeaning(r: Reading, own: seq<Entry>, flat: seq<Entry>, e: Entry, inst: Json)
    requires e in own && Flat(e) in flat
    requires KindOf(e.key, e.value) in {AllOf, AnyOf, OneOf, Tuple} && CleanEntry(e)
    ensures Holds(r, flat, Flat(e), inst) <==> Holds(r, own, e, inst)
    decreases e, 0
  {
    KindIsKept(e);
    hide KindOf;
    assert Flat(e).value == Arr(FlattenItems(e.value.items));
    if KindOf(e.key, e.value) == Tuple {
      TupleKeepsMeaning(r, e.value.items, inst);
    } else {
      ItemsKeepMeaning(r, e.value.items, inst);
    }
  }

  lemma {:induction false} ItemsKeepMeaning(r: Reading, items: seq<Json>, inst: Json)
    requires forall s :: s in items ==> Clean(s)
    ensures var flat := FlattenItems(items);
            && HowMany(r, items, inst) == HowMany(r, flat, inst)
            && ((forall s :: s in items ==> Accepts(r, s, inst)) <==> (forall s :: s in flat ==> Accepts(r, s, inst)))
            && ((exists s :: s in items && Accepts(r, s, inst)) <==> (exists s :: s in flat && Accepts(r, s, inst)))
    decreases items, 0
  {
    forall i | 0 <= i < |items| ensures Accepts(r, FlattenItems(items)[i], inst) <==> Accepts(r, items[i], inst) {
      assert items[i] in items;
      FlattenKeepsMeaning(r, items[i], inst);
    }
    SameCount(r, items, FlattenItems(items), inst);
    SameQuantifiers(r, items, FlattenItems(items), inst);
  }

  lemma {:induction false} SameCount(r: Reading, a: seq<Json>, b: seq<Json>, inst: Json)
    requires |a| == |b|
    requires forall i :: 0 <= i < |a| ==> (Accepts(r, b[i], inst) <==> Accepts(r, a[i], inst))
    ensures HowMany(r, a, inst) == HowMany(r, b, inst)
  {
    if a != [] {
      SameCount(r, a[..|a| - 1], b[..|b| - 1], inst);
    }
  }

  lemma SameQuantifiers(r: Reading, a: seq<Json>, b: seq<Json>, inst: Json)
    requires |a| == |b|
    requires forall i :: 0 <= i < |a| ==> (Accepts(r, b[i], inst) <==> Accepts(r, a[i], inst))
    ensures (forall s :: s in a ==> Accepts(r, s, inst)) <==> (forall s :: s in b ==> Accepts(r, s, inst))
    ensures (exists s :: s in a && Accepts(r, s, inst)) <==> (exists s :: s in b && Accepts(r, s, inst))
  {
    hide Accepts;
    forall i | 0 <= i < |a| ensures a[i] in a && b[i] in b {
    }
  }

  lemma {:induction false} TupleKeepsMeaning(r: Reading, items: seq<Json>, inst: Json)
    requires forall s :: s in items ==> Clean(s)
    ensures inst.Arr? ==> EachHolds(r, FlattenItems(items), inst.items) == EachHolds(r, items, inst.items)
    decreases items, 0
  {
    if inst.Arr? {
      forall i | 0 <= i < |items| && i < |inst.items|
        ensures Accepts(r, FlattenItems(items)[i], inst.items[i]) <==> Accepts(r, items[i], inst.items[i])
      {
        assert items[i] in items;
        FlattenKeepsMeaning(r, items[i], inst.items[i]);
      }
    }
  }

  lemma {:induction false} PropertiesKeepMeaning(r: Reading, own: seq<Entry>, flat: seq<Entry>, e: Entry, inst: Json)
    requires e in own && Flat(e) in flat
    requires KindOf(e.key, e.value) in {Properties, Patterns} && CleanEntry(e)
    ensures Holds(r, flat, Flat(e), inst) <==> Holds(r, own, e, inst)
    decreases e, 0
  {
    KindIsKept(e);
    hide KindOf;
    var properties := e.value.entries;
    forall p | p in properties ensures !IsWrapper(p.key, p.value) {
      assert CleanProperty(p) && Clean(p.value);
    }
    FlattenedProperties(properties);
    assert Flat(e).value == Obj(FlattenEntries(properties));
    if inst.Obj? {
      forall p | p in properties
        ensures PropertyHolds(r, Flat(p), inst) <==> PropertyHolds(r, p, inst)
        ensures PatternHolds(r, Flat(p), inst) <==> PatternHolds(r, p, inst)
      {
        PropertyKeepsMeaning(r, p, inst);
      }
      hide PropertyHolds, PatternHolds, CleanProperty, FlattenEntries;
      assert forall p :: p in properties ==> Flat(p) in FlattenEntries(properties);
    }
  }

  lemma {:induction false} PropertyKeepsMeaning(r: Reading, p: Entry, inst: Json)
    requires inst.Obj? && CleanProperty(p)
    ensures PropertyHolds(r, Flat(p), inst) <==> PropertyHolds(r, p, inst)
    ensures PatternHolds(r, Flat(p), inst) <==> PatternHolds(r, p, inst)
    decreases p, 0
  {
    forall x ensures Accepts(r, Flatten(p.value), x) <==> Accepts(r, p.value, x) {
      FlattenKeepsMeaning(r, p.value, x);
    }
  }

  lemma {:induction false} NamedKeepsMeaning(r: Reading, own: seq<Entry>, flat: seq<Entry>, e: Entry, inst: Json)
    requires e in own && Flat(e) in flat
    requires KindOf(e.key, e.value) == Named && CleanEntry(e)
    ensures Holds(r, flat, Flat(e), inst) <==> Holds(r, own, e, inst)
    decreases e, 0
  {
    KindIsKept(e);
    hide KindOf;
    var properties := e.value.entries;
    forall p | p in properties ensures !IsWrapper(p.key, p.value) && SeenPair(r, Flat(p)) == SeenPair(r, p) {
      NameKeepsMeaning(r, p);
    }
    FlattenedProperties(properties);
    assert Flat(e).value == Obj(FlattenEntries(properties));
    NamesKeepMeaning(r, properties, FlattenEntries(properties));
  }

  lemma {:induction false} NameKeepsMeaning(r: Reading, p: Entry)
    requires CleanNamed(p)
    ensures !IsWrapper(p.key, p.value) && SeenPair(r, Flat(p)) == SeenPair(r, p)
    decreases p, 0
  {
    if IsSchema(p.value) {
      forall x ensures Accepts(r, Flatten(p.value), x) <==> Accepts(r, p.value, x) {
        FlattenKeepsMeaning(r, p.value, x);
      }
      SameSeen(r, p.value, Flatten(p.value));
    }
  }

  lemma NamesKeepMeaning(r: Reading, properties: seq<Entry>, flat: seq<Entry>)
    requires forall c :: c in flat <==> exists p :: p in properties && c == Flat(p)
    requires forall p :: p in properties ==> SeenPair(r, Flat(p)) == SeenPair(r, p)
    ensures SeenUnder(r, flat) == SeenUnder(r, properties)
  {
    hide SeenPair, Flat;
    forall p | p in properties ensures SeenPair(r, p) in SeenUnder(r, flat) {
      assert Flat(p) in flat;
    }
  }
}
