/**
 Flattening single-element `allOf` wrappers in a JSON schema. The keyword is
 that of section 6.7.1 of draft-handrews-json-schema-validation-01.
 */
module SchemaFlatten {
  import opened Prelude

  /** A JSON value; the entries of an object are kept in order. */
  datatype Json =
    | Null
    | Bool(b: bool)
    | Num(n: real)
    | Str(s: string)
    | Arr(items: seq<Json>)
    | Obj(entries: seq<Entry>)

  datatype Entry = Entry(key: string, value: Json)

  /** `typeof x === "object" && x !== null`. */
  predicate IsObject(j: Json) {
    j.Arr? || j.Obj?
  }

  /** An `allOf` with one element that is an object. */
  predicate IsWrapper(k: string, v: Json) {
    k == "allOf" && v.Arr? && |v.items| == 1 && IsObject(v.items[0])
  }

  /** `result[k] = v`: in place if the key is there, at the end otherwise. */
  function Set(entries: seq<Entry>, k: string, v: Json): seq<Entry> {
    if entries == [] then [Entry(k, v)]
    else if entries[0].key == k then [Entry(k, v)] + entries[1..]
    else [entries[0]] + Set(entries[1..], k, v)
  }

  /** `Object.assign(result, source)`. */
  function SetAll(entries: seq<Entry>, source: seq<Entry>): seq<Entry> {
    if source == [] then entries
    else Set(SetAll(entries, source[..|source| - 1]), source[|source| - 1].key, source[|source| - 1].value)
  }

  function Digits(n: nat): string {
    var d := [('0' as int + n % 10) as char];
    if n < 10 then d else Digits(n / 10) + d
  }

  /** The own entries of an object; those of an array are under its indices. */
  function OwnEntries(j: Json): seq<Entry>
    requires IsObject(j)
  {
    match j
    case Obj(entries) => entries
    case Arr(items) => seq(|items|, i requires 0 <= i < |items| => Entry(Digits(i), items[i]))
  }

  function Flatten(j: Json): (r: Json)
    ensures r.Obj? == j.Obj? && r.Arr? == j.Arr?
    ensures r.Arr? ==> |r.items| == |j.items|
    ensures !IsObject(j) ==> r == j
    decreases j, 0
  {
    match j
    case Arr(items) => Arr(FlattenItems(items))
    case Obj(entries) => Obj(FlattenEntries(entries))
    case _ => j
  }

  function FlattenItems(items: seq<Json>): (r: seq<Json>)
    ensures |r| == |items|
    ensures forall i :: 0 <= i < |items| ==> r[i] == Flatten(items[i])
    decreases items, 1
  {
    if items == [] then []
    else FlattenItems(items[..|items| - 1]) + [Flatten(items[|items| - 1])]
  }

  function FlattenEntries(entries: seq<Entry>): seq<Entry>
    decreases entries, 1
  {
    if entries == [] then []
    else SetAll(FlattenEntries(entries[..|entries| - 1]), Contribution(entries[|entries| - 1]))
  }

  /** What one entry sets in the result: a wrapper's content, or the entry with its value flattened. */
  function Contribution(e: Entry): seq<Entry>
    decreases e, 2
  {
    if IsWrapper(e.key, e.value) then OwnEntries(Flatten(e.value.items[0]))
    else [Entry(e.key, Flatten(e.value))]
  }

  /** The function as written, with its loops. */
  method FlattenAllOf(j: Json) returns (r: Json)
    ensures r == Flatten(j)
    decreases j
  {
    match j
    case Arr(items) =>
      var mapped: seq<Json> := [];
      for i := 0 to |items|
        invariant mapped == FlattenItems(items[..i])
      {
        assert items[..i + 1][..i] == items[..i];
        var item := FlattenAllOf(items[i]);
        mapped := mapped + [item];
      }
      assert items[..|items|] == items;
      r := Arr(mapped);
    case Obj(entries) =>
      var result: seq<Entry> := [];
      for i := 0 to |entries|
        invariant result == FlattenEntries(entries[..i])
      {
        assert entries[..i + 1][..i] == entries[..i];
        result := FlattenEntry(result, entries[i]);
      }
      assert entries[..|entries|] == entries;
      r := Obj(result);
    case _ =>
      r := j;
  }

  method FlattenEntry(before: seq<Entry>, e: Entry) returns (result: seq<Entry>)
    ensures result == SetAll(before, Contribution(e))
    decreases e
  {
    if IsWrapper(e.key, e.value) {
      var inner := FlattenAllOf(e.value.items[0]);
      result := SetAll(before, OwnEntries(inner));
    } else {
      var value := FlattenAllOf(e.value);
      result := Set(before, e.key, value);
      SetAllOne(before, Entry(e.key, value));
    }
  }

  // -- No wrapper is left -------------------------------------------------

  /** Anywhere in the value, no `allOf` has a single object element. */
  predicate WrapperFree(j: Json) {
    match j
    case Arr(items) => forall x :: x in items ==> WrapperFree(x)
    case Obj(entries) => forall e :: e in entries ==> !IsWrapper(e.key, e.value) && WrapperFree(e.value)
    case _ => true
  }

  ghost predicate WrapperFreeEntries(entries: seq<Entry>) {
    forall e :: e in entries ==> !IsWrapper(e.key, e.value) && WrapperFree(e.value)
  }

  lemma {:induction false} SetEntries(entries: seq<Entry>, k: string, v: Json)
    ensures Entry(k, v) in Set(entries, k, v)
    ensures forall e :: e in Set(entries, k, v) ==> e in entries || e == Entry(k, v)
    ensures forall e :: e in entries && e.key != k ==> e in Set(entries, k, v)
  {
    if entries != [] && entries[0].key != k {
      SetEntries(entries[1..], k, v);
    }
  }

  lemma SetAllOne(entries: seq<Entry>, e: Entry)
    ensures SetAll(entries, [e]) == Set(entries, e.key, e.value)
  {
    assert [e][..0] == [];
  }

  lemma {:induction false} SetAllEntries(entries: seq<Entry>, source: seq<Entry>)
    ensures forall e :: e in SetAll(entries, source) ==> e in entries || e in source
  {
    if source != [] {
      var last := |source| - 1;
      SetAllEntries(entries, source[..last]);
      SetEntries(SetAll(entries, source[..last]), source[last].key, source[last].value);
    }
  }

  lemma DigitsFirst(n: nat)
    ensures Digits(n) != "" && '0' <= Digits(n)[0] <= '9'
  {
  }

  lemma OwnEntriesWrapperFree(j: Json)
    requires IsObject(j) && WrapperFree(j)
    ensures WrapperFreeEntries(OwnEntries(j))
  {
    if j.Arr? {
      forall e | e in OwnEntries(j) ensures !IsWrapper(e.key, e.value) && WrapperFree(e.value) {
        var i :| 0 <= i < |j.items| && e == Entry(Digits(i), j.items[i]);
        DigitsFirst(i);
        assert j.items[i] in j.items;
        assert "allOf"[0] == 'a';
      }
    }
  }

  /** Whatever the input, the result holds no wrapper anywhere. */
  lemma {:induction false} FlattenLeavesNoWrapper(j: Json)
    ensures WrapperFree(Flatten(j))
    decreases j, 0
  {
    match j
    case Arr(items) =>
      forall x | x in FlattenItems(items) ensures WrapperFree(x) {
        var i :| 0 <= i < |items| && x == FlattenItems(items)[i];
        FlattenLeavesNoWrapper(items[i]);
      }
    case Obj(entries) => FlattenEntriesLeavesNoWrapper(entries);
    case _ =>
  }

  lemma {:induction false} FlattenEntriesLeavesNoWrapper(entries: seq<Entry>)
    ensures WrapperFreeEntries(FlattenEntries(entries))
    decreases entries, 1
  {
    if entries != [] {
      var last := |entries| - 1;
      FlattenEntriesLeavesNoWrapper(entries[..last]);
      ContributionLeavesNoWrapper(entries[last]);
      SetAllEntries(FlattenEntries(entries[..last]), Contribution(entries[last]));
    }
  }

  lemma {:induction false} ContributionLeavesNoWrapper(e: Entry)
    ensures WrapperFreeEntries(Contribution(e))
    decreases e, 2
  {
    if IsWrapper(e.key, e.value) {
      FlattenLeavesNoWrapper(e.value.items[0]);
      OwnEntriesWrapperFree(Flatten(e.value.items[0]));
    } else {
      FlattenLeavesNoWrapper(e.value);
    }
  }

  // -- Flattening twice ---------------------------------------------------

  ghost predicate UniqueKeys(entries: seq<Entry>) {
    forall i, j :: 0 <= i < j < |entries| ==> entries[i].key != entries[j].key
  }

  /** Every object in the value has distinct keys, as any JSON object does. */
  ghost predicate WellFormed(j: Json) {
    match j
    case Arr(items) => forall x :: x in items ==> WellFormed(x)
    case Obj(entries) => UniqueKeys(entries) && forall e :: e in entries ==> WellFormed(e.value)
    case _ => true
  }

  ghost predicate WellFormedEntries(entries: seq<Entry>) {
    UniqueKeys(entries) && forall e :: e in entries ==> WellFormed(e.value)
  }

  lemma {:induction false} SetUnique(entries: seq<Entry>, k: string, v: Json)
    requires UniqueKeys(entries)
    ensures UniqueKeys(Set(entries, k, v))
  {
    if entries != [] && entries[0].key != k {
      var rest := Set(entries[1..], k, v);
      SetUnique(entries[1..], k, v);
      SetEntries(entries[1..], k, v);
      forall i | 0 <= i < |rest| ensures rest[i].key != entries[0].key {
        assert rest[i] in rest;
      }
    }
  }

  lemma {:induction false} SetAllUnique(entries: seq<Entry>, source: seq<Entry>)
    requires UniqueKeys(entries)
    ensures UniqueKeys(SetAll(entries, source))
  {
    if source != [] {
      var last := |source| - 1;
      SetAllUnique(entries, source[..last]);
      SetUnique(SetAll(entries, source[..last]), source[last].key, source[last].value);
    }
  }

  lemma {:induction false} FlattenWellFormed(j: Json)
    ensures WellFormed(Flatten(j))
    decreases j, 0
  {
    match j
    case Arr(items) =>
      forall x | x in FlattenItems(items) ensures WellFormed(x) {
        var i :| 0 <= i < |items| && x == FlattenItems(items)[i];
        FlattenWellFormed(items[i]);
      }
    case Obj(entries) => FlattenEntriesWellFormed(entries);
    case _ =>
  }

  lemma {:induction false} FlattenEntriesWellFormed(entries: seq<Entry>)
    ensures WellFormedEntries(FlattenEntries(entries))
    decreases entries, 1
  {
    if entries != [] {
      var last := |entries| - 1;
      var before, more := FlattenEntries(entries[..last]), Contribution(entries[last]);
      FlattenEntriesWellFormed(entries[..last]);
      ContributionWellFormed(entries[last]);
      SetAllEntries(before, more);
      SetAllUnique(before, more);
    }
  }

  lemma {:induction false} ContributionWellFormed(e: Entry)
    ensures forall c :: c in Contribution(e) ==> WellFormed(c.value)
    decreases e, 2
  {
    if IsWrapper(e.key, e.value) {
      FlattenWellFormed(e.value.items[0]);
    } else {
      FlattenWellFormed(e.value);
    }
  }

  lemma {:induction false} SetNewKey(entries: seq<Entry>, k: string, v: Json)
    requires forall e :: e in entries ==> e.key != k
    ensures Set(entries, k, v) == entries + [Entry(k, v)]
  {
    if entries != [] {
      assert entries[0] in entries;
      SetNewKey(entries[1..], k, v);
    }
  }

  lemma {:induction false} WrapperFreeIsFixed(j: Json)
    requires WellFormed(j) && WrapperFree(j)
    ensures Flatten(j) == j
    decreases j, 0
  {
    match j
    case Arr(items) =>
      forall i | 0 <= i < |items| ensures FlattenItems(items)[i] == items[i] {
        assert items[i] in items;
        WrapperFreeIsFixed(items[i]);
      }
      assert FlattenItems(items) == items;
    case Obj(entries) => WrapperFreeEntriesAreFixed(entries);
    case _ =>
  }

  lemma {:induction false} WrapperFreeEntriesAreFixed(entries: seq<Entry>)
    requires WellFormedEntries(entries) && WrapperFreeEntries(entries)
    ensures FlattenEntries(entries) == entries
    decreases entries, 1
  {
    if entries != [] {
      var last := |entries| - 1;
      assert entries[last] in entries;
      WrapperFreeEntriesAreFixed(entries[..last]);
      ContributionIsFixed(entries[last]);
      SetNewKey(entries[..last], entries[last].key, entries[last].value);
      SetAllOne(entries[..last], entries[last]);
    }
  }

  lemma {:induction false} ContributionIsFixed(e: Entry)
    requires WellFormed(e.value) && WrapperFree(e.value) && !IsWrapper(e.key, e.value)
    ensures Contribution(e) == [e]
    decreases e, 2
  {
    WrapperFreeIsFixed(e.value);
  }

  lemma FlattenIdempotent(j: Json)
    ensures Flatten(Flatten(j)) == Flatten(j)
  {
    FlattenLeavesNoWrapper(j);
    FlattenWellFormed(j);
    WrapperFreeIsFixed(Flatten(j));
  }

  // -- What is opened, written out ---------------------------------------

  /** The entry occurs in some object of the value. */
  ghost predicate Within(e: Entry, j: Json) {
    match j
    case Arr(items) => exists x :: x in items && Within(e, x)
    case Obj(entries) => e in entries || exists f :: f in entries && Within(e, f.value)
    case _ => false
  }

  lemma {:induction false} WrapperFreeWithin(e: Entry, j: Json)
    requires WrapperFree(j) && Within(e, j)
    ensures !IsWrapper(e.key, e.value)
  {
    match j
    case Arr(items) =>
      var x :| x in items && Within(e, x);
      WrapperFreeWithin(e, x);
    case Obj(entries) =>
      if e !in entries {
        var f :| f in entries && Within(e, f.value);
        WrapperFreeWithin(e, f.value);
      }
  }

  /** No object anywhere in the result has an `allOf` array of one element that is an object or an array. */
  lemma NoSingleAllOf(j: Json, e: Entry)
    requires Within(e, Flatten(j)) && e.key == "allOf"
    ensures match e.value
            case Arr(items) => |items| == 1 ==> !items[0].Obj? && !items[0].Arr?
            case _ => true
  {
    FlattenLeavesNoWrapper(j);
    WrapperFreeWithin(e, Flatten(j));
  }

  lemma FlattenOne(e: Entry)
    ensures FlattenEntries([e]) == SetAll([], Contribution(e))
  {
    assert [e][..0] == [];
  }

  /** A single object in an `allOf` takes its place. */
  lemma SingleAllOfIsOpened(entries: seq<Entry>)
    ensures Flatten(Obj([Entry("allOf", Arr([Obj(entries)]))])) == Flatten(Obj(entries))
  {
    var wrapper := Entry("allOf", Arr([Obj(entries)]));
    FlattenOne(wrapper);
    assert Contribution(wrapper) == FlattenEntries(entries);
    FlattenEntriesWellFormed(entries);
    SetAllOfUnique(FlattenEntries(entries));
  }

  /** A single array does so with its indices for keys. */
  lemma SingleArrayIsOpened(items: seq<Json>)
    ensures var r := Flatten(Obj([Entry("allOf", Arr([Arr(items)]))]));
            && |r.entries| == |items|
            && forall i :: 0 <= i < |items| ==> Number(r.entries[i].key) == i && r.entries[i].value == Flatten(items[i])
  {
    var wrapper := Entry("allOf", Arr([Arr(items)]));
    var own := OwnEntries(Arr(FlattenItems(items)));
    FlattenOne(wrapper);
    assert Contribution(wrapper) == own;
    OwnOfArray(FlattenItems(items));
    SetAllOfUnique(own);
    assert Flatten(Obj([wrapper])) == Obj(own);
    hide *;
  }

  lemma OwnOfArray(items: seq<Json>)
    ensures var own := OwnEntries(Arr(items));
            && |own| == |items| && UniqueKeys(own)
            && forall i :: 0 <= i < |items| ==> Number(own[i].key) == i && own[i].value == items[i]
  {
    var own := OwnEntries(Arr(items));
    hide Digits, Number;
    forall i | 0 <= i < |items| ensures Number(own[i].key) == i {
      DigitsAreDecimal(i);
    }
    assert forall i, j :: 0 <= i < j < |own| ==> Number(own[i].key) != Number(own[j].key);
  }

  lemma {:induction false} SetAllOfUnique(entries: seq<Entry>)
    requires UniqueKeys(entries)
    ensures SetAll([], entries) == entries
  {
    if entries != [] {
      var last := |entries| - 1;
      SetAllOfUnique(entries[..last]);
      SetNewKey(entries[..last], entries[last].key, entries[last].value);
    }
  }

  /** Reading decimal digits from left to right. */
  function Number(s: string): int {
    if s == "" then 0 else 10 * Number(s[..|s| - 1]) + (s[|s| - 1] as int - '0' as int)
  }

  /** The digits are those of the decimal numeral, without a leading zero. */
  lemma {:induction false} DigitsAreDecimal(n: nat)
    ensures Number(Digits(n)) == n
    ensures forall i :: 0 <= i < |Digits(n)| ==> '0' <= Digits(n)[i] <= '9'
    ensures Digits(n) != "" && (Digits(n)[0] == '0' ==> n == 0)
  {
    var d := [('0' as int + n % 10) as char];
    if n >= 10 {
      DigitsAreDecimal(n / 10);
      assert (Digits(n / 10) + d)[..|Digits(n / 10)|] == Digits(n / 10);
    } else {
      assert d[..0] == "";
    }
  }

  /** Nothing else is opened: an `allOf` of none or several, of what is no object, and every other key stays. */
  lemma OthersStayClosed(e: Entry)
    requires e.key != "allOf" || !e.value.Arr? || |e.value.items| != 1
             || !(e.value.items[0].Obj? || e.value.items[0].Arr?)
    ensures Flatten(Obj([e])) == Obj([Entry(e.key, Flatten(e.value))])
  {
    FlattenOne(e);
    SetAllOne([], Entry(e.key, Flatten(e.value)));
  }

  /** An object is flattened entry by entry, the later entry deciding on a key that several set. */
  lemma {:induction false} EntryByEntry(a: seq<Entry>, b: seq<Entry>, key: string)
    ensures var (x, y) := (Flatten(Obj(a)).entries, Flatten(Obj(b)).entries);
            Lookup(Flatten(Obj(a + b)).entries, key)
            == if Lookup(y, key).Some? then Lookup(y, key) else Lookup(x, key)
  {
    if b == [] {
      assert a + b == a;
    } else {
      var init, last := b[..|b| - 1], b[|b| - 1];
      assert (a + b)[..|a + b| - 1] == a + init;
      EntryByEntry(a, init, key);
      SetAllLookup(FlattenEntries(a + init), Contribution(last), key);
      SetAllLookup(FlattenEntries(init), Contribution(last), key);
    }
  }

  /** Setting a key moves no other, and keeps its own place if it had one. */
  lemma {:induction false} SetKeepsPlaces(entries: seq<Entry>, k: string, v: Json)
    ensures var r := Set(entries, k, v);
            && |r| == (if Lookup(entries, k).Some? then |entries| else |entries| + 1)
            && forall i :: 0 <= i < |entries| ==> r[i].key == entries[i].key && (r[i].key != k ==> r[i] == entries[i])
  {
    if entries != [] && entries[0].key != k {
      SetKeepsPlaces(entries[1..], k, v);
    }
  }

  // -- Which entries stay -------------------------------------------------

  function Lookup(entries: seq<Entry>, key: string): Option<Json> {
    if entries == [] then None
    else if entries[0].key == key then Some(entries[0].value)
    else Lookup(entries[1..], key)
  }

  /** The value that stays for a key: the last one set. */
  function Final(entries: seq<Entry>, key: string): (r: Option<Json>)
    ensures r.Some? ==> Entry(key, r.value) in entries
  {
    if entries == [] then None
    else if entries[|entries| - 1].key == key then Some(entries[|entries| - 1].value)
    else Final(entries[..|entries| - 1], key)
  }

  predicate WrapsObject(e: Entry) {
    IsWrapper(e.key, e.value) && e.value.items[0].Obj?
  }

  /** The entries in the order in which they are set, with the wrappers around objects opened, at any depth. */
  function Spread(entries: seq<Entry>): (r: seq<Entry>)
    ensures forall w :: w in r ==> !WrapsObject(w) && (entries decreases to w)
    decreases entries, 1
  {
    if entries == [] then []
    else Spread(entries[..|entries| - 1]) + SpreadEntry(entries[|entries| - 1])
  }

  function SpreadEntry(e: Entry): (r: seq<Entry>)
    ensures forall w :: w in r ==> !WrapsObject(w) && (w == e || (e decreases to w))
    decreases e, 2
  {
    if WrapsObject(e) then Spread(e.value.items[0].entries) else [e]
  }

  lemma {:induction false} SpreadSplit(entries: seq<Entry>, w: Entry)
    ensures w in Spread(entries) <==> exists e :: e in entries && w in SpreadEntry(e)
  {
    if entries != [] {
      var init, last := entries[..|entries| - 1], entries[|entries| - 1];
      hide SpreadEntry;
      SpreadSplit(init, w);
      assert last in entries && entries == init + [last];
      if e :| e in entries && w in SpreadEntry(e) {
        assert e in init || e == last;
      }
    }
  }

  lemma {:induction false} NothingToOpen(entries: seq<Entry>)
    requires forall e :: e in entries ==> !WrapsObject(e)
    ensures Spread(entries) == entries
  {
    if entries != [] {
      var last := |entries| - 1;
      assert entries[last] in entries && SpreadEntry(entries[last]) == [entries[last]];
      assert entries == entries[..last] + [entries[last]];
      hide WrapsObject, SpreadEntry;
      NothingToOpen(entries[..last]);
    }
  }

  predicate Stays(entries: seq<Entry>, e: Entry) {
    Final(entries, e.key) == Some(e.value)
  }

  function Flat(e: Entry): Entry {
    Entry(e.key, Flatten(e.value))
  }

  lemma {:induction false} SetLookup(entries: seq<Entry>, k: string, v: Json, key: string)
    ensures Lookup(Set(entries, k, v), key) == if key == k then Some(v) else Lookup(entries, key)
  {
    if entries != [] && entries[0].key != k {
      SetLookup(entries[1..], k, v, key);
    }
  }

  lemma {:induction false} SetAllLookup(entries: seq<Entry>, source: seq<Entry>, key: string)
    ensures Lookup(SetAll(entries, source), key)
            == if Final(source, key).Some? then Final(source, key) else Lookup(entries, key)
  {
    if source != [] {
      var last := |source| - 1;
      SetAllLookup(entries, source[..last], key);
      SetLookup(SetAll(entries, source[..last]), source[last].key, source[last].value, key);
    }
  }

  lemma {:induction false} FinalOfConcat(a: seq<Entry>, b: seq<Entry>, key: string)
    ensures Final(a + b, key) == if Final(b, key).Some? then Final(b, key) else Final(a, key)
  {
    if b == [] {
      assert a + b == a;
    } else {
      assert (a + b)[..|a + b| - 1] == a + b[..|b| - 1];
      FinalOfConcat(a, b[..|b| - 1], key);
    }
  }

  lemma {:induction false} FinalOccurs(entries: seq<Entry>, key: string)
    ensures Final(entries, key).Some? ==> Entry(key, Final(entries, key).value) in entries
    ensures forall e :: e in entries && e.key == key ==> Final(entries, key).Some?
  {
    if entries != [] {
      var last := |entries| - 1;
      FinalOccurs(entries[..last], key);
      assert forall e :: e in entries ==> e == entries[last] || e in entries[..last];
    }
  }

  lemma {:induction false} LookupOccurs(entries: seq<Entry>, key: string)
    ensures Lookup(entries, key).Some? ==> Entry(key, Lookup(entries, key).value) in entries
    ensures forall e :: e in entries && e.key == key ==> Lookup(entries, key).Some?
  {
    if entries != [] {
      LookupOccurs(entries[1..], key);
    }
  }

  lemma UniqueFinal(entries: seq<Entry>, key: string)
    requires UniqueKeys(entries)
    ensures Final(entries, key) == Lookup(entries, key)
    ensures forall e :: e in entries && e.key == key ==> Lookup(entries, key) == Some(e.value)
  {
    FinalOccurs(entries, key);
    LookupOccurs(entries, key);
  }

  /** Under each key the result holds the flattened value of the entry that stays. */
  lemma {:induction false} FlattenedLookup(entries: seq<Entry>, key: string)
    requires forall w :: w in Spread(entries) ==> !IsWrapper(w.key, w.value)
    ensures var final := Final(Spread(entries), key);
            Lookup(FlattenEntries(entries), key) == if final.Some? then Some(Flatten(final.value)) else None
    decreases entries, 1
  {
    if entries != [] {
      var last := |entries| - 1;
      FlattenedLookup(entries[..last], key);
      ContributedFinal(entries[last], key);
      SetAllLookup(FlattenEntries(entries[..last]), Contribution(entries[last]), key);
      FinalOfConcat(Spread(entries[..last]), SpreadEntry(entries[last]), key);
    }
  }

  lemma {:induction false} ContributedFinal(e: Entry, key: string)
    requires forall w :: w in SpreadEntry(e) ==> !IsWrapper(w.key, w.value)
    ensures var final := Final(SpreadEntry(e), key);
            Final(Contribution(e), key) == if final.Some? then Some(Flatten(final.value)) else None
    decreases e, 2
  {
    if WrapsObject(e) {
      var inner := e.value.items[0].entries;
      FlattenedLookup(inner, key);
      FlattenEntriesWellFormed(inner);
      UniqueFinal(FlattenEntries(inner), key);
    } else {
      assert e in SpreadEntry(e);
    }
  }

  /** So the result consists of the entries that stay, flattened. */
  lemma FlattenedEntries(entries: seq<Entry>)
    requires forall w :: w in Spread(entries) ==> !IsWrapper(w.key, w.value)
    ensures forall c :: c in FlattenEntries(entries) <==>
              exists w :: w in Spread(entries) && Stays(Spread(entries), w) && c == Flat(w)
  {
    var spread, flat := Spread(entries), FlattenEntries(entries);
    hide Spread, FlattenEntries, Flatten, Final, Lookup, IsWrapper;
    FlattenEntriesWellFormed(entries);
    forall c ensures c in flat <==> exists w :: w in spread && Stays(spread, w) && c == Flat(w) {
      FlattenedLookup(entries, c.key);
      UniqueFinal(flat, c.key);
      LookupOccurs(flat, c.key);
      FinalOccurs(spread, c.key);
      if c in flat {
        var w := Entry(c.key, Final(spread, c.key).value);
        assert w in spread && Stays(spread, w) && c == Flat(w);
      }
    }
  }

  /** In the flattened object each keyword finds the flattened value of what it finds in the spread. */
  ghost predicate Mirrors(flat: seq<Entry>, own: seq<Entry>) {
    forall key :: Final(flat, key) == match Final(own, key) case Some(v) => Some(Flatten(v)) case None => None
  }

  lemma FlattenedMirrors(entries: seq<Entry>)
    requires forall w :: w in Spread(entries) ==> !IsWrapper(w.key, w.value)
    ensures Mirrors(FlattenEntries(entries), Spread(entries))
  {
    FlattenEntriesWellFormed(entries);
    hide Spread, FlattenEntries, Flatten, Final, Lookup, IsWrapper;
    forall key
      ensures Final(FlattenEntries(entries), key)
              == match Final(Spread(entries), key) case Some(v) => Some(Flatten(v)) case None => None
    {
      FlattenedLookup(entries, key);
      UniqueFinal(FlattenEntries(entries), key);
    }
  }

  lemma MirrorsAt(flat: seq<Entry>, own: seq<Entry>, key: string)
    requires Mirrors(flat, own)
    ensures Final(flat, key) == match Final(own, key) case Some(v) => Some(Flatten(v)) case None => None
  {
  }

  /** A map from names is flattened name by name: its values are no arrays, so even `allOf` is only a name there. */
  lemma FlattenedProperties(properties: seq<Entry>)
    requires UniqueKeys(properties) && forall p :: p in properties ==> !IsWrapper(p.key, p.value)
    ensures forall c :: c in FlattenEntries(properties) <==> exists p :: p in properties && c == Flat(p)
  {
    NothingToOpen(properties);
    FlattenedEntries(properties);
    forall p | p in properties ensures Stays(properties, p) {
      UniqueFinal(properties, p.key);
    }
  }

  lemma NamesAreKept(properties: seq<Entry>)
    requires UniqueKeys(properties) && forall p :: p in properties ==> !IsWrapper(p.key, p.value)
    ensures (set e | e in FlattenEntries(properties) :: e.key) == (set e | e in properties :: e.key)
  {
    FlattenedProperties(properties);
    hide FlattenEntries, Flatten, IsWrapper;
    var flat := FlattenEntries(properties);
    forall p | p in properties ensures p.key in set e | e in flat :: e.key {
      assert Flat(p) in flat;
    }
  }

  lemma OneEntry(e: Entry)
    requires !IsWrapper(e.key, e.value)
    ensures FlattenEntries([e]) == [Flat(e)]
  {
    assert [e][..0] == [];
    SetAllOne([], Flat(e));
  }
}
