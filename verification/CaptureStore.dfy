/** The bounded, latest-wins capture maps of the egress shim, and the dual-key lookup over them. */
module CaptureStore {
  import opened Prelude

  datatype Identity = Identity(
    ip: Option<string>,
    phoneId: Option<string>,
    model: Option<string>,
    carrier: Option<string>,
    tech: Option<string>)
  {
    predicate HasAnyField() {
      ip.Some? || phoneId.Some? || model.Some? || carrier.Some? || tech.Some?
    }
  }

  type Entry = (string, Identity)

  const MAX_CAPTURED: nat := 2048

  // -- The unbounded log that a capture map abbreviates -----------------

  /** The value most recently stored under `key`. */
  function LastStored(log: seq<Entry>, key: string): Option<Identity> {
    if log == [] then None
    else if log[|log| - 1].0 == key then Some(log[|log| - 1].1)
    else LastStored(log[..|log| - 1], key)
  }

  /** The distinct keys stored since `key` last was. */
  function KeysSince(log: seq<Entry>, key: string): set<string> {
    if log == [] || log[|log| - 1].0 == key then {}
    else KeysSince(log[..|log| - 1], key) + {log[|log| - 1].0}
  }

  /** `key` is among the `cap` most recently stored distinct keys. */
  predicate Retained(log: seq<Entry>, cap: nat, key: string) {
    LastStored(log, key).Some? && |KeysSince(log, key)| < cap
  }

  /** Looking `key` up in a map with room for `cap` keys. */
  function Recall(log: seq<Entry>, cap: nat, key: string): Option<Identity> {
    if Retained(log, cap, key) then LastStored(log, key) else None
  }

  // -- Ordered entries --------------------------------------------------

  function Delete(entries: seq<Entry>, key: string): seq<Entry> {
    if entries == [] then []
    else
      var init, last := entries[..|entries| - 1], entries[|entries| - 1];
      if last.0 == key then Delete(init, key) else Delete(init, key) + [last]
  }

  ghost predicate Distinct(entries: seq<Entry>) {
    forall i, j :: 0 <= i < j < |entries| ==> entries[i].0 != entries[j].0
  }

  predicate Has(entries: seq<Entry>, key: string) {
    exists i :: 0 <= i < |entries| && entries[i].0 == key
  }

  function Suffix(entries: seq<Entry>, cap: nat): seq<Entry> {
    if |entries| <= cap then entries else entries[|entries| - cap..]
  }

  /** All distinct keys ever stored, least recent first. */
  ghost function Recency(log: seq<Entry>): seq<Entry> {
    if log == [] then []
    else Delete(Recency(log[..|log| - 1]), log[|log| - 1].0) + [log[|log| - 1]]
  }

  lemma {:induction false} DeleteFacts(entries: seq<Entry>, key: string)
    requires Distinct(entries)
    ensures var d := Delete(entries, key);
            && Distinct(d) && !Has(d, key)
            && (forall k :: k != key ==> (Has(d, k) <==> Has(entries, k)))
            && |d| == |entries| - (if Has(entries, key) then 1 else 0)
            && (!Has(entries, key) ==> d == entries)
  {
    if entries != [] {
      var init, last := entries[..|entries| - 1], entries[|entries| - 1];
      DeleteFacts(init, key);
      HasSnoc(init, last);
      assert init + [last] == entries;
      var d := Delete(init, key);
      assert !Has(init, last.0);
      if last.0 != key {
        HasSnoc(d, last);
      }
    }
  }

  lemma HasSnoc(entries: seq<Entry>, e: Entry)
    ensures forall k :: Has(entries + [e], k) <==> Has(entries, k) || k == e.0
  {
    var all := entries + [e];
    assert all[|entries|] == e;
    forall k | Has(entries, k) ensures Has(all, k) {
      var i :| 0 <= i < |entries| && entries[i].0 == k;
      assert all[i].0 == k;
    }
  }

  lemma {:induction false} DeleteConcat(a: seq<Entry>, b: seq<Entry>, key: string)
    ensures Delete(a + b, key) == Delete(a, key) + Delete(b, key)
  {
    if b == [] {
      assert a + b == a;
    } else {
      var init, last := b[..|b| - 1], b[|b| - 1];
      assert (a + b)[..|a + b| - 1] == a + init;
      DeleteConcat(a, init, key);
    }
  }

  lemma {:induction false} RecencyDistinct(log: seq<Entry>)
    ensures Distinct(Recency(log))
    ensures forall k :: Has(Recency(log), k) <==> LastStored(log, k).Some?
  {
    if log != [] {
      var init, last := log[..|log| - 1], log[|log| - 1];
      RecencyDistinct(init);
      DeleteFacts(Recency(init), last.0);
      HasSnoc(Delete(Recency(init), last.0), last);
    }
  }

  // -- The bounded map keeps the most recent part -----------------------

  /** What `storeInto` makes of the entries. */
  function Stored(entries: seq<Entry>, cap: nat, e: Entry): seq<Entry> {
    var moved := Delete(entries, e.0) + [e];
    if |moved| > cap then moved[1..] else moved
  }

  lemma StoredKeepsSuffix(all: seq<Entry>, cap: nat, e: Entry)
    requires Distinct(all)
    ensures Stored(Suffix(all, cap), cap, e) == Suffix(Delete(all, e.0) + [e], cap)
  {
    var kept := Suffix(all, cap);
    var dropped := all[..|all| - |kept|];
    assert all == dropped + kept;
    StoredParts(dropped, kept, cap, e);
  }

  lemma StoredParts(dropped: seq<Entry>, kept: seq<Entry>, cap: nat, e: Entry)
    requires Distinct(dropped + kept)
    requires |kept| == cap || (dropped == [] && |kept| <= cap)
    ensures Stored(kept, cap, e) == Suffix(Delete(dropped + kept, e.0) + [e], cap)
  {
    var d, k := Delete(dropped, e.0), Delete(kept, e.0);
    hide Delete, Has, Distinct, Suffix;
    DistinctParts(dropped, kept, e.0);
    DeleteConcat(dropped, kept, e.0);
    DeleteFacts(kept, e.0);
    DeleteFacts(dropped, e.0);
    var moved := k + [e];
    assert d + k + [e] == d + moved;
    if Has(kept, e.0) {
      assert d == dropped;
      SuffixOf(d, moved, cap);
    } else if |kept| == cap {
      assert d + moved == (d + moved[..1]) + moved[1..];
      SuffixOf(d + moved[..1], moved[1..], cap);
    } else {
      assert d == dropped == [];
      SuffixOf(d, moved, cap);
    }
  }

  lemma DistinctParts(a: seq<Entry>, b: seq<Entry>, key: string)
    requires Distinct(a + b)
    ensures Distinct(a) && Distinct(b)
    ensures Has(b, key) ==> !Has(a, key)
  {
    assert forall i :: 0 <= i < |a| ==> (a + b)[i] == a[i];
    assert forall i :: 0 <= i < |b| ==> (a + b)[|a| + i] == b[i];
  }

  lemma SuffixOf(a: seq<Entry>, b: seq<Entry>, cap: nat)
    requires |b| == cap || (a == [] && |b| <= cap)
    ensures Suffix(a + b, cap) == b
  {
  }

  /** A key's distance from the end of the recency order is the number of distinct keys stored since. */
  lemma {:induction false} RecencyPosition(log: seq<Entry>, key: string) returns (i: nat)
    requires LastStored(log, key).Some?
    ensures i < |Recency(log)| && Recency(log)[i] == (key, LastStored(log, key).value)
    ensures KeysSince(log, key) == KeysFrom(Recency(log), i + 1)
  {
    hide Delete, Distinct, Has, KeysFrom;
    var init, last := log[..|log| - 1], log[|log| - 1];
    var older := Recency(init);
    RecencyDistinct(init);
    var d := Delete(older, last.0);
    assert Recency(log) == d + [last];
    if last.0 == key {
      i := |d|;
      KeysFromEnd(d + [last]);
    } else {
      var p := RecencyPosition(init, key);
      i := DeletePosition(older, p, last.0);
      KeysFromSnoc(d, last, i + 1);
    }
  }

  lemma KeysFromEnd(entries: seq<Entry>)
    ensures KeysFrom(entries, |entries|) == {}
  {
  }

  lemma KeysFromSnoc(entries: seq<Entry>, e: Entry, i: nat)
    requires i <= |entries|
    ensures KeysFrom(entries + [e], i) == KeysFrom(entries, i) + {e.0}
  {
    var all := entries + [e];
    assert all[|entries|] == e;
    forall k | k in KeysFrom(entries, i) ensures k in KeysFrom(all, i) {
      var j :| i <= j < |entries| && entries[j].0 == k;
      assert all[j].0 == k;
    }
  }

  /** Deleting another key keeps an entry, and what follows it but for that key. */
  lemma DeletePosition(entries: seq<Entry>, p: nat, key: string) returns (i: nat)
    requires Distinct(entries) && p < |entries| && entries[p].0 != key
    ensures i < |Delete(entries, key)| && Delete(entries, key)[i] == entries[p]
    ensures KeysFrom(Delete(entries, key), i + 1) + {key} == KeysFrom(entries, p + 1) + {key}
  {
    var before, e, after := entries[..p], entries[p], entries[p + 1..];
    assert entries == before + [e] + after;
    DeleteConcat(before + [e], after, key);
    assert (before + [e])[..p] == before;
    i := |Delete(before, key)|;
    DistinctParts(before + [e], after, key);
    DeleteFacts(after, key);
    assert Delete(entries, key) == Delete(before, key) + [e] + Delete(after, key);
    KeysOf(Delete(before, key) + [e], Delete(after, key));
    KeysOf(before + [e], after);
    SameKeysBut(Delete(after, key), after, key);
  }

  lemma KeysOf(a: seq<Entry>, b: seq<Entry>)
    ensures KeysFrom(a + b, |a|) == KeysFrom(b, 0)
  {
    assert (a + b)[|a|..] == b == b[0..];
    KeysAreHas(a + b, |a|);
    KeysAreHas(b, 0);
  }

  lemma SameKeysBut(a: seq<Entry>, b: seq<Entry>, key: string)
    requires forall k :: k != key ==> (Has(a, k) <==> Has(b, k))
    ensures KeysFrom(a, 0) + {key} == KeysFrom(b, 0) + {key}
  {
    assert a[0..] == a && b[0..] == b;
    KeysAreHas(a, 0);
    KeysAreHas(b, 0);
  }

  ghost function KeysFrom(entries: seq<Entry>, i: nat): set<string> {
    set j | i <= j < |entries| :: entries[j].0
  }

  lemma KeysAreHas(entries: seq<Entry>, i: nat)
    requires i <= |entries|
    ensures forall k :: k in KeysFrom(entries, i) <==> Has(entries[i..], k)
  {
    forall k ensures k in KeysFrom(entries, i) <==> Has(entries[i..], k) {
      if k in KeysFrom(entries, i) {
        var j :| i <= j < |entries| && entries[j].0 == k;
        assert entries[i..][j - i].0 == k;
      }
    }
  }

  lemma {:induction false} KeysFromSize(entries: seq<Entry>, i: nat)
    requires Distinct(entries) && i <= |entries|
    ensures |KeysFrom(entries, i)| == |entries| - i
    decreases |entries| - i
  {
    if i < |entries| {
      KeysFromSize(entries, i + 1);
      assert KeysFrom(entries, i) == {entries[i].0} + KeysFrom(entries, i + 1);
    } else {
      assert KeysFrom(entries, i) == {};
    }
  }

  /** A lookup in the most recent `cap` entries is a lookup in the log, for exactly the retained keys. */
  lemma SuffixRecalls(log: seq<Entry>, cap: nat, key: string)
    ensures Retained(log, cap, key) <==> Has(Suffix(Recency(log), cap), key)
    ensures forall i :: 0 <= i < |Suffix(Recency(log), cap)| && Suffix(Recency(log), cap)[i].0 == key ==>
              Recall(log, cap, key) == Some(Suffix(Recency(log), cap)[i].1)
  {
    hide Recency, Suffix, LastStored, KeysSince, KeysFrom, Distinct;
    var all := Recency(log);
    RecencyDistinct(log);
    if LastStored(log, key).Some? {
      var p := RecencyPosition(log, key);
      KeysFromSize(all, p + 1);
      SuffixFinds(all, cap, key, p);
    } else {
      assert !Has(all, key);
      SuffixSubset(all, cap, key);
    }
  }

  lemma SuffixSubset(all: seq<Entry>, cap: nat, key: string)
    ensures Has(Suffix(all, cap), key) ==> Has(all, key)
  {
    var kept := Suffix(all, cap);
    assert forall i :: 0 <= i < |kept| ==> kept[i] == all[|all| - |kept| + i];
  }

  lemma SuffixFinds(all: seq<Entry>, cap: nat, key: string, p: nat)
    requires Distinct(all) && p < |all| && all[p].0 == key
    ensures Has(Suffix(all, cap), key) <==> |all| - (p + 1) < cap
    ensures forall i :: 0 <= i < |Suffix(all, cap)| && Suffix(all, cap)[i].0 == key ==> Suffix(all, cap)[i] == all[p]
  {
    var kept := Suffix(all, cap);
    var skip := |all| - |kept|;
    forall i | 0 <= i < |kept| && kept[i].0 == key ensures skip + i == p {
      assert all[skip + i].0 == key;
    }
    if p >= skip {
      assert kept[p - skip].0 == key;
    }
  }

  class CaptureMap {
    const cap: nat
    var entries: seq<Entry>      // the Map, in insertion order
    ghost var log: seq<Entry>    // every store so far

    ghost predicate Valid()
      reads this
    {
      entries == Suffix(Recency(log), cap)
    }

    constructor (cap: nat)
      ensures Valid() && log == [] && this.cap == cap
    {
      this.cap := cap;
      entries, log := [], [];
    }

    method StoreInto(key: string, id: Identity)
      requires Valid()
      modifies this
      ensures Valid() && log == old(log) + [(key, id)]
      ensures |entries| <= cap
    {
      RecencyDistinct(log);
      StoredKeepsSuffix(Recency(log), cap, (key, id));
      assert (log + [(key, id)])[..|log|] == log;
      DeleteFacts(entries, key);
      if Has(entries, key) {
        entries := Delete(entries, key);
      }
      entries := entries + [(key, id)];
      if |entries| > cap {
        entries := entries[1..];
      }
      log := log + [(key, id)];
    }

    /** The map answers as the unbounded log does, for the retained keys and no others. */
    method Get(key: string) returns (r: Option<Identity>)
      requires Valid()
      ensures r == Recall(log, cap, key)
    {
      SuffixRecalls(log, cap, key);
      for i := 0 to |entries|
        invariant forall j :: 0 <= j < i ==> entries[j].0 != key
      {
        if entries[i].0 == key {
          return Some(entries[i].1);
        }
      }
      r := None;
    }
  }

  // -- The two key spaces ----------------------------------------------

  /** A CONNECT the relay answered: its status, what its head said, and the ids parsed from the request. */
  datatype Connect = Connect(status: int, identity: Identity, session: Option<string>, browser: Option<string>)

  predicate Captures(c: Connect) {
    200 <= c.status < 300 && c.identity.HasAnyField()
  }

  function SessionLog(history: seq<Connect>): seq<Entry> {
    if history == [] then []
    else
      var rest, c := SessionLog(history[..|history| - 1]), history[|history| - 1];
      if Captures(c) && c.session.Some? then rest + [(c.session.value, c.identity)] else rest
  }

  function BrowserLog(history: seq<Connect>): seq<Entry> {
    if history == [] then []
    else
      var rest, c := BrowserLog(history[..|history| - 1]), history[|history| - 1];
      if Captures(c) && c.browser.Some? then rest + [(c.browser.value, c.identity)] else rest
  }

  /** A store under a key, if there is anything to store and a key to store it under. */
  function Appended(log: seq<Entry>, store: bool, key: Option<string>, identity: Identity): (r: seq<Entry>)
    ensures store && key.Some? ==> |r| == |log| + 1 && log < r && r[|log|] == (key.value, identity)
    ensures !store || key.None? ==> r == log
  {
    if store && key.Some? then log + [(key.value, identity)] else log
  }

  lemma LogsSnoc(history: seq<Connect>, c: Connect)
    ensures SessionLog(history + [c])
            == if Captures(c) && c.session.Some? then SessionLog(history) + [(c.session.value, c.identity)]
               else SessionLog(history)
    ensures BrowserLog(history + [c])
            == if Captures(c) && c.browser.Some? then BrowserLog(history) + [(c.browser.value, c.identity)]
               else BrowserLog(history)
  {
    assert (history + [c])[..|history|] == history;
  }

  class EgressShim {
    const captured: CaptureMap
    const capturedByBrowser: CaptureMap
    ghost var history: seq<Connect>

    ghost predicate Valid()
      reads this, captured, capturedByBrowser
    {
      && captured != capturedByBrowser
      && captured.Valid() && captured.cap == MAX_CAPTURED && captured.log == SessionLog(history)
      && capturedByBrowser.Valid() && capturedByBrowser.cap == MAX_CAPTURED
      && capturedByBrowser.log == BrowserLog(history)
    }

    constructor ()
      ensures Valid() && history == []
      ensures fresh(captured) && fresh(capturedByBrowser)
    {
      captured := new CaptureMap(MAX_CAPTURED);
      capturedByBrowser := new CaptureMap(MAX_CAPTURED);
      history := [];
    }

    /** The capture step of `onConnect`: an empty head and a refused CONNECT leave both maps alone. */
    method OnRelayHead(c: Connect)
      requires Valid()
      modifies this, captured, capturedByBrowser
      ensures Valid() && history == old(history) + [c]
      ensures var i := c.identity;
              var succeeded := c.status >= 200 && c.status <= 299;
              var named := i.ip.Some? || i.phoneId.Some? || i.model.Some? || i.carrier.Some? || i.tech.Some?;
              && captured.log == Appended(old(captured.log), succeeded && named, c.session, i)
              && capturedByBrowser.log == Appended(old(capturedByBrowser.log), succeeded && named, c.browser, i)
    {
      LogsSnoc(history, c);
      hide SessionLog, BrowserLog, Recency, Suffix;
      if 200 <= c.status < 300 {
        if c.identity.HasAnyField() {
          if c.session.Some? {
            captured.StoreInto(c.session.value, c.identity);
          }
          if c.browser.Some? {
            capturedByBrowser.StoreInto(c.browser.value, c.identity);
          }
        }
      }
      history := history + [c];
    }

    /** `getCapturedIdentity(token) ?? getCapturedIdentityByBrowser(browserId)`. */
    method Lookup(token: string, browser: string) returns (r: Option<Identity>)
      requires Valid()
      ensures r == DualLookup(history, token, browser)
      ensures var bySession := Recall(SessionLog(history), MAX_CAPTURED, token);
              bySession.Some? ==> r == bySession
      ensures var bySession := Recall(SessionLog(history), MAX_CAPTURED, token);
              bySession.None? ==> r == Recall(BrowserLog(history), MAX_CAPTURED, browser)
    {
      r := captured.Get(token);
      if r.None? {
        r := capturedByBrowser.Get(browser);
      }
    }
  }

  ghost function DualLookup(history: seq<Connect>, token: string, browser: string): Option<Identity> {
    var bySession := Recall(SessionLog(history), MAX_CAPTURED, token);
    if bySession.Some? then bySession else Recall(BrowserLog(history), MAX_CAPTURED, browser)
  }

  /** The distinct browsers, other than `browser`, captured in a stretch of CONNECTs. */
  function OtherBrowsers(history: seq<Connect>, browser: string): set<string> {
    if history == [] then {}
    else
      var rest, c := OtherBrowsers(history[..|history| - 1], browser), history[|history| - 1];
      if Captures(c) && c.browser.Some? && c.browser.value != browser then rest + {c.browser.value} else rest
  }

  lemma {:induction false} BrowserRemembered(history: seq<Connect>, c: Connect, later: seq<Connect>, browser: string)
    requires Captures(c) && c.browser == Some(browser)
    ensures LastStored(BrowserLog(history + [c] + later), browser).Some?
    ensures KeysSince(BrowserLog(history + [c] + later), browser) <= OtherBrowsers(later, browser)
  {
    var all := history + [c] + later;
    if later == [] {
      assert all == history + [c] && all[..|all| - 1] == history;
    } else {
      var init := later[..|later| - 1];
      assert all[..|all| - 1] == history + [c] + init && all[|all| - 1] == later[|later| - 1];
      BrowserRemembered(history, c, init, browser);
    }
  }

  /** The distinct session tokens, other than `token`, captured in a stretch of CONNECTs. */
  function OtherSessions(history: seq<Connect>, token: string): set<string> {
    if history == [] then {}
    else
      var rest, c := OtherSessions(history[..|history| - 1], token), history[|history| - 1];
      if Captures(c) && c.session.Some? && c.session.value != token then rest + {c.session.value} else rest
  }

  lemma {:induction false} SessionRemembered(history: seq<Connect>, c: Connect, later: seq<Connect>, token: string)
    requires Captures(c) && c.session == Some(token)
    requires forall d :: d in later && d.session == Some(token) ==> !Captures(d)
    ensures LastStored(SessionLog(history + [c] + later), token) == Some(c.identity)
    ensures KeysSince(SessionLog(history + [c] + later), token) <= OtherSessions(later, token)
  {
    var all := history + [c] + later;
    if later == [] {
      assert all == history + [c] && all[..|all| - 1] == history;
    } else {
      var init := later[..|later| - 1];
      assert all[..|all| - 1] == history + [c] + init && all[|all| - 1] == later[|later| - 1];
      assert later[|later| - 1] in later;
      SessionRemembered(history, c, init, token);
    }
  }

  lemma SubsetSize(a: set<string>, b: set<string>)
    requires a <= b
    ensures |a| <= |b|
  {
    assert b == a + (b - a);
  }

  /**
   Rotation does not lose provenance: once a browser's CONNECT is captured, a
   lookup under whatever token is current finds an identity, until
   `MAX_CAPTURED` other browsers have been captured since.
   */
  lemma RotationKeepsProvenance(history: seq<Connect>, c: Connect, later: seq<Connect>, browser: string, token: string)
    requires Captures(c) && c.browser == Some(browser)
    requires |OtherBrowsers(later, browser)| < MAX_CAPTURED
    ensures DualLookup(history + [c] + later, token, browser).Some?
    ensures var all := history + [c] + later;
            LastStored(SessionLog(all), token).None? ==>
              DualLookup(all, token, browser) == LastStored(BrowserLog(all), browser)
  {
    BrowserRemembered(history, c, later, browser);
    SubsetSize(KeysSince(BrowserLog(history + [c] + later), browser), OtherBrowsers(later, browser));
  }

  /**
   The session key decides: what was captured last under the token is found,
   whatever was captured under the browser, until `MAX_CAPTURED` other tokens
   have been captured since.
   */
  lemma CapturedTokenWins(history: seq<Connect>, c: Connect, later: seq<Connect>, token: string, browser: string)
    requires 200 <= c.status < 300 && c.identity.HasAnyField() && c.session == Some(token)
    requires forall d :: d in later && d.session == Some(token) ==> !Captures(d)
    requires |OtherSessions(later, token)| < MAX_CAPTURED
    ensures DualLookup(history + [c] + later, token, browser) == Some(c.identity)
  {
    SessionRemembered(history, c, later, token);
    SubsetSize(KeysSince(SessionLog(history + [c] + later), token), OtherSessions(later, token));
  }

  /** A CONNECT captures exactly if it succeeded and its head said anything about the egress. */
  lemma CapturesExactly(c: Connect)
    ensures Captures(c) <==> c.status / 100 == 2 && c.identity != Identity(None, None, None, None, None)
  {
  }
}
