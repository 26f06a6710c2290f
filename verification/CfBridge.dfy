/** The browser-side bridge: events are buffered, in order, until the binding exists. */
module CfBridge {

  /** The attempts that did not throw. */
  function Succeeded(attempts: seq<string>, threw: seq<bool>): seq<string>
    requires |attempts| == |threw|
  {
    if attempts == [] then []
    else
      var last := |attempts| - 1;
      var rest := Succeeded(attempts[..last], threw[..last]);
      if threw[last] then rest else rest + [attempts[last]]
  }

  lemma SucceededSnoc(attempts: seq<string>, threw: seq<bool>, a: string, t: bool)
    requires |attempts| == |threw|
    ensures Succeeded(attempts + [a], threw + [t])
            == Succeeded(attempts, threw) + (if t then [] else [a])
  {
    assert (attempts + [a])[..|attempts|] == attempts && (threw + [t])[..|threw|] == threw;
  }

  lemma {:induction false} SucceededSize(attempts: seq<string>, threw: seq<bool>)
    requires |attempts| == |threw|
    ensures |Succeeded(attempts, threw)| <= |attempts|
    ensures |Succeeded(attempts, threw)| == |attempts| <==> true !in threw
    ensures true !in threw ==> Succeeded(attempts, threw) == attempts
  {
    if attempts != [] {
      var last := |attempts| - 1;
      SucceededSize(attempts[..last], threw[..last]);
      assert threw == threw[..last] + [threw[last]];
    }
  }

  class Bridge {
    var bound: bool                // whether `window.__rrwebPush` is a function right now
    var pendingEvents: seq<string>
    var flushTimer: bool           // whether the polling interval is set
    ghost var emitted: seq<string>
    ghost var attempts: seq<string>
    ghost var threw: seq<bool>
    ghost var delivered: seq<string>

    /** Nothing is lost, repeated or reordered on the way to the binding, and polling goes on exactly while needed. */
    ghost predicate Valid()
      reads this
    {
      && attempts + pendingEvents == emitted
      && |threw| == |attempts| && delivered == Succeeded(attempts, threw)
      && (flushTimer <==> pendingEvents != [])
    }

    constructor ()
      ensures Valid() && emitted == []
    {
      bound, pendingEvents, flushTimer := false, [], false;
      emitted, attempts, threw, delivered := [], [], [], [];
    }

    /** One call of the binding; `throws` is whether this call throws, which the caller swallows. */
    method Push(payload: string, throws: bool)
      requires bound && |threw| == |attempts| && delivered == Succeeded(attempts, threw)
      modifies `attempts, `threw, `delivered
      ensures attempts == old(attempts) + [payload] && threw == old(threw) + [throws]
      ensures delivered == Succeeded(attempts, threw)
      ensures delivered == if throws then old(delivered) else old(delivered) + [payload]
    {
      SucceededSnoc(attempts, threw, payload, throws);
      attempts, threw := attempts + [payload], threw + [throws];
      if !throws {
        delivered := delivered + [payload];
      }
    }

    /** `throws(k)` is whether the `k`-th push of this flush throws. */
    method FlushPending(throws: nat -> bool)
      requires Valid() && bound
      modifies this
      ensures Valid() && pendingEvents == [] && !flushTimer && bound
      ensures emitted == old(emitted) && attempts == emitted
    {
      hide Succeeded;
      var k := 0;
      while |pendingEvents| > 0
        invariant bound && emitted == old(emitted)
        invariant attempts + pendingEvents == emitted
        invariant |threw| == |attempts| && delivered == Succeeded(attempts, threw)
        decreases |pendingEvents|
      {
        var next := pendingEvents[0];
        assert pendingEvents == [next] + pendingEvents[1..];
        assert attempts + [next] + pendingEvents[1..] == attempts + pendingEvents;
        pendingEvents := pendingEvents[1..];
        Push(next, throws(k));
        k := k + 1;
      }
      if flushTimer {
        flushTimer := false;
      }
    }

    method Emit(payload: string, throws: nat -> bool, pushThrows: bool)
      requires Valid()
      modifies this
      ensures Valid() && emitted == old(emitted) + [payload] && bound == old(bound)
      ensures bound ==> attempts == emitted
    {
      ghost var before := emitted;
      hide Succeeded;
      if bound {
        if |pendingEvents| > 0 {
          FlushPending(throws);
        }
        assert attempts == before && pendingEvents == [];
        Push(payload, pushThrows);
      } else {
        assert attempts + (pendingEvents + [payload]) == before + [payload];
        pendingEvents := pendingEvents + [payload];
        if !flushTimer {
          flushTimer := true;
        }
      }
      emitted := before + [payload];
    }

    /** The polling interval ticks. */
    method OnTick(throws: nat -> bool)
      requires Valid() && flushTimer
      modifies this
      ensures Valid() && emitted == old(emitted) && bound == old(bound)
      ensures if bound then attempts == emitted && !flushTimer else pendingEvents == old(pendingEvents)
    {
      if bound {
        FlushPending(throws);
      }
    }

    /** The page gains or loses the binding. */
    method OnBinding(present: bool)
      requires Valid()
      modifies `bound
      ensures Valid() && bound == present
    {
      bound := present;
    }
  }

  /** In any state, whatever led to it: delivered then pending is what was emitted, exactly if no call ever threw. */
  lemma NothingLostExactly(b: Bridge)
    requires b.Valid()
    ensures b.delivered + b.pendingEvents == b.emitted <==> true !in b.threw
  {
    SucceededSize(b.attempts, b.threw);
    assert |b.delivered + b.pendingEvents| == |b.delivered| + |b.pendingEvents|;
    assert |b.emitted| == |b.attempts| + |b.pendingEvents|;
  }
}
