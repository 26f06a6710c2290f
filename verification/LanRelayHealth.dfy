/** The LAN-relay health monitor: a verdict that flips only after enough agreeing probes. */
module LanRelayHealth {
  import opened Division

  /** The `k` probes before position `j` all said `v`. */
  ghost predicate RunAt(h: seq<bool>, j: int, k: int, v: bool) {
    0 <= k <= j <= |h| && forall i :: j - k <= i < j ==> h[i] == v
  }

  /** No run of `k` after position `j` has another value than `v`. */
  ghost predicate LastRunIs(h: seq<bool>, j: int, k: int, v: bool) {
    forall later, w :: j < later && RunAt(h, later, k, w) ==> w == v
  }

  /** The value of the latest run of `k` equal probes, and healthy if there has been none. */
  ghost predicate VerdictIs(h: seq<bool>, k: nat, v: bool) {
    if exists j, w :: RunAt(h, j, k, w) then
      exists j :: RunAt(h, j, k, v) && LastRunIs(h, j, k, v)
    else
      v
  }

  /** How many probes at the end of the history said `v`. */
  function TrailingRun(h: seq<bool>, v: bool): nat {
    if h == [] || h[|h| - 1] != v then 0 else TrailingRun(h[..|h| - 1], v) + 1
  }

  lemma {:induction false} TrailingRunIsRun(h: seq<bool>, v: bool)
    ensures TrailingRun(h, v) <= |h|
    ensures forall i :: |h| - TrailingRun(h, v) <= i < |h| ==> h[i] == v
    ensures forall k :: RunAt(h, |h|, k, v) ==> k <= TrailingRun(h, v)
  {
    if h != [] && h[|h| - 1] == v {
      var init := h[..|h| - 1];
      TrailingRunIsRun(init, v);
      forall k | RunAt(h, |h|, k, v) ensures k <= TrailingRun(h, v) {
        if k > 0 {
          assert RunAt(init, |init|, k - 1, v);
        }
      }
    } else if h != [] {
      forall k | RunAt(h, |h|, k, v) ensures k == 0 {
        assert h[|h| - 1] != v;
      }
    }
  }

  /** Only a run that ends with the new probe is new. */
  lemma RunsExtend(h: seq<bool>, p: bool, k: nat)
    ensures forall j, v :: j <= |h| ==> (RunAt(h + [p], j, k, v) <==> RunAt(h, j, k, v))
  {
    forall j, v | j <= |h| ensures RunAt(h + [p], j, k, v) <==> RunAt(h, j, k, v) {
      assert forall i :: 0 <= i < j ==> (h + [p])[i] == h[i];
    }
  }

  lemma VerdictKept(h: seq<bool>, p: bool, k: nat, v: bool)
    requires k > 0 && VerdictIs(h, k, v)
    requires TrailingRun(h + [p], !v) < k
    ensures VerdictIs(h + [p], k, v)
  {
    var h' := h + [p];
    RunsExtend(h, p, k);
    TrailingRunIsRun(h', !v);
    assert !RunAt(h', |h'|, k, !v);
    if exists j, w :: RunAt(h, j, k, w) {
      var j :| RunAt(h, j, k, v) && LastRunIs(h, j, k, v);
      assert RunAt(h', j, k, v);
      forall later, w | j < later && RunAt(h', later, k, w) ensures w == v {
        assert later <= |h| ==> RunAt(h, later, k, w);
      }
    } else {
      forall j, w | RunAt(h', j, k, w) ensures j == |h'| && w == v {
        assert j <= |h| ==> RunAt(h, j, k, w);
      }
    }
  }

  lemma VerdictFlipped(h: seq<bool>, k: nat, v: bool)
    requires k > 0 && TrailingRun(h, v) >= k
    ensures VerdictIs(h, k, v)
  {
    TrailingRunIsRun(h, v);
    assert RunAt(h, |h|, k, v);
  }

  /** The description determines the verdict. */
  lemma VerdictIsUnique(h: seq<bool>, k: nat, v: bool, w: bool)
    requires k > 0 && VerdictIs(h, k, v) && VerdictIs(h, k, w)
    ensures v == w
  {
    if exists j, u :: RunAt(h, j, k, u) {
      var i :| RunAt(h, i, k, v) && LastRunIs(h, i, k, v);
      var j :| RunAt(h, j, k, w) && LastRunIs(h, j, k, w);
      assert h[i - 1] == v && h[j - 1] == w;
    }
  }

  const FLIP_CONSECUTIVE: nat := 2

  datatype RelayPath = Lan | Hetzner | NoPath

  /** `decideRelayPath`. */
  function DecideRelayPath(hasLocal: bool, hasHetzner: bool, lanHealthy: bool): RelayPath {
    if hasLocal then
      if lanHealthy || !hasHetzner then Lan else Hetzner
    else if hasHetzner then Hetzner
    else NoPath
  }

  class Monitor {
    const flipConsecutive: nat
    var lanHealthy: bool
    var consecutiveDisagree: nat
    ghost var probes: seq<bool>
    ghost var flips: nat

    ghost predicate Valid()
      reads this
    {
      && flipConsecutive > 0
      && VerdictIs(probes, flipConsecutive, lanHealthy)
      && consecutiveDisagree == TrailingRun(probes, !lanHealthy) < flipConsecutive
      && flips * flipConsecutive + consecutiveDisagree <= |probes|
    }

    constructor (flipConsecutive: nat)
      requires flipConsecutive > 0
      ensures Valid() && probes == [] && lanHealthy && flips == 0
      ensures this.flipConsecutive == flipConsecutive
    {
      this.flipConsecutive := flipConsecutive;
      lanHealthy, consecutiveDisagree := true, 0;
      probes, flips := [], 0;
      new;
      assert forall j, w :: !RunAt(probes, j, flipConsecutive, w);
    }

    /** `runProbeTick`, given what the probe of this tick said. */
    method RunProbeTick(probeHealthy: bool)
      requires Valid()
      modifies this
      ensures Valid() && probes == old(probes) + [probeHealthy]
      ensures flips == old(flips) + (if lanHealthy != old(lanHealthy) then 1 else 0)
      ensures flips <= |probes| / flipConsecutive
    {
      assert (probes + [probeHealthy])[..|probes|] == probes;
      ghost var h := probes;
      probes := h + [probeHealthy];
      DivBound(flips, flipConsecutive, |probes|);
      if probeHealthy == lanHealthy {
        VerdictKept(h, probeHealthy, flipConsecutive, lanHealthy);
        consecutiveDisagree := 0;
        return;
      }
      consecutiveDisagree := consecutiveDisagree + 1;
      if consecutiveDisagree < flipConsecutive {
        VerdictKept(h, probeHealthy, flipConsecutive, lanHealthy);
        return;
      }
      VerdictFlipped(probes, flipConsecutive, probeHealthy);
      lanHealthy := probeHealthy;
      consecutiveDisagree := 0;
      assert (flips + 1) * flipConsecutive == flips * flipConsecutive + flipConsecutive;
      flips := flips + 1;
      DivBound(flips, flipConsecutive, |probes|);
    }

    /** Where the proxy goes: off the LAN exactly when its latest confirmed verdict is unhealthy. */
    method RelayPathNow(hasLocal: bool, hasHetzner: bool) returns (path: RelayPath)
      requires Valid()
      ensures path == Lan <==> hasLocal && (!hasHetzner || VerdictIs(probes, flipConsecutive, true))
      ensures path == Hetzner <==> hasHetzner && (!hasLocal || VerdictIs(probes, flipConsecutive, false))
      ensures path == NoPath <==> !hasLocal && !hasHetzner
    {
      if VerdictIs(probes, flipConsecutive, !lanHealthy) {
        VerdictIsUnique(probes, flipConsecutive, lanHealthy, !lanHealthy);
      }
      path := DecideRelayPath(hasLocal, hasHetzner, lanHealthy);
    }
  }

  /** The monitor as configured: two probes. */
  method StartLanRelayHealthMonitor() returns (m: Monitor)
    ensures fresh(m) && m.Valid() && m.lanHealthy && m.flipConsecutive == FLIP_CONSECUTIVE
  {
    m := new Monitor(FLIP_CONSECUTIVE);
  }
}
