/**
 The CDP proxy between a client socket and Chrome: what becomes of each client
 frame, and how often the close callbacks run, under any interleaving of
 messages, deferred work, socket closes, heartbeats and `close()` calls.
 */
module CdpProxy {
  import opened Prelude

  /** A client frame, by what the dispatcher recognises in it. */
  datatype Frame =
    | Binary
    | NotJson
    | NotACommand
    | SessionInfo
    | EnableSolver
    | AddReplayMarker
    | PageClose
    | BrowserClose(hasId: bool)
    | CreateTarget
    | OtherCommand

  /** What has become of a frame so far. */
  datatype Fate =
    | Forwarded
    | Dropped            // closing, browser socket not open, or the send threw
    | Answered           // by the proxy itself, result or error
    | Interrupted        // deferred work ended by the scope close
    | ReplyFailed        // the `Browser.close` response could not be sent
    | AwaitsDelay        // `Page.close`
    | AwaitsBeforeClose  // `Browser.close`, while `onBeforeClose` runs
    | AwaitsReply        // `Browser.close`, while its response is being sent
    | AwaitsTabCount     // `Target.createTarget`, while Chrome is asked for its targets

  datatype Socket = Open | NotOpen

  /** How far a close chain has come: waiting for the scope close, then for its callbacks, then done. */
  datatype Stage = ClosingScope | ScopeClosed | Finished

  /** The chain that one call of `handleClose` started, with what it saw of the client socket. */
  datatype Closer = Closer(clientInitiated: bool, stage: Stage)

  /** The calls out of the close protocol, in the order they are made. */
  datatype CloseStep = BeforeClose | FinalizersRun | OnClose

  predicate NoRepeats(s: seq<nat>) {
    forall i, j :: 0 <= i < j < |s| ==> s[i] != s[j]
  }

  lemma NoRepeatsAdd(s: seq<nat>, x: nat)
    requires NoRepeats(s) && x !in s
    ensures NoRepeats(s + [x])
  {
  }

  /** Each frame has one fate, which the two effect logs bear out. */
  ghost predicate FatesMatch(frames: seq<Frame>, fate: seq<Fate>, forwarded: seq<nat>, replied: seq<nat>) {
    && |fate| == |frames|
    && NoRepeats(forwarded) && NoRepeats(replied)
    && (forall i :: i in forwarded <==> 0 <= i < |fate| && fate[i] == Forwarded)
    && (forall i :: i in replied ==> 0 <= i < |fate|)
    && (forall i :: 0 <= i < |fate| && fate[i] == Answered ==> i in replied)
    && (forall i :: 0 <= i < |fate| && i in replied && fate[i] != Answered ==>
          frames[i].BrowserClose? && fate[i] in {AwaitsReply, Forwarded, Dropped, ReplyFailed})
    && (forall i :: 0 <= i < |fate| && fate[i] in {AwaitsBeforeClose, AwaitsReply} ==> frames[i].BrowserClose?)
  }

  function Last(fate: seq<Fate>): Fate
    requires fate != []
  {
    fate[|fate| - 1]
  }

  function Logged(log: seq<nat>, i: nat, now: bool): seq<nat> {
    if now then log + [i] else log
  }

  /** A received frame takes its first fate. */
  lemma FateAdded(frames: seq<Frame>, fate: seq<Fate>, forwarded: seq<nat>, replied: seq<nat>, f: Frame, r: Fate)
    requires FatesMatch(frames, fate, forwarded, replied)
    requires r !in {AwaitsReply, ReplyFailed, Interrupted} && (r.AwaitsBeforeClose? ==> f.BrowserClose?)
    ensures FatesMatch(frames + [f], fate + [r],
                       Logged(forwarded, |fate|, r.Forwarded?), Logged(replied, |fate|, r.Answered?))
  {
    NoRepeatsAdd(forwarded, |fate|);
    NoRepeatsAdd(replied, |fate|);
  }

  /** A pending frame takes its next fate; only `Browser.close` may be both replied to and sent on. */
  lemma FateChanged(frames: seq<Frame>, fate: seq<Fate>, forwarded: seq<nat>, replied: seq<nat>, i: nat, r: Fate)
    requires FatesMatch(frames, fate, forwarded, replied) && i < |fate|
    requires fate[i] in {AwaitsDelay, AwaitsBeforeClose, AwaitsReply, AwaitsTabCount}
    requires r in {Forwarded, Dropped} || (r.Answered? && fate[i].AwaitsTabCount?)
             || (r.AwaitsReply? && fate[i].AwaitsBeforeClose?) || (r.ReplyFailed? && fate[i].AwaitsReply?)
    ensures FatesMatch(frames, fate[i := r],
                       Logged(forwarded, i, r.Forwarded?), Logged(replied, i, r.Answered? || r.AwaitsReply?))
  {
    assert i !in forwarded;
    if r.Answered? || r.AwaitsReply? {
      assert i !in replied;
      NoRepeatsAdd(replied, i);
    }
    NoRepeatsAdd(forwarded, i);
  }

  /** What has happened up to some moment of a run. */
  datatype Snapshot = Snapshot(
    frames: seq<Frame>,
    fate: seq<Fate>,
    forwarded: seq<nat>,
    replied: seq<nat>,
    closeSteps: seq<CloseStep>,
    closers: seq<Closer>)

  predicate Awaits(f: Fate) {
    f in {AwaitsDelay, AwaitsBeforeClose, AwaitsReply, AwaitsTabCount}
  }

  /** Chains are only added, and each only advances. */
  predicate Advanced(a: seq<Closer>, b: seq<Closer>)
    ensures a == b ==> Advanced(a, b)
  {
    && |a| <= |b|
    && forall k :: 0 <= k < |a| ==>
         && b[k].clientInitiated == a[k].clientInitiated
         && (b[k].stage == a[k].stage || a[k].stage.ClosingScope? || b[k].stage.Finished?)
  }

  /**
   What any stretch of a run respects: nothing that happened is undone, a
   decided frame stays as decided, a close chain only advances, and nothing is
   forwarded once one has begun.
   */
  ghost predicate Leads(s: Snapshot, t: Snapshot) {
    && s.frames <= t.frames && s.forwarded <= t.forwarded && s.replied <= t.replied && s.closeSteps <= t.closeSteps
    && |s.fate| <= |t.fate|
    && (forall i :: 0 <= i < |s.fate| && !Awaits(s.fate[i]) ==> t.fate[i] == s.fate[i])
    && Advanced(s.closers, t.closers)
    && (s.closers != [] ==> t.forwarded == s.forwarded)
  }

  /** The step of a received frame. */
  lemma FrameLeads(s: Snapshot, t: Snapshot, f: Frame, r: Fate)
    requires t.frames == s.frames + [f] && t.fate == s.fate + [r] && t.closers == s.closers
    requires t.forwarded == Logged(s.forwarded, |s.fate|, r.Forwarded?) && (r.Forwarded? ==> s.closers == [])
    requires t.replied == Logged(s.replied, |s.fate|, r.Answered?)
    requires t.closeSteps == s.closeSteps || t.closeSteps == s.closeSteps + [BeforeClose]
    ensures Leads(s, t)
  {
  }

  /** The step of a frame that is decided. */
  lemma FateLeads(s: Snapshot, t: Snapshot, i: nat, r: Fate)
    requires i < |s.fate| && Awaits(s.fate[i]) && t.fate == s.fate[i := r]
    requires t.frames == s.frames && t.closers == s.closers && t.closeSteps == s.closeSteps
    requires t.forwarded == Logged(s.forwarded, i, r.Forwarded?) && (r.Forwarded? ==> s.closers == [])
    requires s.replied <= t.replied
    ensures Leads(s, t)
  {
  }

  /** Every step below leads from its old state to its new one, so any earlier moment leads to any later one. */
  lemma LeadsTransitive(s: Snapshot, t: Snapshot, u: Snapshot)
    requires Leads(s, t) && Leads(t, u)
    ensures Leads(s, u)
  {
    assert forall i :: 0 <= i < |s.fate| && !Awaits(s.fate[i]) ==> u.fate[i] == t.fate[i];
  }

  /**
   `onBeforeClose` on request, the finalizers, `onClose`, and `onBeforeClose`
   after a disconnect unless it was already requested.
   */
  ghost function Steps(requested: bool, closed: bool, close: bool, disconnected: bool): seq<CloseStep> {
    (if requested then [BeforeClose] else [])
    + (if closed then [FinalizersRun] else [])
    + (if close then [OnClose] else [])
    + (if disconnected && !requested then [BeforeClose] else [])
  }

  lemma StepsRequest()
    ensures Steps(true, false, false, false) == Steps(false, false, false, false) + [BeforeClose]
  {
  }

  class Proxy {
    const maxTabs: int
    const hasOnClose: bool
    const hasOnBeforeClose: bool

    var countsTabs: bool         // `getTabCount` is set
    var clientWs: Option<Socket>
    var browserWs: Option<Socket>
    var isClosing: bool
    var closeRequested: bool
    var scopeOpen: bool          // the finalizers of the scope have not run
    var closers: seq<Closer>

    // what happened: each received frame, and the effects in order
    var frames: seq<Frame>
    var fate: seq<Fate>
    ghost var forwarded: seq<nat>
    ghost var replied: seq<nat>
    ghost var closeSteps: seq<CloseStep>

    /** All that the close protocol has done. */
    ghost function StepsDone(): seq<CloseStep>
      reads this
    {
      var finished := closers != [] && closers[0].stage.Finished?;
      Steps(closeRequested, !scopeOpen, finished && hasOnClose,
            finished && hasOnBeforeClose && closers[0].clientInitiated)
    }

    ghost function Snap(): Snapshot
      reads this
    {
      Snapshot(frames, fate, forwarded, replied, closeSteps, closers)
    }

    ghost predicate Valid()
      reads this
    {
      && FatesMatch(frames, fate, forwarded, replied)
      && |closers| == (if isClosing then 1 else 0)
      && (scopeOpen <==> closers == [] || closers[0].stage.ClosingScope?)
      && (closeRequested ==> hasOnBeforeClose)
      && (!scopeOpen ==> clientWs.None? && browserWs.None?)
      && (!scopeOpen ==> forall i :: 0 <= i < |fate| ==> fate[i] != AwaitsDelay)
      && closeSteps == StepsDone()
    }

    /** The proxy after `connect`: both sockets open and nothing received. */
    constructor (maxTabs: int, countsTabs: bool, hasOnClose: bool, hasOnBeforeClose: bool)
      ensures Valid() && closers == [] && scopeOpen && frames == [] && !closeRequested
      ensures this.maxTabs == maxTabs && this.countsTabs == countsTabs
      ensures this.hasOnClose == hasOnClose && this.hasOnBeforeClose == hasOnBeforeClose
    {
      this.maxTabs, this.countsTabs := maxTabs, countsTabs;
      this.hasOnClose, this.hasOnBeforeClose := hasOnClose, hasOnBeforeClose;
      clientWs, browserWs := Some(Open), Some(Open);
      isClosing, closeRequested, scopeOpen, closers := false, false, true, [];
      frames, fate, forwarded, replied := [], [], [], [];
      closeSteps := [];
    }

    method SetGetTabCount()
      requires Valid()
      modifies `countsTabs
      ensures Valid() && countsTabs
    {
      countsTabs := true;
    }

    predicate CanSend()
      reads this
    {
      !isClosing && browserWs == Some(Open)
    }

    /** `sendToBrowser`, for a frame that is due; `sent` is whether the socket takes it. */
    method SendToBrowser(i: nat, sent: bool)
      requires Valid() && i < |fate|
      requires fate[i] in {AwaitsDelay, AwaitsBeforeClose, AwaitsReply, AwaitsTabCount}
      modifies `fate, `forwarded
      ensures Valid()
      ensures fate == old(fate)[i := if CanSend() && sent then Forwarded else Dropped]
      ensures forwarded == Logged(old(forwarded), i, CanSend() && sent)
      ensures fate[i] == Forwarded <==> !isClosing && browserWs == Some(Open) && sent
    {
      hide Steps;
      FateChanged(frames, fate, forwarded, replied, i, if CanSend() && sent then Forwarded else Dropped);
      if isClosing || browserWs != Some(Open) || !sent {
        fate := fate[i := Dropped];
      } else {
        fate := fate[i := Forwarded];
        forwarded := forwarded + [i];
      }
    }

    /** Where the dispatcher sends a frame it has just received. */
    function Dispatch(f: Frame, tabs: nat, sent: bool): (r: Fate)
      reads this
      ensures r.Forwarded? ==> CanSend()
      ensures r !in {AwaitsReply, ReplyFailed, Interrupted} && (r.AwaitsBeforeClose? ==> f.BrowserClose?)
      ensures r.Answered? || r.AwaitsDelay? || r.AwaitsBeforeClose? || r.AwaitsTabCount? ==>
                !f.Binary? && !f.NotJson? && !f.NotACommand? && !f.OtherCommand?
    {
      var passed := if CanSend() && sent then Forwarded else Dropped;
      match f
      case Binary => passed
      case NotJson => passed
      case NotACommand => passed
      case SessionInfo => Answered
      case EnableSolver => Answered
      case AddReplayMarker => Answered
      case PageClose => AwaitsDelay
      case BrowserClose(_) => if hasOnBeforeClose && !closeRequested then AwaitsBeforeClose else passed
      case CreateTarget =>
        if maxTabs <= 0 then passed
        else if !countsTabs then AwaitsTabCount
        else if tabs >= maxTabs then Answered
        else passed
      case OtherCommand => passed
    }

    /** Whether a frame starts the `Browser.close` interception. */
    predicate Intercepts(f: Frame)
      reads this
    {
      f.BrowserClose? && hasOnBeforeClose && !closeRequested
    }

    /** The message listener, branch by branch. */
    method DispatchFrame(f: Frame, tabs: nat, sent: bool)
      requires |fate| == |frames|
      modifies `frames, `fate, `forwarded, `replied, `closeRequested, `closeSteps
      ensures frames == old(frames) + [f] && fate == old(fate) + [old(Dispatch(f, tabs, sent))]
      ensures replied == Logged(old(replied), |old(fate)|, old(Dispatch(f, tabs, sent)).Answered?)
      ensures forwarded == Logged(old(forwarded), |old(fate)|, old(Dispatch(f, tabs, sent)).Forwarded?)
      ensures closeRequested == (old(closeRequested) || old(Intercepts(f)))
      ensures closeSteps == if old(Intercepts(f)) then old(closeSteps) + [BeforeClose] else old(closeSteps)
    {
      var i := |fate|;
      frames := frames + [f];
      match f
      case SessionInfo | EnableSolver | AddReplayMarker =>
        fate, replied := fate + [Answered], replied + [i];
      case PageClose =>
        fate := fate + [AwaitsDelay];
      case BrowserClose(_) =>
        if hasOnBeforeClose && !closeRequested {
          closeRequested := true;
          closeSteps := closeSteps + [BeforeClose];
          fate := fate + [AwaitsBeforeClose];
        } else {
          Pass(i, sent);
        }
      case CreateTarget =>
        if maxTabs > 0 {
          if countsTabs {
            if tabs >= maxTabs {
              fate, replied := fate + [Answered], replied + [i];
              return;
            }
          } else {
            fate := fate + [AwaitsTabCount];
            return;
          }
        }
        Pass(i, sent);
      case Binary | NotJson | NotACommand | OtherCommand =>
        Pass(i, sent);
    }

    /** What the listener makes of a frame, from the fields of the proxy. */
    lemma DispatchIs(f: Frame, tabs: nat, sent: bool)
      ensures var r := Dispatch(f, tabs, sent);
              && (f.SessionInfo? || f.EnableSolver? || f.AddReplayMarker? ==> r == Answered)
              && (f.PageClose? ==> r == AwaitsDelay)
              && (f.BrowserClose? && hasOnBeforeClose && !closeRequested ==> r == AwaitsBeforeClose)
              && (f.CreateTarget? && maxTabs > 0 && countsTabs ==> (r == Answered <==> tabs >= maxTabs))
              && (f.CreateTarget? && maxTabs > 0 && !countsTabs ==> r == AwaitsTabCount)
              && (PassedOn(f, tabs) ==>
                    r == if !isClosing && browserWs == Some(Open) && sent then Forwarded else Dropped)
    {
    }

    /** A frame that goes straight on to the browser: nothing in it concerns the proxy, or not now. */
    predicate PassedOn(f: Frame, tabs: nat)
      reads this
    {
      match f
      case Binary | NotJson | NotACommand | OtherCommand => true
      case BrowserClose(_) => !hasOnBeforeClose || closeRequested
      case CreateTarget => maxTabs <= 0 || (countsTabs && tabs < maxTabs)
      case SessionInfo | EnableSolver | AddReplayMarker | PageClose => false
    }

    /** A client message; the listener is there until the finalizers run. */
    method OnClientMessage(f: Frame, tabs: nat, sent: bool)
      requires Valid() && clientWs.Some?
      modifies this
      ensures Valid() && Leads(old(Snap()), Snap())
      ensures frames == old(frames) + [f] && |fate| == |old(fate)| + 1 && fate[..|old(fate)|] == old(fate)
      ensures f.SessionInfo? || f.EnableSolver? || f.AddReplayMarker? ==> Last(fate) == Answered
      ensures f.PageClose? ==> Last(fate) == AwaitsDelay
      ensures f.BrowserClose? && hasOnBeforeClose && !old(closeRequested) ==> Last(fate) == AwaitsBeforeClose
      ensures f.CreateTarget? && maxTabs > 0 && countsTabs ==> (Last(fate) == Answered <==> tabs >= maxTabs)
      ensures f.CreateTarget? && maxTabs > 0 && !countsTabs ==> Last(fate) == AwaitsTabCount
      ensures f in {Binary, NotJson, NotACommand, OtherCommand}
              || (f.BrowserClose? && (!hasOnBeforeClose || old(closeRequested)))
              || (f.CreateTarget? && (maxTabs <= 0 || (countsTabs && tabs < maxTabs))) ==>
                Last(fate) == if !isClosing && browserWs == Some(Open) && sent then Forwarded else Dropped
      ensures replied == old(replied) + (if Last(fate).Answered? then [|old(fate)|] else [])
      ensures forwarded == old(forwarded) + (if Last(fate).Forwarded? then [|old(fate)|] else [])
      ensures closeRequested == (old(closeRequested) || (f.BrowserClose? && hasOnBeforeClose))
      ensures closers == old(closers) && isClosing == old(isClosing)
      ensures clientWs == old(clientWs) && browserWs == old(browserWs) && countsTabs == old(countsTabs)
    {
      hide FatesMatch, Steps, Leads;
      DispatchIs(f, tabs, sent);
      assert PassedOn(f, tabs) <==>
             || f in {Binary, NotJson, NotACommand, OtherCommand}
             || (f.BrowserClose? && (!hasOnBeforeClose || closeRequested))
             || (f.CreateTarget? && (maxTabs <= 0 || (countsTabs && tabs < maxTabs)));
      Receive(f, tabs, sent);
    }

    /** The same in terms of the dispatcher. */
    method Receive(f: Frame, tabs: nat, sent: bool)
      requires Valid() && clientWs.Some?
      modifies this
      ensures Valid() && Leads(old(Snap()), Snap())
      ensures frames == old(frames) + [f] && fate == old(fate) + [old(Dispatch(f, tabs, sent))]
      ensures replied == Logged(old(replied), |old(fate)|, old(Dispatch(f, tabs, sent)).Answered?)
      ensures forwarded == Logged(old(forwarded), |old(fate)|, old(Dispatch(f, tabs, sent)).Forwarded?)
      ensures closeRequested == (old(closeRequested) || (f.BrowserClose? && hasOnBeforeClose))
      ensures closers == old(closers) && isClosing == old(isClosing)
      ensures clientWs == old(clientWs) && browserWs == old(browserWs) && countsTabs == old(countsTabs)
    {
      ghost var before, r := Snap(), Dispatch(f, tabs, sent);
      FateAdded(frames, fate, forwarded, replied, f, r);
      StepsRequest();
      assert |fate| == |frames|;
      hide FatesMatch, Steps, Leads, Logged;
      DispatchFrame(f, tabs, sent);
      FrameLeads(before, Snap(), f, r);
    }

    /** `sendToBrowser` for the frame at hand. */
    method Pass(i: nat, sent: bool)
      requires i == |fate|
      modifies `fate, `forwarded
      ensures fate == old(fate) + [if CanSend() && sent then Forwarded else Dropped]
      ensures forwarded == Logged(old(forwarded), i, CanSend() && sent)
    {
      if isClosing || browserWs != Some(Open) || !sent {
        fate := fate + [Dropped];
      } else {
        fate, forwarded := fate + [Forwarded], forwarded + [i];
      }
    }

    /** The delay of a `Page.close` is over. */
    method OnDelayOver(i: nat, sent: bool)
      requires Valid() && i < |fate| && fate[i] == AwaitsDelay
      modifies `fate, `forwarded, `replied
      ensures Valid()
      ensures fate == old(fate)[i := if CanSend() && sent then Forwarded else Dropped]
      ensures Leads(old(Snap()), Snap())
    {
      hide Steps, Leads;
      ghost var before := Snap();
      SendToBrowser(i, sent);
      FateLeads(before, Snap(), i, fate[i]);
    }

    /** `onBeforeClose` has settled, failed or timed out: respond if there is an id to respond to. */
    method OnBeforeCloseDone(i: nat, sent: bool)
      requires Valid() && i < |fate| && fate[i] == AwaitsBeforeClose
      modifies `fate, `forwarded, `replied
      ensures Valid()
      ensures fate == old(fate)[i := if old(frames)[i].hasId then AwaitsReply
                                     else if CanSend() && sent then Forwarded else Dropped]
      ensures Leads(old(Snap()), Snap())
    {
      hide Steps, Leads;
      ghost var before := Snap();
      if frames[i].hasId {
        FateChanged(frames, fate, forwarded, replied, i, AwaitsReply);
        fate, replied := fate[i := AwaitsReply], replied + [i];
      } else {
        SendToBrowser(i, sent);
      }
      FateLeads(before, Snap(), i, fate[i]);
    }

    /** The response to `Browser.close` is out, or its send failed and the frame goes no further. */
    method OnReplySent(i: nat, delivered: bool, sent: bool)
      requires Valid() && i < |fate| && fate[i] == AwaitsReply
      modifies `fate, `forwarded, `replied
      ensures Valid()
      ensures fate == old(fate)[i := if !delivered then ReplyFailed
                                     else if CanSend() && sent then Forwarded else Dropped]
      ensures Leads(old(Snap()), Snap())
    {
      hide Steps, Leads;
      ghost var before := Snap();
      if delivered {
        SendToBrowser(i, sent);
      } else {
        FateChanged(frames, fate, forwarded, replied, i, ReplyFailed);
        fate := fate[i := ReplyFailed];
      }
      FateLeads(before, Snap(), i, fate[i]);
    }

    /** Chrome has told how many pages there are, or could not be asked: then the frame is let through. */
    method OnTabCount(i: nat, count: Option<nat>, sent: bool)
      requires Valid() && i < |fate| && fate[i] == AwaitsTabCount
      modifies `fate, `forwarded, `replied
      ensures Valid()
      ensures fate == old(fate)[i := if count.Some? && count.value >= maxTabs then Answered
                                     else if CanSend() && sent then Forwarded else Dropped]
      ensures Leads(old(Snap()), Snap())
    {
      hide Steps, Leads;
      ghost var before := Snap();
      if count.Some? && count.value >= maxTabs {
        FateChanged(frames, fate, forwarded, replied, i, Answered);
        fate, replied := fate[i := Answered], replied + [i];
      } else {
        SendToBrowser(i, sent);
      }
      FateLeads(before, Snap(), i, fate[i]);
    }

    /** A socket leaves the open state; its close event may come later. */
    method OnSocketState(ofClient: bool)
      requires Valid()
      modifies `clientWs, `browserWs
      ensures Snap() == old(Snap())
      ensures Valid() && (clientWs.Some? <==> old(clientWs.Some?)) && (browserWs.Some? <==> old(browserWs.Some?))
    {
      if ofClient && clientWs.Some? {
        clientWs := Some(NotOpen);
      }
      if !ofClient && browserWs.Some? {
        browserWs := Some(NotOpen);
      }
    }

    /**
     `handleClose`: called for either socket's close, a client error, a failed
     heartbeat and `close()`. Each call that passes the guard starts a chain of
     its own; only the first call does.
     */
    method HandleClose()
      requires Valid()
      modifies `isClosing, `closers
      ensures Valid() && isClosing && Leads(old(Snap()), Snap())
      ensures closers == if old(isClosing) then old(closers)
                         else old(closers) + [Closer(clientWs == Some(NotOpen), ClosingScope)]
    {
      hide Steps;
      if isClosing {
        return;
      }
      isClosing := true;
      var clientInitiated := clientWs.Some? && clientWs.value != Open;
      closers := closers + [Closer(clientInitiated, ClosingScope)];
    }

    /**
     The scope close that chain `k` waits for. The finalizers run with the first
     one: managed fibers are interrupted, both sockets are let go of. Closing a
     closed scope does nothing.
     */
    method CloseScope(k: nat)
      requires Valid() && k < |closers| && closers[k].stage.ClosingScope?
      modifies this
      ensures Valid() && !scopeOpen && Leads(old(Snap()), Snap())
      ensures closers == old(closers)[k := old(closers)[k].(stage := ScopeClosed)]
      ensures fate == if old(scopeOpen) then Interrupt(old(fate)) else old(fate)
      ensures closeSteps == if old(scopeOpen) then old(closeSteps) + [FinalizersRun] else old(closeSteps)
      ensures forwarded == old(forwarded) && replied == old(replied) && closeRequested == old(closeRequested)
    {
      if scopeOpen {
        scopeOpen, clientWs, browserWs := false, None, None;
        fate := Interrupt(fate);
        closeSteps := closeSteps + [FinalizersRun];
      }
      closers := closers[k := closers[k].(stage := ScopeClosed)];
    }

    /** What chain `k` does after its scope close, whatever happened meanwhile. */
    method AfterScopeClose(k: nat)
      requires Valid() && k < |closers| && closers[k].stage.ScopeClosed?
      modifies `closers, `closeSteps
      ensures Valid() && Leads(old(Snap()), Snap())
      ensures closers == old(closers)[k := old(closers)[k].(stage := Finished)]
      ensures hasOnClose ==> OnClose in closeSteps
      ensures hasOnBeforeClose && (closeRequested || closers[k].clientInitiated) <==> BeforeClose in closeSteps
    {
      if hasOnClose {
        closeSteps := closeSteps + [OnClose];
      }
      if hasOnBeforeClose && !closeRequested && closers[k].clientInitiated {
        closeSteps := closeSteps + [BeforeClose];
      }
      closers := closers[k := closers[k].(stage := Finished)];
    }
  }

  /** Interrupting the managed fibers ends the delayed `Page.close` frames and nothing else. */
  function Interrupt(fate: seq<Fate>): (r: seq<Fate>)
    ensures |r| == |fate|
    ensures forall i :: 0 <= i < |fate| ==> r[i] == if fate[i] == AwaitsDelay then Interrupted else fate[i]
  {
    seq(|fate|, i requires 0 <= i < |fate| => if fate[i] == AwaitsDelay then Interrupted else fate[i])
  }

  /**
   In any state, whatever led to it: at most one chain was started, each step
   happened at most once, and `onClose` right after the finalizers.
   */
  lemma CloseProtocol(p: Proxy)
    requires p.Valid()
    ensures |p.closers| <= 1 && (p.isClosing <==> p.closers != [])
    ensures forall i, j :: 0 <= i < j < |p.closeSteps| ==> p.closeSteps[i] != p.closeSteps[j]
    ensures forall i :: 0 <= i < |p.closeSteps| && p.closeSteps[i] == OnClose ==>
              i > 0 && p.closeSteps[i - 1] == FinalizersRun
    ensures forall k :: 0 <= k < |p.closers| && p.closers[k].stage.Finished? ==>
              (OnClose in p.closeSteps <==> p.hasOnClose)
  {
    hide FatesMatch, Steps;
    var finished := p.closers != [] && p.closers[0].stage.Finished?;
    StepsOnce(p.closeRequested, !p.scopeOpen, finished && p.hasOnClose,
              finished && p.hasOnBeforeClose && p.closers[0].clientInitiated);
  }

  lemma StepsOnce(requested: bool, closed: bool, close: bool, disconnected: bool)
    requires close ==> closed
    ensures var s := Steps(requested, closed, close, disconnected);
            && (forall i, j :: 0 <= i < j < |s| ==> s[i] != s[j])
            && (forall i :: 0 <= i < |s| && s[i] == OnClose ==> i > 0 && s[i - 1] == FinalizersRun)
            && (OnClose in s <==> close)
  {
    var s := Steps(requested, closed, close, disconnected);
    if close {
      assert s == if requested then [BeforeClose, FinalizersRun, OnClose]
                  else if disconnected then [FinalizersRun, OnClose, BeforeClose]
                  else [FinalizersRun, OnClose];
      assert s[if requested then 2 else 1] == OnClose;
    } else {
      assert s == (if requested then [BeforeClose] else []) + (if closed then [FinalizersRun] else [])
                  + (if disconnected && !requested then [BeforeClose] else []);
    }
    hide Steps;
  }
}
