/**
 The Fetch interception of one scrape: an event-driven machine whose fields
 are proved to be closed-form functions of the events seen so far.
 */
module FetchInterception {
  import opened Prelude

  /** The part of a paused exchange the handler looks at. */
  datatype Pause =
    | Request(requestId: nat, ahrefsDocument: bool, challengeFlow: bool)
    | Response(requestId: nat, ahrefsDocument: bool, status: int, mitigated: bool)

  datatype Event =
    | Paused(pause: Pause)
    | Acked(ok: bool)        // the promise of `Fetch.fulfillRequest` settles
    | TimerFired
    | CleanedUp

  datatype Command =
    | FulfillRequest(requestId: nat)
    | ContinueResponse(requestId: nat)
    | FailRequest(requestId: nat)
    | ContinueRequest(requestId: nat)

  datatype Action = Fulfill | FulfillRequestStage | ContinueRechallenge | ContinueAlreadyFulfilled | ContinueOther

  datatype Decision = Decision(status: int, cfMitigated: bool, action: Action, docIndex: nat)

  datatype Outcome =
    | Resolved
    | FulfillFailed
    | TimedOut(requestCount: nat, responseCount: nat, docResponseCount: nat)
    | RateLimited(status: int)

  const RATE_LIMIT_STATUSES: set<int> := {429, 403}

  // -- What the history determines --------------------------------------

  /** A pause that is answered with our own page, if none was before. */
  predicate Fulfillable(p: Pause) {
    match p
    case Request(_, doc, _) => doc
    case Response(_, doc, status, mitigated) => doc && status == 200 && !mitigated
  }

  predicate IsDocResponse(p: Pause) {
    p.Response? && p.ahrefsDocument
  }

  /** The first fulfillable pause so far. */
  function FirstFulfillable(h: seq<Event>): Option<Pause> {
    if h == [] then None
    else
      var before, e := FirstFulfillable(h[..|h| - 1]), h[|h| - 1];
      if before.None? && e.Paused? && Fulfillable(e.pause) then Some(e.pause) else before
  }

  function Requests(h: seq<Event>): nat {
    if h == [] then 0
    else Requests(h[..|h| - 1]) + (if h[|h| - 1].Paused? && h[|h| - 1].pause.Request? then 1 else 0)
  }

  function Responses(h: seq<Event>): nat {
    if h == [] then 0
    else Responses(h[..|h| - 1]) + (if h[|h| - 1].Paused? && h[|h| - 1].pause.Response? then 1 else 0)
  }

  function DocResponses(h: seq<Event>): nat {
    if h == [] then 0
    else DocResponses(h[..|h| - 1]) + (if h[|h| - 1].Paused? && IsDocResponse(h[|h| - 1].pause) then 1 else 0)
  }

  /** A block answered by the origin itself, before anything was fulfilled. */
  predicate Blocks(fulfilled: bool, p: Pause) {
    IsDocResponse(p) && p.status in RATE_LIMIT_STATUSES && !p.mitigated && !fulfilled
  }

  function DocAction(fulfilled: bool, p: Pause): Action
    requires IsDocResponse(p)
  {
    if fulfilled then ContinueAlreadyFulfilled
    else if p.mitigated then ContinueRechallenge
    else if p.status == 200 then Fulfill
    else ContinueOther
  }

  /** What an event settles, when it comes after `h`: nothing unless it is decisive. */
  function Decisive(h: seq<Event>, e: Event): Option<Outcome> {
    match e
    case Acked(ok) => Some(if ok then Resolved else FulfillFailed)
    case TimerFired => Some(TimedOut(Requests(h), Responses(h), DocResponses(h)))
    case CleanedUp => None
    case Paused(p) =>
      if Blocks(FirstFulfillable(h).Some?, p)
      then Some(RateLimited(p.status))
      else None
  }

  /** The outcome of the first decisive event. */
  function FirstDecisive(h: seq<Event>): Option<Outcome> {
    if h == [] then None
    else
      var before := FirstDecisive(h[..|h| - 1]);
      if before.Some? then before else Decisive(h[..|h| - 1], h[|h| - 1])
  }

  /** The timer: armed at the start and by a rechallenge, disarmed by what settles and by cleanup. */
  function Armed(h: seq<Event>): bool {
    if h == [] then true
    else
      var before, e := h[..|h| - 1], h[|h| - 1];
      if e.CleanedUp? || Decisive(before, e).Some? then false
      else if e.Paused? && IsDocResponse(e.pause) && e.pause.mitigated && FirstFulfillable(before).None? then true
      else Armed(before)
  }

  predicate Cleaned(h: seq<Event>) {
    CleanedUp in h
  }

  /** The one command that answers a pause. */
  function Answer(h: seq<Event>, p: Pause): Command {
    var fulfilled := FirstFulfillable(h).Some?;
    if !fulfilled && Fulfillable(p) then FulfillRequest(p.requestId)
    else if p.Response? then ContinueResponse(p.requestId)
    else if fulfilled && p.challengeFlow then FailRequest(p.requestId)
    else ContinueRequest(p.requestId)
  }

  function Answers(h: seq<Event>): seq<Command> {
    if h == [] then []
    else
      var before, e := h[..|h| - 1], h[|h| - 1];
      if e.Paused? then Answers(before) + [Answer(before, e.pause)] else Answers(before)
  }

  /** Whether `Fetch.fulfillRequest` has been sent and its promise is still open. */
  function AckPending(h: seq<Event>): bool {
    FirstFulfillable(h).Some? && forall e :: e in h ==> !e.Acked?
  }

  /** What the log should say of the document responses: each with its status, its action and its number. */
  function DocDecisions(h: seq<Event>): seq<Decision> {
    if h == [] then []
    else
      var before, e := h[..|h| - 1], h[|h| - 1];
      if e.Paused? && IsDocResponse(e.pause) then
        DocDecisions(before) + [DocDecision(FirstFulfillable(before).Some?, e.pause, DocResponses(before) + 1)]
      else DocDecisions(before)
  }

  function DocDecision(fulfilled: bool, p: Pause, n: nat): Decision
    requires IsDocResponse(p)
  {
    Decision(p.status, p.mitigated, DocAction(fulfilled, p), n)
  }

  // -- The decision log -------------------------------------------------

  function ResponseStage(log: seq<Decision>): seq<Decision> {
    if log == [] then []
    else
      var rest, d := ResponseStage(log[..|log| - 1]), log[|log| - 1];
      if d.action.FulfillRequestStage? then rest else rest + [d]
  }

  lemma ResponseStageSnoc(log: seq<Decision>, d: Decision)
    ensures ResponseStage(log + [d]) == ResponseStage(log) + (if d.action.FulfillRequestStage? then [] else [d])
  {
    assert (log + [d])[..|log|] == log;
  }

  const REQUEST_STAGE := Decision(0, false, FulfillRequestStage, 0)

  /** The log: the decisions on document responses in order, and one more if the request stage fulfilled. */
  ghost predicate LogMatches(log: seq<Decision>, h: seq<Event>) {
    && ResponseStage(log) == DocDecisions(h)
    && |log| == DocResponses(h) + (if FirstFulfillable(h).Some? && FirstFulfillable(h).value.Request? then 1 else 0)
    && (forall i :: 0 <= i < |log| ==> log[i].docIndex <= DocResponses(h))
    && (forall i :: 0 <= i < |log| && log[i].action.FulfillRequestStage? ==> log[i] == REQUEST_STAGE)
  }

  /** So the entries of document responses are numbered 1, 2, ..., n. */
  lemma {:induction false} DocumentsAreNumbered(h: seq<Event>)
    ensures |DocDecisions(h)| == DocResponses(h)
    ensures forall i :: 0 <= i < |DocDecisions(h)| ==> DocDecisions(h)[i].docIndex == i + 1
  {
    if h != [] {
      DocumentsAreNumbered(h[..|h| - 1]);
    }
  }

  lemma LogAddsResponse(log: seq<Decision>, h: seq<Event>, p: Pause)
    requires LogMatches(log, h) && IsDocResponse(p)
    ensures LogMatches(log + [DocDecision(FirstFulfillable(h).Some?, p, DocResponses(h) + 1)], h + [Paused(p)])
  {
    assert (h + [Paused(p)])[..|h|] == h;
    ResponseStageSnoc(log, DocDecision(FirstFulfillable(h).Some?, p, DocResponses(h) + 1));
  }

  lemma LogAddsRequest(log: seq<Decision>, h: seq<Event>, p: Pause)
    requires LogMatches(log, h) && p.Request? && p.ahrefsDocument && FirstFulfillable(h).None?
    ensures LogMatches(log + [REQUEST_STAGE], h + [Paused(p)])
  {
    assert (h + [Paused(p)])[..|h|] == h;
    ResponseStageSnoc(log, REQUEST_STAGE);
  }

  /** `fetchDecisions.some((d) => d.doc_index === n)`. */
  predicate Recorded(log: seq<Decision>, n: nat) {
    exists i :: 0 <= i < |log| && log[i].docIndex == n
  }

  lemma LogBounded(log: seq<Decision>, h: seq<Event>)
    requires LogMatches(log, h)
    ensures !Recorded(log, DocResponses(h) + 1)
  {
  }

  lemma LogKeeps(log: seq<Decision>, h: seq<Event>, e: Event)
    requires LogMatches(log, h)
    requires e.Paused? ==> !IsDocResponse(e.pause) && (Fulfillable(e.pause) ==> FirstFulfillable(h).Some?)
    ensures LogMatches(log, h + [e])
  {
    assert (h + [e])[..|h|] == h;
  }

  /** How the closed forms take one more event. */
  lemma OneMore(h: seq<Event>, e: Event)
    ensures FirstFulfillable(h + [e])
            == if FirstFulfillable(h).None? && e.Paused? && Fulfillable(e.pause) then Some(e.pause)
               else FirstFulfillable(h)
    ensures Requests(h + [e]) == Requests(h) + (if e.Paused? && e.pause.Request? then 1 else 0)
    ensures Responses(h + [e]) == Responses(h) + (if e.Paused? && e.pause.Response? then 1 else 0)
    ensures DocResponses(h + [e]) == DocResponses(h) + (if e.Paused? && IsDocResponse(e.pause) then 1 else 0)
    ensures FirstDecisive(h + [e]) == if FirstDecisive(h).Some? then FirstDecisive(h) else Decisive(h, e)
    ensures Armed(h + [e])
            == if e.CleanedUp? || Decisive(h, e).Some? then false
               else if e.Paused? && IsDocResponse(e.pause) && e.pause.mitigated && FirstFulfillable(h).None? then true
               else Armed(h)
    ensures Answers(h + [e]) == Answers(h) + (if e.Paused? then [Answer(h, e.pause)] else [])
  {
    assert (h + [e])[..|h|] == h;
  }

  /** The document is refused by the origin itself, and not mitigated. */
  predicate Refused(p: Pause) {
    p.Response? && p.ahrefsDocument && !p.mitigated && (p.status == 403 || p.status == 429)
  }

  class Interception {
    var fulfilled: bool
    var settled: bool
    var requestCount: nat
    var responseCount: nat
    var docResponseCount: nat
    var fetchDecisions: seq<Decision>
    var timer: nat              // the handle last returned by `setTimeout`
    var nextTimer: nat          // the handle the runtime returns next
    var outcome: Option<Outcome>

    // the surroundings: which timers are running, which commands were sent
    ghost var running: set<nat>
    ghost var sent: seq<Command>
    ghost var settlements: nat
    ghost var history: seq<Event>

    ghost predicate Valid()
      reads this
    {
      && fulfilled == FirstFulfillable(history).Some?
      && requestCount == Requests(history)
      && responseCount == Responses(history)
      && docResponseCount == DocResponses(history)
      && LogMatches(fetchDecisions, history)
      && outcome == FirstDecisive(history) && settled == outcome.Some?
      && settlements == (if settled then 1 else 0)
      && running == (if Armed(history) then {timer} else {})
      && timer < nextTimer
      && sent == Answers(history)
    }

    constructor ()
      ensures Valid() && history == []
    {
      fulfilled, settled, outcome := false, false, None;
      requestCount, responseCount, docResponseCount := 0, 0, 0;
      fetchDecisions, sent, history, settlements := [], [], [], 0;
      timer, nextTimer, running := 0, 1, {0};
    }

    method ClearTimer()
      modifies `running
      ensures running == old(running) - {timer}
    {
      running := running - {timer};
    }

    method SetTimer()
      modifies `running, `timer, `nextTimer
      ensures timer == old(nextTimer) && nextTimer == old(nextTimer) + 1
      ensures running == old(running) + {timer}
    {
      timer, nextTimer := nextTimer, nextTimer + 1;
      running := running + {timer};
    }

    /** `if (!settled) { settled = true; ... }`, the guard in front of every settlement. */
    method Settle(o: Outcome)
      modifies `settled, `outcome, `settlements
      ensures settled
      ensures if old(settled) then outcome == old(outcome) && settlements == old(settlements)
              else outcome == Some(o) && settlements == old(settlements) + 1
    {
      if !settled {
        settled := true;
        outcome := Some(o);
        settlements := settlements + 1;
      }
    }

    method Log(d: Decision)
      modifies `fetchDecisions
      ensures fetchDecisions == old(fetchDecisions) + [d]
    {
      fetchDecisions := fetchDecisions + [d];
    }

    method Send(c: Command)
      modifies `sent
      ensures sent == old(sent) + [c]
    {
      sent := sent + [c];
    }

    /** The handler for an ahrefs document at the response stage, branch by branch. */
    method HandleDocument(p: Pause)
      requires IsDocResponse(p) && !Recorded(fetchDecisions, docResponseCount + 1)
      modifies this
      ensures fulfilled == (old(fulfilled) || Fulfillable(p))
      ensures responseCount == old(responseCount) + 1 && docResponseCount == old(docResponseCount) + 1
      ensures fetchDecisions
              == old(fetchDecisions) + [DocDecision(old(fulfilled), p, docResponseCount)]
      ensures sent
              == old(sent) + [if !old(fulfilled) && Fulfillable(p) then FulfillRequest(p.requestId)
                              else ContinueResponse(p.requestId)]
      ensures if !old(fulfilled) && p.mitigated then
                running == old(running) - {old(timer)} + {timer} && timer == old(nextTimer) && nextTimer == timer + 1
              else
                && timer == old(timer) && nextTimer == old(nextTimer)
                && running == if Blocks(old(fulfilled), p) then old(running) - {timer} else old(running)
      ensures if Blocks(old(fulfilled), p) && !old(settled) then
                settled && outcome == Some(RateLimited(p.status)) && settlements == old(settlements) + 1
              else
                settled == old(settled) && outcome == old(outcome) && settlements == old(settlements)
      ensures requestCount == old(requestCount) && history == old(history)
    {
      responseCount := responseCount + 1;
      docResponseCount := docResponseCount + 1;
      if p.status == 200 && !p.mitigated && !fulfilled {
        Log(Decision(p.status, false, Fulfill, docResponseCount));
        fulfilled := true;
        Send(FulfillRequest(p.requestId));
        return;
      }
      if p.mitigated && !fulfilled {
        Log(Decision(p.status, true, ContinueRechallenge, docResponseCount));
        assert fetchDecisions[|fetchDecisions| - 1].docIndex == docResponseCount;
        ClearTimer();
        SetTimer();
      }
      if p.status in RATE_LIMIT_STATUSES && !p.mitigated && !fulfilled {
        if !Recorded(fetchDecisions, docResponseCount) {
          Log(Decision(p.status, false, ContinueOther, docResponseCount));
        }
        Send(ContinueResponse(p.requestId));
        ClearTimer();
        Settle(RateLimited(p.status));
        return;
      }
      if !Recorded(fetchDecisions, docResponseCount) {
        var action := if fulfilled then ContinueAlreadyFulfilled else ContinueOther;
        Log(Decision(p.status, p.mitigated, action, docResponseCount));
      }
      Send(ContinueResponse(p.requestId));
    }

    method OnDocResponse(p: Pause)
      requires Valid() && IsDocResponse(p) && !Cleaned(history)
      modifies this
      ensures Valid() && history == old(history) + [Paused(p)]
      ensures var serves := !old(fulfilled) && p.status == 200 && !p.mitigated;
              && sent == old(sent) + [if serves then FulfillRequest(p.requestId) else ContinueResponse(p.requestId)]
              && fulfilled == (old(fulfilled) || serves)
      ensures outcome == if !old(settled) && !old(fulfilled) && Refused(p) then Some(RateLimited(p.status))
                         else old(outcome)
      ensures !old(fulfilled) && Refused(p) ==> running == {}
      ensures if !old(fulfilled) && p.mitigated then timer == old(nextTimer) && running == {timer}
              else timer == old(timer)
      ensures requestCount == old(requestCount) && responseCount == old(responseCount) + 1
      ensures docResponseCount == old(docResponseCount) + 1
      ensures var action := if old(fulfilled) then ContinueAlreadyFulfilled
                            else if p.mitigated then ContinueRechallenge
                            else if p.status == 200 then Fulfill
                            else ContinueOther;
              fetchDecisions == old(fetchDecisions) + [Decision(p.status, p.mitigated, action, docResponseCount)]
    {
      hide LogMatches, FirstDecisive, FirstFulfillable, Armed, Answers, Requests, Responses, DocResponses;
      OneMore(history, Paused(p));
      LogBounded(fetchDecisions, history);
      LogAddsResponse(fetchDecisions, history, p);
      HandleDocument(p);
      history := history + [Paused(p)];
    }

    method OnOtherResponse(p: Pause)
      requires Valid() && p.Response? && !p.ahrefsDocument && !Cleaned(history)
      modifies this
      ensures Valid() && history == old(history) + [Paused(p)]
      ensures sent == old(sent) + [ContinueResponse(p.requestId)] && responseCount == old(responseCount) + 1
      ensures requestCount == old(requestCount) && docResponseCount == old(docResponseCount)
      ensures fulfilled == old(fulfilled) && outcome == old(outcome)
      ensures timer == old(timer) && fetchDecisions == old(fetchDecisions)
    {
      hide LogMatches, FirstDecisive, FirstFulfillable, Armed, Answers, Requests, Responses, DocResponses;
      OneMore(history, Paused(p));
      LogKeeps(fetchDecisions, history, Paused(p));
      history := history + [Paused(p)];
      responseCount := responseCount + 1;
      Send(ContinueResponse(p.requestId));
    }

    method OnRequest(p: Pause)
      requires Valid() && p.Request? && !Cleaned(history)
      modifies this
      ensures Valid() && history == old(history) + [Paused(p)]
      ensures sent == old(sent) + [if !old(fulfilled) && p.ahrefsDocument then FulfillRequest(p.requestId)
                                   else if old(fulfilled) && p.challengeFlow then FailRequest(p.requestId)
                                   else ContinueRequest(p.requestId)]
      ensures requestCount == old(requestCount) + 1
      ensures responseCount == old(responseCount) && docResponseCount == old(docResponseCount)
      ensures fulfilled == (old(fulfilled) || p.ahrefsDocument) && outcome == old(outcome)
      ensures timer == old(timer)
      ensures fetchDecisions == if old(fulfilled) || !p.ahrefsDocument then old(fetchDecisions)
                                else old(fetchDecisions) + [Decision(0, false, FulfillRequestStage, 0)]
    {
      hide LogMatches, FirstDecisive, FirstFulfillable, Armed, Answers, Requests, Responses, DocResponses;
      OneMore(history, Paused(p));
      if !fulfilled && p.ahrefsDocument {
        LogAddsRequest(fetchDecisions, history, p);
      } else {
        LogKeeps(fetchDecisions, history, Paused(p));
      }
      history := history + [Paused(p)];
      requestCount := requestCount + 1;
      if fulfilled && p.challengeFlow {
        Send(FailRequest(p.requestId));
        return;
      }
      if !fulfilled && p.ahrefsDocument {
        Log(Decision(0, false, FulfillRequestStage, 0));
        fulfilled := true;
        Send(FulfillRequest(p.requestId));
        return;
      }
      Send(ContinueRequest(p.requestId));
    }

    /** `Fetch.requestPaused`; cleanup unregisters it. */
    method OnPaused(p: Pause)
      requires Valid() && !Cleaned(history)
      modifies this
      ensures Valid() && history == old(history) + [Paused(p)]
      ensures sent[..|old(sent)|] == old(sent) && |sent| == |old(sent)| + 1
      ensures p.Request? ==>
                sent[|old(sent)|] == if !old(fulfilled) && p.ahrefsDocument then FulfillRequest(p.requestId)
                                     else if old(fulfilled) && p.challengeFlow then FailRequest(p.requestId)
                                     else ContinueRequest(p.requestId)
      ensures p.Response? ==>
                sent[|old(sent)|] == if !old(fulfilled) && p.ahrefsDocument && p.status == 200 && !p.mitigated
                                     then FulfillRequest(p.requestId) else ContinueResponse(p.requestId)
      ensures fulfilled <==> old(fulfilled) || sent[|old(sent)|].FulfillRequest?
      ensures outcome == if !old(settled) && !old(fulfilled) && Refused(p) then Some(RateLimited(p.status))
                         else old(outcome)
      ensures !old(fulfilled) && Refused(p) ==> running == {}
      ensures if !old(fulfilled) && p.Response? && p.ahrefsDocument && p.mitigated
              then timer == old(nextTimer) && running == {timer}
              else timer == old(timer)
      ensures requestCount == old(requestCount) + (if p.Request? then 1 else 0)
      ensures responseCount == old(responseCount) + (if p.Response? then 1 else 0)
      ensures docResponseCount == old(docResponseCount) + (if p.Response? && p.ahrefsDocument then 1 else 0)
      ensures p.Response? && p.ahrefsDocument ==>
                var action := if old(fulfilled) then ContinueAlreadyFulfilled
                              else if p.mitigated then ContinueRechallenge
                              else if p.status == 200 then Fulfill
                              else ContinueOther;
                fetchDecisions == old(fetchDecisions) + [Decision(p.status, p.mitigated, action, docResponseCount)]
      ensures p.Request? && p.ahrefsDocument && !old(fulfilled) ==>
                fetchDecisions == old(fetchDecisions) + [Decision(0, false, FulfillRequestStage, 0)]
      ensures !p.ahrefsDocument || (p.Request? && old(fulfilled)) ==> fetchDecisions == old(fetchDecisions)
    {
      hide LogMatches, FirstDecisive, FirstFulfillable, Armed, Answers, Requests, Responses, DocResponses;
      if p.Request? {
        OnRequest(p);
      } else if p.ahrefsDocument {
        OnDocResponse(p);
      } else {
        OnOtherResponse(p);
      }
    }

    /** The promise of the fulfil command settles, once, and possibly after cleanup. */
    method OnAck(ok: bool)
      requires Valid() && AckPending(history)
      modifies this
      ensures Valid() && history == old(history) + [Acked(ok)] && settled
      ensures outcome == if old(settled) then old(outcome) else if ok then Some(Resolved) else Some(FulfillFailed)
      ensures running == {} && fulfilled == old(fulfilled) && sent == old(sent)
    {
      hide LogMatches, FirstDecisive, FirstFulfillable, Armed, Answers, Requests, Responses, DocResponses;
      OneMore(history, Acked(ok));
      LogKeeps(fetchDecisions, history, Acked(ok));
      history := history + [Acked(ok)];
      ClearTimer();
      Settle(if ok then Resolved else FulfillFailed);
    }

    /** A running timer fires. */
    method OnTimer(t: nat)
      requires Valid() && t in running
      modifies this
      ensures Valid() && history == old(history) + [TimerFired] && settled
      ensures outcome == if old(settled) then old(outcome)
                         else Some(TimedOut(requestCount, responseCount, docResponseCount))
      ensures requestCount == old(requestCount) && responseCount == old(responseCount)
      ensures docResponseCount == old(docResponseCount) && fulfilled == old(fulfilled) && sent == old(sent)
    {
      hide LogMatches, FirstDecisive, FirstFulfillable, Armed, Answers, Requests, Responses, DocResponses;
      OneMore(history, TimerFired);
      LogKeeps(fetchDecisions, history, TimerFired);
      history := history + [TimerFired];
      running := running - {t};
      Settle(TimedOut(requestCount, responseCount, docResponseCount));
    }

    method Cleanup()
      requires Valid()
      modifies this
      ensures Valid() && history == old(history) + [CleanedUp]
      ensures running == {} && outcome == old(outcome) && fulfilled == old(fulfilled) && sent == old(sent)
    {
      hide LogMatches, FirstDecisive, FirstFulfillable, Armed, Answers, Requests, Responses, DocResponses;
      OneMore(history, CleanedUp);
      LogKeeps(fetchDecisions, history, CleanedUp);
      history := history + [CleanedUp];
      ClearTimer();
    }
  }

  // -- Laws of the closed forms -----------------------------------------

  /** While nothing is decided and nothing is cleaned up, the timer is running. */
  lemma {:induction false} UnsettledIsTimed(h: seq<Event>)
    requires FirstDecisive(h).None? && !Cleaned(h)
    ensures Armed(h)
  {
    if h != [] {
      UnsettledIsTimed(h[..|h| - 1]);
    }
  }

  /** In every reachable state: never two timers, and exactly one while the wait is on. */
  lemma ExactlyOneTimer(i: Interception)
    requires i.Valid()
    ensures |i.running| <= 1
    ensures !i.settled && !Cleaned(i.history) ==> i.running == {i.timer}
  {
    if !i.settled && !Cleaned(i.history) {
      UnsettledIsTimed(i.history);
    }
  }

  /** Once settled, always settled the same way: the promise settles at most once. */
  lemma {:induction false} OutcomeIsFinal(h: seq<Event>, more: seq<Event>)
    requires FirstDecisive(h).Some?
    ensures FirstDecisive(h + more) == FirstDecisive(h)
  {
    if more == [] {
      assert h + more == h;
    } else {
      assert (h + more)[..|h + more| - 1] == h + more[..|more| - 1];
      OutcomeIsFinal(h, more[..|more| - 1]);
    }
  }

  /** The outcome is the verdict of one event of the run, and no earlier event was decisive. */
  lemma {:induction false} OutcomeIsFirst(h: seq<Event>) returns (i: nat)
    requires FirstDecisive(h).Some?
    ensures i < |h| && Decisive(h[..i], h[i]) == FirstDecisive(h)
    ensures forall j :: 0 <= j < i ==> Decisive(h[..j], h[j]).None?
  {
    var init := h[..|h| - 1];
    if FirstDecisive(init).Some? {
      i := OutcomeIsFirst(init);
      assert h[..i] == init[..i];
      forall j | 0 <= j < i ensures Decisive(h[..j], h[j]).None? {
        assert h[..j] == init[..j];
      }
    } else {
      i := |h| - 1;
      forall j | 0 <= j < i ensures Decisive(h[..j], h[j]).None? {
        NoneDecisive(init, j);
        assert h[..j] == init[..j];
      }
    }
  }

  lemma {:induction false} NoneDecisive(h: seq<Event>, j: nat)
    requires FirstDecisive(h).None? && j < |h|
    ensures Decisive(h[..j], h[j]).None?
  {
    var init := h[..|h| - 1];
    if j < |h| - 1 {
      NoneDecisive(init, j);
      assert h[..j] == init[..j];
    }
  }

  // What decides, said of the events alone.

  /** Before position `j` the main document was asked for, or came back in good order. */
  ghost predicate ServedBefore(h: seq<Event>, j: nat)
    requires j <= |h|
  {
    exists k :: 0 <= k < j && h[k].Paused? && Servable(h[k].pause)
  }

  predicate Servable(p: Pause) {
    p.ahrefsDocument && (p.Request? || (p.status == 200 && !p.mitigated))
  }

  ghost predicate Decides(h: seq<Event>, j: nat)
    requires j < |h|
  {
    h[j].Acked? || h[j].TimerFired? || (h[j].Paused? && Refused(h[j].pause) && !ServedBefore(h, j))
  }

  /** The events before position `j` that are pauses of one kind. */
  ghost function PausesBefore(h: seq<Event>, j: nat, kind: Pause -> bool): set<nat>
    requires j <= |h|
  {
    set k | 0 <= k < j && h[k].Paused? && kind(h[k].pause)
  }

  /** Event `j` leads to outcome `o`. */
  ghost predicate LeadsTo(h: seq<Event>, j: nat, o: Outcome)
    requires j < |h|
  {
    match o
    case Resolved => h[j] == Acked(true)
    case FulfillFailed => h[j] == Acked(false)
    case TimedOut(requests, responses, documents) =>
      && h[j].TimerFired?
      && requests == |PausesBefore(h, j, (p: Pause) => p.Request?)|
      && responses == |PausesBefore(h, j, (p: Pause) => p.Response?)|
      && documents == |PausesBefore(h, j, (p: Pause) => p.Response? && p.ahrefsDocument)|
    case RateLimited(status) => h[j].Paused? && Refused(h[j].pause) && h[j].pause.status == status
  }

  lemma {:induction false} FulfilledIsServed(h: seq<Event>, j: nat)
    requires j <= |h|
    ensures FirstFulfillable(h[..j]).Some? <==> ServedBefore(h, j)
  {
    if j > 0 {
      FulfilledIsServed(h, j - 1);
      assert h[..j][..j - 1] == h[..j - 1];
      assert ServedBefore(h, j) <==> ServedBefore(h, j - 1) || (h[j - 1].Paused? && Servable(h[j - 1].pause)) by {
        hide Servable;
        if k :| 0 <= k < j && h[k].Paused? && Servable(h[k].pause) {
          assert k < j - 1 || k == j - 1;
        }
      }
    }
  }

  lemma PausesAddOne(h: seq<Event>, j: nat, kind: Pause -> bool)
    requires j < |h|
    ensures |PausesBefore(h, j + 1, kind)|
            == |PausesBefore(h, j, kind)| + (if h[j].Paused? && kind(h[j].pause) then 1 else 0)
  {
    var one: set<nat> := if h[j].Paused? && kind(h[j].pause) then {j} else {};
    assert PausesBefore(h, j + 1, kind) == PausesBefore(h, j, kind) + one;
  }

  lemma {:induction false} CountersCount(h: seq<Event>, j: nat)
    requires j <= |h|
    ensures Requests(h[..j]) == |PausesBefore(h, j, (p: Pause) => p.Request?)|
    ensures Responses(h[..j]) == |PausesBefore(h, j, (p: Pause) => p.Response?)|
    ensures DocResponses(h[..j]) == |PausesBefore(h, j, (p: Pause) => p.Response? && p.ahrefsDocument)|
  {
    if j > 0 {
      CountersCount(h, j - 1);
      assert h[..j][..j - 1] == h[..j - 1];
      PausesAddOne(h, j - 1, (p: Pause) => p.Request?);
      PausesAddOne(h, j - 1, (p: Pause) => p.Response?);
      PausesAddOne(h, j - 1, (p: Pause) => p.Response? && p.ahrefsDocument);
      hide PausesBefore;
    }
  }

  lemma DecisiveDecides(h: seq<Event>, j: nat)
    requires j < |h|
    ensures Decisive(h[..j], h[j]).Some? <==> Decides(h, j)
    ensures Decides(h, j) ==> LeadsTo(h, j, Decisive(h[..j], h[j]).value)
  {
    FulfilledIsServed(h, j);
    CountersCount(h, j);
    hide PausesBefore, ServedBefore, FirstFulfillable, Requests, Responses, DocResponses;
  }

  /**
   In any state, whatever led to it: there is an outcome exactly if some event
   decided, and it is the one that the first such event leads to. A successful
   fulfilment resolves, a failed one and a time-out reject, a refusal rejects.
   */
  lemma OutcomeExplained(i: Interception)
    requires i.Valid()
    ensures i.outcome.Some? <==> exists j :: 0 <= j < |i.history| && Decides(i.history, j)
    ensures forall j :: 0 <= j < |i.history| && Decides(i.history, j) &&
                        (forall k :: 0 <= k < j ==> !Decides(i.history, k)) ==>
              LeadsTo(i.history, j, i.outcome.value)
  {
    var h := i.history;
    hide Decides, Decisive, LeadsTo, FirstDecisive, LogMatches;
    forall j | 0 <= j < |h|
      ensures Decisive(h[..j], h[j]).Some? <==> Decides(h, j)
      ensures Decides(h, j) ==> LeadsTo(h, j, Decisive(h[..j], h[j]).value)
    {
      DecisiveDecides(h, j);
    }
    if i.outcome.Some? {
      var j := OutcomeIsFirst(h);
      assert Decides(h, j);
    } else {
      forall j | 0 <= j < |h| ensures !Decides(h, j) {
        NoneDecisive(h, j);
      }
    }
  }

  function PausedIds(h: seq<Event>): seq<nat> {
    if h == [] then []
    else
      var before, e := PausedIds(h[..|h| - 1]), h[|h| - 1];
      if e.Paused? then before + [e.pause.requestId] else before
  }

  /** Every pause is answered by exactly one command, and in order. */
  lemma {:induction false} OneAnswerEach(h: seq<Event>)
    ensures |Answers(h)| == |PausedIds(h)|
    ensures forall i :: 0 <= i < |Answers(h)| ==> Answers(h)[i].requestId == PausedIds(h)[i]
  {
    if h != [] {
      OneAnswerEach(h[..|h| - 1]);
    }
  }

  /** `Fetch.fulfillRequest` is sent at most once, and exactly when some pause was fulfillable. */
  lemma {:induction false} FulfilledOnce(h: seq<Event>)
    ensures (exists i :: 0 <= i < |Answers(h)| && Answers(h)[i].FulfillRequest?) <==> FirstFulfillable(h).Some?
    ensures forall i, j :: 0 <= i < j < |Answers(h)| && Answers(h)[i].FulfillRequest? ==> !Answers(h)[j].FulfillRequest?
  {
    if h != [] {
      var init := h[..|h| - 1];
      FulfilledOnce(init);
      if FirstFulfillable(init).Some? {
        var i :| 0 <= i < |Answers(init)| && Answers(init)[i].FulfillRequest?;
        assert Answers(h)[i].FulfillRequest?;
      } else if h[|h| - 1].Paused? {
        assert Answers(h)[|Answers(init)|] == Answer(init, h[|h| - 1].pause);
      }
    }
  }
}
