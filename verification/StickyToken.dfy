/**
 The sticky session token, and the `scrape` calls that share it: any number of
 them run concurrently, and each block of code that follows an attempt runs
 without yielding.
 */
module StickyToken {
  import opened Prelude

  datatype ScrapeError =
    | ApiError(cfBlocked: bool, invalidCaptcha: bool)
    | BacklinksFetchFailed(typedApiErrorsCf: seq<bool>)
    | TurnstileTimeoutError(pending: bool)
    | RateLimitedError
    | ProxyEgressDeadError
    | OtherError

  /** Failures that a fresh egress address can cure. */
  predicate IsBlockTrigger(error: Option<ScrapeError>) {
    match error
    case None => false
    case Some(ApiError(cfBlocked, invalidCaptcha)) => cfBlocked || invalidCaptcha
    case Some(BacklinksFetchFailed(cf)) => true in cf
    case Some(TurnstileTimeoutError(pending)) => pending
    case Some(RateLimitedError) => true
    case Some(ProxyEgressDeadError) => true
    case Some(OtherError) => false
  }

  class SessionTokenHolder {
    const generate: nat -> string
    var token: string
    var servesOnToken: nat
    var minted: nat              // how many tokens have been generated

    ghost predicate Valid()
      reads this
    {
      minted > 0 && token == generate(minted - 1)
    }

    constructor (generate: nat -> string)
      ensures Valid() && servesOnToken == 0 && minted == 1
    {
      this.generate := generate;
      token, servesOnToken, minted := generate(0), 0, 1;
    }

    method Current() returns (t: string)
      requires Valid()
      ensures t == generate(minted - 1)
    {
      t := token;
    }

    method RecordServe()
      requires Valid()
      modifies `servesOnToken
      ensures Valid() && servesOnToken == old(servesOnToken) + 1
    {
      servesOnToken := servesOnToken + 1;
    }

    /** Stable until a block: anything else leaves token and counter alone. */
    method Observe(error: Option<ScrapeError>) returns (rotated: bool)
      requires Valid()
      modifies this
      ensures Valid() && rotated == IsBlockTrigger(error)
      ensures error.None? ==> !rotated
      ensures error.Some? ==>
                match error.value
                case ApiError(cfBlocked, invalidCaptcha) => rotated <==> cfBlocked || invalidCaptcha
                case BacklinksFetchFailed(cf) => rotated <==> exists i :: 0 <= i < |cf| && cf[i]
                case TurnstileTimeoutError(pending) => rotated <==> pending
                case RateLimitedError => rotated
                case ProxyEgressDeadError => rotated
                case OtherError => !rotated
      ensures rotated ==> minted == old(minted) + 1 && servesOnToken == 0
      ensures !rotated ==> minted == old(minted) && servesOnToken == old(servesOnToken) && token == old(token)
    {
      if !IsBlockTrigger(error) {
        return false;
      }
      token, minted := generate(minted), minted + 1;
      servesOnToken := 0;
      rotated := true;
    }
  }

  datatype Output = Output(success: bool, scrapeError: Option<ScrapeError>)

  /** The first attempt failed in a way that a retry on a fresh token may cure. */
  predicate Blocked(o: Output) {
    !o.success && IsBlockTrigger(o.scrapeError)
  }

  datatype Progress = Attempting | Returned | Aborted

  /** One `scrape` call: the outputs of its finished attempts, and the rotations it made. */
  datatype Scrape = Scrape(progress: Progress, outputs: seq<Output>, rotations: nat)

  /** What a call may look like at any time. */
  ghost predicate WellRun(s: Scrape) {
    match |s.outputs|
    case 0 => s.progress != Returned && s.rotations == 0
    case 1 =>
      if Blocked(s.outputs[0]) then s.progress != Returned && s.rotations == 1
      else s.progress == Returned && s.rotations == 0
    case 2 =>
      && Blocked(s.outputs[0]) && s.progress == Returned
      && s.rotations == 1 + (if IsBlockTrigger(s.outputs[1].scrapeError) then 1 else 0)
    case _ => false
  }

  function Sum(counts: seq<nat>): nat {
    if counts == [] then 0 else Sum(counts[..|counts| - 1]) + counts[|counts| - 1]
  }

  lemma SumSnoc(counts: seq<nat>, n: nat)
    ensures Sum(counts + [n]) == Sum(counts) + n
  {
    assert (counts + [n])[..|counts|] == counts;
  }

  lemma {:induction false} SumUpdate(counts: seq<nat>, i: nat, n: nat)
    requires i < |counts|
    ensures Sum(counts[i := n]) == Sum(counts) - counts[i] + n
  {
    var last := |counts| - 1;
    if i < last {
      SumUpdate(counts[..last], i, n);
      assert counts[i := n][..last] == counts[..last][i := n];
    } else {
      assert counts[i := n][..last] == counts[..last];
    }
  }

  function Attempts(scrapes: seq<Scrape>): seq<nat> {
    seq(|scrapes|, i requires 0 <= i < |scrapes| => |scrapes[i].outputs|)
  }

  function Rotations(scrapes: seq<Scrape>): seq<nat> {
    seq(|scrapes|, i requires 0 <= i < |scrapes| => scrapes[i].rotations)
  }

  lemma Replaced(scrapes: seq<Scrape>, i: nat, s: Scrape)
    requires i < |scrapes|
    ensures Sum(Attempts(scrapes[i := s])) == Sum(Attempts(scrapes)) - |scrapes[i].outputs| + |s.outputs|
    ensures Sum(Rotations(scrapes[i := s])) == Sum(Rotations(scrapes)) - scrapes[i].rotations + s.rotations
  {
    SumUpdate(Attempts(scrapes), i, |s.outputs|);
    SumUpdate(Rotations(scrapes), i, s.rotations);
    assert Attempts(scrapes[i := s]) == Attempts(scrapes)[i := |s.outputs|];
    assert Rotations(scrapes[i := s]) == Rotations(scrapes)[i := s.rotations];
  }

  /** A reading is taken only at a rotation. */
  function Read(readings: seq<nat>, rotated: bool, serves: nat): seq<nat> {
    if rotated then readings + [serves] else readings
  }

  lemma AttemptIsWellRun(s: Scrape, o: Output)
    requires WellRun(s) && s.progress == Attempting
    ensures WellRun(AfterAttempt(s, o))
    ensures |AfterAttempt(s, o).outputs| == |s.outputs| + 1
    ensures AfterAttempt(s, o).rotations == s.rotations + (if Rotates(s, o) then 1 else 0)
    ensures if s.outputs == [] then s == Scrape(Attempting, [], 0) && (Rotates(s, o) <==> Blocked(o))
            else |s.outputs| == 1 && s.rotations == 1 && (Rotates(s, o) <==> IsBlockTrigger(o.scrapeError))
  {
  }

  lemma AttemptEnds(s: Scrape, o: Output)
    ensures var first, t := s.outputs == [], AfterAttempt(s, o);
            && (Rotates(s, o) <==> IsBlockTrigger(o.scrapeError) && (first ==> !o.success))
            && t.outputs == s.outputs + [o]
            && t.progress == if first && Rotates(s, o) then Attempting else Returned
  {
  }

  class AhrefsSessionManager {
    const holder: SessionTokenHolder
    var scrapes: seq<Scrape>
    var servesBeforeBlock: seq<nat>   // the counts read at rotations, for the histogram

    /**
     Conservation, whatever the interleaving: every finished attempt is counted
     once, either in a reading taken at a rotation or on the current token.
     */
    ghost predicate Valid()
      reads this, holder
    {
      && holder.Valid()
      && (forall i :: 0 <= i < |scrapes| ==> WellRun(scrapes[i]))
      && Sum(servesBeforeBlock) + holder.servesOnToken == Sum(Attempts(scrapes))
      && |servesBeforeBlock| == Sum(Rotations(scrapes)) == holder.minted - 1
      && (forall i :: 0 <= i < |servesBeforeBlock| ==> servesBeforeBlock[i] >= 1)
    }

    constructor (generate: nat -> string)
      ensures Valid() && fresh(holder) && scrapes == []
    {
      holder := new SessionTokenHolder(generate);
      scrapes, servesBeforeBlock := [], [];
    }

    method Start()
      requires Valid()
      modifies this
      ensures Valid() && scrapes == old(scrapes) + [Scrape(Attempting, [], 0)]
      ensures servesBeforeBlock == old(servesBeforeBlock)
    {
      SumSnoc(Attempts(scrapes), 0);
      SumSnoc(Rotations(scrapes), 0);
      scrapes := scrapes + [Scrape(Attempting, [], 0)];
      assert Attempts(scrapes) == Attempts(old(scrapes)) + [0];
      assert Rotations(scrapes) == Rotations(old(scrapes)) + [0];
    }

    /** An attempt fails outside the scrape proper: the call fails and no serve is recorded. */
    method OnAttemptAborted(i: nat)
      requires Valid() && i < |scrapes| && scrapes[i].progress == Attempting
      modifies this
      ensures Valid() && scrapes == old(scrapes)[i := old(scrapes[i]).(progress := Aborted)]
      ensures servesBeforeBlock == old(servesBeforeBlock)
    {
      Replaced(scrapes, i, scrapes[i].(progress := Aborted));
      scrapes := scrapes[i := scrapes[i].(progress := Aborted)];
    }

    /** The uninterrupted block after an attempt that produced an output. */
    method OnAttemptDone(i: nat, output: Output)
      requires Valid() && i < |scrapes| && scrapes[i].progress == Attempting
      modifies this, holder
      ensures Valid() && |scrapes| == |old(scrapes)| && scrapes[i].outputs == old(scrapes[i]).outputs + [output]
      ensures forall k :: 0 <= k < |scrapes| && k != i ==> scrapes[k] == old(scrapes[k])
      ensures var first, rotated := old(scrapes[i]).outputs == [], holder.minted != old(holder.minted);
              && (rotated <==> IsBlockTrigger(output.scrapeError) && (first ==> !output.success))
              && (scrapes[i].progress == if first && rotated then Attempting else Returned)
              && holder.minted == old(holder.minted) + (if rotated then 1 else 0)
              && holder.servesOnToken == (if rotated then 0 else old(holder.servesOnToken) + 1)
              && servesBeforeBlock
                 == old(servesBeforeBlock) + (if rotated then [old(holder.servesOnToken) + 1] else [])
    {
      AttemptEnds(scrapes[i], output);
      hide WellRun, Sum, Attempts, Rotations, AfterAttempt, Rotates, IsBlockTrigger, Blocked;
      RecordAttempt(i, output);
    }

    /** The same in terms of what becomes of the call. */
    method RecordAttempt(i: nat, output: Output)
      requires Valid() && i < |scrapes| && scrapes[i].progress == Attempting
      modifies this, holder
      ensures Valid()
      ensures scrapes == old(scrapes)[i := AfterAttempt(old(scrapes[i]), output)]
      ensures var rotates := Rotates(old(scrapes[i]), output);
              && servesBeforeBlock == Read(old(servesBeforeBlock), rotates, old(holder.servesOnToken) + 1)
              && holder.minted == old(holder.minted) + (if rotates then 1 else 0)
              && holder.servesOnToken == if rotates then 0 else old(holder.servesOnToken) + 1
    {
      hide Sum, Attempts, Rotations, WellRun, AfterAttempt;
      AttemptIsWellRun(scrapes[i], output);
      Replaced(scrapes, i, AfterAttempt(scrapes[i], output));
      SumSnoc(servesBeforeBlock, holder.servesOnToken + 1);
      if scrapes[i].outputs == [] {
        FirstAttemptDone(i, output);
      } else {
        SecondAttemptDone(i, output);
      }
    }

    method FirstAttemptDone(i: nat, output: Output)
      requires holder.Valid() && i < |scrapes| && scrapes[i] == Scrape(Attempting, [], 0)
      modifies this, holder
      ensures holder.Valid() && scrapes == old(scrapes)[i := AfterAttempt(old(scrapes[i]), output)]
      ensures servesBeforeBlock == Read(old(servesBeforeBlock), Blocked(output), old(holder.servesOnToken) + 1)
      ensures holder.minted == old(holder.minted) + (if Blocked(output) then 1 else 0)
      ensures holder.servesOnToken == if Blocked(output) then 0 else old(holder.servesOnToken) + 1
    {
      assert scrapes[i].outputs + [output] == [output];
      holder.RecordServe();
      if output.success {
        scrapes := scrapes[i := Scrape(Returned, [output], 0)];
        return;
      }
      var serves := holder.servesOnToken;
      var rotated := holder.Observe(output.scrapeError);
      if !rotated {
        scrapes := scrapes[i := Scrape(Returned, [output], 0)];
        return;
      }
      servesBeforeBlock := servesBeforeBlock + [serves];
      scrapes := scrapes[i := Scrape(Attempting, [output], 1)];
    }

    method SecondAttemptDone(i: nat, output: Output)
      requires holder.Valid() && i < |scrapes| && scrapes[i].progress == Attempting
      requires |scrapes[i].outputs| == 1 && scrapes[i].rotations == 1
      modifies this, holder
      ensures holder.Valid() && scrapes == old(scrapes)[i := AfterAttempt(old(scrapes[i]), output)]
      ensures var trailing := IsBlockTrigger(output.scrapeError);
              && servesBeforeBlock == Read(old(servesBeforeBlock), trailing, old(holder.servesOnToken) + 1)
              && holder.minted == old(holder.minted) + (if trailing then 1 else 0)
              && holder.servesOnToken == if trailing then 0 else old(holder.servesOnToken) + 1
    {
      holder.RecordServe();
      var serves := holder.servesOnToken;
      var trailingRotated := holder.Observe(output.scrapeError);
      if trailingRotated {
        servesBeforeBlock := servesBeforeBlock + [serves];
      }
      var s := scrapes[i];
      scrapes := scrapes[i := Scrape(Returned, s.outputs + [output], if trailingRotated then 2 else 1)];
    }
  }

  /** Whether the output ends the current token. */
  predicate Rotates(s: Scrape, o: Output) {
    if s.outputs == [] then Blocked(o) else IsBlockTrigger(o.scrapeError)
  }

  function AfterAttempt(s: Scrape, o: Output): Scrape {
    Scrape(if s.outputs == [] && Blocked(o) then Attempting else Returned,
           s.outputs + [o],
           s.rotations + (if Rotates(s, o) then 1 else 0))
  }

  /** At most two attempts and two rotations, and a second attempt exactly after a block. */
  lemma ScrapeBudget(s: Scrape)
    requires WellRun(s)
    ensures |s.outputs| <= 2 && s.rotations <= 2 && s.rotations <= |s.outputs|
    ensures s.progress == Returned ==> (|s.outputs| == 2 <==> Blocked(s.outputs[0]))
    ensures s.progress == Returned
            && s.outputs[|s.outputs| - 1].success && s.outputs[|s.outputs| - 1].scrapeError.None? ==>
              s.rotations == |s.outputs| - 1
  {
  }
}
