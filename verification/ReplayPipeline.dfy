/** The per-tab replay consumer: events in, batches out, created once and then appended to. */
module ReplayPipeline {
  import opened Division
  import opened Prelude

  const BATCH_SIZE: nat := 200

  datatype Write<T> = Create(batch: seq<T>, eventCount: nat) | Append(batch: seq<T>)

  function Batches<T>(writes: seq<Write<T>>): seq<seq<T>> {
    seq(|writes|, i requires 0 <= i < |writes| => writes[i].batch)
  }

  /** `Math.ceil(n / size)`. */
  function CeilDiv(n: nat, size: nat): nat
    requires size > 0
  {
    (n + size - 1) / size
  }

  /** Every batch is full, and only the first write creates the replay. */
  ghost predicate FullWrites<T>(writes: seq<Write<T>>, size: nat) {
    && (forall i :: 0 <= i < |writes| ==> |writes[i].batch| == size)
    && CreatedOnce(writes)
  }

  ghost predicate CreatedOnce<T>(writes: seq<Write<T>>) {
    && (forall i :: 0 <= i < |writes| ==> (writes[i].Create? <==> i == 0))
    && (writes != [] ==> writes[0].eventCount == |writes[0].batch|)
  }

  lemma BatchesSnoc<T>(writes: seq<Write<T>>, w: Write<T>)
    ensures Batches(writes + [w]) == Batches(writes) + [w.batch]
    ensures Concat(Batches(writes + [w])) == Concat(Batches(writes)) + w.batch
  {
    assert Batches(writes + [w]) == Batches(writes) + [w.batch];
    ConcatSnoc(Batches(writes), w.batch);
  }

  lemma Successor(n: nat, size: nat)
    ensures (n + 1) * size == n * size + size
  {
  }

  lemma {:induction false} FullConcat<T>(parts: seq<seq<T>>, size: nat)
    requires forall i :: 0 <= i < |parts| ==> |parts[i]| == size
    ensures |Concat(parts)| == |parts| * size
  {
    if parts != [] {
      var last := |parts| - 1;
      FullConcat(parts[..last], size);
      assert |parts| * size == last * size + size by {
        Successor(last, size);
      }
    }
  }

  class TabConsumer<T> {
    const batchSize: nat
    var accumulated: seq<T>
    var totalFlushed: nat
    var replayCreated: bool
    var eventsMetric: nat
    var done: bool
    ghost var writes: seq<Write<T>>   // every call of the writer, whether or not it succeeded
    var failures: seq<bool>           // which of them failed, as logged

    ghost predicate Valid()
      reads this
    {
      && batchSize > 0
      && |failures| == |writes|
      && replayCreated == (writes != [])
      && CreatedOnce(writes)
      && totalFlushed == eventsMetric == |Concat(Batches(writes))|
    }

    constructor (batchSize: nat)
      requires batchSize > 0
      ensures Valid() && writes == [] && accumulated == [] && !done && this.batchSize == batchSize
    {
      this.batchSize := batchSize;
      accumulated, totalFlushed, replayCreated, eventsMetric, done := [], 0, false, 0, false;
      writes, failures := [], [];
    }

    /** `flush`; a `ReplayStoreError` of the writer is caught and logged, and changes nothing else. */
    method Flush(fails: bool)
      requires Valid()
      modifies this
      ensures Valid() && accumulated == [] && done == old(done)
      ensures if old(accumulated) == [] then writes == old(writes) && failures == old(failures)
              else
                && failures == old(failures) + [fails]
                && |writes| == |old(writes)| + 1 && writes[..|old(writes)|] == old(writes)
                && writes[|old(writes)|].batch == old(accumulated)
    {
      if |accumulated| == 0 {
        return;
      }
      var batch := accumulated;
      accumulated := [];
      if !replayCreated {
        BatchesSnoc(writes, Create(batch, |batch|));
        writes := writes + [Create(batch, |batch|)];
        replayCreated := true;
      } else {
        BatchesSnoc(writes, Append(batch));
        writes := writes + [Append(batch)];
      }
      failures := failures + [fails];
      totalFlushed := totalFlushed + |batch|;
      eventsMetric := eventsMetric + |batch|;
    }

    /** Everything received: written or still accumulated. */
    ghost function Received(): seq<T>
      reads this
    {
      Concat(Batches(writes)) + accumulated
    }

    /** Between events: every write so far is full, and less than a batch is accumulated. */
    ghost predicate Draining(fails: nat -> bool)
      reads this
    {
      && Valid() && FullWrites(writes, batchSize) && |accumulated| < batchSize && !done
      && forall i :: 0 <= i < |writes| ==> failures[i] == fails(i)
    }

    /** One event off the queue. */
    method OnEvent(event: T, fails: nat -> bool)
      requires Draining(fails)
      modifies this
      ensures Draining(fails) && Received() == old(Received()) + [event]
    {
      hide Concat, Batches, CreatedOnce;
      ghost var before := writes;
      accumulated := accumulated + [event];
      ghost var batch := accumulated;
      assert Concat(Batches(writes)) + batch == old(Received()) + [event];
      if |accumulated| >= batchSize {
        Flush(fails(|failures|));
        WritesGrow(before, writes, batch);
        assert Received() == Concat(Batches(writes));
      }
    }

    /** The end of the queue: the last flush, which may be a partial batch. */
    method Finish(fails: nat -> bool)
      requires Draining(fails)
      modifies this
      ensures Valid() && done && Concat(Batches(writes)) == old(Received())
      ensures forall i :: 0 <= i < |writes| - 1 ==> |writes[i].batch| == batchSize
      ensures writes != [] ==> 0 < |writes[|writes| - 1].batch| <= batchSize
      ensures |writes| == CeilDiv(|old(Received())|, batchSize)
      ensures forall i :: 0 <= i < |writes| ==> failures[i] == fails(i)
    {
      ghost var full, rest := writes, accumulated;
      FullConcat(Batches(full), batchSize);
      CeilDivIs(|full|, batchSize, |rest|);
      assert rest == [] ==> Received() == Concat(Batches(full));
      Flush(fails(|failures|));
      if rest != [] {
        WritesGrow(full, writes, rest);
      }
      done := true;
    }

    /** The fiber: drain the queue, flush what remains, report, signal. `fails(k)` is the fate of write `k`. */
    method Run(events: seq<T>, fails: nat -> bool) returns (batchCount: nat)
      requires Valid() && writes == [] && accumulated == [] && !done
      modifies this
      ensures Valid() && done
      ensures Concat(Batches(writes)) == events && totalFlushed == eventsMetric == |events|
      ensures forall i :: 0 <= i < |writes| - 1 ==> |writes[i].batch| == batchSize
      ensures writes != [] ==> 0 < |writes[|writes| - 1].batch| <= batchSize
      ensures |writes| == CeilDiv(|events|, batchSize)
      ensures forall i :: 0 <= i < |writes| ==> failures[i] == fails(i)
      ensures batchCount == if events == [] then 1 else |writes|
    {
      for n := 0 to |events|
        invariant Draining(fails) && Received() == events[..n]
      {
        assert events[..n + 1] == events[..n] + [events[n]];
        OnEvent(events[n], fails);
      }
      assert events[..|events|] == events;
      Finish(fails);
      var batches := CeilDiv(totalFlushed, batchSize);
      batchCount := if batches != 0 then batches else 1;
      CeilDivZero(|events|, batchSize);
    }
  }

  lemma CeilDivZero(n: nat, size: nat)
    requires size > 0
    ensures CeilDiv(n, size) == 0 <==> n == 0
  {
    if n == 0 {
      DivUnique(size - 1, size, 0, size - 1);
    } else {
      DivBound(1, size, n + size - 1);
    }
  }

  lemma WritesGrow<T>(before: seq<Write<T>>, after: seq<Write<T>>, batch: seq<T>)
    requires |after| == |before| + 1 && after[..|before|] == before && after[|before|].batch == batch
    ensures Concat(Batches(after)) == Concat(Batches(before)) + batch
    ensures forall i :: 0 <= i < |before| ==> after[i] == before[i]
  {
    assert after == before + [after[|before|]];
    BatchesSnoc(before, after[|before|]);
    forall i | 0 <= i < |before| ensures after[i] == before[i] {
      assert after[..|before|][i] == after[i];
    }
  }

  lemma CeilDivIs(q: nat, size: nat, r: nat)
    requires size > 0 && r < size
    ensures CeilDiv(q * size + r, size) == if r == 0 then q else q + 1
  {
    var n := q * size + r;
    if r == 0 {
      DivUnique(n + size - 1, size, q, size - 1);
    } else {
      assert (q + 1) * size == q * size + size;
      DivUnique(n + size - 1, size, q + 1, r - 1);
    }
  }

  method StartTabConsumer<T>() returns (c: TabConsumer<T>)
    ensures fresh(c) && c.Valid() && c.batchSize == BATCH_SIZE
    ensures c.writes == [] && c.accumulated == [] && !c.done
  {
    c := new TabConsumer(BATCH_SIZE);
  }
}
