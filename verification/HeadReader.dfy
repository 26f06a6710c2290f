/** Reading the relay's response head off a byte stream that arrives in chunks. */
module HeadReader {
  import opened Prelude
  import opened Text

  newtype byte = x: int | 0 <= x < 256

  /** CR LF CR LF. */
  const HEADER_TERMINATOR: seq<byte> := [13, 10, 13, 10]

  datatype Progress =
    | Reading(buf: seq<byte>)
    | Done(headerBytes: seq<byte>, leftover: seq<byte>)
    | Failed

  /** One chunk. Once the read has settled the listeners are gone. */
  function OnChunk(p: Progress, maxBytes: nat, chunk: seq<byte>): Progress {
    if !p.Reading? then p
    else
      var buf := p.buf + chunk;
      var idx := IndexOf(buf, HEADER_TERMINATOR);
      if idx != -1 then Done(buf[..idx + 4], buf[idx + 4..])
      else if |buf| > maxBytes then Failed
      else Reading(buf)
  }

  function Feed(maxBytes: nat, chunks: seq<seq<byte>>): Progress {
    if chunks == [] then Reading([])
    else OnChunk(Feed(maxBytes, chunks[..|chunks| - 1]), maxBytes, chunks[|chunks| - 1])
  }

  lemma FeedSnoc(maxBytes: nat, chunks: seq<seq<byte>>, chunk: seq<byte>)
    ensures Feed(maxBytes, chunks + [chunk]) == OnChunk(Feed(maxBytes, chunks), maxBytes, chunk)
  {
    assert (chunks + [chunk])[..|chunks|] == chunks;
  }

  class Reader {
    const maxBytes: nat
    var buf: seq<byte>
    var resolved: Option<Progress>
    ghost var chunks: seq<seq<byte>>   // what the socket delivered while listened to

    ghost predicate Valid()
      reads this
    {
      && (resolved.None? ==> Feed(maxBytes, chunks) == Reading(buf) && buf == Concat(chunks))
      && (resolved.Some? && resolved.value.Done? ==>
            && Feed(maxBytes, chunks) == resolved.value
            && resolved.value.headerBytes + resolved.value.leftover == Concat(chunks))
      && (resolved.Some? ==> !resolved.value.Reading?)
    }

    constructor (maxBytes: nat)
      ensures Valid() && resolved.None? && chunks == [] && this.maxBytes == maxBytes
    {
      this.maxBytes := maxBytes;
      buf, resolved, chunks := [], None, [];
    }

    method OnData(chunk: seq<byte>)
      requires Valid() && resolved.None?
      modifies this
      ensures Valid() && chunks == old(chunks) + [chunk]
      ensures var p := Feed(maxBytes, chunks); resolved == if p.Reading? then None else Some(p)
    {
      FeedSnoc(maxBytes, chunks, chunk);
      ConcatSnoc(chunks, chunk);
      hide Feed, Concat, IndexOf;
      buf := buf + chunk;
      chunks := chunks + [chunk];
      var idx := IndexOf(buf, HEADER_TERMINATOR);
      if idx != -1 {
        resolved := Some(Done(buf[..idx + 4], buf[idx + 4..]));
        assert buf == buf[..idx + 4] + buf[idx + 4..];
      } else if |buf| > maxBytes {
        resolved := Some(Failed);
      }
    }

    /** End, close and error all give up. */
    method OnEof()
      requires Valid() && resolved.None?
      modifies this
      ensures Valid() && resolved == Some(Failed) && chunks == old(chunks)
    {
      resolved := Some(Failed);
    }
  }

  // -- How the stream is cut --------------------------------------------

  lemma PrefixLacks(s: seq<byte>, t: seq<byte>, idx: int)
    requires idx == IndexOf(s + t, HEADER_TERMINATOR) && (idx == -1 || |s| < idx + 4)
    ensures !Contains(s, HEADER_TERMINATOR)
  {
    if Contains(s, HEADER_TERMINATOR) {
      IndexOfInPrefix(s, t, HEADER_TERMINATOR);
    }
  }

  lemma HeadSeen(s: seq<byte>, rest: seq<byte>, idx: int)
    requires idx == IndexOf(s + rest, HEADER_TERMINATOR)
    ensures IndexOf(s, HEADER_TERMINATOR) == if idx != -1 && idx + 4 <= |s| then idx else -1
  {
    if idx != -1 && idx + 4 <= |s| {
      assert (s + rest)[idx..idx + 4] == s[idx..idx + 4];
      assert OccursAt(s, HEADER_TERMINATOR, idx);
      IndexOfInPrefix(s, rest, HEADER_TERMINATOR);
    } else {
      PrefixLacks(s, rest, idx);
    }
  }

  /** How many bytes the first `k` chunks bring. */
  function Arrived(chunks: seq<seq<byte>>, k: nat): nat
    requires k <= |chunks|
  {
    |Concat(chunks[..k])|
  }

  /**
   Whenever the head is not complete after some chunk, what has come so far is
   within the limit; `idx` is where the terminator begins, if anywhere.
   */
  ghost predicate WithinLimit(maxBytes: nat, chunks: seq<seq<byte>>, idx: int) {
    forall k :: 0 <= k <= |chunks| && (idx == -1 || Arrived(chunks, k) < idx + 4) ==> Arrived(chunks, k) <= maxBytes
  }

  lemma ArrivedAsBefore(chunks: seq<seq<byte>>, last: seq<byte>, k: nat)
    requires k <= |chunks|
    ensures Arrived(chunks + [last], k) == Arrived(chunks, k)
  {
    assert (chunks + [last])[..k] == chunks[..k];
  }

  lemma ArrivedInAll(chunks: seq<seq<byte>>)
    ensures Arrived(chunks, |chunks|) == |Concat(chunks)|
  {
    assert chunks[..|chunks|] == chunks;
  }

  lemma WithinLimitSnoc(maxBytes: nat, chunks: seq<seq<byte>>, last: seq<byte>, idx: int)
    ensures var n := |Concat(chunks + [last])|;
            WithinLimit(maxBytes, chunks + [last], idx) <==>
              WithinLimit(maxBytes, chunks, idx) && (idx == -1 || n < idx + 4 ==> n <= maxBytes)
  {
    hide Arrived, Concat;
    forall k | 0 <= k <= |chunks| ensures Arrived(chunks + [last], k) == Arrived(chunks, k) {
      ArrivedAsBefore(chunks, last, k);
    }
    ArrivedInAll(chunks + [last]);
  }

  /** What is expected after part `s` of a stream, if it came in within the limit or not. */
  predicate AsExpected(within: bool, s: seq<byte>, idx: int, p: Progress)
    requires idx >= -1
  {
    if !within then p.Failed?
    else if idx != -1 && idx + 4 <= |s| then
      p.Done? && p.headerBytes == s[..idx + 4] && p.headerBytes + p.leftover <= s
    else p == Reading(s)
  }

  lemma ChunkStep(maxBytes: nat, within: bool, s: seq<byte>, chunk: seq<byte>, rest: seq<byte>, idx: int, p: Progress)
    requires idx == IndexOf(s + chunk + rest, HEADER_TERMINATOR)
    requires AsExpected(within, s, idx, p)
    ensures var n := |s + chunk|;
            AsExpected(within && (idx == -1 || n < idx + 4 ==> n <= maxBytes), s + chunk, idx,
                       OnChunk(p, maxBytes, chunk))
  {
    assert idx >= -1;
    hide IndexOf, Contains, OccursAt;
    var buf := s + chunk;
    assert s <= buf && buf[..|s|] == s;
    if p.Reading? {
      HeadSeen(buf, rest, idx);
      if idx != -1 && idx + 4 <= |buf| {
        assert buf == buf[..idx + 4] + buf[idx + 4..];
      }
    } else if p.Done? {
      assert s[..idx + 4] == buf[..idx + 4];
    }
  }

  /** The chunks of a stream lead to what is expected, whatever is still to come. */
  lemma {:induction false} FeedPrefix(maxBytes: nat, chunks: seq<seq<byte>>, rest: seq<byte>, idx: int)
    requires idx == IndexOf(Concat(chunks) + rest, HEADER_TERMINATOR)
    ensures AsExpected(WithinLimit(maxBytes, chunks, idx), Concat(chunks), idx, Feed(maxBytes, chunks))
  {
    hide WithinLimit, AsExpected, OnChunk, IndexOf;
    if chunks == [] {
      FeedNothing(maxBytes, rest, idx);
    } else {
      var init, last := chunks[..|chunks| - 1], chunks[|chunks| - 1];
      assert chunks == init + [last];
      assert Concat(init) + (last + rest) == Concat(init) + last + rest;
      FeedPrefix(maxBytes, init, last + rest, idx);
      WithinLimitSnoc(maxBytes, init, last, idx);
      ChunkStep(maxBytes, WithinLimit(maxBytes, init, idx), Concat(init), last, rest, idx, Feed(maxBytes, init));
    }
  }

  lemma FeedNothing(maxBytes: nat, rest: seq<byte>, idx: int)
    requires idx >= -1
    ensures AsExpected(WithinLimit(maxBytes, [], idx), [], idx, Feed(maxBytes, []))
  {
    assert Arrived([], 0) == 0;
  }

  /** For each chunking: a head is read if and only if no chunk before its end leaves more than the limit. */
  lemma ReadExactly(maxBytes: nat, chunks: seq<seq<byte>>)
    requires Contains(Concat(chunks), HEADER_TERMINATOR)
    ensures var idx, p := IndexOf(Concat(chunks), HEADER_TERMINATOR), Feed(maxBytes, chunks);
            && (p.Done? <==> forall k :: 0 <= k <= |chunks| && Arrived(chunks, k) < idx + 4 ==>
                               Arrived(chunks, k) <= maxBytes)
            && (p.Done? ==> p.headerBytes == Concat(chunks)[..idx + 4] && p.headerBytes + p.leftover <= Concat(chunks))
            && (!p.Done? ==> p.Failed?)
  {
    assert Concat(chunks) + [] == Concat(chunks);
    FeedPrefix(maxBytes, chunks, [], IndexOf(Concat(chunks), HEADER_TERMINATOR));
  }

  /** The head ends at most one byte past the limit: then every chunking delivers it, and loses no byte. */
  lemma AnyChunkingFindsHead(maxBytes: nat, stream: seq<byte>, chunks: seq<seq<byte>>)
    requires Concat(chunks) == stream && Contains(stream, HEADER_TERMINATOR)
    requires IndexOf(stream, HEADER_TERMINATOR) + 3 <= maxBytes
    ensures var p := Feed(maxBytes, chunks);
            && p.Done? && p.headerBytes == stream[..IndexOf(stream, HEADER_TERMINATOR) + 4]
            && p.headerBytes + p.leftover <= stream
  {
    ReadExactly(maxBytes, chunks);
  }

  lemma {:induction false} ConcatPrefix(chunks: seq<seq<byte>>, k: nat)
    requires k <= |chunks|
    ensures |Concat(chunks[..k])| <= |Concat(chunks)|
  {
    if k == |chunks| {
      assert chunks[..k] == chunks;
    } else {
      var init := chunks[..|chunks| - 1];
      assert init[..k] == chunks[..k];
      ConcatPrefix(init, k);
    }
  }

  /** A stream without a terminator fails or keeps reading by its length alone. */
  lemma AnyChunkingWithoutHead(maxBytes: nat, stream: seq<byte>, chunks: seq<seq<byte>>)
    requires Concat(chunks) == stream && !Contains(stream, HEADER_TERMINATOR)
    ensures Feed(maxBytes, chunks) == if |stream| <= maxBytes then Reading(stream) else Failed
  {
    assert stream + [] == stream && chunks[..|chunks|] == chunks;
    FeedPrefix(maxBytes, chunks, [], -1);
    forall k | 0 <= k <= |chunks| ensures Arrived(chunks, k) <= |stream| {
      ConcatPrefix(chunks, k);
    }
    assert Arrived(chunks, |chunks|) == |stream|;
  }

  function Bytewise(s: seq<byte>): seq<seq<byte>> {
    seq(|s|, i requires 0 <= i < |s| => [s[i]])
  }

  lemma {:induction false} BytewiseConcat(s: seq<byte>)
    ensures Concat(Bytewise(s)) == s
  {
    if s != [] {
      var init := s[..|s| - 1];
      BytewiseConcat(init);
      assert Bytewise(s) == Bytewise(init) + [[s[|s| - 1]]];
      ConcatSnoc(Bytewise(init), [s[|s| - 1]]);
    }
  }

  /** A head is read whatever the chunking if and only if its last byte is within one of the limit. */
  lemma ChunkingIrrelevantExactly(maxBytes: nat, stream: seq<byte>)
    requires Contains(stream, HEADER_TERMINATOR)
    ensures IndexOf(stream, HEADER_TERMINATOR) + 3 <= maxBytes <==>
            forall chunks :: Concat(chunks) == stream ==> Feed(maxBytes, chunks).Done?
  {
    if IndexOf(stream, HEADER_TERMINATOR) + 3 <= maxBytes {
      forall chunks | Concat(chunks) == stream ensures Feed(maxBytes, chunks).Done? {
        ReadExactly(maxBytes, chunks);
      }
    } else {
      var chunks, k := Bytewise(stream), maxBytes + 1;
      BytewiseConcat(stream);
      BytewiseConcat(stream[..k]);
      assert chunks[..k] == Bytewise(stream[..k]);
      ReadExactly(maxBytes, chunks);
      assert Arrived(chunks, k) == k;
    }
  }
}
