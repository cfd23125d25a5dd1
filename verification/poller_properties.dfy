/**
 Properties of the poll loop: a characterization of its result that does not
 mention the buffer, uniqueness of that characterization, independence from
 the buffer's initial contents, the per-transfer classification, and how
 polling over two stretches of outcomes composes.
 */
module PollerProperties {
  import opened Wrappers
  import opened Descriptors
  import opened Poller

  /**
   What a poll over `outcomes` must produce: one request per transfer, all
   on the same endpoint and length; a report of exactly `maxSize` bytes for
   each leading full read, equal to the bytes received; and, if some
   transfer is not a full read, a stop right after the first such transfer,
   with its code.
   */
  ghost predicate PollSpec(maxSize: int, epAddr: uint8, outcomes: seq<TransferOutcome>, p: Poll) {
    && |p.requests| <= |outcomes|
    && (forall j :: 0 <= j < |p.requests| ==> p.requests[j] == Request(epAddr, maxSize))
    && |p.requests| == |p.reports| + (if p.stop.Some? then 1 else 0)
    && (forall j :: 0 <= j < |p.reports| ==>
          FullRead(outcomes[j], maxSize) && p.reports[j] == outcomes[j].data && |p.reports[j]| == maxSize)
    && (p.stop.None? ==> |p.reports| == |outcomes|)
    && (p.stop.Some? ==>
          && |p.reports| < |outcomes|
          && !FullRead(outcomes[|p.reports|], maxSize)
          && p.stop.value == StopCode(outcomes[|p.reports|]))
  }

  /** The poll loop meets the characterization. */
  lemma {:induction false} PollMeetsSpec(buffer: seq<uint8>, maxSize: int, epAddr: uint8, outcomes: seq<TransferOutcome>)
    requires BufferFits(buffer, maxSize) && Delivers(outcomes, maxSize)
    ensures PollSpec(maxSize, epAddr, outcomes, SyncIntr(buffer, maxSize, epAddr, outcomes))
    decreases |outcomes|
  {
    if outcomes != [] {
      var step := DoSyncIntr(buffer, maxSize, outcomes[0]);
      if step.code >= 0 {
        var rest := SyncIntr(step.buffer, maxSize, epAddr, outcomes[1..]);
        PollMeetsSpec(step.buffer, maxSize, epAddr, outcomes[1..]);
        var p := SyncIntr(buffer, maxSize, epAddr, outcomes);
        assert p == Poll([Request(epAddr, maxSize)] + rest.requests, [step.buffer[..maxSize]] + rest.reports, rest.stop);
        forall j | 0 <= j < |p.reports|
          ensures FullRead(outcomes[j], maxSize) && p.reports[j] == outcomes[j].data && |p.reports[j]| == maxSize
        {
          if j > 0 {
            assert p.reports[j] == rest.reports[j - 1];
            assert outcomes[j] == outcomes[1..][j - 1];
          }
        }
        if p.stop.Some? {
          assert outcomes[|p.reports|] == outcomes[1..][|rest.reports|];
        }
      }
    }
  }

  /** At most one poll meets the characterization. */
  lemma PollSpecUnique(maxSize: int, epAddr: uint8, outcomes: seq<TransferOutcome>, p: Poll, q: Poll)
    requires PollSpec(maxSize, epAddr, outcomes, p) && PollSpec(maxSize, epAddr, outcomes, q)
    ensures p == q
  {
    assert |p.reports| == |q.reports|;
    assert p.reports == q.reports;
    assert p.requests == q.requests;
  }

  /** The reports and the stop code never depend on what the buffer held
      before polling began. */
  lemma BufferIrrelevant(b1: seq<uint8>, b2: seq<uint8>, maxSize: int, epAddr: uint8, outcomes: seq<TransferOutcome>)
    requires BufferFits(b1, maxSize) && BufferFits(b2, maxSize) && Delivers(outcomes, maxSize)
    ensures SyncIntr(b1, maxSize, epAddr, outcomes) == SyncIntr(b2, maxSize, epAddr, outcomes)
  {
    PollMeetsSpec(b1, maxSize, epAddr, outcomes);
    PollMeetsSpec(b2, maxSize, epAddr, outcomes);
    PollSpecUnique(maxSize, epAddr, outcomes, SyncIntr(b1, maxSize, epAddr, outcomes), SyncIntr(b2, maxSize, epAddr, outcomes));
  }

  /**
   Classification of the first transfer: a negative status stops the poll
   with that status and a short read stops it with -1, in both cases after a
   single transfer; a full read emits its `maxSize` bytes in receive order
   and the poll issues the next transfer if there is one.
   */
  lemma FirstTransfer(buffer: seq<uint8>, maxSize: int, epAddr: uint8, o: TransferOutcome, rest: seq<TransferOutcome>)
    requires BufferFits(buffer, maxSize) && Delivers([o] + rest, maxSize)
    ensures var p := SyncIntr(buffer, maxSize, epAddr, [o] + rest);
      && (o.status < 0 ==> p == Poll([Request(epAddr, maxSize)], [], Some(o.status)))
      && (o.status >= 0 && |o.data| < maxSize ==> p == Poll([Request(epAddr, maxSize)], [], Some(-1)))
      && (FullRead(o, maxSize) ==>
            && |p.reports| >= 1 && p.reports[0] == o.data && |o.data| == maxSize
            && |p.requests| == 1 + |SyncIntr(buffer, maxSize, epAddr, rest).requests|)
  {
    var outcomes := [o] + rest;
    assert outcomes[0] == o && outcomes[1..] == rest;
    if FullRead(o, maxSize) {
      var step := DoSyncIntr(buffer, maxSize, o);
      BufferIrrelevant(step.buffer, buffer, maxSize, epAddr, rest);
    }
  }

  /** A poll whose first transfer is a full read: that transfer's bytes,
      then the rest of the poll. */
  lemma SyncIntrFullRead(buffer: seq<uint8>, maxSize: int, epAddr: uint8, outcomes: seq<TransferOutcome>)
    requires BufferFits(buffer, maxSize) && Delivers(outcomes, maxSize)
    requires outcomes != [] && FullRead(outcomes[0], maxSize)
    ensures Delivers(outcomes[1..], maxSize)
    ensures SyncIntr(buffer, maxSize, epAddr, outcomes)
         == Then(Poll([Request(epAddr, maxSize)], [outcomes[0].data], None),
                 SyncIntr(buffer, maxSize, epAddr, outcomes[1..]))
  {
    var step := DoSyncIntr(buffer, maxSize, outcomes[0]);
    BufferIrrelevant(step.buffer, buffer, maxSize, epAddr, outcomes[1..]);
  }

  /** A poll whose first transfer is not a full read: a single request and
      a stop with that transfer's code. */
  lemma SyncIntrStops(buffer: seq<uint8>, maxSize: int, epAddr: uint8, outcomes: seq<TransferOutcome>)
    requires BufferFits(buffer, maxSize) && Delivers(outcomes, maxSize)
    requires outcomes != [] && !FullRead(outcomes[0], maxSize)
    ensures SyncIntr(buffer, maxSize, epAddr, outcomes)
         == Poll([Request(epAddr, maxSize)], [], Some(StopCode(outcomes[0])))
  {
  }

  /** Appending stretches of polling is associative. */
  lemma ThenAssociative(p: Poll, q: Poll, r: Poll)
    ensures Then(p, Then(q, r)) == Then(Then(p, q), r)
  {
    assert p.requests + (q.requests + r.requests) == (p.requests + q.requests) + r.requests;
    assert p.reports + (q.reports + r.reports) == (p.reports + q.reports) + r.reports;
  }

  /** Two stretches of outcomes that each respect the requested length
      still do so one after the other. */
  lemma {:induction false} DeliversAppend(a: seq<TransferOutcome>, c: seq<TransferOutcome>, maxSize: int)
    requires Delivers(a, maxSize) && Delivers(c, maxSize)
    ensures Delivers(a + c, maxSize)
    decreases |a|
  {
    if a != [] {
      assert (a + c)[0] == a[0] && (a + c)[1..] == a[1..] + c;
      DeliversAppend(a[1..], c, maxSize);
    } else {
      assert a + c == c;
    }
  }

  /** Polling over `a + c` is polling over `a` and, unless that stopped,
      polling over `c` after it. */
  ghost predicate Concatenates(buffer: seq<uint8>, maxSize: int, epAddr: uint8, a: seq<TransferOutcome>, c: seq<TransferOutcome>)
    requires BufferFits(buffer, maxSize) && Delivers(a, maxSize) && Delivers(c, maxSize) && Delivers(a + c, maxSize)
  {
    var pa := SyncIntr(buffer, maxSize, epAddr, a);
    SyncIntr(buffer, maxSize, epAddr, a + c)
      == if pa.stop.Some? then pa else Then(pa, SyncIntr(buffer, maxSize, epAddr, c))
  }

  /** The first transfer of `a` is not a full read, so `c` is never reached. */
  lemma ConcatStops(buffer: seq<uint8>, maxSize: int, epAddr: uint8, a: seq<TransferOutcome>, c: seq<TransferOutcome>)
    requires BufferFits(buffer, maxSize) && Delivers(a, maxSize) && Delivers(c, maxSize) && Delivers(a + c, maxSize)
    requires a != [] && !FullRead(a[0], maxSize)
    ensures Concatenates(buffer, maxSize, epAddr, a, c)
  {
    assert (a + c)[0] == a[0];
    SyncIntrStops(buffer, maxSize, epAddr, a);
    SyncIntrStops(buffer, maxSize, epAddr, a + c);
  }

  /** The first transfer of `a` is a full read, and the rest of `a` followed
      by `c` already composes. */
  lemma ConcatFullRead(buffer: seq<uint8>, maxSize: int, epAddr: uint8, a: seq<TransferOutcome>, c: seq<TransferOutcome>)
    requires BufferFits(buffer, maxSize) && Delivers(a, maxSize) && Delivers(c, maxSize) && Delivers(a + c, maxSize)
    requires a != [] && FullRead(a[0], maxSize)
    requires Delivers(a[1..], maxSize) && Delivers(a[1..] + c, maxSize)
    requires Concatenates(buffer, maxSize, epAddr, a[1..], c)
    ensures Concatenates(buffer, maxSize, epAddr, a, c)
  {
    assert (a + c)[0] == a[0] && (a + c)[1..] == a[1..] + c;
    var head := Poll([Request(epAddr, maxSize)], [a[0].data], None);
    var tail := SyncIntr(buffer, maxSize, epAddr, a[1..]);
    var later := SyncIntr(buffer, maxSize, epAddr, c);
    SyncIntrFullRead(buffer, maxSize, epAddr, a);
    SyncIntrFullRead(buffer, maxSize, epAddr, a + c);
    if tail.stop.None? {
      ThenAssociative(head, tail, later);
    }
  }

  /**
   Polling over `a` and then `c` is polling over `a + c`: if the poll over
   `a` stopped, nothing of `c` is consumed; otherwise the requests and
   reports of the two stretches follow each other.
   */
  lemma {:induction false} PollConcat(buffer: seq<uint8>, maxSize: int, epAddr: uint8, a: seq<TransferOutcome>, c: seq<TransferOutcome>)
    requires BufferFits(buffer, maxSize) && Delivers(a, maxSize) && Delivers(c, maxSize)
    ensures Delivers(a + c, maxSize)
    ensures Concatenates(buffer, maxSize, epAddr, a, c)
    decreases |a|
  {
    DeliversAppend(a, c, maxSize);
    if a == [] {
      assert a + c == c;
    } else if FullRead(a[0], maxSize) {
      assert (a + c)[1..] == a[1..] + c;
      PollConcat(buffer, maxSize, epAddr, a[1..], c);
      ConcatFullRead(buffer, maxSize, epAddr, a, c);
    } else {
      ConcatStops(buffer, maxSize, epAddr, a, c);
    }
  }

  /** A short read stops the poll with the same code as a transfer that
      fails with status -1, so the two cannot be told apart from the result. */
  lemma ShortReadLooksLikeStatusMinusOne(buffer: seq<uint8>, maxSize: int, epAddr: uint8, data: seq<uint8>)
    requires BufferFits(buffer, maxSize) && |data| < maxSize
    ensures SyncIntr(buffer, maxSize, epAddr, [TransferOutcome(0, data)])
         == SyncIntr(buffer, maxSize, epAddr, [TransferOutcome(-1, data)])
  {
  }
}
