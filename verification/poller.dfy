/**
 The interrupt poller: a blocking interrupt transfer into a 64-byte buffer,
 repeated until a transfer fails or comes back short. Each transfer's result
 is an oracle, and the never-ending loop is a fold over a finite sequence
 of transfer outcomes: when the sequence runs out, the poll is still going.
 */
module Poller {
  import opened Wrappers
  import opened Descriptors

  /** Size of the receive buffer the poll loop declares. */
  const PollBufferSize: nat := 64
  /** What a single poll step returns for a short read. */
  const ShortReadCode: int := -1

  /** The result of one interrupt transfer: the status it returned and the
      bytes it wrote, so that the transferred count is `|data|`. */
  datatype TransferOutcome = TransferOutcome(status: int, data: seq<uint8>)

  /** One interrupt transfer issued: endpoint address and requested length. */
  datatype Request = Request(endpoint: uint8, length: int)

  /** One poll step: the code it returns and the buffer after the transfer. */
  datatype Step = Step(code: int, buffer: seq<uint8>)

  /** The poll so far: transfers issued, reports emitted, and the code it
      stopped with, or None while it is still polling. */
  datatype Poll = Poll(requests: seq<Request>, reports: seq<seq<uint8>>, stop: Option<int>)

  /** The platform never transfers more than the requested length. */
  predicate Delivers(outcomes: seq<TransferOutcome>, maxSize: int)
    decreases |outcomes|
  {
    outcomes == [] || (|outcomes[0].data| <= maxSize && Delivers(outcomes[1..], maxSize))
  }

  /** The transfer succeeded and filled the whole request. */
  predicate FullRead(o: TransferOutcome, maxSize: int) {
    o.status >= 0 && |o.data| >= maxSize
  }

  /** The code a poll step that is not a full read stops with. */
  function StopCode(o: TransferOutcome): (c: int)
    ensures c < 0
  {
    if o.status < 0 then o.status else ShortReadCode
  }

  /** The receive buffer is large enough for the requested length. */
  predicate BufferFits(buffer: seq<uint8>, maxSize: int) {
    |buffer| == PollBufferSize && 0 <= maxSize <= PollBufferSize
  }

  /**
   One transfer and its classification: a negative status is returned as
   is, a short read returns -1, and a full read returns 0 with the whole
   request, in receive order, at the front of the buffer. The transfer only
   writes the bytes it transferred.
   */
  function DoSyncIntr(buffer: seq<uint8>, maxSize: int, o: TransferOutcome): (r: Step)
    requires BufferFits(buffer, maxSize) && |o.data| <= maxSize
    ensures |r.buffer| == PollBufferSize
    ensures r.buffer[..|o.data|] == o.data && r.buffer[|o.data|..] == buffer[|o.data|..]
    ensures r.code < 0 <==> !FullRead(o, maxSize)
    ensures r.code < 0 ==> r.code == StopCode(o)
    ensures r.code >= 0 ==> r.code == 0 && r.buffer[..maxSize] == o.data
  {
    var written := o.data + buffer[|o.data|..];
    if o.status < 0 then Step(o.status, written)
    else if |o.data| < maxSize then Step(ShortReadCode, written)
    else Step(0, written)
  }

  /** The poll loop over a finite sequence of transfer outcomes. */
  function SyncIntr(buffer: seq<uint8>, maxSize: int, epAddr: uint8, outcomes: seq<TransferOutcome>): (p: Poll)
    requires BufferFits(buffer, maxSize) && Delivers(outcomes, maxSize)
    ensures p.stop.Some? ==> p.stop.value < 0
    decreases |outcomes|
  {
    if outcomes == [] then Poll([], [], None)
    else
      var step := DoSyncIntr(buffer, maxSize, outcomes[0]);
      if step.code < 0 then Poll([Request(epAddr, maxSize)], [], Some(step.code))
      else
        var rest := SyncIntr(step.buffer, maxSize, epAddr, outcomes[1..]);
        Poll([Request(epAddr, maxSize)] + rest.requests, [step.buffer[..maxSize]] + rest.reports, rest.stop)
  }

  /** Appends a later stretch of polling to one that has not stopped. */
  function Then(p: Poll, q: Poll): Poll {
    Poll(p.requests + q.requests, p.reports + q.reports, q.stop)
  }

  /** One more turn of the poll loop, seen from the whole poll: the turn
      either stops it or adds one request and one report. */
  lemma SyncIntrStep(buffer: seq<uint8>, maxSize: int, epAddr: uint8, outcomes: seq<TransferOutcome>,
                     done: Poll, data: seq<uint8>, i: nat)
    requires BufferFits(buffer, maxSize) && Delivers(outcomes, maxSize)
    requires i < |outcomes| && BufferFits(data, maxSize) && done.stop.None? && Delivers(outcomes[i..], maxSize)
    requires SyncIntr(buffer, maxSize, epAddr, outcomes) == Then(done, SyncIntr(data, maxSize, epAddr, outcomes[i..]))
    ensures var step := DoSyncIntr(data, maxSize, outcomes[i]);
      var requests := done.requests + [Request(epAddr, maxSize)];
      && Delivers(outcomes[i + 1..], maxSize)
      && (step.code < 0 ==>
            SyncIntr(buffer, maxSize, epAddr, outcomes) == Poll(requests, done.reports, Some(step.code)))
      && (step.code >= 0 ==>
            SyncIntr(buffer, maxSize, epAddr, outcomes)
            == Then(Poll(requests, done.reports + [step.buffer[..maxSize]], None),
                    SyncIntr(step.buffer, maxSize, epAddr, outcomes[i + 1..])))
  {
    assert outcomes[i..][1..] == outcomes[i + 1..];
  }

  /**
   The poll loop as written: transfer, classify, stop on a negative code,
   otherwise print the buffer and go round again, for as long as there are
   outcomes to consume.
   */
  method PollLoop(buffer: seq<uint8>, maxSize: int, epAddr: uint8, outcomes: seq<TransferOutcome>) returns (p: Poll)
    requires BufferFits(buffer, maxSize) && Delivers(outcomes, maxSize)
    ensures p == SyncIntr(buffer, maxSize, epAddr, outcomes)
  {
    var data := buffer;
    var requests: seq<Request> := [];
    var reports: seq<seq<uint8>> := [];
    var i := 0;
    while i < |outcomes|
      invariant i <= |outcomes| && |data| == PollBufferSize
      invariant Delivers(outcomes[i..], maxSize)
      invariant SyncIntr(buffer, maxSize, epAddr, outcomes)
             == Then(Poll(requests, reports, None), SyncIntr(data, maxSize, epAddr, outcomes[i..]))
      decreases |outcomes| - i
    {
      SyncIntrStep(buffer, maxSize, epAddr, outcomes, Poll(requests, reports, None), data, i);
      var step := DoSyncIntr(data, maxSize, outcomes[i]);
      requests := requests + [Request(epAddr, maxSize)];
      if step.code < 0 {
        return Poll(requests, reports, Some(step.code));
      }
      data := step.buffer;
      reports := reports + [data[..maxSize]];
      i := i + 1;
    }
    assert outcomes[i..] == [];
    p := Poll(requests, reports, None);
  }
}
