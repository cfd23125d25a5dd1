/**
 The driver's main routine after library start-up: scan for a boot mouse
 and, only if one was found, opened and claimed, poll its interrupt
 endpoint with the address and packet size the scan reported.
 */
module Driver {
  import opened Wrappers
  import opened Descriptors
  import opened Matcher
  import opened MatcherProperties
  import opened Poller
  import opened PollerProperties

  datatype Run = Run(scan: Scan, poll: Option<Poll>)

  /** What the driver needs of its environment: the endpoint-0 reads of the
      scan are in bounds, the matched endpoint's packet size fits the poll
      buffer, and the platform never transfers more than requested. */
  ghost predicate Runnable(devs: seq<Device>, buffer: seq<uint8>, outcomes: seq<TransferOutcome>) {
    && MatchSafe(devs)
    && |buffer| == PollBufferSize
    && (Match(devs).outcome.Found? ==>
          && Match(devs).outcome.maxPacketSize <= PollBufferSize
          && Delivers(outcomes, Match(devs).outcome.maxPacketSize))
  }

  /** The end of the driver's main routine: the scan, then polling only if
      it found and claimed a mouse. */
  function MainRun(devs: seq<Device>, buffer: seq<uint8>, outcomes: seq<TransferOutcome>): (r: Run)
    requires Runnable(devs, buffer, outcomes)
    ensures r.scan == Match(devs)
    ensures r.poll.Some? ==> r.poll.value.stop.None? || r.poll.value.stop.value < 0
  {
    var scan := Match(devs);
    match scan.outcome
    case Found(_, _, epAddr, maxPacketSize) =>
      Run(scan, Some(SyncIntr(buffer, maxPacketSize, epAddr, outcomes)))
    case _ =>
      Run(scan, None)
  }

  /**
   Polling happens exactly when the scan found a mouse, after the claim of
   its interface as the last platform call of the scan; every transfer is
   issued on endpoint 0 of the matched alternate setting with its maximum
   packet size, and the poll runs over the given transfer outcomes as the
   poll characterization describes: each report is that many received
   bytes, and the first failed or short transfer stops it with its code.
   */
  lemma PollOnlyAfterClaim(devs: seq<Device>, buffer: seq<uint8>, outcomes: seq<TransferOutcome>)
    requires Runnable(devs, buffer, outcomes)
    ensures var r := MainRun(devs, buffer, outcomes);
      r.poll.Some? <==> r.scan.outcome.Found?
    ensures var r := MainRun(devs, buffer, outcomes); var o := r.scan.outcome;
      r.poll.Some? ==>
        && |r.scan.trace| >= 1 && r.scan.trace[|r.scan.trace| - 1] == ClaimInterface(o.dev, o.intf)
        && o.dev < |devs| && o.intf < |devs[o.dev].config.interfaces|
        && var ep := Alt0(devs[o.dev].config.interfaces[o.intf]).endpoints;
           && |ep| >= 1
           && (forall j :: 0 <= j < |r.poll.value.requests| ==>
                 r.poll.value.requests[j] == Request(ep[0].address, ep[0].maxPacketSize))
           && (forall j :: 0 <= j < |r.poll.value.reports| ==> |r.poll.value.reports[j]| == ep[0].maxPacketSize)
           && PollSpec(ep[0].maxPacketSize, ep[0].address, outcomes, r.poll.value)
  {
    var r := MainRun(devs, buffer, outcomes);
    var o := r.scan.outcome;
    if o.Found? {
      TraceShape(devs);
      FirstMatchWins(devs, o.dev, o.intf, o.epAddr, o.maxPacketSize);
      PollMeetsSpec(buffer, o.maxPacketSize, o.epAddr, outcomes);
    }
  }

  /** With no device attached, nothing is read, opened or claimed, and the
      poll loop is never entered. */
  lemma EmptyListNeverPolls(buffer: seq<uint8>, outcomes: seq<TransferOutcome>)
    requires |buffer| == PollBufferSize
    ensures Runnable([], buffer, outcomes)
    ensures MainRun([], buffer, outcomes) == Run(Scan(NotFound, []), None)
  {
  }
}
