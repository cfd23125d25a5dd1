/**
 Properties of the device/interface scan: which device decides the
 outcome, the exact platform calls it makes, first-match, fail-fast
 aborts, configuration-descriptor accounting, and the fact that only
 alternate setting 0 of each interface matters.
 */
module MatcherProperties {
  import opened Descriptors
  import opened Matcher

  /** The device at which the scan stopped; the list length if it ran off the end. */
  function StopIndex(o: Outcome, n: nat): nat {
    if o.NotFound? then n else o.dev
  }

  /** Block `e` of `Scanned(i, d)` is the two reads and the free of device `e`. */
  lemma {:induction false} ScannedBlock(i: nat, d: nat, e: nat)
    requires i <= e < d
    ensures Scanned(i, d)[3 * (e - i) .. 3 * (e - i) + 3] == Passed(e)
    decreases d - i
  {
    if e < d - 1 {
      ScannedBlock(i, d - 1, e);
      assert Scanned(i, d)[.. 3 * (d - 1 - i)] == Scanned(i, d - 1);
    }
  }

  /** Every event of `Scanned(i, d)` is about a device in `i .. d-1`. */
  lemma {:induction false} ScannedDevices(i: nat, d: nat)
    requires i <= d
    ensures forall j :: 0 <= j < |Scanned(i, d)| ==> i <= Scanned(i, d)[j].dev < d
    ensures forall j :: 0 <= j < |Scanned(i, d)| ==> !Scanned(i, d)[j].Open? && !Scanned(i, d)[j].SetAutoDetach? && !Scanned(i, d)[j].ClaimInterface?
    decreases d - i
  {
    if d > i {
      ScannedDevices(i, d - 1);
    }
  }

  /** How often `x` occurs in the trace `t`. */
  function Occurrences(t: seq<Event>, x: Event): nat
  {
    if t == [] then 0 else Occurrences(t[..|t| - 1], x) + (if t[|t| - 1] == x then 1 else 0)
  }

  lemma {:induction false} OccurrencesAppend(a: seq<Event>, b: seq<Event>, x: Event)
    ensures Occurrences(a + b, x) == Occurrences(a, x) + Occurrences(b, x)
    decreases |b|
  {
    if b != [] {
      assert (a + b)[..|a + b| - 1] == a + b[..|b| - 1];
      OccurrencesAppend(a, b[..|b| - 1], x);
    } else {
      assert a + b == a;
    }
  }

  lemma {:induction false} OccurrencesAbsent(t: seq<Event>, x: Event)
    requires forall j :: 0 <= j < |t| ==> t[j] != x
    ensures Occurrences(t, x) == 0
    decreases |t|
  {
    if t != [] {
      OccurrencesAbsent(t[..|t| - 1], x);
    }
  }

  /** `Scanned(i, d)` frees the configuration descriptor of each device
      `i .. d-1` exactly once and no other descriptor. */
  lemma {:induction false} ScannedFrees(i: nat, d: nat, e: nat)
    requires i <= d
    ensures Occurrences(Scanned(i, d), FreeConfigDescriptor(e)) == if i <= e < d then 1 else 0
    decreases d - i
  {
    if d > i {
      ScannedFrees(i, d - 1, e);
      var last := Passed(d - 1);
      var free := FreeConfigDescriptor(e);
      OccurrencesAppend(Scanned(i, d - 1), last, free);
      assert last[..2] == [GetDeviceDescriptor(d - 1), GetConfigDescriptor(d - 1)];
      assert Occurrences(last[..2], free) == 0 by {
        OccurrencesAbsent(last[..2], free);
      }
    }
  }

  /** Anatomy of the scan from `i`: it moves past every device before the stop
      index, and then either runs off the end with nothing found, or lets the
      device at the stop index decide the outcome. */
  ghost predicate Anatomy(devs: seq<Device>, i: nat, s: Scan) {
    var d := StopIndex(s.outcome, |devs|);
    && ReachesFrom(devs, i, d)
    && (d == |devs| ==> s == Scan(NotFound, Scanned(i, d)))
    && (d < |devs| ==>
          && !Continues(devs[d]) && MouseHasEndpoint(devs[d])
          && s == Scan(StopAt(devs[d], d).outcome, Scanned(i, d) + StopAt(devs[d], d).trace))
  }

  /** Putting a device the scan moves past in front of a scan keeps its anatomy. */
  lemma AnatomyCons(devs: seq<Device>, i: nat, rest: Scan)
    requires i < |devs| && Continues(devs[i]) && Anatomy(devs, i + 1, rest)
    ensures Anatomy(devs, i, Scan(rest.outcome, Passed(i) + rest.trace))
  {
    var d := StopIndex(rest.outcome, |devs|);
    assert ReachesFrom(devs, i, d);
    assert Scanned(i, d) == Passed(i) + Scanned(i + 1, d) by {
      ScannedCons(i, d);
    }
    if d < |devs| {
      var stop := StopAt(devs[d], d);
      assert Passed(i) + (Scanned(i + 1, d) + stop.trace) == (Passed(i) + Scanned(i + 1, d)) + stop.trace;
    }
  }

  lemma {:induction false} ScanFromAnatomy(devs: seq<Device>, i: nat)
    requires i <= |devs| && MatchSafeFrom(devs, i)
    ensures Anatomy(devs, i, ScanFrom(devs, i))
    decreases |devs| - i
  {
    if i < |devs| && Continues(devs[i]) {
      ScanFromContinues(devs, i);
      ScanFromAnatomy(devs, i + 1);
      AnatomyCons(devs, i, ScanFrom(devs, i + 1));
    } else if i < |devs| {
      assert ReachesFrom(devs, i, i);
      assert Scanned(i, i) == [];
    }
  }

  /** The scan of the whole list, seen from the device it stopped at. */
  lemma MatchAnatomy(devs: seq<Device>)
    requires MatchSafe(devs)
    ensures var s := Match(devs);
            var d := StopIndex(s.outcome, |devs|);
            && ReachesFrom(devs, 0, d)
            && (d == |devs| ==> s == Scan(NotFound, Scanned(0, d)))
            && (d < |devs| ==>
                  && !Continues(devs[d]) && MouseHasEndpoint(devs[d])
                  && s == Scan(StopAt(devs[d], d).outcome, Scanned(0, d) + StopAt(devs[d], d).trace))
  {
    ScanFromAnatomy(devs, 0);
  }

  /** The first device the scan does not move past decides the outcome. */
  lemma FirstStopDecides(devs: seq<Device>, d: nat)
    requires MatchSafe(devs) && ReachesFrom(devs, 0, d) && d < |devs| && !Continues(devs[d])
    ensures MouseHasEndpoint(devs[d])
    ensures Match(devs) == Scan(StopAt(devs[d], d).outcome, Scanned(0, d) + StopAt(devs[d], d).trace)
  {
    ScanSplit(devs, 0, d);
    assert ReachesFrom(devs, d, d);
  }

  /** An empty device list: nothing found, no platform call at all. */
  lemma EmptyListNotFound()
    ensures MatchSafe([])
    ensures Match([]) == Scan(NotFound, [])
  {
  }

  /** Nothing is found exactly when every device is readable and has no boot
      mouse; then every device is read and freed and nothing is opened. */
  lemma NotFoundExactly(devs: seq<Device>)
    requires MatchSafe(devs)
    ensures Match(devs).outcome.NotFound? <==> ReachesFrom(devs, 0, |devs|)
    ensures Match(devs).outcome.NotFound? ==> Match(devs).trace == Scanned(0, |devs|)
  {
    MatchAnatomy(devs);
    if ReachesFrom(devs, 0, |devs|) {
      ScanSplit(devs, 0, |devs|);
    }
  }

  /**
   First match wins: the scan reports device `d`, interface `k` exactly when
   every earlier device was readable and mouse-free, device `d` is readable,
   `k` is the lowest-indexed interface of `d` whose alternate setting 0 is a
   boot mouse, open, auto-detach and claim succeed, and the endpoint address
   and packet size are those of endpoint 0 of that alternate setting.
   */
  lemma FirstMatchWins(devs: seq<Device>, d: nat, k: nat, epAddr: uint8, maxPacketSize: uint16)
    requires MatchSafe(devs)
    ensures Match(devs).outcome == Found(d, k, epAddr, maxPacketSize) <==>
      && ReachesFrom(devs, 0, d) && d < |devs|
      && Readable(devs[d]) && FirstMouseAt(devs[d].config, k)
      && devs[d].openStatus >= 0 && devs[d].autoDetachStatus >= 0 && devs[d].claimStatus >= 0
      && |Alt0(devs[d].config.interfaces[k]).endpoints| >= 1
      && epAddr == Alt0(devs[d].config.interfaces[k]).endpoints[0].address
      && maxPacketSize == Alt0(devs[d].config.interfaces[k]).endpoints[0].maxPacketSize
  {
    MatchAnatomy(devs);
    var o := Match(devs).outcome;
    if o == Found(d, k, epAddr, maxPacketSize) {
      FirstMouseExact(devs[d].config, k);
    }
    if ReachesFrom(devs, 0, d) && d < |devs| && Readable(devs[d]) && FirstMouseAt(devs[d].config, k) {
      FirstMouseExact(devs[d].config, k);
      FirstStopDecides(devs, d);
    }
  }

  /** A failed device-descriptor read (status below zero) of a device the scan
      reaches aborts the scan right there: no later device is read and nothing
      is opened. */
  lemma DeviceDescriptorFailureAborts(devs: seq<Device>, d: nat, status: int)
    requires MatchSafe(devs)
    ensures Match(devs).outcome == Abort(d, DeviceDescriptorFailed(status)) <==>
      ReachesFrom(devs, 0, d) && d < |devs| && devs[d].deviceDescriptorStatus == status < 0
    ensures Match(devs).outcome == Abort(d, DeviceDescriptorFailed(status)) ==>
      Match(devs).trace == Scanned(0, d) + [GetDeviceDescriptor(d)]
  {
    MatchAnatomy(devs);
    if ReachesFrom(devs, 0, d) && d < |devs| && devs[d].deviceDescriptorStatus == status < 0 {
      FirstStopDecides(devs, d);
    }
  }

  /** A non-zero result reading configuration 0 of a device the scan reaches
      aborts the scan right there, after the two reads, freeing nothing of
      that device and opening nothing. */
  lemma ConfigDescriptorFailureAborts(devs: seq<Device>, d: nat, status: int)
    requires MatchSafe(devs)
    ensures Match(devs).outcome == Abort(d, ConfigDescriptorFailed(status)) <==>
      && ReachesFrom(devs, 0, d) && d < |devs|
      && devs[d].deviceDescriptorStatus >= 0 && devs[d].configStatus == status != 0
    ensures Match(devs).outcome == Abort(d, ConfigDescriptorFailed(status)) ==>
      Match(devs).trace == Scanned(0, d) + [GetDeviceDescriptor(d), GetConfigDescriptor(d)]
  {
    MatchAnatomy(devs);
    if ReachesFrom(devs, 0, d) && d < |devs| && devs[d].deviceDescriptorStatus >= 0 && devs[d].configStatus == status != 0 {
      FirstStopDecides(devs, d);
    }
  }

  /** A failed open (status below zero) of the device holding the first boot
      mouse the scan reaches aborts the scan there: auto-detach and claim are
      skipped, and the trace ends with the open. */
  lemma OpenFailureAborts(devs: seq<Device>, d: nat, status: int)
    requires MatchSafe(devs)
    ensures Match(devs).outcome == Abort(d, OpenFailed(status)) <==>
      && ReachesFrom(devs, 0, d) && d < |devs|
      && Readable(devs[d]) && !MouseFree(devs[d].config)
      && devs[d].openStatus == status < 0
    ensures Match(devs).outcome == Abort(d, OpenFailed(status)) ==>
      Match(devs).trace == Scanned(0, d) + [GetDeviceDescriptor(d), GetConfigDescriptor(d), Open(d)]
  {
    MatchAnatomy(devs);
    if ReachesFrom(devs, 0, d) && d < |devs| && Readable(devs[d]) && !MouseFree(devs[d].config)
       && devs[d].openStatus == status < 0 {
      FirstStopDecides(devs, d);
    }
  }

  /** A failed auto-detach after a successful open aborts the scan there:
      claim is skipped, and the trace ends with the auto-detach. */
  lemma AutoDetachFailureAborts(devs: seq<Device>, d: nat, status: int)
    requires MatchSafe(devs)
    ensures Match(devs).outcome == Abort(d, AutoDetachFailed(status)) <==>
      && ReachesFrom(devs, 0, d) && d < |devs|
      && Readable(devs[d]) && !MouseFree(devs[d].config)
      && devs[d].openStatus >= 0 && devs[d].autoDetachStatus == status < 0
    ensures Match(devs).outcome == Abort(d, AutoDetachFailed(status)) ==>
      Match(devs).trace == Scanned(0, d) + [GetDeviceDescriptor(d), GetConfigDescriptor(d), Open(d), SetAutoDetach(d)]
  {
    MatchAnatomy(devs);
    if ReachesFrom(devs, 0, d) && d < |devs| && Readable(devs[d]) && !MouseFree(devs[d].config)
       && devs[d].openStatus >= 0 && devs[d].autoDetachStatus == status < 0 {
      FirstStopDecides(devs, d);
    }
  }

  /** At the stop device, a claim failure is a boot mouse whose open and
      auto-detach succeed and whose claim fails. */
  lemma StopAtClaimFailed(dev: Device, d: nat, status: int)
    requires !Continues(dev) && MouseHasEndpoint(dev)
    ensures StopAt(dev, d).outcome == Abort(d, ClaimFailed(status)) <==>
      && Readable(dev) && !MouseFree(dev.config)
      && dev.openStatus >= 0 && dev.autoDetachStatus >= 0 && dev.claimStatus == status < 0
    ensures StopAt(dev, d).outcome == Abort(d, ClaimFailed(status)) ==>
      && FirstMouse(dev.config).Some?
      && StopAt(dev, d).trace == [GetDeviceDescriptor(d), GetConfigDescriptor(d), Open(d), SetAutoDetach(d),
                                  ClaimInterface(d, FirstMouse(dev.config).value)]
  {
  }

  /** A failed claim after a successful open and auto-detach aborts the scan
      there; the claim named the first boot-mouse interface of the device. */
  lemma ClaimFailureAborts(devs: seq<Device>, d: nat, status: int)
    requires MatchSafe(devs)
    ensures Match(devs).outcome == Abort(d, ClaimFailed(status)) <==>
      && ReachesFrom(devs, 0, d) && d < |devs|
      && Readable(devs[d]) && !MouseFree(devs[d].config)
      && devs[d].openStatus >= 0 && devs[d].autoDetachStatus >= 0 && devs[d].claimStatus == status < 0
    ensures Match(devs).outcome == Abort(d, ClaimFailed(status)) ==>
      && d < |devs| && FirstMouse(devs[d].config).Some?
      && Match(devs).trace == Scanned(0, d) + [GetDeviceDescriptor(d), GetConfigDescriptor(d), Open(d), SetAutoDetach(d),
                                               ClaimInterface(d, FirstMouse(devs[d].config).value)]
  {
    MatchAnatomy(devs);
    var e := StopIndex(Match(devs).outcome, |devs|);
    if e < |devs| {
      StopAtClaimFailed(devs[e], e, status);
    }
    if ReachesFrom(devs, 0, d) && d < |devs| && Readable(devs[d]) && !MouseFree(devs[d].config)
       && devs[d].openStatus >= 0 && devs[d].autoDetachStatus >= 0 && devs[d].claimStatus == status < 0 {
      FirstStopDecides(devs, d);
    }
  }

  /** The calls made at the device the scan stopped at, by outcome. */
  ghost predicate StopCalls(devs: seq<Device>, o: Outcome, t: seq<Event>)
  {
    var d := StopIndex(o, |devs|);
    && (o.NotFound? ==> t == [])
    && (o.Abort? && o.failure.DeviceDescriptorFailed? ==> t == [GetDeviceDescriptor(d)])
    && (o.Abort? && o.failure.ConfigDescriptorFailed? ==> t == [GetDeviceDescriptor(d), GetConfigDescriptor(d)])
    && (o.Abort? && o.failure.OpenFailed? ==> t == [GetDeviceDescriptor(d), GetConfigDescriptor(d), Open(d)])
    && (o.Abort? && o.failure.AutoDetachFailed? ==>
          t == [GetDeviceDescriptor(d), GetConfigDescriptor(d), Open(d), SetAutoDetach(d)])
    && (o.Abort? && o.failure.ClaimFailed? ==>
          && d < |devs| && Readable(devs[d]) && FirstMouse(devs[d].config).Some?
          && t == [GetDeviceDescriptor(d), GetConfigDescriptor(d), Open(d), SetAutoDetach(d),
                   ClaimInterface(d, FirstMouse(devs[d].config).value)])
    && (o.Found? ==>
          t == [GetDeviceDescriptor(d), GetConfigDescriptor(d), Open(d), SetAutoDetach(d), ClaimInterface(d, o.intf)])
  }

  lemma StopAtCalls(devs: seq<Device>, d: nat)
    requires d < |devs| && !Continues(devs[d]) && MouseHasEndpoint(devs[d])
    ensures StopCalls(devs, StopAt(devs[d], d).outcome, StopAt(devs[d], d).trace)
  {
  }

  /**
   The exact platform calls of every outcome: the two reads and the free of
   each device passed over, then, at the device the scan stopped at, the
   reads and the prefix of open, auto-detach and claim that ran, claim naming
   the matched interface.
   */
  lemma TraceShape(devs: seq<Device>)
    requires MatchSafe(devs)
    ensures var s := Match(devs); var d := StopIndex(s.outcome, |devs|);
      && 3 * d <= |s.trace| && s.trace[.. 3 * d] == Scanned(0, d)
      && StopCalls(devs, s.outcome, s.trace[3 * d ..])
  {
    MatchAnatomy(devs);
    var s := Match(devs);
    var d := StopIndex(s.outcome, |devs|);
    if d < |devs| {
      StopAtCalls(devs, d);
      assert s.trace[3 * d ..] == StopAt(devs[d], d).trace;
    }
  }

  /** The scan never frees the configuration descriptor of the device it
      stopped at (matched, or failed while acquiring it), and frees that of
      every device it moved past exactly once. */
  lemma ConfigFreedOnce(devs: seq<Device>, e: nat)
    requires MatchSafe(devs)
    ensures var s := Match(devs); var d := StopIndex(s.outcome, |devs|);
      Occurrences(s.trace, FreeConfigDescriptor(e)) == if e < d then 1 else 0
  {
    MatchAnatomy(devs);
    var s := Match(devs);
    var d := StopIndex(s.outcome, |devs|);
    ScannedFrees(0, d, e);
    if d < |devs| {
      var tail := StopAt(devs[d], d).trace;
      StopAtCalls(devs, d);
      StopCallsDevice(devs, StopAt(devs[d], d).outcome, tail);
      OccurrencesAppend(Scanned(0, d), tail, FreeConfigDescriptor(e));
      OccurrencesAbsent(tail, FreeConfigDescriptor(e));
    }
  }

  /** Each device the scan moved past is read and freed before the next
      device's descriptor is read: its three calls form block `e` of the trace. */
  lemma ConfigFreedBeforeNext(devs: seq<Device>, e: nat)
    requires MatchSafe(devs)
    ensures var s := Match(devs); var d := StopIndex(s.outcome, |devs|);
      e < d ==> 3 * e + 3 <= |s.trace| && s.trace[3 * e .. 3 * e + 3] == Passed(e)
  {
    TraceShape(devs);
    var s := Match(devs);
    var d := StopIndex(s.outcome, |devs|);
    if e < d {
      ScannedBlock(0, d, e);
      assert s.trace[3 * e .. 3 * e + 3] == s.trace[.. 3 * d][3 * e .. 3 * e + 3];
    }
  }

  /** The calls made at the stop device are all about that device, and none
      of them frees a configuration descriptor. */
  lemma StopCallsDevice(devs: seq<Device>, o: Outcome, t: seq<Event>)
    requires StopCalls(devs, o, t)
    ensures forall j :: 0 <= j < |t| ==> t[j].dev == StopIndex(o, |devs|) && !t[j].FreeConfigDescriptor?
  {
  }

  /** No device after the one the scan stopped at is ever touched. */
  lemma NoLaterDevice(devs: seq<Device>)
    requires MatchSafe(devs)
    ensures var s := Match(devs); var d := StopIndex(s.outcome, |devs|);
      forall j :: 0 <= j < |s.trace| ==> s.trace[j].dev <= d
  {
    TraceShape(devs);
    var s := Match(devs);
    var d := StopIndex(s.outcome, |devs|);
    var head := s.trace[.. 3 * d];
    var tail := s.trace[3 * d ..];
    ScannedDevices(0, d);
    StopCallsDevice(devs, s.outcome, tail);
    forall j | 0 <= j < |s.trace|
      ensures s.trace[j].dev <= d
    {
      if j < 3 * d {
        assert s.trace[j] == head[j];
      } else {
        assert s.trace[j] == tail[j - 3 * d];
      }
    }
  }

  predicate IsAcquisition(ev: Event) {
    ev.Open? || ev.SetAutoDetach? || ev.ClaimInterface?
  }

  /** The open, auto-detach and claim calls of a trace, in order. */
  function Acquisitions(t: seq<Event>): (r: seq<Event>)
  {
    if t == [] then []
    else if IsAcquisition(t[|t| - 1]) then Acquisitions(t[..|t| - 1]) + [t[|t| - 1]]
    else Acquisitions(t[..|t| - 1])
  }

  lemma {:induction false} AcquisitionsAppend(a: seq<Event>, b: seq<Event>)
    ensures Acquisitions(a + b) == Acquisitions(a) + Acquisitions(b)
    decreases |b|
  {
    if b != [] {
      assert (a + b)[..|a + b| - 1] == a + b[..|b| - 1];
      AcquisitionsAppend(a, b[..|b| - 1]);
    } else {
      assert a + b == a;
    }
  }

  lemma {:induction false} AcquisitionsNone(t: seq<Event>)
    requires forall j :: 0 <= j < |t| ==> !IsAcquisition(t[j])
    ensures Acquisitions(t) == []
    decreases |t|
  {
    if t != [] {
      AcquisitionsNone(t[..|t| - 1]);
    }
  }

  lemma {:induction false} AcquisitionsAll(t: seq<Event>)
    requires forall j :: 0 <= j < |t| ==> IsAcquisition(t[j])
    ensures Acquisitions(t) == t
    decreases |t|
  {
    if t != [] {
      AcquisitionsAll(t[..|t| - 1]);
    }
  }

  /** The open, auto-detach and claim calls expected for each outcome. */
  ghost predicate ChainCalls(devs: seq<Device>, o: Outcome, a: seq<Event>)
  {
    && (o.NotFound? ==> a == [])
    && (o.Abort? && (o.failure.DeviceDescriptorFailed? || o.failure.ConfigDescriptorFailed?) ==> a == [])
    && (o.Abort? && o.failure.OpenFailed? ==> a == [Open(o.dev)])
    && (o.Abort? && o.failure.AutoDetachFailed? ==> a == [Open(o.dev), SetAutoDetach(o.dev)])
    && (o.Abort? && o.failure.ClaimFailed? ==>
          && o.dev < |devs| && Readable(devs[o.dev]) && FirstMouse(devs[o.dev].config).Some?
          && a == [Open(o.dev), SetAutoDetach(o.dev), ClaimInterface(o.dev, FirstMouse(devs[o.dev].config).value)])
    && (o.Found? ==> a == [Open(o.dev), SetAutoDetach(o.dev), ClaimInterface(o.dev, o.intf)])
  }

  lemma StopChain(devs: seq<Device>, o: Outcome, t: seq<Event>)
    requires StopCalls(devs, o, t)
    ensures ChainCalls(devs, o, Acquisitions(t))
  {
    if |t| >= 2 {
      assert t == t[..2] + t[2..];
      AcquisitionsNone(t[..2]);
      AcquisitionsAppend(t[..2], t[2..]);
      AcquisitionsAll(t[2..]);
    } else {
      AcquisitionsNone(t);
    }
  }

  /**
   Open, auto-detach and claim are called in that order, each at most once,
   only on the device the scan stopped at, and claim names the matched
   interface; the first failing call ends the chain, and a scan that finds
   nothing or fails reading a descriptor calls none of them.
   */
  lemma AcquisitionChain(devs: seq<Device>)
    requires MatchSafe(devs)
    ensures ChainCalls(devs, Match(devs).outcome, Acquisitions(Match(devs).trace))
  {
    TraceShape(devs);
    var s := Match(devs);
    var d := StopIndex(s.outcome, |devs|);
    ScannedDevices(0, d);
    AcquisitionsNone(Scanned(0, d));
    var rest := s.trace[3 * d ..];
    assert s.trace == s.trace[.. 3 * d] + rest;
    AcquisitionsAppend(Scanned(0, d), rest);
    StopChain(devs, s.outcome, rest);
  }

  /** Two devices that answer every platform call alike and whose
      configurations agree on alternate setting 0 of every interface; other
      alternate settings may differ arbitrarily. */
  ghost predicate AgreeOnAlt0(a: Device, b: Device) {
    && a.deviceDescriptorStatus == b.deviceDescriptorStatus
    && a.configStatus == b.configStatus
    && a.openStatus == b.openStatus
    && a.autoDetachStatus == b.autoDetachStatus
    && a.claimStatus == b.claimStatus
    && |a.config.interfaces| == |b.config.interfaces|
    && forall k :: 0 <= k < |a.config.interfaces| ==> Alt0(a.config.interfaces[k]) == Alt0(b.config.interfaces[k])
  }

  lemma FirstMouseAlt0(a: ConfigDescriptor, b: ConfigDescriptor)
    requires |a.interfaces| == |b.interfaces|
    requires forall k :: 0 <= k < |a.interfaces| ==> Alt0(a.interfaces[k]) == Alt0(b.interfaces[k])
    ensures FirstMouse(a) == FirstMouse(b)
  {
    if FirstMouse(a).Some? {
      FirstMouseExact(b, FirstMouse(a).value);
    }
  }

  lemma {:induction false} ScanFromAlt0(devs: seq<Device>, devs': seq<Device>, i: nat)
    requires i <= |devs| == |devs'| && MatchSafeFrom(devs, i)
    requires forall e :: 0 <= e < |devs| ==> AgreeOnAlt0(devs[e], devs'[e])
    ensures MatchSafeFrom(devs', i)
    ensures ScanFrom(devs, i) == ScanFrom(devs', i)
    decreases |devs| - i
  {
    if i < |devs| {
      FirstMouseAlt0(devs[i].config, devs'[i].config);
      if Continues(devs[i]) {
        ScanFromAlt0(devs, devs', i + 1);
      }
    }
  }

  /** Only alternate setting 0 of each interface is examined: changing any
      other alternate setting changes neither the outcome nor a single
      platform call. */
  lemma OnlyAltSettingZero(devs: seq<Device>, devs': seq<Device>)
    requires MatchSafe(devs) && |devs| == |devs'|
    requires forall e :: 0 <= e < |devs| ==> AgreeOnAlt0(devs[e], devs'[e])
    ensures MatchSafe(devs') && Match(devs) == Match(devs')
  {
    ScanFromAlt0(devs, devs', 0);
  }
}
