/**
 The device/interface matcher of the driver's main routine: devices are
 scanned in enumeration order, the interfaces of configuration 0 of each
 device in ascending index order, and the first interface whose alternate
 setting 0 is a HID boot mouse is opened, detached from any kernel driver
 and claimed. Every platform call is an oracle: its result is a field of
 the `Device` record, and the call itself is recorded in an event trace.
 */
module Matcher {
  import opened Wrappers
  import opened Descriptors

  /** What the platform library answers for one enumerated device. */
  datatype Device = Device(
    deviceDescriptorStatus: int,   // result of reading the device descriptor; < 0 is an error
    configStatus: int,             // result of reading configuration 0; 0 is success
    config: ConfigDescriptor,      // configuration 0, meaningful when configStatus == 0
    openStatus: int,               // result of opening the device; < 0 is an error
    autoDetachStatus: int,         // result of enabling kernel-driver auto-detach; < 0 is an error
    claimStatus: int)              // result of claiming the matched interface; < 0 is an error

  /** Platform calls, each tagged with the enumeration index of its device. */
  datatype Event =
    | GetDeviceDescriptor(dev: nat)
    | GetConfigDescriptor(dev: nat)
    | FreeConfigDescriptor(dev: nat)
    | Open(dev: nat)
    | SetAutoDetach(dev: nat)
    | ClaimInterface(dev: nat, intf: nat)

  /** The call that failed, with the status it returned. */
  datatype Failure =
    | DeviceDescriptorFailed(status: int)
    | ConfigDescriptorFailed(status: int)
    | OpenFailed(status: int)
    | AutoDetachFailed(status: int)
    | ClaimFailed(status: int)

  datatype Outcome =
    | NotFound
    | Found(dev: nat, intf: nat, epAddr: uint8, maxPacketSize: uint16)
    | Abort(dev: nat, failure: Failure)

  datatype Scan = Scan(outcome: Outcome, trace: seq<Event>)

  /** Both descriptor reads of the device succeed. */
  predicate Readable(dev: Device) {
    dev.deviceDescriptorStatus >= 0 && dev.configStatus == 0
  }

  /** The scan moves past this device: it is readable and none of its
      interfaces is a boot mouse. */
  predicate Continues(dev: Device)
    ensures Continues(dev) <==> Readable(dev) && MouseFree(dev.config)
  {
    Readable(dev) && FirstMouse(dev.config).None?
  }

  /** The scan started at device `i` gets as far as device `d`. */
  ghost predicate ReachesFrom(devs: seq<Device>, i: nat, d: nat) {
    && i <= d <= |devs|
    && forall e :: i <= e < d ==> Continues(devs[e])
  }

  /** If the scan picks an interface of this device, that interface has an
      endpoint 0 to read the address and packet size from. */
  predicate MouseHasEndpoint(dev: Device) {
    Readable(dev) ==>
      var m := FirstMouse(dev.config);
      m.Some? ==> |Alt0(dev.config.interfaces[m.value]).endpoints| >= 1
  }

  /** The endpoint-0 reads of the scan started at `i` stay in bounds: every
      device the scan reaches has an endpoint 0 on the interface it would pick. */
  predicate MatchSafeFrom(devs: seq<Device>, i: nat)
    decreases |devs| - i
  {
    i >= |devs| || (MouseHasEndpoint(devs[i]) && (Continues(devs[i]) ==> MatchSafeFrom(devs, i + 1)))
  }

  ghost predicate MatchSafe(devs: seq<Device>) {
    MatchSafeFrom(devs, 0)
  }

  /** The events of one device the scan moves past: its two descriptor
      reads and the free of its configuration descriptor. */
  function Passed(e: nat): seq<Event> {
    [GetDeviceDescriptor(e), GetConfigDescriptor(e), FreeConfigDescriptor(e)]
  }

  /** The events of devices `i` .. `d-1` when each of them is scanned
      without a match: two descriptor reads and a free. */
  function Scanned(i: nat, d: nat): (t: seq<Event>)
    requires i <= d
    ensures |t| == 3 * (d - i)
    decreases d - i
  {
    if d == i then []
    else Scanned(i, d - 1) + Passed(d - 1)
  }

  /** Open, auto-detach and claim on device `d`, interface `k`; the first
      failure ends the chain. */
  function Acquire(dev: Device, d: nat, k: nat): (s: Scan)
    requires Readable(dev) && FirstMouse(dev.config) == Some(k)
    requires MouseHasEndpoint(dev)
    ensures !s.outcome.NotFound? && s.outcome.dev == d
  {
    var ep := Alt0(dev.config.interfaces[k]).endpoints[0];
    if dev.openStatus < 0 then
      Scan(Abort(d, OpenFailed(dev.openStatus)), [Open(d)])
    else if dev.autoDetachStatus < 0 then
      Scan(Abort(d, AutoDetachFailed(dev.autoDetachStatus)), [Open(d), SetAutoDetach(d)])
    else if dev.claimStatus < 0 then
      Scan(Abort(d, ClaimFailed(dev.claimStatus)), [Open(d), SetAutoDetach(d), ClaimInterface(d, k)])
    else
      Scan(Found(d, k, ep.address, ep.maxPacketSize), [Open(d), SetAutoDetach(d), ClaimInterface(d, k)])
  }

  /** What happens at device `d` when the scan does not move past it. */
  function StopAt(dev: Device, d: nat): (s: Scan)
    requires !Continues(dev) && MouseHasEndpoint(dev)
    ensures !s.outcome.NotFound? && s.outcome.dev == d
  {
    if dev.deviceDescriptorStatus < 0 then
      Scan(Abort(d, DeviceDescriptorFailed(dev.deviceDescriptorStatus)), [GetDeviceDescriptor(d)])
    else if dev.configStatus != 0 then
      Scan(Abort(d, ConfigDescriptorFailed(dev.configStatus)), [GetDeviceDescriptor(d), GetConfigDescriptor(d)])
    else
      var a := Acquire(dev, d, FirstMouse(dev.config).value);
      Scan(a.outcome, [GetDeviceDescriptor(d), GetConfigDescriptor(d)] + a.trace)
  }

  /** The scan from device `i` on, as an early-return search: devices that
      it moves past contribute two reads and a free, and the first device it
      does not move past decides the outcome. */
  function ScanFrom(devs: seq<Device>, i: nat): (s: Scan)
    requires i <= |devs| && MatchSafeFrom(devs, i)
    ensures s.outcome.NotFound? || i <= s.outcome.dev < |devs|
    decreases |devs| - i
  {
    if i == |devs| then Scan(NotFound, [])
    else if Continues(devs[i]) then
      var rest := ScanFrom(devs, i + 1);
      Scan(rest.outcome, Passed(i) + rest.trace)
    else
      StopAt(devs[i], i)
  }

  /** The whole scan over the enumerated device list. */
  function Match(devs: seq<Device>): (s: Scan)
    requires MatchSafe(devs)
    ensures s.outcome.NotFound? || s.outcome.dev < |devs|
  {
    ScanFrom(devs, 0)
  }

  /** One step of the scan over a device it moves past. */
  lemma ScanFromContinues(devs: seq<Device>, i: nat)
    requires i < |devs| && MatchSafeFrom(devs, i) && Continues(devs[i])
    ensures MatchSafeFrom(devs, i + 1)
    ensures ScanFrom(devs, i)
         == Scan(ScanFrom(devs, i + 1).outcome,
                 Passed(i) + ScanFrom(devs, i + 1).trace)
  {
  }

  /** `Scanned` read from the front: the first device's calls, then the rest. */
  lemma {:induction false} ScannedCons(i: nat, d: nat)
    requires i < d
    ensures Scanned(i, d)
         == Passed(i) + Scanned(i + 1, d)
    decreases d - i
  {
    if d > i + 1 {
      ScannedCons(i, d - 1);
    }
  }

  /** Concatenation of event sequences is associative. */
  lemma ConcatAssoc(a: seq<Event>, b: seq<Event>, c: seq<Event>)
    ensures a + (b + c) == (a + b) + c
  {
  }

  /** A scan that gets as far as device `d` is the events of the devices it
      moved past followed by the scan from `d` on. */
  lemma {:induction false} ScanSplit(devs: seq<Device>, i: nat, d: nat)
    requires i <= |devs| && MatchSafeFrom(devs, i) && ReachesFrom(devs, i, d)
    ensures MatchSafeFrom(devs, d)
    ensures ScanFrom(devs, i) == Scan(ScanFrom(devs, d).outcome, Scanned(i, d) + ScanFrom(devs, d).trace)
    decreases d - i
  {
    if d > i {
      ScanFromContinues(devs, i);
      assert ReachesFrom(devs, i + 1, d);
      ScanSplit(devs, i + 1, d);
      ScannedCons(i, d);
      ConcatAssoc(Passed(i), Scanned(i + 1, d), ScanFrom(devs, d).trace);
    } else {
      assert Scanned(i, d) == [];
    }
  }

  /**
   The body of the driver's device loop for device `i`: read the device
   descriptor and configuration 0, run through the interface indices until a
   boot mouse turns up, and then open, detach and claim, leaving at the first
   failure; a device without a mouse has its configuration freed.
   */
  method ExamineDevice(dev: Device, i: nat) returns (stopped: bool, outcome: Outcome, events: seq<Event>)
    requires MouseHasEndpoint(dev)
    ensures stopped == !Continues(dev)
    ensures stopped ==> Scan(outcome, events) == StopAt(dev, i)
    ensures !stopped ==> events == Passed(i)
  {
    outcome := NotFound;
    events := [GetDeviceDescriptor(i)];
    if dev.deviceDescriptorStatus < 0 {
      return true, Abort(i, DeviceDescriptorFailed(dev.deviceDescriptorStatus)), events;
    }
    events := events + [GetConfigDescriptor(i)];
    if dev.configStatus != 0 {
      return true, Abort(i, ConfigDescriptorFailed(dev.configStatus)), events;
    }
    var interfaces := dev.config.interfaces;
    var found := false;
    var maxSize: uint16 := 0;
    var epAddr: uint8 := 0;
    var k := 0;
    while k < |interfaces|
      invariant k <= |interfaces|
      invariant forall j :: 0 <= j < k ==> !IsBootMouse(Alt0(interfaces[j]))
      decreases |interfaces| - k
    {
      var alt := Alt0(interfaces[k]);
      if IsBootMouse(alt) {
        FirstMouseExact(dev.config, k);
        events := events + [Open(i)];
        if dev.openStatus < 0 {
          return true, Abort(i, OpenFailed(dev.openStatus)), events;
        }
        events := events + [SetAutoDetach(i)];
        if dev.autoDetachStatus < 0 {
          return true, Abort(i, AutoDetachFailed(dev.autoDetachStatus)), events;
        }
        events := events + [ClaimInterface(i, k)];
        if dev.claimStatus < 0 {
          return true, Abort(i, ClaimFailed(dev.claimStatus)), events;
        }
        found := true;
        maxSize := alt.endpoints[0].maxPacketSize;
        epAddr := alt.endpoints[0].address;
        break;
      }
      k := k + 1;
    }
    if found {
      return true, Found(i, k, epAddr, maxSize), events;
    }
    events := events + [FreeConfigDescriptor(i)];
    stopped := false;
  }

  /**
   The scan as the driver's main routine writes it: a loop over the device
   list that examines each device in turn and leaves at the first device
   that ends the scan, by a match or by a failed platform call.
   */
  method ScanDevices(devs: seq<Device>) returns (outcome: Outcome, trace: seq<Event>)
    requires MatchSafe(devs)
    ensures Scan(outcome, trace) == Match(devs)
  {
    trace := [];
    var i := 0;
    while i < |devs|
      invariant i <= |devs|
      invariant ReachesFrom(devs, 0, i)
      invariant trace == Scanned(0, i)
      decreases |devs| - i
    {
      ScanSplit(devs, 0, i);
      assert ReachesFrom(devs, i, i);
      var stopped, o, events := ExamineDevice(devs[i], i);
      if stopped {
        return o, trace + events;
      }
      trace := trace + events;
      i := i + 1;
    }
    ScanSplit(devs, 0, i);
    outcome := NotFound;
  }
}
