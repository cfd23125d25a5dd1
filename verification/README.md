# USB boot-mouse driver: matcher and poller

A Dafny model of the two pieces of logic in `usb_mouse_driver_libusb.c`, a
small libusb program that finds a HID boot-protocol mouse and prints its
interrupt reports.

- **Device/interface matcher** (`main`). Devices are scanned in enumeration
  order. For each device the program reads the device descriptor and
  configuration 0, then walks the interfaces in ascending index order. It
  looks only at alternate setting 0 of each interface. The first interface
  whose class/subclass/protocol is HID (0x03) / boot (0x01) / mouse (0x02),
  the codes of sections 4.1–4.3 of the USB HID 1.11 class definition, is the
  match. The program then opens the device, enables kernel-driver
  auto-detach and claims that interface. Any failed platform call ends the
  scan. A device without a mouse has its configuration descriptor freed
  before the next device is read.
- **Interrupt poller** (`do_sync_intr`, `sync_intr`). It repeatedly issues an
  interrupt transfer of `max_size` bytes into a 64-byte buffer. A negative
  status stops the loop with that status. A short read stops it with -1. A
  full read emits `max_size` bytes and goes round again.

Modules:

- `Descriptors`: the descriptor hierarchy (configuration → interfaces →
  alternate settings → endpoints), the boot-mouse predicate, and the search
  for the first boot-mouse interface of a configuration.
- `Matcher`: the scan as a pure early-return function `Match` that returns
  an outcome (`NotFound`, `Found(dev, intf, epAddr, maxPacketSize)` or
  `Abort(dev, failure)`) and a trace of platform calls. It also has the
  method `ScanDevices`, which mirrors the nested loops with their early
  exits, and is proved equal to `Match`. Every platform call's result is an
  oracle field of the `Device` record.
- `MatcherProperties`: first match wins, the abort cases, the exact shape
  of the trace, configuration-descriptor accounting, the open/detach/claim
  chain, and "alternate setting 0 only".
- `Poller`: one classified transfer (`DoSyncIntr`) and the loop as a fold
  (`SyncIntr`) over a finite sequence of transfer outcomes. It also has the
  method `PollLoop`, which mirrors the `while (1)` loop. When the sequence
  runs out, the poll has not stopped.
- `PollerProperties`: a buffer-free characterization of the poll, proved
  unique, together with classification and composition lemmas.
- `Driver`: the tail of `main`, which polls only when the scan found and
  claimed a mouse.

Preconditions and observations:

- `endpoint[0]` of the matched alternate setting is read without checking
  `bNumEndpoints`. The model makes "the interface the scan picks has at
  least one endpoint" an explicit precondition (`Matcher.MatchSafe`). It is
  not part of the boot-mouse predicate, because the code does not test it.
- `altsetting[0]` of every interface is also read without a check. The
  model assumes it exists: the alternate-setting list of an interface has
  at least one entry (`Descriptors.AltSettings`). This holds because libusb
  drops, while parsing the configuration, any interface that has no
  alternate setting.
- The poll buffer holds 64 bytes, and `max_size` comes from
  `wMaxPacketSize` unchecked. The model requires `maxSize <= 64`
  (`Poller.BufferFits`). It also requires that the platform never transfers
  more than the requested length (`Poller.Delivers`).
- When a match is found, or when open, detach or claim fails, the matched
  device's configuration descriptor is never freed. On those paths the
  early exit skips the free. `MatcherProperties.ConfigFreedOnce` states
  this asymmetry as written.
- A short read returns -1, the same value as a transfer that fails with
  status -1, so the two cannot be told apart from the result
  (`PollerProperties.ShortReadLooksLikeStatusMinusOne`).
- `main` returns 0 after start-up whatever happened, and it ignores the
  value `sync_intr` returns. Neither is modelled.

## Model

| member | source | states |
|---|---|---|
| Descriptors.FirstMouseFrom | usb_mouse_driver_libusb.c:81-89 | the search from interface `k` returns the lowest index at or after `k` whose alternate setting 0 is a boot mouse, and returns None exactly when there is none |
| Descriptors.FirstMouse | usb_mouse_driver_libusb.c:81-89 | a configuration yields an interface exactly when it is not mouse-free, and the one it yields is the first boot mouse |
| Descriptors.FirstMouseExact | usb_mouse_driver_libusb.c:81-89 | the search returns `k` if and only if `k` is a boot mouse with no boot mouse before it |
| Matcher.Continues | usb_mouse_driver_libusb.c:64-89 | the scan moves past a device exactly when both descriptor reads succeed and no interface is a boot mouse |
| Matcher.Acquire | usb_mouse_driver_libusb.c:101-121 | open, auto-detach and claim on the matched device, leaving at the first negative result; the outcome always names that device. The Open/AutoDetach/ClaimFailureAborts lemmas and FirstMatchWins characterize each outcome in terms of the three statuses |
| Matcher.StopAt | usb_mouse_driver_libusb.c:63-123 | what happens at the device the scan does not move past: a failed descriptor read, or the acquisition of its first boot mouse; the outcome always names that device. StopAtCalls and TraceShape give its exact calls for each outcome |
| Matcher.ScanFrom | usb_mouse_driver_libusb.c:61-130 | the early-return search from device `i`; a device it reports lies between `i` and the end of the list. ScanSplit and MatchAnatomy give its closed form |
| Matcher.Match | usb_mouse_driver_libusb.c:56-130 | the whole scan; a device it reports is in the list. It is characterized by FirstMatchWins, NotFoundExactly, the five `*FailureAborts` lemmas and TraceShape, and ScanDevices is proved equal to it |
| Matcher.ScanSplit | usb_mouse_driver_libusb.c:61-130 | a scan that moves past devices `i`..`d-1` is their read-read-free blocks followed by the scan from `d` |
| Matcher.ExamineDevice | usb_mouse_driver_libusb.c:62-129 | one pass of the device loop body stops exactly when the device is not moved past; it then does what `StopAt` describes, and otherwise makes exactly the two reads and the free |
| Matcher.ScanDevices | usb_mouse_driver_libusb.c:56-130 | the nested loops with their early exits produce the same outcome and the same trace as the early-return search `Match` |
| MatcherProperties.MatchAnatomy | usb_mouse_driver_libusb.c:61-130 | the scan moves past every device before the one it stops at; finding nothing means the whole list was passed, and otherwise the outcome is decided by that stop device |
| MatcherProperties.FirstStopDecides | usb_mouse_driver_libusb.c:61-130 | the first device the scan does not move past decides both the outcome and the rest of the trace |
| MatcherProperties.EmptyListNotFound | usb_mouse_driver_libusb.c:61 | an empty device list gives NotFound with no platform call at all |
| MatcherProperties.NotFoundExactly | usb_mouse_driver_libusb.c:61-129 | nothing is found if and only if every device is readable and has no boot mouse; then each device is read and freed and nothing is opened |
| MatcherProperties.FirstMatchWins | usb_mouse_driver_libusb.c:81-122 | `Found(d, k, addr, size)` if and only if all earlier devices were passed, `k` is the first boot mouse of `d`, open, detach and claim succeed, and `addr` and `size` are those of endpoint 0 of alternate setting 0 of `k` |
| MatcherProperties.DeviceDescriptorFailureAborts | usb_mouse_driver_libusb.c:64-68 | the scan aborts on device `d`'s descriptor read with `status` if and only if it reaches `d` and that read returns `status < 0`; the trace then ends with that read |
| MatcherProperties.ConfigDescriptorFailureAborts | usb_mouse_driver_libusb.c:74-79 | the scan aborts on `d`'s configuration read with `status` if and only if it reaches `d`, the device read succeeds and the configuration read returns a non-zero `status`; the trace ends right after it |
| MatcherProperties.TraceShape | usb_mouse_driver_libusb.c:61-130 | the trace is the read-read-free blocks of the devices passed, then per outcome exactly the calls made at the stop device, with claim naming the matched interface |
| MatcherProperties.ConfigFreedOnce | usb_mouse_driver_libusb.c:126-129 | each device the scan moved past has its configuration freed exactly once; the device it stopped at, whether matched or failing to open, detach or claim, is never freed |
| MatcherProperties.ConfigFreedBeforeNext | usb_mouse_driver_libusb.c:126-129 | the free of a passed device directly follows its two reads and comes before the next device is read |
| MatcherProperties.NoLaterDevice | usb_mouse_driver_libusb.c:122-127 | no platform call concerns a device after the one the scan stopped at |
| MatcherProperties.AcquisitionChain | usb_mouse_driver_libusb.c:101-117 | for each outcome, the open, auto-detach and claim calls of the trace, in order: none for NotFound or a descriptor failure, then open; open and detach; or open, detach and claim naming the first boot-mouse interface, all on the stop device |
| MatcherProperties.OpenFailureAborts | usb_mouse_driver_libusb.c:101-105 | the scan aborts with `OpenFailed(status)` on device `d` if and only if it reaches `d`, `d` has a boot mouse and the open returns `status < 0`; detach and claim are then skipped and the trace ends with the open |
| MatcherProperties.AutoDetachFailureAborts | usb_mouse_driver_libusb.c:107-111 | the scan aborts with `AutoDetachFailed(status)` on `d` if and only if it reaches `d`, `d` has a boot mouse, the open succeeds and auto-detach returns `status < 0`; claim is then skipped and the trace ends with the auto-detach |
| MatcherProperties.ClaimFailureAborts | usb_mouse_driver_libusb.c:113-117 | the scan aborts with `ClaimFailed(status)` on `d` if and only if it reaches `d`, `d` has a boot mouse, open and auto-detach succeed and the claim returns `status < 0`; the trace ends with the claim of the first boot-mouse interface |
| MatcherProperties.OnlyAltSettingZero | usb_mouse_driver_libusb.c:84-85 | changing any alternate setting other than 0 changes neither the outcome nor any platform call |
| Poller.StopCode | usb_mouse_driver_libusb.c:15-21 | the code a failed or short transfer stops with is always negative |
| Poller.DoSyncIntr | usb_mouse_driver_libusb.c:8-29 | a transfer writes only the received bytes into the buffer; the code is negative exactly when the transfer is not a full read, and is then the status or -1; otherwise it is 0 and the first `max_size` bytes are the received ones |
| Poller.SyncIntr | usb_mouse_driver_libusb.c:31-41 | the poll loop as a fold over transfer outcomes; a stop code is always negative, which is the loop's exit test. PollMeetsSpec and PollSpecUnique characterize it completely, and PollLoop is proved equal to it |
| Poller.PollLoop | usb_mouse_driver_libusb.c:31-41 | the `while (1)` loop computes the fold `SyncIntr` over the transfer outcomes |
| PollerProperties.PollMeetsSpec | usb_mouse_driver_libusb.c:8-41 | one request per transfer on the same endpoint and length; one `max_size`-byte report equal to the received bytes for each leading full read; a stop with the code of the first failed or short transfer and nothing after it |
| PollerProperties.PollSpecUnique | usb_mouse_driver_libusb.c:31-41 | the characterization determines the poll completely |
| PollerProperties.BufferIrrelevant | usb_mouse_driver_libusb.c:34 | the reports and stop code do not depend on what the uninitialised buffer held |
| PollerProperties.FirstTransfer | usb_mouse_driver_libusb.c:13-28 | a negative status stops with that status and a short read stops with -1, both after one transfer; a full read emits exactly its `max_size` bytes and the poll carries on with the next outcome |
| PollerProperties.PollConcat | usb_mouse_driver_libusb.c:36-40 | polling over `a + c` is polling over `a`, followed by polling over `c` unless `a` already stopped |
| PollerProperties.ShortReadLooksLikeStatusMinusOne | usb_mouse_driver_libusb.c:19-21 | a short read and a transfer failing with status -1 produce the same poll result |
| Driver.PollOnlyAfterClaim | usb_mouse_driver_libusb.c:132-133 | polling happens if and only if a mouse was found; the claim of its interface is then the last call of the scan, every transfer uses endpoint 0's address and packet size, and the poll over the given transfer outcomes meets the poll characterization (one full-length report per leading full read, equal to the received bytes, and a stop with the code of the first failed or short transfer) |
| Driver.EmptyListNeverPolls | usb_mouse_driver_libusb.c:61-133 | with no device attached nothing is read, opened or claimed, and no transfer is issued |
| Driver.MainRun | usb_mouse_driver_libusb.c:132-133 | the scan followed by polling when a mouse was found; its scan is `Match`, and any stop code of its poll is negative. PollOnlyAfterClaim states when it polls, with which endpoint, and that the poll consumes the given transfer outcomes as PollMeetsSpec describes |

## Left out

- Library start-up and teardown (`libusb_init`, getting and freeing the device list, `libusb_exit`, lines 47-54 and 136-137): foreign resource handling with no logic of its own. The device list is given as a finite sequence.
- The printing of `bNumConfigurations`, endpoint fields and report bytes, and the error messages: console output only.
- Blocking transfers and the infinite timeout: the loop becomes a fold over a finite sequence of transfer outcomes. A poll that runs out of outcomes has not stopped, and no poll ever ends by itself.
- The return value of `main` (always 0) and the ignored return of `sync_intr`: the model records no exit code.
- The device handle and its lifetime: open, detach and claim appear only as events and oracle results.
- Fields of the libusb descriptor structures other than class, subclass, protocol, endpoint address, attributes and maximum packet size. `bNumInterfaces` and `bNumEndpoints` are the sequence lengths.
- Matcher.Match: requires that the interface the scan picks has an endpoint 0, because the code reads it without checking `bNumEndpoints`. The behaviour when that read is out of bounds is not modelled.
- Poller.SyncIntr: requires `maxSize <= 64` and transfers no longer than requested. The buffer overrun the code allows past 64 bytes is not modelled.
