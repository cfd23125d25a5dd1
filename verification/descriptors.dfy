/**
 The part of the USB descriptor hierarchy that the mouse driver reads:
 a configuration descriptor owns its interfaces, each interface owns its
 alternate settings, and each alternate setting owns its endpoints.
 Only the fields the driver looks at are kept.
 */
module Descriptors {
  import opened Wrappers

  type uint8 = x: int | 0 <= x < 0x100
  type uint16 = x: int | 0 <= x < 0x1_0000

  /** bInterfaceClass of a HID interface (USB HID 1.11, section 4.1). */
  const ClassHid: uint8 := 0x03
  /** bInterfaceSubClass of a boot interface (USB HID 1.11, section 4.2). */
  const SubclassBoot: uint8 := 0x01
  /** bInterfaceProtocol of a mouse on a boot interface (USB HID 1.11, section 4.3). */
  const ProtocolMouse: uint8 := 0x02

  datatype Endpoint = Endpoint(
    address: uint8,          // bEndpointAddress
    attributes: uint8,       // bmAttributes
    maxPacketSize: uint16)   // wMaxPacketSize

  /** One alternate setting of an interface; its endpoint list has
      bNumEndpoints entries. */
  datatype AltSetting = AltSetting(
    interfaceClass: uint8,
    interfaceSubClass: uint8,
    interfaceProtocol: uint8,
    endpoints: seq<Endpoint>)

  /** The platform library always reports at least one alternate setting
      per interface, so `altsetting[0]` is always there. */
  type AltSettings = s: seq<AltSetting> | |s| >= 1 witness [AltSetting(0, 0, 0, [])]

  datatype Interface = Interface(altsettings: AltSettings)

  /** A configuration descriptor; bNumInterfaces is `|interfaces|`. */
  datatype ConfigDescriptor = ConfigDescriptor(interfaces: seq<Interface>)

  /** The only alternate setting the driver inspects. */
  function Alt0(intf: Interface): AltSetting {
    intf.altsettings[0]
  }

  /** The class/subclass/protocol triple of a HID boot-protocol mouse.
      The number of endpoints is deliberately not part of it. */
  predicate IsBootMouse(alt: AltSetting) {
    && alt.interfaceClass == ClassHid
    && alt.interfaceSubClass == SubclassBoot
    && alt.interfaceProtocol == ProtocolMouse
  }

  /** Interface `k` is a boot mouse and no interface before it is. */
  ghost predicate FirstMouseAt(config: ConfigDescriptor, k: nat) {
    && k < |config.interfaces|
    && IsBootMouse(Alt0(config.interfaces[k]))
    && forall j :: 0 <= j < k ==> !IsBootMouse(Alt0(config.interfaces[j]))
  }

  /** No interface of the configuration is a boot mouse. */
  ghost predicate MouseFree(config: ConfigDescriptor) {
    forall j :: 0 <= j < |config.interfaces| ==> !IsBootMouse(Alt0(config.interfaces[j]))
  }

  /** Scans interfaces `k`, `k+1`, ... in ascending index order and returns
      the first one whose alternate setting 0 is a boot mouse. */
  function FirstMouseFrom(interfaces: seq<Interface>, k: nat): (r: Option<nat>)
    requires k <= |interfaces|
    ensures r.Some? ==>
      && k <= r.value < |interfaces|
      && IsBootMouse(Alt0(interfaces[r.value]))
      && forall j :: k <= j < r.value ==> !IsBootMouse(Alt0(interfaces[j]))
    ensures r.None? ==> forall j :: k <= j < |interfaces| ==> !IsBootMouse(Alt0(interfaces[j]))
    decreases |interfaces| - k
  {
    if k == |interfaces| then None
    else if IsBootMouse(Alt0(interfaces[k])) then Some(k)
    else FirstMouseFrom(interfaces, k + 1)
  }

  /** The interface the driver picks in one configuration, if any. */
  function FirstMouse(config: ConfigDescriptor): (r: Option<nat>)
    ensures r.Some? <==> !MouseFree(config)
    ensures r.Some? ==> FirstMouseAt(config, r.value)
  {
    FirstMouseFrom(config.interfaces, 0)
  }

  /** The first-mouse position of a configuration is unique. */
  lemma FirstMouseAtUnique(config: ConfigDescriptor, k: nat, k': nat)
    requires FirstMouseAt(config, k) && FirstMouseAt(config, k')
    ensures k == k'
  {
  }

  /** FirstMouse finds exactly the position that FirstMouseAt describes. */
  lemma FirstMouseExact(config: ConfigDescriptor, k: nat)
    ensures FirstMouse(config) == Some(k) <==> FirstMouseAt(config, k)
  {
    if FirstMouseAt(config, k) {
      assert !MouseFree(config);
      FirstMouseAtUnique(config, k, FirstMouse(config).value);
    }
  }
}
