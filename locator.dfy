/** Finding the HID path of the mouse's vendor interface (`get_device_path`). */
module Locator {
  import opened Wrappers
  import opened Registry

  /** One record of an HID enumeration: the platform path of an interface
      and the usage page / usage it reports. */
  datatype HidDeviceInfo = HidDeviceInfo(path: string, usagePage: U16, usage: U16)

  /** The enumeration facility: all interfaces with a given vendor id and
      product id, in the order the platform lists them. */
  type Enumerator = (U16, U16) -> seq<HidDeviceInfo>

  /** What `get_device_path` ends with: a path, falling off the end of a
      non-empty list (Python `None`), or the `RuntimeError` raised when
      both enumerations are empty. */
  datatype Located = Found(path: string) | NoMatch | NotFound

  predicate Matches(d: HidDeviceInfo, usagePage: U16, usage: U16) {
    d.usagePage == usagePage && d.usage == usage
  }

  /** The index of the first record matching the usage pair, if any. */
  function FirstMatch(devices: seq<HidDeviceInfo>, usagePage: U16, usage: U16): (r: Option<nat>)
    ensures r.Some? ==>
      r.value < |devices| && Matches(devices[r.value], usagePage, usage) &&
      forall j :: 0 <= j < r.value ==> !Matches(devices[j], usagePage, usage)
    ensures r.None? ==> forall j :: 0 <= j < |devices| ==> !Matches(devices[j], usagePage, usage)
  {
    if devices == [] then None
    else if Matches(devices[0], usagePage, usage) then Some(0)
    else match FirstMatch(devices[1..], usagePage, usage)
      case None => None
      case Some(i) => Some(i + 1)
  }

  /** The list that is scanned: the wireless enumeration, or the wired one
      when the wireless one is empty. */
  function DeviceList(vid: U16, pidWireless: U16, pidWired: U16, enumerate: Enumerator): seq<HidDeviceInfo>
  {
    var wireless := enumerate(vid, pidWireless);
    if wireless != [] then wireless else enumerate(vid, pidWired)
  }

  function GetDevicePath(vid: U16, pidWireless: U16, pidWired: U16, usagePage: U16, usage: U16,
                         enumerate: Enumerator): (r: Located)
    ensures r.NotFound? <==> enumerate(vid, pidWireless) == [] && enumerate(vid, pidWired) == []
    ensures r.NoMatch? <==>
      var l := DeviceList(vid, pidWireless, pidWired, enumerate);
      l != [] && forall j :: 0 <= j < |l| ==> !Matches(l[j], usagePage, usage)
    ensures r.Found? ==>
      var l := DeviceList(vid, pidWireless, pidWired, enumerate);
      exists i :: 0 <= i < |l| && l[i].path == r.path && Matches(l[i], usagePage, usage) &&
        forall j :: 0 <= j < i ==> !Matches(l[j], usagePage, usage)
  {
    var devices := DeviceList(vid, pidWireless, pidWired, enumerate);
    if devices == [] then NotFound
    else match FirstMatch(devices, usagePage, usage)
      case None => NoMatch
      case Some(i) => Found(devices[i].path)
  }

  /** The wired product id is looked at only when the wireless enumeration
      is empty: two enumerators that agree on the wireless id, and on the
      wired id only where the wireless list is empty, locate the same thing. */
  lemma WiredOnlyWhenWirelessEmpty(vid: U16, pidWireless: U16, pidWired: U16, usagePage: U16, usage: U16,
                                   e1: Enumerator, e2: Enumerator)
    requires e1(vid, pidWireless) == e2(vid, pidWireless)
    requires e1(vid, pidWireless) == [] ==> e1(vid, pidWired) == e2(vid, pidWired)
    ensures GetDevicePath(vid, pidWireless, pidWired, usagePage, usage, e1)
         == GetDevicePath(vid, pidWireless, pidWired, usagePage, usage, e2)
  {
  }

  /** A non-empty wireless list without a matching interface gives no path,
      whatever the wired enumeration holds. */
  lemma WirelessMismatchIsFinal(vid: U16, pidWireless: U16, pidWired: U16, usagePage: U16, usage: U16,
                                enumerate: Enumerator)
    requires enumerate(vid, pidWireless) != []
    requires forall d <- enumerate(vid, pidWireless) :: !Matches(d, usagePage, usage)
    ensures GetDevicePath(vid, pidWireless, pidWired, usagePage, usage, enumerate) == NoMatch
  {
  }
}
