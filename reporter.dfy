/** One battery query (`get_battery`): locate the interface, exchange the
    reports, decode the answer. The HID transport is a parameter: `reply` is
    what `read(17)` returned, or `None` when opening, writing or reading the
    device raised. */
module Reporter {
  import opened Wrappers
  import opened Registry
  import opened Locator
  import opened Report

  /** Exceptions that escape `get_battery`: only the locator's
      `RuntimeError` is caught there. */
  datatype Exception =
    | NonePathOpened  // `open_path` given the `None` of a locator that found no matching interface
    | HidIoError      // the transport failed
    | IndexError      // the response is too short for `res[6]`, `res[7]`

  datatype Fetch = Absent | Got(reading: Reading) | Raised(exception: Exception)

  function Locate(mouse: MouseClass, enumerate: Enumerator): Located {
    GetDevicePath(mouse.vid, mouse.pidWireless, mouse.pidWired, mouse.usagePage, mouse.usage, enumerate)
  }

  /** `get_battery` as written. */
  function GetBattery(mouse: MouseClass, enumerate: Enumerator, reply: Option<seq<Byte>>): (f: Fetch)
    ensures f.Absent? <==>
      enumerate(mouse.vid, mouse.pidWireless) == [] && enumerate(mouse.vid, mouse.pidWired) == []
    ensures f == Raised(NonePathOpened) <==> Locate(mouse, enumerate).NoMatch?
    ensures f == Raised(HidIoError) <==> Locate(mouse, enumerate).Found? && reply.None?
    ensures f == Raised(IndexError) <==> Locate(mouse, enumerate).Found? && reply.Some? && |reply.value| <= 7
    ensures f.Got? <==> Locate(mouse, enumerate).Found? && reply.Some? && |reply.value| > 7
    ensures f.Got? ==> f.reading.battery == reply.value[6] && f.reading.wired == reply.value[7]
  {
    match Locate(mouse, enumerate)
    case NotFound => Absent
    case NoMatch => Raised(NonePathOpened)
    case Found(_) =>
      match reply
      case None => Raised(HidIoError)
      case Some(res) =>
        match Decode(res)
        case Success(r) => Got(r)
        case Failure(_) => Raised(IndexError)
  }

  /** `get_battery` with every failure read as "no mouse": a missing
      interface, a transport error and a short response all give `None`. */
  function GetBatteryFixed(mouse: MouseClass, enumerate: Enumerator, reply: Option<seq<Byte>>): (r: Option<Reading>)
    ensures r.Some? <==> Locate(mouse, enumerate).Found? && reply.Some? && |reply.value| > 7
    ensures r.Some? ==> r.value.battery == reply.value[6] && r.value.wired == reply.value[7]
  {
    if Locate(mouse, enumerate).Found? && reply.Some? then
      match Decode(reply.value)
      case Success(rd) => Some(rd)
      case Failure(_) => None
    else None
  }

  /** The corrected query agrees with the original wherever the original
      returns, and answers `None` wherever the original raises. */
  lemma FixedAgreesWithAsWritten(mouse: MouseClass, enumerate: Enumerator, reply: Option<seq<Byte>>)
    ensures GetBattery(mouse, enumerate, reply).Got? ==>
      GetBatteryFixed(mouse, enumerate, reply) == Some(GetBattery(mouse, enumerate, reply).reading)
    ensures !GetBattery(mouse, enumerate, reply).Got? ==> GetBatteryFixed(mouse, enumerate, reply) == None
  {
  }

  /** A receiver whose only interface is not the vendor one: the locator
      falls off the end of the list and `open_path(None)` raises. */
  lemma UsageMismatchRaises()
    ensures
      var keyboardOnly: Enumerator := (vid, pid) => [HidDeviceInfo("kbd", 0x0001, 0x0006)];
      GetBattery(ActiveMouse, keyboardOnly, None) == Raised(NonePathOpened) &&
      GetBatteryFixed(ActiveMouse, keyboardOnly, None) == None
  {
    var keyboardOnly: Enumerator := (vid, pid) => [HidDeviceInfo("kbd", 0x0001, 0x0006)];
    assert !Matches(keyboardOnly(ActiveMouse.vid, ActiveMouse.pidWireless)[0], ActiveMouse.usagePage, ActiveMouse.usage);
  }

  /** An empty read on the located interface makes `res[6]` raise. */
  lemma EmptyReadRaises()
    ensures
      var receiver: Enumerator := (vid, pid) => [HidDeviceInfo("rx", 0xFF02, 0x0002)];
      GetBattery(ActiveMouse, receiver, Some([])) == Raised(IndexError) &&
      GetBatteryFixed(ActiveMouse, receiver, Some([])) == None
  {
    var receiver: Enumerator := (vid, pid) => [HidDeviceInfo("rx", 0xFF02, 0x0002)];
    assert Matches(receiver(ActiveMouse.vid, ActiveMouse.pidWireless)[0], ActiveMouse.usagePage, ActiveMouse.usage);
  }
}
