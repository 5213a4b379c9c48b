/** The poll-interval policy of the worker loop. */
module Scheduler {
  import opened Wrappers
  import opened Report

  /** Seconds between polls while the mouse runs on its battery. */
  const PollRate: nat := 60
  /** Seconds between polls while no mouse is seen or it is on the cable. */
  const FastRate: nat := 1

  /** The sleep after a poll: fast when the display reads "-" or the last
      wired flag is non-zero, slow otherwise. The wired flag is consulted
      only when the text is not "-", so it must exist by then. What this
      means in terms of the mouse (absent or on the cable) is stated by
      `Tray.IntervalAfterShow`. */
  function Interval(batteryStr: string, wired: Option<Byte>): (secs: nat)
    requires batteryStr == "-" || wired.Some?
    ensures secs == FastRate || secs == PollRate
    ensures secs == FastRate <==> batteryStr == "-" || wired.value != 0
  {
    if batteryStr == "-" || wired.value != 0 then FastRate else PollRate
  }
}
