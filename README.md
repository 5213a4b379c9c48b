# ATK tray battery monitor — a Dafny model of its core

ATK tray sits in the notification area and shows the battery charge of a
wireless gaming mouse (ATK / VXE / VGN models). Every poll it finds the
mouse's vendor-defined HID interface, sends a fixed 17-byte battery request,
reads the 17-byte answer, takes the charge from byte 6 and the cable flag
from byte 7, and shows one of five states: "-" (no mouse), a charging
animation, a green full icon (full on the cable), a full icon (full on
battery) or the charge as text. It then sleeps 1 second (no mouse, or on the
cable) or 60 seconds.

The model covers, from `atk_tray.py`:

- `registry.dfy` (`Registry`): the `MouseClass` record and the four known models.
- `locator.dfy` (`Locator`): `get_device_path`, with the enumeration facility as a
  function parameter and its three outcomes (`Found`, `NoMatch` for the `None`
  that falls off the end of the loop, `NotFound` for the `RuntimeError`).
- `report.dfy` (`Report`): the request built in place in an array, and the
  decoding of the response.
- `reporter.dfy` (`Reporter`): `get_battery` as written (with the exceptions it
  lets escape) and a corrected version that reads every failure as "no mouse".
- `display.dfy` (`Display`): the display decision of `show_battery`, and one
  `show_battery` call as a pure transition `Show` over a snapshot of the frame
  fields (`battery_str`, `wired`, `stop_animation`, the animation thread, the
  icon shown).
- `scheduler.dfy` (`Scheduler`): the sleep interval chosen by the worker loop.
- `tray.dfy` (`Tray`): the frame as a class whose methods update those fields
  step by step, each proved equal to `Show`, and one worker-loop iteration.

The HID transport is a parameter: the enumeration is a function from
(vendor id, product id) to a list of records, and the reply of the device is
`Some(bytes)` (what `read(17)` returned) or `None` (opening, writing or
reading raised). Exceptions are values (`Reporter.Fetch.Raised`, the boolean
result of `Display.Show`).

Where the program's evident intent and its code differ, the model follows
the code: a response needs only 8 bytes to decode (the code reads bytes 6
and 7 and never checks the length), a transport error or a short response
raises out of `get_battery` instead of reading as "absent", and the
animation thread object is built once and never rebuilt. The corrected
behaviour for the latter two is modelled beside it (see Findings).

## Model

| member | source | states |
|---|---|---|
| `Registry.KnownModels` | atk_tray.py:28-43 | four models, the active one among them; all use usage page 0xFF02 and usage 0x0002, each has distinct wireless and wired product ids, and no two models of one vendor share a product id |
| `Locator.FirstMatch` | atk_tray.py:83-85 | the index found is the first record, in list order, whose usage page and usage both match; no index means no record matches |
| `Locator.GetDevicePath` | atk_tray.py:77-85 | fails (`NotFound`) exactly when both enumerations are empty; gives no path (`NoMatch`) exactly when the scanned list is non-empty and nothing in it matches; a path returned is that of the first matching record of the wireless list, or of the wired list when the wireless one is empty |
| `Locator.WiredOnlyWhenWirelessEmpty` | atk_tray.py:78-80 | the wired enumeration influences the result only when the wireless one is empty |
| `Locator.WirelessMismatchIsFinal` | atk_tray.py:78-85 | a non-empty wireless list with no matching interface gives no path, whatever the wired enumeration holds |
| `Report.BuildRequest` | atk_tray.py:61-64 | the request is a new 17-byte buffer: byte 0 = 8, byte 1 = 4, byte 16 = 73, every other byte 0 |
| `Report.RequestIsUnique` | atk_tray.py:61-64 | the layout fixes every byte: any two requests with it are equal |
| `Report.Decode` | atk_tray.py:71-72 | succeeds exactly when the response has at least 8 bytes, with the charge = byte 6 and the wired flag = byte 7; otherwise a short-response error carrying the length |
| `Report.DecodeResponseFor` | atk_tray.py:68-72 | a response carrying a charge and a wired flag in bytes 6 and 7 decodes to exactly those, whatever the other bytes |
| `Report.DecodeIgnoresOtherBytes` | atk_tray.py:71-72 | two responses that agree on bytes 6 and 7 decode alike |
| `Reporter.GetBattery` | atk_tray.py:54-74 | as written: absent exactly when both enumerations are empty; raises when the locator found no matching interface, when the transport fails, or when the reply has fewer than 8 bytes; otherwise returns bytes 6 and 7 of the reply |
| `Reporter.GetBatteryFixed` | atk_tray.py:54-74 | corrected: a reading exactly when an interface was found and the reply has at least 8 bytes, with bytes 6 and 7; "absent" in every other case |
| `Reporter.FixedAgreesWithAsWritten` | atk_tray.py:56-72 | the corrected query returns what the original returns wherever the original returns normally, and "absent" wherever it raises |
| `Reporter.UsageMismatchRaises` | atk_tray.py:57-60 | a receiver listing only a keyboard interface makes the original raise on `open_path(None)`; the corrected query reports "absent" |
| `Reporter.EmptyReadRaises` | atk_tray.py:68-72 | an empty reply on a located interface makes the original raise an index error; the corrected query reports "absent" |
| `Display.DecimalString` | atk_tray.py:183 | `str` of the charge is non-empty, all decimal digits, without a leading zero (unless it is "0"), and never "-" |
| `Display.DecimalRoundTrip` | atk_tray.py:183 | the decimal text reads back to the charge |
| `Display.DecimalStringInjective` | atk_tray.py:183 | different charges give different texts |
| `Display.Decide` | atk_tray.py:174-210 | total decision with precedence absent, charging, full wired, full unwired: disconnected iff absent; charging iff wired and below 100; full wired iff wired and 100; full unwired iff unwired and 100; charge text iff 100 is not reached and it is not charging (so wired above 100 shows text) |
| `Display.Join` | atk_tray.py:177-178 | after `join` the animation is not running: a running thread ends finished (and cannot be started again), a thread that was not running is unchanged |
| `Display.Show` | atk_tray.py:171-210 | one `show_battery`: raises only in the original and only when a charging poll meets a finished animation thread; the text becomes "-" or `str(battery)`; `wired` is replaced by a reading and kept (stale) when absent |
| `Display.InitialConsistent` | atk_tray.py:146-157 | the freshly built frame satisfies the frame invariant |
| `Display.ShowPreservesConsistent` | atk_tray.py:171-210 | every poll keeps the frame invariant: after a poll the wired flag exists unless the text is "-", the animation runs exactly while charging is shown, and a running animation's stop flag is down |
| `Display.ShowDisplaysDecision` | atk_tray.py:174-210 | every poll that returns shows exactly the decided state |
| `Display.AnimationFollowsDecision` | atk_tray.py:175-209 | for the original and the corrected poll: a charging poll that returns leaves the animation running with the stop flag down; any other poll raises the stop flag and leaves no animation running |
| `Display.AtMostOneAnimation` | atk_tray.py:186-189 | a running animation is never started again; a poll starts at most one animation, and only a charging poll starts one |
| `Display.FixedNeverRaises` | atk_tray.py:186-189 | the corrected poll never raises |
| `Display.FixedShowIdempotent` | atk_tray.py:171-210 | repeating a corrected poll with the same result changes nothing: same text, flags, display, and no second animation start |
| `Display.AsWrittenShowIdempotent` | atk_tray.py:171-210 | in the original too, repeating a poll with the same result leaves every field as the first poll left it, whether that poll returned or raised |
| `Display.AsWrittenStartsOnce` | atk_tray.py:186-189 | in the original an animation is started at most once over the whole run |
| `Display.SecondChargingEpisodeRaises` | atk_tray.py:186-195 | charging, full on the cable, charging again: the original raises on the third poll; the corrected poll starts a new animation |
| `Scheduler.Interval` | atk_tray.py:166-169 | the sleep is 1 s exactly when the text is "-" or the wired flag is non-zero, otherwise 60 s; the wired flag is only needed when the text is not "-" |
| `Tray.IntervalAfterShow` | atk_tray.py:166-176 | after any poll the interval test is defined, and it picks 1 s exactly when the mouse is absent or on the cable, 60 s otherwise; a stale wired flag never matters on the absent path |
| `Tray.ScenarioUnwired82` | atk_tray.py:182-210 | a reply with charge 82 and wired flag 0 shows "82" and sleeps 60 s |
| `Tray.ScenarioFullWired` | atk_tray.py:192-197 | a reply with charge 100 and wired flag 1 shows the green full icon and sleeps 1 s |
| `Tray.ScenarioNoDevice` | atk_tray.py:174-180 | no device under either product id: the query is absent, "-" is shown and the next poll is in 1 s |
| `Tray.Frame.constructor` | atk_tray.py:146-157 | the new frame has empty text, no wired flag or stop flag yet, an unstarted animation thread and the blank icon |
| `Tray.Frame.ShowBattery` | atk_tray.py:171-210 | the fields are updated step by step as in `show_battery`, ending exactly in `Show`'s state, with the frame invariant kept |
| `Tray.Frame.ShowBatteryFixed` | atk_tray.py:171-210 | the same with a new animation thread built when the old one has finished; never raises |
| `Tray.Frame.WorkerStep` | atk_tray.py:163-169 | one corrected worker iteration: the fields follow `Show` of the corrected query, and the sleep is 1 s when absent or wired, else 60 s |
| `Tray.Frame.WorkerStepAsWritten` | atk_tray.py:163-169 | one worker iteration as written: an exception from the query ends the worker with the fields untouched; an exception from `show_battery` ends it after the partial update; otherwise the sleep as above |

## Left out

- HID transport calls (`hid.device`, `open_path`, `write`, `read`, `close`, `hid.enumerate`): foreign library I/O. Their results are parameters; the request built by `Report.BuildRequest` is not handed to a modelled `write`, and the reply does not depend on which path was opened.
- The device handle left open when `open_path`, `write` or `read` raises: resource handling in the I/O layer.
- `time.sleep` (the 100 ms settle delay, the poll sleeps, the 500 ms animation dwell): timing; only the interval value is modelled.
- Threads and the shared `stop_animation` flag: reduced to the animation thread's state (not started, running, finished) and the assumption that `join` returns once the flag is up. The animation's own icon loop, which looks at the flag once per three-icon cycle, is not modelled.
- The unbounded `while True` loop: one iteration is modelled (`Tray.Frame.WorkerStep`, `Tray.Frame.WorkerStepAsWritten`).
- Icons and text rendering (`create_icon`, `PIL2wx`, `get_text_pos_size`), `get_resource` and the `.ico` file names: drawing and packaging; the display state names the icon instead.
- All wx UI (`MyTaskBarIcon`, menus, show/hide/close handlers, `MyApp`, `main`, the click refresh): user interface outside the core.
- Logging calls: no effect on the state.
- Colours, font and the constructor's start of the worker thread: rendering and process set-up.

## Findings

| source | as written | input that shows it | evidently intended | confidence | as-written member | corrected member |
|---|---|---|---|---|---|---|
| atk_tray.py:155-189 | the animation thread object is built once; after a non-charging poll has joined it, the next charging poll calls `start` on it again, Python raises `RuntimeError`, nothing catches it and the worker thread ends, so polling stops | polls reading (50, wired 1), (100, wired 1), (60, wired 1) | start a new animation on every charging episode | high; not executed | `Display.SecondChargingEpisodeRaises` | `Display.FixedNeverRaises` |
| atk_tray.py:57-60 | when the enumeration is non-empty but no record has usage page 0xFF02 and usage 2, `get_device_path` returns `None` and `open_path(None)` raises an exception that is not the caught `RuntimeError`, ending the worker thread | wireless enumeration holding one interface with usage page 0x0001, usage 0x0006 | treat a missing interface like a missing device ("-") | medium (the exact exception depends on the HID binding); not executed | `Reporter.UsageMismatchRaises` | `Reporter.GetBatteryFixed` |
| atk_tray.py:68-72 | a reply shorter than 8 bytes makes `res[6]` raise `IndexError`, uncaught, ending the worker thread | located interface whose `read(17)` returns an empty list | treat a short reply like a missing device ("-") | medium (depends on what the binding returns on a failed read); not executed | `Reporter.EmptyReadRaises` | `Reporter.GetBatteryFixed` |
