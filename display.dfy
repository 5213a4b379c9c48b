/** The display decision of `show_battery` and the state it updates, as a
    pure transition over a snapshot of the frame's fields. */
module Display {
  import opened Wrappers
  import opened Report

  /** What the tray shows after a poll. */
  datatype DisplayState =
    | Disconnected          // text "-"
    | Charging              // the three-icon animation
    | FullWired             // the green full-battery icon
    | FullUnwired           // the full-battery icon
    | Percent(text: string) // the charge as decimal text

  /** The animation thread: built once, alive only between `start` and the
      end of its loop. */
  datatype Thread = NotStarted | Running | Finished

  /** The frame fields a poll reads and writes. `wired` and `stopAnimation`
      are `None` until first assigned (the attributes do not exist before);
      `shown` is `None` while the initial blank icon is up; `starts` counts
      animation starts. */
  datatype Tray = Tray(
    batteryStr: string,
    wired: Option<Byte>,
    stopAnimation: Option<bool>,
    animation: Thread,
    shown: Option<DisplayState>,
    starts: nat)

  const Initial := Tray("", None, None, NotStarted, None, 0)

  function Digit(d: nat): (c: char)
    requires d < 10
  {
    (48 + d) as char
  }

  predicate IsDigit(c: char) {
    '0' <= c <= '9'
  }

  /** Python's `str` on a non-negative integer. */
  function DecimalString(n: nat): (s: string)
    ensures |s| >= 1
    ensures |s| == 1 || s[0] != '0'
    ensures forall i :: 0 <= i < |s| ==> IsDigit(s[i])
    ensures s != "-"
  {
    if n < 10 then [Digit(n)] else DecimalString(n / 10) + [Digit(n % 10)]
  }

  /** Reads decimal digits back into a number. */
  function ParseDecimal(s: string): nat
    requires forall i :: 0 <= i < |s| ==> IsDigit(s[i])
  {
    if s == [] then 0
    else
      assert IsDigit(s[|s| - 1]);
      10 * ParseDecimal(s[..|s| - 1]) + (s[|s| - 1] as int - '0' as int)
  }

  lemma {:induction false} DecimalRoundTrip(n: nat)
    ensures ParseDecimal(DecimalString(n)) == n
  {
    var s := DecimalString(n);
    if n < 10 {
      assert s[..0] == [];
    } else {
      assert s[..|s| - 1] == DecimalString(n / 10);
      DecimalRoundTrip(n / 10);
    }
  }

  /** The text of distinct charges differs. */
  lemma DecimalStringInjective(m: nat, n: nat)
    requires DecimalString(m) == DecimalString(n)
    ensures m == n
  {
    DecimalRoundTrip(m);
    DecimalRoundTrip(n);
  }

  /** The display state for a query result; the branches are tried in the
      order "absent", "charging", "full and wired", "full and unwired". */
  function Decide(result: Option<Reading>): (s: DisplayState)
    ensures s == Disconnected <==> result.None?
    ensures s == Charging <==> result.Some? && IsWired(result.value) && result.value.battery < 100
    ensures s == FullWired <==> result.Some? && IsWired(result.value) && result.value.battery == 100
    ensures s == FullUnwired <==> result.Some? && !IsWired(result.value) && result.value.battery == 100
    ensures s.Percent? <==>
      result.Some? && result.value.battery != 100 && !(IsWired(result.value) && result.value.battery < 100)
    ensures s.Percent? ==> s.text == DecimalString(result.value.battery)
  {
    match result
    case None => Disconnected
    case Some(r) =>
      if IsWired(r) && r.battery < 100 then Charging
      else if r.battery == 100 && IsWired(r) then FullWired
      else if r.battery == 100 && !IsWired(r) then FullUnwired
      else Percent(DecimalString(r.battery))
  }

  /** `join` on the animation thread: once the stop flag is up, a running
      animation ends. */
  function Join(a: Thread): (b: Thread)
    ensures b != Running
    ensures a == Running ==> b == Finished
    ensures a != Running ==> b == a
  {
    if a == Running then Finished else a
  }

  /** One `show_battery` call on the snapshot `t`. The boolean result is true
      when `start` raised `RuntimeError` on an animation thread that had
      already run. `freshThread` selects the corrected behaviour, which builds
      a new animation thread whenever the old one is not alive. */
  function Show(t: Tray, result: Option<Reading>, freshThread: bool): (out: (Tray, bool))
    ensures out.1 <==> !freshThread && t.animation == Finished && Decide(result) == Charging
    ensures out.0.batteryStr == if result.None? then "-" else DecimalString(result.value.battery)
    ensures out.0.wired == if result.None? then t.wired else Some(result.value.wired)
  {
    match result
    case None =>
      (t.(stopAnimation := Some(true), batteryStr := "-", animation := Join(t.animation),
          shown := Some(Disconnected)), false)
    case Some(r) =>
      var t1 := t.(batteryStr := DecimalString(r.battery), wired := Some(r.wired));
      if IsWired(r) && r.battery < 100 then
        var t2 := t1.(stopAnimation := Some(false));
        if t2.animation == Running then (t2, false)
        else if t2.animation == NotStarted || freshThread then
          (t2.(animation := Running, starts := t2.starts + 1, shown := Some(Charging)), false)
        else
          assert t.animation.Finished?;
          (t2, true)
      else
        var t2 := t1.(stopAnimation := Some(true), animation := Join(t1.animation));
        if r.battery == 100 && IsWired(r) then (t2.(shown := Some(FullWired)), false)
        else if r.battery == 100 && !IsWired(r) then (t2.(shown := Some(FullUnwired)), false)
        else (t2.(shown := Some(Percent(t2.batteryStr))), false)
  }

  /** The frame invariant: after a poll the interval test never meets an
      unset `wired`; the animation runs exactly while the charging state is
      shown, and a running animation has not been told to stop. */
  ghost predicate Consistent(t: Tray) {
    && (t.shown.Some? ==> t.batteryStr == "-" || t.wired.Some?)
    && (t.animation == Running <==> t.shown == Some(Charging))
    && (t.animation == Running ==> t.stopAnimation == Some(false))
    && (t.starts == 0 ==> t.animation == NotStarted)
  }

  lemma InitialConsistent()
    ensures Consistent(Initial)
  {
  }

  lemma ShowPreservesConsistent(t: Tray, result: Option<Reading>, freshThread: bool)
    requires Consistent(t)
    ensures Consistent(Show(t, result, freshThread).0)
  {
  }

  /** Every poll that returns shows exactly the decided state. */
  lemma ShowDisplaysDecision(t: Tray, result: Option<Reading>, freshThread: bool)
    requires Consistent(t)
    requires !Show(t, result, freshThread).1
    ensures Show(t, result, freshThread).0.shown == Some(Decide(result))
  {
  }

  /** A charging poll leaves the animation running with the stop flag down;
      any other poll raises the stop flag and leaves no animation running. */
  lemma AnimationFollowsDecision(t: Tray, result: Option<Reading>, freshThread: bool)
    ensures var (u, raised) := Show(t, result, freshThread);
      if Decide(result) == Charging then !raised ==> u.animation == Running && u.stopAnimation == Some(false)
      else u.animation != Running && u.stopAnimation == Some(true)
  {
  }

  /** A running animation is never started a second time, and an animation
      is started only by a charging poll. */
  lemma AtMostOneAnimation(t: Tray, result: Option<Reading>, freshThread: bool)
    ensures t.animation == Running ==> Show(t, result, freshThread).0.starts == t.starts
    ensures Show(t, result, freshThread).0.starts <= t.starts + 1
    ensures Show(t, result, freshThread).0.starts == t.starts + 1 ==> Decide(result) == Charging
  {
  }

  /** The corrected poll never raises. */
  lemma FixedNeverRaises(t: Tray, result: Option<Reading>)
    ensures !Show(t, result, true).1
  {
  }

  /** Polling twice with an unchanged result changes nothing the second time:
      same text, flags and display, and no second animation start. */
  lemma FixedShowIdempotent(t: Tray, result: Option<Reading>)
    ensures var u := Show(t, result, true).0; Show(u, result, true).0 == u
  {
  }

  /** The same for the original: a repeated poll, whether it returned or
      raised the first time, leaves the fields as the first one left them. */
  lemma AsWrittenShowIdempotent(t: Tray, result: Option<Reading>)
    ensures var u := Show(t, result, false).0; Show(u, result, false).0 == u
  {
  }

  /** In the original a thread object can start only once, so an animation
      is started at most once over the whole run. */
  lemma AsWrittenStartsOnce(t: Tray, result: Option<Reading>)
    requires t.starts <= 1 && (t.animation == NotStarted ==> t.starts == 0)
    ensures var u := Show(t, result, false).0;
      u.starts <= 1 && (u.animation == NotStarted ==> u.starts == 0)
  {
  }

  /** Charging, then full while wired, then charging again: the second
      charging poll calls `start` on the finished animation thread and
      raises; the corrected poll starts a new animation instead. */
  lemma SecondChargingEpisodeRaises()
    ensures
      var t1 := Show(Initial, Some(Reading(50, 1)), false).0;
      var t2 := Show(t1, Some(Reading(100, 1)), false).0;
      t2.animation == Finished && Show(t2, Some(Reading(60, 1)), false).1
    ensures
      var t1 := Show(Initial, Some(Reading(50, 1)), true).0;
      var t2 := Show(t1, Some(Reading(100, 1)), true).0;
      var t3 := Show(t2, Some(Reading(60, 1)), true);
      !t3.1 && t3.0.animation == Running && t3.0.shown == Some(Charging)
  {
  }
}
