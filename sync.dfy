/** The keyboard task's poll loop: its settings, the tick delay and the change
    detector that decides, tick by tick, whether a new frame is pushed to the
    keyboard. Fetching, pushing and sleeping are I/O; a fetch arrives here as
    a `FetchOutcome`, and a push leaves as the frame a tick returns. */
module SyncLoop {
  import opened Wrappers
  import opened Pp7
  import opened ColorResolver

  /** The task's settings after each value the getter could not supply
      (missing or not convertible) took its default. */
  datatype Settings = Settings(leds: LedSettings, updateFrequency: i64)

  /** Applies the defaults of the configuration getters; `None` stands for a
      setting the getter cannot supply. */
  function SettingsOrDefaults(ledColors: Option<bool>, ledOn: Option<i64>, ledDim: Option<i64>, frequency: Option<i64>): (s: Settings)
    ensures ledColors.None? ==> !s.leds.ledColors
    ensures ledOn.None? ==> s.leds.ledOn == 255
    ensures ledDim.None? ==> s.leds.ledDim == 5
    ensures frequency.None? ==> s.updateFrequency == 100
    ensures ledColors.Some? ==> s.leds.ledColors == ledColors.value
    ensures ledOn.Some? ==> s.leds.ledOn == ledOn.value
    ensures ledDim.Some? ==> s.leds.ledDim == ledDim.value
    ensures frequency.Some? ==> s.updateFrequency == frequency.value
  {
    Settings(
      LedSettings(
        if ledColors.Some? then ledColors.value else false,
        if ledOn.Some? then ledOn.value else 255,
        if ledDim.Some? then ledDim.value else 5),
      if frequency.Some? then frequency.value else 100)
  }

  /** With every LED setting left at its default, unbound keys glow at 5 and
      bound keys at 255. */
  lemma DefaultLedLevels()
    ensures var s := SettingsOrDefaults(None, None, None, None);
      !s.leds.ledColors && AsU8(s.leds.ledDim) == 5 && AsU8(s.leds.ledOn) == 255
  {
  }

  lemma ProductAtLeastFactor(q: int, m: int)
    requires q >= 0 && m >= 1
    ensures q <= q * m
  {
    assert q * m == q * (m - 1) + q;
  }

  /** Euclidean division of a non-negative number by a positive one brackets
      the dividend between two consecutive multiples of the divisor. */
  lemma QuotientBrackets(a: nat, m: int)
    requires m > 0
    ensures 0 <= a / m <= a
    ensures (a / m) * m <= a < (a / m + 1) * m
  {
    var q, r := a / m, a % m;
    assert a == m * q + r && 0 <= r < m;
    assert q * m == m * q;
    assert (q + 1) * m == q * m + m;
    ProductAtLeastFactor(q, m);
  }

  /** `1000 / frequency` on `i64`: division truncating toward zero; a zero
      frequency is a division by zero, which panics (`None`). */
  function DelayMillis(frequency: i64): (d: Option<i64>)
    ensures d.None? <==> frequency == 0
    ensures frequency > 0 ==> (d.Some? && 0 <= d.value <= 1000 &&
      d.value as int * frequency as int <= 1000 < (d.value as int + 1) * frequency as int)
    ensures frequency < 0 ==> (d.Some? && -1000 <= d.value <= 0 &&
      -(d.value as int) * -(frequency as int) <= 1000 < (-(d.value as int) + 1) * -(frequency as int))
  {
    if frequency == 0 then None
    else
      var m := if frequency > 0 then frequency as int else -(frequency as int);
      QuotientBrackets(1000, m);
      var q := 1000 / m;
      Some((if frequency > 0 then q else -q) as i64)
  }

  const TwoTo64: int := 0x1_0000_0000_0000_0000

  /** The delay cast `as u64` before sleeping: negative delays wrap around. */
  function SleepMillis(delay: i64): (ms: nat)
    ensures ms < TwoTo64
    ensures delay >= 0 ==> ms == delay as int
    ensures delay < 0 ==> ms == TwoTo64 + delay as int
  {
    delay as int % TwoTo64
  }

  /** The default frequency of 100 gives a 10 ms tick; a negative frequency
      of at most 1000 in magnitude requests a sleep of nearly 2^64 ms. */
  lemma DelayExamples(frequency: i64)
    ensures DelayMillis(100) == Some(10) && SleepMillis(10) == 10
    ensures -1000 <= frequency < 0 ==> SleepMillis(DelayMillis(frequency).value) >= TwoTo64 - 1000
    ensures frequency > 1000 ==> DelayMillis(frequency) == Some(0)
  {
  }

  /** What one fetch of the active presentation produced. */
  datatype FetchOutcome = FetchFailed | Fetched(request: PresentationRequest)

  /** State after a tick and the frame pushed during it, if any. */
  datatype Step = Step(lastUuid: string, push: Option<seq<Rgb>>)

  /** One tick of the loop, from the last uuid seen. */
  function PollStep(lastUuid: string, outcome: FetchOutcome, binds: seq<PP7KeyBind>, ledNames: seq<string>, s: LedSettings): (st: Step)
    ensures st.push.None? ==> st.lastUuid == lastUuid
    ensures st.push.Some? ==> outcome.Fetched? && st.lastUuid == outcome.request.presentation.id.uuid != lastUuid
    ensures st.push.Some? ==> |st.push.value| == |ledNames|
  {
    match outcome
    case FetchFailed => Step(lastUuid, None)
    case Fetched(req) =>
      var pre := req.presentation;
      if pre.id.uuid != lastUuid then
        Step(pre.id.uuid, Some(ResolveFrame(pre, binds, ledNames, s)))
      else
        Step(lastUuid, None)
  }

  /** Change detection: a tick pushes exactly when the fetch succeeded with a
      uuid other than the last one; then the uuid is remembered and the pushed
      frame is the resolution of the fetched presentation, one colour per LED.
      Otherwise the last uuid is kept. */
  lemma PollStepDetectsChange(lastUuid: string, outcome: FetchOutcome, binds: seq<PP7KeyBind>, ledNames: seq<string>, s: LedSettings)
    ensures var st := PollStep(lastUuid, outcome, binds, ledNames, s);
      (st.push.Some? <==> outcome.Fetched? && outcome.request.presentation.id.uuid != lastUuid) &&
      (st.push.None? ==> st.lastUuid == lastUuid) &&
      (st.push.Some? ==> st.lastUuid == outcome.request.presentation.id.uuid &&
                         st.push.value == ResolveFrame(outcome.request.presentation, binds, ledNames, s) &&
                         |st.push.value| == |ledNames|)
  {
  }

  /** The state after a sequence of ticks and the frames pushed, in order. */
  datatype RunResult = RunResult(lastUuid: string, frames: seq<seq<Rgb>>)

  function PushList(push: Option<seq<Rgb>>): (frames: seq<seq<Rgb>>)
    ensures push.Some? ==> frames == [push.value]
    ensures push.None? ==> frames == []
  {
    if push.Some? then [push.value] else []
  }

  /** A finite prefix of the endless loop, over the fetch outcomes of its ticks. */
  function Run(lastUuid: string, outcomes: seq<FetchOutcome>, binds: seq<PP7KeyBind>, ledNames: seq<string>, s: LedSettings): (r: RunResult)
    ensures |r.frames| <= |outcomes|
    ensures r.frames == [] ==> r.lastUuid == lastUuid
  {
    if outcomes == [] then RunResult(lastUuid, [])
    else
      var before := Run(lastUuid, outcomes[..|outcomes| - 1], binds, ledNames, s);
      var st := PollStep(before.lastUuid, outcomes[|outcomes| - 1], binds, ledNames, s);
      RunResult(st.lastUuid, before.frames + PushList(st.push))
  }

  /** Uuid of the last successful fetch, or `lastUuid` if none succeeded. */
  function LastFetchedUuid(lastUuid: string, outcomes: seq<FetchOutcome>): (u: string)
    ensures (forall k :: 0 <= k < |outcomes| ==> outcomes[k].FetchFailed?) ==> u == lastUuid
    ensures u == lastUuid || exists k :: 0 <= k < |outcomes| && outcomes[k].Fetched? && outcomes[k].request.presentation.id.uuid == u
    ensures forall k :: (0 <= k < |outcomes| && outcomes[k].Fetched? &&
                         (forall j :: k < j < |outcomes| ==> outcomes[j].FetchFailed?))
                        ==> u == outcomes[k].request.presentation.id.uuid
  {
    if outcomes == [] then lastUuid
    else if outcomes[|outcomes| - 1].Fetched? then outcomes[|outcomes| - 1].request.presentation.id.uuid
    else
      var init := outcomes[..|outcomes| - 1];
      assert forall k :: 0 <= k < |init| ==> init[k] == outcomes[k];
      LastFetchedUuid(lastUuid, init)
  }

  /** After any run the remembered uuid is that of the last successful fetch,
      failed fetches leaving it alone; and every pushed frame has one colour
      per LED. */
  lemma {:induction false} RunRemembersLastFetchedUuid(lastUuid: string, outcomes: seq<FetchOutcome>, binds: seq<PP7KeyBind>, ledNames: seq<string>, s: LedSettings)
    ensures Run(lastUuid, outcomes, binds, ledNames, s).lastUuid == LastFetchedUuid(lastUuid, outcomes)
    ensures forall f :: f in Run(lastUuid, outcomes, binds, ledNames, s).frames ==> |f| == |ledNames|
  {
    if outcomes != [] {
      RunRemembersLastFetchedUuid(lastUuid, outcomes[..|outcomes| - 1], binds, ledNames, s);
    }
  }

  /** While every successful fetch reports the same presentation uuid `u`,
      at most one frame is pushed, and none if `u` was already the last uuid. */
  lemma {:induction false} SameUuidPushesAtMostOnce(lastUuid: string, outcomes: seq<FetchOutcome>, u: string, binds: seq<PP7KeyBind>, ledNames: seq<string>, s: LedSettings)
    requires forall k :: 0 <= k < |outcomes| && outcomes[k].Fetched? ==> outcomes[k].request.presentation.id.uuid == u
    ensures var r := Run(lastUuid, outcomes, binds, ledNames, s);
      |r.frames| <= 1 && (lastUuid == u ==> r.frames == []) &&
      (r.frames == [] ==> r.lastUuid == lastUuid) && (r.frames != [] ==> r.lastUuid == u)
  {
    if outcomes != [] {
      var init := outcomes[..|outcomes| - 1];
      assert forall k :: 0 <= k < |init| ==> init[k] == outcomes[k];
      SameUuidPushesAtMostOnce(lastUuid, init, u, binds, ledNames, s);
    }
  }

  /** A presentation fetched on every one of `n > 0` ticks, while the last uuid
      differs from its own, is pushed exactly once. */
  lemma RepeatedSnapshotPushedOnce(lastUuid: string, req: PresentationRequest, n: nat, binds: seq<PP7KeyBind>, ledNames: seq<string>, s: LedSettings)
    requires n > 0 && req.presentation.id.uuid != lastUuid
    ensures Run(lastUuid, seq(n, _ => Fetched(req)), binds, ledNames, s).frames ==
      [ResolveFrame(req.presentation, binds, ledNames, s)]
  {
    var outcomes := seq(n, _ => Fetched(req));
    var u := req.presentation.id.uuid;
    SameUuidPushesAtMostOnce(lastUuid, outcomes, u, binds, ledNames, s);
    var init := outcomes[..n - 1];
    SameUuidPushesAtMostOnce(lastUuid, init, u, binds, ledNames, s);
    var before := Run(lastUuid, init, binds, ledNames, s);
    if before.frames == [] {
      assert before.lastUuid == lastUuid;
    } else {
      assert before.lastUuid == u;
      if n - 1 > 0 {
        RepeatedSnapshotPushedOnce(lastUuid, req, n - 1, binds, ledNames, s);
        assert init == seq(n - 1, _ => Fetched(req));
      }
    }
  }

  /** The keyboard task once it is connected: the controller it drives, the
      binding table, the LED settings, the sleep between ticks and the uuid of
      the presentation the keyboard currently shows (`""` before the first
      frame). */
  class PollLoop {
    const controllerId: nat
    const ledNames: seq<string>
    const binds: seq<PP7KeyBind>
    const settings: LedSettings
    const sleepMs: nat
    var lastUuid: string
    /** Every frame pushed so far, in push order. */
    ghost var pushed: seq<seq<Rgb>>

    constructor (cid: nat, leds: seq<string>, table: seq<PP7KeyBind>, s: LedSettings, sleep: nat)
      ensures controllerId == cid && ledNames == leds && binds == table && settings == s && sleepMs == sleep
      ensures lastUuid == "" && pushed == []
    {
      controllerId, ledNames, binds, settings, sleepMs := cid, leds, table, s, sleep;
      lastUuid := "";
      pushed := [];
    }

    /** One tick: compare the fetched uuid with the last one and, when it
        changed, remember it and return the frame to push. */
    method Tick(outcome: FetchOutcome) returns (frame: Option<seq<Rgb>>)
      modifies this`lastUuid, this`pushed
      ensures Step(lastUuid, frame) == PollStep(old(lastUuid), outcome, binds, ledNames, settings)
      ensures pushed == old(pushed) + PushList(frame)
    {
      frame := None;
      if outcome.Fetched? {
        var pre := outcome.request.presentation;
        if pre.id.uuid != lastUuid {
          lastUuid := pre.id.uuid;
          var colors := ResolveFrame(pre, binds, ledNames, settings);
          pushed := pushed + [colors];
          frame := Some(colors);
        }
      }
    }

    /** Runs one tick per outcome, in order, and returns the frames pushed. */
    method RunTicks(outcomes: seq<FetchOutcome>) returns (frames: seq<seq<Rgb>>)
      modifies this`lastUuid, this`pushed
      ensures RunResult(lastUuid, frames) == Run(old(lastUuid), outcomes, binds, ledNames, settings)
      ensures pushed == old(pushed) + frames
    {
      frames := [];
      var k := 0;
      while k < |outcomes|
        invariant 0 <= k <= |outcomes|
        invariant RunResult(lastUuid, frames) == Run(old(lastUuid), outcomes[..k], binds, ledNames, settings)
        invariant pushed == old(pushed) + frames
      {
        var frame := Tick(outcomes[k]);
        assert outcomes[..k + 1][..k] == outcomes[..k];
        frames := frames + PushList(frame);
        k := k + 1;
      }
      assert outcomes[..k] == outcomes;
    }
  }
}
