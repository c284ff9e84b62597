/** Start-up: scan the lighting controllers in index order and hand the first
    keyboard to the poll loop. */
module KeyboardSelect {
  import opened Wrappers
  import opened Pp7
  import opened ColorResolver
  import opened SyncLoop

  /** Device kinds reported by the lighting service; only `Keyboard` matters. */
  datatype DeviceType = Keyboard | Mouse | LedStrip | OtherDevice

  datatype LedInfo = LedInfo(name: string)

  /** A controller as enumerated by the lighting service. */
  datatype Controller = Controller(name: string, kind: DeviceType, leds: seq<LedInfo>)

  function LedNames(c: Controller): (names: seq<string>)
    ensures |names| == |c.leds|
    ensures forall i :: 0 <= i < |c.leds| ==> names[i] == c.leds[i].name
  {
    seq(|c.leds|, i requires 0 <= i < |c.leds| => c.leds[i].name)
  }

  /** The scan over the controllers, stopping at the first keyboard. */
  method FindKeyboard(controllers: seq<Controller>) returns (found: Option<nat>)
    ensures found.Some? ==> found.value < |controllers| && controllers[found.value].kind == Keyboard
    ensures found.Some? ==> forall j :: 0 <= j < found.value ==> controllers[j].kind != Keyboard
    ensures found.None? <==> forall j :: 0 <= j < |controllers| ==> controllers[j].kind != Keyboard
  {
    found := None;
    var i := 0;
    while i < |controllers|
      invariant 0 <= i <= |controllers|
      invariant forall j :: 0 <= j < i ==> controllers[j].kind != Keyboard
    {
      if controllers[i].kind == Keyboard {
        found := Some(i);
        break;
      }
      i := i + 1;
    }
  }

  /** How the program's start ends: no keyboard (the program returns
      success), a division-by-zero panic while the keyboard task computes its
      tick delay, or the poll loop running on the keyboard. */
  datatype StartOutcome = NoKeyboard | DelayPanic(controllerId: nat) | Started(task: PollLoop)

  /** The start of the program once connected: the first keyboard is handed to
      the keyboard task, which computes its tick delay before anything else and
      panics on a zero update frequency; otherwise the poll loop starts with no
      uuid seen, the keyboard's LED names, the given table and settings and the
      sleep `1000 / UpdateFrequency` cast to `u64`. */
  method StartKeyboardTask(controllers: seq<Controller>, binds: seq<PP7KeyBind>, s: Settings) returns (start: StartOutcome)
    ensures start.NoKeyboard? <==> forall j :: 0 <= j < |controllers| ==> controllers[j].kind != Keyboard
    ensures start.DelayPanic? <==> !start.NoKeyboard? && s.updateFrequency == 0
    ensures start.DelayPanic? ==> var cid := start.controllerId;
      cid < |controllers| && controllers[cid].kind == Keyboard &&
      (forall j :: 0 <= j < cid ==> controllers[j].kind != Keyboard)
    ensures start.Started? ==> fresh(start.task)
    ensures start.Started? ==> var cid := start.task.controllerId;
      cid < |controllers| && controllers[cid].kind == Keyboard &&
      (forall j :: 0 <= j < cid ==> controllers[j].kind != Keyboard) &&
      start.task.ledNames == LedNames(controllers[cid]) &&
      start.task.binds == binds && start.task.settings == s.leds &&
      DelayMillis(s.updateFrequency).Some? &&
      start.task.sleepMs == SleepMillis(DelayMillis(s.updateFrequency).value) &&
      start.task.lastUuid == "" && start.task.pushed == []
  {
    var found := FindKeyboard(controllers);
    if found.None? {
      return NoKeyboard;
    }
    var cid := found.value;
    var delay := DelayMillis(s.updateFrequency);
    if delay.None? {
      return DelayPanic(cid);
    }
    var loop := new PollLoop(cid, LedNames(controllers[cid]), binds, s.leds, SleepMillis(delay.value));
    start := Started(loop);
  }
}
