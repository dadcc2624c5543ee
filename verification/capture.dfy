/**
 The capture control loop: the button-combo callback arms a number of frames,
 and the GX2SwapScanBuffers hook starts the periodic sampling alarm, counts the
 armed frames down, and finally cancels the alarm and dumps the captures. The
 OS side effects of each step are recorded as events in a trace.
 */
module Capture {
  import opened Words
  import opened StackWalker
  import opened Aggregator
  import opened Exporter

  /** The stored settings: isEnabled, captureFrames and captureInterval (in
      microseconds). */
  datatype Config = Config(isEnabled: bool, captureFrames: nat, captureInterval: nat)

  /** The ranges the config menu offers for the two integer settings. */
  predicate ValidConfig(cfg: Config)
  {
    1 <= cfg.captureFrames <= 255 && 20 <= cfg.captureInterval <= 1000
  }

  /** The defaults stored on first start. */
  function DefaultConfig(): (cfg: Config)
    ensures ValidConfig(cfg) && cfg.isEnabled
  {
    Config(true, 3, 50)
  }

  /** The plugin's mutable globals: isCapturing, pendingFrames and captureMap. */
  datatype Plugin = Plugin(isCapturing: bool, pendingFrames: nat, captures: Counts)

  /** The state at load time. */
  function Initial(): Plugin
  {
    Plugin(false, 0, map[])
  }

  /** The externally visible effects of one step. */
  datatype Event =
    | AlarmStarted(intervalMicros: nat)   // OSSetPeriodicAlarm with the capture interval
    | AlarmCancelled                      // OSCancelAlarm
    | CapturesDumped(written: bool)       // DumpCaptures; `written` is whether fopen succeeded
    | Forwarded                           // the call through to real_GX2SwapScanBuffers

  datatype Transition = Transition(plugin: Plugin, events: seq<Event>)

  /** Follows the events from an alarm that is `armed` or not: the resulting arm
      state, or None when the alarm is started while already running or cancelled
      while not running. */
  function AlarmAfter(armed: bool, events: seq<Event>): Option<bool>
    decreases |events|
  {
    if |events| == 0 then Some(armed)
    else if events[0].AlarmStarted? then (if armed then None else AlarmAfter(true, events[1..]))
    else if events[0].AlarmCancelled? then (if armed then AlarmAfter(false, events[1..]) else None)
    else AlarmAfter(armed, events[1..])
  }

  /** The combo callback: re-arms the countdown with captureFrames when the plugin
      is enabled; it replaces whatever was pending and touches nothing else. */
  function Combo(cfg: Config, p: Plugin): (r: Plugin)
    ensures r.isCapturing == p.isCapturing && r.captures == p.captures
    ensures cfg.isEnabled ==> r.pendingFrames == cfg.captureFrames
    ensures !cfg.isEnabled ==> r == p
  {
    if cfg.isEnabled then p.(pendingFrames := cfg.captureFrames) else p
  }

  /** The GX2SwapScanBuffers hook. `fileOpened` is whether DumpCaptures' fopen
      would succeed; it matters only on the frame that dumps. */
  function SwapScanBuffers(cfg: Config, p: Plugin, fileOpened: bool): (r: Transition)
    // every call is forwarded exactly once, as the last effect
    ensures |r.events| >= 1 && r.events[|r.events| - 1] == Forwarded
    ensures forall i :: 0 <= i < |r.events| - 1 ==> r.events[i] != Forwarded
    // the alarm is started exactly when sampling begins and cancelled exactly when it ends
    ensures AlarmStarted(cfg.captureInterval) in r.events <==> !p.isCapturing && r.plugin.isCapturing
    ensures AlarmCancelled in r.events <==> p.isCapturing && !r.plugin.isCapturing
    // the countdown never grows and never goes below zero
    ensures r.plugin.pendingFrames <= p.pendingFrames
    // captures are only touched by the dump, which clears them when the file opened
    ensures r.plugin.captures == p.captures || (p.isCapturing && !r.plugin.isCapturing)
    ensures p.isCapturing && !r.plugin.isCapturing ==>
              r.plugin.captures == ClearedAfterDump(p.captures, fileOpened) &&
              CapturesDumped(fileOpened) in r.events
    ensures CapturesDumped(fileOpened) in r.events ==> p.isCapturing && !r.plugin.isCapturing
    // with nothing pending and no alarm running the hook only forwards
    ensures !p.isCapturing && p.pendingFrames == 0 ==> r == Transition(p, [Forwarded])
  {
    if p.pendingFrames == 0 && p.isCapturing then
      Transition(Plugin(false, p.pendingFrames, ClearedAfterDump(p.captures, fileOpened)),
                 [AlarmCancelled, CapturesDumped(fileOpened), Forwarded])
    else if p.pendingFrames != 0 && !p.isCapturing then
      Transition(p.(isCapturing := true), [AlarmStarted(cfg.captureInterval), Forwarded])
    else if p.isCapturing then
      Transition(p.(pendingFrames := p.pendingFrames - 1), [Forwarded])
    else
      Transition(p, [Forwarded])
  }

  /** What can happen to the plugin: a frame is presented, the periodic alarm
      fires (with the main thread's r1, if there is a main thread, and the memory
      it sees), or the button combo is pressed. */
  datatype Input =
    | Frame(fileOpened: bool)
    | AlarmTick(mainThread: Option<bv32>, m: Machine)
    | ComboPressed

  /** One input. The alarm callback only runs while the periodic alarm is set, so
      a tick while not capturing has no effect. */
  function Step(cfg: Config, p: Plugin, input: Input): (r: Transition)
    ensures !input.Frame? ==> r.events == [] && r.plugin.isCapturing == p.isCapturing
    ensures input.AlarmTick? ==> r.plugin.pendingFrames == p.pendingFrames
  {
    match input
    case Frame(fileOpened) => SwapScanBuffers(cfg, p, fileOpened)
    case AlarmTick(mainThread, m) =>
      if p.isCapturing then Transition(p.(captures := CaptureCallback(p.captures, mainThread, m)), [])
      else Transition(p, [])
    case ComboPressed => Transition(Combo(cfg, p), [])
  }

  /** Feeds the inputs in order, concatenating the events. */
  function Run(cfg: Config, p: Plugin, inputs: seq<Input>): Transition
    decreases |inputs|
  {
    if |inputs| == 0 then Transition(p, [])
    else
      var first := Step(cfg, p, inputs[0]);
      var rest := Run(cfg, first.plugin, inputs[1..]);
      Transition(rest.plugin, first.events + rest.events)
  }

  function Forwards(n: nat): (s: seq<Event>)
    ensures |s| == n && forall i :: 0 <= i < n ==> s[i] == Forwarded
  {
    seq(n, _ => Forwarded)
  }

  predicate AllFrames(inputs: seq<Input>)
  {
    forall i :: 0 <= i < |inputs| ==> inputs[i].Frame?
  }

  lemma {:induction false} AlarmAfterAppend(armed: bool, a: seq<Event>, b: seq<Event>)
    ensures AlarmAfter(armed, a + b) ==
            (match AlarmAfter(armed, a)
             case None => None
             case Some(x) => AlarmAfter(x, b))
    decreases |a|
  {
    if |a| > 0 {
      assert (a + b)[1..] == a[1..] + b;
      var next := if a[0].AlarmStarted? then true else if a[0].AlarmCancelled? then false else armed;
      AlarmAfterAppend(next, a[1..], b);
    } else {
      assert a + b == b;
    }
  }

  /** Events that neither start nor cancel leave the alarm as it was. */
  lemma {:induction false} QuietEvents(armed: bool, e: seq<Event>)
    requires forall i :: 0 <= i < |e| ==> !e[i].AlarmStarted? && !e[i].AlarmCancelled?
    ensures AlarmAfter(armed, e) == Some(armed)
    decreases |e|
  {
    if |e| > 0 {
      QuietEvents(armed, e[1..]);
    }
  }

  /** A single step keeps the alarm in step with isCapturing. */
  lemma StepAlarm(cfg: Config, p: Plugin, input: Input)
    ensures AlarmAfter(p.isCapturing, Step(cfg, p, input).events) == Some(Step(cfg, p, input).plugin.isCapturing)
  {
    var r := Step(cfg, p, input);
    var e := r.events;
    if |e| > 0 && (e[0].AlarmStarted? || e[0].AlarmCancelled?) {
      QuietEvents(r.plugin.isCapturing, e[1..]);
    } else {
      QuietEvents(p.isCapturing, e);
    }
  }

  /** Over any run the alarm is never started twice or cancelled while stopped,
      and it is running at the end exactly when the plugin is capturing. */
  lemma {:induction false} AlarmDiscipline(cfg: Config, p: Plugin, inputs: seq<Input>)
    ensures AlarmAfter(p.isCapturing, Run(cfg, p, inputs).events) == Some(Run(cfg, p, inputs).plugin.isCapturing)
    decreases |inputs|
  {
    if |inputs| > 0 {
      var first := Step(cfg, p, inputs[0]);
      StepAlarm(cfg, p, inputs[0]);
      AlarmDiscipline(cfg, first.plugin, inputs[1..]);
      AlarmAfterAppend(p.isCapturing, first.events, Run(cfg, first.plugin, inputs[1..]).events);
    }
  }

  /** A run of frames starting from a capturing state with n frames pending: the
      n frames count down, forwarding only, and frame n+1 cancels and dumps. */
  lemma {:induction false} Drain(cfg: Config, p: Plugin, inputs: seq<Input>)
    requires p.isCapturing && AllFrames(inputs)
    requires |inputs| == p.pendingFrames + 1
    ensures var o := Run(cfg, p, inputs);
            var wrote := inputs[|inputs| - 1].fileOpened;
            && o.plugin == Plugin(false, 0, ClearedAfterDump(p.captures, wrote))
            && o.events == Forwards(p.pendingFrames) + [AlarmCancelled, CapturesDumped(wrote), Forwarded]
    ensures forall j :: 0 <= j < |inputs| ==>
              Run(cfg, p, inputs[..j]).plugin == Plugin(true, p.pendingFrames - j, p.captures)
    decreases |inputs|
  {
    var wrote := inputs[|inputs| - 1].fileOpened;
    assert Run(cfg, p, inputs[..0]).plugin == p by {
      assert inputs[..0] == [];
    }
    if p.pendingFrames == 0 {
      assert inputs[1..] == [];
      assert Forwards(0) + [AlarmCancelled, CapturesDumped(wrote), Forwarded]
          == [AlarmCancelled, CapturesDumped(wrote), Forwarded];
    } else {
      var q := p.(pendingFrames := p.pendingFrames - 1);
      assert Step(cfg, p, inputs[0]) == Transition(q, [Forwarded]);
      var tail := inputs[1..];
      assert AllFrames(tail) by {
        forall i | 0 <= i < |tail|
          ensures tail[i].Frame?
        {
          assert tail[i] == inputs[i + 1];
        }
      }
      Drain(cfg, q, tail);
      assert tail[|tail| - 1] == inputs[|inputs| - 1];
      assert [Forwarded] + Forwards(q.pendingFrames) == Forwards(p.pendingFrames);
      forall j | 0 < j < |inputs|
        ensures Run(cfg, p, inputs[..j]).plugin == Plugin(true, p.pendingFrames - j, p.captures)
      {
        assert inputs[..j][0] == inputs[0];
        assert inputs[..j][1..] == tail[..j - 1];
      }
    }
  }

  /** From idle with N >= 1 frames armed, exactly N+2 frames bring the plugin back
      to idle: the first starts the alarm, the next N count down, the last cancels
      and dumps; the plugin captures after every shorter prefix. */
  lemma Countdown(cfg: Config, p: Plugin, inputs: seq<Input>)
    requires !p.isCapturing && p.pendingFrames >= 1 && AllFrames(inputs)
    requires |inputs| == p.pendingFrames + 2
    ensures var o := Run(cfg, p, inputs);
            var wrote := inputs[|inputs| - 1].fileOpened;
            && o.plugin == Plugin(false, 0, ClearedAfterDump(p.captures, wrote))
            && o.events == [AlarmStarted(cfg.captureInterval), Forwarded] + Forwards(p.pendingFrames)
                           + [AlarmCancelled, CapturesDumped(wrote), Forwarded]
    ensures forall j :: 1 <= j < |inputs| ==> Run(cfg, p, inputs[..j]).plugin.isCapturing
  {
    var q := p.(isCapturing := true);
    var tail := inputs[1..];
    assert Step(cfg, p, inputs[0]) == Transition(q, [AlarmStarted(cfg.captureInterval), Forwarded]);
    assert AllFrames(tail) by {
      forall i | 0 <= i < |tail|
        ensures tail[i].Frame?
      {
        assert tail[i] == inputs[i + 1];
      }
    }
    Drain(cfg, q, tail);
    assert tail[|tail| - 1] == inputs[|inputs| - 1];
    forall j | 1 <= j < |inputs|
      ensures Run(cfg, p, inputs[..j]).plugin.isCapturing
    {
      assert inputs[..j][0] == inputs[0];
      assert inputs[..j][1..] == tail[..j - 1];
    }
  }

  /** Pressing the combo while idle and enabled, then presenting captureFrames+2
      frames, samples for one countdown and dumps once. */
  lemma ComboThenCountdown(cfg: Config, p: Plugin, inputs: seq<Input>)
    requires ValidConfig(cfg) && cfg.isEnabled
    requires !p.isCapturing && AllFrames(inputs)
    requires |inputs| == cfg.captureFrames + 2
    ensures var o := Run(cfg, p, [ComboPressed] + inputs);
            var wrote := inputs[|inputs| - 1].fileOpened;
            && o.plugin == Plugin(false, 0, ClearedAfterDump(p.captures, wrote))
            && o.events == [AlarmStarted(cfg.captureInterval), Forwarded] + Forwards(cfg.captureFrames)
                           + [AlarmCancelled, CapturesDumped(wrote), Forwarded]
  {
    var q := Combo(cfg, p);
    assert ([ComboPressed] + inputs)[1..] == inputs;
    Countdown(cfg, q, inputs);
  }

  /** The combo resets rather than adds: pressing it twice is pressing it once. */
  lemma ComboIsReset(cfg: Config, p: Plugin)
    ensures Combo(cfg, Combo(cfg, p)) == Combo(cfg, p)
    ensures cfg.isEnabled ==> Combo(cfg, p).pendingFrames == Combo(cfg, p.(pendingFrames := 0)).pendingFrames
  {
  }

  /** Re-arming while capturing extends the countdown without a second alarm: the
      next frame only counts down and forwards. */
  lemma RearmNeverStartsSecondAlarm(cfg: Config, p: Plugin, fileOpened: bool)
    requires ValidConfig(cfg) && cfg.isEnabled && p.isCapturing
    ensures SwapScanBuffers(cfg, Combo(cfg, p), fileOpened) ==
            Transition(Plugin(true, cfg.captureFrames - 1, p.captures), [Forwarded])
  {
  }

  /** Alarm ticks and combo presses never change whether the plugin is capturing
      and produce no events; ticks leave the countdown alone and only record
      samples while capturing. */
  lemma {:induction false} TicksKeepControlState(cfg: Config, p: Plugin, inputs: seq<Input>)
    requires forall i :: 0 <= i < |inputs| ==> inputs[i].AlarmTick?
    ensures Run(cfg, p, inputs).plugin.isCapturing == p.isCapturing
    ensures Run(cfg, p, inputs).plugin.pendingFrames == p.pendingFrames
    ensures Run(cfg, p, inputs).events == []
    ensures !p.isCapturing ==> Run(cfg, p, inputs).plugin == p
    decreases |inputs|
  {
    if |inputs| > 0 {
      var first := Step(cfg, p, inputs[0]);
      assert forall i :: 0 <= i < |inputs[1..]| ==> inputs[1..][i] == inputs[i + 1];
      TicksKeepControlState(cfg, first.plugin, inputs[1..]);
    }
  }

  /** The hook's dump branch leaves the map exactly as DumpCaptures does, whatever
      the map's iteration order, and reports whether the file was written. */
  lemma HookDumpIsDumpCaptures(cfg: Config, c: Counts, fileOpened: bool,
                               t: CalendarTime, order: seq<Key>, name: SymbolNames)
    requires IsEnumeration(order, c)
    ensures var r := SwapScanBuffers(cfg, Plugin(true, 0, c), fileOpened);
            var d := DumpCaptures(c, t, fileOpened, order, name);
            && r.plugin.captures == d.captures
            && r.events == [AlarmCancelled, CapturesDumped(d.file.Some?), Forwarded]
  {
  }

  /** Nothing happens before the combo: from the initial state every frame only
      forwards. */
  lemma {:induction false} IdleUntilCombo(cfg: Config, inputs: seq<Input>)
    requires AllFrames(inputs)
    ensures Run(cfg, Initial(), inputs) == Transition(Initial(), Forwards(|inputs|))
    decreases |inputs|
  {
    if |inputs| > 0 {
      assert AllFrames(inputs[1..]) by {
        assert forall i :: 0 <= i < |inputs[1..]| ==> inputs[1..][i] == inputs[i + 1];
      }
      IdleUntilCombo(cfg, inputs[1..]);
      assert [Forwarded] + Forwards(|inputs| - 1) == Forwards(|inputs|);
    }
  }
}
