/** When the Adelino boot loader starts the sketch: the decision at reset, the
    loops of main, and the programmers that run inside them, with the timer
    interrupt firing at any point (Firmware/adelino/Adelino.c). */
module AdelinoBoot {
  /** Where main is: in check_reset for the n-th time, in the wait after the reset
      of the ESP8266, in its final loop, or past it. */
  datatype Where = Check(n: nat) | EspWait | Final | Sketch

  /** What CDC_Task is doing: nothing, the AVR109 command loop, the header of a
      block command, its data (with the timer interrupt off), or the ESP8266
      bridge and the wait after it. */
  datatype Task = NoTask | Avr109 | Header | Block | EspBridge | EspReboot

  datatype Mode = Unset | NormalBoot | KeepBootloader | EspReset | EspReconfigure | EspFactory

  /** `dispatched` records that a block command ('B' or 'g') has been dispatched. */
  datatype Boot = Boot(where: Where, task: Task, mode: Mode, timeout: nat, sketch: bool, dispatched: bool)

  const TIMEOUT_AVR := 60
  const TIMEOUT_USB := 5

  datatype Event =
    | Tick
    | Poll(pressed: bool, stillPressed: bool)
    | HostEscape | HostSlipEnd | HostExit | HostBlock | HeaderRead(flash: bool) | BlockDone | BridgeTurn | RtsPulse

  /** The reset causes that start the sketch without entering the boot loader. */
  predicate StartsAtReset(external: bool, powerOn: bool, watchdog: bool, keyMatches: bool, sketch: bool) {
    !external && sketch && (powerOn || (watchdog && !keyMatches))
  }

  function AtReset(external: bool, powerOn: bool, watchdog: bool, keyMatches: bool, sketch: bool): Boot {
    Boot(if StartsAtReset(external, powerOn, watchdog, keyMatches, sketch) then Sketch else Check(1),
         NoTask, Unset, 20, sketch, false)
  }

  /** main, when no task of CDC_Task is running. */
  function MainStep(b: Boot, pressed: bool, stillPressed: bool): Boot {
    match b.where
    case Check(n) =>
      if b.timeout != 0 && pressed then b
      else if n == 1 then
        if stillPressed || !b.sketch then b.(where := Check(2), mode := KeepBootloader, timeout := 60)
        else b.(where := Final, mode := NormalBoot, timeout := 160)
      else if !stillPressed then b.(where := Final)
      else if n == 2 then b.(where := EspWait, mode := EspReset, timeout := 7)
      else if n == 3 then b.(where := Check(4), mode := EspReconfigure, timeout := 100)
      else b.(where := Final, mode := EspFactory)
    case EspWait => if b.timeout != 0 then b else b.(where := Check(3), timeout := 100)
    case Final => if b.mode != NormalBoot || b.timeout != 0 then b else b.(where := Sketch)
    case Sketch => b
  }

  /** Whether run_tasks is being called. */
  predicate RunsTasks(b: Boot) {
    b.where.Check? || b.where.Final?
  }

  function Step(b: Boot, e: Event): Boot {
    if b.where.Sketch? then b
    else
      match e
      case Tick => if b.task == Block || b.timeout == 0 then b else b.(timeout := b.timeout - 1)
      case Poll(pressed, stillPressed) =>
        if b.task == NoTask then MainStep(b, pressed, stillPressed)
        else if (b.task == Avr109 || b.task == EspReboot) && b.timeout == 0 then b.(task := NoTask)
        else b
      case HostEscape => if b.task == NoTask && RunsTasks(b) then b.(task := Avr109, timeout := TIMEOUT_AVR) else b
      case HostSlipEnd => if b.task == NoTask && RunsTasks(b) then b.(task := EspBridge, timeout := 60) else b
      case HostExit => if b.task == Avr109 && b.timeout != 0 then b.(timeout := 10) else b
      case HostBlock =>
        if b.task == Avr109 && b.timeout != 0 then
          b.(task := Header, timeout := TIMEOUT_AVR, mode := NormalBoot, dispatched := true)
        else b
      case HeaderRead(flash) => if b.task == Header then b.(task := if flash then Block else Avr109) else b
      case BlockDone => if b.task == Block then b.(task := Avr109) else b
      case BridgeTurn => if b.task == EspBridge then b.(timeout := TIMEOUT_USB) else b
      case RtsPulse => if b.task == EspBridge then b.(task := EspReboot, timeout := 7) else b
  }

  function Run(b: Boot, events: seq<Event>): Boot {
    if events == [] then b else Step(Run(b, events[..|events| - 1]), events[|events| - 1])
  }

  // ---- Safety ----

  predicate Inv(b: Boot) {
    && b.timeout <= 160
    && (b.task == Avr109 || b.task == Header || b.task == Block ==> b.timeout <= TIMEOUT_AVR)
    && (b.mode == NormalBoot ==> b.sketch || b.dispatched)
    && (b.where.Sketch? ==> b.sketch || (b.dispatched && b.mode == NormalBoot && b.timeout == 0))
  }

  lemma StepKeepsInv(b: Boot, e: Event)
    requires Inv(b)
    ensures Inv(Step(b, e))
    ensures Step(b, e).sketch == b.sketch
  {}

  /** In every run from reset, the sketch is started only if there was one at reset
      or a block command has been dispatched since. */
  lemma {:induction false} SketchOnlyIfPresent(external: bool, powerOn: bool, watchdog: bool, keyMatches: bool,
                                               sketch: bool, events: seq<Event>)
    ensures var b := Run(AtReset(external, powerOn, watchdog, keyMatches, sketch), events);
            Inv(b) && b.sketch == sketch && (b.where.Sketch? ==> sketch || b.dispatched)
  {
    if events != [] {
      SketchOnlyIfPresent(external, powerOn, watchdog, keyMatches, sketch, events[..|events| - 1]);
      StepKeepsInv(Run(AtReset(external, powerOn, watchdog, keyMatches, sketch), events[..|events| - 1]),
                   events[|events| - 1]);
    }
  }

  /** The jump at the end of main happens exactly in normal mode, from the final
      loop, with no task running and the timeout run out. */
  lemma JumpExactly(b: Boot, e: Event)
    requires !b.where.Sketch?
    ensures Step(b, e).where.Sketch?
       <==> e.Poll? && b.where.Final? && b.task == NoTask && b.mode == NormalBoot && b.timeout == 0
  {}

  // ---- Bounded exit ----

  /** The host is silent: only the timer and the program itself run. */
  predicate Silent(events: seq<Event>) {
    forall i :: 0 <= i < |events| ==> events[i].Tick? || events[i].Poll?
  }

  function Ticks(events: seq<Event>): nat {
    if events == [] then 0
    else Ticks(events[..|events| - 1]) + if events[|events| - 1].Tick? then 1 else 0
  }

  /** The polls after which main has left the programmer and the final loop. */
  function PollsToJump(b: Boot): nat {
    if b.where.Sketch? then 0 else if b.task == NoTask then 1 else 2
  }

  /** On its way out: in the final loop, in normal mode, the programmer idle or left. */
  predicate Leaving(b: Boot) {
    b.where.Sketch? || (b.where.Final? && b.mode == NormalBoot && (b.task == Avr109 || b.task == NoTask))
  }

  /** With a silent host the timeout counts the ticks down, and nothing sets it again. */
  lemma {:induction false} SilentRun(b: Boot, events: seq<Event>)
    requires Leaving(b) && !b.where.Sketch? && Silent(events)
    ensures var c := Run(b, events);
            && Leaving(c)
            && (!c.where.Sketch? ==> c.timeout == if Ticks(events) < b.timeout then b.timeout - Ticks(events) else 0)
            && (c.where.Sketch? ==> Ticks(events) >= b.timeout)
  {
    if events != [] {
      var prev := events[..|events| - 1];
      SilentRun(b, prev);
    }
  }

  lemma {:induction false} PollsLeave(b: Boot, polls: seq<Event>)
    requires Leaving(b) && (!b.where.Sketch? ==> b.timeout == 0)
    requires forall i :: 0 <= i < |polls| ==> polls[i].Poll?
    ensures Leaving(Run(b, polls)) && (!Run(b, polls).where.Sketch? ==> Run(b, polls).timeout == 0)
    ensures PollsToJump(Run(b, polls)) + |polls| <= PollsToJump(b) || Run(b, polls).where.Sketch?
  {
    if polls != [] {
      PollsLeave(b, polls[..|polls| - 1]);
    }
  }

  /** The last event of a block command: its data are done, or its memory type was
      answered with '?'. */
  predicate Completes(b: Boot, e: Event) {
    (b.task == Block && e == BlockDone) || (b.task == Header && e == HeaderRead(false))
  }

  /** Once a block command run from the final loop has completed, served or refused,
      and the host stays silent: the sketch is not started before its timeout has
      run out, which takes at most 60 ticks; and after those ticks it is started by
      the next two turns of the program, whatever the order of ticks and turns
      before. */
  lemma BoundedExit(b: Boot, last: Event, events: seq<Event>, polls: seq<Event>)
    requires Inv(b) && b.where.Final? && b.mode == NormalBoot && Completes(b, last)
    requires Silent(events)
    requires |polls| >= 2 && forall i :: 0 <= i < |polls| ==> polls[i].Poll?
    ensures b.timeout <= TIMEOUT_AVR
    ensures var c := Run(Step(b, last), events);
            && (Ticks(events) < b.timeout ==> !c.where.Sketch? && c.timeout == b.timeout - Ticks(events))
            && (Ticks(events) >= b.timeout ==> Run(c, polls).where.Sketch?)
  {
    var a := Step(b, last);
    SilentRun(a, events);
    if Ticks(events) >= b.timeout {
      PollsLeave(Run(a, events), polls);
    }
  }

  /** A block command is always run in normal mode, so its completion leads out. */
  lemma {:induction false} BlocksRunInNormalMode(external: bool, powerOn: bool, watchdog: bool, keyMatches: bool,
                                                 sketch: bool, events: seq<Event>)
    ensures var b := Run(AtReset(external, powerOn, watchdog, keyMatches, sketch), events);
            b.task == Header || b.task == Block ==> b.mode == NormalBoot && b.dispatched
  {
    if events != [] {
      BlocksRunInNormalMode(external, powerOn, watchdog, keyMatches, sketch, events[..|events| - 1]);
    }
  }

  // ---- The decision at reset ----

  /** An external reset never starts the sketch; without one, power-on does exactly if
      there is a sketch, and a watchdog reset exactly if there is one and the boot key
      is not in place. */
  lemma ResetExact(powerOn: bool, watchdog: bool, keyMatches: bool, sketch: bool)
    ensures !AtReset(true, powerOn, watchdog, keyMatches, sketch).where.Sketch?
    ensures AtReset(false, true, watchdog, keyMatches, sketch).where.Sketch? <==> sketch
    ensures AtReset(false, false, true, keyMatches, sketch).where.Sketch? <==> sketch && !keyMatches
    ensures !AtReset(false, false, false, keyMatches, sketch).where.Sketch?
  {}

  // ---- The reset button ----

  /** n timer interrupts. */
  function Elapsed(n: nat): seq<Event> {
    seq(n, _ => Tick)
  }

  lemma {:induction false} TicksDown(b: Boot, n: nat)
    requires b.task != Block && !b.where.Sketch?
    ensures Run(b, Elapsed(n)) == b.(timeout := if n < b.timeout then b.timeout - n else 0)
    decreases n
  {
    if n > 0 {
      TicksDown(b, n - 1);
      assert Elapsed(n)[..n - 1] == Elapsed(n - 1);
    }
  }

  /** Holding the button for n ticks and looking at it: main goes on. */
  function Held(b: Boot, n: nat): Boot {
    Step(Run(b, Elapsed(n)), Poll(true, true))
  }

  /** While the button is held and the time of a check is not over, main stays in it. */
  lemma HoldWaits(b: Boot, n: nat)
    requires b.where.Check? && b.task == NoTask && n < b.timeout
    ensures Held(b, n) == b.(timeout := b.timeout - n)
  {
    TicksDown(b, n);
  }

  /** Out of reset, a button held for 20 ticks (one second) keeps the boot loader, for
      60 more resets the ESP8266, for 107 more asks for its reconfiguration, and for
      100 more for its factory settings. */
  lemma HoldSelects(sketch: bool)
    ensures var b0 := AtReset(true, false, false, false, sketch);
            var b1 := Held(b0, 20);
            var b2 := Held(b1, 60);
            var b3 := Held(b2, 7);
            var b4 := Held(b3, 100);
            var b5 := Held(b4, 100);
            && b1 == b0.(where := Check(2), mode := KeepBootloader, timeout := 60)
            && b2 == b0.(where := EspWait, mode := EspReset, timeout := 7)
            && b3 == b0.(where := Check(3), mode := EspReset, timeout := 100)
            && b4 == b0.(where := Check(4), mode := EspReconfigure, timeout := 100)
            && b5.where.Final? && b5.mode == EspFactory
  {
    hide Held, MainStep;
    var b0 := AtReset(true, false, false, false, sketch);
    HoldThrough(b0);
    StagesOfHolding(b0);
    var b1 := b0.(where := Check(2), mode := KeepBootloader, timeout := 60);
    HoldThrough(b1);
    StagesOfHolding(b1);
    var b2 := b0.(where := EspWait, mode := EspReset, timeout := 7);
    HoldThrough(b2);
    StagesOfHolding(b2);
    var b3 := b0.(where := Check(3), mode := EspReset, timeout := 100);
    HoldThrough(b3);
    StagesOfHolding(b3);
    var b4 := b0.(where := Check(4), mode := EspReconfigure, timeout := 100);
    HoldThrough(b4);
    StagesOfHolding(b4);
  }

  lemma HoldThrough(b: Boot)
    requires b.task == NoTask && !b.where.Sketch?
    ensures Held(b, b.timeout) == MainStep(b.(timeout := 0), true, true)
  {
    hide MainStep, Run;
    TicksDown(b, b.timeout);
  }

  lemma StagesOfHolding(b: Boot)
    requires b.where in {Check(1), Check(2), Check(3), Check(4), EspWait}
    ensures var c := MainStep(b.(timeout := 0), true, true);
            && (b.where == Check(1) ==> c == b.(where := Check(2), mode := KeepBootloader, timeout := 60))
            && (b.where == Check(2) ==> c == b.(where := EspWait, mode := EspReset, timeout := 7))
            && (b.where == EspWait ==> c == b.(where := Check(3), timeout := 100))
            && (b.where == Check(3) ==> c == b.(where := Check(4), mode := EspReconfigure, timeout := 100))
            && (b.where == Check(4) ==> c == b.(where := Final, mode := EspFactory, timeout := 0))
  {}

  /** A button that is released goes to the final loop: from the first check in normal
      mode, with 160 ticks (eight seconds) to go, if there is a sketch; without one to
      the next check, in the boot loader; and from a later check in the mode reached. */
  lemma ReleaseDecides(b: Boot)
    requires b.where.Check? && b.task == NoTask && 1 <= b.where.n <= 4
    ensures Step(b, Poll(false, false))
         == if b.where.n > 1 then b.(where := Final)
            else if b.sketch then b.(where := Final, mode := NormalBoot, timeout := 160)
            else b.(where := Check(2), mode := KeepBootloader, timeout := 60)
  {}

  /** In any mode but normal, main never leaves its final loop by itself. */
  lemma {:induction false} OtherModesStay(b: Boot, events: seq<Event>)
    requires b.where.Final? && b.task == NoTask && b.mode != NormalBoot && Silent(events)
    ensures var c := Run(b, events); c.where.Final? && c.task == NoTask && c.mode == b.mode
  {
    if events != [] {
      OtherModesStay(b, events[..|events| - 1]);
    }
  }

  // ---- The tasks of CDC_Task ----

  /** n ticks of a silent host, and a turn of the program. */
  function Waited(b: Boot, n: nat): Boot {
    Step(Run(b, Elapsed(n)), Poll(false, false))
  }

  lemma WaitedIs(b: Boot, n: nat)
    requires b.task != Block && !b.where.Sketch?
    ensures Waited(b, n) == Step(b.(timeout := if n < b.timeout then b.timeout - n else 0), Poll(false, false))
  {
    hide Step, Run;
    TicksDown(b, n);
  }

  /** An escape enters the AVR109 programmer, which a silent host keeps for 60 ticks,
      and after an 'E' for ten. */
  lemma ProgrammerEnds(b: Boot, n: nat)
    requires RunsTasks(b) && b.task == NoTask
    ensures var p := Step(b, HostEscape);
            && p.task == Avr109
            && (Waited(p, n).task == NoTask <==> n >= 60)
            && (Waited(Step(p, HostExit), n).task == NoTask <==> n >= 10)
  {
    hide Run, Waited;
    WaitedIs(Step(b, HostEscape), n);
    WaitedIs(Step(Step(b, HostEscape), HostExit), n);
  }

  /** A SLIP END enters the ESP8266 bridge, which no silence ends; a pulse on RTS does,
      seven ticks later. */
  lemma BridgeEnds(b: Boot, n: nat)
    requires RunsTasks(b) && b.task == NoTask
    ensures var e := Step(b, HostSlipEnd);
            && e.task == EspBridge && Waited(e, n).task == EspBridge && Waited(Step(e, BridgeTurn), n).task == EspBridge
            && Step(e, BridgeTurn).timeout == 5
            && (Waited(Step(e, RtsPulse), n).task == NoTask <==> n >= 7)
  {
    hide Run, Waited;
    WaitedIs(Step(b, HostSlipEnd), n);
    WaitedIs(Step(Step(b, HostSlipEnd), BridgeTurn), n);
    WaitedIs(Step(Step(b, HostSlipEnd), RtsPulse), n);
  }

  /** A block command gives the host 60 ticks again and selects the normal boot; its
      data part stops the timer. */
  lemma BlockRestartsTimeout(b: Boot, n: nat)
    requires b.task == Avr109 && b.timeout != 0 && !b.where.Sketch?
    ensures var h := Step(b, HostBlock);
            && h == b.(task := Header, timeout := 60, mode := NormalBoot, dispatched := true)
            && Step(h, HeaderRead(true)).task == Block && Step(Step(h, HeaderRead(true)), Tick).timeout == 60
            && Step(h, HeaderRead(false)).task == Avr109
  {}

  /** During the wait after a reset of the ESP8266, and while another task runs, no byte
      of the host enters a programmer. */
  lemma WaitIgnoresHost(b: Boot)
    requires b.where.EspWait? || b.task != NoTask
    ensures Step(b, HostEscape) == b && Step(b, HostSlipEnd) == b
  {}
}
