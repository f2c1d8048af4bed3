/** The logic in the host program's main loop: two down-counters that pace instruction
    execution and the 60 Hz timers, the timer tick with its beep, and the draw-flag
    handshake with the terminal renderer. The renderer, the keyboard poll and the sleep are
    not part of this model; a refresh and a beep are reported as events. */
module Host {
  import opened Bits
  import opened Outcomes
  import opened OpCodes
  import opened Input
  import opened Machine
  import opened Executor

  const OP_PER_SECOND: nat := 700
  /** Loop iterations per instruction (integer division). */
  const OP_TRIGGER_VAL: nat := 10000 / OP_PER_SECOND
  /** Loop iterations per timer tick (integer division). */
  const TIMER_TRIGGER_VAL: nat := 10000 / 60

  // ---------------------------------------------------------------------------------------
  // The timer tick

  /** One tick of a timer: down by one, but never below zero. */
  function TickDown(t: u32): (r: u32)
    ensures r <= t && (t > 0 ==> r == t - 1) && (t == 0 ==> r == 0)
  {
    if t > 0 then t - 1 else t
  }

  /** The tick calls `beep_sound` when it brings the sound timer down to zero. */
  predicate BeepsOnTick(sound: u32) {
    sound > 0 && sound - 1 == 0
  }

  /** The machine after one tick of both timers. */
  function TickTimers(s: State): (r: State)
    requires WellFormed(s)
    ensures WellFormed(r)
  {
    s.(delayTimer := TickDown(s.delayTimer), soundTimer := TickDown(s.soundTimer))
  }

  /** A timer after k ticks. */
  function Ticks(t: u32, k: nat): u32 {
    if k == 0 then t else Ticks(TickDown(t), k - 1)
  }

  /** How many of k ticks beep, for a sound timer starting at t. */
  function BeepsIn(t: u32, k: nat): nat {
    if k == 0 then 0 else (if BeepsOnTick(t) then 1 else 0) + BeepsIn(TickDown(t), k - 1)
  }

  /** A tick beeps exactly when the sound timer goes from 1 to 0. */
  lemma BeepExactlyAtOne(t: u32)
    ensures BeepsOnTick(t) <==> t == 1
    ensures BeepsOnTick(t) <==> t > 0 && TickDown(t) == 0
  {
  }

  /** k ticks take a timer down by k, stopping at zero. */
  lemma {:induction false} CountDown(t: u32, k: nat)
    ensures Ticks(t, k) == if t >= k then t - k else 0
  {
    if k > 0 {
      CountDown(TickDown(t), k - 1);
    }
  }

  /** A sound timer set to t beeps once in k ticks if it runs out within them, and never
      otherwise: a timer at zero stays silent. */
  lemma {:induction false} BeepsOnce(t: u32, k: nat)
    ensures BeepsIn(t, k) == if 1 <= t <= k then 1 else 0
  {
    if k > 0 {
      BeepsOnce(TickDown(t), k - 1);
      if t == 1 {
        assert BeepsIn(0, k - 1) == 0;
      }
    }
  }

  /** The code's timer block: both timers tick, and the beep is reported. */
  method TimerTick(m: Chip8) returns (beeped: bool)
    requires m.Valid()
    modifies m
    ensures m.Valid() && m.memory == old(m.memory) && m.V == old(m.V) && m.displayBuf == old(m.displayBuf)
    ensures m.Snapshot() == TickTimers(old(m.Snapshot()))
    ensures beeped == BeepsOnTick(old(m.soundTimer))
  {
    beeped := false;
    if m.delayTimer > 0 {
      m.delayTimer := m.delayTimer - 1;
    }
    if m.soundTimer > 0 {
      m.soundTimer := m.soundTimer - 1;
      if m.soundTimer == 0 {
        beeped := true;
      }
    }
  }

  // ---------------------------------------------------------------------------------------
  // The trigger counters

  /** A counter's action runs on an iteration that starts with the counter at zero. */
  predicate Fires(t: nat) {
    t == 0
  }

  /** One iteration of a counter with period `val`: reset to `val` when it fired, then the
      end-of-loop decrement. */
  function Advance(t: nat, val: nat): (r: nat)
    requires val > 0
    ensures t <= val ==> r < val
    ensures Fires(t) ==> r == val - 1
    ensures !Fires(t) ==> r + 1 == t
  {
    (if t == 0 then val else t) - 1
  }

  /** A counter after k iterations. */
  function AdvanceBy(t: nat, val: nat, k: nat): (r: nat)
    requires val > 0
    decreases k
  {
    if k == 0 then t else AdvanceBy(Advance(t, val), val, k - 1)
  }

  /** A counter that starts at t <= val fires on iteration k exactly when k is t, t + val,
      t + 2 * val, ...: the action runs once every val iterations. */
  lemma {:induction false} FiresPeriodically(t: nat, val: nat, k: nat)
    requires 0 < val && t <= val
    ensures Fires(AdvanceBy(t, val, k)) <==> k >= t && (k - t) % val == 0
    decreases k
  {
    if k > 0 {
      var t' := Advance(t, val);
      FiresPeriodically(t', val, k - 1);
      if t == 0 {
        assert t' == val - 1;
        if k >= val {
          DivModUnique(k - val, val, (k - val) / val, (k - val) % val);
          DivModUnique(k, val, (k - val) / val + 1, (k - val) % val);
        } else {
          DivModUnique(k, val, 0, k);
        }
      }
    }
  }

  // ---------------------------------------------------------------------------------------
  // One iteration of the main loop

  /** What the host sees from one iteration: whether an instruction ran, whether the screen
      was refreshed and whether the beep was sounded. */
  datatype Events = Events(executed: bool, refreshed: bool, beeped: bool)

  /** How an iteration ends: the loop goes on with the new counters, the user quit, or the
      program stops on a panic or on the error of an instruction. */
  datatype Verdict =
    | Continue(opTrigger: nat, timerTrigger: nat, events: Events)
    | Quit
    | Halt(fault: Fault)

  /** How the instruction part of an iteration ends. */
  datatype Instruction = Ran(refreshed: bool) | Quitting | Failed(fault: Fault)

  /** The instruction part of an iteration: the quit check, the fetch (whose `None` is
      unwrapped), the execution and the draw-flag handshake. The state that comes with
      `Quitting` is the machine as it was; the one that comes with `Failed` is not
      specified. */
  function RunInstruction(s: State, h: InputHandler, rnd: byte): (r: (Instruction, State))
    requires WellFormed(s)
    ensures WellFormed(r.1) && (r.0.Ran? ==> !r.1.drawFlag)
  {
    if ShouldQuit(h) then (Quitting, s)
    else
      var fetched := Fetch(s);
      if fetched.Err? then (Failed(fetched.fault), s)
      else if fetched.value.1.None? then (Failed(UnwrapOnNone), s)
      else
        var executed := Execute(fetched.value.0, fetched.value.1.value, h, rnd);
        if executed.Err? then (Failed(executed.fault), s)
        else if executed.value.drawFlag then (Ran(true), executed.value.(drawFlag := false))
        else (Ran(false), executed.value)
  }

  /** The code's instruction block: quit on Ctrl-C, fetch and unwrap, execute, and refresh
      the screen when the draw flag is set. */
  method InstructionBlock(m: Chip8, h: InputHandler, rnd: byte) returns (r: Instruction)
    requires m.Valid()
    modifies m, m.memory, m.V, m.displayBuf
    ensures m.Valid() && m.memory == old(m.memory) && m.V == old(m.V) && m.displayBuf == old(m.displayBuf)
    ensures var (spec, s') := RunInstruction(old(m.Snapshot()), h, rnd);
      r == spec && (r.Ran? || r.Quitting? ==> m.Snapshot() == s')
  {
    if ShouldQuit(h) {
      return Quitting;
    }
    var fetched := FetchOpcode(m);
    if fetched.Err? {
      return Failed(fetched.fault);
    }
    if fetched.value.None? {
      return Failed(UnwrapOnNone);
    }
    var executed := ExecuteOpcode(m, fetched.value.value, h, rnd);
    if executed.Err? {
      return Failed(executed.fault);
    }
    var refreshed := false;
    if m.drawFlag {
      refreshed := true;
      m.drawFlag := false;
    }
    r := Ran(refreshed);
  }

  /** The timer part of an iteration and the two end-of-loop decrements. */
  function TimerPhase(s: State, opTrigger: nat, timerTrigger: nat, ev: Events): (r: (Verdict, State))
    requires WellFormed(s) && opTrigger > 0
    ensures WellFormed(r.1)
  {
    if timerTrigger == 0 then
      (Continue(opTrigger - 1, TIMER_TRIGGER_VAL - 1, ev.(beeped := BeepsOnTick(s.soundTimer))), TickTimers(s))
    else
      (Continue(opTrigger - 1, timerTrigger - 1, ev), s)
  }

  /** One iteration of the main loop on machine `s` with counters `opTrigger` and
      `timerTrigger`, keypad snapshot `h` and random byte `rnd`. The state that comes with
      `Quit` is the machine as it was; the one that comes with `Halt` is not specified. */
  function Cycle(s: State, opTrigger: nat, timerTrigger: nat, h: InputHandler, rnd: byte): (r: (Verdict, State))
    requires WellFormed(s)
    ensures WellFormed(r.1)
  {
    if opTrigger == 0 then
      var (ran, s') := RunInstruction(s, h, rnd);
      match ran
      case Quitting => (Quit, s)
      case Failed(f) => (Halt(f), s)
      case Ran(refreshed) => TimerPhase(s', OP_TRIGGER_VAL, timerTrigger, Events(true, refreshed, false))
    else TimerPhase(s, opTrigger, timerTrigger, Events(false, false, false))
  }

  /** Both counters move as `Advance` says, so neither is decremented below zero and, from
      counters at most their periods, both stay below them. */
  lemma CycleAdvancesCounters(s: State, opTrigger: nat, timerTrigger: nat, h: InputHandler, rnd: byte)
    requires WellFormed(s)
    ensures var r := Cycle(s, opTrigger, timerTrigger, h, rnd).0;
      r.Continue? ==>
        r.opTrigger == Advance(opTrigger, OP_TRIGGER_VAL)
        && r.timerTrigger == Advance(timerTrigger, TIMER_TRIGGER_VAL)
        && (opTrigger <= OP_TRIGGER_VAL ==> r.opTrigger < OP_TRIGGER_VAL)
        && (timerTrigger <= TIMER_TRIGGER_VAL ==> r.timerTrigger < TIMER_TRIGGER_VAL)
  {
  }

  /** An iteration whose counters are not zero neither runs an instruction nor ticks: the
      machine is left alone, and the actions happen only when their counter fired. */
  lemma IdleCycleChangesNothing(s: State, opTrigger: nat, timerTrigger: nat, h: InputHandler, rnd: byte)
    requires WellFormed(s) && !Fires(opTrigger) && !Fires(timerTrigger)
    ensures var (r, s') := Cycle(s, opTrigger, timerTrigger, h, rnd);
      r == Continue(opTrigger - 1, timerTrigger - 1, Events(false, false, false)) && s' == s
  {
  }

  /** A fired timer counter ticks both timers, and beeps exactly when the sound timer was 1;
      a counter that did not fire leaves both timers alone. */
  lemma CycleTicksTimers(s: State, opTrigger: nat, timerTrigger: nat, h: InputHandler, rnd: byte)
    requires WellFormed(s) && !Fires(opTrigger)
    ensures var (r, s') := Cycle(s, opTrigger, timerTrigger, h, rnd);
      r.Continue?
      && (Fires(timerTrigger) ==>
            s' == TickTimers(s) && (r.events.beeped <==> s.soundTimer == 1))
      && (!Fires(timerTrigger) ==> s' == s && !r.events.beeped)
  {
    BeepExactlyAtOne(s.soundTimer);
  }

  /** When an instruction runs: a Ctrl-C snapshot quits before the fetch; otherwise the
      iteration goes on exactly when fetch, decode and execute succeed, the screen is
      refreshed exactly when the instruction set the draw flag, and the flag is then clear.
      When the timer counter fires on the same iteration, the timers tick after the
      instruction, so they tick the values the instruction may just have set. */
  lemma CycleDrawHandshake(s: State, timerTrigger: nat, h: InputHandler, rnd: byte)
    requires WellFormed(s)
    ensures var (r, s') := Cycle(s, 0, timerTrigger, h, rnd);
      (ShouldQuit(h) ==> r == Quit && s' == s)
      && (!ShouldQuit(h) ==>
        var fetched := Fetch(s);
        (r.Continue? <==>
           fetched.Ok? && fetched.value.1.Some?
           && Execute(fetched.value.0, fetched.value.1.value, h, rnd).Ok?)
        && (r.Continue? ==>
           var executed := Execute(fetched.value.0, fetched.value.1.value, h, rnd).value;
           var handed := executed.(drawFlag := false);
           r.events.executed && !s'.drawFlag
           && (r.events.refreshed <==> executed.drawFlag)
           && (Fires(timerTrigger) ==>
                 s' == TickTimers(handed) && (r.events.beeped <==> executed.soundTimer == 1))
           && (!Fires(timerTrigger) ==> s' == handed && !r.events.beeped)))
  {
    var fetched := Fetch(s);
    if !ShouldQuit(h) && fetched.Ok? && fetched.value.1.Some? {
      var executed := Execute(fetched.value.0, fetched.value.1.value, h, rnd);
      if executed.Ok? {
        BeepExactlyAtOne(executed.value.soundTimer);
      }
    }
  }

  /** The code's timer block and the end-of-loop decrements. */
  method TimerBlock(m: Chip8, opTrigger: nat, timerTrigger: nat, ev: Events) returns (r: Verdict)
    requires m.Valid() && opTrigger > 0
    modifies m
    ensures m.Valid() && m.memory == old(m.memory) && m.V == old(m.V) && m.displayBuf == old(m.displayBuf)
    ensures (r, m.Snapshot()) == TimerPhase(old(m.Snapshot()), opTrigger, timerTrigger, ev)
  {
    var timerT := timerTrigger;
    var events := ev;
    if timerT == 0 {
      timerT := TIMER_TRIGGER_VAL;
      var beeped := TimerTick(m);
      events := events.(beeped := beeped);
    }
    timerT := timerT - 1;
    r := Continue(opTrigger - 1, timerT, events);
  }

  /** The body of the code's main loop: the instruction block when the instruction counter
      is zero, the timer block when the timer counter is zero, then both decrements. */
  method LoopIteration(m: Chip8, opTrigger: nat, timerTrigger: nat, h: InputHandler, rnd: byte)
    returns (r: Verdict)
    requires m.Valid()
    modifies m, m.memory, m.V, m.displayBuf
    ensures m.Valid() && m.memory == old(m.memory) && m.V == old(m.V) && m.displayBuf == old(m.displayBuf)
    ensures var (verdict, s') := Cycle(old(m.Snapshot()), opTrigger, timerTrigger, h, rnd);
      r == verdict && (r.Continue? || r.Quit? ==> m.Snapshot() == s')
  {
    var opT := opTrigger;
    var events := Events(false, false, false);
    if opT == 0 {
      opT := OP_TRIGGER_VAL;
      var ran := InstructionBlock(m, h, rnd);
      match ran {
        case Quitting =>
          return Quit;
        case Failed(f) =>
          return Halt(f);
        case Ran(refreshed) =>
          events := Events(true, refreshed, false);
      }
    }
    r := TimerBlock(m, opT, timerTrigger, events);
  }
}
