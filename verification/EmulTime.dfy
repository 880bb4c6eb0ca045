/** The emulated microsecond clock, its periodic ticks, the Time Manager queue
    and the pending interrupt flags. */
module EmulTime {
  import opened Bytes

  const INSTR_PER_US: nat := 200
  const VBL_PERIOD: nat := 16667
  const ADB_PERIOD: nat := 8000
  const MAX_TIMERS: nat := 48
  /** Interrupt flags are bit numbers: a flag word is the set of its bits. */
  const VIA: nat := 0
  const ADB: nat := 3

  datatype Slot = Slot(taskPtr: u32, dueUs: nat, primed: bool)

  const FREE: Slot := Slot(0, 0, false)

  datatype State = State(micros: nat, nextVbl: nat, nextAdb: nat, slots: seq<Slot>, flags: set<nat>)

  function AllFree(n: nat): (r: seq<Slot>)
    ensures |r| == n && forall i :: 0 <= i < n ==> r[i] == FREE
  {
    if n == 0 then [] else AllFree(n - 1) + [FREE]
  }

  /** Power-on. */
  function Start(): State { State(0, 0, 0, AllFree(MAX_TIMERS), {}) }

  datatype Op =
    | Advance(n: nat)
    | Insert(task: u32)
    | Remove(task: u32)
    | Prime(task: u32, delay: u32)
    | Pop
    | Reset
    | Signal(mask: set<nat>)
    | TakeFlags

  datatype Done = Done(s: State, r: u32)

  /** The first slot with the given task, or the number of slots. */
  function Find(slots: seq<Slot>, task: u32): (i: nat)
    ensures i <= |slots| && (i < |slots| ==> slots[i].taskPtr == task)
    ensures forall j :: 0 <= j < i ==> slots[j].taskPtr != task
  {
    if slots == [] || slots[0].taskPtr == task then 0 else 1 + Find(slots[1..], task)
  }

  predicate IsDue(s: Slot, now: nat) { s.taskPtr != 0 && s.primed && now >= s.dueUs }

  function FindDue(slots: seq<Slot>, now: nat): (i: nat)
    ensures i <= |slots| && (i < |slots| ==> IsDue(slots[i], now))
    ensures forall j :: 0 <= j < i ==> !IsDue(slots[j], now)
  {
    if slots == [] || IsDue(slots[0], now) then 0 else 1 + FindDue(slots[1..], now)
  }

  /** The first tick after `now`, counting up from `next`. */
  function Catch(next: nat, now: nat, period: nat): (t: nat)
    requires period > 0
    ensures t > now && t >= next && (t == next || t <= now + period)
    decreases now - next
  {
    if now >= next then Catch(next + period, now, period) else next
  }

  function Advanced(s: State, n: nat): State {
    var now := s.micros + n / INSTR_PER_US;
    var vbl := if s.nextVbl == 0 then now + VBL_PERIOD else s.nextVbl;
    var adb := if s.nextAdb == 0 then now + ADB_PERIOD else s.nextAdb;
    State(now, Catch(vbl, now, VBL_PERIOD), Catch(adb, now, ADB_PERIOD), s.slots,
          s.flags + (if now >= vbl then {VIA} else {}) + (if now >= adb then {ADB} else {}))
  }

  /** The effect and the result of one operation. */
  function Do(s: State, op: Op): Done {
    match op
    case Advance(n) => Done(Advanced(s, n), 0)
    case Insert(task) =>
      var i := Find(s.slots, task);
      var j := Find(s.slots, 0);
      if i < |s.slots| then Done(s, 0)
      else if j < |s.slots| then Done(s.(slots := s.slots[j := Slot(task, 0, false)]), 0)
      else Done(s, TWO32 - 90)
    case Remove(task) =>
      var i := Find(s.slots, task);
      if i < |s.slots| then
        Done(s.(slots := s.slots[i := s.slots[i].(primed := false)]), if s.slots[i].primed then 1 else 0)
      else Done(s, 0)
    case Prime(task, delay) =>
      var i := Find(s.slots, task);
      if i < |s.slots| then Done(s.(slots := s.slots[i := Slot(task, s.micros + delay, true)]), 0)
      else Done(s, TWO32 - 91)
    case Pop =>
      var i := FindDue(s.slots, s.micros);
      if i < |s.slots| then
        Done(s.(slots := s.slots[i := s.slots[i].(primed := false)]), s.slots[i].taskPtr)
      else Done(s, 0)
    case Reset => Done(s.(slots := AllFree(|s.slots|), flags := {}), 0)
    case Signal(mask) => Done(s.(flags := s.flags + mask), 0)
    case TakeFlags => Done(s.(flags := {}), 0)
  }

  class EmulClock {
    var micros: nat
    var nextVblUs: nat
    var nextAdbPollUs: nat
    var interruptFlags: set<nat>
    const timers: array<Slot>

    constructor ()
      ensures Abs() == Start() && fresh(timers)
    {
      micros, nextVblUs, nextAdbPollUs, interruptFlags := 0, 0, 0, {};
      timers := new Slot[MAX_TIMERS](_ => FREE);
      new;
      assert timers[..] == AllFree(MAX_TIMERS);
    }

    ghost function Abs(): State
      reads this, timers
    {
      State(micros, nextVblUs, nextAdbPollUs, timers[..], interruptFlags)
    }

    method AdvanceClock(instructions: nat)
      modifies `micros, `nextVblUs, `nextAdbPollUs, `interruptFlags
      ensures Abs() == Do(old(Abs()), Advance(instructions)).s
    {
      micros := micros + instructions / INSTR_PER_US;
      TickVbl();
      TickAdb();
    }

    /** The 60 Hz half of the clock advance. */
    method TickVbl()
      modifies `nextVblUs, `interruptFlags
      ensures var first := if old(nextVblUs) == 0 then micros + VBL_PERIOD else old(nextVblUs);
        && nextVblUs == Catch(first, micros, VBL_PERIOD)
        && interruptFlags == old(interruptFlags) + (if micros >= first then {VIA} else {})
    {
      if nextVblUs == 0 {
        nextVblUs := micros + VBL_PERIOD;
      }
      ghost var first := nextVblUs;
      while micros >= nextVblUs
        invariant Catch(nextVblUs, micros, VBL_PERIOD) == Catch(first, micros, VBL_PERIOD)
        invariant nextVblUs >= first && (nextVblUs > first ==> micros >= first)
        invariant interruptFlags == old(interruptFlags) + (if nextVblUs > first then {VIA} else {})
        decreases micros - nextVblUs
      {
        nextVblUs := nextVblUs + VBL_PERIOD;
        interruptFlags := interruptFlags + {VIA};
      }
    }

    /** The 125 Hz keyboard and mouse poll. */
    method TickAdb()
      modifies `nextAdbPollUs, `interruptFlags
      ensures var first := if old(nextAdbPollUs) == 0 then micros + ADB_PERIOD else old(nextAdbPollUs);
        && nextAdbPollUs == Catch(first, micros, ADB_PERIOD)
        && interruptFlags == old(interruptFlags) + (if micros >= first then {ADB} else {})
    {
      if nextAdbPollUs == 0 {
        nextAdbPollUs := micros + ADB_PERIOD;
      }
      ghost var first := nextAdbPollUs;
      while micros >= nextAdbPollUs
        invariant Catch(nextAdbPollUs, micros, ADB_PERIOD) == Catch(first, micros, ADB_PERIOD)
        invariant nextAdbPollUs >= first && (nextAdbPollUs > first ==> micros >= first)
        invariant interruptFlags == old(interruptFlags) + (if nextAdbPollUs > first then {ADB} else {})
        decreases micros - nextAdbPollUs
      {
        nextAdbPollUs := nextAdbPollUs + ADB_PERIOD;
        interruptFlags := interruptFlags + {ADB};
      }
    }

    method FindTask(task: u32) returns (i: nat)
      ensures i == Find(timers[..], task)
    {
      i := 0;
      while i < timers.Length
        invariant i <= timers.Length && Find(timers[..], task) == i + Find(timers[i..], task)
      {
        assert timers[i..][1..] == timers[i + 1..];
        if timers[i].taskPtr == task {
          return;
        }
        i := i + 1;
      }
    }

    method TimerInsert(task: u32) returns (r: u32)
      modifies timers
      ensures Done(Abs(), r) == Do(old(Abs()), Insert(task))
    {
      var i := FindTask(task);
      if i < timers.Length {
        return 0;
      }
      var j := FindTask(0);
      if j < timers.Length {
        timers[j] := Slot(task, 0, false);
        return 0;
      }
      return TWO32 - 90;
    }

    method TimerRemove(task: u32) returns (r: u32)
      modifies timers
      ensures Done(Abs(), r) == Do(old(Abs()), Remove(task))
    {
      var i := FindTask(task);
      r := 0;
      if i < timers.Length {
        r := if timers[i].primed then 1 else 0;
        timers[i] := timers[i].(primed := false);
      }
    }

    method PrimeTime(task: u32, delay: u32) returns (r: u32)
      modifies timers
      ensures Done(Abs(), r) == Do(old(Abs()), Prime(task, delay))
    {
      var i := FindTask(task);
      if i == timers.Length {
        return TWO32 - 91;
      }
      timers[i] := timers[i].(primed := true, dueUs := micros + delay);
      return 0;
    }

    method PopDueTimer() returns (r: u32)
      modifies timers
      ensures Done(Abs(), r) == Do(old(Abs()), Pop)
    {
      var i := 0;
      while i < timers.Length
        invariant i <= timers.Length && timers[..] == old(timers[..])
        invariant FindDue(timers[..], micros) == i + FindDue(timers[i..], micros)
      {
        assert timers[i..][1..] == timers[i + 1..];
        if timers[i].taskPtr != 0 && timers[i].primed && micros >= timers[i].dueUs {
          r := timers[i].taskPtr;
          timers[i] := timers[i].(primed := false);
          return;
        }
        i := i + 1;
      }
      return 0;
    }

    method ResetAll()
      modifies timers, `interruptFlags
      ensures Abs() == Do(old(Abs()), Reset).s
    {
      for i := 0 to timers.Length
        invariant forall j :: 0 <= j < i ==> timers[j] == FREE
      {
        timers[i] := FREE;
      }
      interruptFlags := {};
      assert timers[..] == AllFree(timers.Length);
    }

    method SignalInterrupt(mask: set<nat>)
      modifies `interruptFlags
      ensures Abs() == Do(old(Abs()), Signal(mask)).s
    {
      interruptFlags := interruptFlags + mask;
    }

    method GetAndClearInterruptFlags() returns (f: set<nat>)
      modifies `interruptFlags
      ensures Abs() == Do(old(Abs()), TakeFlags).s && f == old(interruptFlags)
    {
      f := interruptFlags;
      interruptFlags := {};
    }
  }
}
