/** The Time Manager queue against the history of the operations on it. */
module EmulQueue {
  import opened Bytes
  import opened EmulTime
  import opened EmulRuns

  /** Queued tasks are distinct and fill a prefix of the slots. */
  ghost predicate Wf(slots: seq<Slot>) {
    && |slots| == MAX_TIMERS
    && (forall i, j :: 0 <= i < j < |slots| && slots[j].taskPtr != 0 ==> slots[i].taskPtr != 0)
    && (forall i, j :: 0 <= i < j < |slots| && slots[i].taskPtr != 0 ==> slots[i].taskPtr != slots[j].taskPtr)
  }

  /** Same tasks in the same slots. */
  predicate SameTasks(a: seq<Slot>, b: seq<Slot>) {
    |a| == |b| && forall i :: 0 <= i < |a| ==> a[i].taskPtr == b[i].taskPtr
  }

  lemma {:induction false} SameTasksWf(a: seq<Slot>, b: seq<Slot>)
    requires Wf(a) && SameTasks(a, b)
    ensures Wf(b)
  {
  }

  lemma {:induction false} InsertWf(a: seq<Slot>, task: u32)
    requires Wf(a) && Find(a, task) == |a| && Find(a, 0) < |a|
    ensures Wf(a[Find(a, 0) := Slot(task, 0, false)])
  {
    hide Find;
    var j := Find(a, 0);
    var b := a[j := Slot(task, 0, false)];
    assert task != 0;
    forall i, k | 0 <= i < k < |b| && b[k].taskPtr != 0 ensures b[i].taskPtr != 0 {
      if i != j && k != j {
        assert a[i].taskPtr != 0;
      }
    }
  }

  lemma {:induction false} DoWf(s: State, op: Op)
    requires Wf(s.slots)
    ensures Wf(Do(s, op).s.slots)
  {
    var t := Do(s, op).s.slots;
    if op.Insert? {
      if Find(s.slots, op.task) == |s.slots| && Find(s.slots, 0) < |s.slots| {
        InsertWf(s.slots, op.task);
      }
    } else if !op.Reset? {
      assert SameTasks(s.slots, t);
      SameTasksWf(s.slots, t);
    }
    hide Find, FindDue, Advanced;
  }

  /** In every run the queued tasks stay distinct and contiguous. */
  lemma {:induction false} QueueWellFormed(ops: seq<Op>, n: nat)
    requires n <= |ops|
    ensures Wf(After(ops, n).slots)
  {
    hide Do;
    if n > 0 {
      QueueWellFormed(ops, n - 1);
      DoWf(After(ops, n - 1), ops[n - 1]);
    }
  }

  /** Operation `k` of the run primes `task`, and `task` is queued. */
  predicate Arms(ops: seq<Op>, k: nat, task: u32)
    requires k < |ops|
  {
    ops[k].Prime? && ops[k].task == task && Result(ops, k) == 0
  }

  /** Operation `k` removes `task`, pops it, or resets the queue. */
  predicate Clears(ops: seq<Op>, k: nat, task: u32)
    requires k < |ops|
  {
    match ops[k]
    case Remove(t) => t == task
    case Pop => Result(ops, k) == task
    case Reset => true
    case _ => false
  }

  /** The operation that left `task` armed, or -1. */
  function Live(ops: seq<Op>, n: nat, task: u32): (l: int)
    requires n <= |ops|
    ensures -1 <= l < n && (l >= 0 ==> Arms(ops, l, task))
  {
    if n == 0 then -1
    else if Arms(ops, n - 1, task) then n - 1
    else if Clears(ops, n - 1, task) then -1
    else Live(ops, n - 1, task)
  }

  /** A live prime has been neither renewed nor cleared since; without one,
      every earlier prime has been cleared. */
  lemma {:induction false} LiveMeans(ops: seq<Op>, n: nat, task: u32)
    requires n <= |ops|
    ensures var l := Live(ops, n, task);
      if l >= 0 then forall k :: l < k < n ==> !Arms(ops, k, task) && !Clears(ops, k, task)
      else forall k :: 0 <= k < n && Arms(ops, k, task) ==> exists j :: k < j < n && Clears(ops, j, task)
  {
    hide Result;
    if n > 0 {
      LiveMeans(ops, n - 1, task);
    }
  }

  /** When the prime `l` falls due. */
  function DueAt(ops: seq<Op>, l: nat): nat
    requires l < |ops| && ops[l].Prime?
  {
    After(ops, l).micros + ops[l].delay
  }

  predicate Armed(slots: seq<Slot>, task: u32) {
    var i := Find(slots, task);
    i < |slots| && slots[i].primed
  }

  function DueOf(slots: seq<Slot>, task: u32): nat
    requires Armed(slots, task)
  {
    slots[Find(slots, task)].dueUs
  }

  /** `task` is armed in `b` as it is in `a`. */
  predicate SameArming(a: seq<Slot>, b: seq<Slot>, task: u32) {
    (Armed(a, task) <==> Armed(b, task)) && (Armed(a, task) ==> DueOf(a, task) == DueOf(b, task))
  }

  lemma {:induction false} FindIs(slots: seq<Slot>, task: u32, i: nat)
    requires i <= |slots| && (i < |slots| ==> slots[i].taskPtr == task)
    requires forall j :: 0 <= j < i ==> slots[j].taskPtr != task
    ensures Find(slots, task) == i
  {
    hide Find;
    var k := Find(slots, task);
    assert !(k < i) && !(i < k);
  }

  /** Changing the slot of another task, or filling a free one, leaves `task`
      as it was. */
  lemma {:induction false} OtherSlot(a: seq<Slot>, i: nat, v: Slot, task: u32)
    requires i < |a| && a[i].taskPtr != task && v.taskPtr != task
    ensures SameArming(a, a[i := v], task)
  {
    hide Find;
    var b := a[i := v];
    FindIs(b, task, Find(a, task));
  }

  lemma {:induction false} ArmedSlot(a: seq<Slot>, i: nat, v: Slot, task: u32)
    requires i == Find(a, task) < |a| && v.taskPtr == task
    ensures Find(a[i := v], task) == i
    ensures Armed(a[i := v], task) <==> v.primed
    ensures v.primed ==> DueOf(a[i := v], task) == v.dueUs
  {
    hide Find;
    FindIs(a[i := v], task, i);
  }

  /** The slot a pop takes is the one the task is found in. */
  lemma {:induction false} DueSlot(slots: seq<Slot>, i: nat)
    requires Wf(slots) && i < |slots| && slots[i].taskPtr != 0
    ensures Find(slots, slots[i].taskPtr) == i
  {
    hide Find;
    FindIs(slots, slots[i].taskPtr, i);
  }

  /** What one operation does to the arming of a task. */
  lemma {:induction false} ArmingStep(s: State, op: Op, task: u32)
    requires Wf(s.slots) && task != 0
    ensures var d := Do(s, op);
      var a, b := s.slots, d.s.slots;
      if op.Prime? && op.task == task && d.r == 0 then Armed(b, task) && DueOf(b, task) == s.micros + op.delay
      else if (op.Remove? && op.task == task) || op.Reset? || (op.Pop? && d.r == task) then !Armed(b, task)
      else SameArming(a, b, task)
  {
    hide Find, FindDue, Catch;
    match op {
      case Prime(t, d) => PrimeStep(s, t, d, task);
      case Remove(t) => RemoveStep(s, t, task);
      case Insert(t) => InsertStep(s, t, task);
      case Pop => PopStep(s, task);
      case Reset => FindIs(AllFree(|s.slots|), task, |s.slots|);
      case _ =>
    }
  }

  lemma {:induction false} PrimeStep(s: State, t: u32, d: u32, task: u32)
    requires Wf(s.slots) && task != 0
    ensures var r := Do(s, Prime(t, d));
      if t == task && r.r == 0 then Armed(r.s.slots, task) && DueOf(r.s.slots, task) == s.micros + d
      else SameArming(s.slots, r.s.slots, task)
  {
    hide Find;
    var i := Find(s.slots, t);
    if i < |s.slots| {
      if t == task {
        ArmedSlot(s.slots, i, Slot(t, s.micros + d, true), task);
      } else {
        OtherSlot(s.slots, i, Slot(t, s.micros + d, true), task);
      }
    }
  }

  lemma {:induction false} RemoveStep(s: State, t: u32, task: u32)
    requires Wf(s.slots) && task != 0
    ensures var r := Do(s, Remove(t));
      if t == task then !Armed(r.s.slots, task) else SameArming(s.slots, r.s.slots, task)
  {
    hide Find;
    var i := Find(s.slots, t);
    if i < |s.slots| {
      if t == task {
        ArmedSlot(s.slots, i, s.slots[i].(primed := false), task);
      } else {
        OtherSlot(s.slots, i, s.slots[i].(primed := false), task);
      }
    }
  }

  lemma {:induction false} InsertStep(s: State, t: u32, task: u32)
    requires Wf(s.slots) && task != 0
    ensures SameArming(s.slots, Do(s, Insert(t)).s.slots, task)
  {
    hide Find;
    var i, j := Find(s.slots, t), Find(s.slots, 0);
    if i == |s.slots| && j < |s.slots| {
      if t == task {
        FindIs(s.slots[j := Slot(t, 0, false)], task, j);
      } else {
        OtherSlot(s.slots, j, Slot(t, 0, false), task);
      }
    }
  }

  lemma {:induction false} PopStep(s: State, task: u32)
    requires Wf(s.slots) && task != 0
    ensures var r := Do(s, Pop);
      if r.r == task then !Armed(r.s.slots, task) else SameArming(s.slots, r.s.slots, task)
  {
    hide Find, FindDue;
    var i := FindDue(s.slots, s.micros);
    if i < |s.slots| {
      DueSlot(s.slots, i);
      if s.slots[i].taskPtr == task {
        ArmedSlot(s.slots, i, s.slots[i].(primed := false), task);
      } else {
        OtherSlot(s.slots, i, s.slots[i].(primed := false), task);
      }
    }
  }

  ghost predicate Agrees(ops: seq<Op>, n: nat, task: u32)
    requires n <= |ops|
  {
    var l, slots := Live(ops, n, task), After(ops, n).slots;
    && (Armed(slots, task) <==> l >= 0)
    && (l >= 0 ==> ops[l].Prime? && DueOf(slots, task) == DueAt(ops, l))
  }

  /** The slots remember the history: a task is armed exactly when a prime of it
      is live, with the due time that prime set. */
  lemma {:induction false} SlotsAreHistory(ops: seq<Op>, n: nat, task: u32)
    requires n <= |ops| && task != 0
    ensures Agrees(ops, n, task)
  {
    hide Do, Find, FindDue;
    if n == 0 {
      FindIs(AllFree(MAX_TIMERS), task, MAX_TIMERS);
    } else {
      SlotsAreHistory(ops, n - 1, task);
      QueueWellFormed(ops, n - 1);
      ArmingStep(After(ops, n - 1), ops[n - 1], task);
    }
  }

  /** A pop returns only a task whose live prime has fallen due, and returns 0
      only when no live prime has. */
  lemma {:induction false} PopIsDue(ops: seq<Op>, n: nat)
    requires n < |ops| && ops[n].Pop?
    ensures var r, now := Result(ops, n), After(ops, n).micros;
      && (r != 0 ==> var l := Live(ops, n, r); l >= 0 && DueAt(ops, l) <= now)
      && (r == 0 ==> forall t: u32 :: t != 0 && Live(ops, n, t) >= 0 ==> DueAt(ops, Live(ops, n, t)) > now)
  {
    hide Find, FindDue, Live;
    QueueWellFormed(ops, n);
    var s, r := After(ops, n), Result(ops, n);
    var i := FindDue(s.slots, s.micros);
    if i < |s.slots| {
      DueSlot(s.slots, i);
      SlotsAreHistory(ops, n, r);
    } else {
      forall t: u32 | t != 0 && Live(ops, n, t) >= 0 ensures DueAt(ops, Live(ops, n, t)) > s.micros {
        SlotsAreHistory(ops, n, t);
        assert !IsDue(s.slots[Find(s.slots, t)], s.micros);
      }
    }
  }

  /** The tasks due now. */
  function DueSet(s: State): set<u32> {
    set i | 0 <= i < |s.slots| && IsDue(s.slots[i], s.micros) :: s.slots[i].taskPtr
  }

  lemma {:induction false} PopTakesOne(s: State)
    requires Wf(s.slots)
    ensures var d := Do(s, Pop);
      && (d.r == 0 <==> DueSet(s) == {})
      && (d.r != 0 ==> d.r in DueSet(s) && DueSet(d.s) == DueSet(s) - {d.r} && Wf(d.s.slots))
  {
    hide FindDue;
    DoWf(s, Pop);
    var i := FindDue(s.slots, s.micros);
    if i < |s.slots| {
      var t := Do(s, Pop).s;
      forall x: u32 ensures x in DueSet(t) <==> x in DueSet(s) && x != s.slots[i].taskPtr {
        if x in DueSet(s) && x != s.slots[i].taskPtr {
          var j :| 0 <= j < |s.slots| && IsDue(s.slots[j], s.micros) && s.slots[j].taskPtr == x;
          assert t.slots[j] == s.slots[j];
        }
        if x in DueSet(t) {
          var j :| 0 <= j < |t.slots| && IsDue(t.slots[j], t.micros) && t.slots[j].taskPtr == x;
          assert j != i && t.slots[j] == s.slots[j];
        }
      }
      assert s.slots[i].taskPtr in DueSet(s);
    }
  }

  /** Popping until 0. */
  function Drain(s: State): seq<u32>
    requires Wf(s.slots)
    decreases |DueSet(s)|
  {
    PopTakesOne(s);
    var d := Do(s, Pop);
    if d.r == 0 then [] else [d.r] + Drain(d.s)
  }

  /** Popping until 0 returns every due task exactly once. */
  lemma {:induction false} DrainsAll(s: State)
    requires Wf(s.slots)
    ensures forall t: u32 :: t in Drain(s) <==> t in DueSet(s)
    ensures forall i, j :: 0 <= i < j < |Drain(s)| ==> Drain(s)[i] != Drain(s)[j]
    decreases |DueSet(s)|
  {
    hide Do, DueSet;
    PopTakesOne(s);
    var d := Do(s, Pop);
    if d.r != 0 {
      DrainsAll(d.s);
      var rest := Drain(d.s);
      assert Drain(s) == [d.r] + rest;
      forall i | 0 <= i < |rest| ensures rest[i] != d.r {
        assert rest[i] in rest;
      }
    }
  }
}
