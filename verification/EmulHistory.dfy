/** The Time Manager queue and the interrupt flags by the history of the calls
    alone: what each call answers, in numbers, and what it leaves. */
module EmulHistory {
  import opened Bytes
  import opened EmulTime
  import opened EmulRuns
  import opened EmulQueue

  /** The tasks queued after `n` operations, in the order of their insertion: each
      is queued once, and no more than 48 are. */
  function Queue(ops: seq<Op>, n: nat): (q: seq<u32>)
    requires n <= |ops|
    ensures |q| <= 48
  {
    if n == 0 then [] else Queued(Queue(ops, n - 1), ops[n - 1])
  }

  function Queued(q: seq<u32>, op: Op): (r: seq<u32>)
    requires |q| <= 48
    ensures |r| <= 48
  {
    match op
    case Insert(t) => if t != 0 && t !in q && |q| < 48 then q + [t] else q
    case Reset => []
    case _ => q
  }

  /** The slots hold the tasks of `q` in order, and none behind them. */
  ghost predicate Holds(slots: seq<Slot>, q: seq<u32>) {
    && |slots| == 48 && |q| <= 48
    && (forall i :: 0 <= i < |q| ==> q[i] != 0 && slots[i].taskPtr == q[i])
    && (forall i :: |q| <= i < 48 ==> slots[i].taskPtr == 0)
    && (forall i, j :: 0 <= i < j < |q| ==> q[i] != q[j])
  }

  /** Where a task is found, and where the first free slot is. */
  lemma {:induction false} FindHeld(slots: seq<Slot>, q: seq<u32>, t: u32)
    requires Holds(slots, q)
    ensures t != 0 ==> (Find(slots, t) < |slots| <==> t in q)
    ensures t != 0 && t in q ==> Find(slots, t) < |q| && q[Find(slots, t)] == t
    ensures Find(slots, 0) == |q|
  {
    hide Find;
    FindIs(slots, 0, |q|);
    if t in q {
      var i :| 0 <= i < |q| && q[i] == t;
      FindIs(slots, t, i);
    }
  }

  lemma {:induction false} HeldTasks(a: seq<Slot>, b: seq<Slot>, q: seq<u32>)
    requires Holds(a, q) && SameTasks(a, b)
    ensures Holds(b, q)
  {
  }

  lemma {:induction false} HeldMore(a: seq<Slot>, q: seq<u32>, t: u32)
    requires Holds(a, q) && t != 0 && t !in q && |q| < 48
    ensures Holds(a[|q| := Slot(t, 0, false)], q + [t])
  {
  }

  /** In every run the slots hold the queue of the history. */
  lemma {:induction false} SlotsAreQueue(ops: seq<Op>, n: nat)
    requires n <= |ops|
    ensures Holds(After(ops, n).slots, Queue(ops, n))
  {
    if n > 0 {
      SlotsAreQueue(ops, n - 1);
      QueueStep(After(ops, n - 1), ops[n - 1], Queue(ops, n - 1));
      hide Do, Holds;
    }
  }

  lemma {:induction false} QueueStep(s: State, op: Op, q: seq<u32>)
    requires Holds(s.slots, q)
    ensures Holds(Do(s, op).s.slots, Queued(q, op))
  {
    hide Find, FindDue, Catch;
    if op.Insert? {
      FindHeld(s.slots, q, op.task);
      if op.task != 0 && op.task !in q && |q| < 48 {
        HeldMore(s.slots, q, op.task);
      }
    } else if !op.Reset? {
      assert SameTasks(s.slots, Do(s, op).s.slots);
      HeldTasks(s.slots, Do(s, op).s.slots, q);
    }
  }

  /** Insert answers 0 if the task is queued already or fewer than 48 are, and
      -90 otherwise. */
  lemma {:induction false} InsertAnswers(ops: seq<Op>, k: nat, t: u32)
    requires k < |ops| && ops[k] == Insert(t)
    ensures var q := Queue(ops, k);
      Result(ops, k) == if t in q || |q| < 48 then 0 else 0x1_0000_0000 - 90
  {
    SlotsAreQueue(ops, k);
    FindHeld(After(ops, k).slots, Queue(ops, k), t);
    hide Find, Queue;
  }

  /** Prime answers 0 if the task is queued and -91 otherwise. */
  lemma {:induction false} PrimeAnswers(ops: seq<Op>, k: nat, t: u32, delay: u32)
    requires k < |ops| && ops[k] == Prime(t, delay) && t != 0
    ensures Result(ops, k) == if t in Queue(ops, k) then 0 else 0x1_0000_0000 - 91
  {
    SlotsAreQueue(ops, k);
    FindHeld(After(ops, k).slots, Queue(ops, k), t);
    hide Find, Queue;
  }

  /** Remove answers 1 if a prime of the task is live, and 0 otherwise. */
  lemma {:induction false} RemoveAnswers(ops: seq<Op>, k: nat, t: u32)
    requires k < |ops| && ops[k] == Remove(t) && t != 0
    ensures Result(ops, k) == if Live(ops, k, t) >= 0 then 1 else 0
  {
    SlotsAreHistory(ops, k, t);
    hide Find, Live;
  }

  /** Operation `k` puts `t` in the queue or finds it there, and the queue has not
      been reset since. */
  predicate Stands(ops: seq<Op>, k: nat, n: nat, t: u32)
    requires k < n <= |ops|
  {
    ops[k] == Insert(t) && Result(ops, k) == 0 && forall j :: k < j < n ==> !ops[j].Reset?
  }

  ghost predicate Inserted(ops: seq<Op>, n: nat, t: u32)
    requires n <= |ops|
  {
    exists k :: 0 <= k < n && Stands(ops, k, n, t)
  }

  /** A task is queued exactly if some insert of it was answered with 0 and no
      reset has come since. */
  lemma {:induction false} QueuedByHistory(ops: seq<Op>, n: nat, t: u32)
    requires n <= |ops| && t != 0
    ensures t in Queue(ops, n) <==> Inserted(ops, n, t)
    ensures t in Queue(ops, n) <==> exists i :: 0 <= i < |After(ops, n).slots| && After(ops, n).slots[i].taskPtr == t
  {
    hide Result, Find, Inserted, After;
    SlotsAreQueue(ops, n);
    HeldSomewhere(After(ops, n).slots, Queue(ops, n), t);
    if n > 0 {
      QueuedByHistory(ops, n - 1, t);
      if ops[n - 1] == Insert(t) {
        InsertAnswers(ops, n - 1, t);
      }
      StandsStep(ops, n, t);
    } else {
      NoneInserted(ops, t);
    }
  }

  lemma {:induction false} NoneInserted(ops: seq<Op>, t: u32)
    ensures !Inserted(ops, 0, t)
  {
  }

  lemma {:induction false} HeldSomewhere(slots: seq<Slot>, q: seq<u32>, t: u32)
    requires Holds(slots, q) && t != 0
    ensures t in q <==> exists i :: 0 <= i < |slots| && slots[i].taskPtr == t
  {
    FindHeld(slots, q, t);
    hide Find;
  }

  lemma {:induction false} StandsStep(ops: seq<Op>, n: nat, t: u32)
    requires 0 < n <= |ops|
    ensures Inserted(ops, n, t) <==>
            (ops[n - 1] == Insert(t) && Result(ops, n - 1) == 0) || (!ops[n - 1].Reset? && Inserted(ops, n - 1, t))
  {
    hide Result;
    if ops[n - 1] == Insert(t) && Result(ops, n - 1) == 0 {
      assert Stands(ops, n - 1, n, t);
    }
    var m := n - 1;
    if !ops[m].Reset? && Inserted(ops, m, t) {
      var k :| 0 <= k < m && Stands(ops, k, m, t);
      assert Stands(ops, k, n, t);
    }
    if Inserted(ops, n, t) {
      var k :| 0 <= k < n && Stands(ops, k, n, t);
      if k < n - 1 {
        assert Stands(ops, k, m, t);
      }
    }
  }

  /** `t` has a live prime that is due at the moment of operation `n`. */
  predicate DueNow(ops: seq<Op>, n: nat, t: u32)
    requires n <= |ops|
  {
    var l := Live(ops, n, t);
    l >= 0 && After(ops, l).micros + ops[l].delay <= After(ops, n).micros
  }

  /** Pop answers with the due task that was queued first, and 0 if none is due. */
  lemma {:induction false} PopAnswers(ops: seq<Op>, n: nat)
    requires n < |ops| && ops[n] == Pop
    ensures var r, q := Result(ops, n), Queue(ops, n);
      if r == 0 then forall t: u32 :: t != 0 ==> !DueNow(ops, n, t)
      else DueNow(ops, n, r) && exists i :: 0 <= i < |q| && q[i] == r && forall j :: 0 <= j < i ==> !DueNow(ops, n, q[j])
  {
    hide Find, FindDue, Live, Queue;
    QueueWellFormed(ops, n);
    SlotsAreQueue(ops, n);
    PopIsDue(ops, n);
    var s, q := After(ops, n), Queue(ops, n);
    var i := FindDue(s.slots, s.micros);
    if i < |s.slots| {
      assert q[i] == s.slots[i].taskPtr;
      forall j | 0 <= j < i ensures !DueNow(ops, n, q[j]) {
        SlotsAreHistory(ops, n, q[j]);
        DueSlot(s.slots, j);
        assert !IsDue(s.slots[j], s.micros);
      }
    }
  }

  // ------------------------------------------------------------------- flags

  /** Operation `k` of the run raises flag `f`: it signals it, or it advances the
      clock over a tick, of 16667 microseconds for flag 0 and of 8000 for flag 3. */
  ghost predicate Raises(ops: seq<Op>, k: nat, f: nat)
    requires k < |ops|
  {
    match ops[k]
    case Signal(mask) => f in mask
    case Advance(_) =>
      var from, to := After(ops, k).micros, After(ops, k + 1).micros;
      (f == 0 && FirstTick(ops, k, 16667) != 0 && Crosses(FirstTick(ops, k, 16667), 16667, from, to))
      || (f == 3 && FirstTick(ops, k, 8000) != 0 && Crosses(FirstTick(ops, k, 8000), 8000, from, to))
    case _ => false
  }

  predicate Drops(op: Op) { op.TakeFlags? || op.Reset? }

  ghost predicate Pending(ops: seq<Op>, k: nat, n: nat, f: nat)
    requires k < n <= |ops|
  {
    Raises(ops, k, f) && forall j :: k < j < n ==> !Drops(ops[j])
  }

  ghost predicate Raised(ops: seq<Op>, n: nat, f: nat)
    requires n <= |ops|
  {
    exists k :: 0 <= k < n && Pending(ops, k, n, f)
  }

  /** A flag is pending exactly if it was raised and not handed over or dropped by
      a reset since. */
  lemma {:induction false} FlagsAreHistory(ops: seq<Op>, n: nat, f: nat)
    requires n <= |ops|
    ensures f in After(ops, n).flags <==> Raised(ops, n, f)
  {
    hide Raises, Do;
    if n > 0 {
      FlagsAreHistory(ops, n - 1, f);
      PendingStep(ops, n, f);
      FlagStep(ops, n - 1, f);
      hide Raised;
    }
  }

  lemma {:induction false} FlagStep(ops: seq<Op>, k: nat, f: nat)
    requires k < |ops|
    ensures f in After(ops, k + 1).flags <==> Raises(ops, k, f) || (!Drops(ops[k]) && f in After(ops, k).flags)
  {
    if ops[k].Advance? {
      ViaRaised(ops, k);
      AdbRaised(ops, k);
      OtherFlags(After(ops, k), ops[k].n, f);
      hide Do, Crosses, FirstTick;
    }
    hide FirstTick, Crosses, Catch;
  }

  lemma {:induction false} OtherFlags(s: State, n: nat, f: nat)
    ensures f in Do(s, Advance(n)).s.flags ==> f in s.flags || f in {0, 3}
    ensures f in s.flags ==> f in Do(s, Advance(n)).s.flags
  {
    hide Catch;
  }

  lemma {:induction false} PendingStep(ops: seq<Op>, n: nat, f: nat)
    requires 0 < n <= |ops|
    ensures Raised(ops, n, f) <==> Raises(ops, n - 1, f) || (!Drops(ops[n - 1]) && Raised(ops, n - 1, f))
  {
    hide Raises;
    if Raises(ops, n - 1, f) {
      assert Pending(ops, n - 1, n, f);
    }
    var m := n - 1;
    if !Drops(ops[m]) && Raised(ops, m, f) {
      var k :| 0 <= k < m && Pending(ops, k, m, f);
      assert Pending(ops, k, n, f);
    }
    if Raised(ops, n, f) {
      var k :| 0 <= k < n && Pending(ops, k, n, f);
      if k < n - 1 {
        assert Pending(ops, k, m, f);
      }
    }
  }
}
