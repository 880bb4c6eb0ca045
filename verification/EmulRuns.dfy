/** What holds along every run of clock and timer operations from power-on. */
module EmulRuns {
  import opened Bytes
  import opened EmulTime

  /** The state after the first `n` operations. */
  function After(ops: seq<Op>, n: nat): State
    requires n <= |ops|
  {
    if n == 0 then Start() else Do(After(ops, n - 1), ops[n - 1]).s
  }

  function Result(ops: seq<Op>, n: nat): u32
    requires n < |ops|
  {
    Do(After(ops, n), ops[n]).r
  }

  // ---------------------------------------------------------------- the clock

  function Instructions(ops: seq<Op>, n: nat): nat
    requires n <= |ops|
  {
    if n == 0 then 0 else Instructions(ops, n - 1) + if ops[n - 1].Advance? then ops[n - 1].n else 0
  }

  function Calls(ops: seq<Op>, n: nat): nat
    requires n <= |ops|
  {
    if n == 0 then 0 else Calls(ops, n - 1) + if ops[n - 1].Advance? then 1 else 0
  }

  /** The operations that advance the clock, of which Calls is the number. */
  function Advances(ops: seq<Op>, n: nat): set<nat>
    requires n <= |ops|
  {
    set k: nat | k < n && ops[k].Advance?
  }

  lemma {:induction false} CallsAre(ops: seq<Op>, n: nat)
    requires n <= |ops|
    ensures Calls(ops, n) == |Advances(ops, n)|
  {
    if n > 0 {
      CallsAre(ops, n - 1);
      var s := Advances(ops, n - 1);
      assert Advances(ops, n) == if ops[n - 1].Advance? then s + {n - 1} else s;
    } else {
      assert Advances(ops, n) == {};
    }
  }

  /** The clock never runs fast, and loses less than one microsecond a call. */
  lemma {:induction false} ClockDrift(ops: seq<Op>, n: nat)
    requires n <= |ops|
    ensures Instructions(ops, n) - 199 * |Advances(ops, n)| <= 200 * After(ops, n).micros <= Instructions(ops, n)
  {
    hide Do, Advanced, Advances;
    CallsAre(ops, n);
    if n > 0 {
      CallsAre(ops, n - 1);
      ClockDrift(ops, n - 1);
      var s := After(ops, n - 1);
      if ops[n - 1].Advance? {
        AdvanceFields(s, ops[n - 1].n);
      } else {
        KeepsClock(s, ops[n - 1]);
      }
    }
  }

  /** The tick time set by the first advance of the run, 0 before it. */
  function FirstTick(ops: seq<Op>, n: nat, period: nat): nat
    requires n <= |ops|
  {
    if n == 0 then 0
    else
      var f := FirstTick(ops, n - 1, period);
      if f != 0 || !ops[n - 1].Advance? then f else After(ops, n).micros + period
  }

  predicate OnGrid(t: nat, first: nat, period: nat)
    requires period > 0
  {
    t >= first && (t - first) % period == 0
  }

  lemma {:induction false} CatchOnGrid(next: nat, now: nat, period: nat, first: nat)
    requires period > 0 && OnGrid(next, first, period)
    ensures OnGrid(Catch(next, now, period), first, period)
    decreases now - next
  {
    if now >= next {
      NextOnGrid(next, first, period);
      CatchOnGrid(next + period, now, period, first);
    }
  }

  lemma {:induction false} NextOnGrid(t: nat, first: nat, period: nat)
    requires period > 0 && OnGrid(t, first, period)
    ensures OnGrid(t + period, first, period)
  {
    var q := (t - first) / period;
    assert t - first == period * q;
    assert t + period - first == period * (q + 1);
    MultipleMod(period, q + 1);
  }

  ghost predicate TickState(next: nat, now: nat, first: nat, period: nat)
    requires period > 0
  {
    if first == 0 then next == 0
    else OnGrid(next, first, period) && now < next <= now + period
  }

  lemma {:induction false} FirstTickSet(ops: seq<Op>, n: nat, period: nat)
    requires n <= |ops| && period > 0
    ensures FirstTick(ops, n, period) == 0 <==> Calls(ops, n) == 0
  {
    if n > 0 {
      FirstTickSet(ops, n - 1, period);
    }
  }

  /** At every moment the next tick is the first point after the clock of the
      grid fixed by the first call: late calls never shift it. */
  lemma {:induction false} TicksOnGrid(ops: seq<Op>, n: nat)
    requires n <= |ops|
    ensures var s := After(ops, n);
      && TickState(s.nextVbl, s.micros, FirstTick(ops, n, 16667), 16667)
      && TickState(s.nextAdb, s.micros, FirstTick(ops, n, 8000), 8000)
  {
    hide Do, Advanced, TickState, Catch;
    if n == 0 {
      NoTicks();
    } else {
      TicksOnGrid(ops, n - 1);
      TickZero(After(ops, n - 1).nextVbl, After(ops, n - 1).micros, FirstTick(ops, n - 1, VBL_PERIOD), VBL_PERIOD);
      TickZero(After(ops, n - 1).nextAdb, After(ops, n - 1).micros, FirstTick(ops, n - 1, ADB_PERIOD), ADB_PERIOD);
      var s, t := After(ops, n - 1), After(ops, n);
      if ops[n - 1].Advance? {
        AdvanceFields(s, ops[n - 1].n);
        AdvanceTick(s.nextVbl, s.micros, t.micros, FirstTick(ops, n - 1, VBL_PERIOD), VBL_PERIOD);
        AdvanceTick(s.nextAdb, s.micros, t.micros, FirstTick(ops, n - 1, ADB_PERIOD), ADB_PERIOD);
      } else {
        KeepsClock(s, ops[n - 1]);
      }
    }
  }

  lemma {:induction false} NoTicks()
    ensures TickState(0, 0, 0, VBL_PERIOD) && TickState(0, 0, 0, ADB_PERIOD)
  {
  }

  lemma {:induction false} TickZero(next: nat, now: nat, first: nat, period: nat)
    requires period > 0 && TickState(next, now, first, period)
    ensures next == 0 <==> first == 0
  {
  }

  lemma {:induction false} AdvanceFields(s: State, n: nat)
    ensures var t := Do(s, Advance(n)).s;
      && t.micros == s.micros + n / 200
      && t.nextVbl == Catch(if s.nextVbl == 0 then t.micros + VBL_PERIOD else s.nextVbl, t.micros, VBL_PERIOD)
      && t.nextAdb == Catch(if s.nextAdb == 0 then t.micros + ADB_PERIOD else s.nextAdb, t.micros, ADB_PERIOD)
  {
  }

  lemma {:induction false} KeepsClock(s: State, op: Op)
    requires !op.Advance?
    ensures var t := Do(s, op).s;
      t.micros == s.micros && t.nextVbl == s.nextVbl && t.nextAdb == s.nextAdb
  {
  }

  lemma {:induction false} AdvanceTick(next: nat, before: nat, now: nat, first: nat, period: nat)
    requires period > 0 && before <= now && TickState(next, before, first, period)
    ensures var from := if next == 0 then now + period else next;
      var f := if first == 0 then now + period else first;
      TickState(Catch(from, now, period), now, f, period)
  {
    if first == 0 {
      assert OnGrid(now + period, now + period, period);
      CatchOnGrid(now + period, now, period, now + period);
    } else {
      CatchOnGrid(next, now, period, first);
    }
  }

  /** A grid point lies in (a, b]. */
  ghost predicate Crosses(first: nat, period: nat, a: nat, b: nat)
    requires period > 0
  {
    exists t: nat :: OnGrid(t, first, period) && a < t <= b
  }

  /** An advance raises the VIA flag, number 0, exactly when it crosses a grid point, and
      the first advance, which fixes the grid, raises nothing. */
  lemma {:induction false} ViaRaised(ops: seq<Op>, n: nat)
    requires n < |ops| && ops[n].Advance?
    ensures var s, t, first := After(ops, n), After(ops, n + 1), FirstTick(ops, n, 16667);
      0 in t.flags <==> 0 in s.flags || (first != 0 && Crosses(first, 16667, s.micros, t.micros))
  {
    TicksOnGrid(ops, n);
    var s, t := After(ops, n), After(ops, n + 1);
    RaisedIffCrossed(s.nextVbl, s.micros, t.micros, FirstTick(ops, n, VBL_PERIOD), VBL_PERIOD);
  }

  /** The same for the keyboard and mouse poll. */
  lemma {:induction false} AdbRaised(ops: seq<Op>, n: nat)
    requires n < |ops| && ops[n].Advance?
    ensures var s, t, first := After(ops, n), After(ops, n + 1), FirstTick(ops, n, 8000);
      3 in t.flags <==> 3 in s.flags || (first != 0 && Crosses(first, 8000, s.micros, t.micros))
  {
    TicksOnGrid(ops, n);
    var s, t := After(ops, n), After(ops, n + 1);
    RaisedIffCrossed(s.nextAdb, s.micros, t.micros, FirstTick(ops, n, ADB_PERIOD), ADB_PERIOD);
  }

  lemma {:induction false} RaisedIffCrossed(next: nat, before: nat, now: nat, first: nat, period: nat)
    requires period > 0 && before <= now && TickState(next, before, first, period)
    ensures var from := if next == 0 then now + period else next;
      now >= from <==> first != 0 && Crosses(first, period, before, now)
  {
    if first != 0 {
      if now >= next {
        assert OnGrid(next, first, period);
      }
      forall t: nat | OnGrid(t, first, period) && before < t <= now ensures next <= t {
        GridGap(t, next, first, period);
      }
    }
  }

  lemma {:induction false} GridGap(t: nat, u: nat, first: nat, period: nat)
    requires period > 0 && OnGrid(t, first, period) && OnGrid(u, first, period) && t > u - period
    ensures t >= u
  {
    var p, q := (t - first) / period, (u - first) / period;
    assert t - first == period * p && u - first == period * q;
    assert t - u == period * (p - q);
    Multiples(period, p - q);
  }
}
