/** The timers of timer.c and clock.c as their users see them: a deadline for each pending timer, checked at
    every tick, over whole runs of starts, stops and ticks. */
module TimerRuns {
  import opened TimerModel
  import Bits

  /** init_tick of every timer, and the periodic ones */
  datatype Config = Config(time: map<int, nat>, periodic: set<int>)

  datatype Sys = Sys(now: int, due: map<int, int>)

  datatype Op = Start(t: int) | Stop(t: int) | Tick

  /** The timers that the next tick fires. */
  function Fired(s: Sys): set<int> {
    set t | t in s.due && s.due[t] <= s.now + 1
  }

  function Members(row: seq<int>): set<int> { set t | t in row }

  function Time(c: Config, t: int): nat {
    if t in c.time then c.time[t] else 0
  }

  function Ticked(c: Config, s: Sys): Sys {
    Sys(s.now + 1,
        map t | t in s.due && (t !in Fired(s) || t in c.periodic) ::
          if t in Fired(s) then s.now + 1 + Time(c, t) else s.due[t])
  }

  function Step(c: Config, s: Sys, op: Op): Sys {
    match op
    case Start(t) => s.(due := s.due[t := s.now + Time(c, t)])
    case Stop(t) => s.(due := s.due - {t})
    case Tick => Ticked(c, s)
  }

  function After(c: Config, s: Sys, ops: seq<Op>): Sys {
    if ops == [] then s else Step(c, After(c, s, ops[..|ops| - 1]), ops[|ops| - 1])
  }

  /** What rt_timer_start asserts, and what keeps a periodic timer from firing forever. */
  ghost predicate Sane(c: Config) {
    forall t :: t in c.time ==> c.time[t] < HALF && (t in c.periodic ==> 1 <= c.time[t])
  }

  /** The operations are on existing timers. */
  ghost predicate Known(c: Config, ops: seq<Op>) {
    forall i :: 0 <= i < |ops| && !ops[i].Tick? ==> ops[i].t in c.time
  }

  /** All deadlines lie within the window in which 32-bit ticks compare like true ones, and only a one-shot timer
      of zero ticks is due before the next tick. */
  ghost predicate InWindow(c: Config, s: Sys) {
    forall t :: t in s.due ==> t in c.time && s.now <= s.due[t] < s.now + HALF && (t in c.periodic ==> s.now < s.due[t])
  }

  lemma StepInWindow(c: Config, s: Sys, op: Op)
    requires Sane(c) && InWindow(c, s) && (!op.Tick? ==> op.t in c.time)
    ensures InWindow(c, Step(c, s, op))
  {
  }

  lemma {:induction false} RunInWindow(c: Config, s: Sys, ops: seq<Op>)
    requires Sane(c) && Known(c, ops) && InWindow(c, s)
    ensures InWindow(c, After(c, s, ops))
  {
    if ops != [] {
      var front := ops[..|ops| - 1];
      forall i | 0 <= i < |front| && !front[i].Tick?
        ensures front[i].t in c.time
      {
        assert front[i] == ops[i];
      }
      RunInWindow(c, s, front);
      StepInWindow(c, After(c, s, front), ops[|ops| - 1]);
    }
  }

  /** No operation of the run is a start or a stop of t. */
  ghost predicate Untouched(ops: seq<Op>, t: int) {
    forall i :: 0 <= i < |ops| ==> ops[i] != Start(t) && ops[i] != Stop(t)
  }

  /** What a tick does to one timer */
  lemma TickOf(c: Config, s: Sys, t: int)
    ensures var s' := Ticked(c, s);
            && s'.now == s.now + 1
            && (t in s'.due <==> t in s.due && (s.due[t] > s.now + 1 || t in c.periodic))
            && (t in s'.due ==> s'.due[t] == if s.due[t] > s.now + 1 then s.due[t] else s.now + 1 + Time(c, t))
  {
  }

  /** The tick at which a one-shot timer of n ticks fires: the first check is that of the next tick. */
  function AtLeastOne(n: nat): nat { if n == 0 then 1 else n }

  /** While nobody touches t after its start at tick s, it is due at s + time, and after firing at every
      multiple of its time if it is periodic, or not at all. */
  lemma {:induction false} DueAfterStart(c: Config, s: Sys, t: int, ops: seq<Op>)
    requires Sane(c) && t in c.time && Untouched(ops, t)
    ensures var s' := After(c, Step(c, s, Start(t)), ops);
            var n, e := c.time[t], s'.now - s.now;
            && e >= 0
            && (t in s'.due <==> t in c.periodic || e < AtLeastOne(n))
            && (t in c.periodic ==> n > 0 && s'.due[t] == s.now + (e / n + 1) * n)
            && (t in s'.due && t !in c.periodic ==> s'.due[t] == s.now + n)
  {
    hide Ticked;
    var s1 := Step(c, s, Start(t));
    var n := c.time[t];
    if ops == [] {
      assert n > 0 ==> 0 / n == 0;
    } else {
      var front, op := ops[..|ops| - 1], ops[|ops| - 1];
      forall i | 0 <= i < |front|
        ensures front[i] != Start(t) && front[i] != Stop(t)
      {
        assert front[i] == ops[i];
      }
      DueAfterStart(c, s, t, front);
      var s0 := After(c, s1, front);
      if op.Tick? {
        if n > 0 { Elapsed(s0.now - s.now, n); }
        TickOf(c, s0, t);
      }
    }
  }

  /** Division by n steps up exactly at the multiples of n. */
  lemma Elapsed(e: nat, n: nat)
    requires n > 0
    ensures if (e + 1) % n == 0 then (e + 1) / n == e / n + 1 && (e / n + 1) * n == e + 1
            else (e + 1) / n == e / n && (e / n + 1) * n > e + 1
  {
    var q, r := e / n, e % n;
    assert e == q * n + r;
    assert (q + 1) * n == q * n + n;
    if r == n - 1 {
      Bits.Quotient(e + 1, n, q + 1, 0);
    } else {
      Bits.Quotient(e + 1, n, q, r + 1);
    }
  }

  /** A timer that is started and then left alone fires exactly init_tick ticks later, at the next tick if that
      is 0, and if it is periodic at every multiple of init_tick. */
  lemma FiresExactly(c: Config, s: Sys, t: int, ops: seq<Op>)
    requires Sane(c) && t in c.time && Untouched(ops, t)
    ensures var s' := After(c, Step(c, s, Start(t)), ops);
            var later := s'.now + 1 - s.now;
            t in Fired(s') <==> FiresAfter(c, t, later)
  {
    DueAfterStart(c, s, t, ops);
    var s' := After(c, Step(c, s, Start(t)), ops);
    if c.time[t] > 0 { Elapsed(s'.now - s.now, c.time[t]); }
  }

  ghost predicate FiresAfter(c: Config, t: int, later: int)
    requires Sane(c) && t in c.time
  {
    if t in c.periodic then later % c.time[t] == 0 else later == AtLeastOne(c.time[t])
  }

  function Ticks(ops: seq<Op>): nat {
    if ops == [] then 0 else Ticks(ops[..|ops| - 1]) + if ops[|ops| - 1].Tick? then 1 else 0
  }

  lemma {:induction false} AfterMore(c: Config, s: Sys, a: seq<Op>, b: seq<Op>)
    ensures After(c, s, a + b) == After(c, After(c, s, a), b)
    ensures After(c, s, b).now == s.now + Ticks(b)
  {
    if b == [] {
      assert a + b == a;
    } else {
      var front := b[..|b| - 1];
      AfterMore(c, s, a, front);
      assert (a + b)[..|a + b| - 1] == a + front;
    }
  }

  /** If step i is a tick, it fires the timers of this row. */
  ghost predicate FiresAt(c: Config, s: Sys, ops: seq<Op>, i: nat, row: seq<int>)
    requires i < |ops|
  {
    ops[i].Tick? ==> Members(row) == Fired(After(c, s, ops[..i]))
  }

  /** In any run a timer that is started at step i and then left alone fires at the tick of step j if and only if
      this is its init_tick-th tick since, or a multiple of it. */
  lemma RunFires(c: Config, s: Sys, ops: seq<Op>, i: nat, j: nat, t: int)
    requires Sane(c) && t in c.time && i < j < |ops| && ops[i] == Start(t) && ops[j].Tick?
    requires Untouched(ops[i + 1..j], t)
    ensures t in Fired(After(c, s, ops[..j])) <==> FiresAfter(c, t, Ticks(ops[i + 1..j + 1]))
  {
    var s0 := After(c, s, ops[..i]);
    assert ops[..i + 1] == ops[..i] + [Start(t)] && ops[..i + 1][..i] == ops[..i];
    assert After(c, s, ops[..i + 1]) == Step(c, s0, Start(t));
    assert ops[..j] == ops[..i + 1] + ops[i + 1..j];
    AfterMore(c, s, ops[..i + 1], ops[i + 1..j]);
    AfterMore(c, Step(c, s0, Start(t)), [], ops[i + 1..j]);
    assert ops[i + 1..j + 1] == ops[i + 1..j] + [ops[j]];
    FiresExactly(c, s0, t, ops[i + 1..j]);
  }
}
