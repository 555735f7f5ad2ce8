// p4's stride scheduler: between joins, sleeps and ticket changes every pick takes
// the runnable process that is furthest behind.
module Stride {
  const STRIDE1: nat := 1024
  const INT_RANGE: int := 0x8000_0000

  // A C int
  type Int = x: int | -INT_RANGE <= x < INT_RANGE

  // RUNNING is for the processes of other processors.
  datatype State = RUNNABLE | RUNNING | OTHER

  datatype Proc = Proc(state: State, pid: int, tickets: nat, stride: Step, pass: Int, ticks: int) {
    predicate Runnable() {
      state.RUNNABLE?
    }
  }

  type Table = seq<Proc>

  // A stride
  type Step = d: nat | d <= STRIDE1

  // x + d in int arithmetic
  function Plus(x: Int, d: Step): (r: Int)
    ensures r == x + d || r == x + d - 0x1_0000_0000
  {
    if x + d < INT_RANGE then x + d else x + d - 2 * INT_RANGE
  }

  // settickets' ticket count: 8 for anything below 1, at most 32
  function Granted(n: int): (tickets: nat)
    ensures 1 <= tickets <= 32
  {
    if n < 1 then 8 else if n > 32 then 32 else n
  }

  // Every process that allocproc and settickets make
  predicate Fit(p: Proc) {
    1 <= p.tickets <= 32 && p.stride == STRIDE1 / p.tickets
  }

  lemma StrideRange(p: Proc)
    requires Fit(p)
    ensures 32 <= p.stride <= 1024
  {
    var q, t := p.stride, p.tickets;
    assert STRIDE1 == q * t + STRIDE1 % t;
    assert q < 32 ==> q * t <= 31 * t;
  }

  // Whatever is asked for, the stride settickets computes is positive and bounded.
  lemma GrantedStride(n: int)
    ensures 32 <= STRIDE1 / Granted(n) <= 1024
  {
    StrideRange(Proc(RUNNABLE, 0, Granted(n), STRIDE1 / Granted(n), 0, 0));
  }

  // The order in which the scheduler prefers processes
  predicate Before(p: Proc, q: Proc) {
    p.pass < q.pass || (p.pass == q.pass && (p.ticks < q.ticks || (p.ticks == q.ticks && p.pid < q.pid)))
  }

  // i is runnable, and no runnable process comes before it.
  predicate Chosen(t: Table, i: nat) {
    i < |t| && t[i].Runnable() && forall k | 0 <= k < |t| && t[k].Runnable() :: !Before(t[k], t[i])
  }

  // ---- one pick -----------------------------------------------------------------------

  function Ran(p: Proc): (r: Proc) {
    p.(pass := Plus(p.pass, p.stride), ticks := p.ticks + 1)
  }

  // update_stride_variables charges a tick to what is running.
  function Ticked(p: Proc): (r: Proc) {
    if p.state.RUNNING? then p.(ticks := p.ticks + 1) else p
  }

  // The table after the tick and the turn of process k
  function Stepped(t: Table, k: nat): (r: Table)
    requires k < |t| && t[k].Runnable()
    ensures |r| == |t| && r[k] == Ran(t[k])
    ensures forall i | 0 <= i < |t| && i != k :: r[i] == Ticked(t[i])
  {
    seq(|t|, i requires 0 <= i < |t| => if i == k then Ran(t[i]) else Ticked(t[i]))
  }

  // The tickets of the first n slots that compete
  function Tickets(t: Table, n: nat): (sum: nat)
    requires n <= |t|
  {
    if n == 0 then 0 else Tickets(t, n - 1) + if t[n - 1].state.OTHER? then 0 else t[n - 1].tickets
  }

  // A slot counts with its tickets while it is runnable or running.
  lemma {:induction false} TicketsChange(t: Table, n: nat, k: nat, p: Proc)
    requires k < n <= |t|
    ensures Tickets(t[k := p], n) + (if t[k].state.RUNNABLE? || t[k].state.RUNNING? then t[k].tickets else 0) ==
            Tickets(t, n) + if p.state.RUNNABLE? || p.state.RUNNING? then p.tickets else 0
    decreases n
  {
    if k < n - 1 {
      TicketsChange(t, n - 1, k, p);
    } else {
      TicketsBelow(t, n - 1, k, p);
    }
  }

  lemma {:induction false} TicketsBelow(t: Table, n: nat, k: nat, p: Proc)
    requires n <= k < |t|
    ensures Tickets(t[k := p], n) == Tickets(t, n)
    decreases n
  {
    if n > 0 {
      TicketsBelow(t, n - 1, k, p);
    }
  }

  lemma {:induction false} TicketsNone(t: Table, n: nat)
    requires n <= |t| && forall i | 0 <= i < n :: !t[i].state.RUNNABLE? && !t[i].state.RUNNING?
    ensures Tickets(t, n) == 0
    decreases n
  {
    if n > 0 {
      TicketsNone(t, n - 1);
    }
  }

  // The scheduler's table while ptable.lock is held.
  class Scheduler {
    var procs: Table
    var globalTickets: int
    var globalStride: Step
    var globalPass: Int

    // update_stride_variables
    method UpdateStride()
      modifies this
      ensures |procs| == |old(procs)| && forall i | 0 <= i < |procs| :: procs[i] == Ticked(old(procs)[i])
      ensures forall i | 0 <= i < |procs| && old(procs)[i].state.RUNNING? ::
        procs[i] == old(procs)[i].(ticks := old(procs)[i].ticks + 1)
      ensures forall i | 0 <= i < |procs| && !old(procs)[i].state.RUNNING? :: procs[i] == old(procs)[i]
      ensures globalTickets == Tickets(old(procs), |old(procs)|)
      ensures globalTickets > 0 ==> globalStride == STRIDE1 / globalTickets
      ensures globalTickets > 0 ==> globalPass == Plus(old(globalPass), globalStride)
      ensures globalTickets <= 0 ==> globalStride == old(globalStride) && globalPass == old(globalPass)
    {
      var total, i := 0, 0;
      while i < |procs|
        invariant 0 <= i <= |procs| == |old(procs)| && total == Tickets(old(procs), i)
        invariant forall k | 0 <= k < |procs| :: procs[k] == if k < i then Ticked(old(procs)[k]) else old(procs)[k]
        invariant globalStride == old(globalStride) && globalPass == old(globalPass)
      {
        if procs[i].state.RUNNING? {
          procs := procs[i := procs[i].(ticks := procs[i].ticks + 1)];
          total := total + procs[i].tickets;
        } else if procs[i].state.RUNNABLE? {
          total := total + procs[i].tickets;
        }
        i := i + 1;
      }
      globalTickets := total;
      if globalTickets > 0 {
        GlobalStride(globalTickets);
        globalStride := STRIDE1 / globalTickets;
        globalPass := Plus(globalPass, globalStride);
      }
    }

    // One time round scheduler(), with the chosen process running for a tick: the
    // minimum of (pass, run_ticks, pid) runs. global_pass moves twice.
    method Pick() returns (found: bool, next: nat)
      modifies this
      ensures found <==> exists i | 0 <= i < |old(procs)| :: old(procs)[i].Runnable()
      ensures found ==> Chosen(old(procs), next) && procs == Stepped(old(procs), next)
      ensures found ==> next < |procs| == |old(procs)| && old(procs)[next].state.RUNNABLE?
      ensures found ==> forall k | 0 <= k < |old(procs)| && old(procs)[k].state.RUNNABLE? ::
        || old(procs)[next].pass < old(procs)[k].pass
        || (old(procs)[next].pass == old(procs)[k].pass && old(procs)[next].ticks < old(procs)[k].ticks)
        || (old(procs)[next].pass == old(procs)[k].pass && old(procs)[next].ticks == old(procs)[k].ticks &&
            old(procs)[next].pid <= old(procs)[k].pid)
      ensures found ==> procs[next].ticks == old(procs)[next].ticks + 1
      ensures found && old(procs)[next].pass + old(procs)[next].stride < 0x8000_0000 ==>
        procs[next].pass == old(procs)[next].pass + old(procs)[next].stride
      ensures found && old(procs)[next].pass + old(procs)[next].stride >= 0x8000_0000 ==>
        procs[next].pass == old(procs)[next].pass + old(procs)[next].stride - 0x1_0000_0000
      ensures found ==> procs[next] == old(procs)[next].(pass := procs[next].pass, ticks := procs[next].ticks)
      ensures !found ==> |procs| == |old(procs)| && forall i | 0 <= i < |procs| :: procs[i] == Ticked(old(procs)[i])
      ensures globalTickets == Tickets(old(procs), |old(procs)|)
      ensures globalTickets > 0 ==> globalStride == STRIDE1 / globalTickets
      ensures globalTickets > 0 ==> globalPass == Plus(Plus(old(globalPass), globalStride), globalStride)
      ensures globalTickets <= 0 ==> globalStride == old(globalStride)
      ensures globalTickets <= 0 ==> globalPass == Plus(old(globalPass), globalStride)
      ensures globalPass == Plus(old(globalPass), globalStride) <==> !(0 < globalTickets <= STRIDE1)
    {
      UpdateStride();
      if globalTickets > 0 {
        GlobalStride(globalTickets);
      }
      globalPass := Plus(globalPass, globalStride);
      found, next := Choose();
      ChosenTicked(old(procs), procs, next);
      if found {
        procs := procs[next := Ran(procs[next])];
        assert procs == Stepped(old(procs), next);
      }
    }

    // The scan for the process to run
    method Choose() returns (found: bool, next: nat)
      ensures found <==> exists i | 0 <= i < |procs| :: procs[i].Runnable()
      ensures found ==> Chosen(procs, next)
      ensures found ==> next < |procs| && procs[next].state.RUNNABLE?
      ensures found ==> forall k | 0 <= k < |procs| && procs[k].state.RUNNABLE? ::
        || procs[next].pass < procs[k].pass
        || (procs[next].pass == procs[k].pass && procs[next].ticks < procs[k].ticks)
        || (procs[next].pass == procs[k].pass && procs[next].ticks == procs[k].ticks &&
            procs[next].pid <= procs[k].pid)
    {
      found, next := false, 0;
      var i := 0;
      while i < |procs|
        invariant 0 <= i <= |procs| && (found ==> next < i && procs[next].Runnable())
        invariant forall k | 0 <= k < i && procs[k].Runnable() :: found && !Before(procs[k], procs[next])
      {
        if procs[i].Runnable() {
          if !found || Before(procs[i], procs[next]) {
            found, next := true, i;
          }
        }
        i := i + 1;
      }
    }
  }

  // The tick does not change the choice.
  lemma ChosenTicked(t: Table, u: Table, k: nat)
    requires |u| == |t| && forall i | 0 <= i < |t| :: u[i] == Ticked(t[i])
    ensures (exists i | 0 <= i < |u| :: u[i].Runnable()) <==> exists i | 0 <= i < |t| :: t[i].Runnable()
    ensures Chosen(u, k) ==> Chosen(t, k)
  {
    if i :| 0 <= i < |t| && t[i].Runnable() {
      assert u[i].Runnable();
    }
    if Chosen(u, k) {
      forall j | 0 <= j < |t| && t[j].Runnable() ensures !Before(t[j], t[k]) {
        assert u[j] == t[j] && u[k] == t[k];
      }
    }
  }

  // The stride of n tickets is 0 exactly when there are more than STRIDE1.
  lemma GlobalStride(n: int)
    requires n > 0
    ensures 0 <= STRIDE1 / n <= STRIDE1 && (STRIDE1 / n == 0 <==> n > STRIDE1)
  {
  }

  // ---- runs -----------------------------------------------------------------------------

  // picks are the processes of successive picks, from t0 to t1.
  ghost predicate Run(t0: Table, picks: seq<nat>, t1: Table)
    decreases |picks|
  {
    if picks == [] then t1 == t0
    else Chosen(t0, picks[0]) && Run(Stepped(t0, picks[0]), picks[1..], t1)
  }

  // Passes have room for n more picks before an int overflows.
  predicate Room(t: Table, n: nat) {
    forall i | 0 <= i < |t| && t[i].Runnable() :: Fit(t[i]) && t[i].pass + n * STRIDE1 < INT_RANGE
  }

  predicate Pair(t: Table, i: nat, j: nat)
    requires i < |t| && j < |t|
  {
    t[i].Runnable() && t[j].Runnable() ==> t[i].pass <= t[j].pass + t[i].stride
  }

  // Nobody is ahead of anybody by more than its own stride.
  predicate Level(t: Table) {
    forall i, j | 0 <= i < |t| && 0 <= j < |t| :: Pair(t, i, j)
  }

  lemma RanExact(t: Table, n: nat, i: nat)
    requires Room(t, n) && n > 0 && i < |t| && t[i].Runnable()
    ensures Ran(t[i]).pass == t[i].pass + t[i].stride && 32 <= t[i].stride <= 1024
  {
    StrideRange(t[i]);
    assert n * STRIDE1 >= STRIDE1;
  }

  lemma PickKeeps(t: Table, n: nat, k: nat)
    requires Room(t, n) && n > 0 && Level(t) && Chosen(t, k)
    ensures var t1 := Stepped(t, k); Room(t1, n - 1) && Level(t1)
  {
    var t1 := Stepped(t, k);
    RanExact(t, n, k);
    assert n * STRIDE1 == (n - 1) * STRIDE1 + STRIDE1;
    forall i, j | 0 <= i < |t1| && 0 <= j < |t1| ensures Pair(t1, i, j) {
      assert Pair(t, i, j);
    }
  }

  // The one thing that unlevels a table: a pass that overflows while somebody waits.
  lemma PickLevelExact(t: Table, k: nat)
    requires Level(t) && Chosen(t, k) && forall i | 0 <= i < |t| && t[i].Runnable() :: Fit(t[i])
    ensures Level(Stepped(t, k)) <==>
      t[k].pass + t[k].stride < INT_RANGE || forall j | 0 <= j < |t| && t[j].Runnable() :: j == k
  {
    var t1 := Stepped(t, k);
    StrideRange(t[k]);
    if t[k].pass + t[k].stride < INT_RANGE {
      forall i, j | 0 <= i < |t1| && 0 <= j < |t1| ensures Pair(t1, i, j) {
        assert Pair(t, i, j);
      }
    } else {
      forall j | 0 <= j < |t| && t[j].Runnable() && j != k ensures !Level(t1) {
        StrideRange(t[j]);
        assert !Before(t[j], t[k]) && !Pair(t1, j, k);
      }
      if forall j | 0 <= j < |t| && t[j].Runnable() :: j == k {
        forall i, j | 0 <= i < |t1| && 0 <= j < |t1| ensures Pair(t1, i, j) {
        }
      }
    }
  }

  // How often process i was picked
  function Times(picks: seq<nat>, i: nat): (n: nat) {
    if picks == [] then 0 else (if picks[0] == i then 1 else 0) + Times(picks[1..], i)
  }

  lemma {:induction false} RunLevel(t0: Table, picks: seq<nat>, t1: Table)
    requires Run(t0, picks, t1) && Room(t0, |picks|) && Level(t0)
    ensures |t1| == |t0| && Level(t1)
    decreases |picks|
  {
    if picks != [] {
      PickKeeps(t0, |picks|, picks[0]);
      RunLevel(Stepped(t0, picks[0]), picks[1..], t1);
    }
  }

  // Process p after it has been picked m times
  predicate Advanced(p: Proc, q: Proc, m: nat) {
    q.pass == p.pass + m * p.stride && q == p.(pass := q.pass, ticks := p.ticks + m)
  }

  lemma AdvancedTwice(p: Proc, q: Proc, r: Proc, a: nat, b: nat)
    requires Advanced(p, q, a) && Advanced(q, r, b)
    ensures Advanced(p, r, a + b)
  {
    assert (a + b) * p.stride == a * p.stride + b * p.stride;
  }

  lemma {:induction false} RunAdvances(t0: Table, picks: seq<nat>, t1: Table, i: nat)
    requires Run(t0, picks, t1) && Room(t0, |picks|) && Level(t0) && i < |t0| && t0[i].Runnable()
    ensures |t1| == |t0| && Advanced(t0[i], t1[i], Times(picks, i))
    decreases |picks|
  {
    if picks != [] {
      var k := picks[0];
      var t := Stepped(t0, k);
      PickKeeps(t0, |picks|, k);
      RanExact(t0, |picks|, k);
      RunAdvances(t, picks[1..], t1, i);
      AdvancedTwice(t0[i], t[i], t1[i], if k == i then 1 else 0, Times(picks[1..], i));
    }
  }

  // After a run: still level, and every pass has grown by its stride per pick.
  lemma RunKeeps(t0: Table, picks: seq<nat>, t1: Table, i: nat)
    requires Run(t0, picks, t1) && Room(t0, |picks|) && Level(t0) && i < |t0| && t0[i].Runnable()
    ensures |t1| == |t0| && Level(t1) && Advanced(t0[i], t1[i], Times(picks, i))
  {
    RunLevel(t0, picks, t1);
    RunAdvances(t0, picks, t1, i);
  }

  // Proportional share: from equal passes, the picks of i and j times their strides
  // differ by at most one stride, over every run.
  lemma ProportionalShare(t0: Table, picks: seq<nat>, t1: Table, i: nat, j: nat)
    requires Run(t0, picks, t1) && Room(t0, |picks|) && i < |t0| && j < |t0| && t0[i].Runnable() && t0[j].Runnable()
    requires forall a, b | 0 <= a < |t0| && 0 <= b < |t0| && t0[a].Runnable() && t0[b].Runnable() ::
      t0[a].pass == t0[b].pass
    ensures Times(picks, i) * t0[i].stride <= Times(picks, j) * t0[j].stride + t0[i].stride
  {
    RunKeeps(t0, picks, t1, i);
    RunKeeps(t0, picks, t1, j);
    assert Pair(t1, i, j);
  }

  // ---- no starvation --------------------------------------------------------------------

  // The picks of the first n slots together
  function TimesSum(picks: seq<nat>, n: nat): (s: nat) {
    if n == 0 then 0 else TimesSum(picks, n - 1) + Times(picks, n - 1)
  }

  lemma {:induction false} TimesSumStep(picks: seq<nat>, n: nat)
    requires picks != []
    ensures TimesSum(picks, n) == TimesSum(picks[1..], n) + if picks[0] < n then 1 else 0
  {
    if n > 0 {
      TimesSumStep(picks, n - 1);
    }
  }

  lemma {:induction false} TimesSumAll(t0: Table, picks: seq<nat>, t1: Table)
    requires Run(t0, picks, t1)
    ensures TimesSum(picks, |t0|) == |picks|
    decreases |picks|
  {
    if picks == [] {
      TimesSumNone(|t0|);
    } else {
      TimesSumStep(picks, |t0|);
      TimesSumAll(Stepped(t0, picks[0]), picks[1..], t1);
    }
  }

  lemma {:induction false} TimesSumNone(n: nat)
    ensures TimesSum([], n) == 0
  {
    if n > 0 {
      TimesSumNone(n - 1);
    }
  }

  // The sum over the first n slots of stride_j / stride_i + 1
  function WaitBound(t: Table, j: nat, n: nat): (b: nat)
    requires n <= |t| && j < |t| && forall i | 0 <= i < n && t[i].Runnable() :: t[i].stride > 0
  {
    if n == 0 then 0 else WaitBound(t, j, n - 1) + if t[n - 1].Runnable() then t[j].stride / t[n - 1].stride + 1 else 0
  }

  // While j is not picked, what i gains is at most stride_i + stride_j.
  lemma GainOf(t0: Table, picks: seq<nat>, t1: Table, i: nat, j: nat)
    requires Run(t0, picks, t1) && Room(t0, |picks|) && Level(t0)
    requires i < |t0| && j < |t0| && t0[i].Runnable() && t0[j].Runnable() && Times(picks, j) == 0
    ensures Times(picks, i) * t0[i].stride <= t0[i].stride + t0[j].stride
  {
    RunKeeps(t0, picks, t1, i);
    RunKeeps(t0, picks, t1, j);
    assert Pair(t1, i, j) && Pair(t0, j, i);
  }

  // So i is picked at most stride_j / stride_i + 1 times.
  lemma TurnsOf(t0: Table, picks: seq<nat>, t1: Table, i: nat, j: nat)
    requires Run(t0, picks, t1) && Room(t0, |picks|) && Level(t0)
    requires i < |t0| && j < |t0| && t0[i].Runnable() && t0[j].Runnable() && Times(picks, j) == 0 && t0[i].stride > 0
    ensures Times(picks, i) <= t0[j].stride / t0[i].stride + 1
  {
    GainOf(t0, picks, t1, i, j);
    Quotient(Times(picks, i), t0[i].stride, t0[j].stride);
  }

  lemma Quotient(m: nat, s: nat, sj: nat)
    requires s > 0 && m * s <= s + sj
    ensures m <= sj / s + 1
  {
    if m > 0 {
      assert (m - 1) * s == m * s - s;
      assert sj == sj / s * s + sj % s;
      MulLe(sj / s + 1, m - 1, s);
      assert (sj / s + 1) * s == sj / s * s + s;
    }
  }

  lemma MulLe(a: nat, b: nat, s: nat)
    ensures a <= b ==> a * s <= b * s
  {
  }

  lemma {:induction false} NotPicked(t0: Table, picks: seq<nat>, t1: Table, i: nat)
    requires Run(t0, picks, t1) && i < |t0| && !t0[i].Runnable()
    ensures Times(picks, i) == 0
    decreases |picks|
  {
    if picks != [] {
      NotPicked(Stepped(t0, picks[0]), picks[1..], t1, i);
    }
  }

  lemma {:induction false} WaitSum(t0: Table, picks: seq<nat>, t1: Table, j: nat, n: nat)
    requires Run(t0, picks, t1) && Room(t0, |picks|) && Level(t0) && j < |t0| && t0[j].Runnable()
    requires Times(picks, j) == 0 && n <= |t0|
    requires forall i | 0 <= i < |t0| && t0[i].Runnable() :: t0[i].stride > 0
    ensures TimesSum(picks, n) + (if j < n then 2 else 0) <= WaitBound(t0, j, n)
  {
    if n > 0 {
      WaitSum(t0, picks, t1, j, n - 1);
      if !t0[n - 1].Runnable() {
        NotPicked(t0, picks, t1, n - 1);
      } else if n - 1 != j {
        TurnsOf(t0, picks, t1, n - 1, j);
      }
    }
  }

  // A runnable process is picked within the sum over all runnable i of
  // stride_j / stride_i + 1 picks.
  lemma NoStarvation(t0: Table, picks: seq<nat>, t1: Table, j: nat)
    requires Run(t0, picks, t1) && Room(t0, |picks|) && Level(t0) && j < |t0| && t0[j].Runnable()
    requires forall i | 0 <= i < |t0| && t0[i].Runnable() :: t0[i].stride > 0
    requires |picks| >= WaitBound(t0, j, |t0|)
    ensures j in picks
  {
    if Times(picks, j) == 0 {
      WaitSum(t0, picks, t1, j, |t0|);
      TimesSumAll(t0, picks, t1);
    }
    Counts(picks, j);
  }

  lemma {:induction false} Counts(picks: seq<nat>, j: nat)
    ensures Times(picks, j) > 0 <==> j in picks
  {
    if picks != [] {
      Counts(picks[1..], j);
      assert picks == [picks[0]] + picks[1..];
    }
  }
}
