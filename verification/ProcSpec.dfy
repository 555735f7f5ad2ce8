// The process table of proc.c and what is true of it whenever ptable.lock is free.
module ProcSpec {
  import opened Util

  const NPROC: nat := 64

  datatype Pstate = UNUSED | EMBRYO | SLEEPING | RUNNABLE | RUNNING | ZOMBIE

  // A sleep channel is an address; wait uses the address of the sleeper's own slot.
  datatype Chan = NoChan | OfProc(p: nat) | Other(addr: nat)

  // Pointers to processes are slot numbers.
  datatype Proc = Proc(state: Pstate, pid: int, parent: Option<nat>, chan: Chan, killed: bool)

  type Table = seq<Proc>

  // The C int that pids are
  const MAXPID: int := 0x7fff_ffff
  type Int = x: int | -MAXPID - 1 <= x <= MAXPID

  // nextpid++
  function NextPid(p: Int): (q: Int) {
    if p == MAXPID then -MAXPID - 1 else p + 1
  }

  // The value of a counter that starts at 0, after n increments
  function Wrap(n: nat): (p: Int) {
    (n + MAXPID + 1) % (2 * MAXPID + 2) - MAXPID - 1
  }

  // What has happened so far, for the invariant. birth[i] numbers the allocproc call that last
  // claimed slot i, and next will number the next one; the pids are these numbers as C ints.
  // maker[np] is the process in the middle of a fork of slot np. exited are the processes that
  // have exited, reaped those that a wait has returned, both by birth.
  datatype History = History(birth: seq<nat>, next: nat, maker: map<nat, nat>, exited: set<nat>, reaped: set<nat>)

  predicate Live(p: Proc) {
    p.state.SLEEPING? || p.state.RUNNABLE? || p.state.RUNNING?
  }

  predicate Started(p: Proc) {
    Live(p) || p.state.ZOMBIE?
  }

  // ---- the invariant ------------------------------------------------------------------

  // A started process other than init has a live parent, born before it.
  ghost predicate ParentOk(t: Table, birth: seq<nat>, init: nat, i: nat)
    requires i < |t| == |birth|
  {
    Started(t[i]) && i != init ==>
      t[i].parent.Some? && t[i].parent.value < |t| && Live(t[t[i].parent.value]) && birth[t[i].parent.value] < birth[i]
  }

  ghost predicate EmbryoOk(t: Table, birth: seq<nat>, maker: map<nat, nat>, i: nat)
    requires i < |t| == |birth|
  {
    t[i].state.EMBRYO? ==>
      && i in maker && maker[i] < |t| && (t[maker[i]].state.RUNNING? || t[maker[i]].state.RUNNABLE?)
      && birth[maker[i]] < birth[i] && (t[i].parent == None || t[i].parent == Some(maker[i]))
  }

  ghost predicate UnusedOk(t: Table, maker: map<nat, nat>, i: nat)
    requires i < |t|
  {
    && (t[i].state.UNUSED? ==> t[i].parent == None)
    && (i in maker ==> t[i].state.EMBRYO?)
  }

  ghost predicate InitOk(t: Table, birth: seq<nat>, init: nat, i: nat)
    requires i < |t| == |birth| && init < |t|
  {
    if i == init then Live(t[i]) && t[i].parent == None
    else !t[i].state.UNUSED? ==> birth[init] < birth[i]
  }

  // The birth of a slot in use is in no other slot; its pid is that number.
  ghost predicate PidOk(t: Table, birth: seq<nat>, next: nat, i: nat)
    requires i < |t| == |birth|
  {
    && t[i].pid == Wrap(birth[i]) && birth[i] < next && (!t[i].state.UNUSED? ==> 0 < birth[i])
    && forall j | 0 <= j < |t| && j != i && !t[i].state.UNUSED? :: birth[j] != birth[i]
  }

  // Who sleeps in wait has no zombie child.
  ghost predicate SleepOk(t: Table, i: nat)
    requires i < |t|
  {
    t[i].state.SLEEPING? && t[i].chan.OfProc? ==>
      t[i].chan.p == i && forall j | 0 <= j < |t| && t[j].state.ZOMBIE? :: t[j].parent != Some(i)
  }

  ghost predicate ReapOk(t: Table, h: History, i: nat)
    requires i < |t| == |h.birth|
  {
    !t[i].state.UNUSED? ==> h.birth[i] !in h.reaped && (t[i].state.ZOMBIE? <==> h.birth[i] in h.exited)
  }

  ghost predicate ZombieOf(t: Table, birth: seq<nat>, q: nat, i: nat) {
    i < |t| == |birth| && t[i].state.ZOMBIE? && birth[i] == q
  }

  ghost predicate Counted(t: Table, h: History) {
    && h.reaped <= h.exited && (forall q | q in h.exited :: q < h.next)
    && (forall q | q in h.exited && q !in h.reaped :: exists i :: ZombieOf(t, h.birth, q, i))
  }

  ghost predicate SlotOk(t: Table, init: nat, h: History, i: nat)
    requires i < |t| == |h.birth| && init < |t|
  {
    && ParentOk(t, h.birth, init, i) && EmbryoOk(t, h.birth, h.maker, i) && UnusedOk(t, h.maker, i)
    && InitOk(t, h.birth, init, i) && PidOk(t, h.birth, h.next, i) && SleepOk(t, i) && ReapOk(t, h, i)
  }

  ghost predicate Inv(t: Table, init: nat, h: History) {
    && |t| == NPROC && |h.birth| == NPROC && init < |t| && 0 < h.next && (forall k | k in h.maker :: k < |t|)
    && Counted(t, h) && forall i | 0 <= i < |t| :: SlotOk(t, init, h, i)
  }

  // The process cur is executing, and not in the middle of fork.
  ghost predicate Executing(t: Table, h: History, cur: nat) {
    cur < |t| && t[cur].state.RUNNING? && cur !in h.maker.Values
  }

  // ---- the tree -----------------------------------------------------------------------

  // The process that following parent pointers ends at
  ghost function Root(t: Table, birth: seq<nat>, init: nat, i: nat): (r: nat)
    requires |birth| == |t| && init < |t| && i < |t| && Started(t[i])
    requires forall k | 0 <= k < |t| :: ParentOk(t, birth, init, k)
    ensures r == init
    decreases birth[i]
  {
    if i == init then i
    else
      assert ParentOk(t, birth, init, i);
      Root(t, birth, init, t[i].parent.value)
  }

  // ---- pids ---------------------------------------------------------------------------

  // As long as the counter has not come round, a pid in use is in no other slot.
  ghost predicate Clear(t: Table) {
    forall i, j | 0 <= i < |t| && 0 <= j < |t| && i != j && !t[i].state.UNUSED? :: t[i].pid != t[j].pid
  }

  lemma WrapNext(n: nat)
    ensures Wrap(n + 1) == NextPid(Wrap(n))
  {
  }

  // How often the counter has overflowed by then
  function Turn(n: nat): (k: nat) {
    (n + MAXPID + 1) / (2 * MAXPID + 2)
  }

  // Of two births less than a turn of the counter apart, the later has the greater pid exactly
  // if the counter has not overflowed in between.
  lemma WrapOrder(a: nat, b: nat)
    requires a < b < a + 2 * (MAXPID + 1)
    ensures Wrap(a) != Wrap(b)
    ensures Wrap(a) < Wrap(b) <==> Turn(a) == Turn(b)
  {
  }

  lemma ClearUntil(t: Table, init: nat, h: History)
    requires Inv(t, init, h) && h.next <= 2 * (MAXPID + 1)
    ensures Clear(t)
  {
    forall i, j | 0 <= i < |t| && 0 <= j < |t| && i != j && !t[i].state.UNUSED? ensures t[i].pid != t[j].pid {
      assert SlotOk(t, init, h, i) && SlotOk(t, init, h, j);
      if h.birth[i] < h.birth[j] {
        WrapOrder(h.birth[i], h.birth[j]);
      } else {
        WrapOrder(h.birth[j], h.birth[i]);
      }
    }
  }

  // A slot is claimed with pid p.
  lemma ClearClaim(t: Table, np: nat, p: int)
    requires np < |t| && t[np].state.UNUSED? && Clear(t)
    ensures Clear(t[np := t[np].(state := EMBRYO, pid := p)]) <==>
      forall i | 0 <= i < |t| && i != np :: t[i].pid != p
  {
    var t1 := t[np := t[np].(state := EMBRYO, pid := p)];
    if Clear(t1) {
      forall i | 0 <= i < |t| && i != np ensures t[i].pid != p {
        assert t1[np].pid != t1[i].pid;
      }
    }
  }

  // init's child made by the allocproc call number n
  function TwoProcs(n: nat): (t: Table) {
    [Proc(RUNNING, 1, None, NoChan, false), Proc(RUNNABLE, Wrap(n), Some(0), NoChan, false)] +
    seq(NPROC - 2, _ => Proc(UNUSED, 0, None, NoChan, false))
  }

  function TwoHistory(n: nat): (h: History)
    requires n > 1
  {
    History([1, n] + seq(NPROC - 2, _ => 0), n + 1, map[], Interval(2, n - 2), Interval(2, n - 2))
  }

  // Any later pid can be that of a first child whose elder siblings have all been reaped: the
  // tree is as sound as ever,
  lemma TwoSound(n: nat)
    requires n > 1
    ensures Inv(TwoProcs(n), 0, TwoHistory(n))
  {
    var t, h := TwoProcs(n), TwoHistory(n);
    forall i | 0 <= i < |t| ensures SlotOk(t, 0, h, i) {
    }
  }

  // but the pids need not be: after 2^31 - 1 forks the child's pid is negative and less than
  // its parent's, after 2^32 - 2 it is fork's -1, and after 2^32 it is init's.
  lemma PidsWrap()
    ensures TwoProcs(MAXPID + 1)[1].pid == -MAXPID - 1 && TwoProcs(2 * MAXPID + 1)[1].pid == -1
    ensures TwoProcs(2 * MAXPID + 3)[1].pid == 1 && !Clear(TwoProcs(2 * MAXPID + 3))
  {
    var t := TwoProcs(2 * MAXPID + 3);
    assert t[1].pid == t[0].pid;
  }

  // ---- what the table scans compute -----------------------------------------------------

  // wakeup1
  function WokenProc(p: Proc, c: Chan): (r: Proc) {
    if p.state.SLEEPING? && p.chan == c then p.(state := RUNNABLE) else p
  }

  function Woken(t: Table, c: Chan): (r: Table)
    ensures |r| == |t| && forall i | 0 <= i < |t| :: r[i] == WokenProc(t[i], c)
  {
    seq(|t|, i requires 0 <= i < |t| => WokenProc(t[i], c))
  }

  // exit's scan, up to slot n: cur's children go to init, which is woken if one is a zombie.
  predicate ZombieChild(t: Table, cur: nat, n: nat) {
    exists i | 0 <= i < n && i < |t| :: t[i].parent == Some(cur) && t[i].state.ZOMBIE?
  }

  function Adopted(p: Proc, cur: nat, init: nat): (r: Proc) {
    if p.parent == Some(cur) then p.(parent := Some(init)) else p
  }

  function ScannedProc(t: Table, cur: nat, init: nat, n: nat, i: nat): (r: Proc)
    requires i < |t|
  {
    var p := if i < n then Adopted(t[i], cur, init) else t[i];
    if ZombieChild(t, cur, n) then WokenProc(p, OfProc(init)) else p
  }

  function Reparented(t: Table, cur: nat, init: nat, n: nat): (r: Table)
    ensures |r| == |t| && forall i | 0 <= i < |t| :: r[i] == ScannedProc(t, cur, init, n, i)
  {
    seq(|t|, i requires 0 <= i < |t| => ScannedProc(t, cur, init, n, i))
  }

  // ---- steps ------------------------------------------------------------------------------

  // Waking sleepers, killing, and rescheduling: only state, chan and killed change,
  // between live states, and nobody falls asleep.
  ghost predicate Stirred(p: Proc, q: Proc) {
    && q.pid == p.pid && q.parent == p.parent
    && (if Live(p) then Live(q) && (q.state.SLEEPING? ==> p.state.SLEEPING? && q.chan == p.chan)
        else q.state == p.state)
  }

  lemma StirKeeps(t: Table, t1: Table, init: nat, h: History)
    requires Inv(t, init, h) && |t1| == |t| && forall i | 0 <= i < |t| :: Stirred(t[i], t1[i])
    ensures Inv(t1, init, h)
  {
    StillCounted(t, t1, h);
    forall i | 0 <= i < |t1| ensures SlotOk(t1, init, h, i) {
      assert SlotOk(t, init, h, i);
    }
  }

  // Zombies stay in the table when no started process leaves it.
  lemma StillCounted(t: Table, t1: Table, h: History)
    requires Counted(t, h) && |t1| == |t|
    requires forall i | 0 <= i < |t| && t[i].state.ZOMBIE? :: t1[i].state.ZOMBIE?
    ensures Counted(t1, h)
  {
    forall q | q in h.exited && q !in h.reaped ensures exists i :: ZombieOf(t1, h.birth, q, i) {
      var i :| ZombieOf(t, h.birth, q, i);
      assert ZombieOf(t1, h.birth, q, i);
    }
  }

  // allocproc claims slot np for cur.
  function Allocated(h: History, cur: nat, np: nat): (h1: History)
    requires np < |h.birth|
  {
    h.(birth := h.birth[np := h.next], next := h.next + 1, maker := h.maker[np := cur])
  }

  lemma AllocKeeps(t: Table, init: nat, h: History, cur: nat, np: nat, t1: Table)
    requires Inv(t, init, h) && cur < |t| && t[cur].state.RUNNING? && np < |t| && t[np].state.UNUSED?
    requires t1 == t[np := t[np].(state := EMBRYO, pid := Wrap(h.next))]
    ensures Inv(t1, init, Allocated(h, cur, np))
  {
    var h1 := Allocated(h, cur, np);
    forall i | 0 <= i < |t| ensures h.birth[i] < h.next {
      assert SlotOk(t, init, h, i);
    }
    assert SlotOk(t, init, h, np) && SlotOk(t, init, h, init) && SlotOk(t, init, h, cur);
    forall q | q in h1.exited && q !in h1.reaped ensures exists i :: ZombieOf(t1, h1.birth, q, i) {
      var i :| ZombieOf(t, h.birth, q, i);
      assert ZombieOf(t1, h1.birth, q, i);
    }
    forall i | 0 <= i < |t1| ensures SlotOk(t1, init, h1, i) {
      assert SlotOk(t, init, h, i);
    }
  }

  // fork fails: slot np is given up.
  lemma AbortKeeps(t: Table, init: nat, h: History, np: nat, t1: Table)
    requires Inv(t, init, h) && np < |t| && t[np].state.EMBRYO? && t[np].parent == None
    requires t1 == t[np := t[np].(state := UNUSED)]
    ensures Inv(t1, init, h.(maker := h.maker - {np}))
  {
    var h1 := h.(maker := h.maker - {np});
    StillCounted(t, t1, h);
    forall i | 0 <= i < |t1| ensures SlotOk(t1, init, h1, i) {
      assert SlotOk(t, init, h, i);
    }
  }

  // np->parent = curproc
  lemma LinkKeeps(t: Table, init: nat, h: History, np: nat, t1: Table)
    requires Inv(t, init, h) && np < |t| && t[np].state.EMBRYO? && np in h.maker
    requires t1 == t[np := t[np].(parent := Some(h.maker[np]))]
    ensures Inv(t1, init, h)
  {
    StillCounted(t, t1, h);
    forall i | 0 <= i < |t1| ensures SlotOk(t1, init, h, i) {
      assert SlotOk(t, init, h, i);
    }
  }

  // np->state = RUNNABLE
  lemma StartKeeps(t: Table, init: nat, h: History, np: nat, t1: Table)
    requires Inv(t, init, h) && np < |t| && t[np].state.EMBRYO? && t[np].parent.Some?
    requires t1 == t[np := t[np].(state := RUNNABLE)]
    ensures Inv(t1, init, h.(maker := h.maker - {np}))
    ensures np != init && t[np].parent.value < |t| && ParentOk(t1, h.birth, init, np)
  {
    var h1 := h.(maker := h.maker - {np});
    StillCounted(t, t1, h);
    assert SlotOk(t, init, h, np) && SlotOk(t, init, h, init);
    forall i | 0 <= i < |t1| ensures SlotOk(t1, init, h1, i) {
      assert SlotOk(t, init, h, i);
    }
  }

  // cur goes to sleep: in wait only when no child is a zombie, and never in fork.
  lemma SleepKeeps(t: Table, init: nat, h: History, cur: nat, c: Chan, t1: Table)
    requires Inv(t, init, h) && Executing(t, h, cur)
    requires c.OfProc? ==> c.p == cur && !ZombieChild(t, cur, |t|)
    requires t1 == t[cur := t[cur].(state := SLEEPING, chan := c)]
    ensures Inv(t1, init, h)
  {
    StillCounted(t, t1, h);
    forall i | 0 <= i < |t1| ensures SlotOk(t1, init, h, i) {
      assert SlotOk(t, init, h, i);
    }
  }

  // What exit does to the table
  function Exited(t: Table, cur: nat, init: nat): (r: Table)
    requires cur < |t| && t[cur].parent.Some?
    ensures |r| == |t|
  {
    var t2 := Reparented(Woken(t, OfProc(t[cur].parent.value)), cur, init, |t|);
    t2[cur := t2[cur].(state := ZOMBIE)]
  }

  function Died(h: History, cur: nat): (h1: History)
    requires cur < |h.birth|
  {
    h.(exited := h.exited + {h.birth[cur]})
  }

  // Slot i before and after
  ghost predicate ExitedSlot(t: Table, t1: Table, init: nat, cur: nat, i: nat)
    requires i < |t| == |t1| && cur < |t|
  {
    var p, q := t[i], t1[i];
    && q.pid == p.pid && q.parent == (if p.parent == Some(cur) then Some(init) else p.parent)
    && (i == cur ==> q.state.ZOMBIE?)
    && (i != cur && !Live(p) ==> q.state == p.state)
    && (i != cur && Live(p) ==> Live(q) && (q.state.SLEEPING? ==> p.state.SLEEPING? && q.chan == p.chan))
    && (q.state.SLEEPING? && q.chan == OfProc(i) ==>
        t[cur].parent != Some(i) && (i == init ==> !ZombieChild(t, cur, |t|)))
  }

  lemma ExitSlot(t: Table, init: nat, h: History, cur: nat, i: nat)
    requires Inv(t, init, h) && Executing(t, h, cur) && cur != init && i < |t|
    ensures t[cur].parent.Some? && ExitedSlot(t, Exited(t, cur, init), init, cur, i)
  {
    assert SlotOk(t, init, h, cur);
    var t1 := Woken(t, OfProc(t[cur].parent.value));
    if ZombieChild(t, cur, |t|) {
      var j :| 0 <= j < |t| && t[j].parent == Some(cur) && t[j].state.ZOMBIE?;
      assert t1[j].parent == Some(cur) && t1[j].state.ZOMBIE?;
    }
  }

  lemma ExitSlotKeeps(t: Table, init: nat, h: History, cur: nat, t1: Table, i: nat)
    requires Inv(t, init, h) && Executing(t, h, cur) && cur != init
    requires |t1| == |t| && i < |t| && forall k | 0 <= k < |t| :: ExitedSlot(t, t1, init, cur, k)
    ensures SlotOk(t1, init, Died(h, cur), i)
  {
    assert SlotOk(t, init, h, cur) && SlotOk(t, init, h, init);
    assert SlotOk(t, init, h, i) && ExitedSlot(t, t1, init, cur, i) && ExitedSlot(t, t1, init, cur, init);
    assert t[i].parent.Some? && t[i].parent.value < |t| ==> ExitedSlot(t, t1, init, cur, t[i].parent.value);
    assert i in h.maker && h.maker[i] < |t| ==> ExitedSlot(t, t1, init, cur, h.maker[i]);
    if t1[i].state.SLEEPING? && t1[i].chan.OfProc? {
      forall j | 0 <= j < |t| && t1[j].state.ZOMBIE? ensures t1[j].parent != Some(i) {
        assert ExitedSlot(t, t1, init, cur, j);
      }
    }
  }

  lemma ExitKeeps(t: Table, init: nat, h: History, cur: nat, t1: Table)
    requires Inv(t, init, h) && Executing(t, h, cur) && cur != init
    requires t[cur].parent.Some? && t1 == Exited(t, cur, init)
    ensures Inv(t1, init, Died(h, cur)) && h.birth[cur] !in h.exited
  {
    var h1 := Died(h, cur);
    assert SlotOk(t, init, h, cur);
    forall i | 0 <= i < |t| ensures ExitedSlot(t, t1, init, cur, i) {
      ExitSlot(t, init, h, cur, i);
    }
    forall q | q in h1.exited && q !in h1.reaped ensures exists i :: ZombieOf(t1, h.birth, q, i) {
      if q == h.birth[cur] {
        assert ExitedSlot(t, t1, init, cur, cur);
        assert ZombieOf(t1, h.birth, q, cur);
      } else {
        var i :| ZombieOf(t, h.birth, q, i);
        assert ExitedSlot(t, t1, init, cur, i);
        assert ZombieOf(t1, h.birth, q, i);
      }
    }
    forall i | 0 <= i < |t1| ensures SlotOk(t1, init, h1, i) {
      ExitSlotKeeps(t, init, h, cur, t1, i);
    }
  }

  // Who wakes up in exit: the parent, if it sleeps in wait, and init, if it is given a zombie.
  lemma ExitedAll(t: Table, init: nat, h: History, cur: nat)
    requires Inv(t, init, h) && Executing(t, h, cur) && cur != init
    ensures t[cur].parent.Some?
    ensures forall i | 0 <= i < |t| ::
      ExitedTo(t[i], Exited(t, cur, init)[i], t[cur].parent.value, init, cur, i == cur, ZombieChild(t, cur, |t|))
  {
    assert SlotOk(t, init, h, cur);
    var t1 := Woken(t, OfProc(t[cur].parent.value));
    forall i | 0 <= i < |t| ensures t1[i].parent == t[i].parent && (t1[i].state.ZOMBIE? <==> t[i].state.ZOMBIE?) {
      assert t1[i] == WokenProc(t[i], OfProc(t[cur].parent.value));
    }
    SameZombies(t, t1, cur);
  }

  lemma SameZombies(t: Table, t1: Table, cur: nat)
    requires |t1| == |t|
    requires forall i | 0 <= i < |t| :: t1[i].parent == t[i].parent && (t1[i].state.ZOMBIE? <==> t[i].state.ZOMBIE?)
    ensures ZombieChild(t1, cur, |t|) <==> ZombieChild(t, cur, |t|)
  {
    if ZombieChild(t, cur, |t|) {
      var j :| 0 <= j < |t| && t[j].parent == Some(cur) && t[j].state.ZOMBIE?;
      assert t1[j].parent == Some(cur) && t1[j].state.ZOMBIE?;
    }
  }

  ghost predicate ExitedTo(p: Proc, q: Proc, parent: nat, init: nat, cur: nat, self: bool, zombie: bool) {
    && q.pid == p.pid && q.chan == p.chan && q.killed == p.killed
    && q.parent == (if p.parent == Some(cur) then Some(init) else p.parent)
    && q.state == if self then ZOMBIE
      else if p.state.SLEEPING? && (p.chan == OfProc(parent) || (p.chan == OfProc(init) && zombie)) then RUNNABLE
      else p.state
  }

  // wait frees its zombie child j.
  function Buried(h: History, j: nat): (h1: History)
    requires j < |h.birth|
  {
    h.(birth := h.birth[j := 0], reaped := h.reaped + {h.birth[j]})
  }

  lemma ReapKeeps(t: Table, init: nat, h: History, j: nat, t1: Table)
    requires Inv(t, init, h) && j < |t| && t[j].state.ZOMBIE?
    requires t1 == t[j := t[j].(state := UNUSED, pid := 0, parent := None, killed := false)]
    ensures Inv(t1, init, Buried(h, j))
    ensures h.birth[j] in h.exited && h.birth[j] !in h.reaped && t[j].pid == Wrap(h.birth[j])
  {
    var h1 := Buried(h, j);
    assert SlotOk(t, init, h, j) && SlotOk(t, init, h, init);
    forall q | q in h1.exited && q !in h1.reaped ensures exists i :: ZombieOf(t1, h1.birth, q, i) {
      var i :| ZombieOf(t, h.birth, q, i);
      assert ZombieOf(t1, h1.birth, q, i);
    }
    forall i | 0 <= i < |t1| ensures SlotOk(t1, init, h1, i) {
      assert SlotOk(t, init, h, i);
    }
  }

  lemma InMaker(t: Table, init: nat, h: History, np: nat)
    requires Inv(t, init, h) && np in h.maker
    ensures np < |t| && t[np].state.EMBRYO?
  {
    assert SlotOk(t, init, h, np);
  }

  // cur's first zombie child, of this pid, has been freed.
  ghost predicate ReapedSlot(t: Table, t1: Table, cur: nat, pid: int) {
    exists j | 0 <= j < |t| ::
      && t[j].parent == Some(cur) && t[j].state.ZOMBIE? && t[j].pid == pid && !ZombieChild(t, cur, j)
      && t1 == t[j := t[j].(state := UNUSED, pid := 0, parent := None, killed := false)]
  }

  // One turn of exit's scan
  lemma ScanStep(t: Table, cur: nat, init: nat, i: nat)
    requires i < |t| && cur != init
    ensures ZombieChild(t, cur, i + 1) <==> ZombieChild(t, cur, i) || (t[i].parent == Some(cur) && t[i].state.ZOMBIE?)
  {
    if ZombieChild(t, cur, i + 1) {
      var k :| 0 <= k < i + 1 && k < |t| && t[k].parent == Some(cur) && t[k].state.ZOMBIE?;
      assert k < i || k == i;
    }
  }
}
