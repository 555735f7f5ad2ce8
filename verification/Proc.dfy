// proc.c: processes as slots of a table, each method one section under ptable.lock
// (or, in the middle of fork, one unlocked store).
module Proc {
  import opened Util
  import opened ProcSpec

  datatype Waited = Reaped(pid: int) | Failed | Slept

  class Ptable {
    const init: nat              // initproc
    var procs: Table
    var nextpid: Int
    ghost var h: History

    ghost predicate Valid()
      reads this
    {
      Inv(procs, init, h) && nextpid == Wrap(h.next)
    }

    // A slot that is not in use does not look killed.
    ghost predicate Fresh()
      reads this
    {
      forall i | 0 <= i < |procs| && procs[i].state.UNUSED? :: !procs[i].killed
    }

    // After userinit: only the first process
    constructor ()
      ensures Valid() && Fresh() && Clear(procs) && init == 0 && nextpid == h.next == 2 && h.maker == map[]
      ensures procs[0] == Proc(RUNNABLE, 1, None, NoChan, false)
      ensures forall i | 0 < i < NPROC :: procs[i] == Proc(UNUSED, 0, None, NoChan, false)
    {
      init := 0;
      var unused := Proc(UNUSED, 0, None, NoChan, false);
      procs := seq(NPROC, i => if i == 0 then Proc(RUNNABLE, 1, None, NoChan, false) else unused);
      nextpid := 2;
      h := History(seq(NPROC, i => if i == 0 then 1 else 0), 2, map[], {}, {});
      new;
      assert forall i | 0 <= i < NPROC :: SlotOk(procs, 0, h, i);
    }

    // wakeup1: every sleeper on c, and nobody else
    method Wakeup1(c: Chan)
      modifies this`procs
      ensures procs == Woken(old(procs), c)
      ensures |procs| == |old(procs)|
      ensures forall i | 0 <= i < |procs| && old(procs)[i].state.SLEEPING? && old(procs)[i].chan == c ::
        procs[i] == old(procs)[i].(state := RUNNABLE)
      ensures forall i | 0 <= i < |procs| && !(old(procs)[i].state.SLEEPING? && old(procs)[i].chan == c) ::
        procs[i] == old(procs)[i]
    {
      var i := 0;
      while i < |procs|
        invariant 0 <= i <= |procs| == |old(procs)|
        invariant forall k | 0 <= k < |procs| ::
          procs[k] == if k < i then WokenProc(old(procs)[k], c) else old(procs)[k]
      {
        if procs[i].state.SLEEPING? && procs[i].chan == c {
          procs := procs[i := procs[i].(state := RUNNABLE)];
        }
        i := i + 1;
      }
    }

    // wakeup
    method Wakeup(c: Chan)
      requires Valid()
      modifies this`procs
      ensures Valid()
      ensures |procs| == |old(procs)|
      ensures forall i | 0 <= i < |procs| && old(procs)[i].state.SLEEPING? && old(procs)[i].chan == c ::
        procs[i] == old(procs)[i].(state := RUNNABLE)
      ensures forall i | 0 <= i < |procs| && !(old(procs)[i].state.SLEEPING? && old(procs)[i].chan == c) ::
        procs[i] == old(procs)[i]
    {
      Wakeup1(c);
      StirKeeps(old(procs), procs, init, h);
    }

    // kill: the first slot with this pid. A sleeper wakes; any other state stays. While pids are
    // clear, a process in use is found by its own.
    method Kill(pid: int) returns (r: int, ghost slot: nat)
      requires Valid()
      modifies this`procs
      ensures Valid() && (r == -1 || r == 0)
      ensures r == -1 <==> forall i | 0 <= i < NPROC :: old(procs)[i].pid != pid
      ensures r == -1 ==> procs == old(procs)
      ensures r == 0 ==> slot < NPROC && old(procs)[slot].pid == pid
      ensures r == 0 ==> forall i | 0 <= i < slot :: old(procs)[i].pid != pid
      ensures r == 0 ==> |procs| == NPROC && procs == old(procs)[slot := procs[slot]]
      ensures r == 0 ==> procs[slot].killed && !procs[slot].state.SLEEPING?
      ensures r == 0 && old(procs)[slot].state.SLEEPING? ==> procs[slot].state.RUNNABLE?
      ensures r == 0 && !old(procs)[slot].state.SLEEPING? ==> procs[slot].state == old(procs)[slot].state
      ensures r == 0 ==> procs[slot].pid == pid && procs[slot].parent == old(procs)[slot].parent
      ensures r == 0 ==> procs[slot].chan == old(procs)[slot].chan
      ensures old(Clear(procs)) ==>
        forall i | 0 <= i < NPROC && !old(procs)[i].state.UNUSED? && old(procs)[i].pid == pid ::
        r == 0 && slot == i
      ensures old(Fresh()) ==> (Fresh() <==> r == -1 || !old(procs)[slot].state.UNUSED?)
      ensures old(Fresh() && Clear(procs)) ==>
        (Fresh() <==> !exists i | 0 <= i < NPROC :: old(procs)[i].state.UNUSED? && old(procs)[i].pid == pid)
    {
      var i := 0;
      while i < NPROC
        invariant 0 <= i <= NPROC && procs == old(procs) && forall k | 0 <= k < i :: procs[k].pid != pid
      {
        if procs[i].pid == pid {
          procs := procs[i := procs[i].(killed := true)];
          if procs[i].state.SLEEPING? {
            procs := procs[i := procs[i].(state := RUNNABLE)];
          }
          StirKeeps(old(procs), procs, init, h);
          return 0, i;
        }
        i := i + 1;
      }
      r, slot := -1, NPROC;
    }

    // scheduler's scan from slot p on, up to the switch: the first runnable process gets the
    // processor. What sleep does on return, p->chan = 0, is part of the same locked section.
    method Schedule(p: nat) returns (next: Option<nat>)
      requires Valid() && p <= NPROC
      modifies this`procs
      ensures Valid()
      ensures next == None <==> forall i | p <= i < NPROC :: !old(procs)[i].state.RUNNABLE?
      ensures next == None ==> procs == old(procs)
      ensures next.Some? ==> p <= next.value < NPROC && old(procs)[next.value].state.RUNNABLE?
      ensures next.Some? ==> forall i | p <= i < next.value :: !old(procs)[i].state.RUNNABLE?
      ensures next.Some? ==>
        procs == old(procs)[next.value := old(procs)[next.value].(state := RUNNING, chan := NoChan)]
    {
      var i := p;
      while i < NPROC
        invariant p <= i <= NPROC && procs == old(procs) && forall k | p <= k < i :: !procs[k].state.RUNNABLE?
      {
        if procs[i].state.RUNNABLE? {
          procs := procs[i := procs[i].(state := RUNNING, chan := NoChan)];
          StirKeeps(old(procs), procs, init, h);
          return Some(i);
        }
        i := i + 1;
      }
      next := None;
    }

    // yield; a process in the middle of fork may be preempted.
    method Yield(cur: nat)
      requires Valid() && cur < NPROC && procs[cur].state.RUNNING?
      modifies this`procs
      ensures Valid() && procs == old(procs)[cur := old(procs)[cur].(state := RUNNABLE)]
    {
      procs := procs[cur := procs[cur].(state := RUNNABLE)];
      StirKeeps(old(procs), procs, init, h);
    }

    // sleep on a channel that is not a process
    method Sleep(cur: nat, addr: nat)
      requires Valid() && Executing(procs, h, cur)
      modifies this`procs
      ensures Valid() && procs == old(procs)[cur := old(procs)[cur].(state := SLEEPING, chan := Other(addr))]
    {
      procs := procs[cur := procs[cur].(state := SLEEPING, chan := Other(addr))];
      SleepKeeps(old(procs), init, h, cur, Other(addr), procs);
    }

    // allocproc called by cur from fork: the first unused slot, with the next pid. Pids that
    // are clear stay so exactly if no slot has that pid, which holds until the counter comes round.
    method Allocproc(cur: nat) returns (np: Option<nat>)
      requires Valid() && Executing(procs, h, cur)
      modifies this`procs, this`nextpid, this`h
      ensures Valid()
      ensures np == None ==> procs == old(procs) && nextpid == old(nextpid) && h == old(h)
      ensures np == None <==> forall i | 0 <= i < NPROC :: !old(procs)[i].state.UNUSED?
      ensures np.Some? ==> np.value < NPROC && old(procs)[np.value].state.UNUSED?
      ensures np.Some? ==> forall i | 0 <= i < np.value :: !old(procs)[i].state.UNUSED?
      ensures np.Some? ==> procs == old(procs)[np.value := old(procs)[np.value].(state := EMBRYO, pid := old(nextpid))]
      ensures np.Some? ==> nextpid == NextPid(old(nextpid)) && h == Allocated(old(h), cur, np.value)
      ensures np.Some? && old(Clear(procs)) ==>
        (Clear(procs) <==> forall i | 0 <= i < NPROC && i != np.value :: old(procs)[i].pid != old(nextpid))
      ensures old(h).next < 2 * (MAXPID + 1) ==> Clear(procs)
      ensures old(Fresh()) ==> Fresh() && (np.Some? ==> !procs[np.value].killed)
    {
      np := None;
      var i := 0;
      while i < NPROC
        invariant 0 <= i <= NPROC && procs == old(procs) && forall k | 0 <= k < i :: !procs[k].state.UNUSED?
      {
        if procs[i].state.UNUSED? {
          Claim(cur, i);
          np := Some(i);
          break;
        }
        i := i + 1;
      }
      if h.next <= 2 * (MAXPID + 1) {
        ClearUntil(procs, init, h);
      }
    }

    // found: the slot and its pid
    method Claim(cur: nat, np: nat)
      requires Valid() && Executing(procs, h, cur) && np < NPROC && procs[np].state.UNUSED?
      modifies this`procs, this`nextpid, this`h
      ensures Valid() && h == Allocated(old(h), cur, np) && nextpid == NextPid(old(nextpid))
      ensures procs == old(procs)[np := old(procs)[np].(state := EMBRYO, pid := old(nextpid))]
      ensures old(Clear(procs)) ==>
        (Clear(procs) <==> forall i | 0 <= i < NPROC && i != np :: old(procs)[i].pid != old(nextpid))
    {
      procs := procs[np := procs[np].(state := EMBRYO, pid := nextpid)];
      nextpid := NextPid(nextpid);
      WrapNext(h.next);
      AllocKeeps(old(procs), init, h, cur, np, procs);
      h := Allocated(h, cur, np);
      if old(Clear(procs)) {
        ClearClaim(old(procs), np, old(nextpid));
      }
    }

    // No memory for the stack or the page table: np->state = UNUSED. The pid stays.
    method ForkFail(np: nat)
      requires Valid() && np < NPROC && procs[np].state.EMBRYO? && procs[np].parent == None
      modifies this`procs, this`h
      ensures Valid() && procs == old(procs)[np := old(procs)[np].(state := UNUSED)]
      ensures h == old(h).(maker := old(h).maker - {np})
      ensures old(Fresh()) ==> (Fresh() <==> !old(procs)[np].killed)
    {
      procs := procs[np := procs[np].(state := UNUSED)];
      assert procs[np].state.UNUSED? && procs[np].killed == old(procs)[np].killed;
      AbortKeeps(old(procs), init, h, np, procs);
      h := h.(maker := h.maker - {np});
    }

    // np->parent = curproc
    method ForkLink(cur: nat, np: nat)
      requires Valid() && np in h.maker && h.maker[np] == cur
      modifies this`procs
      ensures Valid() && np < NPROC && procs == old(procs)[np := old(procs)[np].(parent := Some(cur))]
    {
      InMaker(procs, init, h, np);
      procs := procs[np := procs[np].(parent := Some(cur))];
      LinkKeeps(old(procs), init, h, np, procs);
    }

    // np->state = RUNNABLE; fork returns the pid. It exceeds the parent's exactly if nextpid has
    // not overflowed since the parent's allocproc.
    method ForkStart(np: nat) returns (pid: int)
      requires Valid() && np < NPROC && procs[np].state.EMBRYO? && procs[np].parent.Some?
      modifies this`procs, this`h
      ensures Valid() && procs == old(procs)[np := old(procs)[np].(state := RUNNABLE)]
      ensures h == old(h).(maker := old(h).maker - {np})
      ensures pid == procs[np].pid == Wrap(h.birth[np])
      ensures var p := procs[np].parent.value;
        p < NPROC && Live(procs[p]) && h.birth[p] < h.birth[np] && procs[p].pid == Wrap(h.birth[p])
      ensures var p := procs[np].parent.value;
        h.birth[np] < h.birth[p] + 2 * (MAXPID + 1) ==>
        (procs[p].pid < pid <==> Turn(h.birth[p]) == Turn(h.birth[np]))
    {
      pid := procs[np].pid;
      procs := procs[np := procs[np].(state := RUNNABLE)];
      StartKeeps(old(procs), init, h, np, procs);
      h := h.(maker := h.maker - {np});
      ghost var p := procs[np].parent.value;
      assert SlotOk(procs, init, h, np) && SlotOk(procs, init, h, p);
      if h.birth[np] < h.birth[p] + 2 * (MAXPID + 1) {
        WrapOrder(h.birth[p], h.birth[np]);
      }
    }

    // exit's scan: abandoned children go to init.
    method Abandon(cur: nat)
      requires init < |procs| && cur != init
      modifies this`procs
      ensures procs == Reparented(old(procs), cur, init, |old(procs)|)
    {
      var i := 0;
      while i < |procs|
        invariant 0 <= i <= |procs| == |old(procs)|
        invariant forall k | 0 <= k < |procs| :: procs[k] == ScannedProc(old(procs), cur, init, i, k)
      {
        ghost var before := procs;
        ScanStep(old(procs), cur, init, i);
        if procs[i].parent == Some(cur) {
          procs := procs[i := procs[i].(parent := Some(init))];
          if procs[i].state.ZOMBIE? {
            Wakeup1(OfProc(init));
          }
        }
        i := i + 1;
      }
    }

    // exit from acquire(&ptable.lock) on
    method Exit(cur: nat)
      requires Valid() && Executing(procs, h, cur) && cur != init   // "init exiting"
      modifies this`procs, this`h
      ensures Valid() && old(procs)[cur].parent.Some? && procs == Exited(old(procs), cur, init)
      ensures h == Died(old(h), cur) && old(h).birth[cur] !in old(h).exited
      ensures forall i | 0 <= i < NPROC :: procs[i].pid == old(procs)[i].pid && procs[i].chan == old(procs)[i].chan
      ensures forall i | 0 <= i < NPROC :: procs[i].killed == old(procs)[i].killed
      ensures forall i | 0 <= i < NPROC ::
        procs[i].parent == if old(procs)[i].parent == Some(cur) then Some(init) else old(procs)[i].parent
      ensures procs[cur].state.ZOMBIE?
      ensures forall i | 0 <= i < NPROC && i != cur && !old(procs)[i].state.SLEEPING? ::
        procs[i].state == old(procs)[i].state
      ensures forall i | 0 <= i < NPROC && old(procs)[i].state.SLEEPING? ::
        procs[i].state.SLEEPING? || procs[i].state.RUNNABLE?
      ensures forall i | 0 <= i < NPROC && old(procs)[i].state.SLEEPING? ::
        procs[i].state.RUNNABLE? <==>
        (|| old(procs)[i].chan == OfProc(old(procs)[cur].parent.value)
         || (old(procs)[i].chan == OfProc(init) &&
             exists j | 0 <= j < NPROC :: old(procs)[j].parent == Some(cur) && old(procs)[j].state.ZOMBIE?))
    {
      ExitedAll(procs, init, h, cur);
      assert SlotOk(procs, init, h, cur);
      Wakeup1(OfProc(procs[cur].parent.value));
      Abandon(cur);
      procs := procs[cur := procs[cur].(state := ZOMBIE)];
      ExitKeeps(old(procs), init, h, cur, procs);
      h := Died(h, cur);
    }

    // One time round wait's outer loop. A process is returned only once, and cur goes to
    // sleep only when it has children and none is a zombie.
    method Wait(cur: nat) returns (w: Waited, ghost birth: nat)
      requires Valid() && Executing(procs, h, cur)
      modifies this`procs, this`h
      ensures Valid()
      ensures w.Reaped? <==>
        exists i | 0 <= i < NPROC :: old(procs)[i].parent == Some(cur) && old(procs)[i].state.ZOMBIE?
      ensures w.Reaped? ==> w.pid == Wrap(birth) && birth in h.exited && birth !in old(h).reaped
      ensures w.Reaped? ==> h.reaped == old(h).reaped + {birth} && h.exited == old(h).exited
      ensures w.Reaped? ==> ReapedSlot(old(procs), procs, cur, w.pid)
      ensures !w.Reaped? ==> h == old(h)
      ensures old(Fresh()) ==> Fresh()
      ensures w.Failed? ==> procs == old(procs)
      ensures w.Failed? ==> (old(procs)[cur].killed || forall i | 0 <= i < NPROC :: procs[i].parent != Some(cur))
      ensures w.Slept? ==> procs == old(procs)[cur := old(procs)[cur].(state := SLEEPING, chan := OfProc(cur))]
      ensures w.Slept? ==> !old(procs)[cur].killed && exists i | 0 <= i < NPROC :: procs[i].parent == Some(cur)
    {
      var havekids, i := false, 0;
      ghost var kid := 0;
      while i < NPROC
        invariant 0 <= i <= NPROC && procs == old(procs) && h == old(h) && !ZombieChild(procs, cur, i)
        invariant havekids ==> kid < i && procs[kid].parent == Some(cur)
        invariant !havekids ==> forall k | 0 <= k < i :: procs[k].parent != Some(cur)
      {
        if procs[i].parent == Some(cur) {
          havekids, kid := true, i;
          if procs[i].state.ZOMBIE? {
            var pid := procs[i].pid;
            birth := Bury(i);
            return Reaped(pid), birth;
          }
        }
        i := i + 1;
      }
      birth := 0;
      if !havekids || procs[cur].killed {
        return Failed, birth;
      }
      procs := procs[cur := procs[cur].(state := SLEEPING, chan := OfProc(cur))];
      SleepKeeps(old(procs), init, h, cur, OfProc(cur), procs);
      assert procs[kid].parent == Some(cur);
      w := Slept;
    }

    // Found one: its slot is freed.
    method Bury(j: nat) returns (ghost birth: nat)
      requires Valid() && j < NPROC && procs[j].state.ZOMBIE?
      modifies this`procs, this`h
      ensures Valid() && h == Buried(old(h), j)
      ensures birth == old(h).birth[j] && old(procs)[j].pid == Wrap(birth)
      ensures birth in h.exited && birth !in old(h).reaped
      ensures procs == old(procs)[j := old(procs)[j].(state := UNUSED, pid := 0, parent := None, killed := false)]
    {
      birth := h.birth[j];
      procs := procs[j := procs[j].(state := UNUSED, pid := 0, parent := None, killed := false)];
      ReapKeeps(old(procs), init, h, j, procs);
      h := Buried(h, j);
    }
  }

  // kill(0) on the first table marks slot 1, and the next process made there is born killed.
  method BornKilled() returns (t: Ptable, np: nat)
    ensures fresh(t) && t.Valid() && np < NPROC && t.procs[np].state.EMBRYO? && t.procs[np].killed
  {
    t := new Ptable();
    var first := t.Schedule(0);
    assert first == Some(0);
    assert t.procs[1].state.UNUSED? && t.procs[1].pid == 0;
    var r, slot := t.Kill(0);
    assert !t.Fresh() && slot == 1;
    var made := t.Allocproc(0);
    assert t.procs[1].killed;
    np := made.value;
  }
}
