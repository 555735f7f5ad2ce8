// Runs of commits: what a crash anywhere in them leaves after recovery.
module LogRun {
  import opened Bytes
  import opened Memide
  import opened LogSpec

  datatype Txn = Txn(bs: seq<Uint>, cs: seq<Block>)

  ghost predicate Commits(txns: seq<Txn>, log: Area, n: nat) {
    forall i | 0 <= i < |txns| :: Loggable(txns[i].bs, log, n) && |txns[i].cs| == |txns[i].bs|
  }

  // Every block write of a run of commits, starting from disk d
  ghost function RunWrites(d: seq<Block>, txns: seq<Txn>, log: Area): (ws: seq<Write>)
    requires WellFormed(d, log) && HeadN(d[log.start]) == 0 && Commits(txns, log, |d|)
    ensures InRange(ws, |d|)
    decreases |txns|
  {
    if txns == [] then []
    else
      CommitWrites(d[log.start], txns[0].cs, txns[0].bs, log) + RunWrites(AfterTxn(d, txns[0], log), txns[1..], log)
  }

  // The disk after one whole commit
  ghost function AfterTxn(d: seq<Block>, t: Txn, log: Area): (e: seq<Block>)
    requires WellFormed(d, log) && HeadN(d[log.start]) == 0 && Loggable(t.bs, log, |d|) && |t.cs| == |t.bs|
    ensures |e| == |d| && WellFormed(e, log) && HeadN(e[log.start]) == 0
    ensures forall b | 0 <= b < |d| && !log.Has(b) :: e[b] == Updated(d, t.cs, t.bs, b)
    ensures InRange(CommitWrites(d[log.start], t.cs, t.bs, log), |d|)
  {
    FullCommit(d, t.cs, t.bs, log);
    Apply(d, CommitWrites(d[log.start], t.cs, t.bs, log))
  }

  // How many transactions have their header on disk after k writes of the run
  function Durable(txns: seq<Txn>, k: nat): (m: nat)
    ensures m <= |txns|
    decreases |txns|
  {
    if txns == [] then 0
    else
      var n := |txns[0].bs|;
      if k <= n then 0
      else if k <= 2 * n + 2 then 1
      else 1 + Durable(txns[1..], k - (2 * n + 2))
  }

  // The contents the transactions ask for, one after the other
  ghost function Logical(d: seq<Block>, txns: seq<Txn>): (r: seq<Block>)
    requires forall i | 0 <= i < |txns| :: |txns[i].cs| == |txns[i].bs|
    ensures |r| == |d|
    decreases |txns|
  {
    if txns == [] then d
    else Logical(seq(|d|, b requires 0 <= b < |d| => Updated(d, txns[0].cs, txns[0].bs, b)), txns[1..])
  }

  lemma {:induction false} LogicalAgrees(d: seq<Block>, e: seq<Block>, txns: seq<Txn>, log: Area)
    requires |d| == |e| && forall i | 0 <= i < |txns| :: |txns[i].cs| == |txns[i].bs|
    requires forall b | 0 <= b < |d| && !log.Has(b) :: d[b] == e[b]
    ensures forall b | 0 <= b < |d| && !log.Has(b) :: Logical(d, txns)[b] == Logical(e, txns)[b]
    decreases |txns|
  {
    if txns != [] {
      LogicalAgrees(seq(|d|, b requires 0 <= b < |d| => Updated(d, txns[0].cs, txns[0].bs, b)),
                    seq(|e|, b requires 0 <= b < |e| => Updated(e, txns[0].cs, txns[0].bs, b)), txns[1..], log);
    }
  }

  // Crash disk e inside recovery ks times, then recover: the contents are those of l.
  ghost predicate Survives(e: seq<Block>, log: Area, ks: seq<nat>, l: seq<Block>)
    requires |l| == |e|
  {
    && WellFormed(e, log) && WellFormed(Crashes(e, log, ks), log)
    && var f := Recovered(Crashes(e, log, ks), log);
      forall b | 0 <= b < |e| && !log.Has(b) :: f[b] == l[b]
  }

  lemma OneTxnCrash(d: seq<Block>, t: Txn, log: Area, k: nat, ks: seq<nat>)
    requires WellFormed(d, log) && HeadN(d[log.start]) == 0 && Loggable(t.bs, log, |d|) && |t.cs| == |t.bs|
    ensures var ws := Prefix(CommitWrites(d[log.start], t.cs, t.bs, log), k);
      InRange(ws, |d|) && Survives(Apply(d, ws), log, ks, Logical(d, if k <= |t.bs| then [] else [t]))
  {
    CrashAtomicity(d, t.cs, t.bs, log, k, ks);
    LogicalOne(d, t);
  }

  lemma LogicalOne(d: seq<Block>, t: Txn)
    requires |t.cs| == |t.bs|
    ensures Logical(d, [t]) == seq(|d|, b requires 0 <= b < |d| => Updated(d, t.cs, t.bs, b))
  {
    assert [t][1..] == [];
  }

  lemma LaterTxns(d: seq<Block>, t: Txn, e: seq<Block>, rest: seq<Txn>, log: Area, f: seq<Block>, ks: seq<nat>)
    requires |d| == |e| == |f| && |t.cs| == |t.bs| && forall i | 0 <= i < |rest| :: |rest[i].cs| == |rest[i].bs|
    requires forall b | 0 <= b < |d| && !log.Has(b) :: e[b] == Updated(d, t.cs, t.bs, b)
    requires Survives(f, log, ks, Logical(e, rest))
    ensures Survives(f, log, ks, Logical(d, [t] + rest))
  {
    LogicalAgrees(e, seq(|d|, b requires 0 <= b < |d| => Updated(d, t.cs, t.bs, b)), rest, log);
    assert ([t] + rest)[1..] == rest;
  }

  lemma DurableSplit(txns: seq<Txn>, k: nat)
    requires txns != []
    ensures var t, m := txns[0], Durable(txns, k);
      txns[..m] == if k <= |t.bs| then []
        else if k <= 2 * |t.bs| + 2 then [t]
        else [t] + txns[1..][..Durable(txns[1..], k - (2 * |t.bs| + 2))]
  {
  }

  // The disk after k writes of a run of commits
  ghost function CrashedRun(d: seq<Block>, txns: seq<Txn>, log: Area, k: nat): (e: seq<Block>)
    requires WellFormed(d, log) && HeadN(d[log.start]) == 0 && Commits(txns, log, |d|)
    ensures |e| == |d|
  {
    Apply(d, Prefix(RunWrites(d, txns, log), k))
  }

  // A crash after k writes of a run of commits, ks crashes in recovery and one full
  // recovery leave exactly the transactions whose header was written.
  ghost predicate RunSurvives(d: seq<Block>, txns: seq<Txn>, log: Area, k: nat, ks: seq<nat>)
    requires WellFormed(d, log) && HeadN(d[log.start]) == 0 && Commits(txns, log, |d|)
  {
    Survives(CrashedRun(d, txns, log, k), log, ks, Logical(d, txns[..Durable(txns, k)]))
  }

  lemma NoCommitCrash(d: seq<Block>, log: Area, k: nat, ks: seq<nat>)
    requires WellFormed(d, log) && HeadN(d[log.start]) == 0
    ensures RunSurvives(d, [], log, k, ks)
  {
    NoCommit(d, log, k);
    IdleSurvives(d, log, ks);
  }

  lemma NoCommit(d: seq<Block>, log: Area, k: nat)
    requires WellFormed(d, log) && HeadN(d[log.start]) == 0
    ensures CrashedRun(d, [], log, k) == d && Logical(d, [][..Durable([], k)]) == d
  {
    assert Prefix([], k) == [];
  }

  lemma IdleSurvives(d: seq<Block>, log: Area, ks: seq<nat>)
    requires WellFormed(d, log) && HeadN(d[log.start]) == 0
    ensures Survives(d, log, ks, d)
  {
    CrashesKeepHome(d, log, ks);
    RecoveryPrefix(Crashes(d, log, ks), log, LOGSIZE + 1);
  }

  // The writes and the disk after the first commit of a run
  lemma FirstCommit(d: seq<Block>, txns: seq<Txn>, log: Area, k: nat)
    requires WellFormed(d, log) && HeadN(d[log.start]) == 0 && Commits(txns, log, |d|) && txns != []
    ensures var t := txns[0];
      var ws, d1, n := CommitWrites(d[log.start], t.cs, t.bs, log), AfterTxn(d, t, log), 2 * |t.bs| + 2;
      && (k <= n ==> CrashedRun(d, txns, log, k) == Apply(d, Prefix(ws, k)))
      && (k > n ==> CrashedRun(d, txns, log, k) == CrashedRun(d1, txns[1..], log, k - n))
  {
    var t, rest := txns[0], txns[1..];
    ApplyPrefix(d, CommitWrites(d[log.start], t.cs, t.bs, log), RunWrites(AfterTxn(d, t, log), rest, log), k);
  }

  // The crash is inside the first commit of the run,
  lemma FirstCrash(d: seq<Block>, txns: seq<Txn>, log: Area, k: nat, ks: seq<nat>)
    requires WellFormed(d, log) && HeadN(d[log.start]) == 0 && Commits(txns, log, |d|)
    requires txns != [] && k <= 2 * |txns[0].bs| + 2
    ensures RunSurvives(d, txns, log, k, ks)
  {
    FirstCommit(d, txns, log, k);
    DurableSplit(txns, k);
    OneTxnCrash(d, txns[0], log, k, ks);
  }

  // or after it.
  lemma LaterCrash(d: seq<Block>, txns: seq<Txn>, log: Area, k: nat, ks: seq<nat>, d1: seq<Block>, k1: nat)
    requires WellFormed(d, log) && HeadN(d[log.start]) == 0 && Commits(txns, log, |d|) && txns != []
    requires d1 == AfterTxn(d, txns[0], log) && k == k1 + 2 * |txns[0].bs| + 2 && k1 > 0
    requires RunSurvives(d1, txns[1..], log, k1, ks)
    ensures RunSurvives(d, txns, log, k, ks)
  {
    var t, rest := txns[0], txns[1..];
    var done, e := rest[..Durable(rest, k1)], CrashedRun(d1, rest, log, k1);
    assert CrashedRun(d, txns, log, k) == e by {
      FirstCommit(d, txns, log, k);
    }
    assert txns[..Durable(txns, k)] == [t] + done by {
      DurableSplit(txns, k);
    }
    LaterTxns(d, t, d1, done, log, e, ks);
  }

  // A crash anywhere in a run of commits, any number of crashes in recovery and
  // one full recovery leave exactly the transactions whose header was written,
  // in order and each complete.
  lemma {:induction false} RunCrash(d: seq<Block>, txns: seq<Txn>, log: Area, k: nat, ks: seq<nat>)
    requires WellFormed(d, log) && HeadN(d[log.start]) == 0 && Commits(txns, log, |d|)
    ensures RunSurvives(d, txns, log, k, ks)
    decreases |txns|
  {
    if txns == [] {
      NoCommitCrash(d, log, k, ks);
    } else if k <= 2 * |txns[0].bs| + 2 {
      FirstCrash(d, txns, log, k, ks);
    } else {
      var d1, k1 := AfterTxn(d, txns[0], log), k - (2 * |txns[0].bs| + 2);
      RunCrash(d1, txns[1..], log, k1, ks);
      LaterCrash(d, txns, log, k, ks, d1, k1);
    }
  }

  // ---- the views of a run ---------------------------------------------------------------

  // The two disks have the same home blocks.
  ghost predicate SameOutside(d: seq<Block>, e: seq<Block>, log: Area) {
    |d| == |e| && forall b | 0 <= b < |d| && !log.Has(b) :: d[b] == e[b]
  }

  // t is the commit that turns the logical disk v into w.
  ghost predicate Turns(v: seq<Block>, t: Txn, w: seq<Block>, log: Area) {
    && |v| == |w| && |t.cs| == |t.bs|
    && forall b | 0 <= b < |v| && !log.Has(b) :: w[b] == Updated(v, t.cs, t.bs, b)
  }

  // views are the logical disks before, between and after the commits txns.
  ghost predicate Recorded(d: seq<Block>, txns: seq<Txn>, views: seq<seq<Block>>, log: Area) {
    && |views| == |txns| + 1 && SameOutside(views[0], d, log)
    && forall i | 0 <= i < |txns| :: Turns(views[i], txns[i], views[i + 1], log)
  }

  lemma {:induction false} LogicalView(d: seq<Block>, txns: seq<Txn>, views: seq<seq<Block>>, log: Area, m: nat)
    requires Recorded(d, txns, views, log) && m <= |txns|
    requires forall i | 0 <= i < |txns| :: |txns[i].cs| == |txns[i].bs|
    ensures SameOutside(Logical(d, txns[..m]), views[m], log)
    decreases |txns|
  {
    if m > 0 {
      var t, rest := txns[0], txns[1..];
      var e := seq(|d|, b requires 0 <= b < |d| => Updated(d, t.cs, t.bs, b));
      assert Turns(views[0], t, views[1], log);
      assert SameOutside(views[1], e, log);
      assert Recorded(e, rest, views[1..], log) by {
        forall i | 0 <= i < |rest| ensures Turns(views[1..][i], rest[i], views[1..][i + 1], log) {
          assert Turns(views[i + 1], txns[i + 1], views[i + 2], log);
        }
      }
      LogicalView(e, rest, views[1..], log, m - 1);
      assert txns[..m][1..] == rest[..m - 1];
    }
  }

  // A crash after any k writes of a run recovers the logical disk at the end of the
  // last commit whose header was written.
  lemma RunRecovers(d: seq<Block>, txns: seq<Txn>, views: seq<seq<Block>>, log: Area, k: nat, ks: seq<nat>)
    requires WellFormed(d, log) && HeadN(d[log.start]) == 0 && Commits(txns, log, |d|) && Recorded(d, txns, views, log)
    ensures |views[Durable(txns, k)]| == |d|
    ensures Survives(CrashedRun(d, txns, log, k), log, ks, views[Durable(txns, k)])
  {
    RunCrash(d, txns, log, k, ks);
    LogicalView(d, txns, views, log, Durable(txns, k));
  }

  // The disk after a whole run
  ghost function AfterRun(d: seq<Block>, txns: seq<Txn>, log: Area): (e: seq<Block>)
    requires WellFormed(d, log) && HeadN(d[log.start]) == 0 && Commits(txns, log, |d|)
    ensures |e| == |d| && WellFormed(e, log) && HeadN(e[log.start]) == 0
    decreases |txns|
  {
    if txns == [] then d else AfterRun(AfterTxn(d, txns[0], log), txns[1..], log)
  }

  lemma CommitsSplit(txns: seq<Txn>, t: Txn, log: Area, n: nat)
    requires Commits(txns, log, n) && Loggable(t.bs, log, n) && |t.cs| == |t.bs|
    ensures Commits(txns + [t], log, n)
    ensures txns != [] ==> (txns + [t])[0] == txns[0] && (txns + [t])[1..] == txns[1..] + [t]
  {
  }

  lemma {:induction false} RunExtend(d: seq<Block>, txns: seq<Txn>, t: Txn, log: Area)
    requires WellFormed(d, log) && HeadN(d[log.start]) == 0 && Commits(txns, log, |d|)
    requires Commits(txns + [t], log, |d|) && Loggable(t.bs, log, |d|) && |t.cs| == |t.bs|
    ensures var e := AfterRun(d, txns, log);
      && RunWrites(d, txns + [t], log) == RunWrites(d, txns, log) + CommitWrites(e[log.start], t.cs, t.bs, log)
      && AfterRun(d, txns + [t], log) == AfterTxn(e, t, log)
    decreases |txns|
  {
    CommitsSplit(txns, t, log, |d|);
    if txns == [] {
      assert [] + [t] == [t] && [t][1..] == [];
    } else {
      RunExtend(AfterTxn(d, txns[0], log), txns[1..], t, log);
    }
  }

  // What has happened since boot: the disk and the trace at boot, the commits, and the
  // logical disks before, between and after them
  datatype Run = Run(boot: seq<Block>, before: seq<Write>, txns: seq<Txn>, views: seq<seq<Block>>)

  // The commits of the run are possible,
  ghost predicate Booted(r: Run, log: Area) {
    WellFormed(r.boot, log) && HeadN(r.boot[log.start]) == 0 && Commits(r.txns, log, |r.boot|)
  }

  // and have left the disk d and the trace ws.
  ghost predicate RanTo(r: Run, d: seq<Block>, ws: seq<Write>, log: Area)
    requires Booted(r, log)
  {
    d == AfterRun(r.boot, r.txns, log) && ws == r.before + RunWrites(r.boot, r.txns, log)
  }

  ghost predicate History(r: Run, d: seq<Block>, ws: seq<Write>, log: Area) {
    && Booted(r, log) && RanTo(r, d, ws, log)
    && Recorded(r.boot, r.txns, r.views, log) && SameOutside(r.views[|r.txns|], d, log)
  }

  lemma HistoryStart(d: seq<Block>, ws: seq<Write>, log: Area)
    requires WellFormed(d, log) && HeadN(d[log.start]) == 0
    ensures History(Run(d, ws, [], [d]), d, ws, log)
  {
  }

  // The run with the commit of t, which leaves the disk w
  function Extended(r: Run, t: Txn, w: seq<Block>): (r1: Run) {
    Run(r.boot, r.before, r.txns + [t], r.views + [w])
  }

  // One more commit, of the blocks bs where the logical disk v differs from d
  lemma HistoryStep(r: Run, d: seq<Block>, ws: seq<Write>, log: Area, v: seq<Block>, bs: seq<Uint>, w: seq<Block>)
    requires History(r, d, ws, log) && |v| == |d| && Loggable(bs, log, |d|)
    requires WellFormed(d, log) && HeadN(d[log.start]) == 0 && w == AfterTxn(d, Txn(bs, Copies(v, bs)), log)
    ensures History(Extended(r, Txn(bs, Copies(v, bs)), w), w, ws + CommitWrites(d[log.start], Copies(v, bs), bs, log),
      log)
  {
    var t := Txn(bs, Copies(v, bs));
    CommitsSplit(r.txns, t, log, |d|);
    RanOn(r, d, ws, log, t, w);
    RecordedStep(r.boot, r.txns, r.views, d, log, t, w);
  }

  lemma RanOn(r: Run, d: seq<Block>, ws: seq<Write>, log: Area, t: Txn, w: seq<Block>)
    requires Booted(r, log) && RanTo(r, d, ws, log) && Loggable(t.bs, log, |d|) && |t.cs| == |t.bs|
    requires Booted(Extended(r, t, w), log) && w == AfterTxn(d, t, log)
    ensures RanTo(Extended(r, t, w), w, ws + CommitWrites(d[log.start], t.cs, t.bs, log), log)
  {
    RunExtend(r.boot, r.txns, t, log);
  }

  lemma RecordedStep(boot: seq<Block>, txns: seq<Txn>, views: seq<seq<Block>>, d: seq<Block>, log: Area, t: Txn,
                     w: seq<Block>)
    requires Recorded(boot, txns, views, log) && SameOutside(views[|txns|], d, log)
    requires |d| == |w| && Loggable(t.bs, log, |d|) && |t.cs| == |t.bs|
    requires forall b | 0 <= b < |d| && !log.Has(b) :: w[b] == Updated(d, t.cs, t.bs, b)
    ensures Recorded(boot, txns + [t], views + [w], log)
  {
    var txns1, views1 := txns + [t], views + [w];
    forall i | 0 <= i < |txns1| ensures Turns(views1[i], txns1[i], views1[i + 1], log) {
      if i < |txns| {
        assert Turns(views[i], txns[i], views[i + 1], log);
      }
    }
  }
}
