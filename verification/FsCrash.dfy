// A crash while the file system runs: the log commits its operations in groups, so recovery
// leaves a consistent file system in which exactly the operations of some first groups have
// been done.
module FsCrash {
  import opened Bytes
  import opened Memide
  import opened LogSpec
  import opened LogRun
  import opened FsSpec
  import opened FileSpec
  import opened Util
  import P = LogProto

  // ---- groups of operations ---------------------------------------------------------------

  // What the operations from a to b have logged
  function GroupLog(ops: seq<Op>, a: nat, b: nat): (s: set<nat>)
    requires a <= b <= |ops|
  {
    if a == b then {} else GroupLog(ops, a, b - 1) + ops[b - 1].logged
  }

  lemma {:induction false} GroupTracked(s0: State, ops: seq<Op>, sb: Super, a: nat, b: nat)
    requires OpRun(s0, ops, sb) && a <= b <= |ops|
    ensures Tracked(Preceding(s0, ops, a).view, Preceding(s0, ops, b).view, GroupLog(ops, a, b), sb)
  {
    if a < b {
      GroupTracked(s0, ops, sb, a, b - 1);
      assert OpAt(s0, ops, sb, b - 1);
    }
  }

  // Three operations within their shares fit in a log of full size, however they are chosen.
  lemma {:induction false} GroupSize(ops: seq<Op>, a: nat, b: nat)
    requires a <= b <= |ops| && forall m | a <= m < b :: |ops[m].logged| <= MAXOPBLOCKS
    ensures |GroupLog(ops, a, b)| <= MAXOPBLOCKS * (b - a)
  {
    if a < b {
      GroupSize(ops, a, b - 1);
    }
  }

  // A transaction of filewrite stays in its budget at every block it logs.
  lemma InBudget(p: P.State, k: nat, s: State, op: Op, sb: Super, b: nat)
    requires Transaction(s, op, sb) && k < |p.ops| && p.ops[k] <= op.logged && b in op.logged
    ensures P.InBudget(p, k, b)
  {
    if b !in p.ops[k] {
      SubsetSize(p.ops[k] + {b}, op.logged);
    }
  }

  // ---- commits ----------------------------------------------------------------------------

  // The commit t has the blocks logged, as they are in the state s.
  ghost predicate Carries(t: Txn, logged: set<nat>, s: State) {
    && SetOf(t.bs) == logged && |t.cs| == |t.bs| && (forall i, j | 0 <= i < j < |t.bs| :: t.bs[i] != t.bs[j])
    && forall i | 0 <= i < |t.bs| :: t.bs[i] < |s.view| && t.cs[i] == s.view[t.bs[i]]
  }

  // Every group has such a commit.
  lemma CarriedBy(v: seq<Block>, logged: set<nat>, s: State, sb: Super) returns (t: Txn)
    requires Tracked(v, s.view, logged, sb) && sb.Valid(|s.view|)
    ensures Carries(t, logged, s)
  {
    var bs := Listed(logged);
    forall i | 0 <= i < |bs| ensures bs[i] < |s.view| {
      assert bs[i] in SetOf(bs);
    }
    t := Txn(bs, Copies(s.view, bs));
  }

  lemma {:induction false} Listed(s: set<nat>) returns (bs: seq<Uint>)
    requires forall b | b in s :: b < U32
    ensures SetOf(bs) == s && forall i, j | 0 <= i < j < |bs| :: bs[i] != bs[j]
    decreases |s|
  {
    bs := [];
    if s != {} {
      var b :| b in s;
      var rest := Listed(s - {b});
      bs := rest + [b];
      forall i | 0 <= i < |rest| ensures rest[i] != b {
        assert rest[i] in SetOf(rest);
      }
      assert SetOf(bs) == SetOf(rest) + {b};
    }
  }

  // The log lies below the inodes.
  ghost predicate Layout(sb: Super, log: Area, n: nat) {
    sb.Valid(n) && log.start + log.size <= sb.inodeStart
  }

  // The operations that have been committed are those before the last of cuts; commit number g
  // has what the operations between its two cuts logged, which log_write let into the log.
  ghost predicate Grouped(s0: State, ops: seq<Op>, cuts: seq<nat>, txns: seq<Txn>, log: Area) {
    && |cuts| == |txns| + 1 && cuts[0] == 0 && (forall g | 0 <= g < |cuts| :: cuts[g] <= |ops|)
    && forall g | 0 <= g < |txns| :: GroupAt(s0, ops, cuts, txns, log, g)
  }

  ghost predicate GroupAt(s0: State, ops: seq<Op>, cuts: seq<nat>, txns: seq<Txn>, log: Area, g: nat)
    requires |cuts| == |txns| + 1 && g < |txns|
  {
    && cuts[g] <= cuts[g + 1] <= |ops| && txns[g].bs != []
    && Carries(txns[g], GroupLog(ops, cuts[g], cuts[g + 1]), Preceding(s0, ops, cuts[g + 1]))
    && |txns[g].bs| <= P.Most(log.size)
  }

  lemma CarriedLoggable(v: seq<Block>, t: Txn, logged: set<nat>, s: State, sb: Super, log: Area)
    requires Carries(t, logged, s) && Tracked(v, s.view, logged, sb) && Layout(sb, log, |v|)
    requires 0 < |t.bs| <= P.Most(log.size)
    ensures Loggable(t.bs, log, |v|)
  {
    forall i | 0 <= i < |t.bs| ensures !log.Has(t.bs[i]) {
      assert t.bs[i] in SetOf(t.bs);
    }
  }

  lemma CarriedTurns(v: seq<Block>, t: Txn, logged: set<nat>, s: State, sb: Super, log: Area)
    requires Carries(t, logged, s) && Tracked(v, s.view, logged, sb)
    ensures Turns(v, t, s.view, log)
  {
    forall b | 0 <= b < |v| && !log.Has(b) ensures s.view[b] == LogSpec.Updated(v, t.cs, t.bs, b) {
      if b in logged {
        assert b in SetOf(t.bs);
      }
    }
  }

  // The logical disk at the cuts
  function Views(s0: State, ops: seq<Op>, cuts: seq<nat>): (vs: seq<seq<Block>>)
    requires forall g | 0 <= g < |cuts| :: cuts[g] <= |ops|
    ensures |vs| == |cuts| && forall g | 0 <= g < |vs| :: vs[g] == Preceding(s0, ops, cuts[g]).view
  {
    seq(|cuts|, g requires 0 <= g < |cuts| => Preceding(s0, ops, cuts[g]).view)
  }

  // Grouped operations are a run of commits of the log.
  lemma OperationsRun(s0: State, ops: seq<Op>, cuts: seq<nat>, sb: Super, d: seq<Block>, txns: seq<Txn>, log: Area)
    requires OpRun(s0, ops, sb) && Grouped(s0, ops, cuts, txns, log) && Layout(sb, log, |d|)
    requires SameOutside(s0.view, d, log)
    ensures Commits(txns, log, |d|) && Recorded(d, txns, Views(s0, ops, cuts), log)
  {
    var vs := Views(s0, ops, cuts);
    forall g | 0 <= g < |txns|
      ensures Loggable(txns[g].bs, log, |d|) && |txns[g].cs| == |txns[g].bs| && Turns(vs[g], txns[g], vs[g + 1], log)
    {
      assert GroupAt(s0, ops, cuts, txns, log, g);
      var v, s, logged := vs[g], Preceding(s0, ops, cuts[g + 1]), GroupLog(ops, cuts[g], cuts[g + 1]);
      OpRunSettled(s0, ops, sb, cuts[g]);
      GroupTracked(s0, ops, sb, cuts[g], cuts[g + 1]);
      CarriedLoggable(v, txns[g], logged, s, sb, log);
      CarriedTurns(v, txns[g], logged, s, sb, log);
    }
  }

  // ---- the file system on a recovered disk ------------------------------------------------

  // The log and what is before it do not belong to the file system.
  ghost predicate SameFs(v: seq<Block>, f: seq<Block>, sb: Super) {
    |v| == |f| && forall b | sb.inodeStart <= b < |v| :: f[b] == v[b]
  }

  lemma SlotSame(v: seq<Block>, f: seq<Block>, inodes: seq<Inode>, own: Owners, sb: Super, j: nat, s: nat)
    requires Consistent(v, inodes, own, sb) && SameFs(v, f, sb) && j < |inodes| && s < NSLOTS
    ensures SlotAddr(f, inodes[j], s) == SlotAddr(v, inodes[j], s)
  {
    var ind := inodes[j].addrs[NDIRECT];
    assert SlotOk(v, inodes, own, j, NDIRECT);
    assert ind != 0 ==> OwnerOk(v, inodes, own, sb, ind);
  }

  lemma BitmapSame(v: seq<Block>, f: seq<Block>, own: Owners, sb: Super)
    requires sb.Valid(|v|) && BitmapOk(v, own, sb) && SameFs(v, f, sb)
    ensures BitmapOk(f, own, sb)
  {
    forall b | 0 <= b < sb.size ensures BitOk(f, own, sb, b) {
      assert BitOk(v, own, sb, b) && b / BPB <= sb.size / BPB;
    }
  }

  lemma ConsistentSame(v: seq<Block>, f: seq<Block>, inodes: seq<Inode>, own: Owners, sb: Super)
    requires Consistent(v, inodes, own, sb) && SameFs(v, f, sb)
    ensures Consistent(f, inodes, own, sb)
  {
    BitmapSame(v, f, own, sb);
    forall j, s | 0 <= j < |inodes| && 0 <= s < NSLOTS ensures SlotOk(f, inodes, own, j, s) {
      assert SlotOk(v, inodes, own, j, s);
      SlotSame(v, f, inodes, own, sb, j, s);
    }
    forall a | a in own ensures OwnerOk(f, inodes, own, sb, a) {
      assert OwnerOk(v, inodes, own, sb, a);
      SlotSame(v, f, inodes, own, sb, own[a].0, own[a].1);
    }
  }

  lemma FilesSame(v: seq<Block>, f: seq<Block>, inodes: seq<Inode>, own: Owners, sb: Super, j: nat)
    requires Consistent(v, inodes, own, sb) && SameFs(v, f, sb) && j < |inodes|
    ensures SameFile(v, f, inodes[j])
  {
    forall b | b in own && own[b].0 == j && b < |v| ensures f[b] == v[b] {
      assert OwnerOk(v, inodes, own, sb, b);
    }
    OtherFile(v, inodes, own, sb, f, j);
  }

  lemma OnDiskSame(v: seq<Block>, f: seq<Block>, sb: Super, j: nat)
    requires sb.Valid(|v|) && SameFs(v, f, sb) && j < sb.ninodes
    ensures OnDisk(f, sb, j) == OnDisk(v, sb, j)
  {
    IBlockInRange(sb, j);
  }

  // The state s, with the recovered disk f in place of its own
  ghost predicate Rebooted(s: State, f: seq<Block>, sb: Super) {
    && SameFs(s.view, f, sb) && Settled(State(f, s.inodes, s.own), sb)
    && forall j | 0 <= j < |s.inodes| :: SameFile(s.view, f, s.inodes[j])
  }

  lemma RebootedFrom(s: State, f: seq<Block>, sb: Super)
    requires Settled(s, sb) && SameFs(s.view, f, sb)
    ensures Rebooted(s, f, sb)
  {
    ConsistentSame(s.view, f, s.inodes, s.own, sb);
    forall j | 0 <= j < |s.inodes| ensures OnDisk(f, sb, j) == s.inodes[j] && SameFile(s.view, f, s.inodes[j]) {
      OnDiskSame(s.view, f, sb, j);
      FilesSame(s.view, f, s.inodes, s.own, sb, j);
    }
  }

  // What had been written is in the files of the recovered disk.
  lemma WroteSame(s0: State, s: State, f: seq<Block>, sb: Super, i: nat, off0: nat, src: seq<Byte>)
    requires Wrote(s0.view, s0.inodes, s0.own, s.view, s.inodes, s.own, sb, i, off0, src) && Rebooted(s, f, sb)
    ensures Wrote(s0.view, s0.inodes, s0.own, f, s.inodes, s.own, sb, i, off0, src)
  {
    assert SameFile(s.view, f, s.inodes[i]);
    forall j | 0 <= j < |s0.inodes| && j != i
      ensures s.inodes[j] == s0.inodes[j] && SameFile(s0.view, f, s0.inodes[j]) {
      assert SameFile(s0.view, s.view, s0.inodes[j]) && SameFile(s.view, f, s.inodes[j]);
    }
    forall j | 0 <= j < sb.ninodes ensures OnDisk(f, sb, j) == OnDisk(s.view, sb, j) {
      OnDiskSame(s.view, f, sb, j);
    }
  }

  // ---- the theorem --------------------------------------------------------------------------

  // Any operations have run from state s0 on and the log has committed them in any groups. Stop
  // the commits after any k writes, crash any number of times in recovery, then let recovery
  // finish: the file system is consistent, its inodes are on disk, and it is in the state after
  // the operations of the durable groups.
  lemma OperationsSurvive(s0: State, ops: seq<Op>, cuts: seq<nat>, sb: Super, d: seq<Block>, txns: seq<Txn>, log: Area,
                          k: nat, ks: seq<nat>)
    requires OpRun(s0, ops, sb) && Grouped(s0, ops, cuts, txns, log) && Layout(sb, log, |d|)
    requires SameOutside(s0.view, d, log) && WellFormed(d, log) && HeadN(d[log.start]) == 0
    ensures Commits(txns, log, |d|)
    ensures var e := CrashedRun(d, txns, log, k);
      && WellFormed(e, log) && WellFormed(Crashes(e, log, ks), log)
      && Rebooted(Preceding(s0, ops, cuts[Durable(txns, k)]), Recovered(Crashes(e, log, ks), log), sb)
  {
    OperationsRun(s0, ops, cuts, sb, d, txns, log);
    var m, e := cuts[Durable(txns, k)], CrashedRun(d, txns, log, k);
    assert Survives(e, log, ks, Preceding(s0, ops, m).view) by {
      RunRecovers(d, txns, Views(s0, ops, cuts), log, k, ks);
    }
    OpRunSettled(s0, ops, sb, m);
    RebootedFrom(Preceding(s0, ops, m), Recovered(Crashes(e, log, ks), log), sb);
  }

  // f is a consistent file system with the state after m operations of the filewrite of
  // addr, and exactly their chunks have been written.
  ghost predicate Survived(s0: State, ops: seq<Op>, sb: Super, i: nat, off0: nat, addr: seq<Byte>, m: nat,
                           f: seq<Block>) {
    && m <= |ops| && Rebooted(Preceding(s0, ops, m), f, sb)
    && (m > 0 ==> var s := Preceding(s0, ops, m);
      Wrote(s0.view, s0.inodes, s0.own, f, s.inodes, s.own, sb, i, off0, addr[..Done(|addr|, m)]))
  }

  // For a filewrite of addr at offset off0 of file i, which has ended the operations ops:
  // exactly the chunks of the operations in durable groups have been written.
  lemma FilewriteSurvives(s0: State, ops: seq<Op>, cuts: seq<nat>, sb: Super, i: nat, off0: nat, addr: seq<Byte>,
                          d: seq<Block>, txns: seq<Txn>, log: Area, k: nat, ks: seq<nat>)
    requires Settled(s0, sb) && FileOps(s0, ops, sb, i, off0, addr)
    requires Grouped(s0, ops, cuts, txns, log) && Layout(sb, log, |d|)
    requires SameOutside(s0.view, d, log) && WellFormed(d, log) && HeadN(d[log.start]) == 0
    ensures Commits(txns, log, |d|)
    ensures var e := CrashedRun(d, txns, log, k);
      && WellFormed(e, log) && WellFormed(Crashes(e, log, ks), log)
      && Survived(s0, ops, sb, i, off0, addr, cuts[Durable(txns, k)], Recovered(Crashes(e, log, ks), log))
  {
    FileOpsRun(s0, [], ops, sb, i, off0, addr);
    assert [] + ops == ops;
    OperationsSurvive(s0, ops, cuts, sb, d, txns, log, k, ks);
    var f := Recovered(Crashes(CrashedRun(d, txns, log, k), log, ks), log);
    ChunksSurvive(s0, ops, sb, i, off0, addr, cuts[Durable(txns, k)], f);
  }

  lemma ChunksSurvive(s0: State, ops: seq<Op>, sb: Super, i: nat, off0: nat, addr: seq<Byte>, m: nat, f: seq<Block>)
    requires FileOps(s0, ops, sb, i, off0, addr) && m <= |ops| && Rebooted(Preceding(s0, ops, m), f, sb)
    ensures Survived(s0, ops, sb, i, off0, addr, m, f)
  {
    if m > 0 {
      assert FileOp(s0, ops, sb, i, off0, addr, m - 1);
      WroteSame(s0, Preceding(s0, ops, m), f, sb, i, off0, addr[..Done(|addr|, m)]);
    }
  }
}
