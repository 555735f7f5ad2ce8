// log.c's admission protocol: begin_op reserves log space, log_write uses it,
// the last end_op commits.
module LogProto {
  import opened Bytes
  import opened LogSpec

  // blocks is log.lh.block[..log.lh.n]. ops has one entry for each operation
  // between begin_op and end_op: the distinct blocks it has logged so far, so
  // that |ops| is log.outstanding.
  datatype State = State(blocks: seq<Uint>, ops: seq<set<nat>>, committing: bool, asleep: set<nat>)

  // ---- reservation -----------------------------------------------------------

  // What the outstanding operations may still log
  function Room(ops: seq<set<nat>>): (r: int) {
    if ops == [] then 0 else Room(ops[..|ops|-1]) + MAXOPBLOCKS - |ops[|ops|-1]|
  }

  lemma {:induction false} RoomAt(ops: seq<set<nat>>, k: nat)
    requires k < |ops| && forall i | 0 <= i < |ops| :: |ops[i]| <= MAXOPBLOCKS
    ensures Room(ops) == Room(ops[..k] + ops[k+1..]) + MAXOPBLOCKS - |ops[k]|
    ensures 0 <= Room(ops[..k] + ops[k+1..]) && Room(ops) <= MAXOPBLOCKS * |ops|
  {
    var n := |ops| - 1;
    var rest := ops[..k] + ops[k+1..];
    if k == n {
      assert rest == ops[..n];
      RoomBounds(rest);
    } else {
      RoomAt(ops[..n], k);
      assert rest[..n-1] == ops[..n][..k] + ops[..n][k+1..] && rest[n-1] == ops[n];
    }
  }

  lemma {:induction false} RoomBounds(ops: seq<set<nat>>)
    requires forall i | 0 <= i < |ops| :: |ops[i]| <= MAXOPBLOCKS
    ensures 0 <= Room(ops) <= MAXOPBLOCKS * |ops|
  {
    if ops != [] {
      RoomBounds(ops[..|ops|-1]);
    }
  }

  lemma RoomUpdate(ops: seq<set<nat>>, k: nat, s: set<nat>)
    requires k < |ops| && |s| <= MAXOPBLOCKS && forall i | 0 <= i < |ops| :: |ops[i]| <= MAXOPBLOCKS
    ensures Room(ops[k := s]) == Room(ops) + |ops[k]| - |s|
  {
    RoomAt(ops, k);
    RoomAt(ops[k := s], k);
    assert ops[k := s][..k] + ops[k := s][k+1..] == ops[..k] + ops[k+1..];
  }

  // begin_op's test for log space
  predicate Full(p: State) {
    |p.blocks| + (|p.ops| + 1) * MAXOPBLOCKS > LOGSIZE
  }

  ghost predicate Inv(p: State) {
    && (forall i, j | 0 <= i < j < |p.blocks| :: p.blocks[i] != p.blocks[j])
    && (forall i | 0 <= i < |p.ops| :: |p.ops[i]| <= MAXOPBLOCKS && forall b :: b in p.ops[i] ==> b in p.blocks)
    && |p.blocks| + Room(p.ops) <= LOGSIZE
    && (p.committing ==> p.ops == [])
    && (p.ops == [] && !p.committing ==> p.blocks == [])
    && (p.asleep != {} ==> p.committing || Full(p))
  }

  // ---- the steps ---------------------------------------------------------------

  // One pass of begin_op's loop by process pid: sleep, or start an operation.
  function Begin(p: State, pid: nat): (q: State) {
    if p.committing || Full(p) then p.(asleep := p.asleep + {pid})
    else p.(ops := p.ops + [{}])
  }

  // log_write of block b by operation k, when it does not panic
  function Logged(p: State, k: nat, b: Uint): (q: State)
    requires k < |p.ops|
  {
    p.(blocks := if b in p.blocks then p.blocks else p.blocks + [b], ops := p.ops[k := p.ops[k] + {b}])
  }

  predicate TooBig(p: State, size: nat) {
    |p.blocks| >= LOGSIZE || |p.blocks| >= size - 1
  }

  // end_op of operation k, up to the commit it may start
  function End(p: State, k: nat): (q: State)
    requires k < |p.ops|
  {
    var ops := p.ops[..k] + p.ops[k+1..];
    if ops == [] then p.(ops := [], committing := true) else p.(ops := ops, asleep := {})
  }

  // end_op after commit() has emptied the log
  function Committed(p: State): (q: State) {
    p.(blocks := [], committing := false, asleep := {})
  }

  // An operation keeps within its share of the log.
  predicate InBudget(p: State, k: nat, b: nat)
    requires k < |p.ops|
  {
    b in p.ops[k] || |p.ops[k]| < MAXOPBLOCKS
  }

  lemma BeginKeeps(p: State, pid: nat)
    requires Inv(p)
    ensures Inv(Begin(p, pid))
  {
    var q := Begin(p, pid);
    RoomBounds(p.ops);
    if !(p.committing || Full(p)) {
      assert q.ops[..|q.ops|-1] == p.ops;
    }
  }

  lemma LoggedKeeps(p: State, k: nat, b: Uint)
    requires Inv(p) && k < |p.ops| && InBudget(p, k, b)
    ensures Inv(Logged(p, k, b))
    ensures b !in p.blocks ==> |p.blocks| < LOGSIZE
  {
    var q := Logged(p, k, b);
    RoomAt(p.ops, k);
    RoomUpdate(p.ops, k, q.ops[k]);
    assert b in p.ops[k] ==> q.ops[k] == p.ops[k];
    forall i, c | 0 <= i < |q.ops| && c in q.ops[i] ensures c in q.blocks {
      if c !in p.blocks {
        assert q.blocks[|p.blocks|] == b;
      }
    }
  }

  lemma EndKeeps(p: State, k: nat)
    requires Inv(p) && k < |p.ops|
    ensures !p.committing && Inv(End(p, k))
  {
    RoomAt(p.ops, k);
    RoomBounds(p.ops[..k] + p.ops[k+1..]);
  }

  lemma CommittedKeeps(p: State)
    requires Inv(p) && p.committing
    ensures Inv(Committed(p))
  {
  }

  // A process asleep in begin_op is never stranded: a commit is running or an
  // operation is outstanding, and either will wake it.
  lemma SleepersWillBeWoken(p: State)
    requires Inv(p) && p.asleep != {}
    ensures p.committing || p.ops != []
  {
  }

  // ---- whole runs -----------------------------------------------------------------

  datatype Step = SBegin(pid: nat) | SLog(op: nat, b: Uint) | SEnd(op: nat) | SCommit

  // A step the file system may take on a disk of n blocks: inside its budget, of a block
  // that is not the log's, and not a panic
  predicate Legal(p: State, s: Step, log: Area, n: nat) {
    match s
    case SBegin(_) => true
    case SLog(k, b) => k < |p.ops| && InBudget(p, k, b) && Outside(b, log, n) && !TooBig(p, log.size)
    case SEnd(k) => k < |p.ops|
    case SCommit => p.committing
  }

  // A block of the disk that is not part of the log
  predicate Outside(b: nat, log: Area, n: nat) {
    b < n && !log.Has(b)
  }

  // The disk has a full transaction's worth of blocks behind its log.
  predicate Ample(log: Area, n: nat) {
    0 < log.size && log.start + log.size + LOGSIZE <= n <= U32
  }

  // What mkfs makes of FSSIZE blocks: the log is in blocks 2 to LOGSIZE + 1.
  const MKFSLOG: Area := Area(2, LOGSIZE)

  function Next(p: State, s: Step): (q: State) {
    match s
    case SBegin(pid) => Begin(p, pid)
    case SLog(k, b) => if k < |p.ops| then Logged(p, k, b) else p
    case SEnd(k) => if k < |p.ops| then End(p, k) else p
    case SCommit => Committed(p)
  }

  const START: State := State([], [], false, {})

  function Run(ss: seq<Step>): (p: State) {
    if ss == [] then START else Next(Run(ss[..|ss|-1]), ss[|ss|-1])
  }

  predicate LegalRun(ss: seq<Step>, log: Area, n: nat) {
    ss == [] || (LegalRun(ss[..|ss|-1], log, n) && Legal(Run(ss[..|ss|-1]), ss[|ss|-1], log, n))
  }

  lemma {:induction false} RunKeeps(ss: seq<Step>, log: Area, n: nat)
    requires LegalRun(ss, log, n)
    ensures Inv(Run(ss))
  {
    if ss != [] {
      var p := Run(ss[..|ss|-1]);
      RunKeeps(ss[..|ss|-1], log, n);
      match ss[|ss|-1]
      case SBegin(pid) => BeginKeeps(p, pid);
      case SLog(k, b) => LoggedKeeps(p, k, b);
      case SEnd(k) => EndKeeps(p, k);
      case SCommit => CommittedKeeps(p);
    }
  }

  // After a legal run a process that calls begin_op gets an operation exactly if no commit is
  // running and the logged blocks leave room for full shares of it and of the operations under
  // way; otherwise it sleeps. Nothing else changes.
  lemma AdmissionExact(ss: seq<Step>, pid: nat, log: Area, n: nat)
    requires LegalRun(ss, log, n)
    ensures LegalRun(ss + [SBegin(pid)], log, n)
    ensures var p, q := Run(ss), Run(ss + [SBegin(pid)]);
      if !p.committing && |p.blocks| + (|p.ops| + 1) * MAXOPBLOCKS <= LOGSIZE
      then q == State(p.blocks, p.ops + [{}], false, p.asleep)
      else q == State(p.blocks, p.ops, p.committing, p.asleep + {pid})
  {
    Extend(ss, SBegin(pid), log, n);
  }

  // So a process that finds neither operation nor commit under way is admitted, and one that
  // sleeps outside a commit waits for operations whose shares take up the log.
  lemma IdleAdmits(ss: seq<Step>, pid: nat, log: Area, n: nat)
    requires LegalRun(ss, log, n) && !Run(ss).committing
    ensures Run(ss).ops == [] ==> Run(ss + [SBegin(pid)]) == State([], [{}], false, {})
    ensures Run(ss).asleep != {} ==> |Run(ss).blocks| + |Run(ss).ops| * MAXOPBLOCKS > LOGSIZE - MAXOPBLOCKS
  {
    RunKeeps(ss, log, n);
    AdmissionExact(ss, pid, log, n);
  }

  // The end of an operation keeps what is logged and wakes every sleeper, unless it was the last
  // one; then its commit starts and, when it is done, does so.
  lemma EndExact(ss: seq<Step>, k: nat, log: Area, n: nat)
    requires LegalRun(ss, log, n) && k < |Run(ss).ops|
    ensures var p, q := Run(ss), Run(ss + [SEnd(k)]);
      && q.blocks == p.blocks && q.ops == p.ops[..k] + p.ops[k+1..] && (q.committing <==> |p.ops| == 1)
      && q.asleep == (if |p.ops| == 1 then p.asleep else {})
      && (q.committing ==> Run(ss + [SEnd(k)] + [SCommit]) == State([], [], false, {}))
  {
    RunKeeps(ss, log, n);
    EndKeeps(Run(ss), k);
    Extend(ss, SEnd(k), log, n);
    if |Run(ss).ops| == 1 {
      Extend(ss + [SEnd(k)], SCommit, log, n);
    }
  }

  // A write of block b adds it to the log if it is not there, and to what its operation has logged.
  lemma LogExact(ss: seq<Step>, k: nat, b: Uint, log: Area, n: nat)
    requires LegalRun(ss, log, n) && Legal(Run(ss), SLog(k, b), log, n)
    ensures var p, q := Run(ss), Run(ss + [SLog(k, b)]);
      && |p.blocks| < LOGSIZE && |p.blocks| < log.size - 1
      && q.blocks == (if b in p.blocks then p.blocks else p.blocks + [b])
      && q == State(q.blocks, p.ops[k := p.ops[k] + {b}], p.committing, p.asleep)
  {
    Extend(ss, SLog(k, b), log, n);
  }

  // After a legal run, a write within budget that needs a new slot fits in the log.
  ghost predicate NewSlotsFit(ss: seq<Step>, log: Area, n: nat) {
    var p := Run(ss);
    forall k: nat, b: Uint | k < |p.ops| && InBudget(p, k, b) && Outside(b, log, n) && b !in p.blocks ::
      !TooBig(p, log.size)
  }

  // The reservation of MAXOPBLOCKS blocks an operation keeps log_write from
  // panicking on new blocks exactly when the log holds LOGSIZE copies beside its
  // header. With mkfs's nlog == LOGSIZE it does not.
  lemma ReservationExact(log: Area, n: nat)
    requires Ample(log, n)
    ensures (forall ss | LegalRun(ss, log, n) :: NewSlotsFit(ss, log, n)) <==> log.size - 1 >= LOGSIZE
  {
    if log.size - 1 >= LOGSIZE {
      forall ss | LegalRun(ss, log, n) ensures NewSlotsFit(ss, log, n) {
        ReservationSuffices(ss, log, n);
      }
    } else {
      SmallLogPanics(log, n);
    }
  }

  lemma ReservationSuffices(ss: seq<Step>, log: Area, n: nat)
    requires LegalRun(ss, log, n) && log.size - 1 >= LOGSIZE
    ensures NewSlotsFit(ss, log, n)
  {
    var p := Run(ss);
    RunKeeps(ss, log, n);
    forall k: nat, b: Uint | k < |p.ops| && InBudget(p, k, b) && Outside(b, log, n) && b !in p.blocks
      ensures !TooBig(p, log.size)
    {
      LoggedKeeps(p, k, b);
    }
  }

  lemma SmallLogPanics(log: Area, n: nat)
    requires Ample(log, n) && log.size <= LOGSIZE
    ensures var ss := Busy(log, log.size - 1);
      LegalRun(ss, log, n) && !NewSlotsFit(ss, log, n)
  {
    BusyRun(log.size - 1, log, n);
    BusyPanics(Busy(log, log.size - 1), log, n);
  }

  lemma BusyPanics(ss: seq<Step>, log: Area, n: nat)
    requires Ample(log, n) && log.size <= LOGSIZE && BusyState(Run(ss), Past(log), log.size - 1)
    ensures !NewSlotsFit(ss, log, n)
  {
    var p, m := Run(ss), log.size - 1;
    var b: Uint := Past(log) + m;
    BusyStep(p, Past(log), m / 10, m % 10, m, b);
    assert m / 10 < |p.ops| && InBudget(p, m / 10, b) && Outside(b, log, n) && b !in p.blocks && TooBig(p, log.size);
  }

  // With room for LOGSIZE copies a write that would be absorbed can still
  // panic: log_write tests for a full log before it looks for the block.
  lemma AbsorbedWritePanics(log: Area, n: nat)
    requires Ample(log, n) && log.size - 1 >= LOGSIZE
    ensures var ss, b := Busy(log, LOGSIZE), Past(log);
      var p := Run(ss);
      && LegalRun(ss, log, n) && |p.ops| == 3 && InBudget(p, 0, b) && Outside(b, log, n) && b in p.blocks
      && TooBig(p, log.size)
  {
    BusyRun(LOGSIZE, log, n);
    assert Run(Busy(log, LOGSIZE)).blocks[0] == Past(log);
  }

  // ---- enough buffers -------------------------------------------------------------

  // The most blocks log_write lets one transaction record
  function Most(size: nat): (n: nat) {
    if size > LOGSIZE then LOGSIZE else if size > 0 then size - 1 else 0
  }

  // While other processes hold r buffers, commit() of the log finds its own.
  predicate CommitFits(p: State, r: nat, nbuf: nat) {
    p.blocks == [] || |p.blocks| + r < nbuf
  }

  // While u buffers of blocks that are not in the log are held, by readers or by the operations
  // themselves, bread of one more such block finds a buffer.
  predicate BreadFits(p: State, u: nat, nbuf: nat) {
    |p.blocks| + u < nbuf
  }

  lemma {:induction false} RunBound(ss: seq<Step>, log: Area, n: nat)
    requires LegalRun(ss, log, n)
    ensures |Run(ss).blocks| <= Most(log.size)
  {
    if ss != [] {
      RunBound(ss[..|ss|-1], log, n);
    }
  }

  // No commit of a legal run ends in "bget: no buffers" exactly when a full transaction and the
  // r buffers that other processes hold are fewer than the cache has.
  lemma CommitExact(log: Area, n: nat, r: nat, nbuf: nat)
    requires Ample(log, n) && log.size > 1
    ensures (forall ss | LegalRun(ss, log, n) && Run(ss).committing :: CommitFits(Run(ss), r, nbuf)) <==>
      Most(log.size) + r < nbuf
  {
    if Most(log.size) + r < nbuf {
      forall ss | LegalRun(ss, log, n) && Run(ss).committing ensures CommitFits(Run(ss), r, nbuf) {
        RunBound(ss, log, n);
      }
    } else {
      BusyCommits(Most(log.size), log, n);
    }
  }

  // The same for a bread outside commit, by an operation or by a reader: the panic is kept away
  // exactly when a full transaction and the u other held buffers are fewer than the cache has.
  lemma BreadExact(log: Area, n: nat, u: nat, nbuf: nat)
    requires Ample(log, n)
    ensures (forall ss | LegalRun(ss, log, n) && Run(ss).ops != [] :: BreadFits(Run(ss), u, nbuf)) <==>
      Most(log.size) + u < nbuf
  {
    if Most(log.size) + u < nbuf {
      forall ss | LegalRun(ss, log, n) && Run(ss).ops != [] ensures BreadFits(Run(ss), u, nbuf) {
        RunBound(ss, log, n);
      }
    } else {
      BusyRun(Most(log.size), log, n);
      assert Run(Busy(log, Most(log.size))).ops != [];
    }
  }

  // mkfs's log is one block too small to fill the cache, so a commit fits if nobody else
  // holds a buffer;
  lemma MkfsCommitFits(ss: seq<Step>)
    requires LegalRun(ss, MKFSLOG, FSSIZE) && Run(ss).committing
    ensures CommitFits(Run(ss), 0, NBUF)
  {
    CommitExact(MKFSLOG, FSSIZE, 0, NBUF);
  }

  // but one reader that holds a buffer is too many for three busy operations.
  lemma MkfsReaderPanics()
    ensures var ss := Busy(MKFSLOG, LOGSIZE - 1) + Ends();
      LegalRun(ss, MKFSLOG, FSSIZE) && Run(ss).committing && !CommitFits(Run(ss), 1, NBUF)
  {
    BusyCommits(LOGSIZE - 1, MKFSLOG, FSSIZE);
  }

  // Before that commit the third operation cannot read a block if any of the three still holds
  // one it has not logged.
  lemma MkfsBreadPanics(u: nat)
    ensures var ss := Busy(MKFSLOG, LOGSIZE - 1);
      LegalRun(ss, MKFSLOG, FSSIZE) && |Run(ss).ops| == 3 && (BreadFits(Run(ss), u, NBUF) <==> u == 0)
  {
    BusyRun(LOGSIZE - 1, MKFSLOG, FSSIZE);
  }

  // With one more log block the same three operations fill the cache by themselves.
  lemma FullCommitPanics(log: Area, n: nat)
    requires Ample(log, n) && log.size > LOGSIZE
    ensures var ss := Busy(log, LOGSIZE) + Ends();
      LegalRun(ss, log, n) && Run(ss).committing && !CommitFits(Run(ss), 0, NBUF)
  {
    BusyCommits(LOGSIZE, log, n);
  }

  // The three operations of a busy run end, one after the other.
  function Ends(): (ss: seq<Step>) {
    [SEnd(0), SEnd(0), SEnd(0)]
  }

  lemma BusyCommits(m: nat, log: Area, n: nat)
    requires Ample(log, n) && m <= LOGSIZE && m <= log.size - 1
    ensures var ss := Busy(log, m) + Ends();
      LegalRun(ss, log, n) && Run(ss).committing && |Run(ss).blocks| == m
  {
    BusyRun(m, log, n);
    ThreeEnd(Busy(log, m), log, n);
  }

  lemma ThreeEnd(ss: seq<Step>, log: Area, n: nat)
    requires LegalRun(ss, log, n) && |Run(ss).ops| == 3
    ensures var tt := ss + Ends();
      LegalRun(tt, log, n) && Run(tt).committing && Run(tt).blocks == Run(ss).blocks
  {
    var e := SEnd(0);
    OneEnds(ss, log, n);
    OneEnds(ss + [e], log, n);
    OneEnds(ss + [e] + [e], log, n);
    assert ss + [e] + [e] + [e] == ss + Ends();
  }

  lemma OneEnds(ss: seq<Step>, log: Area, n: nat)
    requires LegalRun(ss, log, n) && Run(ss).ops != []
    ensures var p, q := Run(ss), Run(ss + [SEnd(0)]);
      && LegalRun(ss + [SEnd(0)], log, n) && q.blocks == p.blocks && |q.ops| == |p.ops| - 1
      && (|p.ops| == 1 ==> q.committing)
  {
    Extend(ss, SEnd(0), log, n);
  }

  // The first block behind the log
  function Past(log: Area): (b: nat) {
    log.start + log.size
  }

  // Three operations, ten distinct blocks each, the m blocks behind the log in all
  function Busy(log: Area, m: nat): (ss: seq<Step>)
    requires m <= LOGSIZE && log.start + log.size + LOGSIZE <= U32
  {
    if m == 0 then [SBegin(0), SBegin(0), SBegin(0)]
    else Busy(log, m - 1) + [BusyLog(log, m - 1)]
  }

  function BusyLog(log: Area, i: nat): (s: Step)
    requires log.start + log.size + i < U32
  {
    SLog(i / MAXOPBLOCKS, Past(log) + i)
  }

  // How many of the m blocks fall to operation k
  function Share(m: nat, k: nat): (n: nat) {
    if m <= 10 * k then 0 else if m <= 10 * k + 10 then m - 10 * k else 10
  }

  lemma Extend(ss: seq<Step>, s: Step, log: Area, n: nat)
    requires LegalRun(ss, log, n) && Legal(Run(ss), s, log, n)
    ensures LegalRun(ss + [s], log, n) && Run(ss + [s]) == Next(Run(ss), s)
  {
    assert (ss + [s])[..|ss|] == ss;
  }

  ghost predicate BusyState(p: State, base: nat, m: nat) {
    && |p.blocks| == m && (forall i | 0 <= i < m :: p.blocks[i] == base + i) && !p.committing
    && |p.ops| == 3 && (m > 0 ==> base in p.ops[0])
    && forall k | 0 <= k < 3 :: |p.ops[k]| == Share(m, k) && forall b | b in p.ops[k] :: b < base + m
  }

  lemma ShareStep(k: nat, n: nat, j: nat)
    requires k < 3 && n < 10 && j < 3
    ensures Share(10 * k + n, k) == n
    ensures Share(10 * k + n + 1, j) == Share(10 * k + n, j) + if j == k then 1 else 0
  {
  }

  // Operation k logs its n-th block, the m-th of all.
  lemma BusyStep(p: State, base: nat, k: nat, n: nat, m: nat, b: Uint)
    requires k < 3 && n < 10 && m == 10 * k + n && b == base + m && BusyState(p, base, m)
    ensures InBudget(p, k, b) && b !in p.blocks && BusyState(Logged(p, k, b), base, m + 1)
  {
    var q := Logged(p, k, b);
    ShareStep(k, n, k);
    forall j | 0 <= j < 3 ensures |q.ops[j]| == Share(m + 1, j) {
      ShareStep(k, n, j);
    }
  }

  lemma ThreeBegun(log: Area, n: nat)
    requires Ample(log, n)
    ensures LegalRun(Busy(log, 0), log, n) && Run(Busy(log, 0)) == START.(ops := [{}, {}, {}])
  {
    var b := SBegin(0);
    assert LegalRun([], log, n) && Run([]) == START;
    Extend([], b, log, n);
    assert [] + [b] == [b];
    Extend([b], b, log, n);
    assert [b] + [b] == [b, b];
    Extend([b, b], b, log, n);
    assert [b, b] + [b] == Busy(log, 0);
  }

  lemma {:induction false} BusyRun(m: nat, log: Area, n: nat)
    requires Ample(log, n) && m <= LOGSIZE && m <= log.size - 1
    ensures LegalRun(Busy(log, m), log, n) && BusyState(Run(Busy(log, m)), Past(log), m)
  {
    if m == 0 {
      ThreeBegun(log, n);
    } else {
      BusyRun(m - 1, log, n);
      BusyExtend(Busy(log, m - 1), m - 1, log, n);
    }
  }

  lemma BusyExtend(ss: seq<Step>, m: nat, log: Area, n: nat)
    requires Ample(log, n) && m < LOGSIZE && m < log.size - 1 && LegalRun(ss, log, n)
    requires BusyState(Run(ss), Past(log), m)
    ensures var tt := ss + [BusyLog(log, m)];
      LegalRun(tt, log, n) && BusyState(Run(tt), Past(log), m + 1)
  {
    var p, k, j, b := Run(ss), m / MAXOPBLOCKS, m % MAXOPBLOCKS, Past(log) + m;
    assert m == 10 * k + j && k < 3;
    BusyStep(p, Past(log), k, j, m, b);
    BusyLegal(p, k, b, log, n);
    var s := SLog(k, b);
    Extend(ss, s, log, n);
    assert Next(p, s) == Logged(p, k, b) && BusyLog(log, m) == s;
  }

  lemma BusyLegal(p: State, k: nat, b: Uint, log: Area, n: nat)
    requires k < |p.ops| && InBudget(p, k, b) && Past(log) <= b < n && |p.blocks| < LOGSIZE && |p.blocks| < log.size - 1
    ensures Legal(p, SLog(k, b), log, n)
  {
  }
}
