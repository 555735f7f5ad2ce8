// The redo log as a protocol on the disk: the writes commit() and
// recover_from_log() issue, in order, and what survives a crash between any two.
module LogSpec {
  import opened Bytes
  import opened Memide


  // ---- the header block ------------------------------------------------------

  function HeadN(b: Block): (n: Uint) {
    Word(b, 0)
  }

  function HeadBlocks(b: Block): (bs: seq<Uint>)
    requires HeadN(b) <= LOGSIZE
    ensures |bs| == HeadN(b)
  {
    seq(HeadN(b), i requires 0 <= i < LOGSIZE => Word(b, 1 + i))
  }

  // write_head overwrites the count and as many entries as it counts.
  function SetHead(b: Block, bs: seq<Uint>): (r: Block)
    requires |bs| <= LOGSIZE
  {
    PutWords(PutWord(b, 0, |bs|), 1, bs)
  }

  // read_head finds what write_head wrote, whatever the block held before.
  lemma HeadRoundTrip(b: Block, bs: seq<Uint>)
    requires |bs| <= LOGSIZE
    ensures HeadN(SetHead(b, bs)) == |bs| && HeadBlocks(SetHead(b, bs)) == bs
  {
    var c := PutWord(b, 0, |bs|);
    WordOfPut(b, 0, |bs|, 0);
    WordOfPuts(c, 1, bs, 0);
    forall i | 0 <= i < |bs| ensures Word(SetHead(b, bs), 1 + i) == bs[i] {
      WordOfPuts(c, 1, bs, 1 + i);
    }
  }

  // ---- the writes --------------------------------------------------------------

  // write_log: the cached contents of the logged blocks, into the log
  function LogWrites(cs: seq<Block>, log: Area): (ws: seq<Write>) {
    seq(|cs|, i requires 0 <= i < |cs| => Write(log.start + 1 + i, cs[i]))
  }

  // The contents of the blocks bs
  function Copies(view: seq<Block>, bs: seq<Uint>): (cs: seq<Block>)
    requires forall i | 0 <= i < |bs| :: bs[i] < |view|
    ensures |cs| == |bs| && forall i | 0 <= i < |bs| :: cs[i] == view[bs[i]]
  {
    seq(|bs|, i requires 0 <= i < |bs| => view[bs[i]])
  }

  function SetOf(bs: seq<Uint>): (s: set<nat>) {
    set b | b in bs
  }

  lemma {:induction false} SetOfSize(bs: seq<Uint>)
    requires forall i, j | 0 <= i < j < |bs| :: bs[i] != bs[j]
    ensures |SetOf(bs)| == |bs|
  {
    if bs != [] {
      var n := |bs| - 1;
      SetOfSize(bs[..n]);
      assert SetOf(bs) == SetOf(bs[..n]) + {bs[n]};
    }
  }

  // install_trans: those contents, to their home locations
  function InstallWrites(cs: seq<Block>, bs: seq<Uint>): (ws: seq<Write>)
    requires |cs| == |bs|
  {
    seq(|bs|, i requires 0 <= i < |bs| => Write(bs[i], cs[i]))
  }

  // commit() of contents cs of blocks bs, over the old header block
  function CommitWrites(head: Block, cs: seq<Block>, bs: seq<Uint>, log: Area): (ws: seq<Write>)
    requires |cs| == |bs| <= LOGSIZE
    ensures |ws| == 2 * |bs| + 2
  {
    LogWrites(cs, log) + [Write(log.start, SetHead(head, bs))]
    + (InstallWrites(cs, bs) + [Write(log.start, SetHead(SetHead(head, bs), []))])
  }

  // The count is the first word of the header, and the entries are the next ones.
  lemma HeadLayout(b: Block, bs: seq<Uint>)
    requires |bs| <= LOGSIZE
    ensures Word(SetHead(b, bs), 0) == |bs| && forall i | 0 <= i < |bs| :: Word(SetHead(b, bs), 1 + i) == bs[i]
  {
    HeadRoundTrip(b, bs);
    forall i | 0 <= i < |bs| ensures Word(SetHead(b, bs), 1 + i) == bs[i] {
      assert HeadBlocks(SetHead(b, bs))[i] == bs[i];
    }
  }

  lemma Sequel<T>(a: seq<T>, x: T, b: seq<T>, y: T, m: nat)
    requires |a| == |b| == m
    ensures var s := a + [x] + (b + [y]);
      && (forall i | 0 <= i < m :: s[i] == a[i]) && s[m] == x
      && (forall i | 0 <= i < m :: s[m + 1 + i] == b[i]) && s[2 * m + 1] == y
  {
  }

  lemma CommitOrder(head: Block, cs: seq<Block>, bs: seq<Uint>, log: Area)
    requires |cs| == |bs| <= LOGSIZE
    ensures var ws, m, h := CommitWrites(head, cs, bs, log), |bs|, SetHead(head, bs);
      && (forall i | 0 <= i < m :: ws[i] == Write(log.start + 1 + i, cs[i])) && ws[m] == Write(log.start, h)
      && (forall i | 0 <= i < m :: ws[m + 1 + i] == Write(bs[i], cs[i]))
      && ws[2 * m + 1] == Write(log.start, SetHead(h, []))
  {
    var h := SetHead(head, bs);
    Sequel(LogWrites(cs, log), Write(log.start, h), InstallWrites(cs, bs), Write(log.start, SetHead(h, [])), |bs|);
  }

  // Write by write: the copies go behind the header's block in the order of the list, then the
  // header counts and lists the blocks, then the same contents go home, and the header counts none.
  lemma {:induction false} CommitLayout(head: Block, cs: seq<Block>, bs: seq<Uint>, log: Area)
    requires |cs| == |bs| <= LOGSIZE
    ensures var ws, m := CommitWrites(head, cs, bs, log), |bs|;
      && (forall i | 0 <= i < m :: ws[i].bno == log.start + 1 + i && ws[i].data == cs[i])
      && ws[m].bno == log.start && Word(ws[m].data, 0) == m
      && (forall i | 0 <= i < m :: Word(ws[m].data, 1 + i) == bs[i])
      && (forall i | 0 <= i < m :: ws[m + 1 + i].bno == bs[i] && ws[m + 1 + i].data == cs[i])
      && ws[2 * m + 1].bno == log.start && Word(ws[2 * m + 1].data, 0) == 0
  {
    HeadLayout(head, bs);
    HeadLayout(SetHead(head, bs), []);
    CommitOrder(head, cs, bs, log);
  }

  // Recovery installs what the header on disk counts, from the copies behind it.
  lemma RecoveryLayout(d: seq<Block>, log: Area)
    requires WellFormed(d, log)
    ensures var ws, m := RecoveryWrites(d, log), Word(d[log.start], 0);
      && |ws| == m + 1 && ws[m].bno == log.start && Word(ws[m].data, 0) == 0
      && forall i | 0 <= i < m :: ws[i].bno == Word(d[log.start], 1 + i) && ws[i].data == d[log.start + 1 + i]
  {
    HeadRoundTrip(d[log.start], []);
  }

  // recover_from_log(): read_head, install_trans, write_head
  function RecoveryWrites(d: seq<Block>, log: Area): (ws: seq<Write>)
    requires WellFormed(d, log)
  {
    var bs := HeadBlocks(d[log.start]);
    InstallWrites(Logged(d, log), bs) + [Write(log.start, SetHead(d[log.start], []))]
  }

  // The copies in the log that the header counts
  function Logged(d: seq<Block>, log: Area): (cs: seq<Block>)
    requires WellFormed(d, log)
    ensures |cs| == HeadN(d[log.start])
  {
    d[log.start + 1..log.start + 1 + HeadN(d[log.start])]
  }

  // ---- disks a crash can leave behind --------------------------------------------

  // log.start and log.size: the header block and the blocks for the copies
  datatype Area = Area(start: nat, size: nat) {
    predicate Has(b: int) {
      start <= b < start + size
    }
  }

  // Distinct blocks outside the log, few enough to be copied into it
  predicate Loggable(bs: seq<Uint>, log: Area, n: nat)
  {
    && |bs| <= LOGSIZE && |bs| < log.size && log.start + log.size <= n
    && (forall i | 0 <= i < |bs| :: bs[i] < n && !log.Has(bs[i]))
    && (forall i, j | 0 <= i < j < |bs| :: bs[i] != bs[j])
  }

  predicate WellFormed(d: seq<Block>, log: Area)
  {
    log.start < |d| && HeadN(d[log.start]) <= LOGSIZE && Loggable(HeadBlocks(d[log.start]), log, |d|)
  }

  // What block b holds once the log in d has been replayed
  ghost function Home(d: seq<Block>, log: Area, b: nat): (r: Block)
    requires WellFormed(d, log) && b < |d|
  {
    var bs := HeadBlocks(d[log.start]);
    if b in bs then (var i :| 0 <= i < |bs| && bs[i] == b; Logged(d, log)[i]) else d[b]
  }

  lemma HomeAt(d: seq<Block>, log: Area, i: nat)
    requires WellFormed(d, log) && i < HeadN(d[log.start])
    ensures Home(d, log, HeadBlocks(d[log.start])[i]) == Logged(d, log)[i]
  {
  }

  // The same replayed contents in every block outside the log
  ghost predicate SameHome(d: seq<Block>, e: seq<Block>, log: Area)
    requires WellFormed(d, log) && WellFormed(e, log) && |d| == |e|
  {
    forall b | 0 <= b < |d| && !log.Has(b) :: Home(e, log, b) == Home(d, log, b)
  }

  // ---- how a list of writes changes a disk ---------------------------------------

  lemma {:induction false} Untouched(d: seq<Block>, ws: seq<Write>, b: nat)
    requires InRange(ws, |d|) && b < |d| && forall i | 0 <= i < |ws| :: ws[i].bno != b
    ensures Apply(d, ws)[b] == d[b]
  {
    if ws != [] {
      Untouched(d, ws[..|ws|-1], b);
    }
  }

  lemma {:induction false} Touched(d: seq<Block>, ws: seq<Write>, k: nat)
    requires InRange(ws, |d|) && k < |ws| && forall i | k < i < |ws| :: ws[i].bno != ws[k].bno
    ensures Apply(d, ws)[ws[k].bno] == ws[k].data
  {
    if k < |ws| - 1 {
      Touched(d, ws[..|ws|-1], k);
    }
  }

  // The disk after the first k blocks have been installed
  ghost function Installed(d: seq<Block>, bs: seq<Uint>, cs: seq<Block>, k: nat): (e: seq<Block>)
    requires |cs| == |bs| && k <= |bs| && forall i | 0 <= i < |bs| :: bs[i] < |d|
    ensures |e| == |d|
  {
    Apply(d, InstallWrites(cs, bs)[..k])
  }

  lemma InstalledAt(d: seq<Block>, bs: seq<Uint>, cs: seq<Block>, k: nat)
    requires |cs| == |bs| && k <= |bs| && forall i | 0 <= i < |bs| :: bs[i] < |d|
    requires forall i, j | 0 <= i < j < |bs| :: bs[i] != bs[j]
    ensures var e := Installed(d, bs, cs, k);
      && (forall i | 0 <= i < |bs| :: e[bs[i]] == if i < k then cs[i] else d[bs[i]])
      && (forall b | 0 <= b < |d| && b !in bs :: e[b] == d[b])
  {
    var ws := InstallWrites(cs, bs)[..k];
    forall i | 0 <= i < |bs| ensures Apply(d, ws)[bs[i]] == if i < k then cs[i] else d[bs[i]] {
      if i < k {
        Touched(d, ws, i);
      } else {
        Untouched(d, ws, bs[i]);
      }
    }
    forall b | 0 <= b < |d| && b !in bs ensures Apply(d, ws)[b] == d[b] {
      Untouched(d, ws, b);
    }
  }

  // Installing some of the blocks changes no replayed contents; installing all
  // of them puts the replayed contents in place.
  lemma PartialInstall(d: seq<Block>, log: Area, k: nat)
    requires WellFormed(d, log) && k <= HeadN(d[log.start])
    ensures var e := Installed(d, HeadBlocks(d[log.start]), Logged(d, log), k);
      && WellFormed(e, log) && e[log.start] == d[log.start] && SameHome(d, e, log)
      && (k == HeadN(d[log.start]) ==> forall b | 0 <= b < |d| && !log.Has(b) :: e[b] == Home(d, log, b))
  {
    var bs, cs := HeadBlocks(d[log.start]), Logged(d, log);
    var e := Installed(d, bs, cs, k);
    InstalledAt(d, bs, cs, k);
    assert Logged(e, log) == cs;
    forall b | 0 <= b < |d| && !log.Has(b)
      ensures Home(e, log, b) == Home(d, log, b) && (k == |bs| ==> e[b] == Home(d, log, b))
    {
      if b in bs {
        var i :| 0 <= i < |bs| && bs[i] == b;
        HomeAt(d, log, i);
        HomeAt(e, log, i);
      }
    }
  }

  // Clearing the header leaves a disk whose replayed contents are its contents.
  lemma ClearedHead(d: seq<Block>, log: Area)
    requires WellFormed(d, log)
    ensures var e := d[log.start := SetHead(d[log.start], [])];
      WellFormed(e, log) && HeadN(e[log.start]) == 0
      && forall b | 0 <= b < |d| && b != log.start :: Home(e, log, b) == d[b]
  {
    HeadRoundTrip(d[log.start], []);
  }

  // ---- crashes ---------------------------------------------------------------------

  ghost function Prefix(ws: seq<Write>, k: nat): (r: seq<Write>) {
    if k < |ws| then ws[..k] else ws
  }

  // The disk after a recovery that a crash stopped after k block writes
  ghost function CrashedRecovery(d: seq<Block>, log: Area, k: nat): (e: seq<Block>)
    requires WellFormed(d, log)
    ensures |e| == |d|
  {
    Apply(d, Prefix(RecoveryWrites(d, log), k))
  }

  ghost function Recovered(d: seq<Block>, log: Area): (e: seq<Block>)
    requires WellFormed(d, log)
    ensures |e| == |d|
  {
    Apply(d, RecoveryWrites(d, log))
  }

  // Recovery cut short anywhere leaves the replayed contents as they were;
  // recovery run to the end puts them in place and empties the log.
  lemma RecoveryPrefix(d: seq<Block>, log: Area, k: nat)
    requires WellFormed(d, log)
    ensures var e := CrashedRecovery(d, log, k);
      && WellFormed(e, log) && SameHome(d, e, log)
      && (k > HeadN(d[log.start]) ==> e == Recovered(d, log) && HeadN(e[log.start]) == 0)
      && (k > HeadN(d[log.start]) ==> forall b | 0 <= b < |d| && !log.Has(b) :: e[b] == Home(d, log, b))
  {
    var n, bs, cs := HeadN(d[log.start]), HeadBlocks(d[log.start]), Logged(d, log);
    var ws, iw := RecoveryWrites(d, log), InstallWrites(cs, bs);
    PartialInstall(d, log, if k <= n then k else n);
    if k <= n {
      assert Prefix(ws, k) == iw[..k];
    } else {
      assert Prefix(ws, k) == ws && ws[..|ws|-1] == iw == iw[..n];
      ClearedHead(Installed(d, bs, cs, n), log);
    }
  }

  // Any number of crashes, each after some number of recovery's writes
  ghost function Crashes(d: seq<Block>, log: Area, ks: seq<nat>): (e: seq<Block>)
    requires WellFormed(d, log)
    ensures |e| == |d|
    decreases ks
  {
    if ks == [] then d
    else
      RecoveryPrefix(d, log, ks[0]);
      Crashes(CrashedRecovery(d, log, ks[0]), log, ks[1..])
  }

  lemma {:induction false} CrashesKeepHome(d: seq<Block>, log: Area, ks: seq<nat>)
    requires WellFormed(d, log)
    ensures WellFormed(Crashes(d, log, ks), log) && SameHome(d, Crashes(d, log, ks), log)
    decreases ks
  {
    if ks != [] {
      RecoveryPrefix(d, log, ks[0]);
      var e := CrashedRecovery(d, log, ks[0]);
      CrashesKeepHome(e, log, ks[1..]);
      SameHomeTransitive(d, e, Crashes(e, log, ks[1..]), log);
    }
  }

  lemma SameHomeTransitive(d: seq<Block>, e: seq<Block>, f: seq<Block>, log: Area)
    requires WellFormed(d, log) && WellFormed(e, log) && WellFormed(f, log) && |d| == |e| == |f|
    requires SameHome(d, e, log) && SameHome(e, f, log)
    ensures SameHome(d, f, log)
  {
  }

  // ---- the commit point --------------------------------------------------------------

  // What a transaction writing contents cs to blocks bs makes of block b
  ghost function Updated(d: seq<Block>, cs: seq<Block>, bs: seq<Uint>, b: nat): (r: Block)
    requires |cs| == |bs| && b < |d|
  {
    if b in bs then (var i :| 0 <= i < |bs| && bs[i] == b; cs[i]) else d[b]
  }

  // Copies in the log do not count until the header says so.
  lemma {:induction false} BeforeHead(d: seq<Block>, cs: seq<Block>, bs: seq<Uint>, log: Area, k: nat)
    requires WellFormed(d, log) && HeadN(d[log.start]) == 0 && Loggable(bs, log, |d|) && |cs| == |bs| && k <= |bs|
    ensures var e := Apply(d, LogWrites(cs, log)[..k]);
      && WellFormed(e, log) && e[log.start] == d[log.start]
      && (forall b | 0 <= b < |d| && !log.Has(b) :: e[b] == d[b])
      && (forall i | 0 <= i < k :: e[log.start + 1 + i] == cs[i])
  {
    var ws := LogWrites(cs, log)[..k];
    forall b | 0 <= b < |d| && (!log.Has(b) || b == log.start) ensures Apply(d, ws)[b] == d[b] {
      Untouched(d, ws, b);
    }
    forall i | 0 <= i < k ensures Apply(d, ws)[log.start + 1 + i] == cs[i] {
      Touched(d, ws, i);
    }
  }

  // The single write of the header commits the whole transaction.
  lemma AtHead(d: seq<Block>, cs: seq<Block>, bs: seq<Uint>, log: Area)
    requires WellFormed(d, log) && HeadN(d[log.start]) == 0 && Loggable(bs, log, |d|) && |cs| == |bs|
    ensures var e := Apply(d, LogWrites(cs, log))[log.start := SetHead(d[log.start], bs)];
      && WellFormed(e, log) && HeadBlocks(e[log.start]) == bs && Logged(e, log) == cs
      && forall b | 0 <= b < |d| && !log.Has(b) :: e[b] == d[b]
  {
    var ws := LogWrites(cs, log);
    assert ws[..|bs|] == ws;
    BeforeHead(d, cs, bs, log, |bs|);
    HeadRoundTrip(d[log.start], bs);
    assert Logged(Apply(d, ws)[log.start := SetHead(d[log.start], bs)], log) == cs;
  }

  lemma CommittedHome(d: seq<Block>, e: seq<Block>, cs: seq<Block>, bs: seq<Uint>, log: Area, b: nat)
    requires WellFormed(e, log) && |d| == |e| && b < |d| && e[b] == d[b]
    requires |cs| == |bs| && HeadBlocks(e[log.start]) == bs && Logged(e, log) == cs
    ensures Home(e, log, b) == Updated(d, cs, bs, b)
  {
    if b in bs {
      var i :| 0 <= i < |bs| && bs[i] == b;
      HomeAt(e, log, i);
    }
  }

  lemma PrefixConcat(a: seq<Write>, b: seq<Write>, k: nat)
    ensures Prefix(a + b, k) == if k <= |a| then Prefix(a, k) else a + Prefix(b, k - |a|)
  {
  }

  lemma {:induction false} ApplyPrefix(d: seq<Block>, a: seq<Write>, b: seq<Write>, k: nat)
    requires InRange(a, |d|) && InRange(b, |d|)
    ensures InRange(Prefix(a + b, k), |d|)
    ensures Apply(d, Prefix(a + b, k)) == if k <= |a| then Apply(d, Prefix(a, k))
      else Apply(Apply(d, a), Prefix(b, k - |a|))
  {
    PrefixConcat(a, b, k);
    if k > |a| {
      ApplyConcat(d, a, Prefix(b, k - |a|));
    }
  }

  // The disk at the commit point
  ghost function AtCommit(d: seq<Block>, cs: seq<Block>, bs: seq<Uint>, log: Area): (e: seq<Block>)
    requires WellFormed(d, log) && Loggable(bs, log, |d|) && |cs| == |bs|
  {
    Apply(d, LogWrites(cs, log))[log.start := SetHead(d[log.start], bs)]
  }

  // Everything up to and including the header write
  function CommitFirst(head: Block, cs: seq<Block>, bs: seq<Uint>, log: Area): (ws: seq<Write>)
    requires |cs| == |bs| <= LOGSIZE
    ensures |ws| == |bs| + 1
  {
    LogWrites(cs, log) + [Write(log.start, SetHead(head, bs))]
  }

  // From the header write on, commit() writes exactly what recovery would.
  lemma {:induction false} CommitIsRecovery(d: seq<Block>, cs: seq<Block>, bs: seq<Uint>, log: Area)
    requires WellFormed(d, log) && HeadN(d[log.start]) == 0 && Loggable(bs, log, |d|) && |cs| == |bs|
    ensures var e := AtCommit(d, cs, bs, log);
      var first := CommitFirst(d[log.start], cs, bs, log);
      && WellFormed(e, log) && InRange(first, |d|) && InRange(RecoveryWrites(e, log), |d|) && e == Apply(d, first)
      && CommitWrites(d[log.start], cs, bs, log) == first + RecoveryWrites(e, log)
  {
    var first := CommitFirst(d[log.start], cs, bs, log);
    AtHead(d, cs, bs, log);
    assert first[..|bs|] == LogWrites(cs, log);
  }

  ghost predicate ReplaysTo(e: seq<Block>, log: Area, d: seq<Block>, cs: seq<Block>, bs: seq<Uint>, done: bool)
    requires |d| == |e| && |cs| == |bs|
  {
    && WellFormed(e, log)
    && forall b | 0 <= b < |d| && !log.Has(b) :: Home(e, log, b) == if done then Updated(d, cs, bs, b) else d[b]
  }

  lemma BeforeCommit(d: seq<Block>, cs: seq<Block>, bs: seq<Uint>, log: Area, k: nat)
    requires WellFormed(d, log) && HeadN(d[log.start]) == 0 && Loggable(bs, log, |d|) && |cs| == |bs| && k <= |bs|
    ensures ReplaysTo(Apply(d, LogWrites(cs, log)[..k]), log, d, cs, bs, false)
  {
    BeforeHead(d, cs, bs, log, k);
  }

  lemma AfterCommit(d: seq<Block>, cs: seq<Block>, bs: seq<Uint>, log: Area, k: nat)
    requires WellFormed(d, log) && HeadN(d[log.start]) == 0 && Loggable(bs, log, |d|) && |cs| == |bs|
    ensures WellFormed(AtCommit(d, cs, bs, log), log)
    ensures ReplaysTo(CrashedRecovery(AtCommit(d, cs, bs, log), log, k), log, d, cs, bs, true)
  {
    var e := AtCommit(d, cs, bs, log);
    AtHead(d, cs, bs, log);
    RecoveryPrefix(e, log, k);
    forall b | 0 <= b < |d| && !log.Has(b) ensures Home(e, log, b) == Updated(d, cs, bs, b) {
      CommittedHome(d, e, cs, bs, log, b);
    }
  }

  // A disk commit() has left after k of its writes replays to all-old or to
  // all-new, and to all-new exactly when the header write is among the k.
  lemma CommitPrefix(d: seq<Block>, cs: seq<Block>, bs: seq<Uint>, log: Area, k: nat)
    requires WellFormed(d, log) && HeadN(d[log.start]) == 0 && Loggable(bs, log, |d|) && |cs| == |bs|
    ensures var ws := Prefix(CommitWrites(d[log.start], cs, bs, log), k);
      InRange(ws, |d|) && ReplaysTo(Apply(d, ws), log, d, cs, bs, k > |bs|)
  {
    var first, e := CommitFirst(d[log.start], cs, bs, log), AtCommit(d, cs, bs, log);
    CommitIsRecovery(d, cs, bs, log);
    ApplyPrefix(d, first, RecoveryWrites(e, log), k);
    if k <= |bs| {
      assert Prefix(first, k) == LogWrites(cs, log)[..k];
      BeforeCommit(d, cs, bs, log, k);
    } else {
      AfterCommit(d, cs, bs, log, k - |bs| - 1);
      if k == |first| {
        assert Prefix(RecoveryWrites(e, log), 0) == [];
      }
    }
  }

  // Crash atomicity. Stop commit() after any k of its writes, crash any number
  // of times inside recovery, then let recovery finish.
  lemma CrashAtomicity(d: seq<Block>, cs: seq<Block>, bs: seq<Uint>, log: Area, k: nat, ks: seq<nat>)
    requires WellFormed(d, log) && HeadN(d[log.start]) == 0 && Loggable(bs, log, |d|) && |cs| == |bs|
    ensures var ws := Prefix(CommitWrites(d[log.start], cs, bs, log), k);
      InRange(ws, |d|) && WellFormed(Apply(d, ws), log)
      && WellFormed(Crashes(Apply(d, ws), log, ks), log) &&
      var e := Recovered(Crashes(Apply(d, ws), log, ks), log);
      && WellFormed(e, log) && HeadN(e[log.start]) == 0
      && forall b | 0 <= b < |d| && !log.Has(b) :: e[b] == if k > |bs| then Updated(d, cs, bs, b) else d[b]
  {
    CommitPrefix(d, cs, bs, log, k);
    var d1 := Apply(d, Prefix(CommitWrites(d[log.start], cs, bs, log), k));
    CrashesKeepHome(d1, log, ks);
    var d2 := Crashes(d1, log, ks);
    RecoveryPrefix(d2, log, LOGSIZE + 1);
  }

  lemma FullCommit(d: seq<Block>, cs: seq<Block>, bs: seq<Uint>, log: Area)
    requires WellFormed(d, log) && HeadN(d[log.start]) == 0 && Loggable(bs, log, |d|) && |cs| == |bs|
    ensures var ws := CommitWrites(d[log.start], cs, bs, log);
      InRange(ws, |d|) &&
      var e := Apply(d, ws);
      && WellFormed(e, log) && HeadN(e[log.start]) == 0
      && forall b | 0 <= b < |d| && !log.Has(b) :: e[b] == Updated(d, cs, bs, b)
  {
    var e := AtCommit(d, cs, bs, log);
    CommitIsRecovery(d, cs, bs, log);
    AfterCommit(d, cs, bs, log, LOGSIZE + 1);
    ApplyConcat(d, CommitFirst(d[log.start], cs, bs, log), RecoveryWrites(e, log));
    RecoveryPrefix(e, log, LOGSIZE + 1);
    AfterCommit(d, cs, bs, log, 0);
  }
}
