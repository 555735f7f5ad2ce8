// log.c over the buffer cache: log_write pins blocks in the cache, the last
// end_op commits them through the log, recovery replays it at boot.
module Log {
  import opened Bytes
  import opened Util
  import opened Memide
  import opened Bio
  import opened LogSpec
  import opened LogRun
  import P = LogProto

  // ---- copying one block onto another, while other processes hold other blocks ----------

  // Two breads in a row, with u buffers in use. The result is false if one of them panicked.
  method ReadBoth(c: Bcache, x: nat, y: nat, ghost u: nat) returns (ok: bool, bx: nat, bz: nat)
    requires c.Calm() && x !in c.held && y !in c.held && x != y && x < |c.view| && y < |c.view|
    requires |c.dirty + c.held| == u
    modifies c`buf, c`at, c`held, c.disk
    ensures c.disk.memdisk == old(c.disk.memdisk) && c.disk.trace == old(c.disk.trace)
    ensures u < c.nbuf && (y in c.dirty || u + 1 < c.nbuf) ==> ok
    ensures x !in c.dirty && u >= c.nbuf ==> !ok
    ensures ok ==> c.Calm() && c.held == old(c.held) + {x} + {y} && c.Holds(bx, x) && c.Holds(bz, y)
  {
    bx, bz := 0, 0;
    OneMore(c.dirty, c.held, x);
    var r := c.CalmBread(x);
    if r == None {
      return false, 0, 0;
    }
    bx := r.value;
    r := c.CalmBread(y);
    if r == None {
      return false, 0, 0;
    }
    bz := r.value;
    ok := true;
  }

  lemma OneMore(d: set<nat>, h: set<nat>, x: nat)
    ensures |d + (h + {x})| <= |d + h| + 1
  {
    assert d + (h + {x}) == d + h + {x};
  }

  // memmove between two held buffers, then bwrite of the destination
  method Move(c: Bcache, bx: nat, x: nat, bz: nat, y: nat)
    requires c.Calm() && c.Holds(bx, x) && c.Holds(bz, y) && x != y && x < |c.view| && y < |c.view|
    modifies c`buf, c`view, c`dirty, c.disk
    ensures c.Calm() && c.Holds(bx, x) && c.Holds(bz, y)
    ensures c.view == old(c.view)[x := old(c.view)[y]] && c.dirty == old(c.dirty) - {x}
    ensures c.disk.memdisk == old(c.disk.memdisk)[x := c.view[x]]
    ensures c.disk.trace == old(c.disk.trace) + [Write(x, c.view[x])]
  {
    c.HeldData(bz, y);
    c.Store(bx, x, c.buf[bz].data);
    c.Bwrite(bx, x);
  }

  method ReleaseBoth(c: Bcache, bx: nat, x: nat, bz: nat, y: nat)
    requires c.Calm() && c.Holds(bx, x) && c.Holds(bz, y) && x != y && x < |c.view| && y < |c.view|
    requires x in c.dirty || c.view[x] == c.disk.memdisk[x]
    requires y in c.dirty || c.view[y] == c.disk.memdisk[y]
    modifies c`buf, c`held, c`next, c`prev, c`ring
    ensures c.Calm() && c.held == old(c.held) - {x} - {y}
  {
    c.Brelse(bx, x);
    c.Brelse(bz, y);
  }

  // memmove, bwrite(to), brelse(from), brelse(to)
  method Transfer(c: Bcache, bx: nat, to: nat, bz: nat, from: nat)
    requires c.Calm() && c.Holds(bx, to) && c.Holds(bz, from) && to != from && to < |c.view| && from < |c.view|
    requires from in c.dirty || c.view[from] == c.disk.memdisk[from]
    modifies c, c.disk
    ensures c.Calm() && c.held == old(c.held) - {from} - {to} && c.dirty == old(c.dirty) - {to}
    ensures c.view == old(c.view)[to := old(c.view)[from]]
    ensures c.disk.memdisk == old(c.disk.memdisk)[to := c.view[to]]
    ensures c.disk.trace == old(c.disk.trace) + [Write(to, c.view[to])]
  {
    Move(c, bx, to, bz, from);
    ReleaseBoth(c, bz, from, bx, to);
  }

  // Two blocks taken and given back, in either order
  lemma GivenBack(h: set<nat>, x: nat, y: nat)
    requires x !in h && y !in h
    ensures h + {x} + {y} - {x} - {y} == h && h + {x} + {y} - {y} - {x} == h && h + {x} - {x} == h
  {
  }

  // bread(to), bread(from), memmove, bwrite(to), brelse(from), brelse(to)
  method CopyToLog(c: Bcache, to: nat, from: nat, ghost u: nat) returns (ok: bool)
    requires c.Calm() && to !in c.held && from !in c.held && to != from && to < |c.view| && from < |c.view|
    requires from in c.dirty && |c.dirty + c.held| == u
    modifies c, c.disk
    ensures u < c.nbuf ==> ok
    ensures to !in old(c.dirty) && u >= c.nbuf ==> !ok
    ensures ok ==> c.Calm() && c.held == old(c.held) && c.dirty == old(c.dirty) - {to}
    ensures ok ==> c.view == old(c.view)[to := old(c.view)[from]]
    ensures ok ==> c.disk.memdisk == old(c.disk.memdisk)[to := c.view[to]]
    ensures ok ==> c.disk.trace == old(c.disk.trace) + [Write(to, c.view[to])]
  {
    GivenBack(c.held, to, from);
    var t, f;
    ok, t, f := ReadBoth(c, to, from, u);
    if ok {
      Transfer(c, t, to, f, from);
    }
  }

  // bread(from), bread(to), memmove, bwrite(to), brelse(from), brelse(to)
  method CopyHome(c: Bcache, from: nat, to: nat, ghost u: nat) returns (ok: bool)
    requires c.Calm() && to !in c.held && from !in c.held && to != from && to < |c.view| && from < |c.view|
    requires from !in c.dirty && |c.dirty + c.held| == u
    modifies c, c.disk
    ensures u < c.nbuf && (to in old(c.dirty) || u + 1 < c.nbuf) ==> ok
    ensures ok ==> c.Calm() && c.held == old(c.held) && c.dirty == old(c.dirty) - {to}
    ensures ok ==> c.view == old(c.view)[to := old(c.view)[from]]
    ensures ok ==> c.disk.memdisk == old(c.disk.memdisk)[to := c.view[to]]
    ensures ok ==> c.disk.trace == old(c.disk.trace) + [Write(to, c.view[to])]
  {
    GivenBack(c.held, from, to);
    var f, t;
    ok, f, t := ReadBoth(c, from, to, u);
    if ok {
      Transfer(c, t, to, f, from);
    }
  }

  // The two loops of write_head fill in the count and the entries.
  method FillHead(data: Block, bs: seq<Uint>) returns (r: Block)
    requires |bs| <= LOGSIZE
    ensures r == SetHead(data, bs)
  {
    r := PutWord(data, 0, |bs|);
    var i := 0;
    while i < |bs|
      invariant 0 <= i <= |bs| && r == PutWords(PutWord(data, 0, |bs|), 1, bs[..i])
    {
      assert bs[..i + 1][..i] == bs[..i];
      r := PutWord(r, 1 + i, bs[i]);
      i := i + 1;
    }
    assert bs[..i] == bs;
  }

  // write_head, with u buffers in use
  method WriteHead(c: Bcache, start: nat, bs: seq<Uint>, ghost u: nat, ghost h: set<nat>) returns (ok: bool)
    requires c.Calm() && c.held == h && start !in h && start < |c.view| && |bs| <= LOGSIZE && |c.dirty + h| == u
    modifies c, c.disk
    ensures u < c.nbuf ==> ok
    ensures ok ==> c.Calm() && c.held == h && c.dirty == old(c.dirty) - {start}
    ensures ok ==> c.view == old(c.view)[start := SetHead(old(c.view)[start], bs)]
    ensures ok ==> c.disk.memdisk == old(c.disk.memdisk)[start := c.view[start]]
    ensures ok ==> c.disk.trace == old(c.disk.trace) + [Write(start, c.view[start])]
  {
    var b := c.CalmBread(start);
    ok := b.Some?;
    if ok {
      FinishHead(c, b.value, start, bs, h);
    }
  }

  // The rest of write_head, once bread has returned b
  method FinishHead(c: Bcache, b: nat, start: nat, bs: seq<Uint>, ghost h: set<nat>)
    requires c.Calm() && c.held == h + {start} && start !in h && c.Holds(b, start) && start < |c.view|
    requires |bs| <= LOGSIZE
    modifies c, c.disk
    ensures c.Calm() && c.held == h && c.dirty == old(c.dirty) - {start}
    ensures c.view == old(c.view)[start := SetHead(old(c.view)[start], bs)]
    ensures c.disk.memdisk == old(c.disk.memdisk)[start := c.view[start]]
    ensures c.disk.trace == old(c.disk.trace) + [Write(start, c.view[start])]
  {
    GivenBack(h, start, start);
    var data := HeadData(c, b, start, bs);
    PutHead(c, b, start, data);
  }

  method HeadData(c: Bcache, b: nat, start: nat, bs: seq<Uint>) returns (data: Block)
    requires c.Valid() && c.Holds(b, start) && start < |c.view| && |bs| <= LOGSIZE
    ensures data == SetHead(c.view[start], bs)
  {
    c.HeldData(b, start);
    data := FillHead(c.buf[b].data, bs);
  }

  method PutHead(c: Bcache, b: nat, start: nat, data: Block)
    requires c.Calm() && c.Holds(b, start) && start < |c.view|
    modifies c, c.disk
    ensures c.Calm() && c.held == old(c.held) - {start} && c.dirty == old(c.dirty) - {start}
    ensures c.view == old(c.view)[start := data]
    ensures c.disk.memdisk == old(c.disk.memdisk)[start := data]
    ensures c.disk.trace == old(c.disk.trace) + [Write(start, data)]
  {
    c.Store(b, start, data);
    c.Bwrite(b, start);
    c.Brelse(b, start);
  }

  // ---- the three phases of a commit, on any number of blocks ---------------------------

  // From v0, m0 and t0 the cache has carried out the first k of the writes ws.
  ghost predicate Copied(c: Bcache, v0: seq<Block>, m0: seq<Block>, t0: seq<Write>, ws: seq<Write>, k: nat)
    requires |v0| == |m0| && InRange(ws, |v0|) && k <= |ws|
    reads c, c.disk
  {
    CopiedTo(c.view, c.disk.memdisk, c.disk.trace, v0, m0, t0, ws, k)
  }

  ghost predicate CopiedTo(v: seq<Block>, m: seq<Block>, t: seq<Write>, v0: seq<Block>, m0: seq<Block>, t0: seq<Write>,
                           ws: seq<Write>, k: nat)
    requires |v0| == |m0| && InRange(ws, |v0|) && k <= |ws|
  {
    v == Apply(v0, ws[..k]) && m == Apply(m0, ws[..k]) && t == t0 + ws[..k]
  }

  // One more of the writes ws
  lemma CopiedStep(v: seq<Block>, m: seq<Block>, t: seq<Write>, v0: seq<Block>, m0: seq<Block>, t0: seq<Write>,
                   ws: seq<Write>, k: nat, v1: seq<Block>, m1: seq<Block>, t1: seq<Write>)
    requires |v0| == |m0| && InRange(ws, |v0|) && k < |ws| && CopiedTo(v, m, t, v0, m0, t0, ws, k)
    requires var w := ws[k]; v1 == v[w.bno := w.data] && m1 == m[w.bno := w.data] && t1 == t + [w]
    ensures CopiedTo(v1, m1, t1, v0, m0, t0, ws, k + 1)
  {
    ApplyStep(v0, ws, k);
    ApplyStep(m0, ws, k);
    assert t0 + ws[..k] + [ws[k]] == t0 + (ws[..k] + [ws[k]]);
  }

  lemma ApplyStep(d: seq<Block>, ws: seq<Write>, k: nat)
    requires InRange(ws, |d|) && k < |ws|
    ensures Apply(d, ws[..k + 1]) == Apply(d, ws[..k])[ws[k].bno := ws[k].data]
    ensures ws[..k + 1] == ws[..k] + [ws[k]]
  {
    assert ws[..k + 1][..k] == ws[..k];
  }

  // The blocks h are neither logged nor in the log.
  ghost predicate Elsewhere(h: set<nat>, log: Area, bs: seq<Uint>) {
    (forall b | b in h :: !log.Has(b)) && forall i | 0 <= i < |bs| :: bs[i] !in h
  }

  lemma InUse(d: set<nat>, bs: seq<Uint>, h: set<nat>, log: Area, n: nat)
    requires Loggable(bs, log, n) && Elsewhere(h, log, bs) && d == SetOf(bs)
    ensures |d + h| == |bs| + |h|
  {
    SetOfSize(bs);
    assert SetOf(bs) !! h;
  }

  lemma CopiesInRange(log: Area, bs: seq<Uint>, cs: seq<Block>, n: nat)
    requires Loggable(bs, log, n) && |cs| == |bs|
    ensures InRange(LogWrites(cs, log), n) && InRange(InstallWrites(cs, bs), n)
  {
  }

  // The first tail writes of write_log are done; h are the held and d the pinned blocks.
  ghost predicate Logging(c: Bcache, v0: seq<Block>, m0: seq<Block>, t0: seq<Write>, ws: seq<Write>, tail: nat,
                          h: set<nat>, d: set<nat>)
    requires |v0| == |m0| && InRange(ws, |v0|) && tail <= |ws|
    reads c, c.disk
  {
    c.Calm() && c.held == h && c.dirty == d && Copied(c, v0, m0, t0, ws, tail)
  }

  // write_log: copies of the logged blocks' cached contents cs, into the log
  method WriteLog(c: Bcache, log: Area, bs: seq<Uint>, ghost cs: seq<Block>, ghost h: set<nat>) returns (ok: bool)
    requires c.Calm() && c.held == h && Elsewhere(h, log, bs) && Loggable(bs, log, |c.view|) && c.dirty == SetOf(bs)
    requires |cs| == |bs| && forall i | 0 <= i < |bs| :: cs[i] == c.view[bs[i]]
    modifies c, c.disk
    ensures ok <==> |bs| == 0 || |bs| + |h| < c.nbuf
    ensures |old(c.view)| == |old(c.disk.memdisk)| && InRange(LogWrites(cs, log), |old(c.view)|)
    ensures ok ==> c.Calm() && c.held == h && c.dirty == old(c.dirty)
    ensures ok ==> Copied(c, old(c.view), old(c.disk.memdisk), old(c.disk.trace), LogWrites(cs, log), |bs|)
  {
    ghost var lw, v0, m0, t0 := LogWrites(cs, log), c.view, c.disk.memdisk, c.disk.trace;
    ghost var d, u := c.dirty, |bs| + |h|;
    InUse(d, bs, h, log, |v0|);
    CopiesInRange(log, bs, cs, |v0|);
    ok := LogLoop(c, log, bs, cs, lw, v0, m0, t0, u, h, d);
  }

  // The loop of write_log
  method LogLoop(c: Bcache, log: Area, bs: seq<Uint>, ghost cs: seq<Block>, ghost lw: seq<Write>,
                 ghost v0: seq<Block>, ghost m0: seq<Block>, ghost t0: seq<Write>, ghost u: nat, ghost h: set<nat>,
                 ghost d: set<nat>) returns (ok: bool)
    requires |d + h| == u && |bs| == |cs| && |v0| == |m0| && lw == LogWrites(cs, log)
    requires Elsewhere(h, log, bs) && Loggable(bs, log, |v0|) && d == SetOf(bs)
    requires forall i | 0 <= i < |bs| :: cs[i] == v0[bs[i]]
    requires InRange(lw, |v0|) && Logging(c, v0, m0, t0, lw, 0, h, d)
    modifies c, c.disk
    ensures ok <==> |bs| == 0 || u < c.nbuf
    ensures ok ==> Logging(c, v0, m0, t0, lw, |bs|, h, d)
  {
    ok := true;
    var tail := 0;
    while tail < |bs|
      invariant 0 <= tail <= |bs| && (tail > 0 ==> u < c.nbuf) && Logging(c, v0, m0, t0, lw, tail, h, d)
    {
      var next := tail + 1;
      ok := LogStep(c, log, bs, cs, lw, tail, v0, m0, t0, u, h, d);
      if !ok {
        return;
      }
      tail := next;
    }
  }

  // The two blocks of a turn of write_log, and what it is to write
  lemma LogTurn(v: seq<Block>, v0: seq<Block>, h: set<nat>, d: set<nat>, log: Area, bs: seq<Uint>, cs: seq<Block>,
                lw: seq<Write>, tail: nat, to: nat, from: nat)
    requires Elsewhere(h, log, bs) && Loggable(bs, log, |v0|) && d == SetOf(bs) && tail < |bs| == |cs|
    requires forall i | 0 <= i < |bs| :: cs[i] == v0[bs[i]]
    requires lw == LogWrites(cs, log) && InRange(lw, |v0|) && v == Apply(v0, lw[..tail])
    requires to == log.start + tail + 1 && from == bs[tail]
    ensures to !in h && from !in h && to != from && to < |v0| && from < |v0| && from in d && to !in d && d - {to} == d
    ensures lw[tail] == Write(to, v[from])
  {
    Untouched(v0, lw[..tail], from);
  }

  // One turn of write_log
  method LogStep(c: Bcache, log: Area, bs: seq<Uint>, ghost cs: seq<Block>, ghost lw: seq<Write>, tail: nat,
                 ghost v0: seq<Block>, ghost m0: seq<Block>, ghost t0: seq<Write>, ghost u: nat, ghost h: set<nat>,
                 ghost d: set<nat>) returns (ok: bool)
    requires |d + h| == u && tail < |bs| == |cs| && |v0| == |m0| && lw == LogWrites(cs, log)
    requires Elsewhere(h, log, bs) && Loggable(bs, log, |v0|) && d == SetOf(bs)
    requires forall i | 0 <= i < |bs| :: cs[i] == v0[bs[i]]
    requires InRange(lw, |v0|) && Logging(c, v0, m0, t0, lw, tail, h, d)
    modifies c, c.disk
    ensures ok <==> u < c.nbuf
    ensures ok ==> Logging(c, v0, m0, t0, lw, tail + 1, h, d)
  {
    var to, from := log.start + tail + 1, bs[tail];
    LogTurn(c.view, v0, h, d, log, bs, cs, lw, tail, to, from);
    ok := LogOne(c, to, from, lw, tail, v0, m0, t0, u, h, d);
  }

  method LogOne(c: Bcache, to: nat, from: nat, ghost ws: seq<Write>, ghost tail: nat,
                ghost v0: seq<Block>, ghost m0: seq<Block>, ghost t0: seq<Write>, ghost u: nat,
                ghost h: set<nat>, ghost d: set<nat>) returns (ok: bool)
    requires |v0| == |m0| && InRange(ws, |v0|) && tail < |ws| && Logging(c, v0, m0, t0, ws, tail, h, d)
    requires to !in h && from !in h && to != from && to < |c.view| && from < |c.view|
    requires from in d && to !in d && |d + h| == u && d - {to} == d && ws[tail] == Write(to, c.view[from])
    modifies c, c.disk
    ensures ok <==> u < c.nbuf
    ensures ok ==> Logging(c, v0, m0, t0, ws, tail + 1, h, d)
  {
    ghost var v, m, t := c.view, c.disk.memdisk, c.disk.trace;
    ok := CopyToLog(c, to, from, u);
    if ok {
      CopiedStep(v, m, t, v0, m0, t0, ws, tail, c.view, c.disk.memdisk, c.disk.trace);
    }
  }

  // The blocks among bs still pinned once the first tail have been installed
  function Left(bs: seq<Uint>, tail: nat, pinned: bool): (s: set<nat>)
    requires tail <= |bs|
  {
    if pinned then SetOf(bs[tail..]) else {}
  }

  lemma LeftStep(bs: seq<Uint>, log: Area, n: nat, tail: nat, pinned: bool)
    requires Loggable(bs, log, n) && tail < |bs|
    ensures var d := Left(bs, tail, pinned);
      && (pinned ==> bs[tail] in d) && log.start + 1 + tail !in d && d - {bs[tail]} == Left(bs, tail + 1, pinned)
  {
    assert bs[tail..] == [bs[tail]] + bs[tail + 1..];
    assert bs[tail] !in bs[tail + 1..];
    assert forall b :: b in bs[tail..] ==> b in bs;
  }

  lemma LeftInUse(d: set<nat>, bs: seq<Uint>, log: Area, n: nat, tail: nat, pinned: bool, h: set<nat>)
    requires Loggable(bs, log, n) && tail <= |bs| && Elsewhere(h, log, bs) && d == Left(bs, tail, pinned)
    ensures |d + h| == (if pinned then |bs| - tail else 0) + |h|
  {
    SetOfSize(bs[tail..]);
    assert d !! h;
  }

  // install_trans: the copies cs in the log, to their home locations
  method InstallTrans(c: Bcache, log: Area, bs: seq<Uint>, ghost cs: seq<Block>, ghost pinned: bool, ghost h: set<nat>)
    returns (ok: bool)
    requires c.Calm() && c.held == h && Elsewhere(h, log, bs) && Loggable(bs, log, |c.view|)
    requires c.dirty == Left(bs, 0, pinned)
    requires |cs| == |bs| && forall i | 0 <= i < |bs| :: cs[i] == c.view[log.start + 1 + i]
    modifies c, c.disk
    ensures |old(c.view)| == |old(c.disk.memdisk)| && InRange(InstallWrites(cs, bs), |old(c.view)|)
    ensures (if pinned then |bs| else 1) + |h| < c.nbuf ==> ok
    ensures ok ==> c.Calm() && c.held == h && c.dirty == {}
    ensures ok ==> Copied(c, old(c.view), old(c.disk.memdisk), old(c.disk.trace), InstallWrites(cs, bs), |bs|)
  {
    ghost var iw, v0, m0, t0 := InstallWrites(cs, bs), c.view, c.disk.memdisk, c.disk.trace;
    CopiesInRange(log, bs, cs, |v0|);
    var tail := 0;
    while tail < |bs|
      invariant 0 <= tail <= |bs|
      invariant c.Calm() && c.held == h && c.dirty == Left(bs, tail, pinned)
      invariant Copied(c, v0, m0, t0, iw, tail)
    {
      ok := InstallStep(c, log, bs, cs, tail, v0, m0, t0, pinned, h);
      if !ok {
        return;
      }
      tail := tail + 1;
    }
    ok := true;
  }

  // The two blocks of a turn of install_trans, what it is to write, and the buffers in use
  lemma InstallTurn(v: seq<Block>, v0: seq<Block>, h: set<nat>, d: set<nat>, log: Area, bs: seq<Uint>, cs: seq<Block>,
                    tail: nat, pinned: bool) returns (u: nat)
    requires Elsewhere(h, log, bs) && Loggable(bs, log, |v0|) && tail < |bs| == |cs| && d == Left(bs, tail, pinned)
    requires forall i | 0 <= i < |bs| :: cs[i] == v0[log.start + 1 + i]
    requires InRange(InstallWrites(cs, bs), |v0|) && v == Apply(v0, InstallWrites(cs, bs)[..tail])
    ensures var from, to := log.start + tail + 1, bs[tail];
      && to !in h && from !in h && to != from && to < |v0| && from < |v0| && (pinned ==> to in d) && from !in d
      && d - {to} == Left(bs, tail + 1, pinned) && InstallWrites(cs, bs)[tail] == Write(to, v[from])
    ensures |d + h| == u && u <= (if pinned then |bs| else 0) + |h|
  {
    LeftStep(bs, log, |v0|, tail, pinned);
    LeftInUse(d, bs, log, |v0|, tail, pinned, h);
    InstallSource(v, v0, log, bs, cs, tail);
    u := |d + h|;
  }

  // What the turn writes is still in the log.
  lemma InstallSource(v: seq<Block>, v0: seq<Block>, log: Area, bs: seq<Uint>, cs: seq<Block>, tail: nat)
    requires Loggable(bs, log, |v0|) && tail < |bs| == |cs| && log.start + tail + 1 < |v0|
    requires forall i | 0 <= i < |bs| :: cs[i] == v0[log.start + 1 + i]
    requires InRange(InstallWrites(cs, bs), |v0|) && v == Apply(v0, InstallWrites(cs, bs)[..tail])
    ensures InstallWrites(cs, bs)[tail] == Write(bs[tail], v[log.start + tail + 1])
  {
    Untouched(v0, InstallWrites(cs, bs)[..tail], log.start + 1 + tail);
  }

  // One turn of install_trans
  method InstallStep(c: Bcache, log: Area, bs: seq<Uint>, ghost cs: seq<Block>, tail: nat, ghost v0: seq<Block>,
                     ghost m0: seq<Block>, ghost t0: seq<Write>, ghost pinned: bool, ghost h: set<nat>)
    returns (ok: bool)
    requires c.Calm() && c.held == h && tail < |bs| == |cs| && |v0| == |m0|
    requires Elsewhere(h, log, bs) && Loggable(bs, log, |v0|) && c.dirty == Left(bs, tail, pinned)
    requires forall i | 0 <= i < |bs| :: cs[i] == v0[log.start + 1 + i]
    requires InRange(InstallWrites(cs, bs), |v0|) && Copied(c, v0, m0, t0, InstallWrites(cs, bs), tail)
    modifies c, c.disk
    ensures (if pinned then |bs| else 1) + |h| < c.nbuf ==> ok
    ensures ok ==> c.Calm() && c.held == h && c.dirty == Left(bs, tail + 1, pinned)
    ensures ok ==> Copied(c, v0, m0, t0, InstallWrites(cs, bs), tail + 1)
  {
    ghost var u := InstallTurn(c.view, v0, h, c.dirty, log, bs, cs, tail, pinned);
    ok := InstallOne(c, log.start + tail + 1, bs[tail], InstallWrites(cs, bs), tail, v0, m0, t0, u, h);
  }

  method InstallOne(c: Bcache, from: nat, to: nat, ghost ws: seq<Write>, ghost tail: nat,
                    ghost v0: seq<Block>, ghost m0: seq<Block>, ghost t0: seq<Write>, ghost u: nat, ghost h: set<nat>)
    returns (ok: bool)
    requires c.Calm() && to !in h && from !in h && to != from && to < |c.view| && from < |c.view|
    requires c.held == h && from !in c.dirty && |c.dirty + h| == u
    requires |v0| == |m0| && InRange(ws, |v0|) && tail < |ws| && Copied(c, v0, m0, t0, ws, tail)
    requires ws[tail] == Write(to, c.view[from])
    modifies c, c.disk
    ensures u < c.nbuf && (to in old(c.dirty) || u + 1 < c.nbuf) ==> ok
    ensures ok ==> c.Calm() && c.held == h && c.dirty == old(c.dirty) - {to}
    ensures ok ==> Copied(c, v0, m0, t0, ws, tail + 1)
  {
    ghost var v, m, t := c.view, c.disk.memdisk, c.disk.trace;
    ok := CopyHome(c, from, to, u);
    if ok {
      CopiedStep(v, m, t, v0, m0, t0, ws, tail, c.view, c.disk.memdisk, c.disk.trace);
    }
  }

  lemma ApplyOne(d: seq<Block>, ws: seq<Write>, w: Write)
    requires InRange(ws, |d|) && w.bno < |d|
    ensures InRange(ws + [w], |d|) && Apply(d, ws + [w]) == Apply(d, ws)[w.bno := w.data]
  {
    assert (ws + [w])[..|ws|] == ws;
  }

  // What the copies and the header do to a disk whose header block is head
  lemma {:induction false} AfterCopies(d: seq<Block>, log: Area, bs: seq<Uint>, cs: seq<Block>)
    requires Loggable(bs, log, |d|) && |cs| == |bs|
    ensures InRange(LogWrites(cs, log), |d|) && InRange(CommitFirst(d[log.start], cs, bs, log), |d|)
    ensures var e := Apply(d, LogWrites(cs, log));
      && e[log.start] == d[log.start] && (forall i | 0 <= i < |bs| :: e[log.start + 1 + i] == cs[i])
      && e[log.start := SetHead(d[log.start], bs)] == Apply(d, CommitFirst(d[log.start], cs, bs, log))
  {
    var lw := LogWrites(cs, log);
    Untouched(d, lw, log.start);
    forall i | 0 <= i < |bs| ensures Apply(d, lw)[log.start + 1 + i] == cs[i] {
      Touched(d, lw, i);
    }
    ApplyOne(d, lw, Write(log.start, SetHead(d[log.start], bs)));
  }

  // commit() up to and including the header write
  method CommitPoint(c: Bcache, log: Area, bs: seq<Uint>, ghost cs: seq<Block>, ghost h: set<nat>) returns (ok: bool)
    requires c.Calm() && c.held == h && Elsewhere(h, log, bs) && Loggable(bs, log, |c.view|) && c.dirty == SetOf(bs)
    requires bs != []
    requires |cs| == |bs| && forall i | 0 <= i < |bs| :: cs[i] == c.view[bs[i]]
    requires c.view[log.start] == c.disk.memdisk[log.start]
    modifies c, c.disk
    ensures ok <==> |bs| + |h| < c.nbuf
    ensures |old(c.view)| == |old(c.disk.memdisk)|
    ensures var ws := CommitFirst(old(c.view)[log.start], cs, bs, log);
      InRange(ws, |old(c.view)|) && (ok ==> Copied(c, old(c.view), old(c.disk.memdisk), old(c.disk.trace), ws, |ws|))
    ensures ok ==> c.Calm() && c.held == h && c.dirty == SetOf(bs)
  {
    ghost var v0, m0, t0 := c.view, c.disk.memdisk, c.disk.trace;
    AfterCopies(v0, log, bs, cs);
    ok := WriteLog(c, log, bs, cs, h);
    if ok {
      ghost var v1, m1, t1 := c.view, c.disk.memdisk, c.disk.trace;
      InUse(c.dirty, bs, h, log, |v0|);
      NotLogged(bs, log, |v0|);
      ok := WriteHead(c, log.start, bs, |bs| + |h|, h);
      PointReached(v1, m1, t1, v0, m0, t0, log, bs, cs, c.view, c.disk.memdisk, c.disk.trace);
    }
  }

  // The header block is not one of the logged blocks.
  lemma NotLogged(bs: seq<Uint>, log: Area, n: nat)
    requires Loggable(bs, log, n)
    ensures SetOf(bs) - {log.start} == SetOf(bs)
  {
  }

  // The header write after the copies
  lemma PointReached(v1: seq<Block>, m1: seq<Block>, t1: seq<Write>, v0: seq<Block>, m0: seq<Block>, t0: seq<Write>,
                     log: Area, bs: seq<Uint>, cs: seq<Block>, v2: seq<Block>, m2: seq<Block>, t2: seq<Write>)
    requires |v0| == |m0| && Loggable(bs, log, |v0|) && |cs| == |bs| && v0[log.start] == m0[log.start]
    requires InRange(LogWrites(cs, log), |v0|) && CopiedTo(v1, m1, t1, v0, m0, t0, LogWrites(cs, log), |bs|)
    requires |v1| == |m1| == |v0| && v2 == v1[log.start := SetHead(v1[log.start], bs)]
    requires m2 == m1[log.start := v2[log.start]]
    requires t2 == t1 + [Write(log.start, v2[log.start])]
    ensures var ws := CommitFirst(v0[log.start], cs, bs, log);
      InRange(ws, |v0|) && CopiedTo(v2, m2, t2, v0, m0, t0, ws, |ws|)
  {
    var lw, ws := LogWrites(cs, log), CommitFirst(v0[log.start], cs, bs, log);
    assert lw[..|bs|] == lw && ws[..|ws|] == ws;
    AfterCopies(v0, log, bs, cs);
    AfterCopies(m0, log, bs, cs);
    var w := Write(log.start, v2[log.start]);
    assert (t0 + lw) + [w] == t0 + (lw + [w]);
  }

  // install_trans and the write_head that empties the log, the end of both
  // commit() and recover_from_log()
  function ReplayWrites(head: Block, cs: seq<Block>, bs: seq<Uint>, log: Area): (ws: seq<Write>)
    requires |cs| == |bs|
  {
    InstallWrites(cs, bs) + [Write(log.start, SetHead(head, []))]
  }

  lemma AfterInstall(d: seq<Block>, log: Area, bs: seq<Uint>, cs: seq<Block>)
    requires Loggable(bs, log, |d|) && |cs| == |bs|
    ensures var iw := InstallWrites(cs, bs);
      && InRange(iw, |d|) && InRange(ReplayWrites(d[log.start], cs, bs, log), |d|)
      && Apply(d, iw)[log.start] == d[log.start]
      && Apply(d, iw)[log.start := SetHead(d[log.start], [])] == Apply(d, ReplayWrites(d[log.start], cs, bs, log))
  {
    Untouched(d, InstallWrites(cs, bs), log.start);
    ApplyOne(d, InstallWrites(cs, bs), Write(log.start, SetHead(d[log.start], [])));
  }

  lemma NoneInUse(h: set<nat>)
    ensures |{} + h| == |h|
  {
    assert {} + h == h;
  }

  method Replay(c: Bcache, log: Area, bs: seq<Uint>, ghost cs: seq<Block>, ghost pinned: bool, ghost h: set<nat>)
    returns (ok: bool)
    requires c.Calm() && c.held == h && Elsewhere(h, log, bs) && Loggable(bs, log, |c.view|)
    requires c.dirty == Left(bs, 0, pinned) && (pinned ==> bs != [])
    requires |cs| == |bs| && forall i | 0 <= i < |bs| :: cs[i] == c.view[log.start + 1 + i]
    requires c.view[log.start] == c.disk.memdisk[log.start]
    modifies c, c.disk
    ensures |old(c.view)| == |old(c.disk.memdisk)|
    ensures (if pinned then |bs| else 1) + |h| < c.nbuf ==> ok
    ensures ok ==> c.Calm() && c.held == h && c.dirty == {}
    ensures var ws := ReplayWrites(old(c.view)[log.start], cs, bs, log);
      InRange(ws, |old(c.view)|) && (ok ==> Copied(c, old(c.view), old(c.disk.memdisk), old(c.disk.trace), ws, |ws|))
  {
    ghost var v0, m0 := c.view, c.disk.memdisk;
    ghost var iw, ws := InstallWrites(cs, bs), ReplayWrites(v0[log.start], cs, bs, log);
    ok := InstallTrans(c, log, bs, cs, pinned, h);
    assert iw[..|bs|] == iw && ws[..|ws|] == ws;
    AfterInstall(v0, log, bs, cs);
    AfterInstall(m0, log, bs, cs);
    if ok {
      NoneInUse(h);
      ok := WriteHead(c, log.start, [], |h|, h);
    }
  }

  // Nobody who holds a buffer has changed it.
  ghost predicate Unchanged(v: seq<Block>, d: seq<Block>, h: set<nat>)
    requires |v| == |d|
  {
    forall b | b in h && b < |v| :: v[b] == d[b]
  }

  // With nothing pinned and no held buffer changed, the logical disk is the disk.
  lemma Settled(c: Bcache)
    requires c.Calm() && Unchanged(c.view, c.disk.memdisk, c.held) && c.dirty == {}
    ensures c.view == c.disk.memdisk
  {
  }

  // commit() of a non-empty log
  method Commit(c: Bcache, log: Area, bs: seq<Uint>, ghost h: set<nat>) returns (ok: bool)
    requires c.Calm() && c.held == h && Elsewhere(h, log, bs) && Unchanged(c.view, c.disk.memdisk, h)
    requires Loggable(bs, log, |c.view|) && c.dirty == SetOf(bs) && bs != []
    modifies c, c.disk
    ensures ok <==> |bs| + |h| < c.nbuf
    ensures |old(c.view)| == |old(c.disk.memdisk)|
    ensures var ws := CommitWrites(old(c.disk.memdisk)[log.start], Copies(old(c.view), bs), bs, log);
      InRange(ws, |old(c.view)|)
      && (ok ==> c.disk.memdisk == Apply(old(c.disk.memdisk), ws) && c.disk.trace == old(c.disk.trace) + ws)
    ensures ok ==> c.Calm() && c.held == h && c.dirty == {} && c.view == c.disk.memdisk
  {
    ghost var v0, m0, t0, cs := c.view, c.disk.memdisk, c.disk.trace, Copies(c.view, bs);
    assert log.start !in c.dirty;
    CommitParts(m0, log, bs, cs);
    ok := CommitPoint(c, log, bs, cs, h);
    if ok {
      ghost var v1, m1, t1 := c.view, c.disk.memdisk, c.disk.trace;
      HalfCommitted(v1, m1, t1, v0, m0, t0, log, bs, cs);
      assert bs[0..] == bs;
      ok := Replay(c, log, bs, cs, true, h);
      StillUnchanged(v1, m1, t1, v0, m0, t0, log, bs, cs, c.view, c.disk.memdisk, c.disk.trace, h);
      Settled(c);
      AllCommitted(v1, m1, t1, v0, m0, t0, log, bs, cs, c.view, c.disk.memdisk, c.disk.trace);
    }
  }

  // At the commit point
  lemma HalfCommitted(v1: seq<Block>, m1: seq<Block>, t1: seq<Write>, v0: seq<Block>, m0: seq<Block>, t0: seq<Write>,
                      log: Area, bs: seq<Uint>, cs: seq<Block>)
    requires |v0| == |m0| && Loggable(bs, log, |v0|) && |cs| == |bs| && v0[log.start] == m0[log.start]
    requires var first := CommitFirst(v0[log.start], cs, bs, log);
      InRange(first, |v0|) && CopiedTo(v1, m1, t1, v0, m0, t0, first, |first|)
    ensures |v1| == |m1| == |v0| && v1[log.start] == m1[log.start]
    ensures forall i | 0 <= i < |bs| :: cs[i] == v1[log.start + 1 + i]
  {
    CommitParts(v0, log, bs, cs);
    CommitParts(m0, log, bs, cs);
  }

  // Both logical disk and disk have had the same writes.
  lemma StillUnchanged(v1: seq<Block>, m1: seq<Block>, t1: seq<Write>, v0: seq<Block>, m0: seq<Block>, t0: seq<Write>,
                       log: Area, bs: seq<Uint>, cs: seq<Block>, v2: seq<Block>, m2: seq<Block>, t2: seq<Write>,
                       h: set<nat>)
    requires |v0| == |m0| && Loggable(bs, log, |v0|) && |cs| == |bs| && Unchanged(v0, m0, h)
    requires var first := CommitFirst(v0[log.start], cs, bs, log);
      InRange(first, |v0|) && CopiedTo(v1, m1, t1, v0, m0, t0, first, |first|)
    requires |v1| == |m1| == |v0|
    requires var rest := ReplayWrites(v1[log.start], cs, bs, log);
      InRange(rest, |v1|) && CopiedTo(v2, m2, t2, v1, m1, t1, rest, |rest|)
    ensures |v2| == |m2| == |v0| && Unchanged(v2, m2, h)
  {
    var first, rest := CommitFirst(v0[log.start], cs, bs, log), ReplayWrites(v1[log.start], cs, bs, log);
    forall b | b in h && b < |v0| ensures v2[b] == m2[b] {
      SameWrites(v0, m0, first[..|first|], b);
      SameWrites(v1, m1, rest[..|rest|], b);
    }
  }

  lemma {:induction false} SameWrites(v: seq<Block>, d: seq<Block>, ws: seq<Write>, b: nat)
    requires |v| == |d| && InRange(ws, |v|) && b < |v| && v[b] == d[b]
    ensures Apply(v, ws)[b] == Apply(d, ws)[b]
  {
    if ws != [] {
      SameWrites(v, d, ws[..|ws| - 1], b);
    }
  }

  // At the end
  lemma {:induction false} AllCommitted(v1: seq<Block>, m1: seq<Block>, t1: seq<Write>, v0: seq<Block>, m0: seq<Block>,
                                        t0: seq<Write>, log: Area, bs: seq<Uint>, cs: seq<Block>, v2: seq<Block>,
                                        m2: seq<Block>, t2: seq<Write>)
    requires |v0| == |m0| && Loggable(bs, log, |v0|) && |cs| == |bs| && v0[log.start] == m0[log.start]
    requires var first := CommitFirst(v0[log.start], cs, bs, log);
      InRange(first, |v0|) && CopiedTo(v1, m1, t1, v0, m0, t0, first, |first|)
    requires |v1| == |m1| == |v0|
    requires var rest := ReplayWrites(v1[log.start], cs, bs, log);
      InRange(rest, |v1|) && CopiedTo(v2, m2, t2, v1, m1, t1, rest, |rest|)
    ensures var ws := CommitWrites(m0[log.start], cs, bs, log);
      InRange(ws, |m0|) && m2 == Apply(m0, ws) && t2 == t0 + ws
  {
    var first, rest := CommitFirst(v0[log.start], cs, bs, log), ReplayWrites(v1[log.start], cs, bs, log);
    var ws := CommitWrites(m0[log.start], cs, bs, log);
    assert first[..|first|] == first && rest[..|rest|] == rest;
    assert v1[log.start] == SetHead(v0[log.start], bs) by {
      CommitParts(v0, log, bs, cs);
    }
    assert InRange(ws, |m0|) && ws == first + rest && Apply(m0, ws) == Apply(m1, rest) by {
      CommitParts(m0, log, bs, cs);
    }
    assert (t0 + first) + rest == t0 + (first + rest);
  }

  // The two halves of a commit, each run to its end
  lemma CommitParts(d: seq<Block>, log: Area, bs: seq<Uint>, cs: seq<Block>)
    requires Loggable(bs, log, |d|) && |cs| == |bs|
    ensures var first := CommitFirst(d[log.start], cs, bs, log);
      && InRange(first, |d|) && first[..|first|] == first
      && var e := Apply(d, first);
        && e[log.start] == SetHead(d[log.start], bs) && (forall i | 0 <= i < |bs| :: e[log.start + 1 + i] == cs[i])
        && var rest, ws := ReplayWrites(e[log.start], cs, bs, log), CommitWrites(d[log.start], cs, bs, log);
          && rest[..|rest|] == rest && ws == first + rest && InRange(ws, |d|) && Apply(d, ws) == Apply(e, rest)
  {
    var first, rest := CommitFirst(d[log.start], cs, bs, log), ReplayWrites(SetHead(d[log.start], bs), cs, bs, log);
    AfterCopies(d, log, bs, cs);
    ApplyConcat(d, first, rest);
  }

  // read_head
  method ReadHead(c: Bcache, log: Area) returns (ok: bool, bs: seq<Uint>)
    requires c.Calm() && c.held == {} && c.dirty == {} && c.nbuf >= 1 && WellFormed(c.disk.memdisk, log)
    modifies c, c.disk
    ensures ok && c.Calm() && c.held == {} && c.dirty == {} && c.view == old(c.view)
    ensures c.disk.memdisk == old(c.disk.memdisk) && c.disk.trace == old(c.disk.trace)
    ensures bs == HeadBlocks(c.disk.memdisk[log.start])
  {
    assert c.dirty + {} == c.dirty;
    var b := c.CalmBread(log.start);
    c.HeldData(b.value, log.start);
    var data := c.buf[b.value].data;
    assert data == c.disk.memdisk[log.start];
    bs := [];
    var i := 0;
    while i < HeadN(data)
      invariant 0 <= i <= HeadN(data) && bs == HeadBlocks(data)[..i]
    {
      bs := bs + [Word(data, 1 + i)];
      i := i + 1;
    }
    c.Brelse(b.value, log.start);
    ok := true;
  }

  // recover_from_log, at boot: nothing is pinned or held
  method RecoverFromLog(c: Bcache, log: Area) returns (ok: bool)
    requires c.Calm() && c.held == {} && c.dirty == {} && c.nbuf >= 2 && WellFormed(c.disk.memdisk, log)
    modifies c, c.disk
    ensures ok && c.Calm() && c.held == {} && c.dirty == {} && c.view == c.disk.memdisk
    ensures c.disk.memdisk == Recovered(old(c.disk.memdisk), log)
    ensures c.disk.trace == old(c.disk.trace) + RecoveryWrites(old(c.disk.memdisk), log)
  {
    var bs;
    ok, bs := ReadHead(c, log);
    ghost var d := c.disk.memdisk;
    ghost var ws := RecoveryWrites(d, log);
    Settled(c);
    assert ws == ReplayWrites(d[log.start], Logged(d, log), bs, log) && ws[..|ws|] == ws;
    ok := Replay(c, log, bs, Logged(d, log), false, {});
    Settled(c);
  }

  class Log {
    const cache: Bcache
    const area: Area
    var outstanding: nat
    var committing: bool
    var n: nat              // lh.n
    var block: seq<Uint>    // lh.block[LOGSIZE]
    ghost var p: P.State
    ghost var run: Run      // since initlog

    ghost predicate Valid()
      reads this, cache, cache.disk
    {
      && cache.Valid() && Protocol()
      && Loggable(p.blocks, area, |cache.view|) && cache.dirty == SetOf(p.blocks)
      && WellFormed(cache.disk.memdisk, area) && HeadN(cache.disk.memdisk[area.start]) == 0
    }

    // The fields are the state of the admission protocol.
    ghost predicate Protocol()
      reads this
    {
      && |block| == LOGSIZE && n <= LOGSIZE && p.blocks == block[..n] && |p.ops| == outstanding
      && p.committing == committing && P.Inv(p)
    }

    // The disk and its trace are what the commits since initlog have made of them.
    ghost predicate Remembered()
      reads this, cache, cache.disk
    {
      History(run, cache.disk.memdisk, cache.disk.trace, area)
    }

    // A crash after any k of the writes since initlog, any crashes in recovery and one
    // full recovery leave the logical disk at the end of the last durable commit.
    lemma Recovers(k: nat, ks: seq<nat>)
      requires Remembered() && |run.before| <= |cache.disk.trace|
      ensures var ws := Prefix(cache.disk.trace[|run.before|..], k);
        && InRange(ws, |run.boot|) && |run.views[Durable(run.txns, k)]| == |run.boot|
        && Survives(Apply(run.boot, ws), area, ks, run.views[Durable(run.txns, k)])
    {
      RunRecovers(run.boot, run.txns, run.views, area, k, ks);
      assert cache.disk.trace[|run.before|..] == RunWrites(run.boot, run.txns, area);
    }

    // initlog: the size check holds of these constants; then the log is recovered.
    constructor (c: Bcache, log: Area)
      requires 4 * (1 + LOGSIZE) < BSIZE
      requires c.Calm() && c.held == {} && c.dirty == {} && c.nbuf >= 2 && WellFormed(c.disk.memdisk, log)
      modifies c, c.disk
      ensures Valid() && cache == c && area == log && p == P.START
      ensures c.Calm() && c.held == {} && c.disk.memdisk == Recovered(old(c.disk.memdisk), log)
      ensures c.view == c.disk.memdisk
      ensures Remembered() && run.boot == c.disk.memdisk && run.txns == []
    {
      cache, area := c, log;
      outstanding, committing, n, block := 0, false, 0, seq(LOGSIZE, _ => 0);
      p := P.START;
      new;
      RecoveryPrefix(c.disk.memdisk, log, LOGSIZE + 1);
      var ok := RecoverFromLog(c, log);
      run := Run(c.disk.memdisk, c.disk.trace, [], [c.disk.memdisk]);
      HistoryStart(c.disk.memdisk, c.disk.trace, log);
    }

    // One pass of begin_op's loop. A process that sleeps calls it again when woken.
    method BeginOp(ghost pid: nat) returns (started: bool)
      requires Valid()
      modifies this`outstanding, this`p
      ensures Valid() && p == P.Begin(old(p), pid) && started == (|p.ops| > |old(p).ops|)
      ensures started <==> !old(committing) && old(n) + (old(outstanding) + 1) * MAXOPBLOCKS <= LOGSIZE
      ensures outstanding == old(outstanding) + if started then 1 else 0
    {
      P.BeginKeeps(p, pid);
      if committing {
        started := false;
      } else if n + (outstanding + 1) * MAXOPBLOCKS > LOGSIZE {
        started := false;
      } else {
        outstanding := outstanding + 1;
        started := true;
      }
      p := P.Begin(p, pid);
    }

    // log_write by outstanding operation k, holding buffer b. The result is
    // false for the panic "too big a transaction".
    method LogWrite(b: nat, ghost k: nat) returns (ok: bool)
      requires Valid() && b < |cache.buf| && cache.Holds(b, cache.buf[b].blockno)
      requires k < outstanding && P.InBudget(p, k, cache.buf[b].blockno) && !area.Has(cache.buf[b].blockno)
      requires cache.buf[b].blockno < U32
      modifies this`n, this`block, this`p, cache`buf, cache`dirty
      ensures ok <==> old(n) < LOGSIZE && old(n) < area.size - 1
      ensures ok == !P.TooBig(old(p), area.size)
      ensures ok ==> Valid() && p == P.Logged(old(p), k, old(cache.buf[b].blockno))
      ensures ok && old(cache.buf[b].blockno in block[..n]) ==> block[..n] == old(block[..n])
      ensures ok && old(cache.buf[b].blockno !in block[..n]) ==>
        block[..n] == old(block[..n]) + [old(cache.buf[b].blockno)]
      ensures ok ==> cache.buf == old(cache.buf)[b := old(cache.buf)[b].(dirty := true)]
      ensures area.size - 1 >= LOGSIZE && old(cache.buf[b].blockno) !in old(p).blocks ==> ok
      ensures ok && old(Quiet(cache.buf)) ==> Quiet(cache.buf)
    {
      var blockno := cache.buf[b].blockno;
      cache.HeldData(b, blockno);
      ok := Admit(blockno, k);
      if ok {
        LoggableAbsorb(old(p).blocks, area, |cache.view|, blockno);
        cache.Pin(b, blockno);
      }
    }

    // The block is in the log, or its logged blocks and the other held ones leave a buffer.
    ghost predicate Fits(blockno: nat)
      reads this, cache
    {
      blockno in p.blocks || P.BreadFits(p, |cache.held - cache.dirty|, cache.nbuf)
    }

    // bread by an operation or a reader while nobody waits for a buffer
    method Read(blockno: nat) returns (r: Option<nat>)
      requires Valid() && cache.Calm() && blockno < |cache.view| && blockno !in cache.held
      modifies cache`buf, cache`at, cache`held, cache.disk
      ensures r.Some? <==> old(Fits(blockno))
      ensures cache.disk.memdisk == old(cache.disk.memdisk) && cache.disk.trace == old(cache.disk.trace)
      ensures r.Some? ==> Valid() && cache.Calm() && cache.held == old(cache.held) + {blockno}
      ensures r.Some? ==> cache.Holds(r.value, blockno) && r.value < |cache.buf|
      ensures r.Some? ==> cache.buf[r.value].data == cache.view[blockno]
    {
      Occupied(p.blocks, cache.dirty, cache.held);
      r := cache.CalmBread(blockno);
      if r.Some? {
        assert Protocol();
        cache.HeldData(r.value, blockno);
      }
    }

    // The use of a block in fs.c: bread, change the data, log_write, brelse.
    // The result is false if bread or log_write panicked.
    method Update(blockno: Uint, data: Block, ghost k: nat) returns (ok: bool)
      requires Valid() && k < outstanding && P.InBudget(p, k, blockno)
      requires blockno < |cache.view| && blockno !in cache.held && !area.Has(blockno)
      modifies this`n, this`block, this`p, cache, cache.disk
      ensures ok <==> !P.TooBig(old(p), area.size) && old(blockno in cache.at || !AllBusy(cache.buf))
      ensures old(cache.Calm()) ==> (ok <==> !P.TooBig(old(p), area.size) && old(Fits(blockno)))
      ensures ok ==> Valid() && cache.view == old(cache.view)[blockno := data] && p == P.Logged(old(p), k, blockno)
      ensures ok ==> cache.held == old(cache.held) && (old(cache.Calm()) ==> cache.Calm())
      ensures ok ==> cache.disk.memdisk == old(cache.disk.memdisk) && cache.disk.trace == old(cache.disk.trace)
    {
      var b;
      assert cache.held + {blockno} - {blockno} == cache.held;
      BreadAvailable(blockno);
      ok, b := Modify(blockno, data);
      if ok {
        ok := LogAndRelease(b, blockno, k);
      }
    }

    lemma BreadAvailable(blockno: nat)
      requires Valid() && blockno !in cache.held
      ensures cache.Calm() ==> (Fits(blockno) <==> blockno in cache.at || !AllBusy(cache.buf))
    {
      if cache.Calm() {
        Occupied(p.blocks, cache.dirty, cache.held);
        Available(cache.buf, cache.at, cache.dirty, cache.held, blockno);
      }
    }

    // log_write and brelse of a held buffer
    method LogAndRelease(b: nat, blockno: Uint, ghost k: nat) returns (ok: bool)
      requires Valid() && k < outstanding && P.InBudget(p, k, blockno) && !area.Has(blockno)
      requires b < |cache.buf| && cache.Holds(b, blockno) && cache.buf[b].blockno == blockno
      modifies this`n, this`block, this`p, cache
      ensures ok == !P.TooBig(old(p), area.size)
      ensures ok ==> Valid() && cache.view == old(cache.view) && p == P.Logged(old(p), k, blockno)
      ensures ok ==> cache.held == old(cache.held) - {blockno} && (old(cache.Calm()) ==> cache.Calm())
    {
      ok := LogWrite(b, k);
      if ok {
        cache.Brelse(b, blockno);
      }
    }

    method Modify(blockno: Uint, data: Block) returns (ok: bool, b: nat)
      requires Valid() && blockno < |cache.view| && blockno !in cache.held && !area.Has(blockno)
      modifies cache, cache.disk
      ensures ok <==> old(blockno in cache.at || !AllBusy(cache.buf))
      ensures ok ==> Valid() && cache.view == old(cache.view)[blockno := data]
      ensures ok ==> cache.Holds(b, blockno) && cache.held == old(cache.held) + {blockno}
      ensures ok && old(cache.Calm()) ==> cache.Calm()
      ensures ok ==> b < |cache.buf| && cache.buf[b].blockno == blockno
      ensures cache.disk.memdisk == old(cache.disk.memdisk) && cache.disk.trace == old(cache.disk.trace)
    {
      var r := cache.Bread(1, blockno);
      if r == None {
        return false, 0;
      }
      ok, b := true, r.value;
      cache.Store(b, blockno, data);
      cache.HeldData(b, blockno);
    }

    method Admit(blockno: Uint, ghost k: nat) returns (ok: bool)
      requires Protocol() && k < outstanding && P.InBudget(p, k, blockno)
      modifies this`n, this`block, this`p
      ensures ok == !P.TooBig(old(p), area.size)
      ensures if ok then Protocol() && p == P.Logged(old(p), k, blockno) else p == old(p)
      ensures area.size - 1 >= LOGSIZE && blockno !in old(p).blocks ==> ok
    {
      P.LoggedKeeps(p, k, blockno);
      if n >= LOGSIZE || n >= area.size - 1 {
        return false;
      }
      assert outstanding >= 1;
      Record(blockno);
      p := P.Logged(p, k, blockno);
      ok := true;
    }

    // end_op of operation k, up to the decision to commit. "log.committing" cannot panic.
    method EndOp(ghost k: nat) returns (doCommit: bool)
      requires Valid() && k < outstanding
      modifies this`outstanding, this`committing, this`p
      ensures Valid() && p == P.End(old(p), k) && doCommit == committing
      ensures doCommit <==> outstanding == 0
      ensures outstanding == old(outstanding) - 1 && !old(committing)
    {
      P.EndKeeps(p, k);
      outstanding := outstanding - 1;
      if committing {
        assert false;
      }
      if outstanding == 0 {
        doCommit := true;
        committing := true;
      } else {
        doCommit := false;
      }
      p := P.End(p, k);
    }

    // The rest of the last end_op, with no buffer in use. The result is false
    // if commit() panics for want of a buffer.
    method FinishCommit() returns (ok: bool)
      requires Valid() && committing && cache.Calm() && Elsewhere(cache.held, area, p.blocks)
      requires Unchanged(cache.view, cache.disk.memdisk, cache.held)
      modifies this`n, this`committing, this`p, this`run, cache, cache.disk
      ensures ok <==> P.CommitFits(old(p), |old(cache.held)|, cache.nbuf)
      ensures P.Most(area.size) + |old(cache.held)| < cache.nbuf ==> ok
      ensures ok ==> Valid() && p == P.Committed(old(p)) && cache.Calm() && cache.held == old(cache.held)
      ensures ok ==> n == 0 && outstanding == 0 && !committing
      ensures ok ==> cache.view == cache.disk.memdisk && |cache.view| == |old(cache.view)|
      ensures ok ==> forall b | 0 <= b < |cache.view| && !area.Has(b) :: cache.view[b] == old(cache.view)[b]
      ensures ok && old(p).blocks == [] ==> cache.disk.trace == old(cache.disk.trace)
      ensures ok && old(p).blocks != [] ==>
        cache.disk.trace == old(cache.disk.trace) + CommitWrites(old(cache.disk.memdisk)[area.start],
                              Copies(old(cache.view), old(p).blocks), old(p).blocks, area)
      ensures ok && old(Remembered()) ==> Remembered()
      ensures ok ==> run == if old(p).blocks == [] then old(run)
        else Extended(old(run), Txn(old(p).blocks, Copies(old(cache.view), old(p).blocks)), cache.view)
    {
      ok := true;
      if n > 0 {
        ok := CommitLogged();
      } else {
        Settled(cache);
      }
      if ok {
        Emptied();
      }
    }

    // A whole operation when no other is under way and no buffer is in use: begin_op, contents ds
    // for the blocks bs, end_op with its commit. It panics exactly if the log or the cache is too
    // small; otherwise the disk has the new contents and the run one more transaction.
    method Transact(bs: seq<Uint>, ds: seq<Block>) returns (ok: bool)
      requires Valid() && outstanding == 0 && !committing && cache.Calm() && cache.held == {}
      requires Writable(bs, area, |cache.view|) && |ds| == |bs|
      modifies this`outstanding, this`committing, this`n, this`block, this`p, this`run, cache, cache.disk
      ensures ok <==> bs == [] || (|bs| < area.size && |bs| < cache.nbuf)
      ensures ok ==> Valid() && p == P.START && cache.Calm() && cache.held == {} && cache.view == cache.disk.memdisk
      ensures ok ==> |cache.view| == |old(cache.view)|
      ensures ok ==> forall b | 0 <= b < |cache.view| && !area.Has(b) ::
        cache.view[b] == Apply(old(cache.view), InstallWrites(ds, bs))[b]
      ensures ok && old(Remembered()) ==> Remembered()
      ensures ok ==> OneTxnMore(old(run), run, bs)
    {
      ghost var v, r := cache.view, run;
      BeginAlone(bs, ds, v);
      ok := UpdateAll(bs, ds, v);
      assert run == r;
      if ok {
        ok := EndAlone(bs, ds, v);
      }
    }

    // begin_op of the lone operation
    method BeginAlone(ghost bs: seq<Uint>, ghost ds: seq<Block>, ghost v: seq<Block>)
      requires Valid() && outstanding == 0 && !committing && cache.Calm() && cache.held == {} && v == cache.view
      requires Writable(bs, area, |v|) && |ds| == |bs|
      modifies this`outstanding, this`p
      ensures Midway(v, bs, ds, 0) && (old(Remembered()) ==> Remembered())
    {
      AtRest(p);
      var started := BeginOp(0);
      assert bs[..0] == [] && SetOf([]) == {} && InstallWrites(ds[..0], bs[..0]) == [];
    }

    // A lone operation has logged the first i of its blocks, over the logical disk v.
    ghost predicate Midway(v: seq<Block>, bs: seq<Uint>, ds: seq<Block>, i: nat)
      requires |ds| == |bs| && i <= |bs| && forall j | 0 <= j < |bs| :: bs[j] < |v|
      reads this, cache, cache.disk
    {
      && Valid() && p == Alone(bs[..i]) && cache.Calm() && cache.held == {}
      && cache.view == Apply(v, InstallWrites(ds[..i], bs[..i]))
    }

    method UpdateAll(bs: seq<Uint>, ds: seq<Block>, ghost v: seq<Block>) returns (ok: bool)
      requires Writable(bs, area, |v|) && |ds| == |bs| && Midway(v, bs, ds, 0)
      modifies this`n, this`block, this`p, cache, cache.disk
      ensures ok <==> bs == [] || (|bs| < area.size && |bs| <= cache.nbuf)
      ensures ok ==> Midway(v, bs, ds, |bs|)
      ensures ok && old(Remembered()) ==> Remembered()
    {
      ok := true;
      var i := 0;
      while i < |bs|
        invariant 0 <= i <= |bs| && Midway(v, bs, ds, i)
        invariant i > 0 ==> i < area.size && i <= cache.nbuf
        invariant old(Remembered()) ==> Remembered()
      {
        ok := UpdateNext(bs, ds, v, i);
        if !ok {
          return;
        }
        i := i + 1;
      }
    }

    method UpdateNext(bs: seq<Uint>, ds: seq<Block>, ghost v: seq<Block>, i: nat) returns (ok: bool)
      requires Writable(bs, area, |v|) && |ds| == |bs| && i < |bs| && Midway(v, bs, ds, i)
      modifies this`n, this`block, this`p, cache, cache.disk
      ensures ok <==> i < area.size - 1 && i < cache.nbuf
      ensures ok ==> Midway(v, bs, ds, i + 1)
      ensures ok && old(Remembered()) ==> Remembered()
    {
      AloneNext(bs, i);
      ApplyNext(v, ds, bs, i);
      FitsAlone(bs, i);
      ghost var r := run;
      ok := Update(bs[i], ds[i], 0);
      assert run == r;
    }

    lemma FitsAlone(bs: seq<Uint>, i: nat)
      requires i < |bs| && p == Alone(bs[..i]) && cache.held == {} && bs[i] !in bs[..i]
      ensures Fits(bs[i]) <==> i < cache.nbuf
    {
      assert cache.held - cache.dirty == {};
    }

    // end_op of the lone operation, with its commit
    method EndAlone(bs: seq<Uint>, ds: seq<Block>, ghost v: seq<Block>) returns (ok: bool)
      requires Writable(bs, area, |v|) && |ds| == |bs| && Midway(v, bs, ds, |bs|)
      modifies this`outstanding, this`committing, this`n, this`p, this`run, cache, cache.disk
      ensures ok <==> bs == [] || |bs| < cache.nbuf
      ensures ok ==> Valid() && p == P.START && cache.Calm() && cache.held == {} && cache.view == cache.disk.memdisk
      ensures ok ==> |cache.view| == |v|
      ensures ok ==> forall b | 0 <= b < |v| && !area.Has(b) :: cache.view[b] == Apply(v, InstallWrites(ds, bs))[b]
      ensures ok && old(Remembered()) ==> Remembered()
      ensures ok ==> OneTxnMore(old(run), run, bs)
    {
      assert bs[..|bs|] == bs && ds[..|bs|] == ds;
      var last := EndOp(0);
      ok := FinishCommit();
    }

    // What commit() and end_op() leave in the fields
    method Emptied()
      requires Protocol() && committing && cache.Valid() && cache.dirty == {} && Loggable(p.blocks, area, |cache.view|)
      requires WellFormed(cache.disk.memdisk, area) && HeadN(cache.disk.memdisk[area.start]) == 0
      modifies this`n, this`committing, this`p
      ensures Valid() && p == P.Committed(old(p))
    {
      P.CommittedKeeps(p);
      n := 0;
      committing := false;
      p := P.Committed(p);
    }

    // commit() of a log that is not empty
    method CommitLogged() returns (ok: bool)
      requires Valid() && n > 0 && cache.Calm() && Elsewhere(cache.held, area, p.blocks)
      requires Unchanged(cache.view, cache.disk.memdisk, cache.held)
      modifies this`run, cache, cache.disk
      ensures ok <==> |p.blocks| + |old(cache.held)| < cache.nbuf
      ensures ok ==> cache.Calm() && cache.held == old(cache.held) && cache.dirty == {}
      ensures ok ==> cache.view == cache.disk.memdisk
      ensures ok ==> WellFormed(cache.disk.memdisk, area) && HeadN(cache.disk.memdisk[area.start]) == 0
      ensures ok ==> |cache.view| == |old(cache.view)|
      ensures ok ==> forall b | 0 <= b < |cache.view| && !area.Has(b) :: cache.view[b] == old(cache.view)[b]
      ensures ok ==> cache.disk.trace == old(cache.disk.trace) + CommitWrites(old(cache.disk.memdisk)[area.start],
                              Copies(old(cache.view), p.blocks), p.blocks, area)
      ensures ok ==> run == Extended(old(run), Txn(p.blocks, Copies(old(cache.view), p.blocks)), cache.view)
      ensures ok && old(Remembered()) ==> Remembered()
    {
      ghost var v, d, ws := cache.view, cache.disk.memdisk, cache.disk.trace;
      CommittedView(v, d, area, p.blocks);
      ok := Commit(cache, area, block[..n], cache.held);
      if ok {
        ghost var t := Txn(p.blocks, Copies(v, p.blocks));
        assert cache.view == AfterTxn(d, t, area);
        Remember(run, d, ws, area, v, p.blocks, cache.view, cache.disk.trace);
        run := Extended(run, t, cache.view);
      }
    }

    // The search for the block and the slot it is recorded in
    method Record(blockno: Uint)
      requires |block| == LOGSIZE && n < LOGSIZE
      modifies this`n, this`block
      ensures |block| == LOGSIZE && n <= LOGSIZE && block[..n] == Absorb(old(block[..n]), blockno)
    {
      var i := 0;
      while i < n
        invariant 0 <= i <= n && forall j | 0 <= j < i :: block[j] != blockno
      {
        if block[i] == blockno {  // log absorption
          break;
        }
        i := i + 1;
      }
      assert i < n ==> block[..n][i] == blockno;
      block := block[i := blockno];
      if i == n {
        n := n + 1;
      }
    }
  }

  // One more commit, of the blocks bs, if there are any
  ghost predicate OneTxnMore(r: Run, r1: Run, bs: seq<Uint>) {
    if bs == [] then r1 == r else |r1.txns| == |r.txns| + 1 && r1.txns[|r.txns|].bs == bs
  }

  // Distinct blocks of a disk of n outside its log, as many as one operation may write
  predicate Writable(bs: seq<Uint>, log: Area, n: nat) {
    && |bs| <= MAXOPBLOCKS && (forall i | 0 <= i < |bs| :: bs[i] < n && !log.Has(bs[i]))
    && forall i, j | 0 <= i < j < |bs| :: bs[i] != bs[j]
  }

  // One operation, which has logged bs
  ghost function Alone(bs: seq<Uint>): (p: P.State) {
    P.State(bs, [SetOf(bs)], false, {})
  }

  lemma AloneNext(bs: seq<Uint>, i: nat)
    requires |bs| <= MAXOPBLOCKS && i < |bs| && forall i, j | 0 <= i < j < |bs| :: bs[i] != bs[j]
    ensures bs[i] !in bs[..i] && P.InBudget(Alone(bs[..i]), 0, bs[i])
    ensures P.Logged(Alone(bs[..i]), 0, bs[i]) == Alone(bs[..i + 1])
  {
    SetOfSize(bs[..i]);
    assert bs[..i + 1] == bs[..i] + [bs[i]];
    assert SetOf(bs[..i + 1]) == SetOf(bs[..i]) + {bs[i]};
  }

  lemma ApplyNext(v: seq<Block>, ds: seq<Block>, bs: seq<Uint>, i: nat)
    requires |ds| == |bs| && i < |bs| && forall j | 0 <= j < |bs| :: bs[j] < |v|
    ensures Apply(v, InstallWrites(ds[..i + 1], bs[..i + 1])) == Apply(v,
      InstallWrites(ds[..i], bs[..i]))[bs[i] := ds[i]]
  {
    var ws := InstallWrites(ds[..i + 1], bs[..i + 1]);
    assert |ws| == i + 1 && ws[i] == Write(bs[i], ds[i]);
    assert ws[..i] == InstallWrites(ds[..i], bs[..i]);
  }

  // Without operations and without a commit the protocol is at its start.
  lemma AtRest(p: P.State)
    requires P.Inv(p) && p.ops == [] && !p.committing
    ensures p == P.START
  {
  }

  // The buffers that bget cannot recycle: those of the logged blocks and the other held ones
  lemma Occupied(bs: seq<Uint>, dirty: set<nat>, held: set<nat>)
    requires dirty == SetOf(bs) && forall i, j | 0 <= i < j < |bs| :: bs[i] != bs[j]
    ensures |dirty + held| == |bs| + |held - dirty| && forall i :: i in dirty <==> i in bs
  {
    SetOfSize(bs);
    assert dirty + held == dirty + (held - dirty);
  }

  // Where only the logged blocks differed from the disk, the committed disk is
  // the logical disk.
  lemma CommittedView(v: seq<Block>, d: seq<Block>, log: Area, bs: seq<Uint>)
    requires |v| == |d| && WellFormed(d, log) && HeadN(d[log.start]) == 0 && Loggable(bs, log, |d|)
    requires forall b | 0 <= b < |d| && b !in bs :: v[b] == d[b]
    ensures var ws := CommitWrites(d[log.start], Copies(v, bs), bs, log);
      InRange(ws, |d|) &&
      var e := Apply(d, ws);
      && WellFormed(e, log) && HeadN(e[log.start]) == 0
      && forall b | 0 <= b < |d| && !log.Has(b) :: e[b] == v[b]
  {
    FullCommit(d, Copies(v, bs), bs, log);
  }

  lemma Remember(r: Run, d: seq<Block>, ws: seq<Write>, log: Area, v: seq<Block>, bs: seq<Uint>, w: seq<Block>,
                 ws1: seq<Write>)
    requires |v| == |d| && Loggable(bs, log, |d|) && WellFormed(d, log) && HeadN(d[log.start]) == 0
    requires w == AfterTxn(d, Txn(bs, Copies(v, bs)), log)
    requires ws1 == ws + CommitWrites(d[log.start], Copies(v, bs), bs, log)
    ensures History(r, d, ws, log) ==> History(Extended(r, Txn(bs, Copies(v, bs)), w), w, ws1, log)
  {
    if History(r, d, ws, log) {
      HistoryStep(r, d, ws, log, v, bs, w);
    }
  }

  // A crash after any k of commit's writes leaves the logical disk if the header is
  // written, and the old disk if not.
  lemma CommittedCrash(v: seq<Block>, d: seq<Block>, log: Area, bs: seq<Uint>, k: nat, ks: seq<nat>)
    requires |v| == |d| && WellFormed(d, log) && HeadN(d[log.start]) == 0 && Loggable(bs, log, |d|)
    requires forall b | 0 <= b < |d| && b !in bs :: v[b] == d[b]
    ensures var ws := Prefix(CommitWrites(d[log.start], Copies(v, bs), bs, log), k);
      InRange(ws, |d|) && Survives(Apply(d, ws), log, ks, if k > |bs| then v else d)
  {
    CrashAtomicity(d, Copies(v, bs), bs, log, k, ks);
  }

  function Absorb(bs: seq<Uint>, b: Uint): (r: seq<Uint>) {
    if b in bs then bs else bs + [b]
  }

  lemma LoggableAbsorb(bs: seq<Uint>, log: Area, n: nat, b: Uint)
    requires Loggable(bs, log, n) && b < n && !log.Has(b) && |bs| < LOGSIZE && |bs| < log.size - 1
    ensures Loggable(Absorb(bs, b), log, n) && SetOf(Absorb(bs, b)) == SetOf(bs) + {b}
  {
  }
}
