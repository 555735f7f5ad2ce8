// bio.c: the buffer cache, a circular doubly linked list in most-recently-used
// order through a sentinel. Buffers are indices into bcache.buf; the index
// |buf| stands for the sentinel bcache.head.
module Bio {
  import opened Bytes
  import opened Memide
  import opened Util

  // ---- the list ------------------------------------------------------------

  // The next and prev pointers run round ring in both directions.
  ghost predicate Chain(next: seq<nat>, prev: seq<nat>, ring: seq<nat>)
  {
    && |next| == |prev| && |ring| > 0
    && (forall i | 0 <= i < |ring| :: ring[i] < |next|)
    && (forall b | 0 <= b < |next| :: next[b] < |next| && prev[b] < |next|)
    && (forall i, j | 0 <= i < j < |ring| :: ring[i] != ring[j])
    && (forall i | 0 <= i < |ring| - 1 :: Joined(next, prev, ring, i))
    && next[ring[|ring|-1]] == ring[0] && prev[ring[0]] == ring[|ring|-1]
  }

  // The i-th of the ring and the one after it point to each other.
  ghost predicate Joined(next: seq<nat>, prev: seq<nat>, ring: seq<nat>, i: nat)
    requires |next| == |prev| && i + 1 < |ring| && ring[i] < |next| && ring[i + 1] < |next|
  {
    next[ring[i]] == ring[i + 1] && prev[ring[i + 1]] == ring[i]
  }

  // ring is the sentinel followed by every buffer, each once.
  ghost predicate Linked(next: seq<nat>, prev: seq<nat>, ring: seq<nat>)
  {
    && Chain(next, prev, ring) && |ring| == |next| && ring[0] == |ring| - 1
    && (forall k | 1 <= k < |ring| :: ring[k] < |ring| - 1)
    && forall b | 0 <= b < |ring| :: b in ring
  }

  // The four assignments, in binit and in brelse, that put b at the front.
  lemma PushFront(next: seq<nat>, prev: seq<nat>, ring: seq<nat>, b: nat)
    requires Chain(next, prev, ring) && b !in ring && b < |next|
    ensures var h := ring[0];
      var next1 := next[b := next[h]];
      Chain(next1[h := b], prev[b := h][next1[h] := b], [h, b] + ring[1..])
  {
    var s, h, n := [ring[0], b] + ring[1..], ring[0], next[ring[0]];
    assert |ring| > 1 ==> Joined(next, prev, ring, 0);
    assert n == ring[if |ring| == 1 then 0 else 1];
    var next2, prev2 := next[b := n][h := b], prev[b := h][n := b];
    forall i | 0 <= i < |s| - 1 ensures Joined(next2, prev2, s, i) {
      if i >= 2 {
        assert s[i] == ring[i-1] && s[i+1] == ring[i] && Joined(next, prev, ring, i - 1);
      }
    }
  }

  // The two assignments in brelse that take b out of the list.
  lemma Unlink(next: seq<nat>, prev: seq<nat>, ring: seq<nat>, k: nat)
    requires Chain(next, prev, ring) && 1 <= k < |ring|
    ensures var b := ring[k];
      Chain(next[prev[b] := next[b]], prev[next[b] := prev[b]], Without(ring, k))
  {
    var s, b := Without(ring, k), ring[k];
    assert Joined(next, prev, ring, k - 1) && (k + 1 < |ring| ==> Joined(next, prev, ring, k));
    var p, n := ring[k - 1], ring[if k + 1 == |ring| then 0 else k + 1];
    assert prev[b] == p && next[b] == n;
    var next1, prev1 := next[p := n], prev[n := p];
    forall i | 0 <= i < |s| - 1 ensures Joined(next1, prev1, s, i) {
      UnlinkStep(next, prev, ring, k, i);
    }
  }

  function Without(ring: seq<nat>, k: nat): (r: seq<nat>)
    requires k < |ring|
    ensures |r| == |ring| - 1 && forall i | 0 <= i < |r| :: r[i] == ring[if i < k then i else i + 1]
  {
    ring[..k] + ring[k + 1..]
  }

  lemma UnlinkStep(next: seq<nat>, prev: seq<nat>, ring: seq<nat>, k: nat, i: nat)
    requires Chain(next, prev, ring) && 1 <= k < |ring| && i < |ring| - 2
    ensures var p, n := ring[k - 1], ring[if k + 1 == |ring| then 0 else k + 1];
      Joined(next[p := n], prev[n := p], Without(ring, k), i)
  {
    assert i + 1 != k ==> Joined(next, prev, ring, if i < k then i else i + 1);
  }

  function MoveToFront(ring: seq<nat>, k: nat): (r: seq<nat>)
    requires 1 <= k < |ring|
  {
    [ring[0], ring[k]] + ring[1..k] + ring[k+1..]
  }

  lemma Place(next: seq<nat>, prev: seq<nat>, ring: seq<nat>, b: nat) returns (k: nat)
    requires Linked(next, prev, ring) && b < |ring| - 1
    ensures 1 <= k < |ring| && ring[k] == b
  {
    assert b in ring;
    k :| 0 <= k < |ring| && ring[k] == b;
  }

  // The links after brelse's six assignments have moved b to the front of the list of h
  function TouchedNext(next: seq<nat>, prev: seq<nat>, b: nat, h: nat): (r: seq<nat>)
    requires b < |next| == |prev| && h < |next| && prev[b] < |next|
  {
    var next1 := next[prev[b] := next[b]];
    next1[b := next1[h]][h := b]
  }

  function TouchedPrev(next: seq<nat>, prev: seq<nat>, b: nat, h: nat): (r: seq<nat>)
    requires b < |next| == |prev| && h < |next| && prev[b] < |next| && next[b] < |prev|
    requires next[prev[b] := next[b]][h] < |prev|
  {
    prev[next[b] := prev[b]][b := h][next[prev[b] := next[b]][b := next[prev[b] := next[b]][h]][h] := b]
  }

  lemma TouchChain(next: seq<nat>, prev: seq<nat>, ring: seq<nat>, k: nat)
    requires Linked(next, prev, ring) && 1 <= k < |ring|
    ensures Chain(TouchedNext(next, prev, ring[k], ring[0]), TouchedPrev(next, prev, ring[k], ring[0]),
      MoveToFront(ring, k))
  {
    var b, h := ring[k], ring[0];
    Unlink(next, prev, ring, k);
    PushFront(next[prev[b] := next[b]], prev[next[b] := prev[b]], Without(ring, k), b);
    assert [h, b] + Without(ring, k)[1..] == MoveToFront(ring, k);
  }

  // Moving one to the front keeps the members.
  lemma FrontMembers(ring: seq<nat>, k: nat, c: nat)
    requires 1 <= k < |ring| && c in ring
    ensures c in MoveToFront(ring, k)
  {
    var j :| 0 <= j < |ring| && ring[j] == c;
    assert MoveToFront(ring, k)[if j == 0 then 0 else if j < k then j + 1 else if j == k then 1 else j] == c;
  }

  // brelse's six assignments keep the list and move one buffer to its front.
  lemma Touch(next: seq<nat>, prev: seq<nat>, ring: seq<nat>, k: nat)
    requires Linked(next, prev, ring) && 1 <= k < |ring|
    ensures Linked(TouchedNext(next, prev, ring[k], ring[0]), TouchedPrev(next, prev, ring[k], ring[0]),
      MoveToFront(ring, k))
  {
    TouchChain(next, prev, ring, k);
    var t := MoveToFront(ring, k);
    forall i | 1 <= i < |t| ensures t[i] < |t| - 1 {
      assert t[i] == ring[if i == 1 then k else if i <= k then i - 1 else i];
    }
    forall c | 0 <= c < |t| ensures c in t {
      FrontMembers(ring, k, c);
    }
  }

  // ---- the contents --------------------------------------------------------

  // at finds the buffer caching a block of device 1. It is a function of the
  // block, and every buffer that caches a block is the one found there, so no
  // block is cached twice.
  ghost predicate Keyed(buf: seq<Buf>, at: map<nat, nat>)
  {
    && (forall b | 0 <= b < |buf| ::
          if buf[b].dev == 1 then buf[b].blockno in at && at[buf[b].blockno] == b
          else buf[b].dev == 0 && Idle(buf[b]) && !buf[b].locked && !buf[b].valid)
    && (forall i :: i in at ==> at[i] < |buf| && buf[at[i]].dev == 1 && buf[at[i]].blockno == i)
  }

  // What bget looks for when it recycles a buffer
  predicate Idle(b: Buf) {
    b.refcnt == 0 && !b.dirty
  }

  ghost predicate AllBusy(buf: seq<Buf>) {
    forall b | 0 <= b < |buf| :: !Idle(buf[b])
  }

  // The blocks pinned by B_DIRTY and the blocks whose buffer is locked
  ghost predicate Marked(buf: seq<Buf>, at: map<nat, nat>, dirty: set<nat>, held: set<nat>)
    requires Keyed(buf, at)
  {
    && dirty <= at.Keys && held <= at.Keys
    && (forall i :: i in at ==>
          && (buf[at[i]].dirty <==> i in dirty) && (buf[at[i]].locked <==> i in held)
          && (i in held ==> buf[at[i]].refcnt > 0) && (i in dirty || i in held ==> buf[at[i]].valid))
  }

  // view is the logical disk. A valid buffer holds the logical contents of its
  // block, and only a pinned or locked buffer may differ from the disk.
  ghost predicate Agrees(buf: seq<Buf>, at: map<nat, nat>, view: seq<Block>, disk: seq<Block>, dirty: set<nat>,
                         held: set<nat>)
    requires Keyed(buf, at)
  {
    && |view| == |disk| && (forall i :: i in at ==> i < |view|)
    && (forall i :: i in at && buf[at[i]].valid ==> buf[at[i]].data == view[i])
    && (forall i | 0 <= i < |view| ::
          view[i] == disk[i] || i in dirty || i in held)
  }

  ghost predicate Cached(buf: seq<Buf>, at: map<nat, nat>, view: seq<Block>, disk: seq<Block>, dirty: set<nat>,
                         held: set<nat>)
  {
    Keyed(buf, at) && Marked(buf, at, dirty, held) && Agrees(buf, at, view, disk, dirty, held)
  }

  function Toggle(s: set<nat>, i: nat, on: bool): (r: set<nat>) {
    if on then s + {i} else s - {i}
  }

  // One buffer changes, keeping its block; v and d are the new logical and disk contents.
  lemma UpdateOne(buf: seq<Buf>, at: map<nat, nat>, view: seq<Block>, disk: seq<Block>, dirty: set<nat>, held: set<nat>,
                  i: nat, b: Buf, v: Block, d: Block)
    requires Cached(buf, at, view, disk, dirty, held) && i in at && b.dev == 1 && b.blockno == i
    requires (b.locked ==> b.refcnt > 0) && (b.dirty || b.locked ==> b.valid) && (b.valid ==> b.data == v)
    requires v == d || b.dirty || b.locked
    ensures Cached(buf[at[i] := b], at, view[i := v], disk[i := d], Toggle(dirty, i, b.dirty),
      Toggle(held, i, b.locked))
  {
  }

  // An idle buffer is taken over for a block that is not cached.
  lemma Rekey(buf: seq<Buf>, at: map<nat, nat>, view: seq<Block>, disk: seq<Block>, dirty: set<nat>, held: set<nat>,
              b: nat, i: nat)
    requires Cached(buf, at, view, disk, dirty, held) && i !in at && i < |view| && b < |buf| && Idle(buf[b])
    ensures var at1 := (if buf[b].dev == 1 then at - {buf[b].blockno} else at)[i := b];
      && Cached(buf[b := buf[b].(dev := 1, blockno := i, valid := false, dirty := false, refcnt := 1)], at1, view,
          disk, dirty, held)
      && forall j :: j in held ==> j in at1 && at1[j] == at[j]
  {
  }

  // The first n buffers when none of them is idle: n different blocks, all pinned or locked.
  lemma {:induction false} BusyBlocks(buf: seq<Buf>, at: map<nat, nat>, dirty: set<nat>, held: set<nat>, n: nat)
    returns (s: set<nat>)
    requires Keyed(buf, at) && Marked(buf, at, dirty, held) && n <= |buf|
    requires forall b | 0 <= b < n :: buf[b].dirty || (buf[b].dev == 1 && buf[b].locked)
    ensures |s| == n && s <= dirty + held && forall i :: i in s ==> i in at && at[i] < n
  {
    s := {};
    if n > 0 {
      s := BusyBlocks(buf, at, dirty, held, n - 1);
      s := s + {buf[n-1].blockno};
    }
  }

  // Every reference is a lock: nobody is waiting for a buffer.
  ghost predicate Quiet(buf: seq<Buf>) {
    forall b | 0 <= b < |buf| :: buf[b].refcnt == if buf[b].locked then 1 else 0
  }

  // With fewer pinned and locked blocks than buffers, bget finds one to recycle.
  lemma BufferLeft(buf: seq<Buf>, at: map<nat, nat>, dirty: set<nat>, held: set<nat>)
    requires Keyed(buf, at) && Marked(buf, at, dirty, held) && Quiet(buf) && |dirty + held| < |buf|
    ensures !AllBusy(buf)
  {
    if AllBusy(buf) {
      var s := BusyBlocks(buf, at, dirty, held, |buf|);
      SubsetSize(s, dirty + held);
      assert false;
    }
  }

  // With every buffer pinned or locked, it finds none.
  lemma NoBufferLeft(buf: seq<Buf>, at: map<nat, nat>, dirty: set<nat>, held: set<nat>, b: nat)
    requires Keyed(buf, at) && Marked(buf, at, dirty, held) && |dirty + held| >= |buf| && b < |buf|
    ensures buf[b].dev == 1 && (buf[b].dirty || buf[b].locked)
  {
    if buf[b].dev != 1 || !(buf[b].dirty || buf[b].locked) {
      var marks := dirty + held;
      var slots := set i | i in marks :: at[i];
      ImageSize(marks, at);
      IntervalSize(0, |buf|);
      SubsetSize(slots, Interval(0, |buf|) - {b});
      assert false;
    }
  }

  lemma QuietTaken(buf: seq<Buf>, r: nat, b: Buf)
    requires r < |buf| && b.locked
    ensures Quiet(buf) && b.refcnt == 1 ==> Quiet(buf[r := b])
  {
  }

  // A cached block that nobody holds has no references in a quiet cache.
  lemma Unreferenced(buf: seq<Buf>, at: map<nat, nat>, dirty: set<nat>, held: set<nat>, i: nat)
    requires Keyed(buf, at) && Marked(buf, at, dirty, held) && i !in held
    ensures Quiet(buf) && i in at ==> buf[at[i]].refcnt == 0
  {
  }

  // When bget finds a buffer in a quiet cache
  lemma Available(buf: seq<Buf>, at: map<nat, nat>, dirty: set<nat>, held: set<nat>, i: nat)
    requires Keyed(buf, at) && Marked(buf, at, dirty, held) && Quiet(buf) && i !in held
    ensures i in dirty || |dirty + held| < |buf| ==> i in at || !AllBusy(buf)
    ensures |dirty + held| >= |buf| && i !in dirty ==> i !in at && AllBusy(buf)
  {
    if |dirty + held| < |buf| {
      BufferLeft(buf, at, dirty, held);
    } else {
      forall b | 0 <= b < |buf| ensures buf[b].dirty || buf[b].locked {
        NoBufferLeft(buf, at, dirty, held, b);
      }
    }
  }

  // b is the last buffer of the list that is neither referenced nor dirty
  ghost predicate LeastRecent(buf: seq<Buf>, ring: seq<nat>, b: nat)
    requires |ring| == |buf| + 1 && forall k | 1 <= k < |ring| :: ring[k] < |buf|
  {
    exists k | 1 <= k < |ring| :: ring[k] == b && Idle(buf[b]) && forall j | k < j < |ring| :: !Idle(buf[ring[j]])
  }

  class Bcache {
    const disk: Disk
    const nbuf: nat       // NBUF
    var buf: seq<Buf>     // bcache.buf[NBUF]
    var next: seq<nat>    // links of the buffers and, last, of bcache.head
    var prev: seq<nat>

    ghost var ring: seq<nat>
    ghost var at: map<nat, nat>
    ghost var view: seq<Block>
    ghost var dirty: set<nat>
    ghost var held: set<nat>

    ghost predicate Valid()
      reads this, disk
    {
      && |buf| == nbuf && |ring| == nbuf + 1 && Linked(next, prev, ring)
      && Cached(buf, at, view, disk.memdisk, dirty, held)
    }

    // binit
    constructor (d: Disk, nbuf: nat)
      ensures Valid() && disk == d && this.nbuf == nbuf
      ensures at == map[] && view == d.memdisk && dirty == {} && held == {}
    {
      var head := nbuf;
      var bs := seq(nbuf, _ => Buf(0, 0, false, false, false, 0, ZeroBlock()));
      var nx: seq<nat> := seq(nbuf + 1, _ => head);
      var pv: seq<nat> := seq(nbuf + 1, _ => head);
      ghost var r: seq<nat> := [head];
      var b := 0;
      while b < nbuf
        invariant 0 <= b <= nbuf && |nx| == nbuf + 1 && |r| == b + 1 && r[0] == head
        invariant Chain(nx, pv, r)
        invariant forall k | 1 <= k < |r| :: r[k] == b - k
      {
        PushFront(nx, pv, r, b);
        nx := nx[b := nx[head]];
        pv := pv[b := head];
        pv := pv[nx[head] := b];
        nx := nx[head := b];
        r := [head, b] + r[1..];
        b := b + 1;
      }
      forall c | 0 <= c <= nbuf ensures c in r {
        assert r[if c == nbuf then 0 else nbuf - c] == c;
      }
      this.nbuf := nbuf;
      disk, buf, next, prev, ring := d, bs, nx, pv, r;
      at, view, dirty, held := map[], d.memdisk, {}, {};
    }

    // First pass of bget: is the block already cached?
    method Lookup(dev: nat, blockno: nat) returns (r: Option<nat>)
      requires Valid() && dev == 1
      ensures r == if blockno in at then Some(at[blockno]) else None
    {
      var b := next[|buf|];
      ghost var i := 1;
      assert |ring| > 1 ==> Joined(next, prev, ring, 0);
      while b != |buf|
        invariant 1 <= i <= |ring| && b == ring[if i == |ring| then 0 else i]
        invariant forall j | 1 <= j < i :: !(buf[ring[j]].dev == dev && buf[ring[j]].blockno == blockno)
        decreases |ring| - i
      {
        if buf[b].dev == dev && buf[b].blockno == blockno {
          return Some(b);
        }
        assert i + 1 < |ring| ==> Joined(next, prev, ring, i);
        b := next[b];
        i := i + 1;
      }
      forall c | 0 <= c < |buf| ensures !(buf[c].dev == dev && buf[c].blockno == blockno) {
        assert c in ring;
      }
      return None;
    }

    // Second pass, backwards: the least recently used buffer that is neither referenced nor dirty.
    method Victim() returns (r: Option<nat>)
      requires Valid()
      ensures r == None ==> AllBusy(buf)
      ensures r.Some? ==> r.value < |buf| && LeastRecent(buf, ring, r.value)
    {
      var b := prev[|buf|];
      ghost var i := |ring| - 1;
      while b != |buf|
        invariant 0 <= i < |ring| && b == ring[i]
        invariant forall j | i < j < |ring| :: !Idle(buf[ring[j]])
        decreases i
      {
        if buf[b].refcnt == 0 && !buf[b].dirty {
          return Some(b);
        }
        assert Joined(next, prev, ring, i - 1);
        b := prev[b];
        i := i - 1;
      }
      forall c | 0 <= c < |buf| ensures !Idle(buf[c]) {
        assert c in ring;
      }
      return None;
    }

    // Recycle a buffer for a block that is not cached.
    method Recycle(dev: nat, blockno: nat) returns (r: Option<nat>)
      requires Valid() && dev == 1 && blockno < |view| && blockno !in at
      modifies this`buf, this`at
      ensures r == None <==> AllBusy(old(buf))
      ensures r == None ==> buf == old(buf) && at == old(at)
      ensures r.Some? ==> Valid() && blockno in at && r.value == at[blockno] && r.value < |old(buf)|
      ensures r.Some? ==> LeastRecent(old(buf), ring, r.value)
      ensures r.Some? ==> forall i :: i in held ==> i in at && at[i] == old(at)[i]
      ensures r.Some? ==> buf == old(buf)[r.value :=
        old(buf)[r.value].(dev := dev, blockno := blockno, valid := false, dirty := false, refcnt := 1)]
    {
      r := Victim();
      if r.Some? {
        var b := r.value;
        Rekey(buf, at, view, disk.memdisk, dirty, held, b, blockno);
        at := (if buf[b].dev == 1 then at - {buf[b].blockno} else at)[blockno := b];
        buf := buf[b := buf[b].(dev := dev, blockno := blockno, valid := false, dirty := false, refcnt := 1)];
      }
    }

    // bget up to its acquiresleep: find or recycle a buffer and take a reference
    // to it. None is the panic "bget: no buffers".
    method Bget(dev: nat, blockno: nat) returns (r: Option<nat>)
      requires Valid() && dev == 1 && blockno < |view|
      modifies this`buf, this`at
      ensures r == None <==> old(blockno !in at && AllBusy(buf))
      ensures r == None ==> buf == old(buf) && at == old(at)
      ensures r.Some? ==> Valid() && blockno in at && r.value == at[blockno] && r.value < |old(buf)|
      ensures r.Some? ==> buf == old(buf)[r.value := if old(blockno in at)
        then old(buf)[r.value].(refcnt := old(buf)[r.value].refcnt + 1)
        else old(buf)[r.value].(dev := dev, blockno := blockno, valid := false, dirty := false, refcnt := 1)]
      ensures r.Some? && old(blockno in at) ==> at == old(at)
      ensures r.Some? && old(blockno !in at) ==> LeastRecent(old(buf), ring, r.value)
      ensures r.Some? ==> forall i :: i in held ==> i in at && at[i] == old(at)[i]
    {
      r := Lookup(dev, blockno);
      if r.Some? {
        var b := r.value;
        buf := buf[b := buf[b].(refcnt := buf[b].refcnt + 1)];
        ghost var m := disk.memdisk;
        UpdateOne(old(buf), at, view, m, dirty, held, blockno, buf[b], view[blockno], m[blockno]);
        assert Toggle(dirty, blockno, buf[b].dirty) == dirty && Toggle(held, blockno, buf[b].locked) == held;
        assert view[blockno := view[blockno]] == view && m[blockno := m[blockno]] == m;
      } else {
        r := Recycle(dev, blockno);
      }
    }

    // acquiresleep at the end of bget, once no other process holds the buffer,
    // and the read from disk that bread makes if the buffer is new
    method Take(b: nat, ghost blockno: nat)
      requires Valid() && blockno in at && at[blockno] == b && buf[b].refcnt > 0 && blockno !in held
      modifies this`buf, this`held, disk
      ensures disk.memdisk == old(disk.memdisk) && disk.trace == old(disk.trace)
      ensures Valid() && Holds(b, blockno) && held == old(held) + {blockno}
      ensures buf == old(buf)[b := old(buf)[b].(locked := true, valid := true, data := view[blockno])]
    {
      ghost var m := disk.memdisk;
      var x := buf[b].(locked := true);
      if !x.valid {
        x := disk.Iderw(x);
      }
      buf := buf[b := x];
      held := held + {blockno};
      UpdateOne(old(buf), at, view, m, dirty, old(held), blockno, x, view[blockno], m[blockno]);
      assert Toggle(dirty, blockno, x.dirty) == dirty;
      assert view[blockno := view[blockno]] == view && m[blockno := m[blockno]] == m;
    }

    // b is the locked buffer of a block.
    ghost predicate Holds(b: nat, blockno: nat)
      reads this`at, this`held
    {
      blockno in held && blockno in at && at[blockno] == b
    }

    lemma HeldData(b: nat, blockno: nat)
      requires Valid() && Holds(b, blockno)
      ensures b < |buf| && buf[b].data == view[blockno] && buf[b].blockno == blockno && blockno < |view|
    {
    }

    // A valid buffer that is neither pinned nor locked equals its disk block.
    lemma CleanIsDisk(b: nat)
      requires Valid() && b < |buf| && buf[b].dev == 1 && buf[b].valid && !buf[b].dirty && !buf[b].locked
      ensures buf[b].blockno < |disk.memdisk| && buf[b].data == disk.memdisk[buf[b].blockno]
    {
    }

    // No block is cached twice.
    lemma OneBuffer(b: nat, c: nat)
      requires Valid() && b < |buf| && c < |buf| && buf[b].dev == buf[c].dev == 1 && buf[b].blockno == buf[c].blockno
      ensures b == c
    {
    }

    // bread: a locked buffer with the logical contents of the block
    method Bread(dev: nat, blockno: nat) returns (r: Option<nat>)
      requires Valid() && dev == 1 && blockno < |view| && blockno !in held
      modifies this`buf, this`at, this`held, disk
      ensures disk.memdisk == old(disk.memdisk) && disk.trace == old(disk.trace)
      ensures r == None <==> old(blockno !in at && AllBusy(buf))
      ensures r == None ==> buf == old(buf)
      ensures r.Some? ==> Valid() && Holds(r.value, blockno) && held == old(held) + {blockno} && r.value < |old(buf)|
      ensures r.Some? ==> buf == old(buf)[r.value := buf[r.value]] && buf[r.value].data == view[blockno]
      ensures r.Some? ==> buf[r.value].refcnt == 1 + if old(blockno in at) then old(buf)[r.value].refcnt else 0
      ensures r.Some? ==> forall i :: i in old(held) ==> i in at && at[i] == old(at)[i]
      ensures r.Some? && old(Quiet(buf)) ==> Quiet(buf)
    {
      ghost var was := buf;
      Unreferenced(buf, at, dirty, held, blockno);
      r := Bget(dev, blockno);
      if r.Some? {
        Take(r.value, blockno);
        ghost var b := buf[r.value];
        assert buf == was[r.value := b];
        QuietTaken(was, r.value, b);
      }
    }

    // A holder's memmove into b->data
    method Store(b: nat, blockno: nat, data: Block)
      requires Valid() && Holds(b, blockno)
      modifies this`buf, this`view
      ensures Valid() && Holds(b, blockno) && view == old(view)[blockno := data]
      ensures buf == old(buf)[b := old(buf)[b].(data := data)]
      ensures old(Quiet(buf)) ==> Quiet(buf)
    {
      ghost var m := disk.memdisk;
      buf := buf[b := buf[b].(data := data)];
      view := view[blockno := data];
      UpdateOne(old(buf), at, old(view), m, dirty, held, blockno, buf[b], data, m[blockno]);
      assert Toggle(dirty, blockno, buf[b].dirty) == dirty && Toggle(held, blockno, buf[b].locked) == held;
      assert m[blockno := m[blockno]] == m;
    }

    // bwrite: the block reaches the disk and is no longer pinned
    method Bwrite(b: nat, ghost blockno: nat)
      requires Valid() && Holds(b, blockno)
      modifies this`buf, this`dirty, disk
      ensures Valid() && Holds(b, blockno) && dirty == old(dirty) - {blockno}
      ensures buf == old(buf)[b := old(buf)[b].(dirty := false)]
      ensures old(Quiet(buf)) ==> Quiet(buf)
      ensures disk.memdisk == old(disk.memdisk)[blockno := view[blockno]]
      ensures disk.trace == old(disk.trace) + [Write(blockno, view[blockno])]
    {
      ghost var m := disk.memdisk;
      HeldData(b, blockno);
      var x := buf[b].(dirty := true);
      x := disk.Iderw(x);
      buf := buf[b := x];
      dirty := dirty - {blockno};
      UpdateOne(old(buf), at, view, m, old(dirty), held, blockno, x, view[blockno], view[blockno]);
      assert Toggle(held, blockno, x.locked) == held && view[blockno := view[blockno]] == view;
    }

    // b->flags |= B_DIRTY in log_write
    method Pin(b: nat, ghost blockno: nat)
      requires Valid() && Holds(b, blockno)
      modifies this`buf, this`dirty
      ensures Valid() && Holds(b, blockno) && dirty == old(dirty) + {blockno}
      ensures buf == old(buf)[b := old(buf)[b].(dirty := true)]
      ensures old(Quiet(buf)) ==> Quiet(buf)
    {
      ghost var m := disk.memdisk;
      buf := buf[b := buf[b].(dirty := true)];
      dirty := dirty + {blockno};
      UpdateOne(old(buf), at, view, m, old(dirty), held, blockno, buf[b], view[blockno], m[blockno]);
      assert Toggle(held, blockno, buf[b].locked) == held && view[blockno := view[blockno]] == view &&
        m[blockno := m[blockno]] == m;
    }

    // brelse. A buffer whose data was changed must have been written or pinned first. Without
    // its last reference it becomes the first of the list; the others keep their order.
    method Brelse(b: nat, ghost blockno: nat)
      requires Valid() && Holds(b, blockno) && (blockno in dirty || view[blockno] == disk.memdisk[blockno])
      modifies this`buf, this`held, this`next, this`prev, this`ring
      ensures Valid() && held == old(held) - {blockno}
      ensures buf == old(buf)[b := old(buf)[b].(locked := false, refcnt := old(buf)[b].refcnt - 1)]
      ensures old(Quiet(buf)) ==> Quiet(buf)
      ensures buf[b].refcnt > 0 ==> ring == old(ring)
      ensures buf[b].refcnt == 0 ==> exists k | 1 <= k < |old(ring)| ::
        old(ring)[k] == b && ring == [old(ring)[0], b] + old(ring)[1..k] + old(ring)[k + 1..]
    {
      Unlock(b, blockno);
      if buf[b].refcnt == 0 {
        // no one is waiting for it
        MoveToHead(b);
      }
    }

    method Unlock(b: nat, ghost blockno: nat)
      requires Valid() && Holds(b, blockno) && (blockno in dirty || view[blockno] == disk.memdisk[blockno])
      modifies this`buf, this`held
      ensures Valid() && held == old(held) - {blockno} && b < |buf|
      ensures buf == old(buf)[b := old(buf)[b].(locked := false, refcnt := old(buf)[b].refcnt - 1)]
      ensures old(Quiet(buf)) ==> Quiet(buf)
    {
      ghost var m := disk.memdisk;
      HeldData(b, blockno);
      var x := buf[b].(locked := false);
      x := x.(refcnt := x.refcnt - 1);
      buf := buf[b := x];
      held := held - {blockno};
      UpdateOne(old(buf), at, view, m, dirty, old(held), blockno, x, view[blockno], m[blockno]);
      assert Toggle(dirty, blockno, x.dirty) == dirty && view[blockno := view[blockno]] == view &&
        m[blockno := m[blockno]] == m;
    }

    method MoveToHead(b: nat)
      requires Valid() && b < |buf|
      modifies this`next, this`prev, this`ring
      ensures Valid()
      ensures exists k | 1 <= k < |old(ring)| ::
        old(ring)[k] == b && ring == [old(ring)[0], b] + old(ring)[1..k] + old(ring)[k + 1..]
    {
      var head := |buf|;
      ghost var k := Place(next, prev, ring, b);
      Touch(next, prev, ring, k);
      var nx, pv := next, prev;
      nx, pv := nx[pv[b] := nx[b]], pv[nx[b] := pv[b]];
      nx, pv := nx[b := nx[head]], pv[b := head];
      pv := pv[nx[head] := b];
      nx := nx[head := b];
      assert nx == TouchedNext(next, prev, b, head) && pv == TouchedPrev(next, prev, b, head);
      next, prev, ring := nx, pv, MoveToFront(ring, k);
    }

    // ---- with nobody waiting for a buffer --------------------------------------

    ghost predicate Calm()
      reads this, disk
    {
      Valid() && Quiet(buf)
    }

    // bread when every reference is a lock
    method CalmBread(blockno: nat) returns (r: Option<nat>)
      requires Calm() && blockno < |view| && blockno !in held
      modifies this`buf, this`at, this`held, disk
      ensures disk.memdisk == old(disk.memdisk) && disk.trace == old(disk.trace)
      ensures blockno in dirty || |dirty + old(held)| < nbuf ==> r.Some?
      ensures blockno !in dirty && |dirty + old(held)| >= nbuf ==> r == None
      ensures r.Some? ==> Calm() && Holds(r.value, blockno) && held == old(held) + {blockno}
      ensures r.Some? ==> forall i :: i in old(held) ==> i in at && at[i] == old(at)[i]
    {
      Available(buf, at, dirty, held, blockno);
      r := Bread(1, blockno);
    }
  }
}
