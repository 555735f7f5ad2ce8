// memide.c: the synchronous in-memory disk below the buffer cache, with a
// record of every block write that reached it.
module Memide {
  import opened Bytes

  // struct buf (buf.h) without its list links; locked stands for holdingsleep(&b->lock).
  datatype Buf = Buf(
    dev: nat,
    blockno: nat,
    valid: bool,     // B_VALID
    dirty: bool,     // B_DIRTY
    locked: bool,
    refcnt: nat,
    data: Block)

  datatype Write = Write(bno: nat, data: Block)

  ghost predicate InRange(ws: seq<Write>, n: nat) {
    forall i | 0 <= i < |ws| :: ws[i].bno < n
  }

  // The disk after the writes ws reached it in order.
  ghost function Apply(d: seq<Block>, ws: seq<Write>): (r: seq<Block>)
    requires InRange(ws, |d|)
    ensures |r| == |d|
  {
    if ws == [] then d
    else
      var w := ws[|ws|-1];
      Apply(d, ws[..|ws|-1])[w.bno := w.data]
  }

  lemma {:induction false} ApplyConcat(d: seq<Block>, u: seq<Write>, v: seq<Write>)
    requires InRange(u, |d|) && InRange(v, |d|)
    ensures InRange(u + v, |d|)
    ensures Apply(d, u + v) == Apply(Apply(d, u), v)
  {
    if v == [] {
      assert u + v == u;
    } else {
      ApplyConcat(d, u, v[..|v|-1]);
      assert (u + v)[..|u + v| - 1] == u + v[..|v|-1];
    }
  }

  class Disk {
    var memdisk: seq<Block>
    ghost var trace: seq<Write>   // every write so far

    constructor (image: seq<Block>)
      ensures memdisk == image && trace == []
    {
      memdisk := image;
      trace := [];
    }

    // Sync b with the disk. The requires clauses are the four panics of iderw.
    method Iderw(b: Buf) returns (r: Buf)
      requires b.locked && (b.valid ==> b.dirty) && b.dev == 1 && b.blockno < |memdisk|
      modifies this
      ensures r == b.(valid := true, dirty := false, data := if b.dirty then b.data else old(memdisk)[b.blockno])
      ensures memdisk == if b.dirty then old(memdisk)[b.blockno := b.data] else old(memdisk)
      ensures trace == old(trace) + if b.dirty then [Write(b.blockno, b.data)] else []
    {
      r := b;
      if r.dirty {
        r := r.(dirty := false);
        memdisk := memdisk[r.blockno := r.data];
        trace := trace + [Write(r.blockno, r.data)];
      } else {
        r := r.(data := memdisk[r.blockno]);
      }
      r := r.(valid := true);
    }
  }
}
