// fs.c and the file-writing loop of file.c. The class works on the logical disk
// that the buffer cache and the log provide: bread is a read of view, a change
// of the data followed by log_write is an update of view, and logged collects
// the blocks the current operation has put in the log.
module Fs {
  import opened Bytes
  import opened FsSpec
  import opened FileSpec

  class FileSystem {
    const sb: Super
    var view: seq<Block>
    var inodes: seq<Inode>      // in memory, by inode number
    ghost var own: Owners
    ghost var base: seq<Block>  // view at begin_op
    ghost var logged: set<nat>
    ghost const start: State
    ghost var ops: seq<Op>      // every operation that has ended, since start

    ghost predicate Valid()
      reads this
    {
      Consistent(view, inodes, own, sb) && Tracked(base, view, logged, sb)
    }

    // Between operations: what there is now is what the operations since start have left.
    ghost predicate Recorded()
      reads this
    {
      OpRun(start, ops, sb) && State(view, inodes, own) == Preceding(start, ops, |ops|)
    }

    constructor (view: seq<Block>, inodes: seq<Inode>, ghost own: Owners, sb: Super)
      requires Consistent(view, inodes, own, sb)
      ensures Valid() && this.view == view && this.inodes == inodes && this.own == own && this.sb == sb && ops == []
      ensures Synced(State(view, inodes, own), sb) ==> Recorded()
    {
      start := State(view, inodes, own);
      this.sb, this.view, this.inodes, this.own := sb, view, inodes, own;
      base, logged, ops := view, {}, [];
    }

    method BeginOp()
      requires Valid()
      modifies this`base, this`logged
      ensures Valid() && base == view && logged == {}
    {
      base, logged := view, {};
    }

    method EndOp()
      requires Valid()
      modifies this`ops
      ensures Valid() && ops == old(ops) + [Op(logged, State(view, inodes, own))]
    {
      ops := ops + [Op(logged, State(view, inodes, own))];
    }

    // Change a block's data and log_write it.
    method LogWrite(b: nat, data: Block)
      requires sb.inodeStart <= b < sb.size <= |view| && Tracked(base, view, logged, sb)
      modifies this`view, this`logged
      ensures view == old(view)[b := data] && logged == old(logged) + {b} && Tracked(base, view, logged, sb)
    {
      view := view[b := data];
      logged := logged + {b};
    }

    // balloc: the first free block, zeroed. The result is false for "out of blocks".
    method Balloc() returns (ok: bool, a: Uint)
      requires Valid()
      modifies this`view, this`logged
      ensures ok <==> exists b | 0 <= b < sb.size :: !Used(old(view), sb, b)
      ensures !ok ==> view == old(view) && logged == old(logged)
      ensures ok ==> a < sb.size && !Used(old(view), sb, a) && forall b | 0 <= b < a :: Used(old(view), sb, b)
      ensures ok ==> view == Allocated(old(view), sb, a) && logged == old(logged) + {sb.BBlock(a), a}
      ensures Tracked(base, view, logged, sb)
    {
      var b := 0;
      while b < sb.size
        invariant 0 <= b && b % BPB == 0 && Valid() && view == old(view) && logged == old(logged)
        invariant forall c | 0 <= c < b && c < sb.size :: Used(view, sb, c)
        decreases sb.size - b
      {
        var bi;
        ok, bi := FreeBit(b);
        if ok {
          a := b + bi;
          Claim(a, sb.BBlock(b), bi);
          return;
        }
        b := b + BPB;
      }
      return false, 0;
    }

    // The inner loop of balloc: the first free block from b on that has its bit in b's bitmap block
    method FreeBit(b: nat) returns (found: bool, bi: nat)
      requires sb.Valid(|view|) && b < sb.size && b % BPB == 0
      ensures bi <= BPB && forall c | b <= c < b + bi && c < sb.size :: Used(view, sb, c)
      ensures found ==> b + bi < sb.size && sb.BBlock(b + bi) == sb.BBlock(b) && (b + bi) % BPB == bi
      ensures found ==> !Used(view, sb, b + bi)
      ensures !found ==> bi == BPB || b + bi >= sb.size
    {
      var blk := sb.BBlock(b);
      assert b / BPB <= sb.size / BPB;
      bi := 0;
      while bi < BPB && b + bi < sb.size
        invariant 0 <= bi <= BPB && (bi > 0 ==> b + bi <= sb.size)
        invariant forall c | b <= c < b + bi && c < sb.size :: Used(view, sb, c)
      {
        assert sb.BBlock(b + bi) == blk && (b + bi) % BPB == bi;
        if !Bit(view[blk], bi) {  // Is block free?
          return true, bi;
        }
        bi := bi + 1;
      }
      found := false;
    }

    // What balloc does with the free block it has found
    method Claim(a: nat, blk: nat, bi: nat)
      requires Valid() && a < sb.size && !Used(view, sb, a) && blk == sb.BBlock(a) && bi == a % BPB
      modifies this`view, this`logged
      ensures view == Allocated(old(view), sb, a) && logged == old(logged) + {sb.BBlock(a), a}
      ensures Tracked(base, view, logged, sb)
    {
      FreeBlock(view, inodes, own, sb, a);
      assert a / BPB <= sb.size / BPB;
      LogWrite(blk, PutBit(view[blk], bi, true));
      LogWrite(a, ZeroBlock());  // bzero
    }

    // bfree of a block in use; "freeing free block" is what the requires excludes.
    method Bfree(b: nat)
      requires sb.Valid(|view|) && b < sb.size && Used(view, sb, b) && Tracked(base, view, logged, sb)
      modifies this`view, this`logged
      ensures view == PutUsed(old(view), sb, b, false) && logged == old(logged) + {sb.BBlock(b)}
      ensures Tracked(base, view, logged, sb)
    {
      var bi := b % BPB;
      assert b / BPB <= sb.size / BPB;
      LogWrite(sb.BBlock(b), PutBit(view[sb.BBlock(b)], bi, false));
    }

    method Iupdate(i: nat)
      requires sb.Valid(|view|) && i < |inodes| <= sb.ninodes && Sized(inodes) && Tracked(base, view, logged, sb)
      modifies this`view, this`logged
      ensures view == Updated(old(view), sb, i, inodes[i]) && logged == old(logged) + {sb.IBlock(i)}
      ensures Tracked(base, view, logged, sb)
    {
      IBlockInRange(sb, i);
      LogWrite(sb.IBlock(i), PutWords(view[sb.IBlock(i)], DWORDS * (i % IPB), Image(inodes[i])));
    }

    // One slot of the inode itself, allocating if it is empty
    method FillSlot(i: nat, s: nat) returns (ok: bool, a: Uint)
      requires Valid() && i < |inodes| && s <= NDIRECT
      modifies this`view, this`inodes, this`own, this`logged
      ensures ok ==> Valid() && inodes == SetSlot(old(inodes), i, s, a) && 0 < a < |view|
      ensures ok ==> Kept(old(view), old(own), view, own, sb, i)
      ensures ok ==> SameSlots(old(view), old(inodes)[i], view, inodes[i], s)
      ensures old(inodes)[i].addrs[s] != 0 ==> ok && a == old(inodes)[i].addrs[s] && view == old(view)
      ensures old(inodes)[i].addrs[s] != 0 ==> inodes == old(inodes) && own == old(own) && logged == old(logged)
      ensures ok && old(inodes)[i].addrs[s] == 0 ==> view[a] == ZeroBlock() && a !in old(own) && a in own
      ensures !ok ==> view == old(view) && forall b | 0 <= b < sb.size :: Used(view, sb, b)
      ensures ok ==> old(logged) <= logged && Paid(old(logged), logged, old(own), own, sb, inodes[i], {a})
    {
      assert SlotOk(view, inodes, own, i, s);
      assert inodes[i].addrs[s] != 0 ==> OwnerOk(view, inodes, own, sb, inodes[i].addrs[s]);
      ok, a := true, inodes[i].addrs[s];
      if a == 0 {
        ok, a := Balloc();
        if ok {
          EnterSlot(i, s, a, old(view));
          PaidOne(old(logged), old(own), own, sb, inodes[i], a, {});
        }
      } else {
        assert inodes[i].addrs[s := a] == inodes[i].addrs;
        PaidNothing(logged, own, sb, inodes[i], {a});
      }
    }

    // ip->addrs[s] = addr, once balloc has taken the block a from the disk v0
    method EnterSlot(i: nat, s: nat, a: Uint, ghost v0: seq<Block>)
      requires Consistent(v0, inodes, own, sb) && a < sb.size && !Used(v0, sb, a) && view == Allocated(v0, sb, a)
      requires i < |inodes| && s <= NDIRECT && inodes[i].addrs[s] == 0 && Tracked(base, view, logged, sb)
      modifies this`inodes, this`own
      ensures Valid() && inodes == SetSlot(old(inodes), i, s, a) && Kept(v0, old(own), view, own, sb, i)
      ensures SameSlots(v0, old(inodes)[i], view, inodes[i], s)
      ensures a != 0 && a !in old(own) && own == old(own)[a := (i, s)] && view[a] == ZeroBlock()
    {
      inodes := SetSlot(inodes, i, s, a);
      own := own[a := (i, s)];
      FilledSlot(v0, old(inodes), old(own), sb, i, s, a, view, inodes, own);
    }

    // One entry of the inode's indirect block, allocating if it is empty
    method FillEntry(i: nat, j: nat) returns (ok: bool, a: Uint)
      requires Valid() && i < |inodes| && j < NINDIRECT && 0 < inodes[i].addrs[NDIRECT] < |view|
      modifies this`view, this`own, this`logged
      ensures ok ==> Valid() && 0 < a < |view| && a == SlotAddr(view, inodes[i], NDIRECT + 1 + j)
      ensures ok ==> Kept(old(view), old(own), view, own, sb, i)
      ensures ok ==> SameSlots(old(view), inodes[i], view, inodes[i], NDIRECT + 1 + j)
      ensures SlotAddr(old(view), inodes[i], NDIRECT + 1 + j) != 0 ==> ok && view == old(view) && own == old(own)
      ensures SlotAddr(old(view), inodes[i], NDIRECT + 1 + j) != 0 ==> logged == old(logged)
      ensures ok && SlotAddr(old(view), inodes[i], NDIRECT + 1 + j) == 0 ==> view[a] == ZeroBlock() && a !in old(own)
      ensures ok && SlotAddr(old(view), inodes[i], NDIRECT + 1 + j) == 0 ==> a in own
      ensures !ok ==> view == old(view) && forall b | 0 <= b < sb.size :: Used(view, sb, b)
      ensures ok ==> old(logged) <= logged && Paid(old(logged), logged, old(own), own, sb, inodes[i], {a})
    {
      var ind := inodes[i].addrs[NDIRECT];
      assert SlotOk(view, inodes, own, i, NDIRECT + 1 + j);
      ok, a := true, Word(view[ind], j);
      assert a != 0 ==> OwnerOk(view, inodes, own, sb, a);
      if a == 0 {
        ok, a := Balloc();
        if ok {
          EnterBlock(i, j, ind, a, old(view));
          PaidOne(old(logged), old(own), own, sb, inodes[i], a, {ind});
        }
      } else {
        PaidNothing(logged, own, sb, inodes[i], {a});
      }
    }

    // a[bn] = addr; log_write(bp), once balloc has taken the block a from the disk v0
    method EnterBlock(ghost i: nat, j: nat, ind: nat, a: Uint, ghost v0: seq<Block>)
      requires Consistent(v0, inodes, own, sb) && a < sb.size && !Used(v0, sb, a) && view == Allocated(v0, sb, a)
      requires i < |inodes| && j < NINDIRECT && ind == inodes[i].addrs[NDIRECT] && 0 < ind < |view|
      requires SlotAddr(v0, inodes[i], NDIRECT + 1 + j) == 0 && Tracked(base, view, logged, sb)
      modifies this`view, this`own, this`logged
      ensures Valid() && Kept(v0, old(own), view, own, sb, i) && a != 0 && a !in old(own)
      ensures own == old(own)[a := (i, NDIRECT + 1 + j)]
      ensures view[a] == ZeroBlock()
      ensures SlotAddr(view, inodes[i], NDIRECT + 1 + j) == a
      ensures SameSlots(v0, inodes[i], view, inodes[i], NDIRECT + 1 + j)
      ensures logged == old(logged) + {ind}
    {
      assert SlotOk(v0, inodes, own, i, NDIRECT) && OwnerOk(v0, inodes, own, sb, ind);
      LogWrite(ind, PutWord(view[ind], j, a));
      own := own[a := (i, NDIRECT + 1 + j)];
      FilledEntry(v0, inodes, old(own), sb, i, j, a, view, own);
    }

    // bmap of a block in range. The result is false for "out of blocks".
    method Bmap(i: nat, bn: nat) returns (ok: bool, a: Uint)
      requires Valid() && i < |inodes| && bn < MAXFILE
      modifies this`view, this`inodes, this`own, this`logged
      ensures ok ==> Valid() && |inodes| == |old(inodes)|
      ensures ok ==> Bmapped(old(view), old(inodes), old(own), view, inodes, own, sb, i, bn, a)
      ensures ok ==> old(logged) <= logged && Paid(old(logged), logged, old(own), own, sb, inodes[i], {a})
      ensures !ok ==> FileBlock(old(view), old(inodes)[i], bn) == 0
      ensures FileBlock(old(view), old(inodes)[i], bn) != 0 ==> logged == old(logged)
      ensures !ok ==> sb.Valid(|view|) && forall b | 0 <= b < sb.size :: Used(view, sb, b)
    {
      if bn < NDIRECT {
        ok, a := FillSlot(i, bn);
        if ok {
          BmapOne(old(view), old(inodes), old(own), view, inodes, own, sb, i, bn, a);
        }
        return;
      }
      ok, a := BmapIndirect(i, bn);
    }

    // bmap of a block that goes through the indirect block
    method BmapIndirect(i: nat, bn: nat) returns (ok: bool, a: Uint)
      requires Valid() && i < |inodes| && NDIRECT <= bn < MAXFILE
      modifies this`view, this`inodes, this`own, this`logged
      ensures ok ==> Valid() && |inodes| == |old(inodes)|
      ensures ok ==> Bmapped(old(view), old(inodes), old(own), view, inodes, own, sb, i, bn, a)
      ensures ok ==> old(logged) <= logged && Paid(old(logged), logged, old(own), own, sb, inodes[i], {a})
      ensures !ok ==> FileBlock(old(view), old(inodes)[i], bn) == 0
      ensures FileBlock(old(view), old(inodes)[i], bn) != 0 ==> logged == old(logged)
      ensures !ok ==> sb.Valid(|view|) && forall b | 0 <= b < sb.size :: Used(view, sb, b)
    {
      ok, a := FillSlot(i, NDIRECT);
      if ok {
        ghost var v1, o1, log1 := view, own, logged;
        ok, a := FillEntry(i, bn - NDIRECT);
        if ok {
          BmapTwo(old(view), old(inodes), old(own), v1, inodes, o1, view, own, sb, i, bn, a);
          PaidTwo(old(logged), log1, logged, old(own), o1, own, sb, inodes[i], a);
        }
      }
    }

    // itrunc's loop over the direct blocks
    method TruncDirect(i: nat)
      requires Valid() && i < |inodes|
      modifies this`view, this`inodes, this`own, this`logged
      ensures Valid() && DirectGone(old(view), old(inodes), old(own), view, inodes, own, sb, i, NDIRECT)
      ensures logged == old(logged) + BitsOf(sb, Before(old(own), i, NDIRECT))
    {
      var s := 0;
      ghost var v0, in0, own0, log0 := view, inodes, own, logged;
      assert Before(own, i, 0) == {} && own - {} == own;
      while s < NDIRECT
        invariant 0 <= s <= NDIRECT && Valid() && DirectGone(v0, in0, own0, view, inodes, own, sb, i, s)
        invariant logged == log0 + BitsOf(sb, Before(own0, i, s))
      {
        TruncSlot(i, s, v0, in0, own0, log0);
        s := s + 1;
      }
    }

    method TruncSlot(i: nat, s: nat, ghost v0: seq<Block>, ghost in0: seq<Inode>, ghost own0: Owners,
                     ghost log0: set<nat>)
      requires Valid() && s < NDIRECT && DirectGone(v0, in0, own0, view, inodes, own, sb, i, s)
      requires logged == log0 + BitsOf(sb, Before(own0, i, s))
      modifies this`view, this`inodes, this`own, this`logged
      ensures Valid() && DirectGone(v0, in0, own0, view, inodes, own, sb, i, s + 1)
      ensures logged == log0 + BitsOf(sb, Before(own0, i, s + 1))
    {
      var a := inodes[i].addrs[s];
      TruncatedSlot(view, inodes, own0, own, sb, i, s);
      if a != 0 {
        BitsOnlyStep(v0, view, sb, a);
        BitsFreed(log0, sb, Before(own0, i, s), a, Before(own0, i, s + 1));
        Bfree(a);
        inodes := SetSlot(inodes, i, s, 0);
        own := own - {a};
      }
    }

    // itrunc's loop over the indirect block
    method TruncEntries(i: nat)
      requires Valid() && i < |inodes| && inodes[i].addrs[NDIRECT] != 0
      modifies this`view, this`logged
      ensures Truncating(view, inodes, own, sb, i, NINDIRECT) && BitsOnly(old(view), view, sb)
      ensures Tracked(base, view, logged, sb) && logged == old(logged) + BitsOf(sb, Entries(own, i, NINDIRECT))
    {
      var ind := inodes[i].addrs[NDIRECT];
      assert SlotOk(view, inodes, own, i, NDIRECT);
      assert OwnerOk(view, inodes, own, sb, ind);
      TruncatingStart(view, inodes, own, sb, i);
      ghost var v0, log0 := view, logged;
      var j := 0;
      while j < NINDIRECT
        invariant 0 <= j <= NINDIRECT && Truncating(view, inodes, own, sb, i, j) && BitsOnly(v0, view, sb)
        invariant Tracked(base, view, logged, sb) && logged == log0 + BitsOf(sb, Entries(own, i, j))
      {
        TruncEntry(i, j, v0, log0);
        j := j + 1;
      }
    }

    method TruncEntry(i: nat, j: nat, ghost v0: seq<Block>, ghost log0: set<nat>)
      requires Truncating(view, inodes, own, sb, i, j) && j < NINDIRECT && 0 < inodes[i].addrs[NDIRECT] < |view|
      requires BitsOnly(v0, view, sb) && Tracked(base, view, logged, sb)
      requires logged == log0 + BitsOf(sb, Entries(own, i, j))
      modifies this`view, this`logged
      ensures Truncating(view, inodes, own, sb, i, j + 1) && BitsOnly(v0, view, sb) && Tracked(base, view, logged, sb)
      ensures logged == log0 + BitsOf(sb, Entries(own, i, j + 1))
    {
      TruncateEntry(view, inodes, own, sb, i, j);
      var a := Word(view[inodes[i].addrs[NDIRECT]], j);
      if a != 0 {
        BitsOnlyStep(v0, view, sb, a);
        BitsFreed(log0, sb, Entries(own, i, j), a, Entries(own, i, j + 1));
        Bfree(a);
      }
    }

    // itrunc: frees exactly the blocks of inode i, none of them twice, and logs exactly their
    // bitmap blocks and the inode's own block
    method Itrunc(i: nat)
      requires Valid() && i < |inodes|
      modifies this`view, this`inodes, this`own, this`logged
      ensures Valid() && own == old(own) - Before(old(own), i, NSLOTS)
      ensures inodes == old(inodes)[i := old(inodes)[i].(size := 0, addrs := NoAddrs())]
      ensures OnDisk(view, sb, i) == inodes[i] && OthersSame(old(view), old(inodes), view, inodes, i)
      ensures SyncKept(old(view), old(inodes), view, inodes, sb, i)
      ensures logged == old(logged) + BitsOf(sb, Before(old(own), i, NSLOTS)) + {sb.IBlock(i)}
      ensures |view| == |old(view)|
      ensures forall b | 0 <= b < |view| && b !in BitmapBlocks(sb) && b != sb.IBlock(i) :: view[b] == old(view)[b]
    {
      ghost var log0 := logged;
      TruncDirect(i);
      TruncIndirect(i, old(view), old(inodes), old(own), log0);
      OthersStayTruncated(old(view), old(inodes), old(own), view, inodes, own, sb, i);
      ghost var v1, in1 := view, inodes;
      SetSize(i, 0);
      OthersStayUpdated(old(view), old(inodes), v1, in1, own, sb, i, view, inodes);
      TruncatedSync(old(view), old(inodes), v1, view, inodes, sb, i);
      EmptiedInode(old(inodes), in1, i);
    }

    // itrunc's second part, if there is an indirect block
    method TruncIndirect(i: nat, ghost v0: seq<Block>, ghost in0: seq<Inode>, ghost own0: Owners, ghost log0: set<nat>)
      requires Valid() && DirectGone(v0, in0, own0, view, inodes, own, sb, i, NDIRECT)
      requires logged == log0 + BitsOf(sb, Before(own0, i, NDIRECT))
      modifies this`view, this`inodes, this`own, this`logged
      ensures Valid() && own == own0 - Before(own0, i, NSLOTS) && |inodes| == |in0| && OnlyAddrs(in0, inodes, i)
      ensures BitsOnly(v0, view, sb) && forall s | 0 <= s <= NDIRECT :: inodes[i].addrs[s] == 0
      ensures logged == log0 + BitsOf(sb, Before(own0, i, NSLOTS))
    {
      if inodes[i].addrs[NDIRECT] != 0 {
        var ind := inodes[i].addrs[NDIRECT];
        TruncEntries(i);
        TruncatedAll(view, inodes, own0, own, sb, i);
        BitsOnlyStep(v0, view, sb, ind);
        BitsAll(log0, logged, sb, own0, own, i, ind);
        Bfree(ind);
        inodes := SetSlot(inodes, i, NDIRECT, 0);
        own := own0 - Before(own0, i, NSLOTS);
      } else {
        TruncatedNone(view, inodes, own0, own, sb, i);
      }
    }

    // What iput does with the last reference to an inode without links, and otherwise nothing:
    // itrunc, ip->type = 0, iupdate
    method Iput(i: nat, last: bool) returns (freed: bool)
      requires Valid() && i < |inodes|
      modifies this`view, this`inodes, this`own, this`logged
      ensures Valid() && freed == (last && old(inodes)[i].nlink == 0)
      ensures !freed ==> view == old(view) && inodes == old(inodes) && own == old(own) && logged == old(logged)
      ensures freed ==> own == old(own) - Before(old(own), i, NSLOTS)
      ensures freed ==> inodes == old(inodes)[i := old(inodes)[i].(kind := 0, size := 0, addrs := NoAddrs())]
      ensures OnDisk(old(view), sb, i) == old(inodes)[i] ==>
        (freed <==> last && DinodeByte(old(view), sb, i, 6) == 0 && DinodeByte(old(view), sb, i, 7) == 0)
      ensures OnDisk(old(view), sb, i) == old(inodes)[i] && freed ==> forall k | 0 <= k < 64 ::
        DinodeByte(view, sb, i, k) == if 2 <= k < 8 then DinodeByte(old(view), sb, i, k) else 0
      ensures freed ==> OthersSame(old(view), old(inodes), view, inodes, i)
      ensures freed ==> SyncKept(old(view), old(inodes), view, inodes, sb, i)
      ensures freed ==> logged == old(logged) + BitsOf(sb, Before(old(own), i, NSLOTS)) + {sb.IBlock(i)}
    {
      freed := last && inodes[i].nlink == 0;
      if freed {
        Itrunc(i);
        ghost var v1, in1 := view, inodes;
        Save(i, inodes[i].(kind := 0));
        OthersStayUpdated(old(view), old(inodes), v1, in1, own, sb, i, view, inodes);
      }
      FreedBytes(old(view), view, sb, i);
    }

    // A transaction with an iput, as fileclose and exit make it. Its share of the log is
    // enough exactly if the file's blocks have their bits in fewer than MAXOPBLOCKS blocks.
    method PutOp(i: nat, last: bool) returns (freed: bool)
      requires Valid() && i < |inodes|
      modifies this`view, this`inodes, this`own, this`base, this`logged, this`ops
      ensures Valid() && freed == (last && old(inodes)[i].nlink == 0)
      ensures ops == old(ops) + [Op(logged, State(view, inodes, own))]
      ensures Operation(State(old(view), old(inodes), old(own)), Op(logged, State(view, inodes, own)), sb)
      ensures !freed ==> view == old(view) && inodes == old(inodes) && own == old(own) && logged == {}
      ensures freed ==> own == old(own) - Before(old(own), i, NSLOTS)
      ensures freed ==> logged == BitsOf(sb, Before(old(own), i, NSLOTS)) + {sb.IBlock(i)}
      ensures freed ==> (|logged| <= MAXOPBLOCKS <==> |BitsOf(sb, Before(old(own), i, NSLOTS))| < MAXOPBLOCKS)
      ensures |logged| <= sb.size / BPB + 2
      ensures old(Recorded()) ==> Recorded()
    {
      ghost var s0, ops0 := State(view, inodes, own), ops;
      BeginOp();
      freed := Iput(i, last);
      ghost var op := Op(logged, State(view, inodes, own));
      PutKeeps(s0, op, sb, i, freed);
      EndOp();
      if OpRun(start, ops0, sb) && s0 == Preceding(start, ops0, |ops0|) {
        OneMoreOp(start, ops0, op, sb);
      }
    }

    // ip->size = size; iupdate(ip)
    method SetSize(i: nat, size: Uint)
      requires Valid() && i < |inodes|
      modifies this`view, this`inodes, this`logged
      ensures Valid() && inodes == SizeSet(old(inodes), i, size) && Saved(old(view), view, sb, i, inodes[i])
      ensures logged == old(logged) + {sb.IBlock(i)}
    {
      Save(i, SizeSet(inodes, i, size)[i]);
    }

    // A change of the inode in memory and iupdate
    method Save(i: nat, ip: Inode)
      requires Valid() && i < |inodes| && ip.addrs == inodes[i].addrs
      modifies this`view, this`inodes, this`logged
      ensures Valid() && inodes == old(inodes)[i := ip] && Saved(old(view), view, sb, i, ip)
      ensures logged == old(logged) + {sb.IBlock(i)}
    {
      Resized(view, inodes, own, sb, i, ip);
      inodes := inodes[i := ip];
      IBlockInRange(sb, i);
      DataWrite(view, inodes, own, sb, sb.IBlock(i), Updated(view, sb, i, ip)[sb.IBlock(i)]);
      SavedByUpdate(view, sb, i, ip);
      Iupdate(i);
    }

    // One turn of readi's loop: nothing is allocated for a block that is there.
    method ReadBlock(i: nat, off: nat, m: nat, ghost c: seq<Byte>) returns (bytes: seq<Byte>)
      requires Valid() && i < |inodes| && Begins(view, inodes[i], c)
      requires m > 0 && off + m <= |c| && off % BSIZE + m <= BSIZE
      modifies this`view, this`inodes, this`own, this`logged
      ensures view == old(view) && inodes == old(inodes) && own == old(own) && logged == old(logged)
      ensures bytes == c[off..off + m]
    {
      BlockBytes(view, inodes[i], c, off, m);
      var ok, a := Bmap(i, off / BSIZE);
      bytes := view[a][off % BSIZE..off % BSIZE + m];
    }

    // readi: the requested slice of the contents, or -1; nothing changes.
    method Readi(i: nat, off0: Uint, n0: Uint) returns (r: int, dst: seq<Byte>)
      requires Valid() && i < |inodes| && Mapped(view, inodes[i], inodes[i].size)
      modifies this`view, this`inodes, this`own, this`logged
      ensures view == old(view) && inodes == old(inodes) && own == old(own) && logged == old(logged)
      ensures off0 > inodes[i].size || off0 + n0 >= U32 ==> r == -1
      ensures off0 <= inodes[i].size && off0 + n0 < U32 ==>
        r == (if off0 + n0 > inodes[i].size then inodes[i].size - off0 else n0) &&
          dst == Contents(view, inodes[i])[off0..off0 + r]
    {
      dst := [];
      if off0 > inodes[i].size || (off0 + n0) % U32 < off0 {
        return -1, dst;
      }
      var n: nat := if off0 + n0 > inodes[i].size then inodes[i].size - off0 else n0;
      var off, tot := off0, 0;
      ghost var c := Contents(view, inodes[i]);
      ContentsBegin(view, inodes[i]);
      while tot < n
        invariant 0 <= tot <= n && off == off0 + tot
        invariant view == old(view) && inodes == old(inodes) && own == old(own) && logged == old(logged)
        invariant dst == c[off0..off]
      {
        var m := if n - tot < BSIZE - off % BSIZE then n - tot else BSIZE - off % BSIZE;
        var bytes := ReadBlock(i, off, m, c);
        assert c[off0..off + m] == c[off0..off] + c[off..off + m];
        dst := dst + bytes;
        tot, off := tot + m, off + m;
      }
      return n, dst;
    }

    // writei has written tot bytes of src and logged data blocks and what they took.
    ghost predicate WrittenTo(v0: seq<Block>, in0: seq<Inode>, own0: Owners, c: seq<Byte>, i: nat, off0: nat,
                              src: seq<Byte>, tot: nat, log0: set<nat>, data: set<nat>)
      reads this
    {
      && Writing(v0, in0, own0, view, inodes, own, sb, c, i, off0, src, tot)
      && Logging(base, view, log0, logged, own0, own, sb, inodes[i], data, off0, tot)
    }

    // One turn of writei's loop, and its step to tot1 and off1
    method WriteBlock(i: nat, ghost off0: nat, src: seq<Byte>, tot: nat, off: nat,
                      ghost v0: seq<Block>, ghost in0: seq<Inode>, ghost own0: Owners, ghost c: seq<Byte>,
                      ghost log0: set<nat>, ghost data: set<nat>)
      returns (ok: bool, tot1: nat, off1: nat, ghost data1: set<nat>)
      requires WrittenTo(v0, in0, own0, c, i, off0, src, tot, log0, data) && tot < |src|
      requires off == off0 + tot < MAXBYTES && (tot == 0 || off % BSIZE == 0)
      modifies this`view, this`inodes, this`own, this`logged
      ensures ok ==> tot < tot1 <= |src| && off1 == off0 + tot1 && (tot1 == |src| || off1 % BSIZE == 0)
      ensures ok ==> WrittenTo(v0, in0, own0, c, i, off0, src, tot1, log0, data1)
      ensures off < in0[i].size ==> ok
      ensures !ok ==> sb.Valid(|view|) && forall b | 0 <= b < sb.size :: Used(view, sb, b)
    {
      BlockThere(v0, in0, own0, view, inodes, own, sb, c, i, off0, src, tot, off);
      ghost var v1, in1, own1, log1 := view, inodes, own, logged;
      var a;
      ok, a := Bmap(i, off / BSIZE);
      var m := if |src| - tot < BSIZE - off % BSIZE then |src| - tot else BSIZE - off % BSIZE;
      tot1, off1, data1 := tot + m, off + m, data + {a};
      TurnBytes(off0, off, tot, |src|, m, tot1, off1);
      if ok {
        LoggedTurn(v0, in0, own0, v1, in1, own1, view, inodes, own, sb, c, i, off0, src, tot, tot1, a, log0, log1,
          logged, data);
        PatchBlock(i, off0, src, tot, off, tot1, a, v0, in0, own0, v1, in1, own1, c);
      }
    }

    // memmove into the block a that bmap found, and log_write; v1, in1 and own1 are from before bmap
    method PatchBlock(ghost i: nat, ghost off0: nat, src: seq<Byte>, tot: nat, off: nat, tot1: nat, a: Uint,
                      ghost v0: seq<Block>, ghost in0: seq<Inode>, ghost own0: Owners,
                      ghost v1: seq<Block>, ghost in1: seq<Inode>, ghost own1: Owners, ghost c: seq<Byte>)
      requires Valid() && Writing(v0, in0, own0, v1, in1, own1, sb, c, i, off0, src, tot) && tot < tot1 <= |src|
      requires off == off0 + tot < MAXBYTES && off % BSIZE + (tot1 - tot) <= BSIZE && |inodes| == |in1|
      requires Bmapped(v1, in1, own1, view, inodes, own, sb, i, off / BSIZE, a)
      modifies this`view, this`logged
      ensures Writing(v0, in0, own0, view, inodes, own, sb, c, i, off0, src, tot1)
      ensures Tracked(base, view, logged, sb) && logged == old(logged) + {a}
    {
      ghost var w2 := view;
      TurnMapped(v1, in1, own1, view, inodes, own, sb, c, i, off0, src, tot, a);
      LogWrite(a, Patch(view[a], off % BSIZE, src[tot..tot1]));
      TurnWritten(v0, in0, own0, v1, in1, own1, w2, view, inodes, own, sb, c, i, off0, src, tot, off, tot1, a);
    }

    method WriteLoop(i: nat, src: seq<Byte>, off0: nat, ghost c: seq<Byte>) returns (ok: bool, ghost data: set<nat>)
      requires Valid() && i < |inodes| && off0 <= |c| == inodes[i].size && off0 + |src| <= MAXBYTES
      requires Begins(view, inodes[i], c)
      modifies this`view, this`inodes, this`own, this`logged
      ensures ok ==> Writing(old(view), old(inodes), old(own), view, inodes, own, sb, c, i, off0, src, |src|)
      ensures ok ==> Logging(base, view, old(logged), logged, old(own), own, sb, inodes[i], data, off0, |src|)
      ensures off0 + |src| <= old(inodes)[i].size ==> ok
      ensures !ok ==> sb.Valid(|view|) && forall b | 0 <= b < sb.size :: Used(view, sb, b)
    {
      data := {};
      ghost var v0, in0, own0, log0 := view, inodes, own, logged;
      var n, tot, off := |src|, 0, off0;
      WritingStart(view, inodes, own, sb, c, i, off0, src);
      LoggingStart(base, view, logged, own, sb, inodes[i], off0);
      while tot < n
        invariant 0 <= tot <= n && off == off0 + tot && (tot == 0 || tot == n || off % BSIZE == 0)
        invariant WrittenTo(v0, in0, own0, c, i, off0, src, tot, log0, data)
      {
        ok, tot, off, data := WriteBlock(i, off0, src, tot, off, v0, in0, own0, c, log0, data);
        if !ok {
          return;
        }
      }
      ok := true;
    }

    // writei: -1, or the bytes of src are in the file at off0 and nothing else has
    // changed. The result ok is false for "balloc: out of blocks".
    method Writei(i: nat, src: seq<Byte>, off0: Uint) returns (ok: bool, r: int, ghost data: set<nat>)
      requires Valid() && i < |inodes| && Mapped(view, inodes[i], inodes[i].size) && |src| < U32 / 2
      modifies this`view, this`inodes, this`own, this`logged
      ensures off0 > old(inodes)[i].size || off0 + |src| > MAXBYTES ==>
        ok && r == -1 && view == old(view) && inodes == old(inodes) && own == old(own) && logged == old(logged)
      ensures ok && off0 <= old(inodes)[i].size && off0 + |src| <= MAXBYTES ==> r == |src|
      ensures ok && r >= 0 ==> Wrote(old(view), old(inodes), old(own), view, inodes, own, sb, i, off0, src)
      ensures ok ==> Valid() && |inodes| == |old(inodes)|
      ensures ok && r >= 0 ==> Anchored(old(own), data, off0, |src|)
      ensures ok && r >= 0 ==>
        Charged(old(logged) + {sb.IBlock(i)}, logged, old(own), own, sb, inodes[i], data, Span(off0, |src|))
      ensures off0 + |src| <= old(inodes)[i].size ==> ok
      ensures !ok ==> sb.Valid(|view|) && forall b | 0 <= b < sb.size :: Used(view, sb, b)
    {
      data := {};
      if off0 > inodes[i].size || (off0 + |src|) % U32 < off0 {
        return true, -1, data;
      }
      if off0 + |src| > MAXFILE * BSIZE {
        return true, -1, data;
      }
      ghost var c := Contents(view, inodes[i]);
      ContentsBegin(view, inodes[i]);
      ok, data := WriteLoop(i, src, off0, c);
      r := |src|;
      if !ok {
        return;
      }
      EndWrite(i, src, off0, c, old(view), old(inodes), old(own), old(logged), data);
    }

    // The size, once writei's loop has written everything
    method EndWrite(i: nat, src: seq<Byte>, off0: Uint, ghost c: seq<Byte>, ghost v0: seq<Block>,
                    ghost in0: seq<Inode>, ghost own0: Owners, ghost log0: set<nat>, ghost data: set<nat>)
      requires WrittenTo(v0, in0, own0, c, i, off0, src, |src|, log0, data) && Consistent(v0, in0, own0, sb)
      requires Mapped(v0, in0[i], in0[i].size) && c == Contents(v0, in0[i]) && off0 + |src| <= MAXBYTES
      modifies this`view, this`inodes, this`logged
      ensures Valid() && |inodes| == |in0| && Wrote(v0, in0, own0, view, inodes, own, sb, i, off0, src)
      ensures Charged(log0 + {sb.IBlock(i)}, logged, own0, own, sb, inodes[i], data, Span(off0, |src|))
    {
      ghost var v1, in1, log1 := view, inodes, logged;
      if |src| > 0 && off0 + |src| > inodes[i].size {
        SetSize(i, off0 + |src|);
      }
      ChargedSaved(log0, log1, logged, own0, own, sb, in1[i], inodes[i], data, Span(off0, |src|), i);
      WroteAll(v0, in0, own0, v1, in1, own, sb, c, i, off0, src, view, inodes);
    }

    // One chunk of filewrite's loop, a transaction of its own: begin_op, writei, end_op
    method WriteChunk(f: File, src: seq<Byte>) returns (ok: bool, r: int)
      requires Valid() && f.inum < |inodes| && Mapped(view, inodes[f.inum], inodes[f.inum].size) && 0 < |src| <= CHUNK
      modifies this`view, this`inodes, this`own, this`base, this`logged, this`ops, f
      ensures !ok ==> sb.Valid(|view|) && (forall b | 0 <= b < sb.size :: Used(view, sb, b)) && ops == old(ops)
      ensures ok ==> Valid() && |inodes| == |old(inodes)|
      ensures ok ==> r == if old(f.off) <= old(inodes)[f.inum].size && old(f.off) + |src| <= MAXBYTES then |src| else -1
      ensures ok && r < 0 ==> view == old(view) && inodes == old(inodes) && own == old(own) && f.off == old(f.off)
      ensures ok && r < 0 ==> ops == old(ops) + [Op({}, State(view, inodes, own))]
      ensures ok && r > 0 ==> f.off == old(f.off) + r && ops == old(ops) + [Op(logged, State(view, inodes, own))]
      ensures ok && r > 0 ==> Wrote(old(view), old(inodes), old(own), view, inodes, own, sb, f.inum, old(f.off), src)
      ensures ok && r > 0 ==>
        Transaction(State(old(view), old(inodes), old(own)), Op(logged, State(view, inodes, own)), sb)
    {
      BeginOp();
      ghost var data;
      ok, r, data := Writei(f.inum, src, f.off);
      if ok {
        if r > 0 {
          SyncedAfter(old(view), old(inodes), view, inodes, sb, f.inum);
          OpSize(logged, old(own), own, sb, inodes[f.inum], f.inum, data, f.off, |src|);
          f.off := f.off + r;
        }
        EndOp();
      }
    }

    // The chunk at byte i of addr, seen from the start s0 of filewrite
    method NextChunk(f: File, addr: seq<Byte>, i: nat, n1: nat, ghost off0: Uint, ghost s0: State, ghost news: seq<Op>)
      returns (ok: bool, r: int, ghost news1: seq<Op>)
      requires Valid() && i == Done(|addr|, |news|) && off0 + i == f.off && 0 < n1 <= CHUNK
      requires i + n1 == Done(|addr|, |news| + 1)
      requires Progress(s0, news, State(view, inodes, own), sb, f.inum, off0, addr)
      modifies this`view, this`inodes, this`own, this`base, this`logged, this`ops, f
      ensures !ok ==> sb.Valid(|view|) && (forall b | 0 <= b < sb.size :: Used(view, sb, b)) && ops == old(ops)
      ensures ok ==> Valid() && Progress(s0, news1, State(view, inodes, own), sb, f.inum, off0, addr)
      ensures ok ==> r == if off0 <= s0.inodes[f.inum].size && off0 + i + n1 <= MAXBYTES then n1 else -1
      ensures ok ==> f.off == off0 + if r < 0 then i else i + n1
      ensures ok && r < 0 ==> news1 == news && ops == old(ops) + [Op({}, State(view, inodes, own))]
      ensures ok && r > 0 ==> |news1| == |news| + 1 && news1[..|news|] == news && ops == old(ops) + news1[|news|..]
    {
      news1 := news;
      ghost var s1 := State(view, inodes, own);
      ProgressSize(s0, news, s1, sb, f.inum, off0, addr);
      ok, r := WriteChunk(f, addr[i..i + n1]);
      if ok && r >= 0 {
        ghost var op := Op(logged, State(view, inodes, own));
        ProgressStep(s0, news, s1, op, sb, f.inum, off0, addr, i, n1);
        news1 := news + [op];
      }
    }

    // filewrite: done bytes of addr have reached the file and f.off has moved past them,
    // a chunk in each of the transactions news, and a last empty one if it gives up. addr is
    // the n bytes to write, none if n is negative.
    method Filewrite(f: File, addr: seq<Byte>, n: int) returns (ok: bool, r: int, ghost done: nat, ghost news: seq<Op>)
      requires Valid() && f.inum < |inodes| && Mapped(view, inodes[f.inum], inodes[f.inum].size) && |addr| < U32 / 2
      requires n == |addr| || (n < 0 && addr == [])
      modifies this`view, this`inodes, this`own, this`base, this`logged, this`ops, f
      ensures !f.writable || n < 0 ==> ok && r == -1 && news == []
      ensures ok && f.writable && n >= 0 ==>
        r == if n == 0 || (old(f.off) <= old(inodes)[f.inum].size && old(f.off) + n <= MAXBYTES) then n else -1
      ensures ok ==> Valid() && f.off == old(f.off) + done && (r >= 0 ==> done == |addr|)
      ensures ok ==> WroteSome(old(view), old(inodes), old(own), view, inodes, own, sb, f.inum, old(f.off), addr, done)
      ensures ok && f.writable && r < 0 && done > 0 ==> old(f.off) + done + CHUNK > MAXBYTES
      ensures !ok ==> sb.Valid(|view|) && forall b | 0 <= b < sb.size :: Used(view, sb, b)
      ensures done == Done(|addr|, |news|)
      ensures ops == old(ops) + news +
        if ok && f.writable && n >= 0 && r < 0 then [Op({}, State(view, inodes, own))] else []
      ensures FileOps(State(old(view), old(inodes), old(own)), news, sb, f.inum, old(f.off), addr)
      ensures old(Recorded()) ==> OpRun(start, ops, sb) && (ok ==> Recorded())
    {
      ghost var s0, off0, ops0 := State(view, inodes, own), f.off, ops;
      ProgressSome(s0, [], s0, sb, f.inum, off0, addr);
      if !f.writable {
        return true, -1, 0, [];
      }
      ok, r, news := WriteChunks(f, addr, n, s0);
      done := Done(|addr|, |news|);
      if ok {
        ProgressSome(s0, news, State(view, inodes, own), sb, f.inum, off0, addr);
      }
      if OpRun(start, ops0, sb) && s0 == Preceding(start, ops0, |ops0|) {
        FilewriteOps(start, ops0, news, ok && n >= 0 && r < 0, State(view, inodes, own), ops, sb, f.inum, off0, addr);
      }
    }

    // filewrite's loop
    method WriteChunks(f: File, addr: seq<Byte>, n: int, ghost s0: State)
      returns (ok: bool, r: int, ghost news: seq<Op>)
      requires Valid() && |addr| < U32 / 2 && s0 == State(view, inodes, own)
      requires n == |addr| || (n < 0 && addr == [])
      requires Progress(s0, [], s0, sb, f.inum, f.off, addr)
      modifies this`view, this`inodes, this`own, this`base, this`logged, this`ops, f
      ensures !ok ==> sb.Valid(|view|) && forall b | 0 <= b < sb.size :: Used(view, sb, b)
      ensures ok ==> Valid() && Progress(s0, news, State(view, inodes, own), sb, f.inum, old(f.off), addr)
      ensures ok ==> f.off == old(f.off) + Done(|addr|, |news|) && (r >= 0 ==> Done(|addr|, |news|) == |addr|)
      ensures ok ==>
        r == if n == 0 || (n > 0 && old(f.off) <= s0.inodes[f.inum].size && old(f.off) + n <= MAXBYTES) then n else -1
      ensures n < 0 ==> ok && news == []
      ensures ok && r < 0 && news != [] ==> old(f.off) + Done(|addr|, |news|) + CHUNK > MAXBYTES
      ensures ops == old(ops) + news + if ok && n >= 0 && r < 0 then [Op({}, State(view, inodes, own))] else []
      ensures FileOps(s0, news, sb, f.inum, old(f.off), addr)
    {
      news, ok, r := [], true, -1;
      ghost var off0, ops0 := f.off, ops;
      var i := 0;
      while i < n
        invariant 0 <= i == Done(|addr|, |news|) && Valid() && f.off == off0 + i && ops == ops0 + news
        invariant Progress(s0, news, State(view, inodes, own), sb, f.inum, off0, addr) && (n < 0 ==> ok && news == [])
      {
        var n1 := n - i;
        if n1 > CHUNK {
          n1 := CHUNK;
        }
        ghost var news1;
        ok, r, news1 := NextChunk(f, addr, i, n1, off0, s0, news);
        if !ok {
          return;
        }
        if r < 0 {
          break;
        }
        assert news1 == news + news1[|news|..];
        i, news := i + r, news1;
      }
      r := if i == n then n else -1;
    }
  }

  // struct file of an inode
  class File {
    const inum: nat
    const writable: bool
    var off: Uint

    constructor (inum: nat, writable: bool)
      ensures this.inum == inum && this.writable == writable && off == 0
    {
      this.inum := inum;
      this.writable := writable;
      off := 0;
    }
  }
}
