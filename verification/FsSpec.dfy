// fs.c's view of the disk: superblock, bitmap, inodes with direct and indirect
// addresses, and who owns which block.
module FsSpec {
  import opened Bytes
  import opened Util

  const NDIRECT: nat := 12
  const NINDIRECT: nat := 128          // BSIZE / sizeof(uint)
  const MAXFILE: nat := 140            // NDIRECT + NINDIRECT
  const NSLOTS: nat := 141             // direct, the indirect block, its entries
  const IPB: nat := 8                  // inodes per block
  const DWORDS: nat := 16              // words of an on-disk inode

  // The superblock fields fs.c reads. dataStart is the first block that mkfs
  // leaves to files; everything below it is marked in use for good.
  datatype Super = Super(size: nat, ninodes: nat, inodeStart: nat, bmapStart: nat, dataStart: nat) {
    predicate Valid(n: nat) {
      && 2 <= inodeStart && inodeStart + ninodes / IPB + 1 <= bmapStart
      && bmapStart + size / BPB + 1 <= dataStart <= size <= n && size < U32 / 2
    }

    function BBlock(b: nat): (r: nat) {
      b / BPB + bmapStart
    }

    function IBlock(inum: nat): (r: nat) {
      inum / IPB + inodeStart
    }
  }

  // The 16 bits of a C short
  type Short = x: int | 0 <= x < 0x1_0000

  datatype Inode = Inode(kind: Short, major: Short, minor: Short, nlink: Short, size: Uint, addrs: seq<Uint>)

  // No addresses
  function NoAddrs(): (r: seq<Uint>)
    ensures |r| == NDIRECT + 1 && forall s | 0 <= s <= NDIRECT :: r[s] == 0
  {
    seq(NDIRECT + 1, _ => 0)
  }

  const NOINODE: Inode := Inode(0, 0, 0, 0, 0, NoAddrs())

  ghost predicate Sized(inodes: seq<Inode>) {
    forall i | 0 <= i < |inodes| :: |inodes[i].addrs| == NDIRECT + 1
  }

  // ---- bits -----------------------------------------------------------------------

  predicate Used(view: seq<Block>, sb: Super, b: nat)
    requires sb.Valid(|view|) && b < sb.size
  {
    Bit(view[sb.BBlock(b)], b % BPB)
  }

  // Which bit of the disk says that block b is in use
  lemma UsedPlace(view: seq<Block>, sb: Super, b: nat)
    requires sb.Valid(|view|) && b < sb.size
    ensures sb.bmapStart + b / 4096 < |view|
    ensures var i := b % 4096;
      Used(view, sb, b) <==> view[sb.bmapStart + b / 4096][i / 8] / Pow2(i % 8) % 2 == 1
  {
    assert b / BPB <= sb.size / BPB && b / BPB + sb.bmapStart == sb.BBlock(b);
    BitPlace(view[sb.BBlock(b)], b % BPB);
  }

  function PutUsed(view: seq<Block>, sb: Super, b: nat, on: bool): (r: seq<Block>)
    requires sb.Valid(|view|) && b < sb.size
    ensures |r| == |view|
  {
    view[sb.BBlock(b) := PutBit(view[sb.BBlock(b)], b % BPB, on)]
  }

  lemma UsedAfterPut(view: seq<Block>, sb: Super, b: nat, on: bool, c: nat)
    requires sb.Valid(|view|) && b < sb.size && c < sb.size
    ensures Used(PutUsed(view, sb, b, on), sb, c) == if c == b then on else Used(view, sb, c)
  {
    if sb.BBlock(b) == sb.BBlock(c) {
      BitOfPut(view[sb.BBlock(b)], b % BPB, on, c % BPB);
      assert b == b / BPB * BPB + b % BPB && c == c / BPB * BPB + c % BPB;
    }
  }

  // ---- slots: the places an inode keeps block addresses ------------------------------

  // Slots 0 to 11 are direct, 12 is the indirect block, 13 + j its entry j.
  function SlotAddr(view: seq<Block>, ip: Inode, s: nat): (a: Uint)
    requires |ip.addrs| == NDIRECT + 1 && s < NSLOTS
  {
    if s <= NDIRECT then ip.addrs[s]
    else if ip.addrs[NDIRECT] == 0 || ip.addrs[NDIRECT] >= |view| then 0
    else Word(view[ip.addrs[NDIRECT]], s - NDIRECT - 1)
  }

  // The slot of file block bn
  function DataSlot(bn: nat): (s: nat)
    requires bn < MAXFILE
    ensures s < NSLOTS && s != NDIRECT
  {
    if bn < NDIRECT then bn else bn + 1
  }

  type Owners = map<nat, (nat, nat)>

  // Every address in a slot is owned by that slot, so no block is in two slots.
  ghost predicate SlotOk(view: seq<Block>, inodes: seq<Inode>, own: Owners, i: nat, s: nat)
    requires Sized(inodes) && i < |inodes| && s < NSLOTS
  {
    var a := SlotAddr(view, inodes[i], s);
    a != 0 ==> a in own && own[a] == (i, s)
  }

  ghost predicate SlotsOk(view: seq<Block>, inodes: seq<Inode>, own: Owners)
    requires Sized(inodes)
  {
    forall i, s | 0 <= i < |inodes| && 0 <= s < NSLOTS :: SlotOk(view, inodes, own, i, s)
  }

  // An owned block is a data block and is in the slot that owns it.
  ghost predicate OwnerOk(view: seq<Block>, inodes: seq<Inode>, own: Owners, sb: Super, a: nat)
    requires Sized(inodes) && a in own
  {
    && sb.dataStart <= a < sb.size && own[a].0 < |inodes| && own[a].1 < NSLOTS
    && SlotAddr(view, inodes[own[a].0], own[a].1) == a
  }

  ghost predicate OwnersOk(view: seq<Block>, inodes: seq<Inode>, own: Owners, sb: Super)
    requires Sized(inodes)
  {
    forall a :: a in own ==> OwnerOk(view, inodes, own, sb, a)
  }

  // The bitmap marks the metadata and the owned blocks, and nothing else.
  ghost predicate BitOk(view: seq<Block>, own: Owners, sb: Super, b: nat)
    requires sb.Valid(|view|) && b < sb.size
  {
    Used(view, sb, b) <==> b < sb.dataStart || b in own
  }

  ghost predicate BitmapOk(view: seq<Block>, own: Owners, sb: Super)
    requires sb.Valid(|view|)
  {
    forall b | 0 <= b < sb.size :: BitOk(view, own, sb, b)
  }

  ghost predicate Consistent(view: seq<Block>, inodes: seq<Inode>, own: Owners, sb: Super)
  {
    && sb.Valid(|view|) && Sized(inodes) && |inodes| <= sb.ninodes
    && SlotsOk(view, inodes, own) && OwnersOk(view, inodes, own, sb) && BitmapOk(view, own, sb)
  }

  // ---- steps that keep it -------------------------------------------------------------

  // A block that is no indirect block can change without moving a slot.
  lemma SlotFrame(view: seq<Block>, b: nat, x: Block, ip: Inode, s: nat)
    requires |ip.addrs| == NDIRECT + 1 && s < NSLOTS && b < |view| && ip.addrs[NDIRECT] != b
    ensures SlotAddr(view[b := x], ip, s) == SlotAddr(view, ip, s)
  {
  }

  ghost predicate NotIndirect(inodes: seq<Inode>, b: nat)
    requires Sized(inodes)
  {
    forall i | 0 <= i < |inodes| :: inodes[i].addrs[NDIRECT] != b
  }

  // Blocks below dataStart and blocks owned by another kind of slot are no indirect blocks.
  lemma NotIndirectBlock(view: seq<Block>, inodes: seq<Inode>, own: Owners, sb: Super, b: nat)
    requires Consistent(view, inodes, own, sb) && b != 0 && (b in own ==> own[b].1 != NDIRECT)
    ensures NotIndirect(inodes, b)
  {
    forall i | 0 <= i < |inodes| ensures inodes[i].addrs[NDIRECT] != b {
      assert SlotOk(view, inodes, own, i, NDIRECT);
    }
  }

  lemma SlotsFrame(view: seq<Block>, inodes: seq<Inode>, own: Owners, sb: Super, b: nat, x: Block)
    requires Sized(inodes) && b < |view| && NotIndirect(inodes, b)
    ensures SlotsOk(view, inodes, own) ==> SlotsOk(view[b := x], inodes, own)
    ensures OwnersOk(view, inodes, own, sb) ==> OwnersOk(view[b := x], inodes, own, sb)
  {
    var v := view[b := x];
    if SlotsOk(view, inodes, own) {
      forall i, s | 0 <= i < |inodes| && 0 <= s < NSLOTS ensures SlotOk(v, inodes, own, i, s) {
        SlotFrame(view, b, x, inodes[i], s);
        assert SlotOk(view, inodes, own, i, s);
      }
    }
    if OwnersOk(view, inodes, own, sb) {
      forall a | a in own ensures OwnerOk(v, inodes, own, sb, a) {
        assert OwnerOk(view, inodes, own, sb, a);
        SlotFrame(view, b, x, inodes[own[a].0], own[a].1);
      }
    }
  }

  // Writing file data or an on-disk inode
  lemma DataWrite(view: seq<Block>, inodes: seq<Inode>, own: Owners, sb: Super, b: nat, x: Block)
    requires Consistent(view, inodes, own, sb) && b < |view|
    requires 0 < b < sb.bmapStart || (b in own && own[b].1 != NDIRECT)
    ensures Consistent(view[b := x], inodes, own, sb)
  {
    assert b in own ==> OwnerOk(view, inodes, own, sb, b);
    NotIndirectBlock(view, inodes, own, sb, b);
    SlotsFrame(view, inodes, own, sb, b, x);
    var v := view[b := x];
    forall c | 0 <= c < sb.size ensures BitOk(v, own, sb, c) {
      assert BitOk(view, own, sb, c);
    }
  }

  // ---- allocation --------------------------------------------------------------------

  // ip->addrs[s] = a
  function SetSlot(inodes: seq<Inode>, i: nat, s: nat, a: Uint): (r: seq<Inode>)
    requires i < |inodes| && s < |inodes[i].addrs|
    ensures |r| == |inodes|
  {
    inodes[i := inodes[i].(addrs := inodes[i].addrs[s := a])]
  }

  // What balloc does to the disk when it returns a
  function Allocated(view: seq<Block>, sb: Super, a: nat): (r: seq<Block>)
    requires sb.Valid(|view|) && a < sb.size
    ensures |r| == |view|
  {
    PutUsed(view, sb, a, true)[a := ZeroBlock()]
  }

  lemma FreeBlock(view: seq<Block>, inodes: seq<Inode>, own: Owners, sb: Super, a: nat)
    requires Consistent(view, inodes, own, sb) && a < sb.size && !Used(view, sb, a)
    ensures sb.dataStart <= a && a !in own && 0 < sb.BBlock(a) < sb.dataStart
    ensures NotIndirect(inodes, a) && NotIndirect(inodes, sb.BBlock(a))
  {
    assert BitOk(view, own, sb, a);
    assert a / BPB <= sb.size / BPB;
    NotIndirectBlock(view, inodes, own, sb, a);
    assert sb.BBlock(a) in own ==> OwnerOk(view, inodes, own, sb, sb.BBlock(a));
    NotIndirectBlock(view, inodes, own, sb, sb.BBlock(a));
  }

  // balloc on the disk: the block is in use, its bytes are 0, and nothing else has changed.
  lemma AllocatedIs(view: seq<Block>, inodes: seq<Inode>, own: Owners, sb: Super, a: nat)
    requires Consistent(view, inodes, own, sb) && a < sb.size && !Used(view, sb, a)
    ensures var v := Allocated(view, sb, a);
      && (forall c | 0 <= c < sb.size :: Used(v, sb, c) <==> Used(view, sb, c) || c == a)
      && (forall k | 0 <= k < 512 :: v[a][k] == 0)
      && (forall b | 0 <= b < |view| && b != a && b != sb.bmapStart + a / 4096 :: v[b] == view[b])
  {
    var v := Allocated(view, sb, a);
    FreeBlock(view, inodes, own, sb, a);
    forall c | 0 <= c < sb.size ensures Used(v, sb, c) <==> Used(view, sb, c) || c == a {
      UsedAfterPut(view, sb, a, true, c);
      assert c / BPB <= sb.size / BPB;
      assert v[sb.BBlock(c)] == PutUsed(view, sb, a, true)[sb.BBlock(c)];
    }
  }

  // bfree on the disk
  lemma FreedIs(view: seq<Block>, sb: Super, a: nat)
    requires sb.Valid(|view|) && a < sb.size
    ensures var v := PutUsed(view, sb, a, false);
      && (forall c | 0 <= c < sb.size :: Used(v, sb, c) <==> Used(view, sb, c) && c != a)
      && (forall b | 0 <= b < |view| && b != sb.bmapStart + a / 4096 :: v[b] == view[b])
  {
    forall c | 0 <= c < sb.size ensures Used(PutUsed(view, sb, a, false), sb, c) <==> Used(view, sb, c) && c != a {
      UsedAfterPut(view, sb, a, false, c);
    }
  }

  lemma AllocatedBits(view: seq<Block>, own: Owners, sb: Super, a: nat, at: (nat, nat))
    requires sb.Valid(|view|) && BitmapOk(view, own, sb) && sb.dataStart <= a < sb.size
    ensures BitmapOk(Allocated(view, sb, a), own[a := at], sb)
  {
    var v, o := Allocated(view, sb, a), own[a := at];
    forall c | 0 <= c < sb.size ensures BitOk(v, o, sb, c) {
      assert BitOk(view, own, sb, c);
      UsedAfterPut(view, sb, a, true, c);
      assert c / BPB <= sb.size / BPB;
      assert v[sb.BBlock(c)] == PutUsed(view, sb, a, true)[sb.BBlock(c)];
    }
  }

  lemma AllocatedSlots(view: seq<Block>, inodes: seq<Inode>, own: Owners, sb: Super, a: nat)
    requires Consistent(view, inodes, own, sb) && a < sb.size && !Used(view, sb, a)
    ensures SlotsOk(Allocated(view, sb, a), inodes, own) && OwnersOk(Allocated(view, sb, a), inodes, own, sb)
  {
    FreeBlock(view, inodes, own, sb, a);
    var v := PutUsed(view, sb, a, true);
    SlotsFrame(view, inodes, own, sb, sb.BBlock(a), v[sb.BBlock(a)]);
    SlotsFrame(v, inodes, own, sb, a, ZeroBlock());
  }

  // Linking a fresh zeroed block into an empty slot of the inode itself
  lemma LinkedSlots(view: seq<Block>, inodes: seq<Inode>, own: Owners, sb: Super, i: nat, s: nat, a: Uint)
    requires Sized(inodes) && SlotsOk(view, inodes, own) && OwnersOk(view, inodes, own, sb)
    requires i < |inodes| && s <= NDIRECT && inodes[i].addrs[s] == 0
    requires 0 < sb.dataStart <= a < sb.size <= |view| && a !in own && view[a] == ZeroBlock()
    ensures var in1, own1 := SetSlot(inodes, i, s, a), own[a := (i, s)];
      Sized(in1) && SlotsOk(view, in1, own1) && OwnersOk(view, in1, own1, sb)
  {
    var in1, own1 := SetSlot(inodes, i, s, a), own[a := (i, s)];
    forall j, t | 0 <= j < |in1| && 0 <= t < NSLOTS ensures SlotOk(view, in1, own1, j, t) {
      assert SlotOk(view, inodes, own, j, t);
      if j == i && s == NDIRECT && t > NDIRECT {
        ZeroWords(t - NDIRECT - 1);
      }
    }
    forall b | b in own1 ensures OwnerOk(view, in1, own1, sb, b) {
      if b != a {
        assert OwnerOk(view, inodes, own, sb, b);
      }
    }
  }

  lemma LinkInode(view: seq<Block>, inodes: seq<Inode>, own: Owners, sb: Super, i: nat, s: nat, a: Uint)
    requires Consistent(view, inodes, own, sb) && a < sb.size && !Used(view, sb, a)
    requires i < |inodes| && s <= NDIRECT && inodes[i].addrs[s] == 0
    ensures Consistent(Allocated(view, sb, a), SetSlot(inodes, i, s, a), own[a := (i, s)], sb)
  {
    FreeBlock(view, inodes, own, sb, a);
    AllocatedBits(view, own, sb, a, (i, s));
    AllocatedSlots(view, inodes, own, sb, a);
    LinkedSlots(Allocated(view, sb, a), inodes, own, sb, i, s, a);
  }

  // Linking a fresh block into an empty entry of the inode's indirect block
  lemma LinkedEntry(view: seq<Block>, inodes: seq<Inode>, own: Owners, sb: Super, i: nat, j: nat, a: Uint)
    requires Sized(inodes) && SlotsOk(view, inodes, own) && OwnersOk(view, inodes, own, sb) && sb.size <= |view|
    requires i < |inodes| && j < NINDIRECT && inodes[i].addrs[NDIRECT] != 0
    requires SlotAddr(view, inodes[i], NDIRECT + 1 + j) == 0
    requires 0 < sb.dataStart <= a < sb.size && a !in own
    ensures var ind := inodes[i].addrs[NDIRECT];
      ind in own && ind < |view| &&
      var v, own1 := view[ind := PutWord(view[ind], j, a)], own[a := (i, NDIRECT + 1 + j)];
      SlotsOk(v, inodes, own1) && OwnersOk(v, inodes, own1, sb)
  {
    var ind := inodes[i].addrs[NDIRECT];
    assert SlotOk(view, inodes, own, i, NDIRECT);
    assert OwnerOk(view, inodes, own, sb, ind);
    var v, own1 := view[ind := PutWord(view[ind], j, a)], own[a := (i, NDIRECT + 1 + j)];
    forall k, t | 0 <= k < |inodes| && 0 <= t < NSLOTS ensures SlotOk(v, inodes, own1, k, t) {
      assert SlotOk(view, inodes, own, k, t);
      EntrySlot(view, inodes, own, sb, i, j, a, k, t);
    }
    forall b | b in own1 ensures OwnerOk(v, inodes, own1, sb, b) {
      if b != a {
        assert OwnerOk(view, inodes, own, sb, b);
        EntrySlot(view, inodes, own, sb, i, j, a, own[b].0, own[b].1);
      } else {
        EntrySlot(view, inodes, own, sb, i, j, a, i, NDIRECT + 1 + j);
      }
    }
  }

  lemma EntrySlot(view: seq<Block>, inodes: seq<Inode>, own: Owners, sb: Super, i: nat, j: nat, a: Uint, k: nat, t: nat)
    requires Sized(inodes) && SlotsOk(view, inodes, own)
    requires i < |inodes| && j < NINDIRECT && k < |inodes| && t < NSLOTS && 0 < inodes[i].addrs[NDIRECT] < |view|
    ensures var ind := inodes[i].addrs[NDIRECT];
      SlotAddr(view[ind := PutWord(view[ind], j, a)], inodes[k], t) ==
        if k == i && t == NDIRECT + 1 + j then a else SlotAddr(view, inodes[k], t)
  {
    var ind := inodes[i].addrs[NDIRECT];
    assert SlotOk(view, inodes, own, i, NDIRECT) && SlotOk(view, inodes, own, k, NDIRECT);
    if t > NDIRECT {
      WordOfPut(view[ind], j, a, t - NDIRECT - 1);
    }
  }

  // What bmap does to the disk when it fills entry j of indirect block ind with a
  function Entered(view: seq<Block>, ind: nat, j: nat, a: Uint): (r: seq<Block>)
    requires ind < |view| && j < NINDIRECT
    ensures |r| == |view|
  {
    view[ind := PutWord(view[ind], j, a)]
  }

  lemma LinkEntry(view: seq<Block>, inodes: seq<Inode>, own: Owners, sb: Super, i: nat, j: nat, a: Uint)
    requires Consistent(view, inodes, own, sb) && a < sb.size && !Used(view, sb, a)
    requires i < |inodes| && j < NINDIRECT && inodes[i].addrs[NDIRECT] != 0
    requires SlotAddr(view, inodes[i], NDIRECT + 1 + j) == 0
    ensures var ind := inodes[i].addrs[NDIRECT];
      ind in own && ind < |view| &&
      Consistent(Entered(Allocated(view, sb, a), ind, j, a), inodes, own[a := (i, NDIRECT + 1 + j)], sb)
  {
    var ind, o := inodes[i].addrs[NDIRECT], own[a := (i, NDIRECT + 1 + j)];
    FreeBlock(view, inodes, own, sb, a);
    AllocatedBits(view, own, sb, a, (i, NDIRECT + 1 + j));
    AllocatedSlots(view, inodes, own, sb, a);
    var v := Allocated(view, sb, a);
    AllocatedElsewhere(view, inodes, own, sb, a, i, NDIRECT + 1 + j);
    LinkedEntry(v, inodes, own, sb, i, j, a);
    assert OwnerOk(v, inodes, own, sb, ind);
    var w := Entered(v, ind, j, a);
    forall c | 0 <= c < sb.size ensures BitOk(w, o, sb, c) {
      assert BitOk(v, o, sb, c);
      assert c / BPB <= sb.size / BPB;
    }
  }

  lemma AllocatedElsewhere(view: seq<Block>, inodes: seq<Inode>, own: Owners, sb: Super, a: nat, i: nat, s: nat)
    requires Consistent(view, inodes, own, sb) && a < sb.size && !Used(view, sb, a) && i < |inodes| && s < NSLOTS
    ensures SlotAddr(Allocated(view, sb, a), inodes[i], s) == SlotAddr(view, inodes[i], s)
  {
    FreeBlock(view, inodes, own, sb, a);
    var v := PutUsed(view, sb, a, true);
    SlotFrame(view, sb.BBlock(a), v[sb.BBlock(a)], inodes[i], s);
    SlotFrame(v, a, ZeroBlock(), inodes[i], s);
  }

  // ---- freeing -----------------------------------------------------------------------

  lemma FreedBit(view: seq<Block>, own: Owners, sb: Super, a: nat)
    requires sb.Valid(|view|) && BitmapOk(view, own, sb) && a in own && sb.dataStart <= a < sb.size
    ensures Used(view, sb, a) && BitmapOk(PutUsed(view, sb, a, false), own - {a}, sb)
  {
    assert BitOk(view, own, sb, a);
    var v, o := PutUsed(view, sb, a, false), own - {a};
    forall c | 0 <= c < sb.size ensures BitOk(v, o, sb, c) {
      assert BitOk(view, own, sb, c);
      UsedAfterPut(view, sb, a, false, c);
    }
  }

  // Clearing a bit moves no slot.
  lemma FreedSlots(view: seq<Block>, inodes: seq<Inode>, own: Owners, sb: Super, a: nat)
    requires sb.Valid(|view|) && Sized(inodes) && SlotsOk(view, inodes, own) && OwnersOk(view, inodes, own, sb)
    requires a < sb.size
    ensures var v := PutUsed(view, sb, a, false);
      SlotsOk(v, inodes, own) && OwnersOk(v, inodes, own, sb)
  {
    var b := sb.BBlock(a);
    assert a / BPB <= sb.size / BPB;
    forall i | 0 <= i < |inodes| ensures inodes[i].addrs[NDIRECT] != b {
      assert SlotOk(view, inodes, own, i, NDIRECT);
      assert b in own ==> OwnerOk(view, inodes, own, sb, b);
    }
    SlotsFrame(view, inodes, own, sb, b, PutUsed(view, sb, a, false)[b]);
  }

  // A direct block is freed and its slot cleared.
  lemma UnlinkDirect(view: seq<Block>, inodes: seq<Inode>, own: Owners, sb: Super, i: nat, s: nat)
    requires Consistent(view, inodes, own, sb) && i < |inodes| && s < NDIRECT && inodes[i].addrs[s] != 0
    ensures var a := inodes[i].addrs[s];
      && a in own && own[a] == (i, s) && a < sb.size && Used(view, sb, a)
      && Consistent(PutUsed(view, sb, a, false), SetSlot(inodes, i, s, 0), own - {a}, sb)
  {
    var a := inodes[i].addrs[s];
    assert SlotOk(view, inodes, own, i, s);
    assert OwnerOk(view, inodes, own, sb, a);
    FreedBit(view, own, sb, a);
    FreedSlots(view, inodes, own, sb, a);
    var v, in1, o := PutUsed(view, sb, a, false), SetSlot(inodes, i, s, 0), own - {a};
    forall k, t | 0 <= k < |in1| && 0 <= t < NSLOTS ensures SlotOk(v, in1, o, k, t) {
      assert SlotOk(v, inodes, own, k, t);
    }
    forall b | b in o ensures OwnerOk(v, in1, o, sb, b) {
      assert OwnerOk(v, inodes, own, sb, b);
    }
  }

  // The blocks owned by the first j entries of inode i's indirect block
  function Entries(own: Owners, i: nat, j: nat): (r: set<nat>) {
    set a | a in own && own[a].0 == i && NDIRECT < own[a].1 <= NDIRECT + j
  }

  // While itrunc goes through the entries the slots are all still there, but
  // the bits of the first j are clear.
  ghost predicate Truncating(view: seq<Block>, inodes: seq<Inode>, own: Owners, sb: Super, i: nat, j: nat)
  {
    && sb.Valid(|view|) && Sized(inodes) && |inodes| <= sb.ninodes && i < |inodes|
    && SlotsOk(view, inodes, own) && OwnersOk(view, inodes, own, sb) && BitmapOk(view, own - Entries(own, i, j), sb)
  }

  lemma TruncateEntry(view: seq<Block>, inodes: seq<Inode>, own: Owners, sb: Super, i: nat, j: nat)
    requires Truncating(view, inodes, own, sb, i, j) && j < NINDIRECT
    ensures var a := SlotAddr(view, inodes[i], NDIRECT + 1 + j);
      if a == 0 then Truncating(view, inodes, own, sb, i, j + 1)
      else a < sb.size && Used(view, sb, a) && Truncating(PutUsed(view, sb, a, false), inodes, own, sb, i, j + 1)
    ensures var a := SlotAddr(view, inodes[i], NDIRECT + 1 + j);
      Entries(own, i, j + 1) == Entries(own, i, j) + if a == 0 then {} else {a}
  {
    var s := NDIRECT + 1 + j;
    var a := SlotAddr(view, inodes[i], s);
    assert SlotOk(view, inodes, own, i, s);
    var e, e1 := Entries(own, i, j), Entries(own, i, j + 1);
    if a != 0 {
      assert OwnerOk(view, inodes, own, sb, a);
      FreedBit(view, own - e, sb, a);
      FreedSlots(view, inodes, own, sb, a);
      forall b | b in e1 ensures b in e + {a} {
        assert OwnerOk(view, inodes, own, sb, b);
      }
      assert e1 == e + {a};
      assert own - e - {a} == own - e1;
    } else {
      forall b | b in e1 ensures b in e {
        assert OwnerOk(view, inodes, own, sb, b);
      }
      assert e == e1;
    }
  }

  // At the end the indirect block is freed and its slot cleared.
  lemma UnlinkIndirect(view: seq<Block>, inodes: seq<Inode>, own: Owners, sb: Super, i: nat)
    requires Truncating(view, inodes, own, sb, i, NINDIRECT) && inodes[i].addrs[NDIRECT] != 0
    ensures var a := inodes[i].addrs[NDIRECT];
      && a < sb.size && Used(view, sb, a)
      && Consistent(PutUsed(view, sb, a, false), SetSlot(inodes, i, NDIRECT, 0),
          own - Entries(own, i, NINDIRECT) - {a}, sb)
  {
    var a, e := inodes[i].addrs[NDIRECT], Entries(own, i, NINDIRECT);
    assert SlotOk(view, inodes, own, i, NDIRECT);
    assert OwnerOk(view, inodes, own, sb, a);
    FreedBit(view, own - e, sb, a);
    FreedSlots(view, inodes, own, sb, a);
    var v, in1, o := PutUsed(view, sb, a, false), SetSlot(inodes, i, NDIRECT, 0), own - e - {a};
    forall k, t | 0 <= k < |in1| && 0 <= t < NSLOTS ensures SlotOk(v, in1, o, k, t) {
      assert SlotOk(v, inodes, own, k, t);
    }
    forall b | b in o ensures OwnerOk(v, in1, o, sb, b) {
      assert OwnerOk(v, inodes, own, sb, b);
    }
  }

  // ---- on-disk inodes ------------------------------------------------------------------

  function Image(ip: Inode): (ws: seq<Uint>)
    requires |ip.addrs| == NDIRECT + 1
    ensures |ws| == DWORDS
  {
    [ip.kind + 0x1_0000 * ip.major, ip.minor + 0x1_0000 * ip.nlink, ip.size] + ip.addrs
  }

  // The inode that ilock makes of the words of a dinode
  function FromImage(ws: seq<Uint>): (ip: Inode)
    requires |ws| == DWORDS
    ensures |ip.addrs| == NDIRECT + 1
  {
    Inode(ws[0] % 0x1_0000, ws[0] / 0x1_0000, ws[1] % 0x1_0000, ws[1] / 0x1_0000, ws[2], ws[3..])
  }

  lemma ImageBack(ip: Inode)
    requires |ip.addrs| == NDIRECT + 1
    ensures FromImage(Image(ip)) == ip
  {
    assert Image(ip)[3..] == ip.addrs;
  }

  // What iupdate does to the disk
  function Updated(view: seq<Block>, sb: Super, inum: nat, ip: Inode): (r: seq<Block>)
    requires sb.Valid(|view|) && inum < sb.ninodes && |ip.addrs| == NDIRECT + 1
    ensures |r| == |view|
  {
    IBlockInRange(sb, inum);
    view[sb.IBlock(inum) := PutWords(view[sb.IBlock(inum)], DWORDS * (inum % IPB), Image(ip))]
  }

  lemma IBlockInRange(sb: Super, inum: nat)
    requires inum < sb.ninodes
    ensures sb.inodeStart <= sb.IBlock(inum) <= sb.inodeStart + sb.ninodes / IPB
  {
  }

  function Words(b: Block, w: nat, n: nat): (r: seq<Uint>)
    requires w + n <= WORDS
    ensures |r| == n && forall k | 0 <= k < n :: r[k] == Word(b, w + k)
  {
    if n == 0 then [] else Words(b, w, n - 1) + [Word(b, w + n - 1)]
  }

  // What ilock reads
  function OnDisk(view: seq<Block>, sb: Super, inum: nat): (ip: Inode)
    requires sb.Valid(|view|) && inum < sb.ninodes
    ensures |ip.addrs| == NDIRECT + 1
  {
    IBlockInRange(sb, inum);
    FromImage(Words(view[sb.IBlock(inum)], DWORDS * (inum % IPB), DWORDS))
  }

  lemma WordsOfPuts(b: Block, w: nat, vs: seq<Uint>, x: nat)
    requires w + |vs| <= WORDS && x + |vs| <= WORDS && (x == w || x + |vs| <= w || w + |vs| <= x)
    ensures Words(PutWords(b, w, vs), x, |vs|) == if x == w then vs else Words(b, x, |vs|)
  {
    if x == w {
      WordsPut(b, w, vs);
    } else {
      WordsKept(b, w, vs, x);
    }
  }

  lemma WordsPut(b: Block, w: nat, vs: seq<Uint>)
    requires w + |vs| <= WORDS
    ensures Words(PutWords(b, w, vs), w, |vs|) == vs
  {
    var r := Words(PutWords(b, w, vs), w, |vs|);
    forall k | 0 <= k < |vs| ensures r[k] == vs[k] {
      WordOfPuts(b, w, vs, w + k);
    }
  }

  lemma WordsKept(b: Block, w: nat, vs: seq<Uint>, x: nat)
    requires w + |vs| <= WORDS && x + |vs| <= WORDS && (x + |vs| <= w || w + |vs| <= x)
    ensures Words(PutWords(b, w, vs), x, |vs|) == Words(b, x, |vs|)
  {
    var r, before := Words(PutWords(b, w, vs), x, |vs|), Words(b, x, |vs|);
    forall k | 0 <= k < |vs| ensures r[k] == before[k] {
      WordOfPuts(b, w, vs, x + k);
    }
  }

  // ilock reads back what iupdate wrote, and iupdate touches no other inode.
  lemma OnDiskAfterUpdate(view: seq<Block>, sb: Super, inum: nat, ip: Inode, j: nat)
    requires sb.Valid(|view|) && inum < sb.ninodes && j < sb.ninodes && |ip.addrs| == NDIRECT + 1
    ensures OnDisk(Updated(view, sb, inum, ip), sb, j) == if j == inum then ip else OnDisk(view, sb, j)
  {
    IBlockInRange(sb, inum);
    IBlockInRange(sb, j);
    if sb.IBlock(j) == sb.IBlock(inum) {
      assert j != inum ==> j % IPB != inum % IPB;
      WordsOfPuts(view[sb.IBlock(inum)], DWORDS * (inum % IPB), Image(ip), DWORDS * (j % IPB));
      ImageBack(ip);
    }
  }

  // Byte k of the 64 bytes that keep an inode
  function DinodeByte(view: seq<Block>, sb: Super, inum: nat, k: nat): (x: Byte)
    requires sb.Valid(|view|) && inum < sb.ninodes && k < 64
  {
    IBlockInRange(sb, inum);
    view[sb.inodeStart + inum / 8][64 * (inum % 8) + k]
  }

  // The short and the uint at byte k
  function DinodeShort(view: seq<Block>, sb: Super, inum: nat, k: nat): (x: int)
    requires sb.Valid(|view|) && inum < sb.ninodes && k + 2 <= 64
  {
    DinodeByte(view, sb, inum, k) + 256 * DinodeByte(view, sb, inum, k + 1)
  }

  function DinodeUint(view: seq<Block>, sb: Super, inum: nat, k: nat): (x: int)
    requires sb.Valid(|view|) && inum < sb.ninodes && k + 4 <= 64
  {
    DinodeShort(view, sb, inum, k) + 0x1_0000 * DinodeShort(view, sb, inum, k + 2)
  }

  // struct dinode, field by field
  lemma DinodeLayout(view: seq<Block>, sb: Super, inum: nat)
    requires sb.Valid(|view|) && inum < sb.ninodes
    ensures var ip := OnDisk(view, sb, inum);
      && ip.kind == DinodeShort(view, sb, inum, 0) && ip.major == DinodeShort(view, sb, inum, 2)
      && ip.minor == DinodeShort(view, sb, inum, 4) && ip.nlink == DinodeShort(view, sb, inum, 6)
      && ip.size == DinodeUint(view, sb, inum, 8)
      && forall s | 0 <= s <= NDIRECT :: ip.addrs[s] == DinodeUint(view, sb, inum, 12 + 4 * s)
  {
    IBlockInRange(sb, inum);
    var b, w := view[sb.IBlock(inum)], DWORDS * (inum % IPB);
    HalfWords(b, w);
    HalfWords(b, w + 1);
    forall s | 0 <= s <= NDIRECT
      ensures OnDisk(view, sb, inum).addrs[s] == DinodeUint(view, sb, inum, 12 + 4 * s)
    {
      HalfWords(b, w + 3 + s);
    }
  }

  lemma HalfWords(b: Block, w: nat)
    requires w < WORDS
    ensures var x0: int, x1: int, x2: int, x3: int := b[4*w], b[4*w+1], b[4*w+2], b[4*w+3];
      Word(b, w) % 0x1_0000 == x0 + 256 * x1 && Word(b, w) / 0x1_0000 == x2 + 256 * x3
  {
    var x0: int, x1: int, x2: int, x3: int := b[4*w], b[4*w+1], b[4*w+2], b[4*w+3];
    FourBytes(x0, x1, x2, x3);
  }

  // Four bytes are 0 when their number is.
  lemma ZeroUint(view: seq<Block>, sb: Super, inum: nat, k: nat, j: nat)
    requires sb.Valid(|view|) && inum < sb.ninodes && k <= j < k + 4 <= 64 && DinodeUint(view, sb, inum, k) == 0
    ensures DinodeByte(view, sb, inum, j) == 0
  {
  }

  lemma SameShort(v0: seq<Block>, v1: seq<Block>, sb: Super, inum: nat, k: nat)
    requires sb.Valid(|v0|) && sb.Valid(|v1|) && inum < sb.ninodes && k + 2 <= 64
    requires DinodeShort(v0, sb, inum, k) == DinodeShort(v1, sb, inum, k)
    ensures DinodeByte(v0, sb, inum, k) == DinodeByte(v1, sb, inum, k)
    ensures DinodeByte(v0, sb, inum, k + 1) == DinodeByte(v1, sb, inum, k + 1)
  {
  }

  // A freed inode on disk: bytes 2 to 7 stay, and the others become 0.
  lemma FreedByte(v0: seq<Block>, v1: seq<Block>, sb: Super, inum: nat, k: nat)
    requires sb.Valid(|v0|) && sb.Valid(|v1|) && inum < sb.ninodes && k < 64
    requires OnDisk(v1, sb, inum) == OnDisk(v0, sb, inum).(kind := 0, size := 0, addrs := NoAddrs())
    ensures DinodeByte(v1, sb, inum, k) == if 2 <= k < 8 then DinodeByte(v0, sb, inum, k) else 0
  {
    DinodeLayout(v0, sb, inum);
    DinodeLayout(v1, sb, inum);
    if k < 2 {
      assert DinodeShort(v1, sb, inum, 0) == 0;
    } else if k < 8 {
      SameShort(v0, v1, sb, inum, 2);
      SameShort(v0, v1, sb, inum, 4);
      SameShort(v0, v1, sb, inum, 6);
    } else if k < 12 {
      ZeroUint(v1, sb, inum, 8, k);
    } else {
      var s := (k - 12) / 4;
      assert OnDisk(v1, sb, inum).addrs[s] == 0;
      ZeroUint(v1, sb, inum, 12 + 4 * s, k);
    }
  }

  // iput's test and what it leaves, in the bytes of the inode on disk
  lemma FreedBytes(v0: seq<Block>, v1: seq<Block>, sb: Super, inum: nat)
    requires sb.Valid(|v0|) && sb.Valid(|v1|) && inum < sb.ninodes
    ensures OnDisk(v0, sb, inum).nlink == 0 <==> DinodeByte(v0, sb, inum, 6) == 0 && DinodeByte(v0, sb, inum, 7) == 0
    ensures OnDisk(v1, sb, inum) == OnDisk(v0, sb, inum).(kind := 0, size := 0, addrs := NoAddrs()) ==>
      forall k | 0 <= k < 64 ::
        DinodeByte(v1, sb, inum, k) == if 2 <= k < 8 then DinodeByte(v0, sb, inum, k) else 0
  {
    DinodeLayout(v0, sb, inum);
    if OnDisk(v1, sb, inum) == OnDisk(v0, sb, inum).(kind := 0, size := 0, addrs := NoAddrs()) {
      forall k | 0 <= k < 64
        ensures DinodeByte(v1, sb, inum, k) == if 2 <= k < 8 then DinodeByte(v0, sb, inum, k) else 0
      {
        FreedByte(v0, v1, sb, inum, k);
      }
    }
  }

  // ---- file contents ---------------------------------------------------------------------

  // The block holding block bn of the file
  function FileBlock(view: seq<Block>, ip: Inode, bn: nat): (a: Uint)
    requires |ip.addrs| == NDIRECT + 1 && bn < MAXFILE
  {
    SlotAddr(view, ip, DataSlot(bn))
  }

  ghost predicate MappedAt(view: seq<Block>, ip: Inode, bn: nat)
    requires |ip.addrs| == NDIRECT + 1
  {
    bn < MAXFILE && 0 < FileBlock(view, ip, bn) < |view|
  }

  // The blocks of the first n bytes are all there.
  ghost predicate Mapped(view: seq<Block>, ip: Inode, n: nat)
    requires |ip.addrs| == NDIRECT + 1
  {
    forall bn: nat | bn * BSIZE < n :: MappedAt(view, ip, bn)
  }

  function ByteAt(view: seq<Block>, ip: Inode, k: nat): (x: Byte)
    requires |ip.addrs| == NDIRECT + 1 && MappedAt(view, ip, k / BSIZE)
  {
    view[FileBlock(view, ip, k / BSIZE)][k % BSIZE]
  }

  lemma MappedByte(view: seq<Block>, ip: Inode, n: nat, k: nat)
    requires |ip.addrs| == NDIRECT + 1 && Mapped(view, ip, n) && k < n
    ensures MappedAt(view, ip, k / BSIZE)
  {
    assert k / BSIZE * BSIZE <= k;
  }

  // The file as a byte string
  ghost function Contents(view: seq<Block>, ip: Inode): (c: seq<Byte>)
    requires |ip.addrs| == NDIRECT + 1 && Mapped(view, ip, ip.size)
    ensures |c| == ip.size
  {
    seq(ip.size, k requires 0 <= k < ip.size => MappedByte(view, ip, ip.size, k); ByteAt(view, ip, k))
  }

  // Where the bytes of a file are: the first 12 blocks are named in the inode, the others in the
  // block that addrs[12] names.
  lemma ContentsPlace(view: seq<Block>, ip: Inode, k: nat)
    requires |ip.addrs| == NDIRECT + 1 && Mapped(view, ip, ip.size) && k < ip.size
    ensures k / 512 < 140 && (k / 512 >= 12 ==> 0 < ip.addrs[12] < |view|)
    ensures var a := if k / 512 < 12 then ip.addrs[k / 512] else Word(view[ip.addrs[12]], k / 512 - 12);
      0 < a < |view| && Contents(view, ip)[k] == view[a][k % 512]
  {
    MappedByte(view, ip, ip.size, k);
  }

  // ---- what a step of bmap leaves alone ------------------------------------------------------

  // Owners stay, and so do the contents of every owned block but inode i's
  // indirect block, and of every block below the bitmap.
  ghost predicate KeptAt(v0: seq<Block>, own0: Owners, v1: seq<Block>, own1: Owners, i: nat, b: nat)
    requires |v0| == |v1|
  {
    && (b in own0 ==> b in own1 && own1[b] == own0[b])
    && (b in own0 && own0[b] != (i, NDIRECT) && b < |v0| ==> v1[b] == v0[b])
  }

  ghost predicate Kept(v0: seq<Block>, own0: Owners, v1: seq<Block>, own1: Owners, sb: Super, i: nat)
  {
    && |v0| == |v1| && (forall b :: KeptAt(v0, own0, v1, own1, i, b))
    && (forall b | 0 <= b < sb.bmapStart && b < |v0| :: v1[b] == v0[b])
  }

  // The inode's slots other than s hold the same addresses.
  ghost predicate SameSlots(v0: seq<Block>, ip0: Inode, v1: seq<Block>, ip1: Inode, s: nat)
    requires |ip0.addrs| == NDIRECT + 1 && |ip1.addrs| == NDIRECT + 1
  {
    forall t | 0 <= t < NSLOTS && t != s :: SlotAddr(v1, ip1, t) == SlotAddr(v0, ip0, t)
  }

  lemma AllocatedKeeps(view: seq<Block>, inodes: seq<Inode>, own: Owners, sb: Super, a: nat, at: (nat, nat))
    requires Consistent(view, inodes, own, sb) && a < sb.size && !Used(view, sb, a)
    ensures Kept(view, own, Allocated(view, sb, a), own[a := at], sb, at.0)
  {
    FreeBlock(view, inodes, own, sb, a);
    var v, o := Allocated(view, sb, a), own[a := at];
    forall b: nat ensures KeptAt(view, own, v, o, at.0, b) {
      assert b in own ==> OwnerOk(view, inodes, own, sb, b);
    }
  }

  lemma FilledSlot(view: seq<Block>, inodes: seq<Inode>, own: Owners, sb: Super, i: nat, s: nat, a: Uint,
                   v: seq<Block>, in1: seq<Inode>, o: Owners)
    requires Consistent(view, inodes, own, sb) && a < sb.size && !Used(view, sb, a)
    requires i < |inodes| && s <= NDIRECT && inodes[i].addrs[s] == 0
    requires v == Allocated(view, sb, a) && in1 == SetSlot(inodes, i, s, a) && o == own[a := (i, s)]
    ensures Consistent(v, in1, o, sb) && Kept(view, own, v, o, sb, i) && a != 0 && a !in own && v[a] == ZeroBlock()
    ensures SameSlots(view, inodes[i], v, in1[i], s)
  {
    LinkInode(view, inodes, own, sb, i, s, a);
    AllocatedKeeps(view, inodes, own, sb, a, (i, s));
    FreeBlock(view, inodes, own, sb, a);
    forall t | 0 <= t < NSLOTS && t != s ensures SlotAddr(v, in1[i], t) == SlotAddr(view, inodes[i], t) {
      AllocatedElsewhere(view, inodes, own, sb, a, i, t);
      if t > NDIRECT && s == NDIRECT {
        ZeroWords(t - NDIRECT - 1);
      }
    }
  }

  lemma FilledEntry(view: seq<Block>, inodes: seq<Inode>, own: Owners, sb: Super, i: nat, j: nat, a: Uint,
                    v: seq<Block>, o: Owners)
    requires Consistent(view, inodes, own, sb) && a < sb.size && !Used(view, sb, a)
    requires i < |inodes| && j < NINDIRECT && 0 < inodes[i].addrs[NDIRECT] < |view|
    requires SlotAddr(view, inodes[i], NDIRECT + 1 + j) == 0
    requires v == Entered(Allocated(view, sb, a), inodes[i].addrs[NDIRECT], j, a) && o == own[a := (i, NDIRECT + 1 + j)]
    ensures Consistent(v, inodes, o, sb) && Kept(view, own, v, o, sb, i) && a != 0 && a !in own && v[a] == ZeroBlock()
    ensures SlotAddr(v, inodes[i], NDIRECT + 1 + j) == a && SameSlots(view, inodes[i], v, inodes[i], NDIRECT + 1 + j)
  {
    var ind, w := inodes[i].addrs[NDIRECT], Allocated(view, sb, a);
    assert SlotOk(view, inodes, own, i, NDIRECT);
    assert OwnerOk(view, inodes, own, sb, ind);
    LinkEntry(view, inodes, own, sb, i, j, a);
    AllocatedKeeps(view, inodes, own, sb, a, (i, NDIRECT + 1 + j));
    FreeBlock(view, inodes, own, sb, a);
    AllocatedSlots(view, inodes, own, sb, a);
    forall b: nat ensures KeptAt(view, own, v, o, i, b) {
      assert KeptAt(view, own, w, o, i, b);
    }
    forall t | 0 <= t < NSLOTS ensures SlotAddr(v, inodes[i], t) == if t == NDIRECT + 1 + j then a
      else SlotAddr(view, inodes[i], t) {
      AllocatedElsewhere(view, inodes, own, sb, a, i, t);
      EntrySlot(w, inodes, own, sb, i, j, a, i, t);
    }
  }

  // bmap's result for block bn of file i is a.
  ghost predicate Bmapped(v0: seq<Block>, in0: seq<Inode>, own0: Owners, v1: seq<Block>, in1: seq<Inode>, own1: Owners,
                          sb: Super, i: nat, bn: nat, a: Uint)
    requires Sized(in0) && Sized(in1) && i < |in0| == |in1| && bn < MAXFILE
  {
    && Kept(v0, own0, v1, own1, sb, i) && OnlyAddrs(in0, in1, i)
    && a == FileBlock(v1, in1[i], bn) && 0 < a < |v1| && OtherBlocks(v0, in0[i], v1, in1[i], bn)
    && (if FileBlock(v0, in0[i], bn) != 0 then v1 == v0 && in1 == in0 && own1 == own0
        else a !in own0 && v1[a] == ZeroBlock())
  }

  ghost predicate OnlyAddrs(in0: seq<Inode>, in1: seq<Inode>, i: nat)
    requires i < |in0| == |in1|
  {
    && (forall k | 0 <= k < |in0| && k != i :: in1[k] == in0[k])
    && in1[i] == in0[i].(addrs := in1[i].addrs)
  }

  ghost predicate OtherBlocks(v0: seq<Block>, ip0: Inode, v1: seq<Block>, ip1: Inode, bn: nat)
    requires |ip0.addrs| == NDIRECT + 1 && |ip1.addrs| == NDIRECT + 1
  {
    forall b | 0 <= b < MAXFILE && b != bn :: FileBlock(v1, ip1, b) == FileBlock(v0, ip0, b)
  }

  // The inode's indirect block, if it has one
  function Indirect(ip: Inode): (r: set<nat>)
    requires |ip.addrs| == NDIRECT + 1
  {
    if ip.addrs[NDIRECT] == 0 then {} else {ip.addrs[NDIRECT]}
  }

  // The bitmap blocks with the bits of the blocks s
  function BitsOf(sb: Super, s: set<nat>): (r: set<nat>) {
    set b | b in s :: sb.BBlock(b)
  }

  lemma {:induction false} BitsSize(sb: Super, s: set<nat>)
    ensures |BitsOf(sb, s)| <= |s|
  {
    if s != {} {
      var b :| b in s;
      BitsSize(sb, s - {b});
      assert BitsOf(sb, s) == BitsOf(sb, s - {b}) + {sb.BBlock(b)};
    }
  }

  lemma BitsMore(sb: Super, s: set<nat>, t: set<nat>)
    ensures BitsOf(sb, s + t) == BitsOf(sb, s) + BitsOf(sb, t) && BitsOf(sb, {}) == {}
  {
  }

  // bfree of a, when the blocks s have been freed
  lemma BitsFreed(log0: set<nat>, sb: Super, s: set<nat>, a: nat, s1: set<nat>)
    requires s1 == s + {a}
    ensures log0 + BitsOf(sb, s) + {sb.BBlock(a)} == log0 + BitsOf(sb, s1)
  {
    BitsMore(sb, s, {a});
    assert BitsOf(sb, {a}) == {sb.BBlock(a)};
  }

  lemma BitsBound(sb: Super, n: nat, s: set<nat>)
    requires sb.Valid(n) && forall b | b in s :: b < sb.size
    ensures BitsOf(sb, s) <= BitmapBlocks(sb) && |BitsOf(sb, s)| <= sb.size / BPB + 1
  {
    forall b | b in s ensures sb.BBlock(b) in BitmapBlocks(sb) {
      assert b / BPB <= sb.size / BPB;
    }
    IntervalSize(sb.bmapStart, sb.size / BPB + 1);
    SubsetSize(BitsOf(sb, s), BitmapBlocks(sb));
  }

  // What growing a file by the blocks data has put in the log: those blocks, the indirect block,
  // and a bitmap block for each that is new.
  ghost predicate Paid(log0: set<nat>, log1: set<nat>, own0: Owners, own1: Owners, sb: Super, ip: Inode,
                       data: set<nat>)
  {
    && |ip.addrs| == NDIRECT + 1 && own0.Keys <= own1.Keys && own1.Keys - own0.Keys <= data + Indirect(ip)
    && log1 <= log0 + Indirect(ip) + data + BitsOf(sb, own1.Keys - own0.Keys)
  }

  lemma PaidNothing(log0: set<nat>, own: Owners, sb: Super, ip: Inode, data: set<nat>)
    requires |ip.addrs| == NDIRECT + 1
    ensures Paid(log0, log0, own, own, sb, ip, data)
  {
  }

  // balloc of a, for the inode ip
  lemma PaidOne(log0: set<nat>, own0: Owners, own1: Owners, sb: Super, ip: Inode, a: nat, ind: set<nat>)
    requires |ip.addrs| == NDIRECT + 1 && a !in own0 && own1.Keys == own0.Keys + {a} && ind <= Indirect(ip)
    ensures Paid(log0, log0 + {sb.BBlock(a), a} + ind, own0, own1, sb, ip, {a})
  {
    assert own1.Keys - own0.Keys == {a};
    assert sb.BBlock(a) in BitsOf(sb, own1.Keys - own0.Keys);
  }

  // The indirect block and then the block a
  lemma PaidTwo(log0: set<nat>, log1: set<nat>, log2: set<nat>, own0: Owners, own1: Owners, own2: Owners, sb: Super,
                ip: Inode, a: nat)
    requires |ip.addrs| == NDIRECT + 1 && ip.addrs[NDIRECT] != 0
    requires Paid(log0, log1, own0, own1, sb, ip, {ip.addrs[NDIRECT]}) && Paid(log1, log2, own1, own2, sb, ip, {a})
    ensures Paid(log0, log2, own0, own2, sb, ip, {a})
  {
    PaidBoth(log0, log1, log2, own0, own1, own2, sb, ip, ip, {ip.addrs[NDIRECT]}, {a});
  }

  lemma PaidBoth(log0: set<nat>, log1: set<nat>, log2: set<nat>, own0: Owners, own1: Owners, own2: Owners, sb: Super,
                 ip1: Inode, ip2: Inode, data1: set<nat>, data2: set<nat>)
    requires Paid(log0, log1, own0, own1, sb, ip1, data1) && Paid(log1, log2, own1, own2, sb, ip2, data2)
    requires Indirect(ip1) <= Indirect(ip2)
    ensures Paid(log0, log2, own0, own2, sb, ip2, data1 + data2)
  {
    var n1, n2 := own1.Keys - own0.Keys, own2.Keys - own1.Keys;
    assert own2.Keys - own0.Keys == n1 + n2;
    BitsMore(sb, n1, n2);
  }

  function BitmapBlocks(sb: Super): (r: set<nat>) {
    Interval(sb.bmapStart, sb.size / BPB + 1)
  }

  lemma KeptBoth(v0: seq<Block>, own0: Owners, v1: seq<Block>, own1: Owners, v2: seq<Block>, own2: Owners, sb: Super,
                 i: nat)
    requires Kept(v0, own0, v1, own1, sb, i) && Kept(v1, own1, v2, own2, sb, i)
    ensures Kept(v0, own0, v2, own2, sb, i)
  {
    forall b: nat ensures KeptAt(v0, own0, v2, own2, i, b) {
      assert KeptAt(v0, own0, v1, own1, i, b) && KeptAt(v1, own1, v2, own2, i, b);
    }
  }

  lemma KeptOwner(v0: seq<Block>, own0: Owners, v1: seq<Block>, own1: Owners, sb: Super, i: nat, a: nat)
    requires Kept(v0, own0, v1, own1, sb, i) && a !in own1
    ensures a !in own0
  {
    assert KeptAt(v0, own0, v1, own1, i, a);
  }

  lemma SlotsToBlocks(v0: seq<Block>, ip0: Inode, v1: seq<Block>, ip1: Inode, v2: seq<Block>, s: nat, bn: nat)
    requires |ip0.addrs| == NDIRECT + 1 && |ip1.addrs| == NDIRECT + 1 && bn < MAXFILE
    requires (s == NDIRECT || s == DataSlot(bn)) && SameSlots(v0, ip0, v1, ip1, s)
    requires SameSlots(v1, ip1, v2, ip1, DataSlot(bn))
    ensures OtherBlocks(v0, ip0, v2, ip1, bn)
  {
    forall b | 0 <= b < MAXFILE && b != bn ensures FileBlock(v2, ip1, b) == FileBlock(v0, ip0, b) {
      assert SlotAddr(v1, ip1, DataSlot(b)) == SlotAddr(v0, ip0, DataSlot(b));
      assert SlotAddr(v2, ip1, DataSlot(b)) == SlotAddr(v1, ip1, DataSlot(b));
    }
  }

  lemma BmapOne(v0: seq<Block>, in0: seq<Inode>, own0: Owners, v1: seq<Block>, in1: seq<Inode>, own1: Owners,
                sb: Super, i: nat, bn: nat, a: Uint)
    requires Sized(in0) && Sized(in1) && i < |in0| == |in1| && bn < NDIRECT
    requires in1 == SetSlot(in0, i, bn, a) && 0 < a < |v1| && Kept(v0, own0, v1, own1, sb, i)
    requires SameSlots(v0, in0[i], v1, in1[i], bn)
    requires in0[i].addrs[bn] != 0 ==> v1 == v0 && in1 == in0 && own1 == own0
    requires in0[i].addrs[bn] == 0 ==> v1[a] == ZeroBlock() && a !in own0
    ensures Bmapped(v0, in0, own0, v1, in1, own1, sb, i, bn, a)
  {
    SlotsToBlocks(v0, in0[i], v1, in1[i], v1, bn, bn);
  }

  lemma BmapTwo(v0: seq<Block>, in0: seq<Inode>, own0: Owners, v1: seq<Block>, in1: seq<Inode>, own1: Owners,
                v2: seq<Block>, own2: Owners, sb: Super, i: nat, bn: nat, a: Uint)
    requires Sized(in0) && Sized(in1) && i < |in0| == |in1| && NDIRECT <= bn < MAXFILE
    requires in1 == SetSlot(in0, i, NDIRECT, in1[i].addrs[NDIRECT])
    requires Kept(v0, own0, v1, own1, sb, i) && SameSlots(v0, in0[i], v1, in1[i], NDIRECT)
    requires in0[i].addrs[NDIRECT] != 0 ==> v1 == v0 && in1 == in0 && own1 == own0
    requires in0[i].addrs[NDIRECT] == 0 ==> SlotAddr(v0, in0[i], bn + 1) == 0
    requires Kept(v1, own1, v2, own2, sb, i) && SameSlots(v1, in1[i], v2, in1[i], bn + 1)
    requires a == SlotAddr(v2, in1[i], bn + 1) && 0 < a < |v2|
    requires SlotAddr(v1, in1[i], bn + 1) != 0 ==> v2 == v1 && own2 == own1
    requires SlotAddr(v1, in1[i], bn + 1) == 0 ==> v2[a] == ZeroBlock() && a !in own1
    ensures Bmapped(v0, in0, own0, v2, in1, own2, sb, i, bn, a)
  {
    SlotsToBlocks(v0, in0[i], v1, in1[i], v2, NDIRECT, bn);
    KeptBoth(v0, own0, v1, own1, v2, own2, sb, i);
    assert SlotAddr(v1, in1[i], bn + 1) == SlotAddr(v0, in0[i], bn + 1);
    if a !in own1 {
      KeptOwner(v0, own0, v1, own1, sb, i, a);
    }
  }

  // ---- truncation ----------------------------------------------------------------------------

  // The blocks owned by the first s slots of inode i
  function Before(own: Owners, i: nat, s: nat): (r: set<nat>) {
    set a | a in own && own[a].0 == i && own[a].1 < s
  }

  // Only bitmap blocks differ.
  ghost predicate BitsOnly(v0: seq<Block>, v1: seq<Block>, sb: Super) {
    |v0| == |v1| && forall b | 0 <= b < |v0| && b !in BitmapBlocks(sb) :: v1[b] == v0[b]
  }

  lemma BitsOnlyStep(v0: seq<Block>, v1: seq<Block>, sb: Super, b: nat)
    requires sb.Valid(|v1|) && BitsOnly(v0, v1, sb) && b < sb.size
    ensures BitsOnly(v0, PutUsed(v1, sb, b, false), sb)
  {
    assert b / BPB <= sb.size / BPB;
  }

  // The first s direct blocks of inode i are free and their slots empty.
  ghost predicate DirectGone(v0: seq<Block>, in0: seq<Inode>, own0: Owners, v1: seq<Block>, in1: seq<Inode>,
                             own1: Owners, sb: Super, i: nat, s: nat)
  {
    && i < |in0| == |in1| && Sized(in0) && Sized(in1) && s <= NDIRECT && own1 == own0 - Before(own0, i, s)
    && OnlyAddrs(in0, in1, i) && in1[i].addrs[NDIRECT] == in0[i].addrs[NDIRECT] && BitsOnly(v0, v1, sb)
    && forall t | 0 <= t < s :: in1[i].addrs[t] == 0
  }

  // One turn of itrunc's first loop
  lemma TruncatedSlot(view: seq<Block>, inodes: seq<Inode>, own0: Owners, own: Owners, sb: Super, i: nat, s: nat)
    requires Consistent(view, inodes, own, sb) && i < |inodes| && s < NDIRECT && own == own0 - Before(own0, i, s)
    ensures var a := inodes[i].addrs[s];
      if a == 0 then own == own0 - Before(own0, i, s + 1)
      else
        && a < sb.size && Used(view, sb, a) && own - {a} == own0 - Before(own0, i, s + 1)
        && Consistent(PutUsed(view, sb, a, false), SetSlot(inodes, i, s, 0), own - {a}, sb)
    ensures var a := inodes[i].addrs[s];
      Before(own0, i, s + 1) == Before(own0, i, s) + if a == 0 then {} else {a}
  {
    var a := inodes[i].addrs[s];
    if a != 0 {
      UnlinkDirect(view, inodes, own, sb, i, s);
      forall b | b in own && own[b] == (i, s) ensures b == a {
        assert OwnerOk(view, inodes, own, sb, b);
      }
      assert own0[a] == (i, s);
    } else {
      forall b | b in own ensures own[b] != (i, s) {
        assert OwnerOk(view, inodes, own, sb, b);
      }
    }
  }

  lemma TruncatingStart(view: seq<Block>, inodes: seq<Inode>, own: Owners, sb: Super, i: nat)
    requires Consistent(view, inodes, own, sb) && i < |inodes|
    ensures Truncating(view, inodes, own, sb, i, 0)
  {
    assert Entries(own, i, 0) == {};
    assert own - Entries(own, i, 0) == own;
  }

  // The end of itrunc's second part
  lemma TruncatedAll(view: seq<Block>, inodes: seq<Inode>, own0: Owners, own: Owners, sb: Super, i: nat)
    requires own == own0 - Before(own0, i, NDIRECT) && i < |inodes|
    requires Truncating(view, inodes, own, sb, i, NINDIRECT) && inodes[i].addrs[NDIRECT] != 0
    ensures var a := inodes[i].addrs[NDIRECT];
      && a < sb.size && Used(view, sb, a)
      && Consistent(PutUsed(view, sb, a, false), SetSlot(inodes, i, NDIRECT, 0), own0 - Before(own0, i, NSLOTS), sb)
      && Before(own0, i, NSLOTS) == Before(own0, i, NDIRECT) + Entries(own, i, NINDIRECT) + {a}
  {
    var a := inodes[i].addrs[NDIRECT];
    UnlinkIndirect(view, inodes, own, sb, i);
    forall b | b in own && own[b].0 == i ensures own[b].1 < NSLOTS && (own[b] == (i, NDIRECT) ==> b == a) {
      assert OwnerOk(view, inodes, own, sb, b);
    }
    assert SlotOk(view, inodes, own, i, NDIRECT);
    assert own - Entries(own, i, NINDIRECT) - {a} == own0 - Before(own0, i, NSLOTS);
  }

  lemma TruncatedNone(view: seq<Block>, inodes: seq<Inode>, own0: Owners, own: Owners, sb: Super, i: nat)
    requires own == own0 - Before(own0, i, NDIRECT) && i < |inodes|
    requires Consistent(view, inodes, own, sb) && inodes[i].addrs[NDIRECT] == 0
    ensures own == own0 - Before(own0, i, NSLOTS) && Before(own0, i, NSLOTS) == Before(own0, i, NDIRECT)
  {
    forall b | b in own ensures own[b].0 != i {
      assert OwnerOk(view, inodes, own, sb, b);
    }
  }

  lemma BitsAll(log0: set<nat>, log1: set<nat>, sb: Super, own0: Owners, own: Owners, i: nat, a: nat)
    requires Before(own0, i, NSLOTS) == Before(own0, i, NDIRECT) + Entries(own, i, NINDIRECT) + {a}
    requires log1 == log0 + BitsOf(sb, Before(own0, i, NDIRECT)) + BitsOf(sb, Entries(own, i, NINDIRECT))
    ensures log1 + {sb.BBlock(a)} == log0 + BitsOf(sb, Before(own0, i, NSLOTS))
  {
    BitsMore(sb, Before(own0, i, NDIRECT), Entries(own, i, NINDIRECT));
    BitsFreed(log0, sb, Before(own0, i, NDIRECT) + Entries(own, i, NINDIRECT), a, Before(own0, i, NSLOTS));
  }

  // Changing an inode's size moves no slot.
  lemma Resized(view: seq<Block>, inodes: seq<Inode>, own: Owners, sb: Super, i: nat, ip: Inode)
    requires Consistent(view, inodes, own, sb) && i < |inodes| && ip.addrs == inodes[i].addrs
    ensures Consistent(view, inodes[i := ip], own, sb)
  {
    var in1 := inodes[i := ip];
    forall k, t | 0 <= k < |in1| && 0 <= t < NSLOTS ensures SlotOk(view, in1, own, k, t) {
      assert SlotOk(view, inodes, own, k, t);
    }
    forall b | b in own ensures OwnerOk(view, in1, own, sb, b) {
      assert OwnerOk(view, inodes, own, sb, b);
    }
  }

  // ---- what consistency means for the addresses alone -----------------------------------------

  // Addresses in two slots differ; all are data blocks marked in use.
  lemma AddressesDistinct(view: seq<Block>, inodes: seq<Inode>, own: Owners, sb: Super, i: nat, s: nat, j: nat, t: nat)
    requires Consistent(view, inodes, own, sb) && i < |inodes| && j < |inodes| && s < NSLOTS && t < NSLOTS
    ensures var a, b := SlotAddr(view, inodes[i], s), SlotAddr(view, inodes[j], t);
      && (a != 0 ==> sb.dataStart <= a < sb.size && Used(view, sb, a))
      && (a != 0 && a == b ==> i == j && s == t)
  {
    var a := SlotAddr(view, inodes[i], s);
    assert SlotOk(view, inodes, own, i, s) && SlotOk(view, inodes, own, j, t);
    if a != 0 {
      assert OwnerOk(view, inodes, own, sb, a) && BitOk(view, own, sb, a);
    }
  }

  ghost predicate HasBlock(view: seq<Block>, ip: Inode, b: nat)
    requires |ip.addrs| == NDIRECT + 1
  {
    b != 0 && exists s | 0 <= s < NSLOTS :: SlotAddr(view, ip, s) == b
  }

  // itrunc clears the bits of the inode's own blocks and no others.
  lemma TruncFreesExactly(v0: seq<Block>, in0: seq<Inode>, own0: Owners, v1: seq<Block>, in1: seq<Inode>, own1: Owners,
                          sb: Super, i: nat, b: nat)
    requires Consistent(v0, in0, own0, sb) && Consistent(v1, in1, own1, sb) && i < |in0|
    requires own1 == own0 - Before(own0, i, NSLOTS) && b < sb.size
    ensures Used(v1, sb, b) <==> Used(v0, sb, b) && !HasBlock(v0, in0[i], b)
  {
    assert BitOk(v0, own0, sb, b) && BitOk(v1, own1, sb, b);
    if b in own0 {
      assert OwnerOk(v0, in0, own0, sb, b);
    }
    forall s | 0 <= s < NSLOTS && SlotAddr(v0, in0[i], s) == b && b != 0 ensures b in own0 && own0[b].0 == i {
      assert SlotOk(v0, in0, own0, i, s);
      assert OwnerOk(v0, in0, own0, sb, b);
    }
  }

  // A disk on which only the metadata is in use is consistent with empty inodes.
  lemma FreshConsistent(view: seq<Block>, sb: Super, n: nat)
    requires sb.Valid(|view|) && n <= sb.ninodes
    requires forall b | 0 <= b < sb.size :: Used(view, sb, b) <==> b < sb.dataStart
    ensures Consistent(view, seq(n, _ => NOINODE), map[], sb)
  {
    var inodes := seq(n, _ => NOINODE);
    forall i, s | 0 <= i < |inodes| && 0 <= s < NSLOTS ensures SlotOk(view, inodes, map[], i, s) {
    }
    forall b | 0 <= b < sb.size ensures BitOk(view, map[], sb, b) {
    }
  }
}
