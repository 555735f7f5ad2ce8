// Files as byte strings: what readi and writei do to the contents, on top of
// fs.c's block mapping.
module FileSpec {
  import opened Bytes
  import opened FsSpec
  import opened Util

  const MAXBYTES: nat := 71680    // MAXFILE * BSIZE

  // Byte k of the file is x.
  ghost predicate ByteIs(view: seq<Block>, ip: Inode, k: nat, x: Byte)
    requires |ip.addrs| == NDIRECT + 1
  {
    MappedAt(view, ip, k / BSIZE) && ByteAt(view, ip, k) == x
  }

  // The file starts with the bytes w.
  ghost predicate Begins(view: seq<Block>, ip: Inode, w: seq<Byte>)
    requires |ip.addrs| == NDIRECT + 1
  {
    forall k | 0 <= k < |w| :: ByteIs(view, ip, k, w[k])
  }

  lemma ContentsBegin(view: seq<Block>, ip: Inode)
    requires |ip.addrs| == NDIRECT + 1 && Mapped(view, ip, ip.size)
    ensures Begins(view, ip, Contents(view, ip)) && ip.size <= MAXBYTES
  {
    var c := Contents(view, ip);
    forall k | 0 <= k < |c| ensures ByteIs(view, ip, k, c[k]) {
      MappedByte(view, ip, ip.size, k);
    }
    assert MAXFILE * BSIZE < ip.size ==> MappedAt(view, ip, MAXFILE);
  }

  lemma BeginsContents(view: seq<Block>, ip: Inode, w: seq<Byte>)
    requires |ip.addrs| == NDIRECT + 1 && Begins(view, ip, w) && ip.size == |w|
    ensures Mapped(view, ip, ip.size) && Contents(view, ip) == w
  {
    forall bn: nat | bn * BSIZE < |w| ensures MappedAt(view, ip, bn) {
      assert ByteIs(view, ip, bn * BSIZE, w[bn * BSIZE]);
      assert bn * BSIZE / BSIZE == bn;
    }
    var c := Contents(view, ip);
    forall k | 0 <= k < |w| ensures c[k] == w[k] {
      assert ByteIs(view, ip, k, w[k]);
    }
  }

  // A run of bytes inside one block
  lemma BlockBytes(view: seq<Block>, ip: Inode, w: seq<Byte>, off: nat, m: nat)
    requires |ip.addrs| == NDIRECT + 1 && Begins(view, ip, w) && off + m <= |w| && off % BSIZE + m <= BSIZE && m > 0
    ensures MappedAt(view, ip, off / BSIZE)
    ensures view[FileBlock(view, ip, off / BSIZE)][off % BSIZE..off % BSIZE + m] == w[off..off + m]
  {
    assert ByteIs(view, ip, off, w[off]);
    var x, y := view[FileBlock(view, ip, off / BSIZE)][off % BSIZE..off % BSIZE + m], w[off..off + m];
    forall j | 0 <= j < m ensures x[j] == y[j] {
      assert ByteIs(view, ip, off + j, w[off + j]);
      assert (off + j) / BSIZE == off / BSIZE && (off + j) % BSIZE == off % BSIZE + j;
    }
  }

  // The contents c with the first tot bytes of src written at off
  function Overwrite(c: seq<Byte>, off: nat, src: seq<Byte>, tot: nat): (w: seq<Byte>)
    requires off <= |c| && tot <= |src|
    ensures |w| == if off + tot > |c| then off + tot else |c|
    ensures forall k | 0 <= k < |w| :: w[k] == if off <= k < off + tot then src[k - off] else c[k]
  {
    c[..off] + src[..tot] + if off + tot < |c| then c[off + tot..] else []
  }

  // What memmove leaves in a block
  function Patch(x: Block, o: nat, bytes: seq<Byte>): (r: Block)
    requires o + |bytes| <= BSIZE
  {
    x[..o] + bytes + x[o + |bytes|..]
  }

  lemma FileBlockOwner(view: seq<Block>, inodes: seq<Inode>, own: Owners, sb: Super, i: nat, bn: nat)
    requires Consistent(view, inodes, own, sb) && i < |inodes| && MappedAt(view, inodes[i], bn)
    ensures var a := FileBlock(view, inodes[i], bn); a in own && own[a] == (i, DataSlot(bn))
  {
    assert SlotOk(view, inodes, own, i, DataSlot(bn));
  }

  lemma BmapBegins(v0: seq<Block>, in0: seq<Inode>, own0: Owners, v1: seq<Block>, in1: seq<Inode>, own1: Owners,
                   sb: Super, i: nat, bn: nat, a: Uint, w: seq<Byte>)
    requires Consistent(v0, in0, own0, sb) && Sized(in1) && i < |in0| == |in1| && bn < MAXFILE
    requires Bmapped(v0, in0, own0, v1, in1, own1, sb, i, bn, a) && Begins(v0, in0[i], w)
    ensures Begins(v1, in1[i], w)
  {
    forall k | 0 <= k < |w| ensures ByteIs(v1, in1[i], k, w[k]) {
      assert ByteIs(v0, in0[i], k, w[k]);
      if k / BSIZE != bn {
        FileBlockOwner(v0, in0, own0, sb, i, k / BSIZE);
        assert KeptAt(v0, own0, v1, own1, i, FileBlock(v0, in0[i], k / BSIZE));
      }
    }
  }

  // Byte k of w1 is in x, the new file block bn, or comes from w.
  ghost predicate StoredByte(w: seq<Byte>, bn: nat, x: Block, w1: seq<Byte>, k: nat)
    requires k < |w1|
  {
    if k / BSIZE == bn then x[k % BSIZE] == w1[k] else k < |w| && w1[k] == w[k]
  }

  ghost predicate Stored(w: seq<Byte>, bn: nat, x: Block, w1: seq<Byte>) {
    forall k | 0 <= k < |w1| :: StoredByte(w, bn, x, w1, k)
  }

  lemma StoreBegins(view: seq<Block>, inodes: seq<Inode>, own: Owners, sb: Super, i: nat, bn: nat, x: Block,
                    w: seq<Byte>, w1: seq<Byte>)
    requires Consistent(view, inodes, own, sb) && i < |inodes| && MappedAt(view, inodes[i], bn)
    requires Begins(view, inodes[i], w)
    requires Stored(w, bn, x, w1)
    ensures Begins(view[FileBlock(view, inodes[i], bn) := x], inodes[i], w1)
  {
    var a := FileBlock(view, inodes[i], bn);
    var v := view[a := x];
    FileBlockOwner(view, inodes, own, sb, i, bn);
    NotIndirectBlock(view, inodes, own, sb, a);
    forall k | 0 <= k < |w1| ensures ByteIs(v, inodes[i], k, w1[k]) {
      var b := k / BSIZE;
      assert StoredByte(w, bn, x, w1, k);
      if b == bn {
        SlotFrame(view, a, x, inodes[i], DataSlot(bn));
      } else {
        assert ByteIs(view, inodes[i], k, w[k]);
        FileBlockOwner(view, inodes, own, sb, i, b);
        SlotFrame(view, a, x, inodes[i], DataSlot(b));
      }
    }
  }

  // The block x agrees with w in file block bn.
  ghost predicate Holds(x: Block, bn: nat, w: seq<Byte>) {
    forall k | 0 <= k < |w| && k / BSIZE == bn :: x[k % BSIZE] == w[k]
  }

  lemma BeginsHolds(view: seq<Block>, ip: Inode, w: seq<Byte>, bn: nat)
    requires |ip.addrs| == NDIRECT + 1 && MappedAt(view, ip, bn) && Begins(view, ip, w)
    ensures Holds(view[FileBlock(view, ip, bn)], bn, w)
  {
    forall k | 0 <= k < |w| && k / BSIZE == bn ensures view[FileBlock(view, ip, bn)][k % BSIZE] == w[k] {
      assert ByteIs(view, ip, k, w[k]);
    }
  }

  // One turn of writei's loop on the bytes
  lemma PatchedBytes(c: seq<Byte>, off0: nat, src: seq<Byte>, tot: nat, off: nat, tot1: nat, x: Block)
    requires off0 <= |c| && tot < tot1 <= |src| && off == off0 + tot && off % BSIZE + (tot1 - tot) <= BSIZE
    requires Holds(x, off / BSIZE, Overwrite(c, off0, src, tot))
    ensures Stored(Overwrite(c, off0, src, tot), off / BSIZE, Patch(x, off % BSIZE, src[tot..tot1]),
                   Overwrite(c, off0, src, tot1))
  {
    var w, w1, y := Overwrite(c, off0, src, tot), Overwrite(c, off0, src, tot1), Patch(x, off % BSIZE, src[tot..tot1]);
    forall k | 0 <= k < |w1| ensures StoredByte(w, off / BSIZE, y, w1, k) {
      if off <= k < off + (tot1 - tot) {
        assert k / BSIZE == off / BSIZE && k % BSIZE == off % BSIZE + (k - off);
      } else if k / BSIZE == off / BSIZE {
        assert k < off ==> k % BSIZE < off % BSIZE;
        assert k >= off + (tot1 - tot) ==> k % BSIZE >= off % BSIZE + (tot1 - tot);
        assert w[k] == w1[k];
      }
    }
  }

  // Owners stay, and so do the blocks below the bitmap and every block of another inode.
  ghost predicate OtherAt(v0: seq<Block>, own0: Owners, v1: seq<Block>, own1: Owners, i: nat, b: nat)
    requires |v0| == |v1|
  {
    && (b in own0 ==> b in own1 && own1[b] == own0[b])
    && (b in own0 && own0[b].0 != i && b < |v0| ==> v1[b] == v0[b])
  }

  ghost predicate OthersKept(v0: seq<Block>, own0: Owners, v1: seq<Block>, own1: Owners, sb: Super, i: nat) {
    && |v0| == |v1| && (forall b :: OtherAt(v0, own0, v1, own1, i, b))
    && (forall b | 0 <= b < sb.bmapStart && b < |v0| :: v1[b] == v0[b])
  }

  lemma OthersKeptBoth(v0: seq<Block>, own0: Owners, v1: seq<Block>, own1: Owners, v2: seq<Block>, own2: Owners,
                       sb: Super, i: nat)
    requires OthersKept(v0, own0, v1, own1, sb, i) && OthersKept(v1, own1, v2, own2, sb, i)
    ensures OthersKept(v0, own0, v2, own2, sb, i)
  {
    forall b: nat ensures OtherAt(v0, own0, v2, own2, i, b) {
      assert OtherAt(v0, own0, v1, own1, i, b) && OtherAt(v1, own1, v2, own2, i, b);
    }
  }

  // bmap followed by storing the block
  lemma WrittenBlock(v0: seq<Block>, in0: seq<Inode>, own0: Owners, v1: seq<Block>, in1: seq<Inode>, own1: Owners,
                     sb: Super, i: nat, bn: nat, a: Uint, x: Block, w: seq<Byte>, w1: seq<Byte>)
    requires Consistent(v0, in0, own0, sb) && Consistent(v1, in1, own1, sb) && i < |in0| == |in1| && bn < MAXFILE
    requires Bmapped(v0, in0, own0, v1, in1, own1, sb, i, bn, a) && Begins(v1, in1[i], w) && Stored(w, bn, x, w1)
    ensures Consistent(v1[a := x], in1, own1, sb) && Begins(v1[a := x], in1[i], w1)
    ensures OthersKept(v0, own0, v1[a := x], own1, sb, i)
  {
    FileBlockOwner(v1, in1, own1, sb, i, bn);
    DataWrite(v1, in1, own1, sb, a, x);
    StoreBegins(v1, in1, own1, sb, i, bn, x, w, w1);
    assert OwnerOk(v1, in1, own1, sb, a);
    var v2 := v1[a := x];
    forall b: nat ensures OtherAt(v0, own0, v2, own1, i, b) {
      assert KeptAt(v0, own0, v1, own1, i, b);
    }
  }

  // ---- other files ----------------------------------------------------------------------

  ghost predicate SameFile(v0: seq<Block>, v1: seq<Block>, ip: Inode) {
    |ip.addrs| == NDIRECT + 1 && Mapped(v0, ip, ip.size) ==>
      Mapped(v1, ip, ip.size) && Contents(v1, ip) == Contents(v0, ip)
  }

  // Every file but i has the same inode and the same contents.
  ghost predicate OthersSame(v0: seq<Block>, in0: seq<Inode>, v1: seq<Block>, in1: seq<Inode>, i: nat) {
    |in0| == |in1| && forall j | 0 <= j < |in0| && j != i :: in1[j] == in0[j] && SameFile(v0, v1, in0[j])
  }

  lemma OtherFile(v0: seq<Block>, inodes: seq<Inode>, own0: Owners, sb: Super, v1: seq<Block>, j: nat)
    requires Consistent(v0, inodes, own0, sb) && |v1| == |v0| && j < |inodes|
    requires forall b | b in own0 && own0[b].0 == j && b < |v0| :: v1[b] == v0[b]
    ensures SameFile(v0, v1, inodes[j])
  {
    var ip := inodes[j];
    assert SlotOk(v0, inodes, own0, j, NDIRECT);
    if Mapped(v0, ip, ip.size) {
      forall bn: nat | bn * BSIZE < ip.size
        ensures MappedAt(v1, ip, bn) && FileBlock(v1, ip, bn) == FileBlock(v0, ip, bn)
        ensures v1[FileBlock(v1, ip, bn)] == v0[FileBlock(v0, ip, bn)]
      {
        assert MappedAt(v0, ip, bn);
        FileBlockOwner(v0, inodes, own0, sb, j, bn);
      }
      var c0, c1 := Contents(v0, ip), Contents(v1, ip);
      forall k | 0 <= k < ip.size ensures c1[k] == c0[k] {
        MappedByte(v0, ip, ip.size, k);
        MappedByte(v1, ip, ip.size, k);
        assert k / BSIZE * BSIZE < ip.size;
      }
    }
  }

  // Other files keep their contents when only blocks of inode i change.
  lemma OthersStay(v0: seq<Block>, in0: seq<Inode>, own0: Owners, v1: seq<Block>, in1: seq<Inode>, own1: Owners,
                   sb: Super, i: nat)
    requires Consistent(v0, in0, own0, sb) && i < |in0| == |in1|
    requires OnlyAddrs(in0, in1, i) && OthersKept(v0, own0, v1, own1, sb, i)
    ensures OthersSame(v0, in0, v1, in1, i)
  {
    forall j | 0 <= j < |in0| && j != i ensures in1[j] == in0[j] && SameFile(v0, v1, in0[j]) {
      forall b | b in own0 && own0[b].0 == j && b < |v0| ensures v1[b] == v0[b] {
        assert OtherAt(v0, own0, v1, own1, i, b);
      }
      OtherFile(v0, in0, own0, sb, v1, j);
    }
  }

  // Storing an inode changes no file.
  lemma OthersStayUpdated(v0: seq<Block>, in0: seq<Inode>, v1: seq<Block>, in1: seq<Inode>, own: Owners, sb: Super,
                          i: nat, v2: seq<Block>, in2: seq<Inode>)
    requires OthersSame(v0, in0, v1, in1, i) && Consistent(v1, in1, own, sb) && i < |in1|
    requires |in2| == |in1| && forall j | 0 <= j < |in1| && j != i :: in2[j] == in1[j]
    requires |v2| == |v1| && forall b | sb.dataStart <= b < |v1| :: v2[b] == v1[b]
    ensures OthersSame(v0, in0, v2, in2, i)
  {
    forall j | 0 <= j < |in0| && j != i ensures in2[j] == in0[j] && SameFile(v0, v2, in0[j]) {
      assert in1[j] == in0[j] && SameFile(v0, v1, in0[j]);
      forall b | b in own && own[b].0 == j && b < |v1| ensures v2[b] == v1[b] {
        assert OwnerOk(v1, in1, own, sb, b);
      }
      OtherFile(v1, in1, own, sb, v2, j);
    }
  }

  // A file keeps its beginning when an on-disk inode is stored.
  lemma BeginsFrame(v0: seq<Block>, inodes: seq<Inode>, own: Owners, sb: Super, i: nat, v1: seq<Block>, ip: Inode,
                    w: seq<Byte>)
    requires Consistent(v0, inodes, own, sb) && i < |inodes| && Begins(v0, inodes[i], w) && ip.addrs == inodes[i].addrs
    requires |v1| == |v0| && forall b | sb.dataStart <= b < |v0| :: v1[b] == v0[b]
    ensures Begins(v1, ip, w)
  {
    assert SlotOk(v0, inodes, own, i, NDIRECT);
    forall k | 0 <= k < |w| ensures ByteIs(v1, ip, k, w[k]) {
      assert ByteIs(v0, inodes[i], k, w[k]);
      FileBlockOwner(v0, inodes, own, sb, i, k / BSIZE);
      assert OwnerOk(v0, inodes, own, sb, FileBlock(v0, inodes[i], k / BSIZE));
      assert inodes[i].addrs[NDIRECT] != 0 ==> OwnerOk(v0, inodes, own, sb, inodes[i].addrs[NDIRECT]);
    }
  }

  // ---- log space ------------------------------------------------------------------------

  // Outside the logged blocks nothing has changed, and they are file system blocks.
  ghost predicate Tracked(base: seq<Block>, view: seq<Block>, logged: set<nat>, sb: Super) {
    && |view| == |base| && (forall b | 0 <= b < |view| && b !in logged :: view[b] == base[b])
    && forall b | b in logged :: sb.inodeStart <= b < sb.size
  }

  // The blocks that the bytes off to off + n of a file are in
  function Span(off: nat, n: nat): (r: nat) {
    if n == 0 then 0 else (off + n + BSIZE - 1) / BSIZE - off / BSIZE
  }

  // writei takes one more block a turn.
  lemma SpanStep(off: nat, tot: nat, m: nat)
    requires m > 0 && (off + tot) % BSIZE + m <= BSIZE && (tot == 0 || (off + tot) % BSIZE == 0)
    ensures Span(off, tot + m) == Span(off, tot) + 1
    ensures (off + tot) % BSIZE + m == BSIZE ==> (off + tot + m) % BSIZE == 0
  {
    var x := off + tot;
    var q, r := x / BSIZE, x % BSIZE;
    assert x == q * BSIZE + r;
    assert x + m + BSIZE - 1 == (q + 1) * BSIZE + (r + m - 1);
    assert (x + m + BSIZE - 1) / BSIZE == q + 1;
    if tot > 0 {
      assert (x + BSIZE - 1) / BSIZE == q;
    }
  }

  // What one turn of the loop takes
  lemma TurnBytes(off0: nat, off: nat, tot: nat, n: nat, m: nat, tot1: nat, off1: nat)
    requires off == off0 + tot && tot < n && (tot == 0 || off % BSIZE == 0) && tot1 == tot + m && off1 == off + m
    requires m == if n - tot < BSIZE - off % BSIZE then n - tot else BSIZE - off % BSIZE
    ensures tot < tot1 <= n && off % BSIZE + (tot1 - tot) <= BSIZE && Span(off0, tot1) == Span(off0, tot) + 1
    ensures off1 == off0 + tot1 && (tot1 == n || off1 % BSIZE == 0)
  {
    SpanStep(off0, tot, m);
  }

  // The indirect block does not change while one file grows.
  lemma IndirectKept(v0: seq<Block>, in0: seq<Inode>, own0: Owners, v1: seq<Block>, in1: seq<Inode>, own1: Owners,
                     sb: Super, i: nat)
    requires Consistent(v0, in0, own0, sb) && Consistent(v1, in1, own1, sb) && i < |in0| == |in1|
    requires Kept(v0, own0, v1, own1, sb, i)
    ensures Indirect(in0[i]) <= Indirect(in1[i])
  {
    var a := in0[i].addrs[NDIRECT];
    assert SlotOk(v0, in0, own0, i, NDIRECT);
    assert KeptAt(v0, own0, v1, own1, i, a);
    if a != 0 {
      assert OwnerOk(v1, in1, own1, sb, a);
    }
  }

  // The log has grown by at most n data blocks and what it took to have them.
  ghost predicate Charged(log0: set<nat>, log1: set<nat>, own0: Owners, own1: Owners, sb: Super, ip: Inode,
                          data: set<nat>, n: nat)
  {
    Paid(log0, log1, own0, own1, sb, ip, data) && |data| <= n && data <= log1 && (n > 0 ==> data != {})
  }

  // One more turn: bmap takes log1 to log2, and the data block a is logged.
  lemma ChargedStep(log0: set<nat>, log1: set<nat>, log2: set<nat>, own0: Owners, own1: Owners, own2: Owners, sb: Super,
                    ip1: Inode, ip2: Inode, data: set<nat>, a: nat, n: nat, n1: nat)
    requires Charged(log0, log1, own0, own1, sb, ip1, data, n) && n1 == n + 1
    requires Paid(log1, log2, own1, own2, sb, ip2, {a}) && log1 <= log2 && Indirect(ip1) <= Indirect(ip2)
    ensures Charged(log0, log2 + {a}, own0, own2, sb, ip2, data + {a}, n1)
  {
    PaidBoth(log0, log1, log2, own0, own1, own2, sb, ip1, ip2, data, {a});
  }

  // The end of writei may have logged the inode's block.
  lemma ChargedSaved(log0: set<nat>, log1: set<nat>, log2: set<nat>, own0: Owners, own1: Owners, sb: Super, ip1: Inode,
                     ip2: Inode, data: set<nat>, n: nat, i: nat)
    requires Charged(log0, log1, own0, own1, sb, ip1, data, n) && ip2.addrs == ip1.addrs
    requires log1 <= log2 <= log1 + {sb.IBlock(i)}
    ensures Charged(log0 + {sb.IBlock(i)}, log2, own0, own1, sb, ip2, data, n)
  {
  }

  // A write that starts inside a block starts in a block that the file had.
  ghost predicate Anchored(own0: Owners, data: set<nat>, off0: nat, tot: nat) {
    tot > 0 && off0 % BSIZE != 0 ==> data * own0.Keys != {}
  }

  lemma AnchoredStep(own0: Owners, data: set<nat>, off0: nat, tot: nat, tot1: nat, a: nat)
    requires Anchored(own0, data, off0, tot) && (tot == 0 && off0 % BSIZE != 0 ==> a in own0)
    ensures Anchored(own0, data + {a}, off0, tot1)
  {
    if tot > 0 && off0 % BSIZE != 0 {
      var b :| b in data * own0.Keys;
      assert b in (data + {a}) * own0.Keys;
    } else if off0 % BSIZE != 0 {
      assert a in (data + {a}) * own0.Keys;
    }
  }

  // What the loop has logged when it has written tot bytes at off0
  ghost predicate Logging(base: seq<Block>, view: seq<Block>, log0: set<nat>, log1: set<nat>, own0: Owners,
                          own1: Owners, sb: Super, ip: Inode, data: set<nat>, off0: nat, tot: nat)
  {
    && Tracked(base, view, log1, sb) && Charged(log0, log1, own0, own1, sb, ip, data, Span(off0, tot))
    && Anchored(own0, data, off0, tot)
  }

  lemma LoggingStart(base: seq<Block>, view: seq<Block>, log0: set<nat>, own: Owners, sb: Super, ip: Inode, off0: nat)
    requires Tracked(base, view, log0, sb) && |ip.addrs| == NDIRECT + 1
    ensures Logging(base, view, log0, log0, own, own, sb, ip, {}, off0, 0)
  {
    PaidNothing(log0, own, sb, ip, {});
  }

  // ---- writei's loop ----------------------------------------------------------------------

  // The first tot bytes of src are in, and only inode i is affected. Inside the
  // old size nothing is allocated.
  ghost predicate Writing(v0: seq<Block>, in0: seq<Inode>, own0: Owners, v1: seq<Block>, in1: seq<Inode>, own1: Owners,
                          sb: Super, c: seq<Byte>, i: nat, off0: nat, src: seq<Byte>, tot: nat)
  {
    && i < |in0| == |in1| && off0 <= |c| == in0[i].size && tot <= |src|
    && Consistent(v1, in1, own1, sb) && OnlyAddrs(in0, in1, i) && Begins(v1, in1[i], Overwrite(c, off0, src, tot))
    && OthersKept(v0, own0, v1, own1, sb, i)
    && (off0 + tot <= in0[i].size ==> in1 == in0 && own1 == own0)
  }

  lemma WritingStart(view: seq<Block>, inodes: seq<Inode>, own: Owners, sb: Super, c: seq<Byte>, i: nat, off0: nat,
                     src: seq<Byte>)
    requires Consistent(view, inodes, own, sb) && i < |inodes| && off0 <= |c| == inodes[i].size
    requires Begins(view, inodes[i], c)
    ensures Writing(view, inodes, own, view, inodes, own, sb, c, i, off0, src, 0)
  {
    assert Overwrite(c, off0, src, 0) == c;
  }

  lemma WritingStep(v0: seq<Block>, in0: seq<Inode>, own0: Owners, v1: seq<Block>, in1: seq<Inode>, own1: Owners,
                    w2: seq<Block>, v2: seq<Block>, in2: seq<Inode>, own2: Owners,
                    sb: Super, c: seq<Byte>, i: nat, off0: nat, src: seq<Byte>, tot: nat, off: nat, tot1: nat, a: Uint)
    requires Writing(v0, in0, own0, v1, in1, own1, sb, c, i, off0, src, tot) && tot < tot1 <= |src|
    requires |in2| == |in1| && off == off0 + tot < MAXBYTES && Sized(in2)
    requires Bmapped(v1, in1, own1, w2, in2, own2, sb, i, off / BSIZE, a)
    requires Consistent(v2, in2, own2, sb) && Begins(v2, in2[i], Overwrite(c, off0, src, tot1))
    requires OthersKept(v1, own1, v2, own2, sb, i)
    ensures Writing(v0, in0, own0, v2, in2, own2, sb, c, i, off0, src, tot1)
  {
    OthersKeptBoth(v0, own0, v1, own1, v2, own2, sb, i);
    if off0 + tot1 <= in0[i].size {
      var w := Overwrite(c, off0, src, tot);
      assert ByteIs(v1, in1[i], off, w[off]);
    }
  }

  // Inside the old size the block is already there, and so is one that has been begun.
  lemma BlockThere(v0: seq<Block>, in0: seq<Inode>, own0: Owners, v1: seq<Block>, in1: seq<Inode>, own1: Owners,
                   sb: Super, c: seq<Byte>, i: nat, off0: nat, src: seq<Byte>, tot: nat, off: nat)
    requires Writing(v0, in0, own0, v1, in1, own1, sb, c, i, off0, src, tot) && off == off0 + tot
    ensures off < in0[i].size || off % BSIZE != 0 ==> MappedAt(v1, in1[i], off / BSIZE)
  {
    var w := Overwrite(c, off0, src, tot);
    if off < |w| {
      assert ByteIs(v1, in1[i], off, w[off]);
    } else if off % BSIZE != 0 {
      assert ByteIs(v1, in1[i], off - 1, w[off - 1]);
      assert (off - 1) / BSIZE == off / BSIZE;
    }
  }

  // bmap of a first block that has been begun
  lemma FirstBlock(v0: seq<Block>, in0: seq<Inode>, own0: Owners, v1: seq<Block>, in1: seq<Inode>, own1: Owners,
                   v2: seq<Block>, in2: seq<Inode>, own2: Owners, sb: Super, c: seq<Byte>, i: nat, off0: nat,
                   src: seq<Byte>, tot: nat, a: Uint)
    requires Writing(v0, in0, own0, v1, in1, own1, sb, c, i, off0, src, tot) && off0 + tot < MAXBYTES
    requires |in2| == |in1| && Sized(in2) && Bmapped(v1, in1, own1, v2, in2, own2, sb, i, (off0 + tot) / BSIZE, a)
    ensures tot == 0 && off0 % BSIZE != 0 ==> a in own0
  {
    if tot == 0 && off0 % BSIZE != 0 {
      BlockThere(v0, in0, own0, v1, in1, own1, sb, c, i, off0, src, tot, off0);
      FileBlockOwner(v1, in1, own1, sb, i, off0 / BSIZE);
    }
  }

  // What the turn has in the log when it has stored the block
  lemma LoggedTurn(v0: seq<Block>, in0: seq<Inode>, own0: Owners, v1: seq<Block>, in1: seq<Inode>, own1: Owners,
                   v2: seq<Block>, in2: seq<Inode>, own2: Owners, sb: Super, c: seq<Byte>, i: nat, off0: nat,
                   src: seq<Byte>, tot: nat, tot1: nat, a: Uint, log0: set<nat>, log1: set<nat>, log2: set<nat>,
                   data: set<nat>)
    requires Writing(v0, in0, own0, v1, in1, own1, sb, c, i, off0, src, tot) && off0 + tot < MAXBYTES
    requires |in2| == |in1| && Consistent(v2, in2, own2, sb)
    requires Bmapped(v1, in1, own1, v2, in2, own2, sb, i, (off0 + tot) / BSIZE, a)
    requires Charged(log0, log1, own0, own1, sb, in1[i], data, Span(off0, tot)) && Anchored(own0, data, off0, tot)
    requires log1 <= log2 && Paid(log1, log2, own1, own2, sb, in2[i], {a})
    requires Span(off0, tot1) == Span(off0, tot) + 1
    ensures Charged(log0, log2 + {a}, own0, own2, sb, in2[i], data + {a}, Span(off0, tot1))
    ensures Anchored(own0, data + {a}, off0, tot1)
  {
    IndirectKept(v1, in1, own1, v2, in2, own2, sb, i);
    ChargedStep(log0, log1, log2, own0, own1, own2, sb, in1[i], in2[i], data, a, Span(off0, tot), Span(off0, tot1));
    FirstBlock(v0, in0, own0, v1, in1, own1, v2, in2, own2, sb, c, i, off0, src, tot, a);
    AnchoredStep(own0, data, off0, tot, tot1, a);
  }

  // One turn of writei's loop: after bmap, and after the block is stored
  lemma TurnMapped(v1: seq<Block>, in1: seq<Inode>, own1: Owners, w2: seq<Block>, in2: seq<Inode>, own2: Owners,
                   sb: Super, c: seq<Byte>, i: nat, off0: nat, src: seq<Byte>, tot: nat, a: Uint)
    requires Consistent(v1, in1, own1, sb) && Consistent(w2, in2, own2, sb) && i < |in1| == |in2|
    requires off0 <= |c| && tot <= |src| && off0 + tot < MAXBYTES && Begins(v1, in1[i], Overwrite(c, off0, src, tot))
    requires Bmapped(v1, in1, own1, w2, in2, own2, sb, i, (off0 + tot) / BSIZE, a)
    ensures Begins(w2, in2[i], Overwrite(c, off0, src, tot))
    ensures Holds(w2[a], (off0 + tot) / BSIZE, Overwrite(c, off0, src, tot)) && sb.dataStart <= a < sb.size
  {
    var bn, w := (off0 + tot) / BSIZE, Overwrite(c, off0, src, tot);
    FileBlockOwner(w2, in2, own2, sb, i, bn);
    assert OwnerOk(w2, in2, own2, sb, a);
    BmapBegins(v1, in1, own1, w2, in2, own2, sb, i, bn, a, w);
    BeginsHolds(w2, in2[i], w, bn);
  }

  lemma TurnWritten(v0: seq<Block>, in0: seq<Inode>, own0: Owners, v1: seq<Block>, in1: seq<Inode>, own1: Owners,
                    w2: seq<Block>, v2: seq<Block>, in2: seq<Inode>, own2: Owners,
                    sb: Super, c: seq<Byte>, i: nat, off0: nat, src: seq<Byte>, tot: nat, off: nat, tot1: nat, a: Uint)
    requires Writing(v0, in0, own0, v1, in1, own1, sb, c, i, off0, src, tot) && tot < tot1 <= |src|
    requires off == off0 + tot < MAXBYTES && off % BSIZE + (tot1 - tot) <= BSIZE && Consistent(w2, in2, own2, sb)
    requires |in2| == |in1|
    requires Bmapped(v1, in1, own1, w2, in2, own2, sb, i, off / BSIZE, a)
    requires Begins(w2, in2[i], Overwrite(c, off0, src, tot)) && Holds(w2[a], off / BSIZE, Overwrite(c, off0, src, tot))
    requires v2 == w2[a := Patch(w2[a], off % BSIZE, src[tot..tot1])]
    ensures Writing(v0, in0, own0, v2, in2, own2, sb, c, i, off0, src, tot1)
  {
    assert Consistent(v2, in2, own2, sb) && OthersKept(v1, own1, v2, own2, sb, i)
      && Begins(v2, in2[i], Overwrite(c, off0, src, tot1)) by {
      PatchedBytes(c, off0, src, tot, off, tot1, w2[a]);
      WrittenBlock(v1, in1, own1, w2, in2, own2, sb, i, off / BSIZE, a, Patch(w2[a], off % BSIZE, src[tot..tot1]),
                   Overwrite(c, off0, src, tot), Overwrite(c, off0, src, tot1));
    }
    WritingStep(v0, in0, own0, v1, in1, own1, w2, v2, in2, own2, sb, c, i, off0, src, tot, off, tot1, a);
  }

  // ---- the size ---------------------------------------------------------------------------

  function SizeSet(inodes: seq<Inode>, i: nat, size: Uint): (r: seq<Inode>)
    requires i < |inodes|
  {
    inodes[i := inodes[i].(size := size)]
  }

  // On disk only inode i has changed, to ip.
  ghost predicate Saved(v0: seq<Block>, v1: seq<Block>, sb: Super, i: nat, ip: Inode) {
    && |v1| == |v0| && sb.Valid(|v0|) && i < sb.ninodes && OnDisk(v1, sb, i) == ip
    && (forall j | 0 <= j < sb.ninodes && j != i :: OnDisk(v1, sb, j) == OnDisk(v0, sb, j))
    && (forall b | 0 <= b < |v0| && b != sb.IBlock(i) :: v1[b] == v0[b])
  }

  lemma SavedByUpdate(v0: seq<Block>, sb: Super, i: nat, ip: Inode)
    requires sb.Valid(|v0|) && i < sb.ninodes && |ip.addrs| == NDIRECT + 1
    ensures Saved(v0, Updated(v0, sb, i, ip), sb, i, ip)
  {
    var v1 := Updated(v0, sb, i, ip);
    forall j | 0 <= j < sb.ninodes ensures OnDisk(v1, sb, j) == if j == i then ip else OnDisk(v0, sb, j) {
      OnDiskAfterUpdate(v0, sb, i, ip, j);
    }
  }

  lemma OthersStayTruncated(v0: seq<Block>, in0: seq<Inode>, own0: Owners, v1: seq<Block>, in1: seq<Inode>,
                            own1: Owners, sb: Super, i: nat)
    requires Consistent(v0, in0, own0, sb) && i < |in0| == |in1|
    requires OnlyAddrs(in0, in1, i) && BitsOnly(v0, v1, sb)
    ensures OthersSame(v0, in0, v1, in1, i)
  {
    forall j | 0 <= j < |in0| && j != i ensures in1[j] == in0[j] && SameFile(v0, v1, in0[j]) {
      forall b | b in own0 && own0[b].0 == j && b < |v0| ensures v1[b] == v0[b] {
        assert OwnerOk(v0, in0, own0, sb, b);
      }
      OtherFile(v0, in0, own0, sb, v1, j);
    }
  }

  lemma EmptiedInode(in0: seq<Inode>, in1: seq<Inode>, i: nat)
    requires i < |in0| == |in1| && OnlyAddrs(in0, in1, i) && |in1[i].addrs| == NDIRECT + 1
    requires forall s | 0 <= s <= NDIRECT :: in1[i].addrs[s] == 0
    ensures SizeSet(in1, i, 0) == in0[i := in0[i].(size := 0, addrs := NoAddrs())]
  {
    assert in1[i].addrs == NoAddrs();
  }

  // itrunc leaves every other inode on disk alone.
  lemma TruncatedSync(v0: seq<Block>, in0: seq<Inode>, v1: seq<Block>, v2: seq<Block>, in2: seq<Inode>, sb: Super,
                      i: nat)
    requires i < |in0| == |in2| <= sb.ninodes && sb.Valid(|v0|) && BitsOnly(v0, v1, sb)
    requires Saved(v1, v2, sb, i, in2[i])
    ensures SyncKept(v0, in0, v2, in2, sb, i)
  {
    forall j | 0 <= j < sb.ninodes ensures OnDisk(v1, sb, j) == OnDisk(v0, sb, j) {
      IBlockInRange(sb, j);
    }
  }

  // How much freeing inode i logs
  lemma FreedSize(view: seq<Block>, inodes: seq<Inode>, own: Owners, sb: Super, i: nat)
    requires Consistent(view, inodes, own, sb) && i < sb.ninodes
    ensures var bits := BitsOf(sb, Before(own, i, NSLOTS));
      |bits + {sb.IBlock(i)}| == |bits| + 1 <= sb.size / BPB + 2
  {
    var s := Before(own, i, NSLOTS);
    forall a | a in s ensures a < sb.size {
      assert OwnerOk(view, inodes, own, sb, a);
    }
    BitsBound(sb, |view|, s);
    IBlockInRange(sb, i);
  }

  // Ten blocks of a file, each with its bit in a bitmap block of its own
  function SpreadAddr(sb: Super, s: nat): (a: nat) {
    sb.dataStart + s * BPB
  }

  // On a disk with free blocks under ten bitmap blocks a file can have k such blocks.
  lemma {:induction false} SpreadFile(view: seq<Block>, sb: Super, k: nat)
    returns (v: seq<Block>, inodes: seq<Inode>, own: Owners)
    requires sb.Valid(|view|) && sb.ninodes > 0 && k <= 10 && SpreadAddr(sb, 9) < sb.size
    requires forall b | 0 <= b < sb.size :: Used(view, sb, b) <==> b < sb.dataStart
    ensures |v| == |view| && |inodes| == 1 && Consistent(v, inodes, own, sb)
    ensures forall s | 0 <= s <= NDIRECT :: inodes[0].addrs[s] == if s < k then SpreadAddr(sb, s) else 0
  {
    if k == 0 {
      FreshConsistent(view, sb, 1);
      v, inodes, own := view, seq(1, _ => NOINODE), map[];
    } else {
      v, inodes, own := SpreadFile(view, sb, k - 1);
      var a: Uint := SpreadAddr(sb, k - 1);
      SpreadFree(v, inodes, own, sb, k - 1, a);
      LinkInode(v, inodes, own, sb, 0, k - 1, a);
      v, inodes, own := Allocated(v, sb, a), SetSlot(inodes, 0, k - 1, a), own[a := (0, k - 1)];
    }
  }

  lemma SpreadFree(v: seq<Block>, inodes: seq<Inode>, own: Owners, sb: Super, k: nat, a: nat)
    requires Consistent(v, inodes, own, sb) && |inodes| == 1 && k < 10 && a == SpreadAddr(sb, k) < sb.size
    requires forall s | 0 <= s <= NDIRECT :: inodes[0].addrs[s] == if s < k then SpreadAddr(sb, s) else 0
    ensures !Used(v, sb, a)
  {
    assert BitOk(v, own, sb, a);
    forall b | b in own ensures b != a {
      assert OwnerOk(v, inodes, own, sb, b);
    }
  }

  // Freeing that file takes more than an operation's share of the log.
  lemma SpreadTooBig(view: seq<Block>, sb: Super) returns (v: seq<Block>, inodes: seq<Inode>, own: Owners)
    requires sb.Valid(|view|) && sb.ninodes > 0 && SpreadAddr(sb, 9) < sb.size
    requires forall b | 0 <= b < sb.size :: Used(view, sb, b) <==> b < sb.dataStart
    ensures |inodes| == 1 && Consistent(v, inodes, own, sb)
    ensures |BitsOf(sb, Before(own, 0, NSLOTS)) + {sb.IBlock(0)}| > MAXOPBLOCKS
  {
    v, inodes, own := SpreadFile(view, sb, 10);
    var bits := BitsOf(sb, Before(own, 0, NSLOTS));
    forall b | b in Interval(sb.BBlock(sb.dataStart), 10) ensures b in bits {
      var s := b - sb.BBlock(sb.dataStart);
      assert SlotOk(v, inodes, own, 0, s) && SlotAddr(v, inodes[0], s) == SpreadAddr(sb, s);
      assert SpreadAddr(sb, s) in Before(own, 0, NSLOTS) && sb.BBlock(SpreadAddr(sb, s)) == b;
    }
    IntervalSize(sb.BBlock(sb.dataStart), 10);
    SubsetSize(Interval(sb.BBlock(sb.dataStart), 10), bits);
    FreedSize(v, inodes, own, sb, 0);
  }

  // ---- what writei promises ------------------------------------------------------------------

  // src is in file i at off0; every other byte of every file is as before, and so is
  // every other inode. Inside the old size nothing is allocated. An inode that was
  // current on disk is current again.
  ghost predicate Wrote(v0: seq<Block>, in0: seq<Inode>, own0: Owners, v1: seq<Block>, in1: seq<Inode>, own1: Owners,
                        sb: Super, i: nat, off0: nat, src: seq<Byte>)
  {
    && i < |in0| == |in1| <= sb.ninodes && |in0[i].addrs| == |in1[i].addrs| == NDIRECT + 1 && off0 <= in0[i].size
    && Mapped(v0, in0[i], in0[i].size) && Mapped(v1, in1[i], in1[i].size)
    && Contents(v1, in1[i]) == Overwrite(Contents(v0, in0[i]), off0, src, |src|)
    && OthersSame(v0, in0, v1, in1, i) && own0.Keys <= own1.Keys && (forall b | b in own0 :: own1[b] == own0[b])
    && (off0 + |src| <= in0[i].size ==> in1 == in0 && own1 == own0)
    && in1[i] == in0[i].(size := in1[i].size, addrs := in1[i].addrs)
    && SyncKept(v0, in0, v1, in1, sb, i)
  }

  ghost predicate SyncKept(v0: seq<Block>, in0: seq<Inode>, v1: seq<Block>, in1: seq<Inode>, sb: Super, i: nat)
    requires i < |in0| == |in1| <= sb.ninodes
  {
    && |v1| == |v0| && sb.Valid(|v0|) && (OnDisk(v0, sb, i) == in0[i] ==> OnDisk(v1, sb, i) == in1[i])
    && (forall j | 0 <= j < sb.ninodes && j != i :: OnDisk(v1, sb, j) == OnDisk(v0, sb, j))
  }

  // The disk's inodes do not move while writei's loop runs.
  lemma WritingSync(v0: seq<Block>, in0: seq<Inode>, own0: Owners, v1: seq<Block>, in1: seq<Inode>, own1: Owners,
                    sb: Super, c: seq<Byte>, i: nat, off0: nat, src: seq<Byte>, tot: nat, j: nat)
    requires Writing(v0, in0, own0, v1, in1, own1, sb, c, i, off0, src, tot) && j < sb.ninodes
    ensures OnDisk(v1, sb, j) == OnDisk(v0, sb, j)
  {
    IBlockInRange(sb, j);
  }

  lemma WroteAll(v0: seq<Block>, in0: seq<Inode>, own0: Owners, v1: seq<Block>, in1: seq<Inode>, own1: Owners,
                 sb: Super, c: seq<Byte>, i: nat, off0: nat, src: seq<Byte>, v2: seq<Block>, in2: seq<Inode>)
    requires Consistent(v0, in0, own0, sb) && Writing(v0, in0, own0, v1, in1, own1, sb, c, i, off0, src, |src|)
    requires Mapped(v0, in0[i], in0[i].size) && c == Contents(v0, in0[i]) && off0 + |src| < U32
    requires if |src| > 0 && off0 + |src| > in1[i].size
      then in2 == SizeSet(in1, i, off0 + |src|) && Saved(v1, v2, sb, i, in2[i])
             else v2 == v1 && in2 == in1
    ensures Wrote(v0, in0, own0, v2, in2, own1, sb, i, off0, src)
  {
    OthersStay(v0, in0, own0, v1, in1, own1, sb, i);
    forall b | b in own0 ensures b in own1 && own1[b] == own0[b] {
      assert OtherAt(v0, own0, v1, own1, i, b);
    }
    forall j | 0 <= j < sb.ninodes ensures OnDisk(v1, sb, j) == OnDisk(v0, sb, j) {
      WritingSync(v0, in0, own0, v1, in1, own1, sb, c, i, off0, src, |src|, j);
    }
    var w := Overwrite(c, off0, src, |src|);
    if |src| > 0 && off0 + |src| > in1[i].size {
      IBlockInRange(sb, i);
      BeginsFrame(v1, in1, own1, sb, i, v2, in2[i], w);
      OthersStayUpdated(v0, in0, v1, in1, own1, sb, i, v2, in2);
    }
    BeginsContents(v2, in2[i], w);
  }

  // What was written is what a read of the same range gets.
  lemma ReadBack(v0: seq<Block>, in0: seq<Inode>, own0: Owners, v1: seq<Block>, in1: seq<Inode>, own1: Owners,
                 sb: Super, i: nat, off0: nat, src: seq<Byte>)
    requires Wrote(v0, in0, own0, v1, in1, own1, sb, i, off0, src)
    ensures off0 + |src| <= in1[i].size && Contents(v1, in1[i])[off0..off0 + |src|] == src
    ensures off0 + |src| <= in0[i].size ==> in1[i].size == in0[i].size
  {
    var w := Contents(v1, in1[i]);
    assert |w| == in1[i].size && |Contents(v0, in0[i])| == in0[i].size;
  }

  // ---- filewrite ----------------------------------------------------------------------------

  const CHUNK: nat := (MAXOPBLOCKS - 1 - 1 - 2) / 2 * 512

  // done bytes of addr have been written at off0; at an offset past the end nothing is.
  ghost predicate WroteSome(v0: seq<Block>, in0: seq<Inode>, own0: Owners, v1: seq<Block>, in1: seq<Inode>,
                            own1: Owners, sb: Super, i: nat, off0: nat, addr: seq<Byte>, done: nat)
  {
    && done <= |addr| && i < |in0|
    && if off0 <= in0[i].size then Wrote(v0, in0, own0, v1, in1, own1, sb, i, off0, addr[..done])
       else
         done == 0 && v1 == v0 && in1 == in0 && own1 == own0 && |in0[i].addrs| == NDIRECT + 1
         && Mapped(v0, in0[i], in0[i].size)
  }

  lemma WroteNothing(view: seq<Block>, inodes: seq<Inode>, own: Owners, sb: Super, i: nat, off0: nat, addr: seq<Byte>)
    requires Consistent(view, inodes, own, sb) && i < |inodes| && Mapped(view, inodes[i], inodes[i].size)
    ensures WroteSome(view, inodes, own, view, inodes, own, sb, i, off0, addr, 0)
  {
    if off0 <= inodes[i].size {
      var c := Contents(view, inodes[i]);
      assert Overwrite(c, off0, addr[..0], 0) == c;
    }
  }

  lemma WroteSomeSize(v0: seq<Block>, in0: seq<Inode>, own0: Owners, v1: seq<Block>, in1: seq<Inode>, own1: Owners,
                      sb: Super, i: nat, off0: nat, addr: seq<Byte>, done: nat)
    requires WroteSome(v0, in0, own0, v1, in1, own1, sb, i, off0, addr, done) && i < |in1|
    ensures |in1[i].addrs| == NDIRECT + 1 && Mapped(v1, in1[i], in1[i].size) && in1[i].size <= MAXBYTES
    ensures off0 <= in0[i].size <==> off0 + done <= in1[i].size
  {
    ContentsBegin(v1, in1[i]);
  }

  lemma WroteMore(v0: seq<Block>, in0: seq<Inode>, own0: Owners, v1: seq<Block>, in1: seq<Inode>, own1: Owners,
                  v2: seq<Block>, in2: seq<Inode>, own2: Owners, sb: Super, i: nat, off0: nat, addr: seq<Byte>,
                    done: nat, n: nat)
    requires WroteSome(v0, in0, own0, v1, in1, own1, sb, i, off0, addr, done) && done + n <= |addr|
    requires off0 <= in0[i].size && Wrote(v1, in1, own1, v2, in2, own2, sb, i, off0 + done, addr[done..done + n])
    ensures WroteSome(v0, in0, own0, v2, in2, own2, sb, i, off0, addr, done + n)
  {
    var c, a0, a1, a2 := Contents(v0, in0[i]), addr[..done], addr[done..done + n], addr[..done + n];
    assert Overwrite(Overwrite(c, off0, a0, done), off0 + done, a1, n) == Overwrite(c, off0, a2, done + n);
    forall j | 0 <= j < |in0| && j != i ensures in2[j] == in0[j] && SameFile(v0, v2, in0[j]) {
      assert in1[j] == in0[j] && SameFile(v0, v1, in0[j]) && SameFile(v1, v2, in1[j]);
    }
  }

  // The file system between operations
  datatype State = State(view: seq<Block>, inodes: seq<Inode>, own: Owners)

  // An operation that has ended: the blocks it logged and the state it left
  datatype Op = Op(logged: set<nat>, after: State)

  ghost predicate Synced(s: State, sb: Super) {
    && sb.Valid(|s.view|) && |s.inodes| <= sb.ninodes
    && forall j | 0 <= j < |s.inodes| :: OnDisk(s.view, sb, j) == s.inodes[j]
  }

  // The operation keeps the file system from state s on, and what it does is in its log.
  ghost predicate Operation(s: State, op: Op, sb: Super) {
    && Consistent(op.after.view, op.after.inodes, op.after.own, sb) && Tracked(s.view, op.after.view, op.logged, sb)
    && |op.after.inodes| == |s.inodes| && (Synced(s, sb) ==> Synced(op.after, sb))
  }

  lemma SyncedAfter(v0: seq<Block>, in0: seq<Inode>, v1: seq<Block>, in1: seq<Inode>, sb: Super, i: nat)
    requires i < |in0| == |in1| <= sb.ninodes
    requires (v1 == v0 && in1 == in0) || (OthersSame(v0, in0, v1, in1, i) && SyncKept(v0, in0, v1, in1, sb, i))
    ensures forall own: Owners, own1: Owners :: Synced(State(v0, in0, own), sb) ==> Synced(State(v1, in1, own1), sb)
  {
  }

  // What an operation with an iput does
  lemma PutKeeps(s0: State, op: Op, sb: Super, i: nat, freed: bool)
    requires i < |s0.inodes| == |op.after.inodes| && Consistent(s0.view, s0.inodes, s0.own, sb)
    requires Consistent(op.after.view, op.after.inodes, op.after.own, sb)
    requires Tracked(s0.view, op.after.view, op.logged, sb)
    requires if freed then OthersSame(s0.view, s0.inodes, op.after.view, op.after.inodes, i)
        && SyncKept(s0.view, s0.inodes, op.after.view, op.after.inodes, sb, i)
        && op.logged == {} + BitsOf(sb, Before(s0.own, i, NSLOTS)) + {sb.IBlock(i)}
      else op == Op({}, s0)
    ensures Operation(s0, op, sb)
    ensures freed ==> op.logged == BitsOf(sb, Before(s0.own, i, NSLOTS)) + {sb.IBlock(i)}
    ensures freed ==> (|op.logged| <= MAXOPBLOCKS <==> |BitsOf(sb, Before(s0.own, i, NSLOTS))| < MAXOPBLOCKS)
    ensures |op.logged| <= sb.size / BPB + 2
  {
    SyncedAfter(s0.view, s0.inodes, op.after.view, op.after.inodes, sb, i);
    FreedSize(s0.view, s0.inodes, s0.own, sb, i);
  }

  // The operation fits into its share of the log.
  ghost predicate Transaction(s: State, op: Op, sb: Super) {
    Operation(s, op, sb) && op.logged != {} && |op.logged| <= MAXOPBLOCKS
  }

  // The state before operation m
  function Preceding(s0: State, ops: seq<Op>, m: nat): (s: State)
    requires m <= |ops|
  {
    if m == 0 then s0 else ops[m - 1].after
  }

  // Consistent, with every inode on disk
  ghost predicate Settled(s: State, sb: Super) {
    Consistent(s.view, s.inodes, s.own, sb) && Synced(s, sb)
  }

  ghost predicate OpAt(s0: State, ops: seq<Op>, sb: Super, m: nat)
    requires m < |ops|
  {
    Operation(Preceding(s0, ops, m), ops[m], sb)
  }

  // ops have run one after the other, from s0 on.
  ghost predicate OpRun(s0: State, ops: seq<Op>, sb: Super) {
    Settled(s0, sb) && forall m | 0 <= m < |ops| :: OpAt(s0, ops, sb, m)
  }

  lemma OperationKeeps(s: State, op: Op, sb: Super)
    requires Operation(s, op, sb) && Settled(s, sb)
    ensures Settled(op.after, sb) && |op.after.view| == |s.view|
  {
  }

  lemma {:induction false} OpRunSettled(s0: State, ops: seq<Op>, sb: Super, m: nat)
    requires OpRun(s0, ops, sb) && m <= |ops|
    ensures Settled(Preceding(s0, ops, m), sb) && |Preceding(s0, ops, m).view| == |s0.view|
  {
    if m > 0 {
      OpRunSettled(s0, ops, sb, m - 1);
      assert OpAt(s0, ops, sb, m - 1);
      OperationKeeps(Preceding(s0, ops, m - 1), ops[m - 1], sb);
    }
  }

  lemma PrecedingMore(s0: State, ops: seq<Op>, news: seq<Op>, m: nat)
    requires m <= |ops| + |news|
    ensures Preceding(s0, ops + news, m) ==
      if m <= |ops| then Preceding(s0, ops, m) else Preceding(Preceding(s0, ops, |ops|), news, m - |ops|)
  {
  }

  lemma OpRunMore(s0: State, ops: seq<Op>, news: seq<Op>, sb: Super)
    requires OpRun(s0, ops, sb)
    requires forall m | 0 <= m < |news| :: OpAt(Preceding(s0, ops, |ops|), news, sb, m)
    ensures OpRun(s0, ops + news, sb)
    ensures Preceding(s0, ops + news, |ops + news|) == Preceding(Preceding(s0, ops, |ops|), news, |news|)
  {
    forall m | 0 <= m < |ops + news| ensures OpAt(s0, ops + news, sb, m) {
      PrecedingMore(s0, ops, news, m);
      if m < |ops| {
        assert OpAt(s0, ops, sb, m);
      } else {
        assert OpAt(Preceding(s0, ops, |ops|), news, sb, m - |ops|);
      }
    }
  }

  // The bytes that m chunks of n bytes hold
  function Done(n: nat, m: nat): (d: nat) {
    if m * CHUNK <= n then m * CHUNK else n
  }

  // Operation m is a transaction that has brought one more chunk into the file.
  ghost predicate FileOp(s0: State, ops: seq<Op>, sb: Super, i: nat, off0: nat, addr: seq<Byte>, m: nat)
    requires m < |ops|
  {
    && Transaction(Preceding(s0, ops, m), ops[m], sb) && i < |s0.inodes| && off0 <= s0.inodes[i].size
    && WroteSome(s0.view, s0.inodes, s0.own, ops[m].after.view, ops[m].after.inodes, ops[m].after.own, sb,
                 i, off0, addr, Done(|addr|, m + 1))
  }

  ghost predicate FileOps(s0: State, ops: seq<Op>, sb: Super, i: nat, off0: nat, addr: seq<Byte>) {
    forall m | 0 <= m < |ops| :: FileOp(s0, ops, sb, i, off0, addr, m)
  }

  lemma FileOpsRun(s0: State, ops: seq<Op>, news: seq<Op>, sb: Super, i: nat, off0: nat, addr: seq<Byte>)
    requires OpRun(s0, ops, sb) && FileOps(Preceding(s0, ops, |ops|), news, sb, i, off0, addr)
    ensures OpRun(s0, ops + news, sb)
    ensures Preceding(s0, ops + news, |ops + news|) == Preceding(Preceding(s0, ops, |ops|), news, |news|)
  {
    var s := Preceding(s0, ops, |ops|);
    forall m | 0 <= m < |news| ensures OpAt(s, news, sb, m) {
      assert FileOp(s, news, sb, i, off0, addr, m);
    }
    OpRunMore(s0, ops, news, sb);
  }

  lemma OneMoreOp(s0: State, ops: seq<Op>, op: Op, sb: Super)
    requires OpRun(s0, ops, sb) && Operation(Preceding(s0, ops, |ops|), op, sb)
    ensures OpRun(s0, ops + [op], sb) && Preceding(s0, ops + [op], |ops| + 1) == op.after
  {
    assert OpAt(Preceding(s0, ops, |ops|), [op], sb, 0);
    OpRunMore(s0, ops, [op], sb);
  }

  // An operation that does nothing
  lemma EmptyOp(s: State, sb: Super)
    requires Consistent(s.view, s.inodes, s.own, sb)
    ensures Operation(s, Op({}, s), sb)
  {
  }

  // The operations of a filewrite, with an empty one at the end if it gave up
  lemma FilewriteOps(s0: State, ops: seq<Op>, news: seq<Op>, gaveUp: bool, s: State, ops1: seq<Op>, sb: Super, i: nat,
                     off0: nat, addr: seq<Byte>)
    requires OpRun(s0, ops, sb) && FileOps(Preceding(s0, ops, |ops|), news, sb, i, off0, addr)
    requires gaveUp ==> Consistent(s.view, s.inodes, s.own, sb)
    requires gaveUp ==> s == Preceding(Preceding(s0, ops, |ops|), news, |news|)
    requires ops1 == ops + news + if gaveUp then [Op({}, s)] else []
    ensures OpRun(s0, ops1, sb)
    ensures Preceding(s0, ops1, |ops1|) == Preceding(Preceding(s0, ops, |ops|), news, |news|)
  {
    FileOpsRun(s0, ops, news, sb, i, off0, addr);
    if gaveUp {
      EmptyOp(s, sb);
      OneMoreOp(s0, ops + news, Op({}, s), sb);
    } else {
      assert ops1 == ops + news;
    }
  }

  ghost predicate Ready(s: State, sb: Super, i: nat) {
    && Consistent(s.view, s.inodes, s.own, sb) && i < |s.inodes|
    && Mapped(s.view, s.inodes[i], s.inodes[i].size)
  }

  // Where filewrite stands after the transactions ops
  ghost predicate Progress(s0: State, ops: seq<Op>, s: State, sb: Super, i: nat, off0: nat, addr: seq<Byte>) {
    && s == Preceding(s0, ops, |ops|) && FileOps(s0, ops, sb, i, off0, addr) && Ready(s0, sb, i) &&
        |s0.inodes| == |s.inodes|
    && (ops != [] ==> off0 <= s0.inodes[i].size && off0 + Done(|addr|, |ops|) <= MAXBYTES)
  }

  lemma FileOpsStep(s0: State, ops: seq<Op>, sb: Super, i: nat, off0: nat, addr: seq<Byte>, s: State, op: Op)
    requires FileOps(s0, ops, sb, i, off0, addr) && s == Preceding(s0, ops, |ops|) && Transaction(s, op, sb)
    requires i < |s0.inodes| && off0 <= s0.inodes[i].size
    requires WroteSome(s0.view, s0.inodes, s0.own, op.after.view, op.after.inodes, op.after.own, sb,
                       i, off0, addr, Done(|addr|, |ops| + 1))
    ensures FileOps(s0, ops + [op], sb, i, off0, addr)
  {
    forall m | 0 <= m < |ops| + 1 ensures FileOp(s0, ops + [op], sb, i, off0, addr, m) {
      if m < |ops| {
        assert FileOp(s0, ops, sb, i, off0, addr, m);
      }
    }
  }

  lemma ProgressSome(s0: State, ops: seq<Op>, s: State, sb: Super, i: nat, off0: nat, addr: seq<Byte>)
    requires Progress(s0, ops, s, sb, i, off0, addr)
    ensures WroteSome(s0.view, s0.inodes, s0.own, s.view, s.inodes, s.own, sb, i, off0, addr, Done(|addr|, |ops|))
  {
    if ops == [] {
      WroteNothing(s.view, s.inodes, s.own, sb, i, off0, addr);
    } else {
      assert FileOp(s0, ops, sb, i, off0, addr, |ops| - 1);
    }
  }

  lemma ProgressSize(s0: State, ops: seq<Op>, s: State, sb: Super, i: nat, off0: nat, addr: seq<Byte>)
    requires Progress(s0, ops, s, sb, i, off0, addr)
    ensures |s.inodes[i].addrs| == NDIRECT + 1 && Mapped(s.view, s.inodes[i], s.inodes[i].size)
    ensures off0 <= s0.inodes[i].size <==> off0 + Done(|addr|, |ops|) <= s.inodes[i].size
  {
    ProgressSome(s0, ops, s, sb, i, off0, addr);
    WroteSomeSize(s0.view, s0.inodes, s0.own, s.view, s.inodes, s.own, sb, i, off0, addr, Done(|addr|, |ops|));
  }

  lemma ProgressStep(s0: State, ops: seq<Op>, s: State, op: Op, sb: Super, i: nat, off0: nat, addr: seq<Byte>,
                     done: nat, n: nat)
    requires Progress(s0, ops, s, sb, i, off0, addr) && Transaction(s, op, sb)
    requires done == Done(|addr|, |ops|) && done + n == Done(|addr|, |ops| + 1)
    requires off0 <= s0.inodes[i].size && off0 + done + n <= MAXBYTES
    requires Wrote(s.view, s.inodes, s.own, op.after.view, op.after.inodes, op.after.own, sb, i, off0 + done,
      addr[done..done + n])
    ensures Progress(s0, ops + [op], op.after, sb, i, off0, addr)
  {
    var t := op.after;
    assert WroteSome(s0.view, s0.inodes, s0.own, t.view, t.inodes, t.own, sb, i, off0, addr, done + n) by {
      ProgressSome(s0, ops, s, sb, i, off0, addr);
      WroteMore(s0.view, s0.inodes, s0.own, s.view, s.inodes, s.own, t.view, t.inodes, t.own, sb, i, off0, addr, done,
        n);
    }
    FileOpsStep(s0, ops, sb, i, off0, addr, s, op);
  }

  // A transaction of filewrite logs the inode's block, the indirect block, at most four data
  // blocks, and bitmap blocks for those of them that are new. Four data blocks are only touched
  // if the first was there before, so that all of it fits in an operation's share of the log.
  lemma OpSize(logged: set<nat>, own0: Owners, own1: Owners, sb: Super, ip: Inode, inum: nat, data: set<nat>, off: nat,
               n: nat)
    requires Charged({} + {sb.IBlock(inum)}, logged, own0, own1, sb, ip, data, Span(off, n)) && 0 < n <= CHUNK
    requires Anchored(own0, data, off, n)
    ensures 0 < |logged| <= MAXOPBLOCKS
  {
    SpanBound(off, n);
    var news := own1.Keys - own0.Keys;
    NewBlocks(news, data, own0.Keys, Indirect(ip));
    BitsSize(sb, news);
    UnionSize(logged, {sb.IBlock(inum)}, Indirect(ip), data, BitsOf(sb, news));
  }

  lemma NewBlocks(news: set<nat>, data: set<nat>, had: set<nat>, ind: set<nat>)
    requires news <= data + ind && news !! had && |ind| <= 1
    ensures |news| <= |data| + 1 && (data * had != {} ==> |news| <= |data|)
  {
    SubsetSize(news, (data - had) + ind);
    assert data == (data - had) + data * had;
  }

  lemma UnionSize(all: set<nat>, a: set<nat>, b: set<nat>, c: set<nat>, d: set<nat>)
    requires all <= a + b + c + d
    ensures |all| <= |a| + |b| + |c| + |d|
  {
    SubsetSize(all, a + b + c + d);
  }

  lemma SpanBound(off: nat, n: nat)
    requires 0 < n <= CHUNK
    ensures 1 <= Span(off, n) <= 4 && (off % BSIZE == 0 ==> Span(off, n) <= 3)
  {
  }
}
