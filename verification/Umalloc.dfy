// umalloc.c: Kernighan and Ritchie's allocator. Addresses count Header-sized
// units; an allocated block at unit b is handed out as b + 1.
module Umalloc {
  import opened Util

  const U32: nat := 0x1_0000_0000
  const HEADER: nat := 8              // sizeof(Header)
  const NALLOC: nat := 4096           // least number of units asked of sbrk

  datatype Header = Header(ptr: nat, size: nat)
  type Mem = map<nat, Header>

  // The blocks at a and b, of n and m units, share no unit.
  predicate Apart(a: nat, n: nat, b: nat, m: nat) {
    a + n <= b || b + m <= a
  }

  // ---- the free list ---------------------------------------------------------------

  datatype Blk = Blk(at: nat, size: nat)

  // Blocks in address order with a gap between neighbours, except that the
  // blocks at k and k + 1 may touch. The first is the empty block base.
  ghost predicate Ordered(ring: seq<Blk>, k: int)
  {
    && |ring| > 0 && ring[0].size == 0 && (forall i | 1 <= i < |ring| :: ring[i].size > 0)
    && forall i, j | 0 <= i < j < |ring| ::
         ring[i].at + ring[i].size < ring[j].at || (i == k && j == k + 1 && ring[i].at + ring[i].size == ring[j].at)
  }

  // The headers in memory link the blocks of s to each other and the last to next.
  ghost predicate Seg(mem: Mem, s: seq<Blk>, next: nat)
  {
    forall i | 0 <= i < |s| :: Cell(mem, s, i, next)
  }

  ghost predicate Cell(mem: Mem, s: seq<Blk>, i: nat, next: nat)
    requires i < |s|
  {
    Linking(mem, s[i], After(s, i, next))
  }

  function After(s: seq<Blk>, i: nat, next: nat): (r: nat)
    requires i < |s|
  {
    if i + 1 < |s| then s[i+1].at else next
  }

  predicate Linking(mem: Mem, b: Blk, next: nat) {
    b.at in mem && mem[b.at] == Header(next, b.size)
  }

  // and into a circle
  ghost predicate Linked(mem: Mem, ring: seq<Blk>)
    requires |ring| > 0
  {
    Seg(mem, ring, ring[0].at)
  }

  lemma SegConcat(mem: Mem, a: seq<Blk>, b: seq<Blk>, next: nat)
    ensures Seg(mem, a + b, next) <==> Seg(mem, a, if b == [] then next else b[0].at) && Seg(mem, b, next)
  {
    var c := a + b;
    var mid := if b == [] then next else b[0].at;
    assert b == [] ==> c == a;
    forall i | 0 <= i < |a| ensures Cell(mem, c, i, next) <==> Cell(mem, a, i, mid) {
      assert c[i] == a[i] && After(c, i, next) == After(a, i, mid);
    }
    forall i | 0 <= i < |b| ensures Cell(mem, c, |a| + i, next) <==> Cell(mem, b, i, next) {
      assert c[|a| + i] == b[i] && After(c, |a| + i, next) == After(b, i, next);
    }
    if Seg(mem, a, mid) && Seg(mem, b, next) {
      forall i | 0 <= i < |c| ensures Cell(mem, c, i, next) {
        if i >= |a| {
          assert Cell(mem, b, i - |a|, next);
          assert Cell(mem, c, |a| + (i - |a|), next);
        } else {
          assert Cell(mem, a, i, mid);
        }
      }
    }
  }

  lemma SegOne(mem: Mem, b: Blk, next: nat)
    ensures Seg(mem, [b], next) <==> Linking(mem, b, next)
  {
    assert Cell(mem, [b], 0, next) <==> Linking(mem, b, next);
  }

  lemma SegSplit(mem: Mem, s: seq<Blk>, k: nat, next: nat)
    requires k < |s|
    ensures Seg(mem, s, next) <==>
      && Seg(mem, s[..k], s[k].at) && Seg(mem, s[k+1..], next)
      && Linking(mem, s[k], After(s, k, next))
  {
    assert s == s[..k] + ([s[k]] + s[k+1..]);
    SegConcat(mem, s[..k], [s[k]] + s[k+1..], next);
    SegConcat(mem, [s[k]], s[k+1..], next);
    SegOne(mem, s[k], After(s, k, next));
  }

  // Two memories with the same headers for the blocks of s
  ghost predicate Same(m: Mem, m1: Mem, s: seq<Blk>) {
    forall i | 0 <= i < |s| :: s[i].at in m && s[i].at in m1 && m1[s[i].at] == m[s[i].at]
  }

  lemma SameKeeps(m: Mem, m1: Mem, s: seq<Blk>, next: nat)
    requires Seg(m, s, next) && Same(m, m1, s)
    ensures Seg(m1, s, next)
  {
    forall i | 0 <= i < |s| ensures Cell(m1, s, i, next) {
      assert Cell(m, s, i, next);
    }
  }

  // Rewriting the middle of a list leaves a list if the middle is linked to both ends.
  lemma Splice(m: Mem, m1: Mem, a: seq<Blk>, mid: seq<Blk>, c: seq<Blk>, next: nat)
    requires mid != [] && Seg(m, a, mid[0].at) && Seg(m, c, next) && Same(m, m1, a) && Same(m, m1, c)
    requires Seg(m1, mid, if c == [] then next else c[0].at)
    ensures Seg(m1, a + mid + c, next)
  {
    SameKeeps(m, m1, a, mid[0].at);
    SameKeeps(m, m1, c, next);
    SegConcat(m1, mid, c, next);
    SegConcat(m1, a, mid + c, next);
    assert a + mid + c == a + (mid + c);
  }

  ghost predicate Canonical(mem: Mem, ring: seq<Blk>) {
    Ordered(ring, -1) && Linked(mem, ring)
  }

  // u lies in some free block
  ghost predicate FreeUnit(ring: seq<Blk>, u: nat) {
    exists i | 0 <= i < |ring| :: ring[i].at <= u < ring[i].at + ring[i].size
  }

  ghost predicate ApartFrom(ring: seq<Blk>, b: nat, n: nat) {
    forall i | 0 <= i < |ring| :: Apart(b, n, ring[i].at, ring[i].size)
  }

  // k is where free() puts bp: the last free block below it
  ghost predicate Slot(ring: seq<Blk>, k: nat, bp: nat) {
    k < |ring| && ring[k].at < bp && (k + 1 < |ring| ==> bp < ring[k+1].at)
  }

  lemma FindSlot(ring: seq<Blk>, bp: nat) returns (k: nat)
    requires Ordered(ring, -1) && bp > ring[0].at && forall i | 0 <= i < |ring| :: ring[i].at != bp
    ensures Slot(ring, k, bp)
  {
    k := 0;
    while k + 1 < |ring| && ring[k+1].at < bp
      invariant k < |ring| && ring[k].at < bp
    {
      k := k + 1;
    }
  }

  // ---- free() ---------------------------------------------------------------------------

  // The first conditional of free(): bp points past p, absorbing the next block
  // if it touches it.
  function JoinUpper(mem: Mem, p: nat, bp: nat): (r: Mem)
    requires p in mem && bp in mem && mem[p].ptr in mem
  {
    var q := mem[p].ptr;
    if bp + mem[bp].size == q then mem[bp := Header(mem[q].ptr, mem[bp].size + mem[q].size)]
    else mem[bp := mem[bp].(ptr := q)]
  }

  // The second conditional: p absorbs bp if they touch, or points to it.
  function JoinLower(mem: Mem, p: nat, bp: nat): (r: Mem)
    requires p in mem && bp in mem
  {
    if p + mem[p].size == bp then mem[p := Header(mem[bp].ptr, mem[p].size + mem[bp].size)]
    else mem[p := mem[p].(ptr := bp)]
  }

  predicate Touches(ring: seq<Blk>, k: nat, bp: nat, n: nat) {
    k + 1 < |ring| && bp + n == ring[k+1].at
  }

  // The list after the first conditional, with bp linked in
  function UpperRing(ring: seq<Blk>, k: nat, bp: nat, n: nat): (r: seq<Blk>)
    requires k < |ring|
  {
    if Touches(ring, k, bp, n) then ring[..k+1] + [Blk(bp, n + ring[k+1].size)] + ring[k+2..]
    else ring[..k+1] + [Blk(bp, n)] + ring[k+1..]
  }

  // The list after the second conditional
  function LowerRing(ring: seq<Blk>, k: nat): (r: seq<Blk>)
    requires k + 1 < |ring|
  {
    if ring[k].at + ring[k].size == ring[k+1].at
    then ring[..k] + [Blk(ring[k].at, ring[k].size + ring[k+1].size)] + ring[k+2..]
    else ring
  }

  lemma UpperOrdered(ring: seq<Blk>, k: nat, bp: nat, n: nat)
    requires Ordered(ring, -1) && Slot(ring, k, bp) && n > 0 && ApartFrom(ring, bp, n)
    ensures Ordered(UpperRing(ring, k, bp, n), k)
  {
    var r := UpperRing(ring, k, bp, n);
    assert ring[k].at + ring[k].size <= bp;
    UpperCells(ring, k, bp, n);
    forall i, j | 0 <= i < j < |r|
      ensures r[i].at + r[i].size < r[j].at || (i == k && j == k + 1 && r[i].at + r[i].size == r[j].at)
    {
      if k + 1 < |ring| && k + 1 < j {
        assert bp + n <= ring[k+1].at;
      }
    }
  }

  // The cells of the list after the first conditional
  lemma UpperCells(ring: seq<Blk>, k: nat, bp: nat, n: nat)
    requires k < |ring|
    ensures var r, d := UpperRing(ring, k, bp, n), if Touches(ring, k, bp, n) then 0 else 1;
      && |r| == |ring| + d && r[k+1] == Blk(bp, n + if d == 0 then ring[k+1].size else 0)
      && (forall i | 0 <= i <= k :: r[i] == ring[i]) && (forall i | k + 2 <= i < |r| :: r[i] == ring[i - d])
  {
    if Touches(ring, k, bp, n) {
      Spliced(ring[..k+1], Blk(bp, n + ring[k+1].size), ring[k+2..]);
    } else {
      Spliced(ring[..k+1], Blk(bp, n), ring[k+1..]);
    }
  }

  lemma Spliced(a: seq<Blk>, x: Blk, b: seq<Blk>)
    ensures var r := a + [x] + b; |r| == |a| + 1 + |b| && r[|a|] == x
    ensures forall i | 0 <= i < |a| :: (a + [x] + b)[i] == a[i]
    ensures forall i | |a| < i < |a| + 1 + |b| :: (a + [x] + b)[i] == b[i - |a| - 1]
  {
  }

  ghost predicate Avoids(s: seq<Blk>, a: nat) {
    forall i | 0 <= i < |s| :: s[i].at != a
  }

  // Linking bp in after block k, in front of s, leaves a list.
  lemma LinkIn(mem: Mem, m1: Mem, ring: seq<Blk>, k: nat, b: Blk, s: seq<Blk>, next: nat)
    requires k < |ring| && Ordered(ring, -1) && Seg(mem, ring, next) && Seg(mem, s, next)
    requires Avoids(s, ring[k].at) && Avoids(ring, b.at) && Avoids(s, b.at)
    requires m1.Keys == mem.Keys && forall a :: a in mem && a != ring[k].at && a != b.at ==> m1[a] == mem[a]
    requires Linking(m1, ring[k], b.at) && Linking(m1, b, if s == [] then next else s[0].at)
    ensures Seg(m1, ring[..k+1] + [b] + s, next)
  {
    SegSplit(mem, ring, k, next);
    var mid := [ring[k], b];
    assert Same(mem, m1, ring[..k]) by {
      forall i | 0 <= i < k ensures ring[..k][i].at in mem && m1[ring[i].at] == mem[ring[i].at] {
        assert Cell(mem, ring[..k], i, ring[k].at);
      }
    }
    assert Same(mem, m1, s) by {
      forall i | 0 <= i < |s| ensures s[i].at in mem && m1[s[i].at] == mem[s[i].at] {
        assert Cell(mem, s, i, next);
      }
    }
    Splice(mem, m1, ring[..k], mid, s, next);
    assert ring[..k] + mid + s == ring[..k+1] + [b] + s;
  }

  ghost predicate Insertable(mem: Mem, ring: seq<Blk>, k: nat, bp: nat) {
    && Canonical(mem, ring) && Slot(ring, k, bp) && bp in mem && mem[bp].size > 0
    && Avoids(ring, bp)
  }

  lemma Neighbours(mem: Mem, ring: seq<Blk>, k: nat, bp: nat)
    requires Insertable(mem, ring, k, bp)
    ensures var h := ring[0].at;
      && Linking(mem, ring[k], After(ring, k, h)) && After(ring, k, h) in mem
      && (k + 1 < |ring| ==> Linking(mem, ring[k+1], After(ring, k + 1, h)))
      && (Touches(ring, k, bp, mem[bp].size) <==> bp + mem[bp].size == After(ring, k, h))
  {
    assert Cell(mem, ring, Next(k, |ring|), ring[0].at);
    assert Cell(mem, ring, k, ring[0].at);
    assert ring[0].at <= ring[k].at;
  }

  function Next(i: nat, n: nat): (r: nat) {
    if i + 1 < n then i + 1 else 0
  }

  lemma TailLinked(mem: Mem, ring: seq<Blk>, k: nat, j: nat, bp: nat)
    requires Canonical(mem, ring) && k < j <= |ring| && Avoids(ring, bp)
    ensures Seg(mem, ring[j..], ring[0].at) && Avoids(ring[j..], ring[k].at) && Avoids(ring[j..], bp)
  {
    SegSplit(mem, ring, j - 1, ring[0].at);
  }

  lemma UpperPlain(mem: Mem, ring: seq<Blk>, k: nat, bp: nat)
    requires Insertable(mem, ring, k, bp) && ring[k].at in mem && !Touches(ring, k, bp, mem[bp].size)
    ensures var m := mem[bp := Header(After(ring, k, ring[0].at), mem[bp].size)];
      Linked(m[ring[k].at := m[ring[k].at].(ptr := bp)], UpperRing(ring, k, bp, mem[bp].size))
  {
    Neighbours(mem, ring, k, bp);
    TailLinked(mem, ring, k, k + 1, bp);
    var m := mem[bp := Header(After(ring, k, ring[0].at), mem[bp].size)];
    LinkIn(mem, m[ring[k].at := m[ring[k].at].(ptr := bp)], ring, k, Blk(bp, mem[bp].size), ring[k+1..], ring[0].at);
  }

  lemma UpperTouching(mem: Mem, ring: seq<Blk>, k: nat, bp: nat)
    requires Insertable(mem, ring, k, bp) && ring[k].at in mem && Touches(ring, k, bp, mem[bp].size)
    ensures var m := mem[bp := Header(After(ring, k + 1, ring[0].at), mem[bp].size + ring[k+1].size)];
      Linked(m[ring[k].at := m[ring[k].at].(ptr := bp)], UpperRing(ring, k, bp, mem[bp].size))
  {
    Neighbours(mem, ring, k, bp);
    TailLinked(mem, ring, k, k + 2, bp);
    var m := mem[bp := Header(After(ring, k + 1, ring[0].at), mem[bp].size + ring[k+1].size)];
    LinkIn(mem, m[ring[k].at := m[ring[k].at].(ptr := bp)], ring, k, Blk(bp, mem[bp].size + ring[k+1].size),
      ring[k+2..], ring[0].at);
  }

  lemma UpperLinked(mem: Mem, ring: seq<Blk>, k: nat, bp: nat)
    requires Insertable(mem, ring, k, bp)
    ensures Linking(mem, ring[k], After(ring, k, ring[0].at)) && mem[ring[k].at].ptr in mem
    ensures var m := JoinUpper(mem, ring[k].at, bp);
      Linked(m[ring[k].at := m[ring[k].at].(ptr := bp)], UpperRing(ring, k, bp, mem[bp].size))
  {
    Neighbours(mem, ring, k, bp);
    if Touches(ring, k, bp, mem[bp].size) {
      UpperTouching(mem, ring, k, bp);
    } else {
      UpperPlain(mem, ring, k, bp);
    }
  }

  lemma LowerOrdered(ring: seq<Blk>, k: nat)
    requires Ordered(ring, k) && k + 1 < |ring| && ring[k+1].at > ring[0].at
    requires k == 0 ==> ring[0].at + ring[0].size < ring[1].at
    ensures Ordered(LowerRing(ring, k), -1)
  {
    var r := LowerRing(ring, k);
    if r != ring {
      assert forall i | 0 <= i < |r| && i != k :: r[i] == ring[if i < k then i else i + 1];
    }
  }

  lemma LowerLinked(mem: Mem, ring: seq<Blk>, k: nat)
    requires Ordered(ring, k) && k + 1 < |ring| && ring[k+1].at > ring[k].at
    requires ring[k].at in mem && Linked(mem[ring[k].at := mem[ring[k].at].(ptr := ring[k+1].at)], ring)
    ensures ring[k+1].at in mem && Linked(JoinLower(mem, ring[k].at, ring[k+1].at), LowerRing(ring, k))
  {
    var p, q, h := ring[k].at, ring[k+1].at, ring[0].at;
    var m0 := mem[p := mem[p].(ptr := q)];
    assert Cell(m0, ring, k + 1, h) && Cell(m0, ring, k, h);
    if p + ring[k].size == q {
      var mid := [Blk(p, ring[k].size + ring[k+1].size)];
      SegSplit(m0, ring, k + 1, h);
      SegSplit(m0, ring, k, h);
      SegOne(JoinLower(mem, p, q), mid[0], After(ring, k + 1, h));
      OrderedAvoids(ring, k, k, k + 2);
      SameSeg(m0, JoinLower(mem, p, q), ring[..k], p, p);
      SameSeg(m0, JoinLower(mem, p, q), ring[k+2..], h, p);
      Splice(m0, JoinLower(mem, p, q), ring[..k], mid, ring[k+2..], h);
    }
  }

  lemma UpperUnits(ring: seq<Blk>, k: nat, bp: nat, n: nat, u: nat)
    requires Slot(ring, k, bp)
    ensures FreeUnit(UpperRing(ring, k, bp, n), u) <==> FreeUnit(ring, u) || bp <= u < bp + n
  {
    var r := UpperRing(ring, k, bp, n);
    var d := if Touches(ring, k, bp, n) then 0 else 1;
    assert r[k+1].at == bp;
    forall i | 0 <= i < |ring| && ring[i].at <= u < ring[i].at + ring[i].size ensures FreeUnit(r, u) {
      if i <= k {
        assert r[i] == ring[i];
      } else if i > k + 1 || d == 1 {
        assert r[i + d] == ring[i];
      }
    }
    forall i | 0 <= i < |r| && r[i].at <= u < r[i].at + r[i].size ensures FreeUnit(ring, u) || bp <= u < bp + n {
      if i <= k {
        assert r[i] == ring[i];
      } else if i > k + 1 {
        assert r[i] == ring[i - d];
      } else if u >= bp + n {
        assert ring[k+1].at <= u;
      }
    }
  }

  lemma LowerUnits(ring: seq<Blk>, k: nat, u: nat)
    requires k + 1 < |ring|
    ensures FreeUnit(LowerRing(ring, k), u) <==> FreeUnit(ring, u)
  {
    var r := LowerRing(ring, k);
    if r != ring {
      forall i | 0 <= i < |ring| && ring[i].at <= u < ring[i].at + ring[i].size ensures FreeUnit(r, u) {
        assert i < k || i > k + 1 ==> r[if i < k then i else i - 1] == ring[i];
        assert i == k || i == k + 1 ==> r[k].at <= u < r[k].at + r[k].size;
      }
      forall i | 0 <= i < |r| && r[i].at <= u < r[i].at + r[i].size ensures FreeUnit(ring, u) {
        if i == k {
          assert ring[if u < ring[k].at + ring[k].size then k else k + 1].at <= u;
        } else {
          assert r[i] == ring[if i < k then i else i + 1];
        }
      }
    }
  }

  // ---- malloc() ---------------------------------------------------------------------------

  // Unlinking block i whole
  function Without(ring: seq<Blk>, i: nat): (r: seq<Blk>)
    requires i < |ring|
  {
    ring[..i] + ring[i+1..]
  }

  lemma WithoutOrdered(ring: seq<Blk>, i: nat)
    requires Ordered(ring, -1) && 1 <= i < |ring|
    ensures Ordered(Without(ring, i), -1)
  {
    assert forall j | 0 <= j < |ring| - 1 :: Without(ring, i)[j] == ring[if j < i then j else j + 1];
  }

  lemma SegSlices(mem: Mem, ring: seq<Blk>, i: nat, j: nat, next: nat)
    requires Seg(mem, ring, next) && i < |ring| && j <= |ring|
    ensures Seg(mem, ring[..i], ring[i].at) && Seg(mem, ring[j..], next)
  {
    forall k | 0 <= k < i ensures Cell(mem, ring[..i], k, ring[i].at) {
      assert Cell(mem, ring, k, next);
    }
    forall k | 0 <= k < |ring| - j ensures Cell(mem, ring[j..], k, next) {
      assert Cell(mem, ring, j + k, next);
    }
  }

  // A list not through x does not notice a change at x.
  lemma SameSeg(mem: Mem, m: Mem, s: seq<Blk>, next: nat, x: nat)
    requires Seg(mem, s, next) && Avoids(s, x)
    requires mem.Keys <= m.Keys && forall a :: a in mem && a != x ==> m[a] == mem[a]
    ensures Same(mem, m, s)
  {
    forall i | 0 <= i < |s| ensures s[i].at in mem && m[s[i].at] == mem[s[i].at] {
      assert Cell(mem, s, i, next);
    }
  }

  // Blocks i to j - 1 give way to one block at the same address, where memory changes.
  lemma Rewrite(mem: Mem, m: Mem, ring: seq<Blk>, i: nat, j: nat, b: Blk, next: nat)
    requires i < j <= |ring| && Seg(mem, ring, next) && b.at == ring[i].at
    requires Avoids(ring[..i], b.at) && Avoids(ring[j..], b.at)
    requires mem.Keys <= m.Keys && forall a :: a in mem && a != b.at ==> m[a] == mem[a]
    requires Linking(m, b, After(ring, j - 1, next))
    ensures Seg(m, ring[..i] + [b] + ring[j..], next)
  {
    SegSlices(mem, ring, i, j, next);
    SameSeg(mem, m, ring[..i], b.at, b.at);
    SameSeg(mem, m, ring[j..], next, b.at);
    Splice(mem, m, ring[..i], [b], ring[j..], next);
  }

  lemma OrderedAvoids(ring: seq<Blk>, k: int, i: nat, j: nat)
    requires Ordered(ring, k) && i < j <= |ring| && (k == -1 || (k == i && j == i + 2))
    ensures Avoids(ring[..i], ring[i].at) && Avoids(ring[j..], ring[i].at)
  {
  }

  lemma WithoutLinked(mem: Mem, m: Mem, ring: seq<Blk>, i: nat)
    requires Canonical(mem, ring) && 1 <= i < |ring|
    requires Linking(m, ring[i-1], After(ring, i, ring[0].at))
    requires m.Keys == mem.Keys && forall a :: a in mem && a != ring[i-1].at ==> m[a] == mem[a]
    ensures Linked(m, Without(ring, i))
  {
    OrderedAvoids(ring, -1, i - 1, i + 1);
    Rewrite(mem, m, ring, i - 1, i + 1, ring[i-1], ring[0].at);
    assert ring[..i-1] + [ring[i-1]] + ring[i+1..] == Without(ring, i);
  }

  lemma TakenWhole(mem: Mem, ring: seq<Blk>, i: nat)
    requires Canonical(mem, ring) && 1 <= i < |ring|
    ensures Linking(mem, ring[i-1], ring[i].at) && Linking(mem, ring[i], After(ring, i, ring[0].at))
    ensures Canonical(mem[ring[i-1].at := mem[ring[i-1].at].(ptr := mem[ring[i].at].ptr)], Without(ring, i))
  {
    assert Cell(mem, ring, i - 1, ring[0].at) && Cell(mem, ring, i, ring[0].at);
    WithoutOrdered(ring, i);
    WithoutLinked(mem, mem[ring[i-1].at := mem[ring[i-1].at].(ptr := mem[ring[i].at].ptr)], ring, i);
  }

  lemma WithoutUnits(ring: seq<Blk>, i: nat, u: nat)
    requires Ordered(ring, -1) && i < |ring|
    ensures FreeUnit(Without(ring, i), u) <==> FreeUnit(ring, u) && !(ring[i].at <= u < ring[i].at + ring[i].size)
  {
    var r := Without(ring, i);
    forall j | 0 <= j < |r| ensures r[j] == ring[if j < i then j else j + 1] {
    }
    forall j | 0 <= j < |ring| && j != i ensures ring[j] == r[if j < i then j else j - 1] {
    }
  }

  // Cutting n units off the end of block i
  function Shrunk(ring: seq<Blk>, i: nat, n: nat): (r: seq<Blk>)
    requires i < |ring| && n < ring[i].size
  {
    ring[i := Blk(ring[i].at, ring[i].size - n)]
  }

  lemma ShrunkOrdered(ring: seq<Blk>, i: nat, n: nat)
    requires Ordered(ring, -1) && 1 <= i < |ring| && 0 < n < ring[i].size
    ensures Ordered(Shrunk(ring, i, n), -1)
  {
  }

  lemma ShrunkLinked(mem: Mem, ring: seq<Blk>, i: nat, n: nat)
    requires Canonical(mem, ring) && 1 <= i < |ring| && 0 < n < ring[i].size && ring[i].at in mem
    ensures Linking(mem, ring[i], After(ring, i, ring[0].at))
    ensures Linked(mem[ring[i].at := mem[ring[i].at].(size := ring[i].size - n)], Shrunk(ring, i, n))
  {
    var h, b, p := ring[0].at, Blk(ring[i].at, ring[i].size - n), ring[i].at;
    assert Cell(mem, ring, i, h);
    OrderedAvoids(ring, -1, i, i + 1);
    Rewrite(mem, mem[p := mem[p].(size := b.size)], ring, i, i + 1, b, h);
    assert ring[..i] + [b] + ring[i+1..] == Shrunk(ring, i, n);
  }

  lemma TakenTail(mem: Mem, ring: seq<Blk>, i: nat, n: nat, b: nat, hd: Header)
    requires Canonical(mem, ring) && 1 <= i < |ring| && 0 < n < ring[i].size && b == ring[i].at + ring[i].size - n
    ensures Linking(mem, ring[i], After(ring, i, ring[0].at))
    ensures var p := ring[i].at;
      Canonical(mem[p := mem[p].(size := mem[p].size - n)][b := hd], Shrunk(ring, i, n))
  {
    assert Cell(mem, ring, i, ring[0].at);
    var m := mem[ring[i].at := mem[ring[i].at].(size := ring[i].size - n)];
    ShrunkLinked(mem, ring, i, n);
    ShrunkOrdered(ring, i, n);
    ShrunkAvoids(ring, i, n);
    SameSeg(m, m[b := hd], Shrunk(ring, i, n), ring[0].at, b);
    SameKeeps(m, m[b := hd], Shrunk(ring, i, n), ring[0].at);
  }

  lemma ShrunkAvoids(ring: seq<Blk>, i: nat, n: nat)
    requires Ordered(ring, -1) && 1 <= i < |ring| && 0 < n < ring[i].size
    ensures Avoids(Shrunk(ring, i, n), ring[i].at + ring[i].size - n)
  {
  }

  lemma ShrunkUnits(ring: seq<Blk>, i: nat, n: nat, u: nat)
    requires Ordered(ring, -1) && i < |ring| && n < ring[i].size
    ensures var b := ring[i].at + ring[i].size - n;
      FreeUnit(Shrunk(ring, i, n), u) <==> FreeUnit(ring, u) && !(b <= u < b + n)
  {
    var r := Shrunk(ring, i, n);
    assert forall j | 0 <= j < |ring| && j != i :: r[j] == ring[j];
  }

  // ---- the whole heap -----------------------------------------------------------------------

  ghost predicate UsedUnit(alloc: map<nat, nat>, u: nat) {
    exists b :: b in alloc && b <= u < b + alloc[b]
  }

  ghost predicate AllocOk(mem: Mem, ring: seq<Blk>, alloc: map<nat, nat>, brk: nat)
    requires |ring| > 0
  {
    && (forall b :: b in alloc ==>
          b in mem && mem[b].size == alloc[b] > 0 && ring[0].at < b && b + alloc[b] <= brk &&
            ApartFrom(ring, b, alloc[b]))
    && (forall b, c :: b in alloc && c in alloc && b != c ==> Apart(b, alloc[b], c, alloc[c]))
  }

  ghost predicate Bounded(ring: seq<Blk>, brk: nat) {
    forall i | 0 <= i < |ring| :: ring[i].at + ring[i].size <= brk
  }

  ghost predicate Partition(ring: seq<Blk>, alloc: map<nat, nat>, obtained: set<nat>) {
    forall u: nat :: u in obtained <==> FreeUnit(ring, u) || UsedUnit(alloc, u)
  }

  // Free and allocated blocks are disjoint and together are exactly what sbrk gave.
  ghost predicate Sound(mem: Mem, ring: seq<Blk>, alloc: map<nat, nat>, obtained: set<nat>, brk: nat)
  {
    && Canonical(mem, ring) && AllocOk(mem, ring, alloc, brk) && Bounded(ring, brk) && ring[0].at < brk
    && Partition(ring, alloc, obtained)
  }

  // One more allocated block, when the others are untouched
  lemma AddAlloc(mem: Mem, m: Mem, ring: seq<Blk>, r: seq<Blk>, alloc: map<nat, nat>, brk: nat, b: nat, n: nat)
    requires |ring| > 0 && |r| > 0 && r[0].at == ring[0].at && AllocOk(mem, ring, alloc, brk)
    requires forall c :: c in alloc ==>
      c in m && m[c] == mem[c] && ApartFrom(r, c, alloc[c]) && Apart(c, alloc[c], b, n)
    requires b in m && m[b].size == n > 0 && ring[0].at < b && b + n <= brk && ApartFrom(r, b, n)
    ensures AllocOk(m, r, alloc[b := n], brk) && b !in alloc
  {
    assert b in alloc ==> Apart(b, alloc[b], b, n);
  }

  lemma UpperApart(ring: seq<Blk>, k: nat, b: nat, n: nat, c: nat, m: nat)
    requires k < |ring| && ApartFrom(ring, c, m) && Apart(c, m, b, n) && m > 0
    ensures ApartFrom(UpperRing(ring, k, b, n), c, m)
  {
    var r := UpperRing(ring, k, b, n);
    var d := if Touches(ring, k, b, n) then 0 else 1;
    forall i | 0 <= i < |r| ensures Apart(c, m, r[i].at, r[i].size) {
      if i == k + 1 {
        assert d == 0 ==> Apart(c, m, ring[k+1].at, ring[k+1].size);
      } else {
        assert r[i] == ring[if i <= k then i else i - d];
      }
    }
  }

  lemma LowerApart(ring: seq<Blk>, k: nat, c: nat, m: nat)
    requires k + 1 < |ring| && ApartFrom(ring, c, m) && m > 0
    ensures ApartFrom(LowerRing(ring, k), c, m)
  {
    var r := LowerRing(ring, k);
    if r != ring {
      forall i | 0 <= i < |r| ensures Apart(c, m, r[i].at, r[i].size) {
        assert Apart(c, m, ring[k].at, ring[k].size) && Apart(c, m, ring[k+1].at, ring[k+1].size);
        assert i != k ==> r[i] == ring[if i < k then i else i + 1];
      }
    }
  }

  // free() as a whole
  function FreeMem(mem: Mem, p: nat, bp: nat): (r: Mem)
    requires p in mem && bp in mem && mem[p].ptr in mem
  {
    JoinLower(JoinUpper(mem, p, bp), p, bp)
  }

  function FreeRing(ring: seq<Blk>, k: nat, bp: nat, n: nat): (r: seq<Blk>)
    requires k < |ring|
  {
    LowerRing(UpperRing(ring, k, bp, n), k)
  }

  lemma FreedCanonical(mem: Mem, ring: seq<Blk>, k: nat, bp: nat)
    requires Insertable(mem, ring, k, bp) && ApartFrom(ring, bp, mem[bp].size)
    ensures ring[k].at in mem && mem[ring[k].at].ptr in mem
    ensures Canonical(FreeMem(mem, ring[k].at, bp), FreeRing(ring, k, bp, mem[bp].size))
  {
    var n := mem[bp].size;
    UpperLinked(mem, ring, k, bp);
    UpperOrdered(ring, k, bp, n);
    var u := UpperRing(ring, k, bp, n);
    assert u[k] == ring[k] && u[k+1].at == bp && u[0] == ring[0];
    LowerLinked(JoinUpper(mem, ring[k].at, bp), u, k);
    LowerOrdered(u, k);
  }

  lemma UsedWithout(alloc: map<nat, nat>, b: nat, u: nat)
    requires b in alloc
    ensures UsedUnit(alloc, u) <==> UsedUnit(alloc - {b}, u) || b <= u < b + alloc[b]
  {
    forall c | c in alloc && c <= u < c + alloc[c] ensures UsedUnit(alloc - {b}, u) || c == b {
      assert c != b ==> c in alloc - {b};
    }
    forall c | c in alloc - {b} && c <= u < c + (alloc - {b})[c] ensures UsedUnit(alloc, u) {
      assert c in alloc;
    }
  }

  lemma FreedUnits(ring: seq<Blk>, alloc: map<nat, nat>, k: nat, bp: nat, u: nat)
    requires bp in alloc && Slot(ring, k, bp)
    ensures FreeUnit(FreeRing(ring, k, bp, alloc[bp]), u) <==> FreeUnit(ring, u) || bp <= u < bp + alloc[bp]
    ensures FreeUnit(FreeRing(ring, k, bp, alloc[bp]), u) || UsedUnit(alloc - {bp}, u) <==>
      FreeUnit(ring, u) || UsedUnit(alloc, u)
  {
    UpperUnits(ring, k, bp, alloc[bp], u);
    LowerUnits(UpperRing(ring, k, bp, alloc[bp]), k, u);
    UsedWithout(alloc, bp, u);
  }

  lemma FreedBound(ring: seq<Blk>, k: nat, bp: nat, n: nat, brk: nat)
    requires k < |ring| && bp + n <= brk && forall i | 0 <= i < |ring| :: ring[i].at + ring[i].size <= brk
    ensures var r := FreeRing(ring, k, bp, n);
      (forall i | 0 <= i < |r| :: r[i].at + r[i].size <= brk) && r[0].at == ring[0].at
  {
    var u, r := UpperRing(ring, k, bp, n), FreeRing(ring, k, bp, n);
    var d := if Touches(ring, k, bp, n) then 0 else 1;
    forall i | 0 <= i < |u| ensures u[i].at + u[i].size <= brk {
      assert i != k + 1 ==> u[i] == ring[if i <= k then i else i - d];
    }
    assert u[0].at == ring[0].at;
    if r != u {
      forall i | 0 <= i < |r| ensures r[i].at + r[i].size <= brk {
        assert r[i] == if i < k then u[i] else if i > k then u[i+1] else Blk(u[k].at, u[k].size + u[k+1].size);
      }
    }
  }

  lemma FreedSound(mem: Mem, ring: seq<Blk>, alloc: map<nat, nat>, obtained: set<nat>, brk: nat, k: nat, bp: nat)
    requires Sound(mem, ring, alloc, obtained, brk) && bp in alloc && Slot(ring, k, bp)
    ensures ring[k].at in mem && mem[ring[k].at].ptr in mem
    ensures Sound(FreeMem(mem, ring[k].at, bp), FreeRing(ring, k, bp, alloc[bp]), alloc - {bp}, obtained, brk)
  {
    var n := alloc[bp];
    AllocAvoids(ring, bp, n);
    FreedCanonical(mem, ring, k, bp);
    var m, r, u := FreeMem(mem, ring[k].at, bp), FreeRing(ring, k, bp, n), UpperRing(ring, k, bp, n);
    FreedBound(ring, k, bp, n, brk);
    forall c | c in alloc && c != bp ensures ApartFrom(r, c, alloc[c]) && m[c] == mem[c] {
      UpperApart(ring, k, bp, n, c, alloc[c]);
      LowerApart(u, k, c, alloc[c]);
      AllocAvoids(ring, c, alloc[c]);
    }
    forall w: nat ensures w in obtained <==> FreeUnit(r, w) || UsedUnit(alloc - {bp}, w) {
      FreedUnits(ring, alloc, k, bp, w);
    }
  }

  // A block above base that shares no unit with a free block is not one.
  lemma AllocAvoids(ring: seq<Blk>, b: nat, n: nat)
    requires Ordered(ring, -1) && ring[0].at < b && n > 0 && ApartFrom(ring, b, n)
    ensures Avoids(ring, b)
  {
  }

  lemma UsedWith(alloc: map<nat, nat>, b: nat, n: nat, u: nat)
    requires b !in alloc
    ensures UsedUnit(alloc[b := n], u) <==> UsedUnit(alloc, u) || b <= u < b + n
  {
    var a := alloc[b := n];
    assert b in a && a[b] == n;
    forall c | c in alloc && c <= u < c + alloc[c] ensures UsedUnit(a, u) {
      assert c in a && a[c] == alloc[c];
    }
  }

  lemma WithoutApart(ring: seq<Blk>, i: nat, c: nat, m: nat)
    requires Ordered(ring, -1) && i < |ring|
    ensures ApartFrom(ring, c, m) ==> ApartFrom(Without(ring, i), c, m)
    ensures ApartFrom(Without(ring, i), ring[i].at, ring[i].size)
  {
    var r := Without(ring, i);
    forall j | 0 <= j < |r| ensures r[j] == ring[if j < i then j else j + 1] {
    }
  }

  lemma WholePartition(ring: seq<Blk>, alloc: map<nat, nat>, obtained: set<nat>, i: nat)
    requires Ordered(ring, -1) && Partition(ring, alloc, obtained) && 1 <= i < |ring| && ring[i].at !in alloc
    ensures Partition(Without(ring, i), alloc[ring[i].at := ring[i].size], obtained)
  {
    var b, n := ring[i].at, ring[i].size;
    forall w: nat ensures w in obtained <==> FreeUnit(Without(ring, i), w) || UsedUnit(alloc[b := n], w) {
      WithoutUnits(ring, i, w);
      UsedWith(alloc, b, n, w);
      assert b <= w < b + n ==> FreeUnit(ring, w);
    }
  }

  lemma WholeAlloc(mem: Mem, m: Mem, ring: seq<Blk>, alloc: map<nat, nat>, brk: nat, i: nat)
    requires Ordered(ring, -1) && Bounded(ring, brk) && AllocOk(mem, ring, alloc, brk) && 1 <= i < |ring|
    requires m.Keys == mem.Keys && forall a :: a in mem && a != ring[i-1].at ==> m[a] == mem[a]
    requires ring[i].at in mem && mem[ring[i].at].size == ring[i].size
    ensures AllocOk(m, Without(ring, i), alloc[ring[i].at := ring[i].size], brk) && ring[i].at !in alloc
  {
    var b, n := ring[i].at, ring[i].size;
    forall c | c in alloc
      ensures c in m && m[c] == mem[c] && ApartFrom(Without(ring, i), c, alloc[c]) && Apart(c, alloc[c], b, n) {
      WithoutApart(ring, i, c, alloc[c]);
      AllocAvoids(ring, c, alloc[c]);
    }
    WithoutApart(ring, i, b, n);
    AddAlloc(mem, m, ring, Without(ring, i), alloc, brk, b, n);
  }

  lemma TakenWholeSound(mem: Mem, ring: seq<Blk>, alloc: map<nat, nat>, obtained: set<nat>, brk: nat, i: nat)
    requires Sound(mem, ring, alloc, obtained, brk) && 1 <= i < |ring|
    ensures Linking(mem, ring[i-1], ring[i].at) && Linking(mem, ring[i], After(ring, i, ring[0].at))
    ensures ring[i].at !in alloc
    ensures Sound(mem[ring[i-1].at := mem[ring[i-1].at].(ptr := mem[ring[i].at].ptr)], Without(ring, i),
                  alloc[ring[i].at := ring[i].size], obtained, brk)
  {
    TakenWhole(mem, ring, i);
    WholeAlloc(mem, mem[ring[i-1].at := mem[ring[i-1].at].(ptr := mem[ring[i].at].ptr)], ring, alloc, brk, i);
    WholePartition(ring, alloc, obtained, i);
  }

  lemma ShrunkApart(ring: seq<Blk>, i: nat, n: nat, c: nat, m: nat)
    requires Ordered(ring, -1) && 1 <= i < |ring| && 0 < n < ring[i].size
    ensures ApartFrom(ring, c, m) ==> ApartFrom(Shrunk(ring, i, n), c, m)
    ensures ApartFrom(ring, c, m) && m > 0 ==> Apart(c, m, ring[i].at + ring[i].size - n, n)
    ensures ApartFrom(Shrunk(ring, i, n), ring[i].at + ring[i].size - n, n)
  {
    var r := Shrunk(ring, i, n);
    assert forall j | 0 <= j < |ring| && j != i :: r[j] == ring[j];
  }

  lemma TailPartition(ring: seq<Blk>, alloc: map<nat, nat>, obtained: set<nat>, i: nat, n: nat)
    requires Ordered(ring, -1) && Partition(ring, alloc, obtained) && 1 <= i < |ring| && 0 < n < ring[i].size
    requires ring[i].at + ring[i].size - n !in alloc
    ensures Partition(Shrunk(ring, i, n), alloc[ring[i].at + ring[i].size - n := n], obtained)
  {
    var b := ring[i].at + ring[i].size - n;
    forall w: nat ensures w in obtained <==> FreeUnit(Shrunk(ring, i, n), w) || UsedUnit(alloc[b := n], w) {
      ShrunkUnits(ring, i, n, w);
      UsedWith(alloc, b, n, w);
      assert b <= w < b + n ==> FreeUnit(ring, w);
    }
  }

  lemma TailAlloc(mem: Mem, m: Mem, ring: seq<Blk>, alloc: map<nat, nat>, brk: nat, i: nat, n: nat)
    requires Ordered(ring, -1) && Bounded(ring, brk) && AllocOk(mem, ring, alloc, brk) && 1 <= i < |ring|
    requires 0 < n < ring[i].size
    requires var b := ring[i].at + ring[i].size - n;
      mem.Keys <= m.Keys && (forall a :: a in mem && a != ring[i].at && a != b ==> m[a] == mem[a]) && b in m &&
        m[b].size == n
    ensures var b := ring[i].at + ring[i].size - n;
      AllocOk(m, Shrunk(ring, i, n), alloc[b := n], brk) && b !in alloc
  {
    var b, r := ring[i].at + ring[i].size - n, Shrunk(ring, i, n);
    forall c | c in alloc ensures c in m && m[c] == mem[c] && ApartFrom(r, c, alloc[c]) && Apart(c, alloc[c], b, n) {
      ShrunkApart(ring, i, n, c, alloc[c]);
      AllocAvoids(ring, c, alloc[c]);
    }
    ShrunkApart(ring, i, n, b, n);
    AddAlloc(mem, m, ring, r, alloc, brk, b, n);
  }

  lemma TakenTailSound(mem: Mem, ring: seq<Blk>, alloc: map<nat, nat>, obtained: set<nat>, brk: nat, i: nat, n: nat,
                       hd: Header)
    requires Sound(mem, ring, alloc, obtained, brk) && 1 <= i < |ring| && 0 < n < ring[i].size && hd.size == n
    ensures Linking(mem, ring[i], After(ring, i, ring[0].at))
    ensures var p, b := ring[i].at, ring[i].at + ring[i].size - n;
      b !in alloc &&
        Sound(mem[p := mem[p].(size := mem[p].size - n)][b := hd], Shrunk(ring, i, n), alloc[b := n], obtained, brk)
  {
    var p, b := ring[i].at, ring[i].at + ring[i].size - n;
    TakenTail(mem, ring, i, n, b, hd);
    TailAlloc(mem, mem[p := mem[p].(size := mem[p].size - n)][b := hd], ring, alloc, brk, i, n);
    TailPartition(ring, alloc, obtained, i, n);
  }

  // sbrk extends the heap by a block that is at first allocated
  lemma GrownSound(mem: Mem, ring: seq<Blk>, alloc: map<nat, nat>, obtained: set<nat>, brk: nat, n: nat,
                   m: Mem, a: map<nat, nat>, o: set<nat>, top: nat)
    requires Sound(mem, ring, alloc, obtained, brk) && n > 0 && brk in m && m[brk].size == n
    requires m == mem[brk := m[brk]] && a == alloc[brk := n] && o == obtained + Interval(brk, n) && top == brk + n
    ensures brk !in alloc && Sound(m, ring, a, o, top)
  {
    AddAlloc(mem, m, ring, ring, alloc, top, brk, n);
    SameSeg(mem, m, ring, ring[0].at, brk);
    SameKeeps(mem, m, ring, ring[0].at);
    GrownPartition(ring, alloc, obtained, brk, n);
  }

  // Everything sbrk has given to malloc is below the break.
  lemma OwnBelow(mem: Mem, ring: seq<Blk>, alloc: map<nat, nat>, obtained: set<nat>, brk: nat)
    requires Sound(mem, ring, alloc, obtained, brk)
    ensures forall u | u in obtained :: u < brk
  {
    forall u | u in obtained ensures u < brk {
      assert FreeUnit(ring, u) || UsedUnit(alloc, u);
    }
  }

  lemma GrownPartition(ring: seq<Blk>, alloc: map<nat, nat>, obtained: set<nat>, brk: nat, n: nat)
    requires Partition(ring, alloc, obtained) && brk !in alloc
    ensures Partition(ring, alloc[brk := n], obtained + Interval(brk, n))
  {
    forall w: nat ensures w in obtained + Interval(brk, n) <==> FreeUnit(ring, w) || UsedUnit(alloc[brk := n], w) {
      UsedWith(alloc, brk, n, w);
    }
  }

  // ---- the loops ------------------------------------------------------------------------------

  // Where free()'s search stops
  predicate Here(p: nat, next: nat, bp: nat) {
    (bp > p && bp < next) || (p >= next && (bp > p || bp < next))
  }

  lemma StopsAtSlot(mem: Mem, ring: seq<Blk>, i: nat, k: nat, bp: nat)
    requires Canonical(mem, ring) && i < |ring| && Slot(ring, k, bp) && Avoids(ring, bp) && ring[0].at < bp
    ensures Linking(mem, ring[i], ring[Next(i, |ring|)].at)
    ensures Here(ring[i].at, mem[ring[i].at].ptr, bp) <==> i == k
  {
    assert Cell(mem, ring, i, ring[0].at);
    assert ring[i].at != bp;
  }

  // Steps from i round to k
  function Distance(i: nat, k: nat, n: nat): (d: nat)
    requires i < n && k < n
  {
    if i <= k then k - i else k + n - i
  }

  // The freed block lies inside one block of the new list.
  ghost predicate Inside(ring: seq<Blk>, b: nat, n: nat) {
    exists i | 0 <= i < |ring| :: ring[i].at <= b && b + n <= ring[i].at + ring[i].size
  }

  lemma FreedInside(ring: seq<Blk>, k: nat, bp: nat, n: nat)
    requires k < |ring|
    ensures var r := FreeRing(ring, k, bp, n);
      Inside(r, bp, n) && k < |r| && r[k].at == ring[k].at
  {
    var u, r := UpperRing(ring, k, bp, n), FreeRing(ring, k, bp, n);
    assert u[k] == ring[k] && u[k+1].at == bp && u[k+1].size >= n;
    if r == u {
      assert r[k+1].at <= bp;
    } else {
      assert r[k].at <= bp && bp + n <= r[k].at + r[k].size;
    }
  }

  // (nbytes + sizeof(Header) - 1)/sizeof(Header) + 1 in 32-bit arithmetic
  function NUnits(nbytes: nat): (n: nat)
    requires nbytes < U32
    ensures n > 0
  {
    (nbytes + HEADER - 1) % U32 / HEADER + 1
  }

  // The block malloc returns has room for the request exactly when the size
  // computation does not wrap. It is then as small as it can be, and otherwise only a header.
  lemma RoomExact(nbytes: nat)
    requires nbytes < U32
    ensures (NUnits(nbytes) - 1) * HEADER >= nbytes <==> nbytes <= U32 - HEADER
    ensures 0 < nbytes <= U32 - HEADER ==> (NUnits(nbytes) - 2) * HEADER < nbytes
    ensures nbytes == 0 || nbytes > U32 - HEADER ==> NUnits(nbytes) == 1
  {
  }

  // What morecore asks for: at least 4096 units
  function AskedUnits(nu: nat): (r: nat)
    ensures r >= nu && r >= 4096 && (r == nu || r == 4096)
  {
    if nu < NALLOC then NALLOC else nu
  }

  // The argument of sbrk: a byte count converted to int
  function SbrkArg(nu: nat): (n: int) {
    var x := nu * HEADER % U32;
    if x >= U32 / 2 then x - U32 else x
  }

  // sbrk is asked for the memory morecore wants exactly when that is less than 2 GB.
  lemma SbrkArgExact(nu: nat)
    ensures SbrkArg(nu) == nu * HEADER <==> nu * HEADER < U32 / 2
  {
  }

  // In units of a header
  lemma SbrkUnits(nu: nat)
    requires 0 < nu && nu * HEADER <= U32
    ensures SbrkArg(nu) / HEADER == if nu * HEADER < U32 / 2 then nu else nu - U32 / HEADER
  {
  }

  // A block at the old break belongs to the heap if the break has moved up behind it, and does
  // not if the break has not moved up.
  lemma Grown(mem: Mem, ring: seq<Blk>, alloc: map<nat, nat>, obtained: set<nat>, brk: nat, n: nat,
              m: Mem, a: map<nat, nat>, o: set<nat>, top: nat)
    requires Sound(mem, ring, alloc, obtained, brk) && n > 0 && brk in m && m[brk].size == n
    requires m == mem[brk := m[brk]] && a == alloc[brk := n]
    ensures brk !in alloc && (top <= brk ==> !Sound(m, ring, a, o, top))
    ensures o == obtained + Interval(brk, n) && top == brk + n ==> Sound(m, ring, a, o, top)
  {
    GrownSound(mem, ring, alloc, obtained, brk, n, m, a, obtained + Interval(brk, n), brk + n);
    assert brk in a && a[brk] == n;
  }

  // When all memory is gone
  lemma NothingLeft(mem: Mem, ring: seq<Blk>, alloc: map<nat, nat>, o: set<nat>, o1: set<nat>, brk: nat)
    requires Sound(mem, ring, alloc, o, brk) && (o1 == o || o1 == {})
    ensures Sound(mem, ring, alloc, o1, brk) <==> o1 == o
  {
    if o1 != o {
      var u :| u in o;
      assert FreeUnit(ring, u) || UsedUnit(alloc, u);
      assert u !in o1;
    }
  }

  ghost predicate Fits(ring: seq<Blk>, n: nat) {
    exists i | 0 <= i < |ring| :: ring[i].size >= n
  }

  ghost predicate OnList(ring: seq<Blk>, p: nat) {
    |ring| > 0 && p >= ring[0].at && exists i | 0 <= i < |ring| :: ring[i].at == p
  }

  // The walk along the list stops at k and nowhere else.
  ghost predicate StopsOnlyAt(mem: Mem, ring: seq<Blk>, k: nat, bp: nat) {
    k < |ring| && forall i | 0 <= i < |ring| ::
      ring[i].at in mem && mem[ring[i].at].ptr == ring[Next(i, |ring|)].at
      && (Here(ring[i].at, mem[ring[i].at].ptr, bp) <==> i == k)
  }

  lemma SlotFor(mem: Mem, ring: seq<Blk>, alloc: map<nat, nat>, obtained: set<nat>, brk: nat, bp: nat) returns (k: nat)
    requires Sound(mem, ring, alloc, obtained, brk) && bp in alloc
    ensures StopsOnlyAt(mem, ring, k, bp) && Slot(ring, k, bp) && bp in mem && mem[ring[k].at].ptr in mem
  {
    AllocAvoids(ring, bp, alloc[bp]);
    k := FindSlot(ring, bp);
    FreedSound(mem, ring, alloc, obtained, brk, k, bp);
    StopsThere(mem, ring, k, bp);
  }

  lemma SlotBelow(ring: seq<Blk>, k: nat, bp: nat)
    requires Ordered(ring, -1) && Slot(ring, k, bp)
    ensures forall i | 0 <= i < |ring| :: ring[i].at <= ring[k].at || bp < ring[i].at
  {
    forall i | 0 <= i < |ring| ensures ring[i].at <= ring[k].at || bp < ring[i].at {
      assert i > k + 1 ==> ring[k+1].at + ring[k+1].size < ring[i].at;
    }
  }

  // What free() establishes for an allocated block
  lemma Freed(mem: Mem, ring: seq<Blk>, alloc: map<nat, nat>, obtained: set<nat>, brk: nat, bp: nat, k: nat,
              m: Mem, r: seq<Blk>, a: map<nat, nat>)
    requires Sound(mem, ring, alloc, obtained, brk) && bp in alloc && Slot(ring, k, bp)
    requires ring[k].at in mem && mem[ring[k].at].ptr in mem
    requires m == FreeMem(mem, ring[k].at, bp) && r == FreeRing(ring, k, bp, alloc[bp]) && a == alloc - {bp}
    ensures Sound(m, r, a, obtained, brk) && r[0].at == ring[0].at && OnList(r, ring[k].at) && Inside(r, bp, alloc[bp])
  {
    FreedSound(mem, ring, alloc, obtained, brk, k, bp);
    FreedInside(ring, k, bp, alloc[bp]);
    FreedBound(ring, k, bp, alloc[bp], brk);
  }

  lemma StopsThere(mem: Mem, ring: seq<Blk>, k: nat, bp: nat)
    requires Canonical(mem, ring) && Slot(ring, k, bp) && Avoids(ring, bp) && ring[0].at < bp
    ensures StopsOnlyAt(mem, ring, k, bp)
  {
    forall i | 0 <= i < |ring|
      ensures ring[i].at in mem && mem[ring[i].at].ptr == ring[Next(i, |ring|)].at
      ensures Here(ring[i].at, mem[ring[i].at].ptr, bp) <==> i == k
    {
      StopsAtSlot(mem, ring, i, k, bp);
    }
  }

  // ---- malloc's scan -----------------------------------------------------------------------------

  // Index i of a circle of n, for i up to twice round
  function Wrap(i: nat, n: nat): (r: nat)
    requires i < 2 * n
    ensures r < n
  {
    if i < n then i else i - n
  }

  // The list as malloc walks it, from block f on
  function Turn(ring: seq<Blk>, f: nat): (r: seq<Blk>)
    requires f < |ring|
    ensures |r| == |ring|
    ensures forall t | 0 <= t < |r| :: r[t] == ring[Wrap(f + t, |ring|)]
  {
    ring[f..] + ring[..f]
  }

  // Each block points to the next, and only the last back to the first.
  ghost predicate Walk(mem: Mem, turn: seq<Blk>) {
    |turn| > 0 && forall t | 0 <= t < |turn| :: Stride(mem, turn, t)
  }

  ghost predicate Stride(mem: Mem, turn: seq<Blk>, t: nat)
    requires t < |turn|
  {
    && turn[t].at in mem && mem[turn[t].at] == Header(turn[Next(t, |turn|)].at, turn[t].size)
    && (t > 0 ==> turn[t].at != turn[0].at)
  }

  lemma TurnWalk(mem: Mem, ring: seq<Blk>, freep: nat) returns (f: nat)
    requires Canonical(mem, ring) && OnList(ring, freep)
    ensures f < |ring| && Turn(ring, f)[0].at == freep && Walk(mem, Turn(ring, f))
  {
    f :| 0 <= f < |ring| && ring[f].at == freep;
    var turn := Turn(ring, f);
    forall t | 0 <= t < |turn|
      ensures turn[t].at in mem && mem[turn[t].at] == Header(turn[Next(t, |turn|)].at, turn[t].size)
      ensures t > 0 ==> turn[t].at != turn[0].at
    {
      var i := Wrap(f + t, |ring|);
      Headers(mem, ring, i);
      assert Wrap(f + Next(t, |turn|), |turn|) == Next(i, |turn|);
      assert turn[Next(t, |turn|)] == ring[Next(i, |ring|)];
      assert turn[0] == ring[f];
    }
  }

  lemma Headers(mem: Mem, ring: seq<Blk>, i: nat)
    requires Canonical(mem, ring) && i < |ring|
    ensures ring[i].at in mem && mem[ring[i].at] == Header(ring[Next(i, |ring|)].at, ring[i].size)
  {
    assert Cell(mem, ring, i, ring[0].at);
  }

  lemma TurnFits(ring: seq<Blk>, f: nat, n: nat)
    requires f < |ring|
    ensures Fits(Turn(ring, f), n) <==> Fits(ring, n)
  {
    var turn := Turn(ring, f);
    forall i | 0 <= i < |ring| && ring[i].size >= n ensures Fits(turn, n) {
      assert turn[if i >= f then i - f else i + |ring| - f] == ring[i];
    }
  }

  function Load(mem: Mem, a: nat): (h: Header) {
    if a in mem then mem[a] else Header(0, 0)
  }

  // malloc's choice of block i, on the memory and on the list
  function CarveMem(mem: Mem, prevp: nat, p: nat, n: nat): (m: Mem)
    requires p in mem && prevp in mem && mem[p].size >= n
  {
    if mem[p].size == n then mem[prevp := mem[prevp].(ptr := mem[p].ptr)]
    else
      var b := p + mem[p].size - n;
      var m1 := mem[p := mem[p].(size := mem[p].size - n)];
      m1[b := Load(m1, b).(size := n)]
  }

  function CarveRing(ring: seq<Blk>, i: nat, n: nat): (r: seq<Blk>)
    requires i < |ring| && n <= ring[i].size
  {
    if ring[i].size == n then Without(ring, i) else Shrunk(ring, i, n)
  }

  lemma CarvedWhole(mem: Mem, ring: seq<Blk>, alloc: map<nat, nat>, obtained: set<nat>, brk: nat, i: nat,
                    m: Mem, r: seq<Blk>, a: map<nat, nat>)
    requires Sound(mem, ring, alloc, obtained, brk) && 1 <= i < |ring|
    requires ring[i].at in mem && ring[i-1].at in mem && r == Without(ring, i)
    requires m == mem[ring[i-1].at := mem[ring[i-1].at].(ptr := mem[ring[i].at].ptr)]
    requires a == alloc[ring[i].at := ring[i].size]
    ensures Sound(m, r, a, obtained, brk) && ring[i].at !in alloc
  {
    TakenWholeSound(mem, ring, alloc, obtained, brk, i);
  }

  lemma CarvedTail(mem: Mem, ring: seq<Blk>, alloc: map<nat, nat>, obtained: set<nat>, brk: nat, i: nat, n: nat, b: nat,
                   m: Mem, r: seq<Blk>, a: map<nat, nat>)
    requires Sound(mem, ring, alloc, obtained, brk) && 1 <= i < |ring| && 0 < n < ring[i].size
    requires ring[i].at in mem && mem[ring[i].at].size == ring[i].size && r == Shrunk(ring, i, n)
    requires b == ring[i].at + ring[i].size - n && a == alloc[b := n]
    requires var m1 := mem[ring[i].at := mem[ring[i].at].(size := mem[ring[i].at].size - n)];
      m == m1[b := Load(m1, b).(size := n)]
    ensures Sound(m, r, a, obtained, brk) && b !in alloc
  {
    TakenTailSound(mem, ring, alloc, obtained, brk, i, n, m[b]);
  }

  lemma CarvedRing(ring: seq<Blk>, i: nat, n: nat)
    requires Ordered(ring, -1) && 1 <= i < |ring| && n <= ring[i].size
    ensures var r := CarveRing(ring, i, n);
      |r| > 0 && r[0].at == ring[0].at && OnList(r, ring[i-1].at)
  {
    var r := CarveRing(ring, i, n);
    assert r[i-1] == ring[i-1] && r[0] == ring[0];
  }

  lemma Carved(mem: Mem, ring: seq<Blk>, alloc: map<nat, nat>, obtained: set<nat>, brk: nat, i: nat, n: nat, b: nat,
               m: Mem, r: seq<Blk>, a: map<nat, nat>)
    requires Sound(mem, ring, alloc, obtained, brk) && 1 <= i < |ring| && 0 < n <= ring[i].size
    requires ring[i].at in mem && ring[i-1].at in mem && mem[ring[i].at].size == ring[i].size
    requires m == CarveMem(mem, ring[i-1].at, ring[i].at, n) && r == CarveRing(ring, i, n)
    requires b == ring[i].at + ring[i].size - n && a == alloc[b := n]
    ensures Sound(m, r, a, obtained, brk) && b !in alloc
  {
    if ring[i].size == n {
      CarvedWhole(mem, ring, alloc, obtained, brk, i, m, r, a);
    } else {
      CarvedTail(mem, ring, alloc, obtained, brk, i, n, b, m, r, a);
    }
  }

  lemma BackAgain(alloc: map<nat, nat>, b: nat, n: nat)
    requires b !in alloc
    ensures alloc[b := n] - {b} == alloc
  {
  }

  lemma InsideFits(ring: seq<Blk>, b: nat, n: nat, want: nat)
    requires Inside(ring, b, n) && want <= n
    ensures Fits(ring, want)
  {
    var i :| 0 <= i < |ring| && ring[i].at <= b && b + n <= ring[i].at + ring[i].size;
    assert ring[i].size >= want;
  }

  // Going up from one address and round, a comes before to.
  predicate Between(from: nat, a: nat, to: nat) {
    if from < to then from < a < to else a > from || a < to
  }

  // The block malloc chooses: the first after freep that is big enough
  ghost predicate FirstFit(ring: seq<Blk>, freep: nat, i: nat, n: nat) {
    && 1 <= i < |ring| && ring[i].size >= n
    && forall j | 0 <= j < |ring| && Between(freep, ring[j].at, ring[i].at) :: ring[j].size < n
  }

  // r is the end of that block, and freep is left at the one before it.
  ghost predicate CutAt(ring: seq<Blk>, freep: nat, n: nat, i: nat, r: nat, freep1: nat) {
    FirstFit(ring, freep, i, n) && r - 1 == ring[i].at + ring[i].size - n && freep1 == ring[i-1].at
  }

  lemma FirstFound(ring: seq<Blk>, f: nat, t: nat, n: nat, i: nat)
    requires Ordered(ring, -1) && f < |ring| && 1 <= t <= |ring| && 1 <= i < |ring| && ring[i].size >= n
    requires i == Wrap(f + Wrap(t, |ring|), |ring|) && forall u | 1 <= u < t :: Turn(ring, f)[u].size < n
    ensures FirstFit(ring, ring[f].at, i, n)
  {
    forall j | 0 <= j < |ring| && Between(ring[f].at, ring[j].at, ring[i].at) ensures ring[j].size < n {
      var u := if j >= f then j - f else j + |ring| - f;
      assert f != j && i != j && (ring[f].at < ring[j].at <==> f < j) && (ring[j].at < ring[i].at <==> j < i);
      assert ring[f].at < ring[i].at <==> f < i;
      assert Turn(ring, f)[u] == ring[j] && 1 <= u < t;
    }
  }

  lemma FoundAt(ring: seq<Blk>, f: nat, t: nat, n: nat) returns (i: nat)
    requires Ordered(ring, -1) && f < |ring| && 1 <= t <= |ring| && n > 0
    requires Turn(ring, f)[Wrap(t, |ring|)].size >= n && forall u | 1 <= u < t :: Turn(ring, f)[u].size < n
    ensures 1 <= i < |ring| && ring[i] == Turn(ring, f)[Wrap(t, |ring|)] && ring[i-1] == Turn(ring, f)[t-1]
    ensures FirstFit(ring, ring[f].at, i, n)
  {
    i := Wrap(f + Wrap(t, |ring|), |ring|);
    FirstFound(ring, f, t, n, i);
  }

  class Heap {
    const base: nat          // &base, below the heap
    const limit: nat         // sbrk fails beyond this
    var mem: Mem
    var freep: nat           // 0 before the first call of malloc
    var brk: nat

    ghost var ring: seq<Blk>
    ghost var alloc: map<nat, nat>    // allocated blocks and their units
    ghost var obtained: set<nat>      // every unit sbrk has given

    ghost predicate Ready()
      reads this
    {
      && Sound(mem, ring, alloc, obtained, brk) && ring[0].at == base > 0
      && OnList(ring, freep)
    }

    ghost predicate Valid()
      reads this
    {
      if freep == 0 then 0 < base < brk && ring == [] && alloc == map[] && obtained == {} else Ready()
    }

    constructor (base: nat, brk: nat, limit: nat)
      requires 0 < base < brk
      ensures Valid() && alloc == map[] && obtained == {} && this.brk == brk && this.limit == limit
    {
      this.base, this.brk, this.limit := base, brk, limit;
      mem, freep := map[], 0;
      ring, alloc, obtained := [], map[], {};
    }

    // The search at the head of free(), from freep to the block below bp
    method Search(bp: nat, ghost k: nat) returns (p: nat)
      requires StopsOnlyAt(mem, ring, k, bp) && OnList(ring, freep)
      ensures p == ring[k].at
    {
      p := freep;
      ghost var i :| 0 <= i < |ring| && ring[i].at == freep;
      while !(bp > p && bp < mem[p].ptr)
        invariant 0 <= i < |ring| && p == ring[i].at && p in mem
        decreases Distance(i, k, |ring|)
      {
        if p >= mem[p].ptr && (bp > p || bp < mem[p].ptr) {
          break;
        }
        p := mem[p].ptr;
        i := Next(i, |ring|);
      }
    }

    // The two conditionals of free()
    method Join(p: nat, bp: nat)
      requires p in mem && bp in mem && mem[p].ptr in mem
      modifies this`mem
      ensures mem == FreeMem(old(mem), p, bp)
    {
      var q := mem[p].ptr;
      if bp + mem[bp].size == q {
        mem := mem[bp := mem[bp].(size := mem[bp].size + mem[q].size)];
        mem := mem[bp := mem[bp].(ptr := mem[q].ptr)];
      } else {
        mem := mem[bp := mem[bp].(ptr := q)];
      }
      if p + mem[p].size == bp {
        mem := mem[p := mem[p].(size := mem[p].size + mem[bp].size)];
        mem := mem[p := mem[p].(ptr := mem[bp].ptr)];
      } else {
        mem := mem[p := mem[p].(ptr := bp)];
      }
    }

    // free(ap). The next search starts at the free block below.
    method Free(ap: nat)
      requires Ready() && ap > 0 && ap - 1 in alloc
      modifies this`mem, this`freep, this`ring, this`alloc
      ensures Ready() && alloc == old(alloc) - {ap - 1}
      ensures Inside(ring, ap - 1, old(alloc)[ap - 1])
      ensures freep < ap - 1 && exists k | 0 <= k < |old(ring)| :: old(ring)[k].at == freep
      ensures forall i | 0 <= i < |old(ring)| :: old(ring)[i].at <= freep || ap - 1 < old(ring)[i].at
    {
      var bp := ap - 1;
      ghost var k := SlotFor(mem, ring, alloc, obtained, brk, bp);
      SlotBelow(ring, k, bp);
      var p := Search(bp, k);
      Join(p, bp);
      freep := p;
      ring := FreeRing(ring, k, bp, alloc[bp]);
      alloc := alloc - {bp};
      Freed(old(mem), old(ring), old(alloc), obtained, brk, bp, k, mem, ring, alloc);
    }

    // sbrk(n * HEADER): growproc moves the break up, or down, or, when the new size wraps to a
    // greater one, not at all. A new size of 0 is a failure that has freed all memory.
    method Sbrk(n: int) returns (p: Option<nat>)
      requires n > 0 || (brk < U32 / HEADER && -(U32 / HEADER) < n)
      modifies this`brk, this`obtained
      ensures n > 0 ==> (p == None <==> old(brk) + n > limit) && brk == old(brk) + if p == None then 0 else n
      ensures n > 0 ==> obtained == old(obtained)
      ensures n <= 0 ==> brk <= old(brk) && (p == None <==> old(brk) + n == 0 && n < 0)
      ensures n <= 0 && p == None ==> brk == old(brk) && obtained == {}
      ensures n <= 0 && p.Some? ==> brk == if old(brk) + n > 0 then old(brk) + n else old(brk)
      ensures n <= 0 && p.Some? ==> obtained == old(obtained) - Interval(brk, old(brk) - brk)
      ensures p.Some? ==> p.value == old(brk)
    {
      var sz := brk;
      if n > 0 {
        if brk + n > limit {
          return None;
        }
        brk := brk + n;
      } else if n < 0 {
        var newsz := (brk + n) % (U32 / HEADER);
        if newsz < brk {
          obtained := obtained - Interval(newsz, brk - newsz);
          if newsz == 0 {
            obtained := {};
            return None;
          }
          brk := newsz;
        }
      }
      p := Some(sz);
    }

    // The half of morecore that gets the memory and writes its header. sbrk fails when the
    // memory runs out. The heap stays sound exactly if the size in bytes is an int, or if
    // it had no memory to lose when sbrk failed.
    method Grow(nu: nat) returns (p: Option<nat>)
      requires Ready() && 0 < nu && (nu * HEADER < U32 / 2 || (nu * HEADER <= U32 && brk < U32 / HEADER))
      modifies this`mem, this`brk, this`alloc, this`obtained
      ensures Ready() <==> nu * HEADER < U32 / 2 || (p == None && old(obtained) == {})
      ensures nu * HEADER < U32 / 2 ==> (p == None <==> old(brk) + nu > limit)
      ensures nu * HEADER >= U32 / 2 ==> (p == None <==> old(brk) + nu == U32 / HEADER) && brk <= old(brk)
      ensures p == None ==> alloc == old(alloc) && brk == old(brk)
      ensures p == None ==> obtained == if nu * HEADER < U32 / 2 then old(obtained) else {}
      ensures p.Some? ==> p.value == old(brk) && p.value !in old(alloc) && alloc == old(alloc)[p.value := nu]
      ensures p.Some? && nu * HEADER < U32 / 2 ==>
        brk == old(brk) + nu && obtained == old(obtained) + Interval(p.value, nu)
    {
      SbrkUnits(nu);
      p := Sbrk(SbrkArg(nu) / HEADER);
      if p.Some? {
        var hp := p.value;
        mem := mem[hp := Load(mem, hp).(size := nu)];
        alloc := alloc[hp := nu];
        if nu * HEADER < U32 / 2 {
          obtained := obtained + Interval(hp, nu);
        }
        Grown(old(mem), ring, old(alloc), old(obtained), hp, nu, mem, alloc, obtained, brk);
      } else {
        NothingLeft(mem, ring, alloc, old(obtained), obtained, brk);
      }
    }

    // The program's own sbrk between two calls: the units it gets are its own, and the
    // next morecore continues above them.
    method OwnSbrk(n: nat) returns (ok: bool)
      requires Valid()
      modifies this`brk
      ensures Valid() && (ok <==> old(brk) + n <= limit) && brk == old(brk) + if ok then n else 0
      ensures forall u | old(brk) <= u < brk :: u !in obtained
    {
      if freep != 0 {
        OwnBelow(mem, ring, alloc, obtained, brk);
      }
      ok := brk + n <= limit;
      if ok {
        brk := brk + n;
      }
    }

    // morecore, for a request that sbrk's argument can express
    method Morecore(nunits: nat) returns (r: nat)
      requires Ready() && AskedUnits(nunits) * HEADER < U32 / 2
      modifies this`mem, this`freep, this`brk, this`ring, this`alloc, this`obtained
      ensures Ready() && alloc == old(alloc)
      ensures r == 0 <==> old(brk) + AskedUnits(nunits) > limit
      ensures r == 0 ==> ring == old(ring) && obtained == old(obtained) && brk == old(brk)
      ensures r != 0 ==> r == freep && Fits(ring, nunits) && brk == old(brk) + AskedUnits(nunits)
      ensures r != 0 ==> obtained == old(obtained) + Interval(old(brk), AskedUnits(nunits))
    {
      var nu := if nunits < NALLOC then NALLOC else nunits;
      var p := Grow(nu);
      r := 0;
      if p.Some? {
        FreeGrown(p.value, nu, old(alloc));
        InsideFits(ring, p.value, nu, nunits);
        r := freep;
      }
    }

    method FreeGrown(hp: nat, nu: nat, ghost before: map<nat, nat>)
      requires Ready() && hp !in before && alloc == before[hp := nu]
      modifies this`mem, this`freep, this`ring, this`alloc
      ensures Ready() && alloc == before && Inside(ring, hp, nu)
    {
      Free(hp + 1);
      BackAgain(before, hp, nu);
    }

    // The branch of malloc that has found a block, on the memory
    method CarveMemory(prevp: nat, p: nat, nunits: nat) returns (b: nat)
      requires p in mem && prevp in mem && mem[p].size >= nunits
      modifies this`mem
      ensures mem == CarveMem(old(mem), prevp, p, nunits) && b == p + old(mem)[p].size - nunits
    {
      b := p;
      if mem[p].size == nunits {
        mem := mem[prevp := mem[prevp].(ptr := mem[p].ptr)];
      } else {
        mem := mem[p := mem[p].(size := mem[p].size - nunits)];
        b := p + mem[p].size;
        mem := mem[b := Load(mem, b).(size := nunits)];
      }
    }

    method Carve(prevp: nat, p: nat, nunits: nat, ghost i: nat) returns (r: nat)
      requires Ready() && 1 <= i < |ring| && p == ring[i].at && prevp == ring[i-1].at && 0 < nunits <= ring[i].size
      modifies this`mem, this`freep, this`ring, this`alloc
      ensures Ready() && r > 0 && r - 1 !in old(alloc) && alloc == old(alloc)[r - 1 := nunits]
      ensures r - 1 == old(ring)[i].at + old(ring)[i].size - nunits && freep == prevp
    {
      Headers(mem, ring, i);
      Headers(mem, ring, i - 1);
      CarvedRing(ring, i, nunits);
      var b := CarveMemory(prevp, p, nunits);
      ring := CarveRing(ring, i, nunits);
      alloc := alloc[b := nunits];
      freep := prevp;
      Carved(old(mem), old(ring), old(alloc), obtained, brk, i, nunits, b, mem, ring, alloc);
      r := b + 1;
    }

    // malloc's loop until it finds a block or is back at freep, the last one it
    // looks at: one turn of the list
    method Scan(nunits: nat, ghost turn: seq<Blk>) returns (found: bool, prevp: nat, p: nat, ghost t: nat)
      requires Walk(mem, turn) && turn[0].at == freep
      ensures found == Fits(turn, nunits)
      ensures 1 <= t <= |turn| && p == turn[Wrap(t, |turn|)].at && prevp == turn[t-1].at
      ensures found ==> turn[Wrap(t, |turn|)].size >= nunits
      ensures forall u | 1 <= u < t :: turn[u].size < nunits
    {
      t := 1;
      assert Stride(mem, turn, 0);
      assert Stride(mem, turn, Wrap(1, |turn|));
      prevp, p := freep, mem[freep].ptr;
      while mem[p].size < nunits && p != freep
        invariant 1 <= t <= |turn| && p == turn[Wrap(t, |turn|)].at && prevp == turn[t-1].at && p in mem
        invariant mem[p].size == turn[Wrap(t, |turn|)].size && (p == freep <==> t == |turn|)
        invariant forall u | 1 <= u < t :: turn[u].size < nunits
        decreases |turn| - t
      {
        assert Stride(mem, turn, t);
        prevp := p;
        p := mem[p].ptr;
        t := t + 1;
        assert Stride(mem, turn, Wrap(t, |turn|));
      }
      found := mem[p].size >= nunits;
    }

    // One turn from freep, and the block it found cut out
    method TakeTurn(nunits: nat) returns (r: nat, ghost i: nat)
      requires Ready() && nunits > 0
      modifies this`mem, this`freep, this`ring, this`alloc
      ensures Ready() && (r == 0 <==> !Fits(old(ring), nunits))
      ensures r == 0 ==> alloc == old(alloc) && ring == old(ring)
      ensures r != 0 ==> r - 1 !in old(alloc) && alloc == old(alloc)[r - 1 := nunits]
      ensures r != 0 ==> CutAt(old(ring), old(freep), nunits, i, r, freep)
    {
      ghost var f := TurnWalk(mem, ring, freep);
      TurnFits(ring, f, nunits);
      var found, prevp, p;
      ghost var t;
      found, prevp, p, t := Scan(nunits, Turn(ring, f));
      r, i := 0, 0;
      if found {
        i := FoundAt(ring, f, t, nunits);
        r := Carve(prevp, p, nunits, i);
      }
    }

    // malloc's loop: when the first turn finds nothing, morecore is called once,
    // and the turn that then starts from the new freep always finds a block.
    method Take(nunits: nat) returns (r: nat, ghost i: nat)
      requires Ready() && nunits > 0 && (Fits(ring, nunits) || AskedUnits(nunits) * HEADER < U32 / 2)
      modifies this`mem, this`freep, this`brk, this`ring, this`alloc, this`obtained
      ensures Ready()
      ensures r == 0 <==> !Fits(old(ring), nunits) && old(brk) + AskedUnits(nunits) > limit
      ensures r == 0 ==> alloc == old(alloc)
      ensures r != 0 ==> r - 1 !in old(alloc) && alloc == old(alloc)[r - 1 := nunits]
      ensures Fits(old(ring), nunits) ==> CutAt(old(ring), old(freep), nunits, i, r, freep)
      ensures brk == old(brk) + More(old(ring), nunits, r)
      ensures obtained == old(obtained) + Interval(old(brk), More(old(ring), nunits, r))
    {
      r, i := TakeTurn(nunits);
      if r == 0 {
        r := TakeMore(nunits);
      }
    }

    // morecore, and the turn after it
    method TakeMore(nunits: nat) returns (r: nat)
      requires Ready() && nunits > 0 && AskedUnits(nunits) * HEADER < U32 / 2
      modifies this`mem, this`freep, this`brk, this`ring, this`alloc, this`obtained
      ensures Ready()
      ensures r == 0 <==> old(brk) + AskedUnits(nunits) > limit
      ensures r == 0 ==> alloc == old(alloc) && brk == old(brk) && obtained == old(obtained)
      ensures r != 0 ==> r - 1 !in old(alloc) && alloc == old(alloc)[r - 1 := nunits]
      ensures r != 0 ==> brk == old(brk) + AskedUnits(nunits)
      ensures r != 0 ==> obtained == old(obtained) + Interval(old(brk), AskedUnits(nunits))
    {
      r := 0;
      var p := Morecore(nunits);
      if p != 0 {
        ghost var i;
        r, i := TakeTurn(nunits);
      }
    }

    // The first call makes base a list of its own.
    method Init()
      requires Valid() && freep == 0
      modifies this`mem, this`freep, this`ring
      ensures Ready() && forall n: nat | n > 0 :: !Fits(ring, n)
    {
      mem := mem[base := Header(base, 0)];
      freep := base;
      ring := [Blk(base, 0)];
      assert ring[0].at == base;
      forall u: nat ensures !FreeUnit(ring, u) && !UsedUnit(alloc, u) {
      }
    }

    // malloc(nbytes). A request too big for sbrk's argument is in scope if the
    // free list can serve it.
    method Malloc(nbytes: nat) returns (r: nat, ghost i: nat)
      requires Valid() && nbytes < U32
      requires Fits(ring, NUnits(nbytes)) || AskedUnits(NUnits(nbytes)) * HEADER < U32 / 2
      modifies this
      ensures Ready() && Valid()
      ensures r == 0 <==> !Fits(old(ring), NUnits(nbytes)) && old(brk) + AskedUnits(NUnits(nbytes)) > limit
      ensures r == 0 ==> alloc == old(alloc)
      ensures r != 0 ==> r - 1 !in old(alloc) && alloc == old(alloc)[r - 1 := NUnits(nbytes)]
      ensures Fits(old(ring), NUnits(nbytes)) ==> CutAt(old(ring), old(freep), NUnits(nbytes), i, r, freep)
      ensures brk == old(brk) + More(old(ring), NUnits(nbytes), r)
      ensures obtained == old(obtained) + Interval(old(brk), More(old(ring), NUnits(nbytes), r))
    {
      var nunits := (nbytes + HEADER - 1) % U32 / HEADER + 1;
      if freep == 0 {
        Init();
        assert !Fits(old(ring), nunits) && !Fits(ring, nunits);
      }
      r, i := Take(nunits);
    }
  }

  // What malloc gets from sbrk when it returns r
  ghost function More(ring: seq<Blk>, nunits: nat, r: nat): (n: nat) {
    if r == 0 || Fits(ring, nunits) then 0 else AskedUnits(nunits)
  }
}
