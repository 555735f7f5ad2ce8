// kalloc.c and vm.c: the frame allocator and the address spaces built on it.
module Vm {
  import opened Bytes
  import opened VmSpec

  const W: nat := 2     // PTE_W
  const WU: nat := 6    // PTE_W|PTE_U

  class Machine {
    const lo: nat            // first frame after the kernel image
    const dataPage: nat      // V2P(data) / PGSIZE
    var mem: Memory
    var freelist: Uint       // address of the first free frame
    ghost var fl: seq<nat>   // the free frames in list order
    ghost var own: Roles

    ghost predicate Valid()
      reads this
    {
      Sane(mem, freelist, fl, own, lo)
    }

    // kinit1 before its freerange: the list is empty and every frame is held.
    constructor (image: Memory, lo: nat, dataPage: nat)
      requires 0 < lo
      ensures Valid() && this.lo == lo && this.dataPage == dataPage && mem == image && fl == []
      ensures forall f :: (f in own <==> lo <= f < NFRAMES) && (f in own ==> own[f] == Held)
    {
      this.lo, this.dataPage := lo, dataPage;
      mem, freelist, fl := image, 0, [];
      own := AllHeld(lo);
    }

    // kalloc: the first free frame as it is, or null
    method Kalloc() returns (f: nat)
      requires Valid()
      modifies this`freelist, this`fl, this`own
      ensures Valid() && (f == 0 <==> old(fl) == [])
      ensures f == 0 ==> own == old(own) && fl == old(fl) && freelist == old(freelist)
      ensures f != 0 ==> lo <= f < NFRAMES && f !in old(own) && own == old(own)[f := Held] && [f] + fl == old(fl)
      ensures f != 0 ==> old(freelist) == 0x8000_0000 + f * 4096 && freelist == mem[f][0]
    {
      var r := freelist;
      if r == 0 {
        return 0;
      }
      Allocated(mem, freelist, fl, own, lo);
      f := (r - KERNBASE) / PGSIZE;
      freelist := mem[f][0];
      fl, own := fl[1..], own[f := Held];
    }

    // kfree: junk, then the head of the free list. Only its panic is required away;
    // whether the frame may be freed is the callers' concern.
    method Kfree(f: nat)
      requires lo <= f < NFRAMES
      modifies this`mem, this`freelist, this`fl
      ensures mem == Freed(old(mem), old(freelist), f) && freelist == Va(f) && fl == [f] + old(fl)
      ensures freelist == 0x8000_0000 + f * 4096 && mem[f][0] == old(freelist)
      ensures forall i | 1 <= i < NENTRIES :: mem[f][i] == 0x01010101
      ensures forall g | 0 <= g < NFRAMES && g != f :: mem[g] == old(mem)[g]
    {
      mem := mem[f := Junk(freelist)];
      freelist := Va(f);
      fl := [f] + fl;
    }

    method KfreeIdle(f: nat)
      requires Valid() && f in own && Idle(own[f])
      modifies this`mem, this`freelist, this`fl, this`own
      ensures Valid() && own == old(own) - {f} && forall g | g in own :: g < NFRAMES && mem[g] == old(mem)[g]
    {
      Released(mem, freelist, fl, own, lo, f);
      Kfree(f);
      own := own - {f};
    }

    // walkpgdir: the page table of page v of directory d, or null
    method Walkpgdir(d: nat, v: nat, alloc: bool) returns (t: nat)
      requires Valid() && IsDir(own, d) && v < VPAGES
      modifies this
      ensures Valid() && IsDir(own, d) && Kept(old(mem), old(own), mem, own, d, 0, 0) && SamePtes(old(mem), mem, d)
      ensures t != 0 ==> TableAt(mem, d, v, t)
      ensures t != 0 ==> mem[d][v / NENTRIES] == t * PGSIZE + 7
      ensures alloc && t != 0 ==> Spent(old(mem)[d], mem[d], v / NENTRIES, v / NENTRIES + 1, |old(fl)|, |fl|, 0)
      ensures alloc && t == 0 ==> |old(fl)| < Missing(mem[d], v / NENTRIES, v / NENTRIES + 1)
      ensures t == 0 ==> Pte(mem, d, v) == 0 && !Present(Pde(mem, d, v / NENTRIES)) && (alloc ==> fl == [])
      ensures t == 0 || !alloc ==> mem == old(mem) && own == old(own) && fl == old(fl) && freelist == old(freelist)
    {
      var x := v / NENTRIES;
      var pde := mem[d][x];
      if Present(pde) {
        t := Frame(pde);
        TableOwned(mem, own, lo, d, v, t);
        EntryOpen(mem, own, lo, d, v, t);
        SpentOne(mem[d], mem[d], x, |fl|, |fl|);
      } else if !alloc {
        t := 0;
      } else {
        t := NewTable(d, v);
        MissingOne(old(mem)[d], x);
        if t != 0 {
          EntryOpen(mem, own, lo, d, v, t);
        }
      }
    }

    // A zeroed page table for page v
    method NewTable(d: nat, v: nat) returns (t: nat)
      requires Valid() && IsDir(own, d) && v < VPAGES && !Present(Pde(mem, d, v / NENTRIES))
      modifies this
      ensures Valid() && IsDir(own, d) && Kept(old(mem), old(own), mem, own, d, 0, 0) && SamePtes(old(mem), mem, d)
      ensures t != 0 ==> TableAt(mem, d, v, t)
      ensures t != 0 ==> Spent(old(mem)[d], mem[d], v / NENTRIES, v / NENTRIES + 1, |old(fl)|, |fl|, 0)
      ensures t == 0 ==> old(fl) == [] && mem == old(mem) && own == old(own) && fl == old(fl)
      ensures t == 0 ==> freelist == old(freelist)
    {
      var x := v / NENTRIES;
      ghost var m0, own0, n0 := mem, own, |fl|;
      t := Kalloc();
      if t == 0 {
        KeptNone(mem, own, d);
        return;
      }
      mem := mem[t := Fill(0)];
      mem := mem[d := mem[d][x := Entry(t, WU)]];
      own := own[t := Table(d, x)];
      assert own == own0[t := Table(d, x)];
      LinkedSane(m0, own0, lo, freelist, fl, d, x, t, mem, own);
      SpentOne(m0[d], mem[d], x, n0, |fl|);
    }

    // One turn of mappages. It panics on a page that is present.
    method MapOne(d: nat, v: nat, pf: nat, perm: nat) returns (ok: bool)
      requires Valid() && IsDir(own, d) && v < VPAGES && pf < VPAGES && perm < PGSIZE && !Present(Pte(mem, d, v))
      requires v < UPAGES ==> pf in own && own[pf] == Held
      modifies this
      ensures Valid() && IsDir(own, d) && (!ok ==> fl == [] && SamePtes(old(mem), mem, d))
      ensures ok ==> OnePte(old(mem), mem, d, v, Entry(pf, perm)) && Present(Pde(mem, d, v / NENTRIES))
      ensures ok ==> Spent(old(mem)[d], mem[d], v / NENTRIES, v / NENTRIES + 1, |old(fl)|, |fl|, 0)
      ensures !ok ==> |old(fl)| < Missing(old(mem)[d], v / NENTRIES, v / NENTRIES + 1)
      ensures !ok || v >= UPAGES ==> Kept(old(mem), old(own), mem, own, d, 0, 0)
      ensures ok && v < UPAGES ==> Kept(old(mem), old(own) - {pf}, mem, own, d, v, v + 1) && mem[pf] == old(mem)[pf]
    {
      var t := Walkpgdir(d, v, true);
      if t == 0 {
        return false;
      }
      ghost var m1, own1 := mem, own;
      TableOwned(mem, own, lo, d, v, t);
      mem := mem[t := mem[t][v % NENTRIES := Entry(pf, perm)]];
      own := MapRole(own, d, v, pf);
      MapOneSane(old(mem), old(own), m1, freelist, fl, own1, lo, d, v, t, pf, perm, mem, own);
      ok := true;
    }

    // mappages: k pages from that of va on are mapped, to the frames from pa's on; it
    // stops at the first page table it cannot allocate.
    method Mappages(d: nat, va: Uint, size: Uint, pa: Uint, perm: nat) returns (r: int, ghost k: nat)
      requires Valid() && IsDir(own, d) && size > 0 && va + size <= U32 && pa % PGSIZE == 0 && perm < PGSIZE
      requires FirstPage(pa) + LastPage(va, size) - FirstPage(va) < VPAGES
      requires Mappable(mem, own, d, FirstPage(va), LastPage(va, size), FirstPage(pa))
      modifies this
      ensures Valid() && IsDir(own, d) && r == (if FirstPage(va) + k == LastPage(va, size) + 1 then 0 else -1)
      ensures r == 0 ==> Taken(old(mem)[d], mem[d], FirstPage(va), LastPage(va, size) + 1, |old(fl)|, |fl|, false)
      ensures r != 0 ==> fl == [] && |old(fl)| < TablesFor(old(mem)[d], FirstPage(va), LastPage(va, size) + 1)
      ensures Ranged(old(mem), old(own), mem, own, d, FirstPage(va), LastPage(va, size), FirstPage(pa), perm, k)
    {
      r, k := MapRange(d, FirstPage(va), LastPage(va, size), FirstPage(pa), perm);
    }

    // The loop of mappages, on page numbers
    method MapRange(d: nat, first: nat, last: nat, pf0: nat, perm: nat) returns (r: int, ghost k: nat)
      requires Valid() && IsDir(own, d) && first <= last < VPAGES && pf0 + last - first < VPAGES && perm < PGSIZE
      requires Mappable(mem, own, d, first, last, pf0)
      modifies this
      ensures r == (if first + k == last + 1 then 0 else -1)
      ensures if r == 0 then MappedTo(d, first, last, pf0, perm, k, old(mem), old(own), |old(fl)|)
        else Valid() && IsDir(own, d) && Ranged(old(mem), old(own), mem, own, d, first, last, pf0, perm, k)
      ensures r != 0 ==> fl == [] && |old(fl)| < TablesFor(old(mem)[d], first, last + 1)
    {
      var a, pf := first, pf0;
      k := 0;
      ghost var m0, own0, n0 := mem, own, |fl|;
      KeptNone(mem, own, d);
      RangedStart(mem, own, d, first, last, pf0, perm);
      TakenStart(mem[d], first, n0, false);
      while true
        invariant first <= a <= last && k == a - first && pf == pf0 + k
        invariant MappedTo(d, first, last, pf0, perm, k, m0, own0, n0)
        decreases last - a
      {
        var ok := MapNext(d, first, last, pf0, perm, k, a, pf, m0, own0, n0);
        if !ok {
          return -1, k;
        }
        k := k + 1;
        if a == last {
          break;
        }
        a := a + 1;
        pf := pf + 1;
      }
      r := 0;
    }

    // The first k pages of the range have been mapped.
    ghost predicate MappedTo(d: nat, first: nat, last: nat, pf0: nat, perm: nat, k: nat, m0: Memory, own0: Roles,
                             n0: nat)
      reads this
    {
      && Valid() && IsDir(own, d) && Ranged(m0, own0, mem, own, d, first, last, pf0, perm, k)
      && (k == 0 ==> mem == m0 && own == own0) && Taken(m0[d], mem[d], first, first + k, n0, |fl|, false)
    }

    // One turn of the loop
    method MapNext(d: nat, ghost first: nat, ghost last: nat, ghost pf0: nat, perm: nat, ghost k: nat, a: nat, pf: nat,
                   ghost m0: Memory, ghost own0: Roles, ghost n0: nat) returns (ok: bool)
      requires MappedTo(d, first, last, pf0, perm, k, m0, own0, n0) && first + k == a <= last < VPAGES && pf == pf0 + k
      requires pf0 + last - first < VPAGES && perm < PGSIZE
      requires Mappable(m0, own0, d, first, last, pf0)
      modifies this
      ensures if ok then MappedTo(d, first, last, pf0, perm, k + 1, m0, own0, n0)
        else Valid() && IsDir(own, d) && Ranged(m0, own0, mem, own, d, first, last, pf0, perm, k)
      ensures !ok ==> fl == [] && n0 < TablesFor(m0[d], first, last + 1)
    {
      RangedNext(m0, own0, mem, own, d, first, last, pf0, perm, k);
      ghost var m1, own1, n1 := mem, own, |fl|;
      ok := MapOne(d, a, pf, perm);
      TabledTurn(ok, m0[d], m1[d], mem[d], first, a, last, n0, n1, |fl|);
      RangedTurn(ok, m0, own0, m1, own1, mem, own, d, first, last, pf0, perm, k, a, pf);
    }

    // One turn of deallocuvm. The result is the page the loop goes on to before its
    // own step.
    method DeallocTurn(d: nat, v: nat, hi: nat, ghost m0: Memory, ghost own0: Roles, ghost first: nat) returns (v1: nat)
      requires Valid() && IsDir(own, d) && first <= v < hi <= UPAGES
      requires Spaces(m0, own0, lo) && Dealloced(m0, own0, mem, own, d, first, v)
      modifies this
      ensures Valid() && IsDir(own, d) && v <= v1 < UPAGES
      ensures Dealloced(m0, own0, mem, own, d, first, if v1 + 1 <= hi then v1 + 1 else hi)
    {
      var t := Walkpgdir(d, v, false);
      if t == 0 {
        v1 := (v / NENTRIES + 1) * NENTRIES - 1;   // PGADDR(PDX(a) + 1, 0, 0) - PGSIZE
        DeallocNext(m0, own0, mem, own, lo, d, first, v, hi, v1);
      } else {
        v1 := v;
        DeallocPage(d, v, t, m0, own0, first);
      }
    }

    // The entry of page v, if it is present
    method DeallocPage(d: nat, v: nat, t: nat, ghost m0: Memory, ghost own0: Roles, ghost first: nat)
      requires Valid() && IsDir(own, d) && first <= v < UPAGES && TableAt(mem, d, v, t)
      requires Spaces(m0, own0, lo) && Dealloced(m0, own0, mem, own, d, first, v)
      modifies this
      ensures Valid() && IsDir(own, d) && Dealloced(m0, own0, mem, own, d, first, v + 1)
    {
      TableOwned(mem, own, lo, d, v, t);
      var pte := mem[t][v % NENTRIES];
      if Present(pte) {
        FreePage(d, v, t, Frame(pte), m0, own0, first);
      } else {
        DeallocSkip(m0, own0, mem, own, lo, d, first, v, v + 1);
      }
    }

    // kfree(v); *pte = 0
    method FreePage(d: nat, v: nat, t: nat, p: nat, ghost m0: Memory, ghost own0: Roles, ghost first: nat)
      requires Valid() && IsDir(own, d) && first <= v < UPAGES && TableAt(mem, d, v, t) && Present(Pte(mem, d, v))
      requires p == Frame(Pte(mem, d, v))
      requires Spaces(m0, own0, lo) && Dealloced(m0, own0, mem, own, d, first, v)
      modifies this
      ensures Valid() && IsDir(own, d) && Dealloced(m0, own0, mem, own, d, first, v + 1)
    {
      TableOwned(mem, own, lo, d, v, t);
      assert UserSlot(mem, own, d, v);
      Kfree(p);
      mem := mem[t := mem[t][v % NENTRIES := 0]];
      own := own - {p};
      DeallocState(old(mem), old(freelist), old(fl), old(own), lo, d, v, t, p, mem);
      DeallocStep(m0, own0, old(mem), old(own), lo, d, first, v, t, p, mem, own);
    }

    // deallocuvm: exactly the present pages from PGROUNDUP(newsz) to oldsz are unmapped
    // and freed; skipping a directory entry without a table misses none.
    method Deallocuvm(d: nat, oldsz: nat, newsz: nat) returns (r: nat)
      requires Valid() && IsDir(own, d) && oldsz <= KERNBASE
      modifies this
      ensures Valid() && IsDir(own, d)
      ensures newsz >= oldsz ==> r == oldsz && mem == old(mem) && own == old(own)
      ensures newsz < oldsz ==> r == newsz && Dealloced(old(mem), old(own), mem, own, d, PageUp(newsz), PageUp(oldsz))
    {
      if newsz >= oldsz {
        return oldsz;
      }
      var v, hi := PageUp(newsz), PageUp(oldsz);
      DeallocStart(mem, own, lo, d, v);
      while v * PGSIZE < oldsz
        invariant PageUp(newsz) <= v <= UPAGES && Valid() && IsDir(own, d)
        invariant Dealloced(old(mem), old(own), mem, own, d, PageUp(newsz), if v <= hi then v else hi)
        decreases UPAGES - v
      {
        v := DeallocTurn(d, v, hi, old(mem), old(own), PageUp(newsz));
        v := v + 1;
      }
      r := newsz;
    }

    // freevm: everything that belongs to directory d is free, and nothing else.
    method Freevm(d: nat)
      requires Valid() && IsDir(own, d)
      modifies this
      ensures Valid() && own == Without(old(own), d) && forall f | f in own :: f < NFRAMES && mem[f] == old(mem)[f]
    {
      var _ := Deallocuvm(d, KERNBASE, 0);
      FreevmUsers(old(mem), old(own), mem, own, lo, d);
      FreeTables(d);
    }

    // One turn of freevm's loop over the directory
    method FreeTable(d: nat, i: nat, ghost m0: Memory, ghost own0: Roles)
      requires State(mem, freelist, fl, own, lo) && Spaces(m0, own0, lo) && Tearing(m0, own0, mem, own, d, i)
      requires i < NENTRIES
      modifies this`mem, this`freelist, this`fl, this`own
      ensures State(mem, freelist, fl, own, lo) && Tearing(m0, own0, mem, own, d, i + 1)
    {
      TearStep(m0, own0, lo, mem, freelist, fl, own, d, i);
      if Present(mem[d][i]) {
        var f := Frame(mem[d][i]);
        Kfree(f);
        own := own - {f};
      }
    }

    method FreeTables(d: nat)
      requires Valid() && IsDir(own, d) && NoUsers(own, d)
      modifies this
      ensures Valid() && own == Without(old(own), d) && forall f | f in own :: f < NFRAMES && mem[f] == old(mem)[f]
    {
      TearStart(mem, own, lo, d);
      own := Torn(own, d, 0);
      var i := 0;
      while i < NENTRIES
        invariant 0 <= i <= NENTRIES && State(mem, freelist, fl, own, lo) && Tearing(old(mem), old(own), mem, own, d, i)
      {
        FreeTable(d, i, old(mem), old(own));
        i := i + 1;
      }
      FreeDir(d, old(mem), old(own));
    }

    // kfree(pgdir), once its tables are gone
    method FreeDir(d: nat, ghost m0: Memory, ghost own0: Roles)
      requires Spaces(m0, own0, lo) && NoUsers(own0, d) && Tidy(own0)
      requires State(mem, freelist, fl, own, lo) && Tearing(m0, own0, mem, own, d, NENTRIES)
      modifies this
      ensures Valid() && own == Without(own0, d) && forall f | f in own :: f < NFRAMES && mem[f] == m0[f]
    {
      TearEnd(m0, own0, lo, mem, freelist, fl, own, d);
      Kfree(d);
      own := own - {d};
    }

    // One turn of setupkvm's loop
    method MapKernel(d: nat, k: nat, e: Kmap) returns (ok: bool)
      requires Valid() && IsDir(own, d) && 256 < dataPage < NFRAMES && k < 4 && e == KernelMap(dataPage * PGSIZE)[k]
      requires KernelUpTo(mem, d, dataPage, KernelBound(dataPage, k)) && KernelTabled(mem[d], dataPage, k)
      modifies this
      ensures Valid() && IsDir(own, d) && Kept(old(mem), old(own), mem, own, d, 0, 0)
      ensures ok ==> KernelTabled(mem[d], dataPage, k + 1)
      ensures ok ==> |old(fl)| == |fl| + KernelTables(dataPage, k + 1) - KernelTables(dataPage, k)
      ensures !ok ==> fl == [] && |old(fl)| < KernelTables(dataPage, k + 1) - KernelTables(dataPage, k)
      ensures ok ==> KernelUpTo(mem, d, dataPage, KernelBound(dataPage, k + 1))
    {
      KernelRun(mem, d, dataPage, k);
      ghost var m0, n0 := mem, |fl|;
      var size: Uint := (e.physEnd - e.physStart) % U32;
      ghost var first, last := KernelPages(dataPage, k, e, size);
      var r, kk := Mappages(d, e.virt, size, e.physStart, e.perm);
      ok := r >= 0;
      assert ok ==> first + kk - 1 == last;
      KernelMapped(ok, m0, mem, d, dataPage, k, n0, |fl|, e, first, last);
    }

    // A zeroed page directory
    method EmptyDir(d: nat, ghost m0: Memory, ghost own0: Roles)
      requires Valid() && Spaces(m0, own0, lo) && d !in own0 && lo <= d < NFRAMES && mem == m0 && own == own0[d := Held]
      requires 0 < dataPage < NFRAMES
      modifies this
      ensures Valid() && IsDir(own, d) && Kept(m0, own0, mem, own, d, 0, 0) && fl == old(fl)
      ensures KernelUpTo(mem, d, dataPage, KernelBound(dataPage, 0)) && KernelTabled(mem[d], dataPage, 0)
    {
      mem := mem[d := Fill(0)];
      own := own[d := Dir];
      assert own == own0[d := Dir];
      NewDir(m0, own0, lo, d, mem, own);
      FreeListFrame(m0, mem, freelist, fl);
      KernelEmpty(mem, d, dataPage);
    }

    method FillKernel(d: nat, ghost m0: Memory, ghost own0: Roles) returns (ok: bool)
      requires Valid() && Spaces(m0, own0, lo) && d !in own0 && lo <= d < NFRAMES && mem == m0 && own == own0[d := Held]
      requires 256 < dataPage < NFRAMES
      modifies this
      ensures Valid() && IsDir(own, d) && Kept(m0, own0, mem, own, d, 0, 0)
      ensures if ok then |old(fl)| == |fl| + KERNELTABLES else |old(fl)| < KERNELTABLES
      ensures ok ==> KernelUpTo(mem, d, dataPage, VPAGES) && KernelTabled(mem[d], dataPage, 4)
    {
      ghost var n0 := |fl|;
      EmptyDir(d, m0, own0);
      var kmap := KernelMap(dataPage * PGSIZE);
      var k := 0;
      while k < 4
        invariant 0 <= k <= 4 && Valid() && IsDir(own, d) && Kept(m0, own0, mem, own, d, 0, 0)
        invariant KernelUpTo(mem, d, dataPage, KernelBound(dataPage, k)) && KernelTabled(mem[d], dataPage, k)
        invariant n0 == |fl| + KernelTables(dataPage, k)
      {
        ghost var m1, own1 := mem, own;
        ok := MapKernel(d, k, kmap[k]);
        KeptBoth(m0, own0, m1, own1, mem, own, d, 0, 0, 0);
        if !ok {
          return;
        }
        k := k + 1;
      }
      ok := true;
    }

    // freevm of a directory made since m0, own0
    method DropNew(d: nat, ghost m0: Memory, ghost own0: Roles, ghost hi: nat)
      requires Valid() && IsDir(own, d) && Spaces(m0, own0, lo) && Tidy(own0) && d !in own0
      requires Kept(m0, own0, mem, own, d, 0, hi) && hi <= UPAGES
      modifies this
      ensures Valid() && own == own0 && forall f | f in own :: f < NFRAMES && mem[f] == m0[f]
    {
      WithoutNew(m0, own0, mem, own, lo, d, hi);
      Freevm(d);
    }

    // setupkvm: a new directory with exactly the kernel's half, or null with every
    // frame back. It takes the directory and its page tables.
    method Setupkvm() returns (d: nat)
      requires Valid() && 256 < dataPage < NFRAMES
      modifies this
      ensures Valid() && (d != 0 <==> |old(fl)| >= 1 + KERNELTABLES)
      ensures d == 0 ==> own == old(own) && forall f | f in own :: f < NFRAMES && mem[f] == old(mem)[f]
      ensures d != 0 ==> d !in old(own) && IsDir(own, d) && Kept(old(mem), old(own), mem, own, d, 0, 0)
      ensures d != 0 ==> |old(fl)| == |fl| + 1 + KERNELTABLES
      ensures d != 0 ==> d < NFRAMES && KernelUpTo(mem, d, dataPage, VPAGES) && KernelTabled(mem[d], dataPage, 4)
      ensures d != 0 ==> forall v, write | 0 <= v < VPAGES :: !UserMay(mem, d, v, write)
    {
      d := Kalloc();
      if d == 0 {
        return;
      }
      var ok := FillKernel(d, old(mem), old(own));
      if !ok {
        DropNew(d, old(mem), old(own), 0);
        d := 0;
      } else {
        KernelClosed(mem, own, lo, d, dataPage);
      }
    }

    // kalloc and the contents of the new frame
    method TakePage(d: nat, page: Page) returns (f: nat)
      requires Valid() && IsDir(own, d)
      modifies this
      ensures Valid() && IsDir(own, d) && SamePtes(old(mem), mem, d)
      ensures f == 0 ==> mem == old(mem) && own == old(own) && fl == [] == old(fl)
      ensures f != 0 ==> lo <= f < NFRAMES && f !in old(own) && own == old(own)[f := Held] && mem[f] == page
      ensures f != 0 ==> |fl| == |old(fl)| - 1
      ensures own - {f} == old(own) && forall g | g in old(own) :: g < NFRAMES && mem[g] == old(mem)[g]
    {
      f := Kalloc();
      if f == 0 {
        assert own - {0} == own;
      } else {
        HeldFilled(mem, freelist, fl, own, lo, d, f, page, mem[f := page]);
        mem := mem[f := page];
      }
    }

    // The body that allocuvm's and copyuvm's loops share: kalloc, the contents, mappages.
    // When mappages fails the frame f is still held.
    method PlacePage(d: nat, v: nat, page: Page, perm: nat) returns (ok: bool, f: nat)
      requires Valid() && IsDir(own, d) && v < UPAGES && perm < PGSIZE && !Present(Pte(mem, d, v))
      modifies this
      ensures Valid() && IsDir(own, d)
      ensures ok ==> Spent(old(mem)[d], mem[d], v / NENTRIES, v / NENTRIES + 1, |old(fl)|, |fl|, 1)
      ensures !ok ==> |old(fl)| < 1 + Missing(old(mem)[d], v / NENTRIES, v / NENTRIES + 1)
      ensures ok ==> Kept(old(mem), old(own), mem, own, d, v, v + 1)
      ensures ok ==> PageIs(mem, Pte(mem, d, v), Want(page, Flags(perm)))
      ensures ok ==> forall u | 0 <= u < VPAGES && u != v :: Pte(mem, d, u) == Pte(old(mem), d, u)
      ensures !ok ==> fl == [] && Kept(old(mem), old(own), mem, own - {f}, d, 0, 0) && SamePtes(old(mem), mem, d)
      ensures !ok && f != 0 ==> f in own && own[f] == Held
    {
      f := TakePage(d, page);
      if f == 0 {
        KeptNone(mem, own, d);
        return false, 0;
      }
      ghost var m1, own1 := mem, own;
      ghost var k;
      ok, k := MapUser(d, v, f, perm);
      if ok {
        PlacedPage(old(mem), old(own), m1, own1, mem, own, d, v, f, perm, Want(page, Flags(perm)));
      } else {
        FailedPage(old(mem), old(own), m1, own1, mem, own, lo, d, v, f, perm);
      }
    }

    // mappages of one page
    method MapUser(d: nat, v: nat, f: nat, perm: nat) returns (ok: bool, ghost k: nat)
      requires Valid() && IsDir(own, d) && v < UPAGES && f < NFRAMES && perm < PGSIZE && Mappable(mem, own, d, v, v, f)
      modifies this
      ensures Valid() && IsDir(own, d) && ok == (k == 1) && k <= 1 && (!ok ==> fl == [])
      ensures ok ==> Spent(old(mem)[d], mem[d], v / NENTRIES, v / NENTRIES + 1, |old(fl)|, |fl|, 0)
      ensures !ok ==> |old(fl)| < Missing(old(mem)[d], v / NENTRIES, v / NENTRIES + 1)
      ensures Ranged(old(mem), old(own), mem, own, d, v, v, f, perm, k)
    {
      OnePage(v);
      OnePage(f);
      var r;
      r, k := Mappages(d, v * PGSIZE, PGSIZE, f * PGSIZE, perm);
      ok := r >= 0;
    }

    // One turn of a loop that fills pages lo on with wants
    method FillTurn(d: nat, first: nat, v: nat, page: Page, perm: nat, ghost wants: seq<Want>, ghost m0: Memory,
                    ghost own0: Roles)
      returns (ok: bool, f: nat)
      requires Valid() && IsDir(own, d) && first <= v < first + |wants| && perm < PGSIZE
      requires wants[v - first] == Want(page, Flags(perm))
      requires Filled(m0, mem, d, first, v, wants) && Kept(m0, own0, mem, own, d, first, v) && !Present(Pte(m0, d, v))
      requires IsDir(own0, d)
      modifies this
      ensures Valid() && IsDir(own, d)
      ensures ok ==> Spent(old(mem)[d], mem[d], v / NENTRIES, v / NENTRIES + 1, |old(fl)|, |fl|, 1)
      ensures !ok ==> |old(fl)| < 1 + Missing(old(mem)[d], v / NENTRIES, v / NENTRIES + 1)
      ensures ok ==> Filled(m0, mem, d, first, v + 1, wants) && Kept(m0, own0, mem, own, d, first, v + 1)
      ensures !ok ==> fl == [] && Filled(m0, mem, d, first, v, wants) && Kept(m0, own0, mem, own - {f}, d, first, v)
      ensures !ok && f != 0 ==> f in own && own[f] == Held
    {
      assert FilledPte(m0, mem, d, first, v, wants, v);
      ok, f := PlacePage(d, v, page, perm);
      if ok {
        FilledStep(m0, old(mem), old(own), mem, own, lo, d, first, v, wants);
        KeptJoin(m0, own0, old(mem), old(own), mem, own, d, first, v, v, v + 1, first, v + 1);
      } else {
        KeptJoin(m0, own0, old(mem), old(own), mem, own - {f}, d, first, v, 0, 0, first, v);
        FilledSame(m0, old(mem), old(own), mem, own - {f}, lo, d, first, v, wants);
      }
    }

    // kfree of a frame that was never mapped
    method KfreeHeld(d: nat, f: nat)
      requires Valid() && IsDir(own, d) && f in own && own[f] == Held
      modifies this
      ensures Valid() && IsDir(own, d) && own == old(own) - {f} && SamePtes(old(mem), mem, d)
      ensures forall g | g in own :: g < NFRAMES && mem[g] == old(mem)[g]
    {
      ReleasedPtes(mem, freelist, fl, own, lo, d, f);
      Kfree(f);
      own := own - {f};
    }

    // allocuvm's way out of memory: unmap what this call mapped and give back f.
    method AllocUndo(d: nat, oldsz: nat, newsz: nat, f: nat, ghost v: nat, ghost wants: seq<Want>, ghost m0: Memory,
                     ghost own0: Roles)
      requires Valid() && IsDir(own, d) && oldsz < newsz < KERNBASE && Spaces(m0, own0, lo)
      requires PageUp(oldsz) <= v <= PageUp(newsz) == PageUp(oldsz) + |wants|
      requires forall u | PageUp(oldsz) <= u < PageUp(newsz) :: !Present(Pte(m0, d, u))
      requires Filled(m0, mem, d, PageUp(oldsz), v, wants) && Kept(m0, own0, mem, own - {f}, d, PageUp(oldsz), v)
      requires f != 0 ==> f in own && own[f] == Held
      modifies this
      ensures Valid() && IsDir(own, d) && Kept(m0, own0, mem, own, d, 0, 0)
      ensures Undone(m0, mem, d, PageUp(oldsz), PageUp(newsz))
    {
      var _ := Deallocuvm(d, newsz, oldsz);
      AllocUndone(m0, own0, lo, old(mem), old(own), f, mem, own, d, PageUp(oldsz), v, PageUp(newsz), wants);
      if f != 0 {
        ghost var m2 := mem;
        KfreeHeld(d, f);
        UndoneSame(m0, own0, m2, own, mem, d, PageUp(oldsz), PageUp(newsz));
      } else {
        assert own - {0} == own;
      }
    }

    // From m0 and own0, with n0 free frames, the pages from first to v have been filled.
    ghost predicate FilledTo(d: nat, first: nat, v: nat, wants: seq<Want>, m0: Memory, own0: Roles, n0: nat)
      reads this
    {
      && Valid() && IsDir(own, d) && Taken(m0[d], mem[d], first, v, n0, |fl|, true)
      && Filled(m0, mem, d, first, v, wants) && Kept(m0, own0, mem, own, d, first, v)
    }

    // One turn of allocuvm, with the way out of memory
    method AllocTurn(d: nat, oldsz: nat, newsz: nat, v: nat, ghost wants: seq<Want>, ghost m0: Memory,
                     ghost own0: Roles, ghost n0: nat, ghost next: nat)
      returns (ok: bool)
      requires next == v + 1
      requires FilledTo(d, PageUp(oldsz), v, wants, m0, own0, n0) && IsDir(own0, d) && Spaces(m0, own0, lo)
      requires oldsz < newsz < KERNBASE && PageUp(oldsz) <= v < PageUp(newsz)
      requires wants == ZeroPages(PageUp(newsz) - PageUp(oldsz))
      requires forall u | PageUp(oldsz) <= u < PageUp(newsz) :: !Present(Pte(m0, d, u))
      modifies this
      ensures if ok then FilledTo(d, PageUp(oldsz), next, wants, m0, own0, n0) else Valid() && IsDir(own, d)
      ensures !ok ==> n0 < FramesFor(m0[d], PageUp(oldsz), PageUp(newsz))
      ensures !ok ==> Kept(m0, own0, mem, own, d, 0, 0) && Undone(m0, mem, d, PageUp(oldsz), PageUp(newsz))
    {
      var f;
      ghost var d1, n1 := mem[d], |fl|;
      ok, f := FillTurn(d, PageUp(oldsz), v, Fill(0), WU, wants, m0, own0);
      TakenTurn(ok, m0[d], d1, mem[d], PageUp(oldsz), v, PageUp(newsz), n0, n1, |fl|, true);
      if !ok {
        AllocUndo(d, oldsz, newsz, f, v, wants, m0, own0);
      }
    }

    // allocuvm: zeroed writable user pages from PGROUNDUP(oldsz) to newsz, or, when
    // memory runs out, nothing but page tables.
    method Allocuvm(d: nat, oldsz: Uint, newsz: Uint) returns (r: nat, ghost ok: bool)
      requires Valid() && IsDir(own, d)
      requires newsz < KERNBASE ==> forall u | PageUp(oldsz) <= u < PageUp(newsz) :: !Present(Pte(mem, d, u))
      modifies this
      ensures Valid() && IsDir(own, d)
      ensures r == if newsz >= KERNBASE || !ok then 0 else if newsz < oldsz then oldsz else newsz
      ensures newsz >= KERNBASE || newsz < oldsz ==> ok && mem == old(mem) && own == old(own)
      ensures ok && oldsz <= newsz < KERNBASE ==> Kept(old(mem), old(own), mem, own, d, PageUp(oldsz), PageUp(newsz))
      ensures ok && oldsz <= newsz < KERNBASE ==>
        Filled(old(mem), mem, d, PageUp(oldsz), PageUp(newsz), ZeroPages(PageUp(newsz) - PageUp(oldsz)))
      ensures ok && oldsz <= newsz < KERNBASE ==>
        forall u | PageUp(oldsz) <= u < PageUp(newsz) :: UserMay(mem, d, u, true)
      ensures oldsz <= newsz < KERNBASE ==>
        (ok <==> |old(fl)| >= FramesFor(old(mem)[d], PageUp(oldsz), PageUp(newsz)))
      ensures ok && oldsz <= newsz < KERNBASE ==>
        |old(fl)| == |fl| + FramesFor(old(mem)[d], PageUp(oldsz), PageUp(newsz))
      ensures !ok ==> Kept(old(mem), old(own), mem, own, d, 0, 0)
      ensures !ok ==> Undone(old(mem), mem, d, PageUp(oldsz), PageUp(newsz))
    {
      ok := true;
      if newsz >= KERNBASE {
        return 0, ok;
      }
      if newsz < oldsz {
        return oldsz, ok;
      }
      r, ok := AllocPages(d, oldsz, newsz);
      if ok {
        FilledOpen(old(mem), mem, own, lo, d, PageUp(oldsz), PageUp(newsz));
      }
    }

    // The loop of allocuvm
    method AllocPages(d: nat, oldsz: Uint, newsz: Uint) returns (r: nat, ghost ok: bool)
      requires Valid() && IsDir(own, d) && oldsz <= newsz < KERNBASE
      requires forall u | PageUp(oldsz) <= u < PageUp(newsz) :: !Present(Pte(mem, d, u))
      modifies this
      ensures Valid() && IsDir(own, d) && r == if ok then newsz else 0
      ensures ok ==> Kept(old(mem), old(own), mem, own, d, PageUp(oldsz), PageUp(newsz))
      ensures ok ==> Filled(old(mem), mem, d, PageUp(oldsz), PageUp(newsz), ZeroPages(PageUp(newsz) - PageUp(oldsz)))
      ensures ok ==> |old(fl)| == |fl| + FramesFor(old(mem)[d], PageUp(oldsz), PageUp(newsz))
      ensures !ok ==> |old(fl)| < FramesFor(old(mem)[d], PageUp(oldsz), PageUp(newsz))
      ensures !ok ==> Kept(old(mem), old(own), mem, own, d, 0, 0)
      ensures !ok ==> Undone(old(mem), mem, d, PageUp(oldsz), PageUp(newsz))
    {
      ok := true;
      var v := PageUp(oldsz);
      ghost var m0, own0, n0 := mem, own, |fl|;
      ghost var wants := ZeroPages(PageUp(newsz) - PageUp(oldsz));
      FilledStart(mem, d, v, wants);
      KeptStart(mem, own, d, v, v);
      TakenStart(mem[d], v, n0, true);
      while v * PGSIZE < newsz
        invariant PageUp(oldsz) <= v <= PageUp(newsz) && FilledTo(d, PageUp(oldsz), v, wants, m0, own0, n0)
        decreases PageUp(newsz) - v
      {
        var next := v + 1;
        var placed := AllocTurn(d, oldsz, newsz, v, wants, m0, own0, n0, next);
        if !placed {
          return 0, false;
        }
        v := next;
      }
      r := newsz;
    }

    // One turn of copyuvm: page v of the parent d0, copied into the child d
    method CopyTurn(d0: nat, d: nat, v: nat, ghost wants: seq<Want>, ghost m0: Memory, ghost own0: Roles,
                    ghost m1: Memory, ghost own1: Roles, ghost n0: nat)
      returns (ok: bool)
      requires FilledTo(d, 0, v, wants, m1, own1, n0) && v < |wants| <= UPAGES
      requires Spaces(m0, own0, lo) && IsDir(own0, d0) && d !in own0 && Copies(m0, d0, wants)
      requires Kept(m0, own0, m1, own1, d, 0, 0) && IsDir(own1, d) && !Present(Pte(m1, d, v))
      modifies this
      ensures if ok then FilledTo(d, 0, v + 1, wants, m1, own1, n0) else Valid() && IsDir(own, d)
      ensures !ok ==> n0 < FramesFor(m1[d], 0, |wants|) && Kept(m0, own0, mem, own, d, 0, v)
    {
      assert CopyOf(m0, d0, v, wants[v]);
      KeptJoin(m0, own0, m1, own1, mem, own, d, 0, 0, 0, v, 0, v);
      OtherSpace(m0, own0, mem, own, lo, d, 0, v, d0, v);
      var t := Walkpgdir(d0, v, false);
      TableOwned(mem, own, lo, d0, v, t);
      var pte := mem[t][v % NENTRIES];
      var f;
      ghost var d1, n1 := mem[d], |fl|;
      ok, f := FillTurn(d, 0, v, mem[Frame(pte)], pte % PGSIZE, wants, m1, own1);
      TakenTurn(ok, m1[d], d1, mem[d], 0, v, |wants|, n0, n1, |fl|, true);
      if !ok {
        KeptJoin(m0, own0, m1, own1, mem, own - {f}, d, 0, 0, 0, v, 0, v);
        if f != 0 {
          ghost var m2, own2 := mem, own;
          KfreeHeld(d, f);
          KeptSameFrames(m0, own0, m2, mem, own, d, v);
        } else {
          assert own - {0} == own;
        }
      }
    }

    // copyuvm: the child maps copies of the parent's pages below sz with the parent's
    // flags, in frames of its own; or every frame is back, exactly if there are too few for
    // the directory, the kernel's page tables, the pages and the page tables for them.
    method Copyuvm(d0: nat, sz: nat) returns (d: nat)
      requires Valid() && IsDir(own, d0) && sz < KERNBASE && 256 < dataPage < NFRAMES
      requires forall u | 0 <= u < PageUp(sz) :: Present(Pte(mem, d0, u))
      modifies this
      ensures Valid()
      ensures d != 0 <==> |old(fl)| >= 1 + KERNELTABLES + PageUp(sz) + EntryEnd(0, PageUp(sz))
      ensures d != 0 ==> |old(fl)| == |fl| + 1 + KERNELTABLES + PageUp(sz) + EntryEnd(0, PageUp(sz))
      ensures d == 0 ==> own == old(own)
      ensures d == 0 ==> forall f | f in own :: f < NFRAMES && mem[f] == old(mem)[f]
      ensures d != 0 ==> d !in old(own) && IsDir(own, d) && Kept(old(mem), old(own), mem, own, d, 0, PageUp(sz))
      ensures d != 0 ==> Copied(old(mem), d0, mem, d, PageUp(sz), dataPage)
      ensures d != 0 ==>
        forall u, write | 0 <= u < PageUp(sz) :: UserMay(mem, d, u, write) <==> UserMay(old(mem), d0, u, write)
      ensures d != 0 ==> forall u, write | PageUp(sz) <= u < VPAGES :: !UserMay(mem, d, u, write)
    {
      PagesOwned(mem, own, lo, d0, PageUp(sz));
      d := Setupkvm();
      if d == 0 {
        return;
      }
      var ok := CopyPages(d0, d, sz, CopyWants(old(mem), d0, PageUp(sz)), old(mem), old(own));
      if !ok {
        d := 0;
      } else {
        CopiedAccess(old(mem), old(own), d0, mem, own, d, PageUp(sz), dataPage, lo);
      }
    }

    // The loop of copyuvm
    method CopyPages(d0: nat, d: nat, sz: nat, ghost wants: seq<Want>, ghost m0: Memory, ghost own0: Roles)
      returns (ok: bool)
      requires Valid() && Spaces(m0, own0, lo) && Tidy(own0) && IsDir(own0, d0) && d !in own0 && IsDir(own, d)
      requires sz < KERNBASE
      requires 256 < dataPage < NFRAMES && KernelUpTo(mem, d, dataPage, VPAGES) && Kept(m0, own0, mem, own, d, 0, 0)
      requires KernelTabled(mem[d], dataPage, 4)
      requires Copies(m0, d0, wants) && |wants| == PageUp(sz)
      modifies this
      ensures Valid()
      ensures ok ==> |old(fl)| == |fl| + PageUp(sz) + EntryEnd(0, PageUp(sz))
      ensures !ok ==> |old(fl)| < PageUp(sz) + EntryEnd(0, PageUp(sz)) && own == own0
      ensures !ok ==> forall f | f in own :: f < NFRAMES && mem[f] == m0[f]
      ensures ok ==> IsDir(own, d) && Kept(m0, own0, mem, own, d, 0, PageUp(sz))
      ensures ok ==> Copied(m0, d0, mem, d, PageUp(sz), dataPage)
    {
      ghost var m1, own1, n0 := mem, own, |fl|;
      var v := 0;
      FilledStart(mem, d, 0, wants);
      KeptStart(mem, own, d, 0, 0);
      TakenStart(mem[d], 0, n0, true);
      UserTables(mem[d], dataPage, PageUp(sz));
      while v * PGSIZE < sz
        invariant 0 <= v <= PageUp(sz) && FilledTo(d, 0, v, wants, m1, own1, n0)
        decreases PageUp(sz) - v
      {
        assert KernelPteUpTo(m1, d, dataPage, VPAGES, v);
        ok := CopyTurn(d0, d, v, wants, m0, own0, m1, own1, n0);
        if !ok {
          DropNew(d, m0, own0, v);
          return;
        }
        v := v + 1;
      }
      ok := true;
      KeptJoin(m0, own0, m1, own1, mem, own, d, 0, 0, 0, v, 0, v);
      CopiedAll(m0, d0, m1, mem, d, v, wants, dataPage);
    }

    // growproc on directory d and size sz (proc.c). The new size is sz1. Shrinking to
    // exactly 0 frees the pages but reports failure and keeps the old size; shrinking by
    // more than the size reports success and changes nothing.
    method Growproc(d: nat, sz: nat, n: int) returns (r: int, sz1: nat)
      requires Valid() && IsDir(own, d) && sz < KERNBASE && -0x8000_0000 <= n < 0x8000_0000
      requires NoneFrom(mem, d, PageUp(sz))
      modifies this
      ensures Valid() && IsDir(own, d) && sz1 < KERNBASE && NoneFrom(mem, d, PageUp(sz1))
      ensures Kept(old(mem), old(own), mem, own, d, 0, UPAGES)
      ensures n >= 0 ==> sz1 == (if r == 0 then sz + n else sz) && (r == 0 || r == -1)
      ensures n == 0 || (n > 0 && sz + n >= KERNBASE) ==> r == if n == 0 then 0 else -1
      ensures n > 0 && sz + n < KERNBASE ==>
        (r == 0 <==> |old(fl)| >= FramesFor(old(mem)[d], PageUp(sz), PageUp(sz + n)))
      ensures n < 0 ==> sz1 == if sz + n > 0 then sz + n else sz
      ensures n < 0 ==> r == if sz == 0 || sz + n == 0 then -1 else 0
      ensures (r == 0 <==> sz1 == sz + n) <==> !(0 < sz && sz + n < 0)
      ensures AllBelow(old(mem), d, PageUp(sz)) ==> (AllBelow(mem, d, PageUp(sz1)) <==> sz == 0 || sz + n != 0)
    {
      if n > 0 {
        r, sz1 := Grow(d, sz, sz + n);
      } else if n < 0 {
        r, sz1 := Shrink(d, sz, n);
      } else {
        KeptStart(mem, own, d, 0, UPAGES);
        r, sz1 := 0, sz;
      }
    }

    method Grow(d: nat, sz: nat, newsz: Uint) returns (r: int, sz1: nat)
      requires Valid() && IsDir(own, d) && sz < KERNBASE && sz < newsz && NoneFrom(mem, d, PageUp(sz))
      modifies this
      ensures Valid() && IsDir(own, d) && sz1 < KERNBASE && NoneFrom(mem, d, PageUp(sz1))
      ensures Kept(old(mem), old(own), mem, own, d, 0, UPAGES)
      ensures if sz1 == newsz then r == 0 else sz1 == sz && r == -1
      ensures r == 0 <==> newsz < KERNBASE && |old(fl)| >= FramesFor(old(mem)[d], PageUp(sz), PageUp(newsz))
      ensures AllBelow(old(mem), d, PageUp(sz)) ==> AllBelow(mem, d, PageUp(sz1))
    {
      ghost var ok;
      sz1, ok := Allocuvm(d, sz, newsz);
      if newsz < KERNBASE {
        GrownPages(old(mem), old(own), mem, own, d, sz, newsz, ok);
      } else {
        KeptStart(mem, own, d, 0, UPAGES);
      }
      if sz1 == 0 {
        return -1, sz;
      }
      r := 0;
    }

    method Shrink(d: nat, sz: nat, n: int) returns (r: int, sz1: nat)
      requires Valid() && IsDir(own, d) && sz < KERNBASE && -0x8000_0000 <= n < 0 && NoneFrom(mem, d, PageUp(sz))
      modifies this
      ensures Valid() && IsDir(own, d) && sz1 < KERNBASE && NoneFrom(mem, d, PageUp(sz1))
      ensures Kept(old(mem), old(own), mem, own, d, 0, UPAGES)
      ensures sz1 == if sz + n > 0 then sz + n else sz
      ensures r == if sz == 0 || sz + n == 0 then -1 else 0
      ensures AllBelow(old(mem), d, PageUp(sz)) ==> (AllBelow(mem, d, PageUp(sz1)) <==> sz == 0 || sz + n != 0)
    {
      sz1 := Deallocuvm(d, sz, (sz + n) % U32);
      ShrunkBy(old(mem), old(own), mem, own, d, sz, n);
      if sz1 == 0 {
        return -1, sz;
      }
      r := 0;
    }

    // The life of an address space: setupkvm, any changes of its size, freevm. Every
    // frame it took is back.
    method Life(ns: seq<int>)
      requires Valid() && 256 < dataPage < NFRAMES && forall i | 0 <= i < |ns| :: -0x8000_0000 <= ns[i] < 0x8000_0000
      modifies this
      ensures Valid() && own == old(own) && forall f | f in own :: f < NFRAMES && mem[f] == old(mem)[f]
    {
      var d := Setupkvm();
      if d == 0 {
        return;
      }
      KernelOnly(mem, d, dataPage);
      KeptStart(mem, own, d, 0, UPAGES);
      KeptJoin(old(mem), old(own), mem, own, mem, own, d, 0, 0, 0, UPAGES, 0, UPAGES);
      var i: nat, sz: nat := 0, 0;
      while i < |ns|
        invariant 0 <= i <= |ns| && Valid() && IsDir(own, d) && sz < KERNBASE && NoneFrom(mem, d, PageUp(sz))
        invariant Kept(old(mem), old(own), mem, own, d, 0, UPAGES)
      {
        ghost var m1, own1 := mem, own;
        var r;
        r, sz := Growproc(d, sz, ns[i]);
        KeptBoth(old(mem), old(own), m1, own1, mem, own, d, 0, UPAGES, UPAGES);
        i := i + 1;
      }
      DropNew(d, old(mem), old(own), UPAGES);
    }

    // freerange: every frame wholly inside vstart to vend goes to the free list.
    method Freerange(vstart: Uint, vend: Uint)
      requires Valid() && KERNBASE + lo * PGSIZE <= vstart <= vend <= KERNBASE + NFRAMES * PGSIZE
      requires forall f | InsideRange(f, vstart, vend) :: f in own && own[f] == Held
      modifies this
      ensures Valid() && (forall f :: f in own <==> f in old(own) && !InsideRange(f, vstart, vend))
      ensures forall f | f in old(own) ::
        f !in own <==> vstart <= 0x8000_0000 + f * 4096 && 0x8000_0000 + f * 4096 + 4096 <= vend
      ensures forall f | f in own :: own[f] == old(own)[f] && f < NFRAMES && mem[f] == old(mem)[f]
    {
      var f := PageUp(vstart - KERNBASE);
      assert Returned(mem, own, mem, own, vstart, vend, f);
      while KERNBASE + f * PGSIZE + PGSIZE <= vend
        invariant PageUp(vstart - KERNBASE) <= f && Valid() && Returned(old(mem), old(own), mem, own, vstart, vend, f)
      {
        ghost var m1, own1 := mem, own;
        assert InsideRange(f, vstart, vend);
        KfreeIdle(f);
        ReturnedStep(old(mem), old(own), m1, own1, vstart, vend, f, mem, own);
        f := f + 1;
      }
    }
  }
}
