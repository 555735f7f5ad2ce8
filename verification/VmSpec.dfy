// Page frames, the free list that runs through them (kalloc.c), and two-level
// page tables (vm.c). A frame is named by its number, its physical address over
// PGSIZE; frame 0 stands for the null pointer.
module VmSpec {
  import opened Bytes

  const PGSIZE: nat := 4096
  const NENTRIES: nat := 1024            // NPDENTRIES and NPTENTRIES
  const NFRAMES: nat := 57344            // PHYSTOP / PGSIZE
  const VPAGES: nat := 1048576           // pages of the virtual address space
  const UPAGES: nat := 524288            // KERNBASE / PGSIZE
  const KERNBASE: nat := 0x8000_0000

  type Page = p: seq<Uint> | |p| == NENTRIES witness seq(NENTRIES, _ => 0)
  type Memory = m: seq<Page> | |m| == NFRAMES witness seq<Page>(NFRAMES, _ => Fill(0))

  function Fill(w: Uint): (p: Page)
    ensures forall i | 0 <= i < NENTRIES :: p[i] == w
  {
    seq(NENTRIES, _ => w)
  }

  predicate Present(w: Uint) {   // PTE_P
    w % 2 == 1
  }

  function Frame(w: Uint): (f: nat) {   // PTE_ADDR
    w / PGSIZE
  }

  // perm | PTE_P
  function Flags(perm: nat): (r: nat)
    requires perm < PGSIZE
    ensures r < PGSIZE && r % 2 == 1 && r == perm + 1 - perm % 2
  {
    if perm % 2 == 1 then perm else perm + 1
  }

  // pa | perm | PTE_P of a page-aligned pa
  function Entry(f: nat, perm: nat): (w: Uint)
    requires f < VPAGES && perm < PGSIZE
    ensures Present(w) && Frame(w) == f && w % PGSIZE == Flags(perm)
  {
    EntryParts(f, Flags(perm));
    f * PGSIZE + Flags(perm)
  }

  lemma EntryParts(f: nat, r: nat)
    requires f < VPAGES && r < PGSIZE && r % 2 == 1
    ensures var w := f * PGSIZE + r; w < U32 && w % 2 == 1 && w / PGSIZE == f && w % PGSIZE == r
  {
    EntryOdd(f, r);
  }

  lemma EntryOdd(f: nat, r: nat)
    requires r % 2 == 1
    ensures (f * PGSIZE + r) % 2 == 1
  {
    assert f * PGSIZE + r == 2 * (f * (PGSIZE / 2) + r / 2) + 1;
  }

  // P2V of a frame's address
  function Va(f: nat): (w: Uint)
    requires f < NFRAMES
  {
    KERNBASE + f * PGSIZE
  }

  function Pde(mem: Memory, d: nat, x: nat): (w: Uint)
    requires d < NFRAMES && x < NENTRIES
  {
    mem[d][x]
  }

  // The entry for virtual page v, 0 if there is no page table for it
  function Pte(mem: Memory, d: nat, v: nat): (w: Uint)
    requires d < NFRAMES && v < VPAGES
  {
    var e := mem[d][v / NENTRIES];
    if Present(e) && Frame(e) < NFRAMES then mem[Frame(e)][v % NENTRIES] else 0
  }

  // ---- who has which frame ----------------------------------------------------------

  // Held frames belong to whoever called kalloc; Gone ones are page tables of a
  // directory that freevm is taking apart.
  datatype Role = Held | Dir | Table(d: nat, x: nat) | User(d: nat, v: nat) | Gone(d: nat, x: nat)

  type Roles = map<nat, Role>

  predicate Idle(r: Role) {
    r.Held? || r.Gone?
  }

  predicate IsDir(own: Roles, d: nat) {
    d in own && own[d] == Dir
  }

  // Every present directory entry has a page table of its own, and is writable and open to users:
  // what a page allows is up to its own entry.
  ghost predicate DirSlot(mem: Memory, own: Roles, d: nat, x: nat)
    requires d < NFRAMES && x < NENTRIES
  {
    var e := Pde(mem, d, x);
    Present(e) ==> Frame(e) in own && own[Frame(e)] == Table(d, x) && e % PGSIZE == 7
  }

  // Every present user page has a frame of its own.
  ghost predicate UserSlot(mem: Memory, own: Roles, d: nat, v: nat)
    requires d < NFRAMES && v < UPAGES
  {
    var e := Pte(mem, d, v);
    Present(e) ==> Frame(e) in own && own[Frame(e)] == User(d, v)
  }

  // A page table or user page is where its role says.
  ghost predicate Placed(mem: Memory, own: Roles, f: nat)
    requires f in own && forall e | e in own :: e < NFRAMES
  {
    match own[f]
    case Table(d, x) => IsDir(own, d) && x < NENTRIES && Present(Pde(mem, d, x)) && Frame(Pde(mem, d, x)) == f
    case User(d, v) => IsDir(own, d) && v < UPAGES && Present(Pte(mem, d, v)) && Frame(Pte(mem, d, v)) == f
    case _ => true
  }

  ghost predicate InRange(own: Roles, lo: nat) {
    forall f | f in own :: lo <= f < NFRAMES
  }

  ghost predicate Spaces(mem: Memory, own: Roles, lo: nat) {
    && InRange(own, lo)
    && (forall d, x | IsDir(own, d) && 0 <= x < NENTRIES :: DirSlot(mem, own, d, x))
    && (forall d, v | IsDir(own, d) && 0 <= v < UPAGES :: UserSlot(mem, own, d, v))
    && (forall f | f in own :: Placed(mem, own, f))
  }

  // ---- what user code may do ------------------------------------------------------------

  // An entry that lets user code through: present, PTE_U and, for a write, PTE_W
  predicate Lets(e: Uint, write: bool) {
    e % 2 == 1 && e / 4 % 2 == 1 && (write ==> e / 2 % 2 == 1)
  }

  // The processor lets user code use a page if the entries of both levels do.
  predicate UserMay(mem: Memory, d: nat, v: nat, write: bool)
    requires d < NFRAMES && v < VPAGES
  {
    var e := mem[d][v / NENTRIES];
    Lets(e, write) && e / PGSIZE < NFRAMES && Lets(mem[e / PGSIZE][v % NENTRIES], write)
  }

  // It is the page's own entry that decides.
  lemma UserAccess(mem: Memory, own: Roles, lo: nat, d: nat, v: nat, write: bool)
    requires Spaces(mem, own, lo) && IsDir(own, d) && v < VPAGES
    ensures UserMay(mem, d, v, write) <==> Lets(Pte(mem, d, v), write)
    ensures Present(Pte(mem, d, v)) ==> mem[d][v / NENTRIES] % PGSIZE == 7
  {
    var e := Pde(mem, d, v / NENTRIES);
    assert DirSlot(mem, own, d, v / NENTRIES);
    if Present(e) {
      LowBits(e);
    }
  }

  lemma LowBits(e: Uint)
    requires e % PGSIZE == 7
    ensures Lets(e, true) && Lets(e, false)
  {
    SameLow(e, 7, true);
  }

  lemma SameLow(e: Uint, w: Uint, write: bool)
    requires e % PGSIZE == w % PGSIZE
    ensures Lets(e, write) <==> Lets(w, write)
  {
    Low(e / PGSIZE, e % PGSIZE);
    Low(w / PGSIZE, w % PGSIZE);
  }

  // The low bits of an entry are those of its flags.
  lemma Low(f: nat, k: nat)
    requires k < PGSIZE
    ensures var e := f * PGSIZE + k; e % 2 == k % 2 && e / 2 % 2 == k / 2 % 2 && e / 4 % 2 == k / 4 % 2
  {
    Halved(f * PGSIZE + k, f * 2048, k);
    Halved(f * 2048 + k / 2, f * 1024, k / 2);
    Halved(f * 1024 + k / 2 / 2, f * 512, k / 2 / 2);
    Quartered(f * PGSIZE + k);
    Quartered(k);
  }

  lemma Quartered(e: nat)
    ensures e / 4 == e / 2 / 2
  {
  }

  lemma Halved(e: nat, q: nat, k: nat)
    requires e == 2 * q + k
    ensures e / 2 == q + k / 2 && e % 2 == k % 2
  {
  }

  // ---- the free list ------------------------------------------------------------------

  // w points to the first of the frames fl, each pointing to the next.
  ghost predicate FreeList(mem: Memory, w: Uint, fl: seq<nat>)
    requires forall i | 0 <= i < |fl| :: fl[i] < NFRAMES
    decreases |fl|
  {
    if fl == [] then w == 0
    else w == Va(fl[0]) && FreeList(mem, mem[fl[0]][0], fl[1..])
  }

  lemma {:induction false} FreeListFrame(mem: Memory, m1: Memory, w: Uint, fl: seq<nat>)
    requires forall i | 0 <= i < |fl| :: fl[i] < NFRAMES && m1[fl[i]] == mem[fl[i]]
    requires FreeList(mem, w, fl)
    ensures FreeList(m1, w, fl)
    decreases |fl|
  {
    if fl != [] {
      FreeListFrame(mem, m1, mem[fl[0]][0], fl[1..]);
    }
  }

  // Every frame is either free, once, or owned.
  ghost predicate Pool(fl: seq<nat>, own: Roles, lo: nat) {
    && (forall i | 0 <= i < |fl| :: lo <= fl[i] < NFRAMES && fl[i] !in own)
    && (forall f | lo <= f < NFRAMES :: f in fl || f in own)
    && (forall i, j | 0 <= i < j < |fl| :: fl[i] != fl[j])
  }

  ghost predicate State(mem: Memory, freelist: Uint, fl: seq<nat>, own: Roles, lo: nat) {
    && 0 < lo && Spaces(mem, own, lo) && Pool(fl, own, lo) && FreeList(mem, freelist, fl)
  }

  ghost predicate Tidy(own: Roles) {
    forall f | f in own :: !own[f].Gone?
  }

  ghost predicate Sane(mem: Memory, freelist: Uint, fl: seq<nat>, own: Roles, lo: nat) {
    State(mem, freelist, fl, own, lo) && Tidy(own)
  }

  // kalloc takes the first free frame; its contents stay as they are.
  lemma Allocated(mem: Memory, freelist: Uint, fl: seq<nat>, own: Roles, lo: nat)
    requires State(mem, freelist, fl, own, lo) && fl != []
    ensures State(mem, mem[fl[0]][0], fl[1..], own[fl[0] := Held], lo)
  {
    var own1 := own[fl[0] := Held];
    forall f: nat ensures SameAt(mem, own, mem, own1, f) {
    }
    SpacesFrame(mem, own, mem, own1, lo);
    forall f | lo <= f < NFRAMES ensures f in fl[1..] || f in own1 {
      if f in fl {
        var i :| 0 <= i < |fl| && fl[i] == f;
        assert i > 0 ==> fl[1..][i - 1] == f;
      }
    }
  }

  // What kfree leaves in a frame: junk, and a pointer to the next free frame.
  function Junk(next: Uint): (p: Page) {
    Fill(0x01010101)[0 := next]
  }

  function Freed(mem: Memory, freelist: Uint, f: nat): (m: Memory)
    requires f < NFRAMES
  {
    mem[f := Junk(freelist)]
  }

  lemma Released(mem: Memory, freelist: Uint, fl: seq<nat>, own: Roles, lo: nat, f: nat)
    requires State(mem, freelist, fl, own, lo) && f in own && Idle(own[f])
    ensures State(Freed(mem, freelist, f), Va(f), [f] + fl, own - {f}, lo)
  {
    var m1, own1, fl1 := Freed(mem, freelist, f), own - {f}, [f] + fl;
    forall g: nat ensures SameAt(mem, own, m1, own1, g) {
    }
    SpacesFrame(mem, own, m1, own1, lo);
    FreeListFrame(mem, m1, freelist, fl);
    assert fl1[1..] == fl;
    forall g | lo <= g < NFRAMES ensures g in fl1 || g in own1 {
      InFront(fl, f, g);
    }
  }

  lemma InFront(fl: seq<nat>, f: nat, g: nat)
    ensures g in [f] + fl <==> g == f || g in fl
  {
  }

  // ---- steps that keep the spaces --------------------------------------------------------

  // Outside idle frames the roles are the same, and no directory or table changes.
  ghost predicate SameAt(mem: Memory, own: Roles, m1: Memory, own1: Roles, f: nat) {
    && (f in own && !Idle(own[f]) ==> f in own1 && own1[f] == own[f])
    && (f in own1 && !Idle(own1[f]) ==> f in own && own1[f] == own[f])
    && (f in own && f < NFRAMES && (own[f].Dir? || own[f].Table?) ==> m1[f] == mem[f])
  }

  lemma SpacesFrame(mem: Memory, own: Roles, m1: Memory, own1: Roles, lo: nat)
    requires Spaces(mem, own, lo) && InRange(own1, lo) && forall f :: SameAt(mem, own, m1, own1, f)
    ensures Spaces(m1, own1, lo)
  {
    forall d, x | IsDir(own1, d) && 0 <= x < NENTRIES ensures DirSlot(m1, own1, d, x) {
      assert SameAt(mem, own, m1, own1, d) && DirSlot(mem, own, d, x);
      assert SameAt(mem, own, m1, own1, Frame(Pde(mem, d, x)));
    }
    forall d, v | IsDir(own1, d) && 0 <= v < UPAGES ensures UserSlot(m1, own1, d, v) {
      PteSame(mem, own, m1, own1, lo, d, v);
      assert SameAt(mem, own, m1, own1, d) && UserSlot(mem, own, d, v);
      assert SameAt(mem, own, m1, own1, Frame(Pte(mem, d, v)));
    }
    forall f | f in own1 ensures Placed(m1, own1, f) {
      assert SameAt(mem, own, m1, own1, f);
      if !Idle(own1[f]) {
        assert Placed(mem, own, f);
        if own[f].User? {
          PteSame(mem, own, m1, own1, lo, own[f].d, own[f].v);
        }
        assert own[f].User? || own[f].Table? ==> SameAt(mem, own, m1, own1, own[f].d);
      }
    }
  }

  lemma PteSame(mem: Memory, own: Roles, m1: Memory, own1: Roles, lo: nat, d: nat, v: nat)
    requires Spaces(mem, own, lo) && (forall f :: SameAt(mem, own, m1, own1, f)) && v < VPAGES
    requires IsDir(own, d) || IsDir(own1, d)
    ensures d < NFRAMES && Pte(m1, d, v) == Pte(mem, d, v)
  {
    assert SameAt(mem, own, m1, own1, d) && DirSlot(mem, own, d, v / NENTRIES);
    assert SameAt(mem, own, m1, own1, Frame(Pde(mem, d, v / NENTRIES)));
  }

  // walkpgdir installs the zeroed frame f as a page table: no mapping changes.
  function Linked(mem: Memory, d: nat, x: nat, f: nat): (m: Memory)
    requires d < NFRAMES && x < NENTRIES && f < NFRAMES
  {
    mem[d := mem[d][x := Entry(f, 6)]]
  }

  lemma LinkTable(mem: Memory, own: Roles, lo: nat, d: nat, x: nat, f: nat)
    requires Spaces(mem, own, lo) && IsDir(own, d) && x < NENTRIES && !Present(Pde(mem, d, x))
    requires f in own && own[f] == Held && mem[f] == Fill(0)
    ensures Spaces(Linked(mem, d, x, f), own[f := Table(d, x)], lo)
  {
    var m1, own1 := Linked(mem, d, x, f), own[f := Table(d, x)];
    forall e, y | IsDir(own1, e) && 0 <= y < NENTRIES ensures DirSlot(m1, own1, e, y) {
      assert DirSlot(mem, own, e, y);
    }
    forall e, v | IsDir(own1, e) && 0 <= v < UPAGES ensures UserSlot(m1, own1, e, v) {
      LinkedPte(mem, own, lo, d, x, f, e, v);
      assert UserSlot(mem, own, e, v);
    }
    forall g | g in own1 ensures Placed(m1, own1, g) {
      if g != f {
        assert Placed(mem, own, g);
        if own[g].User? {
          LinkedPte(mem, own, lo, d, x, f, own[g].d, own[g].v);
        }
      }
    }
  }

  lemma LinkedPte(mem: Memory, own: Roles, lo: nat, d: nat, x: nat, f: nat, e: nat, v: nat)
    requires Spaces(mem, own, lo) && IsDir(own, d) && x < NENTRIES && !Present(Pde(mem, d, x))
    requires f in own && own[f] == Held && mem[f] == Fill(0) && IsDir(own, e) && v < VPAGES
    ensures Pte(Linked(mem, d, x, f), e, v) == Pte(mem, e, v)
  {
    assert DirSlot(mem, own, e, v / NENTRIES);
  }

  // mappages stores w as the entry of virtual page v, in page table t.
  function Stored(mem: Memory, t: nat, v: nat, w: Uint): (m: Memory)
    requires t < NFRAMES && v < VPAGES
  {
    mem[t := mem[t][v % NENTRIES := w]]
  }

  // The page table of v is t.
  ghost predicate TableAt(mem: Memory, d: nat, v: nat, t: nat)
    requires d < NFRAMES && v < VPAGES
  {
    Present(Pde(mem, d, v / NENTRIES)) && Frame(Pde(mem, d, v / NENTRIES)) == t
  }

  lemma StoredPte(mem: Memory, own: Roles, lo: nat, d: nat, v: nat, t: nat, w: Uint, e: nat, u: nat)
    requires Spaces(mem, own, lo) && IsDir(own, d) && v < VPAGES && TableAt(mem, d, v, t) && IsDir(own, e) && u < VPAGES
    ensures t in own && Pte(Stored(mem, t, v, w), e, u) == if e == d && u == v then w else Pte(mem, e, u)
  {
    assert DirSlot(mem, own, d, v / NENTRIES) && DirSlot(mem, own, e, u / NENTRIES);
    if u / NENTRIES == v / NENTRIES && u % NENTRIES == v % NENTRIES {
      assert u == v;
    }
  }

  // The roles after mapping page v to frame p; kernel pages have no owner.
  function MapRole(own: Roles, d: nat, v: nat, p: nat): (r: Roles) {
    if v < UPAGES then own[p := User(d, v)] else own
  }

  lemma MapPage(mem: Memory, own: Roles, lo: nat, d: nat, v: nat, t: nat, w: Uint)
    requires Spaces(mem, own, lo) && IsDir(own, d) && v < VPAGES && TableAt(mem, d, v, t)
    requires Present(w) && !Present(Pte(mem, d, v))
    requires v < UPAGES ==> Frame(w) in own && own[Frame(w)] == Held
    ensures t in own && Spaces(Stored(mem, t, v, w), MapRole(own, d, v, Frame(w)), lo)
  {
    assert DirSlot(mem, own, d, v / NENTRIES);
    var m1, own1 := Stored(mem, t, v, w), MapRole(own, d, v, Frame(w));
    forall e, y | IsDir(own1, e) && 0 <= y < NENTRIES ensures DirSlot(m1, own1, e, y) {
      assert DirSlot(mem, own, e, y);
    }
    forall e, u | IsDir(own1, e) && 0 <= u < UPAGES ensures UserSlot(m1, own1, e, u) {
      StoredPte(mem, own, lo, d, v, t, w, e, u);
      assert UserSlot(mem, own, e, u);
    }
    forall g | g in own1 ensures Placed(m1, own1, g) {
      if g in own {
        assert Placed(mem, own, g);
      }
      if own1[g].User? {
        StoredPte(mem, own, lo, d, v, t, w, own1[g].d, own1[g].v);
      }
    }
  }

  // deallocuvm clears the entry of v; its frame is idle from then on.
  lemma UnmapPage(mem: Memory, own: Roles, lo: nat, d: nat, v: nat, t: nat)
    requires Spaces(mem, own, lo) && IsDir(own, d) && v < UPAGES && TableAt(mem, d, v, t) && Present(Pte(mem, d, v))
    ensures var p := Frame(Pte(mem, d, v));
      t in own && p in own && own[p] == User(d, v) && Spaces(Stored(mem, t, v, 0), own[p := Held], lo)
  {
    var p := Frame(Pte(mem, d, v));
    assert DirSlot(mem, own, d, v / NENTRIES);
    assert UserSlot(mem, own, d, v);
    var m1, own1 := Stored(mem, t, v, 0), own[p := Held];
    forall e, y | IsDir(own1, e) && 0 <= y < NENTRIES ensures DirSlot(m1, own1, e, y) {
      assert DirSlot(mem, own, e, y);
    }
    forall e, u | IsDir(own1, e) && 0 <= u < UPAGES ensures UserSlot(m1, own1, e, u) {
      StoredPte(mem, own, lo, d, v, t, 0, e, u);
      assert UserSlot(mem, own, e, u);
    }
    forall g | g in own1 ensures Placed(m1, own1, g) {
      assert Placed(mem, own, g);
      if own1[g].User? {
        StoredPte(mem, own, lo, d, v, t, 0, own1[g].d, own1[g].v);
      }
    }
  }

  // A directory without user pages is given up; its page tables are gone.
  function Orphan(r: Role, d: nat, f: nat): (r1: Role) {
    if f == d then Held else if r.Table? && r.d == d then Gone(d, r.x) else r
  }

  function Orphaned(own: Roles, d: nat): (own1: Roles) {
    map f | f in own :: Orphan(own[f], d, f)
  }

  lemma DropDir(mem: Memory, own: Roles, lo: nat, d: nat)
    requires Spaces(mem, own, lo) && IsDir(own, d) && forall v | 0 <= v < UPAGES :: !Present(Pte(mem, d, v))
    ensures Spaces(mem, Orphaned(own, d), lo)
  {
    var own1 := Orphaned(own, d);
    forall e, y | IsDir(own1, e) && 0 <= y < NENTRIES ensures DirSlot(mem, own1, e, y) {
      assert DirSlot(mem, own, e, y);
    }
    forall e, u | IsDir(own1, e) && 0 <= u < UPAGES ensures UserSlot(mem, own1, e, u) {
      assert UserSlot(mem, own, e, u);
    }
    forall g | g in own1 ensures Placed(mem, own1, g) {
      assert Placed(mem, own, g);
    }
  }

  // ---- what an operation on directory d may touch ----------------------------------------

  // d itself, its page tables, and its pages lo to hi
  predicate Inside(f: nat, r: Role, d: nat, lo: nat, hi: nat) {
    f == d || match r
      case Table(e, _) => e == d
      case Gone(e, _) => e == d
      case User(e, v) => e == d && lo <= v < hi
      case _ => false
  }

  ghost predicate KeptAt(mem: Memory, own: Roles, m1: Memory, own1: Roles, d: nat, lo: nat, hi: nat, f: nat) {
    && (f in own && !Inside(f, own[f], d, lo, hi) ==>
        f in own1 && own1[f] == own[f] && (f < NFRAMES ==> m1[f] == mem[f]))
    && (f in own1 && !Inside(f, own1[f], d, lo, hi) ==> f in own && own1[f] == own[f])
  }

  // Every other owned frame keeps its owner and its contents, and no other frame is owned.
  ghost predicate Kept(mem: Memory, own: Roles, m1: Memory, own1: Roles, d: nat, lo: nat, hi: nat) {
    forall f :: KeptAt(mem, own, m1, own1, d, lo, hi, f)
  }

  lemma KeptBoth(m0: Memory, own0: Roles, m1: Memory, own1: Roles, m2: Memory, own2: Roles, d: nat, lo: nat, mid: nat,
                 hi: nat)
    requires Kept(m0, own0, m1, own1, d, lo, mid) && Kept(m1, own1, m2, own2, d, lo, hi) && mid <= hi
    ensures Kept(m0, own0, m2, own2, d, lo, hi)
  {
    forall f: nat ensures KeptAt(m0, own0, m2, own2, d, lo, hi, f) {
      assert KeptAt(m0, own0, m1, own1, d, lo, mid, f) && KeptAt(m1, own1, m2, own2, d, lo, hi, f);
    }
  }

  // An address space other than d keeps its mappings and its pages.
  lemma OtherSpace(mem: Memory, own: Roles, m1: Memory, own1: Roles, lo0: nat, d: nat, lo: nat, hi: nat, e: nat, v: nat)
    requires Spaces(mem, own, lo0) && Kept(mem, own, m1, own1, d, lo, hi) && IsDir(own, e) && e != d && v < VPAGES
    requires d in own ==> own[d] == Dir
    ensures IsDir(own1, e) && Pte(m1, e, v) == Pte(mem, e, v)
    ensures v < UPAGES && Present(Pte(mem, e, v)) ==> Frame(Pte(mem, e, v)) < NFRAMES
    ensures v < UPAGES && Present(Pte(mem, e, v)) ==> m1[Frame(Pte(mem, e, v))] == mem[Frame(Pte(mem, e, v))]
  {
    assert KeptAt(mem, own, m1, own1, d, lo, hi, e) && DirSlot(mem, own, e, v / NENTRIES);
    assert KeptAt(mem, own, m1, own1, d, lo, hi, Frame(Pde(mem, e, v / NENTRIES)));
    if v < UPAGES {
      assert UserSlot(mem, own, e, v);
      assert KeptAt(mem, own, m1, own1, d, lo, hi, Frame(Pte(mem, e, v)));
    }
  }

  ghost predicate SamePtes(mem: Memory, m1: Memory, d: nat)
    requires d < NFRAMES
  {
    forall u | 0 <= u < VPAGES :: Pte(m1, d, u) == Pte(mem, d, u)
  }

  // Only the entry of v differs.
  ghost predicate OnePte(mem: Memory, m1: Memory, d: nat, v: nat, w: Uint)
    requires d < NFRAMES
  {
    forall u | 0 <= u < VPAGES :: Pte(m1, d, u) == if u == v then w else Pte(mem, d, u)
  }

  lemma LinkedKept(mem: Memory, own: Roles, lo: nat, d: nat, x: nat, f: nat, m1: Memory)
    requires Spaces(mem, own, lo) && IsDir(own, d) && x < NENTRIES && !Present(Pde(mem, d, x)) && lo <= f < NFRAMES
    requires f !in own
    requires m1 == Linked(mem[f := Fill(0)], d, x, f)
    ensures Kept(mem, own, m1, own[f := Table(d, x)], d, 0, 0) && SamePtes(mem, m1, d)
    ensures Spaces(m1, own[f := Table(d, x)], lo)
  {
    var mz, own0, own1 := mem[f := Fill(0)], own[f := Held], own[f := Table(d, x)];
    forall g: nat ensures SameAt(mem, own, mz, own0, g) {
    }
    SpacesFrame(mem, own, mz, own0, lo);
    LinkTable(mz, own0, lo, d, x, f);
    assert own0[f := Table(d, x)] == own1;
    forall g: nat ensures KeptAt(mem, own, m1, own1, d, 0, 0, g) {
    }
    forall u | 0 <= u < VPAGES ensures Pte(m1, d, u) == Pte(mem, d, u) {
      LinkedPte(mz, own0, lo, d, x, f, d, u);
      PteSame(mem, own, mz, own0, lo, d, u);
    }
  }

  // walkpgdir's new page table, from kalloc on
  lemma LinkedSane(mem: Memory, own: Roles, lo: nat, freelist: Uint, fl: seq<nat>, d: nat, x: nat, f: nat, m1: Memory,
                   own1: Roles)
    requires Spaces(mem, own, lo) && Tidy(own) && IsDir(own, d) && x < NENTRIES && !Present(Pde(mem, d, x))
    requires lo <= f < NFRAMES && f !in own
    requires Sane(mem, freelist, fl, own[f := Held], lo)
    requires m1 == Linked(mem[f := Fill(0)], d, x, f) && own1 == own[f := Table(d, x)]
    ensures Sane(m1, freelist, fl, own1, lo) && IsDir(own1, d) && Kept(mem, own, m1, own1, d, 0, 0)
    ensures SamePtes(mem, m1, d)
    ensures Present(Pde(m1, d, x)) && Frame(Pde(m1, d, x)) == f
  {
    LinkedKept(mem, own, lo, d, x, f, m1);
    FreeListFrame(mem, m1, freelist, fl);
  }

  lemma MappedKept(mem: Memory, own: Roles, lo: nat, d: nat, v: nat, t: nat, w: Uint, m1: Memory, own1: Roles)
    requires Spaces(mem, own, lo) && IsDir(own, d) && v < VPAGES && TableAt(mem, d, v, t)
    requires Present(w) && !Present(Pte(mem, d, v)) && (v < UPAGES ==> Frame(w) in own && own[Frame(w)] == Held)
    requires t < NFRAMES && m1 == Stored(mem, t, v, w) && own1 == MapRole(own, d, v, Frame(w))
    ensures Spaces(m1, own1, lo) && OnePte(mem, m1, d, v, w)
    ensures v >= UPAGES ==> Kept(mem, own, m1, own1, d, 0, 0)
    ensures v < UPAGES ==> Kept(mem, own - {Frame(w)}, m1, own1, d, v, v + 1) && m1[Frame(w)] == mem[Frame(w)]
  {
    MapPage(mem, own, lo, d, v, t, w);
    assert DirSlot(mem, own, d, v / NENTRIES);
    forall u | 0 <= u < VPAGES ensures Pte(m1, d, u) == if u == v then w else Pte(mem, d, u) {
      StoredPte(mem, own, lo, d, v, t, w, d, u);
    }
    if v < UPAGES {
      var own0, hi := own - {Frame(w)}, v + 1;
      forall g: nat ensures KeptAt(mem, own0, m1, own1, d, v, hi, g) {
      }
    } else {
      forall g: nat ensures KeptAt(mem, own, m1, own1, d, 0, 0, g) {
      }
    }
  }

  lemma TableOwned(mem: Memory, own: Roles, lo: nat, d: nat, v: nat, t: nat)
    requires Spaces(mem, own, lo) && IsDir(own, d) && v < VPAGES && TableAt(mem, d, v, t)
    ensures t in own && own[t] == Table(d, v / NENTRIES) && lo <= t < NFRAMES && Pte(mem, d, v) == mem[t][v % NENTRIES]
  {
    assert DirSlot(mem, own, d, v / NENTRIES);
  }

  lemma EntryOpen(mem: Memory, own: Roles, lo: nat, d: nat, v: nat, t: nat)
    requires Spaces(mem, own, lo) && IsDir(own, d) && v < VPAGES && TableAt(mem, d, v, t)
    ensures mem[d][v / NENTRIES] == t * PGSIZE + 7
  {
    assert DirSlot(mem, own, d, v / NENTRIES);
  }

  // walkpgdir and the store after it, together
  lemma MapOneKept(m0: Memory, own0: Roles, m1: Memory, own1: Roles, lo: nat, d: nat, v: nat, t: nat, pf: nat,
                   perm: nat, m2: Memory, own2: Roles)
    requires Spaces(m1, own1, lo) && IsDir(own1, d) && v < VPAGES && TableAt(m1, d, v, t) && pf < VPAGES
    requires perm < PGSIZE
    requires !Present(Pte(m0, d, v)) && (v < UPAGES ==> pf in own0 && own0[pf] == Held && pf != d)
    requires Kept(m0, own0, m1, own1, d, 0, 0) && SamePtes(m0, m1, d)
    requires t < NFRAMES && m2 == Stored(m1, t, v, Entry(pf, perm)) && own2 == MapRole(own1, d, v, pf)
    ensures Spaces(m2, own2, lo) && OnePte(m0, m2, d, v, Entry(pf, perm))
    ensures v >= UPAGES ==> Kept(m0, own0, m2, own2, d, 0, 0)
    ensures v < UPAGES ==> pf < NFRAMES && pf in own1 && Kept(m0, own0 - {pf}, m2, own2, d, v, v + 1)
    ensures v < UPAGES ==> m2[pf] == m0[pf]
  {
    if v < UPAGES {
      assert KeptAt(m0, own0, m1, own1, d, 0, 0, pf);
      MappedKept(m1, own1, lo, d, v, t, Entry(pf, perm), m2, own2);
      var o0, o1 := own0 - {pf}, own1 - {pf};
      forall f: nat ensures KeptAt(m0, o0, m1, o1, d, 0, 0, f) {
        assert KeptAt(m0, own0, m1, own1, d, 0, 0, f);
      }
      var hi := v + 1;
      forall f: nat ensures KeptAt(m0, o0, m2, own2, d, v, hi, f) {
        assert KeptAt(m0, o0, m1, o1, d, 0, 0, f) && KeptAt(m1, o1, m2, own2, d, v, hi, f);
      }
    } else {
      MappedKept(m1, own1, lo, d, v, t, Entry(pf, perm), m2, own2);
      KeptBoth(m0, own0, m1, own1, m2, own2, d, 0, 0, 0);
    }
  }

  lemma MapOneSane(m0: Memory, own0: Roles, m1: Memory, freelist: Uint, fl: seq<nat>, own1: Roles, lo: nat,
                   d: nat, v: nat, t: nat, pf: nat, perm: nat, m2: Memory, own2: Roles)
    requires Sane(m1, freelist, fl, own1, lo) && IsDir(own1, d) && v < VPAGES && TableAt(m1, d, v, t) && pf < VPAGES
    requires perm < PGSIZE
    requires !Present(Pte(m0, d, v)) && (v < UPAGES ==> pf in own0 && own0[pf] == Held && pf != d)
    requires Kept(m0, own0, m1, own1, d, 0, 0) && SamePtes(m0, m1, d)
    requires t < NFRAMES && m2 == Stored(m1, t, v, Entry(pf, perm)) && own2 == MapRole(own1, d, v, pf)
    ensures Sane(m2, freelist, fl, own2, lo) && IsDir(own2, d) && OnePte(m0, m2, d, v, Entry(pf, perm))
    ensures Present(Pde(m2, d, v / NENTRIES))
    ensures v >= UPAGES ==> Kept(m0, own0, m2, own2, d, 0, 0)
    ensures v < UPAGES ==> pf < NFRAMES && Kept(m0, own0 - {pf}, m2, own2, d, v, v + 1) && m2[pf] == m0[pf]
  {
    TableOwned(m1, own1, lo, d, v, t);
    MapOneKept(m0, own0, m1, own1, lo, d, v, t, pf, perm, m2, own2);
    FreeListFrame(m1, m2, freelist, fl);
    if v < UPAGES {
      assert KeptAt(m0, own0, m1, own1, d, 0, 0, pf);
    }
  }

  // ---- ranges of pages -----------------------------------------------------------------

  // Pages first to last are mapped to frames pf on; every other entry is as before.
  ghost predicate RangePtes(mem: Memory, m1: Memory, d: nat, first: nat, last: int, pf: nat, perm: nat)
    requires d < NFRAMES && perm < PGSIZE
  {
    forall u | 0 <= u < VPAGES :: RangePte(mem, m1, d, first, last, pf, perm, u)
  }

  ghost predicate RangePte(mem: Memory, m1: Memory, d: nat, first: nat, last: int, pf: nat, perm: nat, u: nat)
    requires d < NFRAMES && perm < PGSIZE && u < VPAGES
  {
    if first <= u <= last then pf + u - first < VPAGES && Pte(m1, d, u) == Entry(pf + u - first, perm)
    else Pte(m1, d, u) == Pte(mem, d, u)
  }

  lemma RangeStep(m0: Memory, m1: Memory, m2: Memory, d: nat, first: nat, v: nat, pf: nat, perm: nat)
    requires d < NFRAMES && perm < PGSIZE && first <= v && pf + v - first < VPAGES
    requires RangePtes(m0, m1, d, first, v - 1, pf, perm) && OnePte(m1, m2, d, v, Entry(pf + v - first, perm))
    ensures RangePtes(m0, m2, d, first, v, pf, perm)
  {
    forall u | 0 <= u < VPAGES ensures RangePte(m0, m2, d, first, v, pf, perm, u) {
      assert RangePte(m0, m1, d, first, v - 1, pf, perm, u);
    }
  }

  lemma RangeSame(m0: Memory, m1: Memory, m2: Memory, d: nat, first: nat, last: int, pf: nat, perm: nat)
    requires d < NFRAMES && perm < PGSIZE && RangePtes(m0, m1, d, first, last, pf, perm) && SamePtes(m1, m2, d)
    ensures RangePtes(m0, m2, d, first, last, pf, perm)
  {
    forall u | 0 <= u < VPAGES ensures RangePte(m0, m2, d, first, last, pf, perm, u) {
      assert RangePte(m0, m1, d, first, last, pf, perm, u);
    }
  }

  lemma KeptNone(mem: Memory, own: Roles, d: nat)
    ensures Kept(mem, own, mem, own, d, 0, 0)
  {
    forall f: nat ensures KeptAt(mem, own, mem, own, d, 0, 0, f) {
    }
  }

  lemma KeptStart(mem: Memory, own: Roles, d: nat, lo: nat, hi: nat)
    ensures Kept(mem, own, mem, own, d, lo, hi)
  {
    forall f: nat ensures KeptAt(mem, own, mem, own, d, lo, hi, f) {
    }
  }

  // ---- unmapping -----------------------------------------------------------------------

  predicate IsUser(r: Role, d: nat, lo: nat, hi: nat) {
    r.User? && r.d == d && lo <= r.v < hi
  }

  function Dropped(own: Roles, d: nat, lo: nat, hi: nat): (r: Roles) {
    map f | f in own && !IsUser(own[f], d, lo, hi) :: own[f]
  }

  // The frames of pages lo to v, and nothing else, have been given back, and
  // their entries cleared.
  ghost predicate Dealloced(m0: Memory, own0: Roles, m1: Memory, own1: Roles, d: nat, lo: nat, v: nat) {
    && IsDir(own0, d) && d < NFRAMES && own1 == Dropped(own0, d, lo, v) && Kept(m0, own0, m1, own1, d, lo, v)
    && forall u | 0 <= u < VPAGES :: ClearedPte(m0, m1, d, lo, v, u)
  }

  ghost predicate ClearedPte(m0: Memory, m1: Memory, d: nat, lo: nat, v: nat, u: nat)
    requires d < NFRAMES && u < VPAGES
  {
    Pte(m1, d, u) == if lo <= u < v && Present(Pte(m0, d, u)) then 0 else Pte(m0, d, u)
  }

  lemma DeallocStart(mem: Memory, own: Roles, lo0: nat, d: nat, lo: nat)
    requires Spaces(mem, own, lo0) && IsDir(own, d)
    ensures Dealloced(mem, own, mem, own, d, lo, lo)
  {
    assert Dropped(own, d, lo, lo) == own;
    forall f: nat ensures KeptAt(mem, own, mem, own, d, lo, lo, f) {
    }
    forall u | 0 <= u < VPAGES ensures ClearedPte(mem, mem, d, lo, lo, u) {
    }
  }

  // Pages v to next are not there: nothing to do for them.
  lemma DeallocSkip(m0: Memory, own0: Roles, m1: Memory, own1: Roles, lo0: nat, d: nat, lo: nat, v: nat, next: nat)
    requires Dealloced(m0, own0, m1, own1, d, lo, v) && Spaces(m0, own0, lo0) && lo <= v <= next <= UPAGES
    requires forall u | v <= u < next :: !Present(Pte(m1, d, u))
    ensures Dealloced(m0, own0, m1, own1, d, lo, next)
  {
    forall f | f in own0 ensures !IsUser(own0[f], d, v, next) {
      assert Placed(m0, own0, f);
      assert own0[f].User? ==> ClearedPte(m0, m1, d, lo, v, own0[f].v);
    }
    assert Dropped(own0, d, lo, next) == own1;
    forall f: nat ensures KeptAt(m0, own0, m1, own1, d, lo, next, f) {
      assert KeptAt(m0, own0, m1, own1, d, lo, v, f);
    }
    forall u | 0 <= u < VPAGES ensures ClearedPte(m0, m1, d, lo, next, u) {
      assert ClearedPte(m0, m1, d, lo, v, u);
    }
  }

  // Without a page table nothing is mapped up to the next directory entry.
  lemma DeallocNext(m0: Memory, own0: Roles, m1: Memory, own1: Roles, lo0: nat, d: nat, lo: nat, v: nat, hi: nat,
                    v1: nat)
    requires Dealloced(m0, own0, m1, own1, d, lo, v) && Spaces(m0, own0, lo0) && lo <= v < hi <= UPAGES
    requires !Present(Pde(m1, d, v / NENTRIES)) && v1 == (v / NENTRIES + 1) * NENTRIES - 1
    ensures v <= v1 < UPAGES && Dealloced(m0, own0, m1, own1, d, lo, if v1 + 1 <= hi then v1 + 1 else hi)
  {
    var next := if v1 + 1 <= hi then v1 + 1 else hi;
    forall u | v <= u < next ensures !Present(Pte(m1, d, u)) {
      assert u / NENTRIES == v / NENTRIES;
    }
    DeallocSkip(m0, own0, m1, own1, lo0, d, lo, v, next);
  }

  // The page of v is freed, then its entry cleared.
  lemma DeallocState(m1: Memory, freelist: Uint, fl: seq<nat>, own1: Roles, lo0: nat, d: nat, v: nat, t: nat, p: nat,
                     m2: Memory)
    requires State(m1, freelist, fl, own1, lo0) && IsDir(own1, d) && v < UPAGES && TableAt(m1, d, v, t)
    requires Present(Pte(m1, d, v)) && p == Frame(Pte(m1, d, v)) && p < NFRAMES && t < NFRAMES
    requires m2 == Stored(Freed(m1, freelist, p), t, v, 0)
    ensures p in own1 && own1[p] == User(d, v) && State(m2, Va(p), [p] + fl, own1 - {p}, lo0)
    ensures OnePte(m1, m2, d, v, 0) && (forall f | f in own1 && f != p && f != t :: f < NFRAMES && m2[f] == m1[f])
  {
    UnmapPage(m1, own1, lo0, d, v, t);
    TableOwned(m1, own1, lo0, d, v, t);
    var mu, ou := Stored(m1, t, v, 0), own1[p := Held];
    FreeListFrame(m1, mu, freelist, fl);
    Released(mu, freelist, fl, ou, lo0, p);
    assert Freed(mu, freelist, p) == m2;
    assert ou - {p} == own1 - {p};
    forall f: nat ensures SameAt(mu, ou, m2, own1 - {p}, f) {
    }
    forall u | 0 <= u < VPAGES ensures Pte(m2, d, u) == if u == v then 0 else Pte(m1, d, u) {
      StoredPte(m1, own1, lo0, d, v, t, 0, d, u);
      PteSame(mu, ou, m2, own1 - {p}, lo0, d, u);
    }
  }

  lemma DeallocStep(m0: Memory, own0: Roles, m1: Memory, own1: Roles, lo0: nat, d: nat, lo: nat, v: nat, t: nat, p: nat,
                    m2: Memory, own2: Roles)
    requires Dealloced(m0, own0, m1, own1, d, lo, v) && Spaces(m0, own0, lo0) && lo <= v < UPAGES
    requires p in own1 && own1[p] == User(d, v) && own2 == own1 - {p} && t in own1 && own1[t] == Table(d, v / NENTRIES)
    requires OnePte(m1, m2, d, v, 0) && Present(Pte(m1, d, v)) && Frame(Pte(m1, d, v)) == p
    requires forall f | f in own1 && f != p && f != t :: f < NFRAMES && m2[f] == m1[f]
    ensures Dealloced(m0, own0, m2, own2, d, lo, v + 1)
  {
    var hi := v + 1;
    assert ClearedPte(m0, m1, d, lo, v, v);
    forall f | f in own0 && IsUser(own0[f], d, v, hi) ensures f == p {
      assert Placed(m0, own0, f);
    }
    assert own2 == Dropped(own0, d, lo, hi);
    forall f: nat ensures KeptAt(m0, own0, m2, own2, d, lo, hi, f) {
      assert KeptAt(m0, own0, m1, own1, d, lo, v, f);
    }
    forall u | 0 <= u < VPAGES ensures ClearedPte(m0, m2, d, lo, hi, u) {
      assert ClearedPte(m0, m1, d, lo, v, u);
    }
  }

  // ---- taking a directory apart ------------------------------------------------------------

  // The roles once freevm has given back d's first i page tables.
  function Torn(own: Roles, d: nat, i: nat): (r: Roles) {
    map f | f in own && !(own[f].Table? && own[f].d == d && own[f].x < i) :: Orphan(own[f], d, f)
  }

  // The roles without everything that belongs to directory d
  function Without(own: Roles, d: nat): (r: Roles) {
    map f | f in own && !Inside(f, own[f], d, 0, UPAGES) :: own[f]
  }

  ghost predicate NoUsers(own: Roles, d: nat) {
    forall f | f in own :: !IsUser(own[f], d, 0, UPAGES)
  }

  ghost predicate Tearing(m0: Memory, own0: Roles, m1: Memory, own1: Roles, d: nat, i: nat) {
    && IsDir(own0, d) && own1 == Torn(own0, d, i) && forall f | f in own1 :: f < NFRAMES && m1[f] == m0[f]
  }

  lemma TearStart(mem: Memory, own: Roles, lo: nat, d: nat)
    requires Spaces(mem, own, lo) && IsDir(own, d) && NoUsers(own, d)
    ensures Spaces(mem, Torn(own, d, 0), lo) && Torn(own, d, 0).Keys == own.Keys
    ensures Tearing(mem, own, mem, Torn(own, d, 0), d, 0)
  {
    forall v | 0 <= v < UPAGES ensures !Present(Pte(mem, d, v)) {
      assert UserSlot(mem, own, d, v);
    }
    DropDir(mem, own, lo, d);
    assert Torn(own, d, 0) == Orphaned(own, d);
  }

  lemma TearStep(m0: Memory, own0: Roles, lo: nat, m1: Memory, freelist: Uint, fl: seq<nat>, own1: Roles, d: nat,
                 i: nat)
    requires Spaces(m0, own0, lo) && Tearing(m0, own0, m1, own1, d, i) && State(m1, freelist, fl, own1, lo)
    requires i < NENTRIES
    ensures d in own1 && lo <= d < NFRAMES
    ensures var e := m1[d][i];
      if !Present(e) then Tearing(m0, own0, m1, own1, d, i + 1)
      else
        var f := Frame(e);
        && f in own1 && f != d && lo <= f < NFRAMES && State(Freed(m1, freelist, f), Va(f), [f] + fl, own1 - {f}, lo)
        && Tearing(m0, own0, Freed(m1, freelist, f), own1 - {f}, d, i + 1)
  {
    var e := m1[d][i];
    assert DirSlot(m0, own0, d, i);
    var next := i + 1;
    forall f | f in own0 && own0[f] == Table(d, i) ensures Present(e) && f == Frame(e) {
      assert Placed(m0, own0, f);
    }
    if Present(e) {
      Released(m1, freelist, fl, own1, lo, Frame(e));
      assert own1 - {Frame(e)} == Torn(own0, d, next);
    } else {
      assert own1 == Torn(own0, d, next);
    }
  }

  lemma TearEnd(m0: Memory, own0: Roles, lo: nat, m1: Memory, freelist: Uint, fl: seq<nat>, own1: Roles, d: nat)
    requires Spaces(m0, own0, lo) && Tearing(m0, own0, m1, own1, d, NENTRIES) && State(m1, freelist, fl, own1, lo)
    requires NoUsers(own0, d) && Tidy(own0)
    ensures d in own1 && lo <= d < NFRAMES && Sane(Freed(m1, freelist, d), Va(d), [d] + fl, own1 - {d}, lo)
    ensures own1 - {d} == Without(own0, d)
    ensures forall f | f in own1 - {d} :: Freed(m1, freelist, d)[f] == m0[f]
  {
    Released(m1, freelist, fl, own1, lo, d);
    forall f | f in own0 ensures own0[f].Table? && own0[f].d == d ==> own0[f].x < NENTRIES {
      assert Placed(m0, own0, f);
    }
    forall f | f in own0 ensures own0[f].User? ==> own0[f].v < UPAGES {
      assert Placed(m0, own0, f);
    }
    assert own1 - {d} == Without(own0, d);
  }

  // PGROUNDUP(sz) / PGSIZE
  function PageUp(sz: nat): (v: nat)
    ensures sz <= v * PGSIZE < sz + PGSIZE
    ensures forall u: nat :: u < v <==> u * PGSIZE < sz
  {
    (sz + PGSIZE - 1) / PGSIZE
  }

  lemma FreevmUsers(m0: Memory, own0: Roles, m1: Memory, own1: Roles, lo: nat, d: nat)
    requires Spaces(m0, own0, lo) && Dealloced(m0, own0, m1, own1, d, 0, UPAGES)
    ensures NoUsers(own1, d) && Without(own1, d) == Without(own0, d)
    ensures forall f | f in Without(own0, d) :: f < NFRAMES && m1[f] == m0[f]
  {
    assert Without(own1, d) == Without(own0, d);
    forall f | f in Without(own0, d) ensures f < NFRAMES && m1[f] == m0[f] {
      assert KeptAt(m0, own0, m1, own1, d, 0, UPAGES, f);
    }
  }

  // ---- the kernel's half -----------------------------------------------------------------------

  // One entry of kmap[]
  datatype Kmap = Kmap(virt: Uint, physStart: Uint, physEnd: Uint, perm: nat)

  // The table itself: I/O space, kernel text, kernel data and memory, devices.
  // data is V2P(data).
  function KernelMap(data: Uint): (r: seq<Kmap>)
    requires data < NFRAMES * PGSIZE
  {
    [Kmap(KERNBASE, 0, 0x100000, 2),
     Kmap(KERNBASE + 0x100000, 0x100000, data, 0),
     Kmap(KERNBASE + data, data, 0xE000000, 2),
     Kmap(0xFE000000, 0xFE000000, 0, 2)]
  }

  // What every address space maps at page v of the kernel's half
  function KernelPte(dataPage: nat, v: nat): (w: Uint)
    requires v < VPAGES
  {
    if v < UPAGES then 0
    else if v < UPAGES + NFRAMES then
      Entry(v - UPAGES, if 256 <= v - UPAGES < dataPage then 0 else 2)
    else if v >= 0xFE000 then Entry(v, 2)
    else 0
  }

  // After k entries of kmap the kernel's half is complete below this page.
  function KernelBound(dataPage: nat, k: nat): (v: nat)
    requires k <= 4
  {
    if k == 0 then UPAGES else if k == 1 then UPAGES + 256 else if k == 2 then UPAGES + dataPage
    else if k == 3 then UPAGES + NFRAMES else VPAGES
  }

  ghost predicate KernelUpTo(mem: Memory, d: nat, dataPage: nat, bound: nat)
    requires d < NFRAMES
  {
    forall v | 0 <= v < VPAGES :: KernelPteUpTo(mem, d, dataPage, bound, v)
  }

  ghost predicate KernelPteUpTo(mem: Memory, d: nat, dataPage: nat, bound: nat, v: nat)
    requires d < NFRAMES && v < VPAGES
  {
    Pte(mem, d, v) == if v < bound then KernelPte(dataPage, v) else 0
  }

  lemma KernelEmpty(mem: Memory, d: nat, dataPage: nat)
    requires d < NFRAMES && KernelUpTo(mem, d, 0, 0)
    ensures KernelUpTo(mem, d, dataPage, UPAGES)
  {
    forall v | 0 <= v < VPAGES ensures KernelPteUpTo(mem, d, dataPage, UPAGES, v) {
      assert KernelPteUpTo(mem, d, 0, 0, v);
    }
  }

  // The kernel's half: all of memory, its text read-only, and the devices. No page of it is open
  // to users.
  lemma KernelHalf(mem: Memory, d: nat, dataPage: nat, v: nat)
    requires d < NFRAMES && KernelUpTo(mem, d, dataPage, VPAGES) && v < VPAGES
    ensures 0x80000 <= v < 0x8E000 ==>
      Pte(mem, d, v) == (v - 0x80000) * 4096 + if 0x80100 <= v < 0x80000 + dataPage then 1 else 3
    ensures 0xFE000 <= v ==> Pte(mem, d, v) == v * 4096 + 3
    ensures v < 0x80000 || 0x8E000 <= v < 0xFE000 ==> Pte(mem, d, v) == 0
    ensures !Lets(Pte(mem, d, v), false) && !Lets(Pte(mem, d, v), true)
  {
    assert KernelPteUpTo(mem, d, dataPage, VPAGES, v);
    KernelLow(Pte(mem, d, v), dataPage, v, false);
    KernelLow(Pte(mem, d, v), dataPage, v, true);
  }

  lemma KernelLow(w: Uint, dataPage: nat, v: nat, write: bool)
    requires v < VPAGES && w == KernelPte(dataPage, v)
    ensures !Lets(w, write)
  {
    var k := w % PGSIZE;
    assert k == 0 || k == 1 || k == 3;
    SameLow(w, k, write);
  }

  lemma KernelClosed(mem: Memory, own: Roles, lo: nat, d: nat, dataPage: nat)
    requires Spaces(mem, own, lo) && IsDir(own, d) && d < NFRAMES && KernelUpTo(mem, d, dataPage, VPAGES)
    ensures forall v, write | 0 <= v < VPAGES :: !UserMay(mem, d, v, write)
  {
    forall v, write | 0 <= v < VPAGES ensures !UserMay(mem, d, v, write) {
      KernelHalf(mem, d, dataPage, v);
      UserAccess(mem, own, lo, d, v, write);
    }
  }

  // What the k-th entry of kmap makes of page v
  lemma KernelRunPte(dataPage: nat, k: nat, v: nat)
    requires 256 < dataPage < NFRAMES && k < 4 && v < VPAGES
    ensures var e := KernelMap(dataPage * PGSIZE)[k];
      var first, last := e.virt / PGSIZE, (e.virt + (e.physEnd - e.physStart) % U32 - 1) / PGSIZE;
      && KernelBound(dataPage, k) <= first && last < KernelBound(dataPage, k + 1)
      && (first <= v <= last ==>
          e.physStart / PGSIZE + v - first < VPAGES
          && KernelPte(dataPage, v) == Entry(e.physStart / PGSIZE + v - first, e.perm))
      && (KernelBound(dataPage, k) <= v < first || last < v < KernelBound(dataPage, k + 1) ==>
          KernelPte(dataPage, v) == 0)
  {
  }

  // mappages maps the k-th entry of kmap.
  lemma KernelStep(m0: Memory, m1: Memory, d: nat, dataPage: nat, k: nat)
    requires d < NFRAMES && 256 < dataPage < NFRAMES && k < 4 && KernelUpTo(m0, d, dataPage, KernelBound(dataPage, k))
    requires var e := KernelMap(dataPage * PGSIZE)[k];
      RangePtes(m0, m1, d, e.virt / PGSIZE, (e.virt + (e.physEnd - e.physStart) % U32 - 1) / PGSIZE,
        e.physStart / PGSIZE, e.perm)
    ensures KernelUpTo(m1, d, dataPage, KernelBound(dataPage, k + 1))
  {
    var e := KernelMap(dataPage * PGSIZE)[k];
    var before, bound := KernelBound(dataPage, k), KernelBound(dataPage, k + 1);
    var first, last, pf, perm := e.virt / PGSIZE, (e.virt + (e.physEnd - e.physStart) % U32 - 1) / PGSIZE,
      e.physStart / PGSIZE, e.perm;
    forall v | 0 <= v < VPAGES ensures KernelPteUpTo(m1, d, dataPage, bound, v) {
      assert KernelPteUpTo(m0, d, dataPage, before, v);
      assert RangePte(m0, m1, d, first, last, pf, perm, v);
      KernelRunPte(dataPage, k, v);
    }
  }

  // The pages of the k-th entry are a run inside the kernel's half.
  lemma KernelRun(mem: Memory, d: nat, dataPage: nat, k: nat)
    requires 256 < dataPage < NFRAMES && k < 4 && d < NFRAMES && KernelUpTo(mem, d, dataPage, KernelBound(dataPage, k))
    ensures var e := KernelMap(dataPage * PGSIZE)[k];
      var size := (e.physEnd - e.physStart) % U32;
      && size > 0 && e.virt + size <= U32 && e.physStart % PGSIZE == 0 && e.virt / PGSIZE >= UPAGES
      && e.physStart / PGSIZE + (e.virt + size - 1) / PGSIZE - e.virt / PGSIZE < VPAGES
      && forall u | e.virt / PGSIZE <= u <= (e.virt + size - 1) / PGSIZE :: !Present(Pte(mem, d, u))
  {
    var e := KernelMap(dataPage * PGSIZE)[k];
    forall u | e.virt / PGSIZE <= u <= (e.virt + (e.physEnd - e.physStart) % U32 - 1) / PGSIZE
      ensures !Present(Pte(mem, d, u)) {
      assert KernelPteUpTo(mem, d, dataPage, KernelBound(dataPage, k), u);
    }
  }

  // ---- frames spent on page tables --------------------------------------------------------

  // How many directory entries from x to y have no page table
  function Missing(dir: Page, x: nat, y: nat): (n: nat)
    requires y <= NENTRIES
  {
    if y <= x then 0 else Missing(dir, x, y - 1) + if Present(dir[y - 1]) then 0 else 1
  }

  lemma {:induction false} MissingSplit(dir: Page, x: nat, y: nat, z: nat)
    requires x <= y <= z <= NENTRIES
    ensures Missing(dir, x, z) == Missing(dir, x, y) + Missing(dir, y, z)
  {
    if y < z {
      MissingSplit(dir, x, y, z - 1);
    }
  }

  lemma {:induction false} MissingSame(dir: Page, e: Page, x: nat, y: nat)
    requires y <= NENTRIES && forall i | x <= i < y :: Present(dir[i]) <==> Present(e[i])
    ensures Missing(dir, x, y) == Missing(e, x, y)
  {
    if x < y {
      MissingSame(dir, e, x, y - 1);
    }
  }

  // The entries from x to y have been given page tables, and no others.
  ghost predicate Tabled(d0: Page, d1: Page, x: nat, y: nat) {
    forall i | 0 <= i < NENTRIES :: Present(d1[i]) <==> Present(d0[i]) || x <= i < y
  }

  // n0 free frames have become n1: some pages, and a page table for each entry without one.
  ghost predicate Spent(d0: Page, d1: Page, x: nat, y: nat, n0: nat, n1: nat, pages: nat) {
    y <= NENTRIES && Tabled(d0, d1, x, y) && n0 == n1 + pages + Missing(d0, x, y)
  }

  // The directory entries that the pages from first to v need end here.
  function EntryEnd(first: nat, v: nat): (y: nat)
    ensures v <= VPAGES && first < VPAGES ==> y <= NENTRIES
  {
    if v <= first then first / NENTRIES else (v - 1) / NENTRIES + 1
  }

  // The page tables that the pages from first to v need
  function TablesFor(dir: Page, first: nat, v: nat): (n: nat)
    requires first < VPAGES && v <= VPAGES
  {
    Missing(dir, first / NENTRIES, EntryEnd(first, v))
  }

  // The frames that mapping the pages from first to v takes
  function FramesFor(dir: Page, first: nat, v: nat): (n: nat)
    requires first <= v <= VPAGES && first < VPAGES
  {
    v - first + TablesFor(dir, first, v)
  }

  // The pages from first to v have been mapped: their page tables and, if fill, their frames are
  // what has been taken.
  ghost predicate Taken(d0: Page, d1: Page, first: nat, v: nat, n0: nat, n1: nat, fill: bool) {
    && first <= v <= VPAGES && first < VPAGES
    && Spent(d0, d1, first / NENTRIES, EntryEnd(first, v), n0, n1, if fill then v - first else 0)
  }

  lemma TakenStart(dir: Page, first: nat, n: nat, fill: bool)
    requires first < VPAGES
    ensures Taken(dir, dir, first, first, n, n, fill)
  {
  }

  // One entry
  lemma SpentOne(d0: Page, d1: Page, x: nat, n0: nat, n1: nat)
    requires x < NENTRIES && Present(d1[x]) && forall i | 0 <= i < NENTRIES && i != x :: d1[i] == d0[i]
    requires n0 == n1 + if Present(d0[x]) then 0 else 1
    ensures Spent(d0, d1, x, x + 1, n0, n1, 0)
  {
    assert Missing(d0, x, x) == 0;
  }

  lemma MissingOne(dir: Page, x: nat)
    requires x < NENTRIES && !Present(dir[x])
    ensures Missing(dir, x, x + 1) == 1
  {
    assert Missing(dir, x, x) == 0;
  }

  lemma NextMissing(d0: Page, d1: Page, first: nat, v: nat)
    requires first <= v < VPAGES && Tabled(d0, d1, first / NENTRIES, EntryEnd(first, v))
    ensures EntryEnd(first, v + 1) == v / NENTRIES + 1 && EntryEnd(first, v) <= v / NENTRIES + 1
    ensures v / NENTRIES <= EntryEnd(first, v) && first / NENTRIES <= v / NENTRIES
    ensures TablesFor(d0, first, v + 1) == TablesFor(d0, first, v) + Missing(d1, v / NENTRIES, v / NENTRIES + 1)
  {
    var x, e, y := first / NENTRIES, v / NENTRIES, EntryEnd(first, v);
    assert Missing(d1, e, e) == 0;
    if y == e {
      assert Missing(d0, x, e + 1) == Missing(d0, x, e) + if Present(d0[e]) then 0 else 1;
    }
  }

  lemma TablesMore(dir: Page, first: nat, v: nat, hi: nat)
    requires first < VPAGES && v <= hi <= VPAGES
    ensures TablesFor(dir, first, v) <= TablesFor(dir, first, hi)
  {
    if EntryEnd(first, v) < EntryEnd(first, hi) {
      MissingSplit(dir, first / NENTRIES, EntryEnd(first, v), EntryEnd(first, hi));
    }
  }

  // mappages' turn needs no frame but that of a page table.
  lemma TabledTurn(ok: bool, d0: Page, d1: Page, d2: Page, first: nat, v: nat, last: nat, n0: nat, n1: nat, n2: nat)
    requires Taken(d0, d1, first, v, n0, n1, false) && v <= last < VPAGES
    requires ok ==> Spent(d1, d2, v / NENTRIES, v / NENTRIES + 1, n1, n2, 0)
    requires !ok ==> n1 < Missing(d1, v / NENTRIES, v / NENTRIES + 1)
    ensures ok ==> Taken(d0, d2, first, v + 1, n0, n2, false)
    ensures !ok ==> n0 < TablesFor(d0, first, last + 1)
  {
    TakenTurn(ok, d0, d1, d2, first, v, last + 1, n0, n1, n2, false);
  }

  // One more page, or too few frames for all the pages up to hi
  lemma TakenTurn(ok: bool, d0: Page, d1: Page, d2: Page, first: nat, v: nat, hi: nat, n0: nat, n1: nat, n2: nat,
                  fill: bool)
    requires Taken(d0, d1, first, v, n0, n1, fill) && v < hi <= VPAGES
    requires if ok then Spent(d1, d2, v / NENTRIES, v / NENTRIES + 1, n1, n2, if fill then 1 else 0)
      else n1 < Missing(d1, v / NENTRIES, v / NENTRIES + 1) + if fill then 1 else 0
    ensures if ok then Taken(d0, d2, first, v + 1, n0, n2, fill)
      else n0 < if fill then FramesFor(d0, first, hi) else TablesFor(d0, first, hi)
  {
    NextMissing(d0, d1, first, v);
    TablesMore(d0, first, v + 1, hi);
  }

  // The page tables of an address space after k entries of kmap
  function KernelTables(dataPage: nat, k: nat): (n: nat)
    requires 0 < dataPage < NFRAMES && k <= 4
  {
    if k == 0 then 0 else if k == 1 then 1 else if k == 2 then (dataPage - 1) / NENTRIES + 1
    else if k == 3 then NFRAMES / NENTRIES else NFRAMES / NENTRIES + 8
  }

  ghost predicate KernelTabled(dir: Page, dataPage: nat, k: nat)
    requires 0 < dataPage < NFRAMES && k <= 4
  {
    forall i | 0 <= i < NENTRIES ::
      Present(dir[i]) <==> (512 <= i < 512 + KernelTables(dataPage, k) && i < 568) || (k == 4 && i >= 1016)
  }

  lemma {:induction false} MissingRun(dir: Page, x: nat, y: nat, some: bool)
    requires x <= y <= NENTRIES && forall i | x <= i < y :: Present(dir[i]) == some
    ensures Missing(dir, x, y) == if some then 0 else y - x
  {
    if x < y {
      MissingRun(dir, x, y - 1, some);
    }
  }

  // The k-th entry of kmap takes the tables that are still missing.
  lemma KernelSpent(d0: Page, d1: Page, dataPage: nat, k: nat, n0: nat, n1: nat, first: nat, last: nat)
    requires 256 < dataPage < NFRAMES && k < 4 && KernelTabled(d0, dataPage, k)
    requires first == KernelFirst(dataPage, k) && last + 1 == KernelBound(dataPage, k + 1)
    ensures TablesFor(d0, first, last + 1) == KernelTables(dataPage, k + 1) - KernelTables(dataPage, k)
    ensures Spent(d0, d1, first / NENTRIES, EntryEnd(first, last + 1), n0, n1, 0) ==>
      KernelTabled(d1, dataPage, k + 1) && n0 == n1 + KernelTables(dataPage, k + 1) - KernelTables(dataPage, k)
  {
    var x, y := first / NENTRIES, last / NENTRIES + 1;
    if k == 3 {
      MissingRun(d0, x, y, false);
    } else {
      var top := 512 + KernelTables(dataPage, k);
      assert x <= top <= y;
      MissingRun(d0, x, top, true);
      MissingRun(d0, top, y, false);
      MissingSplit(d0, x, top, y);
    }
  }

  // mappages of the k-th entry, pages first to last
  lemma KernelMapped(ok: bool, m0: Memory, m1: Memory, d: nat, dataPage: nat, k: nat, n0: nat, n1: nat, e: Kmap,
                     first: nat, last: nat)
    requires d < NFRAMES && 256 < dataPage < NFRAMES && k < 4 && e == KernelMap(dataPage * PGSIZE)[k]
    requires KernelUpTo(m0, d, dataPage, KernelBound(dataPage, k)) && KernelTabled(m0[d], dataPage, k)
    requires first == e.virt / PGSIZE && last == (e.virt + (e.physEnd - e.physStart) % U32 - 1) / PGSIZE < VPAGES
    requires first < VPAGES
    requires ok ==> Taken(m0[d], m1[d], first, last + 1, n0, n1, false)
    requires ok ==> RangePtes(m0, m1, d, first, last, e.physStart / PGSIZE, e.perm)
    requires !ok ==> n0 < TablesFor(m0[d], first, last + 1)
    ensures ok ==> KernelTabled(m1[d], dataPage, k + 1) && KernelUpTo(m1, d, dataPage, KernelBound(dataPage, k + 1))
    ensures ok ==> n0 == n1 + KernelTables(dataPage, k + 1) - KernelTables(dataPage, k)
    ensures !ok ==> n0 < KernelTables(dataPage, k + 1) - KernelTables(dataPage, k)
  {
    KernelEntry(dataPage, k);
    KernelSpent(m0[d], m1[d], dataPage, k, n0, n1, first, last);
    if ok {
      KernelStep(m0, m1, d, dataPage, k);
    }
  }

  const KERNELTABLES: nat := 64          // KernelTables(_, 4)

  // A new address space has no page tables below KERNBASE.
  lemma UserTables(dir: Page, dataPage: nat, v: nat)
    requires 0 < dataPage < NFRAMES && KernelTabled(dir, dataPage, 4) && v <= UPAGES
    ensures TablesFor(dir, 0, v) == EntryEnd(0, v)
  {
    MissingRun(dir, 0, EntryEnd(0, v), false);
  }

  // The first page of kmap's k-th entry
  function KernelFirst(dataPage: nat, k: nat): (v: nat)
    requires k < 4
  {
    if k == 3 then 0xFE000 else KernelBound(dataPage, k)
  }

  lemma KernelEntry(dataPage: nat, k: nat)
    requires 256 < dataPage < NFRAMES && k < 4
    ensures var e := KernelMap(dataPage * PGSIZE)[k];
      && e.virt / PGSIZE == KernelFirst(dataPage, k)
      && (e.virt + (e.physEnd - e.physStart) % U32 - 1) / PGSIZE + 1 == KernelBound(dataPage, k + 1)
  {
  }

  lemma NewDir(mem: Memory, own: Roles, lo: nat, d: nat, m1: Memory, own1: Roles)
    requires Spaces(mem, own, lo) && d !in own && lo <= d < NFRAMES && m1 == mem[d := Fill(0)] && own1 == own[d := Dir]
    ensures Spaces(m1, own1, lo) && Kept(mem, own, m1, own1, d, 0, 0)
    ensures KernelUpTo(m1, d, 0, 0)
  {
    forall v | 0 <= v < VPAGES ensures KernelPteUpTo(m1, d, 0, 0, v) {
    }
    forall e, x | IsDir(own1, e) && 0 <= x < NENTRIES ensures DirSlot(m1, own1, e, x) {
      assert e != d ==> DirSlot(mem, own, e, x);
    }
    forall e, v | IsDir(own1, e) && 0 <= v < UPAGES ensures UserSlot(m1, own1, e, v) {
      if e != d {
        assert DirSlot(mem, own, e, v / NENTRIES) && UserSlot(mem, own, e, v);
      }
    }
    forall f | f in own1 ensures Placed(m1, own1, f) {
      if f != d {
        assert Placed(mem, own, f);
        if own[f].User? {
          assert DirSlot(mem, own, own[f].d, own[f].v / NENTRIES);
        }
      }
    }
    forall f: nat ensures KeptAt(mem, own, m1, own1, d, 0, 0, f) {
    }
  }

  // A directory made since then and taken apart again leaves the roles as they were.
  lemma WithoutNew(m0: Memory, own0: Roles, m1: Memory, own1: Roles, lo: nat, d: nat, hi: nat)
    requires Spaces(m0, own0, lo) && d !in own0 && Tidy(own0) && Kept(m0, own0, m1, own1, d, 0, hi) && hi <= UPAGES
    ensures Without(own1, d) == own0 && forall f | f in own0 :: f < NFRAMES && m1[f] == m0[f]
  {
    forall f | f in own0
      ensures !Inside(f, own0[f], d, 0, UPAGES) && f in own1 && own1[f] == own0[f] && m1[f] == m0[f] {
      assert Placed(m0, own0, f) && KeptAt(m0, own0, m1, own1, d, 0, hi, f);
    }
    forall f | f in own1 && !Inside(f, own1[f], d, 0, UPAGES) ensures f in own0 && own0[f] == own1[f] {
      assert KeptAt(m0, own0, m1, own1, d, 0, hi, f);
    }
  }

  // ---- filling user pages ------------------------------------------------------------------------

  // The contents and flags a user page is meant to have
  datatype Want = Want(page: Page, flags: nat)

  ghost predicate PageIs(mem: Memory, w: Uint, want: Want) {
    Present(w) && Frame(w) < NFRAMES && mem[Frame(w)] == want.page && w % PGSIZE == want.flags
  }

  // Pages lo to v of d are as wanted; the other entries have not changed.
  ghost predicate Filled(m0: Memory, m1: Memory, d: nat, lo: nat, v: nat, wants: seq<Want>)
    requires d < NFRAMES
  {
    && v <= lo + |wants| && lo + |wants| <= UPAGES
    && forall u | 0 <= u < VPAGES :: FilledPte(m0, m1, d, lo, v, wants, u)
  }

  ghost predicate FilledPte(m0: Memory, m1: Memory, d: nat, lo: nat, v: nat, wants: seq<Want>, u: nat)
    requires d < NFRAMES && v <= lo + |wants| && u < VPAGES
  {
    if lo <= u < v then PageIs(m1, Pte(m1, d, u), wants[u - lo]) else Pte(m1, d, u) == Pte(m0, d, u)
  }

  // Filling a held frame
  lemma HeldFilled(mem: Memory, freelist: Uint, fl: seq<nat>, own: Roles, lo: nat, d: nat, f: nat, page: Page,
                   m1: Memory)
    requires Sane(mem, freelist, fl, own, lo) && IsDir(own, d) && f in own && own[f] == Held && f < NFRAMES
    requires m1 == mem[f := page]
    ensures Sane(m1, freelist, fl, own, lo) && SamePtes(mem, m1, d)
  {
    forall g: nat ensures SameAt(mem, own, m1, own, g) {
    }
    SpacesFrame(mem, own, m1, own, lo);
    FreeListFrame(mem, m1, freelist, fl);
    forall u | 0 <= u < VPAGES ensures Pte(m1, d, u) == Pte(mem, d, u) {
      PteSame(mem, own, m1, own, lo, d, u);
    }
  }

  // mem = kalloc(), its contents, and mappages, together
  lemma PlacedPage(m0: Memory, own0: Roles, m1: Memory, own1: Roles, m2: Memory, own2: Roles,
                   d: nat, v: nat, f: nat, perm: nat, want: Want)
    requires d < NFRAMES && v < UPAGES && f < NFRAMES && perm < PGSIZE && SamePtes(m0, m1, d)
    requires own1 - {f} == own0 && forall g | g in own0 :: g < NFRAMES && m1[g] == m0[g]
    requires Ranged(m1, own1, m2, own2, d, v, v, f, perm, 1) && m1[f] == want.page
    requires want.flags == Flags(perm)
    ensures Kept(m0, own0, m2, own2, d, v, v + 1) && PageIs(m2, Pte(m2, d, v), want)
    ensures forall u | 0 <= u < VPAGES && u != v :: Pte(m2, d, u) == Pte(m0, d, u)
  {
    var hi := v + 1;
    forall g: nat ensures KeptAt(m0, own0, m2, own2, d, v, hi, g) {
      assert KeptAt(m1, own1 - {f}, m2, own2, d, v, hi, g);
    }
    assert RangePte(m1, m2, d, v, v, f, perm, v);
    forall u | 0 <= u < VPAGES && u != v ensures Pte(m2, d, u) == Pte(m0, d, u) {
      assert RangePte(m1, m2, d, v, v, f, perm, u);
    }
  }

  lemma FailedPage(m0: Memory, own0: Roles, m1: Memory, own1: Roles, m2: Memory, own2: Roles, lo: nat, d: nat, v: nat,
                   f: nat, perm: nat)
    requires d < NFRAMES && v < UPAGES && f < NFRAMES && perm < PGSIZE && SamePtes(m0, m1, d)
    requires Spaces(m0, own0, lo) && IsDir(own0, d) && f !in own0 && f in own1 && own1[f] == Held
    requires own1 - {f} == own0 && forall g | g in own0 :: g < NFRAMES && m1[g] == m0[g]
    requires Ranged(m1, own1, m2, own2, d, v, v, f, perm, 0)
    ensures Kept(m0, own0, m2, own2 - {f}, d, 0, 0) && SamePtes(m0, m2, d) && f in own2 && own2[f] == Held
  {
    var own3 := own2 - {f};
    forall g: nat ensures KeptAt(m0, own0, m2, own3, d, 0, 0, g) {
      assert KeptAt(m1, own1, m2, own2, d, 0, 0, g);
    }
    assert KeptAt(m1, own1, m2, own2, d, 0, 0, f);
    forall u | 0 <= u < VPAGES ensures Pte(m2, d, u) == Pte(m0, d, u) {
      assert RangePte(m1, m2, d, v, v - 1, f, perm, u);
    }
  }

  lemma FilledStep(m0: Memory, m1: Memory, own1: Roles, m2: Memory, own2: Roles, lo0: nat, d: nat, lo: nat, v: nat,
                   wants: seq<Want>)
    requires d < NFRAMES && Filled(m0, m1, d, lo, v, wants) && lo <= v < lo + |wants| && Spaces(m1, own1, lo0)
    requires IsDir(own1, d)
    requires Kept(m1, own1, m2, own2, d, v, v + 1) && PageIs(m2, Pte(m2, d, v), wants[v - lo])
    requires forall u | 0 <= u < VPAGES && u != v :: Pte(m2, d, u) == Pte(m1, d, u)
    ensures Filled(m0, m2, d, lo, v + 1, wants)
  {
    var next := v + 1;
    forall u | 0 <= u < VPAGES ensures FilledPte(m0, m2, d, lo, next, wants, u) {
      assert FilledPte(m0, m1, d, lo, v, wants, u);
      if lo <= u < v {
        assert UserSlot(m1, own1, d, u);
        assert KeptAt(m1, own1, m2, own2, d, v, next, Frame(Pte(m1, d, u)));
      }
    }
  }

  lemma FilledStart(mem: Memory, d: nat, lo: nat, wants: seq<Want>)
    requires d < NFRAMES && lo + |wants| <= UPAGES
    ensures Filled(mem, mem, d, lo, lo, wants)
  {
    forall u | 0 <= u < VPAGES ensures FilledPte(mem, mem, d, lo, lo, wants, u) {
    }
  }

  lemma FilledSame(m0: Memory, m1: Memory, own1: Roles, m2: Memory, own2: Roles, lo0: nat, d: nat, lo: nat, v: nat,
                   wants: seq<Want>)
    requires d < NFRAMES && Filled(m0, m1, d, lo, v, wants) && Spaces(m1, own1, lo0) && IsDir(own1, d)
    requires Kept(m1, own1, m2, own2, d, 0, 0) && SamePtes(m1, m2, d)
    ensures Filled(m0, m2, d, lo, v, wants)
  {
    forall u | 0 <= u < VPAGES ensures FilledPte(m0, m2, d, lo, v, wants, u) {
      assert FilledPte(m0, m1, d, lo, v, wants, u);
      if lo <= u < v {
        assert UserSlot(m1, own1, d, u);
        assert KeptAt(m1, own1, m2, own2, d, 0, 0, Frame(Pte(m1, d, u)));
      }
    }
  }

  // Two steps on d, each inside lo to hi
  lemma KeptJoin(m0: Memory, own0: Roles, m1: Memory, own1: Roles, m2: Memory, own2: Roles, d: nat,
                 a: nat, b: nat, a1: nat, b1: nat, lo: nat, hi: nat)
    requires Kept(m0, own0, m1, own1, d, a, b) && Kept(m1, own1, m2, own2, d, a1, b1)
    requires (a < b ==> lo <= a && b <= hi) && (a1 < b1 ==> lo <= a1 && b1 <= hi)
    ensures Kept(m0, own0, m2, own2, d, lo, hi)
  {
    forall f: nat ensures KeptAt(m0, own0, m2, own2, d, lo, hi, f) {
      assert KeptAt(m0, own0, m1, own1, d, a, b, f) && KeptAt(m1, own1, m2, own2, d, a1, b1, f);
    }
  }

  lemma ReleasedPtes(mem: Memory, freelist: Uint, fl: seq<nat>, own: Roles, lo: nat, d: nat, f: nat)
    requires State(mem, freelist, fl, own, lo) && IsDir(own, d) && f in own && own[f] == Held && lo <= f < NFRAMES
    ensures State(Freed(mem, freelist, f), Va(f), [f] + fl, own - {f}, lo) && SamePtes(mem, Freed(mem, freelist, f), d)
  {
    Released(mem, freelist, fl, own, lo, f);
    var m1, own1 := Freed(mem, freelist, f), own - {f};
    forall g: nat ensures SameAt(mem, own, m1, own1, g) {
    }
    forall u | 0 <= u < VPAGES ensures Pte(m1, d, u) == Pte(mem, d, u) {
      PteSame(mem, own, m1, own1, lo, d, u);
    }
  }

  // No page from lo to hi is present; every other entry has not changed.
  ghost predicate Undone(m0: Memory, m1: Memory, d: nat, lo: nat, hi: nat)
    requires d < NFRAMES
  {
    forall u | 0 <= u < VPAGES :: UndonePte(m0, m1, d, lo, hi, u)
  }

  ghost predicate UndonePte(m0: Memory, m1: Memory, d: nat, lo: nat, hi: nat, u: nat)
    requires d < NFRAMES && u < VPAGES
  {
    if lo <= u < hi then !Present(Pte(m1, d, u)) else Pte(m1, d, u) == Pte(m0, d, u)
  }

  lemma AllocUndone(m0: Memory, own0: Roles, lo0: nat, m1: Memory, own1: Roles, f: nat, m2: Memory, own2: Roles,
                    d: nat, lo: nat, v: nat, hi: nat, wants: seq<Want>)
    requires Spaces(m0, own0, lo0) && d < NFRAMES && lo <= v <= hi == lo + |wants| <= UPAGES
    requires forall u | lo <= u < hi :: !Present(Pte(m0, d, u))
    requires Filled(m0, m1, d, lo, v, wants) && Kept(m0, own0, m1, own1 - {f}, d, lo, v)
    requires Dealloced(m1, own1, m2, own2, d, lo, hi)
    ensures Kept(m0, own0, m2, own2 - {f}, d, 0, 0) && Undone(m0, m2, d, lo, hi)
  {
    var own3, o1 := own2 - {f}, own1 - {f};
    forall g: nat ensures KeptAt(m0, own0, m2, own3, d, 0, 0, g) {
      assert KeptAt(m0, own0, m1, o1, d, lo, v, g) && KeptAt(m1, own1, m2, own2, d, lo, hi, g);
      assert g in own0 ==> Placed(m0, own0, g);
    }
    forall u | 0 <= u < VPAGES ensures UndonePte(m0, m2, d, lo, hi, u) {
      assert FilledPte(m0, m1, d, lo, v, wants, u) && ClearedPte(m1, m2, d, lo, hi, u);
    }
  }

  lemma UndoneSame(m0: Memory, own0: Roles, m1: Memory, own1: Roles, m2: Memory, d: nat, lo: nat, hi: nat)
    requires d < NFRAMES && Undone(m0, m1, d, lo, hi) && SamePtes(m1, m2, d) && Kept(m0, own0, m1, own1, d, 0, 0)
    requires forall g | g in own1 :: g < NFRAMES && m2[g] == m1[g]
    ensures Undone(m0, m2, d, lo, hi) && Kept(m0, own0, m2, own1, d, 0, 0)
  {
    forall u | 0 <= u < VPAGES ensures UndonePte(m0, m2, d, lo, hi, u) {
      assert UndonePte(m0, m1, d, lo, hi, u);
    }
    forall g: nat ensures KeptAt(m0, own0, m2, own1, d, 0, 0, g) {
      assert KeptAt(m0, own0, m1, own1, d, 0, 0, g);
    }
  }

  // Filled pages with flags 7 are open to users, for writing too.
  lemma FilledOpen(m0: Memory, m1: Memory, own1: Roles, lo0: nat, d: nat, lo: nat, hi: nat)
    requires d < NFRAMES && Spaces(m1, own1, lo0) && IsDir(own1, d) && lo <= hi <= UPAGES
    requires Filled(m0, m1, d, lo, hi, ZeroPages(hi - lo))
    ensures forall u | lo <= u < hi :: UserMay(m1, d, u, true)
  {
    forall u | lo <= u < hi ensures UserMay(m1, d, u, true) {
      assert FilledPte(m0, m1, d, lo, hi, ZeroPages(hi - lo), u);
      UserAccess(m1, own1, lo0, d, u, true);
      LowBits(Pte(m1, d, u));
    }
  }

  function ZeroPages(n: nat): (r: seq<Want>)
    ensures |r| == n && forall i | 0 <= i < n :: r[i] == Want(Fill(0), 7)
  {
    seq(n, _ => Want(Fill(0), 7))
  }

  // ---- copies ---------------------------------------------------------------------------------

  // want is what page u of d0 holds, with its flags.
  ghost predicate CopyOf(mem: Memory, d0: nat, u: nat, want: Want)
    requires d0 < NFRAMES && u < VPAGES
  {
    PageIs(mem, Pte(mem, d0, u), want)
  }

  ghost predicate Copies(mem: Memory, d0: nat, wants: seq<Want>)
    requires d0 < NFRAMES
  {
    |wants| <= UPAGES && forall u | 0 <= u < |wants| :: CopyOf(mem, d0, u, wants[u])
  }

  ghost function CopyWants(mem: Memory, d0: nat, n: nat): (wants: seq<Want>)
    requires d0 < NFRAMES && n <= UPAGES
    requires forall u | 0 <= u < n :: Present(Pte(mem, d0, u)) && Frame(Pte(mem, d0, u)) < NFRAMES
    ensures |wants| == n && Copies(mem, d0, wants)
  {
    seq(n, u requires 0 <= u < n => Want(mem[Frame(Pte(mem, d0, u))], Pte(mem, d0, u) % PGSIZE))
  }

  lemma PagesOwned(mem: Memory, own: Roles, lo: nat, d: nat, n: nat)
    requires Spaces(mem, own, lo) && IsDir(own, d) && n <= UPAGES && forall u | 0 <= u < n :: Present(Pte(mem, d, u))
    ensures forall u | 0 <= u < n :: Present(Pte(mem, d, u)) && Frame(Pte(mem, d, u)) < NFRAMES
  {
    forall u | 0 <= u < n ensures Frame(Pte(mem, d, u)) < NFRAMES {
      assert UserSlot(mem, own, d, u);
    }
  }

  lemma KeptSameFrames(m0: Memory, own0: Roles, m1: Memory, m2: Memory, own1: Roles, d: nat, hi: nat)
    requires Kept(m0, own0, m1, own1, d, 0, hi) && forall g | g in own1 :: g < NFRAMES && m2[g] == m1[g]
    ensures Kept(m0, own0, m2, own1, d, 0, hi)
  {
    forall g: nat ensures KeptAt(m0, own0, m2, own1, d, 0, hi, g) {
      assert KeptAt(m0, own0, m1, own1, d, 0, hi, g);
    }
  }

  // The child's space: copies of the parent's first n pages, and the kernel's half.
  ghost predicate Copied(m0: Memory, d0: nat, m1: Memory, d: nat, n: nat, dataPage: nat)
    requires d0 < NFRAMES
  {
    d < NFRAMES && n <= UPAGES && forall u | 0 <= u < VPAGES :: CopiedPte(m0, d0, m1, d, n, dataPage, u)
  }

  ghost predicate CopiedPte(m0: Memory, d0: nat, m1: Memory, d: nat, n: nat, dataPage: nat, u: nat)
    requires d0 < NFRAMES && d < NFRAMES && u < VPAGES
  {
    var w0, w1 := Pte(m0, d0, u), Pte(m1, d, u);
    if u < n then
      Present(w1) && w1 % PGSIZE == w0 % PGSIZE && Frame(w0) < NFRAMES && Frame(w1) < NFRAMES &&
        m1[Frame(w1)] == m0[Frame(w0)]
    else w1 == KernelPte(dataPage, u)
  }

  lemma CopiedAll(m0: Memory, d0: nat, m1: Memory, m2: Memory, d: nat, n: nat, wants: seq<Want>, dataPage: nat)
    requires d0 < NFRAMES && d < NFRAMES && n == |wants| && Copies(m0, d0, wants)
    requires KernelUpTo(m1, d, dataPage, VPAGES) && Filled(m1, m2, d, 0, n, wants)
    ensures Copied(m0, d0, m2, d, n, dataPage)
  {
    forall u | 0 <= u < VPAGES ensures CopiedPte(m0, d0, m2, d, n, dataPage, u) {
      assert FilledPte(m1, m2, d, 0, n, wants, u) && KernelPteUpTo(m1, d, dataPage, VPAGES, u);
      assert u < n ==> CopyOf(m0, d0, u, wants[u]);
    }
  }

  // User code may do in the child what it may do in the parent, and nothing beyond the pages.
  lemma CopiedAccess(m0: Memory, own0: Roles, d0: nat, m1: Memory, own1: Roles, d: nat, n: nat, dataPage: nat, lo: nat)
    requires Spaces(m0, own0, lo) && IsDir(own0, d0) && Spaces(m1, own1, lo) && IsDir(own1, d) && d0 < NFRAMES
    requires Copied(m0, d0, m1, d, n, dataPage)
    ensures forall u, write | 0 <= u < n :: UserMay(m1, d, u, write) <==> UserMay(m0, d0, u, write)
    ensures forall u, write | n <= u < VPAGES :: !UserMay(m1, d, u, write)
  {
    forall u, write | 0 <= u < VPAGES
      ensures UserMay(m1, d, u, write) <==> u < n && UserMay(m0, d0, u, write) {
      assert CopiedPte(m0, d0, m1, d, n, dataPage, u);
      UserAccess(m1, own1, lo, d, u, write);
      UserAccess(m0, own0, lo, d0, u, write);
      var w := Pte(m1, d, u);
      if u < n {
        SameLow(w, Pte(m0, d0, u), write);
      } else {
        KernelLow(w, dataPage, u, write);
      }
    }
  }

  // ---- sizes -------------------------------------------------------------------------------------

  ghost predicate NoneFrom(mem: Memory, d: nat, n: nat)
    requires d < NFRAMES
  {
    forall u | n <= u < UPAGES :: !Present(Pte(mem, d, u))
  }

  ghost predicate AllBelow(mem: Memory, d: nat, n: nat)
    requires d < NFRAMES
  {
    n <= UPAGES && forall u | 0 <= u < n :: Present(Pte(mem, d, u))
  }

  lemma KernelOnly(mem: Memory, d: nat, dataPage: nat)
    requires d < NFRAMES && KernelUpTo(mem, d, dataPage, VPAGES)
    ensures NoneFrom(mem, d, 0)
  {
    forall u | 0 <= u < UPAGES ensures !Present(Pte(mem, d, u)) {
      assert KernelPteUpTo(mem, d, dataPage, VPAGES, u);
    }
  }

  lemma GrownPages(m0: Memory, own0: Roles, m1: Memory, own1: Roles, d: nat, sz: nat, newsz: nat, ok: bool)
    requires d < NFRAMES && sz <= newsz < KERNBASE && NoneFrom(m0, d, PageUp(sz))
    requires ok ==> Filled(m0, m1, d, PageUp(sz), PageUp(newsz), ZeroPages(PageUp(newsz) - PageUp(sz)))
    requires ok ==> Kept(m0, own0, m1, own1, d, PageUp(sz), PageUp(newsz))
    requires !ok ==> Undone(m0, m1, d, PageUp(sz), PageUp(newsz)) && Kept(m0, own0, m1, own1, d, 0, 0)
    ensures NoneFrom(m1, d, PageUp(if ok then newsz else sz)) && Kept(m0, own0, m1, own1, d, 0, UPAGES)
    ensures AllBelow(m0, d, PageUp(sz)) ==> AllBelow(m1, d, PageUp(if ok then newsz else sz))
  {
    var lo, hi := PageUp(sz), PageUp(newsz);
    KeptNone(m1, own1, d);
    KeptJoin(m0, own0, m1, own1, m1, own1, d, if ok then lo else 0, if ok then hi else 0, 0, 0, 0, UPAGES);
    forall u | 0 <= u < UPAGES
      ensures if ok && lo <= u < hi then Present(Pte(m1, d, u)) else Present(Pte(m1, d, u)) == Present(Pte(m0, d, u))
    {
      if ok {
        assert FilledPte(m0, m1, d, lo, hi, ZeroPages(hi - lo), u);
      } else {
        assert UndonePte(m0, m1, d, lo, hi, u);
      }
    }
  }

  lemma ShrunkPages(m0: Memory, own0: Roles, m1: Memory, own1: Roles, d: nat, sz: nat, newsz: nat)
    requires d < NFRAMES && newsz < sz < KERNBASE && NoneFrom(m0, d, PageUp(sz))
    requires Dealloced(m0, own0, m1, own1, d, PageUp(newsz), PageUp(sz))
    ensures NoneFrom(m1, d, PageUp(newsz)) && Kept(m0, own0, m1, own1, d, 0, UPAGES)
    ensures AllBelow(m0, d, PageUp(sz)) ==> AllBelow(m1, d, PageUp(newsz))
    ensures newsz == 0 ==> !AllBelow(m1, d, PageUp(sz))
  {
    var lo, hi := PageUp(newsz), PageUp(sz);
    KeptNone(m1, own1, d);
    KeptJoin(m0, own0, m1, own1, m1, own1, d, lo, hi, 0, 0, 0, UPAGES);
    forall u | 0 <= u < UPAGES ensures Present(Pte(m1, d, u)) == (Present(Pte(m0, d, u)) && !(lo <= u < hi)) {
      assert ClearedPte(m0, m1, d, lo, hi, u);
    }
    assert newsz == 0 ==> !Present(Pte(m1, d, 0));
  }

  // deallocuvm(pgdir, sz, sz + n) of a negative n, with the sum taken modulo 2^32
  lemma ShrunkBy(m0: Memory, own0: Roles, m1: Memory, own1: Roles, d: nat, sz: nat, n: int)
    requires d < NFRAMES && sz < KERNBASE && -0x8000_0000 <= n < 0 && NoneFrom(m0, d, PageUp(sz))
    requires (sz + n) % U32 >= sz ==> m1 == m0 && own1 == own0
    requires (sz + n) % U32 < sz ==> Dealloced(m0, own0, m1, own1, d, PageUp((sz + n) % U32), PageUp(sz))
    ensures (sz + n) % U32 == if sz + n >= 0 then sz + n else sz + n + U32
    ensures NoneFrom(m1, d, PageUp(if sz + n > 0 then sz + n else sz)) && Kept(m0, own0, m1, own1, d, 0, UPAGES)
    ensures AllBelow(m0, d, PageUp(sz)) ==>
      (AllBelow(m1, d, PageUp(if sz + n > 0 then sz + n else sz)) <==> sz == 0 || sz + n != 0)
  {
    if sz + n >= 0 {
      ShrunkPages(m0, own0, m1, own1, d, sz, sz + n);
    } else {
      KeptNone(m1, own1, d);
      KeptJoin(m0, own0, m1, own1, m1, own1, d, 0, 0, 0, 0, 0, UPAGES);
    }
  }

  // The frame f lies wholly between two kernel virtual addresses.
  predicate InsideRange(f: nat, vstart: nat, vend: nat) {
    vstart <= KERNBASE + f * PGSIZE && KERNBASE + f * PGSIZE + PGSIZE <= vend
  }

  predicate Managed(f: nat, lo: nat) {
    lo <= f < NFRAMES
  }

  ghost function AllHeld(lo: nat): (own: Roles)
    ensures forall f :: (f in own <==> lo <= f < NFRAMES) && (f in own ==> own[f] == Held)
  {
    map f: nat | f < NFRAMES && Managed(f, lo) :: Held
  }

  // freerange has given back the frames of the range below f.
  ghost predicate Returned(m0: Memory, own0: Roles, m1: Memory, own1: Roles, vstart: nat, vend: nat, f: nat) {
    && (forall g :: g in own1 <==> g in own0 && !(InsideRange(g, vstart, vend) && g < f))
    && (forall g | g in own1 :: own1[g] == own0[g] && g < NFRAMES && m1[g] == m0[g])
  }

  lemma ReturnedStep(m0: Memory, own0: Roles, m1: Memory, own1: Roles, vstart: nat, vend: nat, f: nat, m2: Memory,
                     own2: Roles)
    requires Returned(m0, own0, m1, own1, vstart, vend, f) && InsideRange(f, vstart, vend)
    requires own2 == own1 - {f} && forall g | g in own2 :: g < NFRAMES && m2[g] == m1[g]
    ensures Returned(m0, own0, m2, own2, vstart, vend, f + 1)
  {
  }

  // PGROUNDDOWN of the ends of a run of bytes, as page numbers
  function FirstPage(va: nat): (v: nat)
    ensures v * 4096 <= va < v * 4096 + 4096
  {
    va / PGSIZE
  }

  function LastPage(va: nat, size: nat): (v: nat)
    requires size > 0
    ensures v >= FirstPage(va) && v * 4096 < va + size <= v * 4096 + 4096
  {
    (va + size - 1) / PGSIZE
  }

  lemma KernelPages(dataPage: nat, k: nat, e: Kmap, size: nat) returns (first: nat, last: nat)
    requires 256 < dataPage < NFRAMES && k < 4 && e == KernelMap(dataPage * PGSIZE)[k]
    requires size == (e.physEnd - e.physStart) % U32 > 0
    ensures first == FirstPage(e.virt) == e.virt / PGSIZE < VPAGES
    ensures last == LastPage(e.virt, size) == (e.virt + (e.physEnd - e.physStart) % U32 - 1) / PGSIZE
    ensures last < VPAGES && FirstPage(e.physStart) == e.physStart / PGSIZE
  {
    KernelEntry(dataPage, k);
    first, last := FirstPage(e.virt), LastPage(e.virt, size);
  }

  lemma OnePage(v: nat)
    ensures FirstPage(v * PGSIZE) == v == LastPage(v * PGSIZE, PGSIZE) && v * PGSIZE % PGSIZE == 0
  {
  }

  // ---- mappages ----------------------------------------------------------------------------

  // None of the pages is present ("remap"), and a user page comes alone and with a held frame.
  ghost predicate Mappable(mem: Memory, own: Roles, d: nat, first: nat, last: nat, pf: nat)
    requires d < NFRAMES && last < VPAGES
  {
    && (forall u | first <= u <= last :: !Present(Pte(mem, d, u)))
    && (first >= UPAGES || (first == last && pf in own && own[pf] == Held))
  }

  // The first k of the pages are mapped, and nothing else but page tables has changed.
  ghost predicate Ranged(m0: Memory, own0: Roles, m1: Memory, own1: Roles, d: nat, first: nat, last: nat, pf: nat,
                         perm: nat, k: nat) {
    && d < NFRAMES && perm < PGSIZE && first + k <= last + 1 && RangePtes(m0, m1, d, first, first + k - 1, pf, perm)
    && (k == 0 || first >= UPAGES ==> Kept(m0, own0, m1, own1, d, 0, 0))
    && (k > 0 && first < UPAGES ==>
        pf < NFRAMES && Kept(m0, own0 - {pf}, m1, own1, d, first, first + 1) && m1[pf] == m0[pf])
  }

  lemma RangedStart(mem: Memory, own: Roles, d: nat, first: nat, last: nat, pf: nat, perm: nat)
    requires d < NFRAMES && perm < PGSIZE && first <= last
    ensures Ranged(mem, own, mem, own, d, first, last, pf, perm, 0)
  {
    KeptNone(mem, own, d);
    var before: int := first - 1;
    forall u | 0 <= u < VPAGES ensures RangePte(mem, mem, d, first, before, pf, perm, u) {
    }
  }

  lemma RangedNext(m0: Memory, own0: Roles, m1: Memory, own1: Roles, d: nat, first: nat, last: nat, pf: nat, perm: nat,
                   k: nat)
    requires Ranged(m0, own0, m1, own1, d, first, last, pf, perm, k) && last < VPAGES && first + k <= last
    requires Mappable(m0, own0, d, first, last, pf)
    ensures !Present(Pte(m1, d, first + k))
  {
    assert RangePte(m0, m1, d, first, first + k - 1, pf, perm, first + k);
  }

  lemma RangedSame(m0: Memory, own0: Roles, m1: Memory, own1: Roles, m2: Memory, own2: Roles,
                   d: nat, first: nat, last: nat, pf: nat, perm: nat, k: nat)
    requires Ranged(m0, own0, m1, own1, d, first, last, pf, perm, k) && SamePtes(m1, m2, d)
    requires Kept(m1, own1, m2, own2, d, 0, 0)
    requires k == 0 || first >= UPAGES
    ensures Ranged(m0, own0, m2, own2, d, first, last, pf, perm, k)
  {
    RangeSame(m0, m1, m2, d, first, first + k - 1, pf, perm);
    KeptBoth(m0, own0, m1, own1, m2, own2, d, 0, 0, 0);
  }

  lemma RangedStep(m0: Memory, own0: Roles, m1: Memory, own1: Roles, m2: Memory, own2: Roles,
                   d: nat, first: nat, last: nat, pf: nat, perm: nat, k: nat)
    requires Ranged(m0, own0, m1, own1, d, first, last, pf, perm, k) && first + k <= last < VPAGES
    requires pf + last - first < VPAGES
    requires OnePte(m1, m2, d, first + k, Entry(pf + k, perm))
    requires first >= UPAGES ==> Kept(m1, own1, m2, own2, d, 0, 0)
    requires first < UPAGES ==> k == 0 && m1 == m0 && own1 == own0 && pf < NFRAMES
    requires first < UPAGES ==> Kept(m1, own1 - {pf}, m2, own2, d, first, first + 1) && m2[pf] == m1[pf]
    ensures Ranged(m0, own0, m2, own2, d, first, last, pf, perm, k + 1)
  {
    RangeStep(m0, m1, m2, d, first, first + k, pf, perm);
    if first >= UPAGES {
      KeptBoth(m0, own0, m1, own1, m2, own2, d, 0, 0, 0);
    }
  }

  // One turn of mappages' loop, for page a and frame pf
  lemma RangedTurn(ok: bool, m0: Memory, own0: Roles, m1: Memory, own1: Roles, m2: Memory, own2: Roles,
                   d: nat, first: nat, last: nat, pf0: nat, perm: nat, k: nat, a: nat, pf: nat)
    requires Ranged(m0, own0, m1, own1, d, first, last, pf0, perm, k) && a == first + k <= last < VPAGES
    requires pf0 + last - first < VPAGES && Mappable(m0, own0, d, first, last, pf0) && pf == pf0 + k
    requires k == 0 ==> m1 == m0 && own1 == own0
    requires if ok then OnePte(m1, m2, d, a, Entry(pf, perm)) else SamePtes(m1, m2, d)
    requires !ok || a >= UPAGES ==> Kept(m1, own1, m2, own2, d, 0, 0)
    requires ok && a < UPAGES ==> pf < NFRAMES && m2[pf] == m1[pf] && Kept(m1, own1 - {pf}, m2, own2, d, a, a + 1)
    ensures Ranged(m0, own0, m2, own2, d, first, last, pf0, perm, if ok then k + 1 else k)
  {
    if ok {
      RangedStep(m0, own0, m1, own1, m2, own2, d, first, last, pf0, perm, k);
    } else {
      RangedSame(m0, own0, m1, own1, m2, own2, d, first, last, pf0, perm, k);
    }
  }
}
