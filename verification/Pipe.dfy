// pipe.c: a ring of bytes with 32-bit counters, readers and writers that sleep.
// Each method is one stretch under p->lock; a process that sleeps comes back with
// another call.
module Pipe {
  import opened Bytes

  const PIPESIZE: nat := 512

  datatype Outcome = Done | Failed | Asleep

  // nwrite - nread in uint arithmetic
  function Used(nread: Uint, nwrite: Uint): (n: nat) {
    (nwrite - nread) % U32
  }

  // The unread bytes, oldest first
  function Ring(data: seq<Byte>, nread: Uint, n: nat): (s: seq<Byte>)
    requires |data| == PIPESIZE
    ensures |s| == n && forall k | 0 <= k < n :: s[k] == data[(nread + k) % PIPESIZE]
  {
    seq(n, k requires 0 <= k < n => data[(nread + k) % PIPESIZE])
  }

  // The counters wrap, their difference does not: PIPESIZE divides 2^32.
  lemma UsedSteps(nread: Uint, nwrite: Uint)
    requires Used(nread, nwrite) <= PIPESIZE
    ensures nwrite == (nread + PIPESIZE) % U32 <==> Used(nread, nwrite) == PIPESIZE
    ensures nread == nwrite <==> Used(nread, nwrite) == 0
    ensures Used(nread, nwrite) < PIPESIZE ==> Used(nread, (nwrite + 1) % U32) == Used(nread, nwrite) + 1
    ensures Used(nread, nwrite) > 0 ==> Used((nread + 1) % U32, nwrite) == Used(nread, nwrite) - 1
    ensures nwrite % PIPESIZE == (nread + Used(nread, nwrite)) % PIPESIZE
  {
    assert nwrite == nread + Used(nread, nwrite) || nwrite == nread + Used(nread, nwrite) - U32;
    SamePlace(nread + Used(nread, nwrite));
  }

  lemma SamePlace(n: nat)
    ensures n >= U32 ==> (n - U32) % PIPESIZE == n % PIPESIZE
  {
  }

  lemma RingPut(data: seq<Byte>, nread: Uint, nwrite: Uint, x: Byte)
    requires |data| == PIPESIZE && Used(nread, nwrite) < PIPESIZE
    ensures Ring(data[nwrite % PIPESIZE := x], nread, Used(nread, nwrite) + 1) ==
      Ring(data, nread, Used(nread, nwrite)) + [x]
  {
    UsedSteps(nread, nwrite);
    var n, d := Used(nread, nwrite), data[nwrite % PIPESIZE := x];
    var r0, r1 := Ring(data, nread, n), Ring(d, nread, n);
    forall k | 0 <= k < n ensures r1[k] == r0[k] {
      Apart(nread + k, nread + n);
    }
    assert Ring(d, nread, n + 1) == r1 + [x];
  }

  lemma Apart(a: nat, b: nat)
    requires a < b < a + PIPESIZE
    ensures a % PIPESIZE != b % PIPESIZE
  {
  }

  lemma RingGet(data: seq<Byte>, nread: Uint, n: nat)
    requires |data| == PIPESIZE && n > 0
    ensures Ring(data, nread, n)[0] == data[nread % PIPESIZE]
    ensures Ring(data, (nread + 1) % U32, n - 1) == Ring(data, nread, n)[1..]
  {
    var a, b := Ring(data, nread, n)[1..], Ring(data, (nread + 1) % U32, n - 1);
    forall k | 0 <= k < n - 1 ensures a[k] == b[k] {
      Wrapped(nread + 1, k);
    }
  }

  lemma Wrapped(a: nat, k: nat)
    requires a <= U32
    ensures (a % U32 + k) % PIPESIZE == (a + k) % PIPESIZE
  {
  }

  class PipeBuf {
    const data: array<Byte>
    var nread: Uint
    var nwrite: Uint
    var readopen: bool
    var writeopen: bool
    ghost var written: seq<Byte>    // every byte put in so far
    ghost var got: seq<Byte>        // every byte taken out so far
    ghost var readers: set<nat>     // asleep on &p->nread
    ghost var writers: set<nat>     // asleep on &p->nwrite

    ghost function Count(): (n: nat)
      reads this
    {
      Used(nread, nwrite)
    }

    ghost function Contents(): (s: seq<Byte>)
      requires data.Length == PIPESIZE
      reads this, data
    {
      Ring(data[..], nread, Count())
    }

    // What was written is what was read followed by what is in the ring.
    ghost predicate Fifo()
      reads this, data
    {
      data.Length == PIPESIZE && Count() <= PIPESIZE && written == got + Contents()
    }

    ghost predicate Valid()
      reads this, data
    {
      && Fifo()
      && (writers != {} ==> Count() == PIPESIZE && readopen && writeopen)
      && (readers != {} ==> readopen)
    }

    // A sleeping reader waits for good reason.
    ghost predicate Awake()
      reads this
    {
      readers != {} ==> Count() == 0 && writeopen
    }

    lemma NeverBothAsleep()
      requires Valid() && Awake()
      ensures readers == {} || writers == {}
    {
    }

    // pipealloc
    constructor ()
      ensures Valid() && Awake() && fresh(data) && written == [] && readopen && writeopen
      ensures readers == {} && writers == {} && got == [] && Contents() == []
    {
      data := new Byte[PIPESIZE](_ => 0);
      nread, nwrite, readopen, writeopen := 0, 0, true, true;
      written, got, readers, writers := [], [], {}, {};
    }

    // p->data[p->nwrite++ % PIPESIZE] = x
    method Put(x: Byte)
      requires Fifo() && Count() < PIPESIZE
      modifies this`nwrite, this`written, data
      ensures Fifo() && Contents() == old(Contents()) + [x] && written == old(written) + [x]
      ensures Count() == old(Count()) + 1
    {
      UsedSteps(nread, nwrite);
      RingPut(data[..], nread, nwrite, x);
      data[nwrite % PIPESIZE] := x;
      nwrite := (nwrite + 1) % U32;
      written := written + [x];
    }

    // pipewrite from byte i0 of addr, at the call or after a sleep: as many bytes as fit.
    // addr is the n bytes to write, none if n is negative. Readers stay awake or are woken,
    // unless a killed writer gives up after filling the ring.
    method Write(w: nat, addr: seq<Byte>, n: int, i0: nat, killed: bool) returns (out: Outcome, r: int, i: nat)
      requires Valid() && i0 <= |addr| && w !in writers && writeopen
      requires n == |addr| || (n < 0 && addr == [])
      modifies this`nwrite, this`written, this`readers, this`writers, data
      ensures Valid() && got == old(got) && i0 <= i <= |addr|
      ensures i == i0 + if |addr| - i0 <= PIPESIZE - old(Count()) then |addr| - i0 else PIPESIZE - old(Count())
      ensures written == old(written) + addr[i0..i] && Contents() == old(Contents()) + addr[i0..i]
      ensures out.Done? <==> i == |addr|
      ensures out.Failed? <==> i < |addr| && (!readopen || killed)
      ensures (out.Done? ==> r == n) && (out.Failed? ==> r == -1)
      ensures writers == if out.Asleep? then old(writers) + {w} else old(writers)
      ensures readers == if out.Failed? then old(readers) else {}
      ensures old(Awake()) ==> (Awake() <==> !(killed && old(readers) != {} && |addr| - i0 > PIPESIZE))
    {
      i, r := i0, n;
      while i < n
        invariant i0 <= i <= |addr| && Fifo() && got == old(got) && readers == old(readers) && writers == old(writers)
        invariant Count() == old(Count()) + i - i0
        invariant written == old(written) + addr[i0..i] && Contents() == old(Contents()) + addr[i0..i]
      {
        UsedSteps(nread, nwrite);
        if nwrite == (nread + PIPESIZE) % U32 {
          if !readopen || killed {
            return Failed, -1, i;
          }
          readers := {};               // wakeup(&p->nread)
          writers := writers + {w};    // sleep(&p->nwrite, &p->lock)
          return Asleep, r, i;
        }
        Put(addr[i]);
        assert addr[i0..i + 1] == addr[i0..i] + [addr[i]];
        i := i + 1;
      }
      readers := {};                   // wakeup(&p->nread)
      out := Done;
    }

    // piperead's copying loop
    method Copy(n: int) returns (bytes: seq<Byte>)
      requires Fifo()
      modifies this`nread, this`got
      ensures Fifo() && got == old(got) + bytes && old(Contents()) == bytes + Contents()
      ensures |bytes| == (if n <= 0 then 0 else if n <= old(Count()) then n else old(Count()))
      ensures Count() == old(Count()) - |bytes|
    {
      bytes := [];
      var i := 0;
      while i < n
        invariant 0 <= i && (i == 0 || i <= n) && i <= old(Count()) <= PIPESIZE && Count() == old(Count()) - i
        invariant data.Length == PIPESIZE
        invariant bytes == old(Contents())[..i] && Contents() == old(Contents())[i..] && got == old(got) + bytes
      {
        UsedSteps(nread, nwrite);
        if nread == nwrite {
          break;
        }
        RingGet(data[..], nread, Count());
        bytes := bytes + [data[nread % PIPESIZE]];
        got := got + [data[nread % PIPESIZE]];
        nread := (nread + 1) % U32;
        i := i + 1;
      }
    }

    // piperead, at the call or after a sleep: the oldest bytes, at most n.
    method Read(r: nat, n: int, killed: bool) returns (out: Outcome, bytes: seq<Byte>)
      requires Valid() && r !in readers && readopen
      modifies this`nread, this`got, this`readers, this`writers
      ensures Valid() && got == old(got) + bytes && old(Contents()) == bytes + Contents()
      ensures out.Done? <==> old(Count()) > 0 || !writeopen
      ensures out.Done? ==> |bytes| == if n <= 0 then 0 else if n <= old(Count()) then n else old(Count())
      ensures out.Done? ==> writers == {} && readers == old(readers)
      ensures !out.Done? ==> bytes == [] && writers == old(writers) && (out.Failed? <==> killed)
      ensures !out.Done? ==> readers == if killed then old(readers) else old(readers) + {r}
      ensures old(Awake()) ==> Awake()
    {
      bytes := [];
      UsedSteps(nread, nwrite);
      if nread == nwrite && writeopen {
        if killed {
          return Failed, bytes;
        }
        readers := readers + {r};      // sleep(&p->nread, &p->lock)
        return Asleep, bytes;
      }
      bytes := Copy(n);
      writers := {};                   // wakeup(&p->nwrite)
      out := Done;
    }

    // pipeclose. A process asleep in piperead or pipewrite holds its end open.
    method Close(writable: bool) returns (free: bool)
      requires Valid() && (if writable then writers == {} else readers == {})
      modifies this`readopen, this`writeopen, this`readers, this`writers
      ensures Valid() && Contents() == old(Contents()) && got == old(got) && (old(Awake()) ==> Awake())
      ensures readopen == (old(readopen) && writable) && writeopen == (old(writeopen) && !writable)
      ensures free == (!readopen && !writeopen)
      ensures if writable then readers == {} && writers == old(writers) else writers == {} && readers == old(readers)
    {
      if writable {
        writeopen := false;
        readers := {};
      } else {
        readopen := false;
        writers := {};
      }
      free := !readopen && !writeopen;
    }

    // kill of a process asleep in the pipe
    method Kill(p: nat)
      requires Valid()
      modifies this`readers, this`writers
      ensures Valid() && readers == old(readers) - {p} && writers == old(writers) - {p} && (old(Awake()) ==> Awake())
    {
      readers, writers := readers - {p}, writers - {p};
    }
  }

  // A reader sleeps on an empty pipe; a killed writer of 513 bytes fills it and leaves the
  // reader asleep.
  method LeftAsleep() returns (p: PipeBuf)
    ensures fresh(p) && p.Valid() && !p.Awake() && p.readers == {1} && p.Count() == PIPESIZE
  {
    p := new PipeBuf();
    var addr := seq(PIPESIZE + 1, _ => 0);
    var out, _ := p.Read(1, 1, false);
    assert out.Asleep? && p.readers == {1};
    var r, i;
    out, r, i := p.Write(2, addr, |addr|, 0, true);
  }
}
