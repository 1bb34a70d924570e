/** The `dd` command: copies sectors through one buffer, whatever the sizes in
    which the two files read and write. */
module NshDd {
  import opened Common
  import opened Modulo

  const UINT32 := 0x1_0000_0000

  // ----- what dd should copy -----

  function Zeros(n: nat): seq<Byte> {
    seq(n, _ => 0)
  }

  /** The number of sectors in the input, counting a last partial one. */
  function SectorCount(input: seq<Byte>, bs: nat): nat {
    if bs == 0 then 0 else (|input| + bs - 1) / bs
  }

  lemma SectorCountIs(input: seq<Byte>, bs: nat, i: nat)
    ensures i < SectorCount(input, bs) <==> bs > 0 && i * bs < |input|
  {
    if bs > 0 {
      var n := SectorCount(input, bs);
      var r := (|input| + bs - 1) % bs;
      assert |input| + bs - 1 == n * bs + r;
      if i < n {
        MulAtLeast(n - i, bs);
        assert (n - i) * bs == n * bs - i * bs;
      } else {
        assert i * bs == n * bs + (i - n) * bs;
        assert (i - n) * bs >= 0;
      }
    }
  }

  /** Sector `i` of the input, padded with zeros to the sector size. */
  function Sector(input: seq<Byte>, bs: nat, i: nat): (r: seq<Byte>)
    requires i < SectorCount(input, bs)
    ensures |r| == bs
  {
    SectorCountIs(input, bs, i);
    var data := input[i * bs..Min(i * bs + bs, |input|)];
    data + Zeros(bs - |data|)
  }

  /** These sectors one after another. */
  function Sectors(input: seq<Byte>, bs: nat, ix: seq<nat>): seq<Byte>
    requires forall k :: 0 <= k < |ix| ==> ix[k] < SectorCount(input, bs)
  {
    if ix == [] then [] else Sectors(input, bs, ix[..|ix| - 1]) + Sector(input, bs, ix[|ix| - 1])
  }

  /** The sectors that are written from sector `i` on, of `n` in all, when `count`
      are still wanted. The sector number that is compared with `skip` has 32 bits. */
  function Written(n: nat, skip: nat, count: nat, i: nat): (r: seq<nat>)
    ensures forall k :: 0 <= k < |r| ==> i <= r[k] < n
    decreases n - i
  {
    if i >= n || count == 0 then []
    else if i % UINT32 >= skip then [i] + Written(n, skip, count - 1, i + 1)
    else Written(n, skip, count, i + 1)
  }

  function Range(from: nat, to: nat): seq<nat> {
    if from >= to then [] else seq(to - from, k => from + k)
  }

  lemma {:induction false} WrittenIsRange(n: nat, skip: nat, count: nat, i: nat)
    requires skip < UINT32
    requires skip == 0 || (i <= UINT32 && (n <= UINT32 || Max(i, skip) + count <= UINT32))
    ensures Written(n, skip, count, i) == Range(Max(i, skip), Min(Max(i, skip) + count, n))
    decreases n - i
  {
    hide Range;
    if i >= n || count == 0 {
      RangeEmpty(Max(i, skip), Min(Max(i, skip) + count, n));
    } else {
      assert skip > 0 ==> i % UINT32 == i;
      if i % UINT32 >= skip {
        WrittenIsRange(n, skip, count - 1, i + 1);
        RangeCons(i, Min(i + count, n));
      } else {
        WrittenIsRange(n, skip, count, i + 1);
      }
    }
  }

  lemma RangeEmpty(from: nat, to: nat)
    requires from >= to
    ensures Range(from, to) == []
  {
  }

  lemma RangeCons(from: nat, to: nat)
    requires from < to
    ensures Range(from, to) == [from] + Range(from + 1, to)
  {
  }

  lemma {:induction false} WrittenSkips(n: nat, skip: nat, count: nat, i: nat)
    ensures forall k :: 0 <= k < |Written(n, skip, count, i)| ==> Written(n, skip, count, i)[k] % UINT32 >= skip
    decreases n - i
  {
    if i < n && count > 0 {
      WrittenSkips(n, skip, if i % UINT32 >= skip then count - 1 else count, i + 1);
    }
  }

  /** The sectors from `skip` on, `count` of them if there are as many, are what is
      written, if and only if the 32-bit sector number does not wrap round to
      sectors to be skipped again. */
  lemma WrittenAsAskedIff(n: nat, skip: nat, count: nat)
    requires skip < 0x1_0000_0000 && count < 0x1_0000_0000
    ensures Written(n, skip, count, 0) == Range(skip, Min(skip + count, n))
            <==> skip == 0 || n <= 0x1_0000_0000 || skip + count <= 0x1_0000_0000
  {
    if skip == 0 || n <= UINT32 || skip + count <= UINT32 {
      WrittenIsRange(n, skip, count, 0);
    } else {
      WrittenSkips(n, skip, count, 0);
      var range := Range(skip, Min(skip + count, n));
      assert range[UINT32 - skip] == UINT32;
    }
  }

  // ----- the command -----

  /** `schedule` decides each system call: negative for an error, otherwise how
      many bytes it would like to move. */
  class Dd {
    const sectsize: nat
    const buffer: array<Byte>
    var nsectors: nat
    var sector: nat
    var skip: nat
    var eof: bool
    var nbytes: nat

    const input: seq<Byte>
    const schedule: nat -> int
    var inpos: nat
    var output: seq<Byte>
    var calls: nat

    constructor (input: seq<Byte>, schedule: nat -> int, bs: nat, skip: nat, count: nat)
      requires bs < 0x1_0000 && skip < UINT32 && count < UINT32
      ensures Valid() && fresh(buffer)
      ensures this.input == input && this.schedule == schedule && sectsize == bs && this.skip == skip && nsectors == count
      ensures inpos == 0 && sector == 0 && !eof && output == []
    {
      this.input, this.schedule, sectsize := input, schedule, bs;
      this.skip, nsectors, sector, eof, nbytes := skip, count, 0, false, 0;
      inpos, output, calls := 0, [], 0;
      buffer := new Byte[bs];
    }

    ghost predicate Valid()
      reads this
    {
      buffer.Length == sectsize && inpos <= |input| && skip < UINT32
    }

    /** No system call fails. */
    ghost predicate Errorless() {
      forall k: nat :: schedule(k) >= 0
    }

    /** None of these system calls fails. */
    ghost predicate Smooth(from: nat, to: nat) {
      forall k: nat :: from <= k < to ==> schedule(k) >= 0
    }

    /** `read`: at least one byte if any is wanted and left. */
    method SysRead(at: nat, n: nat) returns (r: int)
      requires Valid() && at + n <= sectsize
      modifies `inpos, `calls, buffer
      ensures Valid() && calls == old(calls) + 1 && (r >= 0 <==> schedule(old(calls)) >= 0)
      ensures r >= 0 ==> r <= n && r <= |input| - old(inpos) && (r == 0 <==> n == 0 || old(inpos) == |input|)
      ensures r >= 0 ==> inpos == old(inpos) + r
                         && buffer[..at + r] == old(buffer[..at]) + input[old(inpos)..old(inpos) + r]
    {
      r := schedule(calls);
      calls := calls + 1;
      if r >= 0 {
        r := Min(if r == 0 then 1 else r, Min(n, |input| - inpos));
        for i := 0 to r
          invariant calls == old(calls) + 1 && inpos == old(inpos) && buffer[..at + i] == old(buffer[..at]) + input[inpos..inpos + i]
        {
          buffer[at + i] := input[inpos + i];
          assert buffer[..at + i + 1] == buffer[..at + i] + [input[inpos + i]];
        }
        inpos := inpos + r;
      }
    }

    /** `write`: at least one byte if any is given. */
    method SysWrite(at: nat, n: nat) returns (r: int)
      requires Valid() && at + n <= sectsize
      modifies `output, `calls
      ensures calls == old(calls) + 1 && (r >= 0 <==> schedule(old(calls)) >= 0)
      ensures r >= 0 ==> r <= n && (r == 0 <==> n == 0)
      ensures output == old(output) + if r >= 0 then buffer[at..at + r] else []
    {
      r := schedule(calls);
      calls := calls + 1;
      if r >= 0 {
        r := Min(if r == 0 then 1 else r, n);
        output := output + buffer[at..at + r];
      }
    }

    /** Fills the buffer as far as the input goes. */
    method Read() returns (ok: bool)
      requires Valid()
      modifies `nbytes, `eof, `inpos, `calls, buffer
      ensures Valid() && calls > old(calls) && (ok <==> Smooth(old(calls), calls))
      ensures ok ==> nbytes == Min(sectsize, |input| - old(inpos)) && inpos == old(inpos) + nbytes
                     && buffer[..nbytes] == input[old(inpos)..inpos] && eof == (old(eof) || nbytes == 0)
    {
      nbytes := 0;
      var n := SysRead(nbytes, sectsize - nbytes);
      if n < 0 {
        return false;
      }
      nbytes := nbytes + n;
      while nbytes < sectsize && n > 0
        invariant Valid() && nbytes <= sectsize && eof == old(eof) && calls > old(calls) && Smooth(old(calls), calls)
        invariant inpos == old(inpos) + nbytes && buffer[..nbytes] == input[old(inpos)..inpos]
        invariant n == 0 ==> nbytes == sectsize || inpos == |input|
        decreases sectsize - nbytes, n
      {
        ghost var at := inpos;
        n := SysRead(nbytes, sectsize - nbytes);
        if n < 0 {
          return false;
        }
        SliceJoin(input, old(inpos), at, inpos);
        nbytes := nbytes + n;
      }
      eof := eof || nbytes == 0;
      ok := true;
    }

    /** Writes the whole buffer; on an error, some part of its front. */
    method Write() returns (ok: bool)
      requires Valid()
      modifies `output, `calls
      ensures calls > old(calls) && (ok <==> Smooth(old(calls), calls))
      ensures ok ==> output == old(output) + buffer[..]
      ensures old(output) <= output <= old(output) + buffer[..]
    {
      var written: nat := 0;
      var n := SysWrite(written, sectsize - written);
      if n < 0 {
        return false;
      }
      written := written + n;
      while written < sectsize
        invariant written <= sectsize && output == old(output) + buffer[..written]
        invariant calls > old(calls) && Smooth(old(calls), calls)
      {
        n := SysWrite(written, sectsize - written);
        if n < 0 {
          return false;
        }
        written := written + n;
      }
      assert buffer[..written] == buffer[..];
      ok := true;
    }

    method Pad()
      requires Valid() && nbytes <= sectsize
      modifies buffer
      ensures buffer[..] == old(buffer[..nbytes]) + Zeros(sectsize - nbytes)
    {
      for i := nbytes to sectsize
        invariant buffer[..i] == old(buffer[..nbytes]) + Zeros(i - nbytes)
      {
        buffer[i] := 0;
        assert buffer[..i + 1] == buffer[..i] + [0];
      }
      assert buffer[..] == buffer[..sectsize];
    }

    /** Sector `s` is next: everything before it has been read, `done` is what has
        been written, and `all` is what is to be written in the end. */
    ghost predicate Progress(s: nat, done: seq<nat>, all: seq<nat>)
      reads this
    {
      var n := SectorCount(input, sectsize);
      && Valid() && sector == s % UINT32
      && (forall k :: 0 <= k < |all| ==> all[k] < n) && (forall k :: 0 <= k < |done| ==> done[k] < n)
      && all == done + (if eof then [] else Written(n, skip, nsectors, s))
      && (!eof ==> inpos == Min(s * sectsize, |input|))
      && output == Sectors(input, sectsize, done)
    }

    /** Reads sector `s` and pads it; the input has ended if there is none. */
    method ReadSector(ghost s: nat, ghost done: seq<nat>, ghost all: seq<nat>) returns (ok: bool)
      requires Progress(s, done, all) && !eof
      modifies `nbytes, `eof, `inpos, `calls, buffer
      ensures Valid() && calls > old(calls) && (ok <==> Smooth(old(calls), calls))
      ensures ok && eof ==> Progress(s, done, all)
      ensures ok && !eof ==> s < SectorCount(input, sectsize) && buffer[..] == Sector(input, sectsize, s)
                             && inpos == Min((s + 1) * sectsize, |input|) > old(inpos)
    {
      hide Sectors, Written, SectorCount;
      SectorCountIs(input, sectsize, s);
      assert (s + 1) * sectsize == s * sectsize + sectsize;
      ok := Read();
      if ok {
        if eof {
          WrittenEnds(SectorCount(input, sectsize), skip, nsectors, s);
        } else {
          Pad();
        }
      }
    }

    /** One pass of the transfer loop. */
    method CopySector(ghost s: nat, ghost done: seq<nat>, ghost all: seq<nat>) returns (ok: bool, ghost done': seq<nat>)
      requires Progress(s, done, all) && !eof && nsectors > 0
      modifies this, buffer
      ensures !ok ==> Valid() && (forall k :: 0 <= k < |all| ==> all[k] < SectorCount(input, sectsize))
                      && output <= Sectors(input, sectsize, all)
      ensures ok && eof ==> Progress(s, done', all)
      ensures ok && !eof ==> Progress(s + 1, done', all) && inpos > old(inpos)
      ensures skip == old(skip) && calls > old(calls) && (ok <==> Smooth(old(calls), calls))
    {
      hide Sectors, Written, SectorCount, Sector, Min;
      done' := done;
      ok := ReadSector(s, done, all);
      if !ok {
        assert all == done + all[|done|..];
        SectorsPrefix(input, sectsize, done, all[|done|..]);
      } else if !eof {
        WrittenNext(SectorCount(input, sectsize), skip, nsectors, s);
        if sector >= skip {
          SectorsNext(input, sectsize, done, s);
          ok := Write();
          if !ok {
            assert all == done + [s] + all[|done| + 1..];
            SectorsPrefix(input, sectsize, done + [s], all[|done| + 1..]);
            return;
          }
          nsectors := nsectors - 1;
          done' := done + [s];
        }
        NextSector(s);
        sector := (sector + 1) % UINT32;
      }
    }

    /** Copies the sectors asked for, however the calls are scheduled; only an error
        stops it, and leaves some front part of them. */
    method Transfer() returns (ok: bool)
      requires Valid() && inpos == 0 && sector == 0 && !eof && output == []
      modifies this, buffer
      ensures var all := Sectors(input, sectsize, Written(SectorCount(input, sectsize), old(skip), old(nsectors), 0));
              if ok then output == all else output <= all
      ensures calls >= old(calls) && (ok <==> Smooth(old(calls), calls))
      ensures Errorless() ==> ok
    {
      hide Sectors, Written, SectorCount;
      ghost var s: nat, done: seq<nat>, all := 0, [], Written(SectorCount(input, sectsize), skip, nsectors, 0);
      SectorsEmpty(input, sectsize);
      while !eof && nsectors > 0
        invariant Progress(s, done, all) && calls >= old(calls) && Smooth(old(calls), calls)
        decreases !eof, |input| - inpos
      {
        ok, done := CopySector(s, done, all);
        if !ok {
          return;
        }
        s := if eof then s else s + 1;
      }
      WrittenEnds(SectorCount(input, sectsize), skip, nsectors, s);
      assert all == done;
      ok := true;
    }
  }

  /** Sectors one after another, byte by byte: byte `j` of the `k`-th of them is that
      byte of its sector of the input, and zero after the end of the input. */
  lemma {:induction false} OutputByte(input: seq<Byte>, bs: nat, ix: seq<nat>, k: nat, j: nat, at: nat, from: nat)
    requires (forall l :: 0 <= l < |ix| ==> ix[l] < SectorCount(input, bs)) && k < |ix| && j < bs
    requires at == k * bs + j && from == ix[k] * bs + j
    ensures |Sectors(input, bs, ix)| == |ix| * bs && at < |Sectors(input, bs, ix)|
    ensures Sectors(input, bs, ix)[at] == if from < |input| then input[from] else 0
  {
    hide Sectors, Sector, SectorCount;
    var n := |ix| - 1;
    var init := ix[..n];
    SectorsLength(input, bs, ix);
    SectorsLength(input, bs, init);
    assert ix == init + [ix[n]];
    SectorsNext(input, bs, init, ix[n]);
    MulAtLeast(|ix| - k, bs);
    assert (|ix| - k) * bs == |ix| * bs - k * bs;
    if k < n {
      OutputByte(input, bs, init, k, j, at, from);
    } else {
      SectorByte(input, bs, ix[n], j, from);
    }
  }

  lemma {:induction false} SectorsLength(input: seq<Byte>, bs: nat, ix: seq<nat>)
    requires forall l :: 0 <= l < |ix| ==> ix[l] < SectorCount(input, bs)
    ensures |Sectors(input, bs, ix)| == |ix| * bs
  {
    hide Sectors, Sector, SectorCount;
    if ix == [] {
      SectorsEmpty(input, bs);
    } else {
      var n := |ix| - 1;
      SectorsLength(input, bs, ix[..n]);
      assert ix == ix[..n] + [ix[n]];
      SectorsNext(input, bs, ix[..n], ix[n]);
      assert |ix| * bs == n * bs + bs;
    }
  }

  lemma SectorByte(input: seq<Byte>, bs: nat, i: nat, j: nat, from: nat)
    requires i < SectorCount(input, bs) && j < bs && from == i * bs + j
    ensures Sector(input, bs, i)[j] == if from < |input| then input[from] else 0
  {
    hide SectorCount;
    SectorCountIs(input, bs, i);
  }

  /** Exactly the first `count` sectors from `i` on whose 32-bit number is not below
      `skip` are written, in order. */
  lemma {:induction false} WrittenIs(n: nat, skip: nat, count: nat, i: nat)
    ensures var r := Written(n, skip, count, i);
            && |r| <= count
            && (forall k :: 0 <= k < |r| ==> i <= r[k] < n && r[k] % 0x1_0000_0000 >= skip)
            && (forall k, l :: 0 <= k < l < |r| ==> r[k] < r[l])
            && (forall x :: i <= x < n && x % 0x1_0000_0000 >= skip && x !in r ==> |r| == count && forall k :: 0 <= k < |r| ==> r[k] < x)
    decreases n - i
  {
    if i < n && count > 0 {
      WrittenIs(n, skip, if i % UINT32 >= skip then count - 1 else count, i + 1);
    }
  }

  lemma SliceJoin(input: seq<Byte>, a: nat, b: nat, c: nat)
    requires a <= b <= c <= |input|
    ensures input[a..b] + input[b..c] == input[a..c]
  {
  }

  lemma NextSector(s: nat)
    ensures (s % UINT32 + 1) % UINT32 == (s + 1) % UINT32
  {
  }

  lemma WrittenEnds(n: nat, skip: nat, count: nat, i: nat)
    ensures i >= n || count == 0 ==> Written(n, skip, count, i) == []
  {
  }

  lemma WrittenNext(n: nat, skip: nat, count: nat, i: nat)
    requires i < n && count > 0
    ensures Written(n, skip, count, i) == if i % UINT32 >= skip then [i] + Written(n, skip, count - 1, i + 1)
                                          else Written(n, skip, count, i + 1)
  {
  }

  lemma SectorsEmpty(input: seq<Byte>, bs: nat)
    ensures Sectors(input, bs, []) == []
  {
  }

  lemma SectorsNext(input: seq<Byte>, bs: nat, ix: seq<nat>, i: nat)
    requires i < SectorCount(input, bs) && forall k :: 0 <= k < |ix| ==> ix[k] < SectorCount(input, bs)
    ensures Sectors(input, bs, ix + [i]) == Sectors(input, bs, ix) + Sector(input, bs, i)
  {
    assert (ix + [i])[..|ix|] == ix;
  }

  lemma {:induction false} SectorsPrefix(input: seq<Byte>, bs: nat, a: seq<nat>, b: seq<nat>)
    requires forall k :: 0 <= k < |a + b| ==> (a + b)[k] < SectorCount(input, bs)
    requires forall k :: 0 <= k < |a| ==> a[k] < SectorCount(input, bs)
    ensures Sectors(input, bs, a) <= Sectors(input, bs, a + b)
    decreases |b|
  {
    if b == [] {
      assert a + b == a;
    } else {
      var init := b[..|b| - 1];
      assert (a + b)[..|a + b| - 1] == a + init;
      SectorsPrefix(input, bs, a, init);
    }
  }
}
