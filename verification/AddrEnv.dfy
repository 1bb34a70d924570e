/** Translation between physical and virtual addresses by a table of regions, with
    addresses that wrap round at the word size. */
module AddrEnv {

  /** Addresses are below `modulus`, two to the number of bits of a pointer. */
  datatype Word = Word(modulus: nat)
  {
    function Sub(x: nat, y: nat): nat
      requires x < modulus && y < modulus
    {
      if x >= y then x - y else x - y + modulus
    }

    function Add(x: nat, y: nat): nat
      requires x < modulus && y < modulus
    {
      if x + y < modulus then x + y else x + y - modulus
    }
  }

  datatype Region = Region(va: nat, pa: nat, size: nat)

  /** A side of the table: from physical to virtual addresses, or back. */
  datatype Side = Physical | Virtual
  {
    function Base(r: Region): nat {
      if Physical? then r.pa else r.va
    }

    function Other(): Side {
      if Physical? then Virtual else Physical
    }
  }

  /** The regions before the entry of size zero that ends the table. */
  ghost predicate Table(w: Word, t: seq<Region>) {
    forall i :: 0 <= i < |t| ==> t[i].va < w.modulus && t[i].pa < w.modulus && 0 < t[i].size < w.modulus
  }

  predicate Within(w: Word, side: Side, r: Region, x: nat)
    requires x < w.modulus && r.va < w.modulus && r.pa < w.modulus
  {
    w.Sub(x, side.Base(r)) < r.size
  }

  /** No address is in two regions of this side. */
  ghost predicate Disjoint(w: Word, side: Side, t: seq<Region>)
    requires Table(w, t)
  {
    forall i, j, x :: 0 <= i < j < |t| && 0 <= x < w.modulus ==> !(Within(w, side, t[i], x) && Within(w, side, t[j], x))
  }

  ghost predicate Mapped(w: Word, side: Side, t: seq<Region>, x: nat)
    requires Table(w, t) && x < w.modulus
  {
    exists i :: 0 <= i < |t| && Within(w, side, t[i], x)
  }

  /** Moves an address within a region from one side to the other. */
  function Move(w: Word, side: Side, r: Region, x: nat): (y: nat)
    requires x < w.modulus && r.va < w.modulus && r.pa < w.modulus
    ensures y < w.modulus
  {
    w.Add(side.Other().Base(r), w.Sub(x, side.Base(r)))
  }

  /** Translates by the first region that holds the address, from region `i` on. */
  function Translate(w: Word, side: Side, t: seq<Region>, x: nat, i: nat): (y: nat)
    requires Table(w, t) && x < w.modulus && i <= |t|
    ensures y < w.modulus
    decreases |t| - i
  {
    if i == |t| then x
    else if Within(w, side, t[i], x) then Move(w, side, t[i], x)
    else Translate(w, side, t, x, i + 1)
  }

  lemma MoveBack(w: Word, side: Side, r: Region, x: nat)
    requires x < w.modulus && r.va < w.modulus && r.pa < w.modulus
    ensures Move(w, side.Other(), r, Move(w, side, r, x)) == x
    ensures Within(w, side.Other(), r, Move(w, side, r, x)) == Within(w, side, r, x)
  {
  }

  lemma {:induction false} TranslateBy(w: Word, side: Side, t: seq<Region>, x: nat, i: nat, k: nat)
    requires Table(w, t) && Disjoint(w, side, t) && x < w.modulus && i <= k < |t| && Within(w, side, t[k], x)
    ensures Translate(w, side, t, x, i) == Move(w, side, t[k], x)
    ensures w.Sub(Translate(w, side, t, x, i), side.Other().Base(t[k])) == w.Sub(x, side.Base(t[k]))
    decreases |t| - i
  {
    if i < k {
      TranslateBy(w, side, t, x, i + 1, k);
    }
  }

  lemma {:induction false} TranslateNone(w: Word, side: Side, t: seq<Region>, x: nat, i: nat)
    requires Table(w, t) && x < w.modulus && i <= |t| && !Mapped(w, side, t, x)
    ensures Translate(w, side, t, x, i) == x
    decreases |t| - i
  {
    if i < |t| {
      TranslateNone(w, side, t, x, i + 1);
    }
  }

  /** The difference of two addresses, modulo the word size. */
  lemma SubIs(w: Word, x: nat, y: nat)
    requires x < w.modulus && y < w.modulus
    ensures 0 <= w.Sub(x, y) < w.modulus && (w.Sub(x, y) == x - y || w.Sub(x, y) == x - y + w.modulus)
  {
  }

  /** From physical to virtual addresses the first region that holds the address moves it
      by the difference of its two bases, so that its offset in the region is kept. */
  lemma {:induction false} PhysicalKeepsOffset(w: Word, t: seq<Region>, x: nat, i: nat, k: nat)
    requires Table(w, t) && x < w.modulus && i <= k < |t| && w.Sub(x, t[k].pa) < t[k].size
    requires forall j :: i <= j < k ==> w.Sub(x, t[j].pa) >= t[j].size
    ensures w.Sub(Translate(w, Physical, t, x, i), t[k].va) == w.Sub(x, t[k].pa)
    decreases k - i
  {
    if i < k {
      PhysicalKeepsOffset(w, t, x, i + 1, k);
    }
  }

  lemma {:induction false} VirtualKeepsOffset(w: Word, t: seq<Region>, x: nat, i: nat, k: nat)
    requires Table(w, t) && x < w.modulus && i <= k < |t| && w.Sub(x, t[k].va) < t[k].size
    requires forall j :: i <= j < k ==> w.Sub(x, t[j].va) >= t[j].size
    ensures w.Sub(Translate(w, Virtual, t, x, i), t[k].pa) == w.Sub(x, t[k].va)
    decreases k - i
  {
    if i < k {
      VirtualKeepsOffset(w, t, x, i + 1, k);
    }
  }

  /** An address that is in no region stays as it is, on either side. */
  lemma OutsideStays(w: Word, t: seq<Region>, x: nat)
    requires Table(w, t) && x < w.modulus
    ensures (forall j :: 0 <= j < |t| ==> w.Sub(x, t[j].pa) >= t[j].size) ==> Translate(w, Physical, t, x, 0) == x
    ensures (forall j :: 0 <= j < |t| ==> w.Sub(x, t[j].va) >= t[j].size) ==> Translate(w, Virtual, t, x, 0) == x
  {
    hide Translate;
    if forall j :: 0 <= j < |t| ==> w.Sub(x, t[j].pa) >= t[j].size {
      TranslateNone(w, Physical, t, x, 0);
    }
    if forall j :: 0 <= j < |t| ==> w.Sub(x, t[j].va) >= t[j].size {
      TranslateNone(w, Virtual, t, x, 0);
    }
  }

  /** Translating there and back returns every address that a region holds, even one
      that wraps round, and of the others exactly those that no region of the other
      side holds. */
  lemma RoundTripIff(w: Word, side: Side, t: seq<Region>, x: nat)
    requires Table(w, t) && Disjoint(w, Physical, t) && Disjoint(w, Virtual, t) && x < w.modulus
    ensures Translate(w, side.Other(), t, Translate(w, side, t, x, 0), 0) == x
            <==> Mapped(w, side, t, x) || !Mapped(w, side.Other(), t, x)
  {
    hide Translate;
    if k :| 0 <= k < |t| && Within(w, side, t[k], x) {
      MoveBack(w, side, t[k], x);
      TranslateBy(w, side, t, x, 0, k);
      TranslateBy(w, side.Other(), t, Move(w, side, t[k], x), 0, k);
    } else {
      TranslateNone(w, side, t, x, 0);
      if k :| 0 <= k < |t| && Within(w, side.Other(), t[k], x) {
        TranslateBy(w, side.Other(), t, x, 0, k);
        MoveBack(w, side.Other(), t[k], x);
      } else {
        TranslateNone(w, side.Other(), t, x, 0);
      }
    }
  }

  // ----- the code -----

  class AddressEnvironment {
    const word: Word
    var table: array<Region>

    constructor (word: Word)
      ensures this.word == word && Regions() == [] && Ended() && fresh(table)
    {
      this.word := word;
      table := new Region[1](_ => Region(0, 0, 0));
      new;
      assert table[0].size == 0;
    }

    /** The table ends with an entry of size zero. */
    ghost predicate Ended()
      reads this, table
    {
      exists n :: 0 <= n < table.Length && table[n].size == 0
    }

    ghost function Regions(): seq<Region>
      reads this, table
    {
      UpToEnd(table[..])
    }

    method Initialize(addrenv: array<Region>)
      modifies this
      ensures table == addrenv
    {
      table := addrenv;
    }

    method PaToVa(pa: nat) returns (va: nat)
      requires pa < word.modulus && Ended() && Table(word, Regions())
      ensures va == Translate(word, Physical, Regions(), pa, 0)
    {
      var i := 0;
      while table[i].size != 0
        invariant 0 <= i <= |Regions()| && i < table.Length
        invariant Translate(word, Physical, Regions(), pa, 0) == Translate(word, Physical, Regions(), pa, i)
        decreases table.Length - i
      {
        EndIs(table[..], i);
        if word.Sub(pa, table[i].pa) < table[i].size {
          return word.Add(table[i].va, word.Sub(pa, table[i].pa));
        }
        i := i + 1;
      }
      EndIs(table[..], i);
      va := pa;
    }

    method VaToPa(va: nat) returns (pa: nat)
      requires va < word.modulus && Ended() && Table(word, Regions())
      ensures pa == Translate(word, Virtual, Regions(), va, 0)
    {
      var i := 0;
      while table[i].size != 0
        invariant 0 <= i <= |Regions()| && i < table.Length
        invariant Translate(word, Virtual, Regions(), va, 0) == Translate(word, Virtual, Regions(), va, i)
        decreases table.Length - i
      {
        EndIs(table[..], i);
        if word.Sub(va, table[i].va) < table[i].size {
          return word.Add(table[i].pa, word.Sub(va, table[i].va));
        }
        i := i + 1;
      }
      EndIs(table[..], i);
      pa := va;
    }
  }

  ghost function UpToEnd(t: seq<Region>): (r: seq<Region>)
    ensures r <= t && forall i :: 0 <= i < |r| ==> r[i].size != 0
    ensures |r| < |t| ==> t[|r|].size == 0
  {
    if t == [] || t[0].size == 0 then [] else [t[0]] + UpToEnd(t[1..])
  }

  lemma EndIs(t: seq<Region>, i: nat)
    requires i <= |UpToEnd(t)| && i < |t| && exists n :: 0 <= n < |t| && t[n].size == 0
    ensures |UpToEnd(t)| < |t|
    ensures i < |UpToEnd(t)| <==> t[i].size != 0
  {
    var n :| 0 <= n < |t| && t[n].size == 0;
  }
}
