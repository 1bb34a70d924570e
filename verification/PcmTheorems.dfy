/** What sub-sampling does to a whole stream, however it is cut into buffers. */
module PcmTheorems {
  import opened Common
  import opened Modulo
  import opened PcmSubsample

  // ----- one stretch of bytes -----

  /** The place of a byte in its frame or period. */
  function Place(offset: nat, length: nat): nat
    requires length > 0
  {
    offset % length
  }

  lemma PlaceNext(n: nat, length: nat)
    requires length > 0
    ensures Place(0, length) == 0 && Place(n, length) < length
    ensures Place(n + 1, length) == if Place(n, length) + 1 == length then 0 else Place(n, length) + 1
  {
    ModUnique(0, 0, length, 0);
    ModNext(n, length);
  }

  function Shift(ks: seq<nat>, d: nat): (r: seq<nat>)
    ensures |r| == |ks| && forall i :: 0 <= i < |ks| ==> r[i] == ks[i] + d
  {
    seq(|ks|, i requires 0 <= i < |ks| => ks[i] + d)
  }

  lemma {:induction false} KeptAdd(align: nat, rearm: nat, p: Phase, n: nat, m: nat)
    requires p.Valid(align)
    ensures After(align, rearm, p, n + m) == After(align, rearm, After(align, rearm, p, n), m)
    ensures Kept(align, rearm, p, n + m)
         == Kept(align, rearm, p, n) + Shift(Kept(align, rearm, After(align, rearm, p, n), m), n)
  {
    hide Offsets, Shift, Phase.Next;
    if m > 0 {
      KeptAdd(align, rearm, p, n, m - 1);
      ShiftSnoc(Kept(align, rearm, After(align, rearm, p, n), m - 1), m - 1, n);
    } else {
      assert Shift([], n) == [];
    }
  }

  lemma ShiftSnoc(ks: seq<nat>, k: nat, d: nat)
    ensures Shift(ks + [k], d) == Shift(ks, d) + [k + d]
  {
  }

  /** The phase depends on the offset within the period only. */
  lemma {:induction false} PhaseAt(align: nat, rearm: nat, n: nat)
    requires align > 0
    ensures var t := Place(n, align + rearm);
            After(align, rearm, Phase(0, 0), n) == if t < align then Phase(0, t) else Phase(align + rearm - t, 0)
  {
    hide Place;
    if n > 0 {
      PhaseAt(align, rearm, n - 1);
      PlaceNext(n - 1, align + rearm);
    } else {
      PlaceNext(0, align + rearm);
    }
  }

  /** At a fixed rate exactly the first frame of every period is kept. */
  lemma {:induction false} KeptIsPeriodic(align: nat, rearm: nat, n: nat)
    requires align > 0
    ensures forall k: nat :: k in Kept(align, rearm, Phase(0, 0), n) <==> k < n && Place(k, align + rearm) < align
  {
    hide Place;
    if n > 0 {
      KeptIsPeriodic(align, rearm, n - 1);
      PhaseAt(align, rearm, n - 1);
      PlaceNext(n - 1, align + rearm);
    }
  }

  // ----- streams cut into buffers -----

  /** A buffer and the re-arm value in force while it is sub-sampled. */
  datatype Chunk = Chunk(rearm: nat, data: seq<Byte>)

  function Input(cs: seq<Chunk>): seq<Byte> {
    if cs == [] then [] else Input(cs[..|cs| - 1]) + cs[|cs| - 1].data
  }

  function PhaseOf(align: nat, cs: seq<Chunk>): (p: Phase)
    requires align > 0
    ensures p.Valid(align)
  {
    if cs == [] then Phase(0, 0)
    else
      var c := cs[|cs| - 1];
      After(align, c.rearm, PhaseOf(align, cs[..|cs| - 1]), |c.data|)
  }

  /** The output windows one after another, each as `Subsample` leaves it. */
  function Output(align: nat, cs: seq<Chunk>): seq<Byte>
    requires align > 0
  {
    if cs == [] then []
    else
      var c := cs[|cs| - 1];
      Output(align, cs[..|cs| - 1]) + Picked(align, c.rearm, PhaseOf(align, cs[..|cs| - 1]), c.data, |c.data|)
  }

  /** The offsets in the whole input of the bytes that are kept. */
  function Positions(align: nat, cs: seq<Chunk>): (ks: seq<nat>)
    requires align > 0
    ensures Offsets(ks, |Input(cs)|)
  {
    if cs == [] then []
    else
      var c, init := cs[|cs| - 1], cs[..|cs| - 1];
      Positions(align, init) + Shift(Kept(align, c.rearm, PhaseOf(align, init), |c.data|), |Input(init)|)
  }

  lemma GatherConcat(a: seq<Byte>, ks: seq<nat>, b: seq<Byte>, ks': seq<nat>)
    requires Offsets(ks, |a|) && Offsets(ks', |b|)
    ensures Offsets(ks + Shift(ks', |a|), |a + b|)
    ensures Gather(a + b, ks + Shift(ks', |a|)) == Gather(a, ks) + Gather(b, ks')
  {
  }

  /** Whatever the buffers and the rates, the output is input bytes in order. */
  lemma {:induction false} OutputIsInput(align: nat, cs: seq<Chunk>)
    requires align > 0
    ensures Output(align, cs) == Gather(Input(cs), Positions(align, cs))
  {
    if cs != [] {
      var c, init := cs[|cs| - 1], cs[..|cs| - 1];
      OutputIsInput(align, init);
      GatherConcat(Input(init), Positions(align, init), c.data, Kept(align, c.rearm, PhaseOf(align, init), |c.data|));
    }
  }

  lemma {:induction false} FixedRate(align: nat, rearm: nat, cs: seq<Chunk>)
    requires align > 0 && forall i :: 0 <= i < |cs| ==> cs[i].rearm == rearm
    ensures PhaseOf(align, cs) == After(align, rearm, Phase(0, 0), |Input(cs)|)
    ensures Positions(align, cs) == Kept(align, rearm, Phase(0, 0), |Input(cs)|)
  {
    if cs != [] {
      var init := cs[..|cs| - 1];
      FixedRate(align, rearm, init);
      KeptAdd(align, rearm, Phase(0, 0), |Input(init)|, |cs[|cs| - 1].data|);
    }
  }

  /** At a fixed rate the output does not depend on where the stream is cut: it is
      the bytes whose offset is in the first frame of a period. */
  lemma ChunkingDoesNotMatter(align: nat, subsample: nat, cs: seq<Chunk>)
    requires align > 0 && subsample > 0
    requires forall i :: 0 <= i < |cs| ==> cs[i].rearm == Rearm(align, subsample)
    ensures var ks := Positions(align, cs);
            && Output(align, cs) == Gather(Input(cs), ks)
            && forall k: nat :: k in ks <==> k < |Input(cs)| && Place(k, align + Rearm(align, subsample)) < align
  {
    hide Output, Input, Positions, Kept, Place, Rearm, Gather;
    OutputIsInput(align, cs);
    FixedRate(align, Rearm(align, subsample), cs);
    KeptIsPeriodic(align, Rearm(align, subsample), |Input(cs)|);
  }

  /** One frame of every `subsample` is kept on every stream if and only if the
      bytes to drop between frames fit in the eight bits of `skip`. */
  lemma RateHonouredIff(align: nat, subsample: nat)
    requires align > 0 && subsample > 0
    ensures (forall n: nat, k: nat :: k in Kept(align, Rearm(align, subsample), Phase(0, 0), n)
                                      <==> k < n && Place(k, align * subsample) < align)
            <==> align * (subsample - 1) < 256
  {
    hide Kept, Place;
    var rearm, period := Rearm(align, subsample), align * subsample;
    assert period == align + align * (subsample - 1);
    if align * (subsample - 1) < 256 {
      forall n: nat, k: nat
        ensures k in Kept(align, rearm, Phase(0, 0), n) <==> k < n && Place(k, period) < align
      {
        KeptIsPeriodic(align, rearm, n);
      }
    } else {
      var k: nat := align + rearm;
      KeptIsPeriodic(align, rearm, k + 1);
      PlaceOfSmall(k, period);
      assert k in Kept(align, rearm, Phase(0, 0), k + 1);
    }
  }

  lemma PlaceOfSmall(k: nat, length: nat)
    requires 0 < k < length
    ensures Place(k, k) == 0 && Place(k, length) == k
  {
    ModUnique(k, 1, k, 0);
    ModUnique(k, 0, length, k);
  }

  // ----- whole frames, at changing rates -----

  /** Output byte `i`, at input offset `base + ks[i]`, has the same place in both. */
  ghost predicate Congruent(align: nat, base: nat, count: nat, ks: seq<nat>)
    requires align > 0
  {
    forall i :: 0 <= i < |ks| ==> Place(base + ks[i], align) == Place(count + i, align)
  }

  /** An output byte follows its predecessor unless it begins a frame. */
  ghost predicate Consecutive(align: nat, count: nat, ks: seq<nat>)
    requires align > 0
  {
    forall i :: 0 <= i < |ks| && Place(count + i, align) != 0 ==> ks[i] == if i == 0 then 0 else ks[i - 1] + 1
  }

  ghost predicate WholeFrames(align: nat, base: nat, count: nat, ks: seq<nat>)
    requires align > 0
  {
    Congruent(align, base, count, ks) && Consecutive(align, count, ks)
  }

  lemma {:induction false} StretchKeepsCount(align: nat, rearm: nat, p: Phase, base: nat, count: nat, n: nat)
    requires p.Valid(align) && rearm % align == 0
    requires Place(base + p.skip, align) == Place(count, align) == p.npartial
    ensures var q, ks := After(align, rearm, p, n), Kept(align, rearm, p, n);
            && Place(base + n + q.skip, align) == Place(count + |ks|, align) == q.npartial
            && (q.npartial > 0 ==> if ks == [] then n == 0 else ks[|ks| - 1] == n - 1)
  {
    if n > 0 {
      StretchKeepsCount(align, rearm, p, base, count, n - 1);
      var q, ks := After(align, rearm, p, n - 1), Kept(align, rearm, p, n - 1);
      if q.skip == 0 {
        ModNext(count + |ks|, align);
        ModNext(base + n - 1, align);
        ModShift(base + n, rearm, align);
      }
    }
  }

  lemma {:induction false} StretchKeepsFrames(align: nat, rearm: nat, p: Phase, base: nat, count: nat, n: nat)
    requires p.Valid(align) && rearm % align == 0
    requires Place(base + p.skip, align) == Place(count, align) == p.npartial
    ensures WholeFrames(align, base, count, Kept(align, rearm, p, n))
  {
    hide WholeFrames, Place, Offsets, Phase.Next;
    if n > 0 {
      StretchKeepsFrames(align, rearm, p, base, count, n - 1);
      StretchKeepsCount(align, rearm, p, base, count, n - 1);
      if After(align, rearm, p, n - 1).skip == 0 {
        WholeFramesSnoc(align, base, count, Kept(align, rearm, p, n - 1), n - 1);
      }
    } else {
      NoFrames(align, base, count);
    }
  }

  lemma NoFrames(align: nat, base: nat, count: nat)
    requires align > 0
    ensures WholeFrames(align, base, count, [])
  {
  }

  lemma WholeFramesSnoc(align: nat, base: nat, count: nat, ks: seq<nat>, k: nat)
    requires align > 0 && WholeFrames(align, base, count, ks) && Place(base + k, align) == Place(count + |ks|, align)
    requires Place(count + |ks|, align) != 0 ==> k == if ks == [] then 0 else ks[|ks| - 1] + 1
    ensures WholeFrames(align, base, count, ks + [k])
  {
    hide Place;
  }

  /** `n` bytes in, with the bytes at `ks` kept, the decoder is in phase `p`. */
  ghost predicate InStep(align: nat, n: nat, p: Phase, ks: seq<nat>)
    requires align > 0
  {
    && Place(n + p.skip, align) == Place(|ks|, align) == p.npartial
    && WholeFrames(align, 0, 0, ks)
    && (p.npartial > 0 ==> ks != [] && ks[|ks| - 1] == n - 1)
  }

  lemma NothingKept(align: nat)
    requires align > 0
    ensures InStep(align, 0, Phase(0, 0), [])
  {
    ModUnique(0, 0, align, 0);
  }

  lemma StretchInStep(align: nat, rearm: nat, n: nat, p: Phase, ks: seq<nat>, d: nat)
    requires p.Valid(align) && rearm % align == 0 && InStep(align, n, p, ks)
    ensures InStep(align, n + d, After(align, rearm, p, d), ks + Shift(Kept(align, rearm, p, d), n))
  {
    hide Place, Kept, After;
    StretchKeepsCount(align, rearm, p, n, |ks|, d);
    StretchKeepsFrames(align, rearm, p, n, |ks|, d);
    WholeFramesConcat(align, n, ks, Kept(align, rearm, p, d));
  }

  /** At any sequence of rates that drop whole frames, the output is whole input
      frames in order, and the decoder knows where in a frame it is. */
  lemma {:induction false} FramesStayWhole(align: nat, cs: seq<Chunk>)
    requires align > 0 && forall i :: 0 <= i < |cs| ==> cs[i].rearm % align == 0
    ensures InStep(align, |Input(cs)|, PhaseOf(align, cs), Positions(align, cs))
  {
    hide InStep, Kept, After;
    if cs == [] {
      NothingKept(align);
    } else {
      var c, init := cs[|cs| - 1], cs[..|cs| - 1];
      FramesStayWhole(align, init);
      StretchInStep(align, c.rearm, |Input(init)|, PhaseOf(align, init), Positions(align, init), |c.data|);
    }
  }

  lemma WholeFramesConcat(align: nat, base: nat, ks: seq<nat>, ks': seq<nat>)
    requires align > 0 && WholeFrames(align, 0, 0, ks) && WholeFrames(align, base, |ks|, ks')
    requires Place(|ks|, align) != 0 ==> ks != [] && ks[|ks| - 1] == base - 1
    ensures WholeFrames(align, 0, 0, ks + Shift(ks', base))
  {
    hide Place;
    var all := ks + Shift(ks', base);
    forall i | 0 <= i < |all|
      ensures Place(0 + all[i], align) == Place(0 + i, align)
    {
      if i >= |ks| {
        assert all[i] == base + ks'[i - |ks|] && i == |ks| + (i - |ks|);
      }
    }
    forall i | 0 <= i < |all| && Place(0 + i, align) != 0
      ensures all[i] == if i == 0 then 0 else all[i - 1] + 1
    {
      if i >= |ks| {
        var j := i - |ks|;
        assert Place(|ks| + j, align) != 0;
        assert all[i] == base + ks'[j] && (j > 0 ==> all[i - 1] == base + ks'[j - 1]);
      }
    }
  }

  /** The second frame kept at one rate begins after the re-arm value. */
  lemma SecondFrame(align: nat, rearm: nat)
    requires align > 0
    ensures var ks := Kept(align, rearm, Phase(0, 0), align + rearm + 1);
            |ks| == align + 1 && ks[align] == align + rearm
  {
    CopyRun(align, rearm, Phase(0, 0), 0, align);
    SkipRun(align, rearm, Phase(0, 0), align, rearm);
  }

  lemma WholeFromStart(align: nat, rearm: nat, n: nat)
    requires align > 0 && rearm % align == 0
    ensures WholeFrames(align, 0, 0, Kept(align, rearm, Phase(0, 0), n))
  {
    ModUnique(0, 0, align, 0);
    StretchKeepsFrames(align, rearm, Phase(0, 0), 0, 0, n);
  }

  /** At one rate, frames stay whole on every stream if and only if the re-arm
      value is whole frames. */
  lemma FramesStayWholeIff(align: nat, rearm: nat)
    requires align > 0
    ensures (forall n: nat :: WholeFrames(align, 0, 0, Kept(align, rearm, Phase(0, 0), n))) <==> rearm % align == 0
  {
    hide Kept;
    if rearm % align == 0 {
      forall n: nat
        ensures WholeFrames(align, 0, 0, Kept(align, rearm, Phase(0, 0), n))
      {
        WholeFromStart(align, rearm, n);
      }
    } else {
      var n: nat := align + rearm + 1;
      SecondFrame(align, rearm);
      NotWhole(align, Kept(align, rearm, Phase(0, 0), n), rearm);
    }
  }

  lemma NotWhole(align: nat, ks: seq<nat>, rearm: nat)
    requires align > 0 && |ks| > align && ks[align] == align + rearm && rearm % align != 0
    ensures !WholeFrames(align, 0, 0, ks)
  {
    ModUnique(align, 1, align, 0);
    ModShift(rearm, align, align);
    assert Place(0 + ks[align], align) != Place(0 + align, align);
  }

  /** Dropped bytes that fit in eight bits, or frames that divide 256, are safe. */
  lemma RearmIsWholeFrames(align: nat, subsample: nat)
    requires align > 0 && subsample > 0 && (align * (subsample - 1) < 256 || 256 % align == 0)
    ensures Rearm(align, subsample) % align == 0
  {
    var x := align * (subsample - 1);
    if x < 256 {
      ModUnique(x, subsample - 1, align, 0);
    } else {
      var q, e := x / 256, 256 / align;
      assert x % 256 == x - 256 * q;
      assert 256 * q == align * (e * q);
      assert x % 256 == align * (subsample - 1 - e * q);
      ModUnique(x % 256, subsample - 1 - e * q, align, 0);
    }
  }

  // ----- streams through the decoder -----

  /** The chunks that these rates make of these inputs. */
  function Chunks(align: nat, rates: seq<nat>, inputs: seq<seq<Byte>>): (cs: seq<Chunk>)
    requires |rates| == |inputs| && forall i :: 0 <= i < |rates| ==> rates[i] > 0
    ensures |cs| == |inputs|
  {
    seq(|inputs|, i requires 0 <= i < |inputs| => Chunk(Rearm(align, rates[i]), inputs[i]))
  }

  /** No two buffers share their bytes. */
  ghost predicate Apart(buffers: seq<ApBuffer>) {
    forall i, j :: 0 <= i < j < |buffers| ==> buffers[i] != buffers[j] && buffers[i].samp != buffers[j].samp
  }

  /** Buffers `from` and following hold these inputs. */
  ghost predicate Hold(buffers: seq<ApBuffer>, inputs: seq<seq<Byte>>, from: nat)
    requires |buffers| == |inputs|
    reads buffers, set b | b in buffers :: b.samp
  {
    forall i :: from <= i < |buffers| ==> buffers[i].Valid() && buffers[i].Window() == inputs[i]
  }

  /** Fast-forwards through a sequence of buffers, each at a rate of its own. */
  method Play(d: Decoder, buffers: seq<ApBuffer>, rates: seq<nat>, ghost inputs: seq<seq<Byte>>) returns (output: seq<Byte>)
    requires d.Valid() && d.subsample == AUDIO_SUBSAMPLE_NONE && |buffers| == |rates| == |inputs|
    requires (forall i :: 0 <= i < |rates| ==> 0 < rates[i] < 256) && Apart(buffers) && Hold(buffers, inputs, 0)
    modifies d, buffers, set b | b in buffers :: b.samp
    ensures output == Output(d.align, Chunks(d.align, rates, inputs))
  {
    hide Output, PhaseOf, After, Picked, Rearm;
    ghost var cs := Chunks(d.align, rates, inputs);
    output := [];
    NoChunks(d.align, cs);
    for n := 0 to |buffers|
      invariant d.Valid() && Hold(buffers, inputs, n)
      invariant if n == 0 then d.subsample == AUDIO_SUBSAMPLE_NONE
                else d.subsample > 0 && d.Current() == PhaseOf(d.align, cs[..n])
      invariant output == Output(d.align, cs[..n])
    {
      NextChunk(d.align, cs, n);
      var window := PlayOne(d, buffers[n], rates[n], PhaseOf(d.align, cs[..n]), inputs[n]);
      output := output + window;
    }
    assert cs[..|buffers|] == cs;
  }

  /** Sets the rate and sub-samples one buffer. */
  method PlayOne(d: Decoder, apb: ApBuffer, rate: nat, ghost p: Phase, ghost input: seq<Byte>) returns (window: seq<Byte>)
    requires d.Valid() && 0 < rate < 256 && apb.Valid() && apb.Window() == input && p.Valid(d.align)
    requires if d.subsample == AUDIO_SUBSAMPLE_NONE then p == Phase(0, 0) else d.Current() == p
    modifies d, apb, apb.samp
    ensures d.Valid() && d.subsample == rate && d.Current() == After(d.align, Rearm(d.align, rate), p, |input|)
    ensures window == Picked(d.align, Rearm(d.align, rate), p, input, |input|)
  {
    hide After, Picked, Rearm;
    d.Configure(rate);
    d.Subsample(apb);
    window := apb.samp[apb.curbyte..apb.nbytes];
  }

  lemma NoChunks(align: nat, cs: seq<Chunk>)
    requires align > 0
    ensures PhaseOf(align, cs[..0]) == Phase(0, 0) && Output(align, cs[..0]) == []
  {
  }

  lemma NextChunk(align: nat, cs: seq<Chunk>, n: nat)
    requires align > 0 && n < |cs|
    ensures var p, c := PhaseOf(align, cs[..n]), cs[n];
            && PhaseOf(align, cs[..n + 1]) == After(align, c.rearm, p, |c.data|)
            && Output(align, cs[..n + 1]) == Output(align, cs[..n]) + Picked(align, c.rearm, p, c.data, |c.data|)
  {
    assert cs[..n + 1][..n] == cs[..n];
  }

  /** At one rate the buffers hold in the end exactly the first frame of every period of
      the whole stream, however it was cut; if the dropped bytes fit in eight bits a
      period is `subsample` frames. */
  method PlayAt(d: Decoder, buffers: seq<ApBuffer>, subsample: nat, ghost inputs: seq<seq<Byte>>)
    returns (output: seq<Byte>, ghost ks: seq<nat>)
    requires d.Valid() && d.subsample == AUDIO_SUBSAMPLE_NONE && |buffers| == |inputs|
    requires 0 < subsample < 256 && Apart(buffers) && Hold(buffers, inputs, 0)
    modifies d, buffers, set b | b in buffers :: b.samp
    ensures var input, period := Joined(inputs), d.align + Rearm(d.align, subsample);
            && Offsets(ks, |input|) && output == Gather(input, ks)
            && (forall k: nat :: k in ks <==> k < |input| && Place(k, period) < d.align)
            && (d.align * (subsample - 1) < 256 ==> period == d.align * subsample)
  {
    hide Output, Positions, Input, Joined, Kept, Rearm;
    var rates := seq(|buffers|, _ => subsample);
    output := Play(d, buffers, rates, inputs);
    ghost var cs := Chunks(d.align, rates, inputs);
    ChunkingDoesNotMatter(d.align, subsample, cs);
    if d.align * (subsample - 1) < 256 {
      RearmFits(d.align, subsample);
    }
    InputIsJoined(cs, inputs);
    ks := Positions(d.align, cs);
  }

  function Joined(inputs: seq<seq<Byte>>): seq<Byte> {
    if inputs == [] then [] else Joined(inputs[..|inputs| - 1]) + inputs[|inputs| - 1]
  }

  lemma {:induction false} InputIsJoined(cs: seq<Chunk>, inputs: seq<seq<Byte>>)
    requires |cs| == |inputs| && forall i :: 0 <= i < |cs| ==> cs[i].data == inputs[i]
    ensures Input(cs) == Joined(inputs)
  {
    if cs != [] {
      InputIsJoined(cs[..|cs| - 1], inputs[..|inputs| - 1]);
    }
  }

  /** The re-arm value is the number of dropped bytes without its high bits. */
  lemma RearmIsLowByte(align: nat, subsample: nat)
    requires subsample > 0
    ensures Rearm(align, subsample) < 256
    ensures exists q: nat :: 256 * q + Rearm(align, subsample) == align * (subsample - 1)
  {
    var n := align * (subsample - 1);
    assert 256 * (n / 256) + Rearm(align, subsample) == n;
  }

  lemma RearmFits(align: nat, subsample: nat)
    requires align > 0 && subsample > 0 && align * (subsample - 1) < 256
    ensures align + Rearm(align, subsample) == align * subsample
  {
  }
}
