/** The fast-forward sub-sampler of the PCM decoder: keeps one frame of every few,
    in place, in buffers that may cut the byte stream anywhere. */
module PcmSubsample {
  import opened Common

  /** `skip` bytes are still to be dropped, or `npartial` bytes of a frame have
      been kept. */
  datatype Phase = Phase(skip: nat, npartial: nat)
  {
    predicate Valid(align: nat) {
      npartial < align && (npartial > 0 ==> skip == 0)
    }

    /** What one more byte does; `rearm` is what `skip` becomes after a frame. */
    function Next(align: nat, rearm: nat): Phase {
      if skip > 0 then Phase(skip - 1, npartial)
      else if npartial + 1 == align then Phase(rearm, 0)
      else Phase(0, npartial + 1)
    }
  }

  /** The phase after `n` more bytes. */
  function After(align: nat, rearm: nat, p: Phase, n: nat): (r: Phase)
    requires p.Valid(align)
    ensures r.Valid(align)
  {
    if n == 0 then p else After(align, rearm, p, n - 1).Next(align, rearm)
  }

  ghost predicate Offsets(ks: seq<nat>, n: nat) {
    && (forall i :: 0 <= i < |ks| ==> ks[i] < n)
    && (forall i, j :: 0 <= i < j < |ks| ==> ks[i] < ks[j])
  }

  /** Which of the next `n` bytes are kept, as offsets in increasing order. */
  function Kept(align: nat, rearm: nat, p: Phase, n: nat): (ks: seq<nat>)
    requires p.Valid(align)
    ensures Offsets(ks, n)
  {
    if n == 0 then []
    else
      var ks := Kept(align, rearm, p, n - 1);
      if After(align, rearm, p, n - 1).skip == 0 then ks + [n - 1] else ks
  }

  /** The bytes at these offsets. */
  function Gather(input: seq<Byte>, ks: seq<nat>): (r: seq<Byte>)
    requires forall i :: 0 <= i < |ks| ==> ks[i] < |input|
    ensures |r| == |ks| && forall i :: 0 <= i < |ks| ==> r[i] == input[ks[i]]
  {
    seq(|ks|, i requires 0 <= i < |ks| => input[ks[i]])
  }

  // ----- runs of bytes -----

  lemma {:induction false} SkipRun(align: nat, rearm: nat, p: Phase, n: nat, d: nat)
    requires p.Valid(align) && After(align, rearm, p, n).skip >= d
    ensures var q := After(align, rearm, p, n);
            After(align, rearm, p, n + d) == Phase(q.skip - d, q.npartial)
    ensures Kept(align, rearm, p, n + d) == Kept(align, rearm, p, n)
  {
    if d > 0 {
      SkipRun(align, rearm, p, n, d - 1);
    }
  }

  lemma {:induction false} CopyRun(align: nat, rearm: nat, p: Phase, n: nat, d: nat)
    requires p.Valid(align)
    requires var q := After(align, rearm, p, n); q.skip == 0 && q.npartial + d <= align
    ensures var q := After(align, rearm, p, n);
            After(align, rearm, p, n + d) == if q.npartial + d == align then Phase(rearm, 0) else Phase(0, q.npartial + d)
    ensures Kept(align, rearm, p, n + d) == Kept(align, rearm, p, n) + seq(d, i => n + i)
  {
    if d > 0 {
      CopyRun(align, rearm, p, n, d - 1);
    } else {
      assert Kept(align, rearm, p, n) + seq(0, i => n + i) == Kept(align, rearm, p, n);
    }
  }

  /** The bytes kept of the first `n` bytes of `input`. */
  function Picked(align: nat, rearm: nat, p: Phase, input: seq<Byte>, n: nat): seq<Byte>
    requires p.Valid(align) && n <= |input|
  {
    Gather(input, Kept(align, rearm, p, n))
  }

  lemma PickedNone(align: nat, rearm: nat, p: Phase, input: seq<Byte>)
    requires p.Valid(align)
    ensures After(align, rearm, p, 0) == p && Picked(align, rearm, p, input, 0) == []
  {
  }

  lemma PickedCopy(align: nat, rearm: nat, p: Phase, input: seq<Byte>, n: nat, d: nat)
    requires p.Valid(align) && n + d <= |input|
    requires var q := After(align, rearm, p, n); q.skip == 0 && q.npartial + d <= align
    ensures var q := After(align, rearm, p, n);
            After(align, rearm, p, n + d) == if q.npartial + d == align then Phase(rearm, 0) else Phase(0, q.npartial + d)
    ensures Picked(align, rearm, p, input, n + d) == Picked(align, rearm, p, input, n) + input[n..n + d]
  {
    CopyRun(align, rearm, p, n, d);
  }

  lemma PickedSkip(align: nat, rearm: nat, p: Phase, input: seq<Byte>, n: nat, d: nat)
    requires p.Valid(align) && n + d <= |input| && After(align, rearm, p, n).skip >= d
    ensures var q := After(align, rearm, p, n);
            After(align, rearm, p, n + d) == Phase(q.skip - d, q.npartial)
    ensures Picked(align, rearm, p, input, n + d) == Picked(align, rearm, p, input, n)
  {
    SkipRun(align, rearm, p, n, d);
  }

  // ----- the decoder -----

  const AUDIO_SUBSAMPLE_NONE := 0

  /** The bytes from `curbyte` up to `nbytes` are the audio data. */
  class ApBuffer {
    const samp: array<Byte>
    var curbyte: nat
    var nbytes: nat

    constructor (nmaxbytes: nat)
      ensures Valid() && samp.Length == nmaxbytes && fresh(samp)
    {
      samp := new Byte[nmaxbytes];
      curbyte, nbytes := 0, 0;
    }

    predicate Valid()
      reads this
    {
      curbyte <= nbytes <= samp.Length
    }

    ghost function Window(): seq<Byte>
      requires Valid()
      reads this, samp
    {
      samp[curbyte..nbytes]
    }
  }

  /** What `skip` becomes after a whole frame: the size of the frames to drop, in
      the eight bits that the field has. */
  function Rearm(align: nat, subsample: nat): (r: nat)
    requires subsample > 0
    ensures r < 256
  {
    align * (subsample - 1) % 256
  }

  class Decoder {
    const align: nat
    var subsample: nat
    var skip: nat
    var npartial: nat

    constructor (align: nat)
      requires 0 < align < 256
      ensures this.align == align && subsample == AUDIO_SUBSAMPLE_NONE && Current() == Phase(0, 0) && Valid()
    {
      this.align := align;
      subsample, skip, npartial := AUDIO_SUBSAMPLE_NONE, 0, 0;
    }

    ghost function Current(): Phase
      reads this
    {
      Phase(skip, npartial)
    }

    ghost predicate Valid()
      reads this
    {
      0 < align < 256 && subsample < 256 && skip < 256 && Current().Valid(align)
    }

    method Configure(subsample: nat)
      requires Valid() && subsample < 256
      modifies this
      ensures Valid() && this.subsample == subsample
      ensures Current() == if old(this.subsample) != AUDIO_SUBSAMPLE_NONE && subsample != AUDIO_SUBSAMPLE_NONE
                           then old(Current())
                           else if old(this.subsample) == subsample then old(Current()) else Phase(0, 0)
    {
      if this.subsample == AUDIO_SUBSAMPLE_NONE {
        if subsample != AUDIO_SUBSAMPLE_NONE {
          npartial := 0;
          skip := 0;
          this.subsample := subsample;
        }
      } else if subsample == AUDIO_SUBSAMPLE_NONE {
        npartial := 0;
        skip := 0;
        this.subsample := AUDIO_SUBSAMPLE_NONE;
      } else if this.subsample != subsample {
        this.subsample := subsample;
      }
    }

    /** Moves `n` bytes down from `src` to `dest`. */
    static method CopyDown(samp: array<Byte>, dest: nat, src: nat, n: nat)
      requires dest <= src && src + n <= samp.Length
      modifies samp
      ensures samp[..dest + n] == old(samp[..dest]) + old(samp[src..src + n])
      ensures samp[src + n..] == old(samp[src + n..])
    {
      for i := 0 to n
        invariant samp[..dest + i] == old(samp[..dest]) + old(samp[src..src + i])
        invariant samp[src + i..] == old(samp[src + i..])
      {
        assert samp[src + i] == samp[src + i..][0] == old(samp[src + i..])[0];
        assert samp[src + i + 1..] == samp[src + i..][1..];
        samp[dest + i] := samp[src + i];
        assert samp[..dest + i + 1] == samp[..dest + i] + [samp[dest + i]];
      }
    }

    /** `n` bytes of `input` have been read, up to `src`, and what is kept of them
        is at the front of the buffer, up to `dest`. */
    ghost predicate Progress(apb: ApBuffer, p: Phase, input: seq<Byte>, n: nat, dest: nat, src: nat)
      requires p.Valid(align) && subsample > 0
      reads this, apb, apb.samp
    {
      && n <= |input| && dest <= src <= apb.nbytes <= apb.samp.Length && |input| - n == apb.nbytes - src
      && Valid() && Current() == After(align, Rearm(align, subsample), p, n)
      && apb.samp[..dest] == Picked(align, Rearm(align, subsample), p, input, n)
      && apb.samp[src..apb.nbytes] == input[n..]
    }

    /** Completes the frame that an earlier buffer has begun. */
    method FinishPartial(apb: ApBuffer, ghost input: seq<Byte>) returns (copysize: nat)
      requires Valid() && apb.Valid() && subsample > 0 && input == apb.Window()
      requires npartial > 0 && align - npartial <= |input|
      modifies `skip, `npartial, apb.samp
      ensures copysize == align - old(npartial) && npartial == 0
      ensures Progress(apb, old(Current()), input, copysize, copysize, apb.curbyte + copysize)
    {
      hide Rearm, After, Picked;
      ghost var rearm := Rearm(align, subsample);
      PickedNone(align, rearm, Current(), input);
      copysize := align - npartial;
      PickedCopy(align, rearm, Current(), input, 0, copysize);
      if apb.curbyte > 0 {
        CopyDown(apb.samp, 0, apb.curbyte, copysize);
      }
      npartial := 0;
      skip := Rearm(align, subsample);
    }

    /** Copies a frame, or the part of one that is left in the buffer. */
    method CopyFrame(apb: ApBuffer, ghost p: Phase, ghost input: seq<Byte>, ghost n: nat, dest: nat, src: nat)
      returns (copysize: nat)
      requires p.Valid(align) && subsample > 0 && Progress(apb, p, input, n, dest, src)
      requires skip == 0 && npartial == 0 && src < apb.nbytes
      modifies `skip, `npartial, apb.samp
      ensures copysize > 0 && src + copysize <= apb.nbytes
      ensures Progress(apb, p, input, n + copysize, dest + copysize, src + copysize)
      ensures npartial == 0 || src + copysize == apb.nbytes
    {
      hide Rearm, After, Picked;
      var srcsize := apb.nbytes - src;
      if srcsize < align {
        copysize := srcsize;
        npartial := srcsize;
      } else {
        copysize := align;
        skip := Rearm(align, subsample);
      }
      PickedCopy(align, Rearm(align, subsample), p, input, n, copysize);
      assert apb.samp[src..src + copysize] == apb.samp[src..apb.nbytes][..copysize] == input[n..n + copysize];
      assert apb.samp[src + copysize..apb.nbytes] == apb.samp[src..apb.nbytes][copysize..];
      CopyDown(apb.samp, dest, src, copysize);
      assert apb.samp[src + copysize..apb.nbytes] == apb.samp[src + copysize..][..apb.nbytes - (src + copysize)];
    }

    /** Passes over bytes that are not kept. */
    method SkipBytes(apb: ApBuffer, ghost p: Phase, ghost input: seq<Byte>, ghost n: nat, dest: nat, src: nat)
      returns (copysize: nat)
      requires p.Valid(align) && subsample > 0 && Progress(apb, p, input, n, dest, src)
      requires skip > 0 && src < apb.nbytes
      modifies `skip
      ensures copysize > 0 && src + copysize <= apb.nbytes
      ensures Progress(apb, p, input, n + copysize, dest, src + copysize) && npartial == old(npartial)
    {
      hide Rearm, After, Picked;
      var srcsize := apb.nbytes - src;
      copysize := if skip < srcsize then skip else srcsize;
      PickedSkip(align, Rearm(align, subsample), p, input, n, copysize);
      skip := skip - copysize;
      assert apb.samp[src + copysize..apb.nbytes] == apb.samp[src..apb.nbytes][copysize..];
    }

    /** Sub-samples the rest of the buffer; `end` is where the kept bytes end. */
    method SubsampleFrom(apb: ApBuffer, ghost p: Phase, ghost input: seq<Byte>, ghost start: nat, dest: nat, src: nat)
      returns (end: nat)
      requires p.Valid(align) && subsample > 0 && Progress(apb, p, input, start, dest, src)
      requires npartial == 0 || src == apb.nbytes
      modifies `skip, `npartial, apb.samp
      ensures Progress(apb, p, input, |input|, end, apb.nbytes)
    {
      hide Rearm, After, Picked;
      end := dest;
      var from := src;
      ghost var n := start;
      while from < apb.nbytes
        invariant Progress(apb, p, input, n, end, from)
        invariant npartial == 0 || from == apb.nbytes
      {
        var copysize;
        if skip > 0 {
          copysize := SkipBytes(apb, p, input, n, end, from);
        } else {
          copysize := CopyFrame(apb, p, input, n, end, from);
          end := end + copysize;
        }
        from, n := from + copysize, n + copysize;
      }
    }

    method Subsample(apb: ApBuffer)
      requires Valid() && apb.Valid()
      modifies `skip, `npartial, apb`curbyte, apb`nbytes, apb.samp
      ensures Valid() && apb.Valid()
      ensures subsample == AUDIO_SUBSAMPLE_NONE ==> apb.Window() == old(apb.Window()) && Current() == old(Current())
      ensures subsample != AUDIO_SUBSAMPLE_NONE ==>
                var input, rearm := old(apb.Window()), Rearm(align, subsample);
                && Current() == After(align, rearm, old(Current()), |input|)
                && apb.Window() == Picked(align, rearm, old(Current()), input, |input|)
    {
      hide Rearm, After, Picked;
      if subsample == AUDIO_SUBSAMPLE_NONE {
        return;
      }
      ghost var p, input := Current(), apb.Window();
      PickedNone(align, Rearm(align, subsample), p, input);
      var copysize: nat := 0;
      if npartial > 0 {
        var srcsize := apb.nbytes - apb.curbyte;
        if npartial + srcsize < align {
          PickedCopy(align, Rearm(align, subsample), p, input, 0, srcsize);
          npartial := npartial + srcsize;
          return;
        }
        copysize := FinishPartial(apb, input);
      }
      var end := SubsampleFrom(apb, p, input, copysize, copysize, apb.curbyte + copysize);
      apb.curbyte := 0;
      apb.nbytes := end;
    }
  }
}
