/** The bitmap converter: nearest palette colours and run-length encoded rows. */
module BitmapRle {
  import opened Common

  datatype Color = Color(r: int, g: int, b: int)

  // ----- quantization -----

  function Distance(a: Color, b: Color): nat {
    (a.r - b.r) * (a.r - b.r) + (a.g - b.g) * (a.g - b.g) + (a.b - b.b) * (a.b - b.b)
  }

  lemma DistanceZero(a: Color, b: Color)
    ensures Distance(a, b) == 0 <==> a == b
  {
    SquareZero(a.r - b.r);
    SquareZero(a.g - b.g);
    SquareZero(a.b - b.b);
  }

  lemma SquareZero(x: int)
    ensures x * x >= 0 && (x * x == 0 <==> x == 0)
  {
  }

  /** The first place of a colour in the palette. */
  function IndexOf(c: Color, palette: seq<Color>): (r: Option<nat>)
    ensures r == None <==> c !in palette
    ensures r.Some? ==> r.value < |palette| && palette[r.value] == c && c !in palette[..r.value]
  {
    if palette == [] then None
    else if palette[0] == c then Some(0)
    else
      match IndexOf(c, palette[1..])
      case None => None
      case Some(i) => Some(i + 1)
  }

  /** The first of the palette's colours that are nearest. */
  function Nearest(c: Color, palette: seq<Color>): (r: Color)
    requires palette != []
    ensures r in palette && forall i :: 0 <= i < |palette| ==> Distance(c, r) <= Distance(c, palette[i])
  {
    if |palette| == 1 then palette[0]
    else
      var rest := Nearest(c, palette[1..]);
      if Distance(c, palette[0]) <= Distance(c, rest) then palette[0] else rest
  }

  /** Fails, as the search for a minimum does, on an empty palette. */
  function Quantize(c: Color, palette: seq<Color>): Option<nat> {
    var exact := IndexOf(c, palette);
    if exact.Some? then exact
    else if palette == [] then None
    else IndexOf(Nearest(c, palette), palette)
  }

  lemma {:induction false} NearestIsFirst(c: Color, palette: seq<Color>, i: nat)
    requires i < |palette| && Distance(c, palette[i]) == Distance(c, Nearest(c, palette))
    requires forall j :: 0 <= j < i ==> Distance(c, palette[j]) > Distance(c, palette[i])
    ensures Nearest(c, palette) == palette[i]
  {
    if |palette| > 1 {
      var rest := palette[1..];
      if i > 0 {
        assert Distance(c, palette[0]) > Distance(c, palette[i]);
        assert rest[i - 1] == palette[i];
        assert forall j :: 0 <= j < i - 1 ==> rest[j] == palette[j + 1];
        NearestIsFirst(c, rest, i - 1);
      }
    }
  }

  /** Both paths give the least index of least distance. */
  lemma QuantizeIsNearest(c: Color, palette: seq<Color>)
    ensures Quantize(c, palette) == None <==> palette == []
    ensures palette != [] ==>
              var i := Quantize(c, palette).value;
              && i < |palette|
              && (forall j :: 0 <= j < |palette| ==> Distance(c, palette[i]) <= Distance(c, palette[j]))
              && (forall j :: 0 <= j < i ==> Distance(c, palette[i]) < Distance(c, palette[j]))
  {
    if palette != [] {
      var i := Quantize(c, palette).value;
      DistanceZero(c, palette[i]);
      var least := LeastIndex(c, palette, |palette|);
      forall j | 0 <= j < i
        ensures Distance(c, palette[i]) < Distance(c, palette[j])
      {
        assert palette[j] == palette[..i][j];
        if palette[i] == c {
          DistanceZero(c, palette[j]);
        } else {
          NearestIsFirst(c, palette, least);
          assert palette[i] == palette[least];
        }
      }
    }
  }

  /** Distances are squared differences in red, green and blue. */
  lemma DistanceIs(a: Color, b: Color)
    ensures Distance(a, b) == (a.r - b.r) * (a.r - b.r) + (a.g - b.g) * (a.g - b.g) + (a.b - b.b) * (a.b - b.b)
  {
  }

  /** The least index of least distance among the first `n` colours. */
  function LeastIndex(c: Color, palette: seq<Color>, n: nat): (r: nat)
    requires 0 < n <= |palette|
    ensures r < n && (forall j :: 0 <= j < n ==> Distance(c, palette[r]) <= Distance(c, palette[j]))
    ensures forall j :: 0 <= j < r ==> Distance(c, palette[r]) < Distance(c, palette[j])
  {
    if n == 1 then 0
    else
      var r := LeastIndex(c, palette, n - 1);
      if Distance(c, palette[n - 1]) < Distance(c, palette[r]) then n - 1 else r
  }

  // ----- run-length encoding -----

  const MAX_RUN := 255

  datatype Entry = Entry(repeats: nat, color: nat)

  function Repeat(color: nat, n: nat): seq<nat> {
    seq(n, _ => color)
  }

  /** The row that entries stand for. */
  function Expand(es: seq<Entry>): seq<nat> {
    if es == [] then [] else Repeat(es[0].color, es[0].repeats) + Expand(es[1..])
  }

  ghost predicate Runs(es: seq<Entry>) {
    forall i :: 0 <= i < |es| ==> 1 <= es[i].repeats <= 255
  }

  /** A run is only broken off at a new colour or at full length. */
  ghost predicate Greedy(es: seq<Entry>) {
    Runs(es) && forall i :: 0 <= i < |es| - 1 ==> es[i].color != es[i + 1].color || es[i].repeats == 255
  }

  lemma {:induction false} ExpandConcat(a: seq<Entry>, b: seq<Entry>)
    ensures Expand(a + b) == Expand(a) + Expand(b)
  {
    if a == [] {
      assert a + b == b;
    } else {
      assert (a + b)[1..] == a[1..] + b;
      ExpandConcat(a[1..], b);
    }
  }

  lemma ExpandOne(e: Entry)
    ensures Expand([e]) == Repeat(e.color, e.repeats)
  {
    assert Expand([e]) == Repeat(e.color, e.repeats) + Expand([]);
  }

  /** The palette indices of a row of pixels. */
  function Indices(pixels: seq<Color>, palette: seq<Color>): seq<nat>
    requires palette != []
  {
    seq(|pixels|, x requires 0 <= x < |pixels| => QuantizeIsNearest(pixels[x], palette); Quantize(pixels[x], palette).value)
  }

  /** Each pixel of a row has the least index of least distance. */
  lemma IndicesAreNearest(pixels: seq<Color>, palette: seq<Color>)
    requires palette != []
    ensures |Indices(pixels, palette)| == |pixels|
    ensures forall x :: 0 <= x < |pixels| ==>
              var i := Indices(pixels, palette)[x];
              && i < |palette|
              && (forall j :: 0 <= j < |palette| ==> Distance(pixels[x], palette[i]) <= Distance(pixels[x], palette[j]))
              && (forall j :: 0 <= j < i ==> Distance(pixels[x], palette[i]) < Distance(pixels[x], palette[j]))
  {
    hide Quantize, Distance;
    forall x | 0 <= x < |pixels|
      ensures var i := Indices(pixels, palette)[x];
              && i < |palette|
              && (forall j :: 0 <= j < |palette| ==> Distance(pixels[x], palette[i]) <= Distance(pixels[x], palette[j]))
              && (forall j :: 0 <= j < i ==> Distance(pixels[x], palette[i]) < Distance(pixels[x], palette[j]))
    {
      QuantizeIsNearest(pixels[x], palette);
    }
  }

  /** Encodes a row of pixels; fails if there is a pixel but no colour. */
  method EncodeRow(pixels: seq<Color>, palette: seq<Color>) returns (r: Option<seq<Entry>>)
    ensures r == None <==> pixels != [] && palette == []
    ensures r.Some? ==> Greedy(r.value) && if pixels == [] then r.value == [] else Expand(r.value) == Indices(pixels, palette)
  {
    var entries: seq<Entry> := [];
    var color: Option<nat> := None;
    var repeats := 0;
    for x := 0 to |pixels|
      invariant x > 0 ==> palette != []
      invariant color == None ==> x == 0 && entries == []
      invariant color.Some? ==> x > 0 && 1 <= repeats <= MAX_RUN
      invariant color.Some? ==> Greedy(entries + [Entry(repeats, color.value)])
      invariant color.Some? ==> Expand(entries + [Entry(repeats, color.value)]) == Indices(pixels, palette)[..x]
    {
      QuantizeIsNearest(pixels[x], palette);
      var q := Quantize(pixels[x], palette);
      if q == None {
        return None;
      }
      var c := q.value;
      assert Indices(pixels, palette)[..x + 1] == Indices(pixels, palette)[..x] + [c];
      if color == Some(c) && repeats < MAX_RUN {
        GrowRun(entries, repeats, c);
        GreedyGrow(entries, repeats, c);
        repeats := repeats + 1;
      } else {
        if color.Some? {
          GreedyPush(entries, Entry(repeats, color.value), c);
          entries := entries + [Entry(repeats, color.value)];
        }
        ExpandConcat(entries, [Entry(1, c)]);
        ExpandOne(Entry(1, c));
        repeats := 1;
        color := Some(c);
      }
    }
    if color.Some? {
      entries := entries + [Entry(repeats, color.value)];
      assert Indices(pixels, palette)[..|pixels|] == Indices(pixels, palette);
    }
    r := Some(entries);
  }

  lemma GrowRun(es: seq<Entry>, n: nat, c: nat)
    ensures Expand(es + [Entry(n + 1, c)]) == Expand(es + [Entry(n, c)]) + [c]
  {
    ExpandConcat(es, [Entry(n, c)]);
    ExpandConcat(es, [Entry(n + 1, c)]);
    ExpandOne(Entry(n, c));
    ExpandOne(Entry(n + 1, c));
  }

  lemma GreedyGrow(es: seq<Entry>, n: nat, c: nat)
    requires Greedy(es + [Entry(n, c)]) && n < MAX_RUN
    ensures Greedy(es + [Entry(n + 1, c)])
  {
    var old', new' := es + [Entry(n, c)], es + [Entry(n + 1, c)];
    assert forall i :: 0 <= i < |es| ==> new'[i] == old'[i];
    assert old'[|es|].color == new'[|es|].color;
  }

  lemma GreedyPush(es: seq<Entry>, e: Entry, c: nat)
    requires Greedy(es + [e]) && (e.color != c || e.repeats == MAX_RUN)
    ensures Greedy(es + [e] + [Entry(1, c)])
  {
    var old', new' := es + [e], es + [e] + [Entry(1, c)];
    assert forall i :: 0 <= i < |old'| ==> new'[i] == old'[i];
  }

  // ----- no shorter encoding -----

  lemma ExpandHead(es: seq<Entry>)
    requires Runs(es) && es != []
    ensures |Expand(es)| >= es[0].repeats && forall i :: 0 <= i < es[0].repeats ==> Expand(es)[i] == es[0].color
    ensures Expand(es)[es[0].repeats..] == Expand(es[1..])
  {
  }

  /** The row after a greedy first entry does not go on with its colour, unless the
      entry is full. */
  lemma GreedyTail(es: seq<Entry>)
    requires Greedy(es) && es != []
    ensures Greedy(es[1..])
    ensures es[0].repeats < MAX_RUN && Expand(es[1..]) != [] ==> Expand(es[1..])[0] != es[0].color
  {
    if |es| > 1 {
      ExpandHead(es[1..]);
    }
  }

  /** A greedy first entry is as long as any first entry for the same row. */
  lemma FirstEntryLongest(es: seq<Entry>, fs: seq<Entry>, k: nat)
    requires Greedy(es) && Runs(fs) && es != [] && fs != [] && k < es[0].repeats
    requires Expand(fs) == Expand(es)[k..]
    ensures fs[0].color == es[0].color
    ensures es[0].repeats < MAX_RUN ==> fs[0].repeats <= es[0].repeats - k
  {
    ExpandHead(es);
    ExpandHead(fs);
    GreedyTail(es);
    var n, m := es[0].repeats, fs[0].repeats;
    assert Expand(fs)[0] == Expand(es)[k];
    assert n < |Expand(es)| ==> Expand(es)[n] == Expand(es)[n..][0];
    assert n < |Expand(es)| ==> Expand(fs)[n - k] == Expand(es)[n];
  }

  /** Dropping part of the first run saves at most one entry. */
  lemma {:induction false} GreedyIsShortestFrom(es: seq<Entry>, fs: seq<Entry>, k: nat)
    requires Greedy(es) && Runs(fs) && es != [] && k <= es[0].repeats
    requires k <= |Expand(es)| && Expand(fs) == Expand(es)[k..]
    ensures |fs| >= |es| - if k == 0 then 0 else 1
    decreases |fs|, |es|
  {
    hide Expand;
    ExpandHead(es);
    GreedyTail(es);
    var n := es[0].repeats;
    if k == n {
      if |es| > 1 {
        assert Expand(es)[n..][0..] == Expand(es[1..]);
        GreedyIsShortestFrom(es[1..], fs, 0);
      }
    } else {
      ExpandNothing();
      FirstEntryLongest(es, fs, k);
      ExpandHead(fs);
      var m := fs[0].repeats;
      if m <= n - k {
        assert Expand(fs[1..]) == Expand(es)[k..][m..] == Expand(es)[k + m..];
        GreedyIsShortestFrom(es, fs[1..], k + m);
      } else if |es| > 1 {
        SecondEntry(es, fs, k);
        assert Expand(fs[1..]) == Expand(es)[k..][m..] == Expand(es)[n..][m - (n - k)..];
        GreedyIsShortestFrom(es[1..], fs[1..], m - (n - k));
      }
    }
  }

  lemma ExpandNothing()
    ensures Expand([]) == []
  {
  }

  /** A run that goes past a full first entry ends within the second. */
  lemma SecondEntry(es: seq<Entry>, fs: seq<Entry>, k: nat)
    requires Greedy(es) && Runs(fs) && |es| > 1 && fs != [] && 0 <= k < es[0].repeats
    requires Expand(fs) == Expand(es)[k..] && fs[0].repeats > es[0].repeats - k
    ensures fs[0].repeats - (es[0].repeats - k) <= es[1].repeats
  {
    hide Expand;
    ExpandHead(es);
    ExpandHead(fs);
    GreedyTail(es);
    ExpandHead(es[1..]);
    GreedyTail(es[1..]);
    FirstEntryLongest(es, fs, k);
    var n, m, n' := es[0].repeats, fs[0].repeats, es[1].repeats;
    assert n == MAX_RUN;
    assert Expand(fs)[n - k] == Expand(es)[n] == Expand(es[1..])[0];
    var rest := Expand(es[1..]);
    assert n' < |rest| ==> Expand(fs)[n - k + n'] == Expand(es)[n + n'] == rest[n'] == rest[n'..][0];
  }

  /** No encoding with runs of 1 to 255 has fewer entries. */
  lemma GreedyIsShortest(es: seq<Entry>, fs: seq<Entry>)
    requires Greedy(es) && Runs(fs) && Expand(fs) == Expand(es)
    ensures |es| <= |fs|
  {
    if es != [] {
      GreedyIsShortestFrom(es, fs, 0);
    }
  }
}
