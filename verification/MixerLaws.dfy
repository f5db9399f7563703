/** Laws of the mixer: chunking is invisible, one-shot voices last exactly as long as their audio,
    interpolation stays between its samples, and the order of voices does not matter. */
module MixerLaws {
  import opened HostTypes
  import opened IntegerLaws
  import opened MixerModel

  // ----- arithmetic -------------------------------------------------------

  lemma StepsAdd(n: nat, m: nat, step: nat)
    ensures (n + m) * step == n * step + m * step
  {
  }

  // ----- walking a one-shot voice -----------------------------------------

  lemma {:induction false} WalkSplit(place: nat, step: nat, end: nat, n: nat, m: nat)
    ensures Walk(place, step, end, n + m) == Walk(Walk(place, step, end, n), step, end, m)
    decreases n
  {
    if n > 0 && place < end {
      WalkSplit(place + step, step, end, n - 1, m);
    }
  }

  lemma {:induction false} WalkArrives(place: nat, step: nat, end: nat, n: nat)
    ensures Walk(place, step, end, n) >= end <==> place + n * step >= end
    ensures place + n * step < end ==> Walk(place, step, end, n) == place + n * step
    decreases n
  {
    if n > 0 {
      StepsAdd(1, n - 1, step);
      if place < end {
        WalkArrives(place + step, step, end, n - 1);
      }
    }
  }

  // ----- one voice across two calls ---------------------------------------

  lemma AdvanceSplit(v: Voice, rate: nat, n: nat, m: nat)
    requires WellFormed(v) && rate > 0
    ensures !Advance(v, rate, n).finished ==> Advance(Advance(v, rate, n), rate, m) == Advance(v, rate, n + m)
    ensures Advance(v, rate, n).finished ==> Advance(v, rate, n + m).finished
  {
    if Sounding(v) {
      StepsAdd(n, m, Pace(v));
      if v.loop {
        EndPositive(v, rate);
        ModAdds(PlaceAt(v, n), m * Pace(v), End(v, rate));
      } else {
        WalkSplit(v.position, Pace(v), End(v, rate), n, m);
      }
    }
  }

  /** Frame i of the next call is frame n + i of one long call; a retired voice has nothing left to add. */
  lemma SampleShift(v: Voice, rate: nat, n: nat, i: nat, side: nat)
    requires WellFormed(v) && rate > 0 && side < 2
    ensures Sample(v, rate, n + i, side)
            == if Advance(v, rate, n).finished then 0 else Sample(Advance(v, rate, n), rate, i, side)
  {
    hide Interpolated, Walk, Frames, PlaceAt;
    if Sounding(v) {
      var w := Advance(v, rate, n);
      assert Frames(w) == Frames(v) && End(w, rate) == End(v, rate) by {
        SameAudio(v, w);
      }
      if v.loop {
        LoopPlaceShift(v, rate, n, i);
        SameInterpolation(v, w, rate, PlaceAt(v, n + i) % End(v, rate), side);
      } else {
        OneShotPlaceShift(v, rate, n, i);
        if Contributes(v, rate, n + i) {
          SameInterpolation(v, w, rate, PlaceAt(v, n + i), side);
        }
      }
    }
  }

  ghost predicate SameSource(v: Voice, w: Voice) {
    w.samples == v.samples && w.channels == v.channels && w.loop == v.loop && w.volume == v.volume
  }

  lemma SameAudio(v: Voice, w: Voice)
    requires WellFormed(v) && WellFormed(w) && SameSource(v, w)
    ensures Frames(v) == Frames(w)
  {
  }

  lemma SameInterpolation(v: Voice, w: Voice, rate: nat, place: nat, side: nat)
    requires WellFormed(v) && WellFormed(w) && SameSource(v, w)
    requires rate > 0 && side < 2 && place < End(v, rate) == End(w, rate)
    ensures Interpolated(v, rate, place, side) == Interpolated(w, rate, place, side)
  {
    hide Level;
    SameAudio(v, w);
    IndicesInRange(v, rate, place, side);
  }

  lemma LoopPlaceShift(v: Voice, rate: nat, n: nat, i: nat)
    requires WellFormed(v) && rate > 0 && Sounding(v) && v.loop
    ensures var w := Advance(v, rate, n);
      End(v, rate) > 0 && PlaceAt(w, i) % End(v, rate) == PlaceAt(v, n + i) % End(v, rate)
  {
    EndPositive(v, rate);
    StepsAdd(n, i, Pace(v));
    ModAdds(PlaceAt(v, n), i * Pace(v), End(v, rate));
  }

  lemma OneShotPlaceShift(v: Voice, rate: nat, n: nat, i: nat)
    requires WellFormed(v) && rate > 0 && Sounding(v) && !v.loop
    ensures var w := Advance(v, rate, n);
      if w.finished then PlaceAt(v, n + i) >= End(v, rate) else PlaceAt(w, i) == PlaceAt(v, n + i)
  {
    hide Walk, End;
    StepsAdd(n, i, Pace(v));
    WalkArrives(v.position, Pace(v), End(v, rate), n);
    assert i * Pace(v) >= 0;
  }

  // ----- all voices across two calls --------------------------------------

  lemma {:induction false} AdvanceAllSplit(voices: seq<Voice>, rate: nat, n: nat, m: nat)
    requires AllWellFormed(voices) && rate > 0
    ensures AdvanceAll(AdvanceAll(voices, rate, n), rate, m) == AdvanceAll(voices, rate, n + m)
    decreases |voices|
  {
    hide Advance;
    if voices != [] {
      AdvanceSplit(voices[0], rate, n, m);
      AdvanceAllSplit(voices[1..], rate, n, m);
      var v, rest := Advance(voices[0], rate, n), AdvanceAll(voices[1..], rate, n);
      if !v.finished {
        assert ([v] + rest)[1..] == rest;
      } else {
        assert [] + rest == rest;
        assert [] + AdvanceAll(voices[1..], rate, n + m) == AdvanceAll(voices[1..], rate, n + m);
      }
    }
  }

  lemma {:induction false} SumShift(voices: seq<Voice>, rate: nat, n: nat, i: nat, side: nat)
    requires AllWellFormed(voices) && rate > 0 && side < 2
    ensures Sum(AdvanceAll(voices, rate, n), rate, i, side) == Sum(voices, rate, n + i, side)
    decreases |voices|
  {
    hide Advance, Sample;
    if voices != [] {
      SampleShift(voices[0], rate, n, i, side);
      SumShift(voices[1..], rate, n, i, side);
      var v, rest := Advance(voices[0], rate, n), AdvanceAll(voices[1..], rate, n);
      if !v.finished {
        assert ([v] + rest)[1..] == rest;
      } else {
        assert [] + rest == rest;
      }
    }
  }

  /** Mixing n frames and then m emits the same frames, and leaves the same voices, as mixing n + m at once. */
  lemma ChunkingIsInvisible(voices: seq<Voice>, rate: nat, n: nat, m: nat)
    requires AllWellFormed(voices) && rate > 0
    ensures Output(voices, rate, n + m) == Output(voices, rate, n) + Output(AdvanceAll(voices, rate, n), rate, m)
    ensures AdvanceAll(voices, rate, n + m) == AdvanceAll(AdvanceAll(voices, rate, n), rate, m)
  {
    hide AdvanceAll, Sum;
    AdvanceAllSplit(voices, rate, n, m);
    var after := AdvanceAll(voices, rate, n);
    forall k | 0 <= k < m * 2
      ensures Output(voices, rate, n + m)[n * 2 + k] == Output(after, rate, m)[k]
    {
      SumShift(voices, rate, n, k / 2, k % 2);
      assert (n * 2 + k) / 2 == n + k / 2 && (n * 2 + k) % 2 == k % 2;
    }
  }

  // ----- bounds -----------------------------------------------------------

  function Min(a: int, b: int): int { if a < b then a else b }
  function Max(a: int, b: int): int { if a > b then a else b }

  lemma SignOfFactor(h: int, d: nat)
    requires d > 0 && h * d >= 0
    ensures h >= 0
  {
    if h <= -1 {
      Scaled(h, h, -1, d);
    }
  }

  lemma QuotientBetween(lo: int, x: nat, hi: int, d: nat)
    requires d > 0 && lo * d <= x <= hi * d
    ensures lo <= x / d <= hi
  {
    SignOfFactor(hi, d);
    DivUpper(x, hi, d);
    if lo > 0 {
      DivLower(x, lo, d);
    }
  }

  lemma TruncatedBetween(lo: int, x: int, hi: int, d: nat)
    requires d > 0 && lo * d <= x <= hi * d
    ensures lo <= Truncated(x, d) <= hi
  {
    if x >= 0 {
      QuotientBetween(lo, x, hi, d);
    } else {
      assert -hi * d <= -x <= -lo * d;
      QuotientBetween(-hi, -x, -lo, d);
    }
  }

  /** The weighted sum of two samples lies between them. */
  lemma Convex(s0: int, s1: int, part: nat, rate: nat)
    requires part < rate
    ensures Min(s0, s1) * rate <= s0 * (rate - part) + s1 * part <= Max(s0, s1) * rate
  {
    var lo, hi := Min(s0, s1), Max(s0, s1);
    Scaled(lo, s0, hi, rate - part);
    Scaled(lo, s1, hi, part);
    assert lo * (rate - part) + lo * part == lo * rate;
    assert hi * (rate - part) + hi * part == hi * rate;
  }

  /** At full volume every interpolated value lies between the two samples it is made from,
      and a lower volume only brings it closer to zero. */
  lemma LevelStaysBetween(s0: int16, s1: int16, part: nat, rate: nat, volume: nat)
    requires part < rate && volume <= 100
    ensures Min(Min(s0, s1), 0) <= Level(s0, s1, part, rate, volume) <= Max(Max(s0, s1), 0)
    ensures volume == 100 ==> Min(s0, s1) <= Level(s0, s1, part, rate, volume) <= Max(s0, s1)
  {
    var lo, hi, x := Min(s0, s1), Max(s0, s1), s0 * (rate - part) + s1 * part;
    Convex(s0, s1, part, rate);
    Scaled(lo * rate, x, hi * rate, volume);
    BetweenAfterScaling(lo, x * volume, hi, rate, volume);
  }

  /** A value between two bounds scaled by the volume, truncated back to full scale. */
  lemma BetweenAfterScaling(lo: int, x: int, hi: int, rate: nat, volume: nat)
    requires rate > 0 && volume <= 100 && lo * rate * volume <= x <= hi * rate * volume
    ensures Min(lo, 0) <= Truncated(x, 100 * rate) <= Max(hi, 0)
    ensures volume == 100 ==> lo <= Truncated(x, 100 * rate) <= hi
  {
    hide Truncated;
    VolumeShrinks(Min(lo, 0), lo, rate, volume);
    VolumeShrinks(-Max(hi, 0), -hi, rate, volume);
    NegatedProduct(hi, rate, volume);
    NegatedProduct(Max(hi, 0), 100 * rate, 1);
    TruncatedBetween(Min(lo, 0), x, Max(hi, 0), 100 * rate);
    if volume == 100 {
      assert lo * rate * 100 == lo * (100 * rate) && hi * rate * 100 == hi * (100 * rate);
      TruncatedBetween(lo, x, hi, 100 * rate);
    }
  }

  lemma NegatedProduct(a: int, b: int, c: int)
    ensures -a * b * c == -(a * b * c)
  {
  }

  /** For a bound that is not positive, scaling by at most 100 percent does not pass it. */
  lemma VolumeShrinks(bound: int, lo: int, rate: nat, volume: nat)
    requires bound <= 0 && bound <= lo && volume <= 100
    ensures bound * (100 * rate) <= lo * rate * volume
  {
    assert bound * rate <= lo * rate;
    assert bound * rate <= 0;
    assert bound * rate * 100 <= bound * rate * volume;
    assert bound * rate * volume <= lo * rate * volume;
    assert bound * (100 * rate) == bound * rate * 100;
  }

  lemma SampleFits(v: Voice, rate: nat, i: nat, side: nat)
    requires WellFormed(v) && rate > 0 && side < 2
    ensures -32768 <= Sample(v, rate, i, side) <= 32767
  {
    if Contributes(v, rate, i) {
      hide Level;
      var place := SourcePlace(v, rate, i);
      IndicesInRange(v, rate, place, side);
      var first := FirstFrame(place, rate);
      LevelStaysBetween(v.samples.value[SampleIndex(v, first, side)],
                        v.samples.value[SampleIndex(v, SecondFrame(v, first), side)], place % rate, rate, v.volume);
    }
  }

  lemma {:induction false} SumFits(voices: seq<Voice>, rate: nat, i: nat, side: nat)
    requires AllWellFormed(voices) && rate > 0 && side < 2
    ensures -32768 * |voices| <= Sum(voices, rate, i, side) <= 32767 * |voices|
    decreases |voices|
  {
    hide Sample;
    if voices != [] {
      SampleFits(voices[0], rate, i, side);
      SumFits(voices[1..], rate, i, side);
    }
  }

  // ----- what is heard, sample by sample ------------------------------------

  ghost predicate IsWholePart(q: int, x: nat, d: nat) {
    q >= 0 && 0 <= x - q * d < d
  }

  /** y is x / d without its fraction. */
  ghost predicate IsQuotient(y: int, x: int, d: nat) {
    if x >= 0 then IsWholePart(y, x, d) else IsWholePart(-y, -x, d)
  }

  lemma WholePart(x: nat, d: nat)
    requires d > 0
    ensures IsWholePart(x / d, x, d)
  {
    DivLower(x, 0, d);
    assert x == x / d * d + x % d;
  }

  lemma TruncatedIsQuotient(x: int, d: nat)
    requires d > 0
    ensures IsQuotient(Truncated(x, d), x, d)
  {
    hide IsWholePart;
    WholePart(if x >= 0 then x else -x, d);
  }

  /** Between two source frames a voice is their weighted mean scaled by the volume: left and right are the even
      and the odd samples of a stereo voice and the same of any other; after the last frame comes the first of a
      looping voice, and the last again of a one-shot voice. */
  lemma SampleIsInterpolated(v: Voice, rate: nat, i: nat, side: nat)
    requires WellFormed(v) && rate > 0 && side < 2
    requires !v.paused && !v.finished && v.samples.Some? && v.channels > 0 && v.sampleRate >= 0
    requires |v.samples.value| / v.channels > 0
    requires v.loop || v.position + i * v.sampleRate < |v.samples.value| / v.channels * rate
    ensures var s, n := v.samples.value, |v.samples.value| / v.channels;
      var place := v.position + i * v.sampleRate;
      n * rate > 0 &&
      var at := if v.loop then place % (n * rate) else place;
      var k, part := at / rate, at % rate;
      var next := if k + 1 < n then k + 1 else if v.loop then 0 else k;
      && 0 <= k < n && (v.channels == 2 ==> 2 * n <= |s|) && n <= |s|
      && var a := if v.channels == 2 then s[2 * k + side] else s[k];
         var b := if v.channels == 2 then s[2 * next + side] else s[next];
         IsQuotient(Sample(v, rate, i, side), (a * (rate - part) + b * part) * v.volume, 100 * rate)
  {
    hide Truncated, IsQuotient;
    EndPositive(v, rate);
    var at := SourcePlace(v, rate, i);
    IndicesInRange(v, rate, at, side);
    var n, k := Frames(v), at / rate;
    FrameInRange(|v.samples.value|, v.channels, n - 1);
    var next := SecondFrame(v, k);
    assert next == (if k + 1 < n then k + 1 else if v.loop then 0 else k) by {
      NextFrame(v, k);
    }
    var a, b := v.samples.value[SampleIndex(v, k, side)], v.samples.value[SampleIndex(v, next, side)];
    TruncatedIsQuotient((a * (rate - at % rate) + b * (at % rate)) * v.volume, 100 * rate);
  }

  lemma NextFrame(v: Voice, k: nat)
    requires WellFormed(v) && k < Frames(v)
    ensures SecondFrame(v, k) == if k + 1 < Frames(v) then k + 1 else if v.loop then 0 else k
  {
  }

  /** A voice that is paused, has ended, or has no whole frame is not heard, nor a one-shot voice past its end. */
  lemma SilentWhen(v: Voice, rate: nat, i: nat, side: nat)
    requires WellFormed(v) && rate > 0 && side < 2
    requires v.paused || v.finished || v.samples.None? || v.channels <= 0 || |v.samples.value| < v.channels
             || (!v.loop && v.sampleRate >= 0
                 && v.position + i * v.sampleRate >= |v.samples.value| / v.channels * rate)
    ensures Sample(v, rate, i, side) == 0
  {
    if v.samples.Some? && v.channels > 0 && |v.samples.value| < v.channels {
      assert |v.samples.value| / v.channels == 0;
    }
  }

  /** Each output value is the sum of what the voices add, held at the ends of the 16-bit range. */
  lemma OutputIsHeldSum(voices: seq<Voice>, rate: nat, n: nat, i: nat, side: nat)
    requires AllWellFormed(voices) && rate > 0 && i < n && side < 2
    ensures Sum([], rate, i, side) == 0
    ensures var x, y := Sum(voices, rate, i, side), Output(voices, rate, n)[2 * i + side];
      && (-32768 <= x <= 32767 ==> y == x) && (x > 32767 ==> y == 32767) && (x < -32768 ==> y == -32768)
  {
    var k := 2 * i + side;
    assert k / 2 == i && k % 2 == side;
    assert Output(voices, rate, n)[k] == Saturated(Sum(voices, rate, k / 2, k % 2));
  }

  /** At the output's own rate and full volume a voice started at the beginning is heard bit for bit: each side
      its own samples, a mono voice on both sides, and a looping voice over and over. */
  lemma NativeRateIsExact(v: Voice, rate: nat, i: nat, side: nat)
    requires WellFormed(v) && Sounding(v) && v.sampleRate == rate > 0 && v.volume == 100 && v.position == 0
    requires side < 2 && (v.loop || i < Frames(v))
    ensures var frame := i % Frames(v);
      SampleIndex(v, frame, side) < |v.samples.value|
      && Sample(v, rate, i, side) == v.samples.value[SampleIndex(v, frame, side)]
  {
    hide Level;
    NativePlace(v, rate, i);
    var frame := i % Frames(v);
    IndicesInRange(v, rate, frame * rate, side);
    var s0, s1 := v.samples.value[SampleIndex(v, frame, side)],
                  v.samples.value[SampleIndex(v, SecondFrame(v, frame), side)];
    WholeFrame(s0, s1, rate);
  }

  /** Played alone, such a voice comes out of the whole mixer unchanged. */
  lemma SoloIsExact(v: Voice, rate: nat, n: nat, i: nat, side: nat)
    requires WellFormed(v) && Sounding(v) && v.sampleRate == rate > 0 && v.volume == 100 && v.position == 0
    requires side < 2 && i < n && (v.loop || i < Frames(v))
    ensures var frame := i % Frames(v);
      && SampleIndex(v, frame, side) < |v.samples.value|
      && i * 2 + side < |Output([v], rate, n)|
      && Output([v], rate, n)[i * 2 + side] == v.samples.value[SampleIndex(v, frame, side)]
  {
    hide Sample;
    NativeRateIsExact(v, rate, i, side);
    var k := i * 2 + side;
    assert k / 2 == i && k % 2 == side;
    assert Output([v], rate, n)[k] == Saturated(Sum([v], rate, k / 2, k % 2));
    assert [v][1..] == [];
    assert Sum([v], rate, i, side) == Sample(v, rate, i, side) + Sum([], rate, i, side);
  }

  lemma NativePlace(v: Voice, rate: nat, i: nat)
    requires WellFormed(v) && Sounding(v) && v.sampleRate == rate > 0 && v.position == 0
    requires v.loop || i < Frames(v)
    ensures Contributes(v, rate, i)
    ensures var frame := i % Frames(v);
      SourcePlace(v, rate, i) == frame * rate < End(v, rate)
      && frame * rate / rate == frame && frame * rate % rate == 0
  {
    hide Frames;
    var n := Frames(v);
    var frame, laps := i % n, i / n;
    FrameStarts(frame, n, rate);
    assert PlaceAt(v, i) == i * rate;
    if v.loop {
      LapsAndRest(i, laps, n, frame, rate);
      Remainder(laps, frame * rate, n * rate);
    } else {
      Remainder(0, i, n);
    }
  }

  lemma FrameStarts(frame: nat, n: nat, rate: nat)
    requires frame < n && rate > 0
    ensures frame * rate < n * rate && frame * rate / rate == frame && frame * rate % rate == 0
  {
    ProductOrder(n, frame + 1, rate);
    Remainder(frame, 0, rate);
  }

  lemma LapsAndRest(i: nat, laps: nat, n: nat, frame: nat, rate: nat)
    requires i == laps * n + frame
    ensures i * rate == laps * (n * rate) + frame * rate
  {
    assert laps * n * rate == laps * (n * rate);
  }

  lemma WholeFrame(s0: int16, s1: int16, rate: nat)
    requires rate > 0
    ensures Level(s0, s1, 0, rate, 100) == s0
  {
    TruncatedBetween(s0, s0 * rate * 100, s0, 100 * rate);
  }

  ghost predicate FitsAccumulator(voices: seq<Voice>, rate: nat, i: nat, side: nat)
    requires AllWellFormed(voices) && rate > 0 && side < 2
  {
    -0x8000_0000 <= Sum(voices, rate, i, side) < 0x8000_0000
  }

  /** A voice that holds the lowest sample for ever, at full volume. */
  const LOUDEST := Voice(0, Some([-32768]), 1, 1, true, 100, false, 0, false)

  lemma LoudestSample(rate: nat)
    requires rate > 0
    ensures Sample(LOUDEST, rate, 0, 0) == -32768
  {
    hide Level, Sample;
    OneFrame(LOUDEST, rate);
    LevelStaysBetween(-32768, -32768, 0, rate, 100);
  }

  /** A looping voice of one mono frame is read at that frame. */
  lemma OneFrame(v: Voice, rate: nat)
    requires rate > 0 && v.channels == 1 && v.volume == 100 && Sounding(v) && v.loop && v.position == 0
    requires |v.samples.value| == 1
    ensures Sample(v, rate, 0, 0) == Level(v.samples.value[0], v.samples.value[0], 0, rate, 100)
  {
    hide Level;
    assert Frames(v) == 1;
    assert PlaceAt(v, 0) == 0;
    Remainder(0, 0, rate);
    assert SourcePlace(v, rate, 0) == 0;
    IndicesInRange(v, rate, 0, 0);
  }

  function Loudest(n: nat): (voices: seq<Voice>)
    ensures AllWellFormed(voices) && |voices| == n
  {
    if n == 0 then [] else [LOUDEST] + Loudest(n - 1)
  }

  lemma {:induction false} LoudestSum(n: nat, rate: nat)
    requires rate > 0
    ensures Sum(Loudest(n), rate, 0, 0) == -32768 * n
  {
    hide Sample;
    if n > 0 {
      LoudestSample(rate);
      LoudestSum(n - 1, rate);
      assert Loudest(n)[1..] == Loudest(n - 1);
    }
  }

  /** The 32-bit accumulator is safe for every set of n voices exactly up to 65536 of them. */
  lemma AccumulatorFitsIff(n: nat, rate: nat)
    requires rate > 0
    ensures n <= 65536 <==>
            forall voices, i: nat, side: nat :: AllWellFormed(voices) && |voices| == n && side < 2 ==>
              FitsAccumulator(voices, rate, i, side)
  {
    if n <= 65536 {
      forall voices, i: nat, side: nat | AllWellFormed(voices) && |voices| == n && side < 2
        ensures FitsAccumulator(voices, rate, i, side)
      {
        SumFits(voices, rate, i, side);
      }
    } else {
      LoudestSum(n, rate);
      assert !FitsAccumulator(Loudest(n), rate, 0, 0);
    }
  }

  // ----- the order of voices ----------------------------------------------

  lemma {:induction false} SumOfSplit(a: seq<Voice>, v: Voice, b: seq<Voice>, rate: nat, i: nat, side: nat)
    requires AllWellFormed(a) && WellFormed(v) && AllWellFormed(b) && rate > 0 && side < 2
    ensures AllWellFormed(a + [v] + b) && AllWellFormed(a + b)
    ensures Sum(a + [v] + b, rate, i, side) == Sample(v, rate, i, side) + Sum(a + b, rate, i, side)
    decreases |a|
  {
    hide Sample;
    if a == [] {
      assert (a + [v] + b)[1..] == b && a + b == b;
    } else {
      assert (a + [v] + b)[1..] == a[1..] + [v] + b && (a + b)[1..] == a[1..] + b;
      SumOfSplit(a[1..], v, b, rate, i, side);
    }
  }

  lemma {:induction false} SumIgnoresOrder(x: seq<Voice>, y: seq<Voice>, rate: nat, i: nat, side: nat)
    requires AllWellFormed(x) && AllWellFormed(y) && rate > 0 && side < 2
    requires multiset(x) == multiset(y)
    ensures Sum(x, rate, i, side) == Sum(y, rate, i, side)
    decreases |x|
  {
    hide Sample;
    if x == [] {
      assert |multiset(y)| == |y| == 0;
    } else {
      assert x[0] in multiset(y);
      var k :| 0 <= k < |y| && y[k] == x[0];
      var rest := y[..k] + y[k + 1..];
      assert y == y[..k] + [y[k]] + y[k + 1..];
      SumOfSplit(y[..k], y[k], y[k + 1..], rate, i, side);
      SameRest(x, y, k);
      SumIgnoresOrder(x[1..], rest, rate, i, side);
    }
  }

  lemma SameRest(x: seq<Voice>, y: seq<Voice>, k: nat)
    requires multiset(x) == multiset(y) && x != [] && k < |y| && y[k] == x[0]
    ensures multiset(x[1..]) == multiset(y[..k] + y[k + 1..])
  {
    var rest := y[..k] + y[k + 1..];
    assert x == [x[0]] + x[1..];
    assert y == y[..k] + [y[k]] + y[k + 1..];
    assert multiset(y) == multiset(rest) + multiset{x[0]};
    assert multiset(x) == multiset(x[1..]) + multiset{x[0]};
    assert multiset(x) - multiset{x[0]} == multiset(x[1..]);
    assert multiset(y) - multiset{x[0]} == multiset(rest);
  }

  /** The output depends on which voices play, not on the order they were started in. */
  lemma OutputIgnoresOrder(x: seq<Voice>, y: seq<Voice>, rate: nat, n: nat)
    requires AllWellFormed(x) && AllWellFormed(y) && rate > 0 && multiset(x) == multiset(y)
    ensures Output(x, rate, n) == Output(y, rate, n)
  {
    forall k | 0 <= k < n * 2 ensures Output(x, rate, n)[k] == Output(y, rate, n)[k] {
      SumIgnoresOrder(x, y, rate, k / 2, k % 2);
    }
  }
}
