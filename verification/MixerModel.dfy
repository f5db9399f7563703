/** The software mixer with exact positions: a voice's place is counted in units of
    1 / output rate of a source frame, so every resampling step is a whole number. */
module MixerModel {
  import opened HostTypes
  import opened IntegerLaws

  datatype Voice = Voice(
    id: uint32, samples: Option<seq<int16>>, channels: int, sampleRate: int,
    loop: bool, volume: nat, paused: bool, position: nat, finished: bool)

  predicate WellFormed(v: Voice) {
    v.volume <= 100
  }

  ghost predicate AllWellFormed(voices: seq<Voice>) {
    forall i :: 0 <= i < |voices| ==> WellFormed(voices[i])
  }

  /** Mixing a voice with samples divides by its channel count and must not step backward. */
  predicate Mixable(v: Voice) {
    v.paused || v.finished || v.samples.None? || (v.channels != 0 && v.sampleRate >= 0)
  }

  // ----- one voice --------------------------------------------------------

  /** A negative channel count, as an unsigned size, leaves no whole frame. */
  function Frames(v: Voice): nat
    requires WellFormed(v)
  {
    if v.samples.None? || v.channels <= 0 then 0 else |v.samples.value| / v.channels
  }

  /** The voice's end, in position units. */
  function End(v: Voice, rate: nat): nat
    requires WellFormed(v)
  {
    Frames(v) * rate
  }

  predicate Sounding(v: Voice)
    requires WellFormed(v)
  {
    !v.paused && !v.finished && Frames(v) > 0
  }

  /** How far one output frame moves the voice. */
  function Pace(v: Voice): nat {
    if v.sampleRate < 0 then 0 else v.sampleRate
  }

  /** Where output frame i of a call reads. */
  function PlaceAt(v: Voice, i: nat): nat {
    v.position + i * Pace(v)
  }

  predicate Contributes(v: Voice, rate: nat, i: nat)
    requires WellFormed(v)
  {
    Sounding(v) && (v.loop || PlaceAt(v, i) < End(v, rate))
  }

  lemma EndPositive(v: Voice, rate: nat)
    requires WellFormed(v) && rate > 0 && Frames(v) > 0
    ensures End(v, rate) > 0
  {
    assert Frames(v) * rate >= 1 * rate;
  }

  function SourcePlace(v: Voice, rate: nat, i: nat): nat
    requires WellFormed(v) && rate > 0 && Frames(v) > 0
  {
    EndPositive(v, rate);
    if v.loop then PlaceAt(v, i) % End(v, rate) else PlaceAt(v, i)
  }

  function FirstFrame(place: nat, rate: nat): nat
    requires rate > 0
  {
    place / rate
  }

  function SecondFrame(v: Voice, first: nat): nat
    requires WellFormed(v) && Frames(v) > 0
  {
    if v.loop then (first + 1) % Frames(v) else if first + 1 < Frames(v) then first + 1 else Frames(v) - 1
  }

  function SampleIndex(v: Voice, frame: nat, side: nat): nat {
    if v.channels == 2 then frame * 2 + side else frame
  }

  /** Division that drops the fraction, toward zero. */
  function Truncated(x: int, d: nat): int
    requires d > 0
  {
    if x >= 0 then x / d else -(-x / d)
  }

  /** Linear interpolation between two samples, `part` of `rate` of the way, scaled by the volume. */
  function Level(s0: int16, s1: int16, part: nat, rate: nat, volume: nat): int
    requires part < rate
  {
    Truncated((s0 * (rate - part) + s1 * part) * volume, 100 * rate)
  }

  /** Both frames interpolated between exist while the place is before the voice's end. */
  lemma IndicesInRange(v: Voice, rate: nat, place: nat, side: nat)
    requires WellFormed(v) && rate > 0 && place < End(v, rate) && side < 2
    ensures Frames(v) > 0
    ensures var first := FirstFrame(place, rate);
      && first < Frames(v) && SecondFrame(v, first) < Frames(v)
      && SampleIndex(v, first, side) < |v.samples.value|
      && SampleIndex(v, SecondFrame(v, first), side) < |v.samples.value|
  {
    BelowProduct(place, Frames(v), rate);
    FrameInRange(|v.samples.value|, v.channels, FirstFrame(place, rate));
    FrameInRange(|v.samples.value|, v.channels, SecondFrame(v, FirstFrame(place, rate)));
  }

  lemma FrameInRange(size: nat, channels: nat, frame: nat)
    requires channels > 0 && frame < size / channels
    ensures frame < size
    ensures channels == 2 ==> frame * 2 + 1 < size
  {
    var n := size / channels;
    assert n * channels <= size;
    ProductOrder(n, frame + 1, channels);
    ProductOrder(channels, 1, frame + 1);
  }

  /** The interpolated value of one side at a place before the end. */
  function Interpolated(v: Voice, rate: nat, place: nat, side: nat): int
    requires WellFormed(v) && rate > 0 && place < End(v, rate) && side < 2
  {
    IndicesInRange(v, rate, place, side);
    var first := FirstFrame(place, rate);
    Level(v.samples.value[SampleIndex(v, first, side)],
          v.samples.value[SampleIndex(v, SecondFrame(v, first), side)],
          place % rate, rate, v.volume)
  }

  /** What a voice adds to one side of output frame i. */
  function Sample(v: Voice, rate: nat, i: nat, side: nat): int
    requires WellFormed(v) && rate > 0 && side < 2
  {
    if !Contributes(v, rate, i) then 0 else Interpolated(v, rate, SourcePlace(v, rate, i), side)
  }

  /** A one-shot voice stops moving at the first place at or past its end. */
  function Walk(place: nat, step: nat, end: nat, n: nat): nat
    decreases n
  {
    if n == 0 || place >= end then place else Walk(place + step, step, end, n - 1)
  }

  /** The voice after n output frames. */
  function Advance(v: Voice, rate: nat, n: nat): (w: Voice)
    requires WellFormed(v) && rate > 0
    ensures WellFormed(w)
  {
    if !Sounding(v) then v
    else if v.loop then
      EndPositive(v, rate);
      v.(position := PlaceAt(v, n) % End(v, rate))
    else
      var place := Walk(v.position, Pace(v), End(v, rate), n);
      v.(position := place, finished := place >= End(v, rate))
  }

  // ----- all voices -------------------------------------------------------

  function Sum(voices: seq<Voice>, rate: nat, i: nat, side: nat): int
    requires AllWellFormed(voices) && rate > 0 && side < 2
  {
    if voices == [] then 0
    else Sample(voices[0], rate, i, side) + Sum(voices[1..], rate, i, side)
  }

  function Saturated(x: int): int16 {
    if x < -32768 then -32768 else if x > 32767 then 32767 else x
  }

  /** The interleaved stereo output of one call. */
  function Output(voices: seq<Voice>, rate: nat, n: nat): (out: seq<int16>)
    requires AllWellFormed(voices) && rate > 0
    ensures |out| == n * 2
  {
    seq(n * 2, k requires 0 <= k < n * 2 => Saturated(Sum(voices, rate, k / 2, k % 2)))
  }

  function AdvanceAll(voices: seq<Voice>, rate: nat, n: nat): (r: seq<Voice>)
    requires AllWellFormed(voices) && rate > 0
    ensures AllWellFormed(r)
  {
    if voices == [] then []
    else
      var v := Advance(voices[0], rate, n);
      (if v.finished then [] else [v]) + AdvanceAll(voices[1..], rate, n)
  }

  function Pausing(voices: seq<Voice>, id: uint32, paused: bool): (r: seq<Voice>)
    ensures |r| == |voices| && (AllWellFormed(voices) ==> AllWellFormed(r))
  {
    seq(|voices|, k requires 0 <= k < |voices| =>
      if voices[k].id == id then voices[k].(paused := paused) else voices[k])
  }
}
