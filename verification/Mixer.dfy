/** The mixer object: a list of voices changed in place, and the mixing loops. */
module Mixer {
  import opened HostTypes
  import opened IntegerLaws
  import opened MixerModel
  import opened MixerLaws

  function Clamped(volume: int): nat {
    if volume < 0 then 0 else if volume > 100 then 100 else volume
  }

  /** The volume set is the percentage nearest to the one asked for. */
  lemma ClampedIsNearest(volume: int, other: nat)
    requires other <= 100
    ensures Clamped(volume) <= 100
    ensures var c := Clamped(volume);
      Max(c - volume, volume - c) <= Max(other - volume, volume - other)
  {
  }

  class Mixer {
    const rate: nat
    var voices: seq<Voice>
    var nextId: uint32

    ghost predicate Valid()
      reads this
    {
      rate > 0 && AllWellFormed(voices)
    }

    constructor (rate: nat)
      requires rate > 0
      ensures Valid() && this.rate == rate && voices == [] && nextId == 1
    {
      this.rate, voices, nextId := rate, [], 1;
    }

    method Play(samples: Option<seq<int16>>, channels: int, sampleRate: int, loop: bool, volume: int)
      returns (id: uint32)
      requires Valid()
      modifies this
      ensures Valid() && id == old(nextId) && nextId == (id + 1) % TWO32
      ensures voices == old(voices) + [Voice(id, samples, channels, sampleRate, loop, Clamped(volume), false, 0, false)]
    {
      id := nextId;
      nextId := (nextId + 1) % TWO32;
      voices := voices + [Voice(id, samples, channels, sampleRate, loop, Clamped(volume), false, 0, false)];
    }

    method SetVolume(id: uint32, volume: int)
      requires Valid()
      modifies this`voices
      ensures Valid() && |voices| == |old(voices)|
      ensures forall k :: 0 <= k < |voices| ==>
        voices[k] == if old(voices)[k].id == id then old(voices)[k].(volume := Clamped(volume)) else old(voices)[k]
    {
      for i := 0 to |voices|
        invariant Valid() && |voices| == |old(voices)|
        invariant forall k :: 0 <= k < i ==>
          voices[k] == if old(voices)[k].id == id then old(voices)[k].(volume := Clamped(volume)) else old(voices)[k]
        invariant forall k :: i <= k < |voices| ==> voices[k] == old(voices)[k]
      {
        if voices[i].id == id {
          voices := voices[i := voices[i].(volume := Clamped(volume))];
        }
      }
    }

    method SetPaused(id: uint32, paused: bool)
      requires Valid()
      modifies this`voices
      ensures Valid() && voices == Pausing(old(voices), id, paused) && |voices| == |old(voices)|
      ensures forall k :: 0 <= k < |voices| ==>
        voices[k] == if old(voices)[k].id == id then old(voices)[k].(paused := paused) else old(voices)[k]
    {
      for i := 0 to |voices|
        invariant Valid() && |voices| == |old(voices)|
        invariant forall k :: 0 <= k < i ==>
          voices[k] == Pausing(old(voices), id, paused)[k]
        invariant forall k :: i <= k < |voices| ==> voices[k] == old(voices)[k]
      {
        if voices[i].id == id {
          voices := voices[i := voices[i].(paused := paused)];
        }
      }
    }

    method Stop(id: uint32)
      requires Valid()
      modifies this`voices
      ensures Valid() && voices == Others(old(voices), id)
    {
      hide Others;
      var kept := [];
      for i := 0 to |voices|
        invariant voices == old(voices) && AllWellFormed(kept)
        invariant Others(voices, id) == kept + Others(voices[i..], id)
      {
        OthersHead(voices[i..], id);
        assert voices[i..][1..] == voices[i + 1..];
        if voices[i].id != id {
          kept := kept + [voices[i]];
        }
      }
      NoOthers(id);
      voices := kept;
    }

    method IsPlaying(id: uint32) returns (playing: bool)
      requires Valid()
      ensures playing <==> exists k :: 0 <= k < |voices| && voices[k].id == id && !voices[k].finished
                                       && forall j :: 0 <= j < k ==> voices[j].id != id
    {
      for i := 0 to |voices|
        invariant forall k :: 0 <= k < i ==> voices[k].id != id
      {
        if voices[i].id == id {
          return !voices[i].finished;
        }
      }
      return false;
    }

    /** Emits n stereo frames, moves every sounding voice on, and drops those that have ended. */
    method Mix(n: nat) returns (out: array<int>)
      requires Valid() && forall k :: 0 <= k < |voices| ==> Mixable(voices[k])
      modifies this`voices
      ensures fresh(out) && out[..] == Output(old(voices), rate, n)
      ensures Valid() && voices == AdvanceAll(old(voices), rate, n)
    {
      hide Advance, Sample, AdvanceAll;
      var accum := new int[n * 2](_ => 0);
      ghost var before := voices;
      for v := 0 to |voices|
        invariant |voices| == |before|
        invariant forall k :: 0 <= k < v ==> voices[k] == Advance(before[k], rate, n)
        invariant forall k :: v <= k < |before| ==> voices[k] == before[k]
        invariant Holds(accum, before[..v], rate, n)
      {
        SumOneMore(before[..v], before[v], rate, n);
        assert before[..v + 1] == before[..v] + [before[v]];
        if Sounding(voices[v]) {
          var moved := AddVoice(accum, voices[v], before[..v], n);
          voices := voices[v := moved];
        } else {
          SilentVoice(voices[v], rate, n);
        }
      }
      assert before[..|before|] == before;
      ghost var moved := voices;
      voices := Unfinished(voices);
      UnfinishedIsAdvanceAll(before, moved, rate, n);
      out := new int[n * 2](_ => 0);
      for k := 0 to n * 2
        invariant voices == AdvanceAll(before, rate, n)
        invariant Holds(accum, before, rate, n)
        invariant out[..k] == Output(before, rate, n)[..k]
      {
        out[k] := Saturated(accum[k]);
      }
    }

    /** Adds one sounding voice to the accumulator and returns it moved on by n frames. */
    method AddVoice(accum: array<int>, voice: Voice, ghost others: seq<Voice>, n: nat) returns (moved: Voice)
      requires rate > 0 && WellFormed(voice) && Sounding(voice) && Mixable(voice) && AllWellFormed(others)
      requires Holds(accum, others, rate, n)
      modifies accum
      ensures moved == Advance(voice, rate, n)
      ensures forall k :: 0 <= k < n * 2 ==>
        accum[k] == Sum(others, rate, k / 2, k % 2) + Sample(voice, rate, k / 2, k % 2)
    {
      hide Sum, Level, SampleIndex, SecondFrame;
      var end := Frames(voice) * rate;
      EndPositive(voice, rate);
      var pos := voice.position;
      var i := 0;
      while i < n && (voice.loop || pos < end)
        invariant i <= n && pos == PlaceAt(voice, i)
        invariant !voice.loop ==>
          Walk(voice.position, voice.sampleRate, end, n) == Walk(pos, voice.sampleRate, end, n - i)
        invariant forall k :: 0 <= k < i * 2 ==>
          accum[k] == Sum(others, rate, k / 2, k % 2) + Sample(voice, rate, k / 2, k % 2)
        invariant forall k :: i * 2 <= k < n * 2 ==> accum[k] == Sum(others, rate, k / 2, k % 2)
      {
        AddFrame(accum, voice, pos, i);
        StepsAdd(i, 1, voice.sampleRate);
        pos := pos + voice.sampleRate;
        i := i + 1;
      }
      NothingPastEnd(voice, rate, i, n);
      if voice.loop {
        moved := voice.(position := pos % end);
      } else {
        moved := voice.(position := pos, finished := pos >= end);
      }
    }

    /** Adds the interpolated left and right values of output frame i. */
    method AddFrame(accum: array<int>, voice: Voice, pos: nat, i: nat)
      requires rate > 0 && WellFormed(voice) && Contributes(voice, rate, i) && pos == PlaceAt(voice, i)
      requires i * 2 + 1 < accum.Length
      modifies accum
      ensures forall k :: 0 <= k < accum.Length ==>
        accum[k] == old(accum[k]) + if k / 2 == i then Sample(voice, rate, i, k % 2) else 0
    {
      hide Level;
      EndPositive(voice, rate);
      IndicesInRange(voice, rate, SourcePlace(voice, rate, i), 0);
      IndicesInRange(voice, rate, SourcePlace(voice, rate, i), 1);
      var samples := voice.samples.value;
      var place := if voice.loop then pos % (Frames(voice) * rate) else pos;
      var frame0, part := place / rate, place % rate;
      var frames := Frames(voice);
      var frame1 := if voice.loop then (frame0 + 1) % frames
                    else if frame0 + 1 < frames then frame0 + 1 else frames - 1;
      var left, right;
      if voice.channels == 2 {
        left := Level(samples[frame0 * 2], samples[frame1 * 2], part, rate, voice.volume);
        right := Level(samples[frame0 * 2 + 1], samples[frame1 * 2 + 1], part, rate, voice.volume);
      } else {
        left := Level(samples[frame0], samples[frame1], part, rate, voice.volume);
        right := left;
      }
      assert left == Sample(voice, rate, i, 0) && right == Sample(voice, rate, i, 1);
      accum[i * 2] := accum[i * 2] + left;
      accum[i * 2 + 1] := accum[i * 2 + 1] + right;
    }
  }

  lemma SumOneMore(others: seq<Voice>, v: Voice, rate: nat, n: nat)
    requires AllWellFormed(others) && WellFormed(v) && rate > 0
    ensures AllWellFormed(others + [v])
    ensures forall k :: 0 <= k < n * 2 ==>
      Sum(others + [v], rate, k / 2, k % 2) == Sum(others, rate, k / 2, k % 2) + Sample(v, rate, k / 2, k % 2)
  {
    assert others + [v] + [] == others + [v] && others + [] == others;
    forall k | 0 <= k < n * 2
      ensures Sum(others + [v], rate, k / 2, k % 2) == Sum(others, rate, k / 2, k % 2) + Sample(v, rate, k / 2, k % 2)
    {
      SumOfSplit(others, v, [], rate, k / 2, k % 2);
    }
  }

  lemma SilentVoice(v: Voice, rate: nat, n: nat)
    requires WellFormed(v) && rate > 0 && !Sounding(v)
    ensures Advance(v, rate, n) == v
    ensures forall k :: 0 <= k < n * 2 ==> Sample(v, rate, k / 2, k % 2) == 0
  {
  }

  /** Once a one-shot voice has reached its end it adds nothing more. */
  lemma NothingPastEnd(v: Voice, rate: nat, i: nat, n: nat)
    requires WellFormed(v) && rate > 0 && i <= n
    requires i == n || (!v.loop && PlaceAt(v, i) >= End(v, rate))
    ensures forall k :: i * 2 <= k < n * 2 ==> Sample(v, rate, k / 2, k % 2) == 0
  {
    forall k | i * 2 <= k < n * 2 ensures Sample(v, rate, k / 2, k % 2) == 0 {
      ProductOrder(k / 2, i, Pace(v));
    }
  }

  function Unfinished(voices: seq<Voice>): seq<Voice> {
    if voices == [] then [] else (if voices[0].finished then [] else [voices[0]]) + Unfinished(voices[1..])
  }

  lemma {:induction false} UnfinishedIsAdvanceAll(before: seq<Voice>, moved: seq<Voice>, rate: nat, n: nat)
    requires AllWellFormed(before) && rate > 0 && |moved| == |before|
    requires forall k :: 0 <= k < |moved| ==> moved[k] == Advance(before[k], rate, n)
    ensures Unfinished(moved) == AdvanceAll(before, rate, n)
    decreases |before|
  {
    hide Advance;
    if before != [] {
      UnfinishedIsAdvanceAll(before[1..], moved[1..], rate, n);
    }
  }

  function Others(voices: seq<Voice>, id: uint32): seq<Voice> {
    if voices == [] then [] else (if voices[0].id == id then [] else [voices[0]]) + Others(voices[1..], id)
  }

  lemma OthersHead(voices: seq<Voice>, id: uint32)
    requires voices != []
    ensures Others(voices, id) == (if voices[0].id == id then [] else [voices[0]]) + Others(voices[1..], id)
  {
  }

  /** Stopping keeps exactly the voices of other identifiers, in order. */
  lemma {:induction false} OthersAreKept(a: seq<Voice>, v: Voice, b: seq<Voice>, id: uint32)
    ensures Others([], id) == []
    ensures Others(a + [v] + b, id) == Others(a, id) + (if v.id == id then [] else [v]) + Others(b, id)
    decreases |a|
  {
    if a == [] {
      assert ([v] + b)[1..] == b && a + [v] + b == [v] + b;
    } else {
      assert (a + [v] + b)[1..] == a[1..] + [v] + b && (a + [v] + b)[0] == a[0];
      OthersAreKept(a[1..], v, b, id);
      OthersHead(a, id);
      OthersHead(a + [v] + b, id);
    }
  }

  lemma NoOthers(id: uint32)
    ensures Others([], id) == []
  {
  }

  /** The accumulator holds the sum of these voices for every output frame and side. */
  ghost predicate Holds(accum: array<int>, voices: seq<Voice>, rate: nat, n: nat)
    requires AllWellFormed(voices) && rate > 0
    reads accum
  {
    accum.Length == n * 2 && forall k :: 0 <= k < n * 2 ==> accum[k] == Sum(voices, rate, k / 2, k % 2)
  }
}
