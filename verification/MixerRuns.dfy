/** Voices over whole sequences of mixing and pausing: each lives its own life, and a one-shot voice is heard for
    exactly as many unpaused frames as it has audio. */
module MixerRuns {
  import opened HostTypes
  import opened IntegerLaws
  import opened MixerModel
  import opened MixerLaws

  datatype Call = MixCall(frames: nat) | PauseCall(id: uint32, paused: bool)

  function StepAll(voices: seq<Voice>, rate: nat, c: Call): (r: seq<Voice>)
    requires AllWellFormed(voices) && rate > 0
    ensures AllWellFormed(r)
  {
    match c
    case MixCall(n) => AdvanceAll(voices, rate, n)
    case PauseCall(id, paused) => Pausing(voices, id, paused)
  }

  function RunAll(voices: seq<Voice>, rate: nat, calls: seq<Call>): (r: seq<Voice>)
    requires AllWellFormed(voices) && rate > 0
    ensures AllWellFormed(r)
    decreases |calls|
  {
    if calls == [] then voices else RunAll(StepAll(voices, rate, calls[0]), rate, calls[1..])
  }

  // ----- one voice at a time ----------------------------------------------

  function StepOne(v: Voice, rate: nat, c: Call): (w: Voice)
    requires WellFormed(v) && rate > 0
    ensures WellFormed(w)
  {
    match c
    case MixCall(n) => Advance(v, rate, n)
    case PauseCall(id, paused) => if v.id == id then v.(paused := paused) else v
  }

  function RunOne(v: Voice, rate: nat, calls: seq<Call>): (w: Voice)
    requires WellFormed(v) && rate > 0
    ensures WellFormed(w)
    decreases |calls|
  {
    if calls == [] then v else RunOne(StepOne(v, rate, calls[0]), rate, calls[1..])
  }

  function KeptIfUnfinished(v: Voice): seq<Voice> {
    if v.finished then [] else [v]
  }

  /** Each voice's own run, without those that finish. */
  function Survivors(voices: seq<Voice>, rate: nat, calls: seq<Call>): seq<Voice>
    requires AllWellFormed(voices) && rate > 0
  {
    if voices == [] then []
    else KeptIfUnfinished(RunOne(voices[0], rate, calls)) + Survivors(voices[1..], rate, calls)
  }

  lemma {:induction false} FinishedStays(v: Voice, rate: nat, calls: seq<Call>)
    requires WellFormed(v) && rate > 0 && v.finished
    ensures RunOne(v, rate, calls).finished
    decreases |calls|
  {
    if calls != [] {
      FinishedStays(StepOne(v, rate, calls[0]), rate, calls[1..]);
    }
  }

  lemma StepAllHead(voices: seq<Voice>, rate: nat, c: Call)
    requires AllWellFormed(voices) && rate > 0 && voices != [] && !voices[0].finished
    ensures StepAll(voices, rate, c)
            == KeptIfUnfinished(StepOne(voices[0], rate, c)) + StepAll(voices[1..], rate, c)
  {
    hide Advance;
  }

  lemma {:induction false} StepThenSurvive(voices: seq<Voice>, rate: nat, c: Call, later: seq<Call>)
    requires AllWellFormed(voices) && rate > 0 && forall k :: 0 <= k < |voices| ==> !voices[k].finished
    ensures Survivors(StepAll(voices, rate, c), rate, later) == Survivors(voices, rate, [c] + later)
    decreases |voices|
  {
    hide StepOne, Advance;
    if voices == [] {
      assert StepAll(voices, rate, c) == [];
    } else {
      var w, rest := StepOne(voices[0], rate, c), StepAll(voices[1..], rate, c);
      assert ([c] + later)[1..] == later;
      StepAllHead(voices, rate, c);
      StepThenSurvive(voices[1..], rate, c, later);
      if w.finished {
        FinishedStays(w, rate, later);
        assert [] + rest == rest;
        assert [] + Survivors(rest, rate, later) == Survivors(rest, rate, later);
      } else {
        assert ([w] + rest)[1..] == rest;
      }
    }
  }

  lemma StepLeavesUnfinished(voices: seq<Voice>, rate: nat, c: Call)
    requires AllWellFormed(voices) && rate > 0 && forall k :: 0 <= k < |voices| ==> !voices[k].finished
    ensures forall k :: 0 <= k < |StepAll(voices, rate, c)| ==> !StepAll(voices, rate, c)[k].finished
  {
    if c.MixCall? {
      AdvanceLeavesUnfinished(voices, rate, c.frames);
    }
  }

  lemma {:induction false} AdvanceLeavesUnfinished(voices: seq<Voice>, rate: nat, n: nat)
    requires AllWellFormed(voices) && rate > 0
    ensures forall k :: 0 <= k < |AdvanceAll(voices, rate, n)| ==> !AdvanceAll(voices, rate, n)[k].finished
  {
    hide Advance;
    if voices != [] {
      AdvanceLeavesUnfinished(voices[1..], rate, n);
    }
  }

  lemma {:induction false} NoCallsSurvive(voices: seq<Voice>, rate: nat)
    requires AllWellFormed(voices) && rate > 0 && forall k :: 0 <= k < |voices| ==> !voices[k].finished
    ensures Survivors(voices, rate, []) == voices
  {
    if voices != [] {
      NoCallsSurvive(voices[1..], rate);
    }
  }

  /** Mixing and pausing treat every voice on its own, whatever else plays. */
  lemma {:induction false} VoicesLiveAlone(voices: seq<Voice>, rate: nat, calls: seq<Call>)
    requires AllWellFormed(voices) && rate > 0 && forall k :: 0 <= k < |voices| ==> !voices[k].finished
    ensures RunAll(voices, rate, calls) == Survivors(voices, rate, calls)
    decreases |calls|
  {
    hide StepAll, Survivors;
    if calls == [] {
      NoCallsSurvive(voices, rate);
    } else {
      StepLeavesUnfinished(voices, rate, calls[0]);
      VoicesLiveAlone(StepAll(voices, rate, calls[0]), rate, calls[1..]);
      StepThenSurvive(voices, rate, calls[0], calls[1..]);
      assert [calls[0]] + calls[1..] == calls;
    }
  }

  // ----- how long a voice lasts -------------------------------------------

  /** Output frames mixed while the voice was not paused. */
  function Heard(id: uint32, paused: bool, calls: seq<Call>): nat
    decreases |calls|
  {
    if calls == [] then 0
    else match calls[0]
      case MixCall(n) => (if paused then 0 else n) + Heard(id, paused, calls[1..])
      case PauseCall(x, p) => Heard(id, if x == id then p else paused, calls[1..])
  }

  /** The one-shot voice v after h heard frames. */
  function AfterHearing(v: Voice, rate: nat, h: nat, paused: bool): (w: Voice)
    requires WellFormed(v) && rate > 0
    ensures WellFormed(w)
  {
    var place := Walk(0, Pace(v), End(v, rate), h);
    v.(position := place, finished := place >= End(v, rate), paused := paused)
  }

  lemma StepHears(v: Voice, rate: nat, h: nat, paused: bool, c: Call)
    requires WellFormed(v) && rate > 0 && !v.loop && Frames(v) > 0
    ensures StepOne(AfterHearing(v, rate, h, paused), rate, c)
            == match c
               case MixCall(n) => AfterHearing(v, rate, if paused then h else h + n, paused)
               case PauseCall(id, p) => AfterHearing(v, rate, h, if id == v.id then p else paused)
  {
    var w := AfterHearing(v, rate, h, paused);
    SameAudio(v, w);
    if c.MixCall? {
      WalkSplit(0, Pace(v), End(v, rate), h, c.frames);
      if w.finished {
        WalkStays(w.position, Pace(v), End(v, rate), c.frames);
      }
    }
  }

  lemma WalkStays(place: nat, step: nat, end: nat, n: nat)
    requires place >= end
    ensures Walk(place, step, end, n) == place
  {
  }

  lemma {:induction false} RunHears(v: Voice, rate: nat, h: nat, paused: bool, calls: seq<Call>) returns (last: bool)
    requires WellFormed(v) && rate > 0 && !v.loop && Frames(v) > 0
    ensures RunOne(AfterHearing(v, rate, h, paused), rate, calls)
            == AfterHearing(v, rate, h + Heard(v.id, paused, calls), last)
    decreases |calls|
  {
    hide StepOne, AfterHearing, Frames;
    if calls == [] {
      last := paused;
    } else {
      StepHears(v, rate, h, paused, calls[0]);
      match calls[0] {
        case MixCall(n) => last := RunHears(v, rate, if paused then h else h + n, paused, calls[1..]);
        case PauseCall(id, p) => last := RunHears(v, rate, h, if id == v.id then p else paused, calls[1..]);
      }
    }
  }

  /** Through any sequence of mixing and pausing, a one-shot voice started at the beginning is heard in exactly
      ceil(frames * output rate / its rate) unpaused output frames, and is retired by exactly the runs that mix
      as many. */
  lemma OneShotLifetime(v: Voice, rate: nat, calls: seq<Call>, i: nat)
    requires WellFormed(v) && rate > 0 && v.sampleRate > 0 && Frames(v) > 0
    requires !v.loop && v.position == 0 && !v.finished
    ensures var w := RunOne(v, rate, calls);
      var life, heard := CeilDiv(End(v, rate), v.sampleRate), Heard(v.id, v.paused, calls);
      && (w.finished <==> heard >= life)
      && (Contributes(w, rate, i) <==> !w.paused && heard + i < life)
  {
    hide RunOne, CeilDiv;
    EndPositive(v, rate);
    assert v == AfterHearing(v, rate, 0, v.paused);
    var last := RunHears(v, rate, 0, v.paused, calls);
    var heard := Heard(v.id, v.paused, calls);
    StillToHear(v, rate, heard, last, i);
  }

  lemma StillToHear(v: Voice, rate: nat, h: nat, paused: bool, i: nat)
    requires WellFormed(v) && rate > 0 && v.sampleRate > 0 && Frames(v) > 0 && !v.loop
    ensures var w := AfterHearing(v, rate, h, paused);
      var life := CeilDiv(End(v, rate), v.sampleRate);
      && (w.finished <==> h >= life)
      && (Contributes(w, rate, i) <==> !paused && h + i < life)
  {
    hide Walk, CeilDiv;
    var w := AfterHearing(v, rate, h, paused);
    SameAudio(v, w);
    WalkArrives(0, Pace(v), End(v, rate), h);
    StepsAdd(h, i, Pace(v));
    CeilDivBounds(End(v, rate), v.sampleRate, h);
    CeilDivBounds(End(v, rate), v.sampleRate, h + i);
  }

  /** A looping voice and one without a whole frame are never retired, however they are mixed and paused. */
  lemma {:induction false} OthersNeverRetire(v: Voice, rate: nat, calls: seq<Call>)
    requires WellFormed(v) && rate > 0 && !v.finished && (v.loop || Frames(v) == 0)
    ensures !RunOne(v, rate, calls).finished
    decreases |calls|
  {
    if calls != [] {
      OthersNeverRetire(StepOne(v, rate, calls[0]), rate, calls[1..]);
    }
  }
}
