/** Compacting again and again during a live session, and when it changes nothing. */
module CompactionSession {
  import opened Keyed
  import opened TextureLog
  import opened TextureMachine
  import opened CompactionShape
  import opened CompactionMeaning

  // ----- scanning a compacted log ---------------------------------------

  /** A scan that saw only the Gen and Delete calls. */
  function Blanked(s: Scan): Scan {
    Scan(map[], map id | id in s.live :: FRESH_TEXTURE, s.order, s.kept)
  }

  lemma BlankedStep(s: Scan, e: Entry)
    ensures Blanked(ScanStep(s, e)) == if IsNaming(e) then ScanStep(Blanked(s), e) else Blanked(s)
  {
    match e {
      case GenTextures(ids) =>
        assert Blanked(ScanStep(s, e)).live == Generate(Blanked(s).live, ids);
      case DeleteTextures(ids) =>
        assert Unbind(map[], ids) == map[];
        assert Blanked(ScanStep(s, e)).live == Blanked(s).live - (set i | i in ids);
      case BindTexture(_, _) =>
      case TexParameter(_, _, _) =>
        assert Blanked(ScanStep(s, e)).live == Blanked(s).live;
      case TexImage2D(_) =>
        assert Blanked(ScanStep(s, e)).live == Blanked(s).live;
    }
  }

  lemma {:induction false} ScanOfNaming(s: Scan, log: seq<Entry>)
    ensures ScanFrom(Blanked(s), Naming(log)) == Blanked(ScanFrom(s, log))
    decreases |log|
  {
    if log != [] {
      BlankedStep(s, log[0]);
      ScanOfNaming(ScanStep(s, log[0]), log[1..]);
      if IsNaming(log[0]) {
        assert Naming(log)[0] == log[0] && Naming(log)[1..] == Naming(log[1..]);
      } else {
        assert Naming(log) == Naming(log[1..]);
      }
    }
  }

  lemma {:induction false} ScanParamEntries(s: Scan, id: GLuint, target: GLenum, params: seq<(GLenum, GLint)>)
    requires id != 0 && id in s.live && BoundName(s.bound, target) == id
    requires params != []
    ensures ScanFrom(s, ParamEntries(target, params))
            == s.(live := s.live[id := s.live[id].(target := target,
                                                  params := PutAll(PNAME_OF, s.live[id].params, params))])
    decreases |params|
  {
    var entries, p := ParamEntries(target, params), params[0];
    assert entries[0] == TexParameter(target, p.0, p.1) && entries[1..] == ParamEntries(target, params[1..]);
    if params[1..] != [] {
      ScanParamEntries(ScanStep(s, entries[0]), id, target, params[1..]);
    } else {
      assert entries[1..] == [];
    }
  }

  lemma {:induction false} ScanImageEntries(s: Scan, id: GLuint, target: GLenum, images: seq<TexImage2DCall>)
    requires id != 0 && id in s.live && BoundName(s.bound, target) == id
    requires images != [] && forall c :: c in images ==> c.target == target
    ensures ScanFrom(s, ImageEntries(images))
            == s.(live := s.live[id := s.live[id].(target := target,
                                                  images := PutAll(LEVEL_OF, s.live[id].images, images))])
    decreases |images|
  {
    var entries := ImageEntries(images);
    assert entries[0] == TexImage2D(images[0]) && entries[1..] == ImageEntries(images[1..]);
    if images[1..] != [] {
      ScanImageEntries(ScanStep(s, entries[0]), id, target, images[1..]);
    } else {
      assert entries[1..] == [];
    }
  }

  lemma NoEntries(t: LiveTexture)
    ensures t.params == [] ==> ParamEntries(t.target, t.params) == []
    ensures t.images == [] ==> ImageEntries(t.images) == []
  {
  }

  lemma AllOneTarget(t: LiveTexture)
    requires OneTarget(t)
    ensures forall c :: c in t.images ==> c.target == t.target
  {
  }

  /** Scanning a section restores the live texture it was emitted from. */
  lemma ScanSection(s: Scan, id: GLuint, t: LiveTexture)
    requires id in s.live && s.live[id] == FRESH_TEXTURE
    requires ValidLive(id, t) && OneTarget(t) && !Untouched(t)
    ensures ScanFrom(s, Section(id, t)) == s.(bound := s.bound[t.target := id], live := s.live[id := t])
  {
    hide ParamEntries, ImageEntries, OneTarget;
    var bind, ps, cs := [BindTexture(t.target, id)], ParamEntries(t.target, t.params), ImageEntries(t.images);
    ScanConcat(s, bind + ps, cs);
    ScanConcat(s, bind, ps);
    var bound := ScanStep(s, bind[0]);
    assert ScanFrom(s, bind) == bound by {
      assert bind[1..] == [];
    }
    NoEntries(t);
    AllOneTarget(t);
    assert [] + t.params == t.params && [] + t.images == t.images;
    PutAllDistinct(PNAME_OF, [], t.params);
    PutAllDistinct(LEVEL_OF, [], t.images);
    var withParams := ScanFrom(bound, ps);
    if t.params != [] {
      ScanParamEntries(bound, id, t.target, t.params);
    }
    if t.images != [] {
      ScanImageEntries(withParams, id, t.target, t.images);
    }
  }

  /** The bindings that scanning an emission leaves behind. */
  function LeftBound(bound: map<GLenum, GLuint>, order: seq<GLuint>, live: map<GLuint, LiveTexture>)
    : map<GLenum, GLuint>
    decreases |order|
  {
    if order == [] then bound
    else
      var id := order[0];
      LeftBound(if id in live && !Untouched(live[id]) then bound[live[id].target := id] else bound, order[1..], live)
  }

  lemma {:induction false} ScanEmission(s: Scan, order: seq<GLuint>, live: map<GLuint, LiveTexture>)
    requires forall i, j :: 0 <= i < j < |order| ==> order[i] != order[j]
    requires s.live.Keys == live.Keys
    requires forall id :: id in live ==> ValidLive(id, live[id]) && OneTarget(live[id])
    requires forall id :: id in live ==> s.live[id] == if id in order then FRESH_TEXTURE else live[id]
    ensures ScanFrom(s, Emit(order, live)) == s.(bound := LeftBound(s.bound, order, live), live := live)
    decreases |order|
  {
    if order == [] {
      assert s.live == live;
    } else {
      var id, rest := order[0], order[1..];
      var head := SectionIfNeeded(id, live);
      ScanConcat(s, head, Emit(rest, live));
      if id in live && !Untouched(live[id]) {
        ScanSection(s, id, live[id]);
      }
      assert id !in rest;
      assert forall i :: i in order <==> i == id || i in rest;
      ScanEmission(ScanFrom(s, head), rest, live);
    }
  }

  function BindingsLeft(log: seq<Entry>): map<GLenum, GLuint> {
    LeftBound(map[], ScanLog(log).order, ScanLog(log).live)
  }

  /** A compacted log carries everything the scan knew, except the bindings. */
  lemma RescanCompact(log: seq<Entry>)
    requires Homogeneous(ScanLog(log))
    ensures ScanLog(Compact(log)) == ScanLog(log).(bound := BindingsLeft(log))
  {
    var s := ScanLog(log);
    ScanKeepsValid(EMPTY_SCAN, log);
    ScanKeepsNaming(EMPTY_SCAN, log);
    assert Blanked(EMPTY_SCAN) == EMPTY_SCAN;
    ScanOfNaming(EMPTY_SCAN, log);
    assert s.kept == Naming(log);
    ScanConcat(EMPTY_SCAN, s.kept, Emit(s.order, s.live));
    ScanEmission(Blanked(s), s.order, s.live);
  }

  // ----- continuing after a compaction ----------------------------------

  /** Every texture command acts on a target bound earlier in `log`, or already in `targets`. */
  predicate Rebinds(targets: set<GLenum>, log: seq<Entry>)
    decreases |log|
  {
    log == [] ||
    match log[0]
    case BindTexture(target, _) => Rebinds(targets + {target}, log[1..])
    case TexParameter(target, _, _) => target in targets && Rebinds(targets, log[1..])
    case TexImage2D(call) => call.target in targets && Rebinds(targets, log[1..])
    case _ => Rebinds(targets, log[1..])
  }

  ghost predicate AgreeOn(targets: set<GLenum>, s: Scan, r: Scan) {
    && s.live == r.live && s.order == r.order && s.kept == r.kept
    && forall t :: t in targets ==> BoundName(s.bound, t) == BoundName(r.bound, t)
  }

  lemma {:induction false} RebindingForgets(targets: set<GLenum>, s: Scan, r: Scan, log: seq<Entry>)
    requires AgreeOn(targets, s, r) && Rebinds(targets, log)
    ensures AgreeOn({}, ScanFrom(s, log), ScanFrom(r, log))
    decreases |log|
  {
    if log != [] {
      var more := if log[0].BindTexture? then targets + {log[0].target} else targets;
      RebindingForgets(more, ScanStep(s, log[0]), ScanStep(r, log[0]), log[1..]);
    }
  }

  /** Compacting at a point after which every command rebinds is not observable in any later compaction. */
  lemma CompactionUnobservable(a: seq<Entry>, b: seq<Entry>)
    requires Homogeneous(ScanLog(a)) && Rebinds({}, b)
    ensures Compact(Compact(a) + b) == Compact(a + b)
  {
    RescanCompact(a);
    ScanConcat(EMPTY_SCAN, Compact(a), b);
    ScanConcat(EMPTY_SCAN, a, b);
    RebindingForgets({}, ScanLog(Compact(a)), ScanLog(a), b);
  }

  lemma CompactIdempotent(log: seq<Entry>)
    requires Homogeneous(ScanLog(log))
    ensures Compact(Compact(log)) == Compact(log)
  {
    CompactionUnobservable(log, []);
    assert Compact(log) + [] == Compact(log) && log + [] == log;
  }

  // ----- whole sessions -------------------------------------------------

  /** Each texture, from one generation to the next, is written through one target only. */
  predicate SingleTarget(s: Scan, log: seq<Entry>)
    decreases |log|
  {
    log == [] || (KeepsTarget(s, log[0]) && SingleTarget(ScanStep(s, log[0]), log[1..]))
  }

  predicate KeepsTarget(s: Scan, e: Entry) {
    match e
    case TexParameter(target, _, _) => SameTarget(s, target)
    case TexImage2D(call) => SameTarget(s, call.target)
    case _ => true
  }

  predicate SameTarget(s: Scan, target: GLenum) {
    var id := BoundName(s.bound, target);
    id != 0 && id in s.live ==> Untouched(s.live[id]) || s.live[id].target == target
  }

  lemma {:induction false} SingleTargetIsHomogeneous(s: Scan, log: seq<Entry>)
    requires ValidScan(s) && Homogeneous(s) && SingleTarget(s, log)
    ensures Homogeneous(ScanFrom(s, log))
    decreases |log|
  {
    if log != [] {
      var e := log[0];
      if e.TexImage2D? {
        var id := BoundName(s.bound, e.call.target);
        if id != 0 && id in s.live {
          PutKeepsDistinct(LEVEL_OF, s.live[id].images, e.call);
        }
      }
      StepKeepsValid(s, e);
      SingleTargetIsHomogeneous(ScanStep(s, e), log[1..]);
    }
  }

  lemma {:induction false} SingleTargetPrefix(s: Scan, a: seq<Entry>, b: seq<Entry>)
    requires SingleTarget(s, a + b)
    ensures SingleTarget(s, a)
    decreases |a|
  {
    if a != [] {
      assert (a + b)[1..] == a[1..] + b;
      SingleTargetPrefix(ScanStep(s, a[0]), a[1..], b);
    }
  }

  lemma PrefixIsHomogeneous(log: seq<Entry>)
    requires SingleTarget(EMPTY_SCAN, log)
    ensures Homogeneous(ScanLog(log))
  {
    hide SingleTarget;
    SingleTargetIsHomogeneous(EMPTY_SCAN, log);
  }

  function Flatten(parts: seq<seq<Entry>>): seq<Entry> {
    if parts == [] then [] else parts[0] + Flatten(parts[1..])
  }

  /** The log a session holds when it compacts before each further part. */
  function Session(log: seq<Entry>, parts: seq<seq<Entry>>): seq<Entry>
    decreases |parts|
  {
    if parts == [] then log else Session(Compact(log) + parts[0], parts[1..])
  }

  lemma StillAgree(held: seq<Entry>, full: seq<Entry>, part: seq<Entry>)
    requires AgreeOn({}, ScanLog(held), ScanLog(full)) && Rebinds({}, part)
    ensures AgreeOn({}, ScanLog(held + part), ScanLog(full + part))
  {
    ScanConcat(EMPTY_SCAN, held, part);
    ScanConcat(EMPTY_SCAN, full, part);
    RebindingForgets({}, ScanLog(held), ScanLog(full), part);
  }

  lemma CompactedAgrees(held: seq<Entry>, full: seq<Entry>)
    requires AgreeOn({}, ScanLog(held), ScanLog(full))
    ensures Compact(held) == Compact(full)
    ensures Homogeneous(ScanLog(full)) ==> AgreeOn({}, ScanLog(Compact(held)), ScanLog(full))
  {
    hide ScanLog, Emit;
    if Homogeneous(ScanLog(full)) {
      RescanCompact(held);
    }
  }

  /** However often a session compacts at rebind points, it ends with the log that never compacting would give. */
  lemma {:induction false} SessionCompactsTheSame(held: seq<Entry>, full: seq<Entry>, parts: seq<seq<Entry>>)
    requires AgreeOn({}, ScanLog(held), ScanLog(full))
    requires SingleTarget(EMPTY_SCAN, full + Flatten(parts))
    requires forall i :: 0 <= i < |parts| ==> Rebinds({}, parts[i])
    ensures Compact(Session(held, parts)) == Compact(full + Flatten(parts))
    decreases |parts|
  {
    hide AgreeOn, ScanLog, ScanFrom, Compact, SingleTarget, Homogeneous, Rebinds;
    CompactedAgrees(held, full);
    if parts == [] {
      assert full + Flatten(parts) == full;
    } else {
      SingleTargetPrefix(EMPTY_SCAN, full, Flatten(parts));
      assert Homogeneous(ScanLog(full)) by {
        PrefixIsHomogeneous(full);
      }
      StillAgree(Compact(held), full, parts[0]);
      assert full + Flatten(parts) == (full + parts[0]) + Flatten(parts[1..]);
      SessionCompactsTheSame(Compact(held) + parts[0], full + parts[0], parts[1..]);
    }
  }

  /** What any long session saves replays to its own textures as its complete, never compacted history builds them,
      and leaves every older one as it was. */
  lemma SessionRebuilds(alloc: Allocator, start: Gl, first: seq<Entry>, parts: seq<seq<Entry>>)
    requires SingleTarget(EMPTY_SCAN, first + Flatten(parts))
    requires forall i :: 0 <= i < |parts| ==> Rebinds({}, parts[i])
    requires SeesWrites(alloc, start, EMPTY_SCAN, first + Flatten(parts))
    requires IdsMatch(alloc, start, first + Flatten(parts))
    ensures var full, saved := first + Flatten(parts), Compact(Session(first, parts));
      && IdsMatch(alloc, start, saved)
      && Rebuilds(start, LiveNames({}, full), DeletedNames(full), StraysOf(alloc, start, full),
                  Replay(alloc, start, saved), Replay(alloc, start, full))
  {
    hide Rebuilds;
    SessionCompactsTheSame(first, first, parts);
    SingleTargetIsHomogeneous(EMPTY_SCAN, first + Flatten(parts));
    CompactionRebuilds(alloc, start, first + Flatten(parts));
  }

  /** What a long session saves rebuilds exactly the textures of its complete, never compacted history, if and
      only if that history's writes to textures older than it change nothing. */
  lemma SessionSavesItsTextures(alloc: Allocator, start: Gl, first: seq<Entry>, parts: seq<seq<Entry>>)
    requires SingleTarget(EMPTY_SCAN, first + Flatten(parts))
    requires forall i :: 0 <= i < |parts| ==> Rebinds({}, parts[i])
    requires SeesWrites(alloc, start, EMPTY_SCAN, first + Flatten(parts))
    requires IdsMatch(alloc, start, first + Flatten(parts))
    ensures IdsMatch(alloc, start, Compact(Session(first, parts)))
    ensures SameStore(Replay(alloc, start, Compact(Session(first, parts))),
                      Replay(alloc, start, first + Flatten(parts)))
            <==> StraysChangeNothing(alloc, start, first + Flatten(parts))
  {
    SessionCompactsTheSame(first, first, parts);
    SingleTargetIsHomogeneous(EMPTY_SCAN, first + Flatten(parts));
    CompactionPreservesMeaning(alloc, start, first + Flatten(parts));
  }
}
