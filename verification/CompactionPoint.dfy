/** Exactly when the log may be compacted in the middle of a session, whatever the session does next. */
module CompactionPoint {
  import opened Keyed
  import opened TextureLog
  import opened TextureMachine
  import opened CompactionShape
  import opened CompactionMeaning
  import opened CompactionSession

  /** The log's own texture that a write to `target` reaches, or 0. */
  function Reached(s: Scan, target: GLenum): GLuint {
    var id := BoundName(s.bound, target);
    if id in s.live then id else 0
  }

  predicate NotInUse(s: Scan, id: GLuint) {
    id !in s.live && forall t :: t in s.bound ==> s.bound[t] != id
  }

  /** As every driver does, each Gen of the log hands out names that are not in use. */
  predicate HandsOutUnused(s: Scan, log: seq<Entry>)
    decreases |log|
  {
    log == [] ||
    ((log[0].GenTextures? ==> forall id :: id in log[0].names ==> NotInUse(s, id))
     && HandsOutUnused(ScanStep(s, log[0]), log[1..]))
  }

  ghost predicate SafeWhateverFollows(a: seq<Entry>) {
    forall b: seq<Entry> :: HandsOutUnused(ScanLog(a), b) ==> Compact(Compact(a) + b) == Compact(a + b)
  }

  // ----- agreement on what writes reach keeps the scans together ------------

  /** What `r` has bound that `s` has not is one of the log's own textures. */
  ghost predicate BoundKnown(s: Scan, r: Scan, target: GLenum) {
    var x := BoundName(r.bound, target);
    x == 0 || x in r.live || BoundName(s.bound, target) == x
  }

  ghost predicate Together(s: Scan, r: Scan) {
    AgreeOn({}, s, r) && forall t :: Reached(s, t) == Reached(r, t) && BoundKnown(s, r, t)
  }

  lemma TogetherAt(s: Scan, r: Scan, e: Entry, t: GLenum)
    requires Together(s, r)
    requires e.GenTextures? ==> forall id :: id in e.names ==> NotInUse(s, id)
    ensures Reached(ScanStep(s, e), t) == Reached(ScanStep(r, e), t)
    ensures BoundKnown(ScanStep(s, e), ScanStep(r, e), t)
  {
    hide StoreParam, StoreImage;
    assert Reached(s, t) == Reached(r, t) && BoundKnown(s, r, t);
    match e {
      case GenTextures(ids) =>
        assert t in s.bound && s.bound[t] in ids ==> NotInUse(s, s.bound[t]);
        assert t in r.bound && r.bound[t] in ids ==> NotInUse(s, r.bound[t]);
      case DeleteTextures(ids) =>
      case BindTexture(target, texture) =>
      case TexParameter(target, _, _) =>
        assert Reached(s, target) == Reached(r, target);
      case TexImage2D(call) =>
        assert Reached(s, call.target) == Reached(r, call.target);
    }
  }

  lemma StepTogether(s: Scan, r: Scan, e: Entry)
    requires Together(s, r)
    requires e.GenTextures? ==> forall id :: id in e.names ==> NotInUse(s, id)
    ensures Together(ScanStep(s, e), ScanStep(r, e))
  {
    hide StoreParam, StoreImage, Generate, BoundKnown;
    assert AgreeOn({}, ScanStep(s, e), ScanStep(r, e)) by {
      assert e.TexParameter? ==> Reached(s, e.ptarget) == Reached(r, e.ptarget);
      assert e.TexImage2D? ==> Reached(s, e.call.target) == Reached(r, e.call.target);
    }
    forall t ensures Reached(ScanStep(s, e), t) == Reached(ScanStep(r, e), t)
      ensures BoundKnown(ScanStep(s, e), ScanStep(r, e), t)
    {
      TogetherAt(s, r, e, t);
    }
  }

  lemma {:induction false} StayTogether(s: Scan, r: Scan, log: seq<Entry>)
    requires Together(s, r) && HandsOutUnused(s, log)
    ensures Together(ScanFrom(s, log), ScanFrom(r, log))
    decreases |log|
  {
    hide Together, ScanStep, NotInUse;
    if log != [] {
      StepTogether(s, r, log[0]);
      StayTogether(ScanStep(s, log[0]), ScanStep(r, log[0]), log[1..]);
    }
  }

  // ----- a compacted log tells what the scan accumulated --------------------

  ghost predicate NoBinds(log: seq<Entry>) {
    forall i :: 0 <= i < |log| ==> !log[i].BindTexture?
  }

  ghost predicate StartsWithBind(log: seq<Entry>) {
    log == [] || log[0].BindTexture?
  }

  lemma {:induction false} EmitStartsWithBind(order: seq<GLuint>, live: map<GLuint, LiveTexture>)
    ensures StartsWithBind(Emit(order, live))
  {
    if order != [] {
      EmitStartsWithBind(order[1..], live);
    }
  }

  lemma SectionHasOneBind(id: GLuint, t: LiveTexture)
    ensures Section(id, t)[0] == BindTexture(t.target, id) && NoBinds(Section(id, t)[1..])
  {
  }

  /** Where one bind-free run ends and the next bind begins is determined. */
  lemma CutAtBind(a: seq<Entry>, x: seq<Entry>, b: seq<Entry>, y: seq<Entry>)
    requires a != [] && NoBinds(a[1..]) && StartsWithBind(x)
    requires b != [] && NoBinds(b[1..]) && StartsWithBind(y)
    requires a + x == b + y
    ensures a == b && x == y
  {
    if |a| < |b| {
      NoEarlierCut(a, x, b, y);
    } else if |b| < |a| {
      NoEarlierCut(b, y, a, x);
    }
    assert a == (a + x)[..|a|] && b == (b + y)[..|b|];
    assert x == (a + x)[|a|..] && y == (b + y)[|b|..];
  }

  lemma NoEarlierCut(a: seq<Entry>, x: seq<Entry>, b: seq<Entry>, y: seq<Entry>)
    requires a != [] && StartsWithBind(x) && b != [] && NoBinds(b[1..]) && a + x == b + y
    ensures |a| >= |b|
  {
    assert |a + x| == |a| + |x| && |b + y| == |b| + |y|;
    assert forall i :: 1 <= i < |b| ==> !(b + y)[i].BindTexture? by {
      assert forall i :: 1 <= i < |b| ==> (b + y)[i] == b[1..][i - 1];
    }
    if x != [] {
      assert (a + x)[|a|] == x[0];
    }
  }

  lemma {:induction false} EmitBindsItsNames(order: seq<GLuint>, live: map<GLuint, LiveTexture>)
    ensures forall e :: e in Emit(order, live) && e.BindTexture? ==> e.texture in order
  {
    if order != [] {
      EmitBindsItsNames(order[1..], live);
    }
  }

  lemma SectionsDiffer(id: GLuint, x: seq<Entry>, rest: seq<GLuint>, live: map<GLuint, LiveTexture>, t: LiveTexture)
    requires id !in rest
    ensures Emit(rest, live) != Section(id, t) + x
  {
    EmitBindsItsNames(rest, live);
    assert (Section(id, t) + x)[0] == BindTexture(t.target, id);
  }

  /** Equal emissions have equal sections. */
  lemma {:induction false} EmissionTellsSections(order: seq<GLuint>, live: map<GLuint, LiveTexture>,
                                                 other: map<GLuint, LiveTexture>, id: GLuint)
    requires forall i, j :: 0 <= i < j < |order| ==> order[i] != order[j]
    requires Emit(order, live) == Emit(order, other) && id in order
    ensures SectionIfNeeded(id, live) == SectionIfNeeded(id, other)
    decreases |order|
  {
    hide Section;
    var o, rest := order[0], order[1..];
    var a, b := SectionIfNeeded(o, live), SectionIfNeeded(o, other);
    var x, y := Emit(rest, live), Emit(rest, other);
    EmitStartsWithBind(rest, live);
    EmitStartsWithBind(rest, other);
    assert [] + x == x && [] + y == y;
    assert a == b && x == y by {
      if a != [] && b != [] {
        SectionHasOneBind(o, live[o]);
        SectionHasOneBind(o, other[o]);
        CutAtBind(a, x, b, y);
      } else if a != [] {
        SectionsDiffer(o, x, rest, other, live[o]);
      } else if b != [] {
        SectionsDiffer(o, y, rest, live, other[o]);
      }
    }
    if id != o {
      EmissionTellsSections(rest, live, other, id);
    }
  }

  lemma SectionTellsParams(id: GLuint, t: LiveTexture, u: LiveTexture)
    requires Section(id, t) == Section(id, u)
    ensures t.params == u.params
  {
    hide Section;
    SectionIsParamsThenImages(id, t);
    SectionIsParamsThenImages(id, u);
    var a := Section(id, t);
    var n, m := |t.params|, |u.params|;
    assert m > 0 ==> a[1 + (m - 1)] == TexParameter(u.target, u.params[m - 1].0, u.params[m - 1].1);
    assert n > 0 ==> a[1 + (n - 1)] == TexParameter(t.target, t.params[n - 1].0, t.params[n - 1].1);
    assert forall i :: 0 <= i < n ==> t.params[i] == u.params[i] by {
      assert forall i :: 0 <= i < n ==> a[1 + i] == TexParameter(t.target, t.params[i].0, t.params[i].1);
    }
  }

  /** A section is a bind, then the parameters, then the images. */
  lemma SectionIsParamsThenImages(id: GLuint, t: LiveTexture)
    ensures |Section(id, t)| == 1 + |t.params| + |t.images|
    ensures forall i :: 0 <= i < |t.params| ==>
      Section(id, t)[1 + i] == TexParameter(t.target, t.params[i].0, t.params[i].1)
    ensures forall i :: 1 + |t.params| <= i < |Section(id, t)| ==>
      Section(id, t)[i] == TexImage2D(t.images[i - 1 - |t.params|])
  {
  }

  // ----- the next write tells the bindings apart -----------------------------

  const GL_TEXTURE_MIN_FILTER: GLenum := 10241
  const GL_NEAREST: GLint := 9728
  const GL_LINEAR: GLint := 9729

  /** A value that storing under `pname` changes. */
  function NewValue(t: LiveTexture, pname: GLenum): GLint {
    var table := Index(PNAME_OF, t.params);
    if pname in table && table[pname].1 == GL_LINEAR then GL_NEAREST else GL_LINEAR
  }

  lemma StoringChanges(t: LiveTexture, target: GLenum, pname: GLenum)
    ensures var u := StoreParam(t, target, pname, NewValue(t, pname));
      u.params != t.params && ParamMap(u.params) != ParamMap(t.params)
  {
    PutUpdatesIndex(PNAME_OF, t.params, (pname, NewValue(t, pname)));
    assert pname in ParamMap(StoreParam(t, target, pname, NewValue(t, pname)).params);
  }

  /** A parameter write to `target` that changes the texture reached. */
  function NextWrite(s: Scan, target: GLenum, pname: GLenum): Entry
    requires Reached(s, target) in s.live
  {
    TexParameter(target, pname, NewValue(s.live[Reached(s, target)], pname))
  }

  lemma CompactTellsWrites(a: seq<Entry>, c: seq<Entry>, id: GLuint)
    requires ScanLog(a).order == ScanLog(c).order && id in ScanLog(a).live && id in ScanLog(c).live
    requires ScanLog(a).kept == ScanLog(c).kept
    requires ScanLog(a).live[id].params != ScanLog(c).live[id].params
    ensures Compact(a) != Compact(c)
  {
    hide Emit, SectionIfNeeded, Section;
    var s, r := ScanLog(a), ScanLog(c);
    ScanKeepsValid(EMPTY_SCAN, a);
    if Compact(a) == Compact(c) {
      assert Emit(s.order, s.live) == Compact(a)[|s.kept|..] == Compact(c)[|s.kept|..] == Emit(r.order, r.live);
      EmissionTellsSections(s.order, s.live, r.live, id);
      NeededSectionTellsParams(id, s.live, r.live);
    }
  }

  lemma NeededSectionTellsParams(id: GLuint, live: map<GLuint, LiveTexture>, other: map<GLuint, LiveTexture>)
    requires id in live && id in other && SectionIfNeeded(id, live) == SectionIfNeeded(id, other)
    ensures live[id].params == other[id].params
  {
    if !Untouched(live[id]) && !Untouched(other[id]) {
      SectionTellsParams(id, live[id], other[id]);
    } else {
      SectionHasOneBind(id, live[id]);
      SectionHasOneBind(id, other[id]);
    }
  }

  ghost predicate ReachesOtherwise(a: seq<Entry>, c: seq<Entry>, target: GLenum) {
    && AgreeOn({}, ScanLog(a), ScanLog(c))
    && Reached(ScanLog(a), target) != 0 && Reached(ScanLog(c), target) != Reached(ScanLog(a), target)
  }

  lemma NextWriteScans(a: seq<Entry>, c: seq<Entry>, target: GLenum, pname: GLenum)
    requires ReachesOtherwise(a, c, target)
    ensures var id, b := Reached(ScanLog(a), target), [NextWrite(ScanLog(a), target, pname)];
      var s, r := ScanLog(a + b), ScanLog(c + b);
      && s.order == r.order && s.kept == r.kept == ScanLog(a).kept && s.live.Keys == r.live.Keys == ScanLog(a).live.Keys
      && id in s.live
      && s.live[id].params != r.live[id].params && ParamMap(s.live[id].params) != ParamMap(r.live[id].params)
  {
    hide StoreParam, ParamMap, NewValue;
    var s, r := ScanLog(a), ScanLog(c);
    var e := NextWrite(s, target, pname);
    ScanConcat(EMPTY_SCAN, a, [e]);
    ScanConcat(EMPTY_SCAN, c, [e]);
    assert [e][1..] == [];
    assert ScanLog(a + [e]) == ScanStep(s, e) && ScanLog(c + [e]) == ScanStep(r, e);
    StoringChanges(s.live[Reached(s, target)], target, pname);
  }

  /** If a write to `target` reaches a texture after one log and not after the other, a write of any parameter makes
      the compacted logs differ. */
  lemma NextWriteTells(a: seq<Entry>, c: seq<Entry>, target: GLenum, pname: GLenum)
    requires ReachesOtherwise(a, c, target)
    ensures var b := [NextWrite(ScanLog(a), target, pname)]; Compact(a + b) != Compact(c + b)
  {
    hide ReachesOtherwise, NextWrite, Compact, ParamMap;
    assert Reached(ScanLog(a), target) in ScanLog(a).live by {
      ReachedIsLive(a, c, target);
    }
    var b := [NextWrite(ScanLog(a), target, pname)];
    NextWriteScans(a, c, target, pname);
    CompactTellsWrites(a + b, c + b, Reached(ScanLog(a), target));
  }

  lemma ReachedIsLive(a: seq<Entry>, c: seq<Entry>, target: GLenum)
    requires ReachesOtherwise(a, c, target)
    ensures Reached(ScanLog(a), target) in ScanLog(a).live
  {
  }

  // ----- and the replayed stores too ------------------------------------------

  lemma NamingStepKeepsBlank(alloc: Allocator, base: Gl, s: Scan, e: Entry)
    requires OwnBlank(base.textures, s.live) && EntryMatches(alloc, base, e)
    ensures OwnBlank(NamingOnly(alloc, base, e).textures, ScanStep(s, e).live)
  {
    hide StoreParam, StoreImage;
  }

  /** After the Gen and Delete calls alone, every live name is a texture without contents. */
  lemma {:induction false} NamingKeepsBlank(alloc: Allocator, base: Gl, s: Scan, log: seq<Entry>)
    requires OwnBlank(base.textures, s.live) && IdsMatch(alloc, base, Naming(log))
    ensures OwnBlank(Replay(alloc, base, Naming(log)).textures, ScanFrom(s, log).live)
    decreases |log|
  {
    hide OwnBlank, ScanStep, ReplayEntry;
    if log != [] {
      NamingReplay(alloc, base, log);
      NamingStepKeepsBlank(alloc, base, s, log[0]);
      NamingKeepsBlank(alloc, NamingOnly(alloc, base, log[0]), ScanStep(s, log[0]), log[1..]);
    }
  }

  ghost predicate KeepsParams(g: Gl, h: Gl, own: GLuint) {
    forall id :: id in g.textures && id != own ==> id in h.textures && h.textures[id].params == g.textures[id].params
  }

  lemma {:induction false} ImagesKeepParams(alloc: Allocator, gl: Gl, images: seq<TexImage2DCall>)
    ensures var r := Replay(alloc, gl, ImageEntries(images));
      forall id :: id in gl.textures ==> id in r.textures && r.textures[id].params == gl.textures[id].params
    decreases |images|
  {
    hide LoggedImage;
    var entries := ImageEntries(images);
    if images != [] {
      assert entries[0] == TexImage2D(images[0]) && entries[1..] == ImageEntries(images[1..]);
      var next := ReplayEntry(alloc, gl, entries[0]);
      assert forall id :: id in gl.textures ==>
        id in next.textures && next.textures[id].params == gl.textures[id].params;
      ImagesKeepParams(alloc, next, images[1..]);
    }
  }

  /** Whatever targets its images name, a section sets the parameters of its own texture and of no other. */
  lemma SectionParams(alloc: Allocator, gl: Gl, id: GLuint, t: LiveTexture)
    requires id != 0 && id in gl.textures && gl.textures[id].params == map[] && ValidLive(id, t)
    ensures var r := Replay(alloc, gl, Section(id, t));
      id in r.textures && r.textures[id].params == ParamMap(t.params) && KeepsParams(gl, r, id)
  {
    hide ParamMap, ParamEntries, ImageEntries;
    var bind, ps, cs := [BindTexture(t.target, id)], ParamEntries(t.target, t.params), ImageEntries(t.images);
    ReplayConcat(alloc, gl, bind + ps, cs);
    ReplayConcat(alloc, gl, bind, ps);
    ReplayOne(alloc, gl, bind[0]);
    var bound := ReplayEntry(alloc, gl, bind[0]);
    ParamEntriesReplay(alloc, bound, id, t.target, t.params);
    assert map[] + ParamMap(t.params) == ParamMap(t.params);
    ImagesKeepParams(alloc, Replay(alloc, bound, ps), t.images);
  }

  lemma {:induction false} EmissionParams(alloc: Allocator, gl: Gl, order: seq<GLuint>,
                                          live: map<GLuint, LiveTexture>, own: GLuint)
    requires forall i, j :: 0 <= i < j < |order| ==> order[i] != order[j]
    requires forall id :: id in order && id in live ==>
      ValidLive(id, live[id]) && id in gl.textures && gl.textures[id].params == map[]
    requires own in gl.textures && own in live
    requires own !in order ==> gl.textures[own].params == ParamMap(live[own].params)
    ensures var r := Replay(alloc, gl, Emit(order, live));
      own in r.textures && r.textures[own].params == ParamMap(live[own].params)
    decreases |order|
  {
    hide ParamMap, Section;
    if order != [] {
      var id, rest := order[0], order[1..];
      var head := SectionIfNeeded(id, live);
      ReplayConcat(alloc, gl, head, Emit(rest, live));
      NoParams();
      if id in live && !Untouched(live[id]) {
        SectionParams(alloc, gl, id, live[id]);
      }
      var next := Replay(alloc, gl, head);
      assert KeepsParams(gl, next, id);
      assert id !in rest && forall i :: i in order <==> i == id || i in rest;
      EmissionParams(alloc, next, rest, live, own);
    }
  }

  lemma NoParams()
    ensures ParamMap([]) == map[]
  {
  }

  lemma CompactParams(alloc: Allocator, start: Gl, log: seq<Entry>, id: GLuint)
    requires IdsMatch(alloc, start, log) && id in ScanLog(log).live
    ensures var r := Replay(alloc, start, Compact(log));
      id in r.textures && r.textures[id].params == ParamMap(ScanLog(log).live[id].params)
  {
    hide ParamMap, Emit;
    var s, base := ScanLog(log), Replay(alloc, start, Naming(log));
    ScanKeepsNaming(EMPTY_SCAN, log);
    ScanKeepsValid(EMPTY_SCAN, log);
    assert [] + Naming(log) == Naming(log);
    NamingOfNaming(log);
    NamingDecidesIds(alloc, start, start, log, Naming(log));
    NamingKeepsBlank(alloc, start, EMPTY_SCAN, log);
    ReplayConcat(alloc, start, s.kept, Emit(s.order, s.live));
    EmissionParams(alloc, base, s.order, s.live, id);
  }

  lemma IdsMatchSameKept(alloc: Allocator, start: Gl, a: seq<Entry>, c: seq<Entry>)
    requires IdsMatch(alloc, start, a) && ScanLog(a).kept == ScanLog(c).kept
    ensures IdsMatch(alloc, start, c)
  {
    ScanKeepsNaming(EMPTY_SCAN, a);
    ScanKeepsNaming(EMPTY_SCAN, c);
    assert [] + Naming(a) == Naming(a) && [] + Naming(c) == Naming(c);
    NamingDecidesIds(alloc, start, start, a, c);
  }

  /** That write makes the stores differ that the compacted logs replay to, on every driver and from every context:
      in the parameters of the texture reached. */
  lemma NextWriteShows(alloc: Allocator, start: Gl, a: seq<Entry>, c: seq<Entry>, target: GLenum, pname: GLenum)
    requires ReachesOtherwise(a, c, target) && IdsMatch(alloc, start, a)
    ensures var id, b := Reached(ScanLog(a), target), [NextWrite(ScanLog(a), target, pname)];
      var g, h := Replay(alloc, start, Compact(a + b)), Replay(alloc, start, Compact(c + b));
      && id in g.textures && id in h.textures && g.textures[id].params != h.textures[id].params
      && !SameStore(g, h)
  {
    hide Compact, ParamMap, NextWrite, ReachesOtherwise;
    ReachedIsLive(a, c, target);
    var id, b := Reached(ScanLog(a), target), [NextWrite(ScanLog(a), target, pname)];
    NextWriteScans(a, c, target, pname);
    IdsMatchSameKept(alloc, start, a, a + b);
    IdsMatchSameKept(alloc, start, a, c + b);
    CompactParams(alloc, start, a + b, id);
    CompactParams(alloc, start, c + b, id);
  }

  lemma {:induction false} LeftBoundIsOwn(bound: map<GLenum, GLuint>, order: seq<GLuint>,
                                          live: map<GLuint, LiveTexture>)
    requires forall t :: t in bound ==> bound[t] in live
    ensures forall t :: t in LeftBound(bound, order, live) ==> LeftBound(bound, order, live)[t] in live
    decreases |order|
  {
    if order != [] {
      var id := order[0];
      var next := if id in live && !Untouched(live[id]) then bound[live[id].target := id] else bound;
      LeftBoundIsOwn(next, order[1..], live);
    }
  }

  /** The documented "safe to call at any time" holds exactly when a write to any target reaches the same of the
      log's textures before and after: compaction remembers textures, not bindings. */
  lemma CompactionSafeIff(a: seq<Entry>)
    requires Homogeneous(ScanLog(a))
    ensures SafeWhateverFollows(a) <==> forall t :: Reached(ScanLog(a), t) == BoundName(BindingsLeft(a), t)
  {
    RescanCompact(a);
    var s, r := ScanLog(a), ScanLog(Compact(a));
    LeftBoundIsOwn(map[], s.order, s.live);
    assert forall t :: Reached(r, t) == BoundName(r.bound, t);
    if forall t :: Reached(s, t) == Reached(r, t) {
      forall b: seq<Entry> | HandsOutUnused(s, b) ensures Compact(Compact(a) + b) == Compact(a + b) {
        ScanConcat(EMPTY_SCAN, a, b);
        ScanConcat(EMPTY_SCAN, Compact(a), b);
        StayTogether(s, r, b);
      }
    } else {
      var t :| Reached(s, t) != Reached(r, t);
      var p := GL_TEXTURE_MIN_FILTER;
      var e := if Reached(s, t) != 0 then NextWrite(s, t, p) else NextWrite(r, t, p);
      if Reached(s, t) != 0 {
        NextWriteTells(a, Compact(a), t, p);
      } else {
        NextWriteTells(Compact(a), a, t, p);
      }
      assert [e][1..] == [] && HandsOutUnused(s, [e]);
      assert Compact(Compact(a) + [e]) != Compact(a + [e]);
    }
  }

  /** At a point that is not safe, on every driver and for every parameter, the session's next write of it through
      such a target is saved wrongly: the compacted session replays to another store than the compacted full one. */
  lemma UnsafePointSpoilsSave(alloc: Allocator, start: Gl, a: seq<Entry>, target: GLenum, pname: GLenum)
    returns (b: seq<Entry>)
    requires Homogeneous(ScanLog(a)) && IdsMatch(alloc, start, a)
    requires Reached(ScanLog(a), target) != BoundName(BindingsLeft(a), target)
    ensures |b| == 1 && b[0].TexParameter? && b[0].ptarget == target && b[0].pname == pname
    ensures !SameStore(Replay(alloc, start, Compact(Compact(a) + b)), Replay(alloc, start, Compact(a + b)))
  {
    RescanCompact(a);
    var s, r := ScanLog(a), ScanLog(Compact(a));
    LeftBoundIsOwn(map[], s.order, s.live);
    assert Reached(r, target) == BoundName(r.bound, target);
    if Reached(s, target) != 0 {
      b := [NextWrite(s, target, pname)];
      NextWriteShows(alloc, start, a, Compact(a), target, pname);
    } else {
      b := [NextWrite(r, target, pname)];
      IdsMatchSameKept(alloc, start, a, Compact(a));
      NextWriteShows(alloc, start, Compact(a), a, target, pname);
    }
  }

  /** A texture bound but not yet written when the log is compacted loses what is written to it next: the full
      history sets a parameter of texture 1, and what the session saves leaves texture 1 blank. */
  lemma CompactionForgetsBinding(alloc: Allocator, start: Gl, pname: GLenum, param: GLint)
    requires alloc(start.history, 1) == [1]
    ensures var a := [GenTextures([1]), BindTexture(3553, 1)];
      var b := [TexParameter(3553, pname, param)];
      var saved, full := Compact(Compact(a) + b), a + b;
      && IdsMatch(alloc, start, full) && IdsMatch(alloc, start, saved)
      && Contents(Replay(alloc, start, full), 1) == Texture(map[pname := param], map[])
      && Contents(Replay(alloc, start, saved), 1) == BLANK_TEXTURE
      && !SameStore(Replay(alloc, start, saved), Replay(alloc, start, full))
  {
    var a := [GenTextures([1]), BindTexture(3553, 1)];
    var b := [TexParameter(3553, pname, param)];
    CompactOfGenAlone([BindTexture(3553, 1)]);
    CompactOfGenAlone([TexParameter(3553, pname, param)]);
    assert a == [GenTextures([1])] + [BindTexture(3553, 1)];
    assert Compact(a) + b == [GenTextures([1])] + [TexParameter(3553, pname, param)];
    ReplayThree(alloc, start, GenTextures([1]), BindTexture(3553, 1), b[0]);
    assert a + b == [GenTextures([1]), BindTexture(3553, 1), b[0]];
    ReplayOne(alloc, start, GenTextures([1]));
    assert 1 in [1];
    assert pname in map[pname := param];
  }

  lemma CompactOfGenAlone(e: seq<Entry>)
    requires |e| == 1 && (e[0].BindTexture? || e[0].TexParameter?)
    ensures Compact([GenTextures([1])] + e) == [GenTextures([1])]
  {
    var log := [GenTextures([1])] + e;
    var s1 := ScanStep(EMPTY_SCAN, log[0]);
    var s2 := ScanStep(s1, log[1]);
    assert log[1..] == e && e[1..] == [];
    assert ScanLog(log) == ScanFrom(s1, log[1..]) == s2;
    assert 1 in [1];
    assert s2.live.Keys == {1} && s2.live[1] == FRESH_TEXTURE;
    assert s2.order == [1] by {
      assert AddUnseen([], [1]) == AddUnseen([1], []);
    }
    assert Emit([1], s2.live) == SectionIfNeeded(1, s2.live) + Emit([], s2.live) == [];
  }

  lemma ReplayOne(alloc: Allocator, gl: Gl, e: Entry)
    ensures Replay(alloc, gl, [e]) == ReplayEntry(alloc, gl, e)
    ensures IdsMatch(alloc, gl, [e]) <==> EntryMatches(alloc, gl, e)
  {
    assert [e][1..] == [];
  }

  lemma ReplayThree(alloc: Allocator, gl: Gl, e: Entry, f: Entry, g: Entry)
    requires !g.GenTextures? && !f.GenTextures?
    ensures Replay(alloc, gl, [e, f, g])
            == ReplayEntry(alloc, ReplayEntry(alloc, ReplayEntry(alloc, gl, e), f), g)
    ensures IdsMatch(alloc, gl, [e, f, g]) <==> EntryMatches(alloc, gl, e)
  {
    hide ReplayEntry;
    assert [e, f, g] == [e] + [f] + [g];
    ReplayConcat(alloc, gl, [e] + [f], [g]);
    ReplayConcat(alloc, gl, [e], [f]);
    ReplayOne(alloc, gl, e);
    ReplayOne(alloc, ReplayEntry(alloc, gl, e), f);
    ReplayOne(alloc, ReplayEntry(alloc, ReplayEntry(alloc, gl, e), f), g);
  }
}
