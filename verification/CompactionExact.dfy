/** What the rewrite needs, exactly: without a single target some level of some surviving texture is lost on
    replay, and so is every change to a texture older than the log. */
module CompactionExact {
  import opened HostTypes
  import opened Keyed
  import opened TextureLog
  import opened TextureMachine
  import opened CompactionShape
  import opened CompactionMeaning
  import opened CompactionSession

  /** No texture command can reach `id` through the current bindings. */
  ghost predicate OutOfReach(gl: Gl, id: GLuint) {
    id == 0 || forall t :: BoundName(gl.bound, t) != id
  }

  predicate IsWrite(e: Entry) {
    e.TexParameter? || e.TexImage2D?
  }

  lemma {:induction false} WritesSpare(alloc: Allocator, gl: Gl, entries: seq<Entry>, id: GLuint)
    requires (forall e :: e in entries ==> IsWrite(e)) && OutOfReach(gl, id) && id in gl.textures
    ensures var r := Replay(alloc, gl, entries);
      r.bound == gl.bound && id in r.textures && r.textures[id] == gl.textures[id]
    decreases |entries|
  {
    if entries != [] {
      assert IsWrite(entries[0]);
      WritesSpare(alloc, ReplayEntry(alloc, gl, entries[0]), entries[1..], id);
    }
  }

  lemma {:induction false} WritesMissLevel(alloc: Allocator, gl: Gl, entries: seq<Entry>, id: GLuint, level: int32)
    requires forall e :: e in entries ==> IsWrite(e)
    requires forall e :: e in entries && e.TexImage2D? && e.call.level == level ==>
      BoundName(gl.bound, e.call.target) != id
    requires id in gl.textures && level !in gl.textures[id].images
    ensures var r := Replay(alloc, gl, entries);
      id in r.textures && level !in r.textures[id].images
    decreases |entries|
  {
    if entries != [] {
      assert IsWrite(entries[0]);
      WritesMissLevel(alloc, ReplayEntry(alloc, gl, entries[0]), entries[1..], id, level);
    }
  }

  function Writes(t: LiveTexture): seq<Entry> {
    ParamEntries(t.target, t.params) + ImageEntries(t.images)
  }

  lemma SectionWrites(alloc: Allocator, gl: Gl, id: GLuint, t: LiveTexture)
    ensures Replay(alloc, gl, Section(id, t)) == Replay(alloc, GlBindTexture(gl, t.target, id), Writes(t))
    ensures forall e :: e in Writes(t) ==> IsWrite(e) && (e.TexImage2D? ==> e.call in t.images)
  {
    assert Section(id, t) == [BindTexture(t.target, id)] + Writes(t);
    assert Section(id, t)[1..] == Writes(t);
  }

  lemma BindKeepsOutOfReach(gl: Gl, target: GLenum, id: GLuint, x: GLuint)
    requires x != id && OutOfReach(gl, x)
    ensures OutOfReach(GlBindTexture(gl, target, id), x)
  {
    forall y ensures x == 0 || BoundName(GlBindTexture(gl, target, id).bound, y) != x {
      assert x == 0 || BoundName(gl.bound, y) != x;
    }
  }

  /** A section leaves alone every texture that is neither its own nor bound before. */
  lemma SectionSpares(alloc: Allocator, gl: Gl, id: GLuint, t: LiveTexture, x: GLuint)
    requires x != id && OutOfReach(gl, x) && x in gl.textures
    ensures var r := Replay(alloc, gl, Section(id, t));
      x in r.textures && r.textures[x] == gl.textures[x]
  {
    SectionWrites(alloc, gl, id, t);
    BindKeepsOutOfReach(gl, t.target, id, x);
    WritesSpare(alloc, GlBindTexture(gl, t.target, id), Writes(t), x);
  }

  lemma {:induction false} WritesKeepBindings(alloc: Allocator, gl: Gl, entries: seq<Entry>)
    requires forall e :: e in entries ==> IsWrite(e)
    ensures Replay(alloc, gl, entries).bound == gl.bound
    decreases |entries|
  {
    if entries != [] {
      assert IsWrite(entries[0]);
      WritesKeepBindings(alloc, ReplayEntry(alloc, gl, entries[0]), entries[1..]);
    }
  }

  lemma SectionKeepsOutOfReach(alloc: Allocator, gl: Gl, id: GLuint, t: LiveTexture, x: GLuint)
    requires x != id && OutOfReach(gl, x)
    ensures OutOfReach(Replay(alloc, gl, Section(id, t)), x)
  {
    SectionWrites(alloc, gl, id, t);
    BindKeepsOutOfReach(gl, t.target, id, x);
    WritesKeepBindings(alloc, GlBindTexture(gl, t.target, id), Writes(t));
  }

  /** An image recorded through another target misses the texture its section is for. */
  lemma SectionMisses(alloc: Allocator, gl: Gl, id: GLuint, t: LiveTexture, c: TexImage2DCall)
    requires id != 0 && id in gl.textures && gl.textures[id] == BLANK_TEXTURE && OutOfReach(gl, id)
    requires ValidLive(id, t) && c in t.images && c.target != t.target
    ensures var r := Replay(alloc, gl, Section(id, t));
      id in r.textures && c.level !in r.textures[id].images
  {
    SectionWrites(alloc, gl, id, t);
    var bound := GlBindTexture(gl, t.target, id);
    assert BoundName(gl.bound, c.target) != id;
    assert forall d :: d in t.images && LEVEL_OF(d) == LEVEL_OF(c) ==> d == c;
    WritesMissLevel(alloc, bound, Writes(t), id, c.level);
  }

  ghost predicate Mixed(order: seq<GLuint>, live: map<GLuint, LiveTexture>) {
    exists id :: id in order && id in live && !OneTarget(live[id])
  }

  ghost predicate LosesLevel(gl: Gl, id: GLuint, t: LiveTexture) {
    exists c :: c in t.images && c.level !in Contents(gl, id).images
  }

  lemma {:induction false} EmissionLosesLevel(alloc: Allocator, gl: Gl, order: seq<GLuint>,
                                              live: map<GLuint, LiveTexture>)
    returns (lost: GLuint)
    requires forall i, j :: 0 <= i < j < |order| ==> order[i] != order[j]
    requires forall id :: id in order && id in live ==>
      ValidLive(id, live[id]) && id in gl.textures && gl.textures[id] == BLANK_TEXTURE
    requires forall id :: id in order ==> OutOfReach(gl, id)
    requires Mixed(order, live)
    ensures lost in live && LosesLevel(Replay(alloc, gl, Emit(order, live)), lost, live[lost])
    decreases |order|
  {
    var id, rest := order[0], order[1..];
    var head := SectionIfNeeded(id, live);
    var next := Replay(alloc, gl, head);
    ReplayConcat(alloc, gl, head, Emit(rest, live));
    forall x | x in rest
      ensures OutOfReach(next, x)
      ensures x in live ==> x in next.textures && next.textures[x] == BLANK_TEXTURE
    {
      if id in live && !Untouched(live[id]) {
        SectionKeepsOutOfReach(alloc, gl, id, live[id], x);
        if x in live {
          SectionSpares(alloc, gl, id, live[id], x);
        }
      }
    }
    if Mixed(rest, live) {
      lost := EmissionLosesLevel(alloc, next, rest, live);
    } else {
      lost := id;
      var c :| c in live[id].images && c.target != live[id].target;
      SectionMisses(alloc, gl, id, live[id], c);
      EmissionReplay(alloc, next, rest, live);
    }
  }

  // ----- what every driver promises of names --------------------------------

  predicate Unused(gl: Gl, id: GLuint) {
    id !in gl.textures && forall t :: t in gl.bound ==> gl.bound[t] != id
  }

  /** Each Gen of the log hands out names that are neither textures nor bound. */
  predicate NamesUnused(alloc: Allocator, gl: Gl, log: seq<Entry>)
    decreases |log|
  {
    log == [] ||
    ((log[0].GenTextures? ==> forall id :: id in log[0].names ==> Unused(gl, id))
     && NamesUnused(alloc, ReplayEntry(alloc, gl, log[0]), log[1..]))
  }

  /** Whatever is bound is a texture. */
  ghost predicate BoundExist(gl: Gl) {
    forall t :: BoundName(gl.bound, t) == 0 || BoundName(gl.bound, t) in gl.textures
  }

  /** Where the log's own textures are bound, the log bound them. */
  ghost predicate OwnBound(gl: Gl, s: Scan) {
    forall t :: SeesTarget(gl, s, t)
  }

  lemma StepOwnBound(alloc: Allocator, gl: Gl, s: Scan, e: Entry)
    requires OwnBound(gl, s) && EntryMatches(alloc, gl, e)
    requires e.GenTextures? ==> forall id :: id in e.names ==> Unused(gl, id)
    ensures OwnBound(ReplayEntry(alloc, gl, e), ScanStep(s, e))
  {
    hide StoreParam, StoreImage, LoggedImage;
    forall t ensures SeesTarget(ReplayEntry(alloc, gl, e), ScanStep(s, e), t) {
      assert SeesTarget(gl, s, t);
      if e.GenTextures? {
        assert t in gl.bound && gl.bound[t] in e.names ==> Unused(gl, gl.bound[t]);
      }
    }
  }

  /** A driver that hands out unused names never lets a binding older than the log reach the log's textures. */
  lemma {:induction false} UnusedNamesAreSeen(alloc: Allocator, gl: Gl, s: Scan, log: seq<Entry>)
    requires OwnBound(gl, s) && NamesUnused(alloc, gl, log) && IdsMatch(alloc, gl, log)
    ensures SeesWrites(alloc, gl, s, log)
    decreases |log|
  {
    hide ReplayEntry, ScanStep, Unused, SeesTarget;
    if log != [] {
      StepOwnBound(alloc, gl, s, log[0]);
      UnusedNamesAreSeen(alloc, ReplayEntry(alloc, gl, log[0]), ScanStep(s, log[0]), log[1..]);
    }
  }

  /** In `base`, after the Gen and Delete calls alone, no generated name is bound. */
  ghost predicate GeneratedUnbound(base: Gl, gl: Gl, names: seq<GLuint>) {
    && base.history == gl.history && BoundExist(base)
    && base.textures.Keys <= gl.textures.Keys
    && forall id :: id in names ==> OutOfReach(base, id)
  }

  lemma GenStaysUnbound(alloc: Allocator, base: Gl, gl: Gl, order: seq<GLuint>, e: Entry)
    requires GeneratedUnbound(base, gl, order) && EntryMatches(alloc, gl, e) && e.GenTextures?
    requires forall id :: id in e.names ==> Unused(gl, id)
    requires forall i, j :: 0 <= i < j < |order| ==> order[i] != order[j]
    ensures GeneratedUnbound(ReplayEntry(alloc, base, e), ReplayEntry(alloc, gl, e), AddUnseen(order, e.names))
  {
    AddUnseenFacts(order, e.names);
    forall id | id in e.names ensures OutOfReach(base, id) {
      assert Unused(gl, id);
    }
  }

  lemma DeleteStaysUnbound(alloc: Allocator, base: Gl, gl: Gl, order: seq<GLuint>, e: Entry)
    requires GeneratedUnbound(base, gl, order) && e.DeleteTextures?
    ensures GeneratedUnbound(ReplayEntry(alloc, base, e), ReplayEntry(alloc, gl, e), order)
  {
    var next := ReplayEntry(alloc, base, e);
    forall t ensures BoundName(next.bound, t) == 0 || BoundName(next.bound, t) == BoundName(base.bound, t)
      ensures BoundName(next.bound, t) == 0 || BoundName(next.bound, t) in next.textures
    {
      assert BoundName(base.bound, t) == 0 || BoundName(base.bound, t) in base.textures;
    }
    forall id | id in order ensures OutOfReach(next, id) {
      assert OutOfReach(base, id);
    }
  }

  lemma WriteStaysUnbound(alloc: Allocator, base: Gl, gl: Gl, order: seq<GLuint>, e: Entry)
    requires GeneratedUnbound(base, gl, order) && !IsNaming(e)
    ensures GeneratedUnbound(base, ReplayEntry(alloc, gl, e), order)
  {
    hide OutOfReach, BoundExist;
  }

  lemma StepStaysUnbound(alloc: Allocator, base: Gl, gl: Gl, s: Scan, e: Entry)
    requires GeneratedUnbound(base, gl, s.order) && ValidScan(s) && EntryMatches(alloc, gl, e)
    requires e.GenTextures? ==> forall id :: id in e.names ==> Unused(gl, id)
    ensures GeneratedUnbound(NamingOnly(alloc, base, e), ReplayEntry(alloc, gl, e), ScanStep(s, e).order)
  {
    hide GeneratedUnbound, ReplayEntry, Unused;
    if e.GenTextures? {
      GenStaysUnbound(alloc, base, gl, s.order, e);
    } else if e.DeleteTextures? {
      DeleteStaysUnbound(alloc, base, gl, s.order, e);
    } else {
      WriteStaysUnbound(alloc, base, gl, s.order, e);
    }
  }

  lemma {:induction false} GeneratedStayUnbound(alloc: Allocator, base: Gl, gl: Gl, s: Scan, log: seq<Entry>)
    requires GeneratedUnbound(base, gl, s.order) && ValidScan(s)
    requires NamesUnused(alloc, gl, log) && IdsMatch(alloc, gl, log)
    ensures GeneratedUnbound(Replay(alloc, base, Naming(log)), Replay(alloc, gl, log), ScanFrom(s, log).order)
    decreases |log|
  {
    hide GeneratedUnbound, ReplayEntry, ScanStep, ValidScan, Unused;
    if log != [] {
      var e := log[0];
      StepStaysUnbound(alloc, base, gl, s, e);
      StepKeepsValid(s, e);
      NamingReplay(alloc, base, log);
      GeneratedStayUnbound(alloc, NamingOnly(alloc, base, e), ReplayEntry(alloc, gl, e), ScanStep(s, e), log[1..]);
    }
  }

  // ----- exactly when compaction preserves meaning --------------------------

  /** From any context where what is bound exists, on any driver that hands out unused names, the compacted log
      rebuilds the store exactly when every surviving texture was uploaded through a single target and the writes
      to textures older than the log change nothing. */
  lemma CompactionPreservesMeaningIff(alloc: Allocator, start: Gl, log: seq<Entry>)
    requires BoundExist(start)
    requires NamesUnused(alloc, start, log) && IdsMatch(alloc, start, log)
    ensures SameStore(Replay(alloc, start, Compact(log)), Replay(alloc, start, log))
            <==> Homogeneous(ScanLog(log)) && StraysChangeNothing(alloc, start, log)
  {
    hide StraysChangeNothing, SeesTarget, BoundExist;
    NoneOwnYet(start);
    UnusedNamesAreSeen(alloc, start, EMPTY_SCAN, log);
    if Homogeneous(ScanLog(log)) {
      CompactionPreservesMeaning(alloc, start, log);
    } else {
      MixedTextureIsLost(alloc, start, log);
    }
  }

  lemma NoneOwnYet(start: Gl)
    ensures OwnBound(start, EMPTY_SCAN)
    ensures BoundExist(start) ==> GeneratedUnbound(start, start, EMPTY_SCAN.order)
  {
  }

  lemma MixedTextureIsLost(alloc: Allocator, start: Gl, log: seq<Entry>)
    requires BoundExist(start) && !Homogeneous(ScanLog(log))
    requires SeesWrites(alloc, start, EMPTY_SCAN, log)
    requires NamesUnused(alloc, start, log) && IdsMatch(alloc, start, log)
    ensures !SameStore(Replay(alloc, start, Compact(log)), Replay(alloc, start, log))
  {
    hide Emit, OutOfReach, BoundExist, NamesUnused, SeesWrites, Denote, Overlay;
    var s := ScanLog(log);
    ScanKeepsNaming(EMPTY_SCAN, log);
    ScanKeepsValid(EMPTY_SCAN, log);
    assert [] + Naming(log) == Naming(log);
    ReplayConcat(alloc, start, s.kept, Emit(s.order, s.live));
    NothingYet(start);
    ScanFollows(alloc, start, EMPTY_SCAN, map[], start, log);
    NoneOwnYet(start);
    GeneratedStayUnbound(alloc, start, start, EMPTY_SCAN, log);
    var base := Replay(alloc, start, Naming(log));
    var lost := EmissionLosesLevel(alloc, base, s.order, s.live);
    LostLevelShows(Replay(alloc, start, Compact(log)), Replay(alloc, start, log), lost, s.live[lost]);
  }

  lemma LostLevelShows(short: Gl, full: Gl, id: GLuint, t: LiveTexture)
    requires id in full.textures && full.textures[id] == Denote(t) && LosesLevel(short, id, t)
    ensures short.textures != full.textures
  {
    var c :| c in t.images && c.level !in Contents(short, id).images;
    IndexKeys(LEVEL_OF, t.images, c.level);
    var i :| 0 <= i < |t.images| && t.images[i] == c;
    assert LEVEL_OF(t.images[i]) == c.level;
    assert c.level in Denote(t).images;
  }

  /** A write to a texture made before the log began: the log compacts to nothing, and what was written is lost,
      although every write rebinds its target and every surviving texture has one. */
  lemma EarlierTextureLosesWrites(alloc: Allocator, history: seq<NameEvent>, pname: GLenum, param: GLint)
    ensures var start := Gl(history, map[], map[7 := BLANK_TEXTURE]);
      var log := [BindTexture(3553, 7), TexParameter(3553, pname, param)];
      && BoundExist(start) && NamesUnused(alloc, start, log) && IdsMatch(alloc, start, log)
      && Homogeneous(ScanLog(log)) && Rebinds({}, log)
      && Compact(log) == []
      && Replay(alloc, start, log).textures == map[7 := Texture(map[pname := param], map[])]
      && !SameStore(Replay(alloc, start, Compact(log)), Replay(alloc, start, log))
  {
    var start := Gl(history, map[], map[7 := BLANK_TEXTURE]);
    var e, f := BindTexture(3553, 7), TexParameter(3553, pname, param);
    var log := [e, f];
    assert log[1..] == [f] && [f][1..] == [];
    assert ScanLog(log) == ScanFrom(ScanStep(EMPTY_SCAN, e), [f]) == ScanStep(EMPTY_SCAN, e);
    assert Replay(alloc, start, log) == Replay(alloc, ReplayEntry(alloc, start, e), [f])
        == ReplayEntry(alloc, ReplayEntry(alloc, start, e), f);
    assert pname in map[pname := param];
    assert BLANK_TEXTURE.params[pname := param] == map[pname := param];
    assert start.textures[7 := Texture(map[pname := param], map[])] == map[7 := Texture(map[pname := param], map[])];
  }
}
