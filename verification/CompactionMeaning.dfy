/** Replaying a compacted log rebuilds the textures the full log generates, and leaves earlier ones alone. */
module CompactionMeaning {
  import opened HostTypes
  import opened Keyed
  import opened TextureLog
  import opened TextureMachine
  import opened CompactionShape

  // ----- what a live texture denotes ------------------------------------

  function ParamMap(params: seq<(GLenum, GLint)>): map<GLenum, GLint> {
    var table := Index(PNAME_OF, params);
    map k: GLenum | k in table :: table[k].1
  }

  function ImageMap(images: seq<TexImage2DCall>): map<int32, Image> {
    var table := Index(LEVEL_OF, images);
    map k: int32 | k in table :: LoggedImage(table[k])
  }

  function Denote(t: LiveTexture): Texture {
    Texture(ParamMap(t.params), ImageMap(t.images))
  }

  lemma StoreParamDenotes(t: LiveTexture, target: GLenum, pname: GLenum, param: GLint)
    ensures Denote(StoreParam(t, target, pname, param))
            == Denote(t).(params := Denote(t).params[pname := param])
  {
    PutUpdatesIndex(PNAME_OF, t.params, (pname, param));
  }

  lemma StoreImageDenotes(t: LiveTexture, call: TexImage2DCall)
    ensures Denote(StoreImage(t, call))
            == Denote(t).(images := Denote(t).images[call.level := LoggedImage(call)])
  {
    hide ParamMap;
    StoreImageInMap(t.images, call);
  }

  lemma StoreImageInMap(images: seq<TexImage2DCall>, call: TexImage2DCall)
    ensures ImageMap(Put(LEVEL_OF, images, call)) == ImageMap(images)[call.level := LoggedImage(call)]
  {
    hide LoggedImage;
    PutUpdatesIndex(LEVEL_OF, images, call);
  }

  // ----- the hypotheses -------------------------------------------------

  /** If a command on `target` reaches a texture generated in the log, then through a binding made in the log. */
  predicate SeesTarget(gl: Gl, s: Scan, target: GLenum) {
    var id := BoundName(gl.bound, target);
    id == 0 || id !in s.live || BoundName(s.bound, target) == id
  }

  predicate SeesWrite(gl: Gl, s: Scan, e: Entry) {
    match e
    case TexParameter(target, _, _) => SeesTarget(gl, s, target)
    case TexImage2D(call) => SeesTarget(gl, s, call.target)
    case _ => true
  }

  /** No write reaches a texture generated in the log through a binding older than the log. */
  predicate SeesWrites(alloc: Allocator, gl: Gl, s: Scan, log: seq<Entry>)
    decreases |log|
  {
    log == [] ||
    (SeesWrite(gl, s, log[0]) && SeesWrites(alloc, ReplayEntry(alloc, gl, log[0]), ScanStep(s, log[0]), log[1..]))
  }

  /** All levels of a texture were uploaded through its one synthesized bind's target. */
  ghost predicate OneTarget(t: LiveTexture) {
    forall c :: c in t.images ==> c.target == t.target
  }

  ghost predicate Homogeneous(s: Scan) {
    forall id :: id in s.live ==> OneTarget(s.live[id])
  }

  // ----- writes to textures the log did not generate ----------------------

  /** What was written to each texture that is not the log's own, since it was last deleted. */
  type Strays = map<GLuint, Texture>

  function PartOf(w: Strays, id: GLuint): Texture {
    if id in w then w[id] else BLANK_TEXTURE
  }

  predicate IsStray(s: Scan, id: GLuint) {
    id != 0 && id !in s.live
  }

  function StrayStep(gl: Gl, s: Scan, w: Strays, e: Entry): Strays {
    match e
    case GenTextures(ids) => w - (set i | i in ids)
    case DeleteTextures(ids) => w - (set i | i in ids)
    case BindTexture(_, _) => w
    case TexParameter(target, pname, param) =>
      var id := BoundName(gl.bound, target);
      if IsStray(s, id) then w[id := PartOf(w, id).(params := PartOf(w, id).params[pname := param])] else w
    case TexImage2D(call) =>
      var id := BoundName(gl.bound, call.target);
      if IsStray(s, id)
      then w[id := PartOf(w, id).(images := PartOf(w, id).images[call.level := LoggedImage(call)])]
      else w
  }

  function StraysFrom(alloc: Allocator, gl: Gl, s: Scan, w: Strays, log: seq<Entry>): Strays
    decreases |log|
  {
    if log == [] then w
    else StraysFrom(alloc, ReplayEntry(alloc, gl, log[0]), ScanStep(s, log[0]), StrayStep(gl, s, w, log[0]), log[1..])
  }

  function StraysOf(alloc: Allocator, start: Gl, log: seq<Entry>): Strays {
    StraysFrom(alloc, start, EMPTY_SCAN, map[], log)
  }

  function DeletedBy(e: Entry): set<GLuint> {
    if e.DeleteTextures? then set i | i in e.ids else {}
  }

  /** Names deleted anywhere in the log. */
  function DeletedNames(log: seq<Entry>): set<GLuint> {
    if log == [] then {} else DeletedBy(log[0]) + DeletedNames(log[1..])
  }

  function Overlay(under: Texture, over: Texture): Texture {
    Texture(under.params + over.params, under.images + over.images)
  }

  /** Every stray write puts into a texture of the start, never deleted, what it already held. */
  ghost predicate Quiet(start: Gl, deleted: set<GLuint>, w: Strays) {
    forall id :: id in w ==>
      id in start.textures && id !in deleted && Overlay(start.textures[id], w[id]) == start.textures[id]
  }

  /** The log's writes to textures it did not generate change nothing. */
  ghost predicate StraysChangeNothing(alloc: Allocator, start: Gl, log: seq<Entry>) {
    Quiet(start, DeletedNames(log), StraysOf(alloc, start, log))
  }

  // ----- the scan follows the machine -----------------------------------

  /** `base` is the context after only the Gen and Delete calls so far; `gl` is the context after everything
      so far: the log's own textures as accumulated, every other one as in `base` with the strays on top. */
  ghost predicate Follows(base: Gl, s: Scan, w: Strays, gl: Gl) {
    && gl.history == base.history
    && OwnFollow(base.textures, s.live, gl.textures) && OthersFollow(base.textures, s.live.Keys, w, gl.textures)
    && (forall t :: t in s.bound ==> BoundName(gl.bound, t) == s.bound[t])
  }

  ghost predicate OwnFollow(base: map<GLuint, Texture>, live: map<GLuint, LiveTexture>, gl: map<GLuint, Texture>) {
    forall id :: id in live ==>
      && id in base && base[id] == BLANK_TEXTURE
      && id in gl && gl[id] == Denote(live[id])
  }

  ghost predicate OthersFollow(base: map<GLuint, Texture>, own: set<GLuint>, w: Strays, gl: map<GLuint, Texture>) {
    && (forall id :: id in w ==> id !in own)
    && (forall id :: id !in own ==> (id in gl <==> id in base || id in w))
    && (forall id :: id !in own && id in gl ==> gl[id] == Overlay(TextureAt(base, id), PartOf(w, id)))
  }

  function NamingOnly(alloc: Allocator, base: Gl, e: Entry): Gl {
    if IsNaming(e) then ReplayEntry(alloc, base, e) else base
  }

  lemma FreshDenotesBlank()
    ensures Denote(FRESH_TEXTURE) == BLANK_TEXTURE
  {
  }

  lemma NothingOverlaid(t: Texture)
    ensures Overlay(t, BLANK_TEXTURE) == t
  {
  }

  lemma GenFollows(alloc: Allocator, base: Gl, s: Scan, w: Strays, gl: Gl, e: Entry)
    requires Follows(base, s, w, gl) && e.GenTextures? && EntryMatches(alloc, gl, e)
    ensures Follows(ReplayEntry(alloc, base, e), ScanStep(s, e), StrayStep(gl, s, w, e), ReplayEntry(alloc, gl, e))
  {
    hide OwnFollow, OthersFollow, Renewed, Generate;
    GenOwnFollow(base.textures, s.live, gl.textures, e.names);
    GenOthersFollow(base.textures, s.live, w, gl.textures, e.names);
  }

  lemma GenOwnFollow(base: map<GLuint, Texture>, live: map<GLuint, LiveTexture>, gl: map<GLuint, Texture>,
                     ids: seq<GLuint>)
    requires OwnFollow(base, live, gl)
    ensures OwnFollow(Renewed(base, ids), Generate(live, ids), Renewed(gl, ids))
  {
    hide Denote;
    FreshDenotesBlank();
  }

  lemma GenOthersFollow(base: map<GLuint, Texture>, live: map<GLuint, LiveTexture>, w: Strays, gl: map<GLuint, Texture>,
                        ids: seq<GLuint>)
    requires OthersFollow(base, live.Keys, w, gl)
    ensures OthersFollow(Renewed(base, ids), Generate(live, ids).Keys, w - (set i | i in ids), Renewed(gl, ids))
  {
    hide Overlay;
  }

  lemma DeleteFollows(alloc: Allocator, base: Gl, s: Scan, w: Strays, gl: Gl, e: Entry)
    requires Follows(base, s, w, gl) && e.DeleteTextures?
    ensures Follows(ReplayEntry(alloc, base, e), ScanStep(s, e), StrayStep(gl, s, w, e), ReplayEntry(alloc, gl, e))
  {
    hide OwnFollow, OthersFollow;
    var ids := set i | i in e.ids;
    DeleteOwnFollow(base.textures, s.live, gl.textures, ids);
    DeleteOthersFollow(base.textures, s.live.Keys, w, gl.textures, ids);
    assert (s.live - ids).Keys == s.live.Keys - ids;
  }

  lemma DeleteOwnFollow(base: map<GLuint, Texture>, live: map<GLuint, LiveTexture>, gl: map<GLuint, Texture>,
                        ids: set<GLuint>)
    requires OwnFollow(base, live, gl)
    ensures OwnFollow(base - ids, live - ids, gl - ids)
  {
    hide Denote;
  }

  lemma DeleteOthersFollow(base: map<GLuint, Texture>, own: set<GLuint>, w: Strays, gl: map<GLuint, Texture>,
                           ids: set<GLuint>)
    requires OthersFollow(base, own, w, gl)
    ensures OthersFollow(base - ids, own - ids, w - ids, gl - ids)
  {
    hide Overlay;
    forall id | id !in own - ids && id in gl - ids
      ensures (gl - ids)[id] == Overlay(TextureAt(base - ids, id), PartOf(w - ids, id))
    {
      assert id !in own && id !in ids;
    }
  }

  lemma BindFollows(base: Gl, s: Scan, w: Strays, gl: Gl, target: GLenum, texture: GLuint)
    requires Follows(base, s, w, gl)
    ensures Follows(base, s.(bound := s.bound[target := texture]), w, GlBindTexture(gl, target, texture))
  {
    hide OwnFollow, OthersFollow;
  }

  /** Writing one of the log's own textures in the scan and in the store keeps them together. */
  lemma WriteFollows(base: Gl, s: Scan, w: Strays, gl: Gl, id: GLuint, t: LiveTexture)
    requires Follows(base, s, w, gl) && id in s.live
    ensures Follows(base, s.(live := s.live[id := t]), w, gl.(textures := gl.textures[id := Denote(t)]))
  {
    hide OwnFollow, OthersFollow, Denote;
    assert s.live[id := t].Keys == s.live.Keys;
    OwnWriteFollow(base.textures, s.live, gl.textures, id, t);
    OwnWriteSparesOthers(base.textures, s.live.Keys, w, gl.textures, id, Denote(t));
  }

  lemma OwnWriteFollow(base: map<GLuint, Texture>, live: map<GLuint, LiveTexture>, gl: map<GLuint, Texture>,
                       id: GLuint, t: LiveTexture)
    requires OwnFollow(base, live, gl) && id in live
    ensures OwnFollow(base, live[id := t], gl[id := Denote(t)])
  {
    hide Denote;
  }

  lemma OwnWriteSparesOthers(base: map<GLuint, Texture>, own: set<GLuint>, w: Strays, gl: map<GLuint, Texture>,
                             id: GLuint, t: Texture)
    requires OthersFollow(base, own, w, gl) && id in own
    ensures OthersFollow(base, own, w, gl[id := t])
  {
    hide Overlay, TextureAt, PartOf;
  }

  /** So does writing any other one, when the stray writes account for it. */
  lemma StrayFollows(base: Gl, s: Scan, w: Strays, gl: Gl, id: GLuint, part: Texture)
    requires Follows(base, s, w, gl) && IsStray(s, id)
    ensures Follows(base, s, w[id := part], gl.(textures := gl.textures[id := Overlay(Contents(base, id), part)]))
  {
    hide OwnFollow, OthersFollow, Overlay;
    StrayOwnFollow(base.textures, s.live, gl.textures, id, Overlay(Contents(base, id), part));
    StrayOthersFollow(base.textures, s.live.Keys, w, gl.textures, id, part);
  }

  lemma StrayOwnFollow(base: map<GLuint, Texture>, live: map<GLuint, LiveTexture>, gl: map<GLuint, Texture>,
                       id: GLuint, t: Texture)
    requires OwnFollow(base, live, gl) && id !in live
    ensures OwnFollow(base, live, gl[id := t])
  {
    hide Denote;
  }

  lemma StrayOthersFollow(base: map<GLuint, Texture>, own: set<GLuint>, w: Strays, gl: map<GLuint, Texture>,
                          id: GLuint, part: Texture)
    requires OthersFollow(base, own, w, gl) && id !in own
    ensures OthersFollow(base, own, w[id := part], gl[id := Overlay(TextureAt(base, id), part)])
  {
    hide Overlay, TextureAt;
  }

  lemma StrayContents(base: Gl, s: Scan, w: Strays, gl: Gl, id: GLuint)
    requires Follows(base, s, w, gl) && IsStray(s, id)
    ensures Contents(gl, id) == Overlay(Contents(base, id), PartOf(w, id))
  {
    hide Overlay, OwnFollow;
    NothingOverlaid(BLANK_TEXTURE);
  }

  lemma OverlayWrites(under: Texture, over: Texture, pname: GLenum, param: GLint, level: int32, image: Image)
    ensures var t := Overlay(under, over);
      && t.(params := t.params[pname := param]) == Overlay(under, over.(params := over.params[pname := param]))
      && t.(images := t.images[level := image]) == Overlay(under, over.(images := over.images[level := image]))
  {
    assert (under.params + over.params)[pname := param] == under.params + over.params[pname := param];
    assert (under.images + over.images)[level := image] == under.images + over.images[level := image];
  }

  lemma ParamFollows(base: Gl, s: Scan, w: Strays, gl: Gl, target: GLenum, pname: GLenum, param: GLint)
    requires Follows(base, s, w, gl) && SeesTarget(gl, s, target)
    ensures var e := TexParameter(target, pname, param);
      Follows(base, ScanStep(s, e), StrayStep(gl, s, w, e), GlTexParameter(gl, target, pname, param))
  {
    hide OwnFollow, OthersFollow, Denote, Overlay, StoreParam;
    var id := BoundName(gl.bound, target);
    if IsStray(s, id) {
      StrayContents(base, s, w, gl, id);
      OverlayWrites(Contents(base, id), PartOf(w, id), pname, param, 0, Image(0, 0, 0, 0, 0, None));
      StrayFollows(base, s, w, gl, id, PartOf(w, id).(params := PartOf(w, id).params[pname := param]));
    } else if id != 0 {
      OwnContents(base, s, w, gl, id);
      StoreParamDenotes(s.live[id], target, pname, param);
      WriteFollows(base, s, w, gl, id, StoreParam(s.live[id], target, pname, param));
    }
  }

  lemma ImageFollows(base: Gl, s: Scan, w: Strays, gl: Gl, call: TexImage2DCall)
    requires Follows(base, s, w, gl) && SeesTarget(gl, s, call.target)
    ensures var e := TexImage2D(call);
      Follows(base, ScanStep(s, e), StrayStep(gl, s, w, e),
              GlTexImage2D(gl, call.target, call.level, LoggedImage(call)))
  {
    hide OwnFollow, OthersFollow, Denote, Overlay, StoreImage, LoggedImage;
    var id := BoundName(gl.bound, call.target);
    if IsStray(s, id) {
      StrayContents(base, s, w, gl, id);
      OverlayWrites(Contents(base, id), PartOf(w, id), 0, 0, call.level, LoggedImage(call));
      StrayFollows(base, s, w, gl, id, PartOf(w, id).(images := PartOf(w, id).images[call.level := LoggedImage(call)]));
    } else if id != 0 {
      OwnContents(base, s, w, gl, id);
      StoreImageDenotes(s.live[id], call);
      WriteFollows(base, s, w, gl, id, StoreImage(s.live[id], call));
    }
  }

  lemma OwnContents(base: Gl, s: Scan, w: Strays, gl: Gl, id: GLuint)
    requires Follows(base, s, w, gl) && id in s.live
    ensures Contents(gl, id) == Denote(s.live[id])
  {
  }

  lemma StepFollows(alloc: Allocator, base: Gl, s: Scan, w: Strays, gl: Gl, e: Entry)
    requires Follows(base, s, w, gl)
    requires SeesWrite(gl, s, e) && EntryMatches(alloc, gl, e)
    ensures Follows(NamingOnly(alloc, base, e), ScanStep(s, e), StrayStep(gl, s, w, e), ReplayEntry(alloc, gl, e))
  {
    hide Follows, Denote, StoreParam, StoreImage, StrayStep;
    match e {
      case GenTextures(_) => GenFollows(alloc, base, s, w, gl, e);
      case DeleteTextures(_) => DeleteFollows(alloc, base, s, w, gl, e);
      case BindTexture(target, texture) =>
        BindFollows(base, s, w, gl, target, texture);
        BindIsNoWrite(gl, s, w, e);
      case TexParameter(target, pname, param) => ParamFollows(base, s, w, gl, target, pname, param);
      case TexImage2D(call) => ImageFollows(base, s, w, gl, call);
    }
  }

  lemma BindIsNoWrite(gl: Gl, s: Scan, w: Strays, e: Entry)
    requires e.BindTexture?
    ensures StrayStep(gl, s, w, e) == w
  {
  }

  /** At every point of the log the scan and the strays account for the whole store. */
  lemma {:induction false} ScanFollows(alloc: Allocator, base: Gl, s: Scan, w: Strays, gl: Gl, log: seq<Entry>)
    requires Follows(base, s, w, gl)
    requires SeesWrites(alloc, gl, s, log) && IdsMatch(alloc, gl, log)
    ensures Follows(Replay(alloc, base, Naming(log)), ScanFrom(s, log), StraysFrom(alloc, gl, s, w, log),
                    Replay(alloc, gl, log))
    decreases |log|
  {
    hide Follows, StrayStep, ScanStep, SeesWrite;
    if log != [] {
      var e := log[0];
      StepFollows(alloc, base, s, w, gl, e);
      ScanFollows(alloc, NamingOnly(alloc, base, e), ScanStep(s, e), StrayStep(gl, s, w, e),
                  ReplayEntry(alloc, gl, e), log[1..]);
      NamingReplay(alloc, base, log);
    }
  }

  lemma NamingReplay(alloc: Allocator, base: Gl, log: seq<Entry>)
    requires log != []
    ensures Replay(alloc, base, Naming(log)) == Replay(alloc, NamingOnly(alloc, base, log[0]), Naming(log[1..]))
    ensures IdsMatch(alloc, base, Naming(log)) ==>
      EntryMatches(alloc, base, log[0]) && IdsMatch(alloc, NamingOnly(alloc, base, log[0]), Naming(log[1..]))
  {
    hide ReplayEntry;
    if IsNaming(log[0]) {
      assert Naming(log)[0] == log[0] && Naming(log)[1..] == Naming(log[1..]);
    } else {
      assert Naming(log) == Naming(log[1..]);
    }
  }

  // ----- what the Gen and Delete calls alone leave of earlier textures -----

  ghost predicate KeepsEarlier(start: Gl, base: Gl, names: set<GLuint>, deleted: set<GLuint>) {
    forall id :: id !in names ==>
      && (id in base.textures <==> id in start.textures && id !in deleted)
      && (id in base.textures ==> base.textures[id] == start.textures[id])
  }

  lemma NamingStepKeepsEarlier(alloc: Allocator, start: Gl, base: Gl, names: set<GLuint>, deleted: set<GLuint>,
                               e: Entry)
    requires KeepsEarlier(start, base, names, deleted) && EntryMatches(alloc, base, e)
    ensures KeepsEarlier(start, NamingOnly(alloc, base, e), NamesAfter(names, e), deleted + DeletedBy(e))
  {
  }

  lemma {:induction false} NamingKeepsEarlier(alloc: Allocator, start: Gl, base: Gl, names: set<GLuint>,
                                              deleted: set<GLuint>, log: seq<Entry>)
    requires KeepsEarlier(start, base, names, deleted) && IdsMatch(alloc, base, Naming(log))
    ensures KeepsEarlier(start, Replay(alloc, base, Naming(log)), LiveNames(names, log), deleted + DeletedNames(log))
    decreases |log|
  {
    hide KeepsEarlier, ReplayEntry;
    if log == [] {
      assert deleted + {} == deleted;
    } else {
      var e := log[0];
      NamingReplay(alloc, base, log);
      NamingStepKeepsEarlier(alloc, start, base, names, deleted, e);
      NamingKeepsEarlier(alloc, start, NamingOnly(alloc, base, e), NamesAfter(names, e), deleted + DeletedBy(e),
                         log[1..]);
      assert deleted + DeletedBy(e) + DeletedNames(log[1..]) == deleted + DeletedNames(log);
    }
  }

  // ----- replaying the emission -----------------------------------------

  lemma ParamMapHead(m: map<GLenum, GLint>, params: seq<(GLenum, GLint)>)
    requires params != [] && DistinctKeys(PNAME_OF, params)
    ensures m[params[0].0 := params[0].1] + ParamMap(params[1..]) == m + ParamMap(params)
  {
    IndexKeys(PNAME_OF, params[1..], params[0].0);
    assert forall i :: 0 <= i < |params[1..]| ==> params[1..][i] == params[i + 1];
  }

  lemma ImageMapHead(m: map<int32, Image>, images: seq<TexImage2DCall>)
    requires images != [] && DistinctKeys(LEVEL_OF, images)
    ensures m[images[0].level := LoggedImage(images[0])] + ImageMap(images[1..]) == m + ImageMap(images)
  {
    IndexKeys(LEVEL_OF, images[1..], images[0].level);
    assert forall i :: 0 <= i < |images[1..]| ==> images[1..][i] == images[i + 1];
  }

  lemma {:induction false} ParamEntriesReplay(alloc: Allocator, gl: Gl, id: GLuint, target: GLenum,
                                              params: seq<(GLenum, GLint)>)
    requires id != 0 && BoundName(gl.bound, target) == id && id in gl.textures
    requires DistinctKeys(PNAME_OF, params)
    ensures var t := gl.textures[id];
      Replay(alloc, gl, ParamEntries(target, params))
      == gl.(textures := gl.textures[id := t.(params := t.params + ParamMap(params))])
    decreases |params|
  {
    var t := gl.textures[id];
    var entries := ParamEntries(target, params);
    if params == [] {
      assert t.params + ParamMap(params) == t.params;
      assert gl.textures[id := t] == gl.textures;
    } else {
      var p, rest := params[0], params[1..];
      assert entries[0] == TexParameter(target, p.0, p.1) && entries[1..] == ParamEntries(target, rest);
      var next := ReplayEntry(alloc, gl, entries[0]);
      ParamEntriesReplay(alloc, next, id, target, rest);
      ParamMapHead(t.params, params);
    }
  }

  lemma {:induction false} ImageEntriesReplay(alloc: Allocator, gl: Gl, id: GLuint, target: GLenum,
                                              images: seq<TexImage2DCall>)
    requires id != 0 && BoundName(gl.bound, target) == id && id in gl.textures
    requires DistinctKeys(LEVEL_OF, images) && forall c :: c in images ==> c.target == target
    ensures var t := gl.textures[id];
      Replay(alloc, gl, ImageEntries(images))
      == gl.(textures := gl.textures[id := t.(images := t.images + ImageMap(images))])
    decreases |images|
  {
    var t := gl.textures[id];
    var entries := ImageEntries(images);
    if images == [] {
      assert t.images + ImageMap(images) == t.images;
      assert gl.textures[id := t] == gl.textures;
    } else {
      var c, rest := images[0], images[1..];
      assert entries[0] == TexImage2D(c) && entries[1..] == ImageEntries(rest);
      var next := ReplayEntry(alloc, gl, entries[0]);
      ImageEntriesReplay(alloc, next, id, target, rest);
      ImageMapHead(t.images, images);
    }
  }

  /** One section writes exactly its own texture. */
  lemma SectionReplay(alloc: Allocator, gl: Gl, id: GLuint, t: LiveTexture)
    requires id != 0 && id in gl.textures && gl.textures[id] == BLANK_TEXTURE
    requires ValidLive(id, t) && OneTarget(t)
    ensures Replay(alloc, gl, Section(id, t))
            == gl.(bound := gl.bound[t.target := id], textures := gl.textures[id := Denote(t)])
  {
    var bind, ps, cs := [BindTexture(t.target, id)], ParamEntries(t.target, t.params), ImageEntries(t.images);
    ReplayConcat(alloc, gl, bind + ps, cs);
    ReplayConcat(alloc, gl, bind, ps);
    var bound := ReplayEntry(alloc, gl, bind[0]);
    assert Replay(alloc, gl, bind) == bound by {
      assert bind[1..] == [];
    }
    ParamEntriesReplay(alloc, bound, id, t.target, t.params);
    assert BLANK_TEXTURE.params + ParamMap(t.params) == ParamMap(t.params);
    var withParams := Replay(alloc, bound, ps);
    ImageEntriesReplay(alloc, withParams, id, t.target, t.images);
    assert BLANK_TEXTURE.images + ImageMap(t.images) == ImageMap(t.images);
  }

  /** The names in `order` whose sections are still to be replayed are blank; the emission fills them in. */
  lemma {:induction false} EmissionReplay(alloc: Allocator, gl: Gl, order: seq<GLuint>, live: map<GLuint, LiveTexture>)
    requires forall i, j :: 0 <= i < j < |order| ==> order[i] != order[j]
    requires forall id :: id in order && id in live ==> ValidLive(id, live[id]) && OneTarget(live[id])
    requires forall id :: id in order && id in live ==> id in gl.textures && gl.textures[id] == BLANK_TEXTURE
    ensures var r := Replay(alloc, gl, Emit(order, live));
      && r.history == gl.history
      && r.textures.Keys == gl.textures.Keys
      && (forall id :: id in order && id in live ==> r.textures[id] == Denote(live[id]))
      && (forall id :: id in gl.textures && !(id in order && id in live) ==> r.textures[id] == gl.textures[id])
    decreases |order|
  {
    if order != [] {
      var id, rest := order[0], order[1..];
      var head := SectionIfNeeded(id, live);
      ReplayConcat(alloc, gl, head, Emit(rest, live));
      FreshDenotesBlank();
      if id in live && !Untouched(live[id]) {
        SectionReplay(alloc, gl, id, live[id]);
      }
      var next := Replay(alloc, gl, head);
      assert next.textures.Keys == gl.textures.Keys;
      assert id in live ==> next.textures[id] == Denote(live[id]);
      assert id !in rest;
      EmissionReplay(alloc, next, rest, live);
      assert forall i :: i in order <==> i == id || i in rest;
    }
  }

  // ----- main results ---------------------------------------------------

  ghost predicate SameStore(g: Gl, h: Gl) {
    g.textures == h.textures && g.history == h.history
  }

  /** `short` has the textures of `own` as `full` has them and every earlier one as it was at the start; `full` has
      the strays on top of the earlier ones. */
  ghost predicate Rebuilds(start: Gl, own: set<GLuint>, deleted: set<GLuint>, w: Strays, short: Gl, full: Gl) {
    && short.history == full.history
    && (forall id :: id in own ==>
          id in short.textures && id in full.textures && short.textures[id] == full.textures[id])
    && KeepsEarlier(start, short, own, deleted)
    && OthersFollow(short.textures, own, w, full.textures)
  }

  lemma FullFollows(alloc: Allocator, start: Gl, log: seq<Entry>)
    requires SeesWrites(alloc, start, EMPTY_SCAN, log) && IdsMatch(alloc, start, log)
    ensures Follows(Replay(alloc, start, Naming(log)), ScanLog(log), StraysOf(alloc, start, log),
                    Replay(alloc, start, log))
  {
    hide Follows;
    NothingYet(start);
    ScanFollows(alloc, start, EMPTY_SCAN, map[], start, log);
  }

  lemma ShortEmits(alloc: Allocator, start: Gl, log: seq<Entry>)
    requires Homogeneous(ScanLog(log))
    requires OwnBlank(Replay(alloc, start, Naming(log)).textures, ScanLog(log).live)
    ensures Emits(Replay(alloc, start, Naming(log)), ScanLog(log).live, Replay(alloc, start, Compact(log)))
  {
    hide Denote, Emit;
    var s, base := ScanLog(log), Replay(alloc, start, Naming(log));
    ScanKeepsNaming(EMPTY_SCAN, log);
    ScanKeepsValid(EMPTY_SCAN, log);
    assert [] + Naming(log) == Naming(log);
    ReplayConcat(alloc, start, s.kept, Emit(s.order, s.live));
    EmissionReplay(alloc, base, s.order, s.live);
  }

  ghost predicate OwnBlank(base: map<GLuint, Texture>, live: map<GLuint, LiveTexture>) {
    forall id :: id in live ==> id in base && base[id] == BLANK_TEXTURE
  }

  ghost predicate Emits(base: Gl, live: map<GLuint, LiveTexture>, short: Gl) {
    && short.history == base.history && short.textures.Keys == base.textures.Keys
    && (forall id :: id in live ==> id in short.textures && short.textures[id] == Denote(live[id]))
    && (forall id :: id in base.textures && id !in live ==> short.textures[id] == base.textures[id])
  }

  lemma BaseKeepsEarlier(alloc: Allocator, start: Gl, log: seq<Entry>)
    requires IdsMatch(alloc, start, log)
    ensures KeepsEarlier(start, Replay(alloc, start, Naming(log)), LiveNames({}, log), DeletedNames(log))
  {
    hide KeepsEarlier;
    NamingOfNaming(log);
    NamingDecidesIds(alloc, start, start, log, Naming(log));
    EarlierAtStart(start);
    NamingKeepsEarlier(alloc, start, start, {}, {}, log);
    assert {} + DeletedNames(log) == DeletedNames(log);
  }

  lemma FollowsIsOwnBlank(base: Gl, s: Scan, w: Strays, gl: Gl)
    requires Follows(base, s, w, gl)
    ensures OwnBlank(base.textures, s.live)
  {
    hide Denote, OthersFollow;
  }

  lemma EmittedRebuilds(start: Gl, base: Gl, s: Scan, w: Strays, short: Gl, full: Gl, deleted: set<GLuint>)
    requires Follows(base, s, w, full) && Emits(base, s.live, short)
    requires KeepsEarlier(start, base, s.live.Keys, deleted)
    ensures Rebuilds(start, s.live.Keys, deleted, w, short, full)
  {
    hide Denote, Overlay, OthersFollow;
    EmittedOthers(base, s, w, short, full);
    SameOthers(start, base, short, s.live.Keys, deleted);
  }

  lemma EmittedOthers(base: Gl, s: Scan, w: Strays, short: Gl, full: Gl)
    requires OthersFollow(base.textures, s.live.Keys, w, full.textures) && Emits(base, s.live, short)
    ensures OthersFollow(short.textures, s.live.Keys, w, full.textures)
  {
    hide Denote, Overlay;
  }

  /** What replaying the compacted log gives for every log: the same names and history; every texture generated in
      the log and alive at its end exactly as the full log builds it; and every earlier one as it was at the start.
      The full log leaves the same, with the stray writes on top of the earlier textures. */
  lemma CompactionRebuilds(alloc: Allocator, start: Gl, log: seq<Entry>)
    requires SeesWrites(alloc, start, EMPTY_SCAN, log)
    requires Homogeneous(ScanLog(log))
    requires IdsMatch(alloc, start, log)
    ensures IdsMatch(alloc, start, Compact(log))
    ensures Rebuilds(start, LiveNames({}, log), DeletedNames(log), StraysOf(alloc, start, log),
                     Replay(alloc, start, Compact(log)), Replay(alloc, start, log))
  {
    hide Follows, Emits, OwnBlank, KeepsEarlier, Rebuilds, Compact, Homogeneous, LiveNames, DeletedNames, StraysOf;
    CompactKeepsNaming(log);
    NamingDecidesIds(alloc, start, start, log, Compact(log));
    var s, w, base := ScanLog(log), StraysOf(alloc, start, log), Replay(alloc, start, Naming(log));
    FullFollows(alloc, start, log);
    FollowsIsOwnBlank(base, s, w, Replay(alloc, start, log));
    ShortEmits(alloc, start, log);
    BaseKeepsEarlier(alloc, start, log);
    LiveNamesAreLive(log);
    EmittedRebuilds(start, base, s, w, Replay(alloc, start, Compact(log)), Replay(alloc, start, log),
                    DeletedNames(log));
  }

  lemma LiveNamesAreLive(log: seq<Entry>)
    ensures ScanLog(log).live.Keys == LiveNames({}, log)
  {
    ScanLiveNames(EMPTY_SCAN, log);
    assert EMPTY_SCAN.live.Keys == {};
  }

  lemma NothingYet(start: Gl)
    ensures Follows(start, EMPTY_SCAN, map[], start)
  {
    hide Overlay;
    forall t: Texture ensures Overlay(t, BLANK_TEXTURE) == t {
      NothingOverlaid(t);
    }
  }

  lemma EarlierAtStart(start: Gl)
    ensures KeepsEarlier(start, start, {}, {})
  {
  }

  lemma SameOthers(start: Gl, base: Gl, gl: Gl, names: set<GLuint>, deleted: set<GLuint>)
    requires KeepsEarlier(start, base, names, deleted)
    requires gl.textures.Keys == base.textures.Keys
    requires forall id :: id in gl.textures && id !in names ==> gl.textures[id] == base.textures[id]
    ensures KeepsEarlier(start, gl, names, deleted)
  {
  }

  /** For a log whose surviving textures have one target each, replaying the compacted log builds the very store
      of the full log exactly when the log's writes to earlier textures change nothing. */
  lemma CompactionPreservesMeaning(alloc: Allocator, start: Gl, log: seq<Entry>)
    requires SeesWrites(alloc, start, EMPTY_SCAN, log)
    requires Homogeneous(ScanLog(log))
    requires IdsMatch(alloc, start, log)
    ensures IdsMatch(alloc, start, Compact(log))
    ensures SameStore(Replay(alloc, start, Compact(log)), Replay(alloc, start, log))
            <==> StraysChangeNothing(alloc, start, log)
  {
    hide Rebuilds, Overlay, LiveNames, DeletedNames, Compact, StraysOf;
    CompactionRebuilds(alloc, start, log);
    SameWhenStraysAreQuiet(start, LiveNames({}, log), DeletedNames(log), StraysOf(alloc, start, log),
                           Replay(alloc, start, Compact(log)), Replay(alloc, start, log));
  }

  lemma SameWhenStraysAreQuiet(start: Gl, own: set<GLuint>, deleted: set<GLuint>, w: Strays, short: Gl, full: Gl)
    requires Rebuilds(start, own, deleted, w, short, full)
    ensures SameStore(short, full) <==> Quiet(start, deleted, w)
  {
    hide Overlay;
    if Quiet(start, deleted, w) {
      assert short.textures.Keys == full.textures.Keys;
      forall id | id in short.textures && id !in own && id !in w
        ensures short.textures[id] == full.textures[id]
      {
        NothingOverlaid(short.textures[id]);
      }
    }
  }
}
