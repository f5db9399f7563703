/** The recording backend: every texture command is forwarded and logged, and the log
    keeps describing the wrapped backend's texture store across compactions. */
module TextureRecorder {
  import opened GlFormats
  import opened HostTypes
  import opened IntegerLaws
  import opened TextureLog
  import opened TextureMachine
  import opened CompactionShape
  import opened CompactionMeaning
  import opened CompactionSession

  // ----- images as callers pass them ------------------------------------

  /** The caller's buffer may be longer than the image; only the image's bytes are read. */
  datatype GlTextureImage = GlTextureImage(
    level: int32, internalFormat: GLenum, width: int32, height: int32,
    format: GLenum, pixelType: GLenum, pixels: Option<seq<byte>>)

  function ImageBytes(image: GlTextureImage): nat {
    if image.width <= 0 || image.height <= 0 then 0
    else image.width * image.height * PixelSize(image.format, image.pixelType)
  }

  predicate Readable(image: GlTextureImage) {
    image.pixels.Some? ==> ImageBytes(image) <= |image.pixels.value|
  }

  /** What the driver stores. */
  function StoredImage(image: GlTextureImage): Image
    requires Readable(image)
  {
    Image(image.internalFormat, image.width, image.height, image.format, image.pixelType,
          if image.pixels.Some? then Some(image.pixels.value[..ImageBytes(image)]) else None)
  }

  const MAX_RECORDED_SIDE := 2048
  const MAX_RECORDED_BYTES := 32 * 1024 * 1024

  predicate CopiesPixels(image: GlTextureImage) {
    && image.pixels.Some? && image.width > 0 && image.height > 0
    && image.width <= MAX_RECORDED_SIDE && image.height <= MAX_RECORDED_SIDE
    && ImageBytes(image) <= MAX_RECORDED_BYTES
  }

  function RecordedCall(target: GLenum, image: GlTextureImage): TexImage2DCall
    requires Readable(image)
  {
    TexImage2DCall(target, image.level, image.internalFormat, image.width, image.height,
                   image.format, image.pixelType, image.pixels.Some?,
                   if CopiesPixels(image) then image.pixels.value[..ImageBytes(image)] else [])
  }

  lemma PixelAreaPositive(w: int, h: int, size: int)
    requires w > 0 && h > 0 && size > 0
    ensures w * h * size > 0
  {
    assert w * h > 0;
  }

  lemma CapsCoverSides(w: int, h: int, size: int)
    requires 0 < w <= 2048 && 0 < h <= 2048 && 0 < size <= 4
    ensures w * h * size <= MAX_RECORDED_BYTES
  {
    ProductOrder(2048, w, h);
    ProductOrder(2048 * 2048, w * h, size);
  }

  /** The log describes an upload faithfully exactly when it has no pixels, no area, or sides of at most 2048:
      the byte cap never bites. */
  lemma RecordedFaithfullyIff(target: GLenum, image: GlTextureImage)
    requires Readable(image)
    ensures LoggedImage(RecordedCall(target, image)) == StoredImage(image)
            <==> image.pixels.None? || image.width <= 0 || image.height <= 0
                 || (image.width <= 2048 && image.height <= 2048)
  {
    if image.pixels.Some? && image.width > 0 && image.height > 0 {
      PixelAreaPositive(image.width, image.height, PixelSize(image.format, image.pixelType));
      if image.width <= MAX_RECORDED_SIDE && image.height <= MAX_RECORDED_SIDE {
        CapsCoverSides(image.width, image.height, PixelSize(image.format, image.pixelType));
      }
    }
  }

  /** What is logged of an upload: its fields, and of its pixels the first width * height of PixelSize bytes each,
      or none if a side is over 2048. */
  lemma RecordedFields(target: GLenum, image: GlTextureImage)
    requires Readable(image)
    ensures var c := RecordedCall(target, image);
      && c.target == target && c.level == image.level && c.internalFormat == image.internalFormat
      && c.width == image.width && c.height == image.height && c.format == image.format
      && c.pixelType == image.pixelType && (c.hasPixels <==> image.pixels.Some?)
      && (image.pixels.Some? && 0 < image.width <= 2048 && 0 < image.height <= 2048 ==>
            var n := image.width * image.height * PixelSize(image.format, image.pixelType);
            0 < n <= |image.pixels.value| && c.pixels == image.pixels.value[..n])
      && (image.pixels.None? || image.width > 2048 || image.height > 2048 ==> c.pixels == [])
  {
    if 0 < image.width <= 2048 && 0 < image.height <= 2048 {
      PixelAreaPositive(image.width, image.height, PixelSize(image.format, image.pixelType));
      CapsCoverSides(image.width, image.height, PixelSize(image.format, image.pixelType));
    }
  }

  // ----- keeping a held log and the full history in step -----------------

  /** The two scans know the same textures, and the same bindings on `trusted`. */
  ghost predicate ScansInStep(trusted: iset<GLenum>, s: Scan, r: Scan) {
    AgreeOn({}, s, r) && forall t :: t in trusted ==> BoundName(s.bound, t) == BoundName(r.bound, t)
  }

  /** The two stores have the same history, the same bindings on `trusted`, and the same textures except `strays`. */
  ghost predicate StoresInStep(trusted: iset<GLenum>, strays: set<GLuint>, g: Gl, h: Gl) {
    && g.history == h.history
    && (forall t :: t in trusted ==> BoundName(g.bound, t) == BoundName(h.bound, t))
    && SameOutside(strays, g.textures, h.textures)
  }

  ghost predicate SameOutside(strays: set<GLuint>, g: map<GLuint, Texture>, h: map<GLuint, Texture>) {
    forall id :: id !in strays ==> (id in g <==> id in h) && (id in g ==> g[id] == h[id])
  }

  predicate Targets(e: Entry, target: GLenum) {
    (e.TexParameter? && e.ptarget == target) || (e.TexImage2D? && e.call.target == target)
  }

  /** Writes act on trusted targets. */
  ghost predicate ActsOn(trusted: iset<GLenum>, e: Entry) {
    forall t :: Targets(e, t) ==> t in trusted
  }

  ghost function TrustedAfter(trusted: iset<GLenum>, e: Entry): iset<GLenum> {
    if e.BindTexture? then trusted + iset{e.target} else trusted
  }

  lemma ScansStayInStep(trusted: iset<GLenum>, s: Scan, r: Scan, e: Entry)
    requires ScansInStep(trusted, s, r) && ActsOn(trusted, e)
    ensures ScansInStep(TrustedAfter(trusted, e), ScanStep(s, e), ScanStep(r, e))
  {
    assert e.TexParameter? ==> Targets(e, e.ptarget);
    assert e.TexImage2D? ==> Targets(e, e.call.target);
    var s1, r1 := ScanStep(s, e), ScanStep(r, e);
    forall t | t in TrustedAfter(trusted, e) ensures BoundName(s1.bound, t) == BoundName(r1.bound, t) {
      assert t in trusted ==> BoundName(s.bound, t) == BoundName(r.bound, t);
    }
  }

  lemma BindingsStayInStep(alloc: Allocator, trusted: iset<GLenum>, g: Gl, h: Gl, e: Entry, t: GLenum)
    requires t in TrustedAfter(trusted, e)
    requires t in trusted ==> BoundName(g.bound, t) == BoundName(h.bound, t)
    ensures BoundName(ReplayEntry(alloc, g, e).bound, t) == BoundName(ReplayEntry(alloc, h, e).bound, t)
  {
    hide Renewed, LoggedImage;
  }

  lemma RenewedSame(strays: set<GLuint>, g: map<GLuint, Texture>, h: map<GLuint, Texture>, ids: seq<GLuint>)
    requires SameOutside(strays, g, h)
    ensures SameOutside(strays - (set i | i in ids), Renewed(g, ids), Renewed(h, ids))
  {
  }

  lemma DeletedSame(strays: set<GLuint>, g: map<GLuint, Texture>, h: map<GLuint, Texture>, ids: set<GLuint>)
    requires SameOutside(strays, g, h)
    ensures SameOutside(strays - ids, g - ids, h - ids)
  {
  }

  /** A write is the same on both sides, or to a stray. */
  lemma WrittenSame(strays: set<GLuint>, g: map<GLuint, Texture>, h: map<GLuint, Texture>, id: GLuint,
                    t: Texture, u: Texture)
    requires SameOutside(strays, g, h) && (id !in strays ==> t == u)
    ensures SameOutside(strays, g[id := t], h[id := u])
  {
  }

  lemma WriteStaysInStep(s: Scan, w: Strays, g: Gl, h: Gl, target: GLenum)
    requires SameOutside(w.Keys, g.textures, h.textures) && forall id :: id in w ==> id !in s.live
    requires BoundName(g.bound, target) == BoundName(h.bound, target)
    ensures var id := BoundName(h.bound, target);
      id != 0 && !IsStray(s, id) ==> id !in w && Contents(g, id) == Contents(h, id)
  {
  }

  lemma StoresStayInStep(alloc: Allocator, trusted: iset<GLenum>, s: Scan, w: Strays, g: Gl, h: Gl, e: Entry)
    requires StoresInStep(trusted, w.Keys, g, h) && ActsOn(trusted, e) && EntryMatches(alloc, h, e)
    requires forall id :: id in w ==> id !in s.live
    ensures StoresInStep(TrustedAfter(trusted, e), StrayStep(h, s, w, e).Keys,
                         ReplayEntry(alloc, g, e), ReplayEntry(alloc, h, e))
  {
    hide SameOutside, Renewed, LoggedImage, Contents;
    var g1, h1 := ReplayEntry(alloc, g, e), ReplayEntry(alloc, h, e);
    forall t | t in TrustedAfter(trusted, e) ensures BoundName(g1.bound, t) == BoundName(h1.bound, t) {
      BindingsStayInStep(alloc, trusted, g, h, e, t);
    }
    match e {
      case GenTextures(ids) =>
        RenewedSame(w.Keys, g.textures, h.textures, ids);
        assert (w - (set i | i in ids)).Keys == w.Keys - (set i | i in ids);
      case DeleteTextures(ids) =>
        DeletedSame(w.Keys, g.textures, h.textures, set i | i in ids);
        assert (w - (set i | i in ids)).Keys == w.Keys - (set i | i in ids);
      case BindTexture(_, _) =>
      case TexParameter(target, pname, param) =>
        assert Targets(e, target);
        StrayKeys(h, s, w, e, target);
        WriteStaysInStep(s, w, g, h, target);
        var id := BoundName(h.bound, target);
        if id != 0 {
          var t, u := Contents(g, id), Contents(h, id);
          WriteSame(s, w, g.textures, h.textures, id, t.(params := t.params[pname := param]),
                    u.(params := u.params[pname := param]));
        }
      case TexImage2D(call) =>
        assert Targets(e, call.target);
        StrayKeys(h, s, w, e, call.target);
        WriteStaysInStep(s, w, g, h, call.target);
        var id := BoundName(h.bound, call.target);
        if id != 0 {
          var t, u := Contents(g, id), Contents(h, id);
          WriteSame(s, w, g.textures, h.textures, id, t.(images := t.images[call.level := LoggedImage(call)]),
                    u.(images := u.images[call.level := LoggedImage(call)]));
        }
    }
  }

  lemma WriteSame(s: Scan, w: Strays, g: map<GLuint, Texture>, h: map<GLuint, Texture>, id: GLuint,
                  t: Texture, u: Texture)
    requires SameOutside(w.Keys, g, h) && (!IsStray(s, id) ==> t == u)
    ensures SameOutside(if IsStray(s, id) then w.Keys + {id} else w.Keys, g[id := t], h[id := u])
  {
    if IsStray(s, id) {
      MoreStrays(w.Keys, g, h, id);
      WrittenSame(w.Keys + {id}, g, h, id, t, u);
    } else {
      WrittenSame(w.Keys, g, h, id, t, u);
    }
  }

  lemma StrayKeys(gl: Gl, s: Scan, w: Strays, e: Entry, target: GLenum)
    requires Targets(e, target)
    ensures var id := BoundName(gl.bound, target);
      StrayStep(gl, s, w, e).Keys == if IsStray(s, id) then w.Keys + {id} else w.Keys
  {
    hide LoggedImage;
  }

  lemma MoreStrays(strays: set<GLuint>, g: map<GLuint, Texture>, h: map<GLuint, Texture>, id: GLuint)
    requires SameOutside(strays, g, h)
    ensures SameOutside(strays + {id}, g, h)
  {
  }

  predicate AnyTarget(t: GLenum) {
    true
  }

  ghost function AllTargets(): iset<GLenum> {
    iset t: GLenum | AnyTarget(t)
  }

  // ----- the session invariant ------------------------------------------

  /** What the recorder logs of an image's pixels is never more than its byte cap. */
  ghost predicate PixelsCapped(log: seq<Entry>) {
    forall e :: e in log && e.TexImage2D? ==> |e.call.pixels| <= MAX_RECORDED_BYTES
  }

  /** `history` is everything recorded since `start`; `held` is the possibly compacted log, which rebuilds every
      texture of the wrapped store `gl` but those older than the session that the session wrote to. */
  ghost predicate Describes(alloc: Allocator, start: Gl, trusted: iset<GLenum>,
                            history: seq<Entry>, held: seq<Entry>, gl: Gl) {
    && Replay(alloc, start, history) == gl && IdsMatch(alloc, start, history) && PixelsCapped(history)
    && SeesWrites(alloc, start, EMPTY_SCAN, history) && SingleTarget(EMPTY_SCAN, history)
    && ScansInStep(trusted, ScanLog(held), ScanLog(history)) && IdsMatch(alloc, start, held)
    && StoresInStep(trusted, StraysOf(alloc, start, history).Keys, Replay(alloc, start, held), gl)
  }

  /** What the documented usage asks of the next command. */
  ghost predicate Disciplined(gl: Gl, trusted: iset<GLenum>, history: seq<Entry>, e: Entry) {
    ActsOn(trusted, e) && SeesWrite(gl, ScanLog(history), e) && KeepsTarget(ScanLog(history), e)
  }

  lemma {:induction false} WritesConcat(alloc: Allocator, gl: Gl, s: Scan, w: Strays, a: seq<Entry>, b: seq<Entry>)
    ensures SeesWrites(alloc, gl, s, a + b)
            <==> SeesWrites(alloc, gl, s, a) && SeesWrites(alloc, Replay(alloc, gl, a), ScanFrom(s, a), b)
    ensures StraysFrom(alloc, gl, s, w, a + b)
            == StraysFrom(alloc, Replay(alloc, gl, a), ScanFrom(s, a), StraysFrom(alloc, gl, s, w, a), b)
    ensures SingleTarget(s, a + b) <==> SingleTarget(s, a) && SingleTarget(ScanFrom(s, a), b)
    decreases |a|
  {
    hide ReplayEntry, ScanStep, StrayStep, SeesWrite, KeepsTarget;
    if a == [] {
      assert a + b == b;
    } else {
      assert (a + b)[1..] == a[1..] + b;
      WritesConcat(alloc, ReplayEntry(alloc, gl, a[0]), ScanStep(s, a[0]), StrayStep(gl, s, w, a[0]), a[1..], b);
    }
  }

  lemma StraysAreNotOwn(alloc: Allocator, start: Gl, log: seq<Entry>)
    requires SeesWrites(alloc, start, EMPTY_SCAN, log) && IdsMatch(alloc, start, log)
    ensures forall id :: id in StraysOf(alloc, start, log) ==> id !in ScanLog(log).live
  {
    hide OwnFollow, Overlay;
    FullFollows(alloc, start, log);
  }

  lemma ReplayOneMore(alloc: Allocator, start: Gl, log: seq<Entry>, e: Entry)
    ensures Replay(alloc, start, log + [e]) == ReplayEntry(alloc, Replay(alloc, start, log), e)
    ensures IdsMatch(alloc, start, log + [e]) <==>
            IdsMatch(alloc, start, log) && EntryMatches(alloc, Replay(alloc, start, log), e)
    ensures ScanLog(log + [e]) == ScanStep(ScanLog(log), e)
  {
    ReplayConcat(alloc, start, log, [e]);
    ScanConcat(EMPTY_SCAN, log, [e]);
    assert [e][1..] == [];
  }

  /** Recording the next disciplined command keeps the description. */
  lemma RecordingDescribes(alloc: Allocator, start: Gl, trusted: iset<GLenum>,
                           history: seq<Entry>, held: seq<Entry>, gl: Gl, e: Entry)
    requires Describes(alloc, start, trusted, history, held, gl)
    requires Disciplined(gl, trusted, history, e) && EntryMatches(alloc, gl, e) && PixelsCapped([e])
    ensures Describes(alloc, start, TrustedAfter(trusted, e), history + [e], held + [e], ReplayEntry(alloc, gl, e))
  {
    hide ReplayEntry, ScanStep, StrayStep, SeesWrite, StoresInStep, ScansInStep;
    var s, w := ScanLog(history), StraysOf(alloc, start, history);
    ReplayOneMore(alloc, start, history, e);
    ReplayOneMore(alloc, start, held, e);
    ScansStayInStep(trusted, ScanLog(held), s, e);
    StraysAreNotOwn(alloc, start, history);
    StoresStayInStep(alloc, trusted, s, w, Replay(alloc, start, held), gl, e);
    SameHistory(trusted, w.Keys, Replay(alloc, start, held), gl);
    WritesConcat(alloc, start, EMPTY_SCAN, map[], history, [e]);
    assert [e][1..] == [];
  }

  lemma SameHistory(trusted: iset<GLenum>, strays: set<GLuint>, g: Gl, h: Gl)
    requires StoresInStep(trusted, strays, g, h)
    ensures g.history == h.history
  {
  }

  /** Compacting keeps the description, but no binding can be trusted until it is made again.  What is then held
      rebuilds the session's own textures, and leaves every older one as it was at the start. */
  lemma CompactingDescribes(alloc: Allocator, start: Gl, trusted: iset<GLenum>,
                            history: seq<Entry>, held: seq<Entry>, gl: Gl)
    requires Describes(alloc, start, trusted, history, held, gl)
    ensures Compact(held) == Compact(history)
    ensures Describes(alloc, start, iset{}, history, Compact(held), gl)
    ensures Rebuilds(start, LiveNames({}, history), DeletedNames(history), StraysOf(alloc, start, history),
                     Replay(alloc, start, Compact(held)), gl)
  {
    hide Rebuilds, StoresInStep, LiveNames, DeletedNames, StraysOf;
    SingleTargetIsHomogeneous(EMPTY_SCAN, history);
    CompactionRebuilds(alloc, start, history);
    assert Compact(held) == Compact(history);
    RescanCompact(held);
    RebuiltInStep(start, LiveNames({}, history), DeletedNames(history), StraysOf(alloc, start, history),
                  Replay(alloc, start, Compact(held)), gl);
  }

  lemma RebuiltInStep(start: Gl, own: set<GLuint>, deleted: set<GLuint>, w: Strays, short: Gl, full: Gl)
    requires Rebuilds(start, own, deleted, w, short, full)
    ensures StoresInStep(iset{}, w.Keys, short, full)
  {
    hide Overlay, KeepsEarlier;
    forall id | id !in w ensures id in short.textures <==> id in full.textures
      ensures id in short.textures ==> short.textures[id] == full.textures[id]
    {
      if id !in own && id in full.textures {
        NothingOverlaid(short.textures[id]);
      }
    }
  }

  class GlTextureRecordingBackend {
    const wrapped: TextureStore
    var log: seq<Entry>

    ghost var start: Gl
    ghost var history: seq<Entry>
    ghost var trusted: iset<GLenum>

    /** Replaying the held log where recording began reproduces the wrapped backend's textures, except what the
        session wrote to older ones. */
    ghost predicate Valid()
      reads this, wrapped
    {
      && Describes(wrapped.alloc, start, trusted, history, log, wrapped.gl)
      && forall h: seq<NameEvent>, n: nat :: |wrapped.alloc(h, n)| == n
    }

    constructor (wrapped: TextureStore)
      requires forall h: seq<NameEvent>, n: nat :: |wrapped.alloc(h, n)| == n
      ensures this.wrapped == wrapped && log == [] && start == wrapped.gl && Valid()
    {
      this.wrapped, log := wrapped, [];
      start, history, trusted := wrapped.gl, [], AllTargets();
    }

    method GenTextures(n: nat) returns (textures: seq<GLuint>)
      modifies this, wrapped
      ensures old(Valid()) ==> Valid()
      ensures start == old(start) && trusted == old(trusted)
      ensures log == old(log) + [Entry.GenTextures(textures)] && history == old(history) + [Entry.GenTextures(textures)]
      ensures textures == wrapped.alloc(old(wrapped.gl.history), n)
      ensures wrapped.gl == GlGenTextures(wrapped.alloc, old(wrapped.gl), n)
    {
      textures := wrapped.GenTextures(n);
      log := log + [Entry.GenTextures(textures)];
      if old(Valid()) {
        RecordingDescribes(wrapped.alloc, start, trusted, history, old(log), old(wrapped.gl),
                           Entry.GenTextures(textures));
      }
      history := history + [Entry.GenTextures(textures)];
    }

    method DeleteTextures(ids: seq<GLuint>)
      modifies this, wrapped
      ensures old(Valid()) ==> Valid()
      ensures start == old(start) && trusted == old(trusted)
      ensures log == old(log) + [Entry.DeleteTextures(ids)] && history == old(history) + [Entry.DeleteTextures(ids)]
      ensures wrapped.gl == GlDeleteTextures(old(wrapped.gl), ids)
    {
      if Valid() {
        RecordingDescribes(wrapped.alloc, start, trusted, history, log, wrapped.gl, Entry.DeleteTextures(ids));
      }
      log := log + [Entry.DeleteTextures(ids)];
      wrapped.DeleteTextures(ids);
      history := history + [Entry.DeleteTextures(ids)];
    }

    method BindTexture(target: GLenum, texture: GLuint)
      modifies this, wrapped
      ensures old(Valid()) ==> Valid()
      ensures start == old(start) && trusted == old(trusted) + iset{target}
      ensures log == old(log) + [Entry.BindTexture(target, texture)]
      ensures history == old(history) + [Entry.BindTexture(target, texture)]
      ensures wrapped.gl == GlBindTexture(old(wrapped.gl), target, texture)
    {
      if Valid() {
        RecordingDescribes(wrapped.alloc, start, trusted, history, log, wrapped.gl, Entry.BindTexture(target, texture));
      }
      log := log + [Entry.BindTexture(target, texture)];
      wrapped.BindTexture(target, texture);
      history := history + [Entry.BindTexture(target, texture)];
      trusted := trusted + iset{target};
    }

    method TexParameter(target: GLenum, pname: GLenum, param: GLint)
      modifies this, wrapped
      ensures start == old(start) && trusted == old(trusted)
      ensures log == old(log) + [Entry.TexParameter(target, pname, param)]
      ensures history == old(history) + [Entry.TexParameter(target, pname, param)]
      ensures wrapped.gl == GlTexParameter(old(wrapped.gl), target, pname, param)
      ensures var e := Entry.TexParameter(target, pname, param);
        old(Valid()) && Disciplined(old(wrapped.gl), trusted, old(history), e) ==> Valid()
    {
      ghost var e := Entry.TexParameter(target, pname, param);
      if Valid() && Disciplined(wrapped.gl, trusted, history, e) {
        RecordingDescribes(wrapped.alloc, start, trusted, history, log, wrapped.gl, e);
      }
      log := log + [Entry.TexParameter(target, pname, param)];
      wrapped.TexParameter(target, pname, param);
      history := history + [e];
    }

    method TexImage2D(target: GLenum, image: GlTextureImage)
      requires Readable(image)
      modifies this, wrapped
      ensures start == old(start) && trusted == old(trusted)
      ensures log == old(log) + [Entry.TexImage2D(RecordedCall(target, image))]
      ensures history == old(history) + [Entry.TexImage2D(RecordedCall(target, image))]
      ensures wrapped.gl == GlTexImage2D(old(wrapped.gl), target, image.level, StoredImage(image))
      ensures var e := Entry.TexImage2D(RecordedCall(target, image));
        (old(Valid()) && Disciplined(old(wrapped.gl), trusted, old(history), e)
         && LoggedImage(e.call) == StoredImage(image)) ==> Valid()
    {
      var call := TexImage2DCall(target, image.level, image.internalFormat, image.width, image.height,
                                 image.format, image.pixelType, image.pixels.Some?, []);
      if call.hasPixels && image.width > 0 && image.height > 0
         && image.width <= MAX_RECORDED_SIDE && image.height <= MAX_RECORDED_SIDE {
        var total := image.width * image.height * PixelSize(image.format, image.pixelType);
        if total <= MAX_RECORDED_BYTES {
          call := call.(pixels := image.pixels.value[..total]);
        }
      }
      assert call == RecordedCall(target, image);
      ghost var e := Entry.TexImage2D(call);
      if Valid() && Disciplined(wrapped.gl, trusted, history, e) {
        RecordingDescribes(wrapped.alloc, start, trusted, history, log, wrapped.gl, e);
      }
      log := log + [Entry.TexImage2D(call)];
      wrapped.TexImage2D(target, image.level, StoredImage(image));
      history := history + [e];
    }

    method CompactLog()
      modifies this
      ensures log == Compact(old(log))
      ensures old(Valid()) ==> Valid() && log == Compact(history)
      ensures old(Valid()) ==>
        Rebuilds(start, LiveNames({}, history), DeletedNames(history), StraysOf(wrapped.alloc, start, history),
                 Replay(wrapped.alloc, start, log), wrapped.gl)
      ensures start == old(start) && history == old(history) && trusted == iset{}
    {
      if Valid() {
        CompactingDescribes(wrapped.alloc, start, trusted, history, log, wrapped.gl);
      }
      log := CompactGlTextureLog(log);
      trusted := iset{};
    }

    method ClearLog()
      modifies this
      ensures old(Valid()) ==> Valid()
      ensures log == [] && start == wrapped.gl && history == []
    {
      log := [];
      start, history, trusted := wrapped.gl, [], AllTargets();
    }
  }
}
