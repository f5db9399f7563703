/** An abstract GL texture store and the replay of a recorded log against it.

    Names are handed out by an arbitrary deterministic allocator that looks only
    at the Gen/Delete history, so every statement here holds for every driver
    with the property the replay relies on.
 */
module TextureMachine {
  import opened HostTypes
  import opened TextureLog

  /** Contents of one mipmap level; `None` pixels means storage without data. */
  datatype Image = Image(
    internalFormat: GLenum, width: int32, height: int32,
    format: GLenum, pixelType: GLenum, pixels: Option<seq<byte>>)

  datatype Texture = Texture(params: map<GLenum, GLint>, images: map<int32, Image>)

  const BLANK_TEXTURE := Texture(map[], map[])

  datatype NameEvent = Generated(count: nat) | Deleted(ids: seq<GLuint>)

  type Allocator = (seq<NameEvent>, nat) -> seq<GLuint>

  datatype Gl = Gl(history: seq<NameEvent>, bound: map<GLenum, GLuint>, textures: map<GLuint, Texture>)

  // ----- the commands ---------------------------------------------------

  /** Every name in `ids` is a texture without contents. */
  function Renewed(textures: map<GLuint, Texture>, ids: seq<GLuint>): map<GLuint, Texture> {
    map id | id in textures.Keys + (set i | i in ids) :: if id in ids then BLANK_TEXTURE else textures[id]
  }

  function GlGenTextures(alloc: Allocator, gl: Gl, n: nat): Gl {
    gl.(history := gl.history + [Generated(n)], textures := Renewed(gl.textures, alloc(gl.history, n)))
  }

  function GlDeleteTextures(gl: Gl, ids: seq<GLuint>): Gl {
    gl.(history := gl.history + [Deleted(ids)],
        bound := Unbind(gl.bound, ids),
        textures := gl.textures - (set i | i in ids))
  }

  function GlBindTexture(gl: Gl, target: GLenum, texture: GLuint): Gl {
    gl.(bound := gl.bound[target := texture])
  }

  /** A texture object comes into being when it is first written. */
  function TextureAt(textures: map<GLuint, Texture>, id: GLuint): Texture {
    if id in textures then textures[id] else BLANK_TEXTURE
  }

  function Contents(gl: Gl, id: GLuint): Texture {
    TextureAt(gl.textures, id)
  }

  function GlTexParameter(gl: Gl, target: GLenum, pname: GLenum, param: GLint): Gl {
    var id := BoundName(gl.bound, target);
    if id == 0 then gl
    else
      var t := Contents(gl, id);
      gl.(textures := gl.textures[id := t.(params := t.params[pname := param])])
  }

  function GlTexImage2D(gl: Gl, target: GLenum, level: int32, image: Image): Gl {
    var id := BoundName(gl.bound, target);
    if id == 0 then gl
    else
      var t := Contents(gl, id);
      gl.(textures := gl.textures[id := t.(images := t.images[level := image])])
  }

  // ----- what a command leaves alone --------------------------------------

  /** Deleting names unbinds exactly the targets they are bound to, in the store and in the scan of a log alike, and
      takes exactly those textures away. */
  lemma DeletingUnbinds(gl: Gl, s: Scan, ids: seq<GLuint>, target: GLenum, id: GLuint)
    ensures var t := GlDeleteTextures(gl, ids);
      && (target in t.bound <==> target in gl.bound)
      && (target in gl.bound ==> t.bound[target] == if gl.bound[target] in ids then 0 else gl.bound[target])
      && (id in t.textures <==> id in gl.textures && id !in ids)
      && (id in t.textures ==> t.textures[id] == gl.textures[id])
    ensures var t := ScanStep(s, DeleteTextures(ids));
      && (target in t.bound <==> target in s.bound)
      && (target in s.bound ==> t.bound[target] == if s.bound[target] in ids then 0 else s.bound[target])
      && (id in t.live <==> id in s.live && id !in ids)
      && (id in t.live ==> t.live[id] == s.live[id])
  {
  }

  /** A write reaches the texture bound to its target, made when it is not there yet, and nothing else; without one it
      reaches nothing. */
  lemma WritesReachTheBound(gl: Gl, target: GLenum, pname: GLenum, param: GLint, level: int32, image: Image)
    ensures var written, stored := GlTexParameter(gl, target, pname, param), GlTexImage2D(gl, target, level, image);
      && written.bound == stored.bound == gl.bound && written.history == stored.history == gl.history
      && if target in gl.bound && gl.bound[target] != 0 then
           var id := gl.bound[target];
           var t := if id in gl.textures then gl.textures[id] else Texture(map[], map[]);
           && written.textures == gl.textures[id := Texture(t.params[pname := param], t.images)]
           && stored.textures == gl.textures[id := Texture(t.params, t.images[level := image])]
         else written == stored == gl
  {
  }

  // ----- replay ---------------------------------------------------------

  function LoggedImage(call: TexImage2DCall): Image {
    Image(call.internalFormat, call.width, call.height, call.format, call.pixelType,
          if call.hasPixels then Some(call.pixels) else None)
  }

  function ReplayEntry(alloc: Allocator, gl: Gl, e: Entry): Gl {
    match e
    case GenTextures(names) => GlGenTextures(alloc, gl, |names|)
    case DeleteTextures(ids) => GlDeleteTextures(gl, ids)
    case BindTexture(target, texture) => GlBindTexture(gl, target, texture)
    case TexParameter(target, pname, param) => GlTexParameter(gl, target, pname, param)
    case TexImage2D(call) => GlTexImage2D(gl, call.target, call.level, LoggedImage(call))
  }

  function Replay(alloc: Allocator, gl: Gl, log: seq<Entry>): Gl
    decreases |log|
  {
    if log == [] then gl else Replay(alloc, ReplayEntry(alloc, gl, log[0]), log[1..])
  }

  predicate EntryMatches(alloc: Allocator, gl: Gl, e: Entry) {
    e.GenTextures? ==> alloc(gl.history, |e.names|) == e.names
  }

  /** Every replayed Gen is given the names that were recorded for it. */
  predicate IdsMatch(alloc: Allocator, gl: Gl, log: seq<Entry>)
    decreases |log|
  {
    log == [] || (EntryMatches(alloc, gl, log[0]) && IdsMatch(alloc, ReplayEntry(alloc, gl, log[0]), log[1..]))
  }

  /** What the allocator of names sees of a log. */
  function Events(log: seq<Entry>): seq<NameEvent> {
    if log == [] then []
    else
      (match log[0]
       case GenTextures(names) => [Generated(|names|)]
       case DeleteTextures(ids) => [Deleted(ids)]
       case _ => []) + Events(log[1..])
  }

  /** The history grows by each Gen and each Delete, in order, and by nothing else. */
  lemma {:induction false} HistoryGrows(alloc: Allocator, gl: Gl, log: seq<Entry>)
    ensures Replay(alloc, gl, log).history == gl.history + Events(log)
    decreases |log|
  {
    if log != [] {
      HistoryGrows(alloc, ReplayEntry(alloc, gl, log[0]), log[1..]);
    }
  }

  // ----- the backend ----------------------------------------------------

  /** Texture objects of any driver whose name assignment is a function of its Gen/Delete history. */
  class TextureStore {
    const alloc: Allocator
    var gl: Gl

    constructor (alloc: Allocator, gl: Gl)
      ensures this.alloc == alloc && this.gl == gl
    {
      this.alloc, this.gl := alloc, gl;
    }

    method GenTextures(n: nat) returns (textures: seq<GLuint>)
      modifies this
      ensures textures == alloc(old(gl).history, n) && gl == GlGenTextures(alloc, old(gl), n)
    {
      textures := alloc(gl.history, n);
      gl := GlGenTextures(alloc, gl, n);
    }

    method DeleteTextures(ids: seq<GLuint>)
      modifies this
      ensures gl == GlDeleteTextures(old(gl), ids)
    {
      gl := GlDeleteTextures(gl, ids);
    }

    method BindTexture(target: GLenum, texture: GLuint)
      modifies this
      ensures gl == GlBindTexture(old(gl), target, texture)
    {
      gl := GlBindTexture(gl, target, texture);
    }

    method TexParameter(target: GLenum, pname: GLenum, param: GLint)
      modifies this
      ensures gl == GlTexParameter(old(gl), target, pname, param)
    {
      gl := GlTexParameter(gl, target, pname, param);
    }

    /** `image` is what the driver reads from the caller. */
    method TexImage2D(target: GLenum, level: int32, image: Image)
      modifies this
      ensures gl == GlTexImage2D(old(gl), target, level, image)
    {
      gl := GlTexImage2D(gl, target, level, image);
    }
  }

  method ReplayGlTextureLog(log: seq<Entry>, target: TextureStore) returns (allIdsMatched: bool)
    modifies target
    ensures target.gl == Replay(target.alloc, old(target.gl), log)
    ensures allIdsMatched <==> IdsMatch(target.alloc, old(target.gl), log)
  {
    allIdsMatched := true;
    for i := 0 to |log|
      invariant Replay(target.alloc, old(target.gl), log) == Replay(target.alloc, target.gl, log[i..])
      invariant IdsMatch(target.alloc, old(target.gl), log)
                <==> allIdsMatched && IdsMatch(target.alloc, target.gl, log[i..])
    {
      match log[i] {
        case GenTextures(names) =>
          var textures := target.GenTextures(|names|);
          if textures != names {
            allIdsMatched := false;
          }
        case DeleteTextures(ids) => target.DeleteTextures(ids);
        case BindTexture(t, texture) => target.BindTexture(t, texture);
        case TexParameter(t, pname, param) => target.TexParameter(t, pname, param);
        case TexImage2D(call) => target.TexImage2D(call.target, call.level, LoggedImage(call));
      }
    }
  }

  lemma {:induction false} ReplayConcat(alloc: Allocator, gl: Gl, a: seq<Entry>, b: seq<Entry>)
    ensures Replay(alloc, gl, a + b) == Replay(alloc, Replay(alloc, gl, a), b)
    ensures IdsMatch(alloc, gl, a + b) <==> IdsMatch(alloc, gl, a) && IdsMatch(alloc, Replay(alloc, gl, a), b)
    decreases |a|
  {
    if a == [] {
      assert a + b == b;
    } else {
      assert (a + b)[1..] == a[1..] + b;
      ReplayConcat(alloc, ReplayEntry(alloc, gl, a[0]), a[1..], b);
    }
  }

  // ----- what the allocator sees ----------------------------------------

  predicate IsNaming(e: Entry) {
    e.GenTextures? || e.DeleteTextures?
  }

  /** The Gen/Delete subsequence of a log. */
  function Naming(log: seq<Entry>): seq<Entry> {
    if log == [] then [] else (if IsNaming(log[0]) then [log[0]] else []) + Naming(log[1..])
  }

  lemma {:induction false} NamingConcat(a: seq<Entry>, b: seq<Entry>)
    ensures Naming(a + b) == Naming(a) + Naming(b)
  {
    hide IsNaming;
    if a == [] {
      assert a + b == b;
    } else {
      var head := if IsNaming(a[0]) then [a[0]] else [];
      assert (a + b)[1..] == a[1..] + b;
      NamingConcat(a[1..], b);
      assert head + (Naming(a[1..]) + Naming(b)) == (head + Naming(a[1..])) + Naming(b);
    }
  }

  /** Name assignment is decided by the Gen/Delete subsequence alone. */
  lemma {:induction false} NamingDecidesIds(alloc: Allocator, g: Gl, h: Gl, a: seq<Entry>, b: seq<Entry>)
    requires g.history == h.history && Naming(a) == Naming(b)
    ensures IdsMatch(alloc, g, a) <==> IdsMatch(alloc, h, b)
    ensures Replay(alloc, g, a).history == Replay(alloc, h, b).history
    decreases |a| + |b|
  {
    if a != [] && !IsNaming(a[0]) {
      NamingDecidesIds(alloc, ReplayEntry(alloc, g, a[0]), h, a[1..], b);
    } else if b != [] && !IsNaming(b[0]) {
      NamingDecidesIds(alloc, g, ReplayEntry(alloc, h, b[0]), a, b[1..]);
    } else if a != [] {
      assert Naming(a)[0] == a[0];
      assert b != [] && a[0] == b[0];
      assert Naming(a)[1..] == Naming(a[1..]) && Naming(b)[1..] == Naming(b[1..]);
      NamingDecidesIds(alloc, ReplayEntry(alloc, g, a[0]), ReplayEntry(alloc, h, b[0]), a[1..], b[1..]);
    }
  }
}
