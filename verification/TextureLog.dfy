/** The recorded texture-command log and its compaction.

    `Compact` is the compaction as a function: one left-to-right scan that
    accumulates, per still-live texture, its last-written parameters and levels,
    followed by one synthesized section per surviving texture.  The method
    `CompactGlTextureLog` is the loop that computes it.
 */
module TextureLog {
  import opened HostTypes
  import opened Keyed

  type GLenum = uint32
  type GLuint = uint32
  type GLint = int32

  datatype TexImage2DCall = TexImage2DCall(
    target: GLenum, level: int32, internalFormat: GLenum, width: int32, height: int32,
    format: GLenum, pixelType: GLenum, hasPixels: bool, pixels: seq<byte>)

  datatype Entry =
    | GenTextures(names: seq<GLuint>)
    | DeleteTextures(ids: seq<GLuint>)
    | BindTexture(target: GLenum, texture: GLuint)
    | TexParameter(ptarget: GLenum, pname: GLenum, param: GLint)
    | TexImage2D(call: TexImage2DCall)

  // ----- the scan -------------------------------------------------------

  datatype LiveTexture = LiveTexture(
    target: GLenum, params: seq<(GLenum, GLint)>, images: seq<TexImage2DCall>)

  /** State of a texture right after its name was generated. */
  const FRESH_TEXTURE := LiveTexture(0, [], [])

  datatype Scan = Scan(
    bound: map<GLenum, GLuint>, live: map<GLuint, LiveTexture>, order: seq<GLuint>, kept: seq<Entry>)

  const EMPTY_SCAN := Scan(map[], map[], [], [])

  const PNAME_OF := (p: (GLenum, GLint)) => p.0 as int
  const LEVEL_OF := (c: TexImage2DCall) => c.level as int

  predicate Untouched(t: LiveTexture) {
    t.params == [] && t.images == []
  }

  function AddUnseen(order: seq<GLuint>, ids: seq<GLuint>): seq<GLuint>
    decreases |ids|
  {
    if ids == [] then order
    else AddUnseen(if ids[0] in order then order else order + [ids[0]], ids[1..])
  }

  /** Every name in `ids` starts over with a fresh state, even when reused. */
  function Generate(live: map<GLuint, LiveTexture>, ids: seq<GLuint>): map<GLuint, LiveTexture> {
    map id | id in live.Keys + (set i | i in ids) :: if id in ids then FRESH_TEXTURE else live[id]
  }

  /** Deleting a texture unbinds it from every target it is bound to. */
  function Unbind(bound: map<GLenum, GLuint>, ids: seq<GLuint>): map<GLenum, GLuint> {
    map t | t in bound :: if bound[t] in ids then 0 else bound[t]
  }

  function BoundName(bound: map<GLenum, GLuint>, target: GLenum): GLuint {
    if target in bound then bound[target] else 0
  }

  function StoreParam(t: LiveTexture, target: GLenum, pname: GLenum, param: GLint): LiveTexture {
    t.(target := target, params := Put(PNAME_OF, t.params, (pname, param)))
  }

  function StoreImage(t: LiveTexture, call: TexImage2DCall): LiveTexture {
    t.(target := call.target, images := Put(LEVEL_OF, t.images, call))
  }

  function ScanStep(s: Scan, e: Entry): Scan {
    match e
    case GenTextures(ids) =>
      s.(live := Generate(s.live, ids), order := AddUnseen(s.order, ids), kept := s.kept + [e])
    case DeleteTextures(ids) =>
      s.(live := s.live - (set i | i in ids), bound := Unbind(s.bound, ids), kept := s.kept + [e])
    case BindTexture(target, texture) =>
      s.(bound := s.bound[target := texture])
    case TexParameter(target, pname, param) =>
      var id := BoundName(s.bound, target);
      if id != 0 && id in s.live
      then s.(live := s.live[id := StoreParam(s.live[id], target, pname, param)])
      else s
    case TexImage2D(call) =>
      var id := BoundName(s.bound, call.target);
      if id != 0 && id in s.live
      then s.(live := s.live[id := StoreImage(s.live[id], call)])
      else s
  }

  function ScanFrom(s: Scan, log: seq<Entry>): Scan
    decreases |log|
  {
    if log == [] then s else ScanFrom(ScanStep(s, log[0]), log[1..])
  }

  function ScanLog(log: seq<Entry>): Scan {
    ScanFrom(EMPTY_SCAN, log)
  }

  // ----- the emission ---------------------------------------------------

  function ParamEntries(target: GLenum, params: seq<(GLenum, GLint)>): seq<Entry> {
    seq(|params|, i requires 0 <= i < |params| => TexParameter(target, params[i].0, params[i].1))
  }

  function ImageEntries(images: seq<TexImage2DCall>): seq<Entry> {
    seq(|images|, i requires 0 <= i < |images| => TexImage2D(images[i]))
  }

  /** What one surviving texture contributes to the compacted log. */
  function Section(id: GLuint, t: LiveTexture): seq<Entry> {
    [BindTexture(t.target, id)] + ParamEntries(t.target, t.params) + ImageEntries(t.images)
  }

  function SectionIfNeeded(id: GLuint, live: map<GLuint, LiveTexture>): seq<Entry> {
    if id in live && !Untouched(live[id]) then Section(id, live[id]) else []
  }

  function Emit(order: seq<GLuint>, live: map<GLuint, LiveTexture>): seq<Entry> {
    if order == [] then [] else SectionIfNeeded(order[0], live) + Emit(order[1..], live)
  }

  function Compact(log: seq<Entry>): seq<Entry> {
    var s := ScanLog(log);
    s.kept + Emit(s.order, s.live)
  }

  // ----- the loops ------------------------------------------------------

  lemma GenerateOneMore(live: map<GLuint, LiveTexture>, ids: seq<GLuint>, id: GLuint)
    ensures Generate(live, ids + [id]) == Generate(live, ids)[id := FRESH_TEXTURE]
  {
    var more, one := Generate(live, ids + [id]), Generate(live, ids)[id := FRESH_TEXTURE];
    assert (set i | i in ids + [id]) == (set i | i in ids) + {id};
    assert more.Keys == one.Keys;
  }

  method GenerateNames(live: map<GLuint, LiveTexture>, order: seq<GLuint>, ids: seq<GLuint>)
    returns (live': map<GLuint, LiveTexture>, order': seq<GLuint>)
    ensures live' == Generate(live, ids) && order' == AddUnseen(order, ids)
  {
    live', order' := live, order;
    for i := 0 to |ids|
      invariant live' == Generate(live, ids[..i])
      invariant AddUnseen(order, ids) == AddUnseen(order', ids[i..])
    {
      GenerateOneMore(live, ids[..i], ids[i]);
      assert ids[..i + 1] == ids[..i] + [ids[i]];
      live' := live'[ids[i] := FRESH_TEXTURE];
      if ids[i] !in order' {
        order' := order' + [ids[i]];
      }
    }
    assert ids[..|ids|] == ids;
  }

  method DeleteNames(live: map<GLuint, LiveTexture>, bound: map<GLenum, GLuint>, ids: seq<GLuint>)
    returns (live': map<GLuint, LiveTexture>, bound': map<GLenum, GLuint>)
    ensures live' == live - (set i | i in ids) && bound' == Unbind(bound, ids)
  {
    live', bound' := live, bound;
    for i := 0 to |ids|
      invariant live' == live - (set j | j in ids[..i])
      invariant bound' == Unbind(bound, ids[..i])
    {
      live' := live' - {ids[i]};
      bound' := map t | t in bound' :: if bound'[t] == ids[i] then 0 else bound'[t];
      assert ids[..i + 1] == ids[..i] + [ids[i]];
    }
    assert ids[..|ids|] == ids;
  }

  method WriteSection(id: GLuint, t: LiveTexture) returns (out: seq<Entry>)
    ensures out == Section(id, t)
  {
    out := [BindTexture(t.target, id)];
    for j := 0 to |t.params|
      invariant out == [BindTexture(t.target, id)] + ParamEntries(t.target, t.params)[..j]
    {
      out := out + [TexParameter(t.target, t.params[j].0, t.params[j].1)];
    }
    ghost var head := out;
    assert ParamEntries(t.target, t.params)[..|t.params|] == ParamEntries(t.target, t.params);
    for j := 0 to |t.images|
      invariant out == head + ImageEntries(t.images)[..j]
    {
      out := out + [TexImage2D(t.images[j])];
    }
    assert ImageEntries(t.images)[..|t.images|] == ImageEntries(t.images);
  }

  method EmitSections(order: seq<GLuint>, live: map<GLuint, LiveTexture>) returns (out: seq<Entry>)
    ensures out == Emit(order, live)
  {
    hide Section, Untouched;
    out := [];
    for i := 0 to |order|
      invariant Emit(order, live) == out + Emit(order[i..], live)
    {
      var id := order[i];
      ghost var rest := Emit(order[i + 1..], live);
      assert order[i..][1..] == order[i + 1..];
      assert out + (SectionIfNeeded(id, live) + rest) == (out + SectionIfNeeded(id, live)) + rest;
      if id in live && !Untouched(live[id]) {
        var section := WriteSection(id, live[id]);
        out := out + section;
      }
    }
  }

  method CompactGlTextureLog(log: seq<Entry>) returns (compacted: seq<Entry>)
    ensures compacted == Compact(log)
  {
    var bound: map<GLenum, GLuint> := map[];
    var live: map<GLuint, LiveTexture> := map[];
    var order: seq<GLuint> := [];
    compacted := [];
    for i := 0 to |log|
      invariant ScanLog(log) == ScanFrom(Scan(bound, live, order, compacted), log[i..])
    {
      match log[i] {
        case GenTextures(ids) =>
          compacted := compacted + [log[i]];
          live, order := GenerateNames(live, order, ids);
        case DeleteTextures(ids) =>
          compacted := compacted + [log[i]];
          live, bound := DeleteNames(live, bound, ids);
        case BindTexture(target, texture) =>
          bound := bound[target := texture];
        case TexParameter(target, pname, param) =>
          var id := BoundName(bound, target);
          if id != 0 && id in live {
            var params := PutInPlace(PNAME_OF, live[id].params, (pname, param));
            live := live[id := live[id].(target := target, params := params)];
          }
        case TexImage2D(call) =>
          var id := BoundName(bound, call.target);
          if id != 0 && id in live {
            var images := PutInPlace(LEVEL_OF, live[id].images, call);
            live := live[id := live[id].(target := call.target, images := images)];
          }
      }
    }
    var sections := EmitSections(order, live);
    compacted := compacted + sections;
  }
}
