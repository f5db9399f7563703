/** The EGL surface machine: pbuffers are carved from one region and never given back,
    and the surface current for drawing is always a live one. */
module EglSurfaces {
  import opened HostTypes
  import opened ByteStream

  const REGION_START: uint32 := 0x8a00_0000
  const REGION_END: uint32 := 0x8c00_0000
  const PAGE := 0x1000
  const WINDOW: uint32 := 1
  const CONTEXT: uint32 := 1
  const EGL_WIDTH: uint32 := 0x3057
  const EGL_HEIGHT: uint32 := 0x3056
  const EGL_NONE: uint32 := 0x3038

  datatype Surface = Surface(width: int, height: int, colorBuffer: uint32)

  datatype Egl = Egl(
    surfaces: map<uint32, Surface>, nextSurface: uint32, current: uint32, nextPixels: uint32, contextCurrent: bool)

  const INITIAL := Egl(map[], 2, 0, REGION_START, false)

  // ----- the calls ----------------------------------------------------------

  /** Guest memory as the words read from it. */
  type Words = uint32 -> uint32

  const MAX_ATTRIBUTES := 64

  /** The last value given for `name` from the i-th attribute on, up to the terminator or the cap; `found` if none. */
  function Attribute(memory: Words, attrs: uint32, i: nat, name: uint32, found: int32): int32
    requires i <= MAX_ATTRIBUTES
    decreases MAX_ATTRIBUTES - i
  {
    if i == MAX_ATTRIBUTES || AttributeName(memory, attrs, i) == EGL_NONE then found
    else
      Attribute(memory, attrs, i + 1, name,
                if AttributeName(memory, attrs, i) == name then AttributeValue(memory, attrs, i) else found)
  }

  function AttributeName(memory: Words, attrs: uint32, i: nat): uint32 {
    memory((attrs + i * 8) % TWO32)
  }

  function AttributeValue(memory: Words, attrs: uint32, i: nat): int32 {
    Signed(memory((attrs + i * 8 + 4) % TWO32))
  }

  /** A null list gives no attribute. */
  function Requested(memory: Words, attrs: uint32, name: uint32): int32 {
    if attrs == 0 then 0 else Attribute(memory, attrs, 0, name, 0)
  }

  function PixelBytes(width: int, height: int): nat {
    if width <= 0 || height <= 0 then 0 else width * height * 2
  }

  predicate Fits(s: Egl, width: int, height: int) {
    0 < width <= 640 && 0 < height <= 480 && s.nextPixels + PixelBytes(width, height) <= REGION_END
  }

  function PageUp(x: nat): nat {
    (x + PAGE - 1) / PAGE * PAGE
  }

  function CreateWindow(s: Egl): (Egl, uint32) {
    (s.(surfaces := s.surfaces[WINDOW := Surface(640, 480, 0)]), WINDOW)
  }

  function CreatePbuffer(s: Egl, width: int, height: int): (Egl, uint32) {
    if !Fits(s, width, height) then (s, 0)
    else
      (s.(surfaces := s.surfaces[s.nextSurface := Surface(width, height, s.nextPixels)],
          nextSurface := (s.nextSurface + 1) % TWO32,
          nextPixels := PageUp(s.nextPixels + PixelBytes(width, height)) % TWO32),
       s.nextSurface)
  }

  function Destroy(s: Egl, surface: uint32): (Egl, bool) {
    (s.(surfaces := s.surfaces - {surface}, current := if surface == s.current then 0 else s.current),
     surface in s.surfaces)
  }

  /** `created` is whether the host can create a context when none is current. */
  function MakeCurrent(s: Egl, draw: uint32, read: uint32, ctx: uint32, created: bool): (Egl, bool) {
    if ctx == 0 then (s.(current := 0, contextCurrent := false), true)
    else if ctx != CONTEXT || draw !in s.surfaces || read !in s.surfaces then (s, false)
    else if !s.contextCurrent && !created then (s, false)
    else (s.(current := draw, contextCurrent := true), true)
  }

  datatype Call =
    | WindowCall
    | PbufferCall(width: int, height: int)
    | DestroyCall(surface: uint32)
    | MakeCurrentCall(draw: uint32, read: uint32, ctx: uint32, created: bool)

  function Step(s: Egl, c: Call): Egl {
    match c
    case WindowCall => CreateWindow(s).0
    case PbufferCall(width, height) => CreatePbuffer(s, width, height).0
    case DestroyCall(surface) => Destroy(s, surface).0
    case MakeCurrentCall(draw, read, ctx, created) => MakeCurrent(s, draw, read, ctx, created).0
  }

  function Run(s: Egl, calls: seq<Call>): Egl
    decreases |calls|
  {
    if calls == [] then s else Run(Step(s, calls[0]), calls[1..])
  }

  // ----- what every call keeps ----------------------------------------------

  function BufferEnd(p: Surface): nat {
    p.colorBuffer + PixelBytes(p.width, p.height)
  }

  ghost predicate PageAligned(x: int) {
    x % PAGE == 0
  }

  /** A pbuffer's pixels: page-aligned, not empty, inside the region, below what is still free. */
  ghost predicate Placed(s: Egl, p: Surface) {
    PageAligned(p.colorBuffer) && REGION_START <= p.colorBuffer < BufferEnd(p) <= s.nextPixels <= REGION_END
  }

  ghost predicate Disjoint(p: Surface, q: Surface) {
    BufferEnd(p) <= q.colorBuffer || BufferEnd(q) <= p.colorBuffer
  }

  ghost predicate Valid(s: Egl) {
    && PageAligned(s.nextPixels) && REGION_START <= s.nextPixels <= REGION_END
    && 2 <= s.nextSurface && (s.nextSurface - 2) * PAGE <= s.nextPixels - REGION_START
    && (forall h :: h in s.surfaces ==> 0 < h < s.nextSurface)
    && (forall h :: h in s.surfaces && h != WINDOW ==> Placed(s, s.surfaces[h]))
    && (forall h, k :: h in s.surfaces && k in s.surfaces && h != k && h != WINDOW && k != WINDOW ==>
          Disjoint(s.surfaces[h], s.surfaces[k]))
    && (s.current == 0 || s.current in s.surfaces)
  }

  lemma PageUpFacts(x: nat)
    ensures PageAligned(PageUp(x)) && x <= PageUp(x) < x + PAGE
  {
    var q := (x + PAGE - 1) / PAGE;
    assert PageUp(x) == q * PAGE;
  }

  lemma AlignedBelow(x: nat, end: nat)
    requires PageAligned(end) && x <= end
    ensures PageUp(x) <= end
  {
    PageUpFacts(x);
  }

  lemma AreaPositive(width: int, height: int)
    requires width > 0 && height > 0
    ensures PixelBytes(width, height) > 0
  {
  }

  /** The region runs out long before the surface counter could wrap around. */
  lemma PbufferKeepsValid(s: Egl, width: int, height: int)
    requires Valid(s)
    ensures Valid(CreatePbuffer(s, width, height).0)
    ensures var (t, handle) := CreatePbuffer(s, width, height);
      && s.nextSurface <= t.nextSurface
      && (handle != 0 ==> handle == s.nextSurface && t.nextSurface == s.nextSurface + 1)
  {
    hide PageUp, PixelBytes, Disjoint;
    if Fits(s, width, height) {
      AreaPositive(width, height);
      NextPageFits(s.nextPixels, PixelBytes(width, height));
      var p := Surface(width, height, s.nextPixels);
      forall h | h in s.surfaces && h != WINDOW
        ensures Disjoint(s.surfaces[h], p) && Disjoint(p, s.surfaces[h])
      {
        BelowIsDisjoint(s, s.surfaces[h], p);
      }
    }
  }

  lemma BelowIsDisjoint(s: Egl, p: Surface, q: Surface)
    requires Placed(s, p) && q.colorBuffer == s.nextPixels
    ensures Disjoint(p, q) && Disjoint(q, p)
  {
  }

  lemma NextPageFits(pixels: nat, bytes: nat)
    requires PageAligned(pixels) && bytes > 0 && pixels + bytes <= REGION_END
    ensures var next := PageUp(pixels + bytes);
      PageAligned(next) && pixels + bytes <= next <= REGION_END && pixels + PAGE <= next
  {
    PageUpFacts(pixels + bytes);
    AlignedBelow(pixels + bytes, REGION_END);
  }

  lemma DestroyKeepsValid(s: Egl, surface: uint32)
    requires Valid(s)
    ensures Valid(Destroy(s, surface).0)
  {
  }

  lemma OthersKeepValid(s: Egl, c: Call)
    requires Valid(s) && (c.WindowCall? || c.MakeCurrentCall?)
    ensures Valid(Step(s, c)) && Step(s, c).nextSurface == s.nextSurface
  {
  }

  lemma StepKeepsValid(s: Egl, c: Call)
    requires Valid(s)
    ensures Valid(Step(s, c)) && s.nextSurface <= Step(s, c).nextSurface
  {
    hide Valid, Fits, PageUp, PixelBytes;
    match c {
      case PbufferCall(width, height) => PbufferKeepsValid(s, width, height);
      case DestroyCall(surface) => DestroyKeepsValid(s, surface);
      case _ => OthersKeepValid(s, c);
    }
  }

  /** In every reachable state pbuffers are page-aligned, pairwise disjoint and inside the region,
      and the surface current for drawing is none or live. */
  lemma {:induction false} EveryRunIsValid(s: Egl, calls: seq<Call>)
    requires Valid(s)
    ensures Valid(Run(s, calls)) && s.nextSurface <= Run(s, calls).nextSurface
    decreases |calls|
  {
    hide Step, Valid;
    if calls != [] {
      StepKeepsValid(s, calls[0]);
      EveryRunIsValid(Step(s, calls[0]), calls[1..]);
    }
  }

  /** However long the run, a pbuffer handle given out once is never given out again. */
  lemma HandlesAreNeverReused(s: Egl, width: int, height: int, calls: seq<Call>, width': int, height': int)
    requires Valid(s)
    requires CreatePbuffer(s, width, height).1 != 0
    ensures var (t, handle) := CreatePbuffer(s, width, height);
      CreatePbuffer(Run(t, calls), width', height').1 != handle
  {
    PbufferKeepsValid(s, width, height);
    EveryRunIsValid(CreatePbuffer(s, width, height).0, calls);
  }

  /** A pbuffer is refused exactly for a bad size or when the pixels no longer fit. */
  lemma PbufferRefusedIff(s: Egl, width: int, height: int)
    requires Valid(s)
    ensures CreatePbuffer(s, width, height).1 == 0 <==> !Fits(s, width, height)
    ensures CreatePbuffer(s, width, height).1 == 0 ==> CreatePbuffer(s, width, height).0 == s
  {
  }

  lemma StepKeepsPixels(s: Egl, c: Call)
    requires Valid(s)
    ensures s.nextPixels <= Step(s, c).nextPixels
  {
    hide PageUp, PixelBytes;
    if c.PbufferCall? && Fits(s, c.width, c.height) {
      AreaPositive(c.width, c.height);
      NextPageFits(s.nextPixels, PixelBytes(c.width, c.height));
    }
  }

  lemma {:induction false} RunKeepsPixels(s: Egl, calls: seq<Call>)
    requires Valid(s)
    ensures s.nextPixels <= Run(s, calls).nextPixels
    decreases |calls|
  {
    hide Step, Valid;
    if calls != [] {
      StepKeepsValid(s, calls[0]);
      StepKeepsPixels(s, calls[0]);
      RunKeepsPixels(Step(s, calls[0]), calls[1..]);
    }
  }

  /** A pbuffer size refused once is refused for ever, whatever is destroyed in between: pixels are never given back. */
  lemma RefusedForEver(s: Egl, width: int, height: int, calls: seq<Call>)
    requires Valid(s) && CreatePbuffer(s, width, height).1 == 0
    ensures var t := Run(s, calls); CreatePbuffer(t, width, height) == (t, 0)
  {
    hide Run, PixelBytes, PageUp;
    PbufferRefusedIff(s, width, height);
    RunKeepsPixels(s, calls);
  }

  // ----- in addresses, pixels and words -------------------------------------

  /** Every pbuffer of every run has two bytes for each of its pixels, inside the region and to itself. */
  lemma PbuffersNeverOverlap(calls: seq<Call>, h: uint32)
    requires h in Run(INITIAL, calls).surfaces && h != 1
    ensures var t := Run(INITIAL, calls);
      var p := t.surfaces[h];
      && 0 < p.width && 0 < p.height && p.colorBuffer % 4096 == 0
      && 0x8a00_0000 <= p.colorBuffer && p.colorBuffer + 2 * p.width * p.height <= 0x8c00_0000
      && forall k :: k in t.surfaces && k != 1 && k != h ==>
           var q := t.surfaces[k];
           || p.colorBuffer + 2 * p.width * p.height <= q.colorBuffer
           || q.colorBuffer + 2 * q.width * q.height <= p.colorBuffer
  {
    hide Run, PixelBytes;
    EveryRunIsValid(INITIAL, calls);
    var t := Run(INITIAL, calls);
    TwoBytesEach(t.surfaces[h].width, t.surfaces[h].height);
    forall k | k in t.surfaces && k != 1 && k != h
      ensures Disjoint(t.surfaces[h], t.surfaces[k])
      ensures PixelBytes(t.surfaces[k].width, t.surfaces[k].height) == 2 * t.surfaces[k].width * t.surfaces[k].height
    {
      TwoBytesEach(t.surfaces[k].width, t.surfaces[k].height);
    }
  }

  lemma TwoBytesEach(width: int, height: int)
    ensures PixelBytes(width, height) > 0 <==> width > 0 && height > 0
    ensures width > 0 && height > 0 ==> PixelBytes(width, height) == 2 * width * height
  {
    if width > 0 && height > 0 {
      AreaPositive(width, height);
      assert width * height * 2 == 2 * width * height;
    }
  }

  /** A pbuffer is given out exactly for a positive size within 640 by 480 whose bytes still fit; it starts where
      the free pixels did, and they go on at the next page boundary. */
  lemma PbufferCreatedIff(s: Egl, width: int, height: int)
    requires Valid(s)
    ensures var (t, handle) := CreatePbuffer(s, width, height);
      && (handle != 0 <==> 0 < width <= 640 && 0 < height <= 480
                           && s.nextPixels + 2 * width * height <= 0x8c00_0000)
      && (handle != 0 ==>
            && handle == s.nextSurface
            && t.surfaces == s.surfaces[handle := Surface(width, height, s.nextPixels)]
            && t.nextPixels % 4096 == 0
            && 0 <= t.nextPixels - (s.nextPixels + 2 * width * height) < 4096)
      && (handle == 0 ==> t == s)
      && t.current == s.current && t.contextCurrent == s.contextCurrent
  {
    hide PixelBytes, PageUp;
    TwoBytesEach(width, height);
    if Fits(s, width, height) {
      NextPageFits(s.nextPixels, PixelBytes(width, height));
      PageUpFacts(s.nextPixels + PixelBytes(width, height));
    }
  }

  /** The first pbuffers of a run: 153600 bytes each, the second at the first free page boundary. */
  lemma TwoPbuffers()
    ensures var t := Run(INITIAL, [PbufferCall(320, 240), PbufferCall(320, 240)]);
      t.surfaces == map[2 := Surface(320, 240, 0x8a00_0000), 3 := Surface(320, 240, 0x8a02_6000)]
  {
    var c := PbufferCall(320, 240);
    var t := Step(INITIAL, c);
    assert t == Egl(map[2 := Surface(320, 240, 0x8a00_0000)], 3, 0, 0x8a02_6000, false);
    assert [c, c][1..] == [c] && [c][1..] == [];
    assert Run(INITIAL, [c, c]) == Run(t, [c]) == Step(t, c);
  }

  /** The size asked for is the last one given before the terminator, among the first 64 attributes. */
  lemma RequestedIsLast(memory: Words, attrs: uint32, name: uint32, n: nat, i: nat)
    requires attrs != 0 && i < n <= 64
    requires forall j :: 0 <= j < n ==> memory((attrs + 8 * j) % TWO32) != 0x3038
    requires n == 64 || memory((attrs + 8 * n) % TWO32) == 0x3038
    requires memory((attrs + 8 * i) % TWO32) == name
    requires forall j :: i < j < n ==> memory((attrs + 8 * j) % TWO32) != name
    ensures (memory((attrs + 8 * i + 4) % TWO32) - Requested(memory, attrs, name)) % TWO32 == 0
  {
    hide Attribute, AttributeValue;
    var found := AttributesUpTo(memory, attrs, name, i, 0, 0);
    NextAttribute(memory, attrs, i, name, found);
    AttributesAfter(memory, attrs, name, n, i + 1, AttributeValue(memory, attrs, i));
    ValueAt(memory, attrs, i);
  }

  lemma {:induction false} AttributesUpTo(memory: Words, attrs: uint32, name: uint32, i: nat, from: nat, found: int32)
    returns (last: int32)
    requires from <= i < 64
    requires forall j :: from <= j < i ==> memory((attrs + 8 * j) % TWO32) != 0x3038
    ensures Attribute(memory, attrs, from, name, found) == Attribute(memory, attrs, i, name, last)
    decreases i - from
  {
    if from == i {
      last := found;
    } else {
      hide AttributeValue;
      NextAttribute(memory, attrs, from, name, found);
      var value := if memory((attrs + 8 * from) % TWO32) == name then AttributeValue(memory, attrs, from) else found;
      last := AttributesUpTo(memory, attrs, name, i, from + 1, value);
    }
  }

  /** Without that attribute before the terminator the size is 0. */
  lemma NothingRequested(memory: Words, attrs: uint32, name: uint32, n: nat)
    requires n <= 64 && forall j :: 0 <= j < n ==>
      memory((attrs + 8 * j) % TWO32) != 0x3038 && memory((attrs + 8 * j) % TWO32) != name
    requires n == 64 || memory((attrs + 8 * n) % TWO32) == 0x3038
    ensures Requested(memory, attrs, name) == 0 && Requested(memory, 0, name) == 0
  {
    AttributesAfter(memory, attrs, name, n, 0, 0);
  }

  lemma ValueAt(memory: Words, attrs: uint32, i: nat)
    ensures AttributeValue(memory, attrs, i) == Signed(memory((attrs + 8 * i + 4) % TWO32))
  {
  }

  lemma NextAttribute(memory: Words, attrs: uint32, i: nat, name: uint32, found: int32)
    requires i < 64 && memory((attrs + 8 * i) % TWO32) != 0x3038
    ensures Attribute(memory, attrs, i, name, found)
            == Attribute(memory, attrs, i + 1, name,
                         if memory((attrs + 8 * i) % TWO32) == name then AttributeValue(memory, attrs, i) else found)
  {
  }

  lemma {:induction false} AttributesAfter(memory: Words, attrs: uint32, name: uint32, n: nat, i: nat, found: int32)
    requires i <= n <= 64
    requires forall j :: i <= j < n ==>
      memory((attrs + 8 * j) % TWO32) != 0x3038 && memory((attrs + 8 * j) % TWO32) != name
    requires n == 64 || memory((attrs + 8 * n) % TWO32) == 0x3038
    ensures Attribute(memory, attrs, i, name, found) == found
    decreases n - i
  {
    if i < n {
      NextAttribute(memory, attrs, i, name, found);
      AttributesAfter(memory, attrs, name, n, i + 1, found);
    }
  }

  // ----- which surface is drawn to --------------------------------------------

  /** A surface is made current exactly when both surfaces exist under the one context, and the host's context is
      there or can be created; it is the draw surface that becomes current. */
  lemma MakeCurrentIff(s: Egl, draw: uint32, read: uint32, ctx: uint32, created: bool)
    ensures var (t, ok) := MakeCurrent(s, draw, read, ctx, created);
      && (ok <==> ctx == 0 || (ctx == 1 && draw in s.surfaces && read in s.surfaces && (s.contextCurrent || created)))
      && t.current == (if !ok then s.current else if ctx == 0 then 0 else draw)
      && (t.contextCurrent <==> if ok then ctx != 0 else s.contextCurrent)
      && t.surfaces == s.surfaces && t.nextPixels == s.nextPixels && t.nextSurface == s.nextSurface
  {
  }

  predicate MakesCurrent(s: Egl, c: Call) {
    c.MakeCurrentCall? && MakeCurrent(s, c.draw, c.read, c.ctx, c.created).1
  }

  /** What was made current stays so until something else is, or it is destroyed. */
  lemma {:induction false} CurrentStays(s: Egl, calls: seq<Call>)
    requires forall i :: 0 <= i < |calls| ==>
      calls[i] != DestroyCall(s.current) && !MakesCurrent(Run(s, calls[..i]), calls[i])
    ensures Run(s, calls).current == s.current
    decreases |calls|
  {
    if calls != [] {
      assert calls[..0] == [];
      var t := Step(s, calls[0]);
      assert t.current == s.current;
      forall i | 0 <= i < |calls[1..]|
        ensures calls[1..][i] != DestroyCall(t.current) && !MakesCurrent(Run(t, calls[1..][..i]), calls[1..][i])
      {
        assert calls[..i + 1][1..] == calls[1..][..i] && calls[1..][i] == calls[i + 1];
        assert !MakesCurrent(Run(s, calls[..i + 1]), calls[i + 1]);
      }
      CurrentStays(t, calls[1..]);
    }
  }

  /** Destroying a surface takes it, and nothing else, from the table, and from being current. */
  lemma DestroyedIsGone(s: Egl, surface: uint32)
    ensures var (t, existed) := Destroy(s, surface);
      && surface !in t.surfaces && (t.current == surface ==> surface == 0)
      && (existed <==> surface in s.surfaces)
      && (forall h :: h != surface ==> (h in t.surfaces <==> h in s.surfaces))
      && (forall h :: h in t.surfaces ==> t.surfaces[h] == s.surfaces[h])
      && (s.current != surface ==> t.current == s.current)
      && t.nextPixels == s.nextPixels
  {
  }

  // ----- the object ---------------------------------------------------------

  class SurfaceTable {
    var surfaces: map<uint32, Surface>
    var nextSurface: uint32
    var current: uint32
    var nextPixels: uint32
    var contextCurrent: bool

    ghost function View(): Egl
      reads this
    {
      Egl(surfaces, nextSurface, current, nextPixels, contextCurrent)
    }

    constructor ()
      ensures View() == INITIAL && Valid(View())
    {
      surfaces, nextSurface, current, nextPixels, contextCurrent := map[], 2, 0, REGION_START, false;
    }

    method EglCreateWindowSurface() returns (handle: uint32)
      modifies this`surfaces
      ensures (View(), handle) == CreateWindow(old(View()))
      ensures handle == 1 && surfaces == old(surfaces)[1 := Surface(640, 480, 0)]
    {
      surfaces := surfaces[WINDOW := Surface(640, 480, 0)];
      handle := WINDOW;
    }

    method EglCreatePbufferSurface(memory: Words, attrs: uint32) returns (handle: uint32)
      modifies this
      ensures (View(), handle)
              == CreatePbuffer(old(View()), Requested(memory, attrs, EGL_WIDTH), Requested(memory, attrs, EGL_HEIGHT))
    {
      hide PageUp, PixelBytes, Requested;
      var width, height := ReadSize(memory, attrs);
      var bytes := PixelBytes(width, height);
      if width <= 0 || height <= 0 || width > 640 || height > 480 || nextPixels + bytes > REGION_END {
        return 0;
      }
      handle := nextSurface;
      surfaces := surfaces[handle := Surface(width, height, nextPixels)];
      nextPixels := PageUp(nextPixels + bytes) % TWO32;
      nextSurface := (nextSurface + 1) % TWO32;
    }

    static method ReadSize(memory: Words, attrs: uint32) returns (width: int32, height: int32)
      ensures width == Requested(memory, attrs, EGL_WIDTH) && height == Requested(memory, attrs, EGL_HEIGHT)
    {
      hide AttributeName, AttributeValue;
      width, height := 0, 0;
      if attrs == 0 {
        return;
      }
      var i := 0;
      while i < MAX_ATTRIBUTES && AttributeName(memory, attrs, i) != EGL_NONE
        invariant i <= MAX_ATTRIBUTES
        invariant Attribute(memory, attrs, 0, EGL_WIDTH, 0) == Attribute(memory, attrs, i, EGL_WIDTH, width)
        invariant Attribute(memory, attrs, 0, EGL_HEIGHT, 0) == Attribute(memory, attrs, i, EGL_HEIGHT, height)
      {
        if AttributeName(memory, attrs, i) == EGL_WIDTH {
          width := AttributeValue(memory, attrs, i);
        }
        if AttributeName(memory, attrs, i) == EGL_HEIGHT {
          height := AttributeValue(memory, attrs, i);
        }
        i := i + 1;
      }
    }

    method EglDestroySurface(surface: uint32) returns (erased: bool)
      modifies this`surfaces, this`current
      ensures (View(), erased) == Destroy(old(View()), surface)
    {
      if surface == current {
        current := 0;
      }
      erased := surface in surfaces;
      surfaces := surfaces - {surface};
    }

    method EglMakeCurrent(draw: uint32, read: uint32, ctx: uint32, created: bool) returns (ok: bool)
      modifies this`current, this`contextCurrent
      ensures (View(), ok) == MakeCurrent(old(View()), draw, read, ctx, created)
    {
      if ctx == 0 {
        current, contextCurrent := 0, false;
        return true;
      }
      if ctx != CONTEXT || draw !in surfaces || read !in surfaces {
        return false;
      }
      if !contextCurrent && !created {
        return false;
      }
      current, contextCurrent := draw, true;
      ok := true;
    }
  }
}
