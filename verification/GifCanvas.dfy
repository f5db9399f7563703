/** Composing the frames of an animation onto its logical screen, with the disposal methods
    of section 23 of the GIF89a specification. */
module GifCanvas {
  import opened HostTypes
  import opened IntegerLaws

  datatype Pixel = Pixel(r: byte, g: byte, b: byte, a: byte)

  const CLEAR := Pixel(0, 0, 0, 0)

  datatype Frame = Frame(x: int, y: int, width: nat, height: nat, disposal: int, rgba: seq<Pixel>)

  /** A decoded frame has a pixel for every place of its own rectangle. */
  type Decoded = f: Frame | |f.rgba| == f.height * f.width witness Frame(0, 0, 0, 0, 0, [])

  type Canvas = seq<seq<Pixel>>

  predicate Sized(c: Canvas, w: nat, h: nat) {
    |c| == h && forall y :: 0 <= y < h ==> |c[y]| == w
  }

  const RESTORE_BACKGROUND := 2
  const RESTORE_PREVIOUS := 3

  // ----- one pixel of the screen --------------------------------------------

  predicate Covers(f: Decoded, px: int, py: int) {
    f.x <= px < f.x + f.width && f.y <= py < f.y + f.height
  }

  lemma PlaceInside(row: nat, col: nat, height: nat, width: nat)
    requires row < height && col < width
    ensures row * width + col < height * width
  {
    ProductOrder(height, row + 1, width);
  }

  function SourcePixel(f: Decoded, px: int, py: int): Pixel
    requires Covers(f, px, py)
  {
    PlaceInside(py - f.y, px - f.x, f.height, f.width);
    f.rgba[(py - f.y) * f.width + (px - f.x)]
  }

  /** A transparent pixel lets what is under it show; any other is made opaque. */
  function Painted(f: Decoded, px: int, py: int, under: Pixel): Pixel {
    if Covers(f, px, py) && SourcePixel(f, px, py).a != 0 then SourcePixel(f, px, py).(a := 255) else under
  }

  /** What a frame leaves behind after it was shown over `under`. */
  function Left(f: Decoded, px: int, py: int, under: Pixel): Pixel {
    if f.disposal == RESTORE_BACKGROUND && Covers(f, px, py) then CLEAR
    else if f.disposal == RESTORE_PREVIOUS then under
    else Painted(f, px, py, under)
  }

  function After(frames: seq<Decoded>, px: int, py: int): Pixel {
    if frames == [] then CLEAR
    else Left(frames[|frames| - 1], px, py, After(frames[..|frames| - 1], px, py))
  }

  function Shown(frames: seq<Decoded>, k: nat, px: int, py: int): Pixel
    requires k < |frames|
  {
    Painted(frames[k], px, py, After(frames[..k], px, py))
  }

  // ----- the disposal methods, pixel by pixel -----------------------------------

  /** A frame's own pixel is shown, opaque, where it is not transparent; everywhere else its predecessors show. */
  lemma ShownAt(frames: seq<Decoded>, k: nat, px: int, py: int)
    requires k < |frames|
    ensures var f := frames[k];
      var under := After(frames[..k], px, py);
      if 0 <= px - f.x < f.width && 0 <= py - f.y < f.height
      then var at := (py - f.y) * f.width + (px - f.x);
           && 0 <= at < |f.rgba|
           && Shown(frames, k, px, py)
              == if f.rgba[at].a == 0 then under else Pixel(f.rgba[at].r, f.rgba[at].g, f.rgba[at].b, 255)
      else Shown(frames, k, px, py) == under
  {
    var f := frames[k];
    if Covers(f, px, py) {
      PlaceInside(py - f.y, px - f.x, f.height, f.width);
    }
  }

  /** The screen starts transparent; disposal 2 clears the frame's rectangle again, 3 takes the frame back, and any
      other leaves it. */
  lemma LeftBehind(frames: seq<Decoded>, f: Decoded, px: int, py: int)
    ensures After([], px, py) == Pixel(0, 0, 0, 0)
    ensures var before, after := After(frames, px, py), After(frames + [f], px, py);
      && (f.disposal == 2 && 0 <= px - f.x < f.width && 0 <= py - f.y < f.height ==> after == Pixel(0, 0, 0, 0))
      && (f.disposal == 2 && !(0 <= px - f.x < f.width && 0 <= py - f.y < f.height) ==> after == before)
      && (f.disposal == 3 ==> after == before)
      && (f.disposal != 2 && f.disposal != 3 ==> after == Shown(frames + [f], |frames|, px, py))
  {
    assert (frames + [f])[..|frames|] == frames;
  }

  // ----- the loops ------------------------------------------------------------

  method PaintRow(f: Decoded, row: nat, line: seq<Pixel>) returns (out: seq<Pixel>)
    requires row < f.height
    ensures |out| == |line|
    ensures forall px :: 0 <= px < |line| ==> out[px] == Painted(f, px, f.y + row, line[px])
  {
    out := line;
    for col := 0 to f.width
      invariant |out| == |line|
      invariant forall px :: 0 <= px < |line| ==>
        out[px] == if px < f.x + col then Painted(f, px, f.y + row, line[px]) else line[px]
    {
      var dx := f.x + col;
      if 0 <= dx < |line| {
        PlaceInside(row, col, f.height, f.width);
        var source := f.rgba[row * f.width + col];
        assert source == SourcePixel(f, dx, f.y + row);
        if source.a != 0 {
          out := out[dx := source.(a := 255)];
        }
      }
    }
  }

  method PaintFrame(f: Decoded, canvas: Canvas, w: nat, h: nat) returns (out: Canvas)
    requires Sized(canvas, w, h)
    ensures Sized(out, w, h)
    ensures forall px, py :: 0 <= py < h && 0 <= px < w ==> out[py][px] == Painted(f, px, py, canvas[py][px])
  {
    out := canvas;
    for row := 0 to f.height
      invariant Sized(out, w, h)
      invariant forall px, py :: 0 <= py < h && 0 <= px < w ==>
        out[py][px] == if py < f.y + row then Painted(f, px, py, canvas[py][px]) else canvas[py][px]
    {
      var dy := f.y + row;
      if 0 <= dy < h {
        var line := PaintRow(f, row, out[dy]);
        out := out[dy := line];
      }
    }
  }

  method ClearRow(f: Decoded, line: seq<Pixel>) returns (out: seq<Pixel>)
    ensures |out| == |line|
    ensures forall px :: 0 <= px < |line| ==> out[px] == if f.x <= px < f.x + f.width then CLEAR else line[px]
  {
    out := line;
    for col := 0 to f.width
      invariant |out| == |line|
      invariant forall px :: 0 <= px < |line| ==> out[px] == if f.x <= px < f.x + col then CLEAR else line[px]
    {
      var dx := f.x + col;
      if 0 <= dx < |line| {
        out := out[dx := CLEAR];
      }
    }
  }

  method ClearFrame(f: Decoded, canvas: Canvas, w: nat, h: nat) returns (out: Canvas)
    requires Sized(canvas, w, h)
    ensures Sized(out, w, h)
    ensures forall px, py :: 0 <= py < h && 0 <= px < w ==>
      out[py][px] == if Covers(f, px, py) then CLEAR else canvas[py][px]
  {
    out := canvas;
    for row := 0 to f.height
      invariant Sized(out, w, h)
      invariant forall px, py :: 0 <= py < h && 0 <= px < w ==>
        out[py][px] == if Covers(f, px, py) && py < f.y + row then CLEAR else canvas[py][px]
    {
      var dy := f.y + row;
      if 0 <= dy < h {
        var line := ClearRow(f, out[dy]);
        out := out[dy := line];
      }
    }
  }

  ghost predicate Holds(c: Canvas, frames: seq<Decoded>, w: nat, h: nat) {
    Sized(c, w, h) && forall px, py :: 0 <= py < h && 0 <= px < w ==> c[py][px] == After(frames, px, py)
  }

  ghost predicate Shows(c: Canvas, frames: seq<Decoded>, k: nat, w: nat, h: nat)
    requires k < |frames|
  {
    Sized(c, w, h) && forall px, py :: 0 <= py < h && 0 <= px < w ==> c[py][px] == Shown(frames, k, px, py)
  }

  /** One canvas per frame, each pixel as shown at that moment. */
  method Compose(w: nat, h: nat, frames: seq<Decoded>) returns (images: seq<Canvas>)
    ensures |images| == |frames| && forall k :: 0 <= k < |frames| ==> Shows(images[k], frames, k, w, h)
  {
    var canvas: Canvas := seq(h, _ => seq(w, _ => CLEAR));
    var previous := [];
    images := [];
    for k := 0 to |frames|
      invariant Holds(canvas, frames[..k], w, h)
      invariant |images| == k && forall j :: 0 <= j < k ==> Shows(images[j], frames, j, w, h)
    {
      if frames[k].disposal == RESTORE_PREVIOUS {
        previous := canvas;
      }
      ghost var under := canvas;
      canvas := PaintFrame(frames[k], canvas, w, h);
      images := images + [canvas];
      if frames[k].disposal == RESTORE_BACKGROUND {
        canvas := ClearFrame(frames[k], canvas, w, h);
      } else if frames[k].disposal == RESTORE_PREVIOUS && previous != [] {
        canvas := previous;
      }
      assert frames[..k + 1][..k] == frames[..k];
    }
  }

  // ----- frames that leave no trace -------------------------------------------

  lemma AfterOneMore(before: seq<Decoded>, init: seq<Decoded>, last: Decoded, px: int, py: int)
    ensures After(before + (init + [last]), px, py) == Left(last, px, py, After(before + init, px, py))
  {
    hide Left;
    var frames := before + (init + [last]);
    assert frames[..|frames| - 1] == before + init && frames[|frames| - 1] == last;
  }

  lemma {:induction false} TraceForgotten(before: seq<Decoded>, f: Decoded, later: seq<Decoded>, px: int, py: int)
    requires Left(f, px, py, After(before, px, py)) == After(before, px, py)
    ensures After(before + [f] + later, px, py) == After(before + later, px, py)
    decreases |later|
  {
    hide Left;
    var n := |later|;
    if n == 0 {
      assert before + [f] + later == before + [f] && before + later == before;
      assert (before + [f])[..|before|] == before;
    } else {
      var init, last := later[..n - 1], later[n - 1];
      TraceForgotten(before, f, init, px, py);
      AfterOneMore(before + [f], init, last, px, py);
      AfterOneMore(before, init, last, px, py);
      assert init + [last] == later;
    }
  }

  /** Dropping a frame that restores the previous canvas leaves every other composed canvas unchanged. */
  lemma RestoringFrameLeavesNoTrace(frames: seq<Decoded>, i: nat, k: nat, px: int, py: int)
    requires i < |frames| && frames[i].disposal == 3 && k < |frames| - 1
    ensures var rest := frames[..i] + frames[i + 1..];
      Shown(rest, k, px, py) == Shown(frames, if k < i then k else k + 1, px, py)
  {
    var rest := frames[..i] + frames[i + 1..];
    if k < i {
      assert rest[..k] == frames[..k];
    } else {
      var later := frames[i + 1..k + 1];
      assert frames[..k + 1] == frames[..i] + [frames[i]] + later;
      assert rest[..k] == frames[..i] + later;
      TraceForgotten(frames[..i], frames[i], later, px, py);
    }
  }
}
