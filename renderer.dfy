// The renderer (render/renderer.c): initialisation against a backend, scene
// selection, the per-frame hook sequence with the optional clear, traversal
// of the scene's renderables, and the translated blit drawRect.
module Renderers {
  import opened Vec2
  import opened Pixels
  import opened Grid
  import opened Renderables
  import opened Scenes
  import Frames

  // ---------------------------------------------------------------------
  // drawRect, specified on buffer contents

  /** The source position that destination element i would receive under the offset. */
  function SourceOf(i: int, dsize: Vec2i, off: Vec2i): Vec2i
    requires dsize.x > 0
  {
    Vec2i(i % dsize.x - off.x, i / dsize.x - off.y)
  }

  /**
   * Destination element i lies under the source rectangle placed at off and
   * its source position comes before (cols, rows) in row-major order.
   */
  predicate Covered(i: int, dsize: Vec2i, off: Vec2i, ssize: Vec2i, rows: int, cols: int)
  {
    dsize.x > 0 &&
    var p := SourceOf(i, dsize, off);
    InBounds(p, ssize) && (p.y < rows || (p.y == rows && p.x < cols))
  }

  /**
   * The destination contents d after the source s has been copied for every
   * source position before (cols, rows); all other elements are as in d.
   */
  function Blitted(d: seq<Pixel>, dsize: Vec2i, off: Vec2i, s: seq<Pixel>, ssize: Vec2i,
                   rows: int, cols: int): (r: seq<Pixel>)
    requires ssize.x * ssize.y <= |s|
    ensures |r| == |d|
  {
    seq(|d|, i requires 0 <= i < |d| =>
      if Covered(i, dsize, off, ssize, rows, cols) then s[Index(SourceOf(i, dsize, off), ssize)] else d[i])
  }

  /** The whole source rectangle copied to offset off. */
  function Blit(d: seq<Pixel>, dsize: Vec2i, off: Vec2i, s: seq<Pixel>, ssize: Vec2i): (r: seq<Pixel>)
    requires ssize.x * ssize.y <= |s|
    ensures |r| == |d|
  {
    Blitted(d, dsize, off, s, ssize, ssize.y, 0)
  }

  function Min(a: int, b: int): int
  {
    if a < b then a else b
  }

  function Max(a: int, b: int): int
  {
    if a < b then b else a
  }

  /** The source rectangle, placed at off, fits inside the destination. */
  predicate Fits(dsize: Vec2i, off: Vec2i, ssize: Vec2i)
  {
    0 <= off.x && off.x + ssize.x <= dsize.x && 0 <= off.y && off.y + ssize.y <= dsize.y
  }

  /** Destination cell off + p receives source cell p. */
  lemma BlitAt(d: seq<Pixel>, dsize: Vec2i, off: Vec2i, s: seq<Pixel>, ssize: Vec2i, p: Vec2i)
    requires ssize.x * ssize.y <= |s| && dsize.x * dsize.y <= |d|
    requires Fits(dsize, off, ssize) && InBounds(p, ssize)
    ensures InBounds(Sum(off, p), dsize)
    ensures Blit(d, dsize, off, s, ssize)[Index(Sum(off, p), dsize)] == s[Index(p, ssize)]
  {
    var q := Sum(off, p);
    IndexCoords(q, dsize);
    assert SourceOf(Index(q, dsize), dsize, off) == p;
  }

  /** Every destination element that changes lies under the source rectangle. */
  lemma BlitOnlyRect(d: seq<Pixel>, dsize: Vec2i, off: Vec2i, s: seq<Pixel>, ssize: Vec2i, i: nat)
    requires ssize.x * ssize.y <= |s| && i < |d|
    requires Blit(d, dsize, off, s, ssize)[i] != d[i]
    ensures dsize.x > 0
    ensures var p := SourceOf(i, dsize, off);
      InBounds(p, ssize) && i == (off.x + p.x) + (off.y + p.y) * dsize.x
  {
    assert i == i % dsize.x + (i / dsize.x) * dsize.x;
  }

  /** Nothing is copied before the first row. */
  lemma BlittedNone(d: seq<Pixel>, dsize: Vec2i, off: Vec2i, s: seq<Pixel>, ssize: Vec2i, rows: int)
    requires ssize.x * ssize.y <= |s| && rows <= 0
    ensures Blitted(d, dsize, off, s, ssize, rows, 0) == d
  {
    assert forall i :: 0 <= i < |d| ==> !Covered(i, dsize, off, ssize, rows, 0);
  }

  /** Finishing a row is the same as starting the next one. */
  lemma BlittedRowDone(d: seq<Pixel>, dsize: Vec2i, off: Vec2i, s: seq<Pixel>, ssize: Vec2i, y: int, x: int)
    requires ssize.x * ssize.y <= |s| && x >= ssize.x
    ensures Blitted(d, dsize, off, s, ssize, y, x) == Blitted(d, dsize, off, s, ssize, y + 1, 0)
  {
    assert forall i :: 0 <= i < |d| ==>
      (Covered(i, dsize, off, ssize, y, x) <==> Covered(i, dsize, off, ssize, y + 1, 0));
  }

  /** Copying source cell (x, y) extends the copied region by that one cell. */
  lemma BlittedStep(d: seq<Pixel>, dsize: Vec2i, off: Vec2i, s: seq<Pixel>, ssize: Vec2i, y: int, x: int)
    requires ssize.x * ssize.y <= |s| && dsize.x * dsize.y <= |d|
    requires Fits(dsize, off, ssize) && InBounds(Vec2i(x, y), ssize)
    ensures InBounds(Sum(off, Vec2i(x, y)), dsize)
    ensures Blitted(d, dsize, off, s, ssize, y, x)[Index(Sum(off, Vec2i(x, y)), dsize) := s[Index(Vec2i(x, y), ssize)]]
         == Blitted(d, dsize, off, s, ssize, y, x + 1)
  {
    var q := Sum(off, Vec2i(x, y));
    var k := Index(q, dsize);
    IndexCoords(q, dsize);
    var before := Blitted(d, dsize, off, s, ssize, y, x);
    var after := Blitted(d, dsize, off, s, ssize, y, x + 1);
    forall i | 0 <= i < |d|
      ensures before[k := s[Index(Vec2i(x, y), ssize)]][i] == after[i]
    {
      if i != k {
        assert i == i % dsize.x + (i / dsize.x) * dsize.x;
        assert SourceOf(i, dsize, off) != Vec2i(x, y);
      }
    }
  }

  // ---------------------------------------------------------------------
  // The drawRect bounds guards

  /**
   * The source positions the loops of drawRect visit, with the guards as
   * written: x and y are compared with the destination size by `>`, and
   * without the offset.
   */
  predicate Visited(p: Vec2i, dsize: Vec2i, ssize: Vec2i): (b: bool)
    ensures b <==> InBounds(p, Vec2i(Min(ssize.x, dsize.x + 1), Min(ssize.y, dsize.y + 1)))
  {
    0 <= p.x < ssize.x && p.x <= dsize.x && 0 <= p.y < ssize.y && p.y <= dsize.y
  }

  /**
   * As written, a source wider than the destination gets column
   * x == des.size.x drawn, one past the last column, even at offset (0, 0).
   */
  lemma VisitedEscapes(dsize: Vec2i, ssize: Vec2i)
    requires 0 < dsize.x < ssize.x && 0 < dsize.y && 0 < ssize.y
    ensures Visited(Vec2i(dsize.x, 0), dsize, ssize)
    ensures !InBounds(Sum(Vec2.Zero, Vec2i(dsize.x, 0)), dsize)
  {
  }

  /**
   * Conversely, whenever the rectangle does not fit, the guards as written
   * let some source cell be drawn outside the destination: at a negative
   * offset, past the right edge or past the bottom edge.
   */
  lemma {:induction false} VisitedEscapesUnlessFits(off: Vec2i, dsize: Vec2i, ssize: Vec2i)
    requires 0 < dsize.x && 0 < dsize.y && 0 < ssize.x && 0 < ssize.y
    requires !Fits(dsize, off, ssize)
    ensures exists p :: Visited(p, dsize, ssize) && !InBounds(Sum(off, p), dsize)
  {
    var p;
    if off.x < 0 || off.y < 0 {
      p := Vec2i(0, 0);
    } else if off.x + ssize.x > dsize.x {
      p := Vec2i(Min(ssize.x - 1, dsize.x), 0);
    } else {
      p := Vec2i(0, Min(ssize.y - 1, dsize.y));
    }
    assert Visited(p, dsize, ssize) && !InBounds(Sum(off, p), dsize);
  }

  /**
   * The evident intent: skip the source cells whose translated position
   * leaves the destination, on every edge.
   */
  predicate IntendedVisited(p: Vec2i, off: Vec2i, dsize: Vec2i, ssize: Vec2i): (b: bool)
    ensures b <==> (Max(0, -off.x) <= p.x < Min(ssize.x, dsize.x - off.x)
                    && Max(0, -off.y) <= p.y < Min(ssize.y, dsize.y - off.y))
  {
    InBounds(p, ssize) && 0 <= off.x + p.x < dsize.x && 0 <= off.y + p.y < dsize.y
  }

  /**
   * With the intended guards every write lands inside the destination, for
   * any offset, and every source cell whose translated position is inside
   * the destination is drawn.
   */
  lemma IntendedVisitedInBounds(p: Vec2i, off: Vec2i, dsize: Vec2i, ssize: Vec2i)
    ensures IntendedVisited(p, off, dsize, ssize) ==> InBounds(Sum(off, p), dsize)
    ensures InBounds(p, ssize) && InBounds(Sum(off, p), dsize) ==> IntendedVisited(p, off, dsize, ssize)
  {
  }

  /**
   * When the rectangle fits, both guards admit the whole source, so
   * drawRect as written and as intended agree.
   */
  lemma GuardsAgreeWhenFits(p: Vec2i, off: Vec2i, dsize: Vec2i, ssize: Vec2i)
    requires Fits(dsize, off, ssize)
    ensures Visited(p, dsize, ssize) <==> InBounds(p, ssize)
    ensures IntendedVisited(p, off, dsize, ssize) <==> InBounds(p, ssize)
  {
  }

  // ---------------------------------------------------------------------
  // Backend hooks and the renderer

  /** The observable steps of the renderer: backend hook calls, the clear, dispatches. */
  datatype Event =
    | InitCall
    | BeforeRenderCall
    | GetFramebufferCall
    | AfterRenderCall
    | ClearCall
    | Dispatch(renderable: Renderable)

  /** The events of dispatching each of rs, in order. */
  function Dispatches(rs: seq<Renderable>): (es: seq<Event>)
    ensures |es| == |rs| && forall i :: 0 <= i < |rs| ==> es[i] == Dispatch(rs[i])
  {
    seq(|rs|, i requires 0 <= i < |rs| => Dispatch(rs[i]))
  }

  /**
   * A display backend (render/backend.h:14-35). Its hooks do platform work
   * outside this model; each records its call in the renderer's trace, and
   * getFramebuffer hands out the buffer the backend owns.
   */
  class Backend {
    var framebuffer: array?<Pixel>

    constructor (buffer: array?<Pixel>)
      ensures framebuffer == buffer
    {
      framebuffer := buffer;
    }

    method Init(r: Renderer)
      modifies r`trace
      ensures r.trace == old(r.trace) + [InitCall]
    {
      r.trace := r.trace + [InitCall];
    }

    method BeforeRender(r: Renderer)
      modifies r`trace
      ensures r.trace == old(r.trace) + [BeforeRenderCall]
    {
      r.trace := r.trace + [BeforeRenderCall];
    }

    method AfterRender(r: Renderer)
      modifies r`trace
      ensures r.trace == old(r.trace) + [AfterRenderCall]
    {
      r.trace := r.trace + [AfterRenderCall];
    }

    method GetFramebuffer(r: Renderer) returns (p: array?<Pixel>)
      modifies r`trace
      ensures p == framebuffer
      ensures r.trace == old(r.trace) + [GetFramebufferCall]
    {
      r.trace := r.trace + [GetFramebufferCall];
      p := framebuffer;
    }
  }

  class Renderer {
    var scene: Scene?
    var frameBuffer: Frames.Frame
    var clearColor: Pixel
    var clear: bool
    var backEnd: Backend?
    /** Every hook call, clear and dispatch so far, in order. */
    ghost var trace: seq<Event>

    /** Zero-filled storage. */
    constructor ()
      ensures scene == null && backEnd == null && !clear && clearColor == Pixels.Zero
      ensures frameBuffer == Frames.Frame(Vec2.Zero, null) && trace == []
    {
      scene := null;
      frameBuffer := Frames.Frame(Vec2.Zero, null);
      clearColor := Pixels.Zero;
      clear := false;
      backEnd := null;
      trace := [];
    }

    /**
     * rendererInit. The frame is initialised with the buffer the backend
     * hands out; on failure its code is returned and the backend's init is
     * not called.
     */
    method Init(size: Vec2i, b: Backend) returns (code: int)
      requires b.framebuffer != null ==> size.x * size.y <= b.framebuffer.Length
      modifies this
      ensures scene == null && clearColor == Black && backEnd == b && clear == old(clear)
      ensures (frameBuffer, code) == Frames.FrameInit(old(frameBuffer), size, b.framebuffer)
      ensures code == 0 ==> Frames.Valid(frameBuffer) && frameBuffer.size == size
      ensures trace == old(trace) + [GetFramebufferCall] + (if code == 0 then [InitCall] else [])
    {
      scene := null;
      clearColor := Black;
      backEnd := b;
      var buf := b.GetFramebuffer(this);
      var res := Frames.FrameInit(frameBuffer, size, buf);
      frameBuffer := res.0;
      if res.1 != 0 {
        return res.1;
      }
      b.Init(this);
      return 0;
    }

    /** rendererSetScene: a null scene is rejected with code 1. */
    method SetScene(s: Scene?) returns (code: int)
      modifies this`scene
      ensures s == null ==> code == 1 && scene == old(scene)
      ensures s != null ==> code == 0 && scene == s
    {
      if s == null {
        return 1;
      }
      scene := s;
      return 0;
    }

    /** renderRenderable: the handler the dispatch table selects is outside this model. */
    method RenderRenderable(ren: Renderable)
      modifies this`trace
      ensures trace == old(trace) + [Dispatch(ren)]
    {
      trace := trace + [Dispatch(ren)];
    }

    /** renderScene: each renderable of the scene is dispatched once, in order. */
    method RenderScene(ren: Renderable) returns (code: int)
      requires ren.impl is Scene && (ren.impl as Scene).Valid()
      modifies this`trace
      ensures code == 0
      ensures trace == old(trace) + Dispatches((ren.impl as Scene).Contents())
    {
      var s := ren.impl as Scene;
      var i := 0;
      while i < s.numberOfRenderables
        invariant 0 <= i <= s.numberOfRenderables
        invariant trace == old(trace) + Dispatches(s.renderables[..i])
      {
        RenderRenderable(s.renderables[i]);
        i := i + 1;
      }
      return 0;
    }

    /**
     * rendererRender: beforeRender, getFramebuffer, the optional clear to
     * all-zero bytes (not clearColor), the scene, then afterRender. A
     * dispatch only records its renderable, so the buffer stated here is
     * the one the scene's handlers start from.
     */
    method Render() returns (code: int)
      requires scene != null && scene.Valid() && backEnd != null && backEnd.framebuffer != null
      requires 0 <= frameBuffer.size.x * frameBuffer.size.y <= backEnd.framebuffer.Length
      modifies this, backEnd.framebuffer
      ensures code == 0
      ensures scene == old(scene) && backEnd == old(backEnd) && clear == old(clear) && clearColor == old(clearColor)
      ensures frameBuffer == Frames.Frame(old(frameBuffer.size), backEnd.framebuffer)
      ensures trace == old(trace) + [BeforeRenderCall, GetFramebufferCall]
        + (if clear then [ClearCall] else []) + Dispatches(scene.Contents()) + [AfterRenderCall]
      ensures var n := frameBuffer.size.x * frameBuffer.size.y;
        forall i :: 0 <= i < backEnd.framebuffer.Length ==>
          backEnd.framebuffer[i] == if clear && i < n then Pixels.Zero else old(backEnd.framebuffer[i])
    {
      backEnd.BeforeRender(this);
      var buf := backEnd.GetFramebuffer(this);
      frameBuffer := frameBuffer.(frameBuffer := buf);
      var des := frameBuffer;
      if clear {
        var n := des.size.x * des.size.y;
        forall i | 0 <= i < n {
          des.frameBuffer[i] := Pixels.Zero;
        }
        trace := trace + [ClearCall];
      }
      code := RenderScene(SceneAsRenderable(scene));
      backEnd.AfterRender(this);
      return 0;
    }

    /**
     * drawRect: copies the source frame into the frame buffer at offset off.
     * The loop guards compare the untranslated x and y with the destination
     * size, so they keep the writes in bounds only when the rectangle fits.
     */
    method DrawRect(off: Vec2i, src: Frames.Frame) returns (code: int)
      requires Frames.Valid(frameBuffer) && Frames.Valid(src)
      requires src.frameBuffer != frameBuffer.frameBuffer
      requires Fits(frameBuffer.size, off, src.size)
      modifies frameBuffer.frameBuffer
      ensures code == 0
      ensures frameBuffer.frameBuffer[..]
           == Blit(old(frameBuffer.frameBuffer[..]), frameBuffer.size, off, src.frameBuffer[..], src.size)
    {
      var des := frameBuffer;
      ghost var d0 := des.frameBuffer[..];
      ghost var s := src.frameBuffer[..];
      BlittedNone(d0, des.size, off, s, src.size, 0);
      var y := 0;
      while y < src.size.y
        invariant 0 <= y && (y <= src.size.y || y == 0)
        invariant des.frameBuffer[..] == Blitted(d0, des.size, off, s, src.size, y, 0)
      {
        if y > des.size.y {
          break; // Do not draw outside bounds
        }
        var x := 0;
        while x < src.size.x
          invariant 0 <= x && (x <= src.size.x || x == 0)
          invariant des.frameBuffer[..] == Blitted(d0, des.size, off, s, src.size, y, x)
        {
          if x > des.size.x {
            break; // Do not draw outside bounds
          }
          var srcPos := Vec2i(x, y);
          var desPos := Sum(off, srcPos);
          var color := Frames.Read(src, srcPos);
          BlittedStep(d0, des.size, off, s, src.size, y, x);
          Frames.Draw(des, desPos, color);
          x := x + 1;
        }
        BlittedRowDone(d0, des.size, off, s, src.size, y, x);
        y := y + 1;
      }
      if src.size.y <= 0 {
        BlittedNone(d0, des.size, off, s, src.size, src.size.y);
      }
      return 0;
    }
  }
}
