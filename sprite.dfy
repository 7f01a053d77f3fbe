// A sprite: a transform and an embedded texture (render/sprite.c).
module Sprites {
  import opened Vec2
  import opened Pixels
  import opened Grid
  import opened Matrices
  import opened Renderables
  import opened Textures

  /** The number of pixelRandom calls spriteRandomize makes for a frame of this size. */
  function Draws(size: Vec2i): nat
  {
    if size.x > 0 && size.y > 0 then size.x * size.y else 0
  }

  /**
   * The cell indices spriteRandomize writes, in the order it writes them:
   * x in the outer loop, y in the inner one, cell x + y*w.
   */
  function Traversal(size: Vec2i): (t: seq<int>)
    ensures |t| == Draws(size)
  {
    if size.x > 0 && size.y > 0 then
      seq(size.x * size.y, k requires 0 <= k < size.x * size.y => k / size.y + (k % size.y) * size.x)
    else
      []
  }

  /** Step k of the traversal visits column k / h, row k % h. */
  lemma TraversalCoords(size: Vec2i, k: int)
    requires 0 <= k < Draws(size)
    ensures size.x > 0 && size.y > 0
    ensures InBounds(Vec2i(k / size.y, k % size.y), size)
    ensures k == (k / size.y) * size.y + k % size.y
    ensures Traversal(size)[k] == Index(Vec2i(k / size.y, k % size.y), size)
  {
    var w, h := size.x, size.y;
    assert k == (k / h) * h + k % h;
    if k / h >= w {
      MulMonotone(w, k / h, h);
    }
  }

  /** The step of the traversal, and the pixelRandom call, that draws cell pos. */
  function Step(pos: Vec2i, size: Vec2i): (k: nat)
    requires InBounds(pos, size)
    ensures k < Draws(size)
  {
    MulMonotone(pos.x, size.x - 1, size.y);
    assert (size.x - 1) * size.y + size.y == size.x * size.y;
    pos.x * size.y + pos.y
  }

  /** Step x*h + y of the traversal visits column x, row y. */
  lemma TraversalAt(pos: Vec2i, size: Vec2i)
    requires InBounds(pos, size)
    ensures Traversal(size)[Step(pos, size)] == Index(pos, size)
  {
    var k := Step(pos, size);
    DivModUnique(k, size.y, pos.x, pos.y);
    TraversalCoords(size, k);
  }

  lemma TraversalInRange(size: Vec2i)
    ensures forall k :: 0 <= k < |Traversal(size)| ==> 0 <= Traversal(size)[k] < Draws(size)
  {
    forall k | 0 <= k < |Traversal(size)|
      ensures 0 <= Traversal(size)[k] < Draws(size)
    {
      TraversalCoords(size, k);
    }
  }

  lemma TraversalDistinct(size: Vec2i)
    ensures forall j, k :: 0 <= j < k < |Traversal(size)| ==> Traversal(size)[j] != Traversal(size)[k]
  {
    var t := Traversal(size);
    forall j, k | 0 <= j < k < |t|
      ensures t[j] != t[k]
    {
      TraversalCoords(size, j);
      TraversalCoords(size, k);
      IndexInjective(Vec2i(j / size.y, j % size.y), Vec2i(k / size.y, k % size.y), size);
    }
  }

  lemma TraversalCovers(size: Vec2i)
    ensures forall i :: 0 <= i < Draws(size) ==> i in Traversal(size)
  {
    forall i | 0 <= i < Draws(size)
      ensures i in Traversal(size)
    {
      var w, h := size.x, size.y;
      var p := Vec2i(i % w, i / w);
      assert i == (i / w) * w + i % w;
      if i / w >= h {
        MulMonotone(h, i / w, w);
      }
      TraversalAt(p, size);
    }
  }

  /** The traversal writes every cell of the w*h grid exactly once, and nothing else. */
  lemma TraversalExactlyOnce(size: Vec2i)
    ensures forall k :: 0 <= k < |Traversal(size)| ==> 0 <= Traversal(size)[k] < Draws(size)
    ensures forall j, k :: 0 <= j < k < |Traversal(size)| ==> Traversal(size)[j] != Traversal(size)[k]
    ensures forall i :: 0 <= i < Draws(size) ==> i in Traversal(size)
  {
    TraversalInRange(size);
    TraversalDistinct(size);
    TraversalCovers(size);
  }

  /** Each cell in `cells` holds the pixelRandom value of the call that wrote it. */
  ghost predicate Painted(buffer: seq<Pixel>, cells: seq<int>, noise: seq<Pixel>)
  {
    forall j :: 0 <= j < |cells| ==> j < |noise| && 0 <= cells[j] < |buffer| && buffer[cells[j]] == noise[j]
  }

  class Sprite {
    var t: Mat4
    /** The embedded texture struct. */
    const frame: Texture

    /** Zero-filled storage. */
    constructor ()
      ensures fresh(frame) && frame.framebuffer == null && frame.size == Vec2.Zero && t == ZeroMat4
    {
      t := ZeroMat4;
      frame := new Texture();
    }

    /**
     * spriteInit: a texture without a buffer is rejected with code 1;
     * otherwise the texture struct and the transform are copied in.
     */
    method Init(f: Texture, newT: Mat4) returns (code: int)
      modifies this, frame
      ensures f.framebuffer == null ==> code == 1
      ensures f.framebuffer == null ==> t == old(t) && frame.size == old(frame.size) && frame.framebuffer == old(frame.framebuffer)
      ensures f.framebuffer != null ==> code == 0
      ensures f.framebuffer != null ==> t == newT && frame.size == old(f.size) && frame.framebuffer == old(f.framebuffer)
    {
      if f.framebuffer == null {
        return 1;
      }
      frame.framebuffer, frame.size := f.framebuffer, f.size;
      t := newT;
      return 0;
    }

    /**
     * spriteRandomize: draws a pixelRandom value into every cell of the
     * frame, column by column. The k-th pixelRandom call returns noise[k];
     * `written` lists the cells written, in order.
     */
    method Randomize(noise: seq<Pixel>) returns (code: int, ghost written: seq<int>)
      requires frame.Valid() && |noise| == Draws(frame.size)
      modifies frame.framebuffer
      ensures code == 0 && frame.Valid()
      ensures written == Traversal(frame.size)
      ensures forall x, y :: InBounds(Vec2i(x, y), frame.size) ==>
        frame.Read(Vec2i(x, y)) == noise[Step(Vec2i(x, y), frame.size)]
      ensures forall i :: 0 <= i < frame.framebuffer.Length && i !in written ==>
        frame.framebuffer[i] == old(frame.framebuffer[i])
    {
      var size := frame.size;
      var w, h := size.x, size.y;
      written := [];
      var x := 0;
      if h > 0 {
        while x < w
          invariant 0 <= x && (x <= w || x == 0)
          invariant frame.size == size && frame.Valid()
          invariant x * h <= Draws(size) && written == Traversal(size)[..x * h]
          invariant Painted(frame.framebuffer[..], written, noise)
          invariant forall i :: 0 <= i < frame.framebuffer.Length && i !in written ==>
            frame.framebuffer[i] == old(frame.framebuffer[i])
        {
          MulMonotone(x + 1, w, h);
          ghost var column := RandomizeColumn(x, noise, written);
          assert column[..x * h] == written;
          written := column;
          x := x + 1;
        }
      }
      assert written == Traversal(size);
      forall x', y' | InBounds(Vec2i(x', y'), size)
        ensures frame.Read(Vec2i(x', y')) == noise[Step(Vec2i(x', y'), size)]
      {
        TraversalAt(Vec2i(x', y'), size);
      }
      return 0, written;
    }

    /**
     * The inner loop of spriteRandomize: column x, rows 0 to h-1, taking
     * pixelRandom calls x*h to x*h + h - 1. `before` is what the earlier
     * columns wrote; `written` extends it by this column.
     */
    method RandomizeColumn(x: int, noise: seq<Pixel>, ghost before: seq<int>) returns (ghost written: seq<int>)
      requires frame.Valid() && |noise| == Draws(frame.size)
      requires 0 <= x < frame.size.x && frame.size.y > 0
      requires (x + 1) * frame.size.y <= Draws(frame.size)
      requires before == Traversal(frame.size)[..x * frame.size.y]
      requires Painted(frame.framebuffer[..], before, noise)
      modifies frame.framebuffer
      ensures frame.Valid()
      ensures written == Traversal(frame.size)[..(x + 1) * frame.size.y]
      ensures Painted(frame.framebuffer[..], written, noise)
      ensures forall i :: 0 <= i < frame.framebuffer.Length && i !in written ==>
        frame.framebuffer[i] == old(frame.framebuffer[i])
    {
      var size := frame.size;
      var h := size.y;
      TraversalInRange(size);
      TraversalDistinct(size);
      written := before;
      var k := x * h;
      var y := 0;
      while y < h
        invariant 0 <= y <= h && k == x * h + y
        invariant frame.size == size && frame.Valid()
        invariant written == Traversal(size)[..k]
        invariant Painted(frame.framebuffer[..], written, noise)
        invariant forall i :: 0 <= i < frame.framebuffer.Length && i !in written ==>
          frame.framebuffer[i] == old(frame.framebuffer[i])
      {
        var pos := Vec2i(x, y);
        TraversalAt(pos, size);
        frame.Draw(pos, noise[k]);
        written := written + [Index(pos, size)];
        k := k + 1;
        y := y + 1;
      }
    }
  }

  /** spriteAsRenderable */
  function SpriteAsRenderable(s: Sprite): (r: Renderable)
    ensures r.renderableType == SpriteType && r.impl == s
    ensures r.renderableType.Ordinal() == 1
  {
    Renderable(SpriteType, s)
  }
}
