// A scene: a bounded, insertion-ordered list of renderables, a transform
// and a visibility flag (render/scene.h:12-22, render/scene.c).
module Scenes {
  import opened Renderables
  import opened Matrices

  /** MAX_SCENE_RENDERABLES */
  const MaxSceneRenderables: nat := 32

  /** The largest value of the uint8_t count field. */
  const MaxUint8: nat := 255

  /** The renderable slots of a scene and its count, as values. */
  datatype SceneState = SceneState(slots: seq<Renderable>, count: nat)

  /** The slots array is full-size and the count is within capacity. */
  predicate Bounded(st: SceneState)
  {
    |st.slots| == MaxSceneRenderables && st.count <= MaxSceneRenderables
  }

  /**
   * sceneAddRenderable on values: below capacity the renderable goes into
   * slot `count` and the count grows by one (code 0); at or above capacity
   * nothing changes (code 1).
   */
  function Add(st: SceneState, r: Renderable): (res: (SceneState, int))
    requires |st.slots| == MaxSceneRenderables
    ensures res.1 == 0 <==> st.count < MaxSceneRenderables
    ensures res.1 == 1 <==> st.count >= MaxSceneRenderables
    ensures res.1 == 1 ==> res.0 == st
    ensures |res.0.slots| == MaxSceneRenderables
    ensures res.1 == 0 ==> st.count < MaxSceneRenderables && res.0.count == st.count + 1 && res.0.slots[st.count] == r
    ensures forall i :: 0 <= i < MaxSceneRenderables && i != st.count ==> res.0.slots[i] == st.slots[i]
  {
    if st.count >= MaxSceneRenderables then
      (st, 1)
    else
      (SceneState(st.slots[st.count := r], st.count + 1), 0)
  }

  /** The state after adding each of rs in turn. */
  function AddAll(st: SceneState, rs: seq<Renderable>): SceneState
    requires |st.slots| == MaxSceneRenderables
    ensures |AddAll(st, rs).slots| == MaxSceneRenderables
    decreases |rs|
  {
    if rs == [] then st else AddAll(Add(st, rs[0]).0, rs[1..])
  }

  /** A count within capacity stays within capacity, so it always fits uint8_t. */
  lemma {:induction false} AddAllBounded(st: SceneState, rs: seq<Renderable>)
    requires Bounded(st)
    ensures Bounded(AddAll(st, rs))
    ensures AddAll(st, rs).count <= MaxUint8
    decreases |rs|
  {
    if rs != [] {
      AddAllBounded(Add(st, rs[0]).0, rs[1..]);
    }
  }

  /**
   * While there is room, every add succeeds: the count grows by |rs|, the
   * earlier entries are kept and rs lands in the next slots in order.
   */
  lemma {:induction false} AddAllInOrder(st: SceneState, rs: seq<Renderable>)
    requires Bounded(st) && st.count + |rs| <= MaxSceneRenderables
    ensures AddAll(st, rs).count == st.count + |rs|
    ensures AddAll(st, rs).slots[..st.count] == st.slots[..st.count]
    ensures AddAll(st, rs).slots[st.count..st.count + |rs|] == rs
    decreases |rs|
  {
    if rs != [] {
      var next := Add(st, rs[0]).0;
      AddAllInOrder(next, rs[1..]);
      var final := AddAll(st, rs);
      assert final == AddAll(next, rs[1..]);
      assert next.slots[..st.count] == st.slots[..st.count];
      assert final.slots[..st.count] == final.slots[..next.count][..st.count];
      assert final.slots[st.count..st.count + |rs|] == [rs[0]] + final.slots[next.count..next.count + |rs| - 1];
    }
  }

  /** Once the scene is full, further adds are rejected and change nothing. */
  lemma {:induction false} AddAllWhenFull(st: SceneState, rs: seq<Renderable>)
    requires |st.slots| == MaxSceneRenderables && st.count >= MaxSceneRenderables
    ensures AddAll(st, rs) == st
    decreases |rs|
  {
    if rs != [] {
      AddAllWhenFull(Add(st, rs[0]).0, rs[1..]);
    }
  }

  /**
   * From an empty scene, adding any sequence keeps exactly its first 32
   * renderables, in order.
   */
  lemma AddAllFromEmpty(slots: seq<Renderable>, rs: seq<Renderable>)
    requires |slots| == MaxSceneRenderables
    ensures var k := if |rs| < MaxSceneRenderables then |rs| else MaxSceneRenderables;
      AddAll(SceneState(slots, 0), rs).count == k &&
      AddAll(SceneState(slots, 0), rs).slots[..k] == rs[..k]
  {
    var st := SceneState(slots, 0);
    if |rs| <= MaxSceneRenderables {
      AddAllInOrder(st, rs);
      assert rs[..|rs|] == rs;
    } else {
      var k := MaxSceneRenderables;
      AddAllSplit(st, rs[..k], rs[k..]);
      assert rs[..k] + rs[k..] == rs;
      AddAllInOrder(st, rs[..k]);
      AddAllWhenFull(AddAll(st, rs[..k]), rs[k..]);
    }
  }

  lemma {:induction false} AddAllSplit(st: SceneState, xs: seq<Renderable>, ys: seq<Renderable>)
    requires |st.slots| == MaxSceneRenderables
    ensures AddAll(st, xs + ys) == AddAll(AddAll(st, xs), ys)
    decreases |xs|
  {
    if xs != [] {
      assert (xs + ys)[1..] == xs[1..] + ys;
      AddAllSplit(Add(st, xs[0]).0, xs[1..], ys);
    } else {
      assert xs + ys == ys;
    }
  }

  class Scene {
    /** uint8_t numberOfRenderables */
    var numberOfRenderables: nat
    /** The embedded fixed-size array; the storage itself never moves. */
    const renderables: array<Renderable>
    var transform: Mat4
    /** uint8_t visible */
    var visible: nat

    ghost predicate Valid()
      reads this
    {
      renderables.Length == MaxSceneRenderables && numberOfRenderables <= MaxSceneRenderables
    }

    /** The renderables and the count as a value. */
    function State(): SceneState
      reads this, renderables
    {
      SceneState(renderables[..], numberOfRenderables)
    }

    /** The renderables added so far, in order. */
    function Contents(): seq<Renderable>
      reads this, renderables
      requires Valid()
    {
      renderables[..numberOfRenderables]
    }

    /** Zero-filled storage: every slot the all-zero renderable, count 0, invisible. */
    constructor ()
      ensures fresh(renderables) && renderables.Length == MaxSceneRenderables
      ensures forall i :: 0 <= i < MaxSceneRenderables ==> renderables[i] == Renderable(SceneType, null)
      ensures numberOfRenderables == 0 && visible == 0 && transform == ZeroMat4
      ensures Valid() && Contents() == []
    {
      renderables := new Renderable[MaxSceneRenderables](_ => Renderable(SceneType, null));
      numberOfRenderables := 0;
      visible := 0;
      transform := ZeroMat4;
    }

    /** sceneInit */
    method Init() returns (code: int)
      requires renderables.Length == MaxSceneRenderables
      modifies this
      ensures code == 0
      ensures transform == Identity() && numberOfRenderables == 0 && visible == 1
      ensures Valid() && Contents() == [] && State().slots == old(State().slots)
    {
      transform := Identity();
      numberOfRenderables := 0;
      visible := 1;
      return 0;
    }

    /** sceneAddRenderable */
    method AddRenderable(r: Renderable) returns (code: int)
      requires renderables.Length == MaxSceneRenderables
      modifies this, renderables
      ensures (State(), code) == Add(old(State()), r)
      ensures old(Valid()) ==> Valid()
      ensures old(Valid()) && code == 0 ==> Contents() == old(Contents()) + [r]
      ensures old(Valid()) && code == 1 ==> Contents() == old(Contents())
      ensures transform == old(transform) && visible == old(visible)
    {
      if numberOfRenderables >= MaxSceneRenderables {
        return 1;
      }
      renderables[numberOfRenderables] := r;
      numberOfRenderables := numberOfRenderables + 1;
      return 0;
    }
  }

  /** sceneAsRenderable */
  function SceneAsRenderable(s: Scene): (r: Renderable)
    ensures r.renderableType == SceneType && r.impl == s
    ensures r.renderableType.Ordinal() == 0
  {
    Renderable(SceneType, s)
  }
}
