// Tagged references to renderable things (render/renderable.h:13-26) and
// the Object variant's tagging function (render/object.c:9-11).
module Renderables {

  /** RenderableType; Ordinal gives the enum value. */
  datatype RenderableType = SceneType | SpriteType | ObjectType
  {
    function Ordinal(): (n: nat)
      ensures n < RenderableCount
    {
      match this
      case SceneType => 0
      case SpriteType => 1
      case ObjectType => 2
    }
  }

  /** RENDERABLE_COUNT */
  const RenderableCount: nat := 3

  /**
   * A renderable is a tag and an untyped pointer to the thing it tags. The
   * all-zero struct (tag RENDERABLE_SCENE, null pointer) is the default value.
   */
  datatype Renderable = Renderable(renderableType: RenderableType, impl: object?)

  /** The enum values are distinct, so the tag tells the variants apart. */
  lemma OrdinalInjective(s: RenderableType, t: RenderableType)
    ensures s.Ordinal() == t.Ordinal() <==> s == t
  {
  }
}
