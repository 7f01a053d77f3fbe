// A 3D object (render/object.h:19-26) and its tagging (render/object.c:9-11).
// The precomputed geometry it owns is not part of this model.
module Objects {
  import opened Renderables

  class Object {
    constructor ()
    {
    }
  }

  /** object_as_renderable */
  function ObjectAsRenderable(o: Object): (r: Renderable)
    ensures r.renderableType == ObjectType && r.impl == o
    ensures r.renderableType.Ordinal() == 2 < RenderableCount
  {
    Renderable(ObjectType, o)
  }
}
