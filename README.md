# pingo integer and buffer core, modelled in Dafny

This project models the integer and buffer layer of the pingo software renderer:
- the bounded scene container and its tagging as a renderable;
- the row-major pixel buffers (textures, images and the renderer's frame) with their init, read, draw and wrap-around read;
- the pixel formats BGRA8888 (the active one), RGBA8888 and UINT8;
- the renderer's init, scene selection, per-frame hook sequence and zero-fill clear;
- the renderer's traversal of a scene's renderables and the translated `drawRect` blit;
- sprite init and the randomize loop;
- the per-face normal fill of a mesh;
- the integer vector sum.

Modules follow the source files. `pixel.c` is split in two: `Pixels` holds the active BGRA8888 format and `PixelFormats` the RGBA8888 and UINT8 variants. `Grid` holds the `x + y*width` addressing that `texture.c`, `image.c` and the frame functions share; it has no source file of its own. State that the C code updates in place is a `class`: `Scene`, `Texture`, `Image`, `Sprite`, `Mesh`, `Renderer` and `Backend`. Value structs are datatypes: `Pixel`, `Vec2i`, `Renderable`, `Frame` and `Mat4`. The main state-changing methods (`Scene.AddRenderable`, `Sprite.Randomize`, `Mesh.CalculateNormals`, `Renderer.DrawRect`, `Renderer.RenderScene`) are proved against a pure function. The lemmas next to that function state what the C code promises: bounds, insertion order, exactly-once coverage, round trips and frame conditions. The simpler methods, such as `Renderer.SetScene`, `Sprite.Init` and the backend hooks, state their new field values directly.

`Sprites` follows `sprite.c`, whose sprite frame is a `Texture` drawn with `texture_draw`. `sprite.h:16` and `sprite.h:27` declare an `Image` frame and `spriteInit(Sprite*, Image, Mat4)` instead.

The renderer keeps a ghost `trace` of the backend hook calls, the clear and each renderable it dispatches. This lets the order of `rendererRender` be stated. Randomness and the float normal computation are parameters of the model. The backend's platform work is left out: each hook only records its call in the trace.

`renderer.c` uses the older `Frame` API (`frameInit`, `frameRead`, `frameDraw`). `frame.c` is not part of this model. Those three functions are taken to behave like `image_init`, `image_read` and `image_draw`.

Where the engine's header comments and its code disagree, the model follows the code:
- `renderer.h:19` documents `clearColor` as the colour used to clear the framebuffer. `rendererRender` instead zero-fills the buffer with `memset` (`renderer.c:130`). The zero pixel is not `clearColor`, which is opaque black (`Pixels.ZeroIsNotBlack`).
- `scene.h:21` documents a `visible` flag. `renderScene` visits every child whatever that flag says, and it composes no transforms.

`scene.c` has no operation that removes a renderable from a scene, so the model has none either.

## Model

| member | source | states |
|---|---|---|
| `Vec2.Sum` | math/vec2.c:10-12 | the sum is taken component by component |
| `Vec2.SumCommutative` | math/vec2.c:11 | the sum does not depend on argument order |
| `Vec2.SumIdentity` | math/vec2.c:11 | (0,0) is a left and right identity |
| `Vec2.SumAssociative` | math/vec2.c:11 | the sum is associative on unbounded integers |
| `Pixels.FromRGBA` | render/pixel.c:178-180 | each named channel is kept, and the bytes in memory are b, g, r, a |
| `Pixels.FromUInt8` | render/pixel.c:155-157 | a grey level g gives b = g = r = g and alpha 255 |
| `Pixels.ToUInt8` | render/pixel.c:165-167 | the result is the floor of (r+g+b)/3, so it fits a byte; an all-equal pixel gives its channel back |
| `Pixels.Mul` | render/pixel.c:189-191 | alpha is unchanged |
| `Pixels.GreyRoundTrip` | render/pixel.c:155-167 | grey to pixel to grey is the identity for every byte |
| `Pixels.GreyOfRGBA` | render/pixel.c:165-180 | the grey of a pixel built from r, g, b, a is (r+g+b)/3 |
| `Pixels.MulChannelwise` | render/pixel.c:189-191 | each colour channel of the product depends only on the same input channel |
| `Pixels.BlackAndWhiteAreGreys` | render/pixel.h:60-61 | PIXELBLACK and PIXELWHITE are the opaque greys of level 0 and level 255, and their grey levels are 0 and 255 |
| `Pixels.ZeroIsNotBlack` | render/renderer.c:128-130 | the all-zero pixel left by the clear differs from PIXELBLACK: its alpha is 0, not 255 |
| `PixelFormats.RgbaFromRGBA` | render/pixel.c:121-123 | RGBA8888 keeps each channel, and the bytes in memory are r, g, b, a |
| `PixelFormats.RgbaFromUInt8` | render/pixel.c:98-100 | RGBA8888 grey gives r = g = b = level and alpha 255 |
| `PixelFormats.RgbaToUInt8` | render/pixel.c:108-110 | RGBA8888 grey is the floor of the mean of r, g and b |
| `PixelFormats.RgbaMul` | render/pixel.c:132-134 | RGBA8888 multiply keeps alpha; its colour channels are stated by `RgbaAgreesWithBgra` |
| `PixelFormats.RgbaAgreesWithBgra` | render/pixel.c:98-134 | the RGBA8888 constructors and multiply give the same channels as BGRA8888, so multiply scales each colour channel from itself and keeps alpha; the grey agrees; the memory order differs exactly when r differs from b |
| `PixelFormats.RgbaGreyRoundTrip` | render/pixel.c:98-110 | RGBA8888 grey to pixel to grey is the identity |
| `PixelFormats.GreyFromRGBA` | render/pixel.c:54-56 | UINT8 stores the floor of (r+g+b)/3 and drops alpha |
| `PixelFormats.GreyFromUInt8` | render/pixel.c:30-32 | UINT8 stores the level as given |
| `PixelFormats.GreyToUInt8` | render/pixel.c:20-22 | UINT8 returns the stored channel g |
| `PixelFormats.GreyMul` | render/pixel.c:41-43 | UINT8 multiply scales the grey level |
| `PixelFormats.GreyFormatRoundTrip` | render/pixel.c:20-32 | in UINT8, level to pixel to level and pixel to level to pixel are both identities |
| `PixelFormats.GreyAgreesWithBgra` | render/pixel.c:54-56 | UINT8 colour-to-grey gives the same level as BGRA8888 |
| `Renderables.RenderableType.Ordinal` | render/renderable.h:13-18 | every enum value is below RENDERABLE_COUNT |
| `Renderables.OrdinalInjective` | render/renderable.h:13-18 | distinct tags have distinct enum values |
| `Objects.ObjectAsRenderable` | render/object.c:9-11 | the tag is RENDERABLE_OBJECT, value 2, below RENDERABLE_COUNT; impl is the object |
| `Matrices.Identity` | render/scene.c:27 | the identity matrix has 1 on the diagonal and 0 elsewhere |
| `Grid.Index` | render/texture.c:33 | an in-bounds cell maps to an element below w*h |
| `Grid.IndexCoords` | render/texture.c:44 | the column and the row come back from the index by mod and div of the width |
| `Grid.IndexInjective` | render/texture.c:33 | distinct in-bounds cells have distinct indices, both directions |
| `Grid.WrapIndex` | render/texture.c:55-57 | the readF index wraps both coordinates by the width, so it is below w*w |
| `Grid.WrapIndexInBounds` | render/texture.c:55-58 | when w <= h the wrapped index is inside the w*h buffer |
| `Grid.WrapIndexIsIndex` | render/texture.c:55-58 | when the wrapped row v mod w is below the height, the readF index is the row-major element of cell (u mod w, v mod w), inside the buffer |
| `Grid.WrapIndexEscapes` | render/texture.c:55-58 | when w > h the row v = w-1 indexes past the end of the buffer |
| `Grid.IntendedWrapIndex` | render/image.c:26-28 | wrapping v by the height keeps every index inside w*h and recovers both wrapped coordinates |
| `Textures.Texture.Init` | render/texture.c:12-23 | code 1 exactly for zero area, checked before the null check; code 2 exactly for a null buffer; unchanged on error; stores the buffer and size on success |
| `Textures.Texture.Draw` | render/texture.c:32-45 | only the element at x + y*w changes; a read there returns the colour, and reads elsewhere are unchanged |
| `Textures.Texture.Read` | render/texture.c:43-45 | the read returns the buffer element whose column (index mod w) and row (index div w) are the cell's |
| `Textures.Texture.ReadF` | render/texture.c:54-60 | the integer read returns the cell at (u mod w, v mod w), whenever that wrapped row lies inside the texture |
| `Images.Image.Init` | render/image.c:4-15 | codes 1 and 2 as for textures, in the same order; unchanged on error; stores data and size on success |
| `Images.Image.Draw` | render/image.c:17-23 | only the element at x + y*w changes; read-after-draw gives the colour |
| `Images.Image.Read` | render/image.c:21-23 | the read returns the element whose column (index mod w) and row (index div w) are the cell's |
| `Images.Image.ReadF` | render/image.c:25-31 | the integer read returns the cell at (u mod w, v mod w), whenever that wrapped row lies inside the image |
| `Frames.FrameInit` | render/frame.h:16 | the frame init codes and state follow image_init |
| `Frames.Read` | render/frame.h:21 | frameRead returns the element whose column and row are the cell's |
| `Frames.Draw` | render/frame.h:20 | frameDraw changes exactly the element x + y*w |
| `Scenes.Add` | render/scene.c:11-18 | below 32 the renderable goes into slot count, the count grows by one and the code is 0; at 32 or more the code is 1 and nothing changes; other slots are never touched |
| `Scenes.AddAll` | render/scene.c:11-18 | a run of adds keeps the 32-slot array |
| `Scenes.AddAllBounded` | render/scene.h:12-18 | from a count of at most 32, no run of adds exceeds 32, so the count fits its uint8_t field |
| `Scenes.AddAllInOrder` | render/scene.c:16 | while there is room, each add succeeds and the renderables land in the next slots in order; earlier slots are kept |
| `Scenes.AddAllWhenFull` | render/scene.c:12-14 | a full scene rejects every further add unchanged |
| `Scenes.AddAllFromEmpty` | render/scene.c:11-17 | from an empty scene, any run of adds leaves exactly its first 32 renderables, in insertion order |
| `Scenes.Scene.Init` | render/scene.c:26-32 | the transform becomes the identity, the count 0 and visible 1; the code is 0 |
| `Scenes.Scene.AddRenderable` | render/scene.c:11-18 | the array and count change exactly as `Scenes.Add` says; a valid scene stays valid and its contents grow by the renderable |
| `Scenes.SceneAsRenderable` | render/scene.c:40-42 | the tag is RENDERABLE_SCENE and impl is the scene |
| `Sprites.Traversal` | render/sprite.c:39-41 | the randomize loop writes one cell per pixelRandom call |
| `Sprites.Step` | render/sprite.c:39-41 | the call that draws cell (x, y) falls within the w*h calls |
| `Sprites.TraversalAt` | render/sprite.c:39-41 | step x*h + y of the loop writes cell x + y*w |
| `Sprites.TraversalInRange` | render/sprite.c:39-41 | every index written is in [0, w*h) |
| `Sprites.TraversalDistinct` | render/sprite.c:39-41 | no index is written twice |
| `Sprites.TraversalCovers` | render/sprite.c:39-41 | every index of [0, w*h) is written |
| `Sprites.TraversalExactlyOnce` | render/sprite.c:38-46 | the loop writes each cell of the w by h grid exactly once, and nothing outside it |
| `Sprites.Sprite.Init` | render/sprite.c:12-20 | a texture with a null buffer gives code 1 and an unchanged sprite; otherwise the texture and transform are copied and the code is 0 |
| `Sprites.Sprite.Randomize` | render/sprite.c:38-46 | cell (x, y) gets the value of the pixelRandom call that drew it; the cells written are exactly the traversal; all other elements are unchanged; the code is 0 |
| `Sprites.Sprite.RandomizeColumn` | render/sprite.c:40-42 | the inner loop over column x extends the written cells by that column's part of the traversal; each cell holds the value of the call that drew it, and every other element keeps its value |
| `Sprites.SpriteAsRenderable` | render/sprite.c:28-30 | the tag is RENDERABLE_SPRITE and impl is the sprite |
| `Meshes.FaceNormals` | render/mesh.c:4-17 | there is one normal per index |
| `Meshes.FaceNormalsAt` | render/mesh.c:14-16 | slot j holds the normal of triangle j/3 |
| `Meshes.TriangleSlots` | render/mesh.c:14-16 | all three slots of triangle t hold the normal of its three corner positions |
| `Meshes.FaceNormalsLocal` | render/mesh.c:6-12 | a triangle's normal depends only on the three positions its indices name |
| `Meshes.Mesh.CalculateNormals` | render/mesh.c:3-18 | needs a count that is a multiple of three and indices that name positions; allocates count normals equal to the face normals; positions and indices are unchanged |
| `Renderers.Blitted` | render/renderer.c:16-29 | the partially copied destination has the destination's length |
| `Renderers.Blit` | render/renderer.c:13-31 | the fully copied destination has the destination's length |
| `Renderers.BlitAt` | render/renderer.c:24-27 | destination cell off + (x, y) receives source cell (x, y) |
| `Renderers.BlitOnlyRect` | render/renderer.c:16-29 | any destination element the blit changes lies under the source rectangle at the offset |
| `Renderers.BlittedStep` | render/renderer.c:24-27 | one iteration extends the copied region by exactly the current cell |
| `Renderers.Visited` | render/renderer.c:16-22 | the guards as written admit exactly the source cells with x < min(src.w, des.w + 1) and y < min(src.h, des.h + 1) |
| `Renderers.VisitedEscapes` | render/renderer.c:20-22 | the as-written guard lets column x = des.size.x be drawn, outside the destination |
| `Renderers.VisitedEscapesUnlessFits` | render/renderer.c:16-22 | whenever the source rectangle at its offset does not fit, the guards as written admit a cell drawn outside the destination (negative offset, right edge or bottom edge) |
| `Renderers.IntendedVisited` | render/renderer.c:17-22 | the intended guards admit exactly the source cells with max(0, -off.x) <= x < min(src.w, des.w - off.x) and max(0, -off.y) <= y < min(src.h, des.h - off.y) |
| `Renderers.IntendedVisitedInBounds` | render/renderer.c:17-22 | for every offset, including negative ones, a cell the intended guards admit is drawn inside the destination, and every source cell whose translated position is inside the destination is admitted |
| `Renderers.GuardsAgreeWhenFits` | render/renderer.c:17-22 | when off + src.size <= des.size, both guards admit exactly the source rectangle |
| `Renderers.Dispatches` | render/renderer.c:98-100 | one dispatch per renderable, in order |
| `Renderers.Backend.Init` | render/backend.h:15-16 | the call adds exactly one init event to the renderer's trace; the platform work is left out |
| `Renderers.Backend.BeforeRender` | render/backend.h:18-19 | the call adds exactly one beforeRender event to the renderer's trace |
| `Renderers.Backend.AfterRender` | render/backend.h:21-22 | the call adds exactly one afterRender event to the renderer's trace |
| `Renderers.Backend.GetFramebuffer` | render/backend.h:24-25 | getFramebuffer returns the backend's buffer |
| `Renderers.Renderer.Init` | render/renderer.c:104-116 | scene becomes null, clearColor PIXELBLACK and backEnd the argument; the frame init code is returned, and on a non-zero code the backend's init is not called |
| `Renderers.Renderer.SetScene` | render/renderer.c:139-146 | a null scene gives code 1 and leaves the scene; otherwise it is set and the code is 0 |
| `Renderers.Renderer.RenderRenderable` | render/renderer.c:91-93 | exactly one dispatch of the given renderable |
| `Renderers.Renderer.RenderScene` | render/renderer.c:95-102 | each of renderables[0..n-1] is dispatched once, in index order; the code is 0 |
| `Renderers.Renderer.Render` | render/renderer.c:120-137 | the steps run in order: beforeRender, getFramebuffer, the clear when set, the scene's dispatches, afterRender. When the scene is dispatched, the clear has made every one of the size.x*size.y cells all-zero; without clear the buffer is still what getFramebuffer returned. The handlers' drawing is not modelled. The code is 0. |
| `Renderers.Renderer.DrawRect` | render/renderer.c:13-31 | the destination becomes `Blit` of its old contents: each source cell is copied to the offset position and nothing else changes; the code is 0 |

## Left out

- Floating point: `drawRectTransform`, the non-translation branch of `renderSprite`, `vecItoF`/`vecFtoI`, `math/vec3.c` and the matrix library (declarations only) are not modelled. The scaling in `pixelMul` is the parameter `scale`. The float-to-`uint16_t` scaling in the readF functions is represented by its results `u` and `v`. The cross product and normalisation in `calculateNormals` are the parameter `normalOf`.
- `renderFrame`, `renderSprite` and the dispatch table at render/renderer.c:118 are not modelled. The table's order does not match the tag enum, so a dispatch is recorded in the trace without running a handler. `Renderer.Render` therefore does not capture the pixels that the handlers draw.
- The rasterizer and the depth buffer (render/rasterizer.h, render/depth.h) have declarations only.
- The backends and the example programs are platform I/O and are left out. Backend hooks only record their call in the trace.
- `pixelRandom` calls `rand()`. `Sprite.Randomize` takes the sequence of values it returns as the parameter `noise`.
- The RGB565 and RGB888 formats are not the active format (render/pixel.h:8 selects BGRA8888). RGB565 has no functions in render/pixel.c. RGB888 has only `pixelRandom`, which is randomness, and `pixelToRGBA`, which packs a pixel into a 32-bit word. Both are left out.
- Integer widths: `I_TYPE` and `int` are unbounded integers here. A C product `size.x*size.y` that overflows to 0 would give code 1 in `texture_init`, but the model does not show that.
- `Textures.Texture.ReadF` and `Images.Image.ReadF` require the wrapped row v mod w to be below the height. The C reads past the buffer otherwise, which can happen only when the texture is wider than tall; see Findings.
- `Renderers.Renderer.DrawRect` requires the source rectangle at its offset to fit in the destination. It also requires the source and destination to be different buffers. Its own guards do not keep the writes in bounds (see Findings). A blit from a buffer onto itself is not modelled.
- `Renderers.Renderer.Render` requires a non-null scene and a backend buffer holding the frame's cells. The C dereferences both without a check.
- `Meshes.Mesh.CalculateNormals` models only the position indices and the normals. The texture-coordinate and normal index arrays are not read there.
- `texture_as_renderable` and `rendererSetCamera` are declared but have no body, so they are not modelled.

## Findings

| source | as written | input that shows it | evidently intended | confidence | as-written member | corrected member |
|---|---|---|---|---|---|---|
| render/texture.c:56 | the scaled row is reduced modulo the width (`% size.x`) | texture 2 wide, 1 tall, v = 1: index 0 + 1*2 = 2 is past the 2-pixel buffer | `% size.y` | high, not executed | `Grid.WrapIndexEscapes` | `Grid.IntendedWrapIndex` |
| render/image.c:27 | the scaled row is reduced modulo the width (`% size.x`) | image 2 wide, 1 tall, v = 1: index 2 is past the 2-pixel buffer | `% size.y` | high, not executed | `Grid.WrapIndexEscapes` | `Grid.IntendedWrapIndex` |
| render/renderer.c:21 | the column guard compares the untranslated x with `>` against the destination width | source 2x1, destination 1x1, offset (0,0): x = 1 passes the guard and is drawn at element 1 of a 1-pixel buffer | skip a cell unless its translated position is inside the destination: 0 <= off.x + x < des.w (lower edge included, `>=` at the upper edge), and likewise for rows | medium, not executed | `Renderers.VisitedEscapesUnlessFits` | `Renderers.IntendedVisitedInBounds` |
