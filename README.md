# ThreeJS-Drawing: the drawing-session state machine

ThreeJS-Drawing lets a user draw glowing strokes in 3D by holding the left mouse button
and moving the pointer. Each animation frame adds a small sphere at the current pointer
point. Each sphere is coloured by a gradient that advances one step per sphere and
saturates after 200 steps. Two versions of this logic exist:

- `scene.js` is the refactored version. Its state lives in the closure of `initScene`.
- `main.js` is the older version. Its state lives in module globals.

This project models the state machine of each version as a Dafny class. Each handler
(mouse-down, mouse-up, mouse-move, one animation frame) is a method. Each method is
proved against pure specification functions, and lemmas state what those functions
guarantee.

Modules:

- `Geometry` (geometry.dfy): the shared data model.
  - Points are an abstract type.
  - A sphere is a `Mesh` object with a position and a `Tint`. The tint is the two picker
    colours and the lerp factor between them. Meshes are compared by reference, as
    `Array.prototype.includes` does.
  - Everything the program asks of Three.js is a field of the `World` value: the canvas
    rectangle and size, the camera position, the ray cast from NDC, the ordered hit list
    of the raycaster, the point a given distance along a ray, and the distance between
    two points.
- `Pointer` (pointer.dfy): the mapping from client pixels to normalized device
  coordinates (NDC), over `real`, with its inverse.
- `Gradient` (gradient.dfy): the `colorIndex` counter and the lerp factor. Both files
  share the same `GradientColor` code.
- `Picking` (picking.dfy): the exclusion filter `scene.children.filter(obj =>
  !excludeObjects.includes(obj))`.
- `SceneJs` (scene.dfy): the point-selection rule of scene.js (`LockedPick`), the
  stroke invariant, and the class `DrawingSession`.
- `Sparse` (sparse.dfy): JavaScript arrays with holes. main.js writes each sphere to
  `lineObjects[lineObjects.length + 1]`.
- `MainJs` (main.dfy): the point-selection rule of main.js (`LegacyPick`), its
  relation to scene.js, the stroke invariant, and the class `LegacySession`.

The classes keep `children`, a sequence standing for `scene.children`. `LegacySession`
also keeps a ghost `stroke`, the spheres written into `lineObjects` since the last
reset.

The class invariant `Valid()` says four things:

- The current stroke is the newest part of `children`.
- No object appears twice in `children`.
- `colorIndex` has advanced once per sphere of the stroke.
- The k-th sphere carries the k-th gradient factor.

In main.js the invariant also says that `lineObjects` holds the stroke at its odd
indices, with holes at the even ones. From the invariant the model proves that the hit
test of a handler sees exactly the spheres of earlier strokes, in scene order.

The plane-snapping drawing variant is not in these two files: no snapping plane, no
nearest-point-on-segment query and no minimum-step filter. The model follows the code
as written: a fixed-distance or origin-depth point per event, and one sphere per frame.

## Model

| member | source | states |
|---|---|---|
| Pointer.ToNdc | scene.js:54-55 | the pointer's offset from the canvas corner, scaled by the canvas size to [-1, 1] with y inverted; `FromNdc` recovers the pixel from the result, so mapping a pixel to NDC and back returns the same pixel |
| Pointer.NdcRoundTrip | scene.js:54-55 | mapping NDC to a pixel and back returns the same NDC, so the mapping is a bijection |
| Pointer.EdgesMapToBounds | main.js:61-62 | the canvas's left/top corner maps to (-1, +1) and its right/bottom corner to (+1, -1); y is inverted |
| Pointer.OnCanvasIffInRange | scene.js:54-55 | a pointer lies on the canvas if and only if both of its NDC lie in [-1, 1] |
| Gradient.LerpFactor | scene.js:87 | the factor lies in [0, 1] for a non-negative counter, and it is 1 exactly when the counter has reached 200 |
| Gradient.Advance | scene.js:89-93 | from 0..200 the increment-and-clamp stays in 1..200 and never decreases; it reaches 200 only from 199 or above |
| Gradient.IndexAfter | scene.js:89-93 | the counter after any number of calls since a reset lies in 0..200 |
| Gradient.IndexAfterCounts | main.js:120-124 | after n calls since a reset the counter is min(n, 200) |
| Gradient.StrokeFactorValue | scene.js:86-93 | the k-th call since a reset yields k/200 for k < 200, and 1 afterwards |
| Gradient.StrokeFactorStep | scene.js:86-93 | each call's factor exceeds the previous one's by 1/200 until the factor reaches 1, then by 0 |
| Gradient.StrokeFactorMonotone | main.js:114-127 | along a stroke the factors are non-decreasing and lie in [0, 1] |
| Gradient.StrokeFactorSaturates | scene.js:86-93 | the factor is 1 exactly from the call at position 200 (the 201st) onwards |
| Picking.Candidates | scene.js:61 | filtering never yields more objects than the scene has |
| Picking.CandidatesMembers | scene.js:61 | an object is a candidate if and only if it is a child and is not excluded |
| Picking.CandidatesAppend | scene.js:61 | filtering a concatenation concatenates the filtered parts, so the scene order is kept |
| Picking.CandidatesKeepAll | main.js:74 | when nothing in the list is excluded, the filter returns the list unchanged |
| Picking.CandidatesDropAll | main.js:74 | when everything in the list is excluded, the filter returns nothing |
| Picking.EarlierStrokesAreCandidates | scene.js:61 | in a scene of distinct objects whose newest part is the excluded stroke, the candidates are exactly the earlier objects, in order |
| SceneJs.LockedPick | scene.js:59-78 | a recorded origin is kept. Without one, the origin becomes the first hit if and only if there is a hit. With an origin, the point lies on the ray at the camera-to-origin distance; without one, it lies `distance` along the ray |
| SceneJs.LockedIgnoresHitTest | scene.js:59-63 | once an origin is recorded, the raycaster's answer does not affect the result |
| SceneJs.LockedDepthIsShared | scene.js:75-78 | with an origin recorded, every pointer position gives a point at the origin's depth, whatever the candidates or the default distance |
| SceneJs.DrawKeepsInvariant | scene.js:98-107 | pushing a fresh sphere coloured by the current counter keeps the stroke invariant, and the sphere's factor is the one for its position in the stroke |
| SceneJs.DrawingSession.constructor | scene.js:34-38 | the initial state: not drawing, no clicked point, counter 0, empty stroke, no origin, empty scene; the invariant holds |
| SceneJs.DrawingSession.ResetLineState | scene.js:44-48 | the counter becomes 0, the stroke empty and the origin unset; the invariant is kept |
| SceneJs.DrawingSession.GetClicked3DPoint | scene.js:50-81 | the returned point and the new lineOrigin are those of `LockedPick` over the scene children not in `excludeObjects` |
| SceneJs.DrawingSession.GradientColor | scene.js:83-96 | the colour uses the factor of the counter before the call, and the counter advances with the clamp |
| SceneJs.DrawingSession.StartDrawing | scene.js:98-107 | if the button is held and a point is picked: exactly one fresh sphere at that point, with the gradient factor of its position, is added to both the scene and the stroke. Otherwise nothing changes. The invariant is kept and the counter stays in 0..200 |
| SceneJs.DrawingSession.Animate | scene.js:149-151 | one frame adds one sphere under the same condition as `StartDrawing` and otherwise changes nothing |
| SceneJs.DrawingSession.OnMouseDown | scene.js:109-114 | only the drawing button sets the button-held flag, but every button picks a point. The hit test sees exactly the spheres of earlier strokes |
| SceneJs.DrawingSession.OnMouseUp | scene.js:116-121 | the drawing button clears the flag and resets the stroke state; any other button changes nothing; the clicked point survives |
| SceneJs.DrawingSession.OnMouseMove | scene.js:123-127 | while the button is held the point is re-picked against the earlier strokes; otherwise nothing changes |
| Sparse.AssignWrites | main.js:107 | `a[i] = v` on a JavaScript array (`Sparse.Assign`): index i holds v, the occupied indices gain i, every other element is kept, and the length becomes the least one covering the old length and i |
| Sparse.PushKeepsLayout | main.js:107 | writing past the end of an array laid out with holes grows its length by 2 and puts the value at the next odd index |
| Sparse.AppendedLayout | main.js:107 | after n writes at `length + 1` from empty, the length is 2n, the occupied indices are exactly 1, 3, ..., 2n-1, and index 2k+1 holds the k-th value |
| Sparse.OddLayoutUnique | main.js:107 | the layout determines the array: any array so laid out is the one those writes produce |
| Sparse.OddLayoutElements | main.js:74 | such an array includes exactly the values written, despite the holes |
| MainJs.LegacyPick | main.js:79-94 | the point is the first hit if there is one, and otherwise lies `distance` along the ray. The origin becomes that point if there was a hit or an origin was already set, and otherwise stays unset |
| MainJs.LegacyPointIgnoresOrigin | main.js:89-94 | the returned point never depends on lineOrigin |
| MainJs.VersionsAgreeWithoutOrigin | main.js:79-87 | with no recorded origin, both versions record an origin in the same cases. Without a hit they agree entirely; with a hit, scene.js moves the point to the hit's depth on the ray |
| MainJs.LegacyDropsLockedDepth | main.js:89-94 | with an origin recorded and no hit, main.js returns the point at the default distance, where scene.js returns the point at the origin's depth |
| MainJs.DrawKeepsInvariant | main.js:100-109 | writing a fresh sphere to index `length + 1` keeps the stroke invariant; the sphere's factor is that of position `length / 2` |
| MainJs.LegacySession.constructor | main.js:33-36 | the canvas rectangle is captured once at load; the initial state is empty and the invariant holds |
| MainJs.LegacySession.ResetLineState | main.js:135-140 | the counter becomes 0, `direction` 1, `lineObjects` empty and the origin unset; the invariant is kept |
| MainJs.LegacySession.GetClicked3DPoint | main.js:58-97 | the returned point and the new lineOrigin are those of `LegacyPick` over the scene children that `excludeObjects` does not include, with NDC taken against the captured canvas rectangle |
| MainJs.LegacySession.GradientColor | main.js:114-127 | the colour uses the factor of the counter before the call, and the counter advances with the clamp |
| MainJs.LegacySession.StartDrawing | main.js:100-109 | if the button is held and a point is picked: one fresh sphere at that point, with the gradient factor of its position, is added to the scene and written at index `length + 1`, so the length grows by 2. Otherwise nothing changes. The invariant is kept |
| MainJs.LegacySession.Animate | main.js:159-161 | one frame adds one sphere under the same condition as `StartDrawing` and otherwise changes nothing |
| MainJs.LegacySession.OnMouseDown | main.js:38-43 | only the drawing button sets the flag; every button picks a point. The hit test sees exactly the spheres of earlier strokes |
| MainJs.LegacySession.OnMouseUp | main.js:45-50 | the drawing button clears the flag and resets the stroke state, including `direction`; any other button changes nothing |
| MainJs.LegacySession.OnMouseMove | main.js:52-56 | while the button is held the point is re-picked against the earlier strokes; otherwise nothing changes |
| MainJs.LegacySession.ExcludedAreStroke | main.js:74 | filtering the scene by what the sparse `lineObjects` includes leaves exactly the earlier strokes |
| MainJs.LegacySession.LineObjectsAreWritten | main.js:107 | `lineObjects` equals the result of writing the stroke's spheres one by one at `length + 1`, starting from the empty array |

## Left out

- Rendering is not modelled: renderer, tone mapping, `EffectComposer`, `UnrealBloomPass`, and the per-frame `composer.render`. This is library configuration with no drawing-state logic.
- Orbit controls, resize handling and the `cleanup` disposal in scene.js are not modelled. They do not touch the drawing state.
- `requestAnimationFrame` scheduling and DOM event dispatch are not modelled. One frame or one event is one method call.
- Three.js internals are parameters of `World`: `Raycaster.setFromCamera`, `intersectObjects`, `Vector3` normalisation, `add`, `multiplyScalar` and `distanceTo`. Points are abstract, and the ray's point at distance d stands for origin + d·normalize(direction). The raycaster returns hit points rather than intersection records.
- `THREE.Color` parsing and `lerp` are not modelled. A sphere's colour is recorded as the two picker values and the lerp factor, and the factor is in scope.
- The sphere geometry (radius 0.2) and material are not modelled. A `Mesh` records only its position and tint.
- Pointer.ToNdc: requires a positive canvas width and height, through the `Positive` type. JavaScript would produce Infinity or NaN on a zero-sized canvas, and floating-point rounding is not modelled (the arithmetic is over `real`).
- Gradient.LerpFactor: the factor is modelled over `real`, so the exact 1/200 increment of Gradient.StrokeFactorStep holds only in the model. The program divides binary64 numbers, where k/200 is rounded and successive differences are not exactly 1/200. The bounds, the monotonicity and the saturation at 200 hold for binary64 too.
- `evt.preventDefault()` is left out. It affects only the browser's default action.
- The scene traversal in main.js (main.js:64-68) is left out. It calls `updateMatrixWorld` and only refreshes cached transforms for the raycaster, which is an oracle here.
- main.js computes `allObjects`, `cameraDirection` and `adjustedDistance` (main.js:73, main.js:91-92) and never uses them. Each has no effect and is not modelled.
- main.js's `direction` global is only ever set to 1. It is kept as a field that the invariant pins to 1.
- `clickedPoint` is a Three.js vector, which is always truthy, or `null`. It is modelled as `Option<Point>`.
- The snapping plane, the nearest-point-on-segment query, the minimum-step filter and the keyboard clear action are described for a different variant of the program. They do not occur in scene.js or main.js, so they are not modelled.

## Findings

| source | as written | input that shows it | evidently intended | confidence | as-written member | corrected member |
|---|---|---|---|---|---|---|
| main.js:89-94 | when an origin is set, a scalar `adjustedDistance` that does not involve lineOrigin is computed and discarded, and lineOrigin is overwritten with the returned point | a first click hits a sphere, then the pointer moves over empty space with the button held: the point falls back to the default distance of 5 instead of the origin's depth | keep the origin and place the point on the ray at the origin's depth, as the refactored scene.js does at scene.js:75-78 | medium, not executed | MainJs.LegacyDropsLockedDepth | SceneJs.LockedDepthIsShared |
| main.js:107 | `lineObjects[lineObjects.length + 1] = sphere` skips an index on every write | two frames with the button held from an empty array give length 4, with holes at indices 0 and 2 | append at the end, as `lineObjects.push(sphere)` does at scene.js:105 | medium, not executed | Sparse.AppendedLayout | SceneJs.DrawingSession.StartDrawing |

The second row is harmless in main.js itself: the only reader of `lineObjects` is
`includes`, and Sparse.OddLayoutElements shows that it still finds exactly the spheres
of the stroke.
