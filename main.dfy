/** The drawing session of main.js, the older version: the same handlers over module
    globals, with three observable differences from scene.js. The hit test runs on every
    pick and its first hit is returned as it is; lineOrigin is recorded but never fixes
    the depth of a point; and every sphere is written two places past the end of
    lineObjects, leaving a hole before it. */
module MainJs {
  import opened Geometry
  import opened Gradient
  import opened Sparse
  import Pointer
  import opened Picking
  import SceneJs

  const RayDistance: real := 5.0
  const DrawingButton: int := 0

  /** main.js maps the pointer against the canvas corner it read once at load and the
      canvas size current at the event. */
  function NdcAt(evt: MouseEvent, canvasPosition: Rect, world: World): Ndc
  {
    Pointer.ToNdc(evt.clientX, evt.clientY, canvasPosition, world.width, world.height)
  }

  /** The point-selection rule of main.js: the first hit if the ray hits a candidate,
      otherwise the point `distance` along the ray. lineOrigin becomes that point once
      a hit has occurred or it was already set; otherwise it stays unset. */
  function LegacyPick(world: World, ndc: Ndc, distance: real, candidates: seq<Mesh>, origin: Option<Point>): (r: Picked)
    ensures var hits := world.intersect(world.castRay(ndc), candidates);
            (|hits| > 0 ==> r.point == hits[0]) &&
            (|hits| == 0 ==> r.point == world.along(world.castRay(ndc), distance))
    ensures r.origin == if origin.Some? || |world.intersect(world.castRay(ndc), candidates)| > 0
                        then Some(r.point) else None
  {
    var ray := world.castRay(ndc);
    var hits := world.intersect(ray, candidates);
    var point := if hits == [] then world.along(ray, distance) else hits[0];
    Picked(point, if hits == [] && origin.None? then None else Some(point))
  }

  /** The picked point never depends on lineOrigin. */
  lemma LegacyPointIgnoresOrigin(world: World, ndc: Ndc, distance: real, candidates: seq<Mesh>, o1: Option<Point>, o2: Option<Point>)
    ensures LegacyPick(world, ndc, distance, candidates, o1).point == LegacyPick(world, ndc, distance, candidates, o2).point
  {
  }

  /** Without a hit and without a recorded origin both versions place the point at the
      default distance along the ray and leave the origin unset; with a hit both record
      an origin, but only scene.js re-projects the point onto the ray. */
  lemma VersionsAgreeWithoutOrigin(world: World, ndc: Ndc, distance: real, candidates: seq<Mesh>)
    ensures var legacy := LegacyPick(world, ndc, distance, candidates, None);
            var locked := SceneJs.LockedPick(world, ndc, distance, candidates, None);
            legacy.origin.Some? == locked.origin.Some? &&
            (legacy.origin.None? ==> legacy == locked) &&
            (legacy.origin.Some? ==>
               (locked.origin == Some(legacy.point) &&
                locked.point == world.along(world.castRay(ndc), world.distance(world.cameraPosition, legacy.point))))
  {
  }

  /** Once an origin is recorded, a pointer ray that hits nothing yields the point at the
      default distance in main.js, where scene.js yields the point at the origin's depth.
      main.js:89-94 only overwrites lineOrigin with the returned point; the scalar it
      computes there does not involve lineOrigin and is never used. */
  lemma LegacyDropsLockedDepth(world: World, ndc: Ndc, distance: real, candidates: seq<Mesh>, o: Point)
    requires world.intersect(world.castRay(ndc), candidates) == []
    ensures LegacyPick(world, ndc, distance, candidates, Some(o)) == Picked(world.along(world.castRay(ndc), distance), Some(world.along(world.castRay(ndc), distance)))
    ensures SceneJs.LockedPick(world, ndc, distance, candidates, Some(o))
         == Picked(world.along(world.castRay(ndc), world.distance(world.cameraPosition, o)), Some(o))
  {
  }

  /** The invariant of the stroke state: lineObjects holds the stroke at its odd
      indices with holes at the even ones, the stroke is the newest part of a scene that holds no object twice, the counter
      has advanced once per sphere, and the k-th sphere carries the k-th factor. */
  ghost predicate StrokeInvariant(lineObjects: SparseArray<Mesh>, colorIndex: int, children: seq<Mesh>, stroke: seq<Mesh>)
  {
    OddLayout(lineObjects, stroke) &&
    colorIndex == IndexAfter(|stroke|) &&
    |stroke| <= |children| &&
    children[|children| - |stroke|..] == stroke &&
    Distinct(children) &&
    forall k :: 0 <= k < |stroke| ==> stroke[k].tint.factor == StrokeFactor(k)
  }

  /** Writing a new sphere coloured by the current counter to index length + 1 keeps
      the invariant; the sphere's factor is the one for its position in the stroke,
      which is half the old length. */
  lemma DrawKeepsInvariant(lineObjects: SparseArray<Mesh>, colorIndex: int, children: seq<Mesh>, stroke: seq<Mesh>, sphere: Mesh)
    requires StrokeInvariant(lineObjects, colorIndex, children, stroke)
    requires sphere !in children && sphere.tint.factor == LerpFactor(colorIndex)
    ensures lineObjects.length == 2 * |stroke|
    ensures sphere.tint.factor == StrokeFactor(lineObjects.length / 2)
    ensures StrokeInvariant(Assign(lineObjects, lineObjects.length + 1, sphere), Advance(colorIndex),
                            children + [sphere], stroke + [sphere])
  {
    PushKeepsLayout(lineObjects, stroke, sphere);
    var n, m := |stroke|, |children|;
    assert (stroke + [sphere])[..n] == stroke;
    assert (children + [sphere])[m + 1 - (n + 1)..] == children[m - n..] + [sphere];
  }

  /** The module state of main.js. `children` stands for scene.children; `stroke` is
      the sequence of spheres written into lineObjects since the last reset. */
  class LegacySession {
    const canvasPosition: Rect
    var isMouseDown: bool
    var clickedPoint: Option<Point>
    var colorIndex: int
    var direction: int
    var lineObjects: SparseArray<Mesh>
    var lineOrigin: Option<Point>
    var children: seq<Mesh>
    ghost var stroke: seq<Mesh>

    /** The stroke invariant holds and `direction` stays 1. */
    ghost predicate Valid()
      reads this`lineObjects, this`colorIndex, this`direction, this`children, this`stroke
    {
      direction == 1 && StrokeInvariant(lineObjects, colorIndex, children, stroke)
    }

    /** The spheres of strokes drawn before the current one. */
    ghost function EarlierSpheres(): seq<Mesh>
      reads this`lineObjects, this`colorIndex, this`direction, this`children, this`stroke
      requires Valid()
    {
      children[..|children| - |stroke|]
    }

    /** Loading the module: the canvas corner is read once, here. */
    constructor (world: World)
      ensures Valid()
      ensures canvasPosition == world.bounds
      ensures !isMouseDown && clickedPoint == None && colorIndex == 0 && direction == 1
      ensures lineObjects == Empty() && lineOrigin == None && children == [] && stroke == []
    {
      canvasPosition := world.bounds;
      isMouseDown := false;
      clickedPoint := None;
      colorIndex := 0;
      direction := 1;
      lineObjects := Empty();
      lineOrigin := None;
      children := [];
      stroke := [];
    }

    method ResetLineState()
      requires Valid()
      modifies this`colorIndex, this`direction, this`lineObjects, this`lineOrigin, this`stroke
      ensures Valid()
      ensures colorIndex == 0 && direction == 1 && lineObjects == Empty() && lineOrigin == None
    {
      colorIndex := 0;
      direction := 1;
      lineObjects := Empty();
      lineOrigin := None;
      stroke := [];
    }

    method GetClicked3DPoint(evt: MouseEvent, distance: real, excludeObjects: SparseArray<Mesh>, world: World)
      returns (clicked: Point)
      modifies this`lineOrigin
      ensures var r := LegacyPick(world, NdcAt(evt, canvasPosition, world), distance,
                                  Candidates(children, excludeObjects.slots.Values), old(lineOrigin));
              clicked == r.point && lineOrigin == r.origin
    {
      var ray := world.castRay(Pointer.ToNdc(evt.clientX, evt.clientY, canvasPosition, world.width, world.height));
      var objectsToCheck := Candidates(children, excludeObjects.slots.Values);
      var intersects := world.intersect(ray, objectsToCheck);
      if |intersects| > 0 {
        clicked := intersects[0];
        lineOrigin := Some(clicked);
      } else {
        clicked := world.along(ray, distance);
      }
      if lineOrigin.Some? {
        // the adjusted distance computed here is never used
        lineOrigin := Some(clicked);
      }
    }

    method GradientColor(pickers: Pickers) returns (color: Tint)
      modifies this`colorIndex
      ensures color == Tint(pickers.startValue, pickers.endValue, LerpFactor(old(colorIndex)))
      ensures colorIndex == Advance(old(colorIndex))
    {
      var lerpFactor := Min(colorIndex as real / TotalSteps as real, 1.0);
      color := Tint(pickers.startValue, pickers.endValue, lerpFactor);
      colorIndex := colorIndex + 1;
      if colorIndex > TotalSteps {
        colorIndex := TotalSteps;
      }
    }

    /** Writes one sphere at the clicked point to index length + 1 of lineObjects when
        the button is held and a point has been picked; otherwise does nothing. */
    method StartDrawing(pickers: Pickers)
      requires Valid()
      modifies this`colorIndex, this`lineObjects, this`children, this`stroke
      ensures Valid() && 0 <= colorIndex <= TotalSteps
      ensures if old(isMouseDown) && old(clickedPoint).Some? then
                |children| == |old(children)| + 1 && children[..|old(children)|] == old(children) &&
                var sphere := children[|old(children)|];
                fresh(sphere) && sphere.position == clickedPoint.value &&
                sphere.tint == Tint(pickers.startValue, pickers.endValue, StrokeFactor(old(lineObjects).length / 2)) &&
                lineObjects.length == old(lineObjects).length + 2 &&
                lineObjects.slots == old(lineObjects).slots[old(lineObjects).length + 1 := sphere]
              else
                colorIndex == old(colorIndex) && lineObjects == old(lineObjects) && children == old(children)
    {
      if isMouseDown && clickedPoint.Some? {
        var color := GradientColor(pickers);
        var sphere := new Mesh(clickedPoint.value, color);
        DrawKeepsInvariant(lineObjects, old(colorIndex), children, stroke, sphere);
        children := children + [sphere];
        lineObjects := Assign(lineObjects, lineObjects.length + 1, sphere);
        stroke := stroke + [sphere];
      }
    }

    /** The drawing part of one animation frame. */
    method Animate(pickers: Pickers)
      requires Valid()
      modifies this`colorIndex, this`lineObjects, this`children, this`stroke
      ensures Valid() && 0 <= colorIndex <= TotalSteps
      ensures if old(isMouseDown) && old(clickedPoint).Some? then
                |children| == |old(children)| + 1 && children[..|old(children)|] == old(children) &&
                var sphere := children[|old(children)|];
                fresh(sphere) && sphere.position == clickedPoint.value &&
                sphere.tint == Tint(pickers.startValue, pickers.endValue, StrokeFactor(old(lineObjects).length / 2)) &&
                lineObjects.length == old(lineObjects).length + 2 &&
                lineObjects.slots == old(lineObjects).slots[old(lineObjects).length + 1 := sphere]
              else
                colorIndex == old(colorIndex) && lineObjects == old(lineObjects) && children == old(children)
    {
      if isMouseDown {
        StartDrawing(pickers);
      }
    }

    /** Any button picks a point; only the drawing button starts a stroke. The hit
        test sees exactly the spheres of earlier strokes. */
    method OnMouseDown(evt: MouseEvent, world: World)
      requires Valid()
      modifies this`isMouseDown, this`clickedPoint, this`lineOrigin
      ensures Valid()
      ensures isMouseDown == (evt.button == DrawingButton || old(isMouseDown))
      ensures var r := LegacyPick(world, NdcAt(evt, canvasPosition, world), RayDistance, EarlierSpheres(), old(lineOrigin));
              clickedPoint == Some(r.point) && lineOrigin == r.origin
    {
      if evt.button == DrawingButton {
        isMouseDown := true;
      }
      var p := GetClicked3DPoint(evt, RayDistance, lineObjects, world);
      clickedPoint := Some(p);
      assert Valid();
      ExcludedAreStroke();
    }

    /** The drawing button ends the stroke and resets the stroke state; the last
        clicked point survives. Other buttons change nothing. */
    method OnMouseUp(evt: MouseEvent)
      requires Valid()
      modifies this`isMouseDown, this`colorIndex, this`direction, this`lineObjects, this`lineOrigin, this`stroke
      ensures Valid()
      ensures if evt.button == DrawingButton then
                !isMouseDown && colorIndex == 0 && direction == 1 && lineObjects == Empty() && lineOrigin == None
              else
                isMouseDown == old(isMouseDown) && colorIndex == old(colorIndex) &&
                lineObjects == old(lineObjects) && lineOrigin == old(lineOrigin) && stroke == old(stroke)
    {
      if evt.button == DrawingButton {
        isMouseDown := false;
        ResetLineState();
      }
    }

    /** While the button is held the pointer picks a new point; otherwise nothing changes. */
    method OnMouseMove(evt: MouseEvent, world: World)
      requires Valid()
      modifies this`clickedPoint, this`lineOrigin
      ensures Valid()
      ensures if isMouseDown then
                var r := LegacyPick(world, NdcAt(evt, canvasPosition, world), RayDistance, EarlierSpheres(), old(lineOrigin));
                clickedPoint == Some(r.point) && lineOrigin == r.origin
              else
                clickedPoint == old(clickedPoint) && lineOrigin == old(lineOrigin)
    {
      if isMouseDown {
        var p := GetClicked3DPoint(evt, RayDistance, lineObjects, world);
        clickedPoint := Some(p);
        assert Valid();
        ExcludedAreStroke();
      }
    }

    /** Filtering the scene by what lineObjects includes leaves the earlier strokes. */
    lemma ExcludedAreStroke()
      requires Valid()
      ensures Candidates(children, lineObjects.slots.Values) == EarlierSpheres()
    {
      OddLayoutElements(lineObjects, stroke);
      assert lineObjects.slots.Values == Elements(stroke);
      EarlierStrokesAreCandidates(children, stroke);
    }

    /** lineObjects is exactly what writing the spheres of the stroke one by one, each
        to index length + 1, produces from the empty array. */
    lemma LineObjectsAreWritten()
      requires Valid()
      ensures lineObjects == Appended(stroke)
    {
      OddLayoutUnique(lineObjects, stroke);
    }
  }
}
