/** The drawing session of scene.js: the state that initScene's closure keeps between
    events, the handlers that update it, and the per-frame step that adds a sphere. */
module SceneJs {
  import opened Geometry
  import opened Gradient
  import Pointer
  import opened Picking

  /** How far along the ray a point is placed when nothing fixes its depth. */
  const RayDistance: real := 5.0
  /** The left mouse button draws; the others belong to the orbit controls. */
  const DrawingButton: int := 0

  function NdcOf(evt: MouseEvent, world: World): Ndc
  {
    Pointer.ToNdc(evt.clientX, evt.clientY, world.bounds, world.width, world.height)
  }

  /** The point-selection rule: the hit test is consulted only while no origin is locked;
      its first hit locks the origin; a locked origin fixes the depth of the point along
      the pointer ray; with neither, the point lies `distance` along the ray. */
  function LockedPick(world: World, ndc: Ndc, distance: real, candidates: seq<Mesh>, origin: Option<Point>): (r: Picked)
    ensures origin.Some? ==> r.origin == origin
    ensures origin.None? ==> (r.origin.Some? <==> |world.intersect(world.castRay(ndc), candidates)| > 0)
    ensures origin.None? && r.origin.Some? ==> r.origin.value == world.intersect(world.castRay(ndc), candidates)[0]
    ensures r.origin.Some? ==> r.point == world.along(world.castRay(ndc), world.distance(world.cameraPosition, r.origin.value))
    ensures r.origin.None? ==> r.point == world.along(world.castRay(ndc), distance)
  {
    var ray := world.castRay(ndc);
    var locked :=
      match origin
      case Some(_) => origin
      case None =>
        var hits := world.intersect(ray, candidates);
        if hits == [] then None else Some(hits[0]);
    match locked
    case None => Picked(world.along(ray, distance), None)
    case Some(o) => Picked(world.along(ray, world.distance(world.cameraPosition, o)), locked)
  }

  /** Once an origin is locked the raycaster's answer no longer matters. */
  lemma LockedIgnoresHitTest(world: World, other: (Ray, seq<Mesh>) -> seq<Point>, ndc: Ndc,
                             distance: real, candidates: seq<Mesh>, origin: Option<Point>)
    requires origin.Some?
    ensures LockedPick(world.(intersect := other), ndc, distance, candidates, origin)
         == LockedPick(world, ndc, distance, candidates, origin)
  {
  }

  /** With an origin locked, every pointer position gives a point at the same distance
      from the camera as the origin, whatever the candidates or the default distance.
      This is LockedPick's contract for two pointer positions side by side; it is kept
      as the statement of the depth lock that main.js lacks. */
  lemma LockedDepthIsShared(world: World, ndc1: Ndc, ndc2: Ndc, d1: real, d2: real,
                            c1: seq<Mesh>, c2: seq<Mesh>, o: Point)
    ensures var r1 := LockedPick(world, ndc1, d1, c1, Some(o));
            var r2 := LockedPick(world, ndc2, d2, c2, Some(o));
            r1.origin == r2.origin == Some(o) &&
            r1.point == world.along(world.castRay(ndc1), world.distance(world.cameraPosition, o)) &&
            r2.point == world.along(world.castRay(ndc2), world.distance(world.cameraPosition, o))
  {
  }

  /** The invariant of the stroke state: the spheres of the current stroke are the
      newest children of the scene, which holds no object twice; the counter has
      advanced once per sphere since the last reset; and the k-th sphere carries the
      k-th factor of the gradient. */
  ghost predicate StrokeInvariant(colorIndex: int, lineObjects: seq<Mesh>, children: seq<Mesh>)
  {
    colorIndex == IndexAfter(|lineObjects|) &&
    |lineObjects| <= |children| &&
    children[|children| - |lineObjects|..] == lineObjects &&
    Distinct(children) &&
    forall k :: 0 <= k < |lineObjects| ==> lineObjects[k].tint.factor == StrokeFactor(k)
  }

  /** Drawing a new sphere coloured by the current counter keeps the invariant, and the
      sphere's factor is the one for its position in the stroke. */
  lemma DrawKeepsInvariant(colorIndex: int, lineObjects: seq<Mesh>, children: seq<Mesh>, sphere: Mesh)
    requires StrokeInvariant(colorIndex, lineObjects, children)
    requires sphere !in children && sphere.tint.factor == LerpFactor(colorIndex)
    ensures sphere.tint.factor == StrokeFactor(|lineObjects|)
    ensures StrokeInvariant(Advance(colorIndex), lineObjects + [sphere], children + [sphere])
  {
    var n, m := |lineObjects|, |children|;
    assert (children + [sphere])[m + 1 - (n + 1)..] == children[m - n..] + [sphere];
  }

  /** The closure state of initScene. `children` stands for scene.children, to which
      every drawn sphere is added. */
  class DrawingSession {
    var isMouseDown: bool
    var clickedPoint: Option<Point>
    var colorIndex: int
    var lineObjects: seq<Mesh>
    var lineOrigin: Option<Point>
    var children: seq<Mesh>

    ghost predicate Valid()
      reads this`colorIndex, this`lineObjects, this`children
    {
      StrokeInvariant(colorIndex, lineObjects, children)
    }

    /** The spheres of strokes drawn before the current one. */
    function EarlierSpheres(): seq<Mesh>
      reads this`colorIndex, this`lineObjects, this`children
      requires Valid()
    {
      children[..|children| - |lineObjects|]
    }

    constructor ()
      ensures Valid()
      ensures !isMouseDown && clickedPoint == None && colorIndex == 0
      ensures lineObjects == [] && lineOrigin == None && children == []
    {
      isMouseDown := false;
      clickedPoint := None;
      colorIndex := 0;
      lineObjects := [];
      lineOrigin := None;
      children := [];
    }

    method ResetLineState()
      requires Valid()
      modifies this`colorIndex, this`lineObjects, this`lineOrigin
      ensures Valid()
      ensures colorIndex == 0 && lineObjects == [] && lineOrigin == None
    {
      colorIndex := 0;
      lineObjects := [];
      lineOrigin := None;
    }

    method GetClicked3DPoint(evt: MouseEvent, distance: real, excludeObjects: seq<Mesh>, world: World)
      returns (clicked: Point)
      modifies this`lineOrigin
      ensures var r := LockedPick(world, NdcOf(evt, world), distance,
                                  Picking.Candidates(children, Elements(excludeObjects)), old(lineOrigin));
              clicked == r.point && lineOrigin == r.origin
    {
      var ray := world.castRay(Pointer.ToNdc(evt.clientX, evt.clientY, world.bounds, world.width, world.height));
      var intersects: Option<seq<Point>> := None;
      if lineOrigin == None {
        var objectsToCheck := Picking.Candidates(children, Elements(excludeObjects));
        intersects := Some(world.intersect(ray, objectsToCheck));
      }
      if intersects.Some? && |intersects.value| > 0 {
        clicked := intersects.value[0];
        lineOrigin := Some(clicked);
      } else {
        clicked := world.along(ray, distance);
      }
      if lineOrigin.Some? {
        clicked := world.along(ray, world.distance(world.cameraPosition, lineOrigin.value));
      }
    }

    method GradientColor(pickers: Pickers) returns (color: Tint)
      modifies this`colorIndex
      ensures color == Tint(pickers.startValue, pickers.endValue, LerpFactor(old(colorIndex)))
      ensures colorIndex == Advance(old(colorIndex))
    {
      var lerpFactor := Min(colorIndex as real / TotalSteps as real, 1.0);
      color := Tint(pickers.startValue, pickers.endValue, lerpFactor);
      colorIndex := colorIndex + 1;
      if colorIndex > TotalSteps {
        colorIndex := TotalSteps;
      }
    }

    /** Appends one sphere at the clicked point, coloured by the next gradient step,
        when the button is held and a point has been picked; otherwise does nothing. */
    method StartDrawing(pickers: Pickers)
      requires Valid()
      modifies this`colorIndex, this`lineObjects, this`children
      ensures Valid() && 0 <= colorIndex <= TotalSteps
      ensures if old(isMouseDown) && old(clickedPoint).Some? then
                |lineObjects| == |old(lineObjects)| + 1 &&
                lineObjects[..|old(lineObjects)|] == old(lineObjects) &&
                var sphere := lineObjects[|old(lineObjects)|];
                fresh(sphere) && sphere.position == clickedPoint.value &&
                sphere.tint == Tint(pickers.startValue, pickers.endValue, StrokeFactor(|old(lineObjects)|)) &&
                children == old(children) + [sphere]
              else
                colorIndex == old(colorIndex) && lineObjects == old(lineObjects) && children == old(children)
    {
      if isMouseDown && clickedPoint.Some? {
        var color := GradientColor(pickers);
        var sphere := new Mesh(clickedPoint.value, color);
        DrawKeepsInvariant(old(colorIndex), lineObjects, children, sphere);
        children := children + [sphere];
        lineObjects := lineObjects + [sphere];
      }
    }

    /** The drawing part of one animation frame. */
    method Animate(pickers: Pickers)
      requires Valid()
      modifies this`colorIndex, this`lineObjects, this`children
      ensures Valid() && 0 <= colorIndex <= TotalSteps
      ensures if old(isMouseDown) && old(clickedPoint).Some? then
                |lineObjects| == |old(lineObjects)| + 1 &&
                lineObjects[..|old(lineObjects)|] == old(lineObjects) &&
                var sphere := lineObjects[|old(lineObjects)|];
                fresh(sphere) && sphere.position == clickedPoint.value &&
                sphere.tint == Tint(pickers.startValue, pickers.endValue, StrokeFactor(|old(lineObjects)|)) &&
                children == old(children) + [sphere]
              else
                colorIndex == old(colorIndex) && lineObjects == old(lineObjects) && children == old(children)
    {
      if isMouseDown {
        StartDrawing(pickers);
      }
    }

    /** Any button picks a point (and may lock the origin); only the drawing button
        starts a stroke. The hit test sees exactly the spheres of earlier strokes. */
    method OnMouseDown(evt: MouseEvent, world: World)
      requires Valid()
      modifies this`isMouseDown, this`clickedPoint, this`lineOrigin
      ensures Valid()
      ensures isMouseDown == (evt.button == DrawingButton || old(isMouseDown))
      ensures var r := LockedPick(world, NdcOf(evt, world), RayDistance, EarlierSpheres(), old(lineOrigin));
              clickedPoint == Some(r.point) && lineOrigin == r.origin
    {
      if evt.button == DrawingButton {
        isMouseDown := true;
      }
      var p := GetClicked3DPoint(evt, RayDistance, lineObjects, world);
      clickedPoint := Some(p);
      assert Valid();
      Picking.EarlierStrokesAreCandidates(children, lineObjects);
    }

    /** The drawing button ends the stroke and resets the stroke state; the last
        clicked point survives. Other buttons change nothing. */
    method OnMouseUp(evt: MouseEvent)
      requires Valid()
      modifies this`isMouseDown, this`colorIndex, this`lineObjects, this`lineOrigin
      ensures Valid()
      ensures if evt.button == DrawingButton then
                !isMouseDown && colorIndex == 0 && lineObjects == [] && lineOrigin == None
              else
                isMouseDown == old(isMouseDown) && colorIndex == old(colorIndex) &&
                lineObjects == old(lineObjects) && lineOrigin == old(lineOrigin)
    {
      if evt.button == DrawingButton {
        isMouseDown := false;
        ResetLineState();
      }
    }

    /** While the button is held the pointer picks a new point; otherwise nothing changes. */
    method OnMouseMove(evt: MouseEvent, world: World)
      requires Valid()
      modifies this`clickedPoint, this`lineOrigin
      ensures Valid()
      ensures if isMouseDown then
                var r := LockedPick(world, NdcOf(evt, world), RayDistance, EarlierSpheres(), old(lineOrigin));
                clickedPoint == Some(r.point) && lineOrigin == r.origin
              else
                clickedPoint == old(clickedPoint) && lineOrigin == old(lineOrigin)
    {
      if isMouseDown {
        var p := GetClicked3DPoint(evt, RayDistance, lineObjects, world);
        clickedPoint := Some(p);
        assert Valid();
        Picking.EarlierStrokesAreCandidates(children, lineObjects);
      }
    }
  }
}
