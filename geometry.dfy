/** The values and collaborators the drawing session works with: abstract 3D points,
    the sphere meshes a stroke is made of, and the external camera, raycaster and
    vector library, which the session only ever calls. */
module Geometry {

  datatype Option<T> = None | Some(value: T)

  /** A world-space 3D point (a THREE.Vector3 value); its arithmetic is not modelled. */
  type Point(==)

  /** A ray as THREE.Raycaster.setFromCamera leaves it: an origin and a direction. */
  datatype Ray = Ray(origin: Point, direction: Point)

  /** Normalized device coordinates, the input of setFromCamera. */
  datatype Ndc = Ndc(x: real, y: real)

  /** The top-left corner of the canvas as getBoundingClientRect reports it. */
  datatype Rect = Rect(left: real, top: real)

  /** Canvas sizes are positive. */
  type Positive = r: real | r > 0.0 witness 1.0

  /** The colour pickers' values at the moment a sphere is coloured, and the lerp
      factor between them; parsing the colours and the lerp itself are library work. */
  datatype Tint = Tint(startColor: string, endColor: string, factor: real)

  /** One sphere of a stroke (THREE.Mesh over a SphereGeometry). Objects are compared
      by reference, as Array.prototype.includes does. */
  class Mesh {
    const position: Point
    const tint: Tint

    constructor (position: Point, tint: Tint)
      ensures this.position == position && this.tint == tint
    {
      this.position := position;
      this.tint := tint;
    }
  }

  /** Everything the handlers read from outside the session at the time of one event:
      the canvas, the camera and raycaster, and the two vector operations they use. */
  datatype World = World(
    bounds: Rect,                               // getBoundingClientRect()
    width: Positive,                            // renderer.domElement.width
    height: Positive,                           // renderer.domElement.height
    cameraPosition: Point,                      // camera.position
    castRay: Ndc -> Ray,                        // rayCaster.setFromCamera(ndc, camera)
    intersect: (Ray, seq<Mesh>) -> seq<Point>,  // intersectObjects: hit points, nearest first
    along: (Ray, real) -> Point,                // ray.origin + normalize(ray.direction) * t
    distance: (Point, Point) -> real)           // Vector3.distanceTo

  /** A pointer event: which button and where, in client pixels. */
  datatype MouseEvent = MouseEvent(button: int, clientX: real, clientY: real)

  /** The values of the two colour pickers. */
  datatype Pickers = Pickers(startValue: string, endValue: string)

  /** No object occurs twice. */
  ghost predicate Distinct(s: seq<Mesh>)
  {
    forall i, j :: 0 <= i < j < |s| ==> s[i] != s[j]
  }

  /** The set of objects an array holds. */
  function Elements(s: seq<Mesh>): set<Mesh>
  {
    set m | m in s
  }
}
