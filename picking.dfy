/** Choosing what the raycaster may hit: the scene's children minus the objects to
    exclude (the spheres of the stroke being drawn), in the scene's order. */
module Picking {
  import opened Geometry

  /** What getClicked3DPoint yields: the point, and lineOrigin afterwards. */
  datatype Picked = Picked(point: Point, origin: Option<Point>)

  /** scene.children.filter(obj => !excludeObjects.includes(obj)). */
  function Candidates(children: seq<Mesh>, excluded: set<Mesh>): (r: seq<Mesh>)
    ensures |r| <= |children|
  {
    if children == [] then []
    else (if children[0] in excluded then [] else [children[0]]) + Candidates(children[1..], excluded)
  }

  /** An object is a candidate exactly when it is a child and is not excluded. */
  lemma {:induction false} CandidatesMembers(children: seq<Mesh>, excluded: set<Mesh>)
    ensures forall m :: m in Candidates(children, excluded) <==> m in children && m !in excluded
  {
    if children != [] {
      CandidatesMembers(children[1..], excluded);
      assert children == [children[0]] + children[1..];
    }
  }

  /** Filtering keeps the order: filtering a concatenation concatenates the filtered parts. */
  lemma {:induction false} CandidatesAppend(a: seq<Mesh>, b: seq<Mesh>, excluded: set<Mesh>)
    ensures Candidates(a + b, excluded) == Candidates(a, excluded) + Candidates(b, excluded)
  {
    if a != [] {
      assert (a + b)[0] == a[0] && (a + b)[1..] == a[1..] + b;
      CandidatesAppend(a[1..], b, excluded);
    } else {
      assert a + b == b;
    }
  }

  /** An array none of whose objects is excluded passes the filter unchanged. */
  lemma {:induction false} CandidatesKeepAll(children: seq<Mesh>, excluded: set<Mesh>)
    requires forall i :: 0 <= i < |children| ==> children[i] !in excluded
    ensures Candidates(children, excluded) == children
  {
    if children != [] {
      CandidatesKeepAll(children[1..], excluded);
    }
  }

  /** An array all of whose objects are excluded leaves nothing. */
  lemma {:induction false} CandidatesDropAll(children: seq<Mesh>, excluded: set<Mesh>)
    requires forall i :: 0 <= i < |children| ==> children[i] in excluded
    ensures Candidates(children, excluded) == []
  {
    if children != [] {
      CandidatesDropAll(children[1..], excluded);
    }
  }

  /** When the excluded stroke is the newest part of a scene of distinct objects, the
      candidates are exactly the objects added before it, in the scene's order: a stroke
      can only ever hit the spheres of earlier strokes. */
  lemma EarlierStrokesAreCandidates(children: seq<Mesh>, stroke: seq<Mesh>)
    requires Distinct(children)
    requires |stroke| <= |children| && children[|children| - |stroke|..] == stroke
    ensures Candidates(children, Elements(stroke)) == children[..|children| - |stroke|]
  {
    var n := |children| - |stroke|;
    var earlier, excluded := children[..n], Elements(stroke);
    assert children == earlier + stroke;
    CandidatesAppend(earlier, stroke, excluded);
    forall i | 0 <= i < |earlier|
      ensures earlier[i] !in excluded
    {
    }
    CandidatesKeepAll(earlier, excluded);
    forall i | 0 <= i < |stroke|
      ensures stroke[i] in excluded
    {
    }
    CandidatesDropAll(stroke, excluded);
  }
}
