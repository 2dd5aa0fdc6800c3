/** Mapping a pointer position in client pixels to normalized device coordinates:
    the canvas's left edge goes to x = -1, its right edge to x = +1, its top edge to
    y = +1 and its bottom edge to y = -1 (screen y grows downwards, NDC y upwards). */
module Pointer {
  import opened Geometry

  /** The formula both handlers apply before casting a ray. FromNdc recovers the pixel,
      so distinct pointer positions never share a ray. */
  function ToNdc(clientX: real, clientY: real, bounds: Rect, width: Positive, height: Positive): (n: Ndc)
    ensures FromNdc(n, bounds, width, height).0 == clientX
    ensures FromNdc(n, bounds, width, height).1 == clientY
  {
    UnitBack(clientX - bounds.left, width);
    UnitBack(clientY - bounds.top, height);
    Ndc(((clientX - bounds.left) / width) * 2.0 - 1.0,
        -((clientY - bounds.top) / height) * 2.0 + 1.0)
  }

  /** The pixel position that maps to given NDC: the inverse of ToNdc. */
  function FromNdc(n: Ndc, bounds: Rect, width: Positive, height: Positive): (p: (real, real))
  {
    (bounds.left + (n.x + 1.0) / 2.0 * width,
     bounds.top + (1.0 - n.y) / 2.0 * height)
  }

  /** Mapping NDC to a pixel and back gives the NDC again, so ToNdc is a bijection. */
  lemma NdcRoundTrip(n: Ndc, bounds: Rect, width: Positive, height: Positive)
    ensures var p := FromNdc(n, bounds, width, height); ToNdc(p.0, p.1, bounds, width, height) == n
  {
    var p := FromNdc(n, bounds, width, height);
    var u, v := (n.x + 1.0) / 2.0, (1.0 - n.y) / 2.0;
    assert p.0 - bounds.left == u * width;
    assert u * width / width == u;
    assert p.1 - bounds.top == v * height;
    assert v * height / height == v;
  }

  /** The canvas corners map to the corners of NDC space, with y inverted. */
  lemma EdgesMapToBounds(bounds: Rect, width: Positive, height: Positive)
    ensures ToNdc(bounds.left, bounds.top, bounds, width, height) == Ndc(-1.0, 1.0)
    ensures ToNdc(bounds.left + width, bounds.top + height, bounds, width, height) == Ndc(1.0, -1.0)
  {
  }

  /** A pointer lies on the canvas exactly when its NDC lie in [-1, 1] on both axes. */
  lemma OnCanvasIffInRange(clientX: real, clientY: real, bounds: Rect, width: Positive, height: Positive)
    ensures var n := ToNdc(clientX, clientY, bounds, width, height);
      (bounds.left <= clientX <= bounds.left + width && bounds.top <= clientY <= bounds.top + height)
      <==> (-1.0 <= n.x <= 1.0 && -1.0 <= n.y <= 1.0)
  {
    UnitIffWithin(clientX - bounds.left, width);
    UnitIffWithin(clientY - bounds.top, height);
  }

  /** A fraction d / w of a positive length lies in [0, 1] exactly when d lies in [0, w]. */
  lemma UnitIffWithin(d: real, w: Positive)
    ensures 0.0 <= d / w <= 1.0 <==> 0.0 <= d <= w
  {
    var u := d / w;
    assert u * w == d;
    if u < 0.0 { assert u * w < 0.0; }
    if u > 1.0 { assert u * w > 1.0 * w; }
    if 0.0 <= u <= 1.0 { assert 0.0 * w <= u * w <= 1.0 * w; }
  }

  /** Scaling an offset to [-1, 1] and back gives the offset again. */
  lemma UnitBack(d: real, w: Positive)
    ensures ((d / w) * 2.0 - 1.0 + 1.0) / 2.0 * w == d
    ensures (1.0 - (-(d / w) * 2.0 + 1.0)) / 2.0 * w == d
  {
    var u := d / w;
    assert u * w == d;
    assert (u * 2.0 - 1.0 + 1.0) / 2.0 == u;
    assert (1.0 - (-u * 2.0 + 1.0)) / 2.0 == u;
  }
}
