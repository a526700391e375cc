/** `ConvertPointColor`, the conversion chosen by the static types of its
    two arguments. The overload set is modelled as a table of supported
    (input, output) kind pairs: a pair outside the table is the
    compile-time failure of the generic template, so it becomes a
    precondition. */
module Dispatch {
  import opened PointTypes
  import opened ColorConversion

  /** The pairs that have an overload: the same type twice (a plain copy)
      and the five conversions other than the Intensity8u and Intensity32u
      ones. A conversion keeps or drops the position together with the
      input: it never invents one or loses one; and only a plain copy
      produces an RGB or XYZRGBA point. */
  predicate SupportedPair(from: PointKind, to: PointKind)
    ensures SupportedPair(from, to) ==> (HasPosition(from) <==> HasPosition(to))
    ensures SupportedPair(from, to) && (to == RGBKind || to == XYZRGBAKind) ==> from == to
  {
    from == to
    || (from == XYZRGBKind && to == XYZIKind)
    || (from == RGBKind && to == IntensityKind)
    || (from == XYZRGBKind && to == XYZHSVKind)
    || (from == XYZRGBAKind && to == XYZHSVKind)
    || (from == XYZHSVKind && to == XYZRGBKind)
  }

  /** A point that may be converted to `to`: the pair is supported and, for
      HSV to RGB, the saturation and value lie in the documented [0, 1]. */
  predicate Convertible(p: Point, to: PointKind)
  {
    SupportedPair(KindOf(p), to)
    && (KindOf(p) == XYZHSVKind && to == XYZRGBKind ==> 0.0 <= p.s <= 1.0 && 0.0 <= p.v <= 1.0)
  }

  function ConvertPointColor(p: Point, to: PointKind): (q: Point)
    requires Convertible(p, to)
    ensures KindOf(q) == to
    ensures KindOf(p) == to ==> q == p
    ensures HasPosition(to) ==> HasPosition(KindOf(p)) && q.pos == p.pos
    ensures KindOf(p) != to && (to == IntensityKind || to == XYZIKind) ==>
              Min3(p.r, p.g, p.b) as real <= q.intensity <= Max3(p.r, p.g, p.b) as real
    ensures KindOf(p) != to && to == XYZHSVKind ==>
              q.v == Max3(p.r, p.g, p.b) as real / 255.0 && 0.0 <= q.s <= 1.0 && 0.0 <= q.h < 360.0
  {
    if KindOf(p) == to then p
    else
      match to
      case XYZIKind => PointXYZRGBtoXYZI(p)
      case IntensityKind => PointRGBtoI(p)
      case XYZHSVKind =>
        if p.PointXYZRGB? then PointXYZRGBtoXYZHSV(p) else PointXYZRGBAtoXYZHSV(p)
      case XYZRGBKind => PointXYZHSVtoXYZRGB(p)
  }

  /** Converting an XYZRGB point to XYZHSV gives a point that may be
      converted back, and converting it back gives the original point. */
  lemma ConvertHsvRoundTrip(p: XYZRGBPoint)
    ensures Convertible(ConvertPointColor(p, XYZHSVKind), XYZRGBKind)
    ensures ConvertPointColor(ConvertPointColor(p, XYZHSVKind), XYZRGBKind) == p
  {
    RgbHsvRoundTrip(p);
  }

  /** XYZRGBA and XYZRGB points with the same position and colour convert
      to the same XYZHSV point, whatever the alpha. */
  lemma ConvertIgnoresAlpha(pos: Position, r: Channel, g: Channel, b: Channel, a: Channel)
    ensures ConvertPointColor(PointXYZRGBA(pos, r, g, b, a), XYZHSVKind)
         == ConvertPointColor(PointXYZRGB(pos, r, g, b), XYZHSVKind)
  {
    AlphaIgnored(pos, r, g, b, a);
  }
}
