/** The point records that the colour conversions read and write.
    Each constructor of `Point` stands for one C++ point struct; the subset
    types below stand for the static parameter types of the scalar
    converters, and `PointKind` names a struct as a value so that the
    compile-time dispatch and the element type of a cloud can be stated. */
module PointTypes {

  /** An 8-bit colour channel (`uint8_t` / `unsigned char`). */
  type Channel = x: int | 0 <= x <= 255

  /** A 3-D position. `Invalid` stands for the quiet-NaN coordinates that
      mark an unmeasured point. */
  datatype Position = Xyz(x: real, y: real, z: real) | Invalid

  datatype Point =
    | RGB(r: Channel, g: Channel, b: Channel)
    | Intensity(intensity: real)
    | PointXYZI(pos: Position, intensity: real)
    | PointXYZRGB(pos: Position, r: Channel, g: Channel, b: Channel)
    | PointXYZRGBA(pos: Position, r: Channel, g: Channel, b: Channel, a: Channel)
    | PointXYZHSV(pos: Position, h: real, s: real, v: real)

  type RGBPoint = p: Point | p.RGB? witness RGB(0, 0, 0)
  type IntensityPoint = p: Point | p.Intensity? witness Intensity(0.0)
  type XYZIPoint = p: Point | p.PointXYZI? witness PointXYZI(Invalid, 0.0)
  type XYZRGBPoint = p: Point | p.PointXYZRGB? witness PointXYZRGB(Invalid, 0, 0, 0)
  type XYZRGBAPoint = p: Point | p.PointXYZRGBA? witness PointXYZRGBA(Invalid, 0, 0, 0, 0)
  type XYZHSVPoint = p: Point | p.PointXYZHSV? witness PointXYZHSV(Invalid, 0.0, 0.0, 0.0)

  /** The static type of a point, as a value. */
  datatype PointKind = RGBKind | IntensityKind | XYZIKind | XYZRGBKind | XYZRGBAKind | XYZHSVKind

  function KindOf(p: Point): PointKind
  {
    match p
    case RGB(_, _, _) => RGBKind
    case Intensity(_) => IntensityKind
    case PointXYZI(_, _) => XYZIKind
    case PointXYZRGB(_, _, _, _) => XYZRGBKind
    case PointXYZRGBA(_, _, _, _, _) => XYZRGBAKind
    case PointXYZHSV(_, _, _, _) => XYZHSVKind
  }

  /** True of the point types that carry x, y and z. */
  predicate HasPosition(k: PointKind)
  {
    k != RGBKind && k != IntensityKind
  }

  /** Every point of `s` has the static type `k`. */
  predicate AllOfKind(s: seq<Point>, k: PointKind)
  {
    forall i :: 0 <= i < |s| ==> KindOf(s[i]) == k
  }

  function Max3(a: int, b: int, c: int): int
  {
    if a >= b && a >= c then a else if b >= c then b else c
  }

  function Min3(a: int, b: int, c: int): int
  {
    if a <= b && a <= c then a else if b <= c then b else c
  }
}
