/** The point-cloud operations: converting the colour of every point of a
    cloud, and fusing a registered depth image and colour image into an
    XYZRGBA cloud. */
module Clouds {
  import opened PointTypes
  import opened Dispatch

  /** `Eigen::Vector4f`, the sensor origin; only copied here. */
  datatype Vector4 = Vector4(x: real, y: real, z: real, w: real)

  /** `Eigen::Quaternionf`, the sensor orientation; only copied here. */
  datatype Quaternion = Quaternion(w: real, x: real, y: real, z: real)

  /** `PointCloud<T>`: the point type T is the constant `kind`. The points
      of an organised cloud are stored row by row, `width` to a row. */
  class PointCloud {
    const kind: PointKind
    var points: seq<Point>
    var width: nat
    var height: nat
    var isDense: bool
    var sensorOrigin: Vector4
    var sensorOrientation: Quaternion

    /** Every point has the cloud's point type. */
    predicate Valid()
      reads this
    {
      AllOfKind(points, kind)
    }

    constructor (k: PointKind, pts: seq<Point>, w: nat, h: nat)
      requires AllOfKind(pts, k)
      ensures Valid()
      ensures kind == k && points == pts && width == w && height == h
      ensures isDense && sensorOrigin == Vector4(0.0, 0.0, 0.0, 0.0)
      ensures sensorOrientation == Quaternion(1.0, 0.0, 0.0, 0.0)
    {
      kind := k;
      points := pts;
      width := w;
      height := h;
      isDense := true;
      sensorOrigin := Vector4(0.0, 0.0, 0.0, 0.0);
      sensorOrientation := Quaternion(1.0, 0.0, 0.0, 0.0);
    }
  }

  /** `std::vector::resize(n)`: keeps the first n elements, and appends
      copies of `blank` (the default-constructed element) when growing. */
  function Resize<T>(s: seq<T>, n: nat, blank: T): (r: seq<T>)
    ensures |r| == n
    ensures forall i :: 0 <= i < n && i < |s| ==> r[i] == s[i]
    ensures forall i :: |s| <= i < n ==> r[i] == blank
  {
    if n <= |s| then s[..n] else s + seq(n - |s|, _ => blank)
  }

  lemma ResizeKeepsKind(s: seq<Point>, n: nat, blank: Point, k: PointKind)
    requires AllOfKind(s, k) && KindOf(blank) == k
    ensures AllOfKind(Resize(s, n, blank), k)
  {
    var r := Resize(s, n, blank);
    forall i | 0 <= i < n
      ensures KindOf(r[i]) == k
    {
      if i < |s| {
        assert r[i] == s[i];
      } else {
        assert r[i] == blank;
      }
    }
  }

  /** Copies the size, pose and density of `src` to `dst`, resizes
      `dst.points` to width * height and overwrites its first
      |src.points| entries with the converted points. `blank` is the value
      a default-constructed point of the output type has. */
  method ConvertPointCloudColor(src: PointCloud, dst: PointCloud, blank: Point)
    requires src != dst
    requires SupportedPair(src.kind, dst.kind)
    requires src.Valid() && dst.Valid() && KindOf(blank) == dst.kind
    requires forall i :: 0 <= i < |src.points| ==> Convertible(src.points[i], dst.kind)
    requires |src.points| <= src.width * src.height
    modifies dst
    ensures dst.Valid()
    ensures dst.width == src.width && dst.height == src.height
    ensures dst.sensorOrientation == src.sensorOrientation && dst.sensorOrigin == src.sensorOrigin
    ensures dst.isDense == src.isDense
    ensures |dst.points| == src.width * src.height
    ensures forall i :: 0 <= i < |src.points| ==> dst.points[i] == ConvertPointColor(src.points[i], dst.kind)
    ensures forall i :: |src.points| <= i < |dst.points| ==>
              dst.points[i] == Resize(old(dst.points), src.width * src.height, blank)[i]
  {
    dst.width := src.width;
    dst.height := src.height;
    dst.sensorOrientation := src.sensorOrientation;
    dst.sensorOrigin := src.sensorOrigin;
    dst.isDense := src.isDense;
    var resized := Resize(dst.points, dst.width * dst.height, blank);
    ResizeKeepsKind(dst.points, dst.width * dst.height, blank, dst.kind);
    dst.points := resized;
    var i := 0;
    while i < |src.points|
      invariant 0 <= i <= |src.points|
      invariant |dst.points| == |resized|
      invariant dst.width == src.width && dst.height == src.height
      invariant dst.sensorOrientation == src.sensorOrientation && dst.sensorOrigin == src.sensorOrigin
      invariant dst.isDense == src.isDense
      invariant dst.Valid()
      invariant forall j :: 0 <= j < i ==> dst.points[j] == ConvertPointColor(src.points[j], dst.kind)
      invariant forall j :: i <= j < |dst.points| ==> dst.points[j] == resized[j]
    {
      dst.points := dst.points[i := ConvertPointColor(src.points[i], dst.kind)];
      i := i + 1;
    }
  }

  /** A registered depth image (depth in millimetres, one value per
      pixel) and colour image, as read by the fusion: the pixel (u, v) of
      a cloud of width w is its point v * w + u. */
  datatype Frame = Frame(depth: seq<Point>, width: nat, height: nat,
                         image: seq<Point>, imageWidth: nat, focal: real)

  /** The images hold the right point types, the focal length is non-zero
      and every pixel (u, v) with u < width and v < height exists in both. */
  predicate FrameOk(f: Frame)
  {
    AllOfKind(f.depth, IntensityKind) && AllOfKind(f.image, RGBKind) && f.focal != 0.0
    && f.width * f.height <= |f.depth|
    && (f.width == 0 || f.height == 0 || (f.height - 1) * f.imageWidth + f.width <= |f.image|)
  }

  lemma PixelInBounds(f: Frame, u: nat, v: nat)
    requires FrameOk(f) && u < f.width && v < f.height
    ensures v * f.width + u < |f.depth|
    ensures v * f.imageWidth + u < |f.image|
  {
    assert v * f.width + u < (v + 1) * f.width;
    assert (v + 1) * f.width <= f.height * f.width;
    assert v * f.imageWidth <= (f.height - 1) * f.imageWidth;
  }

  /** The depth of pixel (u, v). */
  function DepthAt(f: Frame, u: nat, v: nat): (d: real)
    requires FrameOk(f) && u < f.width && v < f.height
    ensures v * f.width + u < |f.depth| && d == f.depth[v * f.width + u].intensity
  {
    PixelInBounds(f, u, v);
    f.depth[v * f.width + u].intensity
  }

  /** The colour of pixel (u, v). */
  function ColorAt(f: Frame, u: nat, v: nat): (c: Point)
    requires FrameOk(f) && u < f.width && v < f.height
    ensures c.RGB?
  {
    PixelInBounds(f, u, v);
    f.image[v * f.imageWidth + u]
  }

  /** The fused point of pixel (u, v): the colour of the pixel with alpha
      0, and the pinhole back-projection of its depth in metres, or an
      invalid position where the depth is 0 (no measurement). */
  function FusePixel(f: Frame, u: nat, v: nat): (p: Point)
    requires FrameOk(f) && u < f.width && v < f.height
    ensures p.PointXYZRGBA? && p.a == 0
    ensures p.r == ColorAt(f, u, v).r && p.g == ColorAt(f, u, v).g && p.b == ColorAt(f, u, v).b
    ensures p.pos == Invalid <==> DepthAt(f, u, v) == 0.0
  {
    var c := ColorAt(f, u, v);
    PointXYZRGBA(BackProject(DepthAt(f, u, v), u, v, f.focal), c.r, c.g, c.b, 0)
  }

  /** The position seen at pixel (u, v) at depth d millimetres: z = d / 1000
      metres and x, y scaled from u, v by z / focal; no position when d is 0. */
  function BackProject(d: real, u: nat, v: nat, focal: real): (p: Position)
    requires focal != 0.0
    ensures p == Invalid <==> d == 0.0
    ensures p.Xyz? ==> p.z == d * 0.001 && focal * p.x == u as real * p.z && focal * p.y == v as real * p.z
  {
    if d == 0.0 then Invalid
    else
      var z := d * 0.001;
      Xyz(u as real * z / focal, v as real * z / focal, z)
  }

  /** Projecting a back-projected position with the same focal length
      lands on the pixel it came from, at the measured depth. */
  lemma BackProjectProjects(d: real, u: nat, v: nat, focal: real)
    requires focal != 0.0 && d != 0.0
    ensures BackProject(d, u, v, focal).Xyz?
    ensures BackProject(d, u, v, focal).z == d * 0.001
    ensures focal * BackProject(d, u, v, focal).x / BackProject(d, u, v, focal).z == u as real
    ensures focal * BackProject(d, u, v, focal).y / BackProject(d, u, v, focal).z == v as real
  {
    var z := d * 0.001;
    Pinhole(u as real, z, focal);
    Pinhole(v as real, z, focal);
  }

  /** Back-projecting a pixel coordinate c to depth z and projecting it
      again with the same focal length gives c. */
  lemma Pinhole(c: real, z: real, focal: real)
    requires z != 0.0 && focal != 0.0
    ensures focal * (c * z / focal) / z == c
  {
    var x := c * z / focal;
    assert focal * x == c * z;
  }

  /** Multiplying by the reciprocal of the focal length is dividing by it. */
  lemma ScaleByReciprocal(a: real, focal: real, scale: real)
    requires focal != 0.0 && scale == 1.0 / focal
    ensures a * scale == a / focal
  {
  }

  /** The fused points of the image, one row of `width` points per row
      of the depth image. */
  function FusedGrid(f: Frame): (g: seq<seq<Point>>)
    requires FrameOk(f)
    ensures |g| == f.height
    ensures forall v :: 0 <= v < f.height ==> |g[v]| == f.width
    ensures forall u, v :: 0 <= v < f.height && 0 <= u < f.width ==> g[v][u] == FusePixel(f, u, v)
    ensures forall v :: 0 <= v < f.height ==> AllOfKind(g[v], XYZRGBAKind)
  {
    seq(f.height, v requires 0 <= v < f.height =>
      seq(f.width, u requires 0 <= u < f.width => FusePixel(f, u, v)))
  }

  /** The rows of `grid`, one after the other. */
  function Flatten<T>(grid: seq<seq<T>>): seq<T>
  {
    if grid == [] then [] else Flatten(grid[..|grid| - 1]) + grid[|grid| - 1]
  }

  lemma {:induction false} FlattenLength<T>(grid: seq<seq<T>>, w: nat)
    requires forall k :: 0 <= k < |grid| ==> |grid[k]| == w
    ensures |Flatten(grid)| == |grid| * w
  {
    if grid != [] {
      FlattenLength(grid[..|grid| - 1], w);
      assert |grid| * w == (|grid| - 1) * w + w;
    }
  }

  /** Row-major order: element u of row v is element v * w + u of the
      flattened grid. */
  lemma {:induction false} FlattenAt<T>(grid: seq<seq<T>>, w: nat, u: nat, v: nat)
    requires forall k :: 0 <= k < |grid| ==> |grid[k]| == w
    requires u < w && v < |grid|
    ensures v * w + u < |Flatten(grid)|
    ensures Flatten(grid)[v * w + u] == grid[v][u]
  {
    var n := |grid| - 1;
    var prev := grid[..n];
    FlattenLength(grid, w);
    FlattenLength(prev, w);
    RowOffsetBelow(u, v, w, |grid|);
    if v < n {
      RowOffsetBelow(u, v, w, n);
      FlattenAt(prev, w, u, v);
      assert (Flatten(prev) + grid[n])[v * w + u] == Flatten(prev)[v * w + u];
    } else {
      assert v * w + u == |Flatten(prev)| + u;
      assert (Flatten(prev) + grid[n])[|Flatten(prev)| + u] == grid[n][u];
    }
  }

  lemma {:induction false} FlattenKind(grid: seq<seq<Point>>, k: PointKind)
    requires forall v :: 0 <= v < |grid| ==> AllOfKind(grid[v], k)
    ensures AllOfKind(Flatten(grid), k)
  {
    if grid != [] {
      var n := |grid| - 1;
      FlattenKind(grid[..n], k);
      assert AllOfKind(grid[n], k);
    }
  }

  /** Pixel (u, v) of a row below `rows` lies inside the first rows * w points. */
  lemma RowOffsetBelow(u: nat, v: nat, w: nat, rows: nat)
    requires u < w && v < rows
    ensures v * w + u < rows * w
  {
    assert (v + 1) * w <= rows * w;
  }

  /** The fused cloud: every pixel's fused point, row by row. */
  function Fused(f: Frame): seq<Point>
    requires FrameOk(f)
  {
    Flatten(FusedGrid(f))
  }

  /** The fused cloud has width * height points. */
  lemma FusedLength(f: Frame)
    requires FrameOk(f)
    ensures |Fused(f)| == f.height * f.width
  {
    var grid := FusedGrid(f);
    FlattenLength(grid, f.width);
    assert Fused(f) == Flatten(grid);
  }

  /** Row-major order: the point at v * width + u is the fused pixel (u, v). */
  lemma FusedAt(f: Frame, u: nat, v: nat)
    requires FrameOk(f) && u < f.width && v < f.height
    ensures v * f.width + u < |Fused(f)|
    ensures Fused(f)[v * f.width + u] == FusePixel(f, u, v)
  {
    var grid := FusedGrid(f);
    FlattenAt(grid, f.width, u, v);
    assert Fused(f) == Flatten(grid);
  }

  /** The body of the fusion loop for pixel (u, v), with `scale` the
      reciprocal of the focal length. */
  method FusePoint(f: Frame, scale: real, u: nat, v: nat) returns (pt: Point)
    requires FrameOk(f) && scale == 1.0 / f.focal && u < f.width && v < f.height
    ensures pt == FusePixel(f, u, v)
  {
    var d := DepthAt(f, u, v);
    var pos := Invalid;
    if d != 0.0 {
      var z := d * 0.001;
      pos := Xyz(u as real * z * scale, v as real * z * scale, z);
    }
    var c := ColorAt(f, u, v);
    pt := PointXYZRGBA(pos, c.r, c.g, c.b, 0);
    ScaledBackProject(d, u, v, f.focal, scale);
  }

  /** `BackProject` computed as the loop does, multiplying by the
      reciprocal of the focal length. */
  lemma ScaledBackProject(d: real, u: nat, v: nat, focal: real, scale: real)
    requires focal != 0.0 && scale == 1.0 / focal
    ensures BackProject(d, u, v, focal)
         == if d == 0.0 then Invalid
            else Xyz(u as real * (d * 0.001) * scale, v as real * (d * 0.001) * scale, d * 0.001)
  {
    var z := d * 0.001;
    ScaleByReciprocal(u as real * z, focal, scale);
    ScaleByReciprocal(v as real * z, focal, scale);
  }

  /** Appends the fused point of every pixel of the depth image, row by
      row, to `dst.points`, then gives `dst` the depth image's width and
      height. `dst.isDense` and the pose are left as they were. */
  method PointCloudDepthAndRGBtoXYZRGBA(depth: PointCloud, image: PointCloud, focal: real, dst: PointCloud)
    requires depth.kind == IntensityKind && image.kind == RGBKind && dst.kind == XYZRGBAKind
    requires depth.Valid() && image.Valid() && dst.Valid()
    requires FrameOk(Frame(depth.points, depth.width, depth.height, image.points, image.width, focal))
    modifies dst
    ensures dst.Valid()
    ensures dst.points == old(dst.points)
              + Fused(Frame(depth.points, depth.width, depth.height, image.points, image.width, focal))
    ensures dst.width == depth.width && dst.height == depth.height
    ensures dst.isDense == old(dst.isDense)
    ensures dst.sensorOrigin == old(dst.sensorOrigin) && dst.sensorOrientation == old(dst.sensorOrientation)
  {
    var f := Frame(depth.points, depth.width, depth.height, image.points, image.width, focal);
    dst.points := AppendFused(f, dst.points);
    dst.width := depth.width;
    dst.height := depth.height;
  }

  /** The outer loop of the fusion: row v from 0, the fused points of
      each row pushed onto the end of `pts`. */
  method AppendFused(f: Frame, start: seq<Point>) returns (pts: seq<Point>)
    requires FrameOk(f) && AllOfKind(start, XYZRGBAKind)
    ensures AllOfKind(pts, XYZRGBAKind)
    ensures pts == start + Fused(f)
  {
    ghost var grid := FusedGrid(f);
    var scale := 1.0 / f.focal;
    pts := start;
    var v := 0;
    while v < f.height
      invariant 0 <= v <= f.height
      invariant pts == start + Flatten(grid[..v])
    {
      pts := AppendRow(f, scale, v, pts);
      assert grid[..v + 1][..v] == grid[..v];
      v := v + 1;
    }
    assert grid[..v] == grid;
    FlattenKind(grid, XYZRGBAKind);
  }

  /** The inner loop of the fusion: pixel u from 0 within row v, each
      fused point pushed onto the end of `pts`. */
  method AppendRow(f: Frame, scale: real, v: nat, start: seq<Point>) returns (pts: seq<Point>)
    requires FrameOk(f) && scale == 1.0 / f.focal && v < f.height
    ensures pts == start + FusedGrid(f)[v]
  {
    ghost var row := FusedGrid(f)[v];
    pts := start;
    var u := 0;
    while u < f.width
      invariant 0 <= u <= f.width
      invariant pts == start + row[..u]
    {
      var pt := FusePoint(f, scale, u, v);
      assert row[..u + 1] == row[..u] + [pt];
      pts := pts + [pt];
      u := u + 1;
    }
    assert row[..u] == row;
  }
}
