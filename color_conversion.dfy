/** The per-point colour conversions: RGB to intensity, RGB(A) to HSV and
    HSV to RGB. Single-precision arithmetic is modelled by `real`
    arithmetic, and the truncating cast to `uint8_t` by `Floor` on a value
    known to lie in [0, 255]. */
module ColorConversion {
  import opened PointTypes

  /** The luma sum 0.299 R + 0.587 G + 0.114 B, taken on the raw 0..255
      channel values. The weights sum to one, so the sum lies between the
      smallest and the largest channel. */
  function Luma(r: Channel, g: Channel, b: Channel): (y: real)
    ensures Min3(r, g, b) as real <= y <= Max3(r, g, b) as real
    ensures r == g == b ==> y == r as real
  {
    0.299 * r as real + 0.587 * g as real + 0.114 * b as real
  }

  /** `PointRGBtoI` for the float `Intensity` output. */
  function PointRGBtoI(c: RGBPoint): (i: IntensityPoint)
    ensures Min3(c.r, c.g, c.b) as real <= i.intensity <= Max3(c.r, c.g, c.b) as real
    ensures c.r == c.g == c.b ==> i.intensity == c.r as real
  {
    Intensity(Luma(c.r, c.g, c.b))
  }

  /** Copies the position and gives the same intensity as `PointRGBtoI`
      gives for the point's colour. */
  function PointXYZRGBtoXYZI(p: XYZRGBPoint): (q: XYZIPoint)
    ensures q.pos == p.pos
    ensures q.intensity == PointRGBtoI(RGB(p.r, p.g, p.b)).intensity
    ensures Min3(p.r, p.g, p.b) as real <= q.intensity <= Max3(p.r, p.g, p.b) as real
  {
    PointXYZI(p.pos, Luma(p.r, p.g, p.b))
  }

  datatype Hsv = Hsv(h: real, s: real, v: real)

  /** The hue, saturation and value of a colour, as both RGB(A) to HSV
      converters compute them: v = max / 255; black and grey return early
      with s = 0 and h = 0; otherwise the hue is taken in the 60-degree
      sector of the largest channel (red winning ties, then green) and
      moved into [0, 360) by adding 360 when negative. */
  function HsvOf(r: Channel, g: Channel, b: Channel): (c: Hsv)
    ensures c.v == Max3(r, g, b) as real / 255.0
    ensures 0.0 <= c.v <= 1.0 && 0.0 <= c.s <= 1.0 && 0.0 <= c.h < 360.0
  {
    var hi := Max3(r, g, b);
    var lo := Min3(r, g, b);
    var v := hi as real / 255.0;
    if hi == 0 then Hsv(0.0, 0.0, v)
    else
      var diff := (hi - lo) as real;
      RatioBounds(diff, hi as real);
      var s := diff / hi as real;
      if lo == hi then Hsv(0.0, s, v)
      else
        RatioBounds((g - b) as real, diff);
        RatioBounds((b - r) as real, diff);
        RatioBounds((r - g) as real, diff);
        var h :=
          if hi == r then 60.0 * ((g - b) as real / diff)
          else if hi == g then 60.0 * (2.0 + (b - r) as real / diff)
          else 60.0 * (4.0 + (r - g) as real / diff);
        Hsv(if h < 0.0 then h + 360.0 else h, s, v)
  }

  /** What x / d is for d > 0, as far as the proofs here need it. */
  lemma RatioBounds(x: real, d: real)
    requires d > 0.0 && -d <= x <= d
    ensures -1.0 <= x / d <= 1.0
    ensures d * (x / d) == x
    ensures (x == 0.0) == (x / d == 0.0) && (x < 0.0) == (x / d < 0.0)
    ensures (x == d) == (x / d == 1.0) && (x < d) == (x / d < 1.0)
    ensures (x == -d) == (x / d == -1.0)
  {
  }

  /** Black (max = 0) and grey (min = max) give s = 0 and h = 0, and they
      are the only colours with s = 0. */
  lemma HsvOfNeutral(r: Channel, g: Channel, b: Channel)
    ensures Max3(r, g, b) == 0 ==> HsvOf(r, g, b).s == 0.0 && HsvOf(r, g, b).h == 0.0
    ensures HsvOf(r, g, b).s == 0.0 <==> Min3(r, g, b) == Max3(r, g, b)
    ensures HsvOf(r, g, b).s == 0.0 ==> HsvOf(r, g, b).h == 0.0
  {
    var hi := Max3(r, g, b);
    var lo := Min3(r, g, b);
    if hi != 0 {
      RatioBounds((hi - lo) as real, hi as real);
    }
  }

  /** The hue lies in the sector of the largest channel: [0, 60] or
      [300, 360) for red, [60, 180] for green and [180, 300] for blue. */
  lemma HsvOfHueSector(r: Channel, g: Channel, b: Channel)
    ensures r == Max3(r, g, b) ==> HsvOf(r, g, b).h <= 60.0 || 300.0 <= HsvOf(r, g, b).h
    ensures r != Max3(r, g, b) && g == Max3(r, g, b) ==> 60.0 <= HsvOf(r, g, b).h <= 180.0
    ensures r != Max3(r, g, b) && g != Max3(r, g, b) ==> 180.0 <= HsvOf(r, g, b).h <= 300.0
  {
    var hi := Max3(r, g, b);
    var lo := Min3(r, g, b);
    if hi != 0 && lo != hi {
      var diff := (hi - lo) as real;
      RatioBounds((g - b) as real, diff);
      RatioBounds((b - r) as real, diff);
      RatioBounds((r - g) as real, diff);
    }
  }

  function PointXYZRGBtoXYZHSV(p: XYZRGBPoint): (q: XYZHSVPoint)
    ensures q.pos == p.pos
    ensures q.v == Max3(p.r, p.g, p.b) as real / 255.0
    ensures 0.0 <= q.s <= 1.0 && 0.0 <= q.h < 360.0
  {
    var c := HsvOf(p.r, p.g, p.b);
    PointXYZHSV(p.pos, c.h, c.s, c.v)
  }

  /** The alpha channel takes no part in the conversion. */
  function PointXYZRGBAtoXYZHSV(p: XYZRGBAPoint): (q: XYZHSVPoint)
    ensures q.pos == p.pos
    ensures q.v == Max3(p.r, p.g, p.b) as real / 255.0
    ensures 0.0 <= q.s <= 1.0 && 0.0 <= q.h < 360.0
  {
    var c := HsvOf(p.r, p.g, p.b);
    PointXYZHSV(p.pos, c.h, c.s, c.v)
  }

  lemma AlphaIgnored(pos: Position, r: Channel, g: Channel, b: Channel, a: Channel)
    ensures PointXYZRGBAtoXYZHSV(PointXYZRGBA(pos, r, g, b, a))
         == PointXYZRGBtoXYZHSV(PointXYZRGB(pos, r, g, b))
  {
  }

  /** `static_cast<uint8_t>` of a value already in [0, 255]: truncation. */
  function ToChannel(x: real): (c: Channel)
    requires 0.0 <= x <= 255.0
    ensures c as real <= x < c as real + 1.0
  {
    x.Floor
  }

  /** The switch index `floor(h / 60)`: the sector of width 60 degrees
      that holds h. */
  function Sector(h: real): (i: int)
    ensures 60.0 * i as real <= h < 60.0 * i as real + 60.0
  {
    (h / 60.0).Floor
  }

  datatype RealRgb = RealRgb(r: real, g: real, b: real)

  /** v (1 - s w), the shade the switch uses for q (w = f) and t
      (w = 1 - f); it lies between p = v (1 - s) and v. */
  function Shade(v: real, s: real, w: real): (x: real)
    requires 0.0 <= s <= 1.0 && 0.0 <= w <= 1.0 && 0.0 <= v
    ensures 0.0 <= v * (1.0 - s) <= x <= v
  {
    FractionBounds(s, w, v);
    v * (1.0 - s * w)
  }

  lemma FractionBounds(s: real, w: real, v: real)
    requires 0.0 <= s <= 1.0 && 0.0 <= w <= 1.0 && 0.0 <= v
    ensures 0.0 <= v * (1.0 - s) <= v * (1.0 - s * w) <= v
  {
    assert 0.0 <= s * w <= s;
    assert v * (s * w) <= v * s;
  }

  /** The unscaled red, green and blue of a colour with saturation s > 0,
      chosen by the six-way switch on the sector (any sector other than
      0 to 4 takes the default branch). Every channel lies between
      p = v (1 - s) and v, and both bounds are taken. */
  function SectorColor(h: real, s: real, v: real): (c: RealRgb)
    requires 0.0 <= s <= 1.0 && 0.0 <= v <= 1.0
    ensures 0.0 <= v * (1.0 - s)
    ensures v * (1.0 - s) <= c.r <= v && v * (1.0 - s) <= c.g <= v && v * (1.0 - s) <= c.b <= v
    ensures c.r == v || c.g == v || c.b == v
    ensures c.r == v * (1.0 - s) || c.g == v * (1.0 - s) || c.b == v * (1.0 - s)
    ensures (Sector(h) == 0 || !(1 <= Sector(h) <= 4)) ==> c.r == v
    ensures (Sector(h) == 1 || Sector(h) == 2) ==> c.g == v
    ensures (Sector(h) == 3 || Sector(h) == 4) ==> c.b == v
  {
    var i := Sector(h);
    var f := h / 60.0 - i as real;
    Switch(i, v, v * (1.0 - s), Shade(v, s, f), Shade(v, s, 1.0 - f))
  }

  /** The six-way switch on the sector index, over v, p, q and t. */
  function Switch(i: int, v: real, p: real, q: real, t: real): (c: RealRgb)
    ensures (i == 0 || !(1 <= i <= 4)) ==> c.r == v
    ensures (i == 1 || i == 2) ==> c.g == v
    ensures (i == 3 || i == 4) ==> c.b == v
  {
    match i
    case 0 => RealRgb(v, t, p)
    case 1 => RealRgb(q, v, p)
    case 2 => RealRgb(p, v, t)
    case 3 => RealRgb(p, q, v)
    case 4 => RealRgb(t, p, v)
    case _ => RealRgb(v, p, q)
  }

  /** The switch once the sector i and the fraction f of h / 60 are known. */
  lemma SwitchAt(h: real, s: real, v: real, i: int, f: real)
    requires 0.0 <= s <= 1.0 && 0.0 <= v <= 1.0
    requires 0.0 <= f < 1.0 && h / 60.0 == i as real + f
    ensures Sector(h) == i
    ensures SectorColor(h, s, v) == Switch(i, v, v * (1.0 - s), Shade(v, s, f), Shade(v, s, 1.0 - f))
  {
  }

  /** `SwitchAt` with p, q and t given by value. */
  lemma SwitchWith(h: real, s: real, v: real, i: int, f: real, p: real, q: real, t: real)
    requires 0.0 <= s <= 1.0 && 0.0 <= v <= 1.0
    requires 0.0 <= f < 1.0 && h / 60.0 == i as real + f
    requires p == v * (1.0 - s) && q == Shade(v, s, f) && t == Shade(v, s, 1.0 - f)
    ensures SectorColor(h, s, v) == Switch(i, v, p, q, t)
  {
    SwitchAt(h, s, v, i, f);
  }

  /** Truncation keeps the order of the channels, so the largest of three
      shades becomes the largest channel. */
  lemma TruncateMax(x: real, y: real, z: real, hi: real)
    requires 0.0 <= x <= hi && 0.0 <= y <= hi && 0.0 <= z <= hi && hi <= 1.0
    requires x == hi || y == hi || z == hi
    ensures Max3(ToChannel(255.0 * x), ToChannel(255.0 * y), ToChannel(255.0 * z)) == ToChannel(255.0 * hi)
  {
  }

  function PointXYZHSVtoXYZRGB(p: XYZHSVPoint): (q: XYZRGBPoint)
    requires 0.0 <= p.s <= 1.0 && 0.0 <= p.v <= 1.0
    ensures q.pos == p.pos
    ensures p.s == 0.0 ==> q.r == q.g == q.b == ToChannel(255.0 * p.v)
  {
    if p.s == 0.0 then
      var c := ToChannel(255.0 * p.v);
      PointXYZRGB(p.pos, c, c, c)
    else
      var c := SectorColor(p.h, p.s, p.v);
      PointXYZRGB(p.pos, ToChannel(255.0 * c.r), ToChannel(255.0 * c.g), ToChannel(255.0 * c.b))
  }

  /** The largest channel is trunc(255 v): the converse of v = max / 255. */
  lemma HsvToRgbMaxChannel(p: XYZHSVPoint)
    requires 0.0 <= p.s <= 1.0 && 0.0 <= p.v <= 1.0
    ensures var q := PointXYZHSVtoXYZRGB(p); Max3(q.r, q.g, q.b) == ToChannel(255.0 * p.v)
  {
    if p.s != 0.0 {
      var c := SectorColor(p.h, p.s, p.v);
      TruncateMax(c.r, c.g, c.b, p.v);
    }
  }

  /** The channel that carries trunc(255 v) is red in sectors 0 and 5
      (and the default branch), green in sectors 1 and 2, blue in 3 and 4. */
  lemma HsvToRgbValueChannel(p: XYZHSVPoint)
    requires 0.0 <= p.s <= 1.0 && 0.0 <= p.v <= 1.0 && p.s != 0.0
    ensures (Sector(p.h) == 0 || !(1 <= Sector(p.h) <= 4)) ==> PointXYZHSVtoXYZRGB(p).r == ToChannel(255.0 * p.v)
    ensures (Sector(p.h) == 1 || Sector(p.h) == 2) ==> PointXYZHSVtoXYZRGB(p).g == ToChannel(255.0 * p.v)
    ensures (Sector(p.h) == 3 || Sector(p.h) == 4) ==> PointXYZHSVtoXYZRGB(p).b == ToChannel(255.0 * p.v)
  {
  }

  /** For a colour whose largest channel hi exceeds its smallest lo, with
      v = hi / 255 and s = (hi - lo) / hi: v (1 - s w) = (hi - (hi - lo) w) / 255,
      and in particular p = v (1 - s) = lo / 255. */
  lemma ShadeOfColor(hi: int, lo: int, w: real)
    requires 0 <= lo < hi <= 255 && 0.0 <= w <= 1.0
    ensures 0.0 <= (hi - lo) as real / hi as real <= 1.0
    ensures Shade(hi as real / 255.0, (hi - lo) as real / hi as real, w)
         == (hi as real - (hi - lo) as real * w) / 255.0
    ensures (hi as real / 255.0) * (1.0 - (hi - lo) as real / hi as real) == lo as real / 255.0
  {
    var H, D := hi as real, (hi - lo) as real;
    RatioBounds(D, H);
    var s := D / H;
    assert H * s == D;
    assert (H / 255.0) * s == D / 255.0;
    assert (H / 255.0) * (1.0 - s * w) == H / 255.0 - ((H / 255.0) * s) * w;
    assert (H / 255.0) * (1.0 - s) == H / 255.0 - (H / 255.0) * s;
  }

  /** A channel that rises from lo by (hi - lo) f is the shade t = v (1 - s (1 - f)). */
  lemma RisingShade(hi: int, lo: int, x: int, f: real)
    requires 0 <= lo <= x <= hi <= 255 && lo < hi && 0.0 <= f <= 1.0
    requires (hi - lo) as real * f == (x - lo) as real
    ensures 0.0 <= (hi - lo) as real / hi as real <= 1.0
    ensures Shade(hi as real / 255.0, (hi - lo) as real / hi as real, 1.0 - f) == x as real / 255.0
  {
    ShadeOfColor(hi, lo, 1.0 - f);
    assert (hi - lo) as real * (1.0 - f) == (hi - x) as real;
  }

  /** A channel that falls from hi by (hi - lo) f is the shade q = v (1 - s f). */
  lemma FallingShade(hi: int, lo: int, x: int, f: real)
    requires 0 <= lo <= x <= hi <= 255 && lo < hi && 0.0 <= f <= 1.0
    requires (hi - lo) as real * f == (hi - x) as real
    ensures 0.0 <= (hi - lo) as real / hi as real <= 1.0
    ensures Shade(hi as real / 255.0, (hi - lo) as real / hi as real, f) == x as real / 255.0
  {
    ShadeOfColor(hi, lo, f);
  }

  /** HsvOf of a colour whose largest channel is red. */
  lemma HsvOfRed(r: Channel, g: Channel, b: Channel, lo: Channel)
    requires lo == Min3(r, g, b) < r == Max3(r, g, b)
    ensures var D := (r - lo) as real; var k := (g - b) as real / D;
      HsvOf(r, g, b) == Hsv(if g < b then 60.0 * k + 360.0 else 60.0 * k, D / r as real, r as real / 255.0)
  {
    RatioBounds((g - b) as real, (r - lo) as real);
  }

  /** HsvOf of a colour whose largest channel is green and not red. */
  lemma HsvOfGreen(r: Channel, g: Channel, b: Channel, lo: Channel)
    requires lo == Min3(r, g, b) < g == Max3(r, g, b) && r != g
    ensures var D := (g - lo) as real;
      HsvOf(r, g, b) == Hsv(60.0 * (2.0 + (b - r) as real / D), D / g as real, g as real / 255.0)
  {
    RatioBounds((b - r) as real, (g - lo) as real);
  }

  /** HsvOf of a colour whose largest channel is blue alone. */
  lemma HsvOfBlue(r: Channel, g: Channel, b: Channel, lo: Channel)
    requires lo == Min3(r, g, b) < b == Max3(r, g, b) && r != b && g != b
    ensures var D := (b - lo) as real;
      HsvOf(r, g, b) == Hsv(60.0 * (4.0 + (r - g) as real / D), D / b as real, b as real / 255.0)
  {
    RatioBounds((r - g) as real, (b - lo) as real);
  }

  /** In a sector where the middle channel x rises from lo towards hi
      (sectors 0, 2 and 4, fraction f = k), t is x / 255 and p is lo / 255. */
  lemma RisingSector(i: int, h: real, hi: int, lo: int, x: int, k: real)
    requires 0 <= lo <= x < hi <= 255 && 0.0 <= k < 1.0
    requires h / 60.0 == i as real + k && (hi - lo) as real * k == (x - lo) as real
    ensures 0.0 <= (hi - lo) as real / hi as real <= 1.0
    ensures SectorColor(h, (hi - lo) as real / hi as real, hi as real / 255.0)
         == Switch(i, hi as real / 255.0, lo as real / 255.0,
                   Shade(hi as real / 255.0, (hi - lo) as real / hi as real, k), x as real / 255.0)
  {
    ShadeOfColor(hi, lo, 1.0);
    RisingShade(hi, lo, x, k);
    var s, v := (hi - lo) as real / hi as real, hi as real / 255.0;
    SwitchWith(h, s, v, i, k, lo as real / 255.0, Shade(v, s, k), x as real / 255.0);
  }

  /** In a sector where the middle channel x falls from hi by (hi - lo) f
      (sectors 1, 3 and 5), q is x / 255 and p is lo / 255. */
  lemma FallingSector(i: int, h: real, hi: int, lo: int, x: int, f: real)
    requires 0 <= lo <= x <= hi <= 255 && lo < hi && 0.0 <= f < 1.0
    requires h / 60.0 == i as real + f && (hi - lo) as real * f == (hi - x) as real
    ensures 0.0 <= (hi - lo) as real / hi as real <= 1.0
    ensures SectorColor(h, (hi - lo) as real / hi as real, hi as real / 255.0)
         == Switch(i, hi as real / 255.0, lo as real / 255.0, x as real / 255.0,
                   Shade(hi as real / 255.0, (hi - lo) as real / hi as real, 1.0 - f))
  {
    ShadeOfColor(hi, lo, 1.0);
    FallingShade(hi, lo, x, f);
    var s, v := (hi - lo) as real / hi as real, hi as real / 255.0;
    SwitchWith(h, s, v, i, f, lo as real / 255.0, x as real / 255.0, Shade(v, s, 1.0 - f));
  }

  /** The HSV to RGB switch, applied to the hue, saturation and value `c`,
      gives back the channels r, g and b divided by 255. */
  ghost predicate Restores(c: Hsv, r: Channel, g: Channel, b: Channel)
  {
    0.0 <= c.s <= 1.0 && 0.0 <= c.v <= 1.0 &&
    SectorColor(c.h, c.s, c.v) == RealRgb(r as real / 255.0, g as real / 255.0, b as real / 255.0)
  }

  // Red largest, green rising to it: sector 0, (v, t, p).
  lemma RedRisingRestores(r: Channel, g: Channel, b: Channel, c: Hsv)
    requires b <= g < r && b < r
    requires c == Hsv(60.0 * ((g - b) as real / (r - b) as real), (r - b) as real / r as real, r as real / 255.0)
    ensures Restores(c, r, g, b)
  {
    var D := (r - b) as real;
    RatioBounds((g - b) as real, D);
    var k := (g - b) as real / D;
    RisingSector(0, 60.0 * k, r, b, g, k);
  }

  // Red and green both largest: hue 60, sector 1 with f = 0, (q, v, p).
  lemma RedGreenRestores(r: Channel, g: Channel, b: Channel, c: Hsv)
    requires b < g == r
    requires c == Hsv(60.0 * ((g - b) as real / (r - b) as real), (r - b) as real / r as real, r as real / 255.0)
    ensures Restores(c, r, g, b)
  {
    var D := (r - b) as real;
    RatioBounds((g - b) as real, D);
    FallingSector(1, 60.0, r, b, r, 0.0);
  }

  // Red largest, blue above green: the hue wraps into [300, 360), the
  // default branch, (v, p, q).
  lemma RedFallingRestores(r: Channel, g: Channel, b: Channel, c: Hsv)
    requires g < b <= r
    requires c == Hsv(60.0 * ((g - b) as real / (r - g) as real) + 360.0, (r - g) as real / r as real, r as real / 255.0)
    ensures Restores(c, r, g, b)
  {
    var D := (r - g) as real;
    RatioBounds((g - b) as real, D);
    var k := (g - b) as real / D;
    FallingSector(5, 60.0 * k + 360.0, r, g, b, k + 1.0);
  }

  // Green largest, blue rising to it: sector 2, (p, v, t).
  lemma GreenRisingRestores(r: Channel, g: Channel, b: Channel, c: Hsv)
    requires r <= b < g && r < g
    requires c == Hsv(60.0 * (2.0 + (b - r) as real / (g - r) as real), (g - r) as real / g as real, g as real / 255.0)
    ensures Restores(c, r, g, b)
  {
    var D := (g - r) as real;
    RatioBounds((b - r) as real, D);
    var k := (b - r) as real / D;
    RisingSector(2, 60.0 * (2.0 + k), g, r, b, k);
  }

  // Green and blue both largest: hue 180, sector 3 with f = 0, (p, q, v).
  lemma GreenBlueRestores(r: Channel, g: Channel, b: Channel, c: Hsv)
    requires r < g == b
    requires c == Hsv(60.0 * (2.0 + (b - r) as real / (g - r) as real), (g - r) as real / g as real, g as real / 255.0)
    ensures Restores(c, r, g, b)
  {
    var D := (g - r) as real;
    RatioBounds((b - r) as real, D);
    FallingSector(3, 180.0, g, r, g, 0.0);
  }

  // Green largest, red above blue: sector 1, (q, v, p).
  lemma GreenFallingRestores(r: Channel, g: Channel, b: Channel, c: Hsv)
    requires b < r < g
    requires c == Hsv(60.0 * (2.0 + (b - r) as real / (g - b) as real), (g - b) as real / g as real, g as real / 255.0)
    ensures Restores(c, r, g, b)
  {
    var D := (g - b) as real;
    RatioBounds((b - r) as real, D);
    var k := (b - r) as real / D;
    FallingSector(1, 60.0 * (2.0 + k), g, b, r, k + 1.0);
  }

  // Blue largest, red rising to it: sector 4, (t, p, v).
  lemma BlueRisingRestores(r: Channel, g: Channel, b: Channel, c: Hsv)
    requires g <= r < b
    requires c == Hsv(60.0 * (4.0 + (r - g) as real / (b - g) as real), (b - g) as real / b as real, b as real / 255.0)
    ensures Restores(c, r, g, b)
  {
    var D := (b - g) as real;
    RatioBounds((r - g) as real, D);
    var k := (r - g) as real / D;
    RisingSector(4, 60.0 * (4.0 + k), b, g, r, k);
  }

  // Blue largest, green above red: sector 3, (p, q, v).
  lemma BlueFallingRestores(r: Channel, g: Channel, b: Channel, c: Hsv)
    requires r < g < b
    requires c == Hsv(60.0 * (4.0 + (r - g) as real / (b - r) as real), (b - r) as real / b as real, b as real / 255.0)
    ensures Restores(c, r, g, b)
  {
    var D := (b - r) as real;
    RatioBounds((r - g) as real, D);
    var k := (r - g) as real / D;
    FallingSector(3, 60.0 * (4.0 + k), b, r, g, k + 1.0);
  }

  /** A colour whose largest channel is red is restored. */
  lemma RedRestores(r: Channel, g: Channel, b: Channel)
    requires Min3(r, g, b) < r == Max3(r, g, b)
    ensures Restores(HsvOf(r, g, b), r, g, b)
  {
    if g == r {
      HsvOfRed(r, g, b, b);
      RedGreenRestores(r, g, b, HsvOf(r, g, b));
    } else if b <= g {
      HsvOfRed(r, g, b, b);
      RedRisingRestores(r, g, b, HsvOf(r, g, b));
    } else {
      HsvOfRed(r, g, b, g);
      RedFallingRestores(r, g, b, HsvOf(r, g, b));
    }
  }

  /** A colour whose largest channel is green and not red is restored. */
  lemma GreenRestores(r: Channel, g: Channel, b: Channel)
    requires Min3(r, g, b) < g == Max3(r, g, b) && r != g
    ensures Restores(HsvOf(r, g, b), r, g, b)
  {
    if b == g {
      HsvOfGreen(r, g, b, r);
      GreenBlueRestores(r, g, b, HsvOf(r, g, b));
    } else if r <= b {
      HsvOfGreen(r, g, b, r);
      GreenRisingRestores(r, g, b, HsvOf(r, g, b));
    } else {
      HsvOfGreen(r, g, b, b);
      GreenFallingRestores(r, g, b, HsvOf(r, g, b));
    }
  }

  /** A colour whose largest channel is blue alone is restored. */
  lemma BlueRestores(r: Channel, g: Channel, b: Channel)
    requires Min3(r, g, b) < b == Max3(r, g, b) && r != b && g != b
    ensures Restores(HsvOf(r, g, b), r, g, b)
  {
    if g <= r {
      HsvOfBlue(r, g, b, g);
      BlueRisingRestores(r, g, b, HsvOf(r, g, b));
    } else {
      HsvOfBlue(r, g, b, r);
      BlueFallingRestores(r, g, b, HsvOf(r, g, b));
    }
  }

  /** Every colour that is neither black nor grey is restored by the switch
      from its own hue, saturation and value. */
  lemma SwitchRestoresColor(r: Channel, g: Channel, b: Channel)
    requires Min3(r, g, b) < Max3(r, g, b)
    ensures Restores(HsvOf(r, g, b), r, g, b)
  {
    if r == Max3(r, g, b) {
      RedRestores(r, g, b);
    } else if g == Max3(r, g, b) {
      GreenRestores(r, g, b);
    } else {
      BlueRestores(r, g, b);
    }
  }

  /** Converting an XYZRGB point to XYZHSV and back gives the same point:
      the HSV to RGB conversion inverts the RGB to HSV conversion exactly
      (in real arithmetic) on every colour, black and grey included. */
  lemma RgbHsvRoundTrip(p: XYZRGBPoint)
    ensures PointXYZHSVtoXYZRGB(PointXYZRGBtoXYZHSV(p)) == p
  {
    var c := HsvOf(p.r, p.g, p.b);
    HsvOfNeutral(p.r, p.g, p.b);
    if Min3(p.r, p.g, p.b) < Max3(p.r, p.g, p.b) {
      SwitchRestoresColor(p.r, p.g, p.b);
      var rgb := SectorColor(c.h, c.s, c.v);
      assert ToChannel(255.0 * rgb.r) == p.r;
      assert ToChannel(255.0 * rgb.g) == p.g;
      assert ToChannel(255.0 * rgb.b) == p.b;
    } else {
      assert ToChannel(255.0 * c.v) == p.r;
    }
  }
}
