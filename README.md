# Point colour conversions of the Point Cloud Library

This project models PCL's point colour conversions
(`common/include/pcl/point_types_conversion.h`) and proves properties of the model:

- **Per-point converters** (`ColorConversion`). These cover:
  - RGB to float intensity (the luma sum `0.299 R + 0.587 G + 0.114 B`);
  - XYZRGB and XYZRGBA to XYZHSV: the largest and smallest channel, the black and grey early returns, the hue sector of the largest channel, and the wrap into [0, 360);
  - XYZHSV to XYZRGB: the six-way switch on `floor(h / 60)` over `p`, `q` and `t`, and the truncating cast to an 8-bit channel.

  Colour arithmetic is done over `real`. Channels are integers in 0..255.
- **The `ConvertPointColor` overload set** (`Dispatch`). It is modelled as one function over a `Point` datatype, whose constructors are the point structs, and a target `PointKind`. A kind pair without an overload is a compile-time failure in C++, so here it is a precondition.
- **The batch operations on clouds** (`Clouds`). `PointCloud<T>` is a class with these fields:
  - a constant point kind;
  - a `seq` of points;
  - width and height;
  - `is_dense`;
  - the sensor origin and orientation.

  `ConvertPointCloudColor` copies the metadata, resizes the points and converts them index by index in a loop. `PointCloudDepthAndRGBtoXYZRGBA` fuses a depth image and a colour image, in two nested row-major loops, into XYZRGBA points appended to the output cloud.

The main results:

- **Round trip.** In real arithmetic, converting any XYZRGB point to XYZHSV and back gives the same point, black and grey included (`RgbHsvRoundTrip`, `ConvertHsvRoundTrip`). The proof goes through the exact sector, fraction and shades that each ordering of the three channels produces.
- **Ranges and branches.** The HSV components lie in their documented ranges, and the hue falls in the sector of the largest channel. The black and grey cases are exactly the colours with `s = 0`.
- **HSV to RGB channels.** The largest channel of an HSV to RGB result is `trunc(255 v)`. Which channel carries it depends on the sector.
- **Cloud conversion.** `ConvertPointCloudColor` leaves the output with the input's metadata and `width * height` points. It converts every input point at its own index, and keeps the resized old contents elsewhere.
- **Fusion.** The fusion appends exactly the row-major sequence of fused pixels: the point for pixel (u, v) sits at offset `v * width + u`. It has the pixel's colour and alpha 0. Its position is invalid exactly when the depth is 0, and otherwise it projects back onto (u, v).

Some behaviour depends on `pcl/point_cloud.h` and `pcl/point_types.h`, which are not part of this model. These are assumed:

- `cloud.at(u, v)` reads `points[v * width + u]`;
- the pose types are opaque values that are only copied;
- a point's invalid (NaN) position is the `Invalid` variant of `Position`.

## Model

| member | source | states |
|---|---|---|
| ColorConversion.Luma | common/include/pcl/point_types_conversion.h:65 | the luma sum lies between the smallest and largest channel; a grey colour k gives exactly k |
| ColorConversion.PointRGBtoI | common/include/pcl/point_types_conversion.h:72-77 | the float intensity lies between the smallest and largest channel and equals the channel value on grey |
| ColorConversion.PointXYZRGBtoXYZI | common/include/pcl/point_types_conversion.h:60-66 | x, y, z are copied; the intensity is the one `PointRGBtoI` gives for the same colour, between min and max channel |
| ColorConversion.HsvOf | common/include/pcl/point_types_conversion.h:111-137 | v = max / 255; v and s lie in [0, 1] and h in [0, 360) for every colour |
| ColorConversion.HsvOfNeutral | common/include/pcl/point_types_conversion.h:117-130 | black gives s = 0 and h = 0; s = 0 exactly when min = max, and then h = 0 |
| ColorConversion.HsvOfHueSector | common/include/pcl/point_types_conversion.h:133-137 | the hue lies in [0, 60] or [300, 360) when red is largest, [60, 180] when green is, [180, 300] when blue is |
| ColorConversion.PointXYZRGBtoXYZHSV | common/include/pcl/point_types_conversion.h:107-138 | x, y, z are copied; v = max / 255, s in [0, 1], h in [0, 360) |
| ColorConversion.PointXYZRGBAtoXYZHSV | common/include/pcl/point_types_conversion.h:145-176 | x, y, z are copied; v = max / 255, s in [0, 1], h in [0, 360) |
| ColorConversion.AlphaIgnored | common/include/pcl/point_types_conversion.h:145-176 | the XYZRGBA variant gives the same XYZHSV point as the XYZRGB variant for the same position and colour, whatever the alpha |
| ColorConversion.Sector | common/include/pcl/point_types_conversion.h:192-193 | the switch index i = floor(h / 60) is the 60-degree sector holding h: 60 i <= h < 60 i + 60 |
| ColorConversion.ToChannel | common/include/pcl/point_types_conversion.h:189 | the cast of a value in [0, 255] to `uint8_t` is the channel c with c <= x < c + 1 |
| ColorConversion.Shade | common/include/pcl/point_types_conversion.h:195-197 | q and t lie between p = v (1 - s) and v, and p is non-negative |
| ColorConversion.Switch | common/include/pcl/point_types_conversion.h:199-243 | v lands in red for case 0 and the default, in green for cases 1 and 2, in blue for cases 3 and 4 |
| ColorConversion.SectorColor | common/include/pcl/point_types_conversion.h:192-243 | every unscaled channel lies in [p, v]; some channel equals v and some equals p; the channel holding v follows the sector |
| ColorConversion.PointXYZHSVtoXYZRGB | common/include/pcl/point_types_conversion.h:182-244 | x, y, z are copied; s = 0 gives r = g = b = trunc(255 v) |
| ColorConversion.HsvToRgbMaxChannel | common/include/pcl/point_types_conversion.h:187-243 | the largest output channel is trunc(255 v) for any s, v in [0, 1] |
| ColorConversion.HsvToRgbValueChannel | common/include/pcl/point_types_conversion.h:199-243 | the channel equal to trunc(255 v) is r in sectors 0 and 5 (default), g in 1 and 2, b in 3 and 4 |
| ColorConversion.SwitchRestoresColor | common/include/pcl/point_types_conversion.h:192-243 | for every colour with min < max, the switch applied to its own h, s, v gives back r / 255, g / 255, b / 255 exactly |
| ColorConversion.RgbHsvRoundTrip | common/include/pcl/point_types_conversion.h:107-244 | in real arithmetic, converting an XYZRGB point to XYZHSV and back gives the original point |
| Dispatch.SupportedPair | common/include/pcl/point_types_conversion.h:261-344 | the pairs with an overload (a same-type copy and the five conversions other than the 8u and 32u ones); every supported pair keeps x, y, z exactly when the input has them, and only a plain copy yields RGB or XYZRGBA |
| Dispatch.ConvertPointColor | common/include/pcl/point_types_conversion.h:250-344 | the output has the target type; same type is a plain copy; x, y, z are kept when the target has them; intensity and HSV outputs are in range |
| Dispatch.ConvertHsvRoundTrip | common/include/pcl/point_types_conversion.h:316-344 | an XYZRGB point converted to XYZHSV is convertible back, and in real arithmetic converting back restores it |
| Dispatch.ConvertIgnoresAlpha | common/include/pcl/point_types_conversion.h:316-333 | the XYZRGBA and XYZRGB overloads to XYZHSV agree whatever the alpha |
| Clouds.Resize | common/include/pcl/point_types_conversion.h:359 | `resize(n)` yields n elements, keeps the old prefix and fills the rest with the default point |
| Clouds.ResizeKeepsKind | common/include/pcl/point_types_conversion.h:359 | resizing with a default point of the cloud's type keeps every point of that type |
| Clouds.ConvertPointCloudColor | common/include/pcl/point_types_conversion.h:350-364 | the point types must form a supported pair; width, height, pose and density are copied; there are width * height points; point i is the conversion of input point i; the rest are the resized old points |
| Clouds.DepthAt | common/include/pcl/point_types_conversion.h:503 | `depth.at(u, v).intensity` is the intensity of the depth point at index v * width + u, which lies inside the depth cloud |
| Clouds.ColorAt | common/include/pcl/point_types_conversion.h:515-517 | the image pixel (u, v) is an RGB point |
| Clouds.FusePixel | common/include/pcl/point_types_conversion.h:500-518 | the fused point is XYZRGBA with alpha 0 and the pixel's colour; its position is invalid exactly when the depth is 0 |
| Clouds.BackProject | common/include/pcl/point_types_conversion.h:505-514 | the position is invalid exactly when the depth is 0; otherwise z = depth * 0.001, focal * x = u * z and focal * y = v * z |
| Clouds.BackProjectProjects | common/include/pcl/point_types_conversion.h:505-514 | for non-zero depth, z = depth * 0.001 and projecting x and y with the focal length gives back u and v |
| Clouds.ScaledBackProject | common/include/pcl/point_types_conversion.h:511-513 | multiplying by the precomputed 1 / focal gives the same position as dividing by focal |
| Clouds.FusePoint | common/include/pcl/point_types_conversion.h:500-518 | the loop body builds exactly the fused point of pixel (u, v) |
| Clouds.FusedGrid | common/include/pcl/point_types_conversion.h:497-521 | there are height rows of width fused points; entry [v][u] is the fused pixel (u, v) |
| Clouds.FusedLength | common/include/pcl/point_types_conversion.h:497-521 | the fused cloud has width * height points |
| Clouds.FusedAt | common/include/pcl/point_types_conversion.h:497-521 | the fused point at offset v * width + u is the fused pixel (u, v) |
| Clouds.AppendRow | common/include/pcl/point_types_conversion.h:499-520 | the inner loop appends row v of fused points, in order, to what was there |
| Clouds.AppendFused | common/include/pcl/point_types_conversion.h:497-521 | the nested loops append all fused points, row by row, after the existing points, all of type XYZRGBA |
| Clouds.PointCloudDepthAndRGBtoXYZRGBA | common/include/pcl/point_types_conversion.h:486-524 | the old points are kept and followed by the fused cloud; width and height become the depth image's; density and pose are unchanged |

## Left out

- The `Intensity8u` and `Intensity32u` overloads of `PointRGBtoI`, and their `ConvertPointColor` specialisations (lines 83-101 and 294-310), are not modelled. They scale only the red term by the type maximum, so the float-to-integer cast overflows for almost every non-zero red. That is undefined behaviour, and there is no contract to state.
- The deprecated `PointCloudRGBtoI`, `PointCloudXYZRGBtoXYZHSV`, `PointCloudXYZRGBAtoXYZHSV` and `PointCloudXYZRGBtoXYZI` wrappers (lines 370-478) are not modelled. They repeat the generic batch conversion, and one of them calls a `ConvertPoint` that this header does not define.
- IEEE single-precision rounding is not modelled: all colour and position arithmetic is over `real`. A NaN position is the `Invalid` variant, so NaN comparisons and propagation are not modelled.
- ColorConversion.RgbHsvRoundTrip (and Dispatch.ConvertHsvRoundTrip) holds in real arithmetic only. The C++ code computes in single precision and truncates to `uint8_t`, so where 255 times a shade is exactly an integer, the float value may fall just below it. The program can then return a channel one unit low: for example (0, 3, 5) can come back as (0, 2, 5).
- The `static_cast<int>` of `floorf(h / 60)` overflowing for a huge hue is not modelled, because `Sector` is an unbounded `int`.
- Dispatch.ConvertPointColor: a kind pair without an overload is a compile-time error in C++. Here it is a precondition (`SupportedPair`), and the Boost static assertion itself is not modelled.
- Dispatch.ConvertPointColor and ColorConversion.PointXYZHSVtoXYZRGB require s and v in [0, 1], the documented HSV ranges. Outside them the C++ cast to `uint8_t` is out of range, which is undefined behaviour. Any hue is accepted; a hue of 360 or more, or below 0, takes the default branch as in the source.
- ColorConversion.HsvToRgbMaxChannel states only the largest channel. That the smallest channel is trunc(255 p) is not proved.
- Fields of the PCL point structs that these converters never write (the padding, the alpha of `PointXYZRGB`) are not modelled.
- Clouds.ConvertPointCloudColor requires `in` and `out` to be different clouds. C++ accepts the same cloud as both only when the two point types agree, and then the call just resizes the cloud in place, converting each point to itself. The model does not cover that aliased call. It also requires `|in.points| <= width * height`, because otherwise the loop writes past the resized vector. The value of a default-constructed output point is the parameter `blank`.
- Clouds.PointCloudDepthAndRGBtoXYZRGBA requires a non-zero focal length, where the C++ code would compute an infinite reciprocal. It also requires every pixel (u, v) of the depth image to exist in both clouds; `at(u, v)` outside the cloud, or on an unorganised cloud, is part of `pcl/point_cloud.h` and is not modelled.
- Clouds.AppendFused builds the appended points in a local sequence and assigns it to the output cloud once, rather than pushing each point onto the cloud in place. No other code observes the cloud during the loop, so the final state is the same, but the intermediate states of the cloud are not modelled.
- `pcl/point_cloud.h` and `pcl/point_types.h` are not part of this model, apart from the assumptions listed above.
