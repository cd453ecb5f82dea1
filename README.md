# Rotation captcha: a Dafny model of `RotateAppState`

This project models the core of easy-captcha's rotation captcha, `RotateAppState` in
`src/captcha/rotate.rs`. It covers three parts.

* **Circular extraction** (`Circle`). `diameter = min(width, height)` and
  `radius = diameter / 2`. A fresh, fully transparent `diameter` x `diameter` RGBA buffer
  receives the source pixel at `(center_x - radius + x, center_y - radius + y)`. A pixel
  is copied exactly when `(x - radius)^2 + (y - radius)^2 <= radius^2`.
* **Edge cleanup** (`Cleanup`). A second transparent buffer of the same size receives
  each pixel of the rotated buffer whose alpha byte is non-zero.
* **The challenge store** (`Rotate`). `check_map` maps each issued key to
  `(angle - leeway, angle + leeway)`. `check_captcha` rejects unknown keys. For a known
  key it accepts exactly the angles in the interval, both ends included.

`generate_captcha` becomes the class method `Rotate.RotateAppState.GenerateCaptcha`.
The two pixel loops are array methods over `array2<Pixel>`, indexed `[x, y]` like
`get_pixel(x, y)`. The store is a `map` field that the method reassigns.
`check_captcha` is a function of the class, so it cannot change the store.

The library and random steps are parameters of `GenerateCaptcha`:
* the decoded source image;
* the drawn angle, in `[-180, 180)`;
* the buffer the rotation returns for the crop, which has the crop's size;
* the drawn key, 32 alphanumeric characters.

The cleanup keeps pixels with partial alpha unchanged. It only turns fully transparent
pixels into the all-zero pixel. So it changes nothing visible (`Cleanup.Cleaned`,
`Cleanup.CleanedChangesOnlyInvisibleColour`). The comment at src/captcha/rotate.rs:71
speaks of removing transparent edges, but the loop drops only pixels with alpha 0.
Partial-alpha pixels stay, and the model follows the code.

Angles are compared on the real line, with no wrap at +/-180 degrees. With a drawn
angle of 179 and leeway 30, an answer of -170 is rejected
(`Rotate.IssuedChallengeVerdict`).

The crop's circle has its centre at `(radius, radius)`. For an even diameter that
point is half a pixel right of and below the buffer's centre. The disc then reaches
one column and one row past the buffer, which the loop never visits
(`Circle.DiscWithinSquare`, and `Circle.InDisc` for the points `(2r, r)` and `(r, 2r)`). For diameters 2, 4 and 6
it also still covers the corner `(d-1, d-1)` (`Circle.SmallEvenCropsKeepCorner`).

## Model

| member | source | states |
|---|---|---|
| `Circle.Diameter` | src/captcha/rotate.rs:43 | the crop side is at most the width and the height, and equals one of them |
| `Circle.CenterOffset` | src/captcha/rotate.rs:44-57 | `center - radius` never underflows; a window of `diameter` pixels from it stays inside the axis; the margins on the two sides differ by at most one pixel |
| `Circle.InDisc` | src/captcha/rotate.rs:54-56 | the exact circle test is inclusive: the centre and the four axis points exactly `radius` away from it pass; for an even diameter `2 * radius`, two of those, `(2r, r)` and `(r, 2r)`, lie outside the buffer |
| `Circle.ExtractCircle` | src/captcha/rotate.rs:42-61 | the crop is `diameter` x `diameter`; pixel (x, y) is the source pixel at the crop window's offset when it passes the circle test, and fully transparent otherwise; the crop is not the source buffer |
| `Circle.DiscWithinSquare` | src/captcha/rotate.rs:52-58 | every point passing the circle test has both coordinates in `[0, 2 * radius]` |
| `Circle.SmallEvenCropsKeepCorner` | src/captcha/rotate.rs:52-56 | for diameters 2, 4 and 6 the corner `(d-1, d-1)` passes the circle test |
| `Circle.CornersOutsideDisc` | src/captcha/rotate.rs:54-56 | the four buffer corners fail the circle test for an odd diameter of at least 3 or any diameter of at least 8 |
| `Circle.CropCornersTransparent` | src/captcha/rotate.rs:48-61 | for such diameters the four corner pixels of the crop are fully transparent, whatever the source holds |
| `Circle.Wrap32` | src/captcha/rotate.rs:54-56 | the 32-bit wrap lands in the `i32` range, differs from its argument by a multiple of 2^32, and is the identity on `i32` values |
| `Circle.AsWrittenAdmitsCorner` | src/captcha/rotate.rs:54-56 | with radius 32768 the wrapping `i32` test admits the corner (0, 0), which the exact test rejects |
| `Circle.InDiscAsWritten` | src/captcha/rotate.rs:54-56 | the circle test in wrapping `i32` arithmetic agrees with the exact test for radius up to 32767 and every coordinate up to `2 * radius` |
| `Circle.NoWrapBelowLimit` | src/captcha/rotate.rs:54-56 | for radius up to 32767 and coordinates up to `2 * radius`, every intermediate value of the circle test fits in an `i32` |
| `Cleanup.Cleaned` | src/captcha/rotate.rs:75-78 | the alpha byte never changes; a pixel with non-zero alpha is kept unchanged (partial alpha included); an output pixel with alpha 0 is all-zero |
| `Cleanup.CleanedChangesOnlyInvisibleColour` | src/captcha/rotate.rs:72-80 | a pixel changes exactly when it is fully transparent but not all-zero |
| `Cleanup.CleanEdges` | src/captcha/rotate.rs:71-80 | the output has the rotated buffer's size, each pixel is the cleaned rotated pixel, every alpha-0 output pixel is all-zero, and the output is not the rotated buffer |
| `Cleanup.CleanupOfCleanIsCopy` | src/captcha/rotate.rs:72-80 | cleaning a buffer with no non-zero invisible pixel copies it unchanged |
| `Cleanup.CleanupIdempotent` | src/captcha/rotate.rs:72-80 | cleaning the cleanup's own output changes no pixel |
| `Rotate.RotateAppState.constructor` | src/captcha/rotate.rs:26-32 | a new state keeps its options and has no issued challenge |
| `Rotate.RotateAppState.CheckCaptcha` | src/captcha/rotate.rs:101-107 | an unknown key is rejected; a known key accepts exactly the angles from its minimum to its maximum, inclusive |
| `Rotate.Tolerance` | src/captcha/rotate.rs:96 | the registered interval is centred on the drawn angle and extends `leeway` degrees on each side |
| `Rotate.IsHashKey` | src/captcha/rotate.rs:93 | a drawn key has 32 characters, all ASCII between `0` and `z` |
| `Rotate.RotateAppState.GenerateCaptcha` | src/captcha/rotate.rs:34-97 | the crop and the cleaned buffer are as above and are not the input buffers; the key now maps to `(angle - leeway, angle + leeway)` (last write wins); the verdict for every other key is unchanged |
| `Rotate.IssuedChallengeVerdict` | src/captcha/rotate.rs:94-107 | for a registered key, a claimed angle is accepted exactly when it is within `leeway` of the drawn angle |
| `Rotate.IssuedChallengeAccepts` | src/captcha/rotate.rs:94-107 | with `leeway >= 0` the drawn angle and both interval ends are accepted |
| `Rotate.IssuedChallengeRejectsBeyond` | src/captcha/rotate.rs:94-107 | any angle more than `leeway` away from the drawn angle, on either side, is rejected |
| `Rotate.NegativeLeewayRejectsAll` | src/captcha/rotate.rs:94-107 | with a negative leeway every answer for that key is rejected |
| `Rotate.DemoRoundTrip` | example/http_demo.rs:23 | with the demo's output size and leeway (250 x 250, leeway 30, rotate type), after generation the drawn angle and the angle 30 degrees below it are accepted and the angle 31 degrees above it is rejected; the one-image pool and its path, the 200 x 300 source, the angle 42.5 and the answers checked are example inputs chosen here, not taken from the demo |

## Left out

- Image choice and decoding (`choose`, `open`, src/captcha/rotate.rs:38-40) are randomness and file I/O. The decoded image, already as RGBA pixels, is a parameter. `GenerateCaptcha` requires a non-empty image pool, since `expect` panics on an empty one. A file that fails to decode is not modelled.
- Rotation (`rotate_about_center` with bilinear interpolation, src/captcha/rotate.rs:63-69) is floating-point resampling in an external crate. The rotated buffer is a parameter that must have the crop's size.
- Rotate.RotateAppState.GenerateCaptcha: does not relate the rotated buffer to the crop and the angle, because the rotation is outside the model.
- Resizing (`resize_exact` with Lanczos3, src/captcha/rotate.rs:82-86) is library resampling. Only its panic condition is kept, as a requirement: width and height must be non-negative so that `try_into` to `u32` succeeds.
- Encoding (`write_to` and Base64, src/captcha/rotate.rs:88-98) is library serialisation. The returned string always has the prefix `data:image/png;base64,`, even when `image_format` is not PNG. `image_format` is only used by the encoder, so the class has no field for it. The `Option<String>` result is not modelled. `GenerateCaptcha` returns the crop and the cleaned buffer instead.
- Circle.ExtractCircle: does not promise a freshly allocated crop, only that it is not the source buffer; the method has no `modifies` clause, so it cannot write to the source.
- Cleanup.CleanEdges: does not promise a freshly allocated output, only that it is not the rotated buffer; the method has no `modifies` clause, so it cannot write to the rotated buffer.
- Rotate.RotateAppState.GenerateCaptcha: does not promise freshly allocated crop and output buffers, only that they are not the input buffers.
- Random draws (`gen_range(-180.0..180.0)` and the 32-character `Alphanumeric` key, src/captcha/rotate.rs:63, 93) are parameters. The range and the key format are requirements on them. Key uniqueness is not modelled: a repeated key overwrites, as `HashMap::insert` does.
- The `Arc<Mutex<...>>` around the map (src/captcha/rotate.rs:20, 94, 102) exists for concurrency. The map is a single-threaded field.
- Rotate.RotateAppState.CheckCaptcha: angles and leeway are reals, so `f32` rounding in `angle ± leeway` and in the comparisons is not modelled.
- Pixel coordinates and sizes are unbounded naturals. The source's `u32` values never overflow in this code: `CenterOffset` shows that every index stays below the image size. The only 32-bit arithmetic that can wrap is the `i32` circle test, which is the subject of the finding below.
- The command-line options (src/captcha/mod.rs) are a plain datatype. `CaptchaType.Slide` has no behaviour in the source. The range limits clap puts on the `i32` width and height are not modelled.
- example/http_demo.rs is transport glue and is not part of this model. This covers the routes, the JSON framing, the `/show` copy of the map and the directory listing. Its `/generate` handler returns `keys().last()` of a `HashMap`, which is an arbitrary key and not necessarily the one just issued. Only its demo configuration is used, in `Rotate.DemoRoundTrip`.

## Findings

| source | as written | input that shows it | evidently intended | confidence | as-written member | corrected member |
|---|---|---|---|---|---|---|
| src/captcha/rotate.rs:54-56 | the circle test computes `dx * dx + dy * dy` and `radius * radius` in `i32`, which a release build wraps | a source image whose shorter side is 65536 pixels (radius 32768): at pixel (0, 0) the sum is 2^31, which wraps to -2^31 and passes the test, so the crop keeps its corner | the exact integer test, under which every corner of a crop that large is outside the circle and transparent | low: not executed; it needs a decodable image of at least 65536 x 65536 pixels, and a debug build panics on the overflow instead | `Circle.AsWrittenAdmitsCorner` | `Circle.CropCornersTransparent` |
