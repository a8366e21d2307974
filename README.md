# Pore detection: analysis, overlay and key navigation

This project models the core of `wasm-pore-detection`, an egui application
that measures porosity in micrograph images. The user loads a series of
images. For each image the user picks:

- a greyscale threshold;
- a band of accepted pore sizes (`minimal_pore_size_low` .. `minimal_pore_size_high`, in pixels);
- optionally, a rectangular region, given by two corners in plot coordinates.

A background worker then does the following:

1. It thresholds the image into a black/white mask and labels its connected components (`connected_components` with white as the background); both the mask and the label map are inputs of the model.
2. It counts the pixels of each label.
3. It collects every black pixel whose label size lies strictly inside the band. When a region is set, the pixel must also lie inside it; the region's y bounds are flipped from plot coordinates, which grow upwards, into rows, which grow downwards.
4. It reports a density, `(1 - pushed / area) * 100`.

When the worker has finished, the main loop does two things. It stores the result in the selected record. It paints the result pixels over the image: green first, then white. The arrow keys move the selection through the records and wrap around at both ends. Enter copies the analysis settings of the previously selected record into the selected one and re-runs the analysis.

The Dafny modules follow the source files:

- `Wrappers` (`wrappers.dfy`): `Option` and `unwrap_or(0)`.
- `Pixels` (`pixels.dfy`): the row-major layout of an image buffer. Pixel `i` of a `width`-wide buffer is at `(i % width, i / width)`. Helper lemmas relate indices and coordinates, including the uniqueness of quotient and remainder (`DivModOf`), which the key arithmetic also uses.
- `ImageDataModel` (`image_data.dfy`): the `ImageData` record, the saturating float casts, the worker body and its specification.
  - `CountLabelSizes` is the loop that builds the size table.
  - `PushRegionPores` and `PushAllPores` are the two filtering loops.
  - `ComputeDensity` computes the density, and `AnalyzeImage` is the whole worker.
  - The specification is `PoreScan`, a function of the pixel prefix. The loops are proved equal to it, and lemmas state what it contains.
- `ImagesModel` (`images.dfy`): the `Images` class of images.rs, which holds the records and the selected and previously selected indices.
- `DetectionApp` (`detection_app.dfy`): the `PoreDetectionApp` class.
  - `ReloadImage` and `ReceiveImageData` are the two state-changing operations of detection_app.rs.
  - The overlay is painted in place on an array (`PaintOverlay`). It is proved equal to a per-pixel rule (`Overlaid`).
  - `PixelAfter` is the specification of a sequence of `put_pixel` calls. It is used for the proof.
- `AppUpdate` (`app.dfy`): the key branch of `update` (`HandleKeys`), the index arithmetic of the arrow keys and the settings copy of Enter.

## Model

| member | source | states |
|---|---|---|
| `Wrappers.UnwrapOrZero` | src/model/detection_app.rs:59 | definition of `unwrap_or(0)`: the index when there is one, else 0 (its use is proved in `ReloadImage` and `ReceiveImageData`) |
| `ImageDataModel.AsI32` | src/model/image_data.rs:75-76 | `as i32` on the pore bounds saturates to the i32 range and truncates toward zero, for positive and negative values |
| `ImageDataModel.AsU32` | src/model/image_data.rs:71-78 | `as u32` on the region corners gives 0 for negatives, and otherwise truncates and saturates at the u32 maximum |
| `ImageDataModel.Default` | src/model/image_data.rs:20-34 | a default record has no path, no image, no density, no region and threshold 0; its pore band is 0..1000 after the cast |
| `ImageDataModel.SnapshotOf` | src/model/image_data.rs:38-43 | definition of what the worker captures: the threshold and both bounds unchanged, a region exactly when both corners are set (what Enter does to it is proved in `CopySettingsSnapshot`) |
| `ImageDataModel.SizeInBounds` | src/model/image_data.rs:75-76 | the strict size test with both bounds cast `as i32`. A passing size lies strictly between the uncast bounds unless a bound saturates the cast. With whole bounds in the i32 range the test is exactly `low < size < high` (the same test appears at :88-89) |
| `ImageDataModel.InRegion` | src/model/image_data.rs:71-80 | the region test. Its x part is `floor(start.x) <= x <= floor(end.x)`; a passing column overlaps `[start.x, end.x]`. Its y part is `height - floor(start.y) <= y <= height - floor(end.y)`: row `y` sits at plot height `height - y`, and that height must lie between `floor(end.y)` and `floor(start.y)` |
| `ImageDataModel.Qualifies` | src/model/image_data.rs:74-80 | the test a pixel must pass to be pushed. A passing pixel is black and its label size passes `SizeInBounds`. With a region, its row lies inside the image and its coordinate passes `InRegion` (the region-free test is at :87-89) |
| `ImageDataModel.RegionRowsFit` | src/model/image_data.rs:71-72 | the two `u32` subtractions `height - corner.y as u32` do not underflow. For images less than 2^32 - 1 rows high, this holds exactly when both corner heights lie below `height + 1` |
| `ImageDataModel.CountLabelSizes` | src/model/image_data.rs:60-65 | the size table has a key for exactly the labels that occur; each count is that label's number of pixels; the counts sum to the pixel count |
| `ImageDataModel.PoreScan` | src/model/image_data.rs:67-94 | scanning `k` pixels pushes at most `k` coordinates |
| `ImageDataModel.PoreScanSound` | src/model/image_data.rs:67-94 | every pushed coordinate lies inside the image; its pixel is black, its label size is strictly inside the band, and it is inside the region when one is set |
| `ImageDataModel.PoreScanComplete` | src/model/image_data.rs:67-94 | every pixel that passes the test is pushed |
| `ImageDataModel.PoreScanOrdered` | src/model/image_data.rs:70-93 | coordinates are pushed in strict row-major order (the order of `enumerate_pixels`), so none is pushed twice |
| `ImageDataModel.RegionScanIsRestriction` | src/model/image_data.rs:69-94 | with a region, the pushed list is the region-free list filtered by the region test, in the same order |
| `ImageDataModel.PushRegionPores` | src/model/image_data.rs:69-84 | the region loop pushes exactly `PoreScan` of the whole image |
| `ImageDataModel.PushAllPores` | src/model/image_data.rs:85-93 | the region-free loop pushes exactly `PoreScan` of the whole image |
| `ImageDataModel.AnalyzeImage` | src/model/image_data.rs:45-109 | the worker's black pixels are `PoreScan` of the mask and labels; its density is `Density` of their number |
| `ImageDataModel.Denominator` | src/model/image_data.rs:99-108 | the divisor is never negative: the absolute corner area with a region, the pixel count without |
| `ImageDataModel.Density` | src/model/image_data.rs:97-109 | the density is undefined (`None`) exactly when the divisor is zero |
| `ImageDataModel.ComputeDensity` | src/model/image_data.rs:97-109 | the density branch computes `Density` |
| `ImageDataModel.WholeImageDensityInRange` | src/model/image_data.rs:104-108 | without a region the density lies in [0, 100]; it is 100 exactly when nothing is pushed and 0 exactly when every pixel is pushed |
| `ImageDataModel.DensityAntitone` | src/model/image_data.rs:97-109 | pushing more pixels never raises the density |
| `ImageDataModel.RegionDensityCanBeNegative` | src/model/image_data.rs:69-103 | with a region the density can leave [0, 100]: a 2 x 2 black image with region (0,2)-(1,1) pushes 4 pixels against area 1, giving -300. The inclusive floored pixel bounds overshoot the real area for ordinary regions with fractional corners too, so this is not an edge case: (0.5,3.5)-(2.5,1.5) on a black 4 x 4 image gives 9 pixels against area 4, -125 |
| `ImageDataModel.WholeImageAnalysisInRange` | src/model/image_data.rs:85-108 | on a non-empty image without a region, the reported density is defined and lies in [0, 100] |
| `DetectionApp.Puts` | src/model/detection_app.rs:73-79 | definition of the calls of one `for_each`: one `put_pixel` per coordinate, in list order, all with the same colour (their effect is proved in `PixelAfterPuts`) |
| `DetectionApp.OverlayColour` | src/model/detection_app.rs:73-79 | the colour a pixel ends with after both loops. Only listed coordinates change colour, and only to green or white. A white-listed coordinate ends white. A green-listed one ends green unless it is also white-listed (that it matches the loops is proved in `OverlayPaintOrder`) |
| `DetectionApp.Overlaid` | src/model/detection_app.rs:68-79 | the painted image has the same number of pixels as the source image |
| `DetectionApp.PixelAfterPuts` | src/model/detection_app.rs:73-75 | painting one colour over a list leaves that colour exactly at the listed coordinates and the old colour elsewhere |
| `DetectionApp.PixelAfterAppend` | src/model/detection_app.rs:73-79 | two painting loops act one after the other |
| `DetectionApp.OverlayPaintOrder` | src/model/detection_app.rs:73-79 | green is painted, then white: a pixel in the white list ends white, one only in the green list ends green, any other keeps its colour |
| `DetectionApp.PutPixel` | src/model/detection_app.rs:74 | `put_pixel` changes only the pixel at the coordinate |
| `DetectionApp.PutPixels` | src/model/detection_app.rs:73-75 | the painting loop leaves every pixel as the sequence of its `put_pixel` calls determines |
| `DetectionApp.PaintOverlay` | src/model/detection_app.rs:68-79 | the painted buffer is the overlay rule applied to the original image |
| `ImagesModel.Images.constructor` | src/model/images.rs:6-11 | `Images::default()`: no records and no selection |
| `DetectionApp.PoreDetectionApp.constructor` | src/model/detection_app.rs:9-35 | the default application has no records, no handle, no displayed image and a closed debug window |
| `DetectionApp.PoreDetectionApp.ReloadImage` | src/model/detection_app.rs:37-49 | the old selection becomes the previous one; the given index, or 0, is selected; the records are unchanged; the new handle analyses the selected record's settings |
| `DetectionApp.PoreDetectionApp.ReceiveImageData` | src/model/detection_app.rs:51-86 | with no handle, or an unfinished one, nothing changes. Otherwise the handle is taken. The selected record (index 0 when none is selected) gets the green pixels and the density, and nothing else changes. If the record has a path, the displayed image becomes its pixels with the green-then-white overlay. The selection is untouched. |
| `AppUpdate.NextIndex` | src/app.rs:16-22 | ArrowRight selects `(i + 1) mod len` |
| `AppUpdate.PrevIndex` | src/app.rs:26-32 | ArrowLeft selects `(i + len - 1) mod len` |
| `AppUpdate.NextPrevInverse` | src/app.rs:13-32 | ArrowLeft undoes ArrowRight, and ArrowRight undoes ArrowLeft |
| `AppUpdate.StepsRight` | src/app.rs:13-22 | repeated ArrowRight presses keep the selection inside the list |
| `AppUpdate.StepsRightModulo` | src/app.rs:13-22 | `k` ArrowRight presses advance the selection by `k` mod `len`; `len` presses return to the start |
| `AppUpdate.CopySettings` | src/app.rs:37-54 | Enter copies the minimum feature size and leaves the path, image, density and pixel lists of the selected record alone |
| `AppUpdate.CopySettingsSnapshot` | src/app.rs:36-56 | after Enter the re-run analysis uses the previous record's threshold and bounds. It uses the previous record's region when that record has both corners, and otherwise keeps its own. |
| `AppUpdate.CopySettingsIdempotent` | src/app.rs:36-54 | copying the same settings twice equals copying once |
| `AppUpdate.HandleKeys` | src/app.rs:13-60 | one branch of the else-if chain runs per frame. ArrowRight or ArrowLeft with a selection moves it with wrap-around and restarts the analysis. Enter with a previous selection copies its settings and re-analyses the selected record. D (only when no earlier key matched) toggles the debug window. Otherwise nothing changes. A handle that tracked the selection still does. |

## Left out

- Threads, channels and `JoinHandle::join`: the handle is modelled as the index of the analysed record plus the settings snapshot the worker took. Whether the worker has finished, and what `join()` returns, are parameters of `ReceiveImageData`.
- The tuple a finished handle yields is not derived from `AnalyzeImage`. In the source, `analyze_image` takes a channel sender and returns nothing, while the handle is typed as returning (green pixels, white pixels, density). The model keeps the two as written and does not connect them.
- Greyscale conversion, `imageproc::contrast::threshold` and `connected_components` are library calls. Their results, the black/white mask and the label map, are inputs of `AnalyzeImage`.
- Image decoding, the conversion to RGBA (`to_rgba8`) and texture upload (`load_texture_into_ctx`) are not modelled. A record's image is its RGBA pixel buffer, and the displayed image is the painted buffer.
- Floating point: `f32` and `f64` values are reals. A zero divisor in the density gives `None`, where the source gets NaN or negative infinity.
- The `i32` counts in the size table cannot overflow at the image sizes that can be decoded; the model counts with unbounded integers.
- `ImageDataModel.AnalyzeImage` requires a threshold in 0..255, where the source panics at `try_into().unwrap()`. It also requires the region's rows to fit the image height, where the source's `u32` subtraction underflows.
- `DetectionApp.PoreDetectionApp.ReceiveImageData` requires, when the selected record has a path and the overlay is therefore painted, every painted coordinate to lie inside its image, where `put_pixel` panics. It also requires the selected index to name a record, where the indexing panics. Every record holds an image (`Images.Valid`), where `image.clone().unwrap()` panics on `None`.
- `DetectionApp.PoreDetectionApp.ReloadImage` requires the index it selects (the given one, or 0) to name a record, where the source panics when indexing `images` at detection_app.rs:48; every caller in app.rs passes an index in range.
- `ImageDataModel.ComputeDensity` and `ImageDataModel.Denominator` take the pixel count `width * height` as an unbounded integer, where image_data.rs:107 multiplies two `u32` values, which wraps (or panics in a debug build) for images of more than 2^32 pixels.
- The overlay coordinates are integral (`Coord`), where the source's handle output holds `PlotPoint`s that `put_pixel` casts `as u32`.
- The view calls at the end of `update` (the panels, windows, modals and the plot) and `ctx.request_repaint()` are not modelled. Nor are the `region_selector` and `region` fields they use, `Images::export`, or the `log` calls.
- `green_pixels` and `included_min_feature_size` are not declared by image_data.rs but are used by app.rs and detection_app.rs, so they are fields of `ImageData` here. No rule that uses the minimum feature size is modelled, because none appears in the core.
