# pytest-image-snapshot: the snapshot comparator

This project models the core of the `pytest-image-snapshot` plugin, which compares an image with a stored snapshot. A pytest test passes an image and a file path to the `image_snapshot` fixture. The fixture then does one of three things:

- It writes the image to the path when the update flag is set or no file is there yet.
- It returns silently when the image matches the stored one.
- It raises `ImageMismatchError` when the two differ.

Two images of different sizes are first padded to a common size. Each image smaller than the larger width and height is pasted at the origin of a fully transparent canvas of that size. The two padded images are then compared through their per-channel absolute difference.

The model has four modules.

- `Raster` (`raster.dfy`) is an abstract RGBA bitmap. It holds the width, the height and rows of 8-bit `(r, g, b, a)` pixels. It also holds the four image-library operations the plugin calls:
  - `Image.new`;
  - `paste` of an image through its own alpha band;
  - `ImageChops.difference`;
  - the "is there a bounding box" test of `getbbox`.
- `ImageSnapshot` (`image_snapshot.dfy`) holds the comparator itself:
  - `extend_to_match_size_rgba` and its inner `extend_image`;
  - the mismatch test;
  - `ImageMismatchError`;
  - the `_image_snapshot` decision, as a method of a `SnapshotStore` class whose `files` map stands for the snapshot files on disk.
- `SnapshotProperties` (`snapshot_properties.dfy`) proves what the comparator promises for every pair of images and over two consecutive calls.
- `SnapshotCases` (`snapshot_cases.dfy`) proves the plugin's own test scenarios as concrete cases. It also proves the counterexample listed under Findings.

In the source, `getbbox()` on the RGBA difference examines the alpha band only. As written, that test misses a colour-only change between two opaque images of the same size (see Findings). The model therefore keeps two mismatch tests:

- `MismatchAsWritten` follows the code exactly.
- `Mismatch` takes the bounding box over all four channels. This is what the error class's docstring, "Exception raised when images do not match" (pytest_image_snapshot.py:8), evidently intends.

The store method `SnapshotStore.ImageSnapshot` takes the bounding box's mode as a parameter, `alphaOnly`. With `alphaOnly` set it is the fixture as written, and the plugin's test scenarios use that mode. With it cleared it is the corrected fixture.

Where the plugin's documentation and its code disagree, the model follows the code, with the corrected mode above as the one addition. Examples:

- the exact error message;
- the viewer order;
- `verbose` compared with 0 and with 1, so a negative verbosity from `-q` still opens the diff viewer.

## Model

| member | source | states |
|---|---|---|
| Raster.NewAt | pytest_image_snapshot.py:32 | every pixel of `Image.new(size, colour)` is that colour |
| Raster.Composite | pytest_image_snapshot.py:33 | pasting a pixel through its own alpha: an opaque pixel replaces what is under it; a fully transparent one leaves it unchanged |
| Raster.BlendChannel | pytest_image_snapshot.py:33 | one band of the alpha-weighted blend stays a channel value; mask 255 gives the pasted value and mask 0 the canvas value |
| Raster.PasteAt | pytest_image_snapshot.py:33 | after `paste(img, (0, 0), img)`, a pixel the image reaches is that pixel composited over the canvas; every other pixel is the canvas unchanged |
| Raster.PixelDiff | pytest_image_snapshot.py:49 | the per-channel absolute difference is all zero exactly when the two pixels are equal; its alpha is zero exactly when the alphas are equal |
| Raster.DifferenceAt | pytest_image_snapshot.py:49 | `ImageChops.difference` at every shared pixel is the channel-wise difference of the two pixels there |
| Raster.HasBBox | pytest_image_snapshot.py:50 | the bounding box is non-empty exactly when some pixel counts: any non-zero channel, or a non-zero alpha when only alpha is examined |
| Raster.RowHasCountedIff | pytest_image_snapshot.py:50 | scanning one row finds a counted pixel exactly when the row holds one |
| Raster.RowsHaveCountedIff | pytest_image_snapshot.py:50 | scanning the rows finds a row with a counted pixel exactly when one exists |
| ImageSnapshot.Max | pytest_image_snapshot.py:26-27 | the larger of the two sizes: at least each, and equal to one of them |
| ImageSnapshot.ExtendImage | pytest_image_snapshot.py:29-34 | the result has the target size; an image already at the target size is returned unchanged |
| ImageSnapshot.ExtendImageAt | pytest_image_snapshot.py:29-34 | in a padded image, every pixel outside the original is (0, 0, 0, 0); an opaque original pixel is kept; any other original pixel is composited onto transparency |
| ImageSnapshot.ExtendToMatchSize | pytest_image_snapshot.py:17-36 | both results are max(w1, w2) wide and max(h1, h2) high; an image that is the larger in both dimensions comes back unchanged |
| ImageSnapshot.PaddedDifference | pytest_image_snapshot.py:48-49 | the difference of the padded images has the larger width and the larger height |
| ImageSnapshot.Mismatch | pytest_image_snapshot.py:48-50 | with the bounding box over all channels, the test fails exactly when the padded images differ in some channel of some pixel |
| ImageSnapshot.MismatchAsWritten | pytest_image_snapshot.py:48-50 | as written, with the RGBA default bounding box, the test fails exactly when the padded images differ in the alpha band of some pixel |
| ImageSnapshot.Viewed | pytest_image_snapshot.py:51-55 | no viewer at verbosity 0; the diff first at any other verbosity; the original and then the new image as well when verbosity exceeds 1 |
| ImageSnapshot.ShowMismatch | pytest_image_snapshot.py:51-55 | the viewers opened one after another are exactly the sequence `Viewed` describes |
| ImageSnapshot.SnapshotStore.constructor | pytest_image_snapshot.py:46-47 | the store starts with the given snapshot files |
| ImageSnapshot.SnapshotStore.ImageSnapshot | pytest_image_snapshot.py:41-62 | raises exactly when the flag is off, a snapshot exists and the padded images differ: in the alpha band in the as-written mode, in any channel in the corrected mode; a raise carries the message naming the path, opens the viewers and writes nothing; a match writes nothing; with the flag set or no snapshot the candidate is written and nothing is raised |
| SnapshotProperties.SelfNeverDiffers | pytest_image_snapshot.py:30-31 | an image never differs from itself, so a snapshot just written passes |
| SnapshotProperties.DiffersSymmetric | pytest_image_snapshot.py:26-27 | swapping candidate and reference does not change the verdict |
| SnapshotProperties.TransparentMarginMatches | pytest_image_snapshot.py:32-33 | a larger candidate that repeats the reference and is transparent padding elsewhere matches it, when the reference is opaque or transparent pixel by pixel |
| SnapshotProperties.OpaqueMarginDiffers | pytest_image_snapshot.py:32-33 | a larger candidate with a non-transparent pixel outside the reference's extent differs from it |
| SnapshotProperties.OverlapChangeDiffers | pytest_image_snapshot.py:48-50 | a changed opaque pixel inside the shared region is always a difference, whatever the sizes |
| SnapshotProperties.AlphaDiffersImpliesDiffers | pytest_image_snapshot.py:50 | the alpha-only test never fails where the full test passes |
| SnapshotProperties.OpaqueSameSizeNoAlphaDifference | pytest_image_snapshot.py:50 | two opaque images of one size never differ in alpha |
| SnapshotProperties.SolidRecolour | pytest_image_snapshot.py:48-50 | two solid opaque images of one size and different colours differ, but not in alpha |
| SnapshotProperties.SolidGrown | pytest_image_snapshot.py:32-33 | a solid opaque image strictly larger than a solid reference of the same colour differs from it, in alpha too |
| SnapshotProperties.CompareTwice | pytest_image_snapshot.py:46-62 | in either mode, with the flag off, a call that creates or matches the snapshot is followed by a second call that passes and leaves the store as the first left it |
| SnapshotCases.SameWhiteMatches | tests/test_image_snapshot.py:22-24 | a 100x100 white image matches a 100x100 white snapshot |
| SnapshotCases.LargerWhiteMismatches | tests/test_image_snapshot.py:26-29 | a 150x150 white image mismatches a 100x100 white snapshot under both tests |
| SnapshotCases.RecolourPassesAsWritten | pytest_image_snapshot.py:50 | a 100x100 red image against a 100x100 white snapshot fails the full test but passes the test as written |
| SnapshotCases.LargerWhiteDiffersFromFixture | tests/test_image_snapshot.py:9-12 | the fixture's `white.png` exists and differs in the alpha band from a 150x150 white image |
| SnapshotCases.TestImage | tests/test_image_snapshot.py:22-24 | comparing the white image with `white.png`, as written, returns |
| SnapshotCases.TestDifferentImage | tests/test_image_snapshot.py:26-29 | comparing the 150x150 white image with `white.png`, as written, raises `ImageMismatchError` naming `white.png` |
| SnapshotCases.TestCreateImageIfMissing | tests/test_image_snapshot.py:31-35 | `red.png` is absent before the call; the call returns; `red.png` exists afterwards |
| SnapshotCases.RedRecoloursFixture | pytest_image_snapshot.py:48-50 | a 100x100 red image differs from the fixture's `white.png`, but not in the alpha band |
| SnapshotCases.RecolourAgainstFixture | pytest_image_snapshot.py:46-58 | comparing a 100x100 red image with `white.png`, the fixture as written returns, while the corrected fixture raises |

## Left out

- pytest wiring is not modelled: `pytest_addoption`, the fixture object and the reading of `request.config` (pytest_image_snapshot.py:11-14, 39-43). The update flag and the verbosity are parameters of `SnapshotStore.ImageSnapshot`.
- Image files are not encoded or decoded. `Image.open` and `img.save` are a lookup in and an update of the store's map. The map is keyed by the path string as given, so `Path` normalisation (`./a.png` versus `a.png`) is not modelled.
- `convert("RGBA")` from other modes is not modelled (pytest_image_snapshot.py:36). Images enter as RGBA, so an RGB image from the tests is one with alpha 255 everywhere. The conversion of an opaque RGBA image is the identity.
- Viewers are not opened. `show` calls are returned as a list of (title, image) pairs in the order they are opened.
- ImageSnapshot.SnapshotStore.ImageSnapshot: when a mismatch is found, only the bounding box's emptiness is used. Its coordinates are not computed, since the source only tests them for truth.
- ImageSnapshot.ExtendImageAt: for partially transparent pixels (0 < alpha < 255) the blend uses the image library's rounding formula `DIV255`. The library is not part of this model, so that formula is taken from its documented integer compositing. The lemmas make exact claims only for alpha 0 and 255.
- Several features appear in the plugin's tests or packaging but have no implementation in the modelled source: saving diff and new artifacts, failing when a snapshot is missing, and pixelmatch threshold matching.

## Findings

| source | as written | input that shows it | evidently intended | confidence | as-written member | corrected member |
|---|---|---|---|---|---|---|
| pytest_image_snapshot.py:50 | `diff.getbbox()` on the RGBA difference uses the library's default for images with an alpha band, which looks at the alpha band only; two opaque images of one size have an all-zero alpha difference, so a colour change is never reported | a 100x100 opaque red candidate against a stored 100x100 opaque white snapshot: the call returns instead of raising | the comparison fails whenever some pixel differs in any channel | not executed; depends on the library's default `getbbox` behaviour for RGBA images | ImageSnapshot.MismatchAsWritten, ImageSnapshot.SnapshotStore.ImageSnapshot with `alphaOnly` set, SnapshotCases.RecolourPassesAsWritten, SnapshotCases.RecolourAgainstFixture | ImageSnapshot.Mismatch, ImageSnapshot.SnapshotStore.ImageSnapshot with `alphaOnly` cleared |
