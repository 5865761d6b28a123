# ImageProcessing core, modelled in Dafny

The ImageProcessing viewer decodes a picture and shows nine images of it:
the original, its red, green and blue channels, its grayscale plane, and
four filtered versions of the grayscale plane. The filters are a Sobel edge
magnitude, a 5×5 Gaussian blur, a 3×3 Laplacian sharpening, and a 5×5
"low-pass" blur. All of this happens in `create_images_with_channels` and the
four `compute_*` routines of `src/image_processing.rs`, which this project
models.

- Each filter walks the interior of the w×h gray plane row by row and
  applies a fixed kernel to the window around each position.
  - The 5×5 blurs leave a margin of 2 and produce (w-4)×(h-4) pixels.
  - The 3×3 kernels leave a margin of 1 and produce (w-2)×(h-2) pixels.
- Each output byte is pushed as an opaque gray pixel.
- The orchestrator pairs every pixel list with a declared size
  (`create_color_image`).

Layout:

- `raster.dfy` (`Raster`): bytes, RGBA and Color32 pixels, the ColorImage
  record, the clamp to a byte, and row-major access to the gray plane
  (`get_pixel`).
- `kernels.dfy` (`Kernels`): the five kernel tables and their weight totals.
- `convolution.dfy` (`Convolution`): the weighted sum of one window, as a
  specification function and as the ky/kx loops (`ApplyKernel`), with its
  behaviour on flat planes and its bounds.
- `filters.dfy` (`Filters`):
  - the per-position value of each filter;
  - the whole output of each filter, listed row by row;
  - the four `compute_*` routines as methods with the program's y/x loops,
    each proved to yield exactly that output.
- `filter_properties.dfy` (`FilterProperties`): the stencils, value ranges
  and flat-plane behaviour of each filter, and the equality of the two blurs.
- `channels.dfy` (`Channels`): the grayscale copy loop and the channel split
  loop.
- `pipeline.dfy` (`Pipeline`): `create_images_with_channels`, with decoding
  given as an input.

Vectors grown by `push` are sequences grown by appending. Unsigned
subtractions that would underflow are either excluded by a `requires` (the
`compute_*` routines) or made an explicit outcome (the orchestrator).

## Model

| member | source | states |
|---|---|---|
| Raster.CreateColorImage | src/image_processing.rs:190-195 | keeps the size and pixels as given; the image is well-sized exactly when width·height equals the pixel count |
| Raster.Clamp | src/image_processing.rs:89 | the result is v when 0 ≤ v ≤ 255, 0 below, 255 above |
| Kernels.GaussianWeights | src/image_processing.rs:101-138 | the Gaussian table is 5×5, non-negative, and its weights sum to 273 |
| Kernels.LowPassWeights | src/image_processing.rs:8-44 | the low-pass table is 5×5, non-negative, and its weights sum to 273 |
| Kernels.LowPassIsGaussianTable | src/image_processing.rs:8-44 | the low-pass table equals the Gaussian table weight for weight |
| Kernels.LaplaceWeights | src/image_processing.rs:74 | the Laplacian weights sum to 1, and their positive weights sum to 9 |
| Kernels.SobelWeights | src/image_processing.rs:166-167 | each Sobel kernel sums to 0, and its positive weights sum to 4 |
| Convolution.ApplyKernel | src/image_processing.rs:80-87 | the ky/kx loops accumulate exactly the weighted sum of the window |
| Convolution.WindowSum3 | src/image_processing.rs:80-87 | a 3×3 weighted sum is the nine weight·sample products |
| Convolution.FlatWindowSum | src/image_processing.rs:51-60 | on a flat plane of value c, the weighted sum is c times the kernel total |
| Convolution.WindowSumBounds | src/image_processing.rs:174-182 | whatever the samples, the sum lies between 255·(negative weights) and 255·(positive weights) |
| Filters.ISqrtIsFloorRoot | src/image_processing.rs:183 | ISqrt(n) is the integer part of √n: r² ≤ n < (r+1)² |
| Filters.MagnitudeIsCappedRoot | src/image_processing.rs:183 | below 255 the magnitude m satisfies m² ≤ gx²+gy² < (m+1)²; it is 255 exactly when gx²+gy² ≥ 255² |
| Filters.OutputSize | src/image_processing.rs:140-141 | each filter yields Interior(w)·Interior(h) pixels, i.e. (w-2m)·(h-2m), and none when a side is too short |
| Filters.OutputAt | src/image_processing.rs:140-158 | output index (y-m)·(w-2m)+(x-m) holds the filter's value at plane position (x, y): the output is row-major |
| Filters.ComputeGaussian | src/image_processing.rs:97-162 | the method's loops yield exactly the Gaussian output |
| Filters.ComputeLowPassFilter | src/image_processing.rs:4-69 | the method's loops yield exactly the low-pass output |
| Filters.ComputeLaplaceAsWritten | src/image_processing.rs:71-95 | with the loops as written, the routine fails exactly on non-square planes of at least 3×3, and otherwise yields the Laplacian output |
| Filters.ComputeLaplace | src/image_processing.rs:71-95 | with y over rows and x over columns, the loops yield exactly the Laplacian output |
| Filters.SobelGradients | src/image_processing.rs:174-182 | the shared tap loop computes both gradient sums gx and gy |
| Filters.ComputeSobel | src/image_processing.rs:164-188 | the method's loops yield exactly the Sobel output |
| FilterProperties.GaussianNeverClamps | src/image_processing.rs:156-157 | the blur sum lies in [0, 255·273], so the clamp never fires and the value is the sum divided by 273, rounded down |
| FilterProperties.GaussianFlat | src/image_processing.rs:140-158 | a flat plane of value c blurs to c |
| FilterProperties.LowPassAtMatchesGaussian | src/image_processing.rs:46-64 | the two blurs agree at every position |
| FilterProperties.LowPassMatchesGaussian | src/image_processing.rs:4-69 | compute_low_pass_filter and compute_gaussian produce the same pixel list |
| FilterProperties.LaplaceSharpen | src/image_processing.rs:74-89 | the Laplacian is clamp(9·centre − the eight neighbours) |
| FilterProperties.LaplaceFlat | src/image_processing.rs:74-89 | a flat plane of value c sharpens to c |
| FilterProperties.SobelStencils | src/image_processing.rs:166-182 | gx is the right column minus the left column, and gy the bottom row minus the top row, each weighted 1, 2, 1 |
| FilterProperties.SobelFitsI32 | src/image_processing.rs:183 | \|gx\|, \|gy\| ≤ 1020 and gx²+gy² ≤ 2080800, so the i32 arithmetic cannot overflow |
| FilterProperties.SobelFlat | src/image_processing.rs:166-184 | on a flat plane both gradients and the magnitude are 0 |
| FilterProperties.AtFlat | src/image_processing.rs:4-188 | every filter maps a flat plane to its flat response: c for the blurs and the Laplacian, 0 for Sobel |
| FilterProperties.OutputFlat | src/image_processing.rs:4-188 | on a flat plane, every pixel of every filter's output is its flat response |
| Channels.GrayscaleCopy | src/image_processing.rs:221-225 | one pixel per sample, in order; r, g and b are the sample and alpha is 255 |
| Channels.SplitChannels | src/image_processing.rs:227-235 | four lists as long as the input; each channel image keeps its own channel and the alpha; the original is unchanged; the three channel images add up to the original colours |
| Pipeline.CreateImagesWithChannels | src/image_processing.rs:197-267 | decode failure gives DecodeFailed; a side below 4 gives SizeUnderflow; otherwise the nine images in order, each with its declared size and its pixels |
| Pipeline.ImagesWellSized | src/image_processing.rs:237-255 | each of the nine images declares as many pixels as it holds |
| Pipeline.BlursAgree | src/image_processing.rs:249-255 | the low-pass image equals the Gaussian image |
| Pipeline.FlatPicture | src/image_processing.rs:221-255 | for a flat gray plane, the grayscale, blur and Laplacian images are flat and the Sobel image is black |

## Left out

- Decoding (`image::load_from_memory`), the luma conversion (`grayscale`)
  and `to_rgba8` belong to the image crate, which is not part of this model.
  - The decoder's result is an input: `None`, or the dimensions with the
    gray plane and the RGBA view.
  - That both planes hold width·height samples is a `requires`; the crate
    guarantees it.
- The GUI (`src/ui.rs`, `src/main.rs`) is not part of this model; egui's
  `Color32` and `ColorImage` are modelled only as the data they hold.
- Filters.GaussianAt: not the f32 arithmetic of the program. The program
  adds f32 products of the weights k/273, with rounding. The model takes
  the exact sum Σk·p divided by 273 and rounded down. When that sum is an
  exact multiple of 273, the float sum can fall just below it, and the
  program's truncating `as u8` then gives one less. The same applies to
  Filters.LowPassAt.
- Filters.Magnitude: the model uses the integer square root, not f64
  `sqrt`. For n ≤ 2080800 (the bound FilterProperties.SobelFitsI32 proves),
  the f64 square root truncates to the integer root, but this is argued,
  not proved here.
- `compute_*` routines: only their u32 underflows are modelled.
  - Each routine has a `requires` that its loop bounds do not underflow
    (`height - 2`, and `width - 2` once a row is visited).
  - The orchestrator turns any side below 4 into `SizeUnderflow`; in the
    program that is a panic in a debug build and a wrap-around in a release
    build.
  - A wrap-around is not modelled.
- Pipeline.CreateImagesWithChannels: it uses the corrected
  Filters.ComputeLaplace. As written, the program also panics on every
  non-square picture, as shown by Filters.ComputeLaplaceAsWritten (see
  Findings).
- Filters.ComputeLaplaceAsWritten: a failing `get_pixel` is reported as
  `None`. The model does not track which tap fails, or what the pixels
  pushed before the failure are.

## Findings

| source | as written | input that shows it | evidently intended | confidence | as-written member | corrected member |
|---|---|---|---|---|---|---|
| src/image_processing.rs:76-77 | the outer loop runs y up to width-1 and the inner loop x up to height-1, while get_pixel reads column x of row y | a 6 wide, 5 high plane: at y = 4 the window reaches row 5, outside the plane, and get_pixel panics | y over 1..height-1 and x over 1..width-1, as in compute_sobel | not executed | Filters.ComputeLaplaceAsWritten | Filters.ComputeLaplace |
