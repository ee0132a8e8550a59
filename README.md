# Pathtracer core in Dafny

This project models the discrete logic of a minimal ray tracer written in Rust. The modelled parts are:

- the `Backbuffer`: a row-major `width`×`height` pixel grid. It is created all black and written one cell at a time by `set` at index `y*width + x`.
- the `render` loop: rows outer, columns inner, one write per cell. The per-pixel work is the abstract function `shade(x, y)`, which stands for ray generation, `trace_radiance` and `Pixel::from_unit`.
- the nearest-hit selection in `trace_radiance`: a scan of the spheres in scene order that keeps a hit only when its parameter is strictly smaller. Ties therefore go to the earliest sphere. When no sphere is hit the result is black; otherwise it is the colour of the nearest sphere's material.
- the utilities of `src/common.rs`: the `xorshift32` generator, `clampf32` and `saturatef32`.

Files and modules:

- `geometry.dfy`, module `Geometry`: the value types (`Vec3`, `Ray`, `Material`, `Sphere`, `Scene`, `Hit`). It also holds `intersect`. Its geometry is supplied as a function `HitTest` from a sphere and a ray to an optional ray parameter.
- `radiance.dfy`, module `Radiance`: `trace_radiance`. It states the selection rule declaratively (`NearestAmong`) and proves the loop against it.
- `raster.dfy`, module `Raster`: `Pixel`, the `Backbuffer` class over an `array<Pixel>`, the row-major index arithmetic, and `render`. `render` is proved to produce `Rendered(width, height, shade)`.
- `common.dfy`, modules `Common` and `Clamping`. `Common` holds the `xorshift32` state machine as a class with a `bv32` field. `Clamping` holds `clampf32` and `saturatef32` over `real`.

`src/main.rs` has no `mod common;` (src/main.rs:1-11), so `src/common.rs` is not compiled into the program. It is modelled on its own.

## Model

| member | source | states |
|---|---|---|
| `Raster.Backbuffer.constructor` | src/main.rs:41-52 | the new buffer keeps `width` and `height`, has exactly `width*height` pixels, and every pixel is `Pixel(0, 0, 0)`; `width*height` must fit in a u32 |
| `Raster.Backbuffer.Set` | src/main.rs:54-57 | the cell at `y*width + x` becomes `pixel` and every other cell keeps its value; `width`, `height`, the array and its length do not change; the index must lie inside the buffer (otherwise `set` panics) |
| `Raster.IndexWrapsToNextRow` | src/main.rs:55-56 | `x` is not checked against `width`: column `x + width` of row `y` is the same cell as column `x` of row `y + 1` |
| `Raster.IndexOrder` | src/main.rs:55 | in row-major order a cell in an earlier row, or earlier in the same row, has a smaller index |
| `Raster.IndexInBounds` | src/main.rs:47-55 | every cell (x, y) with `x < width`, `y < height` has an index below `width*height`, so `render`'s writes stay inside the buffer |
| `Raster.IndexDecodes` | src/main.rs:55 | the index determines the cell: `index / width == y` and `index % width == x` when `x < width` |
| `Raster.IndexCovers` | src/main.rs:47-55 | every index below `width*height` is the index of one cell of the grid |
| `Raster.RenderedAt` | src/main.rs:223-240 | the image `render` produces holds `shade(x, y)` at index `y*width + x` for every cell of the grid |
| `Raster.EveryCellRendered` | src/main.rs:223-240 | a buffer of `width*height` pixels that holds `shade(x, y)` at every cell is the whole rendered image, so no cell is left out |
| `Raster.Render` | src/main.rs:223-240 | after the two nested loops the pixel array equals `Rendered(width, height, shade)`; in the loops, the cells before `y*width + x` are shaded and those at or after it are untouched |
| `Geometry.Intersect` | src/main.rs:172-195 | a hit exists exactly when the geometric test finds a parameter; the hit carries that parameter and borrows the material of the sphere that produced it |
| `Radiance.NearestUnique` | src/main.rs:200-212 | with the strict `<` rule, at most one sphere is the nearest (ties go to the earliest), so the selection is deterministic |
| `Radiance.NearestExists` | src/main.rs:200-212 | whenever some sphere is hit, a nearest sphere exists: minimal parameter, and earliest among equal ones |
| `Radiance.NearestHit` | src/main.rs:198-212 | the scan ends with no hit exactly when no sphere is hit; for the nearest sphere (minimal parameter, earliest on ties), whenever one exists, it returns that sphere's parameter and material |
| `Radiance.TraceRadiance` | src/main.rs:197-221 | black when no sphere is hit; otherwise the colour of the nearest sphere's material; when every sphere's colour is non-black, the result is black if and only if nothing is hit |
| `Common.Xorshift32.constructor` | src/common.rs:19 | the generator state starts at 314159265 |
| `Common.Xorshift32.Next` | src/common.rs:20-27 | the state becomes `Step(old state)`: `x ^= x<<13; x ^= x>>17; x ^= x<<5` in that order, with truncating 32-bit shifts; the call returns the new state, which is never 0 |
| `Common.StepPreservesNonzero` | src/common.rs:18-26 | a nonzero state never steps to zero |
| `Common.StateAfterNonzero` | src/common.rs:18-26 | from the seed 314159265, the state after any number of calls is nonzero, so `xorshift32` never returns 0 |
| `Common.FirstOutputs` | src/common.rs:19-25 | the output sequence is fixed: the first three calls return 0xb11ddc17, 0x59781258 and 0x3d54c7e1 |
| `Clamping.Clamp` | src/common.rs:34-42 | the result is `x`, `min` or `max`; `x > max` gives `max` (the upper bound is tested first); with `min <= max` it lies in `[min, max]`, and it equals `x` when `x` is already in range; with `max < min` it is `max` exactly when `x > max`; `x` below `min` and not above `max` gives `min` |
| `Clamping.Saturate` | src/common.rs:44-46 | the result lies in `[0, 1]`, is the identity on `[0, 1]`, 0 below and 1 above |
| `Clamping.ClampIsMinMax` | src/common.rs:34-42 | with `min <= max`, `clampf32` equals `max(min, min(max, x))` |
| `Clamping.ClampIdempotent` | src/common.rs:34-42 | with `min <= max`, clamping an already clamped value returns it unchanged |
| `Clamping.ClampInvertedOscillates` | src/common.rs:34-42 | with `max < min`, clamping twice differs from clamping once, and the two results are `max` and `min` in some order, so repeated clamping alternates between them |
| `Clamping.ClampMonotone` | src/common.rs:34-42 | with `min <= max`, `clampf32` is monotone in `x` |

## Left out

- Window creation, the event loop, the glium/glutin context, frame presentation and the `glDrawPixels` foreign call (src/main.rs:60-126). These are I/O and foreign calls.
- The per-frame scene animation with `sin`/`cos` (src/main.rs:92-100). It is f32 numerics; `TraceRadiance` takes any `Scene`.
- Geometry.Intersect: the sphere geometry (dot product, length, `sqrt`, `normalize`, the `projection < 0` early exit, the choice of the smaller root; src/main.rs:172-195) is f32 arithmetic built on the `hmath` crate, which is not part of this model. It is the abstract `HitTest`. `Hit` keeps the parameter and the material, not the position or the normal.
- Raster.Render: camera ray generation (src/main.rs:226-234), `trace_radiance` and `Pixel::from_unit` are folded into the abstract `shade(x, y)`. `Plane` and `Camera` are therefore not modelled.
- `Pixel::from_unit`, `Pixel::from_signed_unit` (src/main.rs:24-32) and the copy in src/common.rs:48-54 are f32-to-u8 `as` casts. They are left out as float conversions.
- `random32` (src/common.rs:29-32) divides the u32 output as a float. It is left out.
- f32 is modelled as `real`: there is no NaN, infinity or rounding. `clampf32` is therefore modelled for non-NaN inputs only.
- The u32 overflow of `width*height` and of `y*width + x` is not modelled as a debug-mode panic. The first is a precondition of the constructor. The second is excluded by `Set`'s precondition that the index lies inside the buffer.
- Radiance.TraceRadiance: the result is black if and only if no sphere is hit only when no sphere has a black colour. A black sphere that is hit also gives black, so the converse is stated under that hypothesis.
- Clamping.ClampIdempotent: stated for `min <= max` only, because with inverted bounds clamping is not idempotent (see `Clamping.ClampInvertedOscillates`).
- Common.Xorshift32: the process-wide `static mut` is a field of one object, and the `unsafe` access is not a concurrency concern here. A ghost counter of calls ties the state to `StateAfter(calls)`.
- Common.Step: not proved to be a bijection on 32-bit words; the model proves only that it keeps a nonzero state nonzero.
