# Lazy bitmap font: glyph atlas and metric derivation

A Dafny model of the core of GDX-LAZY-FONT's `LazyBitmapFont`. The font
rasterizes glyphs only when they are first needed and packs them into one
4096 x 4096 texture.

- `LazyFontData` (`lazy_font_data.dfy`) models `LazyBitmapFontData`. It holds
  an immutable atlas state: the packing cursor (`currX`, `currY`, `lineH`),
  the fixed `mapW`/`mapH`, the `page` counter, the glyph cache keyed by
  character and the font's region list. The module also has the pure
  operations `Init` (the constructor), `Advance` (one cursor step), `Generate`
  (`generateGlyph`), `GetGlyph` (`getGlyph`) and `SetGlyph`. Its lemmas state
  the invariant every reachable state keeps, cache coherence, and what one
  generation does.
- `Shelves` (`shelves.dfy`) states the shelf structure the cursor maintains.
  The regions placed since the last wrap lie side by side from column 0 on
  the cursor's row. The cursor column is their total width, and `lineH` is
  the tallest of them.
- `LazyFont` (`lazy_font.dfy`) models `genrateData`. It makes sure a space
  glyph exists, probes x-height and cap-height, throws the two
  initialisation errors, and derives `ascent` and `down` under the flip
  convention.
- `Wrappers` (`wrappers.dfy`) holds `Option` (Java `null`) and `Result`
  (a thrown exception).

The rasterizer is a parameter of type `Char16 -> Option<Rendered>`. A
`Rendered` value is a glyph plus an optional bitmap size, and the rasterizer
is already bound to the font size and to `flip = false`. The face is a
`FaceMetrics` value (ascender, descender and height, already converted to
integers) plus a probe of type `Char16 -> Option<int>`. The probe gives the
outline height of a character, or nothing when the face cannot load it. A
Java `char` is the newtype `Char16`.

The model follows the code as written, including behaviour a reader of the
class might not expect:

- The packer does not keep regions apart or inside the texture. A glyph that
  triggers a wrap is still drawn at the old `currX`, so it can run past
  `mapW`. Its height never goes into `lineH`, and nothing checks `mapH`.
  `FullWidthGlyphIsOverdrawn` shows two glyphs drawn at the same origin, and
  no disjointness or bounds property is claimed.
- With widths 6 and 6 in a 10-wide atlas, the second glyph is at (6, 0) on
  the first shelf, and only the glyph after it starts a new shelf
  (`ConsecutivePlacement`).
- The x-height check compares with 0, and the cap-height check compares with 1.
  A missing probe character is caught only when the value held before
  probing equals that constant (`MissingXProbeUndetected`,
  `CapHeightOneRejected`).
- A generated glyph's region is `regions[base + page - 1]`, where `base` is
  the number of regions the font held before the first glyph; with one
  inherited region it is `regions[page]` (`LazyFontData.Valid`).

## Model

| member | source | states |
|---|---|---|
| LazyFontData.Init | src/com/rpsg/lazyFont/lazyBitmapFont.java:153-159 | the constructor makes a 4096 x 4096 atlas with the cursor at (0, 0), an empty shelf, page 1 and an empty cache, and this state satisfies the invariant |
| LazyFontData.Advance | src/com/rpsg/lazyFont/lazyBitmapFont.java:180-187 | a cursor inside the atlas width stays inside it, and the row never moves up. A bitmap reaching the right edge opens an empty shelf at column 0, `lineH` lower. Otherwise the cursor moves right by the bitmap width, and the shelf height becomes the larger of the old height and the bitmap's |
| LazyFontData.Generate | src/com/rpsg/lazyFont/lazyBitmapFont.java:169-197 | returns a glyph exactly when the rasterizer gives a bitmap; otherwise it returns null and changes nothing. On success the region is at the pre-call cursor with the bitmap's size, and exactly one region is appended. The glyph gets the pre-call page, the counter grows by one, and the glyph is cached under `ch` |
| LazyFontData.GetGlyph | src/com/rpsg/lazyFont/lazyBitmapFont.java:162-167 | a cache hit returns the stored glyph with the state unchanged. NUL is never generated. The state changes only on a miss for a character the rasterizer can render. A returned glyph is the one cached under `ch`, and existing cache entries are never replaced |
| LazyFontData.SetGlyph | src/com/rpsg/lazyFont/lazyBitmapFont.java:84 | the glyph is stored under the character, other entries stay as they were, and the cursor, page and regions are untouched |
| LazyFontData.GeneratePreservesValid | src/com/rpsg/lazyFont/lazyBitmapFont.java:178-194 | generation keeps the invariant: the cursor stays inside the width, the page counter is one more than the number of generated regions, and each placed glyph's page locates its own region |
| LazyFontData.GetGlyphPreservesValid | src/com/rpsg/lazyFont/lazyBitmapFont.java:162-167 | a lookup keeps the invariant |
| LazyFontData.SetGlyphPreservesValid | src/com/rpsg/lazyFont/lazyBitmapFont.java:84 | storing a glyph without a region keeps the invariant |
| LazyFontData.GetGlyphIdempotent | src/com/rpsg/lazyFont/lazyBitmapFont.java:162-196 | asking again for a character just looked up returns the same glyph and leaves the state as the first call left it, whether that call hit, generated or found nothing |
| LazyFontData.RunInvariant | src/com/rpsg/lazyFont/lazyBitmapFont.java:180-193 | over any sequence of lookups the invariant holds and the cursor never moves up. Regions are only appended. Page and region count both grow by exactly the number of generations, and cached glyphs stay as they were |
| LazyFontData.Reachable | src/com/rpsg/lazyFont/lazyBitmapFont.java:136-192 | from the constructor every reachable state has `0 <= currX < mapW`, `currY >= 0` and `lineH >= 0`, and `page` is 1 plus the number of successful generations |
| LazyFontData.ConsecutivePlacement | src/com/rpsg/lazyFont/lazyBitmapFont.java:178-187 | of two consecutive glyphs, the second sits right next to the first on the same row unless the first reached the right edge. If it did, the second starts at column 0, lower by the shelf height measured before the first glyph |
| LazyFontData.FullWidthGlyphIsOverdrawn | src/com/rpsg/lazyFont/lazyBitmapFont.java:178-183 | a bitmap as wide as the atlas wraps without moving the row down, so the next glyph is drawn at the same origin (0, 0) |
| Shelves.InitShelf | src/com/rpsg/lazyFont/lazyBitmapFont.java:157-159 | the constructor starts with an empty open shelf after the inherited regions |
| Shelves.ExtendShelf | src/com/rpsg/lazyFont/lazyBitmapFont.java:184-186 | a glyph placed at the cursor without reaching the edge joins the open shelf. The shelf's total width is the cursor column and its tallest glyph is `lineH` |
| Shelves.GenerateShelf | src/com/rpsg/lazyFont/lazyBitmapFont.java:178-187 | a generated glyph either extends the open shelf or closes it, and after a close a new empty shelf begins after the appended region |
| Shelves.GetGlyphShelf | src/com/rpsg/lazyFont/lazyBitmapFont.java:162-167 | a lookup keeps some open shelf, never starting earlier than before |
| Shelves.RunShelf | src/com/rpsg/lazyFont/lazyBitmapFont.java:180-190 | after any sequence of lookups the regions since the last wrap lie left to right from column 0 on the cursor's row. The cursor column is their total width and `lineH` is the tallest of them |
| Shelves.ReachableShelf | src/com/rpsg/lazyFont/lazyBitmapFont.java:153-190 | every state reachable from the constructor has such an open shelf, lying after the inherited regions |
| LazyFont.WithSpace | src/com/rpsg/lazyFont/lazyBitmapFont.java:78-87 | afterwards the space glyph is cached. If none was found, a synthetic one with id 32 and advance `spaceWidth` is added, with no region and no cursor or page change. A zero-width space glyph gets width `xadvance + padRight`, and every other cache entry stays as it was |
| LazyFont.ProbeHeight | src/com/rpsg/lazyFont/lazyBitmapFont.java:96-101 | the result is the height of the first probe character the face can load, or the value held before when it loads none |
| LazyFont.GenerateData | src/com/rpsg/lazyFont/lazyBitmapFont.java:76-119 | fails with the x-height error exactly when the probed x-height is 0. It fails with the cap-height error exactly when the x-height passed and the probed cap-height is 1. On success, descent and line height come from the face, and ascent is the ascender minus the cap-height. `down` is minus the line height, both negated when flipped, and the atlas carries the space glyph |
| LazyFont.FlipNegates | src/com/rpsg/lazyFont/lazyBitmapFont.java:114-119 | flipping does not change success or failure, the atlas, or any metric other than the flag, `ascent` and `down`, and those two are negated |
| LazyFont.GenerateDataPreservesValid | src/com/rpsg/lazyFont/lazyBitmapFont.java:79-87 | a successful initialisation keeps the atlas invariant and leaves the space glyph cached |
| LazyFont.WithSpacePreservesValid | src/com/rpsg/lazyFont/lazyBitmapFont.java:79-87 | looking up, synthesising or widening the space glyph keeps the atlas invariant |
| LazyFont.MissingXProbeUndetected | src/com/rpsg/lazyFont/lazyBitmapFont.java:96-103 | when the face loads no x probe and the x-height held before is non-zero, the x-height check does not fire, and that earlier value becomes the x-height |
| LazyFont.CapHeightOneRejected | src/com/rpsg/lazyFont/lazyBitmapFont.java:104-113 | a face whose first loadable cap character measures exactly 1 is rejected with the cap-height error |

## Left out

- Pixmap and texture creation, `oneBigTexture.draw`, pixel-format conversion and `map.dispose()` (lines 155-156, 175, 179, 188). These are GPU calls, and the blit is an opaque side effect.
- FreeType rasterization (`generateGlyphAndBitmap`, `loadChar`, `getMetrics`) and `FreeType.toInt`. They are abstracted as the rasterizer and face-probe parameters, with integer results.
- `setGlyphRegion`'s floating-point texture-coordinate arithmetic. It is modelled as attaching the region to the glyph.
- The reflection-based field injection and the early return when it fails (lines 53-59, 66-73). This is JVM plumbing.
- The global generator and the constructor's null-generator exception (lines 35-47). The rasterizer is always a given function.
- `dispose` (lines 123-129). It only releases resources.
- The fields `genrateData` reads from the inherited font-data class: `spaceWidth`, `padRight`, `xChars`, `capChars`, and the x-height and cap-height held before probing. That class is not part of this model, so these are inputs (`Inherited`).
- Floating point: the inherited `spaceWidth`, `padRight`, `xHeight` and `capHeight` and the metric fields written at lines 90-119 (`ascent`, `descent`, `lineHeight`, `xHeight`, `capHeight`, `down`) are floats in the source, and the model takes them as integers. This is exact for the `FreeType.toInt` results and for integral inherited values. It drops the truncation of a fractional `padRight` in `(int) (xadvance + padRight)` at line 87.
- The flip flag comes from a `FreeTypeFontParameter` that the constructor leaves at its default. `GenerateData` takes it as a parameter.
- Glyphs are always rasterized unflipped: line 170 passes `false` as the rasterizer's flip argument, so a generated glyph's offsets never depend on the flip flag. The model's rasterizer is a single unflipped function.
- LazyFontData.Reachable: does not model Java's 32-bit wrap-around of `page`, `currX + w` or `currY`. Each character is generated at most once through `getGlyph`, so `page` stays below 65538. `currY` would need glyph heights summing past 2^31, far beyond the texture.
- Region disjointness and in-bounds placement. The code does not ensure either (see `FullWidthGlyphIsOverdrawn`), so neither is stated.
- The base font's own glyphs and regions, beyond the number of regions it holds (`base` in `Valid`).
