/** Glyph atlas bookkeeping of `LazyBitmapFontData`: one fixed-size texture
    filled by a shelf-packing cursor, a glyph cache keyed by character, the
    page counter handed to each new glyph, and the font's list of texture
    regions.

    The rasterizer is abstract: for a character it yields nothing, a glyph
    without a bitmap, or a glyph with a bitmap of some size. Drawing the
    bitmap into the texture is an opaque side effect and is not modelled. */
module LazyFontData {
  import opened Wrappers

  /** A Java `char`: an unsigned 16-bit code unit. */
  newtype Char16 = c: int | 0 <= c < 0x1_0000

  /** The character code `getGlyph` never generates a glyph for. */
  const NUL: Char16 := 0

  const SPACE: Char16 := 32

  /** Width and height of the one big atlas texture. */
  const MAP_SIZE: int := 0x1000

  /** A texture region: a w x h rectangle of the atlas with top-left (x, y). */
  datatype Region = Region(x: int, y: int, w: nat, h: nat)

  /** The glyph fields the model tracks; `region` is attached once the
      glyph is placed in the atlas. */
  datatype Glyph = Glyph(
    id: int,
    width: int,
    height: int,
    xoffset: int,
    yoffset: int,
    xadvance: int,
    page: int,
    region: Option<Region>)

  /** Size of a rasterized bitmap in pixels. */
  datatype Bitmap = Bitmap(w: nat, h: nat)

  /** What the rasterizer returns for one character: the glyph metrics and,
      possibly, a bitmap. */
  datatype Rendered = Rendered(glyph: Glyph, bitmap: Option<Bitmap>)

  /** The rasterizer, already bound to the font size and to `flip = false`. */
  type Rasterizer = Char16 -> Option<Rendered>

  /** Packing cursor: the next glyph goes at (x, y); lineH is the height of
      the shelf being filled. */
  datatype Cursor = Cursor(x: int, y: int, lineH: int)

  /** The whole mutable state of a `LazyBitmapFontData` that the model keeps,
      together with the font's region list. */
  datatype Atlas = Atlas(
    cursor: Cursor,
    mapW: int,
    mapH: int,
    page: int,
    glyphs: map<Char16, Glyph>,
    regions: seq<Region>)

  /** Result of a lookup: the glyph returned (None for `null`) and the state after. */
  datatype Step = Step(glyph: Option<Glyph>, next: Atlas)

  function Max(a: int, b: int): int {
    if a > b then a else b
  }

  predicate CursorOk(c: Cursor, mapW: int) {
    0 <= c.x < mapW && 0 <= c.y && 0 <= c.lineH
  }

  /** The state invariant. `base` is the number of regions the font already
      held before any glyph was generated. The page counter is one more than
      the number of regions generated so far, and a placed glyph's page
      number locates its own region in the region list: with one inherited
      region, `regions[g.page]` is the region of glyph `g`. */
  predicate Valid(a: Atlas, base: nat) {
    && 0 < a.mapW
    && CursorOk(a.cursor, a.mapW)
    && 1 <= a.page
    && |a.regions| == base + a.page - 1
    && forall c :: c in a.glyphs && a.glyphs[c].region.Some? ==>
         && 1 <= a.glyphs[c].page < a.page
         && a.regions[base + a.glyphs[c].page - 1] == a.glyphs[c].region.value
  }

  /** The constructor: an empty 4096 x 4096 atlas, cursor at the origin,
      page counter at 1, keeping the regions the font already has. */
  function Init(inherited: seq<Region>): (a: Atlas)
    ensures Valid(a, |inherited|)
    ensures a.cursor == Cursor(0, 0, 0) && a.page == 1
    ensures a.mapW == MAP_SIZE && a.mapH == MAP_SIZE
    ensures a.glyphs == map[] && a.regions == inherited
  {
    Atlas(Cursor(0, 0, 0), MAP_SIZE, MAP_SIZE, 1, map[], inherited)
  }

  /** Moves the cursor past a w x h bitmap that was just drawn at it. When the
      bitmap reaches the right edge the cursor starts a new, empty shelf at
      column 0, `lineH` below; otherwise it moves right by `w` and the shelf
      grows to the taller of itself and the bitmap. The wrapping bitmap's
      own height is not added to the shelf. */
  function Advance(c: Cursor, w: nat, h: nat, mapW: int): (c': Cursor)
    ensures CursorOk(c, mapW) ==> CursorOk(c', mapW)
    ensures c.lineH >= 0 ==> c'.y >= c.y
    ensures c.x + w >= mapW ==> c'.x == 0 && c'.y == c.y + c.lineH && c'.lineH == 0
    ensures c.x + w < mapW ==>
      && c'.x == c.x + w
      && c'.y == c.y
      && c'.lineH >= c.lineH
      && c'.lineH >= h
      && (c'.lineH == c.lineH || c'.lineH == h)
  {
    if c.x + w >= mapW then Cursor(0, c.y + c.lineH, 0)
    else Cursor(c.x + w, c.y, Max(c.lineH, h))
  }

  /** True when the rasterizer yields a bitmap for `ch`. */
  predicate Rasterizes(rast: Rasterizer, ch: Char16) {
    rast(ch).Some? && rast(ch).value.bitmap.Some?
  }

  /** `generateGlyph`: rasterize `ch`; on a miss return `null` and change
      nothing; otherwise place the bitmap at the cursor, append its region,
      give the glyph the current page number and cache it under `ch`. */
  function Generate(a: Atlas, rast: Rasterizer, ch: Char16): (r: Step)
    ensures r.glyph.Some? <==> Rasterizes(rast, ch)
    ensures r.glyph.None? ==> r.next == a
    ensures r.glyph.Some? ==>
      var b := rast(ch).value.bitmap.value;
      var placed := Region(a.cursor.x, a.cursor.y, b.w, b.h);
      && r.glyph.value == rast(ch).value.glyph.(page := a.page, region := Some(placed))
      && r.next.regions == a.regions + [placed]
      && r.next.page == a.page + 1
      && r.next.glyphs == a.glyphs[ch := r.glyph.value]
      && r.next.cursor == Advance(a.cursor, b.w, b.h, a.mapW)
      && r.next.mapW == a.mapW && r.next.mapH == a.mapH
  {
    match rast(ch)
    case None => Step(None, a)
    case Some(gab) =>
      match gab.bitmap
      case None => Step(None, a)
      case Some(b) =>
        var rg := Region(a.cursor.x, a.cursor.y, b.w, b.h);
        var g := gab.glyph.(page := a.page, region := Some(rg));
        Step(Some(g), a.(cursor := Advance(a.cursor, b.w, b.h, a.mapW),
                         page := a.page + 1,
                         glyphs := a.glyphs[ch := g],
                         regions := a.regions + [rg]))
  }

  /** `getGlyph`: a cached glyph is returned as is; a miss on any character
      but NUL generates one. */
  function GetGlyph(a: Atlas, rast: Rasterizer, ch: Char16): (r: Step)
    ensures ch in a.glyphs ==> r.glyph == Some(a.glyphs[ch]) && r.next == a
    ensures ch !in a.glyphs && ch == NUL ==> r.glyph.None? && r.next == a
    ensures ch !in a.glyphs && ch != NUL ==> r == Generate(a, rast, ch)
    ensures r.next != a ==> ch !in a.glyphs && ch != NUL && Rasterizes(rast, ch)
    ensures r.glyph.None? ==> r.next == a
    ensures r.glyph.Some? ==> ch in r.next.glyphs && r.next.glyphs[ch] == r.glyph.value
    ensures forall c :: c in a.glyphs ==> c in r.next.glyphs && r.next.glyphs[c] == a.glyphs[c]
  {
    if ch in a.glyphs then Step(Some(a.glyphs[ch]), a)
    else if ch != NUL then Generate(a, rast, ch)
    else Step(None, a)
  }

  /** `setGlyph`: store a glyph under a character, leaving the rest alone. */
  function SetGlyph(a: Atlas, ch: Char16, g: Glyph): (r: Atlas)
    ensures ch in r.glyphs && r.glyphs[ch] == g
    ensures forall c :: c in a.glyphs && c != ch ==> c in r.glyphs && r.glyphs[c] == a.glyphs[c]
    ensures r.glyphs.Keys == a.glyphs.Keys + {ch}
    ensures r.cursor == a.cursor && r.page == a.page && r.regions == a.regions
    ensures r.mapW == a.mapW && r.mapH == a.mapH
  {
    a.(glyphs := a.glyphs[ch := g])
  }

  /** Generation keeps the state invariant: the new glyph's page locates the
      region just appended. */
  lemma GeneratePreservesValid(a: Atlas, rast: Rasterizer, ch: Char16, base: nat)
    requires Valid(a, base)
    ensures Valid(Generate(a, rast, ch).next, base)
  {
  }

  lemma GetGlyphPreservesValid(a: Atlas, rast: Rasterizer, ch: Char16, base: nat)
    requires Valid(a, base)
    ensures Valid(GetGlyph(a, rast, ch).next, base)
  {
    if ch !in a.glyphs && ch != NUL {
      GeneratePreservesValid(a, rast, ch, base);
    }
  }

  /** Storing a glyph that carries no region keeps the invariant. */
  lemma SetGlyphPreservesValid(a: Atlas, ch: Char16, g: Glyph, base: nat)
    requires Valid(a, base)
    requires g.region.None?
    ensures Valid(SetGlyph(a, ch, g), base)
  {
  }

  /** The cache is coherent: asking again for a character just looked up
      returns the same glyph and changes nothing, whether the first call hit
      the cache, generated the glyph, or found nothing. */
  lemma GetGlyphIdempotent(a: Atlas, rast: Rasterizer, ch: Char16)
    ensures
      var first := GetGlyph(a, rast, ch);
      GetGlyph(first.next, rast, ch) == Step(first.glyph, first.next)
  {
  }

  /** A sequence of `getGlyph` requests, as a text layout issues them. */
  function Run(a: Atlas, rast: Rasterizer, chars: seq<Char16>): Atlas
    decreases |chars|
  {
    if |chars| == 0 then a
    else Run(GetGlyph(a, rast, chars[0]).next, rast, chars[1..])
  }

  /** The number of requests in `chars` that made `getGlyph` generate a glyph. */
  function Generated(a: Atlas, rast: Rasterizer, chars: seq<Char16>): nat
    decreases |chars|
  {
    if |chars| == 0 then 0
    else
      var ch := chars[0];
      var hit := ch in a.glyphs || ch == NUL || !Rasterizes(rast, ch);
      (if hit then 0 else 1) + Generated(GetGlyph(a, rast, ch).next, rast, chars[1..])
  }

  /** Along any sequence of requests the invariant holds, the cursor never
      moves up, the region list only grows at its end, the page counter
      grows by exactly the number of generated glyphs, and cached glyphs are
      never replaced. */
  lemma {:induction false} RunInvariant(a: Atlas, rast: Rasterizer, chars: seq<Char16>, base: nat)
    requires Valid(a, base)
    ensures
      var z := Run(a, rast, chars);
      && Valid(z, base)
      && z.cursor.y >= a.cursor.y
      && a.regions <= z.regions
      && z.page == a.page + Generated(a, rast, chars)
      && |z.regions| == |a.regions| + Generated(a, rast, chars)
      && z.mapW == a.mapW && z.mapH == a.mapH
      && forall c :: c in a.glyphs ==> c in z.glyphs && z.glyphs[c] == a.glyphs[c]
    decreases |chars|
  {
    if |chars| > 0 {
      var s := GetGlyph(a, rast, chars[0]);
      GetGlyphPreservesValid(a, rast, chars[0], base);
      RunInvariant(s.next, rast, chars[1..], base);
    }
  }

  /** Every state reachable from the constructor keeps the cursor inside the
      atlas width, the shelf height non-negative, and the page counter at
      one plus the number of glyphs generated. */
  lemma Reachable(inherited: seq<Region>, rast: Rasterizer, chars: seq<Char16>)
    ensures
      var z := Run(Init(inherited), rast, chars);
      && 0 <= z.cursor.x < MAP_SIZE
      && 0 <= z.cursor.y
      && 0 <= z.cursor.lineH
      && z.page == 1 + Generated(Init(inherited), rast, chars)
      && Valid(z, |inherited|)
  {
    RunInvariant(Init(inherited), rast, chars, |inherited|);
  }

  /** Two glyphs generated one after the other: if the first did not reach
      the right edge the second sits right of it on the same shelf;
      otherwise the second starts a new shelf at column 0, lower by the
      shelf height measured before the first glyph. */
  lemma ConsecutivePlacement(a: Atlas, rast: Rasterizer, c1: Char16, c2: Char16)
    requires Rasterizes(rast, c1) && Rasterizes(rast, c2)
    ensures
      var s1 := Generate(a, rast, c1);
      var s2 := Generate(s1.next, rast, c2);
      var r1 := s1.glyph.value.region.value;
      var r2 := s2.glyph.value.region.value;
      && (a.cursor.x + r1.w < a.mapW ==> r2.x == r1.x + r1.w && r2.y == r1.y)
      && (a.cursor.x + r1.w >= a.mapW ==> r2.x == 0 && r2.y == r1.y + a.cursor.lineH)
  {
  }

  /** The packer does not keep regions apart: a bitmap as wide as the atlas
      wraps the cursor without moving it down, so the next glyph is drawn
      at the same origin, on top of it. */
  lemma FullWidthGlyphIsOverdrawn(rast: Rasterizer, c1: Char16, c2: Char16, h1: nat, w2: nat, h2: nat)
    requires c1 != NUL && c2 != NUL && c1 != c2
    requires Rasterizes(rast, c1) && rast(c1).value.bitmap.value == Bitmap(MAP_SIZE, h1)
    requires Rasterizes(rast, c2) && rast(c2).value.bitmap.value == Bitmap(w2, h2)
    ensures
      var s1 := GetGlyph(Init([]), rast, c1);
      var s2 := GetGlyph(s1.next, rast, c2);
      && s1.glyph.value.region == Some(Region(0, 0, MAP_SIZE, h1))
      && s2.glyph.value.region == Some(Region(0, 0, w2, h2))
  {
  }
}
