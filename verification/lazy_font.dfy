/** The initialisation of `LazyBitmapFont` (`genrateData`): make sure a space
    glyph exists, copy the face metrics, measure x-height and cap-height on
    probe characters, and derive `ascent` and `down` under the vertical-flip
    convention.

    The face is abstract: its size metrics arrive already converted to
    integers, and the probe yields the height of a character's outline, or
    nothing when the face cannot load that character. */
module LazyFont {
  import opened Wrappers
  import opened LazyFontData

  /** Ascender, descender and line height of the sized face. */
  datatype FaceMetrics = FaceMetrics(ascender: int, descender: int, height: int)

  /** Loads a character into the face and reports its outline height. */
  type FaceProbe = Char16 -> Option<int>

  /** Fields of the font data that the inherited font class owns and that
      `genrateData` reads: the space advance, the right padding, the two
      probe lists, and the x-height and cap-height held before probing. */
  datatype Inherited = Inherited(
    spaceWidth: int,
    padRight: int,
    xChars: seq<Char16>,
    capChars: seq<Char16>,
    xHeight: int,
    capHeight: int)

  /** The font metrics block a text layout reads. */
  datatype Metrics = Metrics(
    flipped: bool,
    ascent: int,
    descent: int,
    lineHeight: int,
    xHeight: int,
    capHeight: int,
    down: int)

  /** The two exceptions initialisation can throw. */
  datatype InitError = NoXHeight | NoCapHeight

  /** A fully initialised font: atlas state plus metrics. */
  datatype Font = Font(data: Atlas, metrics: Metrics)

  /** The glyph `new Glyph()` makes for a missing space: only its advance
      and id are set. */
  function SyntheticSpace(spaceWidth: int): Glyph {
    Glyph(id := SPACE as int, width := 0, height := 0, xoffset := 0, yoffset := 0,
          xadvance := spaceWidth, page := 0, region := None)
  }

  /** Looks the space glyph up (which may generate it), stores a synthetic
      one when there is none, and gives a zero-width space glyph the width
      `xadvance + padRight`. */
  function WithSpace(a: Atlas, rast: Rasterizer, spaceWidth: int, padRight: int): (r: Atlas)
    ensures
      var s := GetGlyph(a, rast, SPACE);
      var g := if s.glyph.Some? then s.glyph.value else SyntheticSpace(spaceWidth);
      && SPACE in r.glyphs
      && r.glyphs[SPACE] == (if g.width == 0 then g.(width := g.xadvance + padRight) else g)
      && r.glyphs.Keys == s.next.glyphs.Keys + {SPACE}
      && (forall c :: c in s.next.glyphs && c != SPACE ==> r.glyphs[c] == s.next.glyphs[c])
      && r.cursor == s.next.cursor && r.page == s.next.page && r.regions == s.next.regions
      && r.mapW == s.next.mapW && r.mapH == s.next.mapH
    ensures SPACE !in a.glyphs && !Rasterizes(rast, SPACE) ==>
      && r.glyphs[SPACE].id == 32
      && r.glyphs[SPACE].xadvance == spaceWidth
      && r.glyphs[SPACE].width == spaceWidth + padRight
      && r.glyphs[SPACE].region.None?
      && r.regions == a.regions && r.cursor == a.cursor && r.page == a.page
  {
    var s := GetGlyph(a, rast, SPACE);
    var g := match s.glyph
      case Some(found) => found
      case None => SyntheticSpace(spaceWidth);
    var g' := if g.width == 0 then g.(width := g.xadvance + padRight) else g;
    SetGlyph(s.next, SPACE, g')
  }

  /** `chars[i]` is the first character in `chars` the face can load. */
  predicate FirstLoadable(probe: FaceProbe, chars: seq<Char16>, i: int) {
    && 0 <= i < |chars|
    && probe(chars[i]).Some?
    && forall j :: 0 <= j < i ==> probe(chars[j]).None?
  }

  /** The probe loop: the height of the first character in `chars` the face
      can load, or `current` when it loads none of them. */
  function ProbeHeight(probe: FaceProbe, chars: seq<Char16>, current: int): (h: int)
    ensures (forall i :: 0 <= i < |chars| ==> probe(chars[i]).None?) ==> h == current
    ensures forall i :: FirstLoadable(probe, chars, i) ==> h == probe(chars[i]).value
    decreases |chars|
  {
    if |chars| == 0 then current
    else match probe(chars[0])
      case Some(v) => v
      case None =>
        var rest := chars[1..];
        assert forall i :: 1 <= i < |chars| ==> chars[i] == rest[i - 1];
        ProbeHeight(probe, rest, current)
  }

  /** `genrateData`, starting from the atlas the constructor made. */
  function GenerateData(data: Atlas, rast: Rasterizer, face: FaceMetrics, probe: FaceProbe,
                        base: Inherited, flip: bool): (r: Result<Font, InitError>)
    ensures r == Failure(NoXHeight) <==> ProbeHeight(probe, base.xChars, base.xHeight) == 0
    ensures r == Failure(NoCapHeight) <==>
      ProbeHeight(probe, base.xChars, base.xHeight) != 0 &&
      ProbeHeight(probe, base.capChars, base.capHeight) == 1
    ensures r.Success? ==>
      var m := r.value.metrics;
      && m.flipped == flip
      && m.descent == face.descender
      && m.lineHeight == face.height
      && m.xHeight == ProbeHeight(probe, base.xChars, base.xHeight)
      && m.xHeight != 0
      && m.capHeight == ProbeHeight(probe, base.capChars, base.capHeight)
      && m.capHeight != 1
      && (if flip then -m.ascent else m.ascent) == face.ascender - m.capHeight
      && (if flip then m.down else -m.down) == m.lineHeight
      && r.value.data == WithSpace(data, rast, base.spaceWidth, base.padRight)
  {
    var a := WithSpace(data, rast, base.spaceWidth, base.padRight);
    var xHeight := ProbeHeight(probe, base.xChars, base.xHeight);
    if xHeight == 0 then Failure(NoXHeight)
    else
      var capHeight := ProbeHeight(probe, base.capChars, base.capHeight);
      if capHeight == 1 then Failure(NoCapHeight)
      else
        var ascent := face.ascender - capHeight;
        var down := -face.height;
        Success(Font(a, Metrics(
          flipped := flip,
          ascent := if flip then -ascent else ascent,
          descent := face.descender,
          lineHeight := face.height,
          xHeight := xHeight,
          capHeight := capHeight,
          down := if flip then -down else down)))
  }

  /** Flipping changes nothing but the sign of `ascent` and `down` (and the
      flag itself); success and failure do not depend on it. */
  lemma FlipNegates(data: Atlas, rast: Rasterizer, face: FaceMetrics, probe: FaceProbe, base: Inherited)
    ensures
      var up := GenerateData(data, rast, face, probe, base, false);
      var flipped := GenerateData(data, rast, face, probe, base, true);
      && (up.Success? <==> flipped.Success?)
      && (up.Failure? ==> up == flipped)
      && (up.Success? ==>
            && flipped.value.data == up.value.data
            && flipped.value.metrics == up.value.metrics.(flipped := true,
                                                          ascent := -up.value.metrics.ascent,
                                                          down := -up.value.metrics.down))
  {
  }

  /** Initialisation keeps the atlas invariant, and afterwards the space
      glyph is cached. */
  lemma GenerateDataPreservesValid(data: Atlas, rast: Rasterizer, face: FaceMetrics,
                                   probe: FaceProbe, base: Inherited, flip: bool, n: nat)
    requires Valid(data, n)
    ensures
      var r := GenerateData(data, rast, face, probe, base, flip);
      r.Success? ==> Valid(r.value.data, n) && SPACE in r.value.data.glyphs
  {
    WithSpacePreservesValid(data, rast, base.spaceWidth, base.padRight, n);
  }

  /** Looking up or synthesising the space glyph keeps the atlas invariant. */
  lemma WithSpacePreservesValid(a: Atlas, rast: Rasterizer, spaceWidth: int, padRight: int, n: nat)
    requires Valid(a, n)
    ensures Valid(WithSpace(a, rast, spaceWidth, padRight), n)
  {
    var s := GetGlyph(a, rast, SPACE);
    GetGlyphPreservesValid(a, rast, SPACE, n);
    var r := WithSpace(a, rast, spaceWidth, padRight);
    forall c | c in r.glyphs && r.glyphs[c].region.Some?
      ensures 1 <= r.glyphs[c].page < r.page
      ensures r.regions[n + r.glyphs[c].page - 1] == r.glyphs[c].region.value
    {
      if c == SPACE {
        if s.glyph.Some? {
          assert s.next.glyphs[SPACE] == s.glyph.value;
        }
      } else {
        assert r.glyphs[c] == s.next.glyphs[c];
      }
    }
  }

  /** The x-height check only looks for zero: when the face loads none of
      the x probes and the inherited x-height is not zero, initialisation
      goes on with that inherited value. */
  lemma MissingXProbeUndetected(data: Atlas, rast: Rasterizer, face: FaceMetrics, probe: FaceProbe,
                                base: Inherited, flip: bool)
    requires forall i :: 0 <= i < |base.xChars| ==> probe(base.xChars[i]).None?
    requires base.xHeight != 0
    ensures
      var r := GenerateData(data, rast, face, probe, base, flip);
      r != Failure(NoXHeight) && (r.Success? ==> r.value.metrics.xHeight == base.xHeight)
  {
  }

  /** The cap-height check uses 1 as its "not found" value, so a face whose
      first loadable cap character measures exactly one pixel is rejected
      as if it had none. */
  lemma CapHeightOneRejected(data: Atlas, rast: Rasterizer, face: FaceMetrics, probe: FaceProbe,
                             base: Inherited, flip: bool, i: nat)
    requires FirstLoadable(probe, base.capChars, i) && probe(base.capChars[i]) == Some(1)
    requires ProbeHeight(probe, base.xChars, base.xHeight) != 0
    ensures GenerateData(data, rast, face, probe, base, flip) == Failure(NoCapHeight)
  {
  }
}
