/** The shelf structure the packing cursor maintains. The regions placed
    since the last wrap form the open shelf: they lie side by side from
    column 0 at the cursor's row, the cursor's column is their total width
    and `lineH` is the tallest of them. A glyph that reaches the right edge
    closes the shelf (it stays on it) and the next shelf starts empty. */
module Shelves {
  import opened LazyFontData

  /** Total width of a run of regions. */
  function RowWidth(rs: seq<Region>): int
    decreases |rs|
  {
    if |rs| == 0 then 0 else RowWidth(rs[..|rs| - 1]) + rs[|rs| - 1].w
  }

  /** Height of the tallest region in a run, 0 for an empty run. */
  function RowHeight(rs: seq<Region>): int
    decreases |rs|
  {
    if |rs| == 0 then 0 else Max(RowHeight(rs[..|rs| - 1]), rs[|rs| - 1].h)
  }

  /** `regions[k..]` is the open shelf of `a`. */
  predicate OpenShelf(a: Atlas, k: nat) {
    && k <= |a.regions|
    && a.cursor.x == RowWidth(a.regions[k..])
    && a.cursor.lineH == RowHeight(a.regions[k..])
    && forall i :: k <= i < |a.regions| ==>
         a.regions[i].y == a.cursor.y && a.regions[i].x == RowWidth(a.regions[k..i])
  }

  /** The constructor starts with an empty open shelf after the inherited regions. */
  lemma InitShelf(inherited: seq<Region>)
    ensures OpenShelf(Init(inherited), |inherited|)
  {
  }

  /** Appending a region to a run adds its width and may raise the height. */
  lemma AppendToRow(rs: seq<Region>, k: nat, rg: Region)
    requires k <= |rs|
    ensures RowWidth((rs + [rg])[k..]) == RowWidth(rs[k..]) + rg.w
    ensures RowHeight((rs + [rg])[k..]) == Max(RowHeight(rs[k..]), rg.h)
  {
    var open := (rs + [rg])[k..];
    assert open[..|open| - 1] == rs[k..];
  }

  /** A glyph placed at the cursor without reaching the right edge joins
      the open shelf. */
  lemma ExtendShelf(a: Atlas, n: Atlas, rg: Region, k: nat)
    requires OpenShelf(a, k)
    requires rg.x == a.cursor.x && rg.y == a.cursor.y
    requires n.regions == a.regions + [rg]
    requires n.cursor == Cursor(a.cursor.x + rg.w, a.cursor.y, Max(a.cursor.lineH, rg.h))
    ensures OpenShelf(n, k)
  {
    AppendToRow(a.regions, k, rg);
    forall i | k <= i < |n.regions|
      ensures n.regions[i].y == n.cursor.y && n.regions[i].x == RowWidth(n.regions[k..i])
    {
      if i < |a.regions| {
        assert n.regions[k..i] == a.regions[k..i];
      } else {
        assert n.regions[k..i] == a.regions[k..];
      }
    }
  }

  /** A generated glyph either extends the open shelf, or closes it so that
      a new, empty shelf begins after the region just appended. */
  lemma GenerateShelf(a: Atlas, rast: Rasterizer, ch: Char16, k: nat)
    requires OpenShelf(a, k)
    ensures
      var s := Generate(a, rast, ch);
      var wraps := s.glyph.Some? && a.cursor.x + s.glyph.value.region.value.w >= a.mapW;
      OpenShelf(s.next, if wraps then |s.next.regions| else k)
  {
    var s := Generate(a, rast, ch);
    if s.glyph.Some? {
      var rg := s.glyph.value.region.value;
      if a.cursor.x + rg.w < a.mapW {
        ExtendShelf(a, s.next, rg, k);
      }
    }
  }

  lemma GetGlyphShelf(a: Atlas, rast: Rasterizer, ch: Char16, k: nat)
    requires OpenShelf(a, k)
    ensures exists k' :: k <= k' && OpenShelf(GetGlyph(a, rast, ch).next, k')
  {
    if ch !in a.glyphs && ch != NUL {
      GenerateShelf(a, rast, ch, k);
      var s := Generate(a, rast, ch);
      var wraps := s.glyph.Some? && a.cursor.x + s.glyph.value.region.value.w >= a.mapW;
      var k' := if wraps then |s.next.regions| else k;
      assert k <= k';
      assert OpenShelf(GetGlyph(a, rast, ch).next, k');
    } else {
      assert OpenShelf(GetGlyph(a, rast, ch).next, k);
    }
  }

  /** Every state reachable from the constructor has an open shelf: the
      cursor column is the total width, and `lineH` the tallest height, of
      the regions laid left to right from column 0 on the cursor's row
      since the last wrap. */
  lemma {:induction false} RunShelf(a: Atlas, rast: Rasterizer, chars: seq<Char16>, k: nat)
    requires OpenShelf(a, k)
    ensures exists k' :: k <= k' && OpenShelf(Run(a, rast, chars), k')
    decreases |chars|
  {
    if |chars| == 0 {
      assert OpenShelf(Run(a, rast, chars), k);
    } else {
      var n := GetGlyph(a, rast, chars[0]).next;
      GetGlyphShelf(a, rast, chars[0], k);
      var k' :| k <= k' && OpenShelf(n, k');
      RunShelf(n, rast, chars[1..], k');
      var k'' :| k' <= k'' && OpenShelf(Run(n, rast, chars[1..]), k'');
      assert Run(a, rast, chars) == Run(n, rast, chars[1..]);
      assert OpenShelf(Run(a, rast, chars), k'');
    }
  }

  lemma ReachableShelf(inherited: seq<Region>, rast: Rasterizer, chars: seq<Char16>)
    ensures exists k :: |inherited| <= k && OpenShelf(Run(Init(inherited), rast, chars), k)
  {
    InitShelf(inherited);
    RunShelf(Init(inherited), rast, chars, |inherited|);
  }
}
