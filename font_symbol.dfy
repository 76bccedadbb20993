/**
 * The part the two font-driven symbol builders share: the square check on
 * the destination box, the glyph transform lifted by a fraction of the
 * font's units per em, the variant named by the font's file name, and the
 * loop writing one glyph per font into the document.
 */
module FontSymbols {
  import opened Results
  import opened Affine
  import opened Text
  import opened Tree
  import opened TreePrune
  import opened SvgDocument
  import opened IconFont
  import opened Symbols

  /** `Rect(0, 0, 120, 120)`, the box every glyph is drawn into. */
  const DestRegion := Rect(0.0, 0.0, 120.0, 120.0)

  /**
   * `_map_font_to_viewbox`: the view box must equal Rect(0, 0, w, w), a
   * square anchored at the origin (its size is not checked), else
   * ValueError; then the emsquare affine of the font's em square.
   */
  function MapFontToViewbox(upem: real, viewBox: Rect, emsquare: EmsquareMap): (r: Result<Transform>)
    ensures r.Ok? <==> viewBox.x == 0.0 && viewBox.y == 0.0 && viewBox.h == viewBox.w
    ensures r.Err? ==> r.error == ValueError
    ensures r.Ok? ==> r.value == emsquare(Rect(0.0, 0.0, upem, upem), viewBox.w)
  {
    if viewBox != Rect(0.0, 0.0, viewBox.w, viewBox.w) then Err(ValueError)
    else Ok(emsquare(Rect(0.0, 0.0, upem, upem), viewBox.w))
  }

  /** The destination box passes the square check; so do degenerate squares, since the size is not checked. */
  lemma DestRegionIsSquare(upem: real, emsquare: EmsquareMap)
    ensures MapFontToViewbox(upem, DestRegion, emsquare) == Ok(emsquare(Rect(0.0, 0.0, upem, upem), 120.0))
    ensures MapFontToViewbox(upem, Rect(0.0, 0.0, 0.0, 0.0), emsquare).Ok?
    ensures MapFontToViewbox(upem, Rect(0.0, 0.0, -1.0, -1.0), emsquare).Ok?
    ensures MapFontToViewbox(upem, Rect(0.0, 0.0, 120.0, 60.0), emsquare) == Err(ValueError)
    ensures MapFontToViewbox(upem, Rect(1.0, 0.0, 120.0, 120.0), emsquare) == Err(ValueError)
  {
  }

  /** The viewbox affine, translated by (0, lift * upem) in source space. */
  function GlyphTransform(upem: nat, region: Rect, emsquare: EmsquareMap, lift: real): (r: Result<Transform>)
    ensures r.Ok? <==> MapFontToViewbox(upem as real, region, emsquare).Ok?
  {
    var t :- MapFontToViewbox(upem as real, region, emsquare);
    Ok(Translate(t, 0.0, lift * upem as real))
  }

  /** A glyph point is first moved up by lift * upem, then sent through the emsquare affine. */
  lemma GlyphTransformPoint(upem: nat, region: Rect, emsquare: EmsquareMap, lift: real, p: Point)
    requires GlyphTransform(upem, region, emsquare, lift).Ok?
    ensures Apply(GlyphTransform(upem, region, emsquare, lift).value, p)
      == Apply(emsquare(Rect(0.0, 0.0, upem as real, upem as real), region.w), Point(p.x, p.y + lift * upem as real))
  {
    TranslatePoint(emsquare(Rect(0.0, 0.0, upem as real, upem as real), region.w), 0.0, lift * upem as real, p);
  }

  /** What opening a font file gives: its tables, its units per em and its glyph outlines. */
  datatype FontFile = FontFile(font: Font, unitsPerEm: nat, glyphs: map<GlyphName, seq<Point>>)

  /** `ttLib.TTFont(path)`, which may fail. */
  type FontOpener = string -> Result<FontFile>

  /**
   * `_draw_svg_path` of a font: resolve the icon's ligature, build the glyph
   * transform, then look the glyph up in the glyph set (KeyError if absent)
   * and push its outline through the transform.
   */
  function DrawGlyph(file: FontFile, iconName: string, region: Rect, emsquare: EmsquareMap, lift: real): Result<seq<Point>> {
    var glyphName :- ResolveLigature(file.font, iconName);
    var t :- GlyphTransform(file.unitsPerEm, region, emsquare, lift);
    if glyphName !in file.glyphs then Err(KeyError)
    else Ok(ApplyAll(t, file.glyphs[glyphName]))
  }

  /**
   * A drawn glyph is the outline of the glyph the icon name resolves to,
   * each point lifted by lift * upem and then sent through the emsquare affine.
   */
  lemma DrawGlyphPoints(file: FontFile, iconName: string, region: Rect, emsquare: EmsquareMap, lift: real)
    requires DrawGlyph(file, iconName, region, emsquare, lift).Ok?
    ensures ResolveLigature(file.font, iconName).Ok?
    ensures ResolveLigature(file.font, iconName).value in file.glyphs
    ensures |DrawGlyph(file, iconName, region, emsquare, lift).value| == |file.glyphs[ResolveLigature(file.font, iconName).value]|
    ensures forall i :: 0 <= i < |file.glyphs[ResolveLigature(file.font, iconName).value]| ==>
      DrawGlyph(file, iconName, region, emsquare, lift).value[i]
        == Apply(emsquare(Rect(0.0, 0.0, file.unitsPerEm as real, file.unitsPerEm as real), region.w),
                 Point(file.glyphs[ResolveLigature(file.font, iconName).value][i].x,
                       file.glyphs[ResolveLigature(file.font, iconName).value][i].y + lift * file.unitsPerEm as real))
  {
    forall i | 0 <= i < |file.glyphs[ResolveLigature(file.font, iconName).value]|
      ensures DrawGlyph(file, iconName, region, emsquare, lift).value[i]
        == Apply(emsquare(Rect(0.0, 0.0, file.unitsPerEm as real, file.unitsPerEm as real), region.w),
                 Point(file.glyphs[ResolveLigature(file.font, iconName).value][i].x,
                       file.glyphs[ResolveLigature(file.font, iconName).value][i].y + lift * file.unitsPerEm as real))
    {
      DrawnGlyphPoint(file, iconName, region, emsquare, lift, i);
    }
  }

  /** One point of a drawn glyph. */
  lemma DrawnGlyphPoint(file: FontFile, iconName: string, region: Rect, emsquare: EmsquareMap, lift: real, i: nat)
    requires DrawGlyph(file, iconName, region, emsquare, lift).Ok?
    requires ResolveLigature(file.font, iconName).Ok? && ResolveLigature(file.font, iconName).value in file.glyphs
    requires i < |file.glyphs[ResolveLigature(file.font, iconName).value]|
    ensures |DrawGlyph(file, iconName, region, emsquare, lift).value| == |file.glyphs[ResolveLigature(file.font, iconName).value]|
    ensures DrawGlyph(file, iconName, region, emsquare, lift).value[i]
      == Apply(emsquare(Rect(0.0, 0.0, file.unitsPerEm as real, file.unitsPerEm as real), region.w),
               Point(file.glyphs[ResolveLigature(file.font, iconName).value][i].x,
                     file.glyphs[ResolveLigature(file.font, iconName).value][i].y + lift * file.unitsPerEm as real))
  {
    var drawn := DrawGlyph(file, iconName, region, emsquare, lift).value;
    var outline := file.glyphs[ResolveLigature(file.font, iconName).value];
    var t := GlyphTransform(file.unitsPerEm, region, emsquare, lift).value;
    assert drawn == ApplyAll(t, outline);
    assert t == GlyphTransform(file.unitsPerEm, region, emsquare, lift).value;
    assert Apply(t, outline[i]) == Apply(GlyphTransform(file.unitsPerEm, region, emsquare, lift).value, outline[i]);
    GlyphTransformPoint(file.unitsPerEm, region, emsquare, lift, outline[i]);
    assert Apply(GlyphTransform(file.unitsPerEm, region, emsquare, lift).value, outline[i])
      == Apply(emsquare(Rect(0.0, 0.0, file.unitsPerEm as real, file.unitsPerEm as real), region.w),
            Point(outline[i].x, outline[i].y + lift * file.unitsPerEm as real));
  }

  /** `font_filename.split(".")[-2]`: IndexError when there is no '.'. */
  function VariantName(fileName: string): (r: Result<string>)
    ensures r.Ok? <==> '.' in fileName
    ensures r.Err? ==> r.error == IndexError
    ensures r.Ok? ==> '.' !in r.value
  {
    CountPositive(fileName, '.');
    var parts := Split(fileName, '.');
    if |parts| < 2 then Err(IndexError) else Ok(parts[|parts| - 2])
  }

  /** The variant is the segment between the last two points, whatever comes before them. */
  lemma VariantNameOf(stem: string, variant: string, extension: string)
    requires '.' !in variant && '.' !in extension
    ensures VariantName(stem + "." + variant + "." + extension) == Ok(variant)
    ensures VariantName(variant + "." + extension) == Ok(variant)
  {
    SplitConcat(variant, extension, '.');
    SplitWithoutSeparator(variant, '.');
    SplitWithoutSeparator(extension, '.');
    assert variant + "." + extension == variant + ['.'] + extension;
    SplitConcat(stem, variant + "." + extension, '.');
    assert stem + "." + variant + "." + extension == stem + ['.'] + (variant + "." + extension);
  }

  /** "x.Regular-M.ttf" names the Regular-M variant. */
  lemma VariantNameOfFontFile()
    ensures VariantName("x.Regular-M.ttf") == Ok("Regular-M")
  {
    assert "x" + "." + "Regular-M" + "." + "ttf" == "x.Regular-M.ttf";
    assert '.' !in "Regular-M" && '.' !in "ttf";
    VariantNameOf("x", "Regular-M", "ttf");
  }

  /** A file name without a point has no variant. */
  lemma VariantNameWithoutPoint()
    ensures VariantName("font") == Err(IndexError)
  {
    assert "font"[0] != '.' && "font"[1] != '.' && "font"[2] != '.' && "font"[3] != '.';
  }

  /** `argv[1:]`. */
  function Arguments(argv: seq<string>): seq<string> {
    if argv == [] then [] else argv[1..]
  }

  /** What one font contributes: the variant its file names and the drawn glyph. */
  function FontPlacement(fileName: string, open: FontOpener, iconName: string, emsquare: EmsquareMap, lift: real): Result<Placement> {
    var file :- open(fileName);
    var outline :- DrawGlyph(file, iconName, DestRegion, emsquare, lift);
    var variant :- VariantName(fileName);
    Ok(Placement(variant, outline))
  }

  /** One iteration of the loop in `main`: draw the font's glyph, then append it to the variant's group. */
  function WriteFont(root: Element, fileName: string, open: FontOpener, iconName: string, emsquare: EmsquareMap, lift: real): Result<Element> {
    var placement :- FontPlacement(fileName, open, iconName, emsquare, lift);
    Place(root, placement.variant, placement.points)
  }

  /** Every font written in turn, stopping at the first exception. */
  function WriteFonts(root: Element, fileNames: seq<string>, open: FontOpener, iconName: string, emsquare: EmsquareMap, lift: real): Result<Element>
    decreases |fileNames|
  {
    if fileNames == [] then Ok(root)
    else
      var before :- WriteFonts(root, fileNames[..|fileNames| - 1], open, iconName, emsquare, lift);
      WriteFont(before, fileNames[|fileNames| - 1], open, iconName, emsquare, lift)
  }

  /** The drawings of all fonts, in argument order. */
  function FontPlacements(fileNames: seq<string>, open: FontOpener, iconName: string, emsquare: EmsquareMap, lift: real): (r: Result<seq<Placement>>)
    ensures r.Ok? ==> |r.value| == |fileNames|
    decreases |fileNames|
  {
    if fileNames == [] then Ok([])
    else
      var before :- FontPlacements(fileNames[..|fileNames| - 1], open, iconName, emsquare, lift);
      var last :- FontPlacement(fileNames[|fileNames| - 1], open, iconName, emsquare, lift);
      Ok(before + [last])
  }

  /** Writing one more font continues from the tree the earlier ones wrote. */
  lemma WriteFontsSnoc(root: Element, fileNames: seq<string>, fileName: string, open: FontOpener, iconName: string, emsquare: EmsquareMap, lift: real)
    requires WriteFonts(root, fileNames, open, iconName, emsquare, lift).Ok?
    ensures WriteFonts(root, fileNames + [fileName], open, iconName, emsquare, lift)
      == WriteFont(WriteFonts(root, fileNames, open, iconName, emsquare, lift).value, fileName, open, iconName, emsquare, lift)
  {
    assert (fileNames + [fileName])[..|fileNames|] == fileNames;
  }

  /** An exception while writing the first k fonts is the exception of the whole loop. */
  lemma {:induction false} WriteFontsFailed(root: Element, fileNames: seq<string>, open: FontOpener, iconName: string, emsquare: EmsquareMap, lift: real, k: nat)
    requires k <= |fileNames| && WriteFonts(root, fileNames[..k], open, iconName, emsquare, lift).Err?
    ensures WriteFonts(root, fileNames, open, iconName, emsquare, lift) == WriteFonts(root, fileNames[..k], open, iconName, emsquare, lift)
    decreases |fileNames| - k
  {
    if k < |fileNames| {
      assert fileNames[..k + 1][..k] == fileNames[..k];
      WriteFontsFailed(root, fileNames, open, iconName, emsquare, lift, k + 1);
    } else {
      assert fileNames[..k] == fileNames;
    }
  }

  /** A successful loop places the fonts' drawings exactly as placing them one after the other does. */
  lemma {:induction false} WriteFontsPlaces(root: Element, fileNames: seq<string>, open: FontOpener, iconName: string, emsquare: EmsquareMap, lift: real)
    requires WriteFonts(root, fileNames, open, iconName, emsquare, lift).Ok?
    ensures FontPlacements(fileNames, open, iconName, emsquare, lift).Ok?
    ensures WriteFonts(root, fileNames, open, iconName, emsquare, lift)
      == PlaceAll(root, FontPlacements(fileNames, open, iconName, emsquare, lift).value)
    decreases |fileNames|
  {
    if fileNames != [] {
      var init := fileNames[..|fileNames| - 1];
      WriteFontsPlaces(root, init, open, iconName, emsquare, lift);
      var ps := FontPlacements(init, open, iconName, emsquare, lift).value;
      var all := FontPlacements(fileNames, open, iconName, emsquare, lift).value;
      assert all[..|all| - 1] == ps;
    }
  }

  /**
   * After a successful loop, each variant's group holds its old children
   * followed by one path per font naming that variant, in argument order.
   */
  lemma FontsInArgumentOrder(root: Element, fileNames: seq<string>, open: FontOpener, iconName: string, emsquare: EmsquareMap, lift: real, variant: string)
    requires Distinct(root) && FindGroup(root, variant).Some?
    requires WriteFonts(root, fileNames, open, iconName, emsquare, lift).Ok?
    ensures FontPlacements(fileNames, open, iconName, emsquare, lift).Ok?
    ensures var r := WriteFonts(root, fileNames, open, iconName, emsquare, lift).value;
      var p := FindGroup(root, variant).value;
      && FindGroup(r, variant) == Some(p)
      && Payloads(At(r, p).children) ==
           Payloads(At(root, p).children) + PathPayloads(PointsFor(FontPlacements(fileNames, open, iconName, emsquare, lift).value, variant))
  {
    WriteFontsPlaces(root, fileNames, open, iconName, emsquare, lift);
    PlaceAllInOrder(root, FontPlacements(fileNames, open, iconName, emsquare, lift).value, variant);
  }

  /**
   * Empty groups are dropped after the loop: a variant's group that received
   * a glyph is still in the output, even if it was empty in the template.
   */
  lemma WrittenVariantSurvives(root: Element, fileNames: seq<string>, open: FontOpener, iconName: string, emsquare: EmsquareMap, lift: real, variant: string)
    requires root.tag == "svg" && Distinct(root) && FindGroup(root, variant).Some?
    requires WriteFonts(root, fileNames, open, iconName, emsquare, lift).Ok?
    requires FontPlacements(fileNames, open, iconName, emsquare, lift).Ok?
    requires PointsFor(FontPlacements(fileNames, open, iconName, emsquare, lift).value, variant) != []
    ensures var written := WriteFonts(root, fileNames, open, iconName, emsquare, lift).value;
      && FindGroup(written, variant) == FindGroup(root, variant)
      && At(written, FindGroup(written, variant).value).key in Keys(Prune(written))
  {
    var written := WriteFonts(root, fileNames, open, iconName, emsquare, lift).value;
    var p := FindGroup(root, variant).value;
    assert p != [] by {
      assert At(root, p).tag == "g";
    }
    WriteFontsPlaces(root, fileNames, open, iconName, emsquare, lift);
    PlaceAllInOrder(root, FontPlacements(fileNames, open, iconName, emsquare, lift).value, variant);
    assert Distinct(written) && FindGroup(written, variant) == Some(p);
    assert |Payloads(At(written, p).children)| > 0;
    PruneRemovesExactlyEmptyGroups(written, p);
  }

  /**
   * The loop of `main` on the document: for each font, open it, draw the
   * icon's glyph, name the variant, and append the drawing to that
   * variant's group, stopping at the first exception.
   */
  method WriteFontFiles(document: Svg, fileNames: seq<string>, open: FontOpener, iconName: string, emsquare: EmsquareMap, lift: real)
    returns (r: Result<()>)
    requires document.Valid()
    modifies document
    ensures document.Valid()
    ensures r.Ok? ==> WriteFonts(old(document.root), fileNames, open, iconName, emsquare, lift) == Ok(document.root)
    ensures r.Err? ==> WriteFonts(old(document.root), fileNames, open, iconName, emsquare, lift) == Err(r.error)
  {
    ghost var start := document.root;
    var i := 0;
    while i < |fileNames|
      invariant 0 <= i <= |fileNames|
      invariant document.Valid()
      invariant WriteFonts(start, fileNames[..i], open, iconName, emsquare, lift) == Ok(document.root)
    {
      assert fileNames[..i + 1] == fileNames[..i] + [fileNames[i]];
      WriteFontsSnoc(start, fileNames[..i], fileNames[i], open, iconName, emsquare, lift);
      var step := WriteFontFile(document, fileNames[i], open, iconName, emsquare, lift);
      if step.Err? {
        WriteFontsFailed(start, fileNames, open, iconName, emsquare, lift, i + 1);
        return Err(step.error);
      }
      i := i + 1;
    }
    assert fileNames[..i] == fileNames;
    r := Ok(());
  }

  /** The body of that loop for one font. */
  method WriteFontFile(document: Svg, fileName: string, open: FontOpener, iconName: string, emsquare: EmsquareMap, lift: real)
    returns (r: Result<()>)
    requires document.Valid()
    modifies document
    ensures document.Valid()
    ensures r.Ok? ==> WriteFont(old(document.root), fileName, open, iconName, emsquare, lift) == Ok(document.root)
    ensures r.Err? ==> WriteFont(old(document.root), fileName, open, iconName, emsquare, lift) == Err(r.error)
  {
    var placement :- FontPlacement(fileName, open, iconName, emsquare, lift);
    r := document.AppendPath(placement.variant, placement.points);
  }
}
