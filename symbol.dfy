/**
 * An Apple custom symbol under construction: the template document, the
 * placement transform and the two edits `write_icon` and `drop_empty_icons`.
 */
module Symbols {
  import opened Results
  import opened Affine
  import opened Tree
  import opened TreePrune
  import opened SvgDocument

  /** The side of the symbol's drawing square. */
  const SymbolSize: real := 120.0

  /** The fraction of the source height by which drawings are moved vertically. */
  const SymbolDyMultiple: real := 0.7942

  /**
   * nanoemoji's `map_viewbox_to_font_emsquare(view_box, upem)`: its body is
   * not part of this model, so it is a parameter.
   */
  type EmsquareMap = (Rect, real) -> Transform

  /**
   * `_build_transformation`. From a font: the emsquare affine of the box
   * (0, 0, x_size, y_size) translated by (0, 0.7942 * y_size) in source space.
   * Otherwise a scale to 120 x 120 translated by (0, -0.7942 * y_size) in source
   * space, which divides by both sizes.
   */
  function BuildTransformation(fromFont: bool, xSize: real, ySize: real, emsquare: EmsquareMap): (r: Result<Transform>)
    ensures fromFont ==> r.Ok?
    ensures !fromFont ==> (r.Err? <==> xSize == 0.0 || ySize == 0.0)
    ensures !fromFont && r.Err? ==> r.error == ZeroDivisionError
  {
    if fromFont then
      Ok(Translate(emsquare(Rect(0.0, 0.0, xSize, ySize), SymbolSize), 0.0, SymbolDyMultiple * ySize))
    else if xSize == 0.0 || ySize == 0.0 then
      Err(ZeroDivisionError)
    else
      Ok(Translate(Transform(SymbolSize / xSize, 0.0, 0.0, SymbolSize / ySize, 0.0, 0.0), 0.0, -SymbolDyMultiple * ySize))
  }

  /**
   * From a font, a point is first moved up by 0.7942 * y_size and then sent
   * through the emsquare affine of the box (0, 0, x_size, y_size).
   */
  lemma FontTransformation(xSize: real, ySize: real, emsquare: EmsquareMap, p: Point)
    ensures BuildTransformation(true, xSize, ySize, emsquare).Ok?
    ensures Apply(BuildTransformation(true, xSize, ySize, emsquare).value, p)
      == Apply(emsquare(Rect(0.0, 0.0, xSize, ySize), SymbolSize), Point(p.x, p.y + SymbolDyMultiple * ySize))
  {
    TranslatePoint(emsquare(Rect(0.0, 0.0, xSize, ySize), SymbolSize), 0.0, SymbolDyMultiple * ySize, p);
  }

  /**
   * The transform for a drawing that is not from a font scales x by
   * 120 / x_size and y by 120 / y_size, has no shear and no horizontal
   * offset, and its vertical offset is -0.7942 * 120 = -95.304 whatever
   * y_size is.
   */
  lemma PlainTransformation(xSize: real, ySize: real, emsquare: EmsquareMap)
    requires xSize != 0.0 && ySize != 0.0
    ensures BuildTransformation(false, xSize, ySize, emsquare)
      == Ok(Transform(120.0 / xSize, 0.0, 0.0, 120.0 / ySize, 0.0, -95.304))
  {
    var sx := SymbolSize / xSize;
    var sy := SymbolSize / ySize;
    var shift := -SymbolDyMultiple * ySize;
    var t := Translate(Transform(sx, 0.0, 0.0, sy, 0.0, 0.0), 0.0, shift);
    assert BuildTransformation(false, xSize, ySize, emsquare) == Ok(t);
    assert t.dx == 0.0;
    assert sy * ySize == 120.0;
    assert sy * shift == -SymbolDyMultiple * (sy * ySize);
    assert t.dy == sy * shift;
    assert t.dy == -95.304;
  }

  /** The scale-and-offset map sending [0, w] x [0, h] into [0, 120] x [-95.304, 24.696]. */
  lemma ScaledBox(sx: real, sy: real, w: real, h: real, p: Point)
    requires sx > 0.0 && sy > 0.0 && sx * w == 120.0 && sy * h == 120.0
    requires 0.0 <= p.x <= w && 0.0 <= p.y <= h
    ensures var t := Transform(sx, 0.0, 0.0, sy, 0.0, -95.304);
      && Apply(t, Point(0.0, 0.0)) == Point(0.0, -95.304)
      && Apply(t, Point(w, h)) == Point(120.0, 24.696)
      && 0.0 <= Apply(t, p).x <= 120.0
      && -95.304 <= Apply(t, p).y <= 24.696
  {
    var t := Transform(sx, 0.0, 0.0, sy, 0.0, -95.304);
    assert Apply(t, p) == Point(sx * p.x, sy * p.y - 95.304);
    assert sx * p.x <= sx * w by {
      assert sx * (w - p.x) >= 0.0;
    }
    assert sy * p.y <= sy * h by {
      assert sy * (h - p.y) >= 0.0;
    }
    assert sx * p.x >= 0.0 && sy * p.y >= 0.0;
  }

  /**
   * For positive sizes the transform maps the box [0, x_size] x [0, y_size]
   * into [0, 120] x [-95.304, 24.696], corner to corner.
   */
  lemma PlainTransformationBox(xSize: real, ySize: real, emsquare: EmsquareMap, p: Point)
    requires xSize > 0.0 && ySize > 0.0
    requires 0.0 <= p.x <= xSize && 0.0 <= p.y <= ySize
    ensures var t := BuildTransformation(false, xSize, ySize, emsquare).value;
      && Apply(t, Point(0.0, 0.0)) == Point(0.0, -95.304)
      && Apply(t, Point(xSize, ySize)) == Point(120.0, 24.696)
      && 0.0 <= Apply(t, p).x <= 120.0
      && -95.304 <= Apply(t, p).y <= 24.696
  {
    var t := BuildTransformation(false, xSize, ySize, emsquare).value;
    PlainScales(xSize, ySize, emsquare);
    assert t.xx > 0.0 && t.yy > 0.0;
    ScaledBox(t.xx, t.yy, xSize, ySize, p);
  }

  /**
   * Without a font the transform is a pure scale plus the fixed offset: each
   * size times its scale gives back the 120-unit side.
   */
  lemma PlainScales(xSize: real, ySize: real, emsquare: EmsquareMap)
    requires xSize != 0.0 && ySize != 0.0
    ensures var t := BuildTransformation(false, xSize, ySize, emsquare).value;
      t == Transform(t.xx, 0.0, 0.0, t.yy, 0.0, -95.304) && t.xx * xSize == 120.0 && t.yy * ySize == 120.0
  {
    PlainTransformation(xSize, ySize, emsquare);
  }

  /** The symbol being built, holding its template document (`self.symbol`). */
  class Symbol {
    var symbol: Svg

    ghost predicate Valid()
      reads this, symbol
    {
      symbol.Valid()
    }

    /** `Symbol()`: the template is given as a tree rather than read from its file. */
    constructor (template: Element)
      requires template.tag == "svg" && Distinct(template)
      ensures Valid() && symbol.root == template && fresh(symbol)
    {
      symbol := new Svg.Parse(template);
    }

    /**
     * `write_icon`: find the one group with the variant's id (ValueError if
     * there is not exactly one), append an empty `path` to it, build the
     * transform (which may raise ZeroDivisionError, leaving that path without
     * `d`), then set `d` to the outline pushed through the transform.
     */
    method WriteIcon(symbolWghtName: string, outline: seq<Point>, xSize: real, ySize: real,
                     fromFont: bool, emsquare: EmsquareMap) returns (r: Result<()>)
      requires Valid()
      modifies symbol
      ensures Valid()
      ensures FindGroup(old(symbol.root), symbolWghtName).None? ==>
        r == Err(ValueError) && symbol.root == old(symbol.root)
      ensures FindGroup(old(symbol.root), symbolWghtName).Some? ==>
        var parent := FindGroup(old(symbol.root), symbolWghtName).value;
        var t := BuildTransformation(fromFont, xSize, ySize, emsquare);
        && (t.Err? ==>
              (r == Err(t.error) &&
               symbol.root == AppendAt(old(symbol.root), parent, Element(FreshKey(old(symbol.root)), "path", map[], []))))
        && (t.Ok? ==>
              (r == Ok(()) && Place(old(symbol.root), symbolWghtName, ApplyAll(t.value, outline)) == Ok(symbol.root)))
    {
      var found := FindGroup(symbol.root, symbolWghtName);
      if found.None? {
        return Err(ValueError);
      }
      ghost var before := symbol.root;
      var path := symbol.SubElement(found.value, "path");
      var t := BuildTransformation(fromFont, xSize, ySize, emsquare);
      if t.Err? {
        return Err(t.error);
      }
      var d := PathData(ApplyAll(t.value, outline));
      SetAttrAfterAppend(before, found.value, Element(FreshKey(before), "path", map[], []), "d", d);
      symbol.SetAttribute(path, "d", d);
      r := Ok(());
    }

    /** `drop_empty_icons`: one pass removing the groups that were childless when it was called. */
    method DropEmptyIcons()
      requires Valid()
      modifies symbol
      ensures Valid() && symbol.root == Prune(old(symbol.root))
    {
      symbol.DropEmptyGroups();
    }
  }
}
