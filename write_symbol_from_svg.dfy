/**
 * Building a symbol from one SVG: the drawing is scaled to the 120-unit
 * symbol box, lifted by a fixed offset, written into the required
 * "Regular-M" group, and the empty groups are dropped once.
 */
module SymbolFromSvg {
  import opened Results
  import opened Affine
  import opened Tree
  import opened TreePrune
  import opened SvgDocument
  import opened Symbols

  /** The variant every drawing of this tool goes into. */
  const RequiredSymbol := "Regular-M"

  /** The fixed vertical offset that centres the Medium variants. */
  const SymbolDy: real := -95.23

  /** Python's float() on an attribute's text, which may raise. */
  type FloatParser = string -> Result<real>

  /** `float(main_svg.get(name))`: an absent attribute is None, which float() rejects. */
  function AttributeFloat(attribute: Option<string>, float: FloatParser): Result<real> {
    match attribute
    case None => Err(TypeError)
    case Some(text) => float(text)
  }

  /** `120 / size`, which raises on a zero size. */
  function Scale(size: real): (r: Result<real>)
    ensures r.Ok? <==> size != 0.0
    ensures r.Err? ==> r.error == ZeroDivisionError
    ensures r.Ok? ==> r.value * size == SymbolSize
  {
    if size == 0.0 then Err(ZeroDivisionError) else Ok(SymbolSize / size)
  }

  /**
   * The transform `_draw_svg_path` builds: the width is read and divided
   * first, then the height, and either may raise; once both are non-zero,
   * no shear, no horizontal offset, and the fixed vertical offset.
   */
  function DrawTransform(source: SvgSource, float: FloatParser): (r: Result<Transform>)
    ensures r.Ok? <==>
      && AttributeFloat(source.width, float).Ok? && AttributeFloat(source.width, float).value != 0.0
      && AttributeFloat(source.height, float).Ok? && AttributeFloat(source.height, float).value != 0.0
    ensures AttributeFloat(source.width, float).Err? ==> r == Err(AttributeFloat(source.width, float).error)
    ensures AttributeFloat(source.width, float) == Ok(0.0) ==> r == Err(ZeroDivisionError)
    ensures AttributeFloat(source.width, float).Ok? && AttributeFloat(source.width, float).value != 0.0 ==>
      && (AttributeFloat(source.height, float).Err? ==> r == Err(AttributeFloat(source.height, float).error))
      && (AttributeFloat(source.height, float) == Ok(0.0) ==> r == Err(ZeroDivisionError))
    ensures r.Ok? ==> r.value.xy == 0.0 && r.value.yx == 0.0 && r.value.dx == 0.0 && r.value.dy == SymbolDy
  {
    var width :- AttributeFloat(source.width, float);
    var scaleX :- Scale(width);
    var height :- AttributeFloat(source.height, float);
    var scaleY :- Scale(height);
    Ok(Transform(scaleX, 0.0, 0.0, scaleY, 0.0, SymbolDy))
  }

  /**
   * With a non-zero width w and height h, the drawing's box [0, w] x [0, h]
   * is scaled to the 120-unit square and lifted: its corner (0, 0) goes to
   * (0, -95.23) and its corner (w, h) to (120, 24.77).
   */
  lemma DrawTransformBox(source: SvgSource, float: FloatParser, w: real, h: real)
    requires AttributeFloat(source.width, float) == Ok(w) && AttributeFloat(source.height, float) == Ok(h)
    requires w != 0.0 && h != 0.0
    ensures DrawTransform(source, float).Ok?
    ensures var t := DrawTransform(source, float).value;
      && t.xx * w == SymbolSize && t.yy * h == SymbolSize
      && Apply(t, Point(0.0, 0.0)) == Point(0.0, SymbolDy)
      && Apply(t, Point(w, h)) == Point(120.0, 24.77)
  {
    var t := DrawTransform(source, float).value;
    assert t == Transform(Scale(w).value, 0.0, 0.0, Scale(h).value, 0.0, SymbolDy);
    assert Apply(t, Point(w, h)).x == t.xx * w;
    assert Apply(t, Point(w, h)).y == t.yy * h + SymbolDy;
  }

  /** `_draw_svg_path`: load the SVG, build the transform, push the outline through it. */
  function DrawSvgPath(path: string, load: Loader, float: FloatParser): Result<seq<Point>> {
    var source :- load(path);
    var t :- DrawTransform(source, float);
    Ok(ApplyAll(t, source.outline))
  }

  /**
   * `main`: more than one argument after the program name reaches
   * `sys.exit`, but `sys` is not imported, so that is a NameError; a missing
   * argument fails at `argv[1]`; otherwise a drawing error is raised as
   * is, a missing or repeated "Regular-M" group is a ValueError, and else the
   * drawing goes into that group and the empty groups are dropped once.
   */
  function RunResult(argv: seq<string>, template: Element, load: Loader, float: FloatParser): (r: Result<Element>)
    ensures |argv| > 2 ==> r == Err(NameError("sys"))
    ensures |argv| < 2 ==> r == Err(IndexError)
    ensures r.Ok? ==> |argv| == 2 && FindGroup(template, RequiredSymbol).Some?
    ensures |argv| == 2 ==>
      (r.Ok? <==> DrawSvgPath(argv[1], load, float).Ok? && FindGroup(template, RequiredSymbol).Some?)
    ensures |argv| == 2 && DrawSvgPath(argv[1], load, float).Err? ==> r == Err(DrawSvgPath(argv[1], load, float).error)
    ensures |argv| == 2 && DrawSvgPath(argv[1], load, float).Ok? && FindGroup(template, RequiredSymbol).None? ==>
      r == Err(ValueError)
  {
    if |argv| > 2 then Err(NameError("sys"))
    else if |argv| < 2 then Err(IndexError)
    else
      var outline :- DrawSvgPath(argv[1], load, float);
      PlaceAppends(template, RequiredSymbol, outline);
      var written :- Place(template, RequiredSymbol, outline);
      Ok(Prune(written))
  }

  /**
   * A successful run leaves the "Regular-M" group of the template in the
   * output, holding its old children and then the one drawn path; the
   * output is the written tree pruned once.
   */
  lemma RunWritesRequiredSymbol(argv: seq<string>, template: Element, load: Loader, float: FloatParser)
    requires template.tag == "svg" && Distinct(template)
    requires RunResult(argv, template, load, float).Ok?
    ensures |argv| == 2 && DrawSvgPath(argv[1], load, float).Ok?
    ensures Place(template, RequiredSymbol, DrawSvgPath(argv[1], load, float).value).Ok?
    ensures var outline := DrawSvgPath(argv[1], load, float).value;
      var written := Place(template, RequiredSymbol, outline).value;
      var p := FindGroup(template, RequiredSymbol).value;
      && RunResult(argv, template, load, float) == Ok(Prune(written))
      && ValidPath(written, p)
      && At(written, p).children == At(template, p).children + [NewPath(FreshKey(template), outline)]
      && At(written, p).key in Keys(Prune(written))
  {
    var outline := DrawSvgPath(argv[1], load, float).value;
    PlaceAppends(template, RequiredSymbol, outline);
    PlaceKeeps(template, RequiredSymbol, outline, RequiredSymbol);
    var written := Place(template, RequiredSymbol, outline).value;
    var p := FindGroup(template, RequiredSymbol).value;
    assert p != [] by {
      assert At(template, p).tag == "g";
    }
    PruneRemovesExactlyEmptyGroups(written, p);
  }

  /**
   * `main` exactly as written: `write_icon` takes a layer name, a path, a
   * pen and two sizes, but is called with only the first two, so once the
   * drawing exists the call raises TypeError before its body runs.
   */
  function RunAsWritten(argv: seq<string>, template: Element, load: Loader, float: FloatParser): Result<Element> {
    if |argv| > 2 then Err(NameError("sys"))
    else if |argv| < 2 then Err(IndexError)
    else
      var outline :- DrawSvgPath(argv[1], load, float);
      Err(TypeError)
  }

  /**
   * As written no run succeeds: a run that draws its SVG raises TypeError,
   * in particular every run the intended model completes, and any other run
   * fails as the intended model does.
   */
  lemma RunAsWrittenRaises(argv: seq<string>, template: Element, load: Loader, float: FloatParser)
    ensures RunAsWritten(argv, template, load, float).Err?
    ensures |argv| == 2 && DrawSvgPath(argv[1], load, float).Ok? ==>
      RunAsWritten(argv, template, load, float) == Err(TypeError)
    ensures !(|argv| == 2 && DrawSvgPath(argv[1], load, float).Ok?) ==>
      RunAsWritten(argv, template, load, float) == RunResult(argv, template, load, float)
    ensures RunResult(argv, template, load, float).Ok? ==> RunAsWritten(argv, template, load, float) == Err(TypeError)
  {
  }

  /**
   * `main` of write_symbol_from_svg, on the template tree: the argument
   * check, a symbol, the drawing appended to "Regular-M", one pass dropping
   * the empty groups; the result is the tree written to the output.
   */
  method Run(argv: seq<string>, template: Element, load: Loader, float: FloatParser) returns (r: Result<Element>)
    requires template.tag == "svg" && Distinct(template)
    ensures r == RunResult(argv, template, load, float)
  {
    if |argv| > 2 {
      return Err(NameError("sys"));
    }
    var symbol := new Symbol(template);
    if |argv| < 2 {
      return Err(IndexError);
    }
    var outline :- DrawSvgPath(argv[1], load, float);
    var written := symbol.symbol.AppendPath(RequiredSymbol, outline);
    if written.Err? {
      return Err(written.error);
    }
    symbol.DropEmptyIcons();
    r := Ok(symbol.symbol.root);
  }
}
