/**
 * The older font-driven builder: the template document is edited directly,
 * one glyph per font lifted by 80% of the em, then the empty groups are
 * dropped once.
 */
module WriteSymbol {
  import opened Results
  import opened Tree
  import opened TreePrune
  import opened SvgDocument
  import opened Symbols
  import opened FontSymbols

  /** The fraction of the em by which this builder moves glyphs up. */
  const GlyphLift: real := 0.8

  /**
   * `main`: every font after the program name written in order, then the
   * empty groups dropped once; the result is the tree written to the output.
   */
  function RunResult(argv: seq<string>, template: Element, open: FontOpener, iconName: string, emsquare: EmsquareMap): Result<Element> {
    var written :- WriteFonts(template, Arguments(argv), open, iconName, emsquare, GlyphLift);
    Ok(Prune(written))
  }

  /**
   * `main` of write_symbol on the template tree: `_new_symbol`, the loop of
   * `_draw_svg_path` and `_write_icon`, then `_drop_empty_icons`.
   */
  method Run(argv: seq<string>, template: Element, open: FontOpener, iconName: string, emsquare: EmsquareMap)
    returns (r: Result<Element>)
    requires template.tag == "svg" && Distinct(template)
    ensures r == RunResult(argv, template, open, iconName, emsquare)
  {
    var symbol := new Svg.Parse(template);
    var written := WriteFontFiles(symbol, Arguments(argv), open, iconName, emsquare, GlyphLift);
    if written.Err? {
      return Err(written.error);
    }
    symbol.DropEmptyGroups();
    r := Ok(symbol.root);
  }
}
