/**
 * The font-driven builder on a Symbol: one glyph per font lifted by 0.7942
 * of the em, then the empty icons dropped once.
 */
module SymbolFromFonts {
  import opened Results
  import opened Tree
  import opened TreePrune
  import opened SvgDocument
  import opened Symbols
  import opened FontSymbols

  /** The fraction of the em by which this builder moves glyphs up. */
  const GlyphLift: real := 0.7942

  /**
   * `main`: every font after the program name written in order, then the
   * empty icons dropped once; the result is the tree written to the output.
   */
  function RunResult(argv: seq<string>, template: Element, open: FontOpener, iconName: string, emsquare: EmsquareMap): Result<Element> {
    var written :- WriteFonts(template, Arguments(argv), open, iconName, emsquare, GlyphLift);
    Ok(Prune(written))
  }

  /**
   * One iteration of the loop in `main` exactly as written: the font is
   * opened, its glyph drawn and its variant named, and then
   * `write_icon(symbol_wght_name, svg_path)` misses the pen and both sizes,
   * which raises TypeError before the method's body runs.
   */
  function WriteFontAsWritten(root: Element, fileName: string, open: FontOpener, iconName: string, emsquare: EmsquareMap): Result<Element> {
    var placement :- FontPlacement(fileName, open, iconName, emsquare, GlyphLift);
    Err(TypeError)
  }

  /** The loop of `main` as written, stopping at the first exception. */
  function WriteFontsAsWritten(root: Element, fileNames: seq<string>, open: FontOpener, iconName: string, emsquare: EmsquareMap): Result<Element>
    decreases |fileNames|
  {
    if fileNames == [] then Ok(root)
    else
      var before :- WriteFontsAsWritten(root, fileNames[..|fileNames| - 1], open, iconName, emsquare);
      WriteFontAsWritten(before, fileNames[|fileNames| - 1], open, iconName, emsquare)
  }

  /** `main` as written: the loop, then the one pass dropping empty icons. */
  function RunAsWritten(argv: seq<string>, template: Element, open: FontOpener, iconName: string, emsquare: EmsquareMap): Result<Element> {
    var written :- WriteFontsAsWritten(template, Arguments(argv), open, iconName, emsquare);
    Ok(Prune(written))
  }

  /** As written, the loop ends with the first font: its own exception, or the TypeError of the call. */
  lemma {:induction false} WriteFontsAsWrittenFirst(root: Element, fileNames: seq<string>, open: FontOpener, iconName: string, emsquare: EmsquareMap)
    requires fileNames != []
    ensures WriteFontsAsWritten(root, fileNames, open, iconName, emsquare) == WriteFontAsWritten(root, fileNames[0], open, iconName, emsquare)
    decreases |fileNames|
  {
    var init := fileNames[..|fileNames| - 1];
    if init == [] {
      assert fileNames == [fileNames[0]];
    } else {
      assert init[0] == fileNames[0];
      WriteFontsAsWrittenFirst(root, init, open, iconName, emsquare);
    }
  }

  /** A successful intended loop over some fonts drew the first of them and named its variant. */
  lemma {:induction false} WriteFontsPlacesFirst(root: Element, fileNames: seq<string>, open: FontOpener, iconName: string, emsquare: EmsquareMap)
    requires fileNames != [] && WriteFonts(root, fileNames, open, iconName, emsquare, GlyphLift).Ok?
    ensures FontPlacement(fileNames[0], open, iconName, emsquare, GlyphLift).Ok?
    decreases |fileNames|
  {
    var init := fileNames[..|fileNames| - 1];
    if init == [] {
      assert fileNames == [fileNames[0]];
    } else {
      assert init[0] == fileNames[0];
      WriteFontsPlacesFirst(root, init, open, iconName, emsquare);
    }
  }

  /**
   * As written, a run with at least one font never succeeds: once the first
   * font is drawn and named the call raises TypeError, which is what every
   * run the intended model completes with a font does; otherwise the first
   * font's own exception ends the run in both. Without fonts both give the
   * template pruned once.
   */
  lemma RunAsWrittenRaises(argv: seq<string>, template: Element, open: FontOpener, iconName: string, emsquare: EmsquareMap)
    ensures |argv| < 2 ==>
      && RunAsWritten(argv, template, open, iconName, emsquare) == Ok(Prune(template))
      && RunResult(argv, template, open, iconName, emsquare) == Ok(Prune(template))
    ensures |argv| >= 2 && FontPlacement(argv[1], open, iconName, emsquare, GlyphLift).Ok? ==>
      RunAsWritten(argv, template, open, iconName, emsquare) == Err(TypeError)
    ensures |argv| >= 2 && FontPlacement(argv[1], open, iconName, emsquare, GlyphLift).Err? ==>
      && RunAsWritten(argv, template, open, iconName, emsquare) == Err(FontPlacement(argv[1], open, iconName, emsquare, GlyphLift).error)
      && RunResult(argv, template, open, iconName, emsquare) == RunAsWritten(argv, template, open, iconName, emsquare)
    ensures |argv| >= 2 && RunResult(argv, template, open, iconName, emsquare).Ok? ==>
      RunAsWritten(argv, template, open, iconName, emsquare) == Err(TypeError)
  {
    if |argv| >= 2 {
      var fileNames := Arguments(argv);
      assert fileNames[0] == argv[1];
      WriteFontsAsWrittenFirst(template, fileNames, open, iconName, emsquare);
      if FontPlacement(argv[1], open, iconName, emsquare, GlyphLift).Err? {
        assert WriteFonts(template, fileNames[..1], open, iconName, emsquare, GlyphLift)
          == Err(FontPlacement(argv[1], open, iconName, emsquare, GlyphLift).error) by {
          assert fileNames[..1][..0] == [];
          assert fileNames[..1][0] == argv[1];
        }
        WriteFontsFailed(template, fileNames, open, iconName, emsquare, GlyphLift, 1);
      }
      if RunResult(argv, template, open, iconName, emsquare).Ok? {
        WriteFontsPlacesFirst(template, fileNames, open, iconName, emsquare);
      }
    }
  }

  /**
   * `main` of write_symbol_from_fonts on the template tree: a Symbol, the
   * loop drawing each font's glyph into its variant, then `drop_empty_icons`.
   */
  method Run(argv: seq<string>, template: Element, open: FontOpener, iconName: string, emsquare: EmsquareMap)
    returns (r: Result<Element>)
    requires template.tag == "svg" && Distinct(template)
    ensures r == RunResult(argv, template, open, iconName, emsquare)
  {
    var symbol := new Symbol(template);
    var written := WriteFontFiles(symbol.symbol, Arguments(argv), open, iconName, emsquare, GlyphLift);
    if written.Err? {
      return Err(written.error);
    }
    symbol.DropEmptyIcons();
    r := Ok(symbol.symbol.root);
  }
}
