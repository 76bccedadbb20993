# vf2symbols in Dafny

vf2symbols turns icons into Apple custom symbols. An Apple symbol is an SVG
template with one group (`<g id="Regular-M">`, `<g id="Bold-S">`, …) per
weight and scale variant. The tools draw an outline into the variant groups,
drop the groups that stayed empty, and write the result. The outline comes
from a ligature glyph of an icon font, or from one or more standalone SVG
files.

This project models the core of the repository:

- `icon_font.py`: the weight range of a font, the merged Unicode cmap, and
  the one ligature lookup. It resolves an icon name to its ligature glyph and
  enumerates the icon names a font spells.
- `symbol.py`: the `Symbol` class. It holds the template document, writes an
  icon into a variant group through the scale-and-offset transform, and drops
  the empty groups.
- The four builders, `write_symbol.py`, `write_symbol_from_fonts.py`,
  `write_symbol_from_svg.py` and `write_symbol_from_svgs.py`. Each has its
  own argument handling, transform and loop over its inputs, modelled as a
  method proved equal to a specification function.
- `svg2symbols.py`: the output-name rewrite, `re.sub(r"([.]\w+)$", …)`, and
  the ninja statements written for a list of SVGs.

The SVG document is a tree of elements (`Tree`). Each node has its own key,
so that "the same node" survives edits. The in-place lxml edits are methods
of `SvgDocument.Svg`, which holds that tree in a field. Each method is proved
equal to a function on trees:

- `SubElement` is `AppendAt`;
- setting an attribute is `SetAttrAt`;
- finding the group with one id and appending a path to it is `Place`;
- removing every group that was childless at the time of the query is
  `Prune`.

Python exceptions are the `Err` case of a `Result`. They are raised in the
order the source raises them.

Modules:

- `Results`: the `Result`/`Option` wrappers and the exceptions.
- `Affine`: points, rectangles and fontTools' 2x3 affine transform.
- `Dicts`: an insertion-ordered Python dictionary.
- `Text`: `str.split` on one character.
- `Tree`, `TreePrune`: the element tree and the empty-group pass.
- `SvgDocument`: the lxml document.
- `Symbols`: `symbol.py`.
- `IconFont`: `icon_font.py`.
- `FontSymbols`: the parts `write_symbol.py` and `write_symbol_from_fonts.py`
  share.
- `WriteSymbol`, `SymbolFromFonts`, `SymbolFromSvg`, `SymbolFromSvgs`,
  `SvgToSymbols`: one module per tool.

## Model

| member | source | states |
|---|---|---|
| Affine.ApplyAll | src/vf2symbols/symbol.py:42-44 | a transform pen sends every point of an outline through the transform, in order, one output per input |
| Affine.Compose | src/vf2symbols/symbol.py:49-51 | composing two transforms gives the transform that applies the second, then the first |
| Affine.TranslatePoint | src/vf2symbols/symbol.py:49-51 | `translate(tx, ty)` moves a point by (tx, ty) in source space before the transform applies |
| Affine.TranslateIsCompose | src/vf2symbols/symbol.py:49-51 | `translate` is composition with the pure translation on the right |
| Dicts.Update | src/vf2symbols/icon_font.py:29-31 | `dict.update`: the keys are the union, the update's values win, the others are kept, and the old keys keep their order in front |
| Dicts.UpdateValid | src/vf2symbols/icon_font.py:29-31 | updating a well-formed dictionary keeps it well-formed: keys are distinct and match the entries |
| Dicts.InvertSpec | src/vf2symbols/icon_font.py:49 | the inverted cmap holds exactly the glyphs some character maps to, and sends each back to the last character, in cmap order, that maps to it |
| Dicts.InvertKeysLastWins | src/vf2symbols/icon_font.py:49 | in the comprehension a later key overwrites an earlier one, so a value goes to the last key that maps to it |
| Text.Split | src/vf2symbols/write_symbol.py:88 | `str.split(sep)` gives one more part than there are separators, and no part holds a separator |
| Text.JoinSplit | src/vf2symbols/write_symbol.py:88 | joining the parts of a split with the separator gives back the text |
| Text.SplitConcat | src/vf2symbols/write_symbol_from_svgs.py:56 | splitting `a + sep + b` splits a and b separately |
| Text.CountPositive | src/vf2symbols/write_symbol_from_svgs.py:56 | a character occurs a positive number of times exactly when it is in the text |
| Tree.FindGroup | src/vf2symbols/symbol.py:37 | `xpath_one('//svg:g[@id=…]')`: None exactly when there is not exactly one such group; otherwise the unique group with that id |
| Tree.MatchesCompleteAll | src/vf2symbols/symbol.py:37 | the xpath query finds every group with the id anywhere in the tree |
| Tree.MatchesSound | src/vf2symbols/symbol.py:37 | every node the query finds is a `g` with that id |
| Tree.AppendAt | src/vf2symbols/symbol.py:38 | `etree.SubElement`: the parent gets the new element as its last child; the root keeps its identity |
| Tree.AppendAtElsewhere | src/vf2symbols/symbol.py:38 | appending under one node leaves every node that is not above it unchanged |
| Tree.DistinctAppendAt | src/vf2symbols/symbol.py:38 | appending a fresh element keeps every node's identity unique |
| Tree.SetAttrAfterAppend | src/vf2symbols/symbol.py:38-39 | setting `d` on the element just appended is the same as appending it with `d` already set |
| Tree.PlaceAppends | src/vf2symbols/write_symbol.py:53-56 | `_write_icon` fails with ValueError exactly when the group is not unique; otherwise the group gains one `path` child carrying `d`, and nothing outside it changes |
| Tree.PlaceKeeps | src/vf2symbols/write_symbol.py:53-56 | writing an icon keeps node identities unique, adds exactly one node, and leaves every other variant's group where it was |
| Tree.PlaceTwice | src/vf2symbols/write_symbol.py:53-56 | two writes into one variant leave both paths in the group, in write order |
| Tree.PlaceAllInOrder | src/vf2symbols/write_symbol.py:83-89 | after a sequence of writes, each variant's group holds its old children, then one path per write into it, in order |
| TreePrune.DetachTwice | src/vf2symbols/symbol.py:54-56 | removing one set of nodes and then another equals removing both at once |
| TreePrune.DetachIsPrune | src/vf2symbols/symbol.py:54-56 | removing the nodes the query returned, one by one, is the single pass `Prune` |
| TreePrune.PruneKeys | src/vf2symbols/symbol.py:54-56 | the pass removes exactly the groups that were empty when the query ran, and their subtrees (which are empty) |
| TreePrune.PruneDistinct | src/vf2symbols/symbol.py:54-56 | the pass keeps node identities unique |
| TreePrune.PruneRemovesExactlyEmptyGroups | src/vf2symbols/symbol.py:54-56 | a node below the root survives exactly when it was not an empty group |
| TreePrune.PruneIsOnePass | src/vf2symbols/write_symbol.py:59-61 | the query is evaluated once: a group left empty by the pass survives it |
| SvgDocument.Svg.SubElement | src/vf2symbols/symbol.py:38 | the document's tree becomes `AppendAt` of the old tree, and the returned path leads to the new element |
| SvgDocument.Svg.SetAttribute | src/vf2symbols/symbol.py:39 | the document's tree becomes `SetAttrAt` of the old tree |
| SvgDocument.Svg.AppendPath | src/vf2symbols/write_symbol.py:53-56 | ok exactly when the group is unique; on ValueError the document is unchanged; on success the document is `Place` of the old one |
| SvgDocument.Svg.DropEmptyGroups | src/vf2symbols/write_symbol.py:59-61 | the loop removing each queried node leaves `Prune` of the old tree |
| Symbols.BuildTransformation | src/vf2symbols/symbol.py:47-51 | the font branch always succeeds; the other fails exactly when a size is zero, with ZeroDivisionError |
| Symbols.FontTransformation | src/vf2symbols/symbol.py:48-49 | from a font, a point is lifted by 0.7942 * y_size and then mapped by the emsquare affine of the box (0, 0, x_size, y_size) at 120 units |
| Symbols.PlainTransformation | src/vf2symbols/symbol.py:50-51 | otherwise the transform is the scale (120/x_size, 120/y_size) with the vertical offset -95.304, whatever y_size is |
| Symbols.PlainTransformationBox | src/vf2symbols/symbol.py:26-27 | for positive sizes the source box lands inside [0, 120] x [-95.304, 24.696], corner to corner |
| Symbols.PlainScales | src/vf2symbols/symbol.py:50-51 | each size times its scale gives 120, with no shear and no horizontal offset |
| Symbols.Symbol.constructor | src/vf2symbols/symbol.py:32-33 | a symbol holds the template document |
| Symbols.Symbol.WriteIcon | src/vf2symbols/symbol.py:36-39 | ValueError with the document unchanged when the group is not unique; a transform error leaves the empty `path` appended; otherwise the document is `Place` of the transformed outline |
| Symbols.Symbol.DropEmptyIcons | src/vf2symbols/symbol.py:54-56 | the document becomes `Prune` of the old tree |
| IconFont.Trunc | src/vf2symbols/icon_font.py:24 | `int()` truncates toward zero, from either side |
| IconFont.Range | src/vf2symbols/icon_font.py:21-24 | `range(lo, hi)` is lo, lo+1, …, hi-1, and empty when hi <= lo |
| IconFont.WghtRange | src/vf2symbols/icon_font.py:19-25 | without `fvar`, the single weight class; with it, AttributeError exactly when no axis is tagged `wght` |
| IconFont.WghtRangeOfAxis | src/vf2symbols/icon_font.py:22-24 | with `fvar`, the range taken from the first `wght` axis: every integer from int(min) to int(max), in steps of one |
| IconFont.CmapKeys | src/vf2symbols/icon_font.py:28-34 | the merged cmap maps exactly the characters of the Unicode subtables |
| IconFont.CmapLastWins | src/vf2symbols/icon_font.py:28-34 | a character takes its glyph from the last Unicode subtable that maps it |
| IconFont.CmapValid | src/vf2symbols/icon_font.py:28-34 | merging well-formed subtables gives a well-formed dictionary |
| IconFont.MergeCmaps | src/vf2symbols/icon_font.py:28-34 | the `reduce` loop yields the merged cmap |
| IconFont.LigatureLookups | src/vf2symbols/icon_font.py:38-40 | the filtered lookups are exactly the type-4 ones |
| IconFont.LigatureRootsOne | src/vf2symbols/icon_font.py:41-44 | with one ligature lookup, its single subtable's ligatures, or AssertionError when it has not exactly one subtable |
| IconFont.LigatureRootsNotOne | src/vf2symbols/icon_font.py:41 | no ligature lookup, or two of them, is an AssertionError |
| IconFont.LookupAll | src/vf2symbols/icon_font.py:51 | the comprehension of lookups: KeyError exactly when some element is missing, otherwise the values in order |
| IconFont.FirstMatch | src/vf2symbols/icon_font.py:53-55 | `next(filter(…))`: None exactly when nothing matches, otherwise the first match |
| IconFont.ResolveLigature | src/vf2symbols/icon_font.py:47-55 | IndexError for an empty name; KeyError for an unmapped character; the roots' AssertionError; KeyError for a root without ligatures; StopIteration only when no ligature is spelt; otherwise the glyph of the first ligature the name spells |
| IconFont.SpellsIffMatch | src/vf2symbols/icon_font.py:50-54 | a ligature is spelt by the name exactly when its components are the glyphs of the characters after the first |
| IconFont.ResolveLigatureFinds | src/vf2symbols/icon_font.py:47-55 | when the name spells the j-th ligature under its root and no earlier one, resolution gives that ligature's glyph |
| IconFont.CandidateOrigin | src/vf2symbols/icon_font.py:61-63 | each enumerated (root, ligature) pair is a ligature stored under that root |
| IconFont.EnumerateFailed | src/vf2symbols/icon_font.py:61-66 | once the generator has raised, later ligatures change nothing |
| IconFont.EnumeratePrefix | src/vf2symbols/icon_font.py:61-66 | names come out in root-then-ligature order: what a prefix yields is a prefix of what all yield |
| IconFont.EnumerateSound | src/vf2symbols/icon_font.py:61-66 | every yielded name passes the filter and is spelt back, one character per glyph, by some ligature; at most one name per ligature; only a KeyError ends it early |
| IconFont.EnumerateComplete | src/vf2symbols/icon_font.py:61-66 | without an exception, every ligature's name that the filter accepts is yielded |
| IconFont.LookupAllInverse | src/vf2symbols/icon_font.py:49-51 | glyphs mapped back through the inverted cmap map forward again to the same glyphs |
| IconFont.RoundTrip | src/vf2symbols/icon_font.py:47-66 | every name `extract_icon_names` yields resolves through `resolve_ligature` to the glyph of a ligature it came from, when no root repeats a component list |
| IconFont.EnumerateRoot | src/vf2symbols/icon_font.py:62-66 | the inner loop over one root's ligatures yields what the specification yields for them |
| IconFont.ExtractIconNames | src/vf2symbols/icon_font.py:58-66 | the generator run to its end yields exactly `IconNames`, and raises the same exception |
| FontSymbols.MapFontToViewbox | src/vf2symbols/write_symbol.py:40-46 | ValueError exactly when the view box is not a square at the origin; otherwise the emsquare affine of (0, 0, upem, upem) |
| FontSymbols.DestRegionIsSquare | src/vf2symbols/write_symbol.py:41-42 | the 120 box passes the check, and so do degenerate squares, since only the shape is checked |
| FontSymbols.GlyphTransformPoint | src/vf2symbols/write_symbol.py:67-70 | a glyph point is lifted by lift * upem and then sent through the emsquare affine |
| FontSymbols.DrawGlyphPoints | src/vf2symbols/write_symbol.py:64-74 | a drawn glyph is the resolved ligature glyph's outline, point by point, lifted and mapped |
| FontSymbols.VariantName | src/vf2symbols/write_symbol.py:88 | `split(".")[-2]`: IndexError exactly when there is no '.', and the variant holds no '.' |
| FontSymbols.VariantNameOf | src/vf2symbols/write_symbol.py:88 | the variant is the segment between the last two points |
| FontSymbols.VariantNameOfFontFile | src/vf2symbols/write_symbol_from_fonts.py:69 | "x.Regular-M.ttf" names the Regular-M variant |
| FontSymbols.WriteFontsFailed | src/vf2symbols/write_symbol.py:83-89 | an exception on some font is the exception of the whole loop |
| FontSymbols.WriteFontsPlaces | src/vf2symbols/write_symbol.py:83-89 | a successful loop writes the fonts' drawings exactly as placing them one after another |
| FontSymbols.FontsInArgumentOrder | src/vf2symbols/write_symbol.py:83-89 | each variant's group holds its old children, then one path per font naming that variant, in argument order |
| FontSymbols.WrittenVariantSurvives | src/vf2symbols/write_symbol.py:83-91 | a variant that received a glyph survives the empty-group pass, even if empty in the template |
| FontSymbols.WriteFontFiles | src/vf2symbols/write_symbol.py:83-89 | the loop on the document ends in the tree `WriteFonts` computes, or in its exception |
| FontSymbols.WriteFontFile | src/vf2symbols/write_symbol.py:84-89 | one iteration ends in the tree `WriteFont` computes, or in its exception |
| WriteSymbol.Run | src/vf2symbols/write_symbol.py:77-94 | `main` gives `RunResult`: every font written with a lift of 0.8, then one empty-group pass |
| SymbolFromFonts.Run | src/vf2symbols/write_symbol_from_fonts.py:59-73 | `main` gives `RunResult`: every font written with a lift of 0.7942, then one empty-group pass |
| SymbolFromFonts.WriteFontsAsWrittenFirst | src/vf2symbols/write_symbol_from_fonts.py:65-70 | as written the loop ends at the first font, with that font's exception or the TypeError of the two-argument `write_icon` |
| SymbolFromFonts.RunAsWrittenRaises | src/vf2symbols/write_symbol_from_fonts.py:59-72 | as written a run with a font raises TypeError once the first font is drawn and named, including every such run `RunResult` completes; otherwise it fails as `RunResult` does; without fonts both give the pruned template |
| SymbolFromSvg.Scale | src/vf2symbols/write_symbol_from_svg.py:43-44 | `120 / size` fails with ZeroDivisionError exactly when the size is zero, and otherwise times the size gives 120 |
| SymbolFromSvg.DrawTransform | src/vf2symbols/write_symbol_from_svg.py:42-45 | succeeds exactly when both sizes parse and are non-zero; the width's parse error or zero division comes first, then the height's; the transform has no shear, no horizontal offset, and the offset -95.23 |
| SymbolFromSvg.DrawTransformBox | src/vf2symbols/write_symbol_from_svg.py:31-45 | the drawing's box is scaled to 120 units and lifted: (0, 0) goes to (0, -95.23) and (w, h) to (120, 24.77) |
| SymbolFromSvg.RunResult | src/vf2symbols/write_symbol_from_svg.py:51-58 | more than one argument is a NameError on `sys`; none is an IndexError; with one argument, success exactly when the SVG draws and the Regular-M group is unique, a drawing error raised as is, and ValueError for a missing or repeated group |
| SymbolFromSvg.RunWritesRequiredSymbol | src/vf2symbols/write_symbol_from_svg.py:54-57 | a successful run appends the one drawing to Regular-M after its old children, and that group survives the empty-group pass |
| SymbolFromSvg.Run | src/vf2symbols/write_symbol_from_svg.py:51-58 | `main` gives `RunResult` |
| SymbolFromSvg.RunAsWrittenRaises | src/vf2symbols/write_symbol_from_svg.py:51-56 | as written no run succeeds: a run that draws its SVG raises TypeError at the two-argument `write_icon`, including every run `RunResult` completes; any other run fails as `RunResult` does |
| SymbolFromSvgs.DigitRun | src/vf2symbols/write_symbol_from_svgs.py:46 | the leading run of digits: all digits, and followed by a non-digit or the end |
| SymbolFromSvgs.MatchNumber | src/vf2symbols/write_symbol_from_svgs.py:46 | `\d+([.]\d*)?` matches exactly when the text starts with a digit, and the match is non-empty |
| SymbolFromSvgs.ParseFloat | src/vf2symbols/write_symbol_from_svgs.py:45-46 | None is a TypeError; AttributeError exactly when the text does not start with a digit; a parsed value is never negative |
| SymbolFromSvgs.ParseFloatInteger | src/vf2symbols/write_symbol_from_svgs.py:45-46 | digits followed by a unit read as the number, whatever the unit |
| SymbolFromSvgs.ParseFloatDecimal | src/vf2symbols/write_symbol_from_svgs.py:45-46 | digits, a point, digits and a unit read as the whole part plus the fraction |
| SymbolFromSvgs.ParseFloatUnit | src/vf2symbols/write_symbol_from_svgs.py:45-46 | "24px" reads as 24 |
| SymbolFromSvgs.ParseFloatRejects | src/vf2symbols/write_symbol_from_svgs.py:45-46 | "", ".5" and "-3" are AttributeErrors |
| SymbolFromSvgs.SplitLayer | src/vf2symbols/write_symbol_from_svgs.py:56 | unpacking succeeds exactly when there is one '=', and then the two parts joined by '=' give back the argument; otherwise ValueError |
| SymbolFromSvgs.SplitLayerRoundTrip | src/vf2symbols/write_symbol_from_svgs.py:56 | a layer name and a path without '=' split back apart |
| SymbolFromSvgs.WriteLayersFailed | src/vf2symbols/write_symbol_from_svgs.py:55-69 | an exception on some argument is the exception of the whole loop |
| SymbolFromSvgs.WriteLayersPlaces | src/vf2symbols/write_symbol_from_svgs.py:55-69 | a successful loop writes the arguments' drawings exactly as placing them one after another |
| SymbolFromSvgs.LayersInArgumentOrder | src/vf2symbols/write_symbol_from_svgs.py:55-69 | each layer's group holds its old children, then one path per argument naming it, in argument order |
| SymbolFromSvgs.WrittenLayerSurvives | src/vf2symbols/write_symbol_from_svgs.py:55-70 | a layer that received a drawing survives the empty-group pass |
| SymbolFromSvgs.WriteArgument | src/vf2symbols/write_symbol_from_svgs.py:56-69 | one iteration ends in the tree `WriteLayer` computes, or in its exception |
| SymbolFromSvgs.WriteArguments | src/vf2symbols/write_symbol_from_svgs.py:55-69 | the loop ends in the tree `WriteLayers` computes, or in the first exception |
| SymbolFromSvgs.Run | src/vf2symbols/write_symbol_from_svgs.py:49-71 | `main` gives `RunResult`: the usage exit, the layers in order, one empty-group pass |
| SymbolFromSvgs.WriteLayersAsWrittenFirst | src/vf2symbols/write_symbol_from_svgs.py:55-69 | as written the loop ends at the first argument, with its split, load or parse exception or the TypeError of the `Rect` call |
| SymbolFromSvgs.RunAsWrittenRaises | src/vf2symbols/write_symbol_from_svgs.py:49-69 | as written no run succeeds: once the first argument is read the call raises TypeError, including every run `RunResult` completes; otherwise the usage exit or the first argument's exception, as in `RunResult` |
| SvgToSymbols.LastDot | src/vf2symbols/svg2symbols.py:49 | the position of the last '.', None exactly when there is none |
| SvgToSymbols.BodyThenTrailer | src/vf2symbols/svg2symbols.py:49 | `$` matches at the end or before a final newline: the text is the part before it plus that newline |
| SvgToSymbols.OutputNameRewrites | src/vf2symbols/svg2symbols.py:49 | a name ending in '.' and word characters, optionally then a newline, gets "_symbol" before that extension and grows by 7 |
| SvgToSymbols.OutputNameChanges | src/vf2symbols/svg2symbols.py:49 | the name changes exactly when it ends in a non-empty word extension |
| SvgToSymbols.OutputNameFinalExtension | src/vf2symbols/svg2symbols.py:49 | only the final extension is marked: "a.tar.gz" becomes "a.tar_symbol.gz" |
| SvgToSymbols.OutputNameDottedDirectory | src/vf2symbols/svg2symbols.py:49 | a '.' in a directory name is not an extension |
| SvgToSymbols.Builds | src/vf2symbols/svg2symbols.py:47-50 | one build per SVG, in order, from the rewritten name, with the single-SVG rule |
| SvgToSymbols.BuildWriter.WritePreamble | src/vf2symbols/svg2symbols.py:37-44 | the writer gains the comment, a blank line and the rule |
| SvgToSymbols.BuildWriter.WriteSvgSymbolBuilds | src/vf2symbols/svg2symbols.py:47-50 | the writer gains exactly the builds of the SVGs, in order |
| SvgToSymbols.RunResult | src/vf2symbols/svg2symbols.py:53-64 | exits exactly when there is no SVG; otherwise a build file is produced exactly when `gen_ninja` is set, and it holds the preamble and then one build per SVG |
| SvgToSymbols.Run | src/vf2symbols/svg2symbols.py:53-64 | `_run` gives `RunResult` |

## Left out

- Floating point: coordinates, sizes and transforms are exact reals, so rounding is not modelled.
- Python's `float()` on an SVG's width and height is a parameter of `SymbolFromSvg`, because its grammar is not part of this model.
- nanoemoji's `map_viewbox_to_font_emsquare` is a parameter, because its body is not part of this model. Every property about the font branch is stated in terms of it.
- Reading files is left out. `SVG.parse`/`topicosvg` is a `Loader` parameter that yields the root's width, height and outline. `ttLib.TTFont` is a `FontOpener` parameter that yields the tables the tools read, the units per em and the glyph outlines. `symbol_template.svg` is a tree passed in.
- Output is left out: `write_to`, `tostring` and writing `--out`. The builders' result is the tree that would be written. The icon name taken from `--out` in the font tools is a parameter.
- The pens' SVG path command strings are left out. A `path`'s `d` holds the transformed outline points, not the command text.
- Node identity is modelled by a unique key per node, not by object identity.
- `name_filter.search` is a predicate parameter.
- In svg2symbols, these are left out: creating the build directory, logging, printing, and running ninja. The build file is the statement sequence. `sys.executable` is a parameter.
- `\d` and `\w` are matched on ASCII only.
- Tree.FindGroup: the group id is spliced into the XPath text unescaped, so an id containing `"` (possible for a layer name taken from the command line) makes lxml raise XPathEvalError. The model compares the id literally, so it finds the group or gives ValueError where the source raises XPathEvalError.
- The absl flag parsing and `app.run` are left out.
- IconFont.WghtRange: the AttributeError from an `fvar` without a `wght` axis is modelled. The separate case of a font without `OS/2` or `head` tables is not.

## Findings

Three builders call `Symbol.write_icon` (src/vf2symbols/symbol.py:36) with arguments that do not match its signature. Python raises TypeError when it binds the arguments, before the body runs. Each builder is modelled both ways. The `RunAsWritten` functions follow the code. `RunResult`, `Run` and the lemmas about them follow the evidently intended behaviour.

| source | as written | input that shows it | evidently intended | confidence | as-written member | corrected member |
|---|---|---|---|---|---|---|
| src/vf2symbols/write_symbol_from_svg.py:56 | `write_icon(_REQUIRED_SYMBOL, svg_path)` passes 2 of the 5 required arguments | one SVG argument whose width and height parse as non-zero: TypeError | the drawn path is appended to the Regular-M group, then empty groups are dropped | high; not executed | SymbolFromSvg.RunAsWrittenRaises | SymbolFromSvg.RunWritesRequiredSymbol |
| src/vf2symbols/write_symbol_from_fonts.py:70 | `write_icon(symbol_wght_name, svg_path)` passes 2 of the 5 required arguments | one font that opens, spells the icon name and has a '.' in its file name: TypeError | each font's glyph is appended to its variant's group, in argument order | high; not executed | SymbolFromFonts.RunAsWrittenRaises | FontSymbols.FontsInArgumentOrder |
| src/vf2symbols/write_symbol_from_svgs.py:59-69 | `write_icon` gets a `Rect` as `x_size` and no `y_size` | one `layer=path` argument whose SVG has numeric width and height: TypeError | the outline is scaled by the parsed width and height and appended to the layer's group | high; not executed | SymbolFromSvgs.RunAsWrittenRaises | SymbolFromSvgs.LayersInArgumentOrder |
