/**
 * Building a symbol from several SVG drawings, one per layer given as
 * `layer=svg_path`: the leading-number parser for the drawing's width and
 * height, the argument split, and the run that writes every layer in
 * argument order and then drops the empty groups once.
 */
module SymbolFromSvgs {
  import opened Results
  import opened Affine
  import opened Text
  import opened Tree
  import opened TreePrune
  import opened SvgDocument
  import opened Symbols

  // ------------------------------------------------------------ parse_float

  predicate IsDigit(c: char) {
    '0' <= c <= '9'
  }

  /** Every character is a decimal digit. */
  predicate Digits(s: string) {
    forall i :: 0 <= i < |s| ==> IsDigit(s[i])
  }

  function DigitValue(c: char): (d: nat)
    ensures d <= 9
    ensures IsDigit(c) ==> d == (c - '0') as nat
  {
    if IsDigit(c) then (c - '0') as nat else 0
  }

  /** The length of the leading run of digits. */
  function DigitRun(s: string): (n: nat)
    ensures n <= |s|
    ensures forall i :: 0 <= i < n ==> IsDigit(s[i])
    ensures n < |s| ==> !IsDigit(s[n])
  {
    if s == [] || !IsDigit(s[0]) then 0 else 1 + DigitRun(s[1..])
  }

  /** The value of a run of decimal digits. */
  function Number(ds: string): nat
    decreases |ds|
  {
    if ds == [] then 0 else 10 * Number(ds[..|ds| - 1]) + DigitValue(ds[|ds| - 1])
  }

  /** The value of the digits after a decimal point. */
  function Fraction(ds: string): (f: real)
    ensures 0.0 <= f < 1.0
  {
    if ds == [] then 0.0 else (DigitValue(ds[0]) as real + Fraction(ds[1..])) / 10.0
  }

  /**
   * The length of the match of `\d+([.]\d*)?` at the start of s: a run of
   * digits, then, if a '.' follows, the '.' and the digits after it. None when
   * s does not start with a digit.
   */
  function MatchNumber(s: string): (r: Option<nat>)
    ensures r.None? <==> s == [] || !IsDigit(s[0])
    ensures r.Some? ==> 0 < r.value <= |s|
  {
    var n := DigitRun(s);
    if n == 0 then None
    else if n < |s| && s[n] == '.' then Some(n + 1 + DigitRun(s[n + 1..]))
    else Some(n)
  }

  /** float() of a matched text: the digits before the point, plus the fraction after it. */
  function MatchedValue(t: string): real {
    var n := DigitRun(t);
    Number(t[..n]) as real + (if n < |t| then Fraction(t[n + 1..]) else 0.0)
  }

  /**
   * `parse_float` applied to an attribute of the root svg: None (a missing
   * attribute) is a TypeError inside `match`; a text not starting with a digit
   * makes `match` return None, whose `group` is an AttributeError.
   */
  function ParseFloat(attribute: Option<string>): (r: Result<real>)
    ensures attribute.None? ==> r == Err(TypeError)
    ensures attribute.Some? ==> (r.Err? <==> attribute.value == [] || !IsDigit(attribute.value[0]))
    ensures attribute.Some? && r.Err? ==> r.error == AttributeError
    ensures r.Ok? ==> r.value >= 0.0
  {
    match attribute
    case None => Err(TypeError)
    case Some(s) =>
      match MatchNumber(s)
      case None => Err(AttributeError)
      case Some(n) => Ok(MatchedValue(s[..n]))
  }

  /** A text whose leading number is n characters long reads as the value of those characters. */
  lemma ParseFloatMatched(s: string, n: nat, t: string, v: real)
    requires MatchNumber(s) == Some(n) && n <= |s| && s[..n] == t && MatchedValue(t) == v
    ensures ParseFloat(Some(s)) == Ok(v)
  {
  }

  /** A run of digits followed by a text that does not start with a digit: the run is the leading run. */
  lemma DigitRunOf(ds: string, suffix: string)
    requires Digits(ds)
    requires suffix == [] || !IsDigit(suffix[0])
    ensures DigitRun(ds + suffix) == |ds|
  {
    var s := ds + suffix;
    assert forall i :: 0 <= i < |ds| ==> s[i] == ds[i];
    assert |ds| < |s| ==> s[|ds|] == suffix[0];
  }

  /** A whole number followed by a unit ("24px") reads as the number; the unit is ignored. */
  lemma ParseFloatInteger(ds: string, suffix: string)
    requires ds != [] && Digits(ds)
    requires suffix == [] || (!IsDigit(suffix[0]) && suffix[0] != '.')
    ensures ParseFloat(Some(ds + suffix)) == Ok(Number(ds) as real)
  {
    DigitRunOf(ds, suffix);
    assert (ds + suffix)[..|ds|] == ds;
    DigitRunOf(ds, []);
    assert ds + [] == ds;
  }

  /** The match of digits, a point and digits before a non-digit ends after the last of those digits. */
  lemma MatchDecimal(ds: string, fs: string, suffix: string)
    requires ds != [] && Digits(ds)
    requires Digits(fs)
    requires suffix == [] || !IsDigit(suffix[0])
    ensures MatchNumber(ds + "." + fs + suffix) == Some(|ds| + 1 + |fs|)
    ensures (ds + "." + fs + suffix)[..|ds| + 1 + |fs|] == ds + "." + fs
  {
    var s := ds + "." + fs + suffix;
    assert s == ds + ("." + fs + suffix);
    DigitRunOf(ds, "." + fs + suffix);
    assert s[|ds|] == '.';
    assert s[|ds| + 1..] == fs + suffix;
    DigitRunOf(fs, suffix);
  }

  /** float() of digits, a point and digits is the whole part plus the fraction. */
  lemma DecimalValue(ds: string, fs: string)
    requires ds != [] && Digits(ds)
    ensures MatchedValue(ds + "." + fs) == Number(ds) as real + Fraction(fs)
  {
    var t := ds + "." + fs;
    assert t == ds + ("." + fs);
    DigitRunOf(ds, "." + fs);
    assert t[..|ds|] == ds;
    assert t[|ds| + 1..] == fs;
  }

  /**
   * Digits, a point, more digits and a unit ("1.5px", "24.") read as the
   * whole part plus the fraction; the unit is ignored.
   */
  lemma ParseFloatDecimal(ds: string, fs: string, suffix: string)
    requires ds != [] && Digits(ds) && Digits(fs) && (suffix == [] || !IsDigit(suffix[0]))
    ensures ParseFloat(Some(ds + "." + fs + suffix)) == Ok(MatchedValue(ds + "." + fs))
    ensures MatchedValue(ds + "." + fs) == Number(ds) as real + Fraction(fs)
  {
    MatchDecimal(ds, fs, suffix);
    ParseFloatMatched(ds + "." + fs + suffix, |ds| + 1 + |fs|, ds + "." + fs, MatchedValue(ds + "." + fs));
    DecimalValue(ds, fs);
  }

  /** A width with a unit reads as its number. */
  lemma ParseFloatUnit()
    ensures ParseFloat(Some("24px")) == Ok(24.0)
  {
    assert "24" + "px" == "24px";
    assert Number("24") == 24 by {
      assert "24"[..1] == "2";
      assert "2"[..0] == "";
    }
    ParseFloatInteger("24", "px");
  }

  /** A bare trailing point adds nothing. */
  lemma ParseFloatTrailingPoint()
    ensures ParseFloat(Some("24.")) == Ok(24.0)
  {
    assert "24" + "." + "" + "" == "24.";
    assert "24" + "." + "" == "24.";
    assert Number("24") == 24 by {
      assert "24"[..1] == "2";
      assert "2"[..0] == "";
    }
    ParseFloatDecimal("24", "", "");
  }

  /** A decimal reads as itself. */
  lemma ParseFloatDecimalExample()
    ensures ParseFloat(Some("1.5")) == Ok(1.5)
  {
    assert "1" + "." + "5" + "" == "1.5";
    assert Number("1") == 1 by {
      assert "1"[..0] == "";
    }
    assert Fraction("5") == 0.5 by {
      assert "5"[1..] == "";
    }
    ParseFloatDecimal("1", "5", "");
  }

  /** An empty text, a leading point and a sign are rejected. */
  lemma ParseFloatRejects()
    ensures ParseFloat(Some("")) == Err(AttributeError)
    ensures ParseFloat(Some(".5")) == Err(AttributeError)
    ensures ParseFloat(Some("-3")) == Err(AttributeError)
  {
  }

  // -------------------------------------------------------------- arguments

  /**
   * `layer_name, svg_path = arg.split("=")`: unpacking fails with ValueError
   * unless there is exactly one '='.
   */
  function SplitLayer(arg: string): (r: Result<(string, string)>)
    ensures r.Ok? <==> Count(arg, '=') == 1
    ensures r.Err? ==> r.error == ValueError
    ensures r.Ok? ==> arg == r.value.0 + "=" + r.value.1 && '=' !in r.value.0 && '=' !in r.value.1
  {
    var parts := Split(arg, '=');
    if |parts| != 2 then Err(ValueError)
    else
      JoinSplit(arg, '=');
      assert parts[1..] == [parts[1]];
      Ok((parts[0], parts[1]))
  }

  /** A layer name and a path without '=' are split back apart. */
  lemma SplitLayerRoundTrip(layer: string, path: string)
    requires '=' !in layer && '=' !in path
    ensures SplitLayer(layer + "=" + path) == Ok((layer, path))
  {
    SplitConcat(layer, path, '=');
    SplitWithoutSeparator(layer, '=');
    SplitWithoutSeparator(path, '=');
  }

  // -------------------------------------------------------------------- run

  const UsageMessage := "Expected at least 1 non-flag Argument of a symbol layer name and svg path pair."

  /** The emsquare map handed to `write_icon`; drawings not from a font never reach it. */
  const NoEmsquare: EmsquareMap := (box: Rect, size: real) => Transform(1.0, 0.0, 0.0, 1.0, 0.0, 0.0)

  /** What one argument names and what its SVG gives: the layer, the outline and the box size. */
  datatype Layer = Layer(name: string, outline: seq<Point>, width: real, height: real)

  /**
   * The part of one iteration of the loop in `main` before `write_icon`:
   * split the argument, load the SVG, parse its width, then its height.
   */
  function ReadLayer(arg: string, load: Loader): Result<Layer> {
    var names :- SplitLayer(arg);
    var source :- load(names.1);
    var width :- ParseFloat(source.width);
    var height :- ParseFloat(source.height);
    Ok(Layer(names.0, source.outline, width, height))
  }

  /**
   * `write_icon` with the box (width, height), as the class's method states
   * it: find the layer's group, then build the transform, then place the
   * transformed outline.
   */
  function WriteIconResult(root: Element, layer: Layer): Result<Element> {
    if FindGroup(root, layer.name).None? then Err(ValueError)
    else
      var t :- BuildTransformation(false, layer.width, layer.height, NoEmsquare);
      Place(root, layer.name, ApplyAll(t, layer.outline))
  }

  /** One iteration of the loop in `main`. */
  function WriteLayer(root: Element, arg: string, load: Loader): Result<Element> {
    var layer :- ReadLayer(arg, load);
    WriteIconResult(root, layer)
  }

  /** The drawing one argument places: its layer and its transformed outline. */
  function LayerPlacement(arg: string, load: Loader): Result<Placement> {
    var layer :- ReadLayer(arg, load);
    var t :- BuildTransformation(false, layer.width, layer.height, NoEmsquare);
    Ok(Placement(layer.name, ApplyAll(t, layer.outline)))
  }

  /** Every argument written in turn, stopping at the first exception. */
  function WriteLayers(root: Element, args: seq<string>, load: Loader): Result<Element>
    decreases |args|
  {
    if args == [] then Ok(root)
    else
      var before :- WriteLayers(root, args[..|args| - 1], load);
      WriteLayer(before, args[|args| - 1], load)
  }

  /** Writing one more argument continues from the tree the earlier ones wrote. */
  lemma WriteLayersSnoc(root: Element, args: seq<string>, i: nat, before: Element, load: Loader)
    requires i < |args| && WriteLayers(root, args[..i], load) == Ok(before)
    ensures WriteLayers(root, args[..i + 1], load) == WriteLayer(before, args[i], load)
  {
    assert args[..i + 1][..i] == args[..i];
  }

  /** An exception while writing the first k arguments is the exception of the whole run. */
  lemma {:induction false} WriteLayersFailed(root: Element, args: seq<string>, load: Loader, k: nat)
    requires k <= |args| && WriteLayers(root, args[..k], load).Err?
    ensures WriteLayers(root, args, load) == WriteLayers(root, args[..k], load)
    decreases |args| - k
  {
    if k < |args| {
      assert args[..k + 1][..k] == args[..k];
      WriteLayersFailed(root, args, load, k + 1);
    } else {
      assert args[..k] == args;
    }
  }

  /** The drawings of all arguments, in argument order. */
  function LayerPlacements(args: seq<string>, load: Loader): (r: Result<seq<Placement>>)
    ensures r.Ok? ==> |r.value| == |args|
    decreases |args|
  {
    if args == [] then Ok([])
    else
      var before :- LayerPlacements(args[..|args| - 1], load);
      var last :- LayerPlacement(args[|args| - 1], load);
      Ok(before + [last])
  }

  /** `main`: the usage check, every layer in argument order, then one pass dropping empty groups. */
  function RunResult(argv: seq<string>, template: Element, load: Loader): Result<Element> {
    if |argv| < 2 then Err(Exit(UsageMessage))
    else
      var written :- WriteLayers(template, argv[1..], load);
      Ok(Prune(written))
  }

  /**
   * A successful run of writes places the arguments' drawings, in argument
   * order, exactly as placing them one after the other does.
   */
  lemma {:induction false} WriteLayersPlaces(root: Element, args: seq<string>, load: Loader)
    requires WriteLayers(root, args, load).Ok?
    ensures LayerPlacements(args, load).Ok?
    ensures WriteLayers(root, args, load) == PlaceAll(root, LayerPlacements(args, load).value)
    decreases |args|
  {
    if args != [] {
      var init, arg := args[..|args| - 1], args[|args| - 1];
      var before := WriteLayers(root, init, load).value;
      assert WriteLayers(root, args, load) == WriteLayer(before, arg, load);
      WriteLayersPlaces(root, init, load);
      WriteLayerPlaces(before, arg, load);
      var ps, p := LayerPlacements(init, load).value, LayerPlacement(arg, load).value;
      assert LayerPlacements(args, load) == Ok(ps + [p]);
      assert (ps + [p])[..|ps|] == ps;
    }
  }

  /** A successful write of one argument places that argument's drawing. */
  lemma WriteLayerPlaces(root: Element, arg: string, load: Loader)
    requires WriteLayer(root, arg, load).Ok?
    ensures LayerPlacement(arg, load).Ok?
    ensures WriteLayer(root, arg, load) == Place(root, LayerPlacement(arg, load).value.variant, LayerPlacement(arg, load).value.points)
  {
  }

  /**
   * After a successful run of writes, each layer's group holds its old
   * children followed by one path per argument naming that layer, in
   * argument order.
   */
  lemma LayersInArgumentOrder(root: Element, args: seq<string>, load: Loader, layer: string)
    requires Distinct(root) && WriteLayers(root, args, load).Ok? && FindGroup(root, layer).Some?
    ensures LayerPlacements(args, load).Ok?
    ensures var r := WriteLayers(root, args, load).value;
      var p := FindGroup(root, layer).value;
      && FindGroup(r, layer) == Some(p)
      && Payloads(At(r, p).children) ==
           Payloads(At(root, p).children) + PathPayloads(PointsFor(LayerPlacements(args, load).value, layer))
  {
    WriteLayersPlaces(root, args, load);
    PlaceAllInOrder(root, LayerPlacements(args, load).value, layer);
  }

  /**
   * The groups are pruned after all layers are written: a layer's group that
   * received a drawing is still in the output, even if it was empty in the
   * template.
   */
  lemma WrittenLayerSurvives(template: Element, args: seq<string>, load: Loader, layer: string)
    requires template.tag == "svg" && Distinct(template) && FindGroup(template, layer).Some?
    requires WriteLayers(template, args, load).Ok?
    requires LayerPlacements(args, load).Ok? && PointsFor(LayerPlacements(args, load).value, layer) != []
    ensures var written := WriteLayers(template, args, load).value;
      && FindGroup(written, layer) == FindGroup(template, layer)
      && At(written, FindGroup(written, layer).value).key in Keys(Prune(written))
  {
    var written := WriteLayers(template, args, load).value;
    var p := FindGroup(template, layer).value;
    assert p != [] by {
      assert At(template, p).tag == "g";
    }
    WriteLayersPlaces(template, args, load);
    PlaceAllInOrder(template, LayerPlacements(args, load).value, layer);
    assert Distinct(written) && FindGroup(written, layer) == Some(p);
    assert |Payloads(At(written, p).children)| > 0;
    PruneRemovesExactlyEmptyGroups(written, p);
  }

  /**
   * One iteration of the loop in `main` exactly as written: the argument is
   * split, the SVG loaded and its width and height parsed, and then
   * `write_icon` receives the `Rect` as `x_size` and no `y_size`, which
   * raises TypeError before the method's body runs.
   */
  function WriteLayerAsWritten(root: Element, arg: string, load: Loader): Result<Element> {
    var layer :- ReadLayer(arg, load);
    Err(TypeError)
  }

  /** The loop of `main` as written, stopping at the first exception. */
  function WriteLayersAsWritten(root: Element, args: seq<string>, load: Loader): Result<Element>
    decreases |args|
  {
    if args == [] then Ok(root)
    else
      var before :- WriteLayersAsWritten(root, args[..|args| - 1], load);
      WriteLayerAsWritten(before, args[|args| - 1], load)
  }

  /** `main` as written: the usage check, the loop, then the one pass dropping empty icons. */
  function RunAsWritten(argv: seq<string>, template: Element, load: Loader): Result<Element> {
    if |argv| < 2 then Err(Exit(UsageMessage))
    else
      var written :- WriteLayersAsWritten(template, argv[1..], load);
      Ok(Prune(written))
  }

  /** As written, the loop ends with the first argument: its own exception, or the TypeError of the call. */
  lemma {:induction false} WriteLayersAsWrittenFirst(root: Element, args: seq<string>, load: Loader)
    requires args != []
    ensures WriteLayersAsWritten(root, args, load) == WriteLayerAsWritten(root, args[0], load)
    decreases |args|
  {
    var init := args[..|args| - 1];
    if init == [] {
      assert args == [args[0]];
    } else {
      assert init[0] == args[0];
      WriteLayersAsWrittenFirst(root, init, load);
    }
  }

  /** A successful intended loop over some arguments read the first of them. */
  lemma {:induction false} WriteLayersReadFirst(root: Element, args: seq<string>, load: Loader)
    requires args != [] && WriteLayers(root, args, load).Ok?
    ensures ReadLayer(args[0], load).Ok?
    decreases |args|
  {
    var init := args[..|args| - 1];
    if init == [] {
      assert args == [args[0]];
    } else {
      assert init[0] == args[0];
      WriteLayersReadFirst(root, init, load);
    }
  }

  /**
   * As written no run succeeds: once the first argument is read the call
   * raises TypeError, which is what every run the intended model completes
   * does; otherwise the usage exit or the first argument's own exception
   * ends the run in both.
   */
  lemma RunAsWrittenRaises(argv: seq<string>, template: Element, load: Loader)
    ensures RunAsWritten(argv, template, load).Err?
    ensures |argv| >= 2 && ReadLayer(argv[1], load).Ok? ==> RunAsWritten(argv, template, load) == Err(TypeError)
    ensures !(|argv| >= 2 && ReadLayer(argv[1], load).Ok?) ==>
      RunAsWritten(argv, template, load) == RunResult(argv, template, load)
    ensures RunResult(argv, template, load).Ok? ==> RunAsWritten(argv, template, load) == Err(TypeError)
  {
    if |argv| >= 2 {
      var args := argv[1..];
      assert args[0] == argv[1];
      WriteLayersAsWrittenFirst(template, args, load);
      if ReadLayer(argv[1], load).Err? {
        assert WriteLayers(template, args[..1], load) == Err(ReadLayer(argv[1], load).error) by {
          assert args[..1][..0] == [];
          assert args[..1][0] == argv[1];
        }
        WriteLayersFailed(template, args, load, 1);
      }
      if RunResult(argv, template, load).Ok? {
        WriteLayersReadFirst(template, args, load);
      }
    }
  }

  /**
   * The body of the loop in `main` for one argument: read the layer, then
   * `write_icon` into the symbol.
   */
  method WriteArgument(symbol: Symbol, arg: string, load: Loader) returns (r: Result<()>)
    requires symbol.Valid()
    modifies symbol.symbol
    ensures symbol.Valid()
    ensures r.Ok? ==> WriteLayer(old(symbol.symbol.root), arg, load) == Ok(symbol.symbol.root)
    ensures r.Err? ==> WriteLayer(old(symbol.symbol.root), arg, load) == Err(r.error)
  {
    var layer :- ReadLayer(arg, load);
    r := symbol.WriteIcon(layer.name, layer.outline, layer.width, layer.height, false, NoEmsquare);
  }

  /** The loop of `main`: every argument written in order, stopping at the first exception. */
  method WriteArguments(symbol: Symbol, args: seq<string>, load: Loader) returns (r: Result<()>)
    requires symbol.Valid()
    modifies symbol.symbol
    ensures symbol.Valid()
    ensures r.Ok? ==> WriteLayers(old(symbol.symbol.root), args, load) == Ok(symbol.symbol.root)
    ensures r.Err? ==> WriteLayers(old(symbol.symbol.root), args, load) == Err(r.error)
  {
    ghost var start := symbol.symbol.root;
    var i := 0;
    while i < |args|
      invariant 0 <= i <= |args|
      invariant symbol.Valid()
      invariant WriteLayers(start, args[..i], load) == Ok(symbol.symbol.root)
    {
      ghost var before := symbol.symbol.root;
      WriteLayersSnoc(start, args, i, before, load);
      var step := WriteArgument(symbol, args[i], load);
      if step.Err? {
        WriteLayersFailed(start, args, load, i + 1);
        return Err(step.error);
      }
      i := i + 1;
    }
    assert args[..i] == args;
    r := Ok(());
  }

  /**
   * `main` of write_symbol_from_svgs: the usage check, a symbol from the
   * template, one `write_icon` per `layer=svg_path` argument, in order, then
   * `drop_empty_icons`; the result is the tree written to the output.
   */
  method Run(argv: seq<string>, template: Element, load: Loader) returns (r: Result<Element>)
    requires template.tag == "svg" && Distinct(template)
    ensures r == RunResult(argv, template, load)
  {
    if |argv| < 2 {
      return Err(Exit(UsageMessage));
    }
    var symbol := new Symbol(template);
    var written := WriteArguments(symbol, argv[1..], load);
    if written.Err? {
      return Err(written.error);
    }
    symbol.DropEmptyIcons();
    r := Ok(symbol.symbol.root);
  }
}
