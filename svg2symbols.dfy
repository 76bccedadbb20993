/**
 * The batch driver for SVG inputs: it writes a ninja build file with one
 * rule, `write_symbol_from_svg`, and one build statement per input SVG,
 * whose output name puts "_symbol" before the input's final extension.
 */
module SvgToSymbols {
  import opened Results

  // ------------------------------------------------------------ output names

  /** `\w` on ASCII text: a letter, a digit or an underscore. */
  predicate IsWordChar(c: char) {
    'a' <= c <= 'z' || 'A' <= c <= 'Z' || '0' <= c <= '9' || c == '_'
  }

  /** A match of `\w+`. */
  predicate IsWord(s: string) {
    s != [] && forall i :: 0 <= i < |s| ==> IsWordChar(s[i])
  }

  /** The index of the last '.' in s. */
  function LastDot(s: string): (r: Option<nat>)
    ensures r.None? <==> '.' !in s
    ensures r.Some? ==> r.value < |s| && s[r.value] == '.' && '.' !in s[r.value + 1..]
    decreases |s|
  {
    if s == [] then None
    else if s[|s| - 1] == '.' then Some(|s| - 1)
    else
      var r := LastDot(s[..|s| - 1]);
      assert s == s[..|s| - 1] + [s[|s| - 1]];
      if r.Some? then
        assert s[r.value + 1..] == s[..|s| - 1][r.value + 1..] + [s[|s| - 1]];
        r
      else r
  }

  /** The final newline, if any: `$` also matches just before it. */
  function Trailer(s: string): string {
    if s != [] && s[|s| - 1] == '\n' then "\n" else ""
  }

  /** The text before which `$` matches last: all of s but its trailer. */
  function Body(s: string): string {
    if s != [] && s[|s| - 1] == '\n' then s[..|s| - 1] else s
  }

  /** The body and the trailer make up the whole text. */
  lemma BodyThenTrailer(s: string)
    ensures s == Body(s) + Trailer(s)
  {
    if s != [] && s[|s| - 1] == '\n' {
      assert s == s[..|s| - 1] + "\n";
    } else {
      assert s == s + "";
    }
  }

  /** A text not ending in a newline, followed by at most one newline, splits back into the two. */
  lemma BodyAndTrailer(body: string, newline: string)
    requires body != [] && body[|body| - 1] != '\n' && (newline == "" || newline == "\n")
    ensures Body(body + newline) == body && Trailer(body + newline) == newline
  {
    var s := body + newline;
    if newline == "" {
      assert s == body;
    } else {
      assert s[|s| - 1] == '\n';
      assert s[..|s| - 1] == body;
    }
  }

  /**
   * `re.sub(r"([.]\w+)$", "_symbol\\1", svg)`. A match must run from a '.'
   * through word characters to where `$` matches, so it can only start at
   * the last '.' before that point, and only when everything after that '.'
   * is a non-empty run of word characters; "_symbol" then goes in front of it.
   */
  function OutputName(svg: string): string {
    var body := Body(svg);
    match LastDot(body)
    case None => svg
    case Some(i) =>
      if IsWord(body[i + 1..]) then body[..i] + "_symbol" + body[i..] + Trailer(svg) else svg
  }

  /** The last point of a + "." + b, when b has none, is the one between them. */
  lemma {:induction false} LastDotOf(a: string, b: string)
    requires '.' !in b
    ensures LastDot(a + "." + b) == Some(|a|)
    decreases |b|
  {
    var s := a + "." + b;
    if b != [] {
      assert s[|s| - 1] == b[|b| - 1];
      assert s[..|s| - 1] == a + "." + b[..|b| - 1];
      LastDotOf(a, b[..|b| - 1]);
    }
  }

  /**
   * A name ending in '.' and word characters, optionally followed by one
   * newline, gets "_symbol" in front of that final extension; the text
   * before it and the extension are kept, so the name grows by 7.
   */
  lemma OutputNameRewrites(stem: string, extension: string, newline: string)
    requires IsWord(extension) && (newline == "" || newline == "\n")
    ensures OutputName(stem + "." + extension + newline) == stem + "_symbol." + extension + newline
    ensures |OutputName(stem + "." + extension + newline)| == |stem + "." + extension + newline| + 7
  {
    var svg := stem + "." + extension + newline;
    var body := stem + "." + extension;
    assert Body(svg) == body && Trailer(svg) == newline by {
      assert svg == body + newline;
      assert body[|body| - 1] == extension[|extension| - 1];
      BodyAndTrailer(body, newline);
    }
    assert LastDot(body) == Some(|stem|) by {
      LastDotOf(stem, extension);
    }
    assert body[|stem| + 1..] == extension;
    assert body[..|stem|] + "_symbol" + body[|stem|..] + newline == stem + "_symbol." + extension + newline by {
      assert body[..|stem|] == stem;
      assert body[|stem|..] == "." + extension;
    }
  }

  /** The name ends in '.' and word characters, optionally followed by one newline. */
  ghost predicate HasExtension(svg: string) {
    exists stem, extension, newline :: IsWord(extension) && (newline == "" || newline == "\n") && svg == stem + "." + extension + newline
  }

  /** Whether the last '.' before the trailer is followed by word characters only. */
  predicate EndsInWord(svg: string) {
    var body := Body(svg);
    LastDot(body).Some? && IsWord(body[LastDot(body).value + 1..])
  }

  /** A name whose last '.' starts a word is rewritten, and it has an extension. */
  lemma EndsInWordRewritten(svg: string)
    requires EndsInWord(svg)
    ensures HasExtension(svg) && OutputName(svg) != svg
  {
    var body := Body(svg);
    var i := LastDot(body).value;
    var stem, extension, newline := body[..i], body[i + 1..], Trailer(svg);
    assert svg == stem + "." + extension + newline by {
      BodyThenTrailer(svg);
      assert body == stem + "." + extension;
    }
    OutputNameRewrites(stem, extension, newline);
  }

  /** Any other name is kept, and it has no extension. */
  lemma NotEndsInWordKept(svg: string)
    requires !EndsInWord(svg)
    ensures !HasExtension(svg) && OutputName(svg) == svg
  {
    assert OutputName(svg) == svg;
    if HasExtension(svg) {
      var stem, extension, newline :| IsWord(extension) && (newline == "" || newline == "\n")
        && svg == stem + "." + extension + newline;
      OutputNameRewrites(stem, extension, newline);
    }
  }

  /** The name changes exactly when it ends in an extension. */
  lemma OutputNameChanges(svg: string)
    ensures OutputName(svg) != svg <==> HasExtension(svg)
  {
    if EndsInWord(svg) {
      EndsInWordRewritten(svg);
    } else {
      NotEndsInWordKept(svg);
    }
  }

  /** An extension gets "_symbol" in front of it. */
  lemma OutputNameIcon()
    ensures OutputName("icon.svg") == "icon_symbol.svg"
  {
    assert "icon" + "." + "svg" + "" == "icon.svg";
    assert "icon" + "_symbol." + "svg" + "" == "icon_symbol.svg";
    assert IsWord("svg");
    OutputNameRewrites("icon", "svg", "");
  }

  /** Only the final extension gets "_symbol" in front of it. */
  lemma OutputNameFinalExtension()
    ensures OutputName("a.tar.gz") == "a.tar_symbol.gz"
  {
    assert "a.tar" + "." + "gz" + "" == "a.tar.gz";
    assert "a.tar" + "_symbol." + "gz" + "" == "a.tar_symbol.gz";
    assert IsWord("gz");
    OutputNameRewrites("a.tar", "gz", "");
  }

  /** A name without a '.' is kept. */
  lemma OutputNameNoDot()
    ensures OutputName("icon") == "icon"
  {
    assert '.' !in "icon";
    assert Body("icon") == "icon";
  }

  /** A name ending in '.' is kept: the extension must not be empty. */
  lemma OutputNameEmptyExtension()
    ensures OutputName("icon.") == "icon."
  {
    assert Body("icon.") == "icon.";
    assert LastDot("icon.") == Some(4);
    assert "icon."[5..] == "";
  }

  /** A '.' in a directory name is not an extension. */
  lemma OutputNameDottedDirectory()
    ensures OutputName("d.v2/icon") == "d.v2/icon"
  {
    assert "d" + "." + "v2/icon" == "d.v2/icon";
    assert Body("d.v2/icon") == "d.v2/icon";
    assert LastDot("d.v2/icon") == Some(1) by {
      LastDotOf("d", "v2/icon");
    }
    assert "d.v2/icon"[2..][2] == '/';
  }

  // ------------------------------------------------------------- build file

  /** What the ninja writer emits, one statement at a time. */
  datatype Statement =
    | Comment(text: string)
    | Newline
    | Rule(name: string, command: string)
    | Build(output: string, rule: string, input: string)

  const RuleName := "write_symbol_from_svg"

  /** `_write_svg_preamble`: a comment, a blank line, and the rule running the single-SVG builder. */
  function Preamble(executable: string): seq<Statement> {
    [Comment("Generated by svg2symbols"), Newline,
     Rule(RuleName, executable + " -m vf2symbols." + RuleName + " --out $out $in")]
  }

  /** The build statement for one input SVG. */
  function BuildFor(svg: string): Statement {
    Build(OutputName(svg), RuleName, svg)
  }

  /** One build statement per input SVG, in order, each with the rule and its output name. */
  function Builds(svgs: seq<string>): (r: seq<Statement>)
    ensures |r| == |svgs|
    ensures forall i :: 0 <= i < |svgs| ==> r[i] == Build(OutputName(svgs[i]), RuleName, svgs[i])
  {
    if svgs == [] then []
    else Builds(svgs[..|svgs| - 1]) + [BuildFor(svgs[|svgs| - 1])]
  }

  /** ninja_syntax's Writer, as the statements written so far. */
  class BuildWriter {
    var statements: seq<Statement>

    constructor ()
      ensures statements == []
    {
      statements := [];
    }

    method Write(s: Statement)
      modifies this
      ensures statements == old(statements) + [s]
    {
      statements := statements + [s];
    }

    /** `_write_svg_preamble`. */
    method WritePreamble(executable: string)
      modifies this
      ensures statements == old(statements) + Preamble(executable)
    {
      Write(Comment("Generated by svg2symbols"));
      Write(Newline);
      Write(Rule(RuleName, executable + " -m vf2symbols." + RuleName + " --out $out $in"));
    }

    /** `_write_svg_symbol_builds`: one build per SVG, in argument order. */
    method WriteSvgSymbolBuilds(svgs: seq<string>)
      modifies this
      ensures statements == old(statements) + Builds(svgs)
    {
      var i := 0;
      while i < |svgs|
        invariant 0 <= i <= |svgs|
        invariant statements == old(statements) + Builds(svgs[..i])
      {
        assert svgs[..i + 1][..i] == svgs[..i];
        Write(BuildFor(svgs[i]));
        i := i + 1;
      }
      assert svgs[..i] == svgs;
    }
  }

  const UsageMessage := "Expected list of SVG filepath"

  /**
   * `_run`: without an SVG argument, exit before any file is written; with
   * `gen_ninja`, the build file holds the preamble and one build per SVG
   * (None when it is not regenerated).
   */
  function RunResult(argv: seq<string>, genNinja: bool, executable: string): (r: Result<Option<seq<Statement>>>)
    ensures |argv| < 2 <==> r.Err?
    ensures r.Err? ==> r.error == Exit(UsageMessage)
    ensures r.Ok? ==> (r.value.Some? <==> genNinja)
    ensures r.Ok? && r.value.Some? ==>
      && genNinja
      && |r.value.value| == 3 + |argv| - 1
      && r.value.value[..3] == Preamble(executable)
      && forall i :: 1 <= i < |argv| ==> r.value.value[2 + i] == Build(OutputName(argv[i]), RuleName, argv[i])
  {
    if |argv| < 2 then Err(Exit(UsageMessage))
    else if genNinja then Ok(Some(Preamble(executable) + Builds(argv[1..])))
    else Ok(None)
  }

  /** `_run` up to running ninja: the argument check, then the build file when it is regenerated. */
  method Run(argv: seq<string>, genNinja: bool, executable: string) returns (r: Result<Option<seq<Statement>>>)
    ensures r == RunResult(argv, genNinja, executable)
  {
    if |argv| < 2 {
      return Err(Exit(UsageMessage));
    }
    if !genNinja {
      return Ok(None);
    }
    var nw := new BuildWriter();
    nw.WritePreamble(executable);
    nw.WriteSvgSymbolBuilds(argv[1..]);
    assert nw.statements == Preamble(executable) + Builds(argv[1..]);
    r := Ok(Some(nw.statements));
  }
}
