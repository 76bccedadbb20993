/**
 * The icon-font tables the tool reads, as plain data, and the helpers over
 * them: the weight range, the merged character map, the one ligature table,
 * resolving an icon name to its glyph and enumerating the icon names.
 */
module IconFont {
  import opened Results
  import opened Dicts

  type GlyphName = string

  /** An `fvar` axis record. */
  datatype Axis = Axis(axisTag: string, minValue: real, maxValue: real)

  /** A `cmap` subtable: whether it is a Unicode one, and its character-to-glyph dictionary. */
  datatype CmapSubtable = CmapSubtable(isUnicode: bool, cmap: Dict<char, GlyphName>)

  /** A ligature: the glyphs after the first one, and the glyph they form. */
  datatype Ligature = Ligature(component: seq<GlyphName>, ligGlyph: GlyphName)

  /** A GSUB lookup: its type and, for a ligature lookup, its subtables' `ligatures` dictionaries. */
  datatype Lookup = Lookup(lookupType: int, subTable: seq<Dict<GlyphName, seq<Ligature>>>)

  /** The parts of a font the tool looks at. */
  datatype Font = Font(
    usWeightClass: int,
    fvar: Option<seq<Axis>>,
    cmapTables: seq<CmapSubtable>,
    gsubLookups: seq<Lookup>)

  const LigatureLookupType := 4

  // ---------------------------------------------------------------- weights

  /** Python's int() on a number: truncation toward zero. */
  function Trunc(x: real): (r: int)
    ensures 0.0 <= x ==> r as real <= x < r as real + 1.0
    ensures x < 0.0 ==> r as real - 1.0 < x <= r as real
  {
    if 0.0 <= x then x.Floor else -((-x).Floor)
  }

  /** range(lo, hi) as the sequence it iterates. */
  function Range(lo: int, hi: int): (r: seq<int>)
    ensures |r| == if lo <= hi then hi - lo else 0
    ensures forall k :: 0 <= k < |r| ==> r[k] == lo + k
    decreases hi - lo
  {
    if hi <= lo then [] else [lo] + Range(lo + 1, hi)
  }

  /** The index of the first axis tagged "wght", if any. */
  function FirstWght(axes: seq<Axis>): (r: Option<nat>)
    ensures r.None? <==> forall j :: 0 <= j < |axes| ==> axes[j].axisTag != "wght"
    ensures r.Some? ==> r.value < |axes| && axes[r.value].axisTag == "wght"
    ensures r.Some? ==> forall j :: 0 <= j < r.value ==> axes[j].axisTag != "wght"
  {
    if axes == [] then None
    else if axes[0].axisTag == "wght" then Some(0)
    else match FirstWght(axes[1..])
      case None => None
      case Some(i) => Some(i + 1)
  }

  /**
   * `wght_range`: the single weight class without `fvar`; with it, from the
   * first "wght" axis, int(minValue) up to int(maxValue) inclusive. When
   * `fvar` has no such axis the attribute read on None fails.
   */
  function WghtRange(font: Font): (r: Result<seq<int>>)
    ensures font.fvar.None? ==> r == Ok([font.usWeightClass])
    ensures font.fvar.Some? ==>
      (r.Err? <==> forall a :: a in font.fvar.value ==> a.axisTag != "wght")
    ensures r.Err? ==> r.error == AttributeError
  {
    match font.fvar
    case None =>
      var single := Range(font.usWeightClass, font.usWeightClass + 1);
      assert single == [font.usWeightClass];
      Ok(single)
    case Some(axes) =>
      match FirstWght(axes)
      case None => Err(AttributeError)
      case Some(i) => Ok(Range(Trunc(axes[i].minValue), Trunc(axes[i].maxValue) + 1))
  }

  /**
   * With `fvar`, the range is taken from the first "wght" axis: exactly the
   * integers from int(minValue) to int(maxValue), in increasing steps of one.
   */
  lemma WghtRangeOfAxis(font: Font, i: nat)
    requires font.fvar.Some? && i < |font.fvar.value|
    requires font.fvar.value[i].axisTag == "wght"
    requires forall j :: 0 <= j < i ==> font.fvar.value[j].axisTag != "wght"
    ensures var a := font.fvar.value[i];
      && WghtRange(font).Ok?
      && (forall w :: w in WghtRange(font).value <==> Trunc(a.minValue) <= w <= Trunc(a.maxValue))
      && (forall k :: 0 < k < |WghtRange(font).value| ==>
            WghtRange(font).value[k] == WghtRange(font).value[k - 1] + 1)
  {
    var axes := font.fvar.value;
    assert FirstWght(axes) == Some(i);
    var r := WghtRange(font).value;
    var lo := Trunc(axes[i].minValue);
    forall w | lo <= w <= Trunc(axes[i].maxValue)
      ensures w in r
    {
      assert r[w - lo] == w;
    }
  }

  // ------------------------------------------------------------------- cmap

  /**
   * `_cmap`: the Unicode subtables' dictionaries merged with `update`, in
   * table order, starting from an empty dictionary.
   */
  function Cmap(tables: seq<CmapSubtable>): Dict<char, GlyphName>
    decreases |tables|
  {
    if tables == [] then Empty()
    else
      var acc := Cmap(tables[..|tables| - 1]);
      var last := tables[|tables| - 1];
      if last.isUnicode then Update(acc, last.cmap) else acc
  }

  /** The merged keys are exactly the keys of the Unicode subtables. */
  lemma {:induction false} CmapKeys(tables: seq<CmapSubtable>, c: char)
    ensures c in Cmap(tables).entries <==>
      exists i :: 0 <= i < |tables| && tables[i].isUnicode && c in tables[i].cmap.entries
    decreases |tables|
  {
    if tables != [] {
      var init := tables[..|tables| - 1];
      CmapKeys(init, c);
      if c in Cmap(tables).entries && !(c in Cmap(init).entries) {
        assert c in tables[|tables| - 1].cmap.entries;
      }
      if exists i :: 0 <= i < |tables| && tables[i].isUnicode && c in tables[i].cmap.entries {
        var i :| 0 <= i < |tables| && tables[i].isUnicode && c in tables[i].cmap.entries;
        if i < |tables| - 1 {
          assert tables[i] == init[i];
        }
      }
    }
  }

  /**
   * A character mapped by several Unicode subtables takes its glyph from the
   * last of them.
   */
  lemma {:induction false} CmapLastWins(tables: seq<CmapSubtable>, i: nat, c: char)
    requires i < |tables| && tables[i].isUnicode && c in tables[i].cmap.entries
    requires forall j :: i < j < |tables| && tables[j].isUnicode ==> c !in tables[j].cmap.entries
    ensures c in Cmap(tables).entries && Cmap(tables).entries[c] == tables[i].cmap.entries[c]
    decreases |tables|
  {
    var init := tables[..|tables| - 1];
    if i < |tables| - 1 {
      assert tables[i] == init[i];
      CmapLastWins(init, i, c);
    }
  }

  /** Merging well-formed subtables gives a well-formed dictionary. */
  lemma {:induction false} CmapValid(tables: seq<CmapSubtable>)
    requires forall i :: 0 <= i < |tables| ==> Valid(tables[i].cmap)
    ensures Valid(Cmap(tables))
    decreases |tables|
  {
    if tables != [] {
      var init := tables[..|tables| - 1];
      CmapValid(init);
      if tables[|tables| - 1].isUnicode {
        UpdateValid(Cmap(init), tables[|tables| - 1].cmap);
      }
    }
  }

  /** The `functools.reduce` loop of `_cmap`, updating one accumulator. */
  method MergeCmaps(tables: seq<CmapSubtable>) returns (acc: Dict<char, GlyphName>)
    ensures acc == Cmap(tables)
  {
    acc := Empty();
    var i := 0;
    while i < |tables|
      invariant i <= |tables|
      invariant acc == Cmap(tables[..i])
    {
      assert tables[..i + 1][..i] == tables[..i];
      if tables[i].isUnicode {
        acc := Update(acc, tables[i].cmap);
      }
      i := i + 1;
    }
    assert tables[..i] == tables;
  }

  // ---------------------------------------------------------------- ligatures

  /** The lookups of type 4, in order. */
  function LigatureLookups(lookups: seq<Lookup>): (r: seq<Lookup>)
    ensures |r| <= |lookups|
    ensures forall l :: l in r <==> l in lookups && l.lookupType == LigatureLookupType
  {
    if lookups == [] then []
    else
      var rest := LigatureLookups(lookups[1..]);
      if lookups[0].lookupType == LigatureLookupType then [lookups[0]] + rest else rest
  }

  /** Without a type-4 lookup nothing is left. */
  lemma {:induction false} LigatureLookupsNone(lookups: seq<Lookup>)
    requires forall j :: 0 <= j < |lookups| ==> lookups[j].lookupType != LigatureLookupType
    ensures LigatureLookups(lookups) == []
  {
    if lookups != [] {
      LigatureLookupsNone(lookups[1..]);
    }
  }

  /** One type-4 lookup, and no other, leaves exactly that lookup. */
  lemma {:induction false} LigatureLookupsOne(lookups: seq<Lookup>, i: nat)
    requires i < |lookups| && lookups[i].lookupType == LigatureLookupType
    requires forall j :: 0 <= j < |lookups| && j != i ==> lookups[j].lookupType != LigatureLookupType
    ensures LigatureLookups(lookups) == [lookups[i]]
  {
    if i == 0 {
      LigatureLookupsNone(lookups[1..]);
    } else {
      LigatureLookupsOne(lookups[1..], i - 1);
    }
  }

  /** Two type-4 lookups leave at least two. */
  lemma {:induction false} LigatureLookupsTwo(lookups: seq<Lookup>, i: nat, j: nat)
    requires i < j < |lookups|
    requires lookups[i].lookupType == LigatureLookupType && lookups[j].lookupType == LigatureLookupType
    ensures |LigatureLookups(lookups)| >= 2
  {
    if i == 0 {
      assert lookups[1..][j - 1] == lookups[j];
      assert lookups[j] in LigatureLookups(lookups[1..]);
    } else {
      LigatureLookupsTwo(lookups[1..], i - 1, j - 1);
    }
  }

  /**
   * `_ligature_roots`: the `ligatures` dictionary of the one subtable of the
   * one ligature lookup; any other shape fails its assertions.
   */
  function LigatureRoots(font: Font): (r: Result<Dict<GlyphName, seq<Ligature>>>)
    ensures r.Err? ==> r.error == AssertionError
  {
    var lookups := LigatureLookups(font.gsubLookups);
    if |lookups| != 1 then Err(AssertionError)
    else if |lookups[0].subTable| != 1 then Err(AssertionError)
    else Ok(lookups[0].subTable[0])
  }

  /**
   * With exactly one type-4 lookup, the roots are its subtable's when it has
   * exactly one subtable, and an assertion fails otherwise.
   */
  lemma LigatureRootsOne(font: Font, i: nat)
    requires i < |font.gsubLookups| && font.gsubLookups[i].lookupType == LigatureLookupType
    requires forall j :: 0 <= j < |font.gsubLookups| && j != i ==>
      font.gsubLookups[j].lookupType != LigatureLookupType
    ensures |font.gsubLookups[i].subTable| == 1 ==>
      LigatureRoots(font) == Ok(font.gsubLookups[i].subTable[0])
    ensures |font.gsubLookups[i].subTable| != 1 ==> LigatureRoots(font) == Err(AssertionError)
  {
    LigatureLookupsOne(font.gsubLookups, i);
  }

  /** No ligature lookup, or more than one, fails the first assertion. */
  lemma LigatureRootsNotOne(font: Font)
    requires (forall j :: 0 <= j < |font.gsubLookups| ==> font.gsubLookups[j].lookupType != LigatureLookupType) ||
      (exists i, j :: 0 <= i < j < |font.gsubLookups| &&
        font.gsubLookups[i].lookupType == LigatureLookupType && font.gsubLookups[j].lookupType == LigatureLookupType)
    ensures LigatureRoots(font) == Err(AssertionError)
  {
    var ls := font.gsubLookups;
    if exists i, j :: 0 <= i < j < |ls| && ls[i].lookupType == LigatureLookupType && ls[j].lookupType == LigatureLookupType {
      var i, j :| 0 <= i < j < |ls| && ls[i].lookupType == LigatureLookupType && ls[j].lookupType == LigatureLookupType;
      LigatureLookupsTwo(ls, i, j);
    } else {
      LigatureLookupsNone(ls);
    }
  }

  // ------------------------------------------------------------- resolution

  /**
   * `[m[x] for x in xs]`: every element looked up in turn; the first missing
   * one raises KeyError.
   */
  function LookupAll<A, B>(m: map<A, B>, xs: seq<A>): (r: Result<seq<B>>)
    ensures r.Err? <==> exists i :: 0 <= i < |xs| && xs[i] !in m
    ensures r.Err? ==> r.error == KeyError
    ensures r.Ok? ==> |r.value| == |xs| && forall i :: 0 <= i < |xs| ==> r.value[i] == m[xs[i]]
  {
    if xs == [] then Ok([])
    else if xs[0] !in m then Err(KeyError)
    else
      match LookupAll(m, xs[1..])
      case Err(e) => Err(e)
      case Ok(rest) => Ok([m[xs[0]]] + rest)
  }

  /** The index of the first ligature, in list order, whose components are `comps`. */
  function FirstMatch(ligatures: seq<Ligature>, comps: seq<GlyphName>): (r: Option<nat>)
    ensures r.None? <==> forall j :: 0 <= j < |ligatures| ==> ligatures[j].component != comps
    ensures r.Some? ==> r.value < |ligatures| && ligatures[r.value].component == comps
    ensures r.Some? ==> forall j :: 0 <= j < r.value ==> ligatures[j].component != comps
  {
    if ligatures == [] then None
    else if ligatures[0].component == comps then Some(0)
    else match FirstMatch(ligatures[1..], comps)
      case None => None
      case Some(i) => Some(i + 1)
  }

  /**
   * The characters of `name` map through `cmap` to `root` followed by the
   * ligature's components, one glyph per character.
   */
  predicate Spells(cmap: map<char, GlyphName>, name: string, root: GlyphName, l: Ligature) {
    LookupAll(cmap, name) == Ok([root] + l.component)
  }

  /**
   * `resolve_ligature`: the glyph of the first character and of the others
   * through the merged cmap, then the first ligature under that root glyph
   * whose components are the others' glyphs. In the order the source raises
   * them: IndexError for an empty name, KeyError for an unmapped character,
   * the roots' AssertionError, KeyError for a root without ligatures,
   * StopIteration when no ligature matches.
   */
  function ResolveLigature(font: Font, iconName: string): (r: Result<GlyphName>)
    ensures iconName == [] ==> r == Err(IndexError)
    ensures iconName != [] && (exists i :: 0 <= i < |iconName| && iconName[i] !in Cmap(font.cmapTables).entries) ==>
      r == Err(KeyError)
    ensures iconName != [] && (forall i :: 0 <= i < |iconName| ==> iconName[i] in Cmap(font.cmapTables).entries) ==>
      (LigatureRoots(font).Err? ==> r == LigatureRoots(font).PropagateFailure()) &&
      (LigatureRoots(font).Ok? && Cmap(font.cmapTables).entries[iconName[0]] !in LigatureRoots(font).value.entries ==>
        r == Err(KeyError))
    ensures r.Err? && r.error == StopIteration ==>
      && iconName != [] && LigatureRoots(font).Ok?
      && iconName[0] in Cmap(font.cmapTables).entries
      && Cmap(font.cmapTables).entries[iconName[0]] in LigatureRoots(font).value.entries
      && (forall l :: l in LigatureRoots(font).value.entries[Cmap(font.cmapTables).entries[iconName[0]]] ==>
            !Spells(Cmap(font.cmapTables).entries, iconName, Cmap(font.cmapTables).entries[iconName[0]], l))
    ensures r.Ok? ==>
      && iconName != [] && LigatureRoots(font).Ok?
      && iconName[0] in Cmap(font.cmapTables).entries
      && var cmap := Cmap(font.cmapTables).entries;
      && var root := cmap[iconName[0]];
      && root in LigatureRoots(font).value.entries
      && var ligatures := LigatureRoots(font).value.entries[root];
      && exists j :: 0 <= j < |ligatures| && Spells(cmap, iconName, root, ligatures[j])
           && r.value == ligatures[j].ligGlyph
           && forall i :: 0 <= i < j ==> !Spells(cmap, iconName, root, ligatures[i])
  {
    var cmap := Cmap(font.cmapTables).entries;
    if iconName == [] then Err(IndexError)
    else if iconName[0] !in cmap then Err(KeyError)
    else
      var first := cmap[iconName[0]];
      match LookupAll(cmap, iconName[1..])
      case Err(e) =>
        assert exists i :: 0 <= i < |iconName[1..]| && iconName[1..][i] !in cmap;
        Err(e)
      case Ok(rest) =>
        match LigatureRoots(font)
        case Err(e) => Err(e)
        case Ok(roots) =>
          if first !in roots.entries then Err(KeyError)
          else
            var ligatures := roots.entries[first];
            SpellsIffMatch(cmap, iconName, first, rest, ligatures);
            match FirstMatch(ligatures, rest)
            case None => Err(StopIteration)
            case Some(j) => Ok(ligatures[j].ligGlyph)
  }

  /**
   * Once the name's characters are all mapped, a ligature is spelt by the name
   * exactly when its components are the glyphs of the characters after the first.
   */
  lemma SpellsIffMatch(cmap: map<char, GlyphName>, name: string, root: GlyphName,
                       rest: seq<GlyphName>, ligatures: seq<Ligature>)
    requires name != [] && name[0] in cmap && cmap[name[0]] == root
    requires LookupAll(cmap, name[1..]) == Ok(rest)
    ensures forall j :: 0 <= j < |ligatures| ==> (Spells(cmap, name, root, ligatures[j]) <==> ligatures[j].component == rest)
  {
    assert LookupAll(cmap, name) == Ok([root] + rest);
    forall j | 0 <= j < |ligatures| && Spells(cmap, name, root, ligatures[j])
      ensures ligatures[j].component == rest
    {
      assert ([root] + ligatures[j].component)[1..] == ligatures[j].component;
      assert ([root] + rest)[1..] == rest;
    }
  }

  /**
   * When the name spells the j-th ligature under its root and no earlier
   * one, resolving the name gives that ligature's glyph.
   */
  lemma ResolveLigatureFinds(font: Font, iconName: string, j: nat)
    requires LigatureRoots(font).Ok?
    requires iconName != [] && iconName[0] in Cmap(font.cmapTables).entries
    requires Cmap(font.cmapTables).entries[iconName[0]] in LigatureRoots(font).value.entries
    requires var cmap := Cmap(font.cmapTables).entries;
      var ligatures := LigatureRoots(font).value.entries[cmap[iconName[0]]];
      && j < |ligatures|
      && Spells(cmap, iconName, cmap[iconName[0]], ligatures[j])
      && forall i :: 0 <= i < j ==> !Spells(cmap, iconName, cmap[iconName[0]], ligatures[i])
    ensures var root := Cmap(font.cmapTables).entries[iconName[0]];
      ResolveLigature(font, iconName) == Ok(LigatureRoots(font).value.entries[root][j].ligGlyph)
  {
    var cmap := Cmap(font.cmapTables).entries;
    var root := cmap[iconName[0]];
    var ligatures := LigatureRoots(font).value.entries[root];
    var rest := LookupAll(cmap, iconName[1..]);
    assert rest.Ok? by {
      forall i | 0 <= i < |iconName[1..]|
        ensures iconName[1..][i] in cmap
      {
        assert LookupAll(cmap, iconName).Ok?;
        assert iconName[1..][i] == iconName[i + 1];
      }
    }
    SpellsIffMatch(cmap, iconName, root, rest.value, ligatures);
    var m := FirstMatch(ligatures, rest.value);
    assert m == Some(j);
  }

  // ------------------------------------------------------------- extraction

  /** A ligature together with the root glyph it is stored under. */
  datatype Candidate = Candidate(root: GlyphName, ligature: Ligature)

  /** The glyphs an icon name spells: the root, then the components. */
  function GlyphsOf(c: Candidate): seq<GlyphName> {
    [c.root] + c.ligature.component
  }

  /** The ligatures of one root, in list order. */
  function CandidatesOf(root: GlyphName, ligatures: seq<Ligature>): (r: seq<Candidate>)
    ensures |r| == |ligatures|
    ensures forall i :: 0 <= i < |r| ==> r[i] == Candidate(root, ligatures[i])
  {
    seq(|ligatures|, i requires 0 <= i < |ligatures| => Candidate(root, ligatures[i]))
  }

  /** Every (root, ligature) pair in root-then-ligature order. */
  function Candidates(keys: seq<GlyphName>, entries: map<GlyphName, seq<Ligature>>): seq<Candidate>
    decreases |keys|
  {
    if keys == [] then []
    else
      var last := keys[|keys| - 1];
      Candidates(keys[..|keys| - 1], entries) + (if last in entries then CandidatesOf(last, entries[last]) else [])
  }

  /** Every candidate is a ligature stored under its root, at some position of the root's list. */
  lemma {:induction false} CandidateOrigin(keys: seq<GlyphName>, entries: map<GlyphName, seq<Ligature>>, i: nat)
    returns (j: nat)
    requires i < |Candidates(keys, entries)|
    ensures var c := Candidates(keys, entries)[i];
      c.root in keys && c.root in entries && j < |entries[c.root]| && entries[c.root][j] == c.ligature
    decreases |keys|
  {
    var init := keys[..|keys| - 1];
    var last := keys[|keys| - 1];
    var before := Candidates(init, entries);
    if i < |before| {
      j := CandidateOrigin(init, entries, i);
      assert Candidates(keys, entries)[i] == before[i];
    } else {
      j := i - |before|;
    }
  }

  /**
   * What the generator has produced: the names yielded so far and, when it
   * stopped early, the exception it raised.
   */
  datatype Enumeration = Enumeration(names: seq<string>, failure: Option<Error>)

  /**
   * The loop body of `extract_icon_names`, candidate after candidate: each
   * glyph is mapped back to its character through the inverted cmap (KeyError
   * for a glyph no character maps to, which ends the enumeration), and the
   * name is yielded when the filter accepts it.
   */
  function Enumerate(cs: seq<Candidate>, rev: map<GlyphName, char>, accept: string -> bool): Enumeration
    decreases |cs|
  {
    if cs == [] then Enumeration([], None)
    else Step(Enumerate(cs[..|cs| - 1], rev, accept), LookupAll(rev, GlyphsOf(cs[|cs| - 1])), accept)
  }

  /** One candidate's turn, given the name its glyphs map back to. */
  function Step(before: Enumeration, name: Result<string>, accept: string -> bool): Enumeration {
    if before.failure.Some? then before
    else
      match name
      case Err(e) => Enumeration(before.names, Some(e))
      case Ok(n) => if accept(n) then Enumeration(before.names + [n], None) else before
  }

  /** The inverted cmap, `{v: k for k, v in _cmap(ttfont).items()}`. */
  function ReverseCmap(font: Font): map<GlyphName, char> {
    Invert(Cmap(font.cmapTables))
  }

  /** `extract_icon_names`, as everything it yields and how it ends. */
  function IconNames(font: Font, accept: string -> bool): Enumeration {
    match LigatureRoots(font)
    case Err(e) => Enumeration([], Some(e))
    case Ok(roots) => Enumerate(Candidates(roots.keys, roots.entries), ReverseCmap(font), accept)
  }

  /** Once the enumeration has failed, later candidates change nothing. */
  lemma {:induction false} EnumerateFailed(cs: seq<Candidate>, more: seq<Candidate>, rev: map<GlyphName, char>,
                                           accept: string -> bool)
    requires Enumerate(cs, rev, accept).failure.Some?
    ensures Enumerate(cs + more, rev, accept) == Enumerate(cs, rev, accept)
    decreases |more|
  {
    if more != [] {
      var init := more[..|more| - 1];
      assert (cs + more)[..|cs + more| - 1] == cs + init;
      EnumerateFailed(cs, init, rev, accept);
    } else {
      assert cs + more == cs;
    }
  }

  /**
   * Names come out in candidate order: what the first i candidates yield is
   * a prefix of what all of them yield.
   */
  lemma {:induction false} EnumeratePrefix(cs: seq<Candidate>, i: nat, rev: map<GlyphName, char>, accept: string -> bool)
    requires i <= |cs|
    ensures Enumerate(cs[..i], rev, accept).names <= Enumerate(cs, rev, accept).names
    decreases |cs| - i
  {
    if i < |cs| {
      EnumeratePrefix(cs, i + 1, rev, accept);
      assert cs[..i + 1][..i] == cs[..i];
    } else {
      assert cs[..i] == cs;
    }
  }

  /**
   * Every yielded name is accepted by the filter and is spelt by some
   * candidate, one character per glyph; there is at most one name per
   * candidate; and only a KeyError ends the enumeration early.
   */
  lemma {:induction false} EnumerateSound(cs: seq<Candidate>, rev: map<GlyphName, char>, accept: string -> bool)
    ensures var e := Enumerate(cs, rev, accept);
      && |e.names| <= |cs|
      && (e.failure.Some? ==> e.failure == Some(KeyError))
      && forall k :: 0 <= k < |e.names| ==>
           accept(e.names[k]) &&
           exists i :: 0 <= i < |cs| && LookupAll(rev, GlyphsOf(cs[i])) == Ok(e.names[k])
    decreases |cs|
  {
    if cs != [] {
      var init := cs[..|cs| - 1];
      EnumerateSound(init, rev, accept);
      var before := Enumerate(init, rev, accept);
      forall k | 0 <= k < |before.names|
        ensures exists i :: 0 <= i < |cs| && LookupAll(rev, GlyphsOf(cs[i])) == Ok(before.names[k])
      {
        var i :| 0 <= i < |init| && LookupAll(rev, GlyphsOf(init[i])) == Ok(before.names[k]);
        assert cs[i] == init[i];
      }
    }
  }

  /**
   * Without failure, every candidate whose glyphs all map back to characters
   * and whose name the filter accepts is yielded.
   */
  lemma {:induction false} EnumerateComplete(cs: seq<Candidate>, rev: map<GlyphName, char>, accept: string -> bool, i: nat)
    requires i < |cs|
    requires Enumerate(cs, rev, accept).failure.None?
    ensures LookupAll(rev, GlyphsOf(cs[i])).Ok?
    ensures accept(LookupAll(rev, GlyphsOf(cs[i])).value) ==>
      LookupAll(rev, GlyphsOf(cs[i])).value in Enumerate(cs, rev, accept).names
    decreases |cs|
  {
    var init := cs[..|cs| - 1];
    if i < |init| {
      assert cs[i] == init[i];
      EnumerateComplete(init, rev, accept, i);
    }
  }

  /** No root lists two ligatures with the same components. */
  predicate Unambiguous(entries: map<GlyphName, seq<Ligature>>) {
    forall root, i, j :: root in entries && 0 <= i < j < |entries[root]| ==>
      entries[root][i].component != entries[root][j].component
  }

  /** A name spells at most one component list under a root. */
  lemma SpellsDetermines(cmap: map<char, GlyphName>, name: string, root: GlyphName, a: Ligature, b: Ligature)
    ensures Spells(cmap, name, root, a) && Spells(cmap, name, root, b) ==> a.component == b.component
  {
    assert ([root] + a.component)[1..] == a.component;
    assert ([root] + b.component)[1..] == b.component;
  }

  /** Mapping glyphs back through the inverted cmap and forward again gives the glyphs. */
  lemma LookupAllInverse(cmap: Dict<char, GlyphName>, glyphs: seq<GlyphName>, name: string)
    requires LookupAll(Invert(cmap), glyphs) == Ok(name)
    ensures LookupAll(cmap.entries, name) == Ok(glyphs)
  {
    var rev := Invert(cmap);
    InvertKeysSpec(cmap.keys, cmap.entries);
    forall p | 0 <= p < |name|
      ensures name[p] in cmap.entries && cmap.entries[name[p]] == glyphs[p]
    {
      assert name[p] == rev[glyphs[p]];
    }
    var r := LookupAll(cmap.entries, name);
    assert r.Ok?;
    assert r.value == glyphs;
  }

  /**
   * The round trip: with no root repeating a component list, resolving the
   * name a candidate yields gives back that candidate's ligature glyph.
   */
  lemma CandidateRoundTrip(font: Font, i: nat)
    requires LigatureRoots(font).Ok? && Unambiguous(LigatureRoots(font).value.entries)
    requires i < |Candidates(LigatureRoots(font).value.keys, LigatureRoots(font).value.entries)|
    requires LookupAll(ReverseCmap(font),
                       GlyphsOf(Candidates(LigatureRoots(font).value.keys, LigatureRoots(font).value.entries)[i])).Ok?
    ensures var c := Candidates(LigatureRoots(font).value.keys, LigatureRoots(font).value.entries)[i];
      ResolveLigature(font, LookupAll(ReverseCmap(font), GlyphsOf(c)).value) == Ok(c.ligature.ligGlyph)
  {
    var roots := LigatureRoots(font).value;
    var c := Candidates(roots.keys, roots.entries)[i];
    var name := LookupAll(ReverseCmap(font), GlyphsOf(c)).value;
    var cmap := Cmap(font.cmapTables);
    var j := CandidateOrigin(roots.keys, roots.entries, i);
    var ligatures := roots.entries[c.root];
    LookupAllInverse(cmap, GlyphsOf(c), name);
    assert name != [] && name[0] in cmap.entries && cmap.entries[name[0]] == c.root;
    assert Spells(cmap.entries, name, c.root, ligatures[j]);
    forall k | 0 <= k < j
      ensures !Spells(cmap.entries, name, c.root, ligatures[k])
    {
      SpellsDetermines(cmap.entries, name, c.root, ligatures[k], ligatures[j]);
    }
    ResolveLigatureFinds(font, name, j);
  }

  /**
   * Every name `extract_icon_names` yields resolves, through
   * `resolve_ligature`, to the glyph of a ligature it was built from, when no
   * root repeats a component list.
   */
  lemma RoundTrip(font: Font, accept: string -> bool, name: string)
    requires name in IconNames(font, accept).names
    requires LigatureRoots(font).Ok? ==> Unambiguous(LigatureRoots(font).value.entries)
    ensures LigatureRoots(font).Ok?
    ensures var roots := LigatureRoots(font).value;
      exists c :: c in Candidates(roots.keys, roots.entries) &&
        LookupAll(ReverseCmap(font), GlyphsOf(c)) == Ok(name) &&
        ResolveLigature(font, name) == Ok(c.ligature.ligGlyph)
  {
    var roots := LigatureRoots(font).value;
    var cs := Candidates(roots.keys, roots.entries);
    EnumerateSound(cs, ReverseCmap(font), accept);
    var k :| 0 <= k < |IconNames(font, accept).names| && IconNames(font, accept).names[k] == name;
    var i :| 0 <= i < |cs| && LookupAll(ReverseCmap(font), GlyphsOf(cs[i])) == Ok(name);
    CandidateRoundTrip(font, i);
    assert cs[i] in cs;
  }

  /** Candidates of concatenated key lists are concatenated. */
  lemma {:induction false} CandidatesConcat(a: seq<GlyphName>, b: seq<GlyphName>, entries: map<GlyphName, seq<Ligature>>)
    ensures Candidates(a + b, entries) == Candidates(a, entries) + Candidates(b, entries)
    decreases |b|
  {
    if b == [] {
      assert a + b == a;
    } else {
      var init := b[..|b| - 1];
      assert (a + b)[..|a + b| - 1] == a + init;
      CandidatesConcat(a, init, entries);
    }
  }

  /** One more root adds that root's ligatures, when it has any. */
  lemma CandidatesSnoc(keys: seq<GlyphName>, entries: map<GlyphName, seq<Ligature>>, i: nat)
    requires i < |keys|
    ensures Candidates(keys[..i + 1], entries) == Candidates(keys[..i], entries) +
      (if keys[i] in entries then CandidatesOf(keys[i], entries[keys[i]]) else [])
  {
    assert keys[..i + 1][..i] == keys[..i];
  }

  /** One more ligature of a root adds that ligature. */
  lemma CandidatesOfSnoc(root: GlyphName, ligatures: seq<Ligature>, j: nat)
    requires j < |ligatures|
    ensures CandidatesOf(root, ligatures[..j + 1]) == CandidatesOf(root, ligatures[..j]) + [Candidate(root, ligatures[j])]
  {
  }

  /** A root's candidates split where its ligature list is split. */
  lemma CandidatesOfSplit(root: GlyphName, ligatures: seq<Ligature>, j: nat)
    requires j <= |ligatures|
    ensures CandidatesOf(root, ligatures) == CandidatesOf(root, ligatures[..j]) + CandidatesOf(root, ligatures[j..])
  {
  }

  /** The enumeration continued from `e` over more candidates. */
  function Run(e: Enumeration, cs: seq<Candidate>, rev: map<GlyphName, char>, accept: string -> bool): Enumeration
    decreases |cs|
  {
    if cs == [] then e
    else Step(Run(e, cs[..|cs| - 1], rev, accept), LookupAll(rev, GlyphsOf(cs[|cs| - 1])), accept)
  }

  /** Enumerating a concatenation continues the enumeration of its first part. */
  lemma {:induction false} EnumerateIsRun(a: seq<Candidate>, b: seq<Candidate>, rev: map<GlyphName, char>,
                                          accept: string -> bool)
    ensures Enumerate(a + b, rev, accept) == Run(Enumerate(a, rev, accept), b, rev, accept)
    decreases |b|
  {
    if b == [] {
      assert a + b == a;
    } else {
      var init := b[..|b| - 1];
      assert (a + b)[..|a + b| - 1] == a + init;
      EnumerateIsRun(a, init, rev, accept);
    }
  }

  /** Continuing over a concatenation continues twice. */
  lemma {:induction false} RunConcat(e: Enumeration, a: seq<Candidate>, b: seq<Candidate>, rev: map<GlyphName, char>,
                                     accept: string -> bool)
    ensures Run(e, a + b, rev, accept) == Run(Run(e, a, rev, accept), b, rev, accept)
    decreases |b|
  {
    if b == [] {
      assert a + b == a;
    } else {
      var init := b[..|b| - 1];
      assert (a + b)[..|a + b| - 1] == a + init;
      RunConcat(e, a, init, rev, accept);
    }
  }

  /** A failed enumeration stays as it is. */
  lemma {:induction false} RunFailed(e: Enumeration, cs: seq<Candidate>, rev: map<GlyphName, char>, accept: string -> bool)
    requires e.failure.Some?
    ensures Run(e, cs, rev, accept) == e
    decreases |cs|
  {
    if cs != [] {
      RunFailed(e, cs[..|cs| - 1], rev, accept);
    }
  }

  /** One more ligature of the root is one more step. */
  lemma RunRootSnoc(e: Enumeration, root: GlyphName, ligatures: seq<Ligature>, j: nat, rev: map<GlyphName, char>,
                    accept: string -> bool)
    requires j < |ligatures|
    ensures Run(e, CandidatesOf(root, ligatures[..j + 1]), rev, accept) ==
      Step(Run(e, CandidatesOf(root, ligatures[..j]), rev, accept),
           LookupAll(rev, GlyphsOf(Candidate(root, ligatures[j]))), accept)
  {
    CandidatesOfSnoc(root, ligatures, j);
    var cs := CandidatesOf(root, ligatures[..j + 1]);
    assert cs[..|cs| - 1] == CandidatesOf(root, ligatures[..j]);
  }

  /** A failure on the j-th ligature ends the root's loop there. */
  lemma RunRootFailed(e: Enumeration, root: GlyphName, ligatures: seq<Ligature>, j: nat, rev: map<GlyphName, char>,
                      accept: string -> bool)
    requires j <= |ligatures|
    requires Run(e, CandidatesOf(root, ligatures[..j]), rev, accept).failure.Some?
    ensures Run(e, CandidatesOf(root, ligatures), rev, accept) == Run(e, CandidatesOf(root, ligatures[..j]), rev, accept)
  {
    CandidatesOfSplit(root, ligatures, j);
    RunConcat(e, CandidatesOf(root, ligatures[..j]), CandidatesOf(root, ligatures[j..]), rev, accept);
    RunFailed(Run(e, CandidatesOf(root, ligatures[..j]), rev, accept), CandidatesOf(root, ligatures[j..]), rev, accept);
  }

  /**
   * The inner loop of `extract_icon_names`, over one root's ligatures,
   * continuing from the names yielded so far.
   */
  method EnumerateRoot(names: seq<string>, root: GlyphName, ligatures: seq<Ligature>,
                       rev: map<GlyphName, char>, accept: string -> bool)
    returns (out: seq<string>, failure: Option<Error>)
    ensures Run(Enumeration(names, None), CandidatesOf(root, ligatures), rev, accept) == Enumeration(out, failure)
  {
    out, failure := names, None;
    var j := 0;
    while j < |ligatures|
      invariant j <= |ligatures|
      invariant Run(Enumeration(names, None), CandidatesOf(root, ligatures[..j]), rev, accept) == Enumeration(out, None)
    {
      var name := LookupAll(rev, GlyphsOf(Candidate(root, ligatures[j])));
      RunRootSnoc(Enumeration(names, None), root, ligatures, j, rev, accept);
      if name.Err? {
        failure := Some(name.error);
        RunRootFailed(Enumeration(names, None), root, ligatures, j + 1, rev, accept);
        return;
      }
      if accept(name.value) {
        out := out + [name.value];
      }
      j := j + 1;
    }
    assert ligatures[..j] == ligatures;
  }

  /** One more root continues the enumeration over that root's ligatures, when it has any. */
  lemma EnumerateKeysSnoc(keys: seq<GlyphName>, entries: map<GlyphName, seq<Ligature>>, i: nat,
                          rev: map<GlyphName, char>, accept: string -> bool)
    requires i < |keys|
    ensures Enumerate(Candidates(keys[..i + 1], entries), rev, accept) ==
      if keys[i] in entries
      then Run(Enumerate(Candidates(keys[..i], entries), rev, accept), CandidatesOf(keys[i], entries[keys[i]]), rev, accept)
      else Enumerate(Candidates(keys[..i], entries), rev, accept)
  {
    CandidatesSnoc(keys, entries, i);
    if keys[i] in entries {
      EnumerateIsRun(Candidates(keys[..i], entries), CandidatesOf(keys[i], entries[keys[i]]), rev, accept);
    } else {
      assert Candidates(keys[..i + 1], entries) == Candidates(keys[..i], entries);
    }
  }

  /** A failure among the first i roots ends the enumeration there. */
  lemma EnumerateKeysFailed(keys: seq<GlyphName>, entries: map<GlyphName, seq<Ligature>>, i: nat,
                            rev: map<GlyphName, char>, accept: string -> bool)
    requires i <= |keys|
    requires Enumerate(Candidates(keys[..i], entries), rev, accept).failure.Some?
    ensures Enumerate(Candidates(keys, entries), rev, accept) == Enumerate(Candidates(keys[..i], entries), rev, accept)
  {
    CandidatesConcat(keys[..i], keys[i..], entries);
    assert keys[..i] + keys[i..] == keys;
    EnumerateFailed(Candidates(keys[..i], entries), Candidates(keys[i..], entries), rev, accept);
  }

  /**
   * The generator `extract_icon_names` run to its end: the loop over the
   * roots, each running the loop over its ligatures, stopping at the first
   * exception.
   */
  method ExtractIconNames(font: Font, accept: string -> bool) returns (names: seq<string>, failure: Option<Error>)
    ensures Enumeration(names, failure) == IconNames(font, accept)
  {
    var cmap := MergeCmaps(font.cmapTables);
    var rev := Invert(cmap);
    var found := LigatureRoots(font);
    if found.Err? {
      return [], Some(found.error);
    }
    var keys := found.value.keys;
    var entries := found.value.entries;
    names, failure := [], None;
    assert keys[..0] == [];
    var i := 0;
    while i < |keys|
      invariant i <= |keys|
      invariant Enumerate(Candidates(keys[..i], entries), rev, accept) == Enumeration(names, None)
      invariant failure.None?
    {
      EnumerateKeysSnoc(keys, entries, i, rev, accept);
      var root := keys[i];
      if root in entries {
        names, failure := EnumerateRoot(names, root, entries[root], rev, accept);
        if failure.Some? {
          EnumerateKeysFailed(keys, entries, i + 1, rev, accept);
          return;
        }
      }
      i := i + 1;
    }
    assert keys[..i] == keys;
  }
}
