/**
 * The parsed symbol template as a mutable document, with the three lxml
 * edits the tool makes: create a child, set an attribute, remove the empty
 * groups.
 */
module SvgDocument {
  import opened Results
  import opened Affine
  import opened Tree
  import opened TreePrune

  /**
   * What loading one SVG gives: the root svg's `width` and `height`
   * attributes (None when absent) and its outline as points.
   */
  datatype SvgSource = SvgSource(width: Option<string>, height: Option<string>, outline: seq<Point>)

  /** Reading and normalising an SVG file, which may fail. */
  type Loader = string -> Result<SvgSource>

  /** picosvg's SVG: one lxml tree, edited in place. */
  class Svg {
    var root: Element

    /** The root is the `svg` element and every node has its own identity. */
    ghost predicate Valid()
      reads this
    {
      root.tag == "svg" && Distinct(root)
    }

    /** The document `SVG.parse` returns for a template; reading and parsing the file is not modelled. */
    constructor Parse(template: Element)
      requires template.tag == "svg" && Distinct(template)
      ensures Valid() && root == template
    {
      root := template;
    }

    /** `etree.SubElement(parent, tag)`: a new, attribute-less element becomes the parent's last child. */
    method SubElement(parent: Path, tag: string) returns (child: Path)
      requires Valid() && ValidPath(root, parent)
      modifies this
      ensures Valid()
      ensures root == AppendAt(old(root), parent, Element(FreshKey(old(root)), tag, map[], []))
      ensures child == parent + [|At(old(root), parent).children|]
      ensures ValidPath(root, child) && At(root, child) == Element(FreshKey(old(root)), tag, map[], [])
    {
      var c := Element(FreshKey(root), tag, map[], []);
      assert Keys(c) == {c.key} && Distinct(c) by {
        assert KeysOf(c.children) == {};
      }
      DistinctAppendAt(root, parent, c);
      KeysAppendAt(root, parent, c);
      AppendedAt(root, parent, c);
      child := parent + [|At(root, parent).children|];
      root := AppendAt(root, parent, c);
    }

    /** `el.attrib[name] = value` on the element at a path. */
    method SetAttribute(at: Path, name: string, value: AttrValue)
      requires Valid() && ValidPath(root, at)
      modifies this
      ensures Valid() && root == SetAttrAt(old(root), at, name, value)
    {
      SetAttrAtKeys(root, at, name, value);
      root := SetAttrAt(root, at, name, value);
    }

    /**
     * `_write_icon` of the font tool: find the one group with the given id
     * (ValueError unless there is exactly one), create a `path` child there
     * and set its `d` to the drawn outline; the result is Place.
     */
    method AppendPath(id: string, outline: seq<Point>) returns (r: Result<()>)
      requires Valid()
      modifies this
      ensures Valid()
      ensures r.Ok? <==> FindGroup(old(root), id).Some?
      ensures r.Err? ==> r.error == ValueError && root == old(root)
      ensures r.Ok? ==> Place(old(root), id, outline) == Ok(root)
    {
      var found := FindGroup(root, id);
      if found.None? {
        return Err(ValueError);
      }
      ghost var before := root;
      var path := SubElement(found.value, "path");
      var d := PathData(outline);
      SetAttrAfterAppend(before, found.value, Element(FreshKey(before), "path", map[], []), "d", d);
      SetAttribute(path, "d", d);
      r := Ok(());
    }

    /**
     * `for el in xpath("//svg:g[not(*)]"): el.getparent().remove(el)`: the
     * query is evaluated once, then its nodes are removed one by one, which
     * is the single pass Prune.
     */
    method DropEmptyGroups()
      requires Valid()
      modifies this
      ensures Valid() && root == Prune(old(root))
    {
      var empties := EmptyGroups(root);
      ghost var original := root;
      EmptyGroupsBelow(root);
      DetachNothing(root);
      assert Elements(empties[..0]) == {};
      var i := 0;
      while i < |empties|
        invariant 0 <= i <= |empties|
        invariant root == Detach(original, Elements(empties[..i]))
      {
        DetachTwice(original, Elements(empties[..i]), {empties[i]});
        assert Elements(empties[..i + 1]) == Elements(empties[..i]) + {empties[i]} by {
          assert empties[..i + 1] == empties[..i] + [empties[i]];
        }
        root := Detach(root, {empties[i]});
        i := i + 1;
      }
      assert empties[..i] == empties;
      DetachIsPrune(original, Elements(empties));
      PruneDistinct(original);
    }
  }
}
