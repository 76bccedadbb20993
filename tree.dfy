/**
 * The symbol template as a tree of elements, the two XPath queries the tool
 * runs on it, and the edit that appends a `path` child to a group.
 *
 * An element's `key` stands for its identity as an lxml node: the tool finds
 * nodes with a query and then edits those very nodes, so the model needs to
 * tell two equal-looking elements apart.
 */
module Tree {
  import opened Results
  import opened Affine

  datatype AttrValue = Text(text: string) | PathData(points: seq<Point>)

  datatype Element = Element(key: nat, tag: string, attrs: map<string, AttrValue>, children: seq<Element>)

  /** Child indices from the root down to an element. */
  type Path = seq<nat>

  /** Selected by `//svg:g[@id="id"]`. */
  predicate IsGroupWithId(e: Element, id: string) {
    e.tag == "g" && "id" in e.attrs && e.attrs["id"] == Text(id)
  }

  /** Selected by `//svg:g[not(*)]`: a group without element children. */
  predicate IsEmptyGroup(e: Element) {
    e.tag == "g" && e.children == []
  }

  /** The element `etree.SubElement(parent, "path")` creates, once its `d` attribute is set. */
  function NewPath(key: nat, points: seq<Point>): Element {
    Element(key, "path", map["d" := PathData(points)], [])
  }

  /** What an element is apart from its identity and its children. */
  function Payload(e: Element): (string, map<string, AttrValue>) {
    (e.tag, e.attrs)
  }

  function Payloads(cs: seq<Element>): (r: seq<(string, map<string, AttrValue>)>)
    ensures |r| == |cs| && forall i :: 0 <= i < |cs| ==> r[i] == Payload(cs[i])
  {
    seq(|cs|, i requires 0 <= i < |cs| => Payload(cs[i]))
  }

  // ---------------------------------------------------------------------------
  // Identity

  function Keys(e: Element): set<nat>
    decreases e
  {
    {e.key} + KeysOf(e.children)
  }

  function KeysOf(cs: seq<Element>): set<nat>
    decreases cs
  {
    if cs == [] then {} else Keys(cs[0]) + KeysOf(cs[1..])
  }

  /** No two nodes of the tree share a key. */
  predicate Distinct(e: Element)
    decreases e
  {
    e.key !in KeysOf(e.children) && DistinctAll(e.children)
  }

  predicate DistinctAll(cs: seq<Element>)
    decreases cs
  {
    cs == [] || (Distinct(cs[0]) && Keys(cs[0]) !! KeysOf(cs[1..]) && DistinctAll(cs[1..]))
  }

  function MaxKey(e: Element): (m: nat)
    ensures forall k :: k in Keys(e) ==> k <= m
    decreases e
  {
    var below := MaxKeyOf(e.children);
    if e.key < below then below else e.key
  }

  function MaxKeyOf(cs: seq<Element>): (m: nat)
    ensures forall k :: k in KeysOf(cs) ==> k <= m
    decreases cs
  {
    if cs == [] then 0
    else
      var first := MaxKey(cs[0]);
      var rest := MaxKeyOf(cs[1..]);
      if first < rest then rest else first
  }

  /** A key no node of the tree has: the identity of a newly created node. */
  function FreshKey(e: Element): (k: nat)
    ensures k !in Keys(e)
  {
    MaxKey(e) + 1
  }

  lemma {:induction false} KeysOfSnoc(cs: seq<Element>, c: Element)
    ensures KeysOf(cs + [c]) == KeysOf(cs) + Keys(c)
    decreases cs
  {
    if cs == [] {
      assert KeysOf([c]) == Keys(c) + KeysOf([]);
    } else {
      assert (cs + [c])[1..] == cs[1..] + [c];
      KeysOfSnoc(cs[1..], c);
    }
  }

  lemma {:induction false} KeysOfUpdate(cs: seq<Element>, i: nat, x: Element, extra: set<nat>)
    requires i < |cs| && Keys(x) == Keys(cs[i]) + extra
    ensures KeysOf(cs[i := x]) == KeysOf(cs) + extra
    decreases cs
  {
    if i > 0 {
      assert cs[i := x][1..] == cs[1..][i - 1 := x];
      KeysOfUpdate(cs[1..], i - 1, x, extra);
    }
  }

  lemma {:induction false} KeysOfMember(cs: seq<Element>, i: nat)
    requires i < |cs|
    ensures Keys(cs[i]) <= KeysOf(cs)
    decreases cs
  {
    if i > 0 {
      KeysOfMember(cs[1..], i - 1);
    }
  }

  lemma {:induction false} DistinctAllSnoc(cs: seq<Element>, c: Element)
    requires DistinctAll(cs) && Distinct(c) && Keys(c) !! KeysOf(cs)
    ensures DistinctAll(cs + [c])
    decreases cs
  {
    if cs == [] {
      assert DistinctAll([c][1..]);
    } else {
      assert (cs + [c])[1..] == cs[1..] + [c];
      DistinctAllSnoc(cs[1..], c);
      KeysOfSnoc(cs[1..], c);
    }
  }

  lemma {:induction false} DistinctAllUpdate(cs: seq<Element>, i: nat, x: Element, extra: set<nat>)
    requires i < |cs| && DistinctAll(cs) && Distinct(x)
    requires Keys(x) == Keys(cs[i]) + extra && extra !! KeysOf(cs)
    ensures DistinctAll(cs[i := x])
    decreases cs
  {
    if i == 0 {
      assert cs[i := x][1..] == cs[1..];
    } else {
      assert cs[i := x][1..] == cs[1..][i - 1 := x];
      DistinctAllUpdate(cs[1..], i - 1, x, extra);
      KeysOfUpdate(cs[1..], i - 1, x, extra);
    }
  }

  /** Each child's subtree has its own keys, apart from those of its siblings. */
  lemma {:induction false} DistinctAllApart(cs: seq<Element>, i: nat, j: nat)
    requires DistinctAll(cs) && i < |cs| && j < |cs| && i != j
    ensures Keys(cs[i]) !! Keys(cs[j]) && Distinct(cs[i])
    decreases cs
  {
    if i == 0 {
      assert cs[j] == cs[1..][j - 1];
      KeysOfMember(cs[1..], j - 1);
    } else if j == 0 {
      assert cs[i] == cs[1..][i - 1];
      KeysOfMember(cs[1..], i - 1);
      DistinctAllMember(cs, i);
    } else {
      DistinctAllApart(cs[1..], i - 1, j - 1);
    }
  }

  lemma {:induction false} DistinctAllMember(cs: seq<Element>, i: nat)
    requires DistinctAll(cs) && i < |cs|
    ensures Distinct(cs[i])
    decreases cs
  {
    if i > 0 {
      DistinctAllMember(cs[1..], i - 1);
    }
  }

  // ---------------------------------------------------------------------------
  // Paths

  predicate ValidPath(e: Element, p: Path)
    decreases p
  {
    p == [] || (p[0] < |e.children| && ValidPath(e.children[p[0]], p[1..]))
  }

  function At(e: Element, p: Path): Element
    requires ValidPath(e, p)
    decreases p
  {
    if p == [] then e else At(e.children[p[0]], p[1..])
  }

  predicate IsPrefix(p: Path, q: Path) {
    |p| <= |q| && q[..|p|] == p
  }

  lemma PrefixCons(q: Path, p: Path)
    requires |q| > 0 && |p| > 0 && q[0] == p[0]
    ensures IsPrefix(q, p) <==> IsPrefix(q[1..], p[1..])
  {
    if |q| <= |p| {
      assert p[..|q|] == [p[0]] + p[1..][..|q| - 1];
      assert q == [q[0]] + q[1..];
    }
  }

  /** The node at a path is one of the tree's nodes, and a node strictly below the root is not the root. */
  lemma {:induction false} AtKey(e: Element, p: Path)
    requires ValidPath(e, p)
    ensures At(e, p).key in Keys(e)
    ensures p != [] ==> At(e, p).key in KeysOf(e.children)
    decreases p
  {
    if p != [] {
      AtKey(e.children[p[0]], p[1..]);
      KeysOfMember(e.children, p[0]);
    }
  }

  // ---------------------------------------------------------------------------
  // The query `//svg:g[@id="id"]`

  /** The paths of the groups with this id, in document order. */
  function Matches(e: Element, id: string): seq<Path>
    decreases e
  {
    (if IsGroupWithId(e, id) then [[]] else []) + MatchesIn(e.children, id, 0)
  }

  /** Matches below a run of siblings, the first of which is child number `offset`. */
  function MatchesIn(cs: seq<Element>, id: string, offset: nat): seq<Path>
    decreases cs
  {
    if cs == [] then [] else Under(offset, Matches(cs[0], id)) + MatchesIn(cs[1..], id, offset + 1)
  }

  function Under(i: nat, ps: seq<Path>): (r: seq<Path>)
    ensures |r| == |ps| && forall j :: 0 <= j < |ps| ==> r[j] == [i] + ps[j]
  {
    seq(|ps|, j requires 0 <= j < |ps| => [i] + ps[j])
  }

  lemma {:induction false} MatchesSound(e: Element, id: string)
    ensures forall p :: p in Matches(e, id) ==> ValidPath(e, p) && IsGroupWithId(At(e, p), id)
    decreases e
  {
    MatchesInSound(e.children, id, 0);
    forall p | p in Matches(e, id)
      ensures ValidPath(e, p) && IsGroupWithId(At(e, p), id)
    {
      if p == [] {
        assert !MatchBelow(e.children, id, 0, p);
        assert p !in MatchesIn(e.children, id, 0);
      } else {
        assert p in MatchesIn(e.children, id, 0);
        assert MatchBelow(e.children, id, 0, p);
      }
    }
  }

  /** p leads, from the run of siblings starting at child number `offset`, to a group with this id. */
  predicate MatchBelow(cs: seq<Element>, id: string, offset: nat, p: Path) {
    |p| > 0 && offset <= p[0] < offset + |cs| &&
    ValidPath(cs[p[0] - offset], p[1..]) && IsGroupWithId(At(cs[p[0] - offset], p[1..]), id)
  }

  lemma {:induction false} MatchesInSound(cs: seq<Element>, id: string, offset: nat)
    ensures forall p :: p in MatchesIn(cs, id, offset) ==> MatchBelow(cs, id, offset, p)
    decreases cs
  {
    if cs != [] {
      var head := Under(offset, Matches(cs[0], id));
      var tail := MatchesIn(cs[1..], id, offset + 1);
      assert MatchesIn(cs, id, offset) == head + tail;
      MatchesSound(cs[0], id);
      MatchesInSound(cs[1..], id, offset + 1);
      forall p | p in head
        ensures MatchBelow(cs, id, offset, p)
      {
        var j :| 0 <= j < |head| && head[j] == p;
        assert p[1..] == Matches(cs[0], id)[j];
      }
      forall p | p in tail
        ensures MatchBelow(cs, id, offset, p)
      {
        assert MatchBelow(cs[1..], id, offset + 1, p);
        assert cs[p[0] - offset] == cs[1..][p[0] - (offset + 1)];
      }
    }
  }

  lemma {:induction false} MatchesComplete(e: Element, id: string, p: Path)
    requires ValidPath(e, p) && IsGroupWithId(At(e, p), id)
    ensures p in Matches(e, id)
    decreases e
  {
    if p != [] {
      MatchesInComplete(e.children, id, 0, p[0], p[1..]);
      assert [p[0]] + p[1..] == p;
    }
  }

  lemma {:induction false} MatchesInComplete(cs: seq<Element>, id: string, offset: nat, i: nat, q: Path)
    requires i < |cs| && ValidPath(cs[i], q) && IsGroupWithId(At(cs[i], q), id)
    ensures [offset + i] + q in MatchesIn(cs, id, offset)
    decreases cs
  {
    if i == 0 {
      MatchesComplete(cs[0], id, q);
      var ms := Matches(cs[0], id);
      var j :| 0 <= j < |ms| && ms[j] == q;
      assert Under(offset, ms)[j] == [offset] + q;
    } else {
      MatchesInComplete(cs[1..], id, offset + 1, i - 1, q);
    }
  }

  lemma MatchesCompleteAll(e: Element, id: string)
    ensures forall p :: ValidPath(e, p) && IsGroupWithId(At(e, p), id) ==> p in Matches(e, id)
  {
    forall p | ValidPath(e, p) && IsGroupWithId(At(e, p), id)
      ensures p in Matches(e, id)
    {
      MatchesComplete(e, id, p);
    }
  }

  /**
   * picosvg's `xpath_one('//svg:g[@id="id"]')`: the path of the one group with
   * this id; None (a ValueError) when there is no such group or there are several.
   */
  function FindGroup(e: Element, id: string): (r: Option<Path>)
    ensures r.Some? ==> ValidPath(e, r.value) && IsGroupWithId(At(e, r.value), id)
    ensures r.Some? ==> forall p :: ValidPath(e, p) && IsGroupWithId(At(e, p), id) ==> p == r.value
    ensures r.None? <==> |Matches(e, id)| != 1
  {
    var ms := Matches(e, id);
    if |ms| == 1 then
      MatchesSound(e, id);
      MatchesCompleteAll(e, id);
      Some(ms[0])
    else None
  }

  // ---------------------------------------------------------------------------
  // Appending a child

  /** etree.SubElement(At(e, p), ...): c becomes the last child of the node at p. */
  function AppendAt(e: Element, p: Path, c: Element): (r: Element)
    requires ValidPath(e, p)
    ensures r.key == e.key && r.tag == e.tag && r.attrs == e.attrs
    ensures ValidPath(r, p) && At(r, p) == At(e, p).(children := At(e, p).children + [c])
    decreases p
  {
    if p == [] then e.(children := e.children + [c])
    else e.(children := e.children[p[0] := AppendAt(e.children[p[0]], p[1..], c)])
  }

  /** Every node that is not the parent or one of its ancestors is exactly as it was. */
  lemma {:induction false} AppendAtElsewhere(e: Element, p: Path, c: Element, q: Path)
    requires ValidPath(e, p) && ValidPath(e, q) && !IsPrefix(q, p)
    ensures ValidPath(AppendAt(e, p, c), q) && At(AppendAt(e, p, c), q) == At(e, q)
    decreases p
  {
    var r := AppendAt(e, p, c);
    if p == [] {
      assert r.children[q[0]] == e.children[q[0]];
    } else if q[0] != p[0] {
      assert r.children[q[0]] == e.children[q[0]];
    } else {
      PrefixCons(q, p);
      AppendAtElsewhere(e.children[p[0]], p[1..], c, q[1..]);
    }
  }

  /** A strict ancestor of the parent keeps its payload, its number of children and their payloads. */
  lemma {:induction false} AppendAtAbove(e: Element, p: Path, c: Element, q: Path)
    requires ValidPath(e, p) && IsPrefix(q, p) && q != p
    ensures ValidPath(e, q) && ValidPath(AppendAt(e, p, c), q)
    ensures Payload(At(AppendAt(e, p, c), q)) == Payload(At(e, q))
    ensures Payloads(At(AppendAt(e, p, c), q).children) == Payloads(At(e, q).children)
    decreases p
  {
    var r := AppendAt(e, p, c);
    if q == [] {
      assert Payload(r.children[p[0]]) == Payload(e.children[p[0]]);
      assert Payloads(r.children) == Payloads(e.children);
    } else {
      assert q[0] == p[0];
      PrefixCons(q, p);
      assert q[1..] != p[1..] by {
        assert q == [q[0]] + q[1..] && p == [p[0]] + p[1..];
      }
      AppendAtAbove(e.children[p[0]], p[1..], c, q[1..]);
    }
  }

  lemma {:induction false} KeysAppendAt(e: Element, p: Path, c: Element)
    requires ValidPath(e, p)
    ensures Keys(AppendAt(e, p, c)) == Keys(e) + Keys(c)
    decreases p
  {
    if p == [] {
      KeysOfSnoc(e.children, c);
    } else {
      KeysAppendAt(e.children[p[0]], p[1..], c);
      KeysOfUpdate(e.children, p[0], AppendAt(e.children[p[0]], p[1..], c), Keys(c));
    }
  }

  lemma {:induction false} DistinctAppendAt(e: Element, p: Path, c: Element)
    requires ValidPath(e, p) && Distinct(e) && Distinct(c) && Keys(c) !! Keys(e)
    ensures Distinct(AppendAt(e, p, c))
    decreases p
  {
    if p == [] {
      KeysOfSnoc(e.children, c);
      DistinctAllSnoc(e.children, c);
    } else {
      var child := e.children[p[0]];
      KeysOfMember(e.children, p[0]);
      DistinctAllMember(e.children, p[0]);
      DistinctAppendAt(child, p[1..], c);
      KeysAppendAt(child, p[1..], c);
      KeysOfUpdate(e.children, p[0], AppendAt(child, p[1..], c), Keys(c));
      DistinctAllUpdate(e.children, p[0], AppendAt(child, p[1..], c), Keys(c));
    }
  }

  lemma ConcatAssociative<T>(a: seq<T>, b: seq<T>, c: seq<T>)
    ensures a + (b + c) == (a + b) + c
  {
  }

  lemma {:induction false} MatchesInSnoc(cs: seq<Element>, c: Element, id: string, offset: nat)
    ensures MatchesIn(cs + [c], id, offset) == MatchesIn(cs, id, offset) + Under(offset + |cs|, Matches(c, id))
    decreases cs
  {
    if cs == [] {
      assert MatchesIn([c], id, offset) == Under(offset, Matches(c, id)) + MatchesIn([], id, offset + 1);
    } else {
      var rest, first := cs[1..], Under(offset, Matches(cs[0], id));
      assert MatchesIn(cs + [c], id, offset) == first + MatchesIn(rest + [c], id, offset + 1) by {
        assert (cs + [c])[0] == cs[0];
        assert (cs + [c])[1..] == rest + [c];
      }
      MatchesInSnoc(rest, c, id, offset + 1);
      ConcatAssociative(first, MatchesIn(rest, id, offset + 1), Under(offset + |cs|, Matches(c, id)));
    }
  }

  lemma {:induction false} MatchesInUpdate(cs: seq<Element>, i: nat, x: Element, id: string, offset: nat)
    requires i < |cs| && Matches(x, id) == Matches(cs[i], id)
    ensures MatchesIn(cs[i := x], id, offset) == MatchesIn(cs, id, offset)
    decreases cs
  {
    if i > 0 {
      assert cs[i := x][1..] == cs[1..][i - 1 := x];
      MatchesInUpdate(cs[1..], i - 1, x, id, offset + 1);
    }
  }

  /** Appending an element that no query for id selects leaves that query's answer unchanged. */
  lemma {:induction false} MatchesAppendAt(e: Element, p: Path, c: Element, id: string)
    requires ValidPath(e, p) && Matches(c, id) == []
    ensures Matches(AppendAt(e, p, c), id) == Matches(e, id)
    decreases p
  {
    if p == [] {
      MatchesInSnoc(e.children, c, id, 0);
    } else {
      MatchesAppendAt(e.children[p[0]], p[1..], c, id);
      MatchesInUpdate(e.children, p[0], AppendAt(e.children[p[0]], p[1..], c), id, 0);
    }
  }

  /** The appended child is reached by the parent's path and its old number of children. */
  lemma {:induction false} AppendedAt(e: Element, p: Path, c: Element)
    requires ValidPath(e, p)
    ensures ValidPath(AppendAt(e, p, c), p + [|At(e, p).children|])
    ensures At(AppendAt(e, p, c), p + [|At(e, p).children|]) == c
    decreases p
  {
    var q := p + [|At(e, p).children|];
    if p == [] {
      assert q[1..] == [];
    } else {
      assert q[0] == p[0] && q[1..] == p[1..] + [|At(e, p).children|];
      AppendedAt(e.children[p[0]], p[1..], c);
    }
  }

  /** `el.attrib[name] = value` on the node at q. */
  function SetAttrAt(e: Element, q: Path, name: string, value: AttrValue): (r: Element)
    requires ValidPath(e, q)
    ensures r.key == e.key && r.tag == e.tag && |r.children| == |e.children|
    ensures ValidPath(r, q) && At(r, q) == At(e, q).(attrs := At(e, q).attrs[name := value])
    decreases q
  {
    if q == [] then e.(attrs := e.attrs[name := value])
    else e.(children := e.children[q[0] := SetAttrAt(e.children[q[0]], q[1..], name, value)])
  }

  /** Setting an attribute changes no node's identity. */
  lemma {:induction false} SetAttrAtKeys(e: Element, q: Path, name: string, value: AttrValue)
    requires ValidPath(e, q)
    ensures Keys(SetAttrAt(e, q, name, value)) == Keys(e)
    ensures Distinct(e) ==> Distinct(SetAttrAt(e, q, name, value))
    decreases q
  {
    if q != [] {
      var child := e.children[q[0]];
      var updated := SetAttrAt(child, q[1..], name, value);
      SetAttrAtKeys(child, q[1..], name, value);
      KeysOfUpdate(e.children, q[0], updated, {});
      if Distinct(e) {
        DistinctAllMember(e.children, q[0]);
        DistinctAllUpdate(e.children, q[0], updated, {});
      }
    }
  }

  /** Creating a child and then setting its attribute is appending the finished child. */
  lemma {:induction false} SetAttrAfterAppend(e: Element, p: Path, c: Element, name: string, value: AttrValue)
    requires ValidPath(e, p)
    ensures ValidPath(AppendAt(e, p, c), p + [|At(e, p).children|])
    ensures SetAttrAt(AppendAt(e, p, c), p + [|At(e, p).children|], name, value)
      == AppendAt(e, p, c.(attrs := c.attrs[name := value]))
    decreases p
  {
    AppendedAt(e, p, c);
    var q := p + [|At(e, p).children|];
    if p == [] {
      assert q[1..] == [];
    } else {
      assert q[0] == p[0] && q[1..] == p[1..] + [|At(e, p).children|];
      SetAttrAfterAppend(e.children[p[0]], p[1..], c, name, value);
    }
  }

  // ---------------------------------------------------------------------------
  // write_icon's edit: find the group, append a path to it

  /**
   * `parent = xpath_one('//svg:g[@id="id"]')`, then a new `path` child of
   * parent whose `d` holds the drawn points.
   */
  function Place(e: Element, id: string, points: seq<Point>): Result<Element> {
    match FindGroup(e, id)
    case None => Err(ValueError)
    case Some(p) => Ok(AppendAt(e, p, NewPath(FreshKey(e), points)))
  }

  /**
   * Place fails exactly when the id does not name exactly one group; otherwise
   * that group gains the new path as its last child, its earlier children and
   * its attributes are kept, and every node outside the group's ancestor chain
   * is unchanged.
   */
  lemma PlaceAppends(e: Element, id: string, points: seq<Point>)
    ensures Place(e, id, points).Err? <==> FindGroup(e, id).None?
    ensures Place(e, id, points).Err? ==> Place(e, id, points).error == ValueError
    ensures Place(e, id, points).Ok? ==>
      var p := FindGroup(e, id).value;
      var r := Place(e, id, points).value;
      && ValidPath(r, p)
      && At(r, p) == At(e, p).(children := At(e, p).children + [NewPath(FreshKey(e), points)])
      && (forall q :: ValidPath(e, q) && !IsPrefix(q, p) ==> ValidPath(r, q) && At(r, q) == At(e, q))
  {
    if FindGroup(e, id).Some? {
      var p := FindGroup(e, id).value;
      forall q | ValidPath(e, q) && !IsPrefix(q, p)
        ensures ValidPath(Place(e, id, points).value, q) && At(Place(e, id, points).value, q) == At(e, q)
      {
        AppendAtElsewhere(e, p, NewPath(FreshKey(e), points), q);
      }
    }
  }

  /**
   * Place keeps the root, keeps keys distinct, adds exactly one key, and leaves
   * the answer of every group-by-id query unchanged.
   */
  lemma {:induction false} PlaceKeeps(e: Element, id: string, points: seq<Point>, other: string)
    requires Distinct(e) && Place(e, id, points).Ok?
    ensures var r := Place(e, id, points).value;
      && r.key == e.key && r.tag == e.tag && r.attrs == e.attrs
      && Distinct(r)
      && Keys(r) == Keys(e) + {FreshKey(e)}
      && FindGroup(r, other) == FindGroup(e, other)
  {
    var p := FindGroup(e, id).value;
    var c := NewPath(FreshKey(e), points);
    assert Keys(c) == {FreshKey(e)} by {
      assert KeysOf(c.children) == {};
    }
    assert Distinct(c) by {
      assert KeysOf(c.children) == {};
    }
    assert Matches(c, other) == [];
    DistinctAppendAt(e, p, c);
    KeysAppendAt(e, p, c);
    MatchesAppendAt(e, p, c, other);
  }

  /** Two placements into the same group leave two sibling paths, in call order: appends never overwrite. */
  lemma {:induction false} PlaceTwice(e: Element, id: string, first: seq<Point>, second: seq<Point>)
    requires Distinct(e) && Place(e, id, first).Ok?
    ensures var mid := Place(e, id, first).value;
      Place(mid, id, second).Ok? &&
      var p := FindGroup(e, id).value;
      var r := Place(mid, id, second).value;
      ValidPath(r, p) &&
      At(r, p).children == At(e, p).children + [NewPath(FreshKey(e), first), NewPath(FreshKey(mid), second)]
  {
    var mid := Place(e, id, first).value;
    PlaceKeeps(e, id, first, id);
    PlaceAppends(e, id, first);
    PlaceAppends(mid, id, second);
  }

  // ---------------------------------------------------------------------------
  // A run of placements, in order

  /** One drawing destined for one variant group. */
  datatype Placement = Placement(variant: string, points: seq<Point>)

  /** Places each drawing in turn, stopping at the first failure. */
  function PlaceAll(e: Element, ps: seq<Placement>): Result<Element>
    decreases |ps|
  {
    if ps == [] then Ok(e)
    else
      var before :- PlaceAll(e, ps[..|ps| - 1]);
      Place(before, ps[|ps| - 1].variant, ps[|ps| - 1].points)
  }

  /** The drawings destined for variant v, in order. */
  function PointsFor(ps: seq<Placement>, v: string): seq<seq<Point>>
    decreases |ps|
  {
    if ps == [] then []
    else PointsFor(ps[..|ps| - 1], v) + (if ps[|ps| - 1].variant == v then [ps[|ps| - 1].points] else [])
  }

  function PathPayloads(drawings: seq<seq<Point>>): seq<(string, map<string, AttrValue>)> {
    seq(|drawings|, i requires 0 <= i < |drawings| => Payload(NewPath(0, drawings[i])))
  }

  /**
   * After a run of placements, the group of every variant that was present
   * still stands at the same place, and its children are its old children
   * followed by one path per drawing destined for it, in the order given.
   */
  lemma {:induction false} PlaceAllInOrder(e: Element, ps: seq<Placement>, v: string)
    requires Distinct(e) && PlaceAll(e, ps).Ok? && FindGroup(e, v).Some?
    ensures var r := PlaceAll(e, ps).value;
      var p := FindGroup(e, v).value;
      && Distinct(r)
      && FindGroup(r, v) == Some(p)
      && Payloads(At(r, p).children) == Payloads(At(e, p).children) + PathPayloads(PointsFor(ps, v))
    decreases |ps|
  {
    var p := FindGroup(e, v).value;
    if ps != [] {
      var init := ps[..|ps| - 1];
      var w := ps[|ps| - 1];
      PlaceAllInOrder(e, init, v);
      var before := PlaceAll(e, init).value;
      var r := PlaceAll(e, ps).value;
      assert r == Place(before, w.variant, w.points).value;
      PlaceKeeps(before, w.variant, w.points, v);
      PlaceAppends(before, w.variant, w.points);
      var q := FindGroup(before, w.variant).value;
      var added := NewPath(FreshKey(before), w.points);
      if w.variant == v {
        assert q == p;
        assert Payloads(At(r, p).children) == Payloads(At(before, p).children) + [Payload(added)];
        assert PathPayloads(PointsFor(ps, v)) == PathPayloads(PointsFor(init, v)) + [Payload(added)];
      } else {
        assert q != p by {
          assert IsGroupWithId(At(before, p), v) && IsGroupWithId(At(before, q), w.variant);
        }
        assert PointsFor(ps, v) == PointsFor(init, v);
        if !IsPrefix(p, q) {
          AppendAtElsewhere(before, q, added, p);
        } else {
          AppendAtAbove(before, q, added, p);
        }
      }
    }
  }
}
