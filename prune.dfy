/**
 * Dropping empty groups: `//svg:g[not(*)]` evaluated once, then each selected
 * node removed from its parent.
 */
module TreePrune {
  import opened Tree

  function Elements(s: seq<nat>): set<nat> {
    set k | k in s
  }

  /** `parent.remove(el)` for every node whose key is in K, taking its subtree with it. */
  function Detach(e: Element, K: set<nat>): Element
    decreases e
  {
    e.(children := DetachAll(e.children, K))
  }

  function DetachAll(cs: seq<Element>, K: set<nat>): seq<Element>
    decreases cs
  {
    if cs == [] then []
    else (if cs[0].key in K then [] else [Detach(cs[0], K)]) + DetachAll(cs[1..], K)
  }

  /** Removing no node leaves the tree as it was. */
  lemma {:induction false} DetachNothing(e: Element)
    ensures Detach(e, {}) == e
    decreases e
  {
    DetachAllNothing(e.children);
  }

  lemma {:induction false} DetachAllNothing(cs: seq<Element>)
    ensures DetachAll(cs, {}) == cs
    decreases cs
  {
    if cs != [] {
      DetachNothing(cs[0]);
      DetachAllNothing(cs[1..]);
      assert cs == [cs[0]] + cs[1..];
    }
  }

  /** Removing one set of nodes and then another is removing both at once. */
  lemma {:induction false} DetachTwice(e: Element, A: set<nat>, B: set<nat>)
    ensures Detach(Detach(e, A), B) == Detach(e, A + B)
    decreases e
  {
    DetachAllTwice(e.children, A, B);
  }

  lemma {:induction false} DetachAllTwice(cs: seq<Element>, A: set<nat>, B: set<nat>)
    ensures DetachAll(DetachAll(cs, A), B) == DetachAll(cs, A + B)
    decreases cs
  {
    if cs != [] {
      DetachAllTwice(cs[1..], A, B);
      var rest := DetachAll(cs[1..], A);
      if cs[0].key in A {
        assert DetachAll(cs, A) == rest;
      } else {
        DetachTwice(cs[0], A, B);
        assert DetachAll(cs, A) == [Detach(cs[0], A)] + rest;
        assert ([Detach(cs[0], A)] + rest)[1..] == rest;
      }
    }
  }

  /**
   * The keys `//svg:g[not(*)]` selects, in document order. The root is never
   * among them: it has no parent to be removed from, and in a symbol template
   * it is the `svg` element.
   */
  function EmptyGroups(e: Element): seq<nat>
    decreases e
  {
    EmptyGroupsIn(e.children)
  }

  function EmptyGroupsIn(cs: seq<Element>): seq<nat>
    decreases cs
  {
    if cs == [] then []
    else Self(cs[0]) + EmptyGroups(cs[0]) + EmptyGroupsIn(cs[1..])
  }

  function Self(c: Element): seq<nat> {
    if IsEmptyGroup(c) then [c.key] else []
  }

  /** One pass: every child that is an empty group of the original tree is removed, the others are pruned in turn. */
  function Prune(e: Element): Element
    decreases e
  {
    e.(children := PruneAll(e.children))
  }

  function PruneAll(cs: seq<Element>): seq<Element>
    decreases cs
  {
    if cs == [] then []
    else (if IsEmptyGroup(cs[0]) then [] else [Prune(cs[0])]) + PruneAll(cs[1..])
  }

  lemma {:induction false} EmptyGroupsBelow(e: Element)
    ensures Elements(EmptyGroups(e)) <= KeysOf(e.children)
    decreases e
  {
    EmptyGroupsInBelow(e.children);
  }

  lemma {:induction false} EmptyGroupsInBelow(cs: seq<Element>)
    ensures Elements(EmptyGroupsIn(cs)) <= KeysOf(cs)
    decreases cs
  {
    if cs != [] {
      EmptyGroupsBelow(cs[0]);
      EmptyGroupsInBelow(cs[1..]);
      var s := EmptyGroupsIn(cs);
      assert s == Self(cs[0]) + EmptyGroups(cs[0]) + EmptyGroupsIn(cs[1..]);
      forall k | k in Elements(s) ensures k in KeysOf(cs) {
        assert k in Self(cs[0]) || k in EmptyGroups(cs[0]) || k in EmptyGroupsIn(cs[1..]);
      }
    }
  }

  /**
   * Under distinct keys, removing the selected nodes one after another is the
   * single pass Prune: it is the keys of the original tree's empty groups that
   * are removed, so a group emptied by the removals stays.
   */
  lemma {:induction false} DetachIsPrune(e: Element, K: set<nat>)
    requires Distinct(e) && K * KeysOf(e.children) == Elements(EmptyGroups(e))
    ensures Detach(e, K) == Prune(e)
    decreases e
  {
    DetachAllIsPruneAll(e.children, K);
  }

  lemma {:induction false} DetachAllIsPruneAll(cs: seq<Element>, K: set<nat>)
    requires DistinctAll(cs) && K * KeysOf(cs) == Elements(EmptyGroupsIn(cs))
    ensures DetachAll(cs, K) == PruneAll(cs)
    decreases cs
  {
    if cs != [] {
      var c := cs[0];
      var rest := cs[1..];
      EmptyGroupsBelow(c);
      EmptyGroupsInBelow(rest);
      EmptyGroupsInSplit(cs);
      assert KeysOf(cs) == {c.key} + KeysOf(c.children) + KeysOf(rest);
      assert c.key in K <==> IsEmptyGroup(c) by {
        assert c.key in KeysOf(cs);
        assert c.key !in KeysOf(c.children) && c.key !in KeysOf(rest);
      }
      assert K * KeysOf(rest) == Elements(EmptyGroupsIn(rest));
      DetachAllIsPruneAll(rest, K);
      if !IsEmptyGroup(c) {
        assert K * KeysOf(c.children) == Elements(EmptyGroups(c));
        DetachIsPrune(c, K);
      }
    }
  }

  lemma {:induction false} PruneKeysBelow(e: Element)
    ensures Keys(Prune(e)) <= Keys(e)
    decreases e
  {
    PruneAllKeysBelow(e.children);
  }

  lemma {:induction false} PruneAllKeysBelow(cs: seq<Element>)
    ensures KeysOf(PruneAll(cs)) <= KeysOf(cs)
    decreases cs
  {
    if cs != [] {
      PruneAllKeysBelow(cs[1..]);
      if IsEmptyGroup(cs[0]) {
        assert PruneAll(cs) == PruneAll(cs[1..]);
      } else {
        PruneKeysBelow(cs[0]);
        assert PruneAll(cs) == [Prune(cs[0])] + PruneAll(cs[1..]);
        assert PruneAll(cs)[1..] == PruneAll(cs[1..]);
      }
    }
  }

  /** Pruning keeps keys distinct. */
  lemma {:induction false} PruneDistinct(e: Element)
    requires Distinct(e)
    ensures Distinct(Prune(e))
    decreases e
  {
    PruneAllDistinct(e.children);
    PruneAllKeysBelow(e.children);
  }

  lemma {:induction false} PruneAllDistinct(cs: seq<Element>)
    requires DistinctAll(cs)
    ensures DistinctAll(PruneAll(cs))
    decreases cs
  {
    if cs != [] {
      PruneAllDistinct(cs[1..]);
      PruneAllKeysBelow(cs[1..]);
      if IsEmptyGroup(cs[0]) {
        assert PruneAll(cs) == PruneAll(cs[1..]);
      } else {
        PruneDistinct(cs[0]);
        PruneKeysBelow(cs[0]);
        assert PruneAll(cs) == [Prune(cs[0])] + PruneAll(cs[1..]);
        assert PruneAll(cs)[1..] == PruneAll(cs[1..]);
      }
    }
  }

  /** Pruning removes exactly the keys of the selected empty groups. */
  lemma {:induction false} PruneKeys(e: Element)
    requires Distinct(e)
    ensures Keys(Prune(e)) == Keys(e) - Elements(EmptyGroups(e))
    decreases e
  {
    PruneAllKeys(e.children);
    EmptyGroupsBelow(e);
  }

  lemma {:induction false} PruneAllKeys(cs: seq<Element>)
    requires DistinctAll(cs)
    ensures KeysOf(PruneAll(cs)) == KeysOf(cs) - Elements(EmptyGroupsIn(cs))
    decreases cs
  {
    if cs != [] {
      var c := cs[0];
      var rest := cs[1..];
      PruneAllKeys(rest);
      EmptyGroupsBelow(c);
      EmptyGroupsInBelow(rest);
      EmptyGroupsInSplit(cs);
      DistinctAllMember(cs, 0);
      var sc := Elements(Self(c)) + Elements(EmptyGroups(c));
      if IsEmptyGroup(c) {
        assert PruneAll(cs) == PruneAll(rest);
        assert Keys(c) == {c.key} by {
          assert KeysOf(c.children) == {};
        }
        assert sc == {c.key} by {
          assert EmptyGroups(c) == [];
        }
      } else {
        PruneKeys(c);
        assert sc == Elements(EmptyGroups(c));
        assert PruneAll(cs) == [Prune(c)] + PruneAll(rest);
        assert PruneAll(cs)[1..] == PruneAll(rest);
      }
      SetAlgebra(Keys(c), KeysOf(rest), sc, Elements(EmptyGroupsIn(rest)));
    }
  }

  lemma EmptyGroupsInSplit(cs: seq<Element>)
    requires cs != []
    ensures Elements(EmptyGroupsIn(cs)) == Elements(Self(cs[0])) + Elements(EmptyGroups(cs[0])) + Elements(EmptyGroupsIn(cs[1..]))
  {
    var a, b, c := Self(cs[0]), EmptyGroups(cs[0]), EmptyGroupsIn(cs[1..]);
    assert EmptyGroupsIn(cs) == a + b + c;
    forall k ensures k in a + b + c <==> k in a || k in b || k in c {
    }
  }

  lemma SetAlgebra(a: set<nat>, b: set<nat>, sa: set<nat>, sb: set<nat>)
    requires a !! b && sa <= a && sb <= b
    ensures (a - sa) + (b - sb) == (a + b) - (sa + sb)
  {
  }

  /** Where an element strictly below the root sits in the selection of its siblings' run. */
  lemma {:induction false} EmptyGroupsInAt(cs: seq<Element>, i: nat, k: nat)
    requires DistinctAll(cs) && i < |cs| && k in Keys(cs[i])
    ensures k in EmptyGroupsIn(cs) <==> k in Self(cs[i]) + EmptyGroups(cs[i])
    decreases cs
  {
    EmptyGroupsInBelow(cs[1..]);
    EmptyGroupsBelow(cs[0]);
    assert EmptyGroupsIn(cs) == Self(cs[0]) + EmptyGroups(cs[0]) + EmptyGroupsIn(cs[1..]);
    if i == 0 {
      assert k !in KeysOf(cs[1..]);
    } else {
      assert cs[i] == cs[1..][i - 1];
      KeysOfMember(cs[1..], i - 1);
      assert k !in Keys(cs[0]);
      EmptyGroupsInAt(cs[1..], i - 1, k);
    }
  }

  /** The selection holds a node strictly below the root exactly when that node is an empty group. */
  lemma {:induction false} EmptyGroupsAt(e: Element, p: Path)
    requires Distinct(e) && ValidPath(e, p) && p != []
    ensures At(e, p).key in EmptyGroups(e) <==> IsEmptyGroup(At(e, p))
    decreases p
  {
    var c := e.children[p[0]];
    var rest := p[1..];
    var k := At(e, p).key;
    AtKey(c, rest);
    EmptyGroupsInAt(e.children, p[0], k);
    DistinctAllMember(e.children, p[0]);
    EmptyGroupsBelow(c);
    if rest == [] {
      assert k == c.key;
      assert k !in EmptyGroups(c);
    } else {
      assert k in KeysOf(c.children);
      assert k !in Self(c);
      EmptyGroupsAt(c, rest);
    }
  }

  /**
   * A node strictly below the root survives the pass exactly when it is not an
   * empty group of the original tree: no other node is lost.
   */
  lemma PruneRemovesExactlyEmptyGroups(e: Element, p: Path)
    requires Distinct(e) && ValidPath(e, p) && p != []
    ensures At(e, p).key in Keys(Prune(e)) <==> !IsEmptyGroup(At(e, p))
  {
    PruneKeys(e);
    AtKey(e, p);
    EmptyGroupsAt(e, p);
  }

  /**
   * One pass is not a fixed point: a group holding only an empty group is
   * itself empty afterwards, and stays.
   */
  lemma PruneIsOnePass()
    ensures var inner := Element(2, "g", map[], []);
      var outer := Element(1, "g", map[], [inner]);
      var e := Element(0, "svg", map[], [outer]);
      && Distinct(e)
      && EmptyGroups(e) == [2]
      && Prune(e) == Element(0, "svg", map[], [Element(1, "g", map[], [])])
      && EmptyGroups(Prune(e)) == [1]
  {
    var inner := Element(2, "g", map[], []);
    var outer := Element(1, "g", map[], [inner]);
    var e := Element(0, "svg", map[], [outer]);
    assert KeysOf([inner]) == {2} by {
      assert KeysOf([inner][1..]) == {};
    }
    assert KeysOf([outer]) == {1, 2} by {
      assert KeysOf([outer][1..]) == {};
    }
    assert DistinctAll([inner]) by {
      assert [inner][1..] == [];
      assert Distinct(inner);
    }
    assert EmptyGroupsIn([inner]) == [2] by {
      assert EmptyGroupsIn([inner][1..]) == [];
    }
    assert EmptyGroupsIn([outer]) == [2] by {
      assert EmptyGroupsIn([outer][1..]) == [];
    }
    assert PruneAll([inner]) == [] by {
      assert PruneAll([inner][1..]) == [];
    }
    assert PruneAll([outer]) == [Element(1, "g", map[], [])] by {
      assert PruneAll([outer][1..]) == [];
    }
    var pruned := Element(0, "svg", map[], [Element(1, "g", map[], [])]);
    assert EmptyGroupsIn(pruned.children) == [1] by {
      assert EmptyGroupsIn(pruned.children[1..]) == [];
    }
  }
}
