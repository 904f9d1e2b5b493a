/**
  Find variable at: the innermost variable declaration whose own span
  `[start, end)` contains an offset, found by a bottom-up reduction over
  the compilation unit.

  The reduction follows the tree scanner it runs on: the children of a node
  are scanned in source order and each child's result is combined with the
  result so far as `reduce(childResult, resultSoFar)`.
 */
module Rewrite {
  import opened Syntax

  /** `v` is a variable declaration whose own span contains `find` (start inclusive, end exclusive). */
  predicate Contains(v: Node, find: int)
  {
    v.kind.VariableTree? && v.start <= find < v.end
  }

  /** The first argument when there is one, the second otherwise. */
  function Reduce(r1: Option<Node>, r2: Option<Node>): (r: Option<Node>)
    ensures r == r1 || r == r2
    ensures r.Some? <==> r1.Some? || r2.Some?
    ensures r1.Some? ==> r == r1
  {
    if r1.Some? then r1 else r2
  }

  /**
    The result of scanning `n`: a variable declaration first asks its
    children and returns their match, and tests its own span only when they
    found none; any other node returns what its children found.
   */
  function Scan(n: Node, find: int): (r: Option<Node>)
    ensures r.Some? ==> Contains(r.value, find) && Within(r.value, n)
    decreases n, 1
  {
    var smaller := ScanChildren(n.children, find);
    if n.kind.VariableTree? then
      if smaller.Some? then smaller
      else if n.start <= find < n.end then Some(n)
      else None
    else smaller
  }

  /** Children scanned in source order, each result reduced with the result so far. */
  function ScanChildren(cs: seq<Node>, find: int): (r: Option<Node>)
    ensures r.Some? ==> Contains(r.value, find) && exists i :: 0 <= i < |cs| && Within(r.value, cs[i])
    decreases cs, 0
  {
    if cs == [] then None
    else
      var init := cs[..|cs| - 1];
      var r := Reduce(Scan(cs[|cs| - 1], find), ScanChildren(init, find));
      assert forall i :: 0 <= i < |init| ==> init[i] == cs[i];
      r
  }

  /**
    The declaration at `find` in compilation unit `unit`, whose offsets all
    positions are measured in: a variable declaration of the unit containing
    `find`, or nothing.
   */
  function FindVariableAt(unit: Node, find: int): (r: Option<Node>)
    ensures r.Some? ==> Contains(r.value, find) && Within(r.value, unit)
  {
    Scan(unit, find)
  }

  // ---------------------------------------------------------------------
  // Properties
  // ---------------------------------------------------------------------

  /** Nothing is found exactly when no variable declaration in the tree contains `find`. */
  lemma {:induction false} NoneIffNoContainer(n: Node, find: int)
    ensures Scan(n, find).None? <==> forall m :: Within(m, n) ==> !Contains(m, find)
    decreases n, 1
  {
    NoneIffNoContainerSeq(n.children, find);
    if Scan(n, find).None? {
      forall m | Within(m, n) ensures !Contains(m, find) {
        if m != n {
          var i :| 0 <= i < |n.children| && Within(m, n.children[i]);
        }
      }
    } else {
      assert Within(Scan(n, find).value, n);
    }
  }

  lemma {:induction false} NoneIffNoContainerSeq(cs: seq<Node>, find: int)
    ensures ScanChildren(cs, find).None? <==>
            forall i, m :: 0 <= i < |cs| && Within(m, cs[i]) ==> !Contains(m, find)
    decreases cs, 0
  {
    if cs != [] {
      var init := cs[..|cs| - 1];
      NoneIffNoContainerSeq(init, find);
      NoneIffNoContainer(cs[|cs| - 1], find);
      if ScanChildren(cs, find).None? {
        forall i, m | 0 <= i < |cs| && Within(m, cs[i]) ensures !Contains(m, find) {
          if i < |cs| - 1 {
            assert init[i] == cs[i];
          }
        }
      } else {
        var v := ScanChildren(cs, find).value;
        var i :| 0 <= i < |cs| && Within(v, cs[i]);
      }
    }
  }

  /**
    The result of a children scan is the match of the last child subtree
    that has one: that child's own result, with no match after it.
   */
  lemma {:induction false} LastMatchingChild(cs: seq<Node>, find: int)
    requires ScanChildren(cs, find).Some?
    ensures exists i :: 0 <= i < |cs| && Scan(cs[i], find) == ScanChildren(cs, find) &&
                        forall j :: i < j < |cs| ==> Scan(cs[j], find).None?
    decreases |cs|
  {
    var last := |cs| - 1;
    var init := cs[..last];
    var r := ScanChildren(cs, find);
    assert r == Reduce(Scan(cs[last], find), ScanChildren(init, find));
    if Scan(cs[last], find).None? {
      assert r == ScanChildren(init, find);
      LastMatchingChild(init, find);
      var i :| 0 <= i < |init| && Scan(init[i], find) == ScanChildren(init, find) &&
               forall j :: i < j < |init| ==> Scan(init[j], find).None?;
      assert LaterNone(cs, find, i) by {
        forall j | i < j < |cs| ensures Scan(cs[j], find).None? {
          if j < last {
            assert init[j] == cs[j];
          }
        }
      }
      assert init[i] == cs[i];
    } else {
      assert LaterNone(cs, find, last);
    }
  }

  /** No child after the `i`-th has a match. */
  predicate LaterNone(cs: seq<Node>, find: int, i: nat)
  {
    forall j :: i < j < |cs| ==> Scan(cs[j], find).None?
  }

  /**
    When exactly one child subtree has a match, the children scan returns
    it, whichever order siblings are combined in.
   */
  lemma {:induction false} SingleMatchingChild(cs: seq<Node>, find: int, k: nat)
    requires k < |cs| && Scan(cs[k], find).Some?
    requires forall j :: 0 <= j < |cs| && j != k ==> Scan(cs[j], find).None?
    ensures ScanChildren(cs, find) == Scan(cs[k], find)
    decreases |cs|
  {
    var last := |cs| - 1;
    var init := cs[..last];
    if k < last {
      forall j | 0 <= j < |init| && j != k ensures Scan(init[j], find).None? {
        assert init[j] == cs[j];
      }
      assert init[k] == cs[k];
      SingleMatchingChild(init, find, k);
    } else {
      NoneIffNoContainerSeq(init, find);
      forall i, m | 0 <= i < |init| && Within(m, init[i]) ensures !Contains(m, find) {
        assert init[i] == cs[i];
        NoneIffNoContainer(cs[i], find);
      }
    }
  }

  /**
    Innermost wins: no variable declaration strictly inside the one found
    contains `find`, so an enclosing declaration is returned only when none
    of its descendants matches.
   */
  lemma {:induction false} Innermost(n: Node, find: int)
    requires Scan(n, find).Some?
    ensures forall m :: Descendant(m, Scan(n, find).value) ==> !Contains(m, find)
    decreases n
  {
    var smaller := ScanChildren(n.children, find);
    if smaller.Some? {
      LastMatchingChild(n.children, find);
      var i :| 0 <= i < |n.children| && Scan(n.children[i], find) == smaller &&
               forall j :: i < j < |n.children| ==> Scan(n.children[j], find).None?;
      Innermost(n.children[i], find);
    } else {
      NoneIffNoContainerSeq(n.children, find);
    }
  }

  /**
    A declaration whose own span contains `find` is found, itself or a
    declaration inside it, whenever the scan reaches it.
   */
  lemma ContainerFound(n: Node, find: int)
    requires Contains(n, find)
    ensures Scan(n, find).Some? && Within(Scan(n, find).value, n)
  {
  }

  /**
    A declaration spanning `[10, 20)` is found at offset 10 and at 19, but
    not at 20 nor at 9.
   */
  lemma HalfOpenBoundaries()
    ensures var v := Node(1, VariableTree(13), "y", 10, 20, []);
            var unit := Node(0, CompilationUnitTree, "", 0, 30, [v]);
            FindVariableAt(unit, 10) == Some(v) && FindVariableAt(unit, 19) == Some(v) &&
            FindVariableAt(unit, 20) == None && FindVariableAt(unit, 9) == None
  {
    var v := Node(1, VariableTree(13), "y", 10, 20, []);
    var unit := Node(0, CompilationUnitTree, "", 0, 30, [v]);
    assert [v][..0] == [];
  }

  /**
    With overlapping sibling declarations the later sibling's match is
    returned, since each new child result is the first argument of the
    reduction.
   */
  lemma OverlappingSiblings()
    ensures var a := Node(1, VariableTree(2), "a", 0, 10, []);
            var b := Node(2, VariableTree(7), "b", 5, 15, []);
            var unit := Node(0, CompilationUnitTree, "", 0, 20, [a, b]);
            FindVariableAt(unit, 7) == Some(b)
  {
    var a := Node(1, VariableTree(2), "a", 0, 10, []);
    var b := Node(2, VariableTree(7), "b", 5, 15, []);
    assert [a, b][..1] == [a];
    assert [a][..0] == [];
  }

  // ---------------------------------------------------------------------
  // Compound declarations: sibling order as written and as intended
  // ---------------------------------------------------------------------

  // `int a = 1, b = 2;`: two sibling declarations that share the declared
  // type, so both spans start at the type and the span of `b` covers `a`.
  const CompoundA := Node(1, VariableTree(3), "a", 0, 10, [])
  const CompoundB := Node(2, VariableTree(3), "b", 0, 17, [])
  const CompoundBlock := Node(0, OtherTree, "", 0, 17, [CompoundA, CompoundB])

  /**
    As written, an offset on `a` (4) finds `b`: both spans contain it and
    the later sibling's match wins. An offset on `b` (11) finds `b`.
   */
  lemma CompoundDeclarationPicksLast()
    ensures FindVariableAt(CompoundBlock, 4) == Some(CompoundB)
    ensures FindVariableAt(CompoundBlock, 11) == Some(CompoundB)
  {
    var cs := CompoundBlock.children;
    assert cs[..1] == [CompoundA] && [CompoundA][..0] == [];
    assert ScanChildren([], 4) == None && ScanChildren([], 11) == None;
    assert Scan(CompoundA, 4) == Some(CompoundA) && Scan(CompoundA, 11) == None;
    assert Scan(CompoundB, 4) == Some(CompoundB) && Scan(CompoundB, 11) == Some(CompoundB);
    assert ScanChildren(cs[..1], 4) == Some(CompoundA) && ScanChildren(cs[..1], 11) == None;
    assert cs == [CompoundA, CompoundB] && cs[|cs| - 1] == CompoundB && cs[..|cs| - 1] == cs[..1];
    assert FindVariableAt(CompoundBlock, 4) == ScanChildren(cs, 4) && FindVariableAt(CompoundBlock, 11) == ScanChildren(cs, 11);
  }

  /** The reduction that prefers the result so far: the earlier sibling's match is kept. */
  function ReduceFirst(r1: Option<Node>, r2: Option<Node>): (r: Option<Node>)
    ensures r == r1 || r == r2
    ensures r.Some? <==> r1.Some? || r2.Some?
    ensures r2.Some? ==> r == r2
  {
    if r2.Some? then r2 else r1
  }

  /** `Scan` with the corrected reduction. */
  function ScanFirst(n: Node, find: int): (r: Option<Node>)
    ensures r.Some? ==> Contains(r.value, find) && Within(r.value, n)
    decreases n, 1
  {
    var smaller := ScanChildrenFirst(n.children, find);
    if n.kind.VariableTree? then
      if smaller.Some? then smaller
      else if n.start <= find < n.end then Some(n)
      else None
    else smaller
  }

  /** Children scanned in source order, each result reduced with the result so far by `ReduceFirst`. */
  function ScanChildrenFirst(cs: seq<Node>, find: int): (r: Option<Node>)
    ensures r.Some? ==> Contains(r.value, find) && exists i :: 0 <= i < |cs| && Within(r.value, cs[i])
    decreases cs, 0
  {
    if cs == [] then None
    else
      var init := cs[..|cs| - 1];
      var r := ReduceFirst(ScanFirst(cs[|cs| - 1], find), ScanChildrenFirst(init, find));
      assert forall i :: 0 <= i < |init| ==> init[i] == cs[i];
      r
  }

  /** The declaration at `find` with the corrected sibling order. */
  function FindVariableAtFirst(unit: Node, find: int): (r: Option<Node>)
    ensures r.Some? ==> Contains(r.value, find) && Within(r.value, unit)
  {
    ScanFirst(unit, find)
  }

  /** The corrected children scan finds nothing exactly when no child subtree has a match. */
  lemma {:induction false} NoneChildrenFirst(cs: seq<Node>, find: int)
    ensures ScanChildrenFirst(cs, find).None? <==> forall j :: 0 <= j < |cs| ==> ScanFirst(cs[j], find).None?
    decreases |cs|
  {
    if cs != [] {
      var init := cs[..|cs| - 1];
      NoneChildrenFirst(init, find);
      assert forall j :: 0 <= j < |init| ==> init[j] == cs[j];
    }
  }

  /**
    With the corrected reduction a children scan returns the match of the
    first child subtree that has one.
   */
  lemma {:induction false} FirstMatchingChild(cs: seq<Node>, find: int)
    requires ScanChildrenFirst(cs, find).Some?
    ensures exists i :: 0 <= i < |cs| && ScanFirst(cs[i], find) == ScanChildrenFirst(cs, find) &&
                        EarlierNone(cs, find, i)
    decreases |cs|
  {
    var last := |cs| - 1;
    var init := cs[..last];
    var r := ScanChildrenFirst(cs, find);
    assert r == ReduceFirst(ScanFirst(cs[last], find), ScanChildrenFirst(init, find));
    if ScanChildrenFirst(init, find).Some? {
      FirstMatchingChild(init, find);
      var i :| 0 <= i < |init| && ScanFirst(init[i], find) == ScanChildrenFirst(init, find) &&
               EarlierNone(init, find, i);
      assert init[i] == cs[i];
      assert EarlierNone(cs, find, i) by {
        forall j | 0 <= j < i ensures ScanFirst(cs[j], find).None? {
          assert init[j] == cs[j];
        }
      }
    } else {
      NoneChildrenFirst(init, find);
      assert EarlierNone(cs, find, last) by {
        forall j | 0 <= j < last ensures ScanFirst(cs[j], find).None? {
          assert init[j] == cs[j];
        }
      }
    }
  }

  /** No child before the `i`-th has a match under the corrected reduction. */
  predicate EarlierNone(cs: seq<Node>, find: int, i: nat)
    requires i <= |cs|
  {
    forall j :: 0 <= j < i ==> ScanFirst(cs[j], find).None?
  }

  /** With the corrected reduction an offset on `a` finds `a`, and one on `b` finds `b`. */
  lemma CompoundDeclarationPicksFirst()
    ensures FindVariableAtFirst(CompoundBlock, 4) == Some(CompoundA)
    ensures FindVariableAtFirst(CompoundBlock, 11) == Some(CompoundB)
  {
    var cs := CompoundBlock.children;
    assert cs[..1] == [CompoundA] && [CompoundA][..0] == [];
    assert ScanChildrenFirst([], 4) == None && ScanChildrenFirst([], 11) == None;
    assert ScanFirst(CompoundA, 4) == Some(CompoundA) && ScanFirst(CompoundA, 11) == None;
    assert ScanFirst(CompoundB, 4) == Some(CompoundB) && ScanFirst(CompoundB, 11) == Some(CompoundB);
    assert ScanChildrenFirst(cs[..1], 4) == Some(CompoundA) && ScanChildrenFirst(cs[..1], 11) == None;
    assert cs == [CompoundA, CompoundB] && cs[|cs| - 1] == CompoundB && cs[..|cs| - 1] == cs[..1];
    assert FindVariableAtFirst(CompoundBlock, 4) == ScanChildrenFirst(cs, 4) && FindVariableAtFirst(CompoundBlock, 11) == ScanChildrenFirst(cs, 11);
  }
}
