/**
  Find references: collects, in pre-order, the path of every identifier,
  member select, `new` expression and member reference whose resolved
  element equals the element being searched for.
 */
module Navigation {
  import opened Syntax

  /** The node kinds that have a reference handler. */
  predicate ReferenceSite(k: Kind)
  {
    k.IdentifierTree? || k.MemberSelectTree? || k.NewClassTree? || k.MemberReferenceTree?
  }

  /** The path's leaf is a reference site that resolves to `find`. */
  predicate IsReference(res: Resolver, find: Symbol, p: Path)
  {
    |p| > 0 && ReferenceSite(Leaf(p).kind) && ElementAt(res, p) == Some(find)
  }

  /** What a handler appends at `p`. */
  function NodeReferences(res: Resolver, find: Symbol, p: Path): (rs: seq<Path>)
  {
    if IsReference(res, find, p) then [p] else []
  }

  /** The paths appended along a walk that visits `ps` in order. */
  function References(res: Resolver, find: Symbol, ps: seq<Path>): (rs: seq<Path>)
  {
    if ps == [] then []
    else References(res, find, ps[..|ps| - 1]) + NodeReferences(res, find, ps[|ps| - 1])
  }

  /** `a` is `b` with some elements left out, the rest kept in order. */
  predicate Subsequence<T(==)>(a: seq<T>, b: seq<T>)
    decreases |b|
  {
    a == [] ||
    (b != [] &&
     ((a[|a| - 1] == b[|b| - 1] && Subsequence(a[..|a| - 1], b[..|b| - 1])) ||
      Subsequence(a, b[..|b| - 1])))
  }

  /** The shared list the handlers append to. */
  class PathList {
    var items: seq<Path>

    constructor ()
      ensures items == []
    {
      items := [];
    }

    method Add(p: Path)
      modifies this
      ensures items == old(items) + [p]
    {
      items := items + [p];
    }
  }

  class FindReferences {
    const resolver: Resolver
    const find: Symbol

    constructor (resolver: Resolver, find: Symbol)
      ensures this.resolver == resolver && this.find == find
    {
      this.resolver := resolver;
      this.find := find;
    }

    /** The element at `path` is the one searched for; an unresolved path never is. */
    function Check(path: Path): (b: bool)
      requires |path| > 0
      ensures b ==> Leaf(path).id in resolver.elements
      ensures b <==> ElementAt(resolver, path) == Some(find)
    {
      var candidate := ElementAt(resolver, path);
      candidate == Some(find)
    }

    /**
      The handler for the node at the end of `path`: identifiers, member
      selects, `new` expressions and member references append their path
      when it resolves to the element searched for.
     */
    method Visit(path: Path, list: PathList)
      requires |path| > 0
      modifies list
      ensures list.items == old(list.items) + NodeReferences(resolver, find, path)
    {
      match Leaf(path).kind
      case IdentifierTree =>
        if Check(path) {
          list.Add(path);
        }
      case MemberSelectTree(_) =>
        if Check(path) {
          list.Add(path);
        }
      case NewClassTree =>
        if Check(path) {
          list.Add(path);
        }
      case MemberReferenceTree =>
        if Check(path) {
          list.Add(path);
        }
      case _ =>
    }

    /**
      Pre-order scan of the subtree at `node` below `ancestors`: each handler
      runs before the node's children are scanned, whatever it found.
     */
    method Scan(ancestors: Path, node: Node, list: PathList)
      modifies list
      ensures list.items == old(list.items) + References(resolver, find, PreOrder(ancestors, node))
      decreases node
    {
      var path := ancestors + [node];
      Visit(path, list);
      ghost var visited := [path];
      assert visited[..0] == [];
      var i := 0;
      while i < |node.children|
        invariant 0 <= i <= |node.children|
        invariant visited == [path] + PreOrderSeq(path, node.children[..i])
        invariant list.items == old(list.items) + References(resolver, find, visited)
      {
        ghost var mid := list.items;
        Scan(path, node.children[i], list);
        ScanStep(resolver, find, path, node.children, i, visited, old(list.items), mid, list.items);
        visited := visited + PreOrder(path, node.children[i]);
        i := i + 1;
      }
      assert node.children[..i] == node.children;
    }
  }

  /** Searches a whole compilation unit into a fresh list and returns the paths found. */
  method FindAll(resolver: Resolver, find: Symbol, unit: Node) returns (paths: seq<Path>)
    ensures paths == References(resolver, find, PreOrder([], unit))
  {
    var list := new PathList();
    var finder := new FindReferences(resolver, find);
    finder.Scan([], unit, list);
    paths := list.items;
  }

  // ---------------------------------------------------------------------
  // Properties of the reference list
  // ---------------------------------------------------------------------

  lemma {:induction false} ReferencesAppend(res: Resolver, find: Symbol, ps: seq<Path>, qs: seq<Path>)
    ensures References(res, find, ps + qs) == References(res, find, ps) + References(res, find, qs)
    decreases |qs|
  {
    if qs != [] {
      var q' := qs[..|qs| - 1];
      assert (ps + qs)[..|ps + qs| - 1] == ps + q';
      ReferencesAppend(res, find, ps, q');
    } else {
      assert ps + qs == ps;
    }
  }

  lemma ScanStep(res: Resolver, find: Symbol, path: Path, cs: seq<Node>, i: nat, visited: seq<Path>,
                 l0: seq<Path>, lMid: seq<Path>, lAfter: seq<Path>)
    requires i < |cs|
    requires visited == [path] + PreOrderSeq(path, cs[..i])
    requires lMid == l0 + References(res, find, visited)
    requires lAfter == lMid + References(res, find, PreOrder(path, cs[i]))
    ensures visited + PreOrder(path, cs[i]) == [path] + PreOrderSeq(path, cs[..i + 1])
    ensures lAfter == l0 + References(res, find, visited + PreOrder(path, cs[i]))
  {
    var more := PreOrder(path, cs[i]);
    PreOrderSeqStep(path, cs, i);
    AppendAssoc([path], PreOrderSeq(path, cs[..i]), more);
    ReferencesAppend(res, find, visited, more);
    AppendAssoc(l0, References(res, find, visited), References(res, find, more));
  }

  /**
    A path is reported exactly when it is visited and is a reference site
    resolving to the element searched for.
   */
  lemma {:induction false} ReferencesExactly(res: Resolver, find: Symbol, ps: seq<Path>, p: Path)
    ensures p in References(res, find, ps) <==> p in ps && IsReference(res, find, p)
    decreases |ps|
  {
    if ps != [] {
      var init := ps[..|ps| - 1];
      ReferencesExactly(res, find, init, p);
      assert ps == init + [ps[|ps| - 1]];
    }
  }

  /**
    Unresolved nodes, declarations (variables, methods, classes) and every
    kind without a reference handler are never reported.
   */
  lemma NeverReported(res: Resolver, find: Symbol, ps: seq<Path>, p: Path)
    requires |p| > 0
    requires ElementAt(res, p).None? || !ReferenceSite(Leaf(p).kind)
    ensures p !in References(res, find, ps)
  {
    ReferencesExactly(res, find, ps, p);
  }

  /** The reported paths are a subsequence of the walk: pre-order, each visit at most once. */
  lemma {:induction false} ReferencesInWalkOrder(res: Resolver, find: Symbol, ps: seq<Path>)
    ensures Subsequence(References(res, find, ps), ps)
    decreases |ps|
  {
    if ps != [] {
      var init := ps[..|ps| - 1];
      ReferencesInWalkOrder(res, find, init);
      var r := References(res, find, ps);
      if IsReference(res, find, ps[|ps| - 1]) {
        assert r[..|r| - 1] == References(res, find, init);
      } else {
        assert r == References(res, find, init);
        SubsequenceOfPrefix(r, init, ps);
      }
    }
  }

  lemma SubsequenceOfPrefix<T>(a: seq<T>, init: seq<T>, b: seq<T>)
    requires b != [] && init == b[..|b| - 1] && Subsequence(a, init)
    ensures Subsequence(a, b)
  {
  }

  /** Every path of a subsequence comes from the sequence, and it is no longer. */
  lemma {:induction false} SubsequenceFacts<T>(a: seq<T>, b: seq<T>)
    requires Subsequence(a, b)
    ensures |a| <= |b| && forall x :: x in a ==> x in b
    decreases |b|
  {
    if a != [] {
      var b' := b[..|b| - 1];
      assert b == b' + [b[|b| - 1]];
      if a[|a| - 1] == b[|b| - 1] && Subsequence(a[..|a| - 1], b') {
        SubsequenceFacts(a[..|a| - 1], b');
        assert a == a[..|a| - 1] + [a[|a| - 1]];
      } else {
        SubsequenceFacts(a, b');
      }
    }
  }

  /** A walk with exactly one reference site reports exactly that path. */
  lemma {:induction false} ReferencesSingle(res: Resolver, find: Symbol, ps: seq<Path>, k: nat)
    requires k < |ps| && IsReference(res, find, ps[k])
    requires forall j :: 0 <= j < |ps| && j != k ==> !IsReference(res, find, ps[j])
    ensures References(res, find, ps) == [ps[k]]
    decreases |ps|
  {
    var init := ps[..|ps| - 1];
    if k < |ps| - 1 {
      forall j | 0 <= j < |init| && j != k ensures !IsReference(res, find, init[j]) {
        assert init[j] == ps[j];
      }
      assert init[k] == ps[k];
      ReferencesSingle(res, find, init, k);
    } else {
      ReferencesNone(res, find, init);
    }
  }

  /** A walk with no reference site reports nothing. */
  lemma {:induction false} ReferencesNone(res: Resolver, find: Symbol, ps: seq<Path>)
    requires forall j :: 0 <= j < |ps| ==> !IsReference(res, find, ps[j])
    ensures References(res, find, ps) == []
    decreases |ps|
  {
    if ps != [] {
      var init := ps[..|ps| - 1];
      forall j | 0 <= j < |init| ensures !IsReference(res, find, init[j]) {
        assert init[j] == ps[j];
      }
      ReferencesNone(res, find, init);
    }
  }

  // The compilation unit `class A { int x; void m(){ int y = x; } }`.
  const UseX := Node(9, IdentifierTree, "x", 35, 36, [])
  const IntY := Node(8, OtherTree, "", 27, 30, [])
  const LocalY := Node(7, VariableTree(30), "y", 27, 36, [IntY, UseX])
  const Body := Node(6, OtherTree, "", 25, 39, [LocalY])
  const VoidM := Node(5, OtherTree, "", 17, 21, [])
  const MethodM := Node(4, MethodTree, "m", 17, 39, [VoidM, Body])
  const IntX := Node(3, OtherTree, "", 10, 13, [])
  const FieldX := Node(2, VariableTree(13), "x", 10, 16, [IntX])
  const ClassA := Node(1, ClassTree, "A", 0, 41, [FieldX, MethodM])
  const UnitA := Node(0, CompilationUnitTree, "", 0, 41, [ClassA])
  const SymbolX := Symbol(2, Field, {})
  const ResolverA := Resolver(map[1 := Symbol(1, Class, {}), 2 := SymbolX, 4 := Symbol(4, Method, {}),
                                  7 := Symbol(7, LocalVariable, {}), 9 := SymbolX], map[])

  lemma MethodWalk(a: Path)
    ensures var m := a + [MethodM];
            var y := m + [Body] + [LocalY];
            PreOrder(a, MethodM) == [m, m + [VoidM], m + [Body], y, y + [IntY], y + [UseX]]
  {
    var m := a + [MethodM];
    var b := m + [Body];
    var y := b + [LocalY];
    assert PreOrder(y, IntY) == [y + [IntY]] && PreOrder(y, UseX) == [y + [UseX]];
    assert LocalY.children[..1] == [IntY] && [IntY][..0] == [];
    assert PreOrderSeq(y, [IntY]) == [y + [IntY]];
    assert PreOrder(b, LocalY) == [y, y + [IntY], y + [UseX]];
    assert Body.children[..0] == [];
    assert PreOrderSeq(b, Body.children) == PreOrder(b, LocalY);
    assert PreOrder(m, Body) == [b, y, y + [IntY], y + [UseX]];
    assert PreOrder(m, VoidM) == [m + [VoidM]];
    assert MethodM.children[..1] == [VoidM] && [VoidM][..0] == [];
    assert PreOrderSeq(m, [VoidM]) == [m + [VoidM]];
  }

  lemma FieldWalk(c: Path)
    ensures PreOrder(c, FieldX) == [c + [FieldX], c + [FieldX, IntX]]
  {
    assert PreOrder(c + [FieldX], IntX) == [c + [FieldX] + [IntX]];
    assert FieldX.children[..0] == [];
    assert PreOrderSeq(c + [FieldX], FieldX.children) == [c + [FieldX] + [IntX]];
    assert c + [FieldX] + [IntX] == c + [FieldX, IntX];
  }

  lemma ClassWalk(u: Path)
    ensures var c := u + [ClassA];
            var m := c + [MethodM];
            var y := m + [Body] + [LocalY];
            PreOrder(u, ClassA) == [c, c + [FieldX], c + [FieldX, IntX],
                                    m, m + [VoidM], m + [Body], y, y + [IntY], y + [UseX]]
  {
    var c := u + [ClassA];
    MethodWalk(c);
    FieldWalk(c);
    assert ClassA.children[..1] == [FieldX] && [FieldX][..0] == [];
    assert PreOrderSeq(c, [FieldX]) == [c + [FieldX], c + [FieldX, IntX]];
  }

  lemma UnitWalk()
    ensures var c := [UnitA, ClassA];
            var m := c + [MethodM];
            var y := m + [Body] + [LocalY];
            PreOrder([], UnitA) == [[UnitA], c, c + [FieldX], c + [FieldX, IntX],
                                    m, m + [VoidM], m + [Body], y, y + [IntY], y + [UseX]]
  {
    ClassWalk([UnitA]);
    assert [UnitA] + [ClassA] == [UnitA, ClassA] && [] + [UnitA] == [UnitA];
    assert UnitA.children[..0] == [];
    assert PreOrderSeq([UnitA], UnitA.children) == PreOrder([UnitA], ClassA);
  }

  /**
    In `class A { int x; void m(){ int y = x; } }` the references to the
    field `x` are exactly the one use inside `m`: the field's own
    declaration is not reported.
   */
  lemma FieldUsedOnce()
    ensures References(ResolverA, SymbolX, PreOrder([], UnitA)) == [[UnitA, ClassA, MethodM, Body, LocalY, UseX]]
  {
    UnitWalk();
    var ps := PreOrder([], UnitA);
    assert ps[9] == [UnitA, ClassA, MethodM, Body, LocalY, UseX];
    forall j | 0 <= j < |ps| && j != 9 ensures !IsReference(ResolverA, SymbolX, ps[j]) {
    }
    ReferencesSingle(ResolverA, SymbolX, ps, 9);
  }
}
