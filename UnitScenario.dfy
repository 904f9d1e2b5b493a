/**
  The three analyses on one compilation unit,
  `class A { int x; void m(){ int y = x; } }`, whose tree and resolver are
  `Navigation.UnitA` and `Navigation.ResolverA`: which ranges highlighting
  puts in which bucket, and which declaration find-variable-at returns.
 */
module UnitScenario {
  import opened Syntax
  import opened Semantics
  import opened Navigation
  import Rewrite

  /** The text of the unit; every offset of the example tree is an index into it. */
  const UnitText: seq<char> := "class A { " + "int x; " + "void m(){ " + "int y = x; " + "} }"

  /**
    A resolved, one-character name at offset `i` of the text, with no
    earlier occurrence in the leaf's search region, is recorded at
    `[i, i + 1)` in the bucket of its element.
   */
  lemma NamedAt(res: Resolver, text: seq<char>, p: Path, c: Category, i: int)
    requires |p| > 0 && NameBearing(Leaf(p).kind) && Leaf(p).name !in PseudoNames && |Leaf(p).name| == 1
    requires Readable(text, Leaf(p)) && KnownSpan(Leaf(p))
    requires Leaf(p).id in res.elements
    requires KindCategory(res.elements[Leaf(p).id].kind, res.elements[Leaf(p).id].modifiers) == Some(c)
    requires TrimmedStart(Leaf(p)) <= i < Leaf(p).end && text[i] == Leaf(p).name[0]
    requires forall k :: TrimmedStart(Leaf(p)) <= k < i ==> text[k] != Leaf(p).name[0]
    ensures NodeHighlights(res, text, p) == [Highlight(c, Range(i, i + 1))]
  {
    var start, name := TrimmedStart(Leaf(p)), Leaf(p).name;
    var region := Region(text, Leaf(p));
    var j := i - start;
    assert name == [name[0]];
    assert region[j..j + 1] == [text[i]] == name;
    assert OccursAt(region, name, j);
    forall k | 0 <= k < j ensures !OccursAt(region, name, k) {
      assert region[k] == text[start + k] != name[0];
      assert region[k..k + 1] == [region[k]] != name;
    }
    assert IndexOf(region, name) == j;
    assert Find(text, p, name) == Range(i, i + 1);
  }

  /** A node that neither bears a name nor is an invocation records nothing. */
  lemma Unnamed(res: Resolver, text: seq<char>, p: Path)
    requires |p| > 0 && !NameBearing(Leaf(p).kind) && !Leaf(p).kind.MethodInvocationTree?
    ensures NodeHighlights(res, text, p) == []
  {
  }

  /** The highlights of a five-node walk, node by node. */
  lemma FiveNodes(res: Resolver, text: seq<char>, ps: seq<Path>)
    requires |ps| == 5
    ensures Highlights(res, text, ps) ==
              NodeHighlights(res, text, ps[0]) + NodeHighlights(res, text, ps[1]) + NodeHighlights(res, text, ps[2]) +
              NodeHighlights(res, text, ps[3]) + NodeHighlights(res, text, ps[4])
  {
    assert ps[..4][..3] == ps[..3] && ps[..3][..2] == ps[..2] && ps[..2][..1] == ps[..1] && ps[..1][..0] == [];
    assert Highlights(res, text, ps[..1]) == NodeHighlights(res, text, ps[0]);
    assert Highlights(res, text, ps[..2]) == Highlights(res, text, ps[..1]) + NodeHighlights(res, text, ps[1]);
    assert Highlights(res, text, ps[..3]) == Highlights(res, text, ps[..2]) + NodeHighlights(res, text, ps[2]);
    assert Highlights(res, text, ps[..4]) == Highlights(res, text, ps[..3]) + NodeHighlights(res, text, ps[3]);
  }

  /**
    The characters of the unit's text that locating its five names reads:
    the text up to each name's occurrence inside its search region.
   */
  predicate UnitChars(t: seq<char>)
  {
    |t| == 41 &&
    t[0] == 'c' && t[1] == 'l' && t[2] == 'a' && t[3] == 's' && t[4] == 's' && t[5] == ' ' && t[6] == 'A' &&
    t[13] == ' ' && t[14] == 'x' &&
    t[17] == 'v' && t[18] == 'o' && t[19] == 'i' && t[20] == 'd' && t[21] == ' ' && t[22] == 'm' &&
    t[30] == ' ' && t[31] == 'y' &&
    t[35] == 'x'
  }

  lemma UnitTextChars()
    ensures UnitChars(UnitText)
  {
  }

  lemma ClassHighlight(t: seq<char>)
    requires UnitChars(t)
    ensures NodeHighlights(ResolverA, t, [UnitA, ClassA]) == [Highlight(ClassNames, Range(6, 7))]
  {
    NamedAt(ResolverA, t, [UnitA, ClassA], ClassNames, 6);
  }

  lemma FieldHighlight(t: seq<char>)
    requires UnitChars(t)
    ensures NodeHighlights(ResolverA, t, [UnitA, ClassA, FieldX]) == [Highlight(Fields, Range(14, 15))]
  {
    NamedAt(ResolverA, t, [UnitA, ClassA, FieldX], Fields, 14);
  }

  lemma MethodHighlight(t: seq<char>)
    requires UnitChars(t)
    ensures NodeHighlights(ResolverA, t, [UnitA, ClassA, MethodM]) == [Highlight(MethodDeclarations, Range(22, 23))]
  {
    NamedAt(ResolverA, t, [UnitA, ClassA, MethodM], MethodDeclarations, 22);
  }

  lemma LocalHighlight(t: seq<char>)
    requires UnitChars(t)
    ensures NodeHighlights(ResolverA, t, [UnitA, ClassA, MethodM, Body, LocalY]) == [Highlight(Locals, Range(31, 32))]
  {
    NamedAt(ResolverA, t, [UnitA, ClassA, MethodM, Body, LocalY], Locals, 31);
  }

  lemma UseHighlight(t: seq<char>)
    requires UnitChars(t)
    ensures NodeHighlights(ResolverA, t, [UnitA, ClassA, MethodM, Body, LocalY, UseX]) == [Highlight(Fields, Range(35, 36))]
  {
    NamedAt(ResolverA, t, [UnitA, ClassA, MethodM, Body, LocalY, UseX], Fields, 35);
  }

  /**
    Highlighting the unit records, in walk order, the class name, the
    field's declaration, the method name, the local's declaration and the
    use of the field inside `m`: a resolved use of a field is highlighted
    as a field, in the same bucket as the field's declaration.
   */
  lemma UnitHighlights()
    ensures Highlights(ResolverA, UnitText, PreOrder([], UnitA)) ==
              [Highlight(ClassNames, Range(6, 7)), Highlight(Fields, Range(14, 15)),
               Highlight(MethodDeclarations, Range(22, 23)), Highlight(Locals, Range(31, 32)),
               Highlight(Fields, Range(35, 36))]
  {
    UnitTextChars();
    WalkHighlights(UnitText);
  }

  /** `UnitHighlights` for any text with the unit's characters where its names are read. */
  lemma WalkHighlights(t: seq<char>)
    requires UnitChars(t)
    ensures Highlights(ResolverA, t, PreOrder([], UnitA)) ==
              [Highlight(ClassNames, Range(6, 7)), Highlight(Fields, Range(14, 15)),
               Highlight(MethodDeclarations, Range(22, 23)), Highlight(Locals, Range(31, 32)),
               Highlight(Fields, Range(35, 36))]
  {
    UnitWalk();
    var c := [UnitA, ClassA];
    var m := [UnitA, ClassA, MethodM];
    var y := [UnitA, ClassA, MethodM, Body, LocalY];
    assert c + [MethodM] == m && m + [Body] + [LocalY] == y;
    assert c + [FieldX] == [UnitA, ClassA, FieldX] && c + [FieldX, IntX] == [UnitA, ClassA, FieldX, IntX];
    assert m + [VoidM] == [UnitA, ClassA, MethodM, VoidM] && m + [Body] == [UnitA, ClassA, MethodM, Body];
    assert y + [IntY] == [UnitA, ClassA, MethodM, Body, LocalY, IntY];
    assert y + [UseX] == [UnitA, ClassA, MethodM, Body, LocalY, UseX];
    var front := [[UnitA], c, [UnitA, ClassA, FieldX], [UnitA, ClassA, FieldX, IntX], m];
    var back := [[UnitA, ClassA, MethodM, VoidM], [UnitA, ClassA, MethodM, Body], y,
                 [UnitA, ClassA, MethodM, Body, LocalY, IntY], [UnitA, ClassA, MethodM, Body, LocalY, UseX]];
    var ps := PreOrder([], UnitA);
    assert ps == front + back;
    var hf := [Highlight(ClassNames, Range(6, 7)), Highlight(Fields, Range(14, 15)),
               Highlight(MethodDeclarations, Range(22, 23))];
    var hb := [Highlight(Locals, Range(31, 32)), Highlight(Fields, Range(35, 36))];
    FrontHighlights(t, front);
    BackHighlights(t, back);
    HighlightsAppend(ResolverA, t, front, back);
    assert Highlights(ResolverA, t, ps) == hf + hb;
  }

  /** The unit, the class, the field declaration and the method. */
  lemma FrontHighlights(t: seq<char>, ps: seq<Path>)
    requires UnitChars(t)
    requires ps == [[UnitA], [UnitA, ClassA], [UnitA, ClassA, FieldX], [UnitA, ClassA, FieldX, IntX],
                    [UnitA, ClassA, MethodM]]
    ensures Highlights(ResolverA, t, ps) ==
              [Highlight(ClassNames, Range(6, 7)), Highlight(Fields, Range(14, 15)),
               Highlight(MethodDeclarations, Range(22, 23))]
  {
    Unnamed(ResolverA, t, ps[0]);
    ClassHighlight(t);
    FieldHighlight(t);
    Unnamed(ResolverA, t, ps[3]);
    MethodHighlight(t);
    FiveNodes(ResolverA, t, ps);
    var a, b, c := Highlight(ClassNames, Range(6, 7)), Highlight(Fields, Range(14, 15)), Highlight(MethodDeclarations, Range(22, 23));
    assert Highlights(ResolverA, t, ps) == [] + [a] + [b] + [] + [c];
  }

  /** Everything inside the method `m`. */
  lemma BackHighlights(t: seq<char>, ps: seq<Path>)
    requires UnitChars(t)
    requires ps == [[UnitA, ClassA, MethodM, VoidM], [UnitA, ClassA, MethodM, Body],
                    [UnitA, ClassA, MethodM, Body, LocalY], [UnitA, ClassA, MethodM, Body, LocalY, IntY],
                    [UnitA, ClassA, MethodM, Body, LocalY, UseX]]
    ensures Highlights(ResolverA, t, ps) ==
              [Highlight(Locals, Range(31, 32)), Highlight(Fields, Range(35, 36))]
  {
    FiveNodes(ResolverA, t, ps);
    Unnamed(ResolverA, t, ps[0]);
    Unnamed(ResolverA, t, ps[1]);
    LocalHighlight(t);
    Unnamed(ResolverA, t, ps[3]);
    UseHighlight(t);
  }

  /**
    The buckets of the unit: the fields bucket holds both the declaration
    of `x` and its use inside `m`; the class, method and local buckets hold
    one name each.
   */
  lemma UnitBuckets()
    ensures var hs := Highlights(ResolverA, UnitText, PreOrder([], UnitA));
            Bucket(hs, Fields) == [Range(14, 15), Range(35, 36)] &&
            Bucket(hs, ClassNames) == [Range(6, 7)] &&
            Bucket(hs, MethodDeclarations) == [Range(22, 23)] &&
            Bucket(hs, Locals) == [Range(31, 32)]
  {
    UnitHighlights();
    SortBuckets(Highlights(ResolverA, UnitText, PreOrder([], UnitA)));
  }

  /** The unit's five highlights sorted into their buckets. */
  lemma SortBuckets(hs: seq<Highlight>)
    requires hs == [Highlight(ClassNames, Range(6, 7)), Highlight(Fields, Range(14, 15)),
                    Highlight(MethodDeclarations, Range(22, 23)), Highlight(Locals, Range(31, 32)),
                    Highlight(Fields, Range(35, 36))]
    ensures Bucket(hs, Fields) == [Range(14, 15), Range(35, 36)]
    ensures Bucket(hs, ClassNames) == [Range(6, 7)]
    ensures Bucket(hs, MethodDeclarations) == [Range(22, 23)]
    ensures Bucket(hs, Locals) == [Range(31, 32)]
  {
    forall c ensures Bucket(hs, c) == Bucket([hs[0]], c) + Bucket([hs[1]], c) + Bucket([hs[2]], c) +
                                      Bucket([hs[3]], c) + Bucket([hs[4]], c) {
      assert hs == [hs[0]] + [hs[1]] + [hs[2]] + [hs[3]] + [hs[4]];
      BucketAppend([hs[0]] + [hs[1]] + [hs[2]] + [hs[3]], [hs[4]], c);
      BucketAppend([hs[0]] + [hs[1]] + [hs[2]], [hs[3]], c);
      BucketAppend([hs[0]] + [hs[1]], [hs[2]], c);
      BucketAppend([hs[0]], [hs[1]], c);
    }
    forall h: Highlight, c ensures Bucket([h], c) == if h.category == c then [h.range] else [] {
      assert [h][..0] == [];
    }
  }

  /** A single child's scan is the children scan. */
  lemma ScanOne(a: Node, f: int)
    ensures Rewrite.ScanChildren([a], f) == Rewrite.Scan(a, f)
  {
    assert [a][..0] == [];
  }

  /** Two children: the later child's match wins over the earlier one's. */
  lemma ScanTwo(a: Node, b: Node, f: int)
    ensures Rewrite.ScanChildren([a, b], f) == Rewrite.Reduce(Rewrite.Scan(b, f), Rewrite.Scan(a, f))
  {
    assert [a, b][..1] == [a];
    ScanOne(a, f);
  }

  /** A node with no children that is not a variable declaration holds no match. */
  lemma ScanBare(n: Node, f: int)
    requires n.children == [] && !n.kind.VariableTree?
    ensures Rewrite.Scan(n, f) == None
  {
  }

  /**
    A declaration's span includes its initializer: offset 35, on the `x` of
    `int y = x;`, lies in `y`'s span `[27, 36)`, so find-variable-at returns
    `y`. Offset 14, on the field's name, returns the field, and offset 22,
    on the method name, lies in no variable declaration.
   */
  lemma DeclarationCoversInitializer()
    ensures Rewrite.FindVariableAt(UnitA, 35) == Some(LocalY)
    ensures Rewrite.FindVariableAt(UnitA, 14) == Some(FieldX)
    ensures Rewrite.FindVariableAt(UnitA, 22) == None
  {
    UnitScan(35);
    UnitScan(14);
    UnitScan(22);
    LocalScan(35);
    LocalScan(14);
    LocalScan(22);
    FieldScan(35);
    FieldScan(14);
    FieldScan(22);
  }

  /** The unit's only child is the class. */
  lemma UnitScan(f: int)
    ensures Rewrite.FindVariableAt(UnitA, f) == Rewrite.Reduce(Rewrite.Scan(LocalY, f), Rewrite.Scan(FieldX, f))
  {
    ScanOne(ClassA, f);
    ClassScan(f);
  }

  /** The class's only declarations are the field `x` and, inside `m`, the local `y`. */
  lemma ClassScan(f: int)
    ensures Rewrite.Scan(ClassA, f) == Rewrite.Reduce(Rewrite.Scan(LocalY, f), Rewrite.Scan(FieldX, f))
  {
    ScanTwo(FieldX, MethodM, f);
    ScanTwo(VoidM, Body, f);
    ScanBare(VoidM, f);
    ScanOne(LocalY, f);
  }

  /** The local `y` over `[27, 36)` holds no inner declaration. */
  lemma LocalScan(f: int)
    ensures Rewrite.Scan(LocalY, f) == if 27 <= f < 36 then Some(LocalY) else None
  {
    ScanTwo(IntY, UseX, f);
    ScanBare(IntY, f);
    ScanBare(UseX, f);
  }

  /** The field `x` over `[10, 16)` holds no inner declaration. */
  lemma FieldScan(f: int)
    ensures Rewrite.Scan(FieldX, f) == if 10 <= f < 16 then Some(FieldX) else None
  {
    ScanOne(IntX, f);
    ScanBare(IntX, f);
  }
}
