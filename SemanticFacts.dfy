/**
  Properties of semantic highlighting over a whole walk: which ranges land
  in which bucket, where each recorded range comes from, and the behaviours
  of the range locator that the highlighter keeps as they are.
 */
module SemanticFacts {
  import opened Syntax
  import opened Semantics

  /** A range is in a category's bucket exactly when that highlight was recorded. */
  lemma {:induction false} BucketMembers(hs: seq<Highlight>, c: Category, r: Range)
    ensures r in Bucket(hs, c) <==> Highlight(c, r) in hs
    decreases |hs|
  {
    if hs != [] {
      var init := hs[..|hs| - 1];
      BucketMembers(init, c, r);
      assert hs == init + [hs[|hs| - 1]];
    }
  }

  /**
    The effect of one `putSemantics` call on the buckets: a pseudo-name, an
    unresolved leaf, an unknown position or a kind outside the table leaves
    every bucket as it was; otherwise exactly the element kind's bucket grows
    by the located range and every other bucket is unchanged.
   */
  lemma PutSemanticsEffect(res: Resolver, text: seq<char>, path: Path, name: string,
                           b: map<Category, seq<Range>>, c: Category)
    requires |path| > 0 && Readable(text, Leaf(path)) && forall k: Category :: k in b
    ensures c in Record(b, OptionSeq(Classify(res, text, path, name)))
    ensures (name in PseudoNames || ElementAt(res, path).None? || !KnownSpan(Leaf(path)) ||
             ElementAt(res, path).value.kind == OtherElement) ==>
              Record(b, OptionSeq(Classify(res, text, path, name)))[c] == b[c]
    ensures (ElementAt(res, path).Some? && KnownSpan(Leaf(path)) && name !in PseudoNames &&
             KindCategory(ElementAt(res, path).value.kind, ElementAt(res, path).value.modifiers) == Some(c)) ==>
              Record(b, OptionSeq(Classify(res, text, path, name)))[c] == b[c] + [Find(text, path, name)]
    ensures (ElementAt(res, path).None? ||
             KindCategory(ElementAt(res, path).value.kind, ElementAt(res, path).value.modifiers) != Some(c)) ==>
              Record(b, OptionSeq(Classify(res, text, path, name)))[c] == b[c]
  {
    var h := Classify(res, text, path, name);
    match h
    case None =>
      RecordNothing(b);
    case Some(x) =>
      RecordOne(b, x.category, x.range);
  }

  /**
    A doc comment is collected along a walk exactly when some visited
    variable, class or method declaration resolves to an element that has it.
   */
  lemma {:induction false} DocsOrigin(res: Resolver, ps: seq<Path>, d: DocComment)
    ensures d in Docs(res, ps) <==>
            exists p :: p in ps && |p| > 0 && Declaration(Leaf(p).kind) && DocFor(res, p) == Some(d)
    decreases |ps|
  {
    if ps != [] {
      var init := ps[..|ps| - 1];
      var last := ps[|ps| - 1];
      DocsOrigin(res, init, d);
      assert ps == init + [last];
      if d in Docs(res, init) {
        var p :| p in init && |p| > 0 && Declaration(Leaf(p).kind) && DocFor(res, p) == Some(d);
        assert p in ps;
      }
      if d in NodeDocs(res, last) {
        assert |last| > 0 && Declaration(Leaf(last).kind) && DocFor(res, last) == Some(d);
      }
    }
  }

  /** A highlight is recorded along a walk exactly when some visited node records it. */
  lemma {:induction false} HighlightOrigin(res: Resolver, text: seq<char>, ps: seq<Path>, h: Highlight)
    ensures h in Highlights(res, text, ps) <==> exists p :: p in ps && h in NodeHighlights(res, text, p)
    decreases |ps|
  {
    if ps != [] {
      var init := ps[..|ps| - 1];
      HighlightOrigin(res, text, init, h);
      assert ps == init + [ps[|ps| - 1]];
      if h in Highlights(res, text, init) {
        var p :| p in init && h in NodeHighlights(res, text, p);
        assert p in ps;
      }
    }
  }

  /**
    Each visited node records at most one highlight: a name-bearing node its
    element's bucket, an invocation the invocation bucket, anything else
    nothing.
   */
  lemma NodeHighlightFacts(res: Resolver, text: seq<char>, p: Path, h: Highlight)
    requires h in NodeHighlights(res, text, p)
    ensures |NodeHighlights(res, text, p)| == 1 && |p| > 0 && Readable(text, Leaf(p))
    ensures h.category == MethodInvocations ==>
              Leaf(p).kind.MethodInvocationTree? && CalleeName(Leaf(p).kind.callee).Some? &&
              h.range == Find(text, p, CalleeName(Leaf(p).kind.callee).value)
    ensures h.category != MethodInvocations ==>
              NameBearing(Leaf(p).kind) && Leaf(p).name !in PseudoNames && ElementAt(res, p).Some? &&
              KindCategory(ElementAt(res, p).value.kind, ElementAt(res, p).value.modifiers) == Some(h.category) &&
              h.range == Find(text, p, Leaf(p).name) && h.range.Range? &&
              h.range.end - h.range.start == |Leaf(p).name|
  {
  }

  /**
    Every range in a declaration bucket is a real range of a name that is
    not a pseudo-name, resolved to an element of that bucket's kind, and as
    long as the name.
   */
  lemma DeclarationBucketOrigin(res: Resolver, text: seq<char>, ps: seq<Path>, c: Category, r: Range)
    requires c != MethodInvocations && r in Bucket(Highlights(res, text, ps), c)
    ensures r.Range?
    ensures exists p :: p in ps && |p| > 0 && Readable(text, Leaf(p)) && NameBearing(Leaf(p).kind) &&
                        Leaf(p).name !in PseudoNames && ElementAt(res, p).Some? &&
                        KindCategory(ElementAt(res, p).value.kind, ElementAt(res, p).value.modifiers) == Some(c) &&
                        r == Find(text, p, Leaf(p).name) && r.end - r.start == |Leaf(p).name|
  {
    BucketMembers(Highlights(res, text, ps), c, r);
    HighlightOrigin(res, text, ps, Highlight(c, r));
    var p :| p in ps && Highlight(c, r) in NodeHighlights(res, text, p);
    NodeHighlightFacts(res, text, p, Highlight(c, r));
  }

  /** Every name the classifier resolves along the walk ends up in its element's bucket. */
  lemma ClassifiedNamesRecorded(res: Resolver, text: seq<char>, ps: seq<Path>, p: Path)
    requires p in ps && |p| > 0 && Readable(text, Leaf(p)) && NameBearing(Leaf(p).kind)
    requires Classify(res, text, p, Leaf(p).name).Some?
    ensures var h := Classify(res, text, p, Leaf(p).name).value;
            h.range in Bucket(Highlights(res, text, ps), h.category)
  {
    var h := Classify(res, text, p, Leaf(p).name).value;
    assert h in NodeHighlights(res, text, p);
    HighlightOrigin(res, text, ps, h);
    BucketMembers(Highlights(res, text, ps), h.category, h.range);
  }

  /** `r` is the located callee name of an invocation at `p` whose callee is an identifier or a member select. */
  predicate InvocationAt(text: seq<char>, p: Path, r: Range)
  {
    |p| > 0 && Readable(text, Leaf(p)) &&
    Leaf(p).kind.MethodInvocationTree? && CalleeName(Leaf(p).kind.callee).Some? &&
    r == Find(text, p, CalleeName(Leaf(p).kind.callee).value)
  }

  /**
    The invocation bucket holds exactly the located callee names of the
    invocations visited whose callee is an identifier or a member select.
   */
  lemma InvocationBucket(res: Resolver, text: seq<char>, ps: seq<Path>, r: Range)
    ensures r in Bucket(Highlights(res, text, ps), MethodInvocations) <==> exists p :: p in ps && InvocationAt(text, p, r)
  {
    var h := Highlight(MethodInvocations, r);
    BucketMembers(Highlights(res, text, ps), MethodInvocations, r);
    HighlightOrigin(res, text, ps, h);
    if r in Bucket(Highlights(res, text, ps), MethodInvocations) {
      var p :| p in ps && h in NodeHighlights(res, text, p);
      InvocationNode(res, text, p, r);
    }
    if exists p :: p in ps && InvocationAt(text, p, r) {
      var p :| p in ps && InvocationAt(text, p, r);
      InvocationNode(res, text, p, r);
    }
  }

  /** A node records `r` in the invocation bucket exactly when it is an invocation whose callee name is located at `r`. */
  lemma InvocationNode(res: Resolver, text: seq<char>, p: Path, r: Range)
    ensures Highlight(MethodInvocations, r) in NodeHighlights(res, text, p) <==> InvocationAt(text, p, r)
  {
    if |p| > 0 && Readable(text, Leaf(p)) && NameBearing(Leaf(p).kind) {
      var c := Classify(res, text, p, Leaf(p).name);
      assert c.Some? ==> c.value.category != MethodInvocations;
    }
  }

  // ---------------------------------------------------------------------
  // Behaviours kept as written
  // ---------------------------------------------------------------------

  /**
    An invocation whose position is unknown still records the no-range
    sentinel in the invocation bucket, because the located range is only
    compared with null.
   */
  lemma InvocationRecordsRangeNone(res: Resolver, text: seq<char>)
    ensures var call := Node(0, MethodInvocationTree(CalleeIdentifier("run")), "", -1, -1, []);
            NodeHighlights(res, text, [call]) == [Highlight(MethodInvocations, RangeNone)]
  {
    var call := Node(0, MethodInvocationTree(CalleeIdentifier("run")), "", -1, -1, []);
    assert InvocationHighlight(text, [call]) == Some(Highlight(MethodInvocations, RangeNone));
  }

  /**
    The callee name is searched in the whole invocation, qualifier included,
    and pseudo-names are not filtered: in `get.get()` the recorded range is
    the qualifier's `get`, and the call `this(1)` records `this`.
   */
  lemma InvocationSearchesWholeCall(res: Resolver)
    ensures var call := Node(0, MethodInvocationTree(CalleeMemberSelect("get")), "", 0, 9, []);
            NodeHighlights(res, "get.get()", [call]) == [Highlight(MethodInvocations, Range(0, 3))]
    ensures var call := Node(0, MethodInvocationTree(CalleeIdentifier("this")), "", 0, 7, []);
            NodeHighlights(res, "this(1)", [call]) == [Highlight(MethodInvocations, Range(0, 4))]
  {
    var text1 := "get.get()";
    var call1 := Node(0, MethodInvocationTree(CalleeMemberSelect("get")), "", 0, 9, []);
    assert OccursAt(text1[0..9], "get", 0);
    assert Find(text1, [call1], "get") == Range(0, 3);
    assert InvocationHighlight(text1, [call1]) == Some(Highlight(MethodInvocations, Range(0, 3)));
    var text2 := "this(1)";
    var call2 := Node(0, MethodInvocationTree(CalleeIdentifier("this")), "", 0, 7, []);
    assert OccursAt(text2[0..7], "this", 0);
    assert Find(text2, [call2], "this") == Range(0, 4);
    assert InvocationHighlight(text2, [call2]) == Some(Highlight(MethodInvocations, Range(0, 4)));
  }

  /**
    A name that does not occur in its search region is located one position
    before the region, because the search's -1 is added unchecked: in the
    text `ab` an identifier `x` spanning the whole text gets `[-1, 0)`.
   */
  lemma MissingNameShiftsBack()
    ensures var x := Node(0, IdentifierTree, "x", 0, 2, []);
            Find("ab", [x], "x") == Range(-1, 0)
  {
    var x := Node(0, IdentifierTree, "x", 0, 2, []);
    var region: seq<char> := "ab";
    assert Region("ab", x) == region;
    assert region[0..1][0] == 'a' && region[1..2][0] == 'b';
    assert !OccursAt(region, "x", 0) && !OccursAt(region, "x", 1);
  }

  /**
    The search region of a member select starts after its qualifier, so a
    name repeated in the qualifier is skipped: in `x.x` the selected `x` is
    found at offset 2.
   */
  lemma FindSkipsQualifier()
    ensures var sel := Node(0, MemberSelectTree(1), "x", 0, 3, []);
            Find("x.x", [sel], "x") == Range(2, 3)
  {
    var sel := Node(0, MemberSelectTree(1), "x", 0, 3, []);
    var t1: seq<char> := "x.x";
    var r1: seq<char> := ".x";
    assert t1[1] == '.' && t1[2] == 'x';
    assert Region(t1, sel) == r1;
    assert r1[0..1][0] == '.';
    assert OccursAt(r1, "x", 1);
  }

  /**
    The search region of a variable starts after its declared type, so an
    occurrence of the name inside the type is skipped: in `intx x` the
    variable `x` is found at offset 5, while the first `x` of the whole
    declaration is the one inside the type, at offset 3.
   */
  lemma FindSkipsType()
    ensures var decl := Node(0, VariableTree(4), "x", 0, 6, []);
            Find("intx x", [decl], "x") == Range(5, 6)
    ensures IndexOf("intx x", "x") == 3
  {
    var decl := Node(0, VariableTree(4), "x", 0, 6, []);
    var t: seq<char> := "intx x";
    var r: seq<char> := " x";
    assert t[4] == ' ' && t[5] == 'x';
    assert Region(t, decl) == r;
    assert r[0..1][0] == ' ';
    assert OccursAt(r, "x", 1);
    assert t[0..1][0] == 'i' && t[1..2][0] == 'n' && t[2..3][0] == 't';
    assert OccursAt(t, "x", 3);
  }
}
