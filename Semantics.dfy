/**
  Semantic highlighting: classifies every name occurrence in a compilation
  unit into one of the fixed category buckets and locates the exact text
  range of the name, collecting the doc comments of declarations on the way.
 */
module Semantics {
  import opened Syntax

  // ---------------------------------------------------------------------
  // Ranges and the range locator (`find`)
  // ---------------------------------------------------------------------

  /** A half-open `[start, end)` offset range in the unit's text, or the "no range" sentinel. */
  datatype Range = Range(start: int, end: int) | RangeNone

  /** `pat` occurs in `s` at index `i`. */
  predicate OccursAt(s: seq<char>, pat: seq<char>, i: int)
  {
    0 <= i && i + |pat| <= |s| && s[i..i + |pat|] == pat
  }

  predicate Occurs(s: seq<char>, pat: seq<char>)
  {
    exists i :: 0 <= i <= |s| && OccursAt(s, pat, i)
  }

  function IndexOfFrom(s: seq<char>, pat: seq<char>, k: nat): (i: int)
    decreases |s| + 1 - k
    ensures i == -1 || (k <= i && OccursAt(s, pat, i))
    ensures forall j :: k <= j && (i == -1 || j < i) ==> !OccursAt(s, pat, j)
  {
    if k + |pat| > |s| then -1
    else if s[k..k + |pat|] == pat then k
    else IndexOfFrom(s, pat, k + 1)
  }

  /** String search as `String.indexOf`: the first index where `pat` occurs, or -1. */
  function IndexOf(s: seq<char>, pat: seq<char>): (i: int)
    ensures i == -1 <==> !Occurs(s, pat)
    ensures i != -1 ==> OccursAt(s, pat, i) && forall j :: 0 <= j < i ==> !OccursAt(s, pat, j)
  {
    IndexOfFrom(s, pat, 0)
  }

  /**
    Where the search for a name starts inside a node: after the qualifier of
    a member select, after the declared type of a variable, otherwise at the
    node's own start.
   */
  function TrimmedStart(n: Node): (start: int)
  {
    match n.kind
    case MemberSelectTree(qualifierEnd) => qualifierEnd
    case VariableTree(typeEnd) => typeEnd
    case _ => n.start
  }

  /** Both ends of the search region are known positions. */
  predicate KnownSpan(n: Node)
  {
    TrimmedStart(n) != -1 && n.end != -1
  }

  /**
    The Resolver's positions for `n` are consistent with the text: when both
    ends of the search region are known, they delimit a slice of the text.
   */
  predicate Readable(text: seq<char>, n: Node)
  {
    KnownSpan(n) ==> 0 <= TrimmedStart(n) <= n.end <= |text|
  }

  /** Every node of the tree is Readable. */
  predicate Positioned(text: seq<char>, n: Node)
    decreases n
  {
    Readable(text, n) && forall i :: 0 <= i < |n.children| ==> Positioned(text, n.children[i])
  }

  function Region(text: seq<char>, n: Node): (region: seq<char>)
    requires Readable(text, n) && KnownSpan(n)
  {
    text[TrimmedStart(n)..n.end]
  }

  /**
    The range of `name` inside the path's leaf: the first textual occurrence
    of `name` in the search region. The index returned by the search is used
    unchecked, so a name missing from the region yields a range that starts
    one position before the region.
   */
  function Find(text: seq<char>, path: Path, name: string): (r: Range)
    requires |path| > 0 && Readable(text, Leaf(path))
    ensures r.RangeNone? <==> !KnownSpan(Leaf(path))
    ensures r.Range? ==> r.end - r.start == |name|
    ensures r.Range? && Occurs(Region(text, Leaf(path)), name) ==>
              TrimmedStart(Leaf(path)) <= r.start && r.end <= Leaf(path).end &&
              text[r.start..r.end] == name &&
              forall j :: 0 <= j < r.start - TrimmedStart(Leaf(path)) ==> !OccursAt(Region(text, Leaf(path)), name, j)
    ensures r.Range? && !Occurs(Region(text, Leaf(path)), name) ==> r.start == TrimmedStart(Leaf(path)) - 1
  {
    var leaf := Leaf(path);
    var start := TrimmedStart(leaf);
    var end := leaf.end;
    if start == -1 || end == -1 then RangeNone
    else
      var region := text[start..end];
      var i := IndexOf(region, name);
      SliceOfSlice(text, start, end, i, |name|);
      Range(start + i, start + i + |name|)
  }

  lemma SliceOfSlice(text: seq<char>, start: int, end: int, i: int, len: nat)
    requires 0 <= start <= end <= |text|
    ensures 0 <= i && i + len <= end - start ==> text[start..end][i..i + len] == text[start + i..start + i + len]
  {
    if 0 <= i && i + len <= end - start {
      var a, b := text[start..end][i..i + len], text[start + i..start + i + len];
      forall k | 0 <= k < len ensures a[k] == b[k] { }
      assert a == b;
    }
  }

  /**
    When the name occurs exactly once in the search region, at offset `j`,
    the located range is exactly that occurrence.
   */
  lemma FindExact(text: seq<char>, path: Path, name: string, j: int)
    requires |path| > 0 && Readable(text, Leaf(path)) && KnownSpan(Leaf(path))
    requires OccursAt(Region(text, Leaf(path)), name, j)
    requires forall k :: OccursAt(Region(text, Leaf(path)), name, k) ==> k == j
    ensures Find(text, path, name) == Range(TrimmedStart(Leaf(path)) + j, TrimmedStart(Leaf(path)) + j + |name|)
  {
  }

  // ---------------------------------------------------------------------
  // Categories and the kind table (`putSemantics`)
  // ---------------------------------------------------------------------

  datatype Category =
    | Packages | EnumTypes | ClassNames | AnnotationTypes | Interfaces | Enums
    | Fields | Statics | MethodDeclarations | Parameters | Locals | ExceptionParams
    | Constructors | StaticInits | InstanceInits | TypeParams | ResourceVariables
    | MethodInvocations

  /** The element kind each declaration category stands for; the inverse of KindCategory. */
  function CategoryKind(c: Category): (kind: ElementKind)
  {
    match c
    case Packages => Package
    case EnumTypes => Enum
    case ClassNames => Class
    case AnnotationTypes => AnnotationType
    case Interfaces => Interface
    case Enums => EnumConstant
    case Fields => Field
    case Statics => Field
    case MethodDeclarations => Method
    case Parameters => Parameter
    case Locals => LocalVariable
    case ExceptionParams => ExceptionParameter
    case Constructors => Constructor
    case StaticInits => StaticInit
    case InstanceInits => InstanceInit
    case TypeParams => TypeParameter
    case ResourceVariables => ResourceVariable
    case MethodInvocations => OtherElement
  }

  /**
    The bucket a resolved element goes to. Every listed kind has its own
    bucket, fields split on the static modifier, other kinds have none, and
    no element is ever put in the method-invocation bucket.
   */
  function KindCategory(kind: ElementKind, modifiers: set<Modifier>): (c: Option<Category>)
    ensures c.None? <==> kind == OtherElement
    ensures c.Some? ==> c.value != MethodInvocations && CategoryKind(c.value) == kind
    ensures kind == Field ==> c == Some(if Static in modifiers then Statics else Fields)
  {
    match kind
    case Package => Some(Packages)
    case Enum => Some(EnumTypes)
    case Class => Some(ClassNames)
    case AnnotationType => Some(AnnotationTypes)
    case Interface => Some(Interfaces)
    case EnumConstant => Some(Enums)
    case Field => if Static in modifiers then Some(Statics) else Some(Fields)
    case Method => Some(MethodDeclarations)
    case Parameter => Some(Parameters)
    case LocalVariable => Some(Locals)
    case ExceptionParameter => Some(ExceptionParams)
    case Constructor => Some(Constructors)
    case StaticInit => Some(StaticInits)
    case InstanceInit => Some(InstanceInits)
    case TypeParameter => Some(TypeParams)
    case ResourceVariable => Some(ResourceVariables)
    case OtherElement => None
  }

  /** Every category except the invocation bucket is reached by some element kind. */
  lemma KindTableCovers(c: Category)
    requires c != MethodInvocations
    ensures KindCategory(CategoryKind(c), if c == Statics then {Static} else {}) == Some(c)
  {
  }

  /** A recorded occurrence: its bucket and its range. */
  datatype Highlight = Highlight(category: Category, range: Range)

  const PseudoNames: set<string> := {"this", "super", "class"}

  /**
    What `putSemantics` records for `name` at `path`: nothing for the
    pseudo-names, for an unresolved leaf, for an unknown position or for a
    kind outside the table; otherwise the name's range in the element's bucket.
   */
  function Classify(res: Resolver, text: seq<char>, path: Path, name: string): (h: Option<Highlight>)
    requires |path| > 0 && Readable(text, Leaf(path))
    ensures h.None? <==>
              name in PseudoNames || ElementAt(res, path).None? || !KnownSpan(Leaf(path)) ||
              ElementAt(res, path).value.kind == OtherElement
    ensures h.Some? ==>
              h.value.range == Find(text, path, name) && h.value.range.Range? &&
              h.value.range.end - h.value.range.start == |name| &&
              KindCategory(ElementAt(res, path).value.kind, ElementAt(res, path).value.modifiers) == Some(h.value.category)
  {
    if name in PseudoNames then None
    else
      match ElementAt(res, path)
      case None => None
      case Some(element) =>
        var range := Find(text, path, name);
        if range == RangeNone then None
        else
          match KindCategory(element.kind, element.modifiers)
          case None => None
          case Some(c) => Some(Highlight(c, range))
  }

  /** The name an invocation's callee refers to, when the callee is an identifier or a member select. */
  function CalleeName(c: Callee): (name: Option<string>)
  {
    match c
    case CalleeIdentifier(name) => Some(name)
    case CalleeMemberSelect(name) => Some(name)
    case CalleeOther => None
  }

  /**
    What `visitMethodInvocation` records: the callee name located inside the
    invocation node itself, including the no-range sentinel, since the
    result is only compared with null.
   */
  function InvocationHighlight(text: seq<char>, path: Path): (h: Option<Highlight>)
    requires |path| > 0 && Readable(text, Leaf(path))
    ensures h.Some? <==> Leaf(path).kind.MethodInvocationTree? && CalleeName(Leaf(path).kind.callee).Some?
    ensures h.Some? ==> h.value.category == MethodInvocations &&
                        h.value.range == Find(text, path, CalleeName(Leaf(path).kind.callee).value)
  {
    match Leaf(path).kind
    case MethodInvocationTree(callee) =>
      (match CalleeName(callee)
       case Some(name) => Some(Highlight(MethodInvocations, Find(text, path, name)))
       case None => None)
    case _ => None
  }

  /** Node kinds whose name `putSemantics` classifies. */
  predicate NameBearing(k: Kind)
  {
    k.IdentifierTree? || k.MemberSelectTree? || k.VariableTree? || k.ClassTree? || k.MethodTree?
  }

  /** Node kinds that `mayHaveDoc` is called for. */
  predicate Declaration(k: Kind)
  {
    k.VariableTree? || k.ClassTree? || k.MethodTree?
  }

  function OptionSeq<T>(o: Option<T>): (s: seq<T>)
  {
    match o
    case Some(x) => [x]
    case None => []
  }

  /**
    The highlights the visit handlers record for the node at the end of
    `path`; only paths whose leaf is Readable are ever visited.
   */
  function NodeHighlights(res: Resolver, text: seq<char>, path: Path): (hs: seq<Highlight>)
  {
    if |path| == 0 || !Readable(text, Leaf(path)) then []
    else if NameBearing(Leaf(path).kind) then OptionSeq(Classify(res, text, path, Leaf(path).name))
    else OptionSeq(InvocationHighlight(text, path))
  }

  /** What `mayHaveDoc` collects at `path`: the doc comment of the resolved element, if both exist. */
  function DocFor(res: Resolver, path: Path): (d: Option<DocComment>)
    requires |path| > 0
    ensures d.Some? <==> ElementAt(res, path).Some? && ElementAt(res, path).value in res.docComments
    ensures d.Some? ==> d.value == res.docComments[ElementAt(res, path).value]
  {
    match ElementAt(res, path)
    case None => None
    case Some(element) => DocCommentOf(res, element)
  }

  /** The doc comments the visit handlers collect for the node at the end of `path`. */
  function NodeDocs(res: Resolver, path: Path): (ds: seq<DocComment>)
  {
    if |path| > 0 && Declaration(Leaf(path).kind) then OptionSeq(DocFor(res, path)) else []
  }

  /** The highlights recorded along a walk that visits `ps` in order. */
  function Highlights(res: Resolver, text: seq<char>, ps: seq<Path>): (hs: seq<Highlight>)
  {
    if ps == [] then []
    else Highlights(res, text, ps[..|ps| - 1]) + NodeHighlights(res, text, ps[|ps| - 1])
  }

  /** The doc comments collected along a walk that visits `ps` in order. */
  function Docs(res: Resolver, ps: seq<Path>): (ds: seq<DocComment>)
  {
    if ps == [] then []
    else Docs(res, ps[..|ps| - 1]) + NodeDocs(res, ps[|ps| - 1])
  }

  /** The ranges of `hs` that belong to category `c`, in order. */
  function Bucket(hs: seq<Highlight>, c: Category): (rs: seq<Range>)
  {
    if hs == [] then []
    else Bucket(hs[..|hs| - 1], c) + (if hs[|hs| - 1].category == c then [hs[|hs| - 1].range] else [])
  }

  /** Buckets `b` after appending every highlight of `hs` to its own bucket. */
  function Record(b: map<Category, seq<Range>>, hs: seq<Highlight>): (b': map<Category, seq<Range>>)
  {
    map c | c in b :: b[c] + Bucket(hs, c)
  }

  // ---------------------------------------------------------------------
  // The result object and the highlighter
  // ---------------------------------------------------------------------

  /** The per-category range lists the highlighter fills in. */
  class SemanticHighlight {
    var buckets: map<Category, seq<Range>>

    ghost predicate Valid()
      reads this
    {
      forall c: Category :: c in buckets
    }

    constructor ()
      ensures Valid() && forall c :: buckets[c] == []
    {
      var empty := map c: Category | c in AllCategories() :: [];
      forall c: Category ensures c in empty {
        EveryCategory(c);
      }
      buckets := empty;
    }

    /** Appends `r` to the list of category `c`. */
    method Add(c: Category, r: Range)
      requires Valid()
      modifies this
      ensures Valid()
      ensures buckets == Record(old(buckets), [Highlight(c, r)])
    {
      buckets := buckets[c := buckets[c] + [r]];
      RecordOne(old(buckets), c, r);
    }
  }

  function AllCategories(): (cs: set<Category>)
  {
    {Packages, EnumTypes, ClassNames, AnnotationTypes, Interfaces, Enums,
     Fields, Statics, MethodDeclarations, Parameters, Locals, ExceptionParams,
     Constructors, StaticInits, InstanceInits, TypeParams, ResourceVariables,
     MethodInvocations}
  }

  lemma EveryCategory(c: Category)
    ensures c in AllCategories()
  {
    match c
    case Packages =>
    case EnumTypes =>
    case ClassNames =>
    case AnnotationTypes =>
    case Interfaces =>
    case Enums =>
    case Fields =>
    case Statics =>
    case MethodDeclarations =>
    case Parameters =>
    case Locals =>
    case ExceptionParams =>
    case Constructors =>
    case StaticInits =>
    case InstanceInits =>
    case TypeParams =>
    case ResourceVariables =>
    case MethodInvocations =>
  }

  lemma RecordOne(b: map<Category, seq<Range>>, c: Category, r: Range)
    requires c in b
    ensures Record(b, [Highlight(c, r)]) == b[c := b[c] + [r]]
  {
    var hs := [Highlight(c, r)];
    assert hs[..0] == [];
    forall d | d in b ensures Record(b, hs)[d] == b[c := b[c] + [r]][d] {
      assert Bucket(hs, d) == if d == c then [r] else [];
    }
    assert Record(b, hs).Keys == b[c := b[c] + [r]].Keys;
  }

  lemma RecordNothing(b: map<Category, seq<Range>>)
    ensures Record(b, []) == b
  {
    forall c | c in b ensures Record(b, [])[c] == b[c] {
      assert Bucket([], c) == [];
    }
    assert Record(b, []).Keys == b.Keys;
  }

  class SemanticHighlighter {
    const resolver: Resolver
    const text: seq<char>
    var docs: seq<DocComment>

    constructor (resolver: Resolver, text: seq<char>)
      ensures this.resolver == resolver && this.text == text && docs == []
    {
      this.resolver := resolver;
      this.text := text;
      docs := [];
    }

    /** Classifies `name` at `path` and appends its range to the element kind's bucket. */
    method PutSemantics(path: Path, name: string, colors: SemanticHighlight)
      requires |path| > 0 && Readable(text, Leaf(path)) && colors.Valid()
      modifies colors
      ensures colors.Valid()
      ensures colors.buckets == Record(old(colors.buckets), OptionSeq(Classify(resolver, text, path, name)))
    {
      RecordNothing(colors.buckets);
      if name == "this" || name == "super" || name == "class" {
        return;
      }
      var toEl := ElementAt(resolver, path);
      if toEl == None {
        return;
      }
      var range := Find(text, path, name);
      if range == RangeNone {
        return;
      }
      var kind := toEl.value.kind;
      if kind == Package {
        colors.Add(Packages, range);
        return;
      }
      if kind == Enum {
        colors.Add(EnumTypes, range);
        return;
      }
      if kind == Class {
        colors.Add(ClassNames, range);
        return;
      }
      if kind == AnnotationType {
        colors.Add(AnnotationTypes, range);
        return;
      }
      if kind == Interface {
        colors.Add(Interfaces, range);
        return;
      }
      if kind == EnumConstant {
        colors.Add(Enums, range);
        return;
      }
      if kind == Field {
        if Static in toEl.value.modifiers {
          colors.Add(Statics, range);
        } else {
          colors.Add(Fields, range);
        }
        return;
      }
      if kind == Method {
        colors.Add(MethodDeclarations, range);
        return;
      }
      if kind == Parameter {
        colors.Add(Parameters, range);
        return;
      }
      if kind == LocalVariable {
        colors.Add(Locals, range);
        return;
      }
      if kind == ExceptionParameter {
        colors.Add(ExceptionParams, range);
        return;
      }
      if kind == Constructor {
        colors.Add(Constructors, range);
        return;
      }
      if kind == StaticInit {
        colors.Add(StaticInits, range);
        return;
      }
      if kind == InstanceInit {
        colors.Add(InstanceInits, range);
        return;
      }
      if kind == TypeParameter {
        colors.Add(TypeParams, range);
        return;
      }
      if kind == ResourceVariable {
        colors.Add(ResourceVariables, range);
        return;
      }
    }

    /** Appends the doc comment of the element at `path`, when there is one. */
    method MayHaveDoc(path: Path)
      requires |path| > 0
      modifies this
      ensures docs == old(docs) + OptionSeq(DocFor(resolver, path))
    {
      var element := ElementAt(resolver, path);
      if element == None {
        return;
      }
      var doc := DocCommentOf(resolver, element.value);
      if doc != None {
        docs := docs + [doc.value];
      }
    }

    /** Records the callee name of the invocation at `path` in the invocation bucket. */
    method VisitMethodInvocation(path: Path, colors: SemanticHighlight)
      requires |path| > 0 && Leaf(path).kind.MethodInvocationTree?
      requires Readable(text, Leaf(path)) && colors.Valid()
      modifies colors
      ensures colors.Valid()
      ensures colors.buckets == Record(old(colors.buckets), OptionSeq(InvocationHighlight(text, path)))
    {
      RecordNothing(colors.buckets);
      var name: Option<string> := None;
      var select := Leaf(path).kind.callee;
      if select.CalleeMemberSelect? {
        name := Some(select.name);
      } else if select.CalleeIdentifier? {
        name := Some(select.name);
      }
      if name != None {
        // `find` never yields null, so the range is always recorded
        var range := Find(text, path, name.value);
        colors.Add(MethodInvocations, range);
      }
    }

    /** The visit handler for the node at the end of `path`, dispatched on its kind. */
    method Visit(path: Path, colors: SemanticHighlight)
      requires |path| > 0 && Readable(text, Leaf(path)) && colors.Valid()
      modifies this, colors
      ensures colors.Valid()
      ensures colors.buckets == Record(old(colors.buckets), NodeHighlights(resolver, text, path))
      ensures docs == old(docs) + NodeDocs(resolver, path)
    {
      var t := Leaf(path);
      match t.kind
      case IdentifierTree =>
        PutSemantics(path, t.name, colors);
      case MemberSelectTree(_) =>
        PutSemantics(path, t.name, colors);
      case VariableTree(_) =>
        PutSemantics(path, t.name, colors);
        MayHaveDoc(path);
      case ClassTree =>
        PutSemantics(path, t.name, colors);
        MayHaveDoc(path);
      case MethodInvocationTree(_) =>
        VisitMethodInvocation(path, colors);
      case MethodTree =>
        MayHaveDoc(path);
        PutSemantics(path, t.name, colors);
      case _ =>
        RecordNothing(colors.buckets);
    }

    /**
      Pre-order scan of the subtree at `node` below `ancestors`: the node's
      handler runs first, then every child subtree in source order.
     */
    method Scan(ancestors: Path, node: Node, colors: SemanticHighlight)
      requires Positioned(text, node) && colors.Valid()
      modifies this, colors
      ensures colors.Valid()
      ensures colors.buckets == Record(old(colors.buckets), Highlights(resolver, text, PreOrder(ancestors, node)))
      ensures docs == old(docs) + Docs(resolver, PreOrder(ancestors, node))
      decreases node
    {
      var path := ancestors + [node];
      Visit(path, colors);
      ghost var visited := [path];
      WalkStart(resolver, text, path);
      ghost var b0, d0 := old(colors.buckets), old(docs);
      var i := 0;
      while i < |node.children|
        invariant 0 <= i <= |node.children|
        invariant colors.Valid()
        invariant visited == [path] + PreOrderSeq(path, node.children[..i])
        invariant colors.buckets == Record(b0, Highlights(resolver, text, visited))
        invariant docs == d0 + Docs(resolver, visited)
      {
        var child := node.children[i];
        ghost var bMid, dMid := colors.buckets, docs;
        Scan(path, child, colors);
        WalkStep(resolver, text, path, node.children, i, visited, b0, bMid, colors.buckets, d0, dMid, docs);
        visited := visited + PreOrder(path, child);
        i := i + 1;
      }
      WalkEnd(ancestors, node, visited);
    }
  }

  /**
    Runs the highlighter over a whole compilation unit into fresh buckets
    and returns the buckets and the collected doc comments.
   */
  method HighlightUnit(resolver: Resolver, text: seq<char>, unit: Node)
    returns (buckets: map<Category, seq<Range>>, docs: seq<DocComment>)
    requires Positioned(text, unit)
    ensures forall c :: c in buckets && buckets[c] == Bucket(Highlights(resolver, text, PreOrder([], unit)), c)
    ensures docs == Docs(resolver, PreOrder([], unit))
  {
    var colors := new SemanticHighlight();
    var highlighter := new SemanticHighlighter(resolver, text);
    highlighter.Scan([], unit, colors);
    buckets := colors.buckets;
    docs := highlighter.docs;
  }

  // ---------------------------------------------------------------------
  // Walk-level facts the scan's specification rests on
  // ---------------------------------------------------------------------

  lemma WalkStart(res: Resolver, text: seq<char>, path: Path)
    ensures Highlights(res, text, [path]) == NodeHighlights(res, text, path)
    ensures Docs(res, [path]) == NodeDocs(res, path)
  {
    assert [path][..0] == [];
  }

  lemma WalkEnd(ancestors: Path, node: Node, visited: seq<Path>)
    requires visited == [ancestors + [node]] + PreOrderSeq(ancestors + [node], node.children[..|node.children|])
    ensures visited == PreOrder(ancestors, node)
  {
    assert node.children[..|node.children|] == node.children;
  }

  /** One more child subtree scanned: the walk so far grows by that subtree's pre-order paths. */
  lemma WalkStep(res: Resolver, text: seq<char>, path: Path, cs: seq<Node>, i: nat, visited: seq<Path>,
                 b0: map<Category, seq<Range>>, bMid: map<Category, seq<Range>>, bAfter: map<Category, seq<Range>>,
                 d0: seq<DocComment>, dMid: seq<DocComment>, dAfter: seq<DocComment>)
    requires i < |cs|
    requires visited == [path] + PreOrderSeq(path, cs[..i])
    requires bMid == Record(b0, Highlights(res, text, visited))
    requires bAfter == Record(bMid, Highlights(res, text, PreOrder(path, cs[i])))
    requires dMid == d0 + Docs(res, visited)
    requires dAfter == dMid + Docs(res, PreOrder(path, cs[i]))
    ensures visited + PreOrder(path, cs[i]) == [path] + PreOrderSeq(path, cs[..i + 1])
    ensures bAfter == Record(b0, Highlights(res, text, visited + PreOrder(path, cs[i])))
    ensures dAfter == d0 + Docs(res, visited + PreOrder(path, cs[i]))
  {
    var more := PreOrder(path, cs[i]);
    WalkStepDocs(res, visited, more, d0, dMid, dAfter);
    PreOrderSeqStep(path, cs, i);
    AppendAssoc([path], PreOrderSeq(path, cs[..i]), more);
    HighlightsAppend(res, text, visited, more);
    RecordStep(b0, bMid, bAfter, Highlights(res, text, visited), Highlights(res, text, more));
  }

  lemma RecordStep(b0: map<Category, seq<Range>>, bMid: map<Category, seq<Range>>, bAfter: map<Category, seq<Range>>,
                   hs: seq<Highlight>, gs: seq<Highlight>)
    requires bMid == Record(b0, hs) && bAfter == Record(bMid, gs)
    ensures bAfter == Record(b0, hs + gs)
  {
    RecordTwice(b0, hs, gs);
  }

  lemma WalkStepDocs(res: Resolver, visited: seq<Path>, more: seq<Path>, d0: seq<DocComment>, dMid: seq<DocComment>, dAfter: seq<DocComment>)
    requires dMid == d0 + Docs(res, visited)
    requires dAfter == dMid + Docs(res, more)
    ensures dAfter == d0 + Docs(res, visited + more)
  {
    DocsAppend(res, visited, more);
    assert d0 + Docs(res, visited) + Docs(res, more) == d0 + (Docs(res, visited) + Docs(res, more));
  }

  lemma {:induction false} HighlightsAppend(res: Resolver, text: seq<char>, ps: seq<Path>, qs: seq<Path>)
    ensures Highlights(res, text, ps + qs) == Highlights(res, text, ps) + Highlights(res, text, qs)
    decreases |qs|
  {
    if qs != [] {
      var q' := qs[..|qs| - 1];
      assert (ps + qs)[..|ps + qs| - 1] == ps + q';
      HighlightsAppend(res, text, ps, q');
    } else {
      assert ps + qs == ps;
    }
  }

  lemma {:induction false} DocsAppend(res: Resolver, ps: seq<Path>, qs: seq<Path>)
    ensures Docs(res, ps + qs) == Docs(res, ps) + Docs(res, qs)
    decreases |qs|
  {
    if qs != [] {
      var q' := qs[..|qs| - 1];
      assert (ps + qs)[..|ps + qs| - 1] == ps + q';
      DocsAppend(res, ps, q');
    } else {
      assert ps + qs == ps;
    }
  }

  lemma {:induction false} BucketAppend(hs: seq<Highlight>, gs: seq<Highlight>, c: Category)
    ensures Bucket(hs + gs, c) == Bucket(hs, c) + Bucket(gs, c)
    decreases |gs|
  {
    if gs != [] {
      var g' := gs[..|gs| - 1];
      assert (hs + gs)[..|hs + gs| - 1] == hs + g';
      BucketAppend(hs, g', c);
    } else {
      assert hs + gs == hs;
    }
  }

  /** Recording two batches one after the other is recording their concatenation. */
  lemma RecordTwice(b: map<Category, seq<Range>>, hs: seq<Highlight>, gs: seq<Highlight>)
    ensures Record(Record(b, hs), gs) == Record(b, hs + gs)
  {
    forall c | c in b ensures Record(Record(b, hs), gs)[c] == Record(b, hs + gs)[c] {
      BucketAppend(hs, gs, c);
    }
  }
}
