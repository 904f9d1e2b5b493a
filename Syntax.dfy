/**
  The resolved syntax tree that the three editor analyses walk, and the
  Resolver that answers questions about it.

  A node carries its kind, a Resolver-assigned id, its `[start, end)`
  offsets in the compilation unit's text (-1 when the Resolver knows no
  position) and its children in source order. A tree path is the chain of
  nodes from the compilation unit down to the node being visited.
 */
module Syntax {

  datatype Option<+T> = None | Some(value: T)

  type NodeId = nat

  /** Shape of the expression a method invocation calls through. */
  datatype Callee =
    | CalleeIdentifier(name: string)    // `m(...)`
    | CalleeMemberSelect(name: string)  // `q.m(...)`, name is `m`
    | CalleeOther                       // any other callee expression

  /**
    Node kinds the analyses distinguish. A member select also records where
    its qualifying expression ends, a variable declaration where its declared
    type ends, and a method invocation the shape of its callee (the callee
    expression itself is also one of the invocation's children).
   */
  datatype Kind =
    | IdentifierTree
    | MemberSelectTree(qualifierEnd: int)
    | MemberReferenceTree
    | NewClassTree
    | MethodInvocationTree(callee: Callee)
    | VariableTree(typeEnd: int)
    | ClassTree
    | MethodTree
    | CompilationUnitTree
    | OtherTree

  /**
    `name` is the simple name the node declares or refers to (identifier,
    selected member, declared variable, class or method); other kinds leave
    it unused.
   */
  datatype Node = Node(id: NodeId, kind: Kind, name: string, start: int, end: int, children: seq<Node>)

  /** Nodes from the compilation unit down to the current node. */
  type Path = seq<Node>

  function Leaf(p: Path): (n: Node)
    requires |p| > 0
  {
    p[|p| - 1]
  }

  /**
    The paths a pre-order walk visits below `ancestors`: the node itself
    first, then every child subtree in source order.
   */
  function PreOrder(ancestors: Path, n: Node): (ps: seq<Path>)
    decreases n, 1
  {
    [ancestors + [n]] + PreOrderSeq(ancestors + [n], n.children)
  }

  function PreOrderSeq(ancestors: Path, cs: seq<Node>): (ps: seq<Path>)
    decreases cs, 0
  {
    if cs == [] then []
    else PreOrderSeq(ancestors, cs[..|cs| - 1]) + PreOrder(ancestors, cs[|cs| - 1])
  }

  lemma {:induction false} PreOrderSeqStep(ancestors: Path, cs: seq<Node>, i: nat)
    requires i < |cs|
    ensures PreOrderSeq(ancestors, cs[..i + 1]) == PreOrderSeq(ancestors, cs[..i]) + PreOrder(ancestors, cs[i])
  {
    assert cs[..i + 1][..i] == cs[..i];
  }

  /** Sequence concatenation regrouped, for the walk-step lemmas. */
  lemma AppendAssoc<T>(a: seq<T>, b: seq<T>, c: seq<T>)
    ensures (a + b) + c == a + (b + c)
  {
  }

  /** `m` is `n` or lies in one of its child subtrees. */
  predicate Within(m: Node, n: Node)
    decreases n
  {
    m == n || exists i :: 0 <= i < |n.children| && Within(m, n.children[i])
  }

  /** `m` lies strictly below `n`. */
  predicate Descendant(m: Node, n: Node)
  {
    exists i :: 0 <= i < |n.children| && Within(m, n.children[i])
  }

  // ---------------------------------------------------------------------
  // Symbols and the Resolver
  // ---------------------------------------------------------------------

  /** Kinds of resolved elements; `OtherElement` stands for every kind not listed. */
  datatype ElementKind =
    | Package | Enum | Class | AnnotationType | Interface | EnumConstant
    | Field | Method | Parameter | LocalVariable | ExceptionParameter
    | Constructor | StaticInit | InstanceInit | TypeParameter | ResourceVariable
    | OtherElement

  datatype Modifier =
    | Public | Protected | Private | Abstract | Default | Static | Sealed | NonSealed
    | Final | Transient | Volatile | Synchronized | Native | Strictfp

  /** A resolved declaration; two symbols are equal exactly when they denote the same declaration. */
  datatype Symbol = Symbol(id: nat, kind: ElementKind, modifiers: set<Modifier>)

  datatype DocComment = DocComment(body: string)

  /**
    The type checker's answers for one compilation unit: the element a node
    resolves to (absent when unresolved) and the doc comment attached to a
    declaration (absent when there is none).
   */
  datatype Resolver = Resolver(elements: map<NodeId, Symbol>, docComments: map<Symbol, DocComment>)

  /** The element the path's leaf resolves to, if any. */
  function ElementAt(res: Resolver, p: Path): (e: Option<Symbol>)
    requires |p| > 0
    ensures e.Some? <==> Leaf(p).id in res.elements
    ensures e.Some? ==> e.value == res.elements[Leaf(p).id]
  {
    if Leaf(p).id in res.elements then Some(res.elements[Leaf(p).id]) else None
  }

  /** The doc comment attached to a symbol, if any. */
  function DocCommentOf(res: Resolver, s: Symbol): (d: Option<DocComment>)
    ensures d.Some? <==> s in res.docComments
  {
    if s in res.docComments then Some(res.docComments[s]) else None
  }
}
