# Editor analyses of a Java language server, modelled in Dafny

This project models three analyses that the language server runs over a
compilation unit javac has already parsed and attributed:

- **Semantic highlighting** (`SemanticHighlighter`). It walks the tree in
  pre-order. Every identifier, member select, variable, class and method
  declaration name goes into at most one of seventeen element-kind
  buckets. Nothing is recorded for the names `this`, `super` and `class`,
  for a name that does not resolve, for a name whose position is unknown,
  or for an element of a kind the table does not list (a record, a module
  or a binding variable, for example). The callee name of every method
  invocation whose callee is an identifier or a member select goes into an
  eighteenth bucket. The name's text range is located with `find`. The
  walk also collects the doc comments of variable, class and method
  declarations.
- **Find references** (`FindReferences`). It walks the tree in pre-order and
  appends the path of every identifier, member select, `new` expression and
  member reference whose resolved element equals the element searched for.
- **Find variable at** (`FindVariableAt`). It reduces the tree bottom-up to
  the innermost variable declaration whose own span `[start, end)` contains
  an offset.

The model replaces javac with a small tree (`Syntax.Node`). Each node has an
id, a kind, a simple name, `[start, end)` offsets in the unit's text (-1
when unknown), and its children in source order. A member select also
records where its qualifier ends, and a variable declaration where its
declared type ends. Symbol resolution and doc-comment lookup are maps
(`Syntax.Resolver`), and the unit's text is a `seq<char>` parameter.
As in Java strings, each `char` of the text stands for one UTF-16 code
unit. Every offset, every span and the index `indexOf` returns count those
code units.

The shared objects that the source updates in place are classes here:

- the bucket lists (`Semantics.SemanticHighlight`);
- the highlighter with its `docs` list (`Semantics.SemanticHighlighter`);
- the reference list (`Navigation.PathList`).

Their scan methods are proved against specification functions over the
pre-order walk: `Highlights`, `Docs` and `References` applied to
`PreOrder`. The lemmas state what those functions mean.

Three behaviours of the highlighter are modelled as written:

- the result of `indexOf` is used without checking for -1;
- an invocation's callee name is searched inside the whole invocation;
- the invocation branch compares the range only with null, so the
  no-range sentinel can be recorded.

Lemmas in `SemanticFacts` exhibit each of them on a concrete input.

Sibling order in find variable at: `reduce(r1, r2)` keeps `r1` when it is
non-null. The tree scanner passes the newly scanned child's result as `r1`
and the result so far as `r2`. So among sibling subtrees that both hold a
match, the model returns the match of the later sibling, as the code does
(`Rewrite.LastMatchingChild`, `Rewrite.OverlappingSiblings`). When only
one sibling subtree matches, the order makes no difference
(`Rewrite.SingleMatchingChild`). Sibling spans do overlap in a compound
declaration such as `int a = 1, b = 2;`. Its two declarations share the
declared type, so both start at the type, and an offset on `a` lies in
both spans. That case is recorded under Findings.

Two consequences of the code show on the unit
`class A { int x; void m(){ int y = x; } }` (`UnitScenario`):

- Every resolved use of a field is highlighted as a field. The `x` in
  `int y = x;` goes into the fields bucket next to the field's declaration,
  so that bucket holds two ranges, `[14, 15)` and `[35, 36)`.
- A variable declaration's span includes its initializer. An offset on a
  name inside the initializer, such as the `x` at 35, therefore lies in
  the span `[27, 36)` of `y`, and find variable at returns `y`.

## Model

| member | source | states |
|---|---|---|
| `Semantics.IndexOf` | src/main/java/org/javacs/semantics/SemanticHighlighter.java:210 | -1 exactly when the name does not occur in the region; otherwise an index where it occurs, with no occurrence before it |
| `Semantics.Find` | src/main/java/org/javacs/semantics/SemanticHighlighter.java:186-213 | The no-range sentinel exactly when the trimmed start or the end is -1. Otherwise a range as long as the name. If the name occurs in the region, the range lies inside it, covers text equal to the name and is its first occurrence. If not, the range starts one before the region |
| `Semantics.FindExact` | src/main/java/org/javacs/semantics/SemanticHighlighter.java:209-211 | A name that occurs once in the search region, at offset j, gets exactly the range from trimmed start + j, as long as the name |
| `Semantics.KindCategory` | src/main/java/org/javacs/semantics/SemanticHighlighter.java:84-168 | Each listed element kind has exactly one bucket, and that bucket maps back to the kind. A field goes to statics exactly when it has the static modifier, else to fields. Unlisted kinds have no bucket. No element goes to the invocation bucket |
| `Semantics.KindTableCovers` | src/main/java/org/javacs/semantics/SemanticHighlighter.java:84-168 | Every declaration bucket is reached by its element kind (statics with the static modifier) |
| `Semantics.Classify` | src/main/java/org/javacs/semantics/SemanticHighlighter.java:63-168 | Nothing is recorded exactly when the name is `this`/`super`/`class`, the leaf is unresolved, the position is unknown, or the kind is unlisted. Otherwise the range is `find`'s, a real range as long as the name, in the bucket of the element's kind |
| `Semantics.InvocationHighlight` | src/main/java/org/javacs/semantics/SemanticHighlighter.java:243-258 | Something is recorded exactly for an invocation whose callee is an identifier or a member select. It goes in the invocation bucket, with the range `find` gives on the invocation's own path |
| `Semantics.DocFor` | src/main/java/org/javacs/semantics/SemanticHighlighter.java:171-184 | A doc comment exactly when the leaf resolves and its element has one, and then it is that element's comment |
| `Semantics.SemanticHighlighter.constructor` | src/main/java/org/javacs/semantics/SemanticHighlighter.java:50-57 | A new highlighter over the given resolver and text, with no docs collected |
| `Semantics.SemanticHighlighter.PutSemantics` | src/main/java/org/javacs/semantics/SemanticHighlighter.java:63-169 | The buckets become the old buckets with the classified highlight (if any) appended to its own bucket |
| `Semantics.SemanticHighlighter.MayHaveDoc` | src/main/java/org/javacs/semantics/SemanticHighlighter.java:171-184 | `docs` grows by the element's doc comment when both exist, and otherwise stays as it was |
| `Semantics.SemanticHighlighter.VisitMethodInvocation` | src/main/java/org/javacs/semantics/SemanticHighlighter.java:242-261 | The buckets grow by the invocation's highlight, if any, in the invocation bucket |
| `Semantics.SemanticHighlighter.Visit` | src/main/java/org/javacs/semantics/SemanticHighlighter.java:215-268 | One node's handler. Buckets grow by that node's highlights and `docs` by its declaration doc comment, each bucket keeping every category |
| `Semantics.SemanticHighlighter.Scan` | src/main/java/org/javacs/semantics/SemanticHighlighter.java:215-268 | After scanning a subtree, the buckets and docs are the old ones extended by the highlights and doc comments of its whole pre-order walk |
| `Semantics.HighlightUnit` | src/main/java/org/javacs/semantics/SemanticHighlighter.java:43-61 | Fresh buckets hold, per category, the ranges of that category along the unit's pre-order walk. The returned docs are the walk's doc comments |
| `SemanticFacts.PutSemanticsEffect` | src/main/java/org/javacs/semantics/SemanticHighlighter.java:63-168 | In the rejected cases no bucket changes. Otherwise exactly the element kind's bucket grows by the located range, and every other bucket is unchanged |
| `SemanticFacts.BucketMembers` | src/main/java/org/javacs/semantics/SemanticHighlighter.java:84-168 | A range is in a category's bucket exactly when that highlight was recorded |
| `SemanticFacts.HighlightOrigin` | src/main/java/org/javacs/semantics/SemanticHighlighter.java:215-268 | A highlight is recorded along a walk exactly when some visited node's handler records it |
| `SemanticFacts.NodeHighlightFacts` | src/main/java/org/javacs/semantics/SemanticHighlighter.java:215-268 | A node records at most one highlight. An invocation records its callee's located range. A name-bearing node records its name's located range in its element's bucket, never for a pseudo-name |
| `SemanticFacts.DeclarationBucketOrigin` | src/main/java/org/javacs/semantics/SemanticHighlighter.java:63-168 | Each range in a declaration bucket is a real range. It is the located name of a visited, resolved, non-pseudo name whose element kind maps to that bucket, and is as long as the name |
| `SemanticFacts.ClassifiedNamesRecorded` | src/main/java/org/javacs/semantics/SemanticHighlighter.java:215-240 | Every name the classifier accepts along the walk ends up in its element's bucket |
| `SemanticFacts.InvocationBucket` | src/main/java/org/javacs/semantics/SemanticHighlighter.java:243-258 | The invocation bucket holds exactly the located callee names of visited invocations whose callee is an identifier or a member select |
| `SemanticFacts.DocsOrigin` | src/main/java/org/javacs/semantics/SemanticHighlighter.java:171-184 | A doc comment is collected exactly when some visited variable, class or method declaration resolves to an element that has it |
| `SemanticFacts.InvocationRecordsRangeNone` | src/main/java/org/javacs/semantics/SemanticHighlighter.java:253-257 | An invocation without a known position still records the no-range sentinel in the invocation bucket |
| `SemanticFacts.InvocationSearchesWholeCall` | src/main/java/org/javacs/semantics/SemanticHighlighter.java:245-256 | In `get.get()` the qualifier's `get` at `[0, 3)` is recorded. The call `this(1)` records `this` at `[0, 4)` |
| `SemanticFacts.MissingNameShiftsBack` | src/main/java/org/javacs/semantics/SemanticHighlighter.java:209-211 | A name missing from the region `ab` is located at `[-1, 0)` |
| `SemanticFacts.FindSkipsQualifier` | src/main/java/org/javacs/semantics/SemanticHighlighter.java:195-197 | In `x.x` the selected `x` is located at `[2, 3)`, after the qualifier |
| `SemanticFacts.FindSkipsType` | src/main/java/org/javacs/semantics/SemanticHighlighter.java:198-201 | In `intx x` the variable `x` is located at `[5, 6)`, after the declared type. The first `x` of the whole declaration is at 3, inside the type |
| `UnitScenario.UnitHighlights` | src/main/java/org/javacs/semantics/SemanticHighlighter.java:215-240 | On `class A { int x; void m(){ int y = x; } }` the walk records, in order, the class name at `[6, 7)`, the field at `[14, 15)`, the method name at `[22, 23)`, the local at `[31, 32)` and the field's use at `[35, 36)` as a field |
| `UnitScenario.UnitBuckets` | src/main/java/org/javacs/semantics/SemanticHighlighter.java:115-121 | On the same unit the fields bucket is exactly `[14, 15)` then `[35, 36)`: the use of the field lands in the same bucket as its declaration. The class, method and local buckets hold one range each |
| `Navigation.FindReferences.constructor` | src/main/java/org/javacs/navigation/FindReferences.java:32-35 | The finder keeps the resolver and the element searched for |
| `Navigation.FindReferences.Check` | src/main/java/org/javacs/navigation/FindReferences.java:69-72 | True exactly when the path's element equals the element searched for, so never for an unresolved path |
| `Navigation.FindReferences.Visit` | src/main/java/org/javacs/navigation/FindReferences.java:37-67 | The list grows by the path exactly when the node is one of the four reference kinds and resolves to the element. Nothing else changes |
| `Navigation.FindReferences.Scan` | src/main/java/org/javacs/navigation/FindReferences.java:28-73 | After scanning a subtree, the list is the old list followed by the reference paths of its pre-order walk |
| `Navigation.FindAll` | src/main/java/org/javacs/navigation/FindReferences.java:28-73 | A fresh list ends as exactly the reference paths of the unit's pre-order walk |
| `Navigation.ReferencesExactly` | src/main/java/org/javacs/navigation/FindReferences.java:37-72 | A path is reported exactly when it is visited, is an identifier, member select, `new` or member reference, and resolves to the element |
| `Navigation.NeverReported` | src/main/java/org/javacs/navigation/FindReferences.java:69-72 | Unresolved nodes, and nodes of every kind without a reference handler, are never reported |
| `Navigation.ReferencesInWalkOrder` | src/main/java/org/javacs/navigation/FindReferences.java:38-67 | The reported paths are a subsequence of the walk: in pre-order, each visit contributing at most once |
| `Navigation.SubsequenceFacts` | src/main/java/org/javacs/navigation/FindReferences.java:38-67 | A subsequence is no longer than the walk, and every entry in it was visited |
| `Navigation.FieldUsedOnce` | src/main/java/org/javacs/navigation/FindReferences.java:37-72 | In `class A { int x; void m(){ int y = x; } }` the references to the field `x` are exactly the one use in `m`, and the declaration is not one of them |
| `UnitScenario.DeclarationCoversInitializer` | src/main/java/org/javacs/rewrite/FindVariableAt.java:41-50 | On the same unit, offset 35 (the `x` in `int y = x;`) finds `y`, whose span `[27, 36)` includes its initializer. Offset 14 finds the field, and offset 22 (the method name) finds nothing |
| `Rewrite.Reduce` | src/main/java/org/javacs/rewrite/FindVariableAt.java:52-56 | The first argument when it is present, otherwise the second |
| `Rewrite.Scan` | src/main/java/org/javacs/rewrite/FindVariableAt.java:40-50 | Any result is a variable declaration inside the scanned subtree whose own span contains the offset |
| `Rewrite.ScanChildren` | src/main/java/org/javacs/rewrite/FindVariableAt.java:52-56 | Any result is a containing variable declaration inside one of the children |
| `Rewrite.FindVariableAt` | src/main/java/org/javacs/rewrite/FindVariableAt.java:34-38 | Any result is a variable declaration of the unit whose span, in the unit's own offsets, contains the offset |
| `Rewrite.NoneIffNoContainer` | src/main/java/org/javacs/rewrite/FindVariableAt.java:46-49 | Nothing is found exactly when no variable declaration in the tree contains the offset |
| `Rewrite.LastMatchingChild` | src/main/java/org/javacs/rewrite/FindVariableAt.java:52-56 | A children scan returns the match of the last child subtree that has one |
| `Rewrite.SingleMatchingChild` | src/main/java/org/javacs/rewrite/FindVariableAt.java:52-56 | When only one child subtree has a match, that match is returned |
| `Rewrite.Innermost` | src/main/java/org/javacs/rewrite/FindVariableAt.java:42-45 | No variable declaration strictly inside the one returned contains the offset |
| `Rewrite.ContainerFound` | src/main/java/org/javacs/rewrite/FindVariableAt.java:41-48 | A declaration containing the offset yields itself or a declaration inside it |
| `Rewrite.HalfOpenBoundaries` | src/main/java/org/javacs/rewrite/FindVariableAt.java:46 | A declaration over `[10, 20)` is found at 10 and 19, and not at 9 or 20 |
| `Rewrite.OverlappingSiblings` | src/main/java/org/javacs/rewrite/FindVariableAt.java:52-56 | With overlapping sibling declarations the later sibling's match is returned |
| `Rewrite.CompoundDeclarationPicksLast` | src/main/java/org/javacs/rewrite/FindVariableAt.java:52-56 | In `int a = 1, b = 2;` an offset on `a` (4) finds `b`, and an offset on `b` (11) finds `b` |
| `Rewrite.ReduceFirst` | src/main/java/org/javacs/rewrite/FindVariableAt.java:52-56 | Corrected reduction: the result so far when present, otherwise the new child's result |
| `Rewrite.ScanFirst` | src/main/java/org/javacs/rewrite/FindVariableAt.java:40-56 | With the corrected reduction, any result is still a containing variable declaration inside the subtree |
| `Rewrite.ScanChildrenFirst` | src/main/java/org/javacs/rewrite/FindVariableAt.java:52-56 | With the corrected reduction, any result is a containing declaration inside one of the children |
| `Rewrite.FindVariableAtFirst` | src/main/java/org/javacs/rewrite/FindVariableAt.java:34-56 | With the corrected reduction, any result is a containing variable declaration of the unit |
| `Rewrite.NoneChildrenFirst` | src/main/java/org/javacs/rewrite/FindVariableAt.java:52-56 | The corrected children scan finds nothing exactly when no child subtree has a match |
| `Rewrite.FirstMatchingChild` | src/main/java/org/javacs/rewrite/FindVariableAt.java:52-56 | With the corrected reduction, a children scan returns the match of the first child subtree that has one |
| `Rewrite.CompoundDeclarationPicksFirst` | src/main/java/org/javacs/rewrite/FindVariableAt.java:52-56 | With the corrected reduction, in `int a = 1, b = 2;` an offset on `a` finds `a` and an offset on `b` finds `b` |

## Left out

- Cancellation (`checker.checkCanceled()`) is not modelled: the walk always runs to completion.
- The `task == null` runtime exception in `putSemantics` is not modelled, because the resolver is always present.
- The `Logger` field is not modelled; it is unused.
- `RangeHelper.range` is not part of this model. Ranges are kept as `[start, end)` offset pairs in the unit's text, where the source turns them into line and column positions.
- Reading the source file (`Paths.get`, `FileStore.contents`) is replaced by the text parameter.
- Semantics.Find: requires that a known search region lies inside the text (`Readable`). The source would throw from `substring` (line 209) otherwise; that exception path is not modelled.
- Semantics.SemanticHighlighter.Scan: requires `Readable` of every node of the subtree (`Positioned`). That is stronger than the source needs. Only nodes that reach `find` use their positions: resolved name-bearing nodes that are not `this`/`super`/`class`, and invocations whose callee is an identifier or a member select. Positions javac produces meet the stronger requirement.
- Semantics.HighlightUnit: requires `Positioned` of the whole unit, for the same reason and with the same excess as the scan.
- Rewrite.FindVariableAt: the `root` field set in `visitCompilationUnit` is not modelled as state. Every node's offsets are already measured in its compilation unit, so the unit passed in plays the role of `root`.
- javac's `Trees`, `DocTrees`, `SourcePositions`, `TreePathScanner` and `TreeScanner` are not part of this model. They become the node datatype, the resolver maps and the `PreOrder`/`Scan` recursions.
- Nodes are visited only in the order the model's tree lists its children. Which javac child slots (modifiers, type, initializer, …) a kind has is not modelled.
- `DataBreakpointInfoArguments` is a plain data holder with no logic, and is not part of this model.

## Findings

| source | as written | input that shows it | evidently intended | confidence | as-written member | corrected member |
|---|---|---|---|---|---|---|
| src/main/java/org/javacs/rewrite/FindVariableAt.java:52-56 | `reduce` keeps its first argument. The scanner passes the newly scanned child there, so when two sibling declarations contain the offset, the later one is returned | `int a = 1, b = 2;` with the offset on `a`: both declarations start at the shared type, and `b` is returned | the declaration the offset is on, `a`, by keeping the earlier sibling's match | medium, not executed; it rests on the shared start position javac gives compound declarations | `Rewrite.CompoundDeclarationPicksLast` | `Rewrite.FindVariableAtFirst` |
