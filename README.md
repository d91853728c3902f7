# Inherit-doc resolution in TypeDoc, modelled in Dafny

TypeDoc builds a tree of *reflections*: one node per documented symbol.
Projects and declarations are containers. Declarations own call signatures.
Signatures own parameters. Each reflection may carry a comment. When the
converter resolves a container, `InheritDocPlugin.onResolve` walks every
descendant, children before parents. A descendant whose comment carries
`@inheritDoc <name>` gets the comment of the reflection that `<name>`
resolves to within the container. A signature that inherits from a function
or method declaration uses that declaration's signature at its own overload
position instead. The comment tag record `CommentTag` is modelled as well:
it stores the tag name and defaults the parameter name and the text to `""`.

Files and modules:

- `tags.dfy`, module `Tags`: `CommentTag` and its constructor `NewTag`.
- `comments.dfy`, module `Comments`: the comment record and `getTag`.
- `reflections.dfy`, module `Reflections`: the tree and the traversal order.
  The tree is an arena. `ReflectionTree.nodes` holds each reflection's
  structure; it is a `const`, so the pass can add or remove no reflection.
  `ReflectionTree.comments` holds each reflection's comment, which the pass
  replaces in place. This module also proves that the traversal reaches
  exactly the descendants, each once, children first.
- `inherit_doc.dfy`, module `InheritDocPlugin`: the pass. `OnResolve`,
  `Traverse` and `DescendantsCallback` are the plugin's recursive, in-place
  walk. They are proved equal to `PassResult`, a left fold of the one-node
  action `Step` over the traversal order.
- `inherit_doc_properties.dfy`, module `InheritDocProperties`: what one
  directive selects, and what the whole pass leaves in each comment.
- `scenario.dfy`, module `InheritDocScenario`: a worked case of overload
  alignment between `Base.run` and an overriding `Derived.run`.
- `arrays.dfy` (`indexOf`, no-duplicates) and `wrappers.dfy` (`Option`) are helpers.

Two collaborators are parameters of the pass, bundled in the datatype `Pass`.
Their bodies are not part of this model.

- `findReflectionByName(container, name)`. The model assumes only that it
  returns a reflection of the tree or nothing.
- `copyComment`. It is a function from the destination's comment and the
  source's comment to the destination's new comment. So it writes only the
  destination's comment.

Where the code is more specific than a prose account of the feature, the
model follows the code:

- Overload alignment needs three things: the item is a signature, the
  resolved source is a *declaration*, and that declaration is a function or
  method. For a signature that inherits from any other reflection, the source
  itself is copied.
- `DeclarationReflection` extends `ContainerReflection`. So the pass also
  runs when a declaration, not only the project, is resolved.
- The alignment index is `indexOf`. An item missing from its parent's
  signature list yields -1. `signatures[-1]` is undefined, so nothing is
  copied.

## Model

| member | source | states |
|---|---|---|
| `Tags.NewTag` | src/lib/models/comments/tag.ts:25-29 | `tagName` is the argument exactly. `paramName` and `text` are the argument when one is given (empty or not) and `""` when omitted. All three are strings. |
| `Tags.OrElse` | src/lib/models/comments/tag.ts:27-28 | JavaScript's logical-or default on an optional string: a non-empty value is kept; `undefined` and `""` give `b`. |
| `Tags.NewTagFromFields` | src/lib/models/comments/tag.ts:25-29 | Rebuilding a tag from its own three fields gives back the same tag. |
| `Tags.NewTagOmittedIsEmpty` | src/lib/models/comments/tag.ts:27-28 | Omitting the parameter name or the text builds the same tag as passing `""`. |
| `Comments.GetTag` | src/lib/converter/plugins/InheritDocPlugin.ts:58 | Returns nothing exactly when no tag has the name. Otherwise it returns a tag with that name, and no earlier tag has it. |
| `Arrays.IndexOf` | src/lib/converter/plugins/InheritDocPlugin.ts:77 | Returns -1 exactly when the element is absent. Otherwise it returns a position holding the element, with no occurrence before it. |
| `Reflections.IsContainer` | src/lib/converter/plugins/InheritDocPlugin.ts:54 | Every reflection except a signature or an other (non-container) reflection passes the `instanceof ContainerReflection` test. |
| `Reflections.ParentSignatures` | src/lib/converter/plugins/InheritDocPlugin.ts:77 | `item.parent.signatures`: the overload list of the item's parent, which comes earlier in the numbering. Every listed signature is a reflection of the tree. |
| `Reflections.OutsideNotVisited` | src/lib/converter/plugins/InheritDocPlugin.ts:55-57 | A reflection outside the start node's subtree is never handed to the callback. |
| `Reflections.Descendants` | src/lib/converter/plugins/InheritDocPlugin.ts:55-57 | Every reflection in the traversal order lies below the start node in the numbering, is in the tree and has a parent. |
| `Reflections.DescendantsExactly` | src/lib/converter/plugins/InheritDocPlugin.ts:55-57 | A reflection is visited if and only if the start node is on its parent chain. The callback returns `true`, so no subtree is skipped. |
| `Reflections.DescendantsDistinct` | src/lib/converter/plugins/InheritDocPlugin.ts:56 | No reflection is handed to the callback twice. |
| `Reflections.SubtreeBeforeNode` | src/lib/converter/plugins/InheritDocPlugin.ts:55-57 | Children first: each visited reflection comes right after its whole subtree, in that subtree's own order. |
| `Reflections.SubtreeVisitedFirst` | src/lib/converter/plugins/InheritDocPlugin.ts:55-57 | Any reflection inside `j`'s subtree is processed before `j`. |
| `InheritDocPlugin.Directive` | src/lib/converter/plugins/InheritDocPlugin.ts:57-58 | Without a comment there is no directive. With one, there is a directive exactly when some tag is named `inheritdoc`, and it is the `paramName` of the first such tag. |
| `InheritDocPlugin.Source` | src/lib/converter/plugins/InheritDocPlugin.ts:59-60 | A missing or empty directive resolves to nothing. A non-empty name resolves to whatever `findReflectionByName(container, name)` returns, which is a reflection of the tree or nothing. |
| `InheritDocPlugin.Aligns` | src/lib/converter/plugins/InheritDocPlugin.ts:62-70 | Overload alignment applies exactly when the item is a signature and the source is a function or method declaration. |
| `InheritDocPlugin.SignatureIndex` | src/lib/converter/plugins/InheritDocPlugin.ts:76-77 | With no parent list the index is 0. Otherwise it is -1 exactly when the item is absent, else the position of the item's first occurrence in the list. |
| `InheritDocPlugin.SignatureAt` | src/lib/converter/plugins/InheritDocPlugin.ts:78 | Yields a signature exactly when the list exists and the index is in range, and then the one at that index. |
| `InheritDocPlugin.Referenced` | src/lib/converter/plugins/InheritDocPlugin.ts:61-80 | The reflection to copy from, if any, is in the tree. A copy is possible only for an item that has a comment. |
| `InheritDocPlugin.Step` | src/lib/converter/plugins/InheritDocPlugin.ts:82-84 | Only the item's own comment can change. It changes only when a reflection is referenced, and then to the copy from that reflection's current comment. |
| `InheritDocPlugin.Run` | src/lib/converter/plugins/InheritDocPlugin.ts:55-86 | Acting on a sequence of reflections keeps the number of reflections. It leaves every reflection outside the sequence untouched. |
| `InheritDocPlugin.RunConcat` | src/lib/converter/plugins/InheritDocPlugin.ts:56 | Acting on `a` and then on `b` equals acting on `a + b`. This is how recursion into a subtree composes. |
| `InheritDocPlugin.PassResult` | src/lib/converter/plugins/InheritDocPlugin.ts:55-87 | What the pass does to the comments when a container is resolved: the number of reflections is kept, and no comment outside the container's subtree changes. |
| `InheritDocPlugin.OnResolve` | src/lib/converter/plugins/InheritDocPlugin.ts:53-54 | For a container, the new comments are `PassResult` of the old ones. For any other reflection, no comment changes. No reflection is added or removed. |
| `InheritDocPlugin.Traverse` | src/lib/converter/plugins/InheritDocPlugin.ts:87 | Handing each child to the callback in order turns the comments into `Run` over the node's traversal order. |
| `InheritDocPlugin.DescendantsCallback` | src/lib/converter/plugins/InheritDocPlugin.ts:55-86 | The item's subtree is processed first, then the item's own directive. It returns `true`. |
| `InheritDocProperties.MissingOrEmptyDirective` | src/lib/converter/plugins/InheritDocPlugin.ts:57-61 | With no comment, no `inheritdoc` tag, or an empty tag parameter, nothing is referenced. |
| `InheritDocProperties.BareDirectiveIsNoOp` | src/lib/models/comments/tag.ts:27 | A tag built without a parameter name gives the directive `""`, so nothing is referenced. |
| `InheritDocProperties.UnresolvedName` | src/lib/converter/plugins/InheritDocPlugin.ts:59-61 | A name that does not resolve references nothing, and no error is raised. |
| `InheritDocProperties.OverloadAlignment` | src/lib/converter/plugins/InheritDocPlugin.ts:62-78 | A signature inheriting from a function or method declaration references `source.signatures[i]`. Here `i` is its position in its parent's list, or 0 when the parent has no list. |
| `InheritDocProperties.AlignmentMissIsNoOp` | src/lib/converter/plugins/InheritDocPlugin.ts:76-82 | There is no fallback. Nothing is referenced when the item is missing from its parent's list, when the source has no signature list, or when the position is out of range. |
| `InheritDocProperties.OtherwiseCopiesSource` | src/lib/converter/plugins/InheritDocPlugin.ts:61-70 | When the item is not a signature, or the source is not a function or method declaration, the resolved reflection itself is referenced. |
| `InheritDocProperties.RunKeepsInert` | src/lib/converter/plugins/InheritDocPlugin.ts:82 | A reflection whose directive references nothing keeps its comment through any sequence of callback actions. |
| `InheritDocProperties.RunCopyAt` | src/lib/converter/plugins/InheritDocPlugin.ts:83 | A reflection occurring once ends with the copy of the referenced comment as it stood when the reflection was reached. |
| `InheritDocProperties.RunCopiesReferenced` | src/lib/converter/plugins/InheritDocPlugin.ts:82-84 | In a repetition-free order, the copy uses the referenced reflection's original comment, unless that reflection came earlier, in which case it uses its final comment. |
| `InheritDocProperties.PassOnlyTouchesDescendants` | src/lib/converter/plugins/InheritDocPlugin.ts:55-57 | The pass changes no comment outside the container's subtree, including the container's own comment. |
| `InheritDocProperties.PassKeepsInert` | src/lib/converter/plugins/InheritDocPlugin.ts:57-61 | A missing, empty or unresolved directive, or an alignment miss, leaves the reflection's comment exactly as before the pass. |
| `InheritDocProperties.PassCopiesReferenced` | src/lib/converter/plugins/InheritDocPlugin.ts:82-84 | A descendant whose directive references `r` ends with the copy of `r`'s comment. If `r` was processed before it, that is `r`'s final comment. Otherwise it is `r`'s comment before the pass. |
| `InheritDocProperties.PassResolvesSourceBelowFirst` | src/lib/converter/plugins/InheritDocPlugin.ts:55-57 | When the referenced reflection lies in the item's own subtree, the item copies that reflection's already-resolved comment. |
| `InheritDocScenario.SecondOverloadInheritsSecond` | src/lib/converter/plugins/InheritDocPlugin.ts:71-78 | Overloads are matched by position. For any `copyComment`, the second overload of `Derived.run` copies the second overload of `Base.run`, and every other comment stays as it was. |

## Left out

- `copyComment` (src/lib/converter/utils/reflections.ts) is not part of this model. It is a parameter of the pass. Which fields it copies and how it merges tags are not modelled. The model only lets it replace the destination's comment. So the pass's idempotence, and any per-tag merge policy, are not stated.
- `findReflectionByName` (src/lib/models/reflections/abstract.ts) is not part of this model. It is a parameter. The only assumption is that it returns a reflection of the tree or nothing. Scoping and dotted-path rules are not modelled.
- `Comment.getTag` (src/lib/models/comments/comment.ts) is not part of this model. `GetTag` takes it as the first tag with exactly that name. Case normalisation of tag names happens in the comment parser, outside this core.
- `Reflection.traverse` is not part of this model. A node's `children` sequence stands for everything `traverse` visits: children, signatures, parameters and type parameters, in visiting order. `Traverse` models its early exit when the callback returns false. That exit never happens here, because the callback always returns true.
- Event subscription and the priority value -200 (InheritDocPlugin.ts:32-41) are pipeline scheduling, not logic of the pass. The unused `_context` argument is dropped.
- `instanceof` tests on the reflection class hierarchy become the `Kind` datatype. `Declaration(true)` stands for `kindOf(ReflectionKind.FunctionOrMethod)`.
- Acyclicity is encoded by numbering every child after its parent. Any finite tree can be numbered this way.
- A signature without a parent would make `item.parent.signatures` throw. A well-formed tree gives every visited descendant a parent, and `Step` requires one.
- src/lib/converter/plugins/PackagePlugin.ts is filesystem and option plumbing. src/lib/output/themes/default/partials/member.tsx is HTML rendering. Neither is part of this model.
