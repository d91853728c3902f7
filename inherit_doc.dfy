/**
 * The inherit-doc plugin: when a container reflection is resolved, every
 * descendant whose comment carries `@inheritDoc <name>` receives the comment
 * of the reflection that <name> resolves to.
 *
 * The pass is modelled twice: as the recursive methods `Traverse` and
 * `DescendantsCallback`, which update `ReflectionTree.comments` in place the
 * way the plugin does, and as the function `PassResult`, a left fold of
 * `Step` over the traversal order, against which the methods are proved.
 */
module InheritDocPlugin {
  import opened Wrappers
  import opened Arrays
  import opened Tags
  import opened Comments
  import opened Reflections

  /** The tag that carries the directive; tag names are stored in lower case. */
  const InheritDocTagName := "inheritdoc"

  /** `findReflectionByName` returned either nothing or a reflection of the tree. */
  predicate InTree(r: Option<nat>, size: nat)
  {
    r.Some? ==> r.value < size
  }

  /**
   * One run of the pass: the tree's structure, the resolved container, and
   * the two collaborators whose bodies are not part of this model —
   * `findReflectionByName(container, name)` and `copyComment`, here a function
   * from the destination's comment and the source's comment to the
   * destination's new comment.
   */
  datatype Pass = Pass(
    nodes: seq<Node>,
    container: nat,
    findReflectionByName: (nat, string) -> Option<nat>,
    copyComment: (Comment, Option<Comment>) -> Comment)
  {
    ghost predicate Valid()
    {
      && WellFormed(nodes)
      && container < |nodes|
      && forall name: string :: InTree(findReflectionByName(container, name), |nodes|)
    }
  }

  /** `item.comment?.getTag("inheritdoc")?.paramName` */
  function Directive(comment: Option<Comment>): (r: Option<string>)
    ensures comment.None? ==> r.None?
    ensures comment.Some? ==> (r.Some? <==> GetTag(comment.value.tags, InheritDocTagName).Some?)
    ensures r.Some? ==> r.value == GetTag(comment.value.tags, InheritDocTagName).value.paramName
  {
    match comment
    case None => None
    case Some(c) =>
      match GetTag(c.tags, InheritDocTagName)
      case None => None
      case Some(tag) => Some(tag.paramName)
  }

  /**
   * `inheritDoc && reflection.findReflectionByName(inheritDoc)`: an absent or
   * empty name is falsy and short-circuits to a value that is no reflection.
   */
  function Source(p: Pass, comment: Option<Comment>): (r: Option<nat>)
    requires p.Valid()
    ensures r.Some? ==> r.value < |p.nodes|
    ensures Directive(comment).None? || Directive(comment).value == "" ==> r.None?
    ensures Directive(comment).Some? && Directive(comment).value != "" ==>
      r == p.findReflectionByName(p.container, Directive(comment).value)
  {
    match Directive(comment)
    case None => None
    case Some(name) => if name == "" then None else p.findReflectionByName(p.container, name)
  }

  /** `item.parent.signatures?.indexOf(item) ?? 0` */
  function SignatureIndex(parentSignatures: Option<seq<nat>>, item: nat): (i: int)
    ensures parentSignatures.None? ==> i == 0
    ensures parentSignatures.Some? ==>
      (i == -1 <==> item !in parentSignatures.value)
      && (0 <= i ==> i < |parentSignatures.value| && parentSignatures.value[i] == item)
      && (0 <= i ==> item !in parentSignatures.value[..i])
  {
    match parentSignatures
    case None => 0
    case Some(sigs) => IndexOf(sigs, item)
  }

  /** `source.signatures?.[index]`: undefined for a missing list and for any index out of range. */
  function SignatureAt(signatures: Option<seq<nat>>, index: int): (r: Option<nat>)
    ensures r.Some? <==> signatures.Some? && 0 <= index < |signatures.value|
    ensures r.Some? ==> r.value == signatures.value[index]
  {
    match signatures
    case None => None
    case Some(sigs) => if 0 <= index < |sigs| then Some(sigs[index]) else None
  }

  /** The overload alignment applies: a signature inherits from a function or method declaration. */
  predicate Aligns(p: Pass, item: nat, source: nat): (b: bool)
    requires item < |p.nodes| && source < |p.nodes|
    ensures b <==> p.nodes[source].kind == Declaration(true) && p.nodes[item].kind == Signature
  {
    p.nodes[source].kind.Declaration? && p.nodes[item].kind.Signature?
    && p.nodes[source].kind.functionOrMethod
  }

  /**
   * `referencedReflection`: the reflection whose comment `item` (with comment
   * `comment`) copies, or `None` when nothing is copied.
   */
  function Referenced(p: Pass, item: nat, comment: Option<Comment>): (r: Option<nat>)
    requires p.Valid() && item < |p.nodes| && p.nodes[item].parent.Some?
    ensures r.Some? ==> r.value < |p.nodes| && comment.Some?
  {
    var source := Source(p, comment);
    if source.Some? && Aligns(p, item, source.value) then
      assert NodeWellFormed(p.nodes, source.value);
      SignatureAt(p.nodes[source.value].signatures, SignatureIndex(ParentSignatures(p.nodes, item), item))
    else
      source
  }

  /** The callback's action on `item` once its subtree is done: only `item`'s comment may change. */
  function Step(p: Pass, cs: seq<Option<Comment>>, item: nat): (r: seq<Option<Comment>>)
    requires p.Valid() && |cs| == |p.nodes| && item < |p.nodes| && p.nodes[item].parent.Some?
    ensures |r| == |cs|
    ensures forall j :: 0 <= j < |cs| && j != item ==> r[j] == cs[j]
    ensures Referenced(p, item, cs[item]).None? ==> r == cs
    ensures Referenced(p, item, cs[item]).Some? ==>
      r[item] == Some(p.copyComment(cs[item].value, cs[Referenced(p, item, cs[item]).value]))
  {
    match Referenced(p, item, cs[item])
    case None => cs
    case Some(ref) => cs[item := Some(p.copyComment(cs[item].value, cs[ref]))]
  }

  /**
   * The comments after the callback has acted on each reflection of `order`
   * in turn; reflections outside `order` keep their comment.
   */
  function Run(p: Pass, cs: seq<Option<Comment>>, order: seq<nat>): (r: seq<Option<Comment>>)
    requires p.Valid() && |cs| == |p.nodes| && Visitable(p.nodes, order)
    ensures |r| == |cs|
    ensures forall j :: 0 <= j < |cs| && j !in order ==> r[j] == cs[j]
    decreases |order|
  {
    if order == [] then cs
    else
      var n := |order|;
      Step(p, Run(p, cs, order[..n - 1]), order[n - 1])
  }

  /** What the pass does to the comments when the container is resolved. */
  function PassResult(p: Pass, cs: seq<Option<Comment>>): (r: seq<Option<Comment>>)
    requires p.Valid() && |cs| == |p.nodes|
    ensures |r| == |cs|
    ensures forall j :: 0 <= j < |cs| && !IsAncestor(p.nodes, p.container, j) ==> r[j] == cs[j]
  {
    OutsideNotVisited(p.nodes, p.container);
    Run(p, cs, Descendants(p.nodes, p.container))
  }

  /** Acting on `a` and then on `b` is acting on `a + b`. */
  lemma {:induction false} RunConcat(p: Pass, cs: seq<Option<Comment>>, a: seq<nat>, b: seq<nat>)
    requires p.Valid() && |cs| == |p.nodes| && Visitable(p.nodes, a) && Visitable(p.nodes, b)
    ensures Visitable(p.nodes, a + b)
    ensures Run(p, cs, a + b) == Run(p, Run(p, cs, a), b)
    decreases |b|
  {
    assert Visitable(p.nodes, a + b) by {
      forall k | 0 <= k < |a + b| ensures (a + b)[k] < |p.nodes| && p.nodes[(a + b)[k]].parent.Some? {
        if k >= |a| {
          assert (a + b)[k] == b[k - |a|];
        }
      }
    }
    if b == [] {
      assert a + b == a;
    } else {
      var n := |b|;
      var init := b[..n - 1];
      assert (a + b)[..|a + b| - 1] == a + init;
      assert (a + b)[|a + b| - 1] == b[n - 1];
      assert Visitable(p.nodes, init) by {
        forall k | 0 <= k < |init| ensures init[k] < |p.nodes| && p.nodes[init[k]].parent.Some? {
          assert init[k] == b[k];
        }
      }
      RunConcat(p, cs, a, init);
    }
  }

  /** Acting on one more reflection is one more `Step`. */
  lemma RunSnoc(p: Pass, cs: seq<Option<Comment>>, order: seq<nat>, item: nat)
    requires p.Valid() && |cs| == |p.nodes| && Visitable(p.nodes, order)
    requires item < |p.nodes| && p.nodes[item].parent.Some?
    ensures Visitable(p.nodes, order + [item])
    ensures Run(p, cs, order + [item]) == Step(p, Run(p, cs, order), item)
  {
  }

  /** One more child of `node` handed to the callback extends the fold by that child's block. */
  lemma RunForestSnoc(p: Pass, cs: seq<Option<Comment>>, node: nat, k: nat)
    requires p.Valid() && |cs| == |p.nodes| && node < |p.nodes|
    requires NodeWellFormed(p.nodes, node) && k < |p.nodes[node].children|
    ensures var children := p.nodes[node].children;
      Run(p, cs, Forest(p.nodes, node, children[..k + 1]))
      == Run(p, Run(p, cs, Forest(p.nodes, node, children[..k])),
             Descendants(p.nodes, children[k]) + [children[k]])
  {
    var children := p.nodes[node].children;
    ForestSnoc(p.nodes, node, children, k);
    RunConcat(p, cs, Forest(p.nodes, node, children[..k]), Descendants(p.nodes, children[k]) + [children[k]]);
  }

  /** `onResolve(context, reflection)`: the pass runs only for a container. */
  method OnResolve(
    tree: ReflectionTree,
    reflection: nat,
    findReflectionByName: (nat, string) -> Option<nat>,
    copyComment: (Comment, Option<Comment>) -> Comment)
    requires tree.Valid() && reflection < |tree.nodes|
    requires forall name: string :: InTree(findReflectionByName(reflection, name), |tree.nodes|)
    modifies tree
    ensures tree.Valid()
    ensures IsContainer(tree.nodes[reflection].kind) ==>
      tree.comments
      == PassResult(Pass(tree.nodes, reflection, findReflectionByName, copyComment), old(tree.comments))
    ensures !IsContainer(tree.nodes[reflection].kind) ==> tree.comments == old(tree.comments)
  {
    if IsContainer(tree.nodes[reflection].kind) {
      var p := Pass(tree.nodes, reflection, findReflectionByName, copyComment);
      Traverse(tree, p, reflection);
    }
  }

  /**
   * `node.traverse(descendantsCallback)`: hands each child to the callback
   * in order, stopping early should the callback return false.
   */
  method Traverse(tree: ReflectionTree, p: Pass, node: nat)
    requires tree.Valid() && p.Valid() && p.nodes == tree.nodes && node < |tree.nodes|
    modifies tree
    ensures tree.Valid()
    ensures tree.comments == Run(p, old(tree.comments), Descendants(p.nodes, node))
    decreases |tree.nodes| - node, 0
  {
    assert NodeWellFormed(tree.nodes, node);
    var children := tree.nodes[node].children;
    ghost var cs0 := tree.comments;
    var k, more := 0, true;
    while k < |children| && more
      invariant 0 <= k <= |children| && more
      invariant tree.Valid()
      invariant tree.comments == Run(p, cs0, Forest(p.nodes, node, children[..k]))
    {
      var c := children[k];
      RunForestSnoc(p, cs0, node, k);
      more := DescendantsCallback(tree, p, c);
      k := k + 1;
    }
    assert children[..k] == children;
  }

  /**
   * `descendantsCallback(item)`: first the subtree of `item`, then the
   * directive on `item` itself; always asks the traversal to go on.
   */
  method DescendantsCallback(tree: ReflectionTree, p: Pass, item: nat) returns (more: bool)
    requires tree.Valid() && p.Valid() && p.nodes == tree.nodes
    requires item < |tree.nodes| && tree.nodes[item].parent.Some?
    modifies tree
    ensures tree.Valid()
    ensures tree.comments == Run(p, old(tree.comments), Descendants(p.nodes, item) + [item])
    ensures more
    decreases |tree.nodes| - item, 1
  {
    ghost var cs0 := tree.comments;
    Traverse(tree, p, item);
    ghost var visited := tree.comments;
    RunSnoc(p, cs0, Descendants(p.nodes, item), item);

    var inheritDoc := Directive(tree.comments[item]);
    var source: Option<nat> := None;
    if inheritDoc.Some? && inheritDoc.value != "" {
      source := p.findReflectionByName(p.container, inheritDoc.value);
    }
    assert NodeWellFormed(tree.nodes, item);
    var referenced := source;
    if source.Some? && tree.nodes[source.value].kind.Declaration? && tree.nodes[item].kind.Signature? {
      var isFunction := tree.nodes[source.value].kind.functionOrMethod;
      if isFunction {
        var parent := tree.nodes[item].parent.value;
        var itemIndex := SignatureIndex(tree.nodes[parent].signatures, item);
        referenced := SignatureAt(tree.nodes[source.value].signatures, itemIndex);
      }
    }
    assert referenced == Referenced(p, item, visited[item]);

    if referenced.Some? {
      tree.comments := tree.comments[item := Some(p.copyComment(tree.comments[item].value, tree.comments[referenced.value]))];
    }
    assert tree.comments == Step(p, visited, item);
    more := true;
  }
}
