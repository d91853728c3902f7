/**
 * What the inherit-doc pass guarantees: first for the decision taken on one
 * reflection (which reflection, if any, its comment is copied from), then
 * for the whole pass over a container.
 */
module InheritDocProperties {
  import opened Wrappers
  import opened Arrays
  import opened Tags
  import opened Comments
  import opened Reflections
  import opened InheritDocPlugin

  /** `i` is where `item` stands in its parent's overload list; 0 when the parent has no list. */
  predicate OverloadPosition(parentSignatures: Option<seq<nat>>, item: nat, i: nat)
  {
    match parentSignatures
    case None => i == 0
    case Some(sigs) => i < |sigs| && sigs[i] == item && item !in sigs[..i]
  }

  /** No comment, no `@inheritDoc` tag, or a tag without a name: nothing is copied. */
  lemma MissingOrEmptyDirective(p: Pass, item: nat, comment: Option<Comment>)
    requires p.Valid() && item < |p.nodes| && p.nodes[item].parent.Some?
    requires || comment.None?
             || GetTag(comment.value.tags, InheritDocTagName).None?
             || GetTag(comment.value.tags, InheritDocTagName).value.paramName == ""
    ensures Referenced(p, item, comment).None?
  {
  }

  /**
   * A directive written as a bare `@inheritDoc`: `new CommentTag("inheritdoc")`
   * stores `""` as the target, so the directive is a no-op.
   */
  lemma BareDirectiveIsNoOp(p: Pass, item: nat, comment: Comment, text: Option<string>)
    requires p.Valid() && item < |p.nodes| && p.nodes[item].parent.Some?
    requires GetTag(comment.tags, InheritDocTagName) == Some(NewTag(InheritDocTagName, None, text))
    ensures Directive(Some(comment)) == Some("")
    ensures Referenced(p, item, Some(comment)).None?
  {
  }

  /** A name that does not resolve within the container: nothing is copied, and this is no error. */
  lemma UnresolvedName(p: Pass, item: nat, comment: Comment, name: string)
    requires p.Valid() && item < |p.nodes| && p.nodes[item].parent.Some?
    requires Directive(Some(comment)) == Some(name)
    requires p.findReflectionByName(p.container, name).None?
    ensures Referenced(p, item, Some(comment)).None?
  {
  }

  /**
   * Overload alignment: a signature that inherits from a function or method
   * declaration copies the source's signature at its own position.
   */
  lemma OverloadAlignment(p: Pass, item: nat, comment: Comment, i: nat)
    requires p.Valid() && item < |p.nodes| && p.nodes[item].parent.Some?
    requires Source(p, Some(comment)).Some?
    requires p.nodes[item].kind == Signature
    requires p.nodes[Source(p, Some(comment)).value].kind == Declaration(true)
    requires OverloadPosition(ParentSignatures(p.nodes, item), item, i)
    requires p.nodes[Source(p, Some(comment)).value].signatures.Some?
    requires i < |p.nodes[Source(p, Some(comment)).value].signatures.value|
    ensures Referenced(p, item, Some(comment))
      == Some(p.nodes[Source(p, Some(comment)).value].signatures.value[i])
  {
    var sigs := ParentSignatures(p.nodes, item);
    if sigs.Some? {
      IndexOfFirst(sigs.value, item, i);
    }
  }

  /**
   * No fallback: when the alignment applies but finds no overload (the item
   * is missing from its parent's list, the source has no list, or the
   * position is past its end), nothing is copied, not even the declaration's
   * own comment.
   */
  lemma AlignmentMissIsNoOp(p: Pass, item: nat, comment: Comment, i: nat)
    requires p.Valid() && item < |p.nodes| && p.nodes[item].parent.Some?
    requires Source(p, Some(comment)).Some?
    requires p.nodes[item].kind == Signature
    requires p.nodes[Source(p, Some(comment)).value].kind == Declaration(true)
    ensures var ps := ParentSignatures(p.nodes, item);
      ps.Some? && item !in ps.value ==> Referenced(p, item, Some(comment)).None?
    ensures var ps := ParentSignatures(p.nodes, item);
      var ss := p.nodes[Source(p, Some(comment)).value].signatures;
      OverloadPosition(ps, item, i) && (ss.None? || i >= |ss.value|) ==>
        Referenced(p, item, Some(comment)).None?
  {
    var ps := ParentSignatures(p.nodes, item);
    if ps.Some? && item in ps.value {
      var k :| 0 <= k < |ps.value| && ps.value[k] == item;
      IndexOfFirst(ps.value, item, k);
      if OverloadPosition(ps, item, i) {
        IndexOfFirst(ps.value, item, i);
      }
    }
  }

  /**
   * Every other case copies from the resolved reflection itself: the item is
   * not a signature, or the source is not a function or method declaration.
   */
  lemma OtherwiseCopiesSource(p: Pass, item: nat, comment: Comment)
    requires p.Valid() && item < |p.nodes| && p.nodes[item].parent.Some?
    requires Source(p, Some(comment)).Some?
    requires !p.nodes[item].kind.Signature?
          || p.nodes[Source(p, Some(comment)).value].kind != Declaration(true)
    ensures Referenced(p, item, Some(comment)) == Source(p, Some(comment))
  {
  }

  /** Prefixes and suffixes of a visitable order are visitable. */
  lemma VisitableSlices(nodes: seq<Node>, order: seq<nat>, k: nat)
    requires Visitable(nodes, order) && k <= |order|
    ensures Visitable(nodes, order[..k]) && Visitable(nodes, order[k..])
  {
    assert forall t :: 0 <= t < k ==> order[..k][t] == order[t];
    assert forall t :: 0 <= t < |order| - k ==> order[k..][t] == order[k + t];
  }

  /**
   * A reflection whose directive selects nothing keeps its comment through
   * any sequence of callback actions: the others never write its comment,
   * and its own action finds the same unchanged directive.
   */
  lemma {:induction false} RunKeepsInert(p: Pass, cs: seq<Option<Comment>>, order: seq<nat>, j: nat)
    requires p.Valid() && |cs| == |p.nodes| && Visitable(p.nodes, order)
    requires j < |p.nodes| && p.nodes[j].parent.Some? && Referenced(p, j, cs[j]).None?
    ensures Run(p, cs, order)[j] == cs[j]
    decreases |order|
  {
    if order != [] {
      var n := |order|;
      VisitableSlices(p.nodes, order, n - 1);
      RunKeepsInert(p, cs, order[..n - 1], j);
    }
  }

  /**
   * A reflection that occurs once in `order`, at `k`, ends with the copy of
   * the referenced reflection's comment as it stood when `k` was reached.
   */
  lemma RunCopyAt(p: Pass, cs: seq<Option<Comment>>, order: seq<nat>, k: nat)
    requires p.Valid() && |cs| == |p.nodes| && Visitable(p.nodes, order)
    requires k < |order| && order[k] !in order[..k] && order[k] !in order[k + 1..]
    requires Referenced(p, order[k], cs[order[k]]).Some?
    ensures Run(p, cs, order)[order[k]]
      == Some(p.copyComment(cs[order[k]].value,
                            Run(p, cs, order[..k])[Referenced(p, order[k], cs[order[k]]).value]))
  {
    var j := order[k];
    RunUnchangedAfter(p, cs, order, k + 1, j);
    VisitableSlices(p.nodes, order, k + 1);
    var upto := order[..k + 1];
    assert upto[..k] == order[..k] && upto[k] == j;
    var pre := Run(p, cs, order[..k]);
    assert pre[j] == cs[j];
    assert Run(p, cs, upto) == Step(p, pre, j);
  }

  /** The pass writes no comment outside the container's subtree. */
  lemma PassOnlyTouchesDescendants(p: Pass, cs: seq<Option<Comment>>, j: nat)
    requires p.Valid() && |cs| == |p.nodes| && j < |p.nodes|
    requires !IsAncestor(p.nodes, p.container, j)
    ensures PassResult(p, cs)[j] == cs[j]
  {
    DescendantsExactly(p.nodes, p.container, j);
  }

  /** Missing, empty or unresolved directives and alignment misses leave the comment as it was. */
  lemma PassKeepsInert(p: Pass, cs: seq<Option<Comment>>, j: nat)
    requires p.Valid() && |cs| == |p.nodes| && j < |p.nodes| && p.nodes[j].parent.Some?
    requires Referenced(p, j, cs[j]).None?
    ensures PassResult(p, cs)[j] == cs[j]
  {
    RunKeepsInert(p, cs, Descendants(p.nodes, p.container), j);
  }

  /** In a duplicate-free sequence, an element occurs neither before nor after its own position. */
  lemma NoDupSplit(order: seq<nat>, k: nat)
    requires NoDup(order) && k < |order|
    ensures order[k] !in order[..k] && order[k] !in order[k + 1..]
  {
    var rest := order[k + 1..];
    forall t | 0 <= t < |rest| ensures rest[t] != order[k] {
      assert rest[t] == order[k + 1 + t];
    }
  }

  /** A reflection that does not occur after position `k` keeps the comment it had at `k`. */
  lemma RunUnchangedAfter(p: Pass, cs: seq<Option<Comment>>, order: seq<nat>, k: nat, r: nat)
    requires p.Valid() && |cs| == |p.nodes| && Visitable(p.nodes, order)
    requires k <= |order| && r < |cs| && r !in order[k..]
    ensures Run(p, cs, order)[r] == Run(p, cs, order[..k])[r]
  {
    VisitableSlices(p.nodes, order, k);
    assert order == order[..k] + order[k..];
    RunConcat(p, cs, order[..k], order[k..]);
  }

  /**
   * In an order without repetitions, the reflection at `k` copies the
   * referenced comment as it was before the run, unless the referenced
   * reflection comes earlier in the order, in which case its final comment.
   */
  lemma RunCopiesReferenced(p: Pass, cs: seq<Option<Comment>>, order: seq<nat>, k: nat)
    requires p.Valid() && |cs| == |p.nodes| && Visitable(p.nodes, order) && NoDup(order)
    requires k < |order| && Referenced(p, order[k], cs[order[k]]).Some?
    ensures var r := Referenced(p, order[k], cs[order[k]]).value;
      !(0 <= IndexOf(order, r) < k) ==>
        Run(p, cs, order)[order[k]] == Some(p.copyComment(cs[order[k]].value, cs[r]))
    ensures var r := Referenced(p, order[k], cs[order[k]]).value;
      0 <= IndexOf(order, r) < k ==>
        Run(p, cs, order)[order[k]] == Some(p.copyComment(cs[order[k]].value, Run(p, cs, order)[r]))
  {
    var r := Referenced(p, order[k], cs[order[k]]).value;
    NoDupSplit(order, k);
    RunCopyAt(p, cs, order, k);
    VisitableSlices(p.nodes, order, k);
    var kr := IndexOf(order, r);
    if 0 <= kr < k {
      assert r !in order[k..] by {
        forall t | k <= t < |order| ensures order[t] != r {
          assert order[kr] == r;
        }
      }
      RunUnchangedAfter(p, cs, order, k, r);
    } else {
      assert r !in order[..k] by {
        forall t | 0 <= t < k ensures order[..k][t] != r {
          IndexOfAtMost(order, r, t);
        }
      }
    }
  }

  /**
   * A descendant whose directive selects reflection `r` ends with the copy of
   * `r`'s comment: of the comment `r` had before the pass, unless `r` is a
   * descendant handed to the callback earlier, in which case of the comment
   * `r` ended with (a single pass, no fixed point).
   */
  lemma PassCopiesReferenced(p: Pass, cs: seq<Option<Comment>>, j: nat)
    requires p.Valid() && |cs| == |p.nodes| && j < |p.nodes|
    requires IsAncestor(p.nodes, p.container, j)
    requires Referenced(p, j, cs[j]).Some?
    ensures var d := Descendants(p.nodes, p.container);
      var r := Referenced(p, j, cs[j]).value;
      !(0 <= IndexOf(d, r) < IndexOf(d, j)) ==>
        PassResult(p, cs)[j] == Some(p.copyComment(cs[j].value, cs[r]))
    ensures var d := Descendants(p.nodes, p.container);
      var r := Referenced(p, j, cs[j]).value;
      0 <= IndexOf(d, r) < IndexOf(d, j) ==>
        PassResult(p, cs)[j] == Some(p.copyComment(cs[j].value, PassResult(p, cs)[r]))
  {
    var d := Descendants(p.nodes, p.container);
    DescendantsExactly(p.nodes, p.container, j);
    DescendantsDistinct(p.nodes, p.container);
    var kj := IndexOf(d, j);
    RunCopiesReferenced(p, cs, d, kj);
  }

  /**
   * Chains stay inside one subtree: a directive naming a reflection further
   * down the item's own subtree sees that reflection's final comment, since
   * children are handled first.
   */
  lemma PassResolvesSourceBelowFirst(p: Pass, cs: seq<Option<Comment>>, j: nat)
    requires p.Valid() && |cs| == |p.nodes| && j < |p.nodes|
    requires IsAncestor(p.nodes, p.container, j)
    requires Referenced(p, j, cs[j]).Some?
    requires IsAncestor(p.nodes, j, Referenced(p, j, cs[j]).value)
    ensures PassResult(p, cs)[j]
      == Some(p.copyComment(cs[j].value, PassResult(p, cs)[Referenced(p, j, cs[j]).value]))
  {
    SubtreeVisitedFirst(p.nodes, p.container, j, Referenced(p, j, cs[j]).value);
    PassCopiesReferenced(p, cs, j);
  }
}
