/**
 * The reflection tree: every documented symbol of a project is one node.
 *
 * The tree is kept as an arena. `ReflectionTree.nodes[i]` is the structure of
 * reflection `i` (its kind, name, parent, children and overload signatures),
 * which the inherit-doc pass never changes; `ReflectionTree.comments[i]` is
 * its comment, which the pass may replace.
 */
module Reflections {
  import opened Wrappers
  import opened Arrays
  import opened Comments

  /**
   * The reflection classes the pass distinguishes. `ProjectReflection` and
   * `DeclarationReflection` are the two kinds of `ContainerReflection`;
   * `Declaration(true)` is a declaration whose kind is in
   * `ReflectionKind.FunctionOrMethod`; `Other` covers parameters and type
   * parameters.
   */
  datatype Kind = Project | Declaration(functionOrMethod: bool) | Signature | Other

  /** `reflection instanceof ContainerReflection` */
  predicate IsContainer(k: Kind): (b: bool)
    ensures b <==> !(k.Signature? || k.Other?)
  {
    k.Project? || k.Declaration?
  }

  /**
   * The structure of one reflection. `children` lists what `traverse` visits,
   * in visiting order; `signatures` is a declaration's overload list, absent
   * when the reflection has none.
   */
  datatype Node = Node(
    kind: Kind,
    name: string,
    parent: Option<nat>,
    children: seq<nat>,
    signatures: Option<seq<nat>>)

  /**
   * Reflection `i` is linked consistently: every child lies after it and
   * names it as parent, no child is listed twice, a parent lies before it and
   * lists it among its children, and its signatures are reflections of the tree.
   * Numbering children after their parent is what makes the tree acyclic.
   */
  predicate NodeWellFormed(nodes: seq<Node>, i: nat)
    requires i < |nodes|
  {
    var n := nodes[i];
    && NoDup(n.children)
    && (forall k :: 0 <= k < |n.children| ==>
          i < n.children[k] < |nodes| && nodes[n.children[k]].parent == Some(i))
    && (n.parent.Some? ==> n.parent.value < i && i in nodes[n.parent.value].children)
    && (n.signatures.Some? ==>
          forall k :: 0 <= k < |n.signatures.value| ==> n.signatures.value[k] < |nodes|)
  }

  predicate WellFormed(nodes: seq<Node>)
  {
    forall i :: 0 <= i < |nodes| ==> NodeWellFormed(nodes, i)
  }

  /** `item.parent.signatures`: the overload list of the reflection's parent. */
  function ParentSignatures(nodes: seq<Node>, item: nat): (r: Option<seq<nat>>)
    requires WellFormed(nodes) && item < |nodes| && nodes[item].parent.Some?
    ensures nodes[item].parent.value < item
    ensures r == nodes[nodes[item].parent.value].signatures
    ensures r.Some? ==> forall k :: 0 <= k < |r.value| ==> r.value[k] < |nodes|
  {
    assert NodeWellFormed(nodes, item);
    assert NodeWellFormed(nodes, nodes[item].parent.value);
    nodes[nodes[item].parent.value].signatures
  }

  /** `a` lies on the parent chain of `x` (strictly above it). */
  predicate IsAncestor(nodes: seq<Node>, a: nat, x: nat)
    requires WellFormed(nodes) && x < |nodes|
    decreases x
  {
    assert NodeWellFormed(nodes, x);
    match nodes[x].parent
    case None => false
    case Some(p) => p == a || IsAncestor(nodes, a, p)
  }

  /** `x` is `a` itself or one of its descendants. */
  predicate Reaches(nodes: seq<Node>, a: nat, x: nat)
    requires WellFormed(nodes) && x < |nodes|
  {
    x == a || IsAncestor(nodes, a, x)
  }

  /** Every element of `order` is a reflection of the tree that has a parent. */
  predicate Visitable(nodes: seq<Node>, order: seq<nat>)
  {
    forall k :: 0 <= k < |order| ==> order[k] < |nodes| && nodes[order[k]].parent.Some?
  }

  /**
   * The order in which `reflection.traverse(callback)` hands the descendants
   * of `i` to a callback that first traverses its argument: each child's own
   * descendants, then the child, child after child.
   */
  function Descendants(nodes: seq<Node>, i: nat): (r: seq<nat>)
    requires WellFormed(nodes) && i < |nodes|
    ensures Visitable(nodes, r)
    ensures forall k :: 0 <= k < |r| ==> i < r[k] < |nodes| && nodes[r[k]].parent.Some?
    decreases |nodes| - i, 1
  {
    assert NodeWellFormed(nodes, i);
    Forest(nodes, i, nodes[i].children)
  }

  /** The traversal order of the subtrees rooted at `cs`, children of `i`. */
  function Forest(nodes: seq<Node>, i: nat, cs: seq<nat>): (r: seq<nat>)
    requires WellFormed(nodes) && i < |nodes|
    requires forall k :: 0 <= k < |cs| ==> i < cs[k] < |nodes| && nodes[cs[k]].parent.Some?
    ensures Visitable(nodes, r)
    ensures forall k :: 0 <= k < |r| ==> i < r[k] < |nodes| && nodes[r[k]].parent.Some?
    decreases |nodes| - i, 0, |cs|
  {
    if cs == [] then []
    else
      var c := cs[|cs| - 1];
      Forest(nodes, i, cs[..|cs| - 1]) + Descendants(nodes, c) + [c]
  }

  /** Extending the list of subtrees by one child appends that child's block. */
  lemma ForestSnoc(nodes: seq<Node>, i: nat, cs: seq<nat>, k: nat)
    requires WellFormed(nodes) && i < |nodes| && k < |cs|
    requires forall k :: 0 <= k < |cs| ==> i < cs[k] < |nodes| && nodes[cs[k]].parent.Some?
    ensures Forest(nodes, i, cs[..k + 1])
      == Forest(nodes, i, cs[..k]) + (Descendants(nodes, cs[k]) + [cs[k]])
  {
    assert cs[..k + 1][..k] == cs[..k];
  }

  lemma {:induction false} AncestorIsEarlier(nodes: seq<Node>, a: nat, x: nat)
    requires WellFormed(nodes) && x < |nodes|
    ensures IsAncestor(nodes, a, x) ==> a < x
    decreases x
  {
    assert NodeWellFormed(nodes, x);
    if nodes[x].parent.Some? {
      AncestorIsEarlier(nodes, a, nodes[x].parent.value);
    }
  }

  /** Whatever a child of `i` reaches lies below `i`. */
  lemma {:induction false} ChildReachesDescendant(nodes: seq<Node>, i: nat, c: nat, x: nat)
    requires WellFormed(nodes) && c < |nodes| && x < |nodes|
    requires nodes[c].parent == Some(i)
    ensures Reaches(nodes, c, x) ==> IsAncestor(nodes, i, x)
    decreases x
  {
    assert NodeWellFormed(nodes, x);
    if x != c && nodes[x].parent.Some? {
      var p := nodes[x].parent.value;
      if p != c {
        ChildReachesDescendant(nodes, i, c, p);
      }
    }
  }

  /** Every descendant of `i` is reached from one of its children. */
  lemma {:induction false} DescendantBelowChild(nodes: seq<Node>, i: nat, x: nat)
    requires WellFormed(nodes) && i < |nodes| && x < |nodes| && IsAncestor(nodes, i, x)
    ensures exists k :: 0 <= k < |nodes[i].children| && Reaches(nodes, nodes[i].children[k], x)
    decreases x
  {
    assert NodeWellFormed(nodes, x);
    var p := nodes[x].parent.value;
    if p == i {
      var k :| 0 <= k < |nodes[i].children| && nodes[i].children[k] == x;
      assert Reaches(nodes, nodes[i].children[k], x);
    } else {
      DescendantBelowChild(nodes, i, p);
      var k :| 0 <= k < |nodes[i].children| && Reaches(nodes, nodes[i].children[k], p);
      assert Reaches(nodes, nodes[i].children[k], x);
    }
  }

  /** The subtrees of two different children of one reflection share no node. */
  lemma {:induction false} SiblingsDisjoint(nodes: seq<Node>, i: nat, a: nat, b: nat, x: nat)
    requires WellFormed(nodes) && i < |nodes| && a < |nodes| && b < |nodes| && x < |nodes|
    requires nodes[a].parent == Some(i) && nodes[b].parent == Some(i) && a != b
    ensures !(Reaches(nodes, a, x) && Reaches(nodes, b, x))
    decreases x
  {
    assert NodeWellFormed(nodes, a) && NodeWellFormed(nodes, b) && NodeWellFormed(nodes, x);
    if x == a {
      AncestorIsEarlier(nodes, b, i);
    } else if x == b {
      AncestorIsEarlier(nodes, a, i);
    } else if nodes[x].parent.Some? {
      SiblingsDisjoint(nodes, i, a, b, nodes[x].parent.value);
    }
  }

  /** The traversal reaches exactly the descendants of `i`. */
  lemma {:induction false} DescendantsExactly(nodes: seq<Node>, i: nat, x: nat)
    requires WellFormed(nodes) && i < |nodes| && x < |nodes|
    ensures x in Descendants(nodes, i) <==> IsAncestor(nodes, i, x)
    decreases |nodes| - i, 1
  {
    assert NodeWellFormed(nodes, i);
    var cs := nodes[i].children;
    ForestExactly(nodes, i, cs, x);
    if IsAncestor(nodes, i, x) {
      DescendantBelowChild(nodes, i, x);
    } else {
      forall k | 0 <= k < |cs| ensures !Reaches(nodes, cs[k], x) {
        ChildReachesDescendant(nodes, i, cs[k], x);
      }
    }
  }

  /** A reflection outside the subtree of `i` is never handed to the callback. */
  lemma OutsideNotVisited(nodes: seq<Node>, i: nat)
    requires WellFormed(nodes) && i < |nodes|
    ensures forall x :: 0 <= x < |nodes| && !IsAncestor(nodes, i, x) ==> x !in Descendants(nodes, i)
  {
    forall x | 0 <= x < |nodes| && !IsAncestor(nodes, i, x) ensures x !in Descendants(nodes, i) {
      DescendantsExactly(nodes, i, x);
    }
  }

  /** The traversal of the subtrees at `cs` reaches exactly what their roots reach. */
  lemma ForestExactly(nodes: seq<Node>, i: nat, cs: seq<nat>, x: nat)
    requires WellFormed(nodes) && i < |nodes| && x < |nodes|
    requires forall k :: 0 <= k < |cs| ==> i < cs[k] < |nodes| && nodes[cs[k]].parent.Some?
    ensures x in Forest(nodes, i, cs) <==> exists k :: 0 <= k < |cs| && Reaches(nodes, cs[k], x)
    decreases |nodes| - i, 0, |cs|, 1
  {
    ForestReachedFrom(nodes, i, cs, x);
    forall k | 0 <= k < |cs| ensures Reaches(nodes, cs[k], x) ==> x in Forest(nodes, i, cs) {
      ForestCovers(nodes, i, cs, x, k);
    }
  }

  /** Everything in the traversal of `cs` is reached from one of its roots. */
  lemma {:induction false} ForestReachedFrom(nodes: seq<Node>, i: nat, cs: seq<nat>, x: nat)
    requires WellFormed(nodes) && i < |nodes| && x < |nodes|
    requires forall k :: 0 <= k < |cs| ==> i < cs[k] < |nodes| && nodes[cs[k]].parent.Some?
    ensures x in Forest(nodes, i, cs) ==> exists k :: 0 <= k < |cs| && Reaches(nodes, cs[k], x)
    decreases |nodes| - i, 0, |cs|, 0
  {
    if cs != [] {
      var n := |cs|;
      var init, c := cs[..n - 1], cs[n - 1];
      ForestMember(nodes, i, cs, x);
      if x in Forest(nodes, i, init) {
        ForestReachedFrom(nodes, i, init, x);
        var k :| 0 <= k < |init| && Reaches(nodes, init[k], x);
        assert cs[k] == init[k];
      } else if x in Descendants(nodes, c) || x == c {
        DescendantsExactly(nodes, c, x);
        assert Reaches(nodes, cs[n - 1], x);
      }
    }
  }

  /** Everything a root of `cs` reaches is in the traversal of `cs`. */
  lemma {:induction false} ForestCovers(nodes: seq<Node>, i: nat, cs: seq<nat>, x: nat, k: nat)
    requires WellFormed(nodes) && i < |nodes| && x < |nodes| && k < |cs|
    requires forall k :: 0 <= k < |cs| ==> i < cs[k] < |nodes| && nodes[cs[k]].parent.Some?
    ensures Reaches(nodes, cs[k], x) ==> x in Forest(nodes, i, cs)
    decreases |nodes| - i, 0, |cs|, 0
  {
    var n := |cs|;
    var init, c := cs[..n - 1], cs[n - 1];
    ForestMember(nodes, i, cs, x);
    if k == n - 1 {
      DescendantsExactly(nodes, c, x);
    } else {
      assert init[k] == cs[k];
      ForestCovers(nodes, i, init, x, k);
    }
  }

  /** A reflection is in the traversal of `cs` iff it is in that of all but the last root, or in the last root's block. */
  lemma ForestMember(nodes: seq<Node>, i: nat, cs: seq<nat>, x: nat)
    requires WellFormed(nodes) && i < |nodes| && cs != []
    requires forall k :: 0 <= k < |cs| ==> i < cs[k] < |nodes| && nodes[cs[k]].parent.Some?
    ensures x in Forest(nodes, i, cs)
      <==> x in Forest(nodes, i, cs[..|cs| - 1]) || x in Descendants(nodes, cs[|cs| - 1]) || x == cs[|cs| - 1]
  {
  }

  /** The traversal hands each descendant of `i` to the callback exactly once. */
  lemma {:induction false} DescendantsDistinct(nodes: seq<Node>, i: nat)
    requires WellFormed(nodes) && i < |nodes|
    ensures NoDup(Descendants(nodes, i))
    decreases |nodes| - i, 1
  {
    assert NodeWellFormed(nodes, i);
    ForestDistinct(nodes, i, nodes[i].children);
  }

  lemma {:induction false} ForestDistinct(nodes: seq<Node>, i: nat, cs: seq<nat>)
    requires WellFormed(nodes) && i < |nodes| && NoDup(cs)
    requires forall k :: 0 <= k < |cs| ==> i < cs[k] < |nodes| && nodes[cs[k]].parent == Some(i)
    ensures NoDup(Forest(nodes, i, cs))
    decreases |nodes| - i, 0, |cs|
  {
    if cs != [] {
      var n := |cs|;
      var init, c := cs[..n - 1], cs[n - 1];
      assert NoDup(init) by {
        forall p, q | 0 <= p < q < |init| ensures init[p] != init[q] {
          assert init[p] == cs[p] && init[q] == cs[q];
        }
      }
      ForestDistinct(nodes, i, init);
      DescendantsDistinct(nodes, c);
      assert c !in Descendants(nodes, c);
      var block := Descendants(nodes, c) + [c];
      NoDupConcat(Descendants(nodes, c), [c]);
      forall x | x in Forest(nodes, i, init) ensures x !in block {
        ForestExactly(nodes, i, init, x);
        var k :| 0 <= k < |init| && Reaches(nodes, init[k], x);
        DescendantsExactly(nodes, c, x);
        assert init[k] == cs[k] && k < n - 1;
        SiblingsDisjoint(nodes, i, init[k], c, x);
      }
      NoDupConcat(Forest(nodes, i, init), block);
      assert Forest(nodes, i, cs) == Forest(nodes, i, init) + block;
    }
  }

  /** Position `k` of `order` holds `x`, and the positions just before it hold `block`. */
  predicate PrecededBy(order: seq<nat>, k: int, x: nat, block: seq<nat>)
  {
    0 <= k < |order| && order[k] == x && |block| <= k && order[k - |block|..k] == block
  }

  /**
   * Children first: every descendant `x` of `i` is handed to the callback
   * right after the whole of its own subtree, in that subtree's own order.
   */
  lemma {:induction false} SubtreeBeforeNode(nodes: seq<Node>, i: nat, x: nat)
    requires WellFormed(nodes) && i < |nodes| && x < |nodes| && x in Descendants(nodes, i)
    ensures exists k :: PrecededBy(Descendants(nodes, i), k, x, Descendants(nodes, x))
    decreases |nodes| - i, 1
  {
    assert NodeWellFormed(nodes, i);
    ForestBlock(nodes, i, nodes[i].children, x);
  }

  lemma {:induction false} ForestBlock(nodes: seq<Node>, i: nat, cs: seq<nat>, x: nat)
    requires WellFormed(nodes) && i < |nodes| && x < |nodes|
    requires forall k :: 0 <= k < |cs| ==> i < cs[k] < |nodes| && nodes[cs[k]].parent.Some?
    requires x in Forest(nodes, i, cs)
    ensures exists k :: PrecededBy(Forest(nodes, i, cs), k, x, Descendants(nodes, x))
    decreases |nodes| - i, 0, |cs|
  {
    var n := |cs|;
    var init, c := cs[..n - 1], cs[n - 1];
    var a, b := Forest(nodes, i, init), Descendants(nodes, c);
    var f := Forest(nodes, i, cs);
    assert f == a + b + [c];
    var dx := Descendants(nodes, x);
    if x == c {
      ConcatBlock(a, b, c);
      assert PrecededBy(f, |a| + |b|, x, dx);
    } else if x in b {
      SubtreeBeforeNode(nodes, c, x);
      var k :| PrecededBy(b, k, x, dx);
      ShiftBlock(a, b, [c], k, x, dx);
      assert PrecededBy(f, |a| + k, x, dx);
    } else {
      assert x in a;
      ForestBlock(nodes, i, init, x);
      var k :| PrecededBy(a, k, x, dx);
      PrefixBlock(a, b + [c], k, x, dx);
      assert a + (b + [c]) == f;
    }
  }

  lemma ConcatBlock(a: seq<nat>, b: seq<nat>, c: nat)
    ensures PrecededBy(a + b + [c], |a| + |b|, c, b)
  {
    assert (a + b + [c])[|a|..|a| + |b|] == b;
  }

  lemma ShiftBlock(a: seq<nat>, b: seq<nat>, rest: seq<nat>, k: int, x: nat, block: seq<nat>)
    requires PrecededBy(b, k, x, block)
    ensures PrecededBy(a + b + rest, |a| + k, x, block)
  {
    assert (a + b + rest)[|a| + k - |block|..|a| + k] == b[k - |block|..k];
  }

  lemma PrefixBlock(a: seq<nat>, rest: seq<nat>, k: int, x: nat, block: seq<nat>)
    requires PrecededBy(a, k, x, block)
    ensures PrecededBy(a + rest, k, x, block)
  {
    assert (a + rest)[k - |block|..k] == a[k - |block|..k];
  }

  /**
   * A reflection inside the subtree of `j` is handed to the callback before
   * `j` is: the positions are those `indexOf` reports in the traversal order.
   */
  lemma SubtreeVisitedFirst(nodes: seq<Node>, i: nat, j: nat, x: nat)
    requires WellFormed(nodes) && i < |nodes| && j < |nodes| && x < |nodes|
    requires IsAncestor(nodes, i, j) && IsAncestor(nodes, j, x)
    ensures 0 <= IndexOf(Descendants(nodes, i), x) < IndexOf(Descendants(nodes, i), j)
  {
    var d := Descendants(nodes, i);
    var dj := Descendants(nodes, j);
    DescendantsExactly(nodes, i, j);
    SubtreeBeforeNode(nodes, i, j);
    var k :| PrecededBy(d, k, j, dj);
    DescendantsDistinct(nodes, i);
    DescendantsExactly(nodes, j, x);
    BlockComesFirst(d, k, j, dj, x);
  }

  lemma BlockComesFirst(d: seq<nat>, k: int, j: nat, block: seq<nat>, x: nat)
    requires NoDup(d) && PrecededBy(d, k, j, block) && x in block
    ensures 0 <= IndexOf(d, x) < IndexOf(d, j)
  {
    IndexOfDistinct(d, k);
    var t :| 0 <= t < |block| && block[t] == x;
    assert d[k - |block|..k][t] == x;
    IndexOfFirst(d, x, k - |block| + t);
  }

  /**
   * The reflections of one documentation run. The structure is fixed once the
   * tree is built; a reflection's comment is the one thing that changes later.
   */
  class ReflectionTree {
    const nodes: seq<Node>
    var comments: seq<Option<Comment>>

    ghost predicate Valid()
      reads this
    {
      WellFormed(nodes) && |comments| == |nodes|
    }

    constructor (nodes: seq<Node>, comments: seq<Option<Comment>>)
      requires WellFormed(nodes) && |comments| == |nodes|
      ensures Valid() && this.nodes == nodes && this.comments == comments
    {
      this.nodes := nodes;
      this.comments := comments;
    }
  }
}
