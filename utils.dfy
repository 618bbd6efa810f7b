/**
 * `tree_to_list` of baby_browser/utils.py: appends the nodes of a tree to
 * the caller's list in pre-order and returns that same list.
 */
module Utils {
  import opened Dom
  import opened Seqs

  /** A Python list of nodes that callers share and that is appended to in place. */
  class NodeList {
    var items: seq<Node>

    constructor (items: seq<Node>)
      ensures this.items == items
    {
      this.items := items;
    }
  }

  /** The nodes of the tree rooted at `n`, in pre-order. */
  function PreOrder(n: Node): (r: seq<Node>)
    ensures |r| >= 1 && r[0] == n
    decreases n, |Children(n)| + 1
  {
    [n] + PreOrderFrom(n, 0)
  }

  /** The pre-order of the subtrees of the children of `p` from index `i` on. */
  function PreOrderFrom(p: Node, i: nat): seq<Node>
    requires i <= |Children(p)|
    decreases p, |Children(p)| - i
  {
    if i == |Children(p)| then [] else PreOrder(Children(p)[i]) + PreOrderFrom(p, i + 1)
  }

  /** `tree_to_list(tree, flat)`: `flat` itself, with the tree's nodes appended in pre-order. */
  method TreeToList(tree: Node, flat: NodeList) returns (r: NodeList)
    modifies flat
    ensures r == flat
    ensures flat.items == old(flat.items) + PreOrder(tree)
    decreases tree
  {
    flat.items := flat.items + [tree];
    var cs := Children(tree);
    for i := 0 to |cs|
      invariant flat.items + PreOrderFrom(tree, i) == old(flat.items) + PreOrder(tree)
    {
      ghost var before := flat.items;
      var _ := TreeToList(cs[i], flat);
      assert flat.items + PreOrderFrom(tree, i + 1) == before + PreOrderFrom(tree, i);
    }
    r := flat;
  }

  /** The list gets one entry per node of the tree. */
  lemma {:induction false} PreOrderLength(n: Node)
    ensures |PreOrder(n)| == Size(n)
    decreases n, |Children(n)| + 1
  {
    PreOrderFromLength(n, 0);
  }

  lemma {:induction false} PreOrderFromLength(p: Node, i: nat)
    requires i <= |Children(p)|
    ensures |PreOrderFrom(p, i)| == SizeOfChildren(p, i)
    decreases p, |Children(p)| - i
  {
    if i < |Children(p)| {
      PreOrderLength(Children(p)[i]);
      PreOrderFromLength(p, i + 1);
    }
  }

  /** The number of nodes under the children of `p` with index in [i, k). */
  function SizeBetween(p: Node, i: nat, k: nat): nat
    requires i <= k <= |Children(p)|
    decreases k - i
  {
    if i == k then 0 else Size(Children(p)[i]) + SizeBetween(p, i + 1, k)
  }

  lemma {:induction false} SubtreeInChildren(p: Node, i: nat, k: nat)
    requires i <= k < |Children(p)|
    ensures var o := SizeBetween(p, i, k);
      o + Size(Children(p)[k]) <= |PreOrderFrom(p, i)|
      && PreOrderFrom(p, i)[o..o + Size(Children(p)[k])] == PreOrder(Children(p)[k])
    decreases k - i
  {
    if i < k {
      SubtreeInChildren(p, i + 1, k);
      SubtreeShift(p, i, k);
    } else {
      SubtreeHere(p, k);
    }
  }

  /** The subtree of child `k` opens the pre-order of the children from `k` on. */
  lemma SubtreeHere(p: Node, k: nat)
    requires k < |Children(p)|
    ensures Size(Children(p)[k]) <= |PreOrderFrom(p, k)|
      && PreOrderFrom(p, k)[0..Size(Children(p)[k])] == PreOrder(Children(p)[k])
  {
    var head := PreOrder(Children(p)[k]);
    assert PreOrderFrom(p, k) == head + PreOrderFrom(p, k + 1);
    PreOrderLength(Children(p)[k]);
    BlockFirst(PreOrderFrom(p, k), head, PreOrderFrom(p, k + 1));
  }

  /** Where the block of child `k` sits, one child further back. */
  lemma SubtreeShift(p: Node, i: nat, k: nat)
    requires i < k < |Children(p)|
    requires var o := SizeBetween(p, i + 1, k);
      o + Size(Children(p)[k]) <= |PreOrderFrom(p, i + 1)|
      && PreOrderFrom(p, i + 1)[o..o + Size(Children(p)[k])] == PreOrder(Children(p)[k])
    ensures var o := SizeBetween(p, i, k);
      o + Size(Children(p)[k]) <= |PreOrderFrom(p, i)|
      && PreOrderFrom(p, i)[o..o + Size(Children(p)[k])] == PreOrder(Children(p)[k])
  {
    var c := Children(p);
    var head := PreOrder(c[i]);
    var rest := PreOrderFrom(p, i + 1);
    assert PreOrderFrom(p, i) == head + rest;
    PreOrderLength(c[i]);
    PreOrderLength(c[k]);
    var o := SizeBetween(p, i + 1, k);
    assert SizeBetween(p, i, k) == |head| + o;
    BlockAfter(PreOrderFrom(p, i), head, rest, o, PreOrder(c[k]));
  }

  /**
   * Pre-order: the root comes first, and the subtree of the `k`-th child
   * follows as one block right after the subtrees of the children before it.
   */
  lemma {:induction false} ChildSubtreeFollows(n: Node, k: nat)
    requires k < |Children(n)|
    ensures var o := 1 + SizeBetween(n, 0, k);
      && PreOrder(n)[0] == n
      && o + Size(Children(n)[k]) <= |PreOrder(n)|
      && PreOrder(n)[o..o + Size(Children(n)[k])] == PreOrder(Children(n)[k])
  {
    SubtreeInChildren(n, 0, k);
    var o := SizeBetween(n, 0, k);
    var rest := PreOrderFrom(n, 0);
    assert PreOrder(n) == [n] + rest;
    PreOrderLength(Children(n)[k]);
    BlockAfter(PreOrder(n), [n], rest, o, PreOrder(Children(n)[k]));
  }

  /** The blocks of consecutive children are adjacent: the next one starts where this one ends. */
  lemma {:induction false} NextSubtreeStarts(n: Node, k: nat)
    requires k + 1 <= |Children(n)|
    ensures SizeBetween(n, 0, k + 1) == SizeBetween(n, 0, k) + Size(Children(n)[k])
  {
    SizeBetweenStep(n, 0, k);
  }

  lemma {:induction false} SizeBetweenStep(p: Node, i: nat, k: nat)
    requires i <= k < |Children(p)|
    ensures SizeBetween(p, i, k + 1) == SizeBetween(p, i, k) + Size(Children(p)[k])
    decreases k - i
  {
    if i < k {
      SizeBetweenStep(p, i + 1, k);
    }
  }
}
