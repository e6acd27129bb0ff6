/** Nodes and the chains they form.

    Node objects live in an arena, a sequence of cells addressed by position;
    allocating a node appends a cell. A link is either absent (`Nil`) or the
    address of a cell. Following `next` links from the head gives the list's
    chain of addresses.
 */
module Chains {

  datatype Link = Nil | Ref(addr: nat)

  /** One storage cell: an element and the link to the following node. */
  datatype Node<T> = Node(content: T, next: Link)

  /** `a` is exactly the chain reached from `p`: every address is a cell, `p`
      links to the first, each links to the next, and the last links to `Nil`. */
  ghost predicate Linked<T>(cells: seq<Node<T>>, p: Link, a: seq<nat>)
  {
    && (forall i :: 0 <= i < |a| ==> a[i] < |cells|)
    && (if a == [] then p == Nil else p == Ref(a[0]) && cells[a[|a| - 1]].next == Nil)
    && (forall i :: 0 <= i < |a| - 1 ==> cells[a[i]].next == Ref(a[i + 1]))
  }

  /** No address occurs twice: the chain is a simple path. */
  ghost predicate Distinct(a: seq<nat>)
  {
    forall i, j :: 0 <= i < |a| && 0 <= j < |a| && i != j ==> a[i] != a[j]
  }

  /** The addresses met by following links from `p`, visiting at most `fuel`
      nodes and stopping early at `Nil` or at an address outside the arena. */
  ghost function Chain<T>(cells: seq<Node<T>>, p: Link, fuel: nat): (r: seq<nat>)
    ensures |r| <= fuel
    ensures forall i :: 0 <= i < |r| ==> r[i] < |cells|
    decreases fuel
  {
    if fuel == 0 then []
    else match p
      case Nil => []
      case Ref(a) =>
        if a < |cells| then [a] + Chain(cells, cells[a].next, fuel - 1) else []
  }

  /** A linked chain is what following the links for its length finds. */
  lemma {:induction false} LinkedChain<T>(cells: seq<Node<T>>, p: Link, a: seq<nat>)
    requires Linked(cells, p, a)
    ensures Chain(cells, p, |a|) == a
    decreases |a|
  {
    if a != [] {
      var q := cells[a[0]].next;
      assert Linked(cells, q, a[1..]);
      LinkedChain(cells, q, a[1..]);
    }
  }

  /** The elements stored at the addresses `a`, in order. */
  ghost function Values<T>(cells: seq<Node<T>>, a: seq<nat>): seq<T>
    requires forall i :: 0 <= i < |a| ==> a[i] < |cells|
  {
    seq(|a|, i requires 0 <= i < |a| => cells[a[i]].content)
  }

  /** The arena with the node at `at` relinked to `q`. */
  function SetNext<T>(cells: seq<Node<T>>, at: nat, q: Link): (r: seq<Node<T>>)
    requires at < |cells|
    ensures |r| == |cells| && r[at] == Node(cells[at].content, q)
    ensures forall i :: 0 <= i < |cells| && i != at ==> r[i] == cells[i]
  {
    cells[at := cells[at].(next := q)]
  }

  /** A new first node, allocated at the end of the arena, linked to the old head. */
  lemma LinkFront<T>(cells: seq<Node<T>>, p: Link, a: seq<nat>, x: T)
    requires Linked(cells, p, a) && Distinct(a)
    ensures var c, b := cells + [Node(x, p)], [|cells|] + a;
            Linked(c, Ref(|cells|), b) && Distinct(b) && Values(c, b) == [x] + Values(cells, a)
  {
    var c, b := cells + [Node(x, p)], [|cells|] + a;
    assert forall i :: 0 < i < |b| ==> b[i] == a[i - 1];
  }

  /** A new last node, allocated at the end of the arena, linked from the old last node. */
  lemma LinkBack<T>(cells: seq<Node<T>>, p: Link, a: seq<nat>, x: T)
    requires Linked(cells, p, a) && Distinct(a) && a != []
    ensures var c, b := SetNext(cells + [Node(x, Nil)], a[|a| - 1], Ref(|cells|)), a + [|cells|];
            Linked(c, p, b) && Distinct(b) && Values(c, b) == Values(cells, a) + [x]
  {
    var c, b := SetNext(cells + [Node(x, Nil)], a[|a| - 1], Ref(|cells|)), a + [|cells|];
    assert forall i :: 0 <= i < |a| - 1 ==> a[i] != a[|a| - 1];
  }

  /** The positions of `a` with `n` spliced in at `k`. */
  lemma SpliceIndices(a: seq<nat>, k: nat, n: nat)
    requires k <= |a|
    ensures var b := a[..k] + [n] + a[k..];
            && |b| == |a| + 1 && b[k] == n
            && (forall i :: 0 <= i < k ==> b[i] == a[i])
            && (forall i :: k < i < |b| ==> b[i] == a[i - 1])
  {
  }

  /** A new node spliced in after the `k - 1`-th node of the chain. */
  lemma LinkInside<T>(cells: seq<Node<T>>, p: Link, a: seq<nat>, k: nat, x: T)
    requires Linked(cells, p, a) && Distinct(a) && 0 < k < |a|
    ensures var c := SetNext(cells + [Node(x, cells[a[k - 1]].next)], a[k - 1], Ref(|cells|));
            var b := a[..k] + [|cells|] + a[k..];
            Linked(c, p, b) && Distinct(b) && Values(c, b) == Values(cells, a)[..k] + [x] + Values(cells, a)[k..]
  {
    SpliceLinked(cells, p, a, k, x);
    SpliceDistinct(a, k, |cells|);
    SpliceValues(cells, p, a, k, x);
  }

  /** The links of a splice: the predecessor points to the new node, which
      points to the old successor. */
  lemma SpliceLinked<T>(cells: seq<Node<T>>, p: Link, a: seq<nat>, k: nat, x: T)
    requires Linked(cells, p, a) && Distinct(a) && 0 < k < |a|
    ensures var c := SetNext(cells + [Node(x, cells[a[k - 1]].next)], a[k - 1], Ref(|cells|));
            Linked(c, p, a[..k] + [|cells|] + a[k..])
  {
    var c := SetNext(cells + [Node(x, cells[a[k - 1]].next)], a[k - 1], Ref(|cells|));
    var b := a[..k] + [|cells|] + a[k..];
    SpliceIndices(a, k, |cells|);
    assert forall i :: 0 <= i < |a| && i != k - 1 ==> a[i] != a[k - 1];
    forall i | 0 <= i < |b| - 1
      ensures c[b[i]].next == Ref(b[i + 1])
    {
      if i < k - 1 {
      } else if i == k - 1 {
      } else if i == k {
      } else {
        assert b[i] == a[i - 1] && b[i + 1] == a[i];
      }
    }
  }

  /** A fresh address spliced into a simple path keeps it simple. */
  lemma SpliceDistinct(a: seq<nat>, k: nat, n: nat)
    requires Distinct(a) && k <= |a| && forall i :: 0 <= i < |a| ==> a[i] < n
    ensures Distinct(a[..k] + [n] + a[k..])
  {
    SpliceIndices(a, k, n);
  }

  /** The elements along a splice: the new element sits at position `k`. */
  lemma SpliceValues<T>(cells: seq<Node<T>>, p: Link, a: seq<nat>, k: nat, x: T)
    requires Linked(cells, p, a) && Distinct(a) && 0 < k < |a|
    ensures var c := SetNext(cells + [Node(x, cells[a[k - 1]].next)], a[k - 1], Ref(|cells|));
            var b := a[..k] + [|cells|] + a[k..];
            (forall i :: 0 <= i < |b| ==> b[i] < |c|) &&
            Values(c, b) == Values(cells, a)[..k] + [x] + Values(cells, a)[k..]
  {
    SpliceIndices(a, k, |cells|);
  }

  /** Unlinking the first node of the chain: the head moves to its successor. */
  lemma UnlinkFirst<T>(cells: seq<Node<T>>, p: Link, a: seq<nat>)
    requires Linked(cells, p, a) && Distinct(a) && a != []
    ensures Linked(cells, cells[a[0]].next, a[1..]) && Distinct(a[1..])
    ensures Values(cells, a[1..]) == Values(cells, a)[1..]
  {
  }

  /** Unlinking the last of several nodes: its predecessor now ends the chain. */
  lemma UnlinkLast<T>(cells: seq<Node<T>>, p: Link, a: seq<nat>)
    requires Linked(cells, p, a) && Distinct(a) && |a| > 1
    ensures var c, b := SetNext(cells, a[|a| - 2], Nil), a[..|a| - 1];
            Linked(c, p, b) && Distinct(b) && Values(c, b) == Values(cells, a)[..|a| - 1]
  {
    var c, b := SetNext(cells, a[|a| - 2], Nil), a[..|a| - 1];
    assert forall i :: 0 <= i < |a| - 2 ==> a[i] != a[|a| - 2];
  }

  /** The positions of `a` with position `k` cut out. */
  lemma CutIndices(a: seq<nat>, k: nat)
    requires k < |a|
    ensures var b := a[..k] + a[k + 1..];
            && |b| == |a| - 1
            && (forall i :: 0 <= i < k ==> b[i] == a[i])
            && (forall i :: k <= i < |b| ==> b[i] == a[i + 1])
  {
  }

  /** Unlinking an interior node `k`: its predecessor bypasses it. */
  lemma UnlinkInside<T>(cells: seq<Node<T>>, p: Link, a: seq<nat>, k: nat)
    requires Linked(cells, p, a) && Distinct(a) && 0 < k < |a| - 1
    ensures var c, b := SetNext(cells, a[k - 1], cells[a[k]].next), a[..k] + a[k + 1..];
            Linked(c, p, b) && Distinct(b) && Values(c, b) == Values(cells, a)[..k] + Values(cells, a)[k + 1..]
  {
    BypassLinked(cells, p, a, k);
    CutDistinct(a, k);
    BypassValues(cells, p, a, k);
  }

  /** The links of a bypass: the predecessor points past the unlinked node. */
  lemma BypassLinked<T>(cells: seq<Node<T>>, p: Link, a: seq<nat>, k: nat)
    requires Linked(cells, p, a) && Distinct(a) && 0 < k < |a| - 1
    ensures Linked(SetNext(cells, a[k - 1], cells[a[k]].next), p, a[..k] + a[k + 1..])
  {
    var c, b := SetNext(cells, a[k - 1], cells[a[k]].next), a[..k] + a[k + 1..];
    CutIndices(a, k);
    assert forall i :: 0 <= i < |a| && i != k - 1 ==> a[i] != a[k - 1];
    forall i | 0 <= i < |b| - 1
      ensures c[b[i]].next == Ref(b[i + 1])
    {
      if i < k - 1 {
      } else if i == k - 1 {
      } else {
        assert b[i] == a[i + 1] && b[i + 1] == a[i + 2];
      }
    }
  }

  /** Cutting a position out of a simple path keeps it simple. */
  lemma CutDistinct(a: seq<nat>, k: nat)
    requires Distinct(a) && k < |a|
    ensures Distinct(a[..k] + a[k + 1..])
  {
    CutIndices(a, k);
  }

  /** The elements along a bypass: position `k` is gone. */
  lemma BypassValues<T>(cells: seq<Node<T>>, p: Link, a: seq<nat>, k: nat)
    requires Linked(cells, p, a) && Distinct(a) && 0 < k < |a| - 1
    ensures var c, b := SetNext(cells, a[k - 1], cells[a[k]].next), a[..k] + a[k + 1..];
            (forall i :: 0 <= i < |b| ==> b[i] < |c|) &&
            Values(c, b) == Values(cells, a)[..k] + Values(cells, a)[k + 1..]
  {
    CutIndices(a, k);
    assert forall i :: 0 <= i < |a| && i != k - 1 ==> a[i] != a[k - 1];
  }

  /** Overwriting the element of node `k` changes that position only. */
  lemma Overwrite<T>(cells: seq<Node<T>>, p: Link, a: seq<nat>, k: nat, x: T)
    requires Linked(cells, p, a) && Distinct(a) && k < |a|
    ensures var c := cells[a[k] := Node(x, cells[a[k]].next)];
            Linked(c, p, a) && Values(c, a) == Values(cells, a)[k := x]
  {
    var c := cells[a[k] := Node(x, cells[a[k]].next)];
    assert forall i :: 0 <= i < |a| && i != k ==> a[i] != a[k];
  }
}
