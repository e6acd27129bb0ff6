/** The singly linked list `Lista`, which behaves like Python's built-in list
    while keeping only a head link, a tail link and a length.

    A list value holds the node arena, the head and tail links and the element
    count. Each modelled operation of the class is a member here that takes
    the list and, when it mutates, returns the list afterwards; when it
    raises, the list it returns is the one it was given. The operations that
    traverse the chain walk it from the head, as the class does, and are
    proved against the list's contents; `Clear` drops the chain without
    walking it, and `Len` and `Empty` are plain functions.
 */
module Listas {
  import opened Wrappers
  import opened Sequences
  import opened Slices
  import opened Chains

  datatype Lista<T> = Lista(cells: seq<Node<T>>, head: Link, tail: Link, size: nat)

  /** The addresses of the list's nodes, head first. */
  ghost function Addrs<T>(l: Lista<T>): seq<nat>
  {
    Chain(l.cells, l.head, l.size)
  }

  /** The elements of the list, head first. */
  ghost function Contents<T>(l: Lista<T>): seq<T>
  {
    Values(l.cells, Addrs(l))
  }

  /** The representation invariant. Following `size` links from the head meets
      `size` distinct nodes and ends at `Nil`, and a non-empty list's tail is
      its last node. An empty list may keep a stale tail: deleting the only
      node leaves it behind, and insertion never reads the tail of an empty
      list. */
  ghost predicate Valid<T>(l: Lista<T>)
  {
    var a := Addrs(l);
    && |a| == l.size
    && Linked(l.cells, l.head, a)
    && Distinct(a)
    && (l.size > 0 ==> l.tail == Ref(a[l.size - 1]))
  }

  /** A list whose links form the chain `a` is valid and has that chain. */
  lemma Establish<T>(l: Lista<T>, a: seq<nat>)
    requires Linked(l.cells, l.head, a) && |a| == l.size && Distinct(a)
    requires l.size > 0 ==> l.tail == Ref(a[l.size - 1])
    ensures Valid(l) && Addrs(l) == a
  {
    LinkedChain(l.cells, l.head, a);
  }

  /** Insertion into an empty list: the new node is both head and tail. */
  lemma InsertedAlone<T>(l: Lista<T>, x: T)
    requires Valid(l) && l.head == Nil
    ensures var l' := Lista(l.cells + [Node(x, Nil)], Ref(|l.cells|), Ref(|l.cells|), l.size + 1);
            Valid(l') && Contents(l') == [x]
  {
    var l' := Lista(l.cells + [Node(x, Nil)], Ref(|l.cells|), Ref(|l.cells|), l.size + 1);
    Establish(l', [|l.cells|]);
  }

  /** Insertion at the head of a non-empty list: the new node links to the old head. */
  lemma InsertedFirst<T>(l: Lista<T>, x: T)
    requires Valid(l) && l.head != Nil
    ensures var l' := Lista(l.cells + [Node(x, l.head)], Ref(|l.cells|), l.tail, l.size + 1);
            Valid(l') && Contents(l') == [x] + Contents(l)
  {
    var l' := Lista(l.cells + [Node(x, l.head)], Ref(|l.cells|), l.tail, l.size + 1);
    LinkFront(l.cells, l.head, Addrs(l), x);
    Establish(l', [|l.cells|] + Addrs(l));
  }

  /** Insertion at the end of a non-empty list: the old tail links to the new
      node, which becomes the tail. */
  lemma InsertedLast<T>(l: Lista<T>, x: T)
    requires Valid(l) && l.head != Nil
    ensures l.tail.Ref? && l.tail.addr < |l.cells|
    ensures var l' := Lista(SetNext(l.cells + [Node(x, Nil)], l.tail.addr, Ref(|l.cells|)),
                            l.head, Ref(|l.cells|), l.size + 1);
            Valid(l') && Contents(l') == Contents(l) + [x]
  {
    var a := Addrs(l);
    var l' := Lista(SetNext(l.cells + [Node(x, Nil)], l.tail.addr, Ref(|l.cells|)),
                    l.head, Ref(|l.cells|), l.size + 1);
    LinkBack(l.cells, l.head, a, x);
    Establish(l', a + [|l.cells|]);
  }

  /** Insertion between the nodes `k - 1` and `k`: the predecessor links to the
      new node, which links to the old node `k`. */
  lemma InsertedBefore<T>(l: Lista<T>, k: nat, x: T)
    requires Valid(l) && 0 < k < l.size
    ensures var prev := Addrs(l)[k - 1];
            prev < |l.cells| &&
            var l' := Lista(SetNext(l.cells + [Node(x, l.cells[prev].next)], prev, Ref(|l.cells|)),
                            l.head, l.tail, l.size + 1);
            Valid(l') && Contents(l') == Contents(l)[..k] + [x] + Contents(l)[k..]
  {
    var a := Addrs(l);
    var l' := Lista(SetNext(l.cells + [Node(x, l.cells[a[k - 1]].next)], a[k - 1], Ref(|l.cells|)),
                    l.head, l.tail, l.size + 1);
    LinkInside(l.cells, l.head, a, k, x);
    Establish(l', a[..k] + [|l.cells|] + a[k..]);
  }

  /** Deleting the head node: the head moves to its successor; the tail is untouched. */
  lemma DeletedFirst<T>(l: Lista<T>)
    requires Valid(l) && l.head != Nil
    ensures l.head.addr < |l.cells|
    ensures var l' := l.(head := l.cells[l.head.addr].next, size := l.size - 1);
            Valid(l') && Contents(l') == Contents(l)[1..]
  {
    var a := Addrs(l);
    var l' := l.(head := l.cells[l.head.addr].next, size := l.size - 1);
    UnlinkFirst(l.cells, l.head, a);
    Establish(l', a[1..]);
  }

  /** Deleting the last of several nodes: its predecessor loses its link and
      becomes the tail. */
  lemma DeletedLast<T>(l: Lista<T>)
    requires Valid(l) && l.size > 1
    ensures var prev := Addrs(l)[l.size - 2];
            prev < |l.cells| &&
            var l' := Lista(SetNext(l.cells, prev, Nil), l.head, Ref(prev), l.size - 1);
            Valid(l') && Contents(l') == Contents(l)[..l.size - 1]
  {
    var a := Addrs(l);
    var l' := Lista(SetNext(l.cells, a[l.size - 2], Nil), l.head, Ref(a[l.size - 2]), l.size - 1);
    UnlinkLast(l.cells, l.head, a);
    Establish(l', a[..l.size - 1]);
  }

  /** Deleting an interior node `k`: its predecessor links past it. */
  lemma DeletedInside<T>(l: Lista<T>, k: nat)
    requires Valid(l) && 0 < k < l.size - 1
    ensures var prev, cur := Addrs(l)[k - 1], Addrs(l)[k];
            prev < |l.cells| && cur < |l.cells| &&
            var l' := Lista(SetNext(l.cells, prev, l.cells[cur].next), l.head, l.tail, l.size - 1);
            Valid(l') && Contents(l') == Contents(l)[..k] + Contents(l)[k + 1..]
  {
    var a := Addrs(l);
    var l' := Lista(SetNext(l.cells, a[k - 1], l.cells[a[k]].next), l.head, l.tail, l.size - 1);
    UnlinkInside(l.cells, l.head, a, k);
    Establish(l', a[..k] + a[k + 1..]);
  }

  /** `Lista()`: the empty list. */
  function Empty<T>(): (l: Lista<T>)
    ensures Valid(l) && Contents(l) == []
  {
    Lista([], Nil, Nil, 0)
  }

  /** `len(lista)`: the stored count is the number of elements. */
  function Len<T>(l: Lista<T>): (n: nat)
    requires Valid(l)
    ensures n == |Contents(l)|
  {
    l.size
  }

  /** The walk shared by indexing, assignment, deletion and insertion: starting
      at the head, follow `k` links while remembering the node left behind. */
  method Seek<T>(l: Lista<T>, k: nat) returns (prev: Link, cur: nat)
    requires Valid(l) && k < l.size
    ensures cur < |l.cells| && cur == Addrs(l)[k]
    ensures l.cells[cur].content == Contents(l)[k]
    ensures l.cells[cur].next == if k + 1 < l.size then Ref(Addrs(l)[k + 1]) else Nil
    ensures k == 0 ==> prev == Nil
    ensures k > 0 ==> prev == Ref(Addrs(l)[k - 1])
  {
    ghost var a := Addrs(l);
    var i := 0;
    var atual := l.head;
    prev := Nil;
    while i < k
      invariant i <= k
      invariant atual == Ref(a[i])
      invariant i == 0 ==> prev == Nil
      invariant i > 0 ==> prev == Ref(a[i - 1])
    {
      prev := atual;
      atual := l.cells[atual.addr].next;
      i := i + 1;
    }
    cur := atual.addr;
  }

  /** `lista[item]` for an integer index. */
  method Get<T>(l: Lista<T>, item: int) returns (r: Result<T>)
    requires Valid(l)
    ensures r.Ok? <==> Resolve(item, |Contents(l)|).Some?
    ensures r.Err? ==> r.error == IndexError
    ensures r.Ok? ==> r.value == Contents(l)[Resolve(item, |Contents(l)|).value]
  {
    var n := l.size;
    var k := if item < 0 then item + n else item;
    if k < 0 || k >= n {
      return Err(IndexError);
    }
    var _, cur := Seek(l, k);
    r := Ok(l.cells[cur].content);
  }

  /** What `lista[key]` names: one element, or a slice. */
  datatype Key = At(index: int) | Sliced(slice: Slice)

  /** `lista[key] = value`. An integer index replaces that one element; a
      slice is refused. */
  method SetItem<T>(l: Lista<T>, key: Key, value: T) returns (l': Lista<T>, r: Outcome)
    requires Valid(l)
    ensures Valid(l')
    ensures key.Sliced? ==> r == Fail(Unsupported)
    ensures key.At? ==> (r.Pass? <==> Resolve(key.index, |Contents(l)|).Some?)
    ensures key.At? && r.Fail? ==> r.error == IndexError
    ensures r.Fail? ==> l' == l
    ensures r.Pass? ==>
              var k := Resolve(key.index, |Contents(l)|).value;
              Contents(l') == Contents(l)[k := value]
  {
    if key.Sliced? {
      return l, Fail(Unsupported);
    }
    var n := l.size;
    var k := if key.index < 0 then key.index + n else key.index;
    if k < 0 || k >= n {
      return l, Fail(IndexError);
    }
    ghost var a := Addrs(l);
    var _, cur := Seek(l, k);
    l' := l.(cells := l.cells[cur := Node(value, l.cells[cur].next)]);
    Overwrite(l.cells, l.head, a, k, value);
    Establish(l', a);
    r := Pass;
  }

  /** `inserir(índice, conteúdo)`: the element lands at the insertion point of
      the index, and everything else keeps its order. */
  method Insert<T>(l: Lista<T>, index: int, x: T) returns (l': Lista<T>)
    requires Valid(l)
    ensures Valid(l')
    ensures var s, c := Contents(l), InsertionPoint(index, |Contents(l)|);
            Contents(l') == s[..c] + [x] + s[c..]
    ensures |Contents(l')| == |Contents(l)| + 1
    ensures l.head == Nil ==> l'.head == l'.tail == Ref(|l.cells|)
  {
    ghost var s := Contents(l);
    var n := l.size;
    var k := if index < 0 then index + n else index;
    var novo := |l.cells|;
    if l.head == Nil {
      l' := Lista(l.cells + [Node(x, Nil)], Ref(novo), Ref(novo), n + 1);
      InsertedAlone(l, x);
    } else if k <= 0 {
      l' := Lista(l.cells + [Node(x, l.head)], Ref(novo), l.tail, n + 1);
      InsertedFirst(l, x);
      assert s[..0] + [x] + s[0..] == [x] + s;
    } else if k >= n {
      InsertedLast(l, x);
      l' := Lista(SetNext(l.cells + [Node(x, Nil)], l.tail.addr, Ref(novo)), l.head, Ref(novo), n + 1);
      assert s[..n] + [x] + s[n..] == s + [x];
    } else {
      var prev, _ := Seek(l, k);
      InsertedBefore(l, k, x);
      l' := Lista(SetNext(l.cells + [Node(x, l.cells[prev.addr].next)], prev.addr, Ref(novo)),
                  l.head, l.tail, n + 1);
    }
  }

  /** `inserir_início(conteúdo)`: insertion at index 0. */
  method InsertFront<T>(l: Lista<T>, x: T) returns (l': Lista<T>)
    requires Valid(l)
    ensures Valid(l') && Contents(l') == [x] + Contents(l)
  {
    l' := Insert(l, 0, x);
  }

  /** `inserir_fim(conteúdo)`: insertion at index `len(lista)`. */
  method InsertBack<T>(l: Lista<T>, x: T) returns (l': Lista<T>)
    requires Valid(l)
    ensures Valid(l') && Contents(l') == Contents(l) + [x]
  {
    l' := Insert(l, Len(l), x);
  }

  /** `del lista[item]` for an integer index: unlinks that node and returns its
      element. Unlinking the last of several nodes moves the tail back to its
      predecessor; unlinking the only node empties the head but leaves the
      tail where it was. */
  method Delete<T>(l: Lista<T>, item: int) returns (l': Lista<T>, r: Result<T>)
    requires Valid(l)
    ensures Valid(l')
    ensures r.Ok? <==> Resolve(item, |Contents(l)|).Some?
    ensures r.Err? ==> r.error == IndexError && l' == l
    ensures r.Ok? ==>
              var s, k := Contents(l), Resolve(item, |Contents(l)|).value;
              r.value == s[k] && Contents(l') == s[..k] + s[k + 1..]
    ensures r.Ok? ==> |Contents(l')| == |Contents(l)| - 1
    ensures r.Ok? && |Contents(l)| == 1 ==> l'.head == Nil && l'.tail == l.tail
    ensures r.Ok? && |Contents(l)| > 1 && Resolve(item, |Contents(l)|).value == |Contents(l)| - 1 ==>
              l'.tail == Ref(Addrs(l)[|Contents(l)| - 2])
  {
    var n := l.size;
    var k := if item < 0 then item + n else item;
    if k < 0 || k >= n {
      return l, Err(IndexError);
    }
    ghost var a := Addrs(l);
    ghost var s := Contents(l);
    var prev, cur := Seek(l, k);
    var node := l.cells[cur];
    if prev == Nil {
      DeletedFirst(l);
      l' := l.(head := node.next, size := n - 1);
      assert s[..0] + s[1..] == s[1..];
    } else if node.next == Nil {
      assert k == n - 1;
      DeletedLast(l);
      l' := Lista(SetNext(l.cells, prev.addr, Nil), l.head, prev, n - 1);
      assert s[..k] + s[k + 1..] == s[..n - 1];
    } else {
      assert k < n - 1;
      DeletedInside(l, k);
      l' := Lista(SetNext(l.cells, prev.addr, node.next), l.head, l.tail, n - 1);
    }
    r := Ok(node.content);
  }

  /** `pop(i)`: deletion at integer index `i`, which defaults to -1, so that
      `pop()` removes and returns the last element. */
  method Pop<T>(l: Lista<T>, i: int) returns (l': Lista<T>, r: Result<T>)
    requires Valid(l)
    ensures Valid(l')
    ensures r.Ok? <==> Resolve(i, |Contents(l)|).Some?
    ensures r.Err? ==> r.error == IndexError && l' == l
    ensures r.Ok? ==>
              var s, k := Contents(l), Resolve(i, |Contents(l)|).value;
              r.value == s[k] && Contents(l') == s[..k] + s[k + 1..]
    ensures i == -1 ==> (r.Ok? <==> |Contents(l)| > 0)
    ensures i == -1 && r.Ok? ==>
              var s := Contents(l);
              r.value == s[|s| - 1] && Contents(l') == s[..|s| - 1]
  {
    l', r := Delete(l, i);
  }

  /** `Lista(seq)`: every element of `seq` inserted at the end, in order. */
  method FromSeq<T>(xs: seq<T>) returns (l: Lista<T>)
    ensures Valid(l) && Contents(l) == xs
  {
    l := Empty();
    for i := 0 to |xs|
      invariant Valid(l) && Contents(l) == xs[..i]
    {
      l := InsertBack(l, xs[i]);
      assert xs[..i + 1] == xs[..i] + [xs[i]];
    }
    assert xs[..|xs|] == xs;
  }

  /** `lista == other`: equal lengths, then a positional comparison. */
  method Equal<T(==)>(l: Lista<T>, other: Lista<T>) returns (r: bool)
    requires Valid(l) && Valid(other)
    ensures r <==> Contents(l) == Contents(other)
  {
    if Len(l) != Len(other) {
      return false;
    }
    for i := 0 to Len(l)
      invariant Contents(l)[..i] == Contents(other)[..i]
    {
      var x := Get(l, i);
      var y := Get(other, i);
      if x.value != y.value {
        return false;
      }
      assert Contents(l)[..i + 1] == Contents(l)[..i] + [x.value];
      assert Contents(other)[..i + 1] == Contents(other)[..i] + [y.value];
    }
    assert Contents(l)[..Len(l)] == Contents(l);
    assert Contents(other)[..Len(other)] == Contents(other);
    return true;
  }

  /** The link reached after `i` steps of a walk from the head. */
  ghost function LinkAt<T>(l: Lista<T>, i: nat): Link
  {
    if i < |Addrs(l)| then Ref(Addrs(l)[i]) else Nil
  }

  /** One step of a walk from the head moves from position `i` to `i + 1`. */
  lemma StepLink<T>(l: Lista<T>, i: nat)
    requires Valid(l) && i < l.size
    ensures LinkAt(l, i).Ref? && LinkAt(l, i).addr < |l.cells|
    ensures l.cells[LinkAt(l, i).addr].content == Contents(l)[i]
    ensures l.cells[LinkAt(l, i).addr].next == LinkAt(l, i + 1)
  {
  }

  /** `contar(x)`: the number of elements equal to `x`. */
  method Count<T(==)>(l: Lista<T>, x: T) returns (cont: nat)
    requires Valid(l)
    ensures cont == multiset(Contents(l))[x]
  {
    ghost var s := Contents(l);
    ghost var i := 0;
    cont := 0;
    var atual := l.head;
    while atual != Nil
      invariant i <= |s| && atual == LinkAt(l, i)
      invariant cont == multiset(s[..i])[x]
      decreases |s| - i
    {
      StepLink(l, i);
      if l.cells[atual.addr].content == x {
        cont := cont + 1;
      }
      PrefixCount(s, i, x);
      atual := l.cells[atual.addr].next;
      i := i + 1;
    }
    assert s[..i] == s;
  }

  /** `index(x)`: the position of the first element equal to `x`. */
  method IndexOf<T(==)>(l: Lista<T>, x: T) returns (r: Result<nat>)
    requires Valid(l)
    ensures r.Ok? <==> x in Contents(l)
    ensures r.Err? ==> r.error == ValueError
    ensures r.Ok? ==> r.value < |Contents(l)| && Contents(l)[r.value] == x
    ensures r.Ok? ==> x !in Contents(l)[..r.value]
  {
    ghost var s := Contents(l);
    var i := 0;
    var atual := l.head;
    while atual != Nil
      invariant i <= |s| && atual == LinkAt(l, i)
      invariant x !in s[..i]
      decreases |s| - i
    {
      StepLink(l, i);
      if l.cells[atual.addr].content == x {
        return Ok(i);
      }
      PrefixSnoc(s, i);
      atual := l.cells[atual.addr].next;
      i := i + 1;
    }
    assert s[..i] == s;
    r := Err(ValueError);
  }

  /** `remover(x)`: deletes the first element equal to `x`, and nothing else. */
  method Remove<T(==)>(l: Lista<T>, x: T) returns (l': Lista<T>, r: Outcome)
    requires Valid(l)
    ensures Valid(l')
    ensures r.Pass? <==> x in Contents(l)
    ensures r.Fail? ==> r.error == ValueError && l' == l
    ensures r.Pass? ==>
              var s, k := Contents(l), FirstIndex(Contents(l), x);
              Contents(l') == s[..k] + s[k + 1..]
    ensures r.Pass? ==> multiset(Contents(l')) == multiset(Contents(l)) - multiset{x}
  {
    ghost var s := Contents(l);
    var i := 0;
    var atual := l.head;
    while atual != Nil
      invariant i <= |s| && atual == LinkAt(l, i)
      invariant x !in s[..i]
      decreases |s| - i
    {
      StepLink(l, i);
      if l.cells[atual.addr].content == x {
        var removed;
        l', removed := Delete(l, i);
        FirstIndexUnique(s, x, i);
        RemoveAtMultiset(s, i);
        return l', Pass;
      }
      PrefixSnoc(s, i);
      atual := l.cells[atual.addr].next;
      i := i + 1;
    }
    assert s[..i] == s;
    return l, Fail(ValueError);
  }

  /** The loop of a slice read over normalised bounds: from `start`, while
      the running index stays in `[0, stop)` and below the length, insert the
      element it names at the end of a new list and advance by `step`. The
      new list holds what the same loop over plain sequences, `PickLoop`,
      collects. */
  method Collect<T>(l: Lista<T>, start: nat, stop: int, step: int) returns (out: Lista<T>)
    requires Valid(l) && step != 0
    ensures Valid(out)
    ensures Contents(out) == PickLoop(Contents(l), start, stop, step, [])
  {
    ghost var s := Contents(l);
    out := Empty();
    var i: int := start;
    while 0 <= i < stop
      invariant Valid(out)
      invariant PickLoop(s, i, stop, step, Contents(out)) == PickLoop(s, start, stop, step, [])
      decreases if step > 0 then stop - i else i
    {
      if i >= Len(l) {
        break;
      }
      PickLoopTurn(s, i, stop, step, Contents(out));
      var e := Get(l, i);
      out := InsertBack(out, e.value);
      i := i + step;
    }
    PickLoopStops(s, i, stop, step, Contents(out));
  }

  /** `lista[start:stop:step]`: the slice bounds are normalised, a zero step
      raises `ValueError`, and otherwise the read loop's elements form a new
      list; for a positive step these are exactly the selected positions, in
      order. */
  method GetSlice<T>(l: Lista<T>, sl: Slice) returns (r: Result<Lista<T>>)
    requires Valid(l)
    ensures r.Err? <==> sl.step == Some(0)
    ensures r.Err? ==> r.error == ValueError
    ensures r.Ok? ==> Valid(r.value)
    ensures r.Ok? ==>
              var rg := Bounds(sl, |Contents(l)|).value;
              Contents(r.value) == PickLoop(Contents(l), rg.start, rg.stop, rg.step, [])
    ensures r.Ok? ==>
              var n := |Contents(l)|;
              var rg := Bounds(sl, n).value;
              rg.step > 0 ==> Contents(r.value) == Pick(Contents(l), Positions(rg, n))
  {
    var b := Bounds(sl, Len(l));
    if b.Err? {
      return Err(ValueError);
    }
    var out := Collect(l, b.value.start, b.value.stop, b.value.step);
    if b.value.step > 0 {
      PickLoopIsPick(Contents(l), b.value.start, b.value.stop, b.value.step);
    }
    r := Ok(out);
  }

  /** The loop of a slice delete over normalised bounds. Each deletion shifts
      the later elements one place left, so after it both the running index
      and `stop` are decreased by one. The list left is what the same loop
      over plain sequences, `PurgeLoop`, leaves. */
  method Purge<T>(l: Lista<T>, start: nat, stop: int, step: int) returns (l': Lista<T>)
    requires Valid(l) && step != 0
    ensures Valid(l')
    ensures Contents(l') == PurgeLoop(Contents(l), start, stop, step)
  {
    ghost var s := Contents(l);
    l' := l;
    var i: int := start;
    var stop' := stop;
    while 0 <= i < stop'
      invariant Valid(l')
      invariant PurgeLoop(Contents(l'), i, stop', step) == PurgeLoop(s, start, stop, step)
      decreases if step > 0 then stop' - i else i
    {
      if i >= Len(l') {
        break;
      }
      PurgeLoopTurn(Contents(l'), i, stop', step);
      var removed;
      l', removed := Delete(l', i);
      i := i + step;
      i := i - 1;
      stop' := stop' - 1;
    }
    PurgeLoopStops(Contents(l'), i, stop', step);
  }

  /** `del lista[start:stop:step]`: the slice bounds are normalised, a zero
      step raises `ValueError`, and otherwise the delete loop runs; for a
      positive step it deletes exactly the selected positions and keeps the
      rest in order. */
  method DeleteSlice<T>(l: Lista<T>, sl: Slice) returns (l': Lista<T>, r: Outcome)
    requires Valid(l)
    ensures Valid(l')
    ensures r.Fail? <==> sl.step == Some(0)
    ensures r.Fail? ==> r.error == ValueError && l' == l
    ensures r.Pass? ==>
              var rg := Bounds(sl, |Contents(l)|).value;
              Contents(l') == PurgeLoop(Contents(l), rg.start, rg.stop, rg.step)
    ensures r.Pass? ==>
              var n := |Contents(l)|;
              var rg := Bounds(sl, n).value;
              rg.step > 0 ==> Contents(l') == Kept(Contents(l), Positions(rg, n))
  {
    var b := Bounds(sl, Len(l));
    if b.Err? {
      return l, Fail(ValueError);
    }
    l' := Purge(l, b.value.start, b.value.stop, b.value.step);
    if b.value.step > 0 {
      PurgeLoopIsKept(Contents(l), b.value.start, b.value.stop, b.value.step);
    }
    r := Pass;
  }

  /** `copiar()`: the full slice `lista[:]`, a new list with the same elements. */
  method Copy<T>(l: Lista<T>) returns (c: Lista<T>)
    requires Valid(l)
    ensures Valid(c) && Contents(c) == Contents(l)
  {
    var r := GetSlice(l, Slice(None, None, None));
    ghost var s := Contents(l);
    UnitStepPick(s, 0, |s|);
    assert s[0..|s|] == s;
    c := r.value;
  }

  /** `limpar()`: no elements, and both head and tail absent. */
  function Clear<T>(l: Lista<T>): (l': Lista<T>)
    ensures Valid(l') && Contents(l') == []
    ensures l'.head == Nil && l'.tail == Nil
  {
    l.(head := Nil, tail := Nil, size := 0)
  }

  /** `reverso()`: copy the list, clear it, then insert each element of the
      copy at the head, reading the copy by index until it raises
      `IndexError`. */
  method Reverse<T>(l: Lista<T>) returns (l': Lista<T>)
    requires Valid(l)
    ensures Valid(l') && Contents(l') == Reversed(Contents(l))
  {
    ghost var s := Contents(l);
    var copy := Copy(l);
    l' := Clear(l);
    var i := 0;
    while true
      invariant Valid(l') && i <= |s|
      invariant Contents(l') == Reversed(s[..i])
      decreases |s| - i
    {
      var e := Get(copy, i);
      if e.Err? {
        break;
      }
      l' := InsertFront(l', e.value);
      ReversedSnoc(s, i);
      i := i + 1;
    }
    assert s[..i] == s;
  }
}
