/** Reference meanings, over plain sequences, of the list's positional
    operations: how an index is resolved against the length, where an
    insertion lands, which occurrence a search finds, and what reversal gives.
    The linked implementation in module Listas is proved against these.
 */
module Sequences {
  import opened Wrappers

  /** Resolves a (possibly negative) element index against length `n`: a
      negative index counts from the end. `None` means the index is outside the
      list, which the list reports as an `IndexError`. */
  function Resolve(i: int, n: nat): (r: Option<nat>)
    ensures r.Some? <==> -(n as int) <= i < n
    ensures r.Some? ==> r.value < n
    ensures r.Some? && 0 <= i ==> r.value == i
    ensures r.Some? && i < 0 ==> r.value == i + n
  {
    var j := if i < 0 then i + n else i;
    if j < 0 || j >= n then None else Some(j)
  }

  /** Index symmetry: position `i` and position `i - n` name the same element. */
  lemma ResolveSymmetric(i: int, n: nat)
    requires 0 <= i < n
    ensures Resolve(i - n, n) == Resolve(i, n) == Some(i)
  {
  }

  /** The position at which an insertion at index `k` lands in a list of
      length `n`: a negative `k` is resolved once by adding `n`, then anything
      at or below 0 goes to the front and anything at or past `n` to the back. */
  function InsertionPoint(k: int, n: nat): (c: nat)
    ensures c <= n
    ensures 0 <= k <= n ==> c == k
    ensures -(n as int) <= k < 0 ==> c == k + n
    ensures k < -(n as int) ==> c == 0
    ensures n < k ==> c == n
  {
    var j := if k < 0 then k + n else k;
    if j <= 0 then 0 else if j >= n then n else j
  }

  /** Inserting at a resolved position and then deleting that position gives
      back the original sequence. */
  lemma InsertThenDelete<T>(s: seq<T>, c: nat, x: T)
    requires c <= |s|
    ensures var t := s[..c] + [x] + s[c..];
            |t| == |s| + 1 && t[c] == x && t[..c] + t[c + 1..] == s
  {
    var t := s[..c] + [x] + s[c..];
    assert t[..c] == s[..c];
    assert t[c + 1..] == s[c..];
  }

  /** The smallest position holding `x`. */
  function FirstIndex<T(==)>(s: seq<T>, x: T): (k: nat)
    requires x in s
    ensures k < |s| && s[k] == x
    ensures x !in s[..k]
  {
    if s[0] == x then 0
    else
      var k := FirstIndex(s[1..], x);
      assert s[..k + 1] == [s[0]] + s[1..][..k];
      k + 1
  }

  /** A position holding `x` with no `x` before it is the first index of `x`. */
  lemma FirstIndexUnique<T>(s: seq<T>, x: T, i: nat)
    requires i < |s| && s[i] == x && x !in s[..i]
    ensures FirstIndex(s, x) == i
  {
  }

  /** Deleting position `i` takes one copy of `s[i]` out of the multiset. */
  lemma RemoveAtMultiset<T>(s: seq<T>, i: nat)
    requires i < |s|
    ensures multiset(s[..i] + s[i + 1..]) == multiset(s) - multiset{s[i]}
  {
    assert s == s[..i] + [s[i]] + s[i + 1..];
  }

  /** A prefix one position longer is the shorter prefix followed by that element. */
  lemma PrefixSnoc<T>(s: seq<T>, i: nat)
    requires i < |s|
    ensures s[..i + 1] == s[..i] + [s[i]]
  {
  }

  /** Counting `x` in a prefix one position longer adds one exactly when that
      position holds `x`. */
  lemma PrefixCount<T>(s: seq<T>, i: nat, x: T)
    requires i < |s|
    ensures multiset(s[..i + 1])[x] == multiset(s[..i])[x] + (if s[i] == x then 1 else 0)
  {
    PrefixSnoc(s, i);
  }

  /** The reversal of `s`. */
  ghost function Reversed<T>(s: seq<T>): seq<T>
  {
    seq(|s|, k requires 0 <= k < |s| => s[|s| - 1 - k])
  }

  /** Reversing twice restores the original order, and reversal keeps the length. */
  lemma ReverseInvolution<T>(s: seq<T>)
    ensures |Reversed(s)| == |s|
    ensures Reversed(Reversed(s)) == s
  {
    assert forall k :: 0 <= k < |s| ==> Reversed(Reversed(s))[k] == s[k];
  }

  /** Reversing a prefix one element longer puts that element in front. */
  lemma ReversedSnoc<T>(s: seq<T>, i: nat)
    requires i < |s|
    ensures Reversed(s[..i + 1]) == [s[i]] + Reversed(s[..i])
  {
    var r := Reversed(s[..i + 1]);
    assert forall k :: 0 < k <= i ==> r[k] == Reversed(s[..i])[k - 1];
  }
}
