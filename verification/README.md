# Lista: a singly linked list that behaves like Python's list

`listas_ligadas.py` defines `Lista`, a singly linked list that offers the
interface of Python's built-in `list`. It keeps only a link to the first node
(`__primeiro`), a link to the last node (`__último`) and an element count
(`__tamanho`). Each node (`Nó`) holds an element (`conteúdo`) and a link to
the next node (`próximo`). On top of that chain the class provides:

- indexing, assignment and deletion by integer position, with negative
  positions counted from the end;
- slice reads and slice deletes with `start:stop:step` (slice assignment is
  refused);
- insertion at any position, at the front and at the back;
- `pop`, `remover`, `contar`, `index`, `==`, `copiar`, `limpar` and `reverso`.

This project models that class in Dafny and proves each operation against
a plain-sequence meaning of the list.

- `Chains` (`chains.dfy`) holds the nodes.
  - Nodes live in an arena (`seq<Node<T>>`), addressed by position.
  - A `Link` is `Nil` or `Ref(addr)`.
  - A list's *chain* is the sequence of addresses met by following `next`
    from the head.
  - Lemmas there show that each relinking the class performs keeps the chain
    simple and `Nil`-terminated. These are: a new head, a new tail, a splice,
    unlinking the head, the tail or an interior node, and overwriting an
    element. They also give the element sequence afterwards.
- `Listas` (`listas.dfy`) holds the list.
  - A list value is the arena, the head and tail links, and the count.
  - `Contents(l)` is the sequence of elements along the chain.
  - `Valid(l)` is the representation invariant.
  - Each operation listed above is a member here, and so are `len` and the
    constructor. Those that traverse the chain walk it from the head as the
    class does and are proved against `Contents`. `Clear` drops the chain
    without walking it (see "## Left out"), and `Len` and `Empty` are plain
    functions. A mutating member returns the list afterwards. One that raises
    returns the list it was given, together with the exception.
- `Sequences` (`sequences.dfy`) holds the plain-sequence meanings: index
  resolution, the insertion point, the first occurrence, and reversal.
- `Slices` (`slices.dfy`) handles slices.
  - It normalises slice bounds and defines the positions a positive step
    selects (`Progression`).
  - It defines the two reference meanings: reading those positions (`Pick`)
    and deleting them (`Kept`).
  - It defines the two loops of the class over plain sequences (`PickLoop`,
    `PurgeLoop`), including the slice delete's index and `stop` compensation.
    For a positive step it proves that these loops compute `Pick` and `Kept`.
- `Wrappers` (`wrappers.dfy`) holds `Option`, `Result` and `Outcome`, plus
  the three exceptions the class raises:
  - `IndexError`;
  - `ValueError`;
  - `Unsupported`, for the bare `Exception` of slice assignment.

The stale tail. The code and the natural invariant ("the tail is `None`
exactly when the list is empty") disagree, and the model follows the code.
- Deleting the only node takes the branch for the first node
  (`listas_ligadas.py:202-204`). That branch sets the head to `None` and
  leaves `__último` pointing at the removed node.
- `inserir` tests `__primeiro is None` before it reads the tail
  (`listas_ligadas.py:300-304`), so the stale tail is never used.
- `Valid` therefore asks for `size > 0 ==> tail is the last node` and says
  nothing about the tail of an empty list.
- `Listas.Delete` states the stale tail outright, and `Listas.Clear` states
  that `limpar` sets both links to `None`.
- A single-element delete also does not clear the removed node's `próximo`
  or `conteúdo`. In the model the unlinked cell just stays in the arena,
  unreachable from the head.

Negative steps. The slice loops only stop for a negative step because the
running index drops below 0. They then behave unlike Python's list, and
unlike each other: on three elements `[2:3:-1]` reads positions 2, 1 and 0,
but deletes positions 2 and 0. The model states both loops literally for
every non-zero step (`Listas.GetSlice`, `Listas.DeleteSlice`). It gives the
closed form (`Pick`, `Kept`) only for a positive step.
`Slices.NegativeStepMismatch` records the three-element case.

## Model

| member | source | states |
|---|---|---|
| Chains.LinkedChain | listas_ligadas.py:123-134 | a chain whose links are all in place is exactly what a walk of that many `próximo` links from the head visits |
| Chains.LinkFront | listas_ligadas.py:309-312 | a new node linked to the old head becomes the head, the chain stays simple, and the elements gain the new one in front |
| Chains.LinkBack | listas_ligadas.py:315-318 | linking the old last node to a new node makes it the end of the chain, and the elements gain the new one at the back |
| Chains.LinkInside | listas_ligadas.py:327-330 | splicing a new node after node `k - 1` keeps the chain simple and `None`-terminated and puts the new element at position `k` |
| Chains.UnlinkFirst | listas_ligadas.py:202-204 | moving the head to its successor drops exactly the first element |
| Chains.UnlinkLast | listas_ligadas.py:205-208 | clearing the predecessor's link ends the chain there and drops exactly the last element |
| Chains.UnlinkInside | listas_ligadas.py:209-211 | linking the predecessor past an interior node drops exactly that element and keeps the others in order |
| Chains.Overwrite | listas_ligadas.py:156-158 | overwriting one node's `conteúdo` keeps the chain and changes only that position |
| Listas.Valid | listas_ligadas.py:202-208 | the representation invariant: following `size` links from the head meets `size` distinct nodes and ends at `None`, and a non-empty list's tail is its last node; an empty list's tail is left unconstrained because deleting the only node (lines 202-204) leaves it stale, which is harmless since insertion tests the head first (lines 300-304) |
| Listas.InsertedAlone | listas_ligadas.py:300-304 | a node inserted into an empty list is head and tail, and the list holds just that element |
| Listas.InsertedFirst | listas_ligadas.py:305-312 | insertion at the front of a non-empty list keeps the invariant and prepends the element |
| Listas.InsertedLast | listas_ligadas.py:313-318 | insertion after the tail keeps the invariant, makes the new node the tail, and appends the element |
| Listas.InsertedBefore | listas_ligadas.py:319-335 | insertion between nodes `k - 1` and `k` keeps the invariant and places the element at position `k` |
| Listas.DeletedFirst | listas_ligadas.py:202-204 | unlinking the head keeps the invariant and removes the first element, leaving the tail link alone |
| Listas.DeletedLast | listas_ligadas.py:205-208 | unlinking the last of several nodes keeps the invariant and moves the tail to the predecessor |
| Listas.DeletedInside | listas_ligadas.py:209-211 | unlinking an interior node keeps the invariant and removes exactly that element |
| Listas.Empty | listas_ligadas.py:14-16 | a new list satisfies the invariant and has no elements |
| Listas.Len | listas_ligadas.py:51-52 | the stored count is the number of elements along the chain |
| Listas.Seek | listas_ligadas.py:194-220 | walking `k` links from the head reaches the node holding element `k`, and the node left behind is node `k - 1`, or none at the head |
| Listas.Get | listas_ligadas.py:113-134 | an index in `[-n, n)` yields the element at that index, counting from the end when negative; any other index raises `IndexError` |
| Listas.SetItem | listas_ligadas.py:136-162 | a slice key raises the slice-assignment exception; an index in range replaces only that element; any other index raises `IndexError` and changes nothing |
| Listas.Insert | listas_ligadas.py:292-340 | the list becomes `s[..c] + [x] + s[c..]` for the clamped insertion point `c`, one element longer; inserting into an empty list makes the new node head and tail |
| Listas.InsertFront | listas_ligadas.py:284-285 | `inserir_início` prepends the element |
| Listas.InsertBack | listas_ligadas.py:288-289 | `inserir_fim` appends the element |
| Listas.Delete | listas_ligadas.py:186-215 | an index in range returns that element and leaves every other element in order, one fewer; deleting the last of several nodes moves the tail to its predecessor; deleting the only node leaves the tail stale; an index out of range raises `IndexError` and changes nothing |
| Listas.Pop | listas_ligadas.py:240-241 | `pop(i)` is deletion at `i`; with the default `-1` it removes and returns the last element, and raises `IndexError` exactly on an empty list |
| Listas.FromSeq | listas_ligadas.py:22-24 | building from a sequence by appending each element yields that sequence in order |
| Listas.Equal | listas_ligadas.py:55-66 | `==` holds exactly when both lists have the same elements in the same order |
| Listas.StepLink | listas_ligadas.py:261-266 | one step of a walk from the head moves from the node holding element `i` to the node holding element `i + 1` |
| Listas.Count | listas_ligadas.py:258-268 | `contar(x)` is the number of occurrences of `x` |
| Listas.IndexOf | listas_ligadas.py:271-281 | `index(x)` is the smallest position holding `x`, and raises `ValueError` exactly when `x` is absent |
| Listas.Remove | listas_ligadas.py:244-255 | `remover(x)` deletes exactly the first occurrence of `x`, taking one copy of `x` out of the multiset of elements, and raises `ValueError` and changes nothing when `x` is absent |
| Listas.Collect | listas_ligadas.py:101-111 | the slice-read loop over the nodes builds a list holding what the same loop over plain sequences collects |
| Listas.GetSlice | listas_ligadas.py:93-111 | a zero step raises `ValueError`; otherwise the new list is the read loop's result, which for a positive step is exactly the elements at the selected positions, in order |
| Listas.Purge | listas_ligadas.py:170-182 | the slice-delete loop over the nodes, with its index and `stop` compensation, leaves what the same loop over plain sequences leaves |
| Listas.DeleteSlice | listas_ligadas.py:165-182 | a zero step raises `ValueError` and changes nothing; otherwise the list is what the delete loop leaves, which for a positive step is the original elements at the unselected positions, in order |
| Listas.Copy | listas_ligadas.py:343-344 | `copiar()` is a new list with the same elements |
| Listas.Clear | listas_ligadas.py:347-360 | `limpar()` leaves no elements and sets both the head and the tail to `None` |
| Listas.Reverse | listas_ligadas.py:363-370 | `reverso()` leaves exactly the reverse of the previous elements |
| Sequences.Resolve | listas_ligadas.py:116-121 | an index is accepted exactly when it lies in `[-n, n)`; a negative one is shifted by `n` |
| Sequences.ResolveSymmetric | listas_ligadas.py:116-121 | index `i` and index `i - n` name the same element |
| Sequences.InsertionPoint | listas_ligadas.py:295-319 | the insertion point is the index shifted once by `n` when negative, then clamped to `[0, n]` |
| Sequences.InsertThenDelete | listas_ligadas.py:292-340 | inserting at a position and then deleting that position restores the original sequence |
| Sequences.FirstIndex | listas_ligadas.py:271-281 | the position found holds `x` and no earlier position does |
| Sequences.FirstIndexUnique | listas_ligadas.py:244-250 | the first position of a walk that holds `x`, with none before it, is the first index of `x` |
| Sequences.RemoveAtMultiset | listas_ligadas.py:244-250 | deleting one position removes one copy of its element and nothing else |
| Sequences.PrefixCount | listas_ligadas.py:262-266 | each step of the counting walk adds one exactly when the node holds `x` |
| Sequences.ReverseInvolution | listas_ligadas.py:363-370 | reversing twice restores the original order, and reversal keeps the length |
| Sequences.ReversedSnoc | listas_ligadas.py:369-370 | inserting the next element of the copy at the front extends the reversal of the prefix read so far |
| Slices.Bounds | listas_ligadas.py:69-90 | omitted bounds default to 0, `n` and 1; a negative start is shifted by `n` and clamped at 0; a negative stop is shifted by `n` only; a zero step raises `ValueError` |
| Slices.PickLoop | listas_ligadas.py:101-111 | the slice-read loop over a plain sequence, for any non-zero step: from `start`, while `0 <= i < stop` and `i` is below the length, append element `i` and advance by `step` |
| Slices.PurgeLoop | listas_ligadas.py:170-182 | the slice-delete loop over a plain sequence, for any non-zero step: while `0 <= i < stop` and `i` is below the length, delete position `i`, then `i += step`, `i -= 1` and `stop -= 1` |
| Slices.Progression | listas_ligadas.py:102-109 | the positions a positive step visits start at `start`, stay below the bound, strictly increase, and end one step short of the bound |
| Slices.ProgressionClosedForm | listas_ligadas.py:102-109 | the `j`-th visited position is `start + j * step`, and the count is the least one reaching the bound |
| Slices.Positions | listas_ligadas.py:102-105 | the selected positions of a normalised slice are positions of the list, below `min(stop, n)` |
| Slices.UnitStepPick | listas_ligadas.py:343-344 | with step 1 a slice read is the contiguous stretch `s[start..bound]`, so the full slice is the whole list |
| Slices.UnitStepKept | listas_ligadas.py:170-182 | with step 1 a slice delete leaves `s[..start] + s[bound..]` |
| Slices.KeptInterval | listas_ligadas.py:170-182 | deleting exactly the positions of an interval leaves what lies outside it |
| Slices.DeletingIsKept | listas_ligadas.py:177-182 | deleting the selected positions one by one, each at its index shifted by the deletions so far, passes through the stages "kept prefix, then untouched rest" |
| Slices.DeletingAll | listas_ligadas.py:177-182 | after every selected position has been deleted at its shifted index, the list is the original with those positions removed |
| Slices.PickPrefixIsPick | listas_ligadas.py:102-109 | appending the selected elements one at a time builds the elements at the selected positions |
| Slices.ProgressionVisits | listas_ligadas.py:103-109 | the positive-step progression is the sequence of indices the read and delete loops visit |
| Slices.PickLoopIsPick | listas_ligadas.py:101-111 | for a positive step the read loop collects exactly the elements at `start, start + step, ...` below `min(stop, n)`, in order |
| Slices.PurgeLoopIsKept | listas_ligadas.py:170-182 | for a positive step the delete loop, with its `i -= 1` and `stop -= 1` compensation, removes exactly the original positions `start, start + step, ...` below `min(stop, n)` and keeps the rest in order |
| Slices.NegativeStepMismatch | listas_ligadas.py:170-182 | for step -1 on three elements the read loop selects positions 2, 1 and 0 while the delete loop removes only positions 2 and 0 |

## Left out

- The iteration cursor `__next__` and `__iterando` (`listas_ligadas.py:38-48`) are not modelled. Neither are its resets after mutation. `for e in lista` does not use the cursor: `Lista` defines no `__iter__`, so Python falls back to indexing from 0 until `IndexError`, and `Listas.Reverse` models that fallback.
- `__str__` and `__repr__` are not modelled. They depend on Python's `repr` of arbitrary elements.
- The constructor's `collections.Iterable` test and its `TypeError` are not modelled. The constructor takes a sequence.
- `limpar` walks the chain to null each node's `próximo` and `conteúdo` (`listas_ligadas.py:350-355`). That only helps garbage collection, so `Listas.Clear` does not walk the chain: it resets the head, the tail and the count, and the old cells stay in the arena, unreachable.
- Listas.GetSlice: for a negative step the contract gives only the literal read loop (`PickLoop`), because that loop has no meaning as a Python slice.
- Listas.DeleteSlice: for a negative step the contract gives only the literal delete loop (`PurgeLoop`), because its `step - 1` stride has no meaning as a Python slice.
- The slice delete returns `None`, so nothing is stated about its result. `pop` with a slice argument is left out for the same reason.
- Listas.Equal: `other` is another `Lista`. The source accepts any object with `len` and indexing.
- Element equality is Dafny's `==`, which assumes every element type has well-behaved equality. A user-defined Python `__eq__` can make `contar`, `index`, `remover` and `==` disagree with this.
