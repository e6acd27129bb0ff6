/** Slices: how a `start:stop:step` request is normalised against the list's
    length, which positions it selects for a positive step, and the reference
    meanings of reading those positions (`Pick`) and deleting them (`Kept`).
 */
module Slices {
  import opened Wrappers
  import opened Sequences

  /** A slice request as written by the caller; each bound may be omitted. */
  datatype Slice = Slice(start: Option<int>, stop: Option<int>, step: Option<int>)

  /** A normalised slice: `start` is never negative, `stop` may still be. */
  datatype Range = Range(start: nat, stop: int, step: int)

  function Min(a: int, b: int): int
  {
    if a <= b then a else b
  }

  /** Normalises a slice against length `n`. Omitted bounds default to 0, `n`
      and 1. A negative start counts from the end and is then clamped at 0; a
      negative stop counts from the end and is not clamped. A zero step is a
      `ValueError`. */
  function Bounds(sl: Slice, n: nat): (r: Result<Range>)
    ensures r.Err? <==> sl.step == Some(0)
    ensures r.Err? ==> r.error == ValueError
    ensures r.Ok? ==> r.value.step != 0
    ensures r.Ok? && sl.step.None? ==> r.value.step == 1
    ensures r.Ok? && sl.step.Some? ==> r.value.step == sl.step.value
    ensures r.Ok? && sl.start.None? ==> r.value.start == 0
    ensures r.Ok? && sl.start.Some? && Resolve(sl.start.value, n).Some? ==>
              r.value.start == Resolve(sl.start.value, n).value
    ensures r.Ok? && sl.start.Some? && sl.start.value >= n ==> r.value.start == sl.start.value
    ensures r.Ok? && sl.start.Some? && sl.start.value < -(n as int) ==> r.value.start == 0
    ensures r.Ok? && sl.stop.None? ==> r.value.stop == n
    ensures r.Ok? && sl.stop.Some? && sl.stop.value >= 0 ==> r.value.stop == sl.stop.value
    ensures r.Ok? && sl.stop.Some? && sl.stop.value < 0 ==> r.value.stop == sl.stop.value + n
  {
    var start := if sl.start.None? then 0 else sl.start.value;
    var stop := if sl.stop.None? then n else sl.stop.value;
    var step := if sl.step.None? then 1 else sl.step.value;
    var start := if start < 0 then (if start + n < 0 then 0 else start + n) else start;
    var stop := if stop < 0 then stop + n else stop;
    if step == 0 then Err(ValueError) else Ok(Range(start, stop, step))
  }

  /** The positions `start, start + step, start + 2 * step, ...` strictly
      below `bound`: the first is `start`, each is `step` past the one before,
      all are below `bound`, and one more step would reach it. */
  function Progression(start: nat, bound: int, step: nat): (r: seq<nat>)
    requires step > 0
    ensures |r| == 0 <==> start >= bound
    ensures |r| > 0 ==> r[0] == start && r[|r| - 1] + step >= bound
    ensures forall j :: 0 <= j < |r| ==> start <= r[j] < bound
    ensures forall i, j :: 0 <= i < j < |r| ==> r[i] < r[j]
    decreases bound - start
  {
    if start >= bound then []
    else
      var rest := Progression(start + step, bound, step);
      var r := [start] + rest;
      assert forall j :: 1 <= j < |r| ==> r[j] == rest[j - 1];
      r
  }

  /** The closed form: the `j`-th position is `start + j * step`, and the
      progression stops at the first such position reaching `bound`. */
  lemma {:induction false} ProgressionClosedForm(start: nat, bound: int, step: nat)
    requires step > 0
    ensures var r := Progression(start, bound, step);
            (forall j :: 0 <= j < |r| ==> r[j] == start + j * step) &&
            start + |r| * step >= bound
    decreases bound - start
  {
    if start < bound {
      var r := Progression(start, bound, step);
      var rest := Progression(start + step, bound, step);
      ProgressionClosedForm(start + step, bound, step);
      assert r == [start] + rest;
      forall j | 1 <= j < |r|
        ensures r[j] == start + j * step
      {
        StepShift(j - 1, step);
      }
      StepShift(|rest|, step);
    }
  }

  lemma StepShift(j: int, step: int)
    ensures (j + 1) * step == j * step + step
  {
  }

  /** The positions a slice with a positive step selects in a list of length `n`. */
  function Positions(rg: Range, n: nat): (r: seq<nat>)
    requires rg.step > 0
    ensures forall j :: 0 <= j < |r| ==> r[j] < n
  {
    Progression(rg.start, Min(rg.stop, n), rg.step)
  }

  /** The elements of `s` at positions `ps`, in the order of `ps`. */
  ghost function Pick<T>(s: seq<T>, ps: seq<nat>): seq<T>
    requires forall j :: 0 <= j < |ps| ==> ps[j] < |s|
  {
    seq(|ps|, j requires 0 <= j < |ps| => s[ps[j]])
  }

  /** The elements of `s` whose positions are not in `ps`, in their original order. */
  ghost function Kept<T>(s: seq<T>, ps: seq<nat>): seq<T>
  {
    if s == [] then []
    else Kept(s[..|s| - 1], ps) + (if |s| - 1 in ps then [] else [s[|s| - 1]])
  }

  /** Extending a prefix by position `q` keeps `s[q]` exactly when `q` is not deleted. */
  lemma KeptSnoc<T>(s: seq<T>, ps: seq<nat>, q: nat)
    requires q < |s|
    ensures Kept(s[..q + 1], ps) == Kept(s[..q], ps) + (if q in ps then [] else [s[q]])
  {
    var t := s[..q + 1];
    assert t[..|t| - 1] == s[..q];
  }

  /** Extending a prefix over positions none of which is deleted keeps all of them. */
  lemma {:induction false} KeptExtend<T>(s: seq<T>, ps: seq<nat>, a: nat, b: nat)
    requires a <= b <= |s|
    requires forall p :: a <= p < b ==> p !in ps
    ensures Kept(s[..b], ps) == Kept(s[..a], ps) + s[a..b]
    decreases b - a
  {
    if a < b {
      KeptExtend(s, ps, a, b - 1);
      KeptSnoc(s, ps, b - 1);
      assert s[a..b] == s[a..b - 1] + [s[b - 1]];
    }
  }

  /** Extending a prefix over positions all of which are deleted adds nothing. */
  lemma {:induction false} KeptSkip<T>(s: seq<T>, ps: seq<nat>, a: nat, b: nat)
    requires a <= b <= |s|
    requires forall p :: a <= p < b ==> p in ps
    ensures Kept(s[..b], ps) == Kept(s[..a], ps)
    decreases b - a
  {
    if a < b {
      KeptSkip(s, ps, a, b - 1);
      KeptSnoc(s, ps, b - 1);
    }
  }

  /** With step 1 the progression is every position of `[start, bound)`. */
  lemma UnitProgression(start: nat, bound: nat)
    requires start <= bound
    ensures var ps := Progression(start, bound, 1);
            |ps| == bound - start && forall j :: 0 <= j < |ps| ==> ps[j] == start + j
  {
    var ps := Progression(start, bound, 1);
    ProgressionClosedForm(start, bound, 1);
    if |ps| > 0 {
      assert ps[|ps| - 1] == start + (|ps| - 1) * 1;
    }
  }

  /** With step 1, a slice read is the contiguous subsequence `s[start..bound]`. */
  lemma UnitStepPick<T>(s: seq<T>, start: nat, bound: nat)
    requires start <= bound <= |s|
    ensures Pick(s, Progression(start, bound, 1)) == s[start..bound]
  {
    UnitProgression(start, bound);
  }

  /** With step 1, a slice delete leaves `s[..start] + s[bound..]`. */
  lemma UnitStepKept<T>(s: seq<T>, start: nat, bound: nat)
    requires start <= bound <= |s|
    ensures Kept(s, Progression(start, bound, 1)) == s[..start] + s[bound..]
  {
    var ps := Progression(start, bound, 1);
    UnitProgression(start, bound);
    assert forall p :: p in ps <==> start <= p < bound by {
      forall p | start <= p < bound
        ensures p in ps
      {
        assert ps[p - start] == p;
      }
    }
    KeptInterval(s, ps, start, bound);
  }

  /** Deleting exactly the positions of `[start, bound)` leaves what lies
      outside that interval. */
  lemma KeptInterval<T>(s: seq<T>, ps: seq<nat>, start: nat, bound: nat)
    requires start <= bound <= |s|
    requires forall p :: p in ps <==> start <= p < bound
    ensures Kept(s, ps) == s[..start] + s[bound..]
  {
    KeptExtend(s, ps, 0, start);
    assert s[..0] == [];
    KeptSkip(s, ps, start, bound);
    KeptExtend(s, ps, bound, |s|);
    assert s[..|s|] == s;
  }

  /** Past a deleted position `q`, and up to the next deleted position `q'`,
      the prefix kept so far grows by exactly the elements strictly between. */
  lemma KeptAfterHit<T>(s: seq<T>, ps: seq<nat>, q: nat, q': nat)
    requires q < q' <= |s|
    requires q in ps
    requires forall p :: q < p < q' ==> p !in ps
    ensures Kept(s[..q], ps) + s[q + 1..] == Kept(s[..q'], ps) + s[q'..]
  {
    KeptSnoc(s, ps, q);
    KeptExtend(s, ps, q + 1, q');
    assert s[q + 1..] == s[q + 1..q'] + s[q'..];
  }

  /** Past the last deleted position `q`, the kept prefix followed by the
      rest is the whole kept list. */
  lemma KeptAfterLast<T>(s: seq<T>, ps: seq<nat>, q: nat)
    requires q < |s|
    requires q in ps
    requires forall p :: q < p < |s| ==> p !in ps
    ensures Kept(s[..q], ps) + s[q + 1..] == Kept(s, ps)
  {
    KeptAfterHit(s, ps, q, |s|);
    var k := Kept(s[..|s|], ps);
    assert k + s[|s|..] == k;
    assert s[..|s|] == s;
  }

  /** In a strictly increasing sequence of positions nothing lies strictly
      between two neighbours, nor beyond the last one. */
  lemma Gap(ps: seq<nat>, j: nat, bound: int)
    requires j < |ps|
    requires forall a, b :: 0 <= a < b < |ps| ==> ps[a] < ps[b]
    requires j + 1 < |ps| ==> bound == ps[j + 1]
    ensures forall p :: ps[j] < p < bound ==> p !in ps
  {
    forall m | 0 <= m < |ps|
      ensures ps[m] <= ps[j] || bound <= ps[m]
    {
      if m < j {
        assert ps[m] < ps[j];
      } else if m > j + 1 {
        assert ps[j + 1] < ps[m];
      }
    }
  }

  /** Before the first position of a strictly increasing sequence nothing is in it. */
  lemma Below(ps: seq<nat>)
    requires |ps| > 0
    requires forall a, b :: 0 <= a < b < |ps| ==> ps[a] < ps[b]
    ensures forall p :: p < ps[0] ==> p !in ps
  {
    forall m | 0 < m < |ps|
      ensures ps[0] < ps[m]
    {
    }
  }

  /** The list during a slice delete just before its `j`-th deletion: the
      kept prefix below the `j`-th selected position followed by the untouched
      rest; once every selected position is gone, the whole kept list. */
  ghost function Stage<T>(s: seq<T>, ps: seq<nat>, j: nat): seq<T>
    requires j <= |ps|
    requires forall k :: 0 <= k < |ps| ==> ps[k] < |s|
  {
    if j < |ps| then Kept(s[..ps[j]], ps) + s[ps[j]..] else Kept(s, ps)
  }

  /** Before the first deletion nothing is gone yet. */
  lemma DeleteStart<T>(s: seq<T>, ps: seq<nat>)
    requires forall a, b :: 0 <= a < b < |ps| ==> ps[a] < ps[b]
    requires forall j :: 0 <= j < |ps| ==> ps[j] < |s|
    ensures Stage(s, ps, 0) == s
  {
    if |ps| > 0 {
      assert s == Kept(s[..ps[0]], ps) + s[ps[0]..] by {
        assert s[..0] == [];
        Below(ps);
        KeptExtend(s, ps, 0, ps[0]);
      }
    } else {
      assert s == Kept(s, ps) by {
        assert s[..0] == [];
        KeptExtend(s, ps, 0, |s|);
        assert s[..|s|] == s;
      }
    }
  }

  /** Past the `j`-th selected position, the kept prefix followed by the rest
      is the list just before the next deletion. */
  lemma KeptNext<T>(s: seq<T>, ps: seq<nat>, j: nat)
    requires forall a, b :: 0 <= a < b < |ps| ==> ps[a] < ps[b]
    requires forall k :: 0 <= k < |ps| ==> ps[k] < |s|
    requires j < |ps|
    ensures Kept(s[..ps[j]], ps) + s[ps[j] + 1..] == Stage(s, ps, j + 1)
  {
    if j + 1 < |ps| {
      assert Stage(s, ps, j + 1) == Kept(s[..ps[j + 1]], ps) + s[ps[j + 1]..];
      Gap(ps, j, ps[j + 1]);
      KeptAfterHit(s, ps, ps[j], ps[j + 1]);
    } else {
      assert Stage(s, ps, j + 1) == Kept(s, ps);
      Gap(ps, j, |s|);
      KeptAfterLast(s, ps, ps[j]);
    }
  }

  /** Removing the element just past a prefix `front` of `front + s[q..]`
      leaves `front + s[q + 1..]`. */
  lemma CutAt<T>(s: seq<T>, q: nat, front: seq<T>, cur: seq<T>)
    requires q < |s| && cur == front + s[q..]
    ensures cur[..|front|] + cur[|front| + 1..] == front + s[q + 1..]
  {
    assert cur[..|front|] == front;
    assert cur[|front| + 1..] == s[q + 1..];
  }

  /** The list after the first `j` deletions of a slice delete over the
      selected positions `ps`: with `i` positions already gone, the next
      deletion removes index `ps[i] - i`. */
  ghost function Deleting<T>(s: seq<T>, ps: seq<nat>, j: nat): seq<T>
    requires j <= |ps|
    decreases j
  {
    if j == 0 then s
    else
      var cur := Deleting(s, ps, j - 1);
      var i := ps[j - 1] - (j - 1);
      if 0 <= i < |cur| then cur[..i] + cur[i + 1..] else cur
  }

  /** Deleting the selected positions one by one, each at its shifted index,
      passes through the stages of a slice delete: after `j` deletions the
      list is the kept prefix below the `j`-th position followed by the
      untouched rest. */
  lemma {:induction false} DeletingIsKept<T>(s: seq<T>, ps: seq<nat>, j: nat)
    requires forall a, b :: 0 <= a < b < |ps| ==> ps[a] < ps[b]
    requires forall k :: 0 <= k < |ps| ==> ps[k] < |s|
    requires j <= |ps|
    ensures |Deleting(s, ps, j)| == |s| - j
    ensures j < |ps| ==> j <= ps[j]
    ensures Deleting(s, ps, j) == Stage(s, ps, j)
    decreases j
  {
    if j == 0 {
      DeleteStart(s, ps);
    } else {
      DeletingIsKept(s, ps, j - 1);
      DeletingStep(s, ps, j);
      if j < |ps| {
        assert ps[j - 1] < ps[j];
      }
    }
  }

  /** The `j`-th deletion moves the list from one stage of a slice delete to
      the next. */
  lemma DeletingStep<T>(s: seq<T>, ps: seq<nat>, j: nat)
    requires forall a, b :: 0 <= a < b < |ps| ==> ps[a] < ps[b]
    requires forall k :: 0 <= k < |ps| ==> ps[k] < |s|
    requires 0 < j <= |ps| && j - 1 <= ps[j - 1]
    requires |Deleting(s, ps, j - 1)| == |s| - (j - 1)
    requires Deleting(s, ps, j - 1) == Stage(s, ps, j - 1)
    ensures |Deleting(s, ps, j)| == |s| - j
    ensures Deleting(s, ps, j) == Stage(s, ps, j)
  {
    DeletingCut(s, ps, j);
    KeptNext(s, ps, j - 1);
  }

  /** The `j`-th deletion removes the element at the `j - 1`-th selected
      position from the list of the previous stage. */
  lemma DeletingCut<T>(s: seq<T>, ps: seq<nat>, j: nat)
    requires forall k :: 0 <= k < |ps| ==> ps[k] < |s|
    requires 0 < j <= |ps| && j - 1 <= ps[j - 1]
    requires |Deleting(s, ps, j - 1)| == |s| - (j - 1)
    requires Deleting(s, ps, j - 1) == Stage(s, ps, j - 1)
    ensures |Deleting(s, ps, j)| == |s| - j
    ensures Deleting(s, ps, j) == Kept(s[..ps[j - 1]], ps) + s[ps[j - 1] + 1..]
  {
    var prev := Deleting(s, ps, j - 1);
    var q := ps[j - 1];
    var front := Kept(s[..q], ps);
    assert Stage(s, ps, j - 1) == front + s[q..];
    assert |front| == q - (j - 1);
    assert Deleting(s, ps, j) == prev[..|front|] + prev[|front| + 1..];
    CutAt(s, q, front, prev);
  }

  /** The length after `j` deletions, and where the next deletion falls. */
  lemma DeletingShape<T>(s: seq<T>, ps: seq<nat>, j: nat)
    requires forall a, b :: 0 <= a < b < |ps| ==> ps[a] < ps[b]
    requires forall k :: 0 <= k < |ps| ==> ps[k] < |s|
    requires j <= |ps|
    ensures |Deleting(s, ps, j)| == |s| - j
    ensures j < |ps| ==> 0 <= ps[j] - j < |s| - j
  {
    DeletingIsKept(s, ps, j);
  }

  /** The deletion after the `j`-th removes the element now at index `ps[j] - j`. */
  lemma DeletingTurn<T>(s: seq<T>, ps: seq<nat>, j: nat)
    requires forall a, b :: 0 <= a < b < |ps| ==> ps[a] < ps[b]
    requires forall k :: 0 <= k < |ps| ==> ps[k] < |s|
    requires j < |ps|
    ensures var cur, i := Deleting(s, ps, j), ps[j] - j;
            0 <= i < |cur| && Deleting(s, ps, j + 1) == cur[..i] + cur[i + 1..]
  {
    DeletingShape(s, ps, j);
  }

  /** After every deletion the list is the kept list. */
  lemma DeletingAll<T>(s: seq<T>, ps: seq<nat>)
    requires forall a, b :: 0 <= a < b < |ps| ==> ps[a] < ps[b]
    requires forall k :: 0 <= k < |ps| ==> ps[k] < |s|
    ensures Deleting(s, ps, |ps|) == Kept(s, ps)
  {
    DeletingIsKept(s, ps, |ps|);
  }

  /** The first `j` selected elements of a slice read, in order. */
  ghost function PickPrefix<T>(s: seq<T>, ps: seq<nat>, j: nat): seq<T>
    requires j <= |ps|
    requires forall k :: 0 <= k < |ps| ==> ps[k] < |s|
    decreases j
  {
    if j == 0 then [] else PickPrefix(s, ps, j - 1) + [s[ps[j - 1]]]
  }

  /** Picking the selected elements one at a time gives `Pick`. */
  lemma {:induction false} PickPrefixIsPick<T>(s: seq<T>, ps: seq<nat>, j: nat)
    requires j <= |ps|
    requires forall k :: 0 <= k < |ps| ==> ps[k] < |s|
    ensures PickPrefix(s, ps, j) == Pick(s, ps[..j])
    decreases j
  {
    if j > 0 {
      PickPrefixIsPick(s, ps, j - 1);
    }
  }

  /** The elements a slice read has collected once it stops, having
      collected `acc` so far and standing at index `i`: while `0 <= i < stop`
      and the index is inside the list it appends the element there and
      advances by `step`, of either sign. */
  ghost function PickLoop<T>(s: seq<T>, i: int, stop: int, step: int, acc: seq<T>): seq<T>
    requires step != 0
    decreases if step > 0 then stop - i else i
  {
    if 0 <= i < stop && i < |s| then PickLoop(s, i + step, stop, step, acc + [s[i]]) else acc
  }

  /** What a slice delete leaves, deleting index `i` and then, because the
      later elements shift left, continuing from `i + step - 1` with `stop`
      lowered by one, while `0 <= i < stop` and the index is inside the list. */
  ghost function PurgeLoop<T>(s: seq<T>, i: int, stop: int, step: int): seq<T>
    requires step != 0
    decreases if step > 0 then stop - i else i
  {
    if 0 <= i < stop && i < |s| then PurgeLoop(s[..i] + s[i + 1..], i + step - 1, stop - 1, step) else s
  }

  /** One turn of the read loop appends the element at `i`. */
  lemma PickLoopTurn<T>(s: seq<T>, i: int, stop: int, step: int, acc: seq<T>)
    requires step != 0 && 0 <= i < stop && i < |s|
    ensures PickLoop(s, i, stop, step, acc) == PickLoop(s, i + step, stop, step, acc + [s[i]])
  {
  }

  /** Outside the loop's range nothing more is collected. */
  lemma PickLoopStops<T>(s: seq<T>, i: int, stop: int, step: int, acc: seq<T>)
    requires step != 0 && !(0 <= i < stop && i < |s|)
    ensures PickLoop(s, i, stop, step, acc) == acc
  {
  }

  /** One turn of the delete loop removes index `i` and shifts the bounds. */
  lemma PurgeLoopTurn<T>(c: seq<T>, i: int, stop: int, step: int)
    requires step != 0 && 0 <= i < stop && i < |c|
    ensures PurgeLoop(c, i, stop, step) == PurgeLoop(c[..i] + c[i + 1..], i + step - 1, stop - 1, step)
  {
  }

  /** Outside the loop's range nothing more is deleted. */
  lemma PurgeLoopStops<T>(c: seq<T>, i: int, stop: int, step: int)
    requires step != 0 && !(0 <= i < stop && i < |c|)
    ensures PurgeLoop(c, i, stop, step) == c
  {
  }

  /** `ps` lists the positions below `bound` that a loop stepping by `step`
      visits: consecutive entries are `step` apart and the step after the
      last one reaches `bound`. */
  ghost predicate Visits(ps: seq<nat>, bound: int, step: nat)
  {
    && (forall k :: 0 <= k < |ps| ==> ps[k] < bound)
    && (forall a, b :: 0 <= a < b < |ps| && b == a + 1 ==> ps[b] == ps[a] + step)
    && (|ps| > 0 ==> ps[|ps| - 1] + step >= bound)
  }

  /** A progression lists the positions its stepping loop visits. */
  lemma {:induction false} ProgressionVisits(start: nat, bound: int, step: nat)
    requires step > 0
    ensures Visits(Progression(start, bound, step), bound, step)
    decreases bound - start
  {
    if start < bound {
      var rest := Progression(start + step, bound, step);
      ProgressionVisits(start + step, bound, step);
      VisitsCons(start, rest, bound, step);
      assert Progression(start, bound, step) == [start] + rest;
    }
  }

  /** A visited position followed by the positions visited from the next step. */
  lemma VisitsCons(x: nat, rest: seq<nat>, bound: int, step: nat)
    requires Visits(rest, bound, step) && x < bound
    requires rest != [] ==> rest[0] == x + step
    requires rest == [] ==> x + step >= bound
    ensures Visits([x] + rest, bound, step)
  {
    var r := [x] + rest;
    forall a, b | 0 <= a < b < |r| && b == a + 1
      ensures r[b] == r[a] + step
    {
      if a > 0 {
        assert r[a] == rest[a - 1] && r[b] == rest[b - 1];
      }
    }
  }

  /** The read loop, entered at the `j`-th visited position with the first
      `j` elements already collected, collects all of them. */
  lemma {:induction false} PickLoopFrom<T>(s: seq<T>, ps: seq<nat>, stop: int, step: nat, j: nat, i: int)
    requires step > 0 && Visits(ps, Min(stop, |s|), step)
    requires j <= |ps|
    requires j < |ps| ==> i == ps[j]
    requires j == |ps| ==> i >= Min(stop, |s|)
    ensures PickLoop(s, i, stop, step, PickPrefix(s, ps, j)) == PickPrefix(s, ps, |ps|)
    decreases |ps| - j
  {
    if j < |ps| {
      PickLoopTurn(s, i, stop, step, PickPrefix(s, ps, j));
      assert PickPrefix(s, ps, j + 1) == PickPrefix(s, ps, j) + [s[i]];
      if j + 1 < |ps| {
        assert ps[j + 1] == ps[j] + step;
      }
      PickLoopFrom(s, ps, stop, step, j + 1, i + step);
    } else {
      PickLoopStops(s, i, stop, step, PickPrefix(s, ps, j));
    }
  }

  /** The read loop from `start` collects exactly the positions it visits. */
  lemma PickLoopVisits<T>(s: seq<T>, ps: seq<nat>, start: nat, stop: int, step: nat)
    requires step > 0 && Visits(ps, Min(stop, |s|), step)
    requires |ps| > 0 ==> ps[0] == start
    requires |ps| == 0 ==> start >= Min(stop, |s|)
    ensures PickLoop(s, start, stop, step, []) == Pick(s, ps)
  {
    assert PickPrefix(s, ps, 0) == [];
    PickLoopFrom(s, ps, stop, step, 0, start);
    PickPrefixIsPick(s, ps, |ps|);
    assert ps[..|ps|] == ps;
  }

  /** For a positive step the read loop collects exactly the selected positions. */
  lemma PickLoopIsPick<T>(s: seq<T>, start: nat, stop: int, step: nat)
    requires step > 0
    ensures PickLoop(s, start, stop, step, []) == Pick(s, Progression(start, Min(stop, |s|), step))
  {
    ProgressionVisits(start, Min(stop, |s|), step);
    PickLoopVisits(s, Progression(start, Min(stop, |s|), step), start, stop, step);
  }

  /** One turn of the delete loop after `j` deletions removes the `j`-th
      selected position and moves on to the next stage. */
  lemma PurgeLoopStep<T>(s: seq<T>, ps: seq<nat>, stop: int, step: nat, j: nat, i: int)
    requires step > 0 && Visits(ps, Min(stop, |s|), step)
    requires forall a, b :: 0 <= a < b < |ps| ==> ps[a] < ps[b]
    requires j < |ps| && i + j == ps[j]
    ensures PurgeLoop(Deleting(s, ps, j), i, stop - j, step)
            == PurgeLoop(Deleting(s, ps, j + 1), i + step - 1, stop - (j + 1), step)
  {
    DeletingShape(s, ps, j);
    DeletingTurn(s, ps, j);
    PurgeLoopTurn(Deleting(s, ps, j), i, stop - j, step);
  }

  /** A delete loop that finishes from the stage after one more deletion
      finishes from the stage before it. */
  lemma PurgeLoopBack<T>(s: seq<T>, ps: seq<nat>, stop: int, step: nat, j: nat, i: int)
    requires step > 0 && Visits(ps, Min(stop, |s|), step)
    requires forall a, b :: 0 <= a < b < |ps| ==> ps[a] < ps[b]
    requires j < |ps| && i + j == ps[j]
    requires PurgeLoop(Deleting(s, ps, j + 1), i + step - 1, stop - (j + 1), step) == Deleting(s, ps, |ps|)
    ensures PurgeLoop(Deleting(s, ps, j), i, stop - j, step) == Deleting(s, ps, |ps|)
  {
    PurgeLoopStep(s, ps, stop, step, j, i);
  }

  /** Once every selected position is deleted the delete loop stops. */
  lemma PurgeLoopDone<T>(s: seq<T>, ps: seq<nat>, stop: int, step: nat, i: int)
    requires step > 0 && Visits(ps, Min(stop, |s|), step)
    requires forall a, b :: 0 <= a < b < |ps| ==> ps[a] < ps[b]
    requires i + |ps| >= Min(stop, |s|)
    ensures PurgeLoop(Deleting(s, ps, |ps|), i, stop - |ps|, step) == Deleting(s, ps, |ps|)
  {
    DeletingShape(s, ps, |ps|);
  }

  /** After the `j`-th deletion the running index, advanced by `step` and
      shifted back by one, names the next visited position, or has passed
      the bound when none is left. */
  lemma PurgeLoopNext(ps: seq<nat>, bound: int, step: nat, j: nat, i: int)
    requires step > 0 && Visits(ps, bound, step)
    requires j < |ps| && i + j == ps[j]
    ensures j + 1 < |ps| ==> (i + step - 1) + (j + 1) == ps[j + 1]
    ensures j + 1 == |ps| ==> (i + step - 1) + (j + 1) >= bound
  {
    if j + 1 < |ps| {
      assert ps[j + 1] == ps[j] + step;
    }
  }

  /** The delete loop, entered after `j` deletions with the running index
      shifted by `j`, deletes the remaining visited positions. */
  lemma {:induction false} PurgeLoopFrom<T>(s: seq<T>, ps: seq<nat>, stop: int, step: nat, j: nat, i: int)
    requires step > 0 && Visits(ps, Min(stop, |s|), step)
    requires forall a, b :: 0 <= a < b < |ps| ==> ps[a] < ps[b]
    requires j <= |ps|
    requires j < |ps| ==> i + j == ps[j]
    requires j == |ps| ==> i + j >= Min(stop, |s|)
    ensures PurgeLoop(Deleting(s, ps, j), i, stop - j, step) == Deleting(s, ps, |ps|)
    decreases |ps| - j
  {
    if j < |ps| {
      PurgeLoopNext(ps, Min(stop, |s|), step, j, i);
      PurgeLoopFrom(s, ps, stop, step, j + 1, i + step - 1);
      PurgeLoopBack(s, ps, stop, step, j, i);
    } else {
      PurgeLoopDone(s, ps, stop, step, i);
    }
  }

  /** The delete loop from `start` deletes exactly the positions it visits. */
  lemma PurgeLoopVisits<T>(s: seq<T>, ps: seq<nat>, start: nat, stop: int, step: nat)
    requires step > 0 && Visits(ps, Min(stop, |s|), step)
    requires forall a, b :: 0 <= a < b < |ps| ==> ps[a] < ps[b]
    requires |ps| > 0 ==> ps[0] == start
    requires |ps| == 0 ==> start >= Min(stop, |s|)
    ensures PurgeLoop(s, start, stop, step) == Kept(s, ps)
  {
    assert Deleting(s, ps, 0) == s;
    PurgeLoopFrom(s, ps, stop, step, 0, start);
    assert stop - 0 == stop;
    DeletingAll(s, ps);
  }

  /** For a positive step the delete loop removes exactly the selected
      positions and keeps the rest in order. */
  lemma PurgeLoopIsKept<T>(s: seq<T>, start: nat, stop: int, step: nat)
    requires step > 0
    ensures PurgeLoop(s, start, stop, step) == Kept(s, Progression(start, Min(stop, |s|), step))
  {
    ProgressionVisits(start, Min(stop, |s|), step);
    PurgeLoopVisits(s, Progression(start, Min(stop, |s|), step), start, stop, step);
  }

  /** With a negative step the two loops part ways: on three elements,
      `[2:3:-1]` reads positions 2, 1 and 0, but the delete loop's `step - 1`
      stride removes positions 2 and 0 only. */
  lemma NegativeStepMismatch()
    ensures PickLoop([10, 20, 30], 2, 3, -1, []) == [30, 20, 10]
    ensures PurgeLoop([10, 20, 30], 2, 3, -1) == [20]
  {
    var s := [10, 20, 30];
    PickLoopTurn(s, 2, 3, -1, []);
    PickLoopTurn(s, 1, 3, -1, [30]);
    PickLoopTurn(s, 0, 3, -1, [30, 20]);
    PickLoopStops(s, -1, 3, -1, [30, 20, 10]);
    PurgeLoopTurn(s, 2, 3, -1);
    assert s[..2] + s[3..] == [10, 20];
    PurgeLoopTurn([10, 20], 0, 2, -1);
    assert [10, 20][..0] + [10, 20][1..] == [20];
    PurgeLoopStops([20], -2, 1, -1);
  }
}
