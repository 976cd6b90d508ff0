/** The queue of pending extrinsics (src/support.rs): the object, and what any sequence of its operations
    conserves. */
module Mempool {
  import opened Types

  function Filter<T>(xs: seq<T>, keep: T -> bool): seq<T> {
    if xs == [] then []
    else Filter(xs[..|xs| - 1], keep) + (if keep(xs[|xs| - 1]) then [xs[|xs| - 1]] else [])
  }

  lemma FilterSnoc<T>(xs: seq<T>, x: T, keep: T -> bool)
    ensures Filter(xs + [x], keep) == if keep(x) then Filter(xs, keep) + [x] else Filter(xs, keep)
  {
    assert (xs + [x])[..|xs|] == xs;
  }

  function Least(m: nat, n: nat): nat { if m <= n then m else n }

  class Mempool<T> {
    var pending: seq<T>
    const maxCapacity: Option<nat>
    const blockLimit: Option<nat>

    constructor New()
      ensures pending == [] && maxCapacity == None && blockLimit == None
    {
      pending := [];
      maxCapacity := None;
      blockLimit := None;
    }

    constructor WithCapacity(maxLen: nat)
      ensures pending == [] && maxCapacity == Some(maxLen) && blockLimit == None
    {
      pending := [];
      maxCapacity := Some(maxLen);
      blockLimit := None;
    }

    constructor WithBlockLimit(limit: nat)
      ensures pending == [] && maxCapacity == None && blockLimit == Some(limit)
    {
      pending := [];
      maxCapacity := None;
      blockLimit := Some(limit);
    }

    /** Appends, or refuses with `MempoolFull`. */
    method Submit(ext: T) returns (ok: bool)
      modifies this
      ensures ok <==> maxCapacity == None || |old(pending)| < maxCapacity.value
      ensures pending == if ok then old(pending) + [ext] else old(pending)
      ensures pending == PendingAfter(old(pending), maxCapacity, Op.Submit(ext))
    {
      if maxCapacity.Some? {
        if |pending| >= maxCapacity.value { return false; }
      }
      pending := pending + [ext];
      ok := true;
    }

    /** Takes up to `n` from the front. */
    method DrainForBlock(n: nat) returns (exts: seq<T>)
      modifies this
      ensures exts + pending == old(pending) && |exts| <= n && (|exts| == n || pending == [])
      ensures exts == old(pending)[..Least(n, |old(pending)|)]
      ensures pending == PendingAfter(old(pending), maxCapacity, Drain(n))
    {
      exts := [];
      var i := 0;
      while i < n
        invariant 0 <= i <= n && i <= |old(pending)|
        invariant exts == old(pending)[..i] && pending == old(pending)[i..]
      {
        if pending == [] { break; }
        exts := exts + [pending[0]];
        pending := pending[1..];
        i := i + 1;
      }
    }

    method Remove(index: nat) returns (ext: Option<T>)
      modifies this
      ensures ext == if index < |old(pending)| then Some(old(pending)[index]) else None
      ensures pending == if index < |old(pending)| then old(pending)[..index] + old(pending)[index + 1..]
                         else old(pending)
      ensures pending == PendingAfter(old(pending), maxCapacity, Op.Remove(index))
    {
      if index >= |pending| { return None; }
      ext := Some(pending[index]);
      pending := pending[..index] + pending[index + 1..];
    }

    method Retain(keep: T -> bool)
      modifies this
      ensures pending == PendingAfter(old(pending), maxCapacity, Op.Retain(keep))
    {
      var kept := [];
      var i := 0;
      while i < |pending|
        invariant 0 <= i <= |pending| && pending == old(pending)
        invariant kept == Filter(pending[..i], keep)
      {
        assert pending[..i + 1][..i] == pending[..i];
        if keep(pending[i]) { kept := kept + [pending[i]]; }
        i := i + 1;
      }
      assert pending[..i] == pending;
      pending := kept;
    }
  }

  predicate HasRoom<T>(pending: seq<T>, capacity: Option<nat>) {
    capacity.None? || |pending| < capacity.value
  }

  datatype Op<!T> = Submit(ext: T) | Drain(n: nat) | Remove(index: nat) | Retain(keep: T -> bool)

  /** The queue after one operation. */
  function PendingAfter<T>(pending: seq<T>, capacity: Option<nat>, op: Op<T>): seq<T> {
    match op
    case Submit(x) => if HasRoom(pending, capacity) then pending + [x] else pending
    case Drain(n) => pending[Least(n, |pending|)..]
    case Remove(i) => if i < |pending| then pending[..i] + pending[i + 1..] else pending
    case Retain(keep) => Filter(pending, keep)
  }

  // ---- conservation ------------------------------------------------------------------------------

  /** The queue, and everything that ever entered or left it, in order. */
  datatype Trace<T> = Trace(pending: seq<T>, accepted: seq<T>, drained: seq<T>, removed: seq<T>, evicted: seq<T>)

  function Unlike<T>(keep: T -> bool): T -> bool { x => !keep(x) }

  /** The queue changes as the methods above change it; what entered or left is put on record. */
  function Perform<T>(t: Trace<T>, capacity: Option<nat>, op: Op<T>): Trace<T> {
    var u := t.(pending := PendingAfter(t.pending, capacity, op));
    match op
    case Submit(x) => if HasRoom(t.pending, capacity) then u.(accepted := t.accepted + [x]) else u
    case Drain(n) => u.(drained := t.drained + t.pending[..Least(n, |t.pending|)])
    case Remove(i) => if i < |t.pending| then u.(removed := t.removed + [t.pending[i]]) else u
    case Retain(keep) => u.(evicted := t.evicted + Filter(t.pending, Unlike(keep)))
  }

  function PerformAll<T>(capacity: Option<nat>, ops: seq<Op<T>>): Trace<T> {
    if ops == [] then Trace([], [], [], [], [])
    else Perform(PerformAll(capacity, ops[..|ops| - 1]), capacity, ops[|ops| - 1])
  }

  /** `s` is what is left of `t` after leaving out some of its elements. */
  predicate Within<T(==)>(s: seq<T>, t: seq<T>) {
    s == [] || (t != [] && (|| (s[|s| - 1] == t[|t| - 1] && Within(s[..|s| - 1], t[..|t| - 1]))
                            || Within(s, t[..|t| - 1])))
  }

  lemma {:induction false} WithinDrop<T>(s: seq<T>, t: seq<T>, i: nat)
    requires i < |s| && Within(s, t)
    ensures Within(s[..i] + s[i + 1..], t)
    decreases |t|
  {
    var n, m := |s| - 1, |t| - 1;
    var rest := s[..i] + s[i + 1..];
    if s[n] == t[m] && Within(s[..n], t[..m]) {
      if i == n {
        assert rest == s[..n];
      } else {
        WithinDrop(s[..n], t[..m], i);
        assert s[..n][..i] + s[..n][i + 1..] == rest[..|rest| - 1];
        assert rest[|rest| - 1] == s[n];
      }
    } else {
      WithinDrop(s, t[..m], i);
    }
  }

  lemma MoveOver<T>(front: seq<T>, xs: seq<T>, x: T, back: seq<T>)
    ensures front + (xs + [x]) + back == front + xs + ([x] + back)
  {}

  lemma LeaveOut<T>(front: seq<T>, xs: seq<T>, x: T, back: seq<T>, s: seq<T>, i: nat)
    requires s == front + (xs + [x]) + back && i == |front| + |xs|
    ensures s[..i] + s[i + 1..] == front + xs + back
  {
    assert s[..i] == front + xs;
    assert s[i + 1..] == back;
  }

  lemma {:induction false} WithinFilter<T>(front: seq<T>, xs: seq<T>, back: seq<T>, t: seq<T>, keep: T -> bool)
    requires Within(front + xs + back, t)
    ensures Within(front + Filter(xs, keep) + back, t)
    decreases |xs|
  {
    if xs != [] {
      var init, last := xs[..|xs| - 1], xs[|xs| - 1];
      assert xs == init + [last];
      if keep(last) {
        MoveOver(front, init, last, back);
        WithinFilter(front, init, [last] + back, t, keep);
        MoveOver(front, Filter(init, keep), last, back);
      } else {
        WithinDrop(front + xs + back, t, |front| + |init|);
        LeaveOut(front, init, last, back, front + xs + back, |front| + |init|);
        WithinFilter(front, init, back, t, keep);
      }
      FilterSnoc(init, last, keep);
    }
  }

  lemma MultisetSnoc<T>(xs: seq<T>, x: T)
    ensures multiset(xs + [x]) == multiset(xs) + multiset{x}
  {}

  /** One more on one side of a division. */
  lemma OneMore<T>(a: multiset<T>, b: multiset<T>, m: multiset<T>, x: T)
    requires a + b == m
    ensures (a + multiset{x}) + b == m + multiset{x} && a + (b + multiset{x}) == m + multiset{x}
  {}

  lemma {:induction false} FilterSplits<T>(xs: seq<T>, keep: T -> bool, drop: T -> bool)
    requires forall i :: 0 <= i < |xs| ==> drop(xs[i]) == !keep(xs[i])
    ensures multiset(Filter(xs, keep)) + multiset(Filter(xs, drop)) == multiset(xs)
  {
    if xs != [] {
      var init, last := xs[..|xs| - 1], xs[|xs| - 1];
      FilterSplits(init, keep, drop);
      assert xs == init + [last];
      FilterSnoc(init, last, keep);
      FilterSnoc(init, last, drop);
      MultisetSnoc(init, last);
      MultisetSnoc(Filter(init, keep), last);
      MultisetSnoc(Filter(init, drop), last);
      OneMore(multiset(Filter(init, keep)), multiset(Filter(init, drop)), multiset(init), last);
    }
  }

  lemma {:induction false} FilterShrinks<T>(xs: seq<T>, keep: T -> bool)
    ensures |Filter(xs, keep)| <= |xs|
  {
    if xs != [] { FilterShrinks(xs[..|xs| - 1], keep); }
  }

  /** Nothing is lost or duplicated, drained elements left in the order they came, and a capacity holds. */
  ghost predicate Conserved<T>(t: Trace<T>, capacity: Option<nat>) {
    && multiset(t.accepted) == multiset(t.pending) + multiset(t.drained) + multiset(t.removed) + multiset(t.evicted)
    && Within(t.drained + t.pending, t.accepted)
    && (capacity.Some? ==> |t.pending| <= capacity.value)
  }

  lemma AppendOrder<T>(drained: seq<T>, xs: seq<T>, x: T)
    ensures drained + (xs + [x]) == drained + xs + [x]
  {}

  lemma SubmitConserves<T>(t: Trace<T>, capacity: Option<nat>, x: T)
    requires Conserved(t, capacity) && HasRoom(t.pending, capacity)
    ensures Conserved(t.(pending := t.pending + [x], accepted := t.accepted + [x]), capacity)
  {
    MultisetSnoc(t.pending, x);
    MultisetSnoc(t.accepted, x);
    AppendOrder(t.drained, t.pending, x);
  }

  lemma SplitMultiset<T>(xs: seq<T>, k: nat)
    requires k <= |xs|
    ensures multiset(xs) == multiset(xs[..k]) + multiset(xs[k..])
  {
    assert xs == xs[..k] + xs[k..];
  }

  lemma DrainOrder<T>(drained: seq<T>, xs: seq<T>, k: nat)
    requires k <= |xs|
    ensures (drained + xs[..k]) + xs[k..] == drained + xs
  {}

  lemma DrainConserves<T>(t: Trace<T>, capacity: Option<nat>, k: nat)
    requires Conserved(t, capacity) && k <= |t.pending|
    ensures Conserved(t.(pending := t.pending[k..], drained := t.drained + t.pending[..k]), capacity)
  {
    SplitMultiset(t.pending, k);
    DrainOrder(t.drained, t.pending, k);
    assert multiset(t.drained + t.pending[..k]) == multiset(t.drained) + multiset(t.pending[..k]);
  }

  lemma RemoveMultiset<T>(xs: seq<T>, i: nat)
    requires i < |xs|
    ensures multiset(xs) == multiset(xs[..i] + xs[i + 1..]) + multiset{xs[i]}
  {
    assert xs == xs[..i] + [xs[i]] + xs[i + 1..];
  }

  lemma RemoveConserves<T>(t: Trace<T>, capacity: Option<nat>, i: nat)
    requires Conserved(t, capacity) && i < |t.pending|
    ensures Conserved(t.(pending := t.pending[..i] + t.pending[i + 1..], removed := t.removed + [t.pending[i]]),
                      capacity)
  {
    WithinDropTail(t.drained, t.pending, t.accepted, i);
    RemoveMultiset(t.pending, i);
    MultisetSnoc(t.removed, t.pending[i]);
  }

  lemma DropBehind<T>(front: seq<T>, xs: seq<T>, i: nat, s: seq<T>, k: int)
    requires i < |xs| && s == front + xs && k == |front| + i
    ensures s[..k] + s[k + 1..] == front + (xs[..i] + xs[i + 1..])
  {
    assert s[..k] == front + xs[..i];
    assert s[k + 1..] == xs[i + 1..];
  }

  lemma WithinDropTail<T>(front: seq<T>, xs: seq<T>, t: seq<T>, i: nat)
    requires i < |xs| && Within(front + xs, t)
    ensures Within(front + (xs[..i] + xs[i + 1..]), t)
  {
    var s, k := front + xs, |front| + i;
    WithinDrop(s, t, k);
    DropBehind(front, xs, i, s, k);
  }

  lemma RetainConserves<T>(t: Trace<T>, capacity: Option<nat>, keep: T -> bool)
    requires Conserved(t, capacity)
    ensures Conserved(t.(pending := Filter(t.pending, keep), evicted := t.evicted + Filter(t.pending, Unlike(keep))),
                      capacity)
  {
    FilterSplits(t.pending, keep, Unlike(keep));
    FilterShrinks(t.pending, keep);
    WithinFilterTail(t.drained, t.pending, t.accepted, keep);
  }

  lemma WithinFilterTail<T>(front: seq<T>, xs: seq<T>, t: seq<T>, keep: T -> bool)
    requires Within(front + xs, t)
    ensures Within(front + Filter(xs, keep), t)
  {
    assert front + xs + [] == front + xs;
    WithinFilter(front, xs, [], t, keep);
    assert front + Filter(xs, keep) + [] == front + Filter(xs, keep);
  }

  lemma SubmitStep<T>(t: Trace<T>, capacity: Option<nat>, x: T)
    requires Conserved(t, capacity)
    ensures Conserved(Perform(t, capacity, Op.Submit(x)), capacity)
  {
    if HasRoom(t.pending, capacity) { SubmitConserves(t, capacity, x); }
  }

  lemma RemovePerforms<T>(t: Trace<T>, capacity: Option<nat>, i: nat)
    requires i < |t.pending|
    ensures Perform(t, capacity, Op.Remove(i)) ==
            t.(pending := t.pending[..i] + t.pending[i + 1..], removed := t.removed + [t.pending[i]])
  {}

  lemma RemoveStep<T>(t: Trace<T>, capacity: Option<nat>, i: nat)
    requires Conserved(t, capacity)
    ensures Conserved(Perform(t, capacity, Op.Remove(i)), capacity)
  {
    if i < |t.pending| {
      RemoveConserves(t, capacity, i);
      RemovePerforms(t, capacity, i);
    }
  }

  lemma PerformConserves<T>(t: Trace<T>, capacity: Option<nat>, op: Op<T>)
    requires Conserved(t, capacity)
    ensures Conserved(Perform(t, capacity, op), capacity)
  {
    match op
    case Submit(x) => SubmitStep(t, capacity, x);
    case Drain(n) => DrainConserves(t, capacity, Least(n, |t.pending|));
    case Remove(i) => RemoveStep(t, capacity, i);
    case Retain(keep) => RetainConserves(t, capacity, keep);
  }

  lemma {:induction false} PoolConserves<T>(capacity: Option<nat>, ops: seq<Op<T>>)
    ensures Conserved(PerformAll(capacity, ops), capacity)
  {
    if ops != [] {
      PoolConserves(capacity, ops[..|ops| - 1]);
      PerformConserves(PerformAll(capacity, ops[..|ops| - 1]), capacity, ops[|ops| - 1]);
    }
  }
}
