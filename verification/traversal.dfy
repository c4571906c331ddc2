/** The walk `ValueStore::bfs` performs. Despite its name it is a LIFO stack
    walk without a visited set: the entry is handed to `f` first, then each
    popped node is handed to `f` before its operands are pushed, so the
    operands pushed last are walked first, and a node reachable along k paths
    is handed to `f` k times. */
module Traversal {
  import opened Arena

  /** The order in which the walk from node `i` hands nodes to `f`: the node
      itself, then the walks of its operands, last operand first. */
  function Walk(s: ValueStore, i: nat): (order: seq<nat>)
    requires WellFormed(s) && i < |s.values|
    ensures |order| > 0 && order[0] == i
    ensures AllBelow(order, i + 1)
    decreases i, 1
  {
    [i] + WalkAll(s, Args(s.values[i]), i)
  }

  /** The walks of the stacked nodes `xs`, top of the stack (last) first;
      `bound` is a strict upper bound on the stacked indices. */
  function WalkAll(s: ValueStore, xs: seq<nat>, bound: nat): (order: seq<nat>)
    requires WellFormed(s) && bound <= |s.values|
    requires AllBelow(xs, bound)
    ensures AllBelow(order, bound)
    decreases bound, 0, |xs|
  {
    if xs == [] then []
    else Walk(s, xs[|xs| - 1]) + WalkAll(s, xs[..|xs| - 1], bound)
  }

  /** `ValueStore::bfs` on its queue: pop the top index, hand it to `f`
      (here: record it), push that node's operands. */
  method Bfs(s: ValueStore, entry: nat) returns (order: seq<nat>)
    requires WellFormed(s) && entry < |s.values|
    ensures order == Walk(s, entry)
  {
    var n := |s.values|;
    var queue: seq<nat> := [entry];
    order := [];
    ghost var pending := WalkAll(s, queue, n);
    StartStep(s, entry);
    while queue != []
      invariant AllBelow(queue, n)
      invariant pending == WalkAll(s, queue, n)
      invariant order + pending == Walk(s, entry)
      decreases |pending|
    {
      var i := queue[|queue| - 1];
      var rest := queue[..|queue| - 1];
      PopStep(s, queue, rest, i, n);
      order := order + [i];
      queue := rest + Args(s.values[i]);
      pending := pending[1..];
    }
  }

  /** The walk from the entry is the walk of the one-element stack. */
  lemma StartStep(s: ValueStore, entry: nat)
    requires WellFormed(s) && entry < |s.values|
    ensures AllBelow([entry], |s.values|)
    ensures WalkAll(s, [entry], |s.values|) == Walk(s, entry)
  {
    assert [entry][..0] == [];
  }

  /** Popping `i` off the stack hands `i` to `f` and leaves the stack with
      `i`'s operands pushed on top. */
  lemma PopStep(s: ValueStore, q: seq<nat>, rest: seq<nat>, i: nat, n: nat)
    requires WellFormed(s) && n == |s.values| && AllBelow(q, n)
    requires q != [] && rest == q[..|q| - 1] && i == q[|q| - 1]
    ensures i < n && AllBelow(rest + Args(s.values[i]), n)
    ensures WalkAll(s, q, n) == [i] + WalkAll(s, rest + Args(s.values[i]), n)
  {
    var args := Args(s.values[i]);
    assert AllBelow(args, n);
    WalkAllAppend(s, rest, args, n);
    WalkAllAnyBound(s, args, i, n);
  }

  /** The bound only serves termination; it does not change the walk. */
  lemma {:induction false} WalkAllAnyBound(s: ValueStore, xs: seq<nat>, b1: nat, b2: nat)
    requires WellFormed(s) && b1 <= |s.values| && b2 <= |s.values|
    requires AllBelow(xs, b1) && AllBelow(xs, b2)
    ensures WalkAll(s, xs, b1) == WalkAll(s, xs, b2)
    decreases |xs|
  {
    if xs != [] {
      WalkAllAnyBound(s, xs[..|xs| - 1], b1, b2);
    }
  }

  /** Pushing `ys` on top of `xs` walks `ys` first, then `xs`. */
  lemma {:induction false} WalkAllAppend(s: ValueStore, xs: seq<nat>, ys: seq<nat>, b: nat)
    requires WellFormed(s) && b <= |s.values|
    requires AllBelow(xs, b) && AllBelow(ys, b)
    ensures AllBelow(xs + ys, b) && WalkAll(s, xs + ys, b) == WalkAll(s, ys, b) + WalkAll(s, xs, b)
    decreases |ys|
  {
    if ys == [] {
      assert xs + ys == xs;
    } else {
      var zs := xs + ys;
      var ys' := ys[..|ys| - 1];
      assert zs[..|zs| - 1] == xs + ys';
      assert zs[|zs| - 1] == ys[|ys| - 1];
      WalkAllAppend(s, xs, ys', b);
    }
  }

  /** Every stacked node is handed to `f`. */
  lemma {:induction false} StackedIsWalked(s: ValueStore, xs: seq<nat>, b: nat, x: nat)
    requires WellFormed(s) && b <= |s.values|
    requires AllBelow(xs, b)
    requires x in xs
    ensures x in WalkAll(s, xs, b)
    decreases |xs|
  {
    if x != xs[|xs| - 1] {
      assert x in xs[..|xs| - 1];
      StackedIsWalked(s, xs[..|xs| - 1], b, x);
    }
  }

  /** The walk of a stacked node is part of the walk of the stack. */
  lemma {:induction false} WalkOfStackedIsWalked(s: ValueStore, xs: seq<nat>, b: nat, x: nat, j: nat)
    requires WellFormed(s) && b <= |s.values|
    requires AllBelow(xs, b)
    requires x in xs && x < |s.values| && j in Walk(s, x)
    ensures j in WalkAll(s, xs, b)
    decreases |xs|
  {
    if x != xs[|xs| - 1] {
      assert x in xs[..|xs| - 1];
      WalkOfStackedIsWalked(s, xs[..|xs| - 1], b, x, j);
    }
  }

  /** The walk is closed under operands: the operands of every walked node are
      walked too. */
  lemma {:induction false} WalkClosed(s: ValueStore, i: nat, j: nat, k: nat)
    requires WellFormed(s) && i < |s.values|
    requires j in Walk(s, i) && k in Args(s.values[j])
    ensures k in Walk(s, i)
    decreases i, 1
  {
    var args := Args(s.values[i]);
    if j == i {
      StackedIsWalked(s, args, i, k);
    } else {
      assert j in WalkAll(s, args, i);
      WalkAllClosed(s, args, i, j, k);
    }
  }

  lemma {:induction false} WalkAllClosed(s: ValueStore, xs: seq<nat>, b: nat, j: nat, k: nat)
    requires WellFormed(s) && b <= |s.values|
    requires AllBelow(xs, b)
    requires j in WalkAll(s, xs, b) && k in Args(s.values[j])
    ensures k in WalkAll(s, xs, b)
    decreases b, 0, |xs|
  {
    var top := xs[|xs| - 1];
    var rest := xs[..|xs| - 1];
    if j in Walk(s, top) {
      WalkClosed(s, top, j, k);
    } else {
      WalkAllClosed(s, rest, b, j, k);
    }
  }

  /** The walk reads only the operand structure: two stores whose nodes name
      the same operands are walked alike, whatever their values, operations,
      record presence and gradients. */
  lemma {:induction false} WalkReadsOnlyArgs(s: ValueStore, t: ValueStore, i: nat)
    requires WellFormed(s) && WellFormed(t) && SameArgs(s, t) && i < |s.values|
    ensures Walk(s, i) == Walk(t, i)
    decreases i, 1
  {
    WalkAllReadsOnlyArgs(s, t, Args(s.values[i]), i);
  }

  lemma {:induction false} WalkAllReadsOnlyArgs(s: ValueStore, t: ValueStore, xs: seq<nat>, b: nat)
    requires WellFormed(s) && WellFormed(t) && SameArgs(s, t) && b <= |s.values|
    requires AllBelow(xs, b)
    ensures WalkAll(s, xs, b) == WalkAll(t, xs, b)
    decreases b, 0, |xs|
  {
    if xs != [] {
      WalkReadsOnlyArgs(s, t, xs[|xs| - 1]);
      WalkAllReadsOnlyArgs(s, t, xs[..|xs| - 1], b);
    }
  }

  /** The number of operand paths from node `i` down to node `k` (the empty
      path counts when `i == k`). */
  function Paths(s: ValueStore, i: nat, k: nat): nat
    requires WellFormed(s) && i < |s.values|
    decreases i, 1
  {
    (if i == k then 1 else 0) + PathsVia(s, Args(s.values[i]), i, k)
  }

  /** The paths to `k` from each of the operands `xs`, summed first to last. */
  function PathsVia(s: ValueStore, xs: seq<nat>, b: nat, k: nat): nat
    requires WellFormed(s) && b <= |s.values|
    requires AllBelow(xs, b)
    decreases b, 0, |xs|
  {
    if xs == [] then 0 else Paths(s, xs[0], k) + PathsVia(s, xs[1..], b, k)
  }

  lemma {:induction false} PathsViaLast(s: ValueStore, xs: seq<nat>, b: nat, k: nat)
    requires WellFormed(s) && b <= |s.values|
    requires AllBelow(xs, b)
    requires xs != []
    ensures PathsVia(s, xs, b, k) == PathsVia(s, xs[..|xs| - 1], b, k) + Paths(s, xs[|xs| - 1], k)
    decreases |xs|
  {
    if |xs| > 1 {
      assert xs[1..][..|xs[1..]| - 1] == xs[..|xs| - 1][1..];
      PathsViaLast(s, xs[1..], b, k);
    }
  }

  /** No visited set: the walk from `i` hands `k` to `f` once per operand path
      from `i` to `k`. */
  lemma {:induction false} WalkCountsPaths(s: ValueStore, i: nat, k: nat)
    requires WellFormed(s) && i < |s.values|
    ensures multiset(Walk(s, i))[k] == Paths(s, i, k)
    decreases i, 1
  {
    WalkAllCountsPaths(s, Args(s.values[i]), i, k);
  }

  lemma {:induction false} WalkAllCountsPaths(s: ValueStore, xs: seq<nat>, b: nat, k: nat)
    requires WellFormed(s) && b <= |s.values|
    requires AllBelow(xs, b)
    ensures multiset(WalkAll(s, xs, b))[k] == PathsVia(s, xs, b, k)
    decreases b, 0, |xs|
  {
    if xs != [] {
      WalkCountsPaths(s, xs[|xs| - 1], k);
      WalkAllCountsPaths(s, xs[..|xs| - 1], b, k);
      PathsViaLast(s, xs, b, k);
    }
  }

  /** A node used as both operands (x*x, x+x) is handed to `f` at least twice. */
  lemma SharedOperandWalkedTwice(s: ValueStore, i: nat, x: nat)
    requires WellFormed(s) && i < |s.values|
    requires |Args(s.values[i])| >= 2 && Args(s.values[i])[0] == x && Args(s.values[i])[1] == x
    ensures multiset(Walk(s, i))[x] >= 2
  {
    var args := Args(s.values[i]);
    WalkCountsPaths(s, i, x);
    assert PathsVia(s, args, i, x) == Paths(s, x, x) + Paths(s, x, x) + PathsVia(s, args[2..], i, x) by {
      assert args[1..][0] == x && args[1..][1..] == args[2..];
    }
  }
}
