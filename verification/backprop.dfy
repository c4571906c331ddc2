/** `ValueStore::backward` and the per-operation gradient rules of its
    closure. Every `unwrap` of a missing record and the explicit `panic!` on a
    leaf are failures, modelled as `Err` values. */
module Backprop {
  import opened Outcomes
  import opened Arena
  import opened Traversal

  /** The panics `backward` can raise. */
  datatype Fault =
    | EntryOutOfRange(index: nat)       // `self.values[entry_index]` past the end
    | EntryWithoutRecord(index: nat)    // `entry_value.record.unwrap()` on a leaf
    | LeafVisited(index: nat)           // the walk hands a leaf to the closure
    | MissingOperand(index: nat)        // `out_record.args[0]`/`[1]` on a record with fewer args
    | OperandWithoutRecord(index: nat)  // `a.record.unwrap()` / `b.record.unwrap()` on a leaf

  type Outcome = Result<ValueStore, Fault>

  /** Adds `delta` to the gradient of node `k`; fails when `k` is a leaf. */
  function AddGrad(s: ValueStore, k: nat, delta: real): (r: Outcome)
    requires k < |s.values|
    ensures r.Ok? <==> HasRecord(s, k)
    ensures r.Ok? ==> SameShape(s, r.value)
    ensures r.Ok? ==> Grad(r.value.values[k]) == Grad(s.values[k]) + delta
    ensures r.Ok? ==> forall j :: 0 <= j < |s.values| && j != k ==> r.value.values[j] == s.values[j]
    ensures r.Err? ==> r.error == OperandWithoutRecord(k)
  {
    match s.values[k].record
    case None => Err(OperandWithoutRecord(k))
    case Some(rec) =>
      Ok(ValueStore(s.values[k := s.values[k].(record := Some(rec.(grad := rec.grad + delta)))]))
  }

  /** What node `k` receives when `a` receives `da` and `b` receives `db`;
      a node that is both receives both. */
  function Share(k: nat, a: nat, da: real, b: nat, db: real): real {
    (if k == a then da else 0.0) + (if k == b then db else 0.0)
  }

  /** Adds `da` to the gradient of `a`, then `db` to that of `b`; fails at the
      first of the two that is a leaf. */
  function AddGrads(s: ValueStore, a: nat, da: real, b: nat, db: real): (r: Outcome)
    requires a < |s.values| && b < |s.values|
    ensures r.Ok? <==> HasRecord(s, a) && HasRecord(s, b)
    ensures !HasRecord(s, a) ==> r == Err(OperandWithoutRecord(a))
    ensures HasRecord(s, a) && !HasRecord(s, b) ==> r == Err(OperandWithoutRecord(b))
    ensures r.Ok? ==> SameShape(s, r.value)
    ensures r.Ok? ==> forall k :: 0 <= k < |s.values| ==>
              Grad(r.value.values[k]) == Grad(s.values[k]) + Share(k, a, da, b, db)
  {
    var s1 :- AddGrad(s, a, da);
    var r := AddGrad(s1, b, db);
    if r.Ok? then SameShapeTransitive(s, s1, r.value); r else r
  }

  /** Whether the closure succeeds on node `i`: `i` has a record, and an `Add`
      or `Mul` record has two operands that have records. Reads only the shape. */
  predicate StepOk(s: ValueStore, i: nat)
    requires i < |s.values|
  {
    match s.values[i].record
    case None => false
    case Some(out) =>
      (out.ops == Add || out.ops == Mul) ==>
        |out.args| >= 2 && HasRecord(s, out.args[0]) && HasRecord(s, out.args[1])
  }

  /** The gradient table: what processing node `i` adds to node `k`'s
      gradient, when `g` is `i`'s gradient. For `Add` each operand receives
      `g`; for `Mul` each operand receives the other operand's value times
      `g`; `Pow` and `Relu` contribute nothing. An operand named twice
      receives both shares. */
  function Contribution(s: ValueStore, i: nat, k: nat): real
    requires WellFormed(s) && i < |s.values|
  {
    match s.values[i].record
    case None => 0.0
    case Some(out) =>
      if |out.args| < 2 then 0.0
      else
        var a, b, g := out.args[0], out.args[1], out.grad;
        match out.ops
        case Add => Share(k, a, g, b, g)
        case Mul =>
          assert AllBelow(out.args, i);
          Share(k, a, s.values[b].value * g, b, s.values[a].value * g)
        case Pow => 0.0
        case Relu => 0.0
  }

  /** The closure `backward` hands to the walk, applied to node `i`. */
  function Step(s: ValueStore, i: nat): (r: Outcome)
    requires WellFormed(s) && i < |s.values|
    ensures r.Ok? <==> StepOk(s, i)
    ensures s.values[i].record.None? ==> r == Err(LeafVisited(i))
    ensures r.Ok? ==> SameShape(s, r.value)
    ensures r.Ok? ==> forall k :: 0 <= k < |s.values| ==>
              Grad(r.value.values[k]) == Grad(s.values[k]) + Contribution(s, i, k)
  {
    match s.values[i].record
    case None => Err(LeafVisited(i))
    case Some(out) =>
      match out.ops
      case Add => AddRule(s, i)
      case Mul => MulRule(s, i)
      case Pow => Ok(s)
      case Relu => Ok(s)
  }

  /** The `Ops::Add` arm: both operands receive the output's gradient. */
  function AddRule(s: ValueStore, i: nat): (r: Outcome)
    requires WellFormed(s) && i < |s.values|
    requires s.values[i].record.Some? && s.values[i].record.value.ops == Add
    ensures r.Ok? <==> StepOk(s, i)
    ensures |s.values[i].record.value.args| < 2 ==> r == Err(MissingOperand(i))
    ensures r.Err? && |s.values[i].record.value.args| >= 2 ==>
              r.error in {OperandWithoutRecord(s.values[i].record.value.args[0]),
                          OperandWithoutRecord(s.values[i].record.value.args[1])}
    ensures r.Ok? ==> SameShape(s, r.value)
    ensures r.Ok? ==> forall k :: 0 <= k < |s.values| ==>
              Grad(r.value.values[k]) == Grad(s.values[k]) + Contribution(s, i, k)
  {
    var out := s.values[i].record.value;
    if |out.args| < 2 then Err(MissingOperand(i))
    else
      assert AllBelow(out.args, i);
      AddGrads(s, out.args[0], out.grad, out.args[1], out.grad)
  }

  /** The `Ops::Mul` arm: each operand receives the other operand's value
      times the output's gradient. */
  function MulRule(s: ValueStore, i: nat): (r: Outcome)
    requires WellFormed(s) && i < |s.values|
    requires s.values[i].record.Some? && s.values[i].record.value.ops == Mul
    ensures r.Ok? <==> StepOk(s, i)
    ensures |s.values[i].record.value.args| < 2 ==> r == Err(MissingOperand(i))
    ensures r.Err? && |s.values[i].record.value.args| >= 2 ==>
              r.error in {OperandWithoutRecord(s.values[i].record.value.args[0]),
                          OperandWithoutRecord(s.values[i].record.value.args[1])}
    ensures r.Ok? ==> SameShape(s, r.value)
    ensures r.Ok? ==> forall k :: 0 <= k < |s.values| ==>
              Grad(r.value.values[k]) == Grad(s.values[k]) + Contribution(s, i, k)
  {
    var out := s.values[i].record.value;
    if |out.args| < 2 then Err(MissingOperand(i))
    else
      var a, b := out.args[0], out.args[1];
      assert AllBelow(out.args, i);
      AddGrads(s, a, s.values[b].value * out.grad, b, s.values[a].value * out.grad)
  }

  /** The walk of `bfs` with the closure applied as it goes: node `i` is
      processed first, then its operands (read from the updated store) are
      walked, last operand first. */
  function Visit(s: ValueStore, i: nat): (r: Outcome)
    requires WellFormed(s) && i < |s.values|
    ensures r.Ok? ==> SameShape(s, r.value)
    decreases i, 1
  {
    var s1 :- Step(s, i);
    SameShapeWellFormed(s, s1);
    var r := VisitAll(s1, Args(s1.values[i]), i);
    if r.Ok? then SameShapeTransitive(s, s1, r.value); r else r
  }

  /** The rest of the walk once the nodes `xs` are on the stack (top last). */
  function VisitAll(s: ValueStore, xs: seq<nat>, bound: nat): (r: Outcome)
    requires WellFormed(s) && bound <= |s.values| && AllBelow(xs, bound)
    ensures r.Ok? ==> SameShape(s, r.value)
    decreases bound, 0, |xs|
  {
    if xs == [] then Ok(s)
    else
      var s1 :- Visit(s, xs[|xs| - 1]);
      SameShapeWellFormed(s, s1);
      var r := VisitAll(s1, xs[..|xs| - 1], bound);
      if r.Ok? then SameShapeTransitive(s, s1, r.value); r else r
  }

  /** Sets the entry's gradient to 1.0 before the walk. */
  function Seed(s: ValueStore, e: nat): (r: ValueStore)
    requires HasRecord(s, e)
    ensures SameShape(s, r) && Grad(r.values[e]) == 1.0
    ensures forall j :: 0 <= j < |s.values| && j != e ==> r.values[j] == s.values[j]
  {
    var rec := s.values[e].record.value;
    ValueStore(s.values[e := s.values[e].(record := Some(rec.(grad := 1.0)))])
  }

  /** `ValueStore::backward(entry_index)`. */
  function Backward(s: ValueStore, e: nat): (r: Outcome)
    requires WellFormed(s)
    ensures e >= |s.values| ==> r == Err(EntryOutOfRange(e))
    ensures e < |s.values| && !HasRecord(s, e) ==> r == Err(EntryWithoutRecord(e))
    ensures r.Ok? ==> HasRecord(s, e) && SameShape(s, r.value)
  {
    if e >= |s.values| then Err(EntryOutOfRange(e))
    else match s.values[e].record
      case None => Err(EntryWithoutRecord(e))
      case Some(_) =>
        var seeded := Seed(s, e);
        SameShapeWellFormed(s, seeded);
        var r := Visit(seeded, e);
        if r.Ok? then SameShapeTransitive(s, seeded, r.value); r else r
  }

  /** The closure applied to the nodes `xs` in order, stopping at the first
      failure. */
  function Apply(s: ValueStore, xs: seq<nat>): (r: Outcome)
    requires WellFormed(s) && AllBelow(xs, |s.values|)
    ensures r.Ok? ==> SameShape(s, r.value)
    decreases |xs|
  {
    if xs == [] then Ok(s)
    else
      var s1 :- Step(s, xs[0]);
      SameShapeWellFormed(s, s1);
      var r := Apply(s1, xs[1..]);
      if r.Ok? then SameShapeTransitive(s, s1, r.value); r else r
  }

  /** Applying `xs + ys` applies `xs`, then `ys` to the result. */
  lemma {:induction false} ApplyConcat(s: ValueStore, xs: seq<nat>, ys: seq<nat>)
    requires WellFormed(s) && AllBelow(xs, |s.values|) && AllBelow(ys, |s.values|)
    ensures AllBelow(xs + ys, |s.values|)
    ensures Apply(s, xs + ys) ==
              match Apply(s, xs)
              case Ok(t) => (SameShapeWellFormed(s, t); Apply(t, ys))
              case Err(f) => Err(f)
    decreases |xs|
  {
    if xs != [] {
      assert (xs + ys)[0] == xs[0] && (xs + ys)[1..] == xs[1..] + ys;
      match Step(s, xs[0])
      case Ok(s1) =>
        SameShapeWellFormed(s, s1);
        ApplyConcat(s1, xs[1..], ys);
      case Err(_) =>
    } else {
      assert xs + ys == ys;
    }
  }

  /** The interleaved walk is the closure applied along the walk order: the
      operands `backward` reads after each step are the ones `Walk` reads
      before any step. */
  lemma {:induction false} VisitFollowsWalk(s: ValueStore, i: nat)
    requires WellFormed(s) && i < |s.values|
    ensures AllBelow(Walk(s, i), |s.values|)
    ensures Visit(s, i) == Apply(s, Walk(s, i))
    decreases i, 1
  {
    var w := Walk(s, i);
    AllBelowWeaken(w, i + 1, |s.values|);
    var rest := WalkAll(s, Args(s.values[i]), i);
    assert w[0] == i && w[1..] == rest;
    match Step(s, i)
    case Ok(s1) =>
      SameShapeWellFormed(s, s1);
      assert SameNode(s.values[i], s1.values[i]);
      SameShapeSameArgs(s, s1);
      WalkAllReadsOnlyArgs(s, s1, Args(s.values[i]), i);
      VisitAllFollowsWalk(s1, Args(s1.values[i]), i);
    case Err(_) =>
  }

  lemma {:induction false} VisitAllFollowsWalk(s: ValueStore, xs: seq<nat>, b: nat)
    requires WellFormed(s) && b <= |s.values| && AllBelow(xs, b)
    ensures AllBelow(WalkAll(s, xs, b), |s.values|)
    ensures VisitAll(s, xs, b) == Apply(s, WalkAll(s, xs, b))
    decreases b, 0, |xs|
  {
    if xs != [] {
      var top, rest := xs[|xs| - 1], xs[..|xs| - 1];
      VisitFollowsWalk(s, top);
      AllBelowWeaken(WalkAll(s, rest, b), b, |s.values|);
      ApplyConcat(s, Walk(s, top), WalkAll(s, rest, b));
      match Visit(s, top)
      case Ok(s1) =>
        SameShapeWellFormed(s, s1);
        SameShapeSameArgs(s, s1);
        WalkAllReadsOnlyArgs(s, s1, rest, b);
        VisitAllFollowsWalk(s1, rest, b);
      case Err(_) =>
    }
  }

  /** Whether the closure succeeds depends only on the shape of the store. */
  lemma StepOkIgnoresGrads(s: ValueStore, t: ValueStore, i: nat)
    requires SameShape(s, t) && i < |s.values|
    ensures StepOk(s, i) == StepOk(t, i)
  {
    assert SameNode(s.values[i], t.values[i]);
    if s.values[i].record.Some? {
      var args := s.values[i].record.value.args;
      if |args| >= 2 && args[0] < |s.values| && args[1] < |s.values| {
        assert SameNode(s.values[args[0]], t.values[args[0]]);
        assert SameNode(s.values[args[1]], t.values[args[1]]);
      }
    }
  }

  /** A run of the closure succeeds exactly when it succeeds on every node of
      the run, judged on the store it started from. */
  lemma {:induction false} ApplyOkIff(s: ValueStore, xs: seq<nat>)
    requires WellFormed(s) && AllBelow(xs, |s.values|)
    ensures Apply(s, xs).Ok? <==> forall m :: 0 <= m < |xs| ==> StepOk(s, xs[m])
    decreases |xs|
  {
    if xs != [] {
      match Step(s, xs[0])
      case Ok(s1) =>
        SameShapeWellFormed(s, s1);
        ApplyOkIff(s1, xs[1..]);
        forall m | 1 <= m < |xs|
          ensures StepOk(s, xs[m]) == StepOk(s1, xs[1..][m - 1])
        {
          StepOkIgnoresGrads(s, s1, xs[m]);
        }
      case Err(_) =>
    }
  }

  /** Processing a node adds nothing to a node that is not one of its operands. */
  lemma ContributionOnlyToArgs(s: ValueStore, i: nat, k: nat)
    requires WellFormed(s) && i < |s.values| && k !in Args(s.values[i])
    ensures Contribution(s, i, k) == 0.0
  {
    if s.values[i].record.Some? {
      var args := s.values[i].record.value.args;
      if |args| >= 2 {
        assert args[0] in args && args[1] in args;
      }
    }
  }

  /** A node that is no operand of any node of a run leaves the run unchanged. */
  lemma {:induction false} ApplyKeepsNonOperand(s: ValueStore, xs: seq<nat>, k: nat, t: ValueStore)
    requires WellFormed(s) && AllBelow(xs, |s.values|) && k < |s.values|
    requires forall m :: 0 <= m < |xs| ==> k !in Args(s.values[xs[m]])
    requires Apply(s, xs) == Ok(t)
    ensures t.values[k] == s.values[k]
    decreases |xs|
  {
    if xs != [] {
      var s1 := Step(s, xs[0]).value;
      SameShapeWellFormed(s, s1);
      ContributionOnlyToArgs(s, xs[0], k);
      SameNodeSameGrad(s.values[k], s1.values[k]);
      forall m | 0 <= m < |xs[1..]|
        ensures k !in Args(s1.values[xs[1..][m]])
      {
        assert SameNode(s.values[xs[m + 1]], s1.values[xs[m + 1]]);
      }
      ApplyKeepsNonOperand(s1, xs[1..], k, t);
    }
  }

  /** The closure succeeds on every node the walk from `e` reaches. */
  predicate WalkStepsOk(s: ValueStore, e: nat)
    requires WellFormed(s) && e < |s.values|
  {
    forall m :: 0 <= m < |Walk(s, e)| ==> StepOk(s, Walk(s, e)[m])
  }

  /** `backward` succeeds exactly when the entry is in range and the closure
      succeeds on every node the walk from the entry reaches: all of them have
      records, and every `Add` or `Mul` among them has two operands with
      records. */
  lemma BackwardOkIff(s: ValueStore, e: nat)
    requires WellFormed(s)
    ensures Backward(s, e).Ok? <==> e < |s.values| && WalkStepsOk(s, e)
  {
    if e < |s.values| {
      var w := Walk(s, e);
      if HasRecord(s, e) {
        var seeded := Seed(s, e);
        BackwardFollowsWalk(s, e);
        ApplyOkIff(seeded, w);
        forall m | 0 <= m < |w|
          ensures StepOk(s, w[m]) == StepOk(seeded, w[m])
        {
          StepOkIgnoresGrads(s, seeded, w[m]);
        }
      } else {
        assert w[0] == e && !StepOk(s, w[0]);
      }
    }
  }

  /** `backward` seeds the entry and then applies the gradient table along the
      walk from the entry, in walk order; the walk is the same before and
      after seeding, because seeding changes only a gradient. */
  lemma BackwardFollowsWalk(s: ValueStore, e: nat)
    requires WellFormed(s) && HasRecord(s, e)
    ensures WellFormed(Seed(s, e)) && AllBelow(Walk(s, e), |s.values|)
    ensures Backward(s, e) == Apply(Seed(s, e), Walk(s, e))
  {
    var seeded := Seed(s, e);
    SameShapeWellFormed(s, seeded);
    SameShapeSameArgs(s, seeded);
    WalkReadsOnlyArgs(s, seeded, e);
    AllBelowWeaken(Walk(s, e), e + 1, |s.values|);
    VisitFollowsWalk(seeded, e);
    assert Backward(s, e) == Visit(seeded, e);
  }

  /** After a successful `backward` the entry's gradient is exactly the seed:
      the walk only reaches nodes at or below the entry, and each of them adds
      only to operands strictly below itself. */
  lemma BackwardSeedsEntry(s: ValueStore, e: nat, t: ValueStore)
    requires WellFormed(s) && Backward(s, e) == Ok(t)
    ensures Grad(t.values[e]) == 1.0
  {
    var seeded := Seed(s, e);
    var w := Walk(s, e);
    BackwardFollowsWalk(s, e);
    forall m | 0 <= m < |w|
      ensures e !in Args(seeded.values[w[m]])
    {
      if e in Args(seeded.values[w[m]]) {
        AllBelowMember(Args(seeded.values[w[m]]), w[m], e);
        assert false;
      }
    }
    ApplyKeepsNonOperand(seeded, w, e, t);
  }

  /** `backward` changes no node outside the walk from the entry: nodes above
      the entry and nodes it does not reach keep their gradients. */
  lemma BackwardLeavesUnreached(s: ValueStore, e: nat, t: ValueStore, k: nat)
    requires WellFormed(s) && Backward(s, e) == Ok(t)
    requires k < |s.values| && k !in Walk(s, e)
    ensures t.values[k] == s.values[k]
  {
    var seeded := Seed(s, e);
    var w := Walk(s, e);
    BackwardFollowsWalk(s, e);
    forall m | 0 <= m < |w|
      ensures k !in Args(seeded.values[w[m]])
    {
      assert SameNode(s.values[w[m]], seeded.values[w[m]]);
      if k in Args(s.values[w[m]]) {
        assert w[m] in w;
        WalkClosed(s, e, w[m], k);
        assert false;
      }
    }
    assert k != w[0];
    ApplyKeepsNonOperand(seeded, w, k, t);
  }

  /** Every store built only from leaves and `+` has a leaf under every node,
      and the walk reaches it. */
  lemma {:induction false} ApiWalkReachesLeaf(s: ValueStore, e: nat) returns (j: nat)
    requires BuiltByApi(s) && e < |s.values|
    ensures j in Walk(s, e) && !HasRecord(s, j)
    decreases e
  {
    if !HasRecord(s, e) {
      j := e;
    } else {
      var args := Args(s.values[e]);
      assert AllBelow(args, e) && |args| == 2;
      var j' := ApiWalkReachesLeaf(s, args[0]);
      WalkOfStackedIsWalked(s, args, e, args[0], j');
      j := j';
    }
  }

  /** Changing only gradients keeps a store in the shape the API builds. */
  lemma SameShapeBuiltByApi(s: ValueStore, t: ValueStore)
    requires BuiltByApi(s) && SameShape(s, t)
    ensures BuiltByApi(t)
  {
    SameShapeWellFormed(s, t);
    forall k | 0 <= k < |t.values| && t.values[k].record.Some?
      ensures t.values[k].record.value.ops == Add && |t.values[k].record.value.args| == 2
    {
      assert SameNode(s.values[k], t.values[k]);
    }
  }

  /** On an API-built store, a walk from a node with a record can only fail
      on unwrapping an operand's record: every record is a two-operand `Add`,
      and every node pushed has just had its record unwrapped, so neither
      `LeafVisited` nor `MissingOperand` can occur. */
  lemma {:induction false} VisitFailsOnlyAtOperand(s: ValueStore, i: nat)
    requires BuiltByApi(s) && HasRecord(s, i)
    ensures Visit(s, i).Err? ==> Visit(s, i).error.OperandWithoutRecord?
    decreases i, 1
  {
    match Step(s, i)
    case Ok(s1) =>
      SameShapeBuiltByApi(s, s1);
      assert StepOk(s, i);
      assert SameNode(s.values[i], s1.values[i]);
      var args := Args(s1.values[i]);
      forall m | 0 <= m < |args|
        ensures HasRecord(s1, args[m])
      {
        assert SameNode(s.values[args[m]], s1.values[args[m]]);
      }
      VisitAllFailsOnlyAtOperand(s1, args, i);
    case Err(_) =>
  }

  lemma {:induction false} VisitAllFailsOnlyAtOperand(s: ValueStore, xs: seq<nat>, b: nat)
    requires BuiltByApi(s) && b <= |s.values| && AllBelow(xs, b)
    requires forall m :: 0 <= m < |xs| ==> HasRecord(s, xs[m])
    ensures VisitAll(s, xs, b).Err? ==> VisitAll(s, xs, b).error.OperandWithoutRecord?
    decreases b, 0, |xs|
  {
    if xs != [] {
      var top, rest := xs[|xs| - 1], xs[..|xs| - 1];
      VisitFailsOnlyAtOperand(s, top);
      match Visit(s, top)
      case Ok(s1) =>
        SameShapeBuiltByApi(s, s1);
        forall m | 0 <= m < |rest|
          ensures HasRecord(s1, rest[m])
        {
          assert SameNode(s.values[rest[m]], s1.values[rest[m]]);
        }
        VisitAllFailsOnlyAtOperand(s1, rest, b);
      case Err(_) =>
    }
  }

  /** As written, `backward` fails on every store built through the API. The
      walk always reaches a leaf, but the `Add` node above it fails first, on
      unwrapping the leaf's record: so the fault is an out-of-range entry, a
      leaf entry, or an operand without a record, and never a visited leaf. */
  lemma BackwardFailsOnApiStores(s: ValueStore, e: nat)
    requires BuiltByApi(s)
    ensures Backward(s, e).Err?
    ensures Backward(s, e).error.EntryOutOfRange? || Backward(s, e).error.EntryWithoutRecord?
         || Backward(s, e).error.OperandWithoutRecord?
  {
    if e < |s.values| {
      var j := ApiWalkReachesLeaf(s, e);
      var w := Walk(s, e);
      var m :| 0 <= m < |w| && w[m] == j;
      assert !StepOk(s, w[m]);
      assert !WalkStepsOk(s, e);
      BackwardOkIff(s, e);
      if HasRecord(s, e) {
        var seeded := Seed(s, e);
        SameShapeBuiltByApi(s, seeded);
        VisitFailsOnlyAtOperand(seeded, e);
        assert Backward(s, e) == Visit(seeded, e);
      }
    }
  }

  /** Resetting gradients makes `backward` repeatable: reset, backward, reset,
      backward ends where reset, backward ended. */
  lemma ResetMakesBackwardRepeatable(s: ValueStore, e: nat, t: ValueStore)
    requires WellFormed(s) && Backward(ZeroGrads(s), e) == Ok(t)
    ensures Backward(ZeroGrads(t), e) == Ok(t)
  {
    var z := ZeroGrads(s);
    SameShapeTransitive(s, z, t);
    ZeroGradsForgetsOnlyGrads(z, t);
    ZeroGradsIdempotent(s);
  }

  /** Fan-out within one node: an operand named twice (x+x, x*x) receives
      both shares, `2 * g` for `Add` and `2 * x.value * g` for `Mul`. */
  lemma StepSharedOperand(s: ValueStore, i: nat, x: nat, t: ValueStore)
    requires WellFormed(s) && i < |s.values| && Step(s, i) == Ok(t)
    requires s.values[i].record.Some? && |s.values[i].record.value.args| >= 2
    requires s.values[i].record.value.args[0] == x && s.values[i].record.value.args[1] == x
    ensures s.values[i].record.value.ops == Add ==>
              Grad(t.values[x]) == Grad(s.values[x]) + 2.0 * Grad(s.values[i])
    ensures s.values[i].record.value.ops == Mul ==>
              Grad(t.values[x]) == Grad(s.values[x]) + 2.0 * s.values[x].value * Grad(s.values[i])
  {
    assert AllBelow(Args(s.values[i]), i);
  }

  /** `Pow` and `Relu` records propagate nothing. */
  lemma PowReluPropagateNothing(s: ValueStore, i: nat)
    requires WellFormed(s) && i < |s.values| && s.values[i].record.Some?
    requires s.values[i].record.value.ops == Pow || s.values[i].record.value.ops == Relu
    ensures Step(s, i) == Ok(s)
  {
  }

  /** The store of `p = x * x` with `x = y + y` and `y = 1`, with the given
      gradients; `y` carries an empty `Relu` record so that the walk may
      reach it without panicking. */
  function SquareOfDouble(gy: real, gx: real, gp: real): (s: ValueStore)
    ensures WellFormed(s) && |s.values| == 3
    ensures Grad(s.values[0]) == gy && Grad(s.values[1]) == gx && Grad(s.values[2]) == gp
  {
    ValueStore([
      Value(1.0, 0, Some(Record(gy, Relu, []))),
      Value(2.0, 1, Some(Record(gx, Add, [0, 0]))),
      Value(4.0, 2, Some(Record(gp, Mul, [1, 1])))])
  }

  /** A store shaped like `SquareOfDouble` is determined by its gradients. */
  lemma SquareOfDoubleByGrads(t: ValueStore, gy: real, gx: real, gp: real)
    requires SameShape(SquareOfDouble(0.0, 0.0, 0.0), t)
    requires Grad(t.values[0]) == gy && Grad(t.values[1]) == gx && Grad(t.values[2]) == gp
    ensures t == SquareOfDouble(gy, gx, gp)
  {
    var z, u := SquareOfDouble(0.0, 0.0, 0.0), SquareOfDouble(gy, gx, gp);
    assert SameShape(z, u);
    SameShapeSymmetric(z, t);
    SameShapeTransitive(t, z, u);
    forall k | 0 <= k < 3
      ensures t.values[k] == u.values[k]
    {
      SameNodeSameGrad(t.values[k], u.values[k]);
    }
    assert t.values == u.values;
  }

  /** Processing `p` adds `2 * x.value * g = 4 * g` to `x`. */
  lemma SquareOfDoubleStepP(gy: real, gx: real, gp: real)
    ensures Step(SquareOfDouble(gy, gx, gp), 2) == Ok(SquareOfDouble(gy, gx + 4.0 * gp, gp))
  {
    var s := SquareOfDouble(gy, gx, gp);
    assert StepOk(s, 2);
    var t := Step(s, 2).value;
    assert Contribution(s, 2, 0) == 0.0 && Contribution(s, 2, 2) == 0.0;
    assert Contribution(s, 2, 1) == 4.0 * gp;
    assert SameShape(SquareOfDouble(0.0, 0.0, 0.0), s);
    SameShapeTransitive(SquareOfDouble(0.0, 0.0, 0.0), s, t);
    SquareOfDoubleByGrads(t, gy, gx + 4.0 * gp, gp);
  }

  /** Processing `x` adds `2 * g` to `y`. */
  lemma SquareOfDoubleStepX(gy: real, gx: real, gp: real)
    ensures Step(SquareOfDouble(gy, gx, gp), 1) == Ok(SquareOfDouble(gy + 2.0 * gx, gx, gp))
  {
    var s := SquareOfDouble(gy, gx, gp);
    assert StepOk(s, 1);
    var t := Step(s, 1).value;
    assert Contribution(s, 1, 1) == 0.0 && Contribution(s, 1, 2) == 0.0;
    assert Contribution(s, 1, 0) == 2.0 * gx;
    assert SameShape(SquareOfDouble(0.0, 0.0, 0.0), s);
    SameShapeTransitive(SquareOfDouble(0.0, 0.0, 0.0), s, t);
    SquareOfDoubleByGrads(t, gy + 2.0 * gx, gx, gp);
  }

  /** `y` propagates nothing, however often it is reached. */
  lemma SquareOfDoubleLeafRun(gy: real, gx: real, gp: real)
    ensures Apply(SquareOfDouble(gy, gx, gp), [0, 0]) == Ok(SquareOfDouble(gy, gx, gp))
  {
    var s := SquareOfDouble(gy, gx, gp);
    assert Step(s, 0) == Ok(s);
    AppliesInOrder(s, 0, []);
    AppliesInOrder(s, 0, [0]);
  }

  /** One visit of `x`: `x` passes its whole gradient to `y`, twice over. */
  lemma SquareOfDoubleVisitX(gy: real, gx: real, gp: real)
    ensures Apply(SquareOfDouble(gy, gx, gp), [1, 0, 0]) == Ok(SquareOfDouble(gy + 2.0 * gx, gx, gp))
  {
    var s := SquareOfDouble(gy, gx, gp);
    SquareOfDoubleStepX(gy, gx, gp);
    SquareOfDoubleLeafRun(gy + 2.0 * gx, gx, gp);
    AppliesInOrder(s, 1, [0, 0]);
  }

  lemma SquareOfDoubleWalk()
    ensures Walk(SquareOfDouble(0.0, 0.0, 0.0), 2) == [2] + ([1, 0, 0] + [1, 0, 0])
  {
    var s := SquareOfDouble(0.0, 0.0, 0.0);
    assert Walk(s, 0) == [0];
    assert Walk(s, 1) == [1, 0, 0];
  }

  /** After `p`, the two visits of `x`. */
  lemma SquareOfDoubleVisitsX()
    ensures Apply(SquareOfDouble(0.0, 4.0, 1.0), [1, 0, 0] + [1, 0, 0]) == Ok(SquareOfDouble(16.0, 4.0, 1.0))
  {
    SquareOfDoubleVisitX(0.0, 4.0, 1.0);
    SquareOfDoubleVisitX(8.0, 4.0, 1.0);
    ApplyConcat(SquareOfDouble(0.0, 4.0, 1.0), [1, 0, 0], [1, 0, 0]);
  }

  /** The closure along the walk from `p`, once `p` is seeded. */
  lemma SquareOfDoubleRun()
    ensures Apply(SquareOfDouble(0.0, 0.0, 1.0), [2] + ([1, 0, 0] + [1, 0, 0])) == Ok(SquareOfDouble(16.0, 4.0, 1.0))
  {
    SquareOfDoubleStepP(0.0, 0.0, 1.0);
    SquareOfDoubleVisitsX();
    AppliesInOrder(SquareOfDouble(0.0, 0.0, 1.0), 2, [1, 0, 0] + [1, 0, 0]);
  }

  /** Without a visited set, `x` is processed once per path from `p`, and
      each time it passes its whole gradient on: at `y = 1`, `y` ends with
      gradient 16 where the chain rule gives d(4y^2)/dy = 8. */
  lemma RevisitDoubleCounts()
    ensures Backward(SquareOfDouble(0.0, 0.0, 0.0), 2) == Ok(SquareOfDouble(16.0, 4.0, 1.0))
  {
    var s := SquareOfDouble(0.0, 0.0, 0.0);
    var seeded := SquareOfDouble(0.0, 0.0, 1.0);
    assert Seed(s, 2) == seeded;
    BackwardFollowsWalk(s, 2);
    SquareOfDoubleWalk();
    SquareOfDoubleRun();
  }

  /** One step of `Apply`: the head, then the tail. */
  lemma AppliesInOrder(s: ValueStore, x: nat, xs: seq<nat>)
    requires WellFormed(s) && x < |s.values| && AllBelow(xs, |s.values|)
    ensures AllBelow([x] + xs, |s.values|)
    ensures Step(s, x).Err? ==> Apply(s, [x] + xs) == Err(Step(s, x).error)
    ensures Step(s, x).Ok? ==>
              WellFormed(Step(s, x).value) && Apply(s, [x] + xs) == Apply(Step(s, x).value, xs)
  {
    if Step(s, x).Ok? {
      SameShapeWellFormed(s, Step(s, x).value);
    }
    assert ([x] + xs)[0] == x && ([x] + xs)[1..] == xs;
  }
}
