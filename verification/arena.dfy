/** The node arena of the autodiff store: `Ops`, `Record`, `Value` and
    `ValueStore` of src/main.rs, node construction (`ValueBuilder::value` and
    `&Value + &Value`) and the gradient reset `zero_grads`.

    The store is a plain value threaded through functions; the shared
    `Rc<RefCell<..>>` ownership of the source is not modelled. */
module Arena {
  import opened Outcomes

  /** The operation kinds a record can carry. */
  datatype Ops = Add | Mul | Pow | Relu

  /** The bookkeeping of a computed node: its gradient, the operation that
      produced it and the indices of its operands. */
  datatype Record = Record(grad: real, ops: Ops, args: seq<nat>)

  /** One node of the arena. A leaf (a value supplied by the caller) has no
      record, and therefore no gradient either. */
  datatype Value = Value(value: real, idx: nat, record: Option<Record>)

  datatype ValueStore = ValueStore(values: seq<Value>)

  /** The operands a node hands to the walk: its record's args, or none. */
  function Args(v: Value): seq<nat> {
    match v.record
    case Some(r) => r.args
    case None => []
  }

  /** The gradient a node carries; a leaf has none and reads as 0. */
  function Grad(v: Value): real {
    match v.record
    case Some(r) => r.grad
    case None => 0.0
  }

  predicate HasRecord(s: ValueStore, k: nat) {
    k < |s.values| && s.values[k].record.Some?
  }

  /** Every index in `xs` is smaller than `b`. */
  predicate AllBelow(xs: seq<nat>, b: nat) {
    forall m :: 0 <= m < |xs| ==> xs[m] < b
  }

  lemma AllBelowWeaken(xs: seq<nat>, b: nat, c: nat)
    requires AllBelow(xs, b) && b <= c
    ensures AllBelow(xs, c)
  {
  }

  lemma AllBelowMember(xs: seq<nat>, b: nat, x: nat)
    requires AllBelow(xs, b) && x in xs
    ensures x < b
  {
  }

  /** The arena invariant: every node's idx is its position, and every operand
      index is smaller than its owner's, so the operand graph is acyclic. */
  predicate WellFormed(s: ValueStore) {
    forall k :: 0 <= k < |s.values| ==> s.values[k].idx == k && AllBelow(Args(s.values[k]), k)
  }

  /** Two nodes agree on everything except gradients. */
  predicate SameNode(u: Value, v: Value) {
    && u.value == v.value
    && u.idx == v.idx
    && u.record.Some? == v.record.Some?
    && (u.record.Some? ==>
          u.record.value.ops == v.record.value.ops && u.record.value.args == v.record.value.args)
  }

  /** Two stores agree on everything except gradients. */
  predicate SameShape(s: ValueStore, t: ValueStore) {
    |s.values| == |t.values| &&
    forall k :: 0 <= k < |s.values| ==> SameNode(s.values[k], t.values[k])
  }

  /** A store built only through `NewStore`, `NewValue` and `Plus`: well formed,
      and every record is an `Add` of two operands. */
  predicate BuiltByApi(s: ValueStore) {
    && WellFormed(s)
    && forall k :: 0 <= k < |s.values| && s.values[k].record.Some? ==>
         s.values[k].record.value.ops == Add && |s.values[k].record.value.args| == 2
  }

  lemma SameShapeSymmetric(s: ValueStore, t: ValueStore)
    requires SameShape(s, t)
    ensures SameShape(t, s)
  {
  }

  lemma SameShapeTransitive(s: ValueStore, t: ValueStore, u: ValueStore)
    requires SameShape(s, t) && SameShape(t, u)
    ensures SameShape(s, u)
  {
  }

  /** Two stores of the same length whose nodes name the same operands,
      whatever their values, operations and gradients. */
  predicate SameArgs(s: ValueStore, t: ValueStore) {
    |s.values| == |t.values| &&
    forall k :: 0 <= k < |s.values| ==> Args(s.values[k]) == Args(t.values[k])
  }

  /** Stores that differ only in gradients name the same operands. */
  lemma SameShapeSameArgs(s: ValueStore, t: ValueStore)
    requires SameShape(s, t)
    ensures SameArgs(s, t)
  {
    forall k | 0 <= k < |s.values|
      ensures Args(s.values[k]) == Args(t.values[k])
    {
      assert SameNode(s.values[k], t.values[k]);
    }
  }

  /** Changing only gradients keeps the arena invariant. */
  lemma SameShapeWellFormed(s: ValueStore, t: ValueStore)
    requires WellFormed(s) && SameShape(s, t)
    ensures WellFormed(t)
  {
    forall k | 0 <= k < |t.values|
      ensures t.values[k].idx == k && AllBelow(Args(t.values[k]), k)
    {
      assert SameNode(s.values[k], t.values[k]);
      assert Args(t.values[k]) == Args(s.values[k]);
    }
  }

  /** Nodes of the same shape and gradient are the same node. */
  lemma SameNodeSameGrad(u: Value, v: Value)
    requires SameNode(u, v) && Grad(u) == Grad(v)
    ensures u == v
  {
  }

  /** `ValueStore::new`: an empty arena. */
  function NewStore(): (s: ValueStore)
    ensures |s.values| == 0
    ensures WellFormed(s) && BuiltByApi(s)
  {
    ValueStore([])
  }

  /** `ValueBuilder::value`: appends a leaf holding `v` and returns its index. */
  function NewValue(s: ValueStore, v: real): (r: (ValueStore, nat))
    ensures r.1 == |s.values| && |r.0.values| == |s.values| + 1
    ensures r.0.values[..|s.values|] == s.values
    ensures r.0.values[r.1] == Value(v, r.1, None)
    ensures WellFormed(s) ==> WellFormed(r.0)
    ensures BuiltByApi(s) ==> BuiltByApi(r.0)
  {
    var idx := |s.values|;
    (ValueStore(s.values + [Value(v, idx, None)]), idx)
  }

  /** `&Value + &Value`: appends a node holding the sum of the operands' values
      whose record is a fresh `Add` of the two operands, and returns its index. */
  function Plus(s: ValueStore, a: nat, b: nat): (r: (ValueStore, nat))
    requires a < |s.values| && b < |s.values|
    ensures r.1 == |s.values| && |r.0.values| == |s.values| + 1
    ensures r.0.values[..|s.values|] == s.values
    ensures r.0.values[r.1].value == s.values[a].value + s.values[b].value
    ensures r.0.values[r.1].idx == r.1
    ensures WellFormed(s) ==> r.0.values[r.1].record == Some(Record(0.0, Add, [a, b]))
    ensures WellFormed(s) ==> a < r.1 && b < r.1 && WellFormed(r.0)
    ensures BuiltByApi(s) ==> BuiltByApi(r.0)
  {
    var x, y := s.values[a], s.values[b];
    var (s1, out) := NewValue(s, x.value + y.value);
    var node := s1.values[out].(record := Some(Record(0.0, Add, [x.idx, y.idx])));
    (ValueStore(s1.values[out := node]), out)
  }

  /** A node with its gradient (if it has one) set to zero. */
  function ZeroGrad(v: Value): (r: Value)
    ensures SameNode(v, r) && Grad(r) == 0.0
  {
    match v.record
    case Some(rec) => v.(record := Some(rec.(grad := 0.0)))
    case None => v
  }

  /** `zero_grads`: every record's gradient becomes zero; nothing else changes. */
  function ZeroGrads(s: ValueStore): (r: ValueStore)
    ensures SameShape(s, r)
    ensures forall k :: 0 <= k < |r.values| ==> Grad(r.values[k]) == 0.0
    ensures WellFormed(s) ==> WellFormed(r)
  {
    var r := ValueStore(seq(|s.values|, k requires 0 <= k < |s.values| => ZeroGrad(s.values[k])));
    assert SameShape(s, r);
    if WellFormed(s) then SameShapeWellFormed(s, r); r else r
  }

  /** Resetting twice is resetting once. */
  lemma ZeroGradsIdempotent(s: ValueStore)
    ensures ZeroGrads(ZeroGrads(s)) == ZeroGrads(s)
  {
    var z := ZeroGrads(s);
    var zz := ZeroGrads(z);
    assert |zz.values| == |z.values|;
    forall k | 0 <= k < |z.values|
      ensures zz.values[k] == z.values[k]
    {
      SameNodeSameGrad(z.values[k], zz.values[k]);
    }
  }

  /** The reset forgets exactly the gradients: two stores reset to the same
      store if and only if they differ only in gradients. */
  lemma ZeroGradsForgetsOnlyGrads(s: ValueStore, t: ValueStore)
    ensures ZeroGrads(s) == ZeroGrads(t) <==> SameShape(s, t)
  {
    var zs, zt := ZeroGrads(s), ZeroGrads(t);
    if SameShape(s, t) {
      forall k | 0 <= k < |zs.values|
        ensures zs.values[k] == zt.values[k]
      {
        assert SameNode(s.values[k], t.values[k]);
        SameNodeSameGrad(zs.values[k], zt.values[k]);
      }
      assert zs.values == zt.values;
    }
    if zs == zt {
      SameShapeSymmetric(t, zt);
      SameShapeTransitive(s, zs, t);
    }
  }
}
