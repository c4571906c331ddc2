# mini-autograd: the arena-backed scalar autodiff store, in Dafny

This project models the core of `src/main.rs` in mini-autograd, a prototype
reverse-mode automatic-differentiation engine over scalars:

- **The node arena** (`ValueStore.values`). Each `Value` holds a scalar `value`,
  its `idx` (its position in the arena) and an optional `Record`. A leaf, meaning
  a value the caller supplied, has no record and therefore no gradient. A computed
  node's record holds `grad`, the operation kind `ops` (`Add`, `Mul`, `Pow`,
  `Relu`) and the operand indices `args`.
- **Node construction.** `ValueBuilder::value` appends a leaf. `&Value + &Value`
  appends a node whose value is the sum and whose record is a fresh `Add` of the
  two operands.
- **Gradient reset.** `zero_grads` zeroes every record's gradient.
- **The walk.** `bfs` is a LIFO stack walk without a visited set, despite its
  name.
- **Gradient propagation.** `backward` seeds the entry's gradient with 1.0. It
  then walks from the entry and applies a per-operation rule to each node it
  reaches.

The store is an immutable `ValueStore` that is passed into and returned from
pure functions (module `Arena`). Values and gradients are `real`. The panics of
the source are `Err(Fault)` values (module `Backprop`).

Read as Rust, the file would be rejected by the borrow checker at several
places, among them:
- it moves out of borrowed records at lines 43, 57, 60, 66-67 and 72-73;
- it holds two live `&mut self.values[..]` borrows at lines 64-65 and 70-71;
- the `Fn` closure at line 59 mutates `self` while `self.bfs` holds `&mut self`;
- it needs `&mut` through a `&Value` at line 95 and mutates through a shared
  reference at line 96;
- it returns a reference into a dropped `RefMut` at line 127.

Each of those lines is modelled by its evident intent. Records are read and
updated in place (the `match` at line 60 reads as a borrow of the record), and
an `unwrap` on `None` is a failure.

Three things follow from the code as written, and each is proved:

- **Every reached node is processed once per path.** The walk has no visited
  set. `Traversal.WalkCountsPaths` proves that it hands a node to the closure
  once per operand path from the entry.
- **Backward fails on any store the API can build.** Gradients are added into
  an operand's record with `unwrap` (src/main.rs:66-67), and a leaf has no
  record. Every node built with `+` has a leaf below it, so
  `Backprop.BackwardFailsOnApiStores` proves that `backward` always fails on
  such stores. A leaf entry fails at src/main.rs:57. Otherwise the walk
  processes an `Add` node whose operand is a leaf, and it fails on unwrapping
  that operand's record before the leaf itself is popped, so the leaf panic at
  src/main.rs:83-85 is never the one raised. `backward` can only succeed on a
  store whose reachable nodes all carry records.
- **Repeated visits double-count gradients.** A node reached along two paths
  passes its whole accumulated gradient on both times.
  `Backprop.RevisitDoubleCounts` works this out on a three-node store:
  `p = x * x` with a `Mul` record, `x = y + y` with an `Add` record, and `y = 1`.
  `y` is given an empty `Relu` record so that the walk can finish; the API
  builds neither the `Mul` nor the `Relu` node, and with `y` a true leaf the
  walk would fail at src/main.rs:66 while processing `x`. The model gives `y` a
  gradient of 16, while the chain rule gives d(4y²)/dy = 8.

These observations describe the source's behaviour, and the model keeps it. The
fixes would be leaf gradients and a topological walk, and the file has neither.

A correct reverse-mode pass would treat a leaf entry as a seed-only no-op and
would process each node only after all of its consumers. This code panics on a
leaf entry (src/main.rs:57) and uses a plain stack walk (src/main.rs:36-45), and
the model keeps both.

Files: `outcomes.dfy` (`Option`, `Result`), `arena.dfy` (data model,
construction, reset), `traversal.dfy` (the walk), `backprop.dfy` (gradient
rules and `backward`).

## Model

| member | source | states |
|---|---|---|
| Arena.NewStore | src/main.rs:32-34 | A new store is empty and satisfies the arena invariant (idx = position, operands precede their owner). |
| Arena.NewValue | src/main.rs:118-128 | Appends exactly one node with the given value, idx = old length and no record. Earlier nodes are unchanged, the length grows by one, and the arena invariant is preserved. |
| Arena.Plus | src/main.rs:94-103 | Appends one node whose value is the sum of the operands' values and whose idx is the old length. Its record is `{grad: 0, ops: Add, args: [a, b]}`. Both args are smaller than the new idx, so the invariant is preserved, and so is "built through the API only". |
| Arena.ZeroGrads | src/main.rs:47-53 | Every gradient becomes 0. Values, idx, record presence, ops and args are unchanged, and the invariant is kept. |
| Arena.ZeroGradsIdempotent | src/main.rs:47-53 | Resetting twice equals resetting once. |
| Arena.ZeroGradsForgetsOnlyGrads | src/main.rs:47-53 | Two stores reset to the same store exactly when they differ only in gradients (both directions). |
| Traversal.Walk | src/main.rs:36-45 | The walk order starts at the entry and reaches only nodes at or below the entry's index, which is why it terminates. |
| Traversal.Bfs | src/main.rs:36-45 | The literal stack loop (pop, hand the node on, push its args) produces exactly the recursive reference order `Walk`: preorder, with the last operand walked first. |
| Traversal.WalkClosed | src/main.rs:43 | Every operand of a walked node is walked too. |
| Traversal.WalkReadsOnlyArgs | src/main.rs:43 | Two stores whose nodes name the same operands are walked in the same order, whatever their values, operations, record presence or gradients. |
| Traversal.WalkCountsPaths | src/main.rs:36-45 | Without a visited set, the number of times a node is handed to the closure equals the number of operand paths from the entry to it. |
| Traversal.SharedOperandWalkedTwice | src/main.rs:39-43 | A node used as both operands (x*x) is handed to the closure at least twice. |
| Backprop.AddGrad | src/main.rs:66-73 | `x.record.unwrap().grad += d` succeeds exactly when `x` has a record. It then raises that gradient by `d` and changes nothing else. On a leaf it fails with `OperandWithoutRecord`. |
| Backprop.AddGrads | src/main.rs:66-67 | Two successive gradient updates succeed exactly when both targets have records, and otherwise fail at the first leaf, `a` before `b`. A node named twice receives both shares. |
| Backprop.Step | src/main.rs:59-87 | A leaf handed to the closure fails with `LeafVisited`. The closure succeeds exactly when the node has a record, and, for an `Add` or `Mul` record, has two operands that both have records. On success it changes only gradients, and each gradient rises by the gradient table's contribution. |
| Backprop.AddRule | src/main.rs:63-68 | `Add` adds the output's gradient to each operand. It fails with `MissingOperand` on fewer than two args and with `OperandWithoutRecord` on an operand that is a leaf. |
| Backprop.MulRule | src/main.rs:69-74 | `Mul` adds `b.value * g` to `a` and `a.value * g` to `b`, with the same failure cases as `Add`. |
| Backprop.StepSharedOperand | src/main.rs:63-74 | When both args are the same node, it receives `2 * g` under `Add` and `2 * x.value * g` under `Mul`. |
| Backprop.PowReluPropagateNothing | src/main.rs:75-80 | The `Pow` and `Relu` arms leave the store unchanged. |
| Backprop.Visit | src/main.rs:36-45 | The walk with the closure applied as it goes changes only gradients. |
| Backprop.VisitFollowsWalk | src/main.rs:39-43 | Processing each node and then pushing the args read from the updated store equals applying the closure along the walk order. |
| Backprop.Seed | src/main.rs:56-58 | Seeding sets the entry's gradient to 1.0 and leaves every other node unchanged. |
| Backprop.Backward | src/main.rs:55-58 | An entry past the end fails with `EntryOutOfRange`, and an entry without a record fails with `EntryWithoutRecord`. On success the entry has a record and only gradients changed. |
| Backprop.ApplyOkIff | src/main.rs:59-87 | A run of the closure succeeds exactly when every node of the run passes `StepOk` on the starting store. |
| Backprop.BackwardOkIff | src/main.rs:55-87 | `backward` succeeds exactly when the entry is in range and every node the walk reaches passes `StepOk`. |
| Backprop.BackwardFollowsWalk | src/main.rs:55-87 | For an entry with a record, `backward` equals seeding the entry and then applying the closure to each node of the walk from the entry, in walk order. |
| Backprop.BackwardSeedsEntry | src/main.rs:55-74 | After a successful `backward` the entry's gradient is exactly 1.0. |
| Backprop.BackwardLeavesUnreached | src/main.rs:59-87 | `backward` leaves every node outside the walk from the entry untouched, gradient included. |
| Backprop.VisitFailsOnlyAtOperand | src/main.rs:59-67 | On a store built through the API, a walk from a node with a record fails, if at all, only on unwrapping an operand's record, never on a visited leaf or a missing operand. |
| Backprop.BackwardFailsOnApiStores | src/main.rs:55-67 | On any store built only through `NewStore`, `NewValue` and `Plus`, `backward` fails, and the fault is an out-of-range entry, a leaf entry or an operand without a record. |
| Backprop.ResetMakesBackwardRepeatable | src/main.rs:47-58 | Reset then backward, repeated, ends in the same store as the first reset then backward. |
| Backprop.RevisitDoubleCounts | src/main.rs:39-74 | For `p = x * x` (a `Mul` record), `x = y + y` (an `Add` record) and `y = 1` (an empty `Relu` record, so that the walk can finish), the walk reaches `x` twice and `y` ends with gradient 16, twice the chain-rule value. |

## Left out

- `main` (src/main.rs:131-137) is a console smoke test.
- `ValueBuilder::new`, `ValueBuilder::clone`, the `Rc<RefCell<..>>` sharing and the `builder` back-pointer in `Value` are left out. The store is a single value passed explicitly, so handles from two different stores cannot be mixed. The source does not check for that either.
- `f32` rounding is not modelled: values and gradients are `real`, and the only operations are `+` and `*`.
- `usize` width is not modelled: indices are `nat`. Overflow of `usize` is unreachable for an in-memory arena.
- `bfs` accepts any closure. The model instantiates it twice: with a closure that records the node (`Traversal.Bfs`), and with the `backward` closure (`Backprop.Visit`). The `backward` closure is the only caller in the source.
- Backward: requires the arena invariant, and so do `Traversal.Walk`, `Traversal.Bfs`, `Backprop.Step`, `Backprop.Visit` and `Backprop.Apply`, for the same reason. Every constructor keeps the invariant. A store that breaks it can only come from outside the model, and there the source's walk could fail to terminate.
- There are no constructors for `Mul`, `Pow` or `Relu` nodes, no forward rules for them and no `Pow`/`Relu` gradient rules, because the source has none. The `Mul` rule is modelled on stores that carry `Mul` records.
- Leaves carry no gradient, because the source has no field for one. `Grad` reads a leaf as 0 only as a convenience for stating contracts.
