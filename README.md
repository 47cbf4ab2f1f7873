# lazycell: a write-once cell, modelled in Dafny

`LazyCell<T>` is a cell that starts out empty and can be filled exactly once
at run time. After that its contents are frozen. Because the value is never
replaced or removed, `borrow` can hand out a reference that lives as long as
the cell itself, not just as long as an internal borrow guard. A second
`fill` panics.

The model is in two files:

- `wrappers.dfy`: the `Option` datatype (Rust's `Option<T>`).
- `lazycell.dfy` (module `Lazycell`), which has two layers:
  - the class `LazyCell` has one mutable field, `inner: Option<T>`. It
    provides the crate's `new` (the constructor), `fill` (a `modifies this`
    method), and `filled`, `borrow` and `into_inner` (functions that read
    `this`).
  - a value-level state machine describes what a sequence of calls observes.
    `Step` is one call on a slot. `Run` is a sequence of calls, and it
    includes the panic of `fill` on a filled cell. The lemmas about `Run`
    state the freeze guarantee: once the cell is filled it stays filled, it
    keeps the same value, and a second fill panics. `Execute` makes each call
    on a real `LazyCell` object and is proved to return exactly what `Run`
    predicts.

The model takes no input from outside: there is no I/O, clock or randomness
in the crate's core.

In the class, a `fill` on a filled cell is excluded by a precondition, which
stands in for the crate's panic. The trace model keeps that panic as an
outcome (`Panic`). A panicking `fill` leaves the slot as it was, because the
crate checks before it stores, and it ends the sequence of calls.

`src/lib.rs` has no non-panicking `try_fill` and no `replace` (which
`src/serde_impl.rs:38` calls), so the model has neither.

## Model

| member | source | states |
|---|---|---|
| `Lazycell.LazyCell.constructor` | src/lib.rs:24-26 | a new cell is empty: `filled()` is false and `borrow()` is `None` |
| `Lazycell.LazyCell.Fill` | src/lib.rs:31-37 | on an empty cell, `fill(t)` makes one successful step of the state machine: afterwards the cell is filled and `borrow()` returns `Some(t)`; a call on a filled cell (the panic) is excluded |
| `Lazycell.LazyCell.Filled` | src/lib.rs:40-42 | `filled()` is the state machine's answer for the current slot (true exactly when the slot is `Some`), and the slot is unchanged |
| `Lazycell.LazyCell.Borrow` | src/lib.rs:49-54 | `borrow()` returns the stored option, with the slot unchanged; it is `Some` exactly when `filled()` is true |
| `Lazycell.LazyCell.IntoInner` | src/lib.rs:56-59 | `into_inner()` yields the stored option: `None` for an empty cell and `Some(v)` for a cell filled with `v` (the same contents as `borrow()`) |
| `Lazycell.Step` | src/lib.rs:31-54 | one call on a slot: `fill` panics exactly when the slot is filled; a filled slot is never changed; only `fill` changes the slot, and it sets it to `Some(t)`; `filled` reports whether the slot is filled; `borrow` returns the slot |
| `Lazycell.Run` | src/lib.rs:9-10 | for a sequence of calls: a run that starts filled ends with the same value; a run that panics stops at a `fill` and leaves the cell filled; a run that does not panic answers every call |
| `Lazycell.FilledRunStable` | src/lib.rs:44-54 | from a cell filled with `v`, every later `filled` returns true, every later `borrow` returns `Some(v)`, and the slot stays `Some(v)`, whatever calls are made |
| `Lazycell.UnfilledRunStaysEmpty` | src/lib.rs:24-26 | a new cell that is never filled stays empty and never panics, and every `filled` and `borrow` call shows it empty |
| `Lazycell.FillThenObserve` | src/lib.rs:31-37 | `fill(t)` on an empty cell succeeds, and every later call sees `t` (`filled` is true, `borrow` is `Some(t)`) |
| `Lazycell.FilledRunStopsAtFirstFill` | src/lib.rs:33-35 | on a filled cell, a sequence of calls panics exactly when it contains a `fill`, and it panics at the first one |
| `Lazycell.EmptyRunPanicsIffTwoFills` | src/lib.rs:31-37 | starting from empty, a sequence of calls panics exactly when it contains two `fill` calls |
| `Lazycell.FilledNeverReverts` | src/lib.rs:9-10 | once any call has shown the cell filled, no later call shows it empty |
| `Lazycell.LaterObservationsAgree` | src/lib.rs:44-51 | once `borrow` has returned `Some(v)`, every later `borrow` returns `Some(v)` and every later `filled` returns true: the value handed out stays what the cell holds |
| `Lazycell.Execute` | src/lib.rs:22-60 | making a sequence of calls on a real `LazyCell` object, and stopping at the `fill` that would panic, returns exactly the answers and the final slot that `Run` predicts |
| `Lazycell.HeldBorrowStaysValid` | src/lib.rs:44-54 | a caller that fills a new cell and holds the value from `borrow` still sees the same value after further `filled` and `borrow` calls, and `into_inner` then yields that value |

## Left out

- `src/serde_impl.rs`: it adapts the cell to serde's `Serializer`, `Deserializer` and `Visitor` traits, which are foreign library code. It also uses `AtomicLazyCell` and `LazyCell::replace`, and `src/lib.rs` defines neither of them. The serialization round trip is therefore not modelled.
- `AtomicLazyCell`, the thread-safe twin: its source is not part of this model, and the model has no concurrency.
- The `unsafe mem::transmute` lifetime extension in `borrow` (src/lib.rs:51) is about Rust's memory and borrow model. The model states only what a caller can observe from it: the value stays the same for as long as the cell lives (`FilledRunStable`, `LaterObservationsAgree`, `HeldBorrowStaysValid`). The model returns a value, not a reference.
- The `RefCell` borrow-flag bookkeeping (src/lib.rs:32, 41, 50) and its possible `BorrowMutError` panic: `inner` is a plain field.
- Lazycell.LazyCell.Fill: the panic on a filled cell is a precondition. The panic path appears only in `Step`, `Run` and `Execute`.
- Lazycell.LazyCell.IntoInner: does not model that `into_inner` consumes the cell, because Dafny has no ownership or move semantics. The cell object is still readable afterwards.
- Continuing after a caught panic (`catch_unwind` around the panic at src/lib.rs:34) is not modelled as part of the same trace: `Run` ends at the panic. The cell still holds its first value then (`Run` ensures the final slot is unchanged), and a new trace from that slot is covered by `FilledRunStable`.
- Dropping the cell and its value at the end of its life is not modelled: Dafny has garbage-collected objects.
- The `nightly`/`clippy` `cfg_attr` lines (src/lib.rs:12-13) are build configuration.
