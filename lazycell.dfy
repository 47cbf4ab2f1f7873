/**
 * A write-once, lazily filled cell (`LazyCell<T>` of the `lazycell` crate).
 *
 * The cell holds one slot, `inner`, that starts out empty and may be filled
 * once; afterwards its contents are frozen, which is what lets `borrow` hand
 * out a reference that lives as long as the cell itself.
 *
 * The module has two layers:
 *  - the class `LazyCell`, one mutable field and the crate's operations on it;
 *  - a value-level state machine (`Step`, `Run`) describing what a sequence of
 *    calls on a cell observes, including the panic of a second `fill`; the
 *    lemmas about `Run` state the freeze guarantee, and `Execute` proves the
 *    class follows that state machine call by call.
 */
module Lazycell {
  import opened Wrappers

  // ---------------------------------------------------------------------------
  // The cell
  // ---------------------------------------------------------------------------

  class LazyCell<T> {
    /** The slot: `None` while empty, `Some(v)` once filled with `v`. */
    var inner: Option<T>

    /** `LazyCell::new`: a cell that is not filled. */
    constructor ()
      ensures !Filled() && Borrow().None?
      ensures inner == None
    {
      inner := None;
    }

    /**
     * `LazyCell::fill`: store `t` in an empty cell. The crate panics when the
     * cell is already filled; here that call is excluded by the precondition
     * (the trace model below, `Step`, carries the panic as an outcome).
     */
    method Fill(t: T)
      requires !Filled()
      modifies this
      ensures Step(old(inner), CallFill(t)) == Ok(inner, Done)
      ensures Filled() && Borrow() == Some(t)
    {
      inner := Some(t);
    }

    /** `LazyCell::filled`: whether the cell holds a value; the state is unchanged. */
    function Filled(): (b: bool)
      reads this
      ensures Step(inner, CallFilled) == Ok(inner, Flag(b))
    {
      inner.Some?
    }

    /**
     * `LazyCell::borrow`: the stored value if the cell is filled, `None`
     * otherwise; the state is unchanged.
     */
    function Borrow(): (r: Option<T>)
      reads this
      ensures Step(inner, CallBorrow) == Ok(inner, Got(r))
      ensures r.Some? <==> Filled()
    {
      match inner
      case Some(v) => Some(v)
      case None => None
    }

    /** `LazyCell::into_inner`: the stored option, the same contents `borrow` shows. */
    function IntoInner(): (r: Option<T>)
      reads this
      ensures r == Borrow()
      ensures r.None? <==> !Filled()
    {
      inner
    }
  }

  // ---------------------------------------------------------------------------
  // The cell as a state machine over sequences of calls
  // ---------------------------------------------------------------------------

  /** One call a caller makes on a cell. */
  datatype Op<T> = CallFill(t: T) | CallFilled | CallBorrow

  /** What a call returns: `fill` returns unit, `filled` a flag, `borrow` the optional contents. */
  datatype Obs<T> = Done | Flag(b: bool) | Got(contents: Option<T>)

  /** The effect of one call: the new slot and the returned value, or a panic. */
  datatype StepResult<T> = Ok(next: Option<T>, out: Obs<T>) | Panic

  /** The effect of a sequence of calls: the final slot, what the calls returned, whether one panicked. */
  datatype Outcome<T> = Outcome(final: Option<T>, outs: seq<Obs<T>>, panicked: bool)

  /** One call on a cell whose slot is `s`. */
  function Step<T>(s: Option<T>, op: Op<T>): (r: StepResult<T>)
    // a fill panics exactly when the cell is already filled
    ensures r.Panic? <==> op.CallFill? && s.Some?
    // a filled slot is never emptied nor replaced
    ensures r.Ok? && s.Some? ==> r.next == s
    // fill is the only call that changes the slot
    ensures r.Ok? && !op.CallFill? ==> r.next == s
    ensures r.Ok? && op.CallFill? ==> r.next == Some(op.t) && r.out == Done
    ensures op.CallFilled? ==> r.Ok? && r.out.Flag? && (r.out.b <==> s.Some?)
    ensures op.CallBorrow? ==> r.Ok? && r.out == Got(s)
  {
    match op
    case CallFill(t) => if s.Some? then Panic else Ok(Some(t), Done)
    case CallFilled => Ok(s, Flag(s.Some?))
    case CallBorrow => Ok(s, Got(s))
  }

  /**
   * The calls `ops` made one after the other on a cell whose slot is `s`.
   * A panic ends the sequence: the slot keeps its value (the check comes
   * before the store) and no later call is made.
   */
  function Run<T>(s: Option<T>, ops: seq<Op<T>>): (r: Outcome<T>)
    ensures !r.panicked ==> |r.outs| == |ops|
    ensures r.panicked ==> |r.outs| < |ops| && ops[|r.outs|].CallFill? && r.final.Some?
    ensures s.Some? ==> r.final == s
    decreases |ops|
  {
    if ops == [] then Outcome(s, [], false)
    else
      match Step(s, ops[0])
      case Panic => Outcome(s, [], true)
      case Ok(next, out) =>
        var rest := Run(next, ops[1..]);
        Outcome(rest.final, [out] + rest.outs, rest.panicked)
  }

  /** `o` agrees with a cell filled with `v`. */
  ghost predicate Agrees<T>(v: T, o: Obs<T>) {
    (o.Flag? ==> o.b) && (o.Got? ==> o.contents == Some(v))
  }

  /** `o` shows the cell filled. */
  predicate ShowsFilled<T>(o: Obs<T>) {
    (o.Flag? && o.b) || (o.Got? && o.contents.Some?)
  }

  /** `o` shows the cell empty. */
  predicate ShowsEmpty<T>(o: Obs<T>) {
    (o.Flag? && !o.b) || (o.Got? && o.contents.None?)
  }

  /** No call in `ops` is a fill. */
  predicate NoFill<T>(ops: seq<Op<T>>) {
    forall i :: 0 <= i < |ops| ==> !ops[i].CallFill?
  }

  // ---------------------------------------------------------------------------
  // Properties of the state machine
  // ---------------------------------------------------------------------------

  /** Once filled with `v`, every later `filled` says true and every later `borrow` gives `v`. */
  lemma {:induction false} FilledRunStable<T>(v: T, ops: seq<Op<T>>)
    ensures var r := Run(Some(v), ops);
      r.final == Some(v) &&
      forall k :: 0 <= k < |r.outs| ==> Agrees(v, r.outs[k])
  {
    if ops != [] && Step(Some(v), ops[0]).Ok? {
      var out := Step(Some(v), ops[0]).out;
      FilledRunStable(v, ops[1..]);
      var rest := Run(Some(v), ops[1..]);
      assert Run(Some(v), ops).outs == [out] + rest.outs;
      forall k | 0 <= k < 1 + |rest.outs|
        ensures Agrees(v, ([out] + rest.outs)[k])
      {
        if k > 0 {
          assert ([out] + rest.outs)[k] == rest.outs[k - 1];
        }
      }
    }
  }

  /** A cell that is never filled stays empty, never panics, and every call shows it empty. */
  lemma {:induction false} UnfilledRunStaysEmpty<T>(ops: seq<Op<T>>)
    requires NoFill(ops)
    ensures var r := Run(None, ops);
      r.final == None && !r.panicked &&
      forall k :: 0 <= k < |r.outs| ==> ShowsEmpty(r.outs[k])
  {
    if ops != [] {
      assert !ops[0].CallFill?;
      assert NoFill(ops[1..]) by {
        forall i | 0 <= i < |ops[1..]| ensures !ops[1..][i].CallFill? {
          assert ops[1..][i] == ops[i + 1];
        }
      }
      UnfilledRunStaysEmpty(ops[1..]);
      var out := Step(None, ops[0]).out;
      var rest := Run(None, ops[1..]);
      forall k | 0 <= k < 1 + |rest.outs|
        ensures ShowsEmpty(([out] + rest.outs)[k])
      {
        if k > 0 {
          assert ([out] + rest.outs)[k] == rest.outs[k - 1];
        }
      }
    }
  }

  /**
   * On an empty cell, `fill(t)` succeeds, and from then on the cell holds
   * `t`: every later `filled` says true and every later `borrow` gives `t`.
   */
  lemma {:induction false} FillThenObserve<T>(t: T, ops: seq<Op<T>>)
    ensures var r := Run(None, [CallFill(t)] + ops);
      r.final == Some(t) && |r.outs| >= 1 && r.outs[0] == Done &&
      forall k :: 1 <= k < |r.outs| ==> Agrees(t, r.outs[k])
  {
    var all := [CallFill(t)] + ops;
    assert all[0] == CallFill(t) && all[1..] == ops;
    FilledRunStable(t, ops);
    var rest := Run(Some(t), ops);
    assert Run(None, all).outs == [Done] + rest.outs;
    forall k | 1 <= k < 1 + |rest.outs|
      ensures Agrees(t, ([Done] + rest.outs)[k])
    {
      assert ([Done] + rest.outs)[k] == rest.outs[k - 1];
    }
  }

  /**
   * On a filled cell, the first `fill` panics and nothing else does: the run
   * panics exactly when `ops` contains a fill, and stops right at the first one.
   */
  lemma {:induction false} FilledRunStopsAtFirstFill<T>(v: T, ops: seq<Op<T>>)
    ensures var r := Run(Some(v), ops);
      (r.panicked <==> exists i :: 0 <= i < |ops| && ops[i].CallFill?) &&
      forall i :: 0 <= i < |r.outs| ==> !ops[i].CallFill?
  {
    if ops != [] && !ops[0].CallFill? {
      FilledRunStopsAtFirstFill(v, ops[1..]);
      var tail := ops[1..];
      var rest := Run(Some(v), tail);
      assert Run(Some(v), ops).outs == [Step(Some(v), ops[0]).out] + rest.outs;
      if exists i :: 0 <= i < |ops| && ops[i].CallFill? {
        var i :| 0 <= i < |ops| && ops[i].CallFill?;
        assert tail[i - 1] == ops[i];
      }
      if exists i :: 0 <= i < |tail| && tail[i].CallFill? {
        var i :| 0 <= i < |tail| && tail[i].CallFill?;
        assert ops[i + 1] == tail[i];
      }
      forall i | 0 <= i < 1 + |rest.outs| ensures !ops[i].CallFill? {
        if i > 0 {
          assert ops[i] == tail[i - 1];
        }
      }
    }
  }

  /** Starting empty, a sequence of calls panics exactly when it contains two fills. */
  lemma {:induction false} EmptyRunPanicsIffTwoFills<T>(ops: seq<Op<T>>)
    ensures Run(None, ops).panicked <==>
      exists i, j :: 0 <= i < j < |ops| && ops[i].CallFill? && ops[j].CallFill?
  {
    if ops != [] {
      var tail := ops[1..];
      if ops[0].CallFill? {
        FilledRunStopsAtFirstFill(ops[0].t, tail);
        if exists j :: 0 <= j < |tail| && tail[j].CallFill? {
          var j :| 0 <= j < |tail| && tail[j].CallFill?;
          assert ops[j + 1] == tail[j];
        }
        if exists i, j :: 0 <= i < j < |ops| && ops[i].CallFill? && ops[j].CallFill? {
          var i, j :| 0 <= i < j < |ops| && ops[i].CallFill? && ops[j].CallFill?;
          assert tail[j - 1] == ops[j];
        }
      } else {
        EmptyRunPanicsIffTwoFills(tail);
        if exists i, j :: 0 <= i < j < |tail| && tail[i].CallFill? && tail[j].CallFill? {
          var i, j :| 0 <= i < j < |tail| && tail[i].CallFill? && tail[j].CallFill?;
          assert ops[i + 1] == tail[i] && ops[j + 1] == tail[j];
        }
        if exists i, j :: 0 <= i < j < |ops| && ops[i].CallFill? && ops[j].CallFill? {
          var i, j :| 0 <= i < j < |ops| && ops[i].CallFill? && ops[j].CallFill?;
          assert tail[i - 1] == ops[i] && tail[j - 1] == ops[j];
        }
      }
    }
  }

  /**
   * Once some call has shown the cell filled, no later call shows it empty.
   */
  lemma {:induction false} FilledNeverReverts<T>(s: Option<T>, ops: seq<Op<T>>, j: nat, k: nat)
    requires j < k < |Run(s, ops).outs|
    requires ShowsFilled(Run(s, ops).outs[j])
    ensures !ShowsEmpty(Run(s, ops).outs[k])
    decreases |ops|
  {
    var first := Step(s, ops[0]);
    var rest := Run(first.next, ops[1..]);
    assert Run(s, ops).outs == [first.out] + rest.outs;
    assert Run(s, ops).outs[k] == rest.outs[k - 1];
    if j == 0 {
      FilledRunStable(first.next.value, ops[1..]);
    } else {
      assert Run(s, ops).outs[j] == rest.outs[j - 1];
      FilledNeverReverts(first.next, ops[1..], j - 1, k - 1);
    }
  }

  /**
   * Once some `borrow` has returned `v`, every later `borrow` returns `v`
   * again and every later `filled` says true: a value handed out by `borrow`
   * stays what the cell holds for as long as the cell lives.
   */
  lemma {:induction false} LaterObservationsAgree<T>(s: Option<T>, ops: seq<Op<T>>, j: nat, k: nat, v: T)
    requires j < k < |Run(s, ops).outs|
    requires Run(s, ops).outs[j] == Got(Some(v))
    ensures Agrees(v, Run(s, ops).outs[k])
    decreases |ops|
  {
    var first := Step(s, ops[0]);
    var rest := Run(first.next, ops[1..]);
    assert Run(s, ops).outs == [first.out] + rest.outs;
    assert Run(s, ops).outs[k] == rest.outs[k - 1];
    if j == 0 {
      FilledRunStable(v, ops[1..]);
    } else {
      assert Run(s, ops).outs[j] == rest.outs[j - 1];
      LaterObservationsAgree(first.next, ops[1..], j - 1, k - 1, v);
    }
  }

  // ---------------------------------------------------------------------------
  // The class follows the state machine
  // ---------------------------------------------------------------------------

  /** `Run`'s outcome with the observations `p` made before it. */
  function After<T>(p: seq<Obs<T>>, r: Outcome<T>): Outcome<T> {
    Outcome(r.final, p + r.outs, r.panicked)
  }

  /** One successful call followed by the rest of the calls. */
  lemma RunAfterStep<T>(ops: seq<Op<T>>, p: seq<Obs<T>>, s: Option<T>, i: nat)
    requires i < |ops| && Step(s, ops[i]).Ok?
    ensures After(p, Run(s, ops[i..])) ==
      After(p + [Step(s, ops[i]).out], Run(Step(s, ops[i]).next, ops[i + 1..]))
  {
    assert ops[i..][0] == ops[i] && ops[i..][1..] == ops[i + 1..];
  }

  /**
   * Makes the calls `ops` on the cell `c`, in order, and stops at the `fill`
   * that would panic. What the calls return and the state they leave are
   * exactly those of `Run` from the cell's initial slot.
   */
  method Execute<T>(c: LazyCell<T>, ops: seq<Op<T>>) returns (outs: seq<Obs<T>>, panicked: bool)
    modifies c
    ensures Run(old(c.inner), ops) == Outcome(c.inner, outs, panicked)
  {
    outs, panicked := [], false;
    var i := 0;
    while i < |ops| && !panicked
      invariant 0 <= i <= |ops|
      invariant !panicked ==> Run(old(c.inner), ops) == After(outs, Run(c.inner, ops[i..]))
      invariant panicked ==> Run(old(c.inner), ops) == Outcome(c.inner, outs, true)
      decreases |ops| - i, !panicked
    {
      ghost var s := c.inner;
      if ops[i].CallFill? && c.Filled() {
        assert ops[i..][0] == ops[i];
        panicked := true;
      } else {
        RunAfterStep(ops, outs, s, i);
        var out: Obs<T>;
        match ops[i] {
          case CallFill(t) =>
            c.Fill(t);
            out := Done;
          case CallFilled =>
            var b := c.Filled();
            out := Flag(b);
          case CallBorrow =>
            var r := c.Borrow();
            out := Got(r);
        }
        outs := outs + [out];
        i := i + 1;
      }
    }
    if !panicked {
      assert ops[i..] == [];
    }
  }

  /**
   * A caller that fills a fresh cell with `t`, holds the value `borrow` gives,
   * and calls `filled` and `borrow` again: the held value is still what the
   * cell holds, and `into_inner` yields it.
   */
  method HeldBorrowStaysValid<T>(t: T) returns (before: Option<T>, held: Option<T>, later: Option<T>, consumed: Option<T>)
    ensures before == None
    ensures held == Some(t) && later == held && consumed == held
  {
    var c := new LazyCell<T>();
    before := c.Borrow();
    c.Fill(t);
    held := c.Borrow();
    var f := c.Filled();
    assert f;
    later := c.Borrow();
    consumed := c.IntoInner();
  }
}
