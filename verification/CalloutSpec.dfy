/** What the callout wheel is a fast form of: a map from each pending callout
    to the tick at which it is due, and a scheduler that always calls the
    handler of an earliest overdue callout. Ticks are unbounded here. */
module CalloutSpec {

  type Callout = nat
  type Int32 = x: int | -0x8000_0000 <= x < 0x8000_0000
  type Due = map<Callout, int>

  /** One call of callout_reset or callout_stop made by a handler. */
  datatype Op = Reset(c: Callout, toTicks: Int32) | Stop(c: Callout)

  /** One handler call: the callout that fired and the calls its handler made. */
  datatype Run = Run(c: Callout, ops: seq<Op>)

  /** What a handler does may depend on every handler call before it. */
  type Handlers = (seq<Run>, Callout) -> seq<Op>

  function ApplyOp(due: Due, op: Op, now: int): Due {
    match op
    case Reset(c, n) => due[c := now + if 0 < n then n else 1]
    case Stop(c) => due - {c}
  }

  function ApplyOps(due: Due, ops: seq<Op>, now: int): Due {
    if ops == [] then due
    else ApplyOp(ApplyOps(due, ops[..|ops| - 1], now), ops[|ops| - 1], now)
  }

  /** The map after the handler calls runs, in order, at clock now. */
  function After(due: Due, runs: seq<Run>, now: int): Due {
    if runs == [] then due
    else
      var last := runs[|runs| - 1];
      ApplyOps(After(due, runs[..|runs| - 1], now) - {last.c}, last.ops, now)
  }

  ghost predicate EarliestOverdue(due: Due, c: Callout, now: int) {
    c in due && due[c] < now && forall x | x in due :: due[c] <= due[x]
  }

  /** Every handler call was the one of an earliest overdue callout at that moment. */
  ghost predicate Legal(due: Due, runs: seq<Run>, now: int) {
    forall k | 0 <= k < |runs| :: EarliestOverdue(After(due, runs[..k], now), runs[k].c, now)
  }

  ghost predicate NoneBefore(due: Due, tick: int) {
    forall c | c in due :: tick <= due[c]
  }

  ghost predicate FromHandlers(runs: seq<Run>, h: Handlers) {
    forall k | 0 <= k < |runs| :: runs[k].ops == h(runs[..k], runs[k].c)
  }

  /** A whole callout_tick: legal handler calls until nothing is overdue. */
  ghost predicate Complete(due: Due, runs: seq<Run>, now: int, due': Due) {
    Legal(due, runs, now) && due' == After(due, runs, now) && NoneBefore(due', now)
  }

  predicate Touches(ops: seq<Op>, c: Callout) {
    exists k | 0 <= k < |ops| :: ops[k].c == c
  }

  predicate Fires(runs: seq<Run>, c: Callout) {
    exists k | 0 <= k < |runs| :: runs[k].c == c
  }

  /** c neither fired nor was stopped or re-armed by one of these handler calls. */
  ghost predicate Undisturbed(runs: seq<Run>, c: Callout) {
    forall k | 0 <= k < |runs| :: runs[k].c != c && !Touches(runs[k].ops, c)
  }

  lemma AfterSnoc(due: Due, runs: seq<Run>, r: Run, now: int)
    ensures After(due, runs + [r], now) == ApplyOps(After(due, runs, now) - {r.c}, r.ops, now)
  {
    assert (runs + [r])[..|runs|] == runs;
  }

  lemma LegalSnoc(due: Due, runs: seq<Run>, r: Run, now: int)
    requires Legal(due, runs, now) && EarliestOverdue(After(due, runs, now), r.c, now)
    ensures Legal(due, runs + [r], now)
  {
    forall k | 0 <= k < |runs + [r]|
      ensures EarliestOverdue(After(due, (runs + [r])[..k], now), (runs + [r])[k].c, now)
    {
      if k < |runs| {
        assert (runs + [r])[..k] == runs[..k];
      } else {
        assert (runs + [r])[..k] == runs;
      }
    }
  }

  lemma {:induction false} OpsKeep(due: Due, ops: seq<Op>, now: int, x: Callout)
    ensures !Touches(ops, x) ==> (x in ApplyOps(due, ops, now) <==> x in due)
    ensures !Touches(ops, x) && x in due ==> ApplyOps(due, ops, now)[x] == due[x]
    ensures Touches(ops, x) && x in ApplyOps(due, ops, now) ==> ApplyOps(due, ops, now)[x] > now
  {
    if ops != [] {
      var init, last := ops[..|ops| - 1], ops[|ops| - 1];
      OpsKeep(due, init, now, x);
      assert Touches(ops, x) <==> Touches(init, x) || last.c == x by {
        assert forall k | 0 <= k < |init| :: init[k] == ops[k];
        if Touches(ops, x) && last.c != x {
          var k :| 0 <= k < |ops| && ops[k].c == x;
          assert init[k].c == x;
        }
        if Touches(init, x) {
          var k :| 0 <= k < |init| && init[k].c == x;
          assert ops[k].c == x;
        }
      }
    }
  }

  /** A handler's last call on a callout decides what becomes of it. */
  lemma {:induction false} LastCallDecides(due: Due, ops: seq<Op>, now: int, k: nat)
    requires k < |ops| && forall j | k < j < |ops| :: ops[j].c != ops[k].c
    ensures var c, due' := ops[k].c, ApplyOps(due, ops, now);
            && (c in due' <==> ops[k].Reset?)
            && (ops[k].Reset? && 0 < ops[k].toTicks ==> due'[c] == now + ops[k].toTicks)
            && (ops[k].Reset? && ops[k].toTicks <= 0 ==> due'[c] == now + 1)
  {
    if k < |ops| - 1 {
      LastCallDecides(due, ops[..|ops| - 1], now, k);
    }
  }

  /** So does the last call made on it by any of several handlers, once the
      callout does not fire any more. */
  lemma {:induction false} LastRunDecides(due: Due, runs: seq<Run>, now: int, i: nat, k: nat)
    requires i < |runs| && k < |runs[i].ops|
    requires forall j | k < j < |runs[i].ops| :: runs[i].ops[j].c != runs[i].ops[k].c
    requires Undisturbed(runs[i + 1..], runs[i].ops[k].c)
    ensures var op, due' := runs[i].ops[k], After(due, runs, now);
            && (op.c in due' <==> op.Reset?)
            && (op.Reset? && 0 < op.toTicks ==> due'[op.c] == now + op.toTicks)
            && (op.Reset? && op.toTicks <= 0 ==> due'[op.c] == now + 1)
  {
    var init, last := runs[..|runs| - 1], runs[|runs| - 1];
    var before := After(due, init, now) - {last.c};
    if i == |runs| - 1 {
      LastCallDecides(before, last.ops, now, k);
    } else {
      var later := runs[i + 1..];
      assert later[|later| - 1] == last && init[i + 1..] == later[..|later| - 1];
      LastRunDecides(due, init, now, i, k);
      OpsKeep(before, last.ops, now, runs[i].ops[k].c);
    }
  }

  /** Whatever is pending after some handler calls was either pending from the
      start and left alone, or armed during the call and so due after now. */
  lemma {:induction false} Provenance(due: Due, runs: seq<Run>, now: int, x: Callout)
    ensures Undisturbed(runs, x) && x in due ==>
              x in After(due, runs, now) && After(due, runs, now)[x] == due[x]
    ensures x in After(due, runs, now) ==>
              || After(due, runs, now)[x] > now
              || (x in due && After(due, runs, now)[x] == due[x] && Undisturbed(runs, x))
  {
    if runs != [] {
      var init, last := runs[..|runs| - 1], runs[|runs| - 1];
      Provenance(due, init, now, x);
      var before := After(due, init, now) - {last.c};
      OpsKeep(before, last.ops, now, x);
      assert Undisturbed(runs, x) <==> Undisturbed(init, x) && last.c != x && !Touches(last.ops, x) by {
        assert forall k | 0 <= k < |init| :: init[k] == runs[k];
      }
    }
  }

  /** No early run, no second run, nothing armed during the call: the i-th
      handler call belongs to a callout that was due from the start and that
      no earlier handler call fired, stopped or re-armed. */
  lemma FiredWasDue(due: Due, runs: seq<Run>, now: int, i: nat)
    requires Legal(due, runs, now) && i < |runs|
    ensures runs[i].c in due && due[runs[i].c] < now
    ensures Undisturbed(runs[..i], runs[i].c)
    ensures After(due, runs[..i], now)[runs[i].c] == due[runs[i].c]
  {
    assert EarliestOverdue(After(due, runs[..i], now), runs[i].c, now);
    Provenance(due, runs[..i], now, runs[i].c);
  }

  /** Handler calls come in nondecreasing order of the tick they were due at. */
  lemma FiredInOrder(due: Due, runs: seq<Run>, now: int, i: nat, j: nat)
    requires Legal(due, runs, now) && i <= j < |runs|
    ensures runs[i].c in due && runs[j].c in due && due[runs[i].c] <= due[runs[j].c]
  {
    FiredWasDue(due, runs, now, i);
    FiredWasDue(due, runs, now, j);
    var a, b := runs[i].c, runs[j].c;
    assert Undisturbed(runs[..i], b) by {
      assert forall k | 0 <= k < i :: runs[..i][k] == runs[..j][k];
    }
    Provenance(due, runs[..i], now, b);
    Provenance(due, runs[..i], now, a);
    assert EarliestOverdue(After(due, runs[..i], now), a, now);
  }

  lemma FiresAtMostOnce(due: Due, runs: seq<Run>, now: int, i: nat, j: nat)
    requires Legal(due, runs, now) && i < j < |runs|
    ensures runs[i].c != runs[j].c
  {
    FiredWasDue(due, runs, now, j);
    assert runs[..j][i] == runs[i];
  }

  /** Anything a handler did to a fired callout came with or after its own run. */
  lemma DisturbedOnlyAfterRun(due: Due, runs: seq<Run>, now: int, i: nat, j: nat)
    requires Legal(due, runs, now) && i < |runs| && j < |runs| && Touches(runs[j].ops, runs[i].c)
    ensures i <= j && Fires(runs[..j + 1], runs[i].c)
  {
    FiredWasDue(due, runs, now, i);
    assert i <= j;
    assert runs[..j + 1][i] == runs[i];
  }

  /** An overdue callout that did not fire was stopped or re-armed before its turn. */
  lemma MissedWasDisturbed(due: Due, runs: seq<Run>, now: int, due': Due, c: Callout) returns (j: nat)
    requires Complete(due, runs, now, due') && c in due && due[c] < now && !Fires(runs, c)
    ensures j < |runs| && Touches(runs[j].ops, c) && !Fires(runs[..j + 1], c)
  {
    Provenance(due, runs, now, c);
    assert !Undisturbed(runs, c);
    j :| 0 <= j < |runs| && (runs[j].c == c || Touches(runs[j].ops, c));
    assert forall k | 0 <= k <= j :: runs[..j + 1][k] == runs[k];
  }

  /** One callout_tick fires exactly the overdue callouts that no handler call
      before their turn stopped or re-armed. */
  lemma FiresExactlyTheOverdue(due: Due, runs: seq<Run>, now: int, due': Due, c: Callout)
    requires Complete(due, runs, now, due')
    ensures Fires(runs, c) <==>
              && c in due && due[c] < now
              && forall j | 0 <= j < |runs| && Touches(runs[j].ops, c) :: Fires(runs[..j + 1], c)
  {
    if Fires(runs, c) {
      var i :| 0 <= i < |runs| && runs[i].c == c;
      FiredWasDue(due, runs, now, i);
      forall j | 0 <= j < |runs| && Touches(runs[j].ops, c) ensures Fires(runs[..j + 1], c) {
        DisturbedOnlyAfterRun(due, runs, now, i, j);
      }
    } else if c in due && due[c] < now {
      var j := MissedWasDisturbed(due, runs, now, due', c);
    }
  }
}
