/** What the plain map's histories say about one callout over many calls. */
module CalloutHistory {
  import opened CalloutSpec
  import opened CalloutWheel

  /** Calls, their outcomes and the states between them. */
  ghost predicate History(calls: seq<Call>, outcomes: seq<Outcome>, states: seq<Clocked>) {
    && |outcomes| == |calls| && |states| == |calls| + 1
    && forall k | 0 <= k < |calls| :: Step(states[k], calls[k], outcomes[k], states[k + 1])
  }

  /** No handler among these touches c. */
  ghost predicate LeftAlone(runs: seq<Run>, c: Callout) {
    forall k | 0 <= k < |runs| :: !Touches(runs[k].ops, c)
  }

  /** Neither a call from outside nor a handler it runs touches c. */
  ghost predicate Ignores(call: Call, outcome: Outcome, c: Callout) {
    && call != Cancel(c) && (call.Arm? ==> call.c != c)
    && (outcome.Ran? ==> LeftAlone(outcome.runs, c))
  }

  /** A callout no handler touches is gone once it has run and unchanged before. */
  lemma {:induction false} GoneOnceRun(due: Due, runs: seq<Run>, now: int, c: Callout)
    requires LeftAlone(runs, c)
    ensures c in After(due, runs, now) <==> c in due && !Fires(runs, c)
    ensures c in After(due, runs, now) ==> After(due, runs, now)[c] == due[c]
  {
    if runs != [] {
      var init, last := runs[..|runs| - 1], runs[|runs| - 1];
      GoneOnceRun(due, init, now, c);
      OpsKeep(After(due, init, now) - {last.c}, last.ops, now, c);
      assert Fires(runs, c) <==> Fires(init, c) || last.c == c by {
        assert forall k | 0 <= k < |init| :: init[k] == runs[k];
        if Fires(init, c) {
          var k :| 0 <= k < |init| && init[k].c == c;
          assert runs[k].c == c;
        }
      }
    }
  }

  /** A tick call that catches up and comes after tick d. */
  ghost predicate Catches(state: Clocked, call: Call, d: int) {
    call.Tick? && state.now - state.soft <= 0x8000_0000 && d < state.now
  }

  lemma TickFires(s: Clocked, call: Call, outcome: Outcome, s': Clocked, c: Callout)
    requires Step(s, call, outcome, s') && call.Tick? && LeftAlone(outcome.runs, c)
    ensures Fires(outcome.runs, c) <==> c in s.due && Catches(s, call, s.due[c])
    ensures c in s'.due <==> c in s.due && !Fires(outcome.runs, c)
    ensures c in s'.due ==> s'.due[c] == s.due[c]
  {
    if s.now - s.soft <= HALF {
      FiresExactlyTheOverdue(s.due, outcome.runs, s.now, s'.due, c);
      GoneOnceRun(s.due, outcome.runs, s.now, c);
    }
  }

  /** Until a catching-up tick call after its due tick an armed callout waits; then it is gone. */
  ghost predicate Waiting(s: Clocked, c: Callout, d: int, caught: bool) {
    if caught then c !in s.due else c in s.due && s.due[c] == d
  }

  lemma WaitingStep(s: Clocked, call: Call, outcome: Outcome, s': Clocked, c: Callout, d: int, caught: bool)
    requires Step(s, call, outcome, s') && Ignores(call, outcome, c) && Waiting(s, c, d, caught)
    ensures Waiting(s', c, d, caught || Catches(s, call, d))
  {
    if call.Tick? { TickFires(s, call, outcome, s', c); }
  }

  ghost predicate Caught(calls: seq<Call>, states: seq<Clocked>, i: nat, k: nat, d: int)
    requires k <= |calls| < |states|
  {
    exists n | i < n < k :: Catches(states[n], calls[n], d)
  }

  /** The callout is armed by call i for tick d, and no later call touches it. */
  ghost predicate ArmedOnce(calls: seq<Call>, outcomes: seq<Outcome>, states: seq<Clocked>, i: nat, c: Callout, d: int) {
    && History(calls, outcomes, states) && i < |calls|
    && calls[i].Arm? && calls[i].c == c && d == states[i].now + (if 0 < calls[i].toTicks then calls[i].toTicks else 1)
    && forall k | i < k < |calls| :: Ignores(calls[k], outcomes[k], c)
  }

  lemma {:induction false} WaitsUntilCaught(calls: seq<Call>, outcomes: seq<Outcome>, states: seq<Clocked>,
                                            i: nat, c: Callout, d: int, k: nat)
    requires ArmedOnce(calls, outcomes, states, i, c, d) && i < k <= |calls|
    ensures Waiting(states[k], c, d, Caught(calls, states, i, k, d))
  {
    assert Step(states[i], calls[i], outcomes[i], states[i + 1]);
    if k > i + 1 {
      var n := k - 1;
      WaitsUntilCaught(calls, outcomes, states, i, c, d, n);
      assert Step(states[n], calls[n], outcomes[n], states[n + 1]);
      WaitingStep(states[n], calls[n], outcomes[n], states[n + 1], c, d, Caught(calls, states, i, n, d));
      assert Caught(calls, states, i, k, d) <==> Caught(calls, states, i, n, d) || Catches(states[n], calls[n], d);
    }
  }

  /** Over a whole history, a callout armed once and not touched again fires in
      the first catching-up tick call after its due tick, and in no other. */
  lemma FiresInFirstCatchUp(calls: seq<Call>, outcomes: seq<Outcome>, states: seq<Clocked>,
                            i: nat, c: Callout, d: int, j: nat)
    requires ArmedOnce(calls, outcomes, states, i, c, d) && i < j < |calls| && calls[j].Tick?
    ensures outcomes[j].Ran?
    ensures Fires(outcomes[j].runs, c) <==>
            Catches(states[j], calls[j], d) && forall k | i < k < j :: !Catches(states[k], calls[k], d)
  {
    WaitsUntilCaught(calls, outcomes, states, i, c, d, j);
    assert Step(states[j], calls[j], outcomes[j], states[j + 1]);
    TickFires(states[j], calls[j], outcomes[j], states[j + 1], c);
  }

  /** More than 2^31 ticks behind, a tick call does what it should exactly if
      nothing is overdue. */
  lemma LateTickExact(s: Clocked, h: Handlers, outcome: Outcome, s': Clocked)
    requires Step(s, Tick(h), outcome, s') && s.now - s.soft > 0x8000_0000
    ensures Complete(s.due, outcome.runs, s.now, s'.due) <==> NoneBefore(s.due, s.now)
  {
  }

  /** A callout due at tick 1 and a clock 2^31 + 1 ticks behind: it does not run. */
  lemma LateTickExample(h: Handlers)
    ensures var s := Clocked(map[1 := 1], 0, 0x8000_0001);
            Step(s, Tick(h), Ran([]), s) && !Complete(s.due, [], s.now, s.due)
  {
    var s := Clocked(map[1 := 1], 0, 0x8000_0001);
    assert 1 in s.due && s.due[1] < s.now;
    LateTickExact(s, h, Ran([]), s);
  }
}
